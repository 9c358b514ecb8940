/**
 * The presence registry: the ids of online users, stored as their decimal
 * text in one Redis set under a fixed key. The two mutators are best effort
 * (a store failure is logged and swallowed); the reader lets a failure through.
 */
module UserStatus {
  import opened Wrappers
  import opened Decimal

  /** `ONLINE_USERS_SET`. */
  const OnlineUsersSet := "online-users"

  /** The Redis keyspace, as far as sets go. */
  type Keyspace = map<string, set<string>>

  datatype LogEntry = Info(message: string) | Error(message: string)

  /** `SMEMBERS key`: a missing key reads as the empty set. */
  function Members(redis: Keyspace, key: string): set<string> {
    if key in redis then redis[key] else {}
  }

  /** The keyspace after a successful `SADD key member`. */
  function Added(redis: Keyspace, key: string, member: string): (after: Keyspace)
    ensures Members(after, key) == Members(redis, key) + {member}
    ensures forall k :: k != key ==> (k in after <==> k in redis) && (k in redis ==> after[k] == redis[k])
  {
    redis[key := Members(redis, key) + {member}]
  }

  /** The keyspace after a successful `SREM key member`; Redis drops a set once it is empty. */
  function Removed(redis: Keyspace, key: string, member: string): (after: Keyspace)
    ensures Members(after, key) == Members(redis, key) - {member}
    ensures key in after ==> after[key] != {}
    ensures forall k :: k != key ==> (k in after <==> k in redis) && (k in redis ==> after[k] == redis[k])
  {
    var rest := Members(redis, key) - {member};
    if rest == {} then redis - {key} else redis[key := rest]
  }

  /** Adding a member that is already there changes nothing, so a second `SADD` is a no-op. */
  lemma AddedIdempotent(redis: Keyspace, key: string, member: string)
    ensures Added(Added(redis, key, member), key, member) == Added(redis, key, member)
  {
  }

  /** Removing a member that is not there changes nothing, provided no empty set is stored under the key. */
  lemma RemovedAbsentIsNoOp(redis: Keyspace, key: string, member: string)
    requires key in redis ==> redis[key] != {}
    requires member !in Members(redis, key)
    ensures Removed(redis, key, member) == redis
  {
    if key in redis {
      assert Members(redis, key) - {member} == redis[key];
    } else {
      assert redis - {key} == redis;
    }
  }

  /** `(await sMembers(...)).map((s) => +s)`. */
  function ToNumbers(reply: seq<string>): (ids: seq<int>)
    requires forall i :: 0 <= i < |reply| ==> IsCanonical(reply[i])
    ensures |ids| == |reply|
    ensures forall i :: 0 <= i < |reply| ==> ToDecimal(ids[i]) == reply[i]
  {
    if reply == [] then []
    else
      assert IsCanonical(reply[0]);
      var rest := ToNumbers(reply[1..]);
      assert forall i :: 1 <= i < |reply| ==> ToDecimal(rest[i - 1]) == reply[i];
      [ParseNumber(reply[0]).value] + rest
  }

  /** Mapping a listing of the registry back to numbers gives each online id exactly once. */
  lemma {:induction false} ToNumbersReversesToDecimal(reply: seq<string>, id: int)
    requires forall i :: 0 <= i < |reply| ==> IsCanonical(reply[i])
    ensures id in ToNumbers(reply) <==> ToDecimal(id) in reply
  {
    var ids := ToNumbers(reply);
    if id in ids {
      var i :| 0 <= i < |ids| && ids[i] == id;
      assert reply[i] == ToDecimal(id);
    }
    if ToDecimal(id) in reply {
      var i :| 0 <= i < |reply| && reply[i] == ToDecimal(id);
      ToDecimalInjective(ids[i], id);
    }
  }

  class PresenceRegistry {
    var redis: Keyspace
    var log: seq<LogEntry>

    /** Only decimal texts of ids are ever stored, and Redis keeps no empty set. */
    ghost predicate Valid()
      reads this
    {
      && (forall s :: s in Members(redis, OnlineUsersSet) ==> IsCanonical(s))
      && (OnlineUsersSet in redis ==> redis[OnlineUsersSet] != {})
    }

    predicate IsOnline(userId: int)
      reads this
    {
      ToDecimal(userId) in Members(redis, OnlineUsersSet)
    }

    constructor (redis: Keyspace)
      requires forall s :: s in Members(redis, OnlineUsersSet) ==> IsCanonical(s)
      requires OnlineUsersSet in redis ==> redis[OnlineUsersSet] != {}
      ensures Valid() && this.redis == redis && log == []
    {
      this.redis := redis;
      log := [];
    }

    /**
     * `setOnline`. `failure` is `Some(e)` when `sAdd` rejects with `e`; the
     * error is logged and swallowed, and nothing is stored.
     */
    method SetOnline(userId: int, failure: Option<string>)
      requires Valid()
      modifies this
      ensures Valid()
      ensures failure.None? ==>
        && redis == Added(old(redis), OnlineUsersSet, ToDecimal(userId))
        && log == old(log) + [Info("User with ID " + ToDecimal(userId) + " is now online.")]
        && IsOnline(userId)
      ensures failure.Some? ==>
        && redis == old(redis)
        && log == old(log) + [Error("Error setting user with ID " + ToDecimal(userId) + " online: " + failure.value)]
      ensures forall other :: other != userId ==> (IsOnline(other) <==> old(IsOnline(other)))
    {
      var member := ToDecimal(userId);
      if failure.Some? {
        log := log + [Error("Error setting user with ID " + member + " online: " + failure.value)];
        return;
      }
      ToDecimalIsCanonical(userId);
      redis := Added(redis, OnlineUsersSet, member);
      log := log + [Info("User with ID " + member + " is now online.")];
      forall other | other != userId
        ensures IsOnline(other) <==> old(IsOnline(other))
      {
        ToDecimalInjective(other, userId);
      }
    }

    /**
     * `setOffline`, with the same best-effort policy. On an id that is not
     * online it leaves the store as it was and reports no error.
     */
    method SetOffline(userId: int, failure: Option<string>)
      requires Valid()
      modifies this
      ensures Valid()
      ensures failure.None? ==>
        && redis == Removed(old(redis), OnlineUsersSet, ToDecimal(userId))
        && log == old(log) + [Info("User with ID " + ToDecimal(userId) + " is now offline.")]
        && !IsOnline(userId)
        && (!old(IsOnline(userId)) ==> redis == old(redis))
      ensures failure.Some? ==>
        && redis == old(redis)
        && log == old(log) + [Error("Error setting user with ID " + ToDecimal(userId) + " offline: " + failure.value)]
      ensures forall other :: other != userId ==> (IsOnline(other) <==> old(IsOnline(other)))
    {
      var member := ToDecimal(userId);
      if failure.Some? {
        log := log + [Error("Error setting user with ID " + member + " offline: " + failure.value)];
        return;
      }
      if !IsOnline(userId) {
        RemovedAbsentIsNoOp(redis, OnlineUsersSet, member);
      }
      redis := Removed(redis, OnlineUsersSet, member);
      log := log + [Info("User with ID " + member + " is now offline.")];
      forall other | other != userId
        ensures IsOnline(other) <==> old(IsOnline(other))
      {
        ToDecimalInjective(other, userId);
      }
    }

    /** `SMEMBERS`: the members of the set under `key`, each once, in the order the store chooses. */
    method SMembers(key: string) returns (reply: seq<string>)
      ensures forall s :: s in reply <==> s in Members(redis, key)
      ensures forall i, j :: 0 <= i < j < |reply| ==> reply[i] != reply[j]
    {
      var pending := Members(redis, key);
      reply := [];
      while pending != {}
        invariant pending <= Members(redis, key)
        invariant forall s :: s in reply <==> s in Members(redis, key) - pending
        invariant forall i, j :: 0 <= i < j < |reply| ==> reply[i] != reply[j]
        decreases pending
      {
        if forall s :: s !in pending { assert false; }
        var s :| s in pending;
        reply := reply + [s];
        pending := pending - {s};
      }
    }

    /**
     * `getAllOnlineUsers`. Unlike the mutators it has no `try`: a failed read
     * (`failure == Some(e)`) rejects with `e`. Otherwise every online id
     * appears exactly once.
     */
    method GetAllOnlineUsers(failure: Option<string>) returns (r: Result<seq<int>, string>)
      requires Valid()
      ensures failure.Some? ==> r == Err(failure.value)
      ensures failure.None? ==> r.Ok?
      ensures r.Ok? ==> forall id :: id in r.value <==> IsOnline(id)
      ensures r.Ok? ==> forall i, j :: 0 <= i < j < |r.value| ==> r.value[i] != r.value[j]
    {
      if failure.Some? {
        return Err(failure.value);
      }
      var reply := SMembers(OnlineUsersSet);
      var ids := ToNumbers(reply);
      forall id
        ensures id in ids <==> IsOnline(id)
      {
        ToNumbersReversesToDecimal(reply, id);
      }
      assert forall i :: 0 <= i < |ids| ==> ToDecimal(ids[i]) == reply[i];
      r := Ok(ids);
    }
  }

  /**
   * Two `setOnline` calls for the same id and one `setOffline` for an id that
   * was never online, then a read: the id is listed exactly once.
   */
  method SetOnlineTwice(userId: int, absent: int) returns (r: Result<seq<int>, string>)
    requires absent != userId
    ensures r.Ok? && userId in r.value && absent !in r.value
    ensures r.Ok? ==> multiset(r.value)[userId] == 1
  {
    var registry := new PresenceRegistry(map[]);
    registry.SetOnline(userId, None);
    registry.SetOnline(userId, None);
    registry.SetOffline(absent, None);
    r := registry.GetAllOnlineUsers(None);
    DistinctCountsOnce(r.value, userId);
  }

  lemma {:induction false} DistinctCountsOnce(s: seq<int>, x: int)
    requires x in s
    requires forall i, j :: 0 <= i < j < |s| ==> s[i] != s[j]
    ensures multiset(s)[x] == 1
  {
    if s[0] == x {
      assert x !in s[1..];
      assert s == [s[0]] + s[1..];
    } else {
      DistinctCountsOnce(s[1..], x);
      assert s == [s[0]] + s[1..];
    }
  }
}
