/** The bounded memory of nonces that stops replays: every add first drops the entries that have
    outlived the TTL. */
module NonceCache {
  import opened Text
  import opened GoTime

  type Seen = map<Str, Time>

  predicate Expired(ttl: Duration, at: Time, now: Time) {
    Sub(now, at) > ttl
  }

  function Pruned(ttl: Duration, seen: Seen, now: Time): Seen {
    map k | k in seen && !Expired(ttl, seen[k], now) :: seen[k]
  }

  /** The verdict of add and the map it leaves. */
  function Added(ttl: Duration, seen: Seen, nonce: Str, now: Time): (r: (bool, Seen)) {
    var kept := Pruned(ttl, seen, now);
    if nonce in kept then (false, kept) else (true, kept[nonce := now])
  }

  class Cache {
    const ttl: Duration
    var seen: Seen

    constructor (ttl: Duration)
      ensures this.ttl == ttl && seen == map[]
    {
      this.ttl := ttl;
      seen := map[];
    }

    /** The loop may visit the entries in any order. */
    method Add(nonce: Str, now: Time) returns (unseen: bool)
      modifies this
      ensures (unseen, seen) == Added(ttl, old(seen), nonce, now)
    {
      var todo := seen.Keys;
      while todo != {}
        invariant todo <= seen.Keys
        invariant seen == map k | k in old(seen) && (k in todo || !Expired(ttl, old(seen)[k], now)) :: old(seen)[k]
      {
        var k :| k in todo;
        todo := todo - {k};
        if Sub(now, seen[k]) > ttl {
          seen := seen - {k};
        }
      }
      assert seen == Pruned(ttl, old(seen), now);
      if nonce in seen {
        return false;
      }
      seen := seen[nonce := now];
      return true;
    }
  }

  /* ---- the cache against the whole history of calls ---- */

  datatype Call = Call(nonce: Str, at: Time)

  /** Calls made at the instants of a clock that never runs backwards. */
  predicate OnClock(calls: seq<Call>) {
    forall i, j :: 0 <= i <= j < |calls| ==> calls[i].at <= calls[j].at
  }

  /** The map after a run of calls from an empty cache. */
  function After(ttl: Duration, calls: seq<Call>): Seen {
    if |calls| == 0 then map[]
    else
      var last := calls[|calls| - 1];
      Added(ttl, After(ttl, calls[..|calls| - 1]), last.nonce, last.at).1
  }

  /** The answer the cache gives to call i of the run. */
  predicate Accepts(ttl: Duration, calls: seq<Call>, i: nat)
    requires i < |calls|
  {
    Added(ttl, After(ttl, calls[..i]), calls[i].nonce, calls[i].at).0
  }

  /** The reference rule, which forgets nothing: a call is accepted unless an accepted earlier call
      used the same nonce at most ttl ago. */
  ghost predicate HistoryAccepts(ttl: Duration, calls: seq<Call>, i: nat)
    requires i < |calls|
    decreases i
  {
    !exists j: nat :: j < i && Blocks(ttl, calls, j, i) && HistoryAccepts(ttl, calls, j)
  }

  predicate Blocks(ttl: Duration, calls: seq<Call>, j: nat, i: nat)
    requires j < i < |calls|
  {
    calls[j].nonce == calls[i].nonce && calls[i].at - calls[j].at <= ttl
  }

  /** Call i was accepted and is not yet older than ttl. */
  predicate Live(ttl: Duration, calls: seq<Call>, i: nat, now: Time)
    requires i < |calls|
  {
    Accepts(ttl, calls, i) && now - calls[i].at <= ttl
  }

  lemma PrefixOnClock(calls: seq<Call>, n: nat)
    requires OnClock(calls) && n <= |calls|
    ensures OnClock(calls[..n])
  {
  }

  lemma PrefixAccepts(ttl: Duration, calls: seq<Call>, n: nat, i: nat)
    requires i < n <= |calls|
    ensures Accepts(ttl, calls[..n], i) == Accepts(ttl, calls, i)
  {
    assert calls[..n][..i] == calls[..i];
  }

  /** Every entry of the map is a live accepted call, at the instant of that call. */
  lemma {:induction false} EntriesAreLive(ttl: Duration, calls: seq<Call>, nonce: Str) returns (i: nat)
    requires OnClock(calls) && 0 <= ttl < MAX_INT64
    requires nonce in After(ttl, calls)
    ensures i < |calls| && calls[i] == Call(nonce, After(ttl, calls)[nonce])
    ensures Live(ttl, calls, i, calls[|calls| - 1].at)
  {
    var n := |calls| - 1;
    var last, before := calls[n], After(ttl, calls[..n]);
    if Accepts(ttl, calls, n) && nonce == last.nonce {
      return n;
    }
    PrefixOnClock(calls, n);
    i := EntriesAreLive(ttl, calls[..n], nonce);
    PrefixAccepts(ttl, calls, n, i);
  }

  /** Adding drops no entry that is still within the ttl, and overwrites none. */
  lemma AddedKeeps(ttl: Duration, seen: Seen, nonce: Str, now: Time, k: Str)
    requires k in seen && !Expired(ttl, seen[k], now)
    ensures k in Added(ttl, seen, nonce, now).1 && Added(ttl, seen, nonce, now).1[k] == seen[k]
  {
  }

  /** Every live accepted call is still in the map, and nothing has overwritten it. */
  lemma {:induction false} LiveAreEntries(ttl: Duration, calls: seq<Call>, i: nat)
    requires OnClock(calls) && i < |calls|
    requires Live(ttl, calls, i, calls[|calls| - 1].at)
    ensures calls[i].nonce in After(ttl, calls) && After(ttl, calls)[calls[i].nonce] == calls[i].at
  {
    var n := |calls| - 1;
    if i < n {
      PrefixOnClock(calls, n);
      PrefixAccepts(ttl, calls, n, i);
      var before := calls[..n];
      assert before[i] == calls[i] && before[|before| - 1].at <= calls[n].at;
      LiveAreEntries(ttl, before, i);
      AddedKeeps(ttl, After(ttl, before), calls[n].nonce, calls[n].at, calls[i].nonce);
    }
  }

  /** The cache answers no exactly when an accepted call of that nonce is at most ttl old. */
  lemma RejectsExactlyReplays(ttl: Duration, calls: seq<Call>, i: nat)
    requires OnClock(calls) && 0 <= ttl < MAX_INT64 && i < |calls|
    ensures !Accepts(ttl, calls, i) <==>
            exists j: nat :: j < i && Blocks(ttl, calls, j, i) && Accepts(ttl, calls, j)
  {
    var before, call := calls[..i], calls[i];
    PrefixOnClock(calls, i);
    if call.nonce in After(ttl, before) {
      var j := EntriesAreLive(ttl, before, call.nonce);
      PrefixAccepts(ttl, calls, i, j);
    }
    if j: nat :| j < i && Blocks(ttl, calls, j, i) && Accepts(ttl, calls, j) {
      PrefixAccepts(ttl, calls, i, j);
      LiveAreEntries(ttl, before, j);
    }
  }

  /** The pruned cache refines the rule over the unbounded history. */
  lemma {:induction false} CacheRefinesHistory(ttl: Duration, calls: seq<Call>, i: nat)
    requires OnClock(calls) && 0 <= ttl < MAX_INT64 && i < |calls|
    ensures Accepts(ttl, calls, i) <==> HistoryAccepts(ttl, calls, i)
    decreases i
  {
    forall j: nat | j < i
      ensures Accepts(ttl, calls, j) <==> HistoryAccepts(ttl, calls, j)
    {
      CacheRefinesHistory(ttl, calls, j);
    }
    RejectsExactlyReplays(ttl, calls, i);
  }

  /** Two accepted uses of a nonce are more than ttl apart. */
  lemma AcceptedApart(ttl: Duration, calls: seq<Call>, i: nat, j: nat)
    requires OnClock(calls) && 0 <= ttl < MAX_INT64 && i < j < |calls|
    requires calls[i].nonce == calls[j].nonce && Accepts(ttl, calls, i) && Accepts(ttl, calls, j)
    ensures calls[j].at - calls[i].at > ttl
  {
    RejectsExactlyReplays(ttl, calls, j);
    assert !Blocks(ttl, calls, i, j);
  }

  ghost function LiveCalls(ttl: Duration, calls: seq<Call>, now: Time): set<nat> {
    set i: nat | i < |calls| && Live(ttl, calls, i, now)
  }

  /** Conservation: right after a call the map holds as many entries as there were accepted calls
      in the last ttl. */
  lemma SizeCountsLiveCalls(ttl: Duration, calls: seq<Call>)
    requires OnClock(calls) && 0 <= ttl < MAX_INT64 && |calls| > 0
    ensures |After(ttl, calls)| == |LiveCalls(ttl, calls, calls[|calls| - 1].at)|
  {
    var seen, now := After(ttl, calls), calls[|calls| - 1].at;
    var live := LiveCalls(ttl, calls, now);
    forall i | i in live
      ensures calls[i].nonce in seen
    {
      LiveAreEntries(ttl, calls, i);
    }
    forall i, j | i in live && j in live && i < j
      ensures calls[i].nonce != calls[j].nonce
    {
      if calls[i].nonce == calls[j].nonce {
        AcceptedApart(ttl, calls, i, j);
      }
    }
    forall k | k in seen
      ensures exists i :: i in live && calls[i].nonce == k
    {
      var i := EntriesAreLive(ttl, calls, k);
      assert i in live;
    }
    SameSize(calls, live, seen.Keys);
  }

  /** An exact labelling of indices by nonces matches the sizes. */
  lemma {:induction false} SameSize(calls: seq<Call>, indices: set<nat>, nonces: set<Str>)
    requires forall i | i in indices :: i < |calls| && calls[i].nonce in nonces
    requires forall i, j | i in indices && j in indices && i < j :: calls[i].nonce != calls[j].nonce
    requires forall k | k in nonces :: exists i :: i in indices && calls[i].nonce == k
    ensures |indices| == |nonces|
    decreases nonces
  {
    if k :| k in nonces {
      var i :| i in indices && calls[i].nonce == k;
      forall m | m in nonces - {k}
        ensures exists j :: j in indices - {i} && calls[j].nonce == m
      {
        var j :| j in indices && calls[j].nonce == m;
        assert j in indices - {i};
      }
      SameSize(calls, indices - {i}, nonces - {k});
    } else {
      assert indices == {};
    }
  }
}
