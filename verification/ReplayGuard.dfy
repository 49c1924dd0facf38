/** What the replay guard promises over whole runs of lock commands. */
module ReplayGuard {
  import opened Text
  import opened GoTime
  import opened Wire
  import opened Core
  import NonceCache

  /** One payload handed to Handle, with what the call reads. */
  datatype Input = Input(env: Env, payload: Payload)

  function After(m: Machine, ttl: Duration, inputs: seq<Input>): CoreState {
    if |inputs| == 0 then CoreState(map[], 0)
    else
      var last := inputs[|inputs| - 1];
      Step(m, ttl, After(m, ttl, inputs[..|inputs| - 1]), last.env, last.payload).0
  }

  /** Input i makes the agent call the session's Lock. */
  predicate Executes(m: Machine, ttl: Duration, inputs: seq<Input>, i: nat)
    requires i < |inputs|
  {
    After(m, ttl, inputs[..i + 1]).lockCalls > After(m, ttl, inputs[..i]).lockCalls
  }

  /** The two readings of each call, and the calls among themselves, follow one clock. */
  predicate OnClock(inputs: seq<Input>) {
    && (forall i :: 0 <= i < |inputs| ==>
          PresentDay(inputs[i].env.skewAt) && PresentDay(inputs[i].env.nonceAt)
          && inputs[i].env.skewAt <= inputs[i].env.nonceAt)
    && (forall i, j :: 0 <= i < j < |inputs| ==> inputs[i].env.nonceAt <= inputs[j].env.skewAt)
  }

  /** All readings of the inputs are in the past. */
  predicate Before(inputs: seq<Input>, now: Time) {
    forall k :: 0 <= k < |inputs| ==> inputs[k].env.nonceAt <= now
  }

  lemma OnClockAdds(inputs: seq<Input>, next: Input, earlier: Time, now: Time)
    requires OnClock(inputs) && Before(inputs, earlier)
    requires 0 <= earlier <= next.env.skewAt <= next.env.nonceAt <= now && PresentDay(now)
    ensures OnClock(inputs + [next]) && Before(inputs + [next], now)
  {
  }

  lemma BeforeLater(inputs: seq<Input>, earlier: Time, now: Time)
    requires Before(inputs, earlier) && earlier <= now
    ensures Before(inputs, now)
  {
  }

  /** The skew test, in exact arithmetic. */
  predicate WithinSkew(ts: int64, now: Time) {
    -30 * SECOND <= now - ts * SECOND <= 30 * SECOND
  }

  /** Saturation and wrap-around never show: the test is exact for every int64 timestamp, also on the
      difference as Go computes it. */
  lemma FreshIsExact(ts: int64, now: Time)
    requires PresentDay(now)
    ensures Fresh(ts, now) <==> WithinSkew(ts, now)
    ensures -MAX_SKEW <= CheckedSub(now, Unix(ts)) <= MAX_SKEW <==> WithinSkew(ts, now)
  {
    UnixIsRepresentable(ts);
    CheckedSubIsSub(now, Unix(ts));
  }

  /** The input is a lock command that gets as far as the nonce cache. */
  predicate Consults(input: Input) {
    input.payload.kind == KIND_LOCK && ReachesCache(input.payload, input.env.skewAt)
  }

  /** The calls a run makes to the nonce cache. */
  function CacheCalls(inputs: seq<Input>): seq<NonceCache.Call> {
    if |inputs| == 0 then []
    else
      var last := inputs[|inputs| - 1];
      CacheCalls(inputs[..|inputs| - 1])
      + if Consults(last) then [NonceCache.Call(last.payload.nonce, last.env.nonceAt)] else []
  }

  lemma KindsDiffer()
    ensures KIND_LOCK != KIND_STATUS_REQUEST
  {
    assert |KIND_LOCK| == 4 && |KIND_STATUS_REQUEST| == 14;
  }

  /** The cache of the core is the cache after those calls. */
  lemma {:induction false} SeenIsCacheAfter(m: Machine, ttl: Duration, inputs: seq<Input>)
    ensures After(m, ttl, inputs).seen == NonceCache.After(ttl, CacheCalls(inputs))
  {
    if |inputs| > 0 {
      var front, last := inputs[..|inputs| - 1], inputs[|inputs| - 1];
      SeenIsCacheAfter(m, ttl, front);
      KindsDiffer();
      if Consults(last) {
        var calls := CacheCalls(inputs);
        assert calls[..|calls| - 1] == CacheCalls(front);
      } else {
        assert CacheCalls(inputs) == CacheCalls(front);
      }
    }
  }

  /** The place of input i among the cache calls. */
  function Position(inputs: seq<Input>, i: nat): nat
    requires i <= |inputs|
  {
    |CacheCalls(inputs[..i])|
  }

  lemma {:induction false} CallsOfPrefix(inputs: seq<Input>, n: nat)
    requires n <= |inputs|
    ensures CacheCalls(inputs[..n]) <= CacheCalls(inputs)
  {
    if n == |inputs| {
      assert inputs[..n] == inputs;
    } else {
      var front := inputs[..|inputs| - 1];
      CallsOfPrefix(front, n);
      assert front[..n] == inputs[..n];
    }
  }

  lemma PositionHoldsCall(inputs: seq<Input>, i: nat)
    requires i < |inputs| && Consults(inputs[i])
    ensures Position(inputs, i) < Position(inputs, i + 1) <= |CacheCalls(inputs)|
    ensures CacheCalls(inputs)[..Position(inputs, i)] == CacheCalls(inputs[..i])
    ensures CacheCalls(inputs)[Position(inputs, i)]
            == NonceCache.Call(inputs[i].payload.nonce, inputs[i].env.nonceAt)
  {
    assert inputs[..i + 1][..i] == inputs[..i];
    CallsOfPrefix(inputs, i);
    CallsOfPrefix(inputs, i + 1);
    CallsOfPrefix(inputs[..i + 1], i);
  }

  /** Every cache call comes from an input. */
  lemma {:induction false} CallHasInput(inputs: seq<Input>, q: nat) returns (i: nat)
    requires q < |CacheCalls(inputs)|
    ensures i < |inputs| && Consults(inputs[i]) && Position(inputs, i) == q
  {
    var n := |inputs| - 1;
    if q == |CacheCalls(inputs[..n])| {
      i := n;
    } else {
      i := CallHasInput(inputs[..n], q);
      assert inputs[..n][..i] == inputs[..i];
    }
  }

  lemma {:induction false} PositionsIncrease(inputs: seq<Input>, i: nat, j: nat)
    requires i < j <= |inputs| && Consults(inputs[i])
    ensures Position(inputs, i) < Position(inputs, j)
  {
    PositionHoldsCall(inputs, i);
    CallsOfPrefix(inputs[..j], i + 1);
    assert inputs[..j][..i + 1] == inputs[..i + 1];
  }

  lemma CallsOnClock(inputs: seq<Input>)
    requires OnClock(inputs)
    ensures NonceCache.OnClock(CacheCalls(inputs))
  {
    var calls := CacheCalls(inputs);
    forall q, r | 0 <= q <= r < |calls|
      ensures calls[q].at <= calls[r].at
    {
      var i := CallHasInput(inputs, q);
      var j := CallHasInput(inputs, r);
      PositionHoldsCall(inputs, i);
      PositionHoldsCall(inputs, j);
      if j < i {
        PositionsIncrease(inputs, j, i);
      }
    }
  }

  /** An input executes exactly when the cache accepts its call. */
  lemma ExecutesIsAcceptance(m: Machine, ttl: Duration, inputs: seq<Input>, i: nat)
    requires i < |inputs|
    ensures Consults(inputs[i]) ==> Position(inputs, i) < |CacheCalls(inputs)|
    ensures Executes(m, ttl, inputs, i)
            <==> Consults(inputs[i]) && NonceCache.Accepts(ttl, CacheCalls(inputs), Position(inputs, i))
  {
    assert inputs[..i + 1][..i] == inputs[..i];
    SeenIsCacheAfter(m, ttl, inputs[..i]);
    KindsDiffer();
    if Consults(inputs[i]) {
      PositionHoldsCall(inputs, i);
    }
  }

  /** An earlier execution that still blocks input i. */
  predicate BlockedBy(m: Machine, ttl: Duration, inputs: seq<Input>, j: nat, i: nat)
    requires j < i < |inputs|
  {
    && Executes(m, ttl, inputs, j)
    && inputs[j].payload.nonce == inputs[i].payload.nonce
    && inputs[i].env.nonceAt - inputs[j].env.nonceAt <= ttl
  }

  /** Exactly which commands lock the session, over any run: those with a nonce and a timestamp
      within the skew, unless an earlier command with that nonce executed at most ttl ago. */
  lemma ExecutesExactly(m: Machine, ttl: Duration, inputs: seq<Input>, i: nat)
    requires OnClock(inputs) && 0 <= ttl < MAX_INT64 && i < |inputs|
    ensures Executes(m, ttl, inputs, i) <==>
            && inputs[i].payload.kind == KIND_LOCK
            && inputs[i].payload.nonce != []
            && WithinSkew(inputs[i].payload.ts, inputs[i].env.skewAt)
            && !exists j: nat :: j < i && BlockedBy(m, ttl, inputs, j, i)
  {
    var calls := CacheCalls(inputs);
    FreshIsExact(inputs[i].payload.ts, inputs[i].env.skewAt);
    ExecutesIsAcceptance(m, ttl, inputs, i);
    if Consults(inputs[i]) {
      var q := Position(inputs, i);
      PositionHoldsCall(inputs, i);
      CallsOnClock(inputs);
      NonceCache.RejectsExactlyReplays(ttl, calls, q);
      if p: nat :| p < q && NonceCache.Blocks(ttl, calls, p, q) && NonceCache.Accepts(ttl, calls, p) {
        var j := CallHasInput(inputs, p);
        PositionHoldsCall(inputs, j);
        ExecutesIsAcceptance(m, ttl, inputs, j);
        if i <= j {
          if i < j { PositionsIncrease(inputs, i, j); }
          assert false;
        }
        assert BlockedBy(m, ttl, inputs, j, i);
      }
      if j: nat :| j < i && BlockedBy(m, ttl, inputs, j, i) {
        ExecutesIsAcceptance(m, ttl, inputs, j);
        PositionHoldsCall(inputs, j);
        PositionsIncrease(inputs, j, i);
        assert NonceCache.Blocks(ttl, calls, Position(inputs, j), q);
      }
    }
  }

  /** The answer to a lock command tells the truth: it echoes the nonce, and says ok exactly when the
      session was locked by this very command. */
  lemma AnswerIsTrue(m: Machine, ttl: Duration, inputs: seq<Input>, i: nat)
    requires i < |inputs| && inputs[i].payload.kind == KIND_LOCK
    ensures var Input(env, msg) := inputs[i];
            var out := Step(m, ttl, After(m, ttl, inputs[..i]), env, msg).1;
            && out.Some? && out.value == EMPTY.(kind := Ascii("lock_result"), nonce := msg.nonce,
                                                ok := out.value.ok, error := out.value.error)
            && out.value.ok == Some(Executes(m, ttl, inputs, i) && env.lockError.None?)
            && (out.value.ok == Some(true) ==> out.value.error == [])
            && (out.value.ok == Some(false) && Executes(m, ttl, inputs, i) ==> Some(out.value.error) == env.lockError)
  {
    KindsDiffer();
    assert inputs[..i + 1][..i] == inputs[..i];
  }

  /** A rejection names its reason: the nonce is missing, or else the timestamp is off by more than the
      skew, or else an earlier command with that nonce executed at most ttl ago. */
  lemma RejectionNamesReason(m: Machine, ttl: Duration, inputs: seq<Input>, i: nat)
    requires OnClock(inputs) && 0 <= ttl < MAX_INT64 && i < |inputs| && inputs[i].payload.kind == Ascii("lock")
    requires !Executes(m, ttl, inputs, i)
    ensures var Input(env, msg) := inputs[i];
            var out := Step(m, ttl, After(m, ttl, inputs[..i]), env, msg).1;
            && out.Some? && out.value.ok == Some(false)
            && out.value.error ==
                 (if msg.nonce == [] then Ascii("lock rejected: missing nonce")
                  else if !WithinSkew(msg.ts, env.skewAt) then Ascii("lock rejected: stale timestamp")
                  else Ascii("lock rejected: replayed nonce"))
            && (msg.nonce != [] && WithinSkew(msg.ts, env.skewAt) ==>
                  exists j: nat :: j < i && BlockedBy(m, ttl, inputs, j, i))
  {
    KindsDiffer();
    ExecutesExactly(m, ttl, inputs, i);
    FreshIsExact(inputs[i].payload.ts, inputs[i].env.skewAt);
    assert inputs[..i + 1][..i] == inputs[..i];
  }

  /** How many of the first n inputs execute. */
  function Executions(m: Machine, ttl: Duration, inputs: seq<Input>, n: nat): nat
    requires n <= |inputs|
  {
    if n == 0 then 0 else Executions(m, ttl, inputs, n - 1) + if Executes(m, ttl, inputs, n - 1) then 1 else 0
  }

  /** The session is asked to lock once for each execution and never otherwise. */
  lemma {:induction false} OneLockCallEach(m: Machine, ttl: Duration, inputs: seq<Input>, n: nat)
    requires n <= |inputs|
    ensures After(m, ttl, inputs[..n]).lockCalls == Executions(m, ttl, inputs, n)
  {
    if n > 0 {
      OneLockCallEach(m, ttl, inputs, n - 1);
      assert inputs[..n][..n - 1] == inputs[..n - 1];
    }
  }

  /** At most once: of all the inputs with one nonce and timestamp, over any run and from any
      senders, at most one locks the session. The clock may advance by slack between the two
      readings of a later call, if the first execution came slack before the last moment. */
  lemma AtMostOnce(m: Machine, inputs: seq<Input>, i: nat, j: nat, slack: nat)
    requires OnClock(inputs) && i < j < |inputs|
    requires inputs[i].payload.nonce == inputs[j].payload.nonce && inputs[i].payload.ts == inputs[j].payload.ts
    requires inputs[j].env.nonceAt - inputs[j].env.skewAt <= slack
    requires inputs[i].payload.ts * SECOND <= inputs[i].env.nonceAt + 30 * SECOND - slack
    ensures !(Executes(m, NONCE_TTL, inputs, i) && Executes(m, NONCE_TTL, inputs, j))
  {
    if Executes(m, NONCE_TTL, inputs, i) && Executes(m, NONCE_TTL, inputs, j) {
      ExecutesExactly(m, NONCE_TTL, inputs, i);
      ExecutesExactly(m, NONCE_TTL, inputs, j);
      assert BlockedBy(m, NONCE_TTL, inputs, i, j);
    }
  }

  /** If the later call gets one and the same clock reading twice, as under an injected clock, no
      proviso is left. */
  lemma AtMostOnceOnOneReading(m: Machine, inputs: seq<Input>, i: nat, j: nat)
    requires OnClock(inputs) && i < j < |inputs|
    requires inputs[j].env.skewAt == inputs[j].env.nonceAt
    requires inputs[i].payload.nonce == inputs[j].payload.nonce && inputs[i].payload.ts == inputs[j].payload.ts
    ensures !(Executes(m, NONCE_TTL, inputs, i) && Executes(m, NONCE_TTL, inputs, j))
  {
    if Executes(m, NONCE_TTL, inputs, i) {
      ExecutesExactly(m, NONCE_TTL, inputs, i);
      AtMostOnce(m, inputs, i, j, 0);
    }
  }

  function LockAt(nonce: Str, ts: int64, skewAt: Time, nonceAt: Time): Input {
    Input(Env(skewAt, nonceAt, None, Locked(false), nonceAt), EMPTY.(kind := KIND_LOCK, nonce := nonce, ts := ts))
  }

  /** The two copies of one command both execute if the cache forgets the first in between. */
  lemma BothExecute(m: Machine, ttl: Duration, nonce: Str, ts: int64, a: Time, b: Time, b': Time)
    requires nonce != [] && 0 <= ttl < MAX_INT64 && PresentDay(a) && PresentDay(b) && PresentDay(b') && a <= b <= b'
    requires WithinSkew(ts, a) && WithinSkew(ts, b) && b' - a > ttl
    ensures var run := [LockAt(nonce, ts, a, a), LockAt(nonce, ts, b, b')];
            OnClock(run) && Executes(m, ttl, run, 0) && Executes(m, ttl, run, 1)
  {
    var run := [LockAt(nonce, ts, a, a), LockAt(nonce, ts, b, b')];
    ExecutesExactly(m, ttl, run, 0);
    ExecutesExactly(m, ttl, run, 1);
    if j: nat :| j < 1 && BlockedBy(m, ttl, run, j, 1) {
      assert false;
    }
  }

  /** The TTL is as short as it can be: for any from zero to below twice the skew, some command
      executes twice. */
  lemma ShorterTtlReplays(m: Machine, ttl: Duration, nonce: Str)
    requires 0 <= ttl < NONCE_TTL && nonce != []
    ensures exists run: seq<Input> :: |run| == 2 && OnClock(run) && run[0].payload == run[1].payload
              && Executes(m, ttl, run, 0) && Executes(m, ttl, run, 1)
              && (forall k | 0 <= k < 2 :: run[k].env.skewAt == run[k].env.nonceAt)
  {
    var ts: int64 := 1_000_000;
    var a, b := ts * SECOND - 30 * SECOND, ts * SECOND + 30 * SECOND;
    BothExecute(m, ttl, nonce, ts, a, b, b);
    var run := [LockAt(nonce, ts, a, a), LockAt(nonce, ts, b, b)];
    assert run[0].payload == run[1].payload;
  }

  /** One command executes twice, although each call gets one and the same clock reading. */
  ghost predicate SomeRunReplays(m: Machine, ttl: Duration) {
    exists run: seq<Input>, i: nat, j: nat ::
      && i < j < |run| && OnClock(run) && run[i].payload == run[j].payload
      && (forall k | 0 <= k < |run| :: run[k].env.skewAt == run[k].env.nonceAt)
      && Executes(m, ttl, run, i) && Executes(m, ttl, run, j)
  }

  /** With one reading per call, the TTLs that work are exactly those of at least twice the skew. */
  lemma TtlIsExact(m: Machine, ttl: Duration)
    requires 0 <= ttl < MAX_INT64
    ensures SomeRunReplays(m, ttl) <==> ttl < NONCE_TTL
  {
    if ttl < NONCE_TTL {
      ShorterTtlReplays(m, ttl, [110]);
    } else if run: seq<Input>, i: nat, j: nat :|
      && i < j < |run| && OnClock(run) && run[i].payload == run[j].payload
      && (forall k | 0 <= k < |run| :: run[k].env.skewAt == run[k].env.nonceAt)
      && Executes(m, ttl, run, i) && Executes(m, ttl, run, j) {
      ExecutesExactly(m, ttl, run, i);
      ExecutesExactly(m, ttl, run, j);
      assert BlockedBy(m, ttl, run, i, j);
    }
  }

  /** Inputs i and j are one command that executes twice: first at a cache reading that its timestamp
      is lead ahead of, then with a gap of at most slack between the two readings. */
  predicate Repeats(m: Machine, inputs: seq<Input>, i: nat, j: nat, lead: int, slack: int)
    requires i < j < |inputs|
  {
    && Executes(m, NONCE_TTL, inputs, i) && Executes(m, NONCE_TTL, inputs, j)
    && inputs[i].payload.nonce == inputs[j].payload.nonce && inputs[i].payload.ts == inputs[j].payload.ts
    && inputs[i].payload.ts * SECOND - inputs[i].env.nonceAt == lead
    && inputs[j].env.nonceAt - inputs[j].env.skewAt <= slack
  }

  lemma RepeatsOnlyIf(m: Machine, inputs: seq<Input>, i: nat, j: nat, lead: int, slack: int)
    requires OnClock(inputs) && i < j < |inputs| && Repeats(m, inputs, i, j, lead, slack)
    ensures -30 * SECOND <= lead <= 30 * SECOND && lead + slack > 30 * SECOND
  {
    ExecutesExactly(m, NONCE_TTL, inputs, i);
    ExecutesExactly(m, NONCE_TTL, inputs, j);
    assert !BlockedBy(m, NONCE_TTL, inputs, i, j);
  }

  /** Exactly when a command can execute twice: for a first execution with this lead and a gap of at
      most slack at the second, there is such a run if and only if the lead is within the skew and
      the gap may exceed what the lead leaves of it. */
  lemma RepeatsExactly(m: Machine, lead: int, slack: int)
    ensures (exists inputs: seq<Input>, i: nat, j: nat ::
               i < j < |inputs| && OnClock(inputs) && Repeats(m, inputs, i, j, lead, slack))
            <==> -30 * SECOND <= lead <= 30 * SECOND && lead + slack > 30 * SECOND
  {
    if inputs: seq<Input>, i: nat, j: nat :|
      i < j < |inputs| && OnClock(inputs) && Repeats(m, inputs, i, j, lead, slack) {
      RepeatsOnlyIf(m, inputs, i, j, lead, slack);
    }
    if -30 * SECOND <= lead <= 30 * SECOND && lead + slack > 30 * SECOND {
      var ts: int64 := 1_000_000;
      var first, again := ts * SECOND - lead, ts * SECOND + 30 * SECOND;
      var late := first + NONCE_TTL + 1;
      BothExecute(m, NONCE_TTL, [110], ts, first, again, late);
      var run := [LockAt([110], ts, first, first), LockAt([110], ts, again, late)];
      assert Repeats(m, run, 0, 1, lead, slack);
    }
  }
}
