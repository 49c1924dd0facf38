/** The agent's connection to the relay: handshake, ordered service, reconnection with backoff. */
module Relay {
  import opened Text
  import opened GoTime

  /* ---- backoff ---- */

  /** One second, doubling up to thirty. */
  function NextWait(cur: int): int {
    if cur == 0 then SECOND
    else if cur < 30 * SECOND then (if cur * 2 > 30 * SECOND then 30 * SECOND else cur * 2)
    else cur
  }

  class Backoff {
    var cur: int

    constructor ()
      ensures cur == 0
    {
      cur := 0;
    }

    method Next() returns (wait: int)
      modifies this
      ensures cur == NextWait(old(cur)) && wait == cur
    {
      if cur == 0 {
        cur := SECOND;
      } else if cur < 30 * SECOND {
        cur := cur * 2;
        if cur > 30 * SECOND {
          cur := 30 * SECOND;
        }
      }
      wait := cur;
    }

    method Reset()
      modifies this
      ensures cur == 0
    {
      cur := 0;
    }
  }

  /* ---- one connection ---- */

  const ENVELOPE := Ascii("envelope")
  const CHALLENGE := Ascii("challenge")
  const WELCOME := Ascii("welcome")

  /** The fields of a relay frame that the agent looks at. */
  datatype Frame = Frame(kind: Str, from: Str, payload: Str)

  datatype Sent = Sent(to: Str, payload: Str)

  /** A message handler with its own state. */
  type Handler<!S> = (S, Str, Str) -> (S, Option<Str>)

  /** How the handshake goes: each read gives the type of a frame or fails, each write works or not.
      A second frame without a type leaves the first one's type standing. */
  datatype Greeting = Greeting(helloWritten: bool, first: Option<Str>, proven: bool, proveWritten: bool,
                               second: Option<Option<Str>>)

  predicate Welcomed(g: Greeting) {
    && g.helloWritten && g.first.Some?
    && if g.first.value == CHALLENGE then
         g.proven && g.proveWritten && g.second == Some(Some(WELCOME))
       else g.first.value == WELCOME
  }

  /** handshake, for the frames that arrive. */
  method Handshake(g: Greeting) returns (ok: bool)
    ensures ok == Welcomed(g)
  {
    if !g.helloWritten || g.first.None? {
      return false;
    }
    var kind := g.first.value;
    if kind == CHALLENGE {
      if !g.proven || !g.proveWritten || g.second.None? {
        return false;
      }
      if g.second.value.Some? {
        kind := g.second.value.value;
      }
      assert |CHALLENGE| == 9 && |WELCOME| == 7;
    }
    return kind == WELCOME;
  }

  function Envelopes(frames: seq<Frame>): seq<Frame> {
    if |frames| == 0 then []
    else
      var last := frames[|frames| - 1];
      Envelopes(frames[..|frames| - 1]) + if last.kind == ENVELOPE then [last] else []
  }

  /** The handler's state after a series of envelopes. */
  function Handled<S>(h: Handler<S>, s: S, envelopes: seq<Frame>): S {
    if |envelopes| == 0 then s
    else
      var last := envelopes[|envelopes| - 1];
      h(Handled(h, s, envelopes[..|envelopes| - 1]), last.from, last.payload).0
  }

  /** Its replies to them, in order, each addressed to the sender. */
  function Replies<S>(h: Handler<S>, s: S, envelopes: seq<Frame>): seq<Sent> {
    if |envelopes| == 0 then []
    else
      var front, last := envelopes[..|envelopes| - 1], envelopes[|envelopes| - 1];
      var reply := h(Handled(h, s, front), last.from, last.payload).1;
      Replies(h, s, front) + if reply.Some? then [Sent(last.from, reply.value)] else []
  }

  lemma {:induction false} EnvelopesOfPrefix(frames: seq<Frame>, n: nat)
    requires n <= |frames|
    ensures Envelopes(frames[..n]) <= Envelopes(frames)
  {
    if n == |frames| {
      assert frames[..n] == frames;
    } else {
      var front := frames[..|frames| - 1];
      EnvelopesOfPrefix(front, n);
      assert front[..n] == frames[..n];
    }
  }

  lemma {:induction false} RepliesOfPrefix<S>(h: Handler<S>, s: S, envelopes: seq<Frame>, n: nat)
    requires n <= |envelopes|
    ensures Replies(h, s, envelopes[..n]) <= Replies(h, s, envelopes)
  {
    if n == |envelopes| {
      assert envelopes[..n] == envelopes;
    } else {
      var front := envelopes[..|envelopes| - 1];
      RepliesOfPrefix(h, s, front, n);
      assert front[..n] == envelopes[..n];
    }
  }

  /** The replies to the first frames are the first replies. */
  lemma RepliesSoFar<S>(h: Handler<S>, s: S, frames: seq<Frame>, n: nat)
    requires n <= |frames|
    ensures Replies(h, s, Envelopes(frames[..n])) <= Replies(h, s, Envelopes(frames))
  {
    EnvelopesOfPrefix(frames, n);
    var all, some := Envelopes(frames), Envelopes(frames[..n]);
    assert all[..|some|] == some;
    RepliesOfPrefix(h, s, all, |some|);
  }

  /** How many of the frames are read before the first reply that cannot be written. */
  function Taken<S>(h: Handler<S>, s: S, frames: seq<Frame>, okWrites: nat): (n: nat)
    ensures n <= |frames|
  {
    if |frames| == 0 then 0
    else
      var front := frames[..|frames| - 1];
      if |Replies(h, s, Envelopes(front))| > okWrites then Taken(h, s, front, okWrites) else |frames|
  }

  /** What goes out: the replies to exactly the envelope frames, as far as they can be written. */
  function Deliveries<S>(h: Handler<S>, s: S, frames: seq<Frame>, okWrites: nat): seq<Sent> {
    var replies := Replies(h, s, Envelopes(frames));
    if |replies| < okWrites then replies else replies[..okWrites]
  }

  lemma {:induction false} TakenStops<S>(h: Handler<S>, s: S, frames: seq<Frame>, okWrites: nat, n: nat)
    requires n <= |frames|
    requires |Replies(h, s, Envelopes(frames[..n]))| > okWrites
    requires n > 0 && |Replies(h, s, Envelopes(frames[..n - 1]))| <= okWrites
    ensures Taken(h, s, frames, okWrites) == n
  {
    if n == |frames| {
      assert frames[..n] == frames;
    } else {
      var front := frames[..|frames| - 1];
      assert front[..n] == frames[..n] && front[..n - 1] == frames[..n - 1];
      RepliesSoFar(h, s, front, n);
      TakenStops(h, s, front, okWrites, n);
    }
  }

  lemma {:induction false} TakenAll<S>(h: Handler<S>, s: S, frames: seq<Frame>, okWrites: nat)
    requires |Replies(h, s, Envelopes(frames))| <= okWrites
    ensures Taken(h, s, frames, okWrites) == |frames|
  {
    if |frames| > 0 {
      RepliesSoFar(h, s, frames, |frames| - 1);
    }
  }

  lemma NextFrame<S>(h: Handler<S>, s: S, frames: seq<Frame>, n: nat)
    requires n < |frames|
    ensures var before, after, f := Envelopes(frames[..n]), Envelopes(frames[..n + 1]), frames[n];
            if f.kind != ENVELOPE then after == before
            else
              var (s', reply) := h(Handled(h, s, before), f.from, f.payload);
              && Handled(h, s, after) == s'
              && Replies(h, s, after) == Replies(h, s, before) + if reply.Some? then [Sent(f.from, reply.value)] else []
  {
    var before, after := Envelopes(frames[..n]), Envelopes(frames[..n + 1]);
    assert frames[..n + 1][..n] == frames[..n];
    if frames[n].kind == ENVELOPE {
      assert after[..|after| - 1] == before;
    }
  }

  /** serve, until a read fails after the given frames or a write fails after okWrites good ones. */
  method Serve<S>(h: Handler<S>, s0: S, frames: seq<Frame>, okWrites: nat) returns (s: S, written: seq<Sent>)
    ensures s == Handled(h, s0, Envelopes(frames[..Taken(h, s0, frames, okWrites)]))
    ensures written == Deliveries(h, s0, frames, okWrites)
  {
    var taken := 0;
    s, written := s0, [];
    while taken < |frames|
      invariant taken <= |frames| && s == Handled(h, s0, Envelopes(frames[..taken]))
      invariant written == Replies(h, s0, Envelopes(frames[..taken])) && |written| <= okWrites
    {
      var message := frames[taken];
      NextFrame(h, s0, frames, taken);
      taken := taken + 1;
      if message.kind != ENVELOPE {
        continue;
      }
      var (s', reply) := h(s, message.from, message.payload);
      s := s';
      if reply.None? {
        continue;
      }
      if |written| == okWrites {
        RepliesSoFar(h, s0, frames, taken);
        TakenStops(h, s0, frames, okWrites, taken);
        return;
      }
      written := written + [Sent(message.from, reply.value)];
    }
    assert frames[..|frames|] == frames;
    TakenAll(h, s0, frames, okWrites);
  }

  /* ---- the run of a client ---- */

  /** One attempt to connect: it fails to dial, or greets and then serves what arrives. Afterwards,
      or while waiting for the next attempt, the context may be cancelled. */
  datatype Attempt = Attempt(dialed: bool, greeting: Greeting, frames: seq<Frame>, okWrites: nat,
                             cancelled: bool, cancelledWaiting: bool)

  /** What can be observed: state callbacks, envelopes written and waits announced, besides the
      completion of a handshake and the reset of the backoff. */
  datatype Event = Greeted | BackoffReset | State(connected: bool) | Written(sent: Sent) | Wait(ns: int)

  predicate Cancelled(t: Attempt) {
    t.cancelled || t.cancelledWaiting
  }

  predicate Connects(t: Attempt) {
    t.dialed && Welcomed(t.greeting)
  }

  function WrittenEvents(sent: seq<Sent>): seq<Event> {
    seq(|sent|, i requires 0 <= i < |sent| => Written(sent[i]))
  }

  function Connection(sent: seq<Sent>): seq<Event> {
    [Greeted, BackoffReset, State(true)] + WrittenEvents(sent) + [State(false)]
  }

  function SessionEvents<S>(h: Handler<S>, s: S, t: Attempt): seq<Event> {
    if Connects(t) then Connection(Deliveries(h, s, t.frames, t.okWrites)) else []
  }

  function SessionState<S>(h: Handler<S>, s: S, t: Attempt): S {
    if Connects(t) then Handled(h, s, Envelopes(t.frames[..Taken(h, s, t.frames, t.okWrites)])) else s
  }

  /** The trace of Run over the attempts, from a given backoff. */
  function RunTrace<S>(h: Handler<S>, s: S, cur: int, attempts: seq<Attempt>): seq<Event>
    decreases attempts
  {
    if |attempts| == 0 then []
    else
      var t := attempts[0];
      var wait := NextWait(if Connects(t) then 0 else cur);
      SessionEvents(h, s, t)
      + if t.cancelled then []
        else if t.cancelledWaiting then [Wait(wait)]
        else [Wait(wait)] + RunTrace(h, SessionState(h, s, t), wait, attempts[1..])
  }

  class Client<!S> {
    const handle: Handler<S>
    const backoff: Backoff
    var state: S
    var trace: seq<Event>

    constructor (handle: Handler<S>, state: S)
      ensures this.handle == handle && this.state == state && trace == []
      ensures fresh(backoff) && backoff.cur == 0
    {
      this.handle, this.state, trace := handle, state, [];
      backoff := new Backoff();
    }

    method Session(t: Attempt)
      modifies this, backoff
      ensures trace == old(trace) + SessionEvents(handle, old(state), t)
      ensures state == SessionState(handle, old(state), t)
      ensures backoff.cur == if Connects(t) then 0 else old(backoff.cur)
    {
      hide WrittenEvents;
      hide Deliveries;
      hide Taken;
      hide Handled;
      if !t.dialed {
        return;
      }
      var ok := Handshake(t.greeting);
      if !ok {
        return;
      }
      trace := trace + [Greeted];
      backoff.Reset();
      trace := trace + [BackoffReset];
      trace := trace + [State(true)];
      var s, written := Serve(handle, state, t.frames, t.okWrites);
      state := s;
      trace := trace + WrittenEvents(written);
      trace := trace + [State(false)];
      assert trace == old(trace) + Connection(written);
    }

    /** Run, for as many attempts as are observed; it returns only because it is cancelled. */
    method Run(attempts: seq<Attempt>) returns (cancelled: bool)
      modifies this, backoff
      ensures cancelled <==> exists i :: 0 <= i < |attempts| && Cancelled(attempts[i])
      ensures trace == old(trace) + RunTrace(handle, old(state), old(backoff.cur), attempts)
    {
      hide SessionEvents;
      hide SessionState;
      hide Welcomed;
      hide NextWait;
      var n := 0;
      ghost var whole := old(trace) + RunTrace(handle, old(state), old(backoff.cur), attempts);
      assert attempts[0..] == attempts;
      while n < |attempts|
        invariant n <= |attempts| && forall i :: 0 <= i < n ==> !Cancelled(attempts[i])
        invariant trace + RunTrace(handle, state, backoff.cur, attempts[n..]) == whole
      {
        var t := attempts[n];
        ghost var rest, before, s, cur := attempts[n..], trace, state, backoff.cur;
        assert rest[0] == t && rest[1..] == attempts[n + 1..];
        n := n + 1;
        Session(t);
        if t.cancelled {
          assert RunTrace(handle, s, cur, rest) == SessionEvents(handle, s, t);
          assert Cancelled(attempts[n - 1]);
          return true;
        }
        var wait := backoff.Next();
        trace := trace + [Wait(wait)];
        if t.cancelledWaiting {
          assert RunTrace(handle, s, cur, rest) == SessionEvents(handle, s, t) + [Wait(wait)];
          assert Cancelled(attempts[n - 1]);
          return true;
        }
        ghost var later := RunTrace(handle, state, wait, rest[1..]);
        assert RunTrace(handle, s, cur, rest) == SessionEvents(handle, s, t) + ([Wait(wait)] + later);
        assert trace + later == before + (SessionEvents(handle, s, t) + ([Wait(wait)] + later));
      }
      return false;
    }
  }

  /* ---- what the trace shows ---- */

  function Callbacks(trace: seq<Event>): seq<bool> {
    if |trace| == 0 then []
    else
      var last := trace[|trace| - 1];
      Callbacks(trace[..|trace| - 1]) + if last.State? then [last.connected] else []
  }

  /** The number of waits since the last completed handshake, or since the start. */
  function Streak(trace: seq<Event>): nat {
    if |trace| == 0 then 0
    else
      var front, last := trace[..|trace| - 1], trace[|trace| - 1];
      if last.BackoffReset? then 0 else if last.Wait? then Streak(front) + 1 else Streak(front)
  }

  /** The backoff after n failures in a row. */
  function Backed(n: nat): int {
    if n == 0 then 0 else NextWait(Backed(n - 1))
  }

  function Pow2(n: nat): nat {
    if n == 0 then 1 else 2 * Pow2(n - 1)
  }

  function SumOfWaits(n: nat): int {
    if n == 0 then 0 else SumOfWaits(n - 1) + Backed(n)
  }

  /** Callbacks alternate, beginning with connected, and every connection has been closed. */
  ghost predicate CallbacksAlternate(trace: seq<Event>) {
    var calls := Callbacks(trace);
    |calls| % 2 == 0 && forall i :: 0 <= i < |calls| ==> calls[i] == (i % 2 == 0)
  }

  /** Each callback of a connection follows a completed handshake and a reset. */
  ghost predicate ConnectedAfterReset(trace: seq<Event>) {
    forall k :: 0 <= k < |trace| && trace[k] == State(true) ==>
      k >= 2 && trace[k - 1] == BackoffReset && trace[k - 2] == Greeted
  }

  /** Each wait is as long as the number of waits since the last handshake demands. */
  ghost predicate WaitsFollowStreak(trace: seq<Event>) {
    forall k :: 0 <= k < |trace| && trace[k].Wait? ==> trace[k].ns == Backed(Streak(trace[..k]) + 1)
  }

  ghost predicate Sound(trace: seq<Event>) {
    CallbacksAlternate(trace) && ConnectedAfterReset(trace) && WaitsFollowStreak(trace)
  }

  lemma {:induction false} WrittenAdds(pre: seq<Event>, sent: seq<Sent>)
    ensures Callbacks(pre + WrittenEvents(sent)) == Callbacks(pre)
    ensures Streak(pre + WrittenEvents(sent)) == Streak(pre)
  {
    var all := pre + WrittenEvents(sent);
    if |sent| == 0 {
      assert all == pre;
    } else {
      WrittenAdds(pre, sent[..|sent| - 1]);
      assert all[..|all| - 1] == pre + WrittenEvents(sent[..|sent| - 1]);
    }
  }

  lemma CallbackAdds(pre: seq<Event>, e: Event)
    ensures Callbacks(pre + [e]) == Callbacks(pre) + if e.State? then [e.connected] else []
    ensures Streak(pre + [e]) == if e.BackoffReset? then 0 else if e.Wait? then Streak(pre) + 1 else Streak(pre)
  {
    assert (pre + [e])[..|pre|] == pre;
  }

  /** Adding anything but a wait or a connected callback keeps the two rules about them. */
  lemma QuietAdds(pre: seq<Event>, e: Event)
    requires ConnectedAfterReset(pre) && WaitsFollowStreak(pre)
    requires !e.Wait?
    requires e == State(true) ==> |pre| >= 2 && pre[|pre| - 1] == BackoffReset && pre[|pre| - 2] == Greeted
    ensures ConnectedAfterReset(pre + [e]) && WaitsFollowStreak(pre + [e])
  {
    hide Streak;
    forall k | 0 <= k < |pre|
      ensures (pre + [e])[..k] == pre[..k]
    {
    }
  }

  lemma {:induction false} WrittenIsQuiet(pre: seq<Event>, sent: seq<Sent>)
    requires ConnectedAfterReset(pre) && WaitsFollowStreak(pre)
    ensures ConnectedAfterReset(pre + WrittenEvents(sent)) && WaitsFollowStreak(pre + WrittenEvents(sent))
  {
    if |sent| == 0 {
      assert pre + WrittenEvents(sent) == pre;
    } else {
      var front := sent[..|sent| - 1];
      WrittenIsQuiet(pre, front);
      assert pre + WrittenEvents(sent) == pre + WrittenEvents(front) + [Written(sent[|sent| - 1])];
      QuietAdds(pre + WrittenEvents(front), Written(sent[|sent| - 1]));
    }
  }

  lemma ConnectionIsSound(pre: seq<Event>, sent: seq<Sent>)
    requires Sound(pre)
    ensures Sound(pre + Connection(sent)) && Streak(pre + Connection(sent)) == 0
  {
    hide ConnectedAfterReset;
    hide WaitsFollowStreak;
    hide Streak;
    hide Callbacks;
    hide WrittenEvents;
    var greeted := pre + [Greeted];
    var reset := greeted + [BackoffReset];
    var up := reset + [State(true)];
    var served := up + WrittenEvents(sent);
    assert pre + Connection(sent) == served + [State(false)];
    CallbackAdds(pre, Greeted);
    CallbackAdds(greeted, BackoffReset);
    CallbackAdds(reset, State(true));
    WrittenAdds(up, sent);
    CallbackAdds(served, State(false));
    QuietAdds(pre, Greeted);
    QuietAdds(greeted, BackoffReset);
    QuietAdds(reset, State(true));
    WrittenIsQuiet(up, sent);
    QuietAdds(served, State(false));
    assert Callbacks(served + [State(false)]) == Callbacks(pre) + [true] + [false];
  }

  lemma WaitIsSound(pre: seq<Event>)
    requires Sound(pre)
    ensures var all := pre + [Wait(Backed(Streak(pre) + 1))];
            Sound(all) && Streak(all) == Streak(pre) + 1
  {
    var e := Wait(Backed(Streak(pre) + 1));
    var all := pre + [e];
    CallbackAdds(pre, e);
    forall k | 0 <= k < |all|
      ensures all[..k] == pre[..k]
    {
    }
    assert pre[..|pre|] == pre;
  }

  lemma {:induction false} ContinuationIsSound<S>(h: Handler<S>, s: S, pre: seq<Event>, attempts: seq<Attempt>)
    requires Sound(pre)
    ensures Sound(pre + RunTrace(h, s, Backed(Streak(pre)), attempts))
    decreases attempts
  {
    hide Sound;
    hide Connection;
    hide NextWait;
    hide Streak;
    hide Deliveries;
    hide Welcomed;
    var cur := Backed(Streak(pre));
    var trace := RunTrace(h, s, cur, attempts);
    if |attempts| == 0 {
      assert pre + trace == pre;
    } else {
      var t := attempts[0];
      var session := SessionEvents(h, s, t);
      var mid := pre + session;
      if Connects(t) {
        ConnectionIsSound(pre, Deliveries(h, s, t.frames, t.okWrites));
      } else {
        assert mid == pre;
      }
      if t.cancelled {
        assert trace == session;
      } else {
        var wait := Wait(Backed(Streak(mid) + 1));
        WaitIsSound(mid);
        if t.cancelledWaiting {
          assert pre + trace == mid + [wait];
        } else {
          ContinuationIsSound(h, SessionState(h, s, t), mid + [wait], attempts[1..]);
          assert pre + trace == mid + [wait] + RunTrace(h, SessionState(h, s, t), wait.ns, attempts[1..]);
        }
      }
    }
  }

  /** Over every run from a new client: callbacks strictly alternate, each connection follows a
      completed handshake and a reset, and every wait is the one its streak of failures demands. */
  lemma RunIsSound<S>(h: Handler<S>, s: S, attempts: seq<Attempt>)
    ensures Sound(RunTrace(h, s, 0, attempts))
  {
    ContinuationIsSound(h, s, [], attempts);
    assert [] + RunTrace(h, s, 0, attempts) == RunTrace(h, s, 0, attempts);
  }

  /** The n-th wait in a row is 2^(n-1) seconds, and 30 seconds from the sixth on. */
  lemma {:induction false} WaitClosedForm(n: nat)
    requires n >= 1
    ensures Backed(n) == (if n <= 5 then Pow2(n - 1) else 30) * SECOND
    ensures Backed(n) <= 30 * SECOND
  {
    if n > 1 {
      WaitClosedForm(n - 1);
      assert Pow2(0) == 1 && Pow2(1) == 2 && Pow2(2) == 4 && Pow2(3) == 8 && Pow2(4) == 16;
    }
  }

  /** The first n waits in a row add up to 2^n - 1 seconds, and from the fifth on grow by 30. */
  lemma {:induction false} SumClosedForm(n: nat)
    ensures SumOfWaits(n) == (if n <= 5 then Pow2(n) - 1 else 31 + 30 * (n - 5)) * SECOND
  {
    if n > 0 {
      SumClosedForm(n - 1);
      WaitClosedForm(n);
      assert Pow2(0) == 1 && Pow2(1) == 2 && Pow2(2) == 4 && Pow2(3) == 8 && Pow2(4) == 16 && Pow2(5) == 32;
    }
  }

  /** Over every run: the n-th wait since the last completed handshake, or since the start, is
      min(2^(n-1), 30) seconds. */
  lemma WaitsOfRun<S>(h: Handler<S>, s: S, attempts: seq<Attempt>, k: nat)
    requires k < |RunTrace(h, s, 0, attempts)| && RunTrace(h, s, 0, attempts)[k].Wait?
    ensures var trace := RunTrace(h, s, 0, attempts);
            var n := Streak(trace[..k]) + 1;
            trace[k].ns == (if n <= 5 then Pow2(n - 1) else 30) * SECOND
  {
    RunIsSound(h, s, attempts);
    WaitClosedForm(Streak(RunTrace(h, s, 0, attempts)[..k]) + 1);
  }

  /** The sum of the waits since the last completed handshake, or since the start. */
  function StreakSum(trace: seq<Event>): int {
    if |trace| == 0 then 0
    else
      var front, last := trace[..|trace| - 1], trace[|trace| - 1];
      if last.BackoffReset? then 0 else if last.Wait? then StreakSum(front) + last.ns else StreakSum(front)
  }

  lemma {:induction false} StreakSumFollows(trace: seq<Event>, n: nat)
    requires WaitsFollowStreak(trace) && n <= |trace|
    ensures StreakSum(trace[..n]) == SumOfWaits(Streak(trace[..n]))
  {
    if n > 0 {
      StreakSumFollows(trace, n - 1);
      assert trace[..n][..n - 1] == trace[..n - 1];
    }
  }

  /** At every moment of every run: the n waits since the last completed handshake, or since the
      start, add up to 2^n - 1 seconds, and from the fifth on to 30 seconds more each. */
  lemma SumsOfRun<S>(h: Handler<S>, s: S, attempts: seq<Attempt>, k: nat)
    requires k <= |RunTrace(h, s, 0, attempts)|
    ensures var past := RunTrace(h, s, 0, attempts)[..k];
            var n := Streak(past);
            StreakSum(past) == (if n <= 5 then Pow2(n) - 1 else 31 + 30 * (n - 5)) * SECOND
  {
    var trace := RunTrace(h, s, 0, attempts);
    RunIsSound(h, s, attempts);
    StreakSumFollows(trace, k);
    SumClosedForm(Streak(trace[..k]));
  }
}
