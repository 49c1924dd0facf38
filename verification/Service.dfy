/** Ordered service: over every run of the relay client, which reply is written, when, and to whom. */
module Service {
  import opened Text
  import opened Relay

  /** The handler's state once it has dealt with the envelopes among the first n frames. */
  function StateBefore<S>(h: Handler<S>, s: S, frames: seq<Frame>, n: nat): S
    requires n <= |frames|
  {
    if n == 0 then s
    else
      var before, f := StateBefore(h, s, frames, n - 1), frames[n - 1];
      if f.kind == Ascii("envelope") then h(before, f.from, f.payload).0 else before
  }

  /** The reply to frame p: there is one if it is an envelope and the handler, in the state that the
      earlier envelopes have left, gives one; and it goes to the sender. */
  function ReplyTo<S>(h: Handler<S>, s: S, frames: seq<Frame>, p: nat): Option<Sent>
    requires p < |frames|
  {
    var f := frames[p];
    if f.kind != Ascii("envelope") then None
    else
      var reply := h(StateBefore(h, s, frames, p), f.from, f.payload).1;
      if reply.None? then None else Some(Sent(f.from, reply.value))
  }

  /** What was written are, in this order, the replies to the frames at these places, which are all the
      answered frames, or the first okWrites of them. */
  ghost predicate Serves<S>(h: Handler<S>, s: S, frames: seq<Frame>, okWrites: nat, at: seq<nat>, written: seq<Sent>) {
    && |at| == |written| <= okWrites
    && (forall k | 0 <= k < |at| :: at[k] < |frames| && ReplyTo(h, s, frames, at[k]) == Some(written[k]))
    && (forall j, k | 0 <= j < k < |at| :: at[j] < at[k])
    && (forall p: nat | p < |frames| && ReplyTo(h, s, frames, p).Some? && p !in at ::
          |at| == okWrites && forall k | 0 <= k < |at| :: at[k] < p)
  }

  lemma {:induction false} FrontAgrees<S>(h: Handler<S>, s: S, frames: seq<Frame>, n: nat, p: nat)
    requires p <= n <= |frames|
    ensures StateBefore(h, s, frames[..n], p) == StateBefore(h, s, frames, p)
    ensures p < n ==> ReplyTo(h, s, frames[..n], p) == ReplyTo(h, s, frames, p)
  {
    if p > 0 {
      FrontAgrees(h, s, frames, n, p - 1);
    }
  }

  lemma {:induction false} StateBeforeIsHandled<S>(h: Handler<S>, s: S, frames: seq<Frame>, n: nat)
    requires n <= |frames|
    ensures Handled(h, s, Envelopes(frames[..n])) == StateBefore(h, s, frames, n)
  {
    if n > 0 {
      StateBeforeIsHandled(h, s, frames, n - 1);
      NextFrame(h, s, frames, n - 1);
    }
  }

  lemma RepliesGrow<S>(h: Handler<S>, s: S, frames: seq<Frame>, n: nat)
    requires n < |frames|
    ensures var reply := ReplyTo(h, s, frames, n);
            Replies(h, s, Envelopes(frames[..n + 1]))
            == Replies(h, s, Envelopes(frames[..n])) + if reply.Some? then [reply.value] else []
  {
    NextFrame(h, s, frames, n);
    StateBeforeIsHandled(h, s, frames, n);
  }

  /** The places of the answered frames among the first n, with their replies. */
  ghost predicate Places<S>(h: Handler<S>, s: S, frames: seq<Frame>, n: nat, at: seq<nat>, replies: seq<Sent>)
    requires n <= |frames|
  {
    && |at| == |replies|
    && (forall k | 0 <= k < |at| :: at[k] < n && ReplyTo(h, s, frames, at[k]) == Some(replies[k]))
    && (forall j, k | 0 <= j < k < |at| :: at[j] < at[k])
    && (forall p: nat | p < n && ReplyTo(h, s, frames, p).Some? :: p in at)
  }

  lemma PlacesAdd<S>(h: Handler<S>, s: S, frames: seq<Frame>, n: nat, at: seq<nat>, replies: seq<Sent>)
    requires n < |frames| && Places(h, s, frames, n, at, replies)
    ensures var reply := ReplyTo(h, s, frames, n);
            if reply.Some? then Places(h, s, frames, n + 1, at + [n], replies + [reply.value])
            else Places(h, s, frames, n + 1, at, replies)
  {
    hide ReplyTo;
    if ReplyTo(h, s, frames, n).Some? {
      var at' := at + [n];
      forall p: nat | p < n + 1 && ReplyTo(h, s, frames, p).Some?
        ensures p in at'
      {
        assert at'[|at|] == n;
      }
    }
  }

  lemma NoPlacesYet<S>(h: Handler<S>, s: S, frames: seq<Frame>)
    ensures Places(h, s, frames, 0, [], Replies(h, s, Envelopes(frames[..0])))
  {
    assert Envelopes(frames[..0]) == [];
  }

  lemma {:induction false} RepliesHavePlaces<S>(h: Handler<S>, s: S, frames: seq<Frame>, n: nat) returns (at: seq<nat>)
    requires n <= |frames|
    ensures Places(h, s, frames, n, at, Replies(h, s, Envelopes(frames[..n])))
  {
    hide *;
    if n == 0 {
      at := [];
      NoPlacesYet(h, s, frames);
    } else {
      at := RepliesHavePlaces(h, s, frames, n - 1);
      var before, reply := Replies(h, s, Envelopes(frames[..n - 1])), ReplyTo(h, s, frames, n - 1);
      RepliesGrow(h, s, frames, n - 1);
      PlacesAdd(h, s, frames, n - 1, at, before);
      if reply.Some? {
        at := at + [n - 1];
      } else {
        assert before + [] == before;
      }
    }
  }

  /** Service stops after the frame whose reply is the first that cannot be written. */
  lemma {:induction false} TakenPoint<S>(h: Handler<S>, s: S, frames: seq<Frame>, okWrites: nat)
    ensures var n := Taken(h, s, frames, okWrites);
            if |Replies(h, s, Envelopes(frames[..n]))| <= okWrites then n == |frames|
            else n > 0 && |Replies(h, s, Envelopes(frames[..n - 1]))| == okWrites && ReplyTo(h, s, frames, n - 1).Some?
  {
    hide Replies;
    hide Envelopes;
    hide ReplyTo;
    NoPlacesYet(h, s, frames);
    assert frames[..|frames|] == frames;
    if |frames| > 0 {
      var front, n := frames[..|frames| - 1], Taken(h, s, frames, okWrites);
      if |Replies(h, s, Envelopes(front))| > okWrites {
        TakenPoint(h, s, front, okWrites);
        assert front[..n] == frames[..n] && front[..n - 1] == frames[..n - 1];
        FrontAgrees(h, s, frames, |frames| - 1, n - 1);
      } else {
        RepliesGrow(h, s, frames, |frames| - 1);
      }
    }
  }

  /** The number of frames up to the last whose reply can still be written. */
  function Good<S>(h: Handler<S>, s: S, frames: seq<Frame>, okWrites: nat): (m: nat)
    ensures m <= |frames|
  {
    var n := Taken(h, s, frames, okWrites);
    if |Replies(h, s, Envelopes(frames[..n]))| <= okWrites || n == 0 then n else n - 1
  }

  lemma DeliveriesAreGood<S>(h: Handler<S>, s: S, frames: seq<Frame>, okWrites: nat)
    ensures var n, m := Taken(h, s, frames, okWrites), Good(h, s, frames, okWrites);
            && Deliveries(h, s, frames, okWrites) == Replies(h, s, Envelopes(frames[..m]))
            && |Deliveries(h, s, frames, okWrites)| <= okWrites
            && (if m == n then n == |frames|
                else n == m + 1 && |Deliveries(h, s, frames, okWrites)| == okWrites && ReplyTo(h, s, frames, m).Some?)
  {
    TakenPoint(h, s, frames, okWrites);
    hide Taken;
    hide ReplyTo;
    hide Replies;
    hide Envelopes;
    assert frames[..|frames|] == frames;
    RepliesSoFar(h, s, frames, Good(h, s, frames, okWrites));
  }

  lemma PlacesServe<S>(h: Handler<S>, s: S, frames: seq<Frame>, okWrites: nat, m: nat, at: seq<nat>, replies: seq<Sent>)
    requires m <= |frames| && Places(h, s, frames, m, at, replies)
    requires |replies| <= okWrites && (m < |frames| ==> |replies| == okWrites)
    ensures Serves(h, s, frames, okWrites, at, replies)
    ensures (forall k | 0 <= k < |at| :: at[k] < m) && m !in at
    ensures forall p: nat | p < m && ReplyTo(h, s, frames, p).Some? :: p in at
  {
    hide ReplyTo;
  }

  /** Ordered service: what goes out are the handler's replies to exactly the envelope frames, each to
      its sender, in the order of the frames and up to the first failing write. The frames taken are
      all of them, or those up to and including the one whose reply could not be written. */
  lemma DeliveriesServe<S>(h: Handler<S>, s: S, frames: seq<Frame>, okWrites: nat) returns (at: seq<nat>)
    ensures Serves(h, s, frames, okWrites, at, Deliveries(h, s, frames, okWrites))
    ensures var n := Taken(h, s, frames, okWrites);
            && Handled(h, s, Envelopes(frames[..n])) == StateBefore(h, s, frames, n)
            && (forall k | 0 <= k < |at| :: at[k] < n)
            && (forall p: nat | p < n - 1 && ReplyTo(h, s, frames, p).Some? :: p in at)
            && (n < |frames| ==> n > 0 && ReplyTo(h, s, frames, n - 1).Some? && n - 1 !in at)
  {
    var m := Good(h, s, frames, okWrites);
    DeliveriesAreGood(h, s, frames, okWrites);
    StateBeforeIsHandled(h, s, frames, Taken(h, s, frames, okWrites));
    at := RepliesHavePlaces(h, s, frames, m);
    hide *;
    PlacesServe(h, s, frames, okWrites, m, at, Deliveries(h, s, frames, okWrites));
  }

  /** The relay has welcomed the agent, at once or after a challenge that the agent has answered. */
  predicate SawWelcome(t: Attempt) {
    && t.dialed && t.greeting.helloWritten
    && (|| t.greeting.first == Some(Ascii("welcome"))
        || (&& t.greeting.first == Some(Ascii("challenge")) && t.greeting.proven && t.greeting.proveWritten
            && t.greeting.second == Some(Some(Ascii("welcome")))))
  }

  /** No session connects without a frame of type welcome, and every one with it does. */
  lemma ConnectsExactly(t: Attempt)
    ensures Connects(t) <==> SawWelcome(t)
  {
    assert |CHALLENGE| == 9 && |WELCOME| == 7;
  }

  /** The envelopes that a trace shows as written. */
  function AllWritten(trace: seq<Event>): seq<Sent> {
    if |trace| == 0 then []
    else
      var last := trace[|trace| - 1];
      AllWritten(trace[..|trace| - 1]) + if last.Written? then [last.sent] else []
  }

  lemma EventShows(trace: seq<Event>, e: Event)
    ensures AllWritten(trace + [e]) == AllWritten(trace) + if e.Written? then [e.sent] else []
    ensures Callbacks(trace + [e]) == Callbacks(trace) + if e.State? then [e.connected] else []
  {
    assert (trace + [e])[..|trace|] == trace;
  }

  lemma NothingShown()
    ensures AllWritten([]) == [] && Callbacks([]) == []
  {
  }

  lemma {:induction false} TraceConcat(a: seq<Event>, b: seq<Event>)
    ensures AllWritten(a + b) == AllWritten(a) + AllWritten(b)
    ensures Callbacks(a + b) == Callbacks(a) + Callbacks(b)
  {
    hide *;
    NothingShown();
    if |b| == 0 {
      assert a + b == a;
    } else {
      var front, e := b[..|b| - 1], b[|b| - 1];
      TraceConcat(a, front);
      EventShows(a + front, e);
      EventShows(front, e);
      assert a + b == a + front + [e] && b == front + [e];
    }
  }

  lemma {:induction false} WrittenOf(sent: seq<Sent>)
    ensures AllWritten(WrittenEvents(sent)) == sent && Callbacks(WrittenEvents(sent)) == []
  {
    if |sent| > 0 {
      WrittenOf(sent[..|sent| - 1]);
      assert WrittenEvents(sent)[..|sent| - 1] == WrittenEvents(sent[..|sent| - 1]);
    }
  }

  /** A connection shows what was written over it, and its beginning and end. */
  lemma ConnectionShows(sent: seq<Sent>)
    ensures AllWritten(Connection(sent)) == sent && Callbacks(Connection(sent)) == [true, false]
  {
    hide AllWritten;
    hide Callbacks;
    hide WrittenEvents;
    var up := [] + [Greeted] + [BackoffReset] + [State(true)];
    NothingShown();
    assert Connection(sent) == up + WrittenEvents(sent) + [State(false)];
    EventShows([], Greeted);
    EventShows([] + [Greeted], BackoffReset);
    EventShows([] + [Greeted] + [BackoffReset], State(true));
    assert AllWritten(up) == [] && Callbacks(up) == [true];
    WrittenOf(sent);
    TraceConcat(up, WrittenEvents(sent));
    EventShows(up + WrittenEvents(sent), State(false));
  }

  function Flat(parts: seq<seq<Sent>>): seq<Sent> {
    if |parts| == 0 then [] else parts[0] + Flat(parts[1..])
  }

  /** One attempt from handler state s: without a welcome nothing happens; with it there is ordered
      service, and the handler has dealt with the frames taken. */
  ghost predicate Attempted<S>(h: Handler<S>, s: S, s': S, t: Attempt, written: seq<Sent>) {
    if SawWelcome(t) then
      && (exists at: seq<nat> :: Serves(h, s, t.frames, t.okWrites, at, written))
      && s' == StateBefore(h, s, t.frames, Taken(h, s, t.frames, t.okWrites))
    else written == [] && s' == s
  }

  lemma SessionShows<S>(h: Handler<S>, s: S, t: Attempt)
    ensures var events := SessionEvents(h, s, t);
            && Attempted(h, s, SessionState(h, s, t), t, AllWritten(events))
            && Callbacks(events) == if SawWelcome(t) then [true, false] else []
  {
    ConnectsExactly(t);
    if Connects(t) {
      ConnectionShows(Deliveries(h, s, t.frames, t.okWrites));
      hide Connection;
      hide SawWelcome;
      hide Welcomed;
      var at := DeliveriesServe(h, s, t.frames, t.okWrites);
    }
  }

  /** How many of the attempts are welcomed. */
  function Welcomes(attempts: seq<Attempt>): nat {
    if |attempts| == 0 then 0 else (if SawWelcome(attempts[0]) then 1 else 0) + Welcomes(attempts[1..])
  }

  lemma WaitsAreQuiet(events: seq<Event>, ns: int)
    ensures AllWritten(events + [Wait(ns)]) == AllWritten(events) && Callbacks(events + [Wait(ns)]) == Callbacks(events)
  {
    assert (events + [Wait(ns)])[..|events|] == events;
  }

  /** A trace is made of three pieces, or of the first, or the first two of them. */
  lemma PiecesShow(trace: seq<Event>, events: seq<Event>, ns: int, later: seq<Event>)
    ensures trace == events || trace == events + [Wait(ns)] ==>
              AllWritten(trace) == AllWritten(events) && Callbacks(trace) == Callbacks(events)
    ensures trace == events + ([Wait(ns)] + later) ==>
              && AllWritten(trace) == AllWritten(events) + AllWritten(later)
              && Callbacks(trace) == Callbacks(events) + Callbacks(later)
  {
    hide *;
    WaitsAreQuiet(events, ns);
    TraceConcat(events + [Wait(ns)], later);
    assert events + ([Wait(ns)] + later) == events + [Wait(ns)] + later;
  }

  /** What a run shows is what its first attempt shows, and, if that is not cancelled, what follows. */
  lemma RunShows<S>(h: Handler<S>, s: S, cur: int, attempts: seq<Attempt>)
    requires |attempts| > 0
    ensures var t := attempts[0];
            var trace, events := RunTrace(h, s, cur, attempts), SessionEvents(h, s, t);
            var later := RunTrace(h, SessionState(h, s, t), NextWait(if Connects(t) then 0 else cur), attempts[1..]);
            if Cancelled(t) then AllWritten(trace) == AllWritten(events) && Callbacks(trace) == Callbacks(events)
            else && AllWritten(trace) == AllWritten(events) + AllWritten(later)
                 && Callbacks(trace) == Callbacks(events) + Callbacks(later)
  {
    var t := attempts[0];
    var events, wait := SessionEvents(h, s, t), NextWait(if Connects(t) then 0 else cur);
    var trace, later := RunTrace(h, s, cur, attempts), RunTrace(h, SessionState(h, s, t), wait, attempts[1..]);
    PiecesShow(trace, events, wait, later);
    hide SessionEvents;
    hide SessionState;
    hide NextWait;
    hide Connects;
    hide AllWritten;
    hide Callbacks;
    assert events + [] == events;
  }

  /** The attempts are made one after the other until one is cancelled, and each takes up the handler
      where the one before left it. */
  ghost predicate InTurn<S>(h: Handler<S>, s: S, attempts: seq<Attempt>, starts: seq<S>, parts: seq<seq<Sent>>) {
    && |starts| == |parts| + 1 && starts[0] == s && |parts| <= |attempts|
    && (forall t | 0 <= t < |parts| - 1 :: !Cancelled(attempts[t]))
    && (|parts| < |attempts| ==> |parts| > 0 && Cancelled(attempts[|parts| - 1]))
    && (forall t | 0 <= t < |parts| :: Attempted(h, starts[t], starts[t + 1], attempts[t], parts[t]))
  }

  lemma InTurnAdds<S>(h: Handler<S>, s: S, s': S, attempts: seq<Attempt>, written: seq<Sent>,
                      starts: seq<S>, parts: seq<seq<Sent>>)
    requires |attempts| > 0 && Attempted(h, s, s', attempts[0], written)
    ensures Cancelled(attempts[0]) ==> InTurn(h, s, attempts, [s, s'], [written])
    ensures !Cancelled(attempts[0]) && InTurn(h, s', attempts[1..], starts, parts) ==>
              InTurn(h, s, attempts, [s] + starts, [written] + parts)
  {
    hide Attempted;
    hide Cancelled;
  }

  lemma FirstPart(first: seq<Sent>, rest: seq<seq<Sent>>)
    ensures Flat([first] + rest) == first + Flat(rest) && Flat([]) == []
  {
    assert ([first] + rest)[1..] == rest;
  }

  lemma FirstWelcome(t: Attempt, rest: seq<Attempt>)
    ensures Welcomes([t] + rest) == (if SawWelcome(t) then 1 else 0) + Welcomes(rest) && Welcomes([]) == 0
  {
    assert ([t] + rest)[1..] == rest;
  }

  lemma NoAttempts<S>(h: Handler<S>, s: S, cur: int)
    ensures InTurn(h, s, [], [s], []) && RunTrace(h, s, cur, []) == [] && Flat([]) == [] && Welcomes([]) == 0
  {
  }

  /** Ordered service over every run: all that is ever written are the replies of the welcomed attempts,
      in order, and there is a pair of callbacks for each of these. */
  lemma {:induction false} RunServes<S>(h: Handler<S>, s: S, cur: int, attempts: seq<Attempt>)
    returns (starts: seq<S>, parts: seq<seq<Sent>>)
    ensures InTurn(h, s, attempts, starts, parts) && |parts| <= |attempts|
    ensures AllWritten(RunTrace(h, s, cur, attempts)) == Flat(parts)
    ensures |Callbacks(RunTrace(h, s, cur, attempts))| == 2 * Welcomes(attempts[..|parts|])
    decreases attempts
  {
    hide *;
    if |attempts| == 0 {
      starts, parts := [s], [];
      NoAttempts(h, s, cur);
      NothingShown();
      assert attempts == [];
    } else {
      var t, rest := attempts[0], attempts[1..];
      var written, s' := AllWritten(SessionEvents(h, s, t)), SessionState(h, s, t);
      SessionShows(h, s, t);
      RunShows(h, s, cur, attempts);
      if Cancelled(t) {
        InTurnAdds(h, s, s', attempts, written, [], []);
        starts, parts := [s, s'], [written];
        FirstPart(written, []);
        FirstWelcome(t, []);
        assert parts == [written] + [] && attempts[..1] == [t] + [];
      } else {
        var laterStarts, laterParts := RunServes(h, s', NextWait(if Connects(t) then 0 else cur), rest);
        InTurnAdds(h, s, s', attempts, written, laterStarts, laterParts);
        starts, parts := [s] + laterStarts, [written] + laterParts;
        FirstPart(written, laterParts);
        FirstWelcome(t, rest[..|laterParts|]);
        assert attempts[..|parts|] == [t] + rest[..|laterParts|];
      }
    }
  }

  /** What may happen while the agent is connected, and what only while it is not. */
  predicate Fits(e: Event, up: bool) {
    && (e.Written? ==> up)
    && (e.Greeted? || e.BackoffReset? || e.Wait? ==> !up)
  }

  predicate Up(trace: seq<Event>) {
    |Callbacks(trace)| % 2 == 1
  }

  /** Envelopes are written only between the two callbacks of a connection, and handshakes and waits
      fall outside of them. */
  ghost predicate InPhase(trace: seq<Event>) {
    forall k :: 0 <= k < |trace| ==> Fits(trace[k], Up(trace[..k]))
  }

  lemma PhaseAdds(pre: seq<Event>, e: Event)
    requires InPhase(pre) && Fits(e, Up(pre))
    ensures InPhase(pre + [e]) && Up(pre + [e]) == (Up(pre) != e.State?)
  {
    hide Callbacks;
    CallbackAdds(pre, e);
    assert (pre + [e])[..|pre|] == pre;
    forall k | 0 <= k < |pre|
      ensures (pre + [e])[..k] == pre[..k]
    {
    }
  }

  lemma {:induction false} WrittenInPhase(pre: seq<Event>, sent: seq<Sent>)
    requires InPhase(pre) && Up(pre)
    ensures InPhase(pre + WrittenEvents(sent)) && Up(pre + WrittenEvents(sent))
  {
    hide InPhase;
    hide Up;
    if |sent| == 0 {
      assert pre + WrittenEvents(sent) == pre;
    } else {
      var front := sent[..|sent| - 1];
      WrittenInPhase(pre, front);
      assert pre + WrittenEvents(sent) == pre + WrittenEvents(front) + [Written(sent[|sent| - 1])];
      PhaseAdds(pre + WrittenEvents(front), Written(sent[|sent| - 1]));
    }
  }

  lemma ConnectionInPhase(pre: seq<Event>, sent: seq<Sent>)
    requires InPhase(pre) && !Up(pre)
    ensures InPhase(pre + Connection(sent)) && !Up(pre + Connection(sent))
  {
    hide InPhase;
    hide Up;
    hide WrittenEvents;
    PhaseAdds(pre, Greeted);
    PhaseAdds(pre + [Greeted], BackoffReset);
    PhaseAdds(pre + [Greeted] + [BackoffReset], State(true));
    var up := pre + [Greeted] + [BackoffReset] + [State(true)];
    WrittenInPhase(up, sent);
    PhaseAdds(up + WrittenEvents(sent), State(false));
    assert pre + Connection(sent) == up + WrittenEvents(sent) + [State(false)];
  }

  lemma SessionInPhase<S>(h: Handler<S>, s: S, t: Attempt, pre: seq<Event>)
    requires InPhase(pre) && !Up(pre)
    ensures InPhase(pre + SessionEvents(h, s, t)) && !Up(pre + SessionEvents(h, s, t))
  {
    hide InPhase;
    hide Up;
    hide Connection;
    hide Deliveries;
    if Connects(t) {
      ConnectionInPhase(pre, Deliveries(h, s, t.frames, t.okWrites));
    } else {
      assert pre + [] == pre;
    }
  }

  lemma {:induction false} ContinuationInPhase<S>(h: Handler<S>, s: S, cur: int, pre: seq<Event>,
                                                  attempts: seq<Attempt>)
    requires InPhase(pre) && !Up(pre)
    ensures InPhase(pre + RunTrace(h, s, cur, attempts))
    decreases attempts
  {
    hide InPhase;
    hide Up;
    hide SessionEvents;
    hide SessionState;
    hide NextWait;
    hide Connects;
    if |attempts| == 0 {
      assert pre + RunTrace(h, s, cur, attempts) == pre;
    } else {
      var t := attempts[0];
      var mid, wait := pre + SessionEvents(h, s, t), NextWait(if Connects(t) then 0 else cur);
      SessionInPhase(h, s, t, pre);
      PhaseAdds(mid, Wait(wait));
      if t.cancelled {
        assert pre + RunTrace(h, s, cur, attempts) == mid;
      } else if t.cancelledWaiting {
        assert pre + RunTrace(h, s, cur, attempts) == mid + [Wait(wait)];
      } else {
        var s' := SessionState(h, s, t);
        ContinuationInPhase(h, s', wait, mid + [Wait(wait)], attempts[1..]);
        assert pre + RunTrace(h, s, cur, attempts) == mid + [Wait(wait)] + RunTrace(h, s', wait, attempts[1..]);
      }
    }
  }

  /** Over every run, envelopes are written only between the two callbacks of a connection. */
  lemma RunInPhase<S>(h: Handler<S>, s: S, cur: int, attempts: seq<Attempt>)
    ensures InPhase(RunTrace(h, s, cur, attempts))
  {
    hide RunTrace;
    ContinuationInPhase(h, s, cur, [], attempts);
    assert [] + RunTrace(h, s, cur, attempts) == RunTrace(h, s, cur, attempts);
  }
}
