/** The two watchers of the session's lock state: one re-reads the state on every relevant D-Bus
    signal, the other takes events from a bounded queue. Both report changes only. */
module Watch {
  import opened Text

  /** Run compression: each maximal run of equal readings, once. */
  function Compress(s: seq<bool>): (r: seq<bool>)
    ensures |s| > 0 ==> |r| > 0 && r[|r| - 1] == s[|s| - 1]
    ensures |r| <= |s|
  {
    if |s| <= 1 then s
    else
      var front := Compress(s[..|s| - 1]);
      if s[|s| - 1] == s[|s| - 2] then front else front + [s[|s| - 1]]
  }

  lemma CompressAdds(s: seq<bool>, b: bool)
    requires |s| > 0
    ensures Compress(s + [b]) == if b == s[|s| - 1] then Compress(s) else Compress(s) + [b]
  {
    assert (s + [b])[..|s|] == s;
  }

  /** What run compression promises: it starts with the first reading, strictly alternates, and ends
      with the last reading. */
  lemma {:induction false} CompressAlternates(s: seq<bool>)
    requires |s| > 0
    ensures Compress(s)[0] == s[0]
    ensures forall i :: 0 <= i < |Compress(s)| ==> Compress(s)[i] == if i % 2 == 0 then s[0] else !s[0]
    ensures Compress(s)[|Compress(s)| - 1] == s[|s| - 1]
  {
    if |s| > 1 {
      CompressAlternates(s[..|s| - 1]);
    }
  }

  /* ---- logind ---- */

  /** A value in the body of a D-Bus signal. */
  datatype Value = Text(text: Str) | Changed(names: set<Str>) | Invalidated(list: seq<Str>) | Other

  const SESSION_IFACE := Ascii("org.freedesktop.login1.Session")
  const LOCKED_HINT := Ascii("LockedHint")

  /** A PropertiesChanged signal for the session that changes or invalidates LockedHint. */
  predicate Mentions(sig: Option<seq<Value>>) {
    && sig.Some? && |sig.value| >= 3
    && (if sig.value[0].Text? then sig.value[0].text else []) == SESSION_IFACE
    && ((sig.value[1].Changed? && LOCKED_HINT in sig.value[1].names)
        || (sig.value[2].Invalidated? && LOCKED_HINT in sig.value[2].list))
  }

  method MentionsLockedHint(sig: Option<seq<Value>>) returns (hit: bool)
    ensures hit == Mentions(sig)
  {
    if sig.None? || |sig.value| < 3 {
      return false;
    }
    var iface := if sig.value[0].Text? then sig.value[0].text else [];
    assert SESSION_IFACE[0] == 111;
    if iface != SESSION_IFACE {
      return false;
    }
    if sig.value[1].Changed? && LOCKED_HINT in sig.value[1].names {
      return true;
    }
    if sig.value[2].Invalidated? {
      var list := sig.value[2].list;
      for i := 0 to |list|
        invariant LOCKED_HINT !in list[..i]
      {
        if list[i] == LOCKED_HINT {
          return true;
        }
      }
      assert list[..|list|] == list;
    }
    return false;
  }

  /** A signal and what reading the lock state right after it gives, if it can be read. */
  datatype Signal = Signal(body: Option<seq<Value>>, reading: Option<bool>)

  /** The readings that Watch takes and gets. */
  function Readings(signals: seq<Signal>): seq<bool> {
    if |signals| == 0 then []
    else
      var last := signals[|signals| - 1];
      Readings(signals[..|signals| - 1])
      + if Mentions(last.body) && last.reading.Some? then [last.reading.value] else []
  }

  /** Watch on Linux, for the signals that arrive before the context is cancelled: it reports the
      run compression of the first reading and those that follow. */
  method WatchLogind(initial: Option<bool>, signals: seq<Signal>) returns (reported: seq<bool>)
    ensures reported == if initial.None? then [] else Compress([initial.value] + Readings(signals))
  {
    hide *;
    if initial.None? {
      return [];
    }
    var last := initial.value;
    reported := [last];
    NoReadings(last, signals);
    for i := 0 to |signals|
      invariant reported == Compress([initial.value] + Readings(signals[..i]))
      invariant |reported| > 0 && last == reported[|reported| - 1]
    {
      SignalAdds(initial.value, signals, i);
      var hit := MentionsLockedHint(signals[i].body);
      if hit {
        var locked := signals[i].reading;
        if locked.Some? && locked.value != last {
          last := locked.value;
          reported := reported + [last];
        }
      }
    }
    assert signals[..|signals|] == signals;
  }

  lemma NoReadings(initial: bool, signals: seq<Signal>)
    ensures Compress([initial] + Readings(signals[..0])) == [initial]
  {
  }

  lemma ReadingAdds(signals: seq<Signal>, i: nat)
    requires i < |signals|
    ensures var Signal(body, reading) := signals[i];
            Readings(signals[..i + 1])
            == Readings(signals[..i]) + if Mentions(body) && reading.Some? then [reading.value] else []
  {
    hide Mentions;
    assert signals[..i + 1][..i] == signals[..i];
  }

  lemma CompressNonempty(s: seq<bool>)
    requires |s| > 0
    ensures |Compress(s)| > 0 && Compress(s)[|Compress(s)| - 1] == s[|s| - 1]
  {
  }

  /** What one more signal adds to the run compression. */
  lemma SignalAdds(initial: bool, signals: seq<Signal>, i: nat)
    requires i < |signals|
    ensures var before := Compress([initial] + Readings(signals[..i]));
            var after := Compress([initial] + Readings(signals[..i + 1]));
            var Signal(body, reading) := signals[i];
            && |before| > 0
            && after == before + if Mentions(body) && reading.Some? && reading.value != before[|before| - 1]
                                 then [reading.value] else []
  {
    var readings, last := [initial] + Readings(signals[..i]), signals[i];
    hide *;
    ReadingAdds(signals, i);
    CompressNonempty(readings);
    if Mentions(last.body) && last.reading.Some? {
      assert [initial] + Readings(signals[..i + 1]) == readings + [last.reading.value];
      CompressAdds(readings, last.reading.value);
    } else {
      assert [initial] + Readings(signals[..i + 1]) == readings;
    }
  }

  /** The signal says that the lock state of a session has, or may have, changed. */
  predicate Concerns(sig: Signal) {
    && sig.body.Some? && |sig.body.value| >= 3
    && sig.body.value[0] == Text(Ascii("org.freedesktop.login1.Session"))
    && (|| (sig.body.value[1].Changed? && Ascii("LockedHint") in sig.body.value[1].names)
        || (sig.body.value[2].Invalidated? && Ascii("LockedHint") in sig.body.value[2].list))
  }

  lemma MentionsExactly(sig: Signal)
    ensures Mentions(sig.body) <==> Concerns(sig)
  {
    assert SESSION_IFACE[0] == 111;
  }

  /** From report i to report i' by one signal: a reading that differs is reported next, and nothing
      else is. */
  predicate Moves(reported: seq<bool>, i: nat, i': nat, sig: Signal) {
    && i < |reported| && i' < |reported|
    && if Concerns(sig) && sig.reading.Some? && sig.reading.value != reported[i] then
         i' == i + 1 && reported[i'] == sig.reading.value
       else i' == i
  }

  /** The reports begin with the initial state and follow the signals one by one: before signal p the
      last report is number at[p], and after all of them there is no further one. */
  predicate Reports(initial: bool, signals: seq<Signal>, at: seq<nat>, reported: seq<bool>) {
    && |at| == |signals| + 1 && at[0] == 0 && |reported| == at[|signals|] + 1 && reported[0] == initial
    && forall p :: 0 <= p < |signals| ==> Moves(reported, at[p], at[p + 1], signals[p])
  }

  lemma MovesStay(reported: seq<bool>, i: nat, i': nat, sig: Signal, more: seq<bool>)
    requires Moves(reported, i, i', sig)
    ensures Moves(reported + more, i, i', sig)
  {
  }

  lemma ReportsAdd(initial: bool, signals: seq<Signal>, at: seq<nat>, reported: seq<bool>, last: Signal,
                   more: seq<bool>)
    requires Reports(initial, signals, at, reported)
    requires more == if Concerns(last) && last.reading.Some? && last.reading.value != reported[|reported| - 1]
                     then [last.reading.value] else []
    ensures Reports(initial, signals + [last], at + [at[|signals|] + |more|], reported + more)
  {
    var all, at', i := signals + [last], at + [at[|signals|] + |more|], at[|signals|];
    assert Moves(reported + more, i, i + |more|, last);
    hide Moves;
    forall p | 0 <= p < |all|
      ensures Moves(reported + more, at'[p], at'[p + 1], all[p])
    {
      if p < |signals| {
        MovesStay(reported, at[p], at[p + 1], signals[p], more);
      }
    }
  }

  lemma ReportsNonempty(initial: bool, signals: seq<Signal>, at: seq<nat>, reported: seq<bool>)
    requires Reports(initial, signals, at, reported)
    ensures |reported| > 0 && |at| == |signals| + 1
  {
  }

  lemma NoSignals(initial: bool)
    ensures Reports(initial, [], [0], Compress([initial] + Readings([])))
  {
    assert [initial] + Readings([]) == [initial];
  }

  /** What WatchLogind reports, signal by signal. */
  lemma {:induction false} CompressionReports(initial: bool, signals: seq<Signal>) returns (at: seq<nat>)
    ensures Reports(initial, signals, at, Compress([initial] + Readings(signals)))
  {
    hide *;
    if |signals| == 0 {
      at := [0];
      NoSignals(initial);
    } else {
      var n := |signals| - 1;
      var last, before := signals[n], Compress([initial] + Readings(signals[..n]));
      assert signals == signals[..n] + [last] && signals[..n + 1] == signals;
      at := CompressionReports(initial, signals[..n]);
      SignalAdds(initial, signals, n);
      MentionsExactly(last);
      ReportsNonempty(initial, signals[..n], at, before);
      var more := if Concerns(last) && last.reading.Some? && last.reading.value != before[|before| - 1]
                  then [last.reading.value] else [];
      ReportsAdd(initial, signals[..n], at, before, last, more);
      at := at + [at[n] + |more|];
    }
  }

  /* ---- Windows ---- */

  const QUEUE_SIZE := 8
  const SESSION_LOCK := 7
  const SESSION_UNLOCK := 8

  /** lockedFromSessionEvent. */
  function LockedFromEvent(wparam: nat): Option<bool> {
    if wparam == SESSION_LOCK then Some(true)
    else if wparam == SESSION_UNLOCK then Some(false)
    else None
  }

  /** WTS_SESSION_LOCK is 7 and WTS_SESSION_UNLOCK is 8; no other event matters. */
  lemma EventsExactly(wparam: nat, locked: bool)
    ensures LockedFromEvent(wparam) == Some(locked) <==> (wparam == 7 && locked) || (wparam == 8 && !locked)
  {
  }

  /** What the two threads do: the window procedure gets an event, or Watch takes one from the queue. */
  datatype Turn = Event(wparam: nat) | Take

  datatype WatchState = WatchState(queue: seq<bool>, last: bool, reported: seq<bool>)

  /** One turn; Watch simply waits while the queue is empty, and a full queue drops the event. */
  function Turned(s: WatchState, t: Turn): WatchState {
    match t
    case Event(wparam) =>
      var locked := LockedFromEvent(wparam);
      if locked.Some? && |s.queue| < QUEUE_SIZE then s.(queue := s.queue + [locked.value]) else s
    case Take =>
      if |s.queue| == 0 then s
      else
        var locked := s.queue[0];
        if locked != s.last then WatchState(s.queue[1..], locked, s.reported + [locked])
        else s.(queue := s.queue[1..])
  }

  class Watcher {
    var queue: seq<bool>
    var last: bool
    var reported: seq<bool>

    /** Watch reports the state it finds. */
    constructor (initial: bool)
      ensures View() == WatchState([], initial, [initial])
    {
      queue, last, reported := [], initial, [initial];
    }

    function View(): WatchState
      reads this
    {
      WatchState(queue, last, reported)
    }

    method WndProc(wparam: nat)
      modifies this`queue
      ensures View() == Turned(old(View()), Event(wparam))
    {
      var locked := LockedFromEvent(wparam);
      if locked.Some? {
        if |queue| < QUEUE_SIZE {
          queue := queue + [locked.value];
        }
      }
    }

    method TakeEvent()
      modifies this
      ensures View() == Turned(old(View()), Take)
    {
      if |queue| > 0 {
        var locked := queue[0];
        queue := queue[1..];
        if locked != last {
          last := locked;
          reported := reported + [locked];
        }
      }
    }
  }

  /** The state of the watcher together with the history of its queue: the relevant events, those
      that found room in the queue, and those taken out again. */
  datatype Ledger = Ledger(now: WatchState, relevant: seq<bool>, queued: seq<bool>, taken: seq<bool>)

  function RelevantOf(t: Turn): seq<bool> {
    if t.Event? && LockedFromEvent(t.wparam).Some? then [LockedFromEvent(t.wparam).value] else []
  }

  function Entered(l: Ledger, t: Turn): Ledger {
    Ledger(Turned(l.now, t),
           l.relevant + RelevantOf(t),
           l.queued + if |l.now.queue| < QUEUE_SIZE then RelevantOf(t) else [],
           l.taken + if t.Take? && |l.now.queue| > 0 then [l.now.queue[0]] else [])
  }

  function Observed(initial: bool, turns: seq<Turn>): Ledger {
    if |turns| == 0 then Ledger(WatchState([], initial, [initial]), [], [], [])
    else Entered(Observed(initial, turns[..|turns| - 1]), turns[|turns| - 1])
  }

  /** The queue is bounded and first-in first-out, and the reports are the run compression of the
      initial state and the events taken. */
  ghost predicate Balanced(initial: bool, l: Ledger) {
    && |l.now.queue| <= QUEUE_SIZE
    && l.queued == l.taken + l.now.queue
    && l.now.reported == Compress([initial] + l.taken)
    && l.now.last == ([initial] + l.taken)[|l.taken|]
    && |l.queued| <= |l.relevant|
  }

  lemma BalancedKept(initial: bool, l: Ledger, t: Turn)
    requires Balanced(initial, l)
    ensures Balanced(initial, Entered(l, t))
  {
    hide Compress;
    hide LockedFromEvent;
    var l' := Entered(l, t);
    if t.Take? && |l.now.queue| > 0 {
      var head := l.now.queue[0];
      assert l.now.queue == [head] + l.now.queue[1..];
      assert [initial] + l'.taken == ([initial] + l.taken) + [head];
      CompressAdds([initial] + l.taken, head);
    } else {
      assert l'.taken == l.taken;
      assert l'.queued == l'.taken + l'.now.queue;
    }
  }

  /** However the two threads take turns, the ledger balances. */
  lemma {:induction false} WatchRefinesCompression(initial: bool, turns: seq<Turn>)
    ensures Balanced(initial, Observed(initial, turns))
  {
    if |turns| > 0 {
      hide Balanced;
      hide Entered;
      WatchRefinesCompression(initial, turns[..|turns| - 1]);
      BalancedKept(initial, Observed(initial, turns[..|turns| - 1]), turns[|turns| - 1]);
    }
  }

  predicate NothingDropped(l: Ledger) {
    l.queued == l.relevant
  }

  /** Once the queue is drained, the last report is the last event that found room, or the initial
      state. If nothing was dropped, the reports are the compression of all relevant events. */
  lemma DrainedLedger(initial: bool, turns: seq<Turn>)
    requires Observed(initial, turns).now.queue == []
    ensures var l := Observed(initial, turns);
            var reported, queued := l.now.reported, [initial] + l.queued;
            && |reported| > 0 && reported[|reported| - 1] == queued[|queued| - 1]
            && (NothingDropped(l) ==> reported == Compress([initial] + l.relevant))
  {
    WatchRefinesCompression(initial, turns);
    hide Observed;
    hide Compress;
    var l := Observed(initial, turns);
    assert l.queued == l.taken;
  }

  /** The turns from k up to n bring no relevant event. */
  predicate Quiet(turns: seq<Turn>, k: nat, n: nat)
    requires k <= n <= |turns|
  {
    forall i :: k <= i < n ==> RelevantOf(turns[i]) == []
  }

  lemma {:induction false} QuietKeeps(initial: bool, turns: seq<Turn>, k: nat, n: nat)
    requires k <= n <= |turns| && Quiet(turns, k, n)
    ensures var l, l' := Observed(initial, turns[..k]), Observed(initial, turns[..n]);
            l'.queued == l.queued && l'.relevant == l.relevant
  {
    hide Observed;
    hide RelevantOf;
    if k < n {
      QuietKeeps(initial, turns, k, n - 1);
      assert turns[..n] == turns[..n - 1] + [turns[n - 1]];
      ObservedAdds(initial, turns[..n - 1], turns[n - 1]);
    }
  }

  /** The last relevant event ends the ledger's entries, unless it met a full queue. */
  lemma LastEventEnters(initial: bool, turns: seq<Turn>, k: nat)
    requires k < |turns| && RelevantOf(turns[k]) != [] && Quiet(turns, k + 1, |turns|)
    ensures var before, l := Observed(initial, turns[..k]), Observed(initial, turns);
            var event := LockedFromEvent(turns[k].wparam).value;
            && l.relevant == before.relevant + [event]
            && l.queued == before.queued + if |before.now.queue| < QUEUE_SIZE then [event] else []
  {
    hide Observed;
    QuietKeeps(initial, turns, k + 1, |turns|);
    assert turns[..|turns|] == turns;
    assert turns[..k + 1] == turns[..k] + [turns[k]];
    ObservedAdds(initial, turns[..k], turns[k]);
  }

  /** The branch that loses the state: the event finds the queue full, and its last entry is not it. */
  predicate Contradicts(queue: seq<bool>, event: bool) {
    |queue| == QUEUE_SIZE && queue[QUEUE_SIZE - 1] != event
  }

  /** The last entry of the queue's history, once the event has met the queue. */
  lemma LastEntry(initial: bool, before: Ledger, event: bool)
    requires Balanced(initial, before)
    ensures var queued := [initial] + (before.queued + if |before.now.queue| < QUEUE_SIZE then [event] else []);
            queued[|queued| - 1] != event <==> Contradicts(before.now.queue, event)
  {
    hide Compress;
    if |before.now.queue| == QUEUE_SIZE {
      assert before.queued[|before.queued| - 1] == before.now.queue[QUEUE_SIZE - 1];
    }
  }

  /** Exactly when the last report is wrong: with turn k the last relevant event and the queue drained
      at the end, the report differs from that event if and only if the event found the queue full
      with the opposite as its last entry. If nothing was dropped, the reports are the compression
      of all relevant events. */
  lemma DrainedReport(initial: bool, turns: seq<Turn>, k: nat)
    requires k < |turns| && RelevantOf(turns[k]) != [] && Quiet(turns, k + 1, |turns|)
    requires Observed(initial, turns).now.queue == []
    ensures var l, event := Observed(initial, turns), LockedFromEvent(turns[k].wparam).value;
            && |l.relevant| > 0 && l.relevant[|l.relevant| - 1] == event
            && |l.now.reported| > 0
            && (l.now.reported[|l.now.reported| - 1] != event
                <==> Contradicts(Observed(initial, turns[..k]).now.queue, event))
            && (NothingDropped(l) ==> l.now.reported == Compress([initial] + l.relevant))
  {
    var event, before := LockedFromEvent(turns[k].wparam).value, Observed(initial, turns[..k]);
    hide *;
    WatchRefinesCompression(initial, turns[..k]);
    LastEventEnters(initial, turns, k);
    DrainedLedger(initial, turns);
    LastEntry(initial, before, event);
  }

  function Takes(n: nat): seq<Turn> {
    if n == 0 then [] else Takes(n - 1) + [Take]
  }

  lemma ObservedAdds(initial: bool, turns: seq<Turn>, t: Turn)
    ensures Observed(initial, turns + [t]) == Entered(Observed(initial, turns), t)
  {
    assert (turns + [t])[..|turns|] == turns;
  }

  /** Taking often enough drains the queue, and changes nothing about what was queued. */
  lemma {:induction false} TakesDrain(initial: bool, turns: seq<Turn>, n: nat)
    ensures var l, l' := Observed(initial, turns), Observed(initial, turns + Takes(n));
            && |l'.now.queue| == (if n < |l.now.queue| then |l.now.queue| - n else 0)
            && l'.queued == l.queued && l'.relevant == l.relevant
  {
    hide Observed;
    hide LockedFromEvent;
    if n == 0 {
      assert turns + Takes(n) == turns;
    } else {
      TakesDrain(initial, turns, n - 1);
      assert turns + Takes(n) == (turns + Takes(n - 1)) + [Take];
      ObservedAdds(initial, turns + Takes(n - 1), Take);
    }
  }

  /** Dropping is not harmless: if an event meets a full queue whose last entry says otherwise, then
      after draining the last report contradicts the session until another event comes. */
  lemma DropLosesState(initial: bool, turns: seq<Turn>, wparam: nat)
    requires var l := Observed(initial, turns);
             && |l.now.queue| == QUEUE_SIZE
             && LockedFromEvent(wparam).Some?
             && |l.queued| > 0 && LockedFromEvent(wparam).value != l.queued[|l.queued| - 1]
    ensures var l := Observed(initial, turns + [Event(wparam)] + Takes(QUEUE_SIZE));
            && l.now.queue == []
            && |l.relevant| > 0 && l.relevant[|l.relevant| - 1] == LockedFromEvent(wparam).value
            && |l.now.reported| > 0 && l.now.reported[|l.now.reported| - 1] != LockedFromEvent(wparam).value
  {
    var more := turns + [Event(wparam)];
    ObservedAdds(initial, turns, Event(wparam));
    hide Observed;
    hide Compress;
    TakesDrain(initial, more, QUEUE_SIZE);
    DrainedLedger(initial, more + Takes(QUEUE_SIZE));
  }

  /** n events in a row without a taker, locking and unlocking by turns. */
  function Burst(n: nat): seq<Turn> {
    if n == 0 then [] else Burst(n - 1) + [Event(if n % 2 == 1 then SESSION_LOCK else SESSION_UNLOCK)]
  }

  /** Eight events fill the queue; so a ninth alternating one is lost. */
  lemma {:induction false} BurstFills(initial: bool, n: nat)
    requires n <= QUEUE_SIZE
    ensures var l := Observed(initial, Burst(n));
            |l.now.queue| == n && |l.queued| == n && (n > 0 ==> l.queued[n - 1] == (n % 2 == 1))
  {
    hide Observed;
    if n == 0 {
      assert Observed(initial, []).queued == [] && Observed(initial, []).now.queue == [] by { NothingYet(initial); }
    } else {
      BurstFills(initial, n - 1);
      ObservedAdds(initial, Burst(n - 1), Event(if n % 2 == 1 then SESSION_LOCK else SESSION_UNLOCK));
    }
  }

  /** A machine is locked and unlocked four times and locked once more before Watch gets to take an
      event: after draining the queue the last report says unlocked. */
  lemma NinthEventIsLost(initial: bool)
    ensures var l := Observed(initial, Burst(8) + [Event(SESSION_LOCK)] + Takes(8));
            && l.now.queue == []
            && |l.relevant| > 0 && l.relevant[|l.relevant| - 1] == true
            && |l.now.reported| > 0 && l.now.reported[|l.now.reported| - 1] == false
  {
    BurstFills(initial, 8);
    DropLosesState(initial, Burst(8), SESSION_LOCK);
  }

  lemma NothingYet(initial: bool)
    ensures Observed(initial, []) == Ledger(WatchState([], initial, [initial]), [], [], [])
  {
  }
}
