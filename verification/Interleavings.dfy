/** Safety of the agent over every interleaving of the handler thread with the UI threads. */
module Interleavings {
  import opened Text
  import opened GoTime
  import opened Wire
  import opened Keys
  import opened Envelope
  import opened Pairing
  import opened Devices
  import opened Gateway
  import opened System
  import Base64
  import Core
  import ReplayGuard

  /* ---- a window is good for one pairing ---- */

  /** How many pair_accepts window w has yielded in the first n steps. */
  function PairAccepts(r: Run, w: nat, n: nat): nat
    requires n <= |r.steps| < |r.states|
  {
    if n == 0 then 0
    else
      PairAccepts(r, w, n - 1)
      + if r.steps[n - 1].action.Reply? && r.states[n - 1].pc == Consumed(w) then 1 else 0
  }

  /** The step puts a device that window w admitted into the allowlist. */
  predicate InsertsFor(s: Sys, step: Step, w: nat) {
    step.action.Store? && s.pc.Verified? && s.pc.w == w && DecodeKey(s.pc.msg.pubKey).Some?
  }

  function Insertions(r: Run, w: nat, n: nat): nat
    requires n <= |r.steps| < |r.states|
  {
    if n == 0 then 0
    else Insertions(r, w, n - 1) + if InsertsFor(r.states[n - 1], r.steps[n - 1], w) then 1 else 0
  }

  predicate Spent(s: Sys, w: nat) {
    w < |s.windows| && s.windows[w].used
  }

  /** One step spends a window only as its one pairing is being completed. */
  lemma SpendingStep(a: Agent, s: Sys, step: Step, w: nat)
    requires Enabled(s, step) && PcInv(a, s)
    ensures var s' := Apply(a, s, step);
            && (Spent(s, w) ==> Spent(s', w))
            && (Spent(s', w) ==> Spent(s, w) || (s.pc.Stored? && s.pc.w == w))
            && (s'.pc == Consumed(w) ==> s.pc == Consumed(w) || (s.pc.Stored? && s.pc.w == w && !Spent(s, w)))
            && (s.pc == Consumed(w) ==> Spent(s, w))
            && (s.pc == Consumed(w) && step.action.Reply? ==> s'.pc.Idle?)
            && (s'.pc.Stored? && s'.pc.w == w ==>
                  !Spent(s, w) && ((s.pc.Stored? && s.pc.w == w) || InsertsFor(s, step, w)))
            && (s.pc.Stored? && s.pc.w == w ==> Spent(s', w) || (s'.pc.Stored? && s'.pc.w == w))
            && (InsertsFor(s, step, w) ==> !Spent(s, w))
            && (InsertsFor(s, step, w) && step.action.write.Written? ==> s'.pc.Stored? && s'.pc.w == w)
  {
    hide Proves;
    hide Core.Step;
    hide Open;
    hide Lookup;
    hide PairRequest;
  }

  lemma {:induction false} AcceptsAreSpent(a: Agent, r: Run, w: nat, n: nat)
    requires Valid(a, r) && n <= |r.steps|
    ensures PairAccepts(r, w, n) <= if Spent(r.states[n], w) && r.states[n].pc != Consumed(w) then 1 else 0
  {
    if n > 0 {
      hide Apply;
      hide Enabled;
      hide PcInv;
      AcceptsAreSpent(a, r, w, n - 1);
      Invariant(a, r, n - 1);
      SpendingStep(a, r.states[n - 1], r.steps[n - 1], w);
    }
  }

  /** However the UI threads interfere, a window yields at most one pair_accept. */
  lemma OneAcceptPerWindow(a: Agent, r: Run, w: nat, n: nat)
    requires Valid(a, r) && n <= |r.steps|
    ensures PairAccepts(r, w, n) <= 1
  {
    AcceptsAreSpent(a, r, w, n);
  }

  /** How many of the insertions for window w could not be written to the file. */
  function FailedInsertions(r: Run, w: nat, n: nat): nat
    requires n <= |r.steps| < |r.states|
  {
    if n == 0 then 0
    else
      FailedInsertions(r, w, n - 1)
      + if InsertsFor(r.states[n - 1], r.steps[n - 1], w) && r.steps[n - 1].action.write.Failed? then 1 else 0
  }

  lemma {:induction false} InsertionsAreSpent(a: Agent, r: Run, w: nat, n: nat)
    requires Valid(a, r) && n <= |r.steps|
    ensures Insertions(r, w, n) - FailedInsertions(r, w, n)
            <= if Spent(r.states[n], w) || (r.states[n].pc.Stored? && r.states[n].pc.w == w) then 1 else 0
  {
    if n > 0 {
      hide Apply;
      hide Enabled;
      hide PcInv;
      InsertionsAreSpent(a, r, w, n - 1);
      Invariant(a, r, n - 1);
      SpendingStep(a, r.states[n - 1], r.steps[n - 1], w);
    }
  }

  /** A window puts at most one device into the allowlist for good: every further one costs a failed
      write. As long as the file can be written, it admits at most one. */
  lemma OneInsertionPerWindow(a: Agent, r: Run, w: nat, n: nat)
    requires Valid(a, r) && n <= |r.steps|
    ensures Insertions(r, w, n) <= FailedInsertions(r, w, n) + 1
    ensures (forall i | 0 <= i < n && r.steps[i].action.Store? :: r.steps[i].action.write.Written?)
            ==> Insertions(r, w, n) <= 1
  {
    InsertionsAreSpent(a, r, w, n);
    if forall i | 0 <= i < n && r.steps[i].action.Store? :: r.steps[i].action.write.Written? {
      NoneFailed(r, w, n);
    }
  }

  lemma {:induction false} NoneFailed(r: Run, w: nat, n: nat)
    requires n <= |r.steps| < |r.states|
    requires forall i | 0 <= i < n && r.steps[i].action.Store? :: r.steps[i].action.write.Written?
    ensures FailedInsertions(r, w, n) == 0
  {
    if n > 0 {
      NoneFailed(r, w, n - 1);
    }
  }

  /* ---- what the handler does for a message goes back to its reception ---- */

  /** The handler has been busy with the message received in step g from then up to state i. */
  predicate InFlight(r: Run, g: nat, i: nat) {
    && g < i < |r.states| && g < |r.steps|
    && r.steps[g].action.Receive?
    && forall m :: g < m <= i ==> !r.states[m].pc.Idle?
  }

  lemma {:induction false} Reception(a: Agent, r: Run, i: nat) returns (g: nat)
    requires Valid(a, r) && i < |r.states| && !r.states[i].pc.Idle?
    ensures InFlight(r, g, i)
  {
    if r.steps[i - 1].action.Receive? {
      g := i - 1;
    } else {
      g := Reception(a, r, i - 1);
    }
  }

  /** The message is plaintext and the given pair_request. */
  predicate Asks(a: Agent, payload: Str, msg: Payload) {
    !IsSealed(payload) && PairRequest(a, payload) == Some(msg)
  }

  /** The handler's variables stem from the message and the shared state at its reception. */
  predicate Matches(a: Agent, s: Sys, from: Str, payload: Str, pc: Pc) {
    match pc
    case Idle => false
    case Snapped(f, msg, seen) => f == from && Asks(a, payload, msg) && seen == s.current
    case Verified(f, msg, w, _) => f == from && Asks(a, payload, msg) && s.current == Some(w)
    case Stored(f, msg, w) => f == from && Asks(a, payload, msg) && s.current == Some(w)
    case Consumed(w) => s.current == Some(w)
    case Got(f, p, key) => f == from && p == payload && Lookup(s.store.devices, from) == Some(key)
    case Screened(f, msg, key, _) =>
      f == from && Lookup(s.store.devices, from) == Some(key)
      && Unsealed(a, s.store.devices, from, payload) == Some(msg)
  }

  lemma MatchesStep(a: Agent, g: Sys, from: Str, payload: Str, s: Sys, step: Step)
    requires Enabled(s, step) && Matches(a, g, from, payload, s.pc) && !Apply(a, s, step).pc.Idle?
    ensures Matches(a, g, from, payload, Apply(a, s, step).pc)
  {
    hide Proves;
    hide Core.Step;
    hide Open;
    hide Added;
    hide Removed;
    hide EncodePairCode;
    hide Lookup;
    hide Asks;
    hide Received;
  }

  /** One step of a run. */
  lemma RunStep(a: Agent, r: Run, i: nat)
    requires Valid(a, r) && i < |r.steps|
    ensures Enabled(r.states[i], r.steps[i]) && r.states[i + 1] == Apply(a, r.states[i], r.steps[i])
  {
    hide Enabled;
    hide Apply;
  }

  /** A message is received by an idle handler, who notes what Matches says. */
  lemma MatchesReception(a: Agent, s: Sys, step: Step)
    requires Enabled(s, step) && step.action.Receive?
    ensures s.pc.Idle?
    ensures !Apply(a, s, step).pc.Idle? ==> Matches(a, s, step.action.from, step.action.payload, Apply(a, s, step).pc)
  {
    hide Lookup;
    hide PairRequest;
  }

  lemma {:induction false} FlightMatches(a: Agent, r: Run, g: nat, i: nat)
    requires Valid(a, r) && InFlight(r, g, i)
    ensures Matches(a, r.states[g], r.steps[g].action.from, r.steps[g].action.payload, r.states[i].pc)
  {
    hide Apply;
    hide Enabled;
    hide Matches;
    RunStep(a, r, i - 1);
    if i > g + 1 {
      FlightMatches(a, r, g, i - 1);
      MatchesStep(a, r.states[g], r.steps[g].action.from, r.steps[g].action.payload, r.states[i - 1], r.steps[i - 1]);
    } else {
      MatchesReception(a, r.states[g], r.steps[g]);
    }
  }

  /** Window k is unspent, or was already spent at the earlier state. */
  predicate SpentOnlyBefore(s: Sys, s': Sys, k: nat) {
    Spent(s', k) ==> Spent(s, k)
  }

  /** While a request is handled, only the window that was current at its reception can be spent:
      neither one opened since, nor any other. */
  lemma {:induction false} FlightSpendsOnlyItsWindow(a: Agent, r: Run, g: nat, i: nat, k: nat)
    requires Valid(a, r) && InFlight(r, g, i)
    requires r.states[g].current != Some(k)
    ensures SpentOnlyBefore(r.states[g], r.states[i], k)
  {
    hide Apply;
    hide Enabled;
    hide PcInv;
    RunStep(a, r, i - 1);
    Invariant(a, r, i - 1);
    SpendingStep(a, r.states[i - 1], r.steps[i - 1], k);
    if i > g + 1 {
      FlightSpendsOnlyItsWindow(a, r, g, i - 1, k);
      FlightMatches(a, r, g, i - 1);
    } else {
      MatchesReception(a, r.states[g], r.steps[g]);
    }
  }

  /** Every pair_accept belongs to one request, answers for the window that was current when that
      request arrived, and has spent no other window in the meantime. */
  lemma AcceptStory(a: Agent, r: Run, i: nat) returns (g: nat)
    requires Valid(a, r) && i < |r.steps| && r.steps[i].action.Reply?
    ensures InFlight(r, g, i)
    ensures r.states[g].current == Some(r.states[i].pc.w)
    ensures Spent(r.states[i], r.states[i].pc.w)
    ensures forall k: nat | k != r.states[i].pc.w :: SpentOnlyBefore(r.states[g], r.states[i], k)
  {
    g := Reception(a, r, i);
    FlightMatches(a, r, g, i);
    Invariant(a, r, i);
    forall k: nat | k != r.states[i].pc.w
      ensures SpentOnlyBefore(r.states[g], r.states[i], k)
    {
      FlightSpendsOnlyItsWindow(a, r, g, i, k);
    }
  }

  /* ---- where devices and locks come from ---- */

  /** A step adds at most one window, and changes no secret and no deadline. */
  lemma WindowsStep(a: Agent, s: Sys, step: Step)
    requires Enabled(s, step)
    ensures var before, after := s.windows, Apply(a, s, step).windows;
            && |before| <= |after| <= |before| + 1
            && (forall k: nat | k < |before| ::
                  after[k].secret == before[k].secret && after[k].expires == before[k].expires)
            && (|before| < |after| ==>
                  && step.action.Create? && after[|before|].secret == step.action.secret
                  && after[|before|].expires == step.now + WINDOW_TTL)
  {
    hide EncodePairCode;
    hide Core.Step;
    hide Added;
    hide Removed;
    hide Received;
    hide Verifies;
    hide Delivered;
  }

  lemma {:induction false} WindowCreation(a: Agent, r: Run, i: nat, k: nat) returns (c: nat)
    requires Valid(a, r) && i < |r.states| && k < |r.states[i].windows|
    ensures c < i && r.steps[c].action.Create? && r.steps[c].action.secret == r.states[i].windows[k].secret
    ensures r.states[i].windows[k].expires == r.steps[c].now + WINDOW_TTL
  {
    hide Apply;
    hide Enabled;
    RunStep(a, r, i - 1);
    WindowsStep(a, r.states[i - 1], r.steps[i - 1]);
    if k < |r.states[i - 1].windows| {
      c := WindowCreation(a, r, i - 1, k);
    } else {
      c := i - 1;
    }
  }

  lemma {:induction false} WindowInstallation(a: Agent, r: Run, i: nat) returns (c: nat)
    requires Valid(a, r) && i < |r.states| && r.states[i].current.Some?
    ensures c < i && r.steps[c].action == Install(r.states[i].current.value)
  {
    if r.steps[i - 1].action == Install(r.states[i].current.value) {
      c := i - 1;
    } else {
      c := WindowInstallation(a, r, i - 1);
    }
  }

  /** A request becomes verified by a Verify step, at the reading of that step. */
  lemma VerifiedStep(a: Agent, s: Sys, step: Step)
    requires Enabled(s, step) && Apply(a, s, step).pc.Verified?
    ensures Apply(a, s, step).pc == s.pc || (step.action.Verify? && step.now == Apply(a, s, step).pc.at)
  {
    hide EncodePairCode;
    hide Core.Step;
    hide Added;
    hide Removed;
    hide Verifies;
    hide Delivered;
  }

  lemma {:induction false} Verification(a: Agent, r: Run, g: nat, i: nat) returns (v: nat)
    requires Valid(a, r) && InFlight(r, g, i) && r.states[i].pc.Verified?
    ensures g < v < i && r.steps[v].action.Verify? && r.steps[v].now == r.states[i].pc.at
  {
    hide Apply;
    hide Enabled;
    RunStep(a, r, i - 1);
    VerifiedStep(a, r.states[i - 1], r.steps[i - 1]);
    if g == i - 1 {
      MatchesReception(a, r.states[g], r.steps[g]);
    }
    if r.steps[i - 1].action.Verify? && r.steps[i - 1].now == r.states[i].pc.at {
      v := i - 1;
    } else {
      v := Verification(a, r, g, i - 1);
    }
  }

  lemma {:induction false} WindowFieldsStay(a: Agent, r: Run, i: nat, j: nat, k: nat)
    requires Valid(a, r) && i <= j < |r.states| && k < |r.states[i].windows|
    ensures k < |r.states[j].windows|
    ensures r.states[j].windows[k].secret == r.states[i].windows[k].secret
    ensures r.states[j].windows[k].expires == r.states[i].windows[k].expires
  {
    hide Apply;
    hide Enabled;
    if i < j {
      WindowFieldsStay(a, r, i, j - 1, k);
      RunStep(a, r, j - 1);
      WindowsStep(a, r.states[j - 1], r.steps[j - 1]);
    }
  }

  /** The life of an insertion: a UI thread created a window and installed it; while it was current
      a pair_request arrived; and the check, no later than five minutes after the creation, found
      that its MAC is that of the window's secret over exactly its sender and its key text. */
  lemma InsertionStory(a: Agent, r: Run, j: nat) returns (create: nat, install: nat, receive: nat, verify: nat)
    requires Valid(a, r) && j < |r.steps| && r.steps[j].action.Store?
    ensures create < install < receive < verify < j
    ensures r.states[j].pc.Verified?
    ensures var Verified(from, msg, w, _) := r.states[j].pc;
            && r.steps[create].action.Create? && r.steps[install].action == Install(w)
            && r.steps[receive].action.Receive? && r.steps[receive].action.from == from
            && !IsSealed(r.steps[receive].action.payload)
            && a.c.decode(r.steps[receive].action.payload) == Some(msg) && msg.kind == Ascii("pair_request")
            && r.states[receive].current == Some(w)
            && r.steps[verify].action.Verify? && r.steps[verify].now <= r.steps[create].now + WINDOW_TTL
            && Base64.Decode(msg.mac, Base64.Std)
               == Some(a.c.hmac(r.steps[create].action.secret,
                                Ascii("pair_request") + [LF] + from + [LF] + msg.pubKey))
  {
    var Verified(from, msg, w, at) := r.states[j].pc;
    Invariant(a, r, j);
    receive := Reception(a, r, j);
    FlightMatches(a, r, receive, j);
    verify := Verification(a, r, receive, j);
    install := WindowInstallation(a, r, receive);
    create := WindowCreation(a, r, install, w);
    WindowFieldsStay(a, r, install, j, w);
  }

  /** Step j put this device on the allowlist, on the strength of a proven request. */
  predicate Inserts(a: Agent, r: Run, j: nat, id: Str, info: DeviceInfo) {
    && j < |r.steps| && j < |r.states| && r.steps[j].action.Store? && r.states[j].pc.Verified?
    && r.states[j].pc.from == id && info == Info(a, r.states[j].pc.msg, r.steps[j].now)
    && DecodeKey(info.pub).Some?
  }

  /** No UI thread removes the device in the steps from j up to state i. */
  predicate NotUnpaired(r: Run, id: Str, j: nat, i: nat) {
    forall m :: j <= m < i && m < |r.steps| && r.steps[m].action.Unpair? ==> r.steps[m].action.id != id
  }

  /** The device was on the allowlist as loaded, and was never removed. */
  predicate LoadedAndKept(r: Run, i: nat, id: Str, info: DeviceInfo) {
    && 0 < |r.states| && id in r.states[0].store.devices && r.states[0].store.devices[id] == info
    && NotUnpaired(r, id, 0, i)
  }

  /** The step removes the device, or puts it on the allowlist. */
  predicate Touches(s: Sys, step: Step, id: Str) {
    || (step.action.Unpair? && step.action.id == id)
    || (step.action.Store? && s.pc.Verified? && s.pc.from == id && DecodeKey(s.pc.msg.pubKey).Some?)
  }

  predicate Untouched(r: Run, id: Str, j: nat, i: nat) {
    forall m :: j <= m < i && m < |r.steps| && m < |r.states| ==> !Touches(r.states[m], r.steps[m], id)
  }

  /** What one step does to one device. */
  lemma AllowlistStep(a: Agent, s: Sys, step: Step, id: Str)
    requires Enabled(s, step)
    ensures var before, after := s.store.devices, Apply(a, s, step).store.devices;
            && (!Touches(s, step, id) ==> (id in after <==> id in before) && (id in after ==> after[id] == before[id]))
            && (Touches(s, step, id) && step.action.Unpair? ==> id !in after)
            && (Touches(s, step, id) && step.action.Store? ==> id in after && after[id] == Info(a, s.pc.msg, step.now))
  {
    hide Proves;
    hide Core.Step;
    hide Open;
    hide Received;
    hide Verifies;
    hide EncodePairCode;
  }

  /** Every device on the allowlist was loaded with the file or inserted by a proven request, and has
      not been removed since: unpairing takes effect. */
  lemma {:induction false} DeviceProvenance(a: Agent, r: Run, i: nat, id: Str)
    requires Valid(a, r) && i < |r.states| && id in r.states[i].store.devices
    ensures var info := r.states[i].store.devices[id];
            LoadedAndKept(r, i, id, info)
            || exists j: nat :: j < i && Inserts(a, r, j, id, info) && NotUnpaired(r, id, j, i)
  {
    hide Apply;
    hide Enabled;
    hide DecodeKey;
    if i > 0 {
      RunStep(a, r, i - 1);
      AllowlistStep(a, r.states[i - 1], r.steps[i - 1], id);
      if !Touches(r.states[i - 1], r.steps[i - 1], id) {
        DeviceProvenance(a, r, i - 1, id);
      } else {
        assert Inserts(a, r, i - 1, id, r.states[i].store.devices[id]);
      }
    }
  }

  /** The device was on the allowlist as loaded, and nothing has touched it since. */
  predicate StillAsLoaded(r: Run, i: nat, id: Str, info: DeviceInfo) {
    && 0 < |r.states| && id in r.states[0].store.devices && r.states[0].store.devices[id] == info
    && Untouched(r, id, 0, i)
  }

  /** The device was so loaded or so inserted, and has since been neither removed nor inserted anew. */
  ghost predicate Stands(a: Agent, r: Run, i: nat, id: Str, info: DeviceInfo) {
    || StillAsLoaded(r, i, id, info)
    || exists j: nat :: j < i && Inserts(a, r, j, id, info) && Untouched(r, id, j + 1, i)
  }

  lemma StandsStep(a: Agent, r: Run, i: nat, id: Str, info: DeviceInfo)
    requires Valid(a, r) && i < |r.steps|
    ensures if Touches(r.states[i], r.steps[i], id) then Stands(a, r, i + 1, id, info) <==> Inserts(a, r, i, id, info)
            else Stands(a, r, i + 1, id, info) <==> Stands(a, r, i, id, info)
  {
    hide Apply;
    hide Enabled;
    hide DecodeKey;
    assert Inserts(a, r, i, id, info) ==> Touches(r.states[i], r.steps[i], id) && Untouched(r, id, i + 1, i + 1);
  }

  /** The allowlist is exact: a device is on it, with its key, name and time, if and only if it was so
      loaded or so inserted and has since been neither removed nor inserted anew. */
  lemma {:induction false} AllowlistIsExact(a: Agent, r: Run, i: nat, id: Str, info: DeviceInfo)
    requires Valid(a, r) && i < |r.states|
    ensures (id in r.states[i].store.devices && r.states[i].store.devices[id] == info) <==> Stands(a, r, i, id, info)
  {
    if i > 0 {
      AllowlistIsExact(a, r, i - 1, id, info);
      AllowlistStep(a, r.states[i - 1], r.steps[i - 1], id);
      StandsStep(a, r, i - 1, id, info);
      hide Apply;
      hide Enabled;
      hide Info;
      hide Stands;
    }
  }

  /** Nothing but its own removal takes a device off the allowlist. */
  lemma {:induction false} ListedStays(a: Agent, r: Run, j: nat, i: nat, id: Str)
    requires Valid(a, r) && j <= i < |r.states|
    requires id in r.states[j].store.devices && NotUnpaired(r, id, j, i)
    ensures id in r.states[i].store.devices
  {
    if j < i {
      ListedStays(a, r, j, i - 1, id);
      AllowlistStep(a, r.states[i - 1], r.steps[i - 1], id);
    }
  }

  predicate Locks(r: Run, i: nat)
    requires i < |r.steps| < |r.states|
  {
    r.states[i + 1].core.lockCalls > r.states[i].core.lockCalls
  }

  /** Every lock of the session answers a sealed message that opened, under the key then stored for
      its sender, to a lock command with a nonce and a timestamp within the skew; and that key was
      loaded with the file or inserted by a proven request. */
  lemma LockStory(a: Agent, r: Run, i: nat) returns (g: nat, msg: Payload)
    requires Valid(a, r) && i < |r.steps| && Locks(r, i)
    ensures InFlight(r, g, i) && r.steps[i].action.Dispatch?
    ensures var Receive(from, payload) := r.steps[g].action;
            && from in r.states[g].store.devices
            && var info := r.states[g].store.devices[from];
            && DecodeKey(info.pub).Some?
            && var plain := Open(a.c, payload, DecodeKey(info.pub).value, a.keys);
            && plain.Some? && a.c.decode(plain.value) == Some(msg)
            && (LoadedAndKept(r, g, from, info)
                || exists j: nat :: j < g && Inserts(a, r, j, from, info) && NotUnpaired(r, from, j, g))
    ensures msg.kind == Ascii("lock") && Core.ReachesCache(msg, r.steps[i].action.env.skewAt)
  {
    CoreStep(a, r.states[i], r.steps[i]);
    hide Apply;
    g := Reception(a, r, i);
    FlightMatches(a, r, g, i);
    msg := r.states[i].pc.msg;
    DeviceProvenance(a, r, g, r.steps[g].action.from);
  }

  /* ---- at most once, across senders and interleavings ---- */

  /** The step hands a payload to the core. */
  function Handed(s: Sys, step: Step): Option<ReplayGuard.Input> {
    if step.action.Dispatch? && s.pc.Screened? then Some(ReplayGuard.Input(step.action.env, s.pc.msg)) else None
  }

  function Inputs(r: Run, n: nat): seq<ReplayGuard.Input>
    requires n <= |r.steps| < |r.states|
  {
    if n == 0 then []
    else
      var input := Handed(r.states[n - 1], r.steps[n - 1]);
      Inputs(r, n - 1) + if input.Some? then [input.value] else []
  }

  /** The clock follows the readings that are taken. */
  lemma ClockStep(a: Agent, s: Sys, step: Step)
    requires Enabled(s, step)
    ensures var input, s' := Handed(s, step), Apply(a, s, step);
            && s.clock <= s'.clock
            && (s'.pc.Screened? ==> input.None? && (s'.pc == s.pc || s.clock <= s'.pc.at))
            && (input.Some? ==> s.pc.Screened? && input.value.env.skewAt == s.pc.at
                                && s.clock <= input.value.env.nonceAt <= s'.clock)
  {
    hide Core.Step;
    hide Verifies;
    hide Open;
    hide Added;
  }

  /** Only handing over a payload changes the core. */
  lemma CoreStep(a: Agent, s: Sys, step: Step)
    requires Enabled(s, step)
    ensures var input, s' := Handed(s, step), Apply(a, s, step);
            && (input.None? ==> s'.core == s.core)
            && (input.Some? ==>
                  s'.core == Core.Step(a.machine, Core.NONCE_TTL, s.core, input.value.env, input.value.payload).0)
  {
    hide Core.Step;
    hide Verifies;
    hide Open;
    hide Added;
  }

  /** Whatever happens around it, the core sees one sequence of payloads. */
  lemma {:induction false} CoreSeesInputs(a: Agent, r: Run, n: nat)
    requires Valid(a, r) && n <= |r.steps|
    ensures r.states[n].core == ReplayGuard.After(a.machine, Core.NONCE_TTL, Inputs(r, n))
  {
    if n > 0 {
      hide Core.Step;
      hide Apply;
      hide Enabled;
      hide Handed;
      CoreSeesInputs(a, r, n - 1);
      CoreStep(a, r.states[n - 1], r.steps[n - 1]);
      var inputs := Inputs(r, n);
      if Handed(r.states[n - 1], r.steps[n - 1]).Some? {
        assert inputs[..|inputs| - 1] == Inputs(r, n - 1);
      } else {
        assert inputs == Inputs(r, n - 1);
      }
    }
  }

  lemma {:induction false} InputsGrow(r: Run, i: nat, n: nat)
    requires i <= n <= |r.steps| < |r.states|
    ensures Inputs(r, i) <= Inputs(r, n)
  {
    if i < n {
      InputsGrow(r, i, n - 1);
    }
  }

  /** The whole run takes place in the present day. */
  predicate PresentRun(r: Run) {
    |r.states| > 0 && 0 <= r.states[0].clock && PresentDay(r.states[|r.states| - 1].clock)
  }

  lemma {:induction false} ClockGrows(a: Agent, r: Run, i: nat, n: nat)
    requires Valid(a, r) && i <= n < |r.states|
    ensures r.states[i].clock <= r.states[n].clock
  {
    if i < n {
      hide Apply;
      hide Enabled;
      ClockGrows(a, r, i, n - 1);
      ClockStep(a, r.states[n - 1], r.steps[n - 1]);
    }
  }

  lemma ClockInPresent(a: Agent, r: Run, n: nat)
    requires Valid(a, r) && PresentRun(r) && n < |r.states|
    ensures PresentDay(r.states[n].clock)
  {
    ClockGrows(a, r, 0, n);
    ClockGrows(a, r, n, |r.states| - 1);
  }

  lemma {:induction false} InputsOnClock(a: Agent, r: Run, n: nat)
    requires Valid(a, r) && PresentRun(r) && n <= |r.steps|
    ensures ReplayGuard.OnClock(Inputs(r, n)) && ReplayGuard.Before(Inputs(r, n), r.states[n].clock)
    ensures r.states[n].pc.Screened? ==>
              0 <= r.states[n].pc.at <= r.states[n].clock && ReplayGuard.Before(Inputs(r, n), r.states[n].pc.at)
  {
    if n > 0 {
      hide Apply;
      hide Enabled;
      hide Handed;
      hide ReplayGuard.OnClock;
      hide ReplayGuard.Before;
      InputsOnClock(a, r, n - 1);
      ClockInPresent(a, r, n - 1);
      ClockInPresent(a, r, n);
      ClockStep(a, r.states[n - 1], r.steps[n - 1]);
      var inputs, input := Inputs(r, n - 1), Handed(r.states[n - 1], r.steps[n - 1]);
      var earlier, now := r.states[n - 1].clock, r.states[n].clock;
      Invariant(a, r, n);
      if input.Some? {
        ReplayGuard.OnClockAdds(inputs, input.value, r.states[n - 1].pc.at, now);
      } else {
        ReplayGuard.BeforeLater(inputs, earlier, now);
        assert Inputs(r, n) == inputs;
        if r.states[n].pc.Screened? && r.states[n].pc != r.states[n - 1].pc {
          ReplayGuard.BeforeLater(inputs, earlier, r.states[n].pc.at);
        }
      }
    }
  }

  /** A step asks the session to lock once or not at all. */
  lemma LocksOnce(a: Agent, r: Run, i: nat)
    requires Valid(a, r) && i < |r.steps|
    ensures r.states[i + 1].core.lockCalls == r.states[i].core.lockCalls + if Locks(r, i) then 1 else 0
  {
    CoreStep(a, r.states[i], r.steps[i]);
    hide Apply;
    hide Enabled;
  }

  /** A step locks the session exactly when its payload does in the core's own sequence. */
  lemma LocksIsExecution(a: Agent, r: Run, i: nat)
    requires Valid(a, r) && i < |r.steps|
    ensures var input := Handed(r.states[i], r.steps[i]);
            var inputs, k := Inputs(r, |r.steps|), |Inputs(r, i)|;
            && (input.None? ==> !Locks(r, i))
            && (input.Some? ==> k < |inputs| && inputs[k] == input.value && |Inputs(r, i + 1)| == k + 1
                                && (Locks(r, i) <==> ReplayGuard.Executes(a.machine, Core.NONCE_TTL, inputs, k)))
  {
    hide Core.Step;
    hide Apply;
    hide Enabled;
    hide Handed;
    CoreSeesInputs(a, r, i);
    CoreSeesInputs(a, r, i + 1);
    InputsGrow(r, i, |r.steps|);
    InputsGrow(r, i + 1, |r.steps|);
    CoreStep(a, r.states[i], r.steps[i]);
    var inputs := Inputs(r, |r.steps|);
    assert inputs[..|Inputs(r, i)|] == Inputs(r, i);
    assert inputs[..|Inputs(r, i + 1)|] == Inputs(r, i + 1);
  }

  /** At most once: of all the steps that hand the core a payload with one nonce and timestamp,
      whoever sent it and however the UI threads interfere, at most one locks the session. */
  lemma LocksAtMostOnce(a: Agent, r: Run, i: nat, j: nat, slack: nat)
    requires Valid(a, r) && PresentRun(r) && i < j < |r.steps|
    requires Handed(r.states[i], r.steps[i]).Some? && Handed(r.states[j], r.steps[j]).Some?
    requires var x, y := Handed(r.states[i], r.steps[i]).value, Handed(r.states[j], r.steps[j]).value;
             && x.payload.nonce == y.payload.nonce && x.payload.ts == y.payload.ts
             && y.env.nonceAt - y.env.skewAt <= slack
             && x.payload.ts * SECOND <= x.env.nonceAt + 30 * SECOND - slack
    ensures !(Locks(r, i) && Locks(r, j))
  {
    var n := |r.steps|;
    InputsOnClock(a, r, n);
    LocksIsExecution(a, r, i);
    LocksIsExecution(a, r, j);
    InputsGrow(r, i + 1, j);
    var p, q := |Inputs(r, i)|, |Inputs(r, j)|;
    assert p < q;
    ReplayGuard.AtMostOnce(a.machine, Inputs(r, n), p, q, slack);
  }

  /** With one and the same clock reading in the later step, no proviso is left. */
  lemma LocksAtMostOnceOnOneReading(a: Agent, r: Run, i: nat, j: nat)
    requires Valid(a, r) && PresentRun(r) && i < j < |r.steps|
    requires Handed(r.states[i], r.steps[i]).Some? && Handed(r.states[j], r.steps[j]).Some?
    requires var x, y := Handed(r.states[i], r.steps[i]).value, Handed(r.states[j], r.steps[j]).value;
             && x.payload.nonce == y.payload.nonce && x.payload.ts == y.payload.ts
             && y.env.nonceAt == y.env.skewAt
    ensures !(Locks(r, i) && Locks(r, j))
  {
    var n := |r.steps|;
    InputsOnClock(a, r, n);
    LocksIsExecution(a, r, i);
    LocksIsExecution(a, r, j);
    InputsGrow(r, i + 1, j);
    ReplayGuard.AtMostOnceOnOneReading(a.machine, Inputs(r, n), |Inputs(r, i)|, |Inputs(r, j)|);
  }

  /* ---- the display ---- */

  /** A request accepted on the current window is accepted while Pairing shows a code, or at the very
      instant of the common deadline. */
  lemma AcceptedWhileShown(a: Agent, r: Run, i: nat)
    requires Valid(a, r) && i < |r.steps|
    requires r.steps[i].action.Verify? && r.states[i + 1].pc.Verified?
    requires Some(r.states[i + 1].pc.w) == r.states[i].current
    ensures var s, now := r.states[i], r.steps[i].now;
            && WindowsInv(s)
            && (Shown(Abs(s), now) == Some((s.code, s.expires - now))
                || (now == s.expires && now == s.windows[s.current.value].expires))
  {
    Invariant(a, r, i);
  }

  /** The code on display is that of the current window. */
  lemma {:induction false} CodeIsOfCurrentWindow(a: Agent, r: Run, i: nat)
    requires Valid(a, r) && i < |r.states| && r.states[i].current.Some?
    ensures var s := r.states[i];
            && s.current.value < |s.windows|
            && s.code == EncodePairCode(a.c, a.relayURL, a.agentID,
                                        Base64.Encode(s.windows[s.current.value].secret, Base64.RawUrl))
  {
    hide Proves;
    hide Core.Step;
    hide Open;
    hide Added;
    hide Removed;
    hide Received;
    hide Delivered;
    hide Verifies;
    hide EncodePairCode;
    hide Base64.Encode;
    if !r.steps[i - 1].action.Install? {
      CodeIsOfCurrentWindow(a, r, i - 1);
    }
  }

  /* ---- messages without a reply ---- */

  /** The handling of the message received in step g ends with state i. */
  predicate Completes(r: Run, g: nat, i: nat) {
    && g < i < |r.states| && g < |r.steps|
    && r.steps[g].action.Receive? && r.states[i].pc.Idle?
    && forall m :: g < m < i ==> !r.states[m].pc.Idle?
  }

  predicate ByHandler(step: Step) {
    match step.action
    case Receive(_, _) | Verify | Store(_) | Consume | Reply | Screen | Dispatch(_, _) => true
    case _ => false
  }

  /** Neither the file nor the random source fails in the step. */
  predicate NothingFails(step: Step) {
    && (step.action.Store? ==> step.action.write.Written?)
    && (step.action.Dispatch? ==> step.action.entropy.Some?)
  }

  /** What the threads share. */
  function Shared(s: Sys): Sys {
    s.(pc := Idle, clock := 0)
  }

  /** A request that has been stored is always answered. */
  lemma {:induction false} CommittedIsAnswered(a: Agent, r: Run, m: nat, i: nat) returns (k: nat)
    requires Valid(a, r) && m < i < |r.states|
    requires r.states[m].pc.Stored? || r.states[m].pc.Consumed?
    requires r.states[i].pc.Idle?
    ensures m <= k < i && Output(a, r.states[k], r.steps[k]).Some?
    decreases i - m
  {
    if r.steps[m].action.Reply? {
      k := m;
    } else {
      assert r.states[m + 1].pc.Stored? || r.states[m + 1].pc.Consumed? by {
        hide Proves;
        hide Core.Step;
        hide Open;
      }
      k := CommittedIsAnswered(a, r, m + 1, i);
    }
  }

  lemma SilentStep(a: Agent, s: Sys, step: Step)
    requires Enabled(s, step) && ByHandler(step) && NothingFails(step) && Output(a, s, step).None?
    requires !Apply(a, s, step).pc.Stored? && !Apply(a, s, step).pc.Consumed?
    ensures Shared(Apply(a, s, step)) == Shared(s)
  {
    hide Proves;
    hide Open;
    hide Lookup;
  }

  /** A message that is handled without a failure and gets no reply touches nothing that is shared,
      at any step of its handling: whatever changes meanwhile, the UI threads changed. */
  lemma IgnoredIsInvisible(a: Agent, r: Run, g: nat, i: nat, m: nat)
    requires Valid(a, r) && Completes(r, g, i) && g <= m < i
    requires forall k | g <= k < i :: Output(a, r.states[k], r.steps[k]).None? && NothingFails(r.steps[k])
    requires ByHandler(r.steps[m])
    ensures Shared(r.states[m + 1]) == Shared(r.states[m])
  {
    if r.states[m + 1].pc.Stored? || r.states[m + 1].pc.Consumed? {
      var k := CommittedIsAnswered(a, r, m + 1, i);
      assert false;
    }
    SilentStep(a, r.states[m], r.steps[m]);
  }
}
