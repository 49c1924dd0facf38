/** The agent as a transition system: one relay handler thread working through its messages step by
    step, and any number of UI threads opening windows, unpairing devices and looking at the
    pairing code in between.

    A step is one access to shared state or one reading of the clock. The window is read under its
    mutex, but the check, the store and the consumption of a pairing come after, and checkFreshness
    reads the clock twice; UI steps may fall between all of these. */
module System {
  import opened Text
  import opened GoTime
  import opened Wire
  import opened Primitives
  import opened Envelope
  import opened Pairing
  import opened Devices
  import opened G = Gateway
  import Base64
  import Core

  /** Where the handler thread stands, with the local variables it still needs. */
  datatype Pc =
    | Idle
    | Snapped(from: Str, msg: Payload, seen: Option<nat>)
    | Verified(from: Str, msg: Payload, w: nat, at: Time)
    | Stored(from: Str, msg: Payload, w: nat)
    | Consumed(w: nat)
    | Got(from: Str, payload: Str, key: Key)
    | Screened(from: Str, msg: Payload, key: Key, at: Time)

  /** Windows are numbered in the order in which UI threads created them; a created window is
      pending until its thread installs it. */
  datatype Sys = Sys(
    clock: Time,
    windows: seq<WindowState>,
    pending: set<nat>,
    current: Option<nat>,
    code: Str,
    expires: Time,
    store: StoreState,
    core: Core.CoreState,
    pc: Pc)

  datatype Action =
    | Create(secret: Secret)
    | Install(k: nat)
    | Unpair(id: Str, write: Write)
    | Show
    | Receive(from: Str, payload: Str)
    | Verify
    | Store(write: Write)
    | Consume
    | Reply
    | Screen
    | Dispatch(env: Core.Env, entropy: Option<BoxNonce>)

  /** An action and its clock reading: for Screen the first one of checkFreshness, for Dispatch the
      second, with which the nonce cache is asked. */
  datatype Step = Step(now: Time, action: Action)

  predicate Enabled(s: Sys, step: Step) {
    && s.clock <= step.now
    && match step.action
       case Create(_) => true
       case Install(k) => k in s.pending && k < |s.windows|
       case Unpair(_, _) => true
       case Show => true
       case Receive(_, _) => s.pc.Idle?
       case Verify => s.pc.Snapped? && (s.pc.seen.Some? ==> s.pc.seen.value < |s.windows|)
       case Store(_) => s.pc.Verified? && s.pc.w < |s.windows|
       case Consume => s.pc.Stored? && s.pc.w < |s.windows|
       case Reply => s.pc.Consumed? && s.pc.w < |s.windows|
       case Screen => s.pc.Got?
       case Dispatch(env, _) => s.pc.Screened? && env.skewAt == s.pc.at && env.nonceAt == step.now
  }

  /** The payload a sealed message carries, if it opens and parses. */
  function Delivered(a: Agent, payload: Str, key: Key): Option<Payload> {
    var plain := Open(a.c, payload, key, a.keys);
    if plain.None? then None else a.c.decode(plain.value)
  }

  function WindowAt(s: Sys, k: Option<nat>): Option<WindowState>
    requires k.Some? ==> k.value < |s.windows|
  {
    if k.None? then None else Some(s.windows[k.value])
  }

  function Apply(a: Agent, s0: Sys, step: Step): Sys
    requires Enabled(s0, step)
  {
    var s := s0.(clock := step.now);
    match step.action
    case Create(secret) =>
      s.(windows := s.windows + [WindowState(secret, step.now + WINDOW_TTL, false)],
         pending := s.pending + {|s.windows|})
    case Install(k) =>
      s.(pending := s.pending - {k}, current := Some(k), expires := step.now + WINDOW_TTL,
         code := EncodePairCode(a.c, a.relayURL, a.agentID, Base64.Encode(s.windows[k].secret, Base64.RawUrl)))
    case Unpair(id, write) => s.(store := Removed(s.store, id, write).0)
    case Show => s
    case Receive(from, payload) => s.(pc := Received(a, s, from, payload))
    case Verify =>
      var Snapped(from, msg, seen) := s.pc;
      if Verifies(a.c, WindowAt(s, seen), step.now, from, msg.pubKey, msg.mac) then
        s.(pc := Verified(from, msg, seen.value, step.now))
      else s.(pc := Idle)
    case Store(write) =>
      var Verified(from, msg, w, _) := s.pc;
      var (store, stored) := Added(s.store, from, Info(a, msg, step.now), write);
      s.(store := store, pc := if stored then Stored(from, msg, w) else Idle)
    case Consume =>
      var w := s.pc.w;
      s.(windows := s.windows[w := s.windows[w].(used := true)], pc := Consumed(w))
    case Reply => s.(pc := Idle)
    case Screen =>
      var Got(from, payload, key) := s.pc;
      var msg := Delivered(a, payload, key);
      s.(pc := if msg.None? then Idle else Screened(from, msg.value, key, step.now))
    case Dispatch(env, _) =>
      s.(pc := Idle, core := Core.Step(a.machine, Core.NONCE_TTL, s.core, env, s.pc.msg).0)
  }

  /** The first thing the handler does with a message: take the sender's key, or the current window. */
  function Received(a: Agent, s: Sys, from: Str, payload: Str): Pc {
    if IsSealed(payload) then
      var key := Lookup(s.store.devices, from);
      if key.None? then Idle else Got(from, payload, key.value)
    else
      var msg := PairRequest(a, payload);
      if msg.None? then Idle else Snapped(from, msg.value, s.current)
  }

  /** What a step sends back to the relay. */
  function Output(a: Agent, s: Sys, step: Step): Option<Str>
    requires Enabled(s, step)
  {
    match step.action
    case Reply => Some(a.c.encode(Accept(a, s.windows[s.pc.w].secret)))
    case Dispatch(env, entropy) =>
      var out := Core.Step(a.machine, Core.NONCE_TTL, s.core, env, s.pc.msg).1;
      if out.None? then None else Seal(a.c, a.c.encode(out.value), entropy, s.pc.key, a.keys)
    case _ => None
  }

  /** A process begins with whatever allowlist it loaded, no window, and an empty nonce cache. */
  predicate Start(s: Sys) {
    && s.windows == [] && s.pending == {} && s.current.None?
    && s.core == Core.CoreState(map[], 0) && s.pc.Idle?
  }

  datatype Run = Run(states: seq<Sys>, steps: seq<Step>)

  predicate Valid(a: Agent, r: Run) {
    && |r.states| == |r.steps| + 1
    && Start(r.states[0])
    && forall i :: 0 <= i < |r.steps| ==>
         Enabled(r.states[i], r.steps[i]) && r.states[i + 1] == Apply(a, r.states[i], r.steps[i])
  }

  /** The MAC of a request that passed the check, over its sender and key text. */
  predicate Proven(a: Agent, s: Sys, from: Str, msg: Payload, w: nat, at: Time) {
    && w < |s.windows| && at <= s.windows[w].expires
    && Proves(a.c, s.windows[w].secret, REQUEST_LABEL, from, msg.pubKey, msg.mac)
  }

  predicate PcInv(a: Agent, s: Sys) {
    match s.pc
    case Snapped(_, _, seen) => seen.Some? ==> seen.value < |s.windows|
    case Verified(from, msg, w, at) => Proven(a, s, from, msg, w, at) && !s.windows[w].used && at <= s.clock
    case Stored(_, _, w) => w < |s.windows| && !s.windows[w].used
    case Consumed(w) => w < |s.windows| && s.windows[w].used
    case Screened(_, _, _, at) => at <= s.clock
    case _ => true
  }

  /** No window outlives the time at which it could have been created. */
  predicate WindowsInv(s: Sys) {
    && (forall k :: 0 <= k < |s.windows| ==> s.windows[k].expires <= s.clock + WINDOW_TTL)
    && (forall k | k in s.pending :: k < |s.windows|)
    && (s.current.Some? ==> s.current.value < |s.windows| && s.windows[s.current.value].expires <= s.expires)
    && (s.current.Some? ==> s.expires <= s.clock + WINDOW_TTL)
  }

  lemma PcInvKept(a: Agent, s: Sys, step: Step)
    requires Enabled(s, step) && PcInv(a, s) && WindowsInv(s)
    ensures PcInv(a, Apply(a, s, step))
  {
  }

  lemma WindowsInvKept(a: Agent, s: Sys, step: Step)
    requires Enabled(s, step) && WindowsInv(s)
    ensures WindowsInv(Apply(a, s, step))
  {
  }

  lemma {:induction false} Invariant(a: Agent, r: Run, i: nat)
    requires Valid(a, r) && i < |r.states|
    ensures PcInv(a, r.states[i]) && WindowsInv(r.states[i])
  {
    if i > 0 {
      Invariant(a, r, i - 1);
      PcInvKept(a, r.states[i - 1], r.steps[i - 1]);
      WindowsInvKept(a, r.states[i - 1], r.steps[i - 1]);
    }
  }

  /* ---- without interference, a message is handled as the sequential gateway handles it ---- */

  /** What the sequential gateway sees of a state. */
  function Abs(s: Sys): State
    requires WindowsInv(s)
  {
    State(WindowAt(s, s.current), s.code, s.expires, s.store, s.core)
  }

  /** Unpairing and looking at the code do what the store's Remove and Pairing do, and nothing else. */
  lemma UnpairAndShow(a: Agent, s: Sys, now: Time, id: Str, write: Write)
    requires WindowsInv(s) && s.clock <= now
    ensures var s', s'' := Apply(a, s, Step(now, Unpair(id, write))), Apply(a, s, Step(now, Show));
            && WindowsInv(s') && Abs(s') == Abs(s).(store := Removed(s.store, id, write).0)
            && WindowsInv(s'') && Abs(s'') == Abs(s)
            && s'.pc == s.pc && s''.pc == s.pc && s'.windows == s''.windows == s.windows
            && s'.pending == s''.pending == s.pending
  {
  }

  /** The two steps of a UI thread that opens a window do what OpenPairing does, and hold up nobody. */
  lemma CreateInstallIsOpened(a: Agent, s: Sys, secret: Secret, createdAt: Time, installedAt: Time)
    requires WindowsInv(s) && s.clock <= createdAt <= installedAt
    ensures var s1 := Apply(a, s, Step(createdAt, Create(secret)));
            var install := Step(installedAt, Install(|s.windows|));
            && WindowsInv(s1) && Abs(s1) == Abs(s) && Enabled(s1, install)
            && var s2 := Apply(a, s1, install);
            && WindowsInv(s2) && Abs(s2) == Opened(a, Abs(s), Some(secret), createdAt, installedAt).0
            && s2.pc == s.pc
  {
    hide EncodePairCode;
    hide Base64.Encode;
    var s1 := Apply(a, s, Step(createdAt, Create(secret)));
    var s2 := Apply(a, s1, Step(installedAt, Install(|s.windows|)));
    WindowsInvKept(a, s, Step(createdAt, Create(secret)));
    WindowsInvKept(a, s1, Step(installedAt, Install(|s.windows|)));
  }

  /** The environment's clock readings come after the state's clock, in the order they are taken. */
  predicate OnTime(s: Sys, env: Env) {
    s.clock <= env.verifyAt <= env.storeAt && s.clock <= env.core.skewAt <= env.core.nonceAt
  }

  /** The rest of a pair_request after the snapshot, when nothing else runs. */
  function AlonePair(a: Agent, s: Sys, env: Env): (r: (Sys, Option<Str>))
    requires s.pc.Snapped? && (s.pc.seen.Some? ==> s.pc.seen.value < |s.windows|) && OnTime(s, env)
  {
    var s2 := Apply(a, s, Step(env.verifyAt, Verify));
    if s2.pc.Idle? then (s2, None)
    else
      var s3 := Apply(a, s2, Step(env.storeAt, Store(env.write)));
      if s3.pc.Idle? then (s3, None)
      else
        var s4 := Apply(a, s3, Step(env.storeAt, Consume));
        var last := Step(env.storeAt, Reply);
        (Apply(a, s4, last), Output(a, s4, last))
  }

  /** The steps the handler takes for one message when nothing else runs. */
  function Alone(a: Agent, s: Sys, env: Env, from: Str, payload: Str): (r: (Sys, Option<Str>))
    requires s.pc.Idle? && WindowsInv(s) && OnTime(s, env)
  {
    var s1 := Apply(a, s, Step(s.clock, Receive(from, payload)));
    if s1.pc.Idle? then (s1, None)
    else if s1.pc.Got? then
      var s2 := Apply(a, s1, Step(env.core.skewAt, Screen));
      if s2.pc.Idle? then (s2, None)
      else
        var last := Step(env.core.nonceAt, Dispatch(env.core, env.entropy));
        (Apply(a, s2, last), Output(a, s2, last))
    else AlonePair(a, s1, env)
  }

  lemma AlonePairKeepsInvariant(a: Agent, s: Sys, env: Env)
    requires s.pc.Snapped? && WindowsInv(s) && PcInv(a, s) && OnTime(s, env)
    ensures WindowsInv(AlonePair(a, s, env).0) && AlonePair(a, s, env).0.pc.Idle?
  {
    hide Proves;
    hide Added;
    var verify, store := Step(env.verifyAt, Verify), Step(env.storeAt, Store(env.write));
    var consume := Step(env.storeAt, Consume);
    WindowsInvKept(a, s, verify);
    var s2 := Apply(a, s, verify);
    if s2.pc.Verified? {
      WindowsInvKept(a, s2, store);
      var s3 := Apply(a, s2, store);
      if s3.pc.Stored? {
        WindowsInvKept(a, s3, consume);
        WindowsInvKept(a, Apply(a, s3, consume), Step(env.storeAt, Reply));
      }
    }
  }

  lemma AlonePairIsSequential(a: Agent, s: Sys, env: Env, from: Str, msg: Payload, payload: Str)
    requires s.pc == Snapped(from, msg, s.current) && WindowsInv(s) && OnTime(s, env)
    requires PairRequest(a, payload) == Some(msg)
    ensures var (s', reply) := AlonePair(a, s, env);
            && WindowsInv(s') && s'.pc.Idle?
            && (Abs(s'), reply) == PairStep(a, Abs(s), env, from, payload)
  {
    hide Proves;
    hide Added;
    AlonePairKeepsInvariant(a, s, env);
    var s2 := Apply(a, s, Step(env.verifyAt, Verify));
    if s2.pc.Verified? {
      assert s2 == s.(clock := env.verifyAt, pc := Verified(from, msg, s.current.value, env.verifyAt));
      var s3 := Apply(a, s2, Step(env.storeAt, Store(env.write)));
      var store := Added(s.store, from, Info(a, msg, env.storeAt), env.write).0;
      if s3.pc.Stored? {
        assert s3 == s2.(clock := env.storeAt, store := store, pc := Stored(from, msg, s.current.value));
      }
    }
  }

  lemma AloneIsSequential(a: Agent, s: Sys, env: Env, from: Str, payload: Str)
    requires s.pc.Idle? && WindowsInv(s) && OnTime(s, env)
    ensures var (s', reply) := Alone(a, s, env, from, payload);
            && WindowsInv(s') && s'.pc.Idle?
            && (Abs(s'), reply) == G.Step(a, Abs(s), env, from, payload)
  {
    hide Core.Step;
    hide Proves;
    hide Added;
    hide Open;
    var s1 := Apply(a, s, Step(s.clock, Receive(from, payload)));
    if s1.pc.Snapped? {
      AlonePairIsSequential(a, s1, env, from, s1.pc.msg, payload);
      assert Alone(a, s, env, from, payload) == AlonePair(a, s1, env);
    }
  }
}
