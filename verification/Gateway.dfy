/** The boundary between the relay and the core: sealed payloads of paired devices reach the core,
    a valid pair_request reaches an open pairing window, and everything else is ignored. */
module Gateway {
  import opened Text
  import opened GoTime
  import opened Wire
  import opened Primitives
  import opened Keys
  import opened Envelope
  import opened Pairing
  import opened Devices
  import Base64
  import Core

  /** What never changes during a process. */
  datatype Agent = Agent(c: Suite, keys: Keys, agentID: Str, relayURL: Str, machine: Core.Machine)

  datatype State = State(window: Option<WindowState>, code: Str, expires: Time, store: StoreState, core: Core.CoreState)

  /** What one call of Handle reads: the clock at the window check and at the store, the outcome of
      the file write, the surroundings of the core, and the random nonce of the reply. */
  datatype Env = Env(verifyAt: Time, storeAt: Time, write: Write, core: Core.Env, entropy: Option<BoxNonce>)

  type Secret = s: Bytes | |s| == 32 witness seq(32, _ => 0)

  /** OpenPairing: a fresh window replaces the current one; its own deadline and the displayed one
      come from two clock readings. */
  function Opened(a: Agent, s: State, secret: Option<Secret>, createdAt: Time, installedAt: Time)
    : (r: (State, Option<Str>))
  {
    if secret.None? then (s, None)
    else
      var code := EncodePairCode(a.c, a.relayURL, a.agentID, Base64.Encode(secret.value, Base64.RawUrl));
      (s.(window := Some(WindowState(secret.value, createdAt + WINDOW_TTL, false)),
          code := code, expires := installedAt + WINDOW_TTL),
       Some(code))
  }

  /** Pairing: the code and the time left, while it is displayed. */
  function Shown(s: State, now: Time): Option<(Str, Duration)> {
    if s.window.None? || Sub(s.expires, now) <= 0 then None else Some((s.code, Sub(s.expires, now)))
  }

  /** A sealed payload of a paired device, opened and parsed. */
  function Unsealed(a: Agent, devices: Table, from: Str, payload: Str): Option<Payload> {
    var key := Lookup(devices, from);
    if key.None? then None
    else
      var plain := Open(a.c, payload, key.value, a.keys);
      if plain.None? then None else a.c.decode(plain.value)
  }

  function SealedStep(a: Agent, s: State, env: Env, from: Str, payload: Str): (r: (State, Option<Str>)) {
    var msg := Unsealed(a, s.store.devices, from, payload);
    if msg.None? then (s, None)
    else
      var (core, out) := Core.Step(a.machine, Core.NONCE_TTL, s.core, env.core, msg.value);
      (s.(core := core),
       if out.None? then None
       else Seal(a.c, a.c.encode(out.value), env.entropy, Lookup(s.store.devices, from).value, a.keys))
  }

  /** The plaintext is a pair_request. */
  function PairRequest(a: Agent, payload: Str): Option<Payload> {
    var msg := a.c.decode(payload);
    if msg.None? || msg.value.kind != KIND_PAIR_REQUEST then None else msg
  }

  function Info(a: Agent, msg: Payload, now: Time): DeviceInfo {
    DeviceInfo(msg.pubKey, a.c.cleanName(msg.machine), now)
  }

  function Accept(a: Agent, secret: Bytes): Payload {
    var pub := EncodeKey(a.keys.pub);
    EMPTY.(kind := KIND_PAIR_ACCEPT, pubKey := pub, mac := MacText(a.c, secret, ACCEPT_LABEL, a.agentID, pub))
  }

  function PairStep(a: Agent, s: State, env: Env, from: Str, payload: Str): (r: (State, Option<Str>)) {
    var msg := PairRequest(a, payload);
    if msg.None? || !Verifies(a.c, s.window, env.verifyAt, from, msg.value.pubKey, msg.value.mac) then (s, None)
    else
      var (store, stored) := Added(s.store, from, Info(a, msg.value, env.storeAt), env.write);
      if !stored then (s.(store := store), None)
      else
        (s.(store := store, window := Some(s.window.value.(used := true))),
         Some(a.c.encode(Accept(a, s.window.value.secret))))
  }

  /** Handle: the new state and the reply, if any. */
  function Step(a: Agent, s: State, env: Env, from: Str, payload: Str): (r: (State, Option<Str>)) {
    if IsSealed(payload) then SealedStep(a, s, env, from, payload) else PairStep(a, s, env, from, payload)
  }

  /** A code is shown exactly while there is a window and its displayed deadline is still to come. */
  lemma ShownExactly(s: State, now: Time)
    ensures Shown(s, now).Some? <==> s.window.Some? && now < s.expires
    ensures Shown(s, now).Some? ==> Shown(s, now).value.0 == s.code
  {
  }

  /** From OpenPairing to Pairing: the new window is unused, holds the secret and expires five minutes
      after its creation; the code is shown with the time left of five minutes from its installation,
      and from that deadline on not at all; a client that reads it gets the secret. Without entropy
      nothing happens. */
  lemma OpenedIsShown(a: Agent, s: State, secret: Secret, createdAt: Time, installedAt: Time, now: Time)
    requires createdAt <= installedAt <= now
    ensures var (s', code) := Opened(a, s, Some(secret), createdAt, installedAt);
            && s'.window == Some(WindowState(secret, createdAt + 300 * SECOND, false))
            && s'.store == s.store && s'.core == s.core
            && code.Some?
            && Shown(s', now) == (if now < installedAt + 300 * SECOND
                                  then Some((code.value, installedAt + 300 * SECOND - now)) else None)
            && (JsonLaw(a.c) && a.c.isText(a.relayURL) && a.c.isText(a.agentID) ==>
                  ReadPairCode(a.c, code.value)
                  == Some((a.relayURL, a.agentID, Base64.Encode(secret, Base64.RawUrl))))
    ensures Opened(a, s, None, createdAt, installedAt) == (s, None)
  {
    if JsonLaw(a.c) && a.c.isText(a.relayURL) && a.c.isText(a.agentID) {
      ReadEncodedPairCode(a.c, a.relayURL, a.agentID, secret);
    }
  }

  /** No message changes what is displayed: a spent window is shown until its deadline. */
  lemma MessagesLeaveDisplay(a: Agent, s: State, env: Env, from: Str, payload: Str, now: Time)
    ensures Shown(Step(a, s, env, from, payload).0, now) == Shown(s, now)
  {
  }

  class Gateway {
    const agent: Agent
    const core: Core.Core
    const devices: DeviceStore
    var window: Window?
    var code: Str
    var expires: Time

    constructor (agent: Agent, core: Core.Core, devices: DeviceStore)
      requires core.machine == agent.machine && core.nonces.ttl == Core.NONCE_TTL
      ensures Wired() && this.agent == agent && this.core == core && this.devices == devices
      ensures window == null && code == []
    {
      this.agent, this.core, this.devices := agent, core, devices;
      window, code, expires := null, [], ZERO_TIME;
    }

    function Parts(): set<object>
      reads this
    {
      {devices, core.sess, core.nonces} + if window == null then {} else {window}
    }

    function View(): State
      reads this, Parts()
    {
      State(if window == null then None else Some(window.View()), code, expires, devices.View(), core.View())
    }

    /** The core this gateway was wired with. */
    predicate Wired() {
      core.machine == agent.machine && core.nonces.ttl == Core.NONCE_TTL
    }

    method OpenPairing(secret: Option<Secret>, createdAt: Time, installedAt: Time) returns (shown: Option<Str>)
      modifies this
      ensures (View(), shown) == Opened(agent, old(View()), secret, createdAt, installedAt)
      ensures secret.Some? ==> fresh(window)
    {
      if secret.None? {
        return None;
      }
      var w := new Window(createdAt, secret.value);
      var c := EncodePairCode(agent.c, agent.relayURL, agent.agentID, Base64.Encode(secret.value, Base64.RawUrl));
      window := w;
      code := c;
      expires := installedAt + WINDOW_TTL;
      return Some(c);
    }

    method Pairing(now: Time) returns (shown: Option<(Str, Duration)>)
      ensures shown == Shown(View(), now)
    {
      if window == null {
        return None;
      }
      var remaining := Sub(expires, now);
      if remaining <= 0 {
        return None;
      }
      return Some((code, remaining));
    }

    method Handle(env: Env, from: Str, payload: Str) returns (reply: Option<Str>)
      requires Wired()
      modifies Parts()
      ensures (View(), reply) == Step(agent, old(View()), env, from, payload)
    {
      if IsSealed(payload) {
        reply := HandleSealed(env, from, payload);
      } else {
        reply := HandlePairRequest(env, from, payload);
      }
    }

    method HandleSealed(env: Env, from: Str, payload: Str) returns (reply: Option<Str>)
      requires Wired()
      modifies core.sess, core.nonces
      ensures (View(), reply) == SealedStep(agent, old(View()), env, from, payload)
    {
      var peer := devices.Get(from);
      if peer.None? {
        return None;
      }
      var plain := Open(agent.c, payload, peer.value, agent.keys);
      if plain.None? {
        return None;
      }
      var msg := agent.c.decode(plain.value);
      if msg.None? {
        return None;
      }
      var out := core.Handle(env.core, msg.value);
      if out.None? {
        return None;
      }
      reply := SealReply(env.entropy, out.value, peer.value);
    }

    /** There is a reply exactly when the random source works. It is the base64 of the nonce just drawn
        and of the box made with it, so that replies under different nonces differ; and it opens at
        the client as the payload: at every client with a key pair for peer, if this agent's is a
        key pair too. */
    method SealReply(entropy: Option<BoxNonce>, out: Payload, peer: Key) returns (reply: Option<Str>)
      ensures reply.Some? <==> entropy.Some?
      ensures reply.Some? ==>
                && |reply.value| >= 3 && reply.value[..3] == Ascii("e1:")
                && Base64.Decode(reply.value[3..], Base64.Std)
                   == Some(entropy.value + agent.c.boxSeal(agent.c.encode(out), entropy.value, peer, agent.keys.priv))
      ensures forall nonce: BoxNonce, out': Payload, peer': Key ::
                entropy.Some? && nonce != entropy.value ==>
                  reply != Seal(agent.c, agent.c.encode(out'), Some(nonce), peer', agent.keys)
      ensures forall client: Keys ::
                BoxLaw(agent.c) && KeyPair(agent.c, agent.keys) && KeyPair(agent.c, client)
                && client.pub == peer && reply.Some? ==>
                  IsSealed(reply.value)
                  && Open(agent.c, reply.value, agent.keys.pub, client) == Some(agent.c.encode(out))
      ensures reply == Seal(agent.c, agent.c.encode(out), entropy, peer, agent.keys)
    {
      reply := Seal(agent.c, agent.c.encode(out), entropy, peer, agent.keys);
      if entropy.Some? {
        SealedText(agent.c, agent.c.encode(out), entropy.value, peer, agent.keys);
      }
      forall nonce: BoxNonce, out': Payload, peer': Key | entropy.Some? && nonce != entropy.value
        ensures reply != Seal(agent.c, agent.c.encode(out'), Some(nonce), peer', agent.keys)
      {
        NoncesShow(agent.c, agent.c.encode(out), entropy.value, peer, agent.keys,
                   agent.c.encode(out'), nonce, peer', agent.keys);
      }
      forall client: Keys | BoxLaw(agent.c) && KeyPair(agent.c, agent.keys) && KeyPair(agent.c, client)
                            && client.pub == peer && reply.Some?
        ensures IsSealed(reply.value)
        ensures Open(agent.c, reply.value, agent.keys.pub, client) == Some(agent.c.encode(out))
      {
        OpenSeal(agent.c, agent.c.encode(out), entropy.value, agent.keys, client);
      }
    }

    method HandlePairRequest(env: Env, from: Str, payload: Str) returns (reply: Option<Str>)
      modifies devices, if window == null then {} else {window}
      ensures (View(), reply) == PairStep(agent, old(View()), env, from, payload)
    {
      var msg := agent.c.decode(payload);
      if msg.None? || msg.value.kind != KIND_PAIR_REQUEST {
        return None;
      }
      var w := window;
      var ok := Window.VerifyRequest(agent.c, w, env.verifyAt, from, msg.value.pubKey, msg.value.mac);
      if !ok {
        return None;
      }
      ok := devices.Add(from, msg.value.pubKey, agent.c.cleanName(msg.value.machine), env.storeAt, env.write);
      if !ok {
        return None;
      }
      w.Consume();
      return Some(agent.c.encode(Accept(agent, w.secret)));
    }
  }
}
