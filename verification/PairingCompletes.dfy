/** End to end: a client that scanned the code gets paired, and its commands then work. */
module PairingCompletes {
  import opened Text
  import opened GoTime
  import opened Wire
  import opened Primitives
  import opened Keys
  import opened Envelope
  import opened Pairing
  import opened Devices
  import opened Gateway
  import Base64
  import Core

  /** The plaintext a client sends to pair, once it knows the proof. */
  function Request(c: Suite, pub: Str, mac: Str, name: Str): Str {
    c.encode(EMPTY.(kind := KIND_PAIR_REQUEST, pubKey := pub, mac := mac, machine := name))
  }

  lemma LiteralsAreAscii()
    ensures IsAscii(KIND_PAIR_REQUEST) && IsAscii(KIND_PAIR_ACCEPT) && IsAscii([])
  {
  }

  lemma RequestIsRead(a: Agent, pub: Str, mac: Str, name: Str)
    requires JsonLaw(a.c) && a.c.isText(name)
    requires DecodeKey(pub).Some? && IsAscii(mac)
    ensures !IsSealed(Request(a.c, pub, mac, name))
    ensures PairRequest(a, Request(a.c, pub, mac, name))
            == Some(EMPTY.(kind := KIND_PAIR_REQUEST, pubKey := pub, mac := mac, machine := name))
  {
    var msg := EMPTY.(kind := KIND_PAIR_REQUEST, pubKey := pub, mac := mac, machine := name);
    LiteralsAreAscii();
    Base64.DecodableIsAscii(pub);
    assert IsAscii(pub);
    assert Textual(a.c, msg);
    PlaintextIsNotSealed(a.c.encode(msg));
  }

  lemma AcceptIsRead(a: Agent, secret: Bytes)
    requires JsonLaw(a.c)
    ensures a.c.decode(a.c.encode(Accept(a, secret))) == Some(Accept(a, secret))
  {
    LiteralsAreAscii();
    var accept := Accept(a, secret);
    Base64.EncodedCharacters(a.keys.pub, Base64.Std);
    Base64.EncodedCharacters(Mac(a.c, secret, ACCEPT_LABEL, a.agentID, accept.pubKey), Base64.Std);
    assert IsAscii(accept.pubKey) && IsAscii(accept.mac);
    assert Textual(a.c, accept);
  }

  /** The answer that a client with the secret accepts, and that carries the agent's key. */
  predicate Convinces(a: Agent, secret: Bytes, reply: Str) {
    && a.c.decode(reply).Some?
    && var accept := a.c.decode(reply).value;
    && accept.kind == KIND_PAIR_ACCEPT && DecodeKey(accept.pubKey) == Some(a.keys.pub)
    && VerifyAcceptMac(a.c, Base64.Encode(secret, Base64.RawUrl), a.agentID, accept.pubKey, accept.mac)
    && Base64.Decode(accept.mac, Base64.Std)
       == Some(a.c.hmac(secret, Ascii("pair_accept") + [LF] + a.agentID + [LF] + accept.pubKey))
  }

  lemma AcceptConvinces(a: Agent, secret: Bytes)
    requires JsonLaw(a.c)
    ensures Convinces(a, secret, a.c.encode(Accept(a, secret)))
  {
    AcceptIsRead(a, secret);
    DecodeEncodeKey(a.keys.pub);
    MacTextProves(a.c, secret, ACCEPT_LABEL, a.agentID, EncodeKey(a.keys.pub));
    Base64.DecodeEncode(secret, Base64.RawUrl);
  }

  /** A pair_request built from the secret and delivered to the unused window by its deadline, with
      a working disk, stores the key, spends the window, and is answered by a pair_accept that the
      client can verify and that carries the agent's key. */
  lemma RequestIsAccepted(a: Agent, s: State, env: Env, id: Str, key: Key, pub: Str, name: Str)
    requires JsonLaw(a.c) && a.c.isText(name)
    requires s.window.Some? && !s.window.value.used && env.verifyAt <= s.window.value.expires
    requires DecodeKey(pub) == Some(key) && env.write.Written?
    ensures var secretText := Base64.Encode(s.window.value.secret, Base64.RawUrl);
            var mac := RequestMac(a.c, secretText, id, pub);
            && mac.Some?
            && var (s', reply) := Step(a, s, env, id, Request(a.c, pub, mac.value, name));
            && s'.store.devices == s.store.devices[id := DeviceInfo(pub, a.c.cleanName(name), env.storeAt)]
            && InSync(s'.store)
            && Lookup(s'.store.devices, id) == Some(key)
            && s'.window == Some(s.window.value.(used := true))
            && s'.core == s.core
            && reply.Some? && Convinces(a, s.window.value.secret, reply.value)
  {
    var w := s.window.value;
    var agentPub := EncodeKey(a.keys.pub);
    BothSidesAgree(a.c, w, env.verifyAt, id, pub, a.agentID, agentPub);
    var mac := RequestMac(a.c, Base64.Encode(w.secret, Base64.RawUrl), id, pub).value;
    Base64.DecodableIsAscii(mac);
    RequestIsRead(a, pub, mac, name);
    AcceptConvinces(a, w.secret);
    hide Convinces;
  }

  /** A command sealed by a paired client reaches the core, and the sealed answer opens at the
      client as exactly what the core replied. */
  lemma SealedCommandIsServed(a: Agent, s: State, env: Env, id: Str, client: Keys, msg: Payload, nonce: BoxNonce)
    requires Lawful(a.c) && KeyPair(a.c, a.keys) && KeyPair(a.c, client)
    requires Lookup(s.store.devices, id) == Some(client.pub)
    requires Textual(a.c, msg) && env.entropy.Some?
    ensures var sealed := Seal(a.c, a.c.encode(msg), Some(nonce), a.keys.pub, client);
            var (core, out) := Core.Step(a.machine, Core.NONCE_TTL, s.core, env.core, msg);
            && sealed.Some?
            && var (s', reply) := Step(a, s, env, id, sealed.value);
            && s' == s.(core := core)
            && (out.None? ==> reply.None?)
            && (out.Some? ==>
                  && reply.Some? && IsSealed(reply.value)
                  && Open(a.c, reply.value, a.keys.pub, client) == Some(a.c.encode(out.value)))
  {
    OpenSeal(a.c, a.c.encode(msg), nonce, client, a.keys);
    var out := Core.Step(a.machine, Core.NONCE_TTL, s.core, env.core, msg).1;
    if out.Some? {
      OpenSeal(a.c, a.c.encode(out.value), env.entropy.value, a.keys, client);
    }
  }

  lemma StatusIsRead(a: Agent, env: Core.Env, out: Payload)
    requires JsonLaw(a.c) && Core.Tells(a.machine, env, out)
    requires a.c.isText(a.machine.name) && a.c.isText(a.machine.os)
    requires env.reading.Unreadable? ==> a.c.isText(env.reading.error)
    ensures a.c.decode(a.c.encode(out)) == Some(out)
  {
    assert IsAscii(Ascii("status")) && IsAscii([]);
  }

  /** What a paired client learns from a sealed status request: the answer it opens and reads tells the
      session's reading, and asking changes nothing. */
  lemma StatusReachesClient(a: Agent, s: State, env: Env, id: Str, client: Keys, msg: Payload, nonce: BoxNonce)
    requires Lawful(a.c) && KeyPair(a.c, a.keys) && KeyPair(a.c, client)
    requires Lookup(s.store.devices, id) == Some(client.pub)
    requires Textual(a.c, msg) && env.entropy.Some? && msg.kind == Ascii("status_request")
    requires a.c.isText(a.machine.name) && a.c.isText(a.machine.os)
    requires env.core.reading.Unreadable? ==> a.c.isText(env.core.reading.error)
    ensures var sealed := Seal(a.c, a.c.encode(msg), Some(nonce), a.keys.pub, client);
            && sealed.Some?
            && var (s', reply) := Step(a, s, env, id, sealed.value);
            && s' == s && reply.Some?
            && var plain := Open(a.c, reply.value, a.keys.pub, client);
            && plain.Some? && a.c.decode(plain.value).Some?
            && Core.Tells(a.machine, env.core, a.c.decode(plain.value).value)
  {
    var out := Core.Step(a.machine, Core.NONCE_TTL, s.core, env.core, msg).1;
    Core.StatusIsTruthful(a.machine, Core.NONCE_TTL, s.core, env.core, msg);
    StatusIsRead(a, env.core, out.value);
    hide *;
    SealedCommandIsServed(a, s, env, id, client, msg, nonce);
  }

  /** What a client that scanned a code sends to pair. */
  function RequestFromCode(c: Suite, code: Str, id: Str, pub: Str, name: Str): Option<Str> {
    var fields := ReadPairCode(c, code);
    if fields.None? then None
    else
      var mac := RequestMac(c, fields.value.2, id, pub);
      if mac.None? then None else Some(Request(c, pub, mac.value, name))
  }

  /** The whole story: the agent opens a window and shows its code; a client that scans it within five
      minutes pairs; and its first sealed command is then executed and answered. */
  lemma PairThenCommand(a: Agent, s: State, secret: Secret, createdAt: Time, installedAt: Time,
                        pairing: Env, id: Str, client: Keys, name: Str,
                        command: Env, msg: Payload, nonce: BoxNonce)
    requires Lawful(a.c) && KeyPair(a.c, a.keys) && KeyPair(a.c, client)
    requires a.c.isText(a.relayURL) && a.c.isText(a.agentID) && a.c.isText(name) && Textual(a.c, msg)
    requires pairing.verifyAt <= createdAt + WINDOW_TTL && pairing.write.Written? && command.entropy.Some?
    ensures var (s1, code) := Opened(a, s, Some(secret), createdAt, installedAt);
            && code.Some?
            && var request := RequestFromCode(a.c, code.value, id, EncodeKey(client.pub), name);
            && request.Some?
            && var s2 := Step(a, s1, pairing, id, request.value).0;
            var sealed := Seal(a.c, a.c.encode(msg), Some(nonce), a.keys.pub, client);
            && sealed.Some?
            && var (s3, reply) := Step(a, s2, command, id, sealed.value);
            var (core, out) := Core.Step(a.machine, Core.NONCE_TTL, s.core, command.core, msg);
            && s3.core == core
            && (out.Some? ==> reply.Some? && Open(a.c, reply.value, a.keys.pub, client) == Some(a.c.encode(out.value)))
  {
    var s1 := Opened(a, s, Some(secret), createdAt, installedAt).0;
    var pub := EncodeKey(client.pub);
    DecodeEncodeKey(client.pub);
    ReadEncodedPairCode(a.c, a.relayURL, a.agentID, secret);
    RequestIsAccepted(a, s1, pairing, id, client.pub, pub, name);
    var mac := RequestMac(a.c, Base64.Encode(secret, Base64.RawUrl), id, pub).value;
    var s2 := Step(a, s1, pairing, id, Request(a.c, pub, mac, name)).0;
    SealedCommandIsServed(a, s2, command, id, client, msg, nonce);
  }
}
