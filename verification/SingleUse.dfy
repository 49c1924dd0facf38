/** How far a pairing window is single-use: exactly as far as the device file can be written. */
module SingleUse {
  import opened Text
  import opened GoTime
  import opened Primitives
  import opened Keys
  import opened Envelope
  import opened Pairing
  import opened Devices
  import opened Gateway
  import opened PairingCompletes
  import Base64

  /** The message is a plaintext pair_request that the window accepts, with a usable key. */
  predicate Admits(a: Agent, s: State, at: Time, from: Str, payload: Str) {
    && !IsSealed(payload) && PairRequest(a, payload).Some?
    && var msg := PairRequest(a, payload).value;
    && Verifies(a.c, s.window, at, from, msg.pubKey, msg.mac)
    && DecodeKey(msg.pubKey).Some?
  }

  /** A message spends the window exactly if the window admits it and the file can be written. */
  lemma SpentExactly(a: Agent, s: State, env: Env, from: Str, payload: Str)
    requires s.window.Some? && !s.window.value.used
    ensures var s' := Step(a, s, env, from, payload).0;
            && s'.window == Some(s.window.value.(used := s'.window.value.used))
            && (s'.window.value.used <==> Admits(a, s, env.verifyAt, from, payload) && env.write.Written?)
  {
  }

  /** Of two requests that the window would each admit, the second is admitted after the first
      exactly if the first could not be written; and then both devices are on the allowlist. */
  lemma SecondDeviceExactly(a: Agent, s: State, env: Env, from: Str, payload: Str,
                            env': Env, from': Str, payload': Str)
    requires Admits(a, s, env.verifyAt, from, payload) && Admits(a, s, env'.verifyAt, from', payload')
    requires from' != from
    ensures var s1 := Step(a, s, env, from, payload).0;
            var (s2, reply) := Step(a, s1, env', from', payload');
            && (Admits(a, s1, env'.verifyAt, from', payload') <==> env.write.Failed?)
            && Lookup(s2.store.devices, from) == DecodeKey(PairRequest(a, payload).value.pubKey)
            && (if env.write.Failed? then
                  && Lookup(s2.store.devices, from') == DecodeKey(PairRequest(a, payload').value.pubKey)
                  && (reply.Some? <==> env'.write.Written?)
                else s2 == s1 && reply.None?)
  {
  }

  /** What a client with the window's secret sends. */
  function RequestFor(c: Suite, w: WindowState, id: Str, key: Key): Str {
    Request(c, EncodeKey(key), MacText(c, w.secret, REQUEST_LABEL, id, EncodeKey(key)), [])
  }

  /** An open window admits every client with its secret, whatever its id and key. */
  lemma HolderIsAdmitted(a: Agent, s: State, at: Time, id: Str, key: Key)
    requires JsonLaw(a.c) && s.window.Some? && !s.window.value.used && at <= s.window.value.expires
    ensures var payload := RequestFor(a.c, s.window.value, id, key);
            && Admits(a, s, at, id, payload)
            && DecodeKey(PairRequest(a, payload).value.pubKey) == Some(key)
  {
    var pub := EncodeKey(key);
    DecodeEncodeKey(key);
    MacTextProves(a.c, s.window.value.secret, REQUEST_LABEL, id, pub);
    Base64.DecodableIsAscii(MacText(a.c, s.window.value.secret, REQUEST_LABEL, id, pub));
    assert IsAscii([]);
    RequestIsRead(a, pub, MacText(a.c, s.window.value.secret, REQUEST_LABEL, id, pub), []);
  }

  /** So no window is single-use across a failed write: any two clients with the secret get paired
      over it, one after the other. */
  lemma FailedWriteLeavesWindowOpen(a: Agent, s: State, env: Env, id: Str, key: Key, env': Env, id': Str, key': Key)
    requires JsonLaw(a.c) && s.window.Some? && !s.window.value.used && id != id'
    requires env.verifyAt <= s.window.value.expires && env'.verifyAt <= s.window.value.expires
    requires env.write.Failed? && env'.write.Written?
    ensures var w := s.window.value;
            var s1 := Step(a, s, env, id, RequestFor(a.c, w, id, key)).0;
            var (s2, reply) := Step(a, s1, env', id', RequestFor(a.c, w, id', key'));
            && Lookup(s2.store.devices, id) == Some(key) && Lookup(s2.store.devices, id') == Some(key')
            && reply.Some?
  {
    HolderIsAdmitted(a, s, env.verifyAt, id, key);
    HolderIsAdmitted(a, s, env'.verifyAt, id', key');
    hide Step;
    hide Admits;
    SecondDeviceExactly(a, s, env, id, RequestFor(a.c, s.window.value, id, key),
                        env', id', RequestFor(a.c, s.window.value, id', key'));
  }

  /** Exactly what a window admits, in the terms of the message itself. */
  lemma AdmitsExactly(a: Agent, s: State, at: Time, from: Str, payload: Str)
    ensures Admits(a, s, at, from, payload) <==>
            && !(|payload| >= 3 && payload[..3] == Ascii("e1:"))
            && a.c.decode(payload).Some?
            && var msg := a.c.decode(payload).value;
            && msg.kind == Ascii("pair_request")
            && s.window.Some? && !s.window.value.used && at <= s.window.value.expires
            && Base64.Decode(msg.mac, Base64.Std)
               == Some(a.c.hmac(s.window.value.secret, Ascii("pair_request") + [LF] + from + [LF] + msg.pubKey))
            && DecodeKey(msg.pubKey).Some?
  {
    IsSealedExactly(payload);
  }

  /** A plaintext message that the window does not admit gets no answer and changes nothing. */
  lemma StrangersAreIgnored(a: Agent, s: State, env: Env, from: Str, payload: Str)
    requires !(|payload| >= 3 && payload[..3] == Ascii("e1:")) && !Admits(a, s, env.verifyAt, from, payload)
    ensures Step(a, s, env, from, payload) == (s, None)
  {
    IsSealedExactly(payload);
  }

  /** A sealed message changes nothing of the window, the code and the allowlist. */
  lemma SealedLeavesPairing(a: Agent, s: State, env: Env, from: Str, payload: Str)
    requires |payload| >= 3 && payload[..3] == Ascii("e1:")
    ensures Step(a, s, env, from, payload).0 == s.(core := Step(a, s, env, from, payload).0.core)
  {
    IsSealedExactly(payload);
  }
}
