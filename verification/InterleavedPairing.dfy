/** End to end over every interleaving: whatever the UI threads do meanwhile, a timely request of a
    client with the secret pairs it, and the commands of a paired client are served. */
module InterleavedPairing {
  import opened Text
  import opened Wire
  import opened Primitives
  import opened Keys
  import opened Envelope
  import opened Pairing
  import opened Devices
  import opened Gateway
  import opened System
  import opened Interleavings
  import opened PairingCompletes
  import Base64
  import Core
  import ReplayGuard

  /** A step of a UI thread neither moves the handler nor spends a window. */
  lemma UiStep(a: Agent, s: Sys, step: Step, w: nat)
    requires Enabled(s, step) && !ByHandler(step)
    ensures Apply(a, s, step).pc == s.pc && SpentOnlyBefore(s, Apply(a, s, step), w)
  {
  }

  /** The next step of the handler, who is still where he was when it comes. */
  lemma {:induction false} NextHandlerStep(a: Agent, r: Run, m: nat, i: nat, w: nat) returns (p: nat)
    requires Valid(a, r) && m < i < |r.states| && !r.states[m].pc.Idle? && r.states[i].pc.Idle?
    ensures m <= p < i && ByHandler(r.steps[p]) && r.states[p].pc == r.states[m].pc
    ensures SpentOnlyBefore(r.states[m], r.states[p], w)
    decreases i - m
  {
    if ByHandler(r.steps[m]) {
      p := m;
    } else {
      UiStep(a, r.states[m], r.steps[m], w);
      hide Apply;
      hide Enabled;
      p := NextHandlerStep(a, r, m + 1, i, w);
    }
  }

  /** The message is a request built from the secret of the unspent current window. */
  predicate FromHolder(a: Agent, s: Sys, from: Str, pub: Str, name: Str, payload: Str) {
    && s.current.Some? && s.current.value < |s.windows| && !s.windows[s.current.value].used
    && var mac := RequestMac(a.c, Base64.Encode(s.windows[s.current.value].secret, Base64.RawUrl), from, pub);
    && mac.Some? && payload == Request(a.c, pub, mac.value, name)
  }

  /** At its reception the handler notes the request and the window, and the request's MAC is good. */
  lemma RequestIsNoted(a: Agent, s: Sys, step: Step, pub: Str, name: Str)
    requires JsonLaw(a.c) && a.c.isText(name) && DecodeKey(pub).Some?
    requires Enabled(s, step) && step.action.Receive?
    requires FromHolder(a, s, step.action.from, pub, name, step.action.payload)
    ensures var pc := Apply(a, s, step).pc;
            && pc.Snapped? && pc.from == step.action.from && pc.seen == s.current
            && pc.msg.pubKey == pub && pc.msg.machine == name
            && Proves(a.c, s.windows[s.current.value].secret, REQUEST_LABEL, pc.from, pub, pc.msg.mac)
  {
    var from, window := step.action.from, s.windows[s.current.value];
    BothSidesAgree(a.c, window, window.expires, from, pub, a.agentID, pub);
    var mac := RequestMac(a.c, Base64.Encode(window.secret, Base64.RawUrl), from, pub).value;
    Base64.DecodableIsAscii(mac);
    RequestIsRead(a, pub, mac, name);
  }

  lemma CheckStep(a: Agent, s: Sys, step: Step)
    requires Enabled(s, step) && step.action.Verify? && s.pc.seen.Some?
    requires var w := s.windows[s.pc.seen.value];
             !w.used && step.now <= w.expires
             && Proves(a.c, w.secret, REQUEST_LABEL, s.pc.from, s.pc.msg.pubKey, s.pc.msg.mac)
    ensures Apply(a, s, step).pc == Verified(s.pc.from, s.pc.msg, s.pc.seen.value, step.now)
  {
  }

  /** The check comes by the deadline of window w, and it passes. */
  lemma CheckPasses(a: Agent, r: Run, g: nat, i: nat, pub: Str, name: Str) returns (v: nat)
    requires JsonLaw(a.c) && a.c.isText(name) && DecodeKey(pub).Some?
    requires Valid(a, r) && Completes(r, g, i)
    requires FromHolder(a, r.states[g], r.steps[g].action.from, pub, name, r.steps[g].action.payload)
    requires var w := r.states[g].windows[r.states[g].current.value];
             forall m | g < m < i && r.steps[m].action.Verify? :: r.steps[m].now <= w.expires
    ensures g < v < i && r.steps[v].action.Verify?
    ensures var pc := r.states[v + 1].pc;
            && pc.Verified? && Some(pc.w) == r.states[g].current
            && pc.from == r.steps[g].action.from && pc.msg.pubKey == pub && pc.msg.machine == name
  {
    var s, w := r.states[g], r.states[g].current.value;
    RequestIsNoted(a, s, r.steps[g], pub, name);
    assert !Spent(s, w) && !Spent(r.states[g + 1], w);
    hide Proves;
    hide FromHolder;
    hide Apply;
    WindowFieldsStay(a, r, g, g + 1, w);
    v := NextHandlerStep(a, r, g + 1, i, w);
    WindowFieldsStay(a, r, g + 1, v, w);
    CheckStep(a, r.states[v], r.steps[v]);
  }

  /** A proven request with a usable key is stored, if the file can be written. */
  lemma StoreSucceeds(a: Agent, r: Run, m: nat, i: nat) returns (st: nat)
    requires Valid(a, r) && m < i < |r.states| && r.states[m].pc.Verified? && r.states[i].pc.Idle?
    requires DecodeKey(r.states[m].pc.msg.pubKey).Some?
    requires forall k | m <= k < i && r.steps[k].action.Store? :: r.steps[k].action.write.Written?
    ensures m <= st < i && r.steps[st].action.Store?
    ensures var Verified(from, msg, w, _) := r.states[m].pc;
            && r.states[st + 1].pc == Stored(from, msg, w)
            && r.states[st + 1].store.devices == r.states[st].store.devices[from := Info(a, msg, r.steps[st].now)]
            && InSync(r.states[st + 1].store)
  {
    st := NextHandlerStep(a, r, m, i, r.states[m].pc.w);
  }

  /** A stored request spends its window and is answered with that window's secret. */
  lemma AnswerFollows(a: Agent, r: Run, m: nat, i: nat) returns (rep: nat)
    requires Valid(a, r) && m < i < |r.states| && r.states[m].pc.Stored? && r.states[i].pc.Idle?
    requires r.states[m].pc.w < |r.states[m].windows|
    ensures m < rep < i && r.steps[rep].action.Reply? && r.states[rep + 1].pc.Idle?
    ensures var w := r.states[m].pc.w;
            && Spent(r.states[rep], w)
            && Output(a, r.states[rep], r.steps[rep]) == Some(a.c.encode(Accept(a, r.states[m].windows[w].secret)))
  {
    var w := r.states[m].pc.w;
    var c := NextHandlerStep(a, r, m, i, w);
    assert r.states[c + 1].pc == Consumed(w);
    rep := NextHandlerStep(a, r, c + 1, i, w);
    WindowFieldsStay(a, r, m, rep, w);
    Invariant(a, r, rep);
  }

  /** Pairing completes, whatever windows the UI threads open and whatever devices they remove while
      it is going on: a request built from the secret of the window that is current and unspent at
      its reception, checked by that window's deadline and written to a working disk, stores the
      client's key, spends the window, and is answered so that the client is convinced. */
  lemma RequestCompletes(a: Agent, r: Run, g: nat, i: nat, key: Key, pub: Str, name: Str)
    returns (v: nat, st: nat, rep: nat)
    requires JsonLaw(a.c) && a.c.isText(name) && DecodeKey(pub) == Some(key)
    requires Valid(a, r) && Completes(r, g, i)
    requires FromHolder(a, r.states[g], r.steps[g].action.from, pub, name, r.steps[g].action.payload)
    requires var w := r.states[g].windows[r.states[g].current.value];
             forall m | g < m < i && r.steps[m].action.Verify? :: r.steps[m].now <= w.expires
    requires forall m | g < m < i && r.steps[m].action.Store? :: r.steps[m].action.write.Written?
    ensures g < v < st < rep < i && r.steps[v].action.Verify?
    ensures r.steps[st].action.Store? && r.steps[rep].action.Reply?
    ensures var from, before, after := r.steps[g].action.from, r.states[st].store, r.states[st + 1].store;
            && after.devices == before.devices[from := DeviceInfo(pub, a.c.cleanName(name), r.steps[st].now)]
            && InSync(after) && Lookup(after.devices, from) == Some(key)
    ensures var w, reply := r.states[g].current.value, Output(a, r.states[rep], r.steps[rep]);
            && Spent(r.states[rep], w)
            && reply.Some? && Convinces(a, r.states[g].windows[w].secret, reply.value)
  {
    v := CheckPasses(a, r, g, i, pub, name);
    hide Apply;
    hide Enabled;
    hide FromHolder;
    hide Convinces;
    var w := r.states[v + 1].pc.w;
    st := StoreSucceeds(a, r, v + 1, i);
    Invariant(a, r, st + 1);
    rep := AnswerFollows(a, r, st + 1, i);
    WindowFieldsStay(a, r, g, st + 1, w);
    AcceptConvinces(a, r.states[g].windows[w].secret);
  }

  /** The message is a payload that the client sealed for the agent. */
  ghost predicate SealedBy(a: Agent, client: Keys, msg: Payload, payload: Str) {
    exists nonce: BoxNonce :: Seal(a.c, a.c.encode(msg), Some(nonce), a.keys.pub, client) == Some(payload)
  }

  /** The handler takes the client's key, and opens the message to the payload. */
  lemma SealedIsOpened(a: Agent, s: Sys, step: Step, client: Keys, msg: Payload)
    requires Lawful(a.c) && KeyPair(a.c, a.keys) && KeyPair(a.c, client) && Textual(a.c, msg)
    requires Enabled(s, step) && step.action.Receive? && SealedBy(a, client, msg, step.action.payload)
    requires Lookup(s.store.devices, step.action.from) == Some(client.pub)
    ensures Apply(a, s, step).pc == Got(step.action.from, step.action.payload, client.pub)
    ensures Delivered(a, step.action.payload, client.pub) == Some(msg)
  {
    var payload := step.action.payload;
    var nonce: BoxNonce :| Seal(a.c, a.c.encode(msg), Some(nonce), a.keys.pub, client) == Some(payload);
    OpenSeal(a.c, a.c.encode(msg), nonce, client, a.keys);
  }

  /** What the core answers is what the client opens. */
  lemma AnswerOpens(a: Agent, s: Sys, step: Step, client: Keys)
    requires BoxLaw(a.c) && KeyPair(a.c, a.keys) && KeyPair(a.c, client)
    requires Enabled(s, step) && step.action.Dispatch? && step.action.entropy.Some? && s.pc.key == client.pub
    ensures var (core, out) := Core.Step(a.machine, Core.NONCE_TTL, s.core, step.action.env, s.pc.msg);
            var reply := Output(a, s, step);
            && Apply(a, s, step).core == core
            && (out.None? ==> reply.None?)
            && (out.Some? ==>
                  reply.Some? && Open(a.c, reply.value, a.keys.pub, client) == Some(a.c.encode(out.value)))
  {
    hide Core.Step;
    var out := Core.Step(a.machine, Core.NONCE_TTL, s.core, step.action.env, s.pc.msg).1;
    if out.Some? {
      OpenSeal(a.c, a.c.encode(out.value), step.action.entropy.value, a.keys, client);
    }
  }

  /** A command sealed by a client whose key is stored at its reception reaches the core, even if the
      UI threads remove the device meanwhile, and the answer opens at the client. */
  lemma CommandCompletes(a: Agent, r: Run, g: nat, i: nat, client: Keys, msg: Payload) returns (d: nat)
    requires Lawful(a.c) && KeyPair(a.c, a.keys) && KeyPair(a.c, client) && Textual(a.c, msg)
    requires Valid(a, r) && Completes(r, g, i) && SealedBy(a, client, msg, r.steps[g].action.payload)
    requires Lookup(r.states[g].store.devices, r.steps[g].action.from) == Some(client.pub)
    requires forall m | g < m < i && r.steps[m].action.Dispatch? :: r.steps[m].action.entropy.Some?
    ensures g < d < i && r.steps[d].action.Dispatch?
    ensures var env := r.steps[d].action.env;
            var (core, out) := Core.Step(a.machine, Core.NONCE_TTL, r.states[d].core, env, msg);
            var reply := Output(a, r.states[d], r.steps[d]);
            && Handed(r.states[d], r.steps[d]) == Some(ReplayGuard.Input(env, msg))
            && r.states[d + 1].core == core
            && (out.None? ==> reply.None?)
            && (out.Some? ==>
                  reply.Some? && Open(a.c, reply.value, a.keys.pub, client) == Some(a.c.encode(out.value)))
  {
    hide Open;
    hide SealedBy;
    hide Delivered;
    SealedIsOpened(a, r.states[g], r.steps[g], client, msg);
    var m := NextHandlerStep(a, r, g + 1, i, 0);
    assert r.steps[m].action.Screen?;
    assert r.states[m + 1].pc == Screened(r.steps[g].action.from, msg, client.pub, r.steps[m].now);
    hide Apply;
    d := NextHandlerStep(a, r, m + 1, i, 0);
    AnswerOpens(a, r.states[d], r.steps[d], client);
  }
}
