/** Messages that get no reply leave no trace: what holds of one, and of whole runs. */
module IgnoredMessages {
  import opened Text
  import opened GoTime
  import opened Keys
  import opened Envelope
  import opened Pairing
  import opened Devices
  import opened Gateway
  import Core

  /** A pair_request that the window accepts and whose key decodes, but that cannot be written. */
  predicate StoreFails(a: Agent, s: State, env: Env, from: Str, payload: Str) {
    && !IsSealed(payload) && PairRequest(a, payload).Some?
    && var msg := PairRequest(a, payload).value;
    && Verifies(a.c, s.window, env.verifyAt, from, msg.pubKey, msg.mac)
    && DecodeKey(msg.pubKey).Some?
    && env.write.Failed?
  }

  /** A sealed command that the core answers, but whose answer cannot be sealed. */
  predicate ReplyLost(a: Agent, s: State, env: Env, from: Str, payload: Str) {
    && IsSealed(payload) && Unsealed(a, s.store.devices, from, payload).Some?
    && Core.Step(a.machine, Core.NONCE_TTL, s.core, env.core, Unsealed(a, s.store.devices, from, payload).value).1.Some?
    && env.entropy.None?
  }

  /** A message without a reply changes the state in two cases only, and then just so: a failed
      write leaves the device in memory and the window unspent, and a failed random source loses
      the answer of a command that has run. */
  lemma IgnoredExactly(a: Agent, s: State, env: Env, from: Str, payload: Str)
    requires Step(a, s, env, from, payload).1.None?
    ensures var s' := Step(a, s, env, from, payload).0;
            && (StoreFails(a, s, env, from, payload) ==>
                  var info := Info(a, PairRequest(a, payload).value, env.storeAt);
                  s' == s.(store := StoreState(s.store.devices[from := info], env.write.left)))
            && (ReplyLost(a, s, env, from, payload) ==>
                  var msg := Unsealed(a, s.store.devices, from, payload).value;
                  s' == s.(core := Core.Step(a.machine, Core.NONCE_TTL, s.core, env.core, msg).0))
            && (!StoreFails(a, s, env, from, payload) && !ReplyLost(a, s, env, from, payload) ==> s' == s)
  {
  }

  /** What can happen at the boundary, one thing at a time. */
  datatype Event =
    | Message(env: Env, from: Str, payload: Str)
    | Open(secret: Option<Secret>, createdAt: Time, installedAt: Time)
    | Unpair(id: Str, write: Write)

  /** The outcome of an event: the reply, the pairing code, or nothing. */
  function Applied(a: Agent, s: State, e: Event): (r: (State, Option<Str>)) {
    match e
    case Message(env, from, payload) => Step(a, s, env, from, payload)
    case Open(secret, createdAt, installedAt) => Opened(a, s, secret, createdAt, installedAt)
    case Unpair(id, write) => (s.(store := Removed(s.store, id, write).0), None)
  }

  predicate Ignored(a: Agent, s: State, e: Event) {
    e.Message? && Applied(a, s, e).1.None?
  }

  function Final(a: Agent, s: State, events: seq<Event>): State
    decreases events
  {
    if |events| == 0 then s else Final(a, Applied(a, s, events[0]).0, events[1..])
  }

  /** The events that were not ignored, each with its outcome. */
  function Outcomes(a: Agent, s: State, events: seq<Event>): seq<(Event, Option<Str>)>
    decreases events
  {
    if |events| == 0 then []
    else
      var (s', out) := Applied(a, s, events[0]);
      (if Ignored(a, s, events[0]) then [] else [(events[0], out)]) + Outcomes(a, s', events[1..])
  }

  /** The run without the messages that it ignores. */
  function WithoutIgnored(a: Agent, s: State, events: seq<Event>): seq<Event>
    decreases events
  {
    if |events| == 0 then []
    else
      (if Ignored(a, s, events[0]) then [] else [events[0]])
      + WithoutIgnored(a, Applied(a, s, events[0]).0, events[1..])
  }

  predicate NothingFails(e: Event) {
    e.Message? ==> e.env.write.Written? && e.env.entropy.Some?
  }

  /** Deleting every ignored message from a run changes no other outcome and not the final state, and
      leaves only messages with a reply. */
  lemma {:induction false} DeletingIgnoredChangesNothing(a: Agent, s: State, events: seq<Event>)
    requires forall e | e in events :: NothingFails(e)
    ensures Final(a, s, WithoutIgnored(a, s, events)) == Final(a, s, events)
    ensures Outcomes(a, s, WithoutIgnored(a, s, events)) == Outcomes(a, s, events)
    ensures |Outcomes(a, s, events)| == |WithoutIgnored(a, s, events)|
    ensures forall o | o in Outcomes(a, s, events) && o.0.Message? :: o.1.Some?
    decreases events
  {
    if |events| > 0 {
      var e, rest := events[0], events[1..];
      var s' := Applied(a, s, e).0;
      assert NothingFails(e);
      DeletingIgnoredChangesNothing(a, s', rest);
      var kept := WithoutIgnored(a, s', rest);
      if Ignored(a, s, e) {
        IgnoredExactly(a, s, e.env, e.from, e.payload);
        assert WithoutIgnored(a, s, events) == kept;
      } else {
        assert WithoutIgnored(a, s, events) == [e] + kept;
        assert ([e] + kept)[1..] == kept;
      }
    }
  }

  /** Unpairing takes that device off the allowlist and leaves all else as it was. */
  lemma UnpairSparesOthers(a: Agent, s: State, id: Str, write: Write)
    ensures var s' := Applied(a, s, Unpair(id, write)).0;
            && id !in s'.store.devices && AgreeExcept(s.store.devices, s'.store.devices, id)
            && s'.(store := s.store) == s
  {
  }
}
