/** Payload handling for one machine: status requests, and lock commands behind the replay guard. */
module Core {
  import opened Text
  import opened GoTime
  import opened Wire
  import NonceCache

  /** How old, or how far in the future, a lock command may be: 30 seconds. */
  const MAX_SKEW: Duration := 30_000_000_000
  const NONCE_TTL: Duration := 60_000_000_000

  const MISSING_NONCE := Ascii("lock rejected: missing nonce")
  const STALE_TIMESTAMP := Ascii("lock rejected: stale timestamp")
  const REPLAYED_NONCE := Ascii("lock rejected: replayed nonce")

  /** What the session layer answers when asked for the lock state. */
  datatype Reading = Locked(locked: bool) | Unreadable(error: Str)

  /** What one call of Handle reads from its surroundings: the two clock readings of
      checkFreshness, the outcome of the session's Lock, and for a status request the lock state
      and the clock. */
  datatype Env = Env(skewAt: Time, nonceAt: Time, lockError: Option<Str>, reading: Reading, statusAt: Time)

  datatype Machine = Machine(name: Str, os: Str)

  datatype CoreState = CoreState(seen: NonceCache.Seen, lockCalls: nat)

  /** The two-sided skew test. */
  predicate Fresh(ts: int64, now: Time) {
    var age := Sub(now, Unix(ts));
    !(age > MAX_SKEW || age < -MAX_SKEW)
  }

  /** The command gets as far as the nonce cache. */
  predicate ReachesCache(msg: Payload, skewAt: Time) {
    msg.nonce != [] && Fresh(msg.ts, skewAt)
  }

  function FreshnessVerdict(ttl: Duration, seen: NonceCache.Seen, msg: Payload, skewAt: Time, nonceAt: Time)
    : (r: (Option<Str>, NonceCache.Seen))
  {
    if msg.nonce == [] then (Some(MISSING_NONCE), seen)
    else if !Fresh(msg.ts, skewAt) then (Some(STALE_TIMESTAMP), seen)
    else
      var (unseen, seen') := NonceCache.Added(ttl, seen, msg.nonce, nonceAt);
      (if unseen then None else Some(REPLAYED_NONCE), seen')
  }

  function LockResult(nonce: Str, ok: bool, error: Str): Payload {
    EMPTY.(kind := KIND_LOCK_RESULT, nonce := nonce, ok := Some(ok), error := error)
  }

  function Status(m: Machine, env: Env): Payload {
    match env.reading
    case Unreadable(error) => EMPTY.(kind := KIND_STATUS, error := error, machine := m.name, os := m.os)
    case Locked(locked) =>
      EMPTY.(kind := KIND_STATUS, locked := Some(locked), machine := m.name, os := m.os,
             ts := Wrap64(UnixSec(env.statusAt)))
  }

  function LockStep(ttl: Duration, s: CoreState, env: Env, msg: Payload): (r: (CoreState, Payload)) {
    var (error, seen) := FreshnessVerdict(ttl, s.seen, msg, env.skewAt, env.nonceAt);
    if error.Some? then (s.(seen := seen), LockResult(msg.nonce, false, error.value))
    else
      (CoreState(seen, s.lockCalls + 1),
       if env.lockError.Some? then LockResult(msg.nonce, false, env.lockError.value)
       else LockResult(msg.nonce, true, []))
  }

  /** Handle: the new state and the reply, if the kind has one. */
  function Step(m: Machine, ttl: Duration, s: CoreState, env: Env, msg: Payload): (r: (CoreState, Option<Payload>)) {
    if msg.kind == KIND_STATUS_REQUEST then (s, Some(Status(m, env)))
    else if msg.kind == KIND_LOCK then
      var (s', out) := LockStep(ttl, s, env, msg);
      (s', Some(out))
    else (s, None)
  }

  /** The payload tells this session reading of this machine, and nothing else: the state if it could be
      read, with the second in which it was, and the error otherwise. */
  predicate Tells(m: Machine, env: Env, out: Payload) {
    && out.kind == Ascii("status") && out.machine == m.name && out.os == m.os
    && (forall b: bool :: out.locked == Some(b) <==> env.reading == Locked(b))
    && out.error == (if env.reading.Unreadable? then env.reading.error else [])
    && (env.reading.Locked? && PresentDay(env.statusAt) ==>
          out.ts * SECOND <= env.statusAt < (out.ts + 1) * SECOND)
    && out.nonce == [] && out.ok == None && out.pubKey == [] && out.mac == []
  }

  /** The answer to a status request tells the session's reading, and asking changes nothing. */
  lemma StatusIsTruthful(m: Machine, ttl: Duration, s: CoreState, env: Env, msg: Payload)
    requires msg.kind == Ascii("status_request")
    ensures Step(m, ttl, s, env, msg).0 == s && Step(m, ttl, s, env, msg).1.Some?
    ensures Tells(m, env, Step(m, ttl, s, env, msg).1.value)
  {
  }

  /** Any kind but the two commands gets no answer and changes nothing. */
  lemma OtherKindsAreIgnored(m: Machine, ttl: Duration, s: CoreState, env: Env, msg: Payload)
    requires msg.kind != Ascii("status_request") && msg.kind != Ascii("lock")
    ensures Step(m, ttl, s, env, msg) == (s, None)
  {
  }

  /** The operating system's session; every attempt to lock it counts, successful or not. */
  class Session {
    var lockCalls: nat

    constructor ()
      ensures lockCalls == 0
    {
      lockCalls := 0;
    }

    method Lock(outcome: Option<Str>) returns (error: Option<Str>)
      modifies this
      ensures lockCalls == old(lockCalls) + 1 && error == outcome
    {
      lockCalls := lockCalls + 1;
      error := outcome;
    }
  }

  class Core {
    const sess: Session
    const machine: Machine
    const nonces: NonceCache.Cache

    constructor (sess: Session, machine: Machine)
      ensures this.sess == sess && this.machine == machine
      ensures fresh(nonces) && nonces.ttl == NONCE_TTL && nonces.seen == map[]
    {
      this.sess := sess;
      this.machine := machine;
      nonces := new NonceCache.Cache(2 * MAX_SKEW);
    }

    function View(): CoreState
      reads sess, nonces
    {
      CoreState(nonces.seen, sess.lockCalls)
    }

    method Handle(env: Env, msg: Payload) returns (reply: Option<Payload>)
      modifies sess, nonces
      ensures (View(), reply) == Step(machine, nonces.ttl, old(View()), env, msg)
    {
      if msg.kind == KIND_STATUS_REQUEST {
        reply := Some(Status(machine, env));
      } else if msg.kind == KIND_LOCK {
        var out := Lock(env, msg);
        reply := Some(out);
      } else {
        reply := None;
      }
    }

    method Lock(env: Env, msg: Payload) returns (out: Payload)
      modifies sess, nonces
      ensures (View(), out) == LockStep(nonces.ttl, old(View()), env, msg)
    {
      var error := CheckFreshness(msg, env.skewAt, env.nonceAt);
      if error.Some? {
        return LockResult(msg.nonce, false, error.value);
      }
      error := sess.Lock(env.lockError);
      if error.Some? {
        return LockResult(msg.nonce, false, error.value);
      }
      return LockResult(msg.nonce, true, []);
    }

    method CheckFreshness(msg: Payload, skewAt: Time, nonceAt: Time) returns (error: Option<Str>)
      modifies nonces
      ensures (error, nonces.seen) == FreshnessVerdict(nonces.ttl, old(nonces.seen), msg, skewAt, nonceAt)
    {
      if msg.nonce == [] {
        return Some(MISSING_NONCE);
      }
      var age := Sub(skewAt, Unix(msg.ts));
      if age > MAX_SKEW || age < -MAX_SKEW {
        return Some(STALE_TIMESTAMP);
      }
      var unseen := nonces.Add(msg.nonce, nonceAt);
      if !unseen {
        return Some(REPLAYED_NONCE);
      }
      return None;
    }
  }
}
