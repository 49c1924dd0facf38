/** The payloads that travel inside relay envelopes. */
module Wire {
  import opened Text
  import opened GoTime

  /** One message shape for every kind; unused fields stay empty. */
  datatype Payload = Payload(
    kind: Str,
    nonce: Str,
    ts: int64,
    locked: Option<bool>,
    machine: Str,
    os: Str,
    ok: Option<bool>,
    error: Str,
    pubKey: Str,
    mac: Str)

  const EMPTY := Payload([], [], 0, None, [], [], None, [], [], [])

  const KIND_STATUS_REQUEST := Ascii("status_request")
  const KIND_STATUS := Ascii("status")
  const KIND_LOCK := Ascii("lock")
  const KIND_LOCK_RESULT := Ascii("lock_result")
  const KIND_PAIR_REQUEST := Ascii("pair_request")
  const KIND_PAIR_ACCEPT := Ascii("pair_accept")
}
