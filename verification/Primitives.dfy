/** The library code the agent builds on, known only through its functional laws: HMAC-SHA256
    (RFC 2104), NaCl box, and JSON. Every theorem holds for all suites that obey the laws. */
module Primitives {
  import opened Text
  import opened Wire

  type Key = k: Bytes | |k| == 32 witness seq(32, _ => 0)

  type BoxNonce = n: Bytes | |n| == 24 witness seq(24, _ => 0)

  const OPEN_BRACE: byte := 123

  datatype Suite = Suite(
    hmac: (Bytes, Bytes) -> Bytes,                      // key, message
    boxSeal: (Bytes, BoxNonce, Key, Key) -> Bytes,      // plain, nonce, peer public, own private
    boxOpen: (Bytes, BoxNonce, Key, Key) -> Option<Bytes>,
    publicKey: Key -> Key,                              // of a private key
    encode: Payload -> Str,                             // JSON
    decode: Str -> Option<Payload>,
    isText: Str -> bool,                                // valid UTF-8
    cleanName: Str -> Str,                              // gateway.sanitizeName
    codeJson: (Str, Str, Str) -> Str,                   // of relay URL, agent id, secret
    codeFields: Str -> Option<(Str, Str, Str)>)         // and back

  predicate IsAscii(s: Str) {
    forall c | c in s :: c < 128
  }

  /** All strings of the payload survive JSON, which replaces invalid UTF-8. */
  predicate Textual(c: Suite, p: Payload) {
    && c.isText(p.kind) && c.isText(p.nonce) && c.isText(p.machine) && c.isText(p.os)
    && c.isText(p.error) && c.isText(p.pubKey) && c.isText(p.mac)
  }

  ghost predicate HmacLaw(c: Suite) {
    forall k: Bytes, m: Bytes :: |c.hmac(k, m)| == 32
  }

  /** Opening inverts sealing for matching key pairs. */
  ghost predicate BoxLaw(c: Suite) {
    forall m: Bytes, n: BoxNonce, a: Key, b: Key ::
      c.boxOpen(c.boxSeal(m, n, c.publicKey(b), a), n, c.publicKey(a), b) == Some(m)
  }

  ghost predicate JsonLaw(c: Suite) {
    && (forall p: Payload :: Textual(c, p) ==> c.decode(c.encode(p)) == Some(p))
    && (forall p: Payload :: |c.encode(p)| > 0 && c.encode(p)[0] == OPEN_BRACE)
    && (forall s: Str :: IsAscii(s) ==> c.isText(s))
    && (forall relay: Str, agent: Str, secret: Str :: c.isText(relay) && c.isText(agent) && c.isText(secret) ==>
          c.codeFields(c.codeJson(relay, agent, secret)) == Some((relay, agent, secret)))
  }

  ghost predicate Lawful(c: Suite) {
    HmacLaw(c) && BoxLaw(c) && JsonLaw(c)
  }
}
