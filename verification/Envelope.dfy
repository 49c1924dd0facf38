/** The end-to-end payload format: "e1:" followed by base64(nonce, box). */
module Envelope {
  import opened Text
  import opened Primitives
  import opened Keys
  import Base64

  const SEALED_PREFIX := Ascii("e1:")
  const NONCE_SIZE := 24

  predicate IsSealed(payload: Str) {
    HasPrefix(payload, SEALED_PREFIX)
  }

  /** Encrypts plain for peerPub; entropy is what the random source gives, if anything. */
  function Seal(c: Suite, plain: Str, entropy: Option<BoxNonce>, peerPub: Key, keys: Keys): Option<Str> {
    if entropy.None? then None
    else
      var out := entropy.value + c.boxSeal(plain, entropy.value, peerPub, keys.priv);
      Some(SEALED_PREFIX + Base64.Encode(out, Base64.Std))
  }

  function Open(c: Suite, sealed: Str, peerPub: Key, keys: Keys): Option<Str> {
    if !IsSealed(sealed) then None
    else
      var raw := Base64.Decode(sealed[|SEALED_PREFIX|..], Base64.Std);
      if raw.None? || |raw.value| < NONCE_SIZE then None
      else c.boxOpen(raw.value[NONCE_SIZE..], raw.value[..NONCE_SIZE], peerPub, keys.priv)
  }

  /** What one side seals, the other side opens, at every length. */
  lemma OpenSeal(c: Suite, plain: Str, nonce: BoxNonce, from: Keys, to: Keys)
    requires BoxLaw(c) && KeyPair(c, from) && KeyPair(c, to)
    ensures var sealed := Seal(c, plain, Some(nonce), to.pub, from);
            sealed.Some? && IsSealed(sealed.value) && Open(c, sealed.value, from.pub, to) == Some(plain)
  {
    var box := c.boxSeal(plain, nonce, to.pub, from.priv);
    var text := Base64.Encode(nonce + box, Base64.Std);
    Base64.DecodeEncode(nonce + box, Base64.Std);
    assert (SEALED_PREFIX + text)[|SEALED_PREFIX|..] == text;
    assert (nonce + box)[..NONCE_SIZE] == nonce && (nonce + box)[NONCE_SIZE..] == box;
  }

  /** JSON payloads are never mistaken for sealed ones. */
  lemma PlaintextIsNotSealed(s: Str)
    requires |s| > 0 && s[0] == OPEN_BRACE
    ensures !IsSealed(s)
  {
    assert SEALED_PREFIX[0] == 101;
  }

  /** What goes over the line: after the prefix the base64 of the nonce drawn for this message and the
      box made with it. */
  lemma SealedText(c: Suite, plain: Str, nonce: BoxNonce, peerPub: Key, keys: Keys)
    ensures var sealed := Seal(c, plain, Some(nonce), peerPub, keys);
            && sealed.Some? && |sealed.value| >= 3 && sealed.value[..3] == Ascii("e1:")
            && Base64.Decode(sealed.value[3..], Base64.Std)
               == Some(nonce + c.boxSeal(plain, nonce, peerPub, keys.priv))
  {
    var box := c.boxSeal(plain, nonce, peerPub, keys.priv);
    var text := Base64.Encode(nonce + box, Base64.Std);
    Base64.DecodeEncode(nonce + box, Base64.Std);
    assert (SEALED_PREFIX + text)[3..] == text;
    assert (SEALED_PREFIX + text)[..3] == Ascii("e1:");
  }

  /** No two messages sealed under different nonces look alike, whatever else they have in common. */
  lemma NoncesShow(c: Suite, plain: Str, nonce: BoxNonce, peer: Key, keys: Keys,
                   plain': Str, nonce': BoxNonce, peer': Key, keys': Keys)
    requires nonce != nonce'
    ensures Seal(c, plain, Some(nonce), peer, keys) != Seal(c, plain', Some(nonce'), peer', keys')
  {
    SealedText(c, plain, nonce, peer, keys);
    SealedText(c, plain', nonce', peer', keys');
    var box, box' := c.boxSeal(plain, nonce, peer, keys.priv), c.boxSeal(plain', nonce', peer', keys'.priv);
    assert (nonce + box)[..24] == nonce && (nonce' + box')[..24] == nonce';
  }

  /** Exactly what opens: the prefix, then base64 of 24 bytes of nonce and of a box that the library
      opens under that nonce, the sender's key and the own key. */
  lemma OpensExactly(c: Suite, sealed: Str, peerPub: Key, keys: Keys, plain: Str)
    ensures Open(c, sealed, peerPub, keys) == Some(plain) <==>
            && |sealed| >= 3 && sealed[..3] == Ascii("e1:")
            && exists nonce: BoxNonce, box: Bytes ::
                 && Base64.Decode(sealed[3..], Base64.Std) == Some(nonce + box)
                 && c.boxOpen(box, nonce, peerPub, keys.priv) == Some(plain)
  {
    assert |SEALED_PREFIX| == 3 && SEALED_PREFIX == Ascii("e1:");
    if IsSealed(sealed) {
      var raw := Base64.Decode(sealed[3..], Base64.Std);
      if raw.Some? && |raw.value| >= 24 {
        assert raw.value == raw.value[..24] + raw.value[24..];
      }
      forall nonce: BoxNonce, box: Bytes | raw == Some(nonce + box)
        ensures raw.value[..24] == nonce && raw.value[24..] == box
      {
      }
    }
  }

  lemma IsSealedExactly(s: Str)
    ensures IsSealed(s) <==> |s| >= 3 && s[..3] == Ascii("e1:")
  {
    assert |SEALED_PREFIX| == 3 && SEALED_PREFIX == Ascii("e1:");
  }
}
