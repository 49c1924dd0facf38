/** X25519 key pairs and their text form. */
module Keys {
  import opened Text
  import opened Primitives
  import Base64

  datatype Keys = Keys(pub: Key, priv: Key)

  predicate KeyPair(c: Suite, k: Keys) {
    k.pub == c.publicKey(k.priv)
  }

  function EncodeKey(k: Key): Str {
    Base64.Encode(k, Base64.Std)
  }

  /** Rejects text that is not base64 or not of 32 bytes. */
  function DecodeKey(s: Str): Option<Key> {
    var raw := Base64.Decode(s, Base64.Std);
    if raw.None? || |raw.value| != 32 then None else Some(raw.value)
  }

  lemma DecodeEncodeKey(k: Key)
    ensures DecodeKey(EncodeKey(k)) == Some(k)
  {
    Base64.DecodeEncode(k, Base64.Std);
  }

  /** Text that carries a key has exactly 44 characters besides its line breaks. */
  lemma DecodedKeyLength(s: Str)
    requires DecodeKey(s).Some?
    ensures |Base64.Strip(s)| == 44
  {
    hide Base64.DecodeQuanta;
    hide Base64.Strip;
    var text := Base64.Strip(s);
    Base64.DecodedIsWholeQuanta(text);
    var n: nat :| |text| == 4 * n;
    assert 3 * |text| - 8 <= 4 * 32 <= 3 * |text|;
  }

  /** Text carries a key exactly if its base64 content is that key's 32 bytes. */
  lemma DecodesExactly(s: Str, k: Key)
    ensures DecodeKey(s) == Some(k) <==> Base64.Decode(s, Base64.Std) == Some(k)
  {
  }
}
