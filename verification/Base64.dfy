/** The two base64 forms the agent uses: the padded standard alphabet (section 4 of RFC 4648)
    and the unpadded URL alphabet (section 5). Decoding follows Go's encoding/base64: CR and LF
    are skipped wherever they stand, and unused trailing bits are not checked. */
module Base64 {
  import opened Text

  datatype Form = Std | RawUrl

  type sextet = v: int | 0 <= v < 64

  const PAD: byte := 61

  function Digit(v: sextet, form: Form): (c: byte)
    ensures c != CR && c != LF && c != PAD && c < 128
  {
    if v < 26 then v + 65
    else if v < 52 then v + 71
    else if v < 62 then v - 4
    else if v == 62 then (if form.Std? then 43 else 45)
    else (if form.Std? then 47 else 95)
  }

  function Value(c: byte, form: Form): Option<sextet> {
    if 65 <= c <= 90 then Some(c - 65)
    else if 97 <= c <= 122 then Some(c - 71)
    else if 48 <= c <= 57 then Some(c + 4)
    else if c == (if form.Std? then 43 else 45) then Some(62)
    else if c == (if form.Std? then 47 else 95) then Some(63)
    else None
  }

  /** The four digits of a three-byte quantum. */
  function Quad(x: byte, y: byte, z: byte, form: Form): (q: Str)
    ensures |q| == 4 && CR !in q && LF !in q && PAD !in q && forall c | c in q :: c < 128
  {
    [Digit(x / 4, form), Digit(x % 4 * 16 + y / 16, form), Digit(y % 16 * 4 + z / 64, form), Digit(z % 64, form)]
  }

  /** The three bytes of four digit values. */
  function Triple(v0: sextet, v1: sextet, v2: sextet, v3: sextet): (t: Bytes)
    ensures |t| == 3
  {
    [v0 * 4 + v1 / 16, v1 % 16 * 16 + v2 / 4, v2 % 4 * 64 + v3]
  }

  function Encode(b: Bytes, form: Form): Str {
    if |b| == 0 then []
    else if |b| == 1 then Quad(b[0], 0, 0, form)[..2] + (if form.Std? then [PAD, PAD] else [])
    else if |b| == 2 then Quad(b[0], b[1], 0, form)[..3] + (if form.Std? then [PAD] else [])
    else Quad(b[0], b[1], b[2], form) + Encode(b[3..], form)
  }

  /** The text without the line breaks the decoder skips. */
  function Strip(s: Str): (r: Str)
    ensures CR !in r && LF !in r
    ensures |r| <= |s|
  {
    if |s| == 0 then []
    else if s[0] == CR || s[0] == LF then Strip(s[1..])
    else [s[0]] + Strip(s[1..])
  }

  function Decode(s: Str, form: Form): Option<Bytes> {
    DecodeQuanta(Strip(s), form)
  }

  /** Decodes text without line breaks, four characters at a time. Only the last quantum may be
      padded (standard form) or short (raw form). Padded text that decodes has four characters
      for every three bytes, up to the padding. */
  function DecodeQuanta(s: Str, form: Form): (b: Option<Bytes>)
    ensures form.Std? && b.Some? ==> 3 * |s| - 8 <= 4 * |b.value| <= 3 * |s|
  {
    if |s| == 0 then Some([])
    else if form.Std? && |s| == 4 && s[3] == PAD then
      if s[2] == PAD then Tail(s[..2], form) else Tail(s[..3], form)
    else if form.RawUrl? && |s| < 4 then
      if |s| == 1 then None else Tail(s, form)
    else if |s| < 4 then None
    else
      var head := Unquad(s[..4], form);
      var rest := DecodeQuanta(s[4..], form);
      if head.Some? && rest.Some? then Some(head.value + rest.value) else None
  }

  function Unquad(s: Str, form: Form): (b: Option<Bytes>)
    requires |s| == 4
    ensures b.Some? ==> |b.value| == 3
  {
    var v0, v1, v2, v3 := Value(s[0], form), Value(s[1], form), Value(s[2], form), Value(s[3], form);
    if v0.Some? && v1.Some? && v2.Some? && v3.Some? then
      Some(Triple(v0.value, v1.value, v2.value, v3.value))
    else None
  }

  /** A final quantum of two or three digits: the missing ones count as zero. */
  function Tail(s: Str, form: Form): (b: Option<Bytes>)
    requires 2 <= |s| <= 3
    ensures b.Some? ==> |b.value| == |s| - 1
  {
    var v0, v1, v2 := Value(s[0], form), Value(s[1], form), if |s| == 3 then Value(s[2], form) else Some(0);
    if v0.Some? && v1.Some? && v2.Some? then Some(Triple(v0.value, v1.value, v2.value, 0)[..|s| - 1])
    else None
  }

  lemma ValueOfDigit(v: sextet, form: Form)
    ensures Value(Digit(v, form), form) == Some(v)
  {
  }

  /** A character is a digit of exactly one value, or of none. */
  lemma ValueExactly(c: byte, v: sextet, form: Form)
    ensures Value(c, form) == Some(v) <==> c == Digit(v, form)
  {
  }

  /** The values of the four digits of a quantum, most significant first, are its 24 bits. */
  lemma QuadIsGroup(x: byte, y: byte, z: byte, form: Form) returns (v0: sextet, v1: sextet, v2: sextet, v3: sextet)
    ensures Quad(x, y, z, form) == [Digit(v0, form), Digit(v1, form), Digit(v2, form), Digit(v3, form)]
    ensures ((v0 * 64 + v1) * 64 + v2) * 64 + v3 == (x * 256 + y) * 256 + z
  {
    hide Digit;
    v0, v1, v2, v3 := x / 4, x % 4 * 16 + y / 16, y % 16 * 4 + z / 64, z % 64;
  }

  /** Test vectors of section 10 of RFC 4648: "f", "fo" and "foobar". */
  lemma ShortVectors()
    ensures Encode([102], Std) == [90, 103, PAD, PAD] && Encode([102], RawUrl) == [90, 103]
    ensures Encode([102, 111], Std) == [90, 109, 56, PAD] && Encode([102, 111], RawUrl) == [90, 109, 56]
  {
    forall form: Form
      ensures Quad(102, 0, 0, form)[..2] == [90, 103] && Quad(102, 111, 0, form)[..3] == [90, 109, 56]
    {
    }
    hide Quad;
  }

  lemma LongVector()
    ensures Encode([102, 111, 111, 98, 97, 114], Std) == [90, 109, 57, 118, 89, 109, 70, 121]
  {
    assert Quad(98, 97, 114, Std) == [89, 109, 70, 121] && Quad(102, 111, 111, Std) == [90, 109, 57, 118];
    hide Quad;
    assert [102, 111, 111, 98, 97, 114][3..] == [98, 97, 114];
    assert Encode([98, 97, 114], Std) == [89, 109, 70, 121];
  }

  /** The two digits in which the alphabets differ. */
  lemma LastDigits()
    ensures Quad(251, 255, 191, Std) == Ascii("+/+/") && Quad(251, 255, 191, RawUrl) == Ascii("-_-_")
  {
  }

  lemma {:induction false} EncodedCharacters(b: Bytes, form: Form)
    ensures CR !in Encode(b, form) && LF !in Encode(b, form)
    ensures forall c | c in Encode(b, form) :: c < 128
  {
    if |b| >= 3 {
      EncodedCharacters(b[3..], form);
    }
  }

  lemma {:induction false} StripKeeps(s: Str)
    requires CR !in s && LF !in s
    ensures Strip(s) == s
  {
    if |s| > 0 {
      StripKeeps(s[1..]);
    }
  }

  lemma StripFirst(s: Str)
    requires |s| > 0
    ensures Strip(s) == (if s[0] == CR || s[0] == LF then [] else [s[0]]) + Strip(s[1..])
  {
  }

  lemma NothingToStrip()
    ensures Strip([]) == []
  {
  }

  lemma {:induction false} StripConcat(a: Str, b: Str)
    ensures Strip(a + b) == Strip(a) + Strip(b)
  {
    hide *;
    NothingToStrip();
    if |a| == 0 {
      assert a + b == b;
    } else {
      StripConcat(a[1..], b);
      StripFirst(a);
      StripFirst(a + b);
      assert (a + b)[1..] == a[1..] + b;
    }
  }

  /** The text strips to nothing exactly when it is all line breaks. */
  lemma {:induction false} StripEmpty(s: Str)
    ensures Strip(s) == [] <==> forall c | c in s :: c == CR || c == LF
  {
    if |s| > 0 {
      StripEmpty(s[1..]);
      assert forall c | c in s :: c == s[0] || c in s[1..];
      assert forall c | c in s[1..] :: c in s;
      assert s[0] in s;
    }
  }

  /** Three bytes survive the split into four digits. */
  lemma TripleRoundTrip(x: byte, y: byte, z: byte)
    ensures Triple(x / 4, x % 4 * 16 + y / 16, y % 16 * 4 + z / 64, z % 64) == [x, y, z]
  {
  }

  lemma UnquadQuad(x: byte, y: byte, z: byte, form: Form)
    ensures Unquad(Quad(x, y, z, form), form) == Some([x, y, z])
    ensures y == z == 0 ==> Tail(Quad(x, y, z, form)[..2], form) == Some([x])
    ensures z == 0 ==> Tail(Quad(x, y, z, form)[..3], form) == Some([x, y])
  {
    TripleRoundTrip(x, y, z);
    ValueOfDigit(x / 4, form);
    ValueOfDigit(x % 4 * 16 + y / 16, form);
    ValueOfDigit(y % 16 * 4 + z / 64, form);
    ValueOfDigit(z % 64, form);
    assert [x, y, z][..1] == [x] && [x, y, z][..2] == [x, y];
  }

  lemma DecodeQuantaStep(head: Str, rest: Str, form: Form)
    requires |head| == 4 && PAD !in head
    requires Unquad(head, form).Some? && DecodeQuanta(rest, form).Some?
    ensures DecodeQuanta(head + rest, form) == Some(Unquad(head, form).value + DecodeQuanta(rest, form).value)
  {
    assert (head + rest)[..4] == head && (head + rest)[4..] == rest;
    assert (head + rest)[3] in head;
  }

  lemma DecodeEncodeOne(x: byte, form: Form)
    ensures DecodeQuanta(Encode([x], form), form) == Some([x])
  {
    var head := Quad(x, 0, 0, form)[..2];
    UnquadQuad(x, 0, 0, form);
    assert Encode([x], form)[..2] == head;
    assert form.RawUrl? ==> Encode([x], form) == head;
  }

  lemma DecodeEncodeTwo(x: byte, y: byte, form: Form)
    ensures DecodeQuanta(Encode([x, y], form), form) == Some([x, y])
  {
    var head := Quad(x, y, 0, form)[..3];
    UnquadQuad(x, y, 0, form);
    assert Encode([x, y], form)[..3] == head;
    assert form.RawUrl? ==> Encode([x, y], form) == head;
  }

  lemma {:induction false} DecodeQuantaEncode(b: Bytes, form: Form)
    ensures DecodeQuanta(Encode(b, form), form) == Some(b)
  {
    if |b| == 1 {
      DecodeEncodeOne(b[0], form);
      assert b == [b[0]];
    } else if |b| == 2 {
      DecodeEncodeTwo(b[0], b[1], form);
      assert b == [b[0], b[1]];
    } else if |b| >= 3 {
      hide Quad;
      hide Unquad;
      DecodeQuantaEncode(b[3..], form);
      var head := Quad(b[0], b[1], b[2], form);
      assert Unquad(head, form) == Some([b[0], b[1], b[2]]) by {
        UnquadQuad(b[0], b[1], b[2], form);
      }
      DecodeQuantaStep(head, Encode(b[3..], form), form);
      assert b == [b[0], b[1], b[2]] + b[3..];
    }
  }

  /** Decoding inverts encoding for every byte string, in both forms. */
  lemma DecodeEncode(b: Bytes, form: Form)
    ensures Decode(Encode(b, form), form) == Some(b)
  {
    EncodedCharacters(b, form);
    StripKeeps(Encode(b, form));
    DecodeQuantaEncode(b, form);
  }

  /** Padded text that decodes consists of whole quanta. */
  lemma {:induction false} DecodedIsWholeQuanta(s: Str)
    requires DecodeQuanta(s, Std).Some?
    ensures exists n: nat :: |s| == 4 * n
  {
    if |s| == 0 {
      assert |s| == 4 * 0;
    } else if |s| == 4 {
      assert |s| == 4 * 1;
    } else {
      DecodedIsWholeQuanta(s[4..]);
      var n: nat :| |s[4..]| == 4 * n;
      assert |s| == 4 * (n + 1);
    }
  }

  /** Text that decodes consists of digits, with padding in the standard form only and only among the
      last two characters. */
  lemma {:induction false} DecodableDigits(s: Str, form: Form)
    requires DecodeQuanta(s, form).Some?
    ensures forall i | 0 <= i < |s| ::
              Value(s[i], form).Some? || (form.Std? && s[i] == PAD && i >= |s| - 2)
  {
    hide Value;
    if |s| > 4 || (|s| == 4 && s[3] != PAD) || (form.RawUrl? && |s| == 4) {
      DecodableDigits(s[4..], form);
      assert forall i | 4 <= i < |s| :: s[i] == s[4..][i - 4];
    }
  }

  /** Unpadded text that decodes has no single digit left over, and gives three bytes for four digits. */
  lemma {:induction false} RawLength(s: Str)
    requires DecodeQuanta(s, RawUrl).Some?
    ensures |s| % 4 != 1 && |DecodeQuanta(s, RawUrl).value| == |s| * 3 / 4
  {
    hide Unquad;
    hide Tail;
    if |s| >= 4 {
      RawLength(s[4..]);
      assert |s[4..]| == |s| - 4;
    }
  }

  lemma {:induction false} StripKeepsCharacters(s: Str)
    ensures forall c | c in s :: c in Strip(s) || c == CR || c == LF
  {
    if |s| > 0 {
      StripKeepsCharacters(s[1..]);
      assert forall c | c in s :: c == s[0] || c in s[1..];
    }
  }

  /** Text that decodes is ASCII throughout. */
  lemma DecodableIsAscii(s: Str)
    requires Decode(s, Std).Some?
    ensures forall c | c in s :: c < 128
  {
    DecodableDigits(Strip(s), Std);
    StripKeepsCharacters(s);
  }
}
