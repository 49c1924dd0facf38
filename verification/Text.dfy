/** Bytes, Go strings and the few facts about them that every other module uses. */
module Text {

  type byte = x: int | 0 <= x < 256

  type Bytes = seq<byte>

  /** A Go string is an arbitrary sequence of bytes. */
  type Str = Bytes

  datatype Option<+T> = None | Some(value: T)

  const LF: byte := 10
  const CR: byte := 13

  /** The bytes of an ASCII literal. */
  function Ascii(s: string): Str {
    seq(|s|, i requires 0 <= i < |s| => (s[i] as int) % 256)
  }

  predicate HasPrefix(s: Str, prefix: Str) {
    prefix <= s
  }

  /** Cutting at the first occurrence of a separator is unambiguous. */
  lemma {:induction false} CutUnique(a: Str, b: Str, sep: byte, r: Str, s: Str)
    requires sep !in a && sep !in b
    requires a + [sep] + r == b + [sep] + s
    ensures a == b && r == s
  {
    var whole := a + [sep] + r;
    assert whole[|a|] == sep && whole[|b|] == sep;
    if |a| < |b| {
      assert false;
    }
    if |b| < |a| {
      assert false;
    }
    assert a == whole[..|a|] == b;
    assert r == whole[|a| + 1..] == s;
  }
}
