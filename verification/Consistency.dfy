/** The laws assumed of the library code can hold together: a toy suite obeys them all. */
module Consistency {
  import opened Text
  import opened Wire
  import opened Primitives

  const SEPARATOR: byte := 255

  function Join(fields: seq<Str>): Str {
    if |fields| == 0 then [] else fields[0] + [SEPARATOR] + Join(fields[1..])
  }

  predicate Separable(fields: seq<Str>) {
    forall f | f in fields :: SEPARATOR !in f
  }

  lemma {:induction false} JoinIsInjective(f: seq<Str>, g: seq<Str>)
    requires |f| == |g| && Separable(f) && Separable(g) && Join(f) == Join(g)
    ensures f == g
  {
    if |f| > 0 {
      assert f[0] in f && g[0] in g;
      CutUnique(f[0], g[0], SEPARATOR, Join(f[1..]), Join(g[1..]));
      JoinIsInjective(f[1..], g[1..]);
      assert f == [f[0]] + f[1..] && g == [g[0]] + g[1..];
    }
  }

  function Flag(b: Option<bool>): Str {
    match b
    case None => []
    case Some(v) => if v then [1] else [0]
  }

  function Number(n: int): Str {
    if n >= 0 then seq(n, _ => 1) else seq(-n, _ => 2)
  }

  function Fields(p: Payload): seq<Str> {
    [p.kind, p.nonce, Number(p.ts), Flag(p.locked), p.machine, p.os, Flag(p.ok), p.error, p.pubKey, p.mac]
  }

  predicate Plain(p: Payload) {
    && IsAscii(p.kind) && IsAscii(p.nonce) && IsAscii(p.machine) && IsAscii(p.os)
    && IsAscii(p.error) && IsAscii(p.pubKey) && IsAscii(p.mac)
  }

  function ToyEncode(p: Payload): Str {
    [OPEN_BRACE] + Join(Fields(p))
  }

  lemma NumberIsInjective(m: int, n: int)
    requires Number(m) == Number(n)
    ensures m == n
  {
    assert |Number(m)| == |Number(n)|;
    if m != 0 {
      assert Number(m)[0] == Number(n)[0];
    }
  }

  lemma ToyEncodeIsInjective(p: Payload, q: Payload)
    requires Plain(p) && Plain(q) && ToyEncode(p) == ToyEncode(q)
    ensures p == q
  {
    hide Join;
    assert Join(Fields(p)) == ToyEncode(p)[1..] == ToyEncode(q)[1..];
    JoinIsInjective(Fields(p), Fields(q));
    var f, g := Fields(p), Fields(q);
    assert f[0] == g[0] && f[1] == g[1] && f[2] == g[2] && f[3] == g[3] && f[4] == g[4];
    assert f[5] == g[5] && f[6] == g[6] && f[7] == g[7] && f[8] == g[8] && f[9] == g[9];
    NumberIsInjective(p.ts, q.ts);
  }

  ghost function ToyDecode(s: Str): Option<Payload> {
    if exists p: Payload :: Plain(p) && ToyEncode(p) == s then
      var p: Payload :| Plain(p) && ToyEncode(p) == s;
      Some(p)
    else None
  }

  function ToyCode(relay: Str, agent: Str, secret: Str): Str {
    Join([relay, agent, secret])
  }

  ghost function ToyCodeFields(s: Str): Option<(Str, Str, Str)> {
    if exists r: Str, a: Str, x: Str :: IsAscii(r) && IsAscii(a) && IsAscii(x) && ToyCode(r, a, x) == s then
      var r: Str, a: Str, x: Str :| IsAscii(r) && IsAscii(a) && IsAscii(x) && ToyCode(r, a, x) == s;
      Some((r, a, x))
    else None
  }

  lemma ToyCodeRoundTrip(r: Str, a: Str, x: Str)
    requires IsAscii(r) && IsAscii(a) && IsAscii(x)
    ensures ToyCodeFields(ToyCode(r, a, x)) == Some((r, a, x))
  {
    var (r', a', x') := ToyCodeFields(ToyCode(r, a, x)).value;
    assert ToyCode(r', a', x') == ToyCode(r, a, x);
    var f, g := [r, a, x], [r', a', x'];
    JoinIsInjective(f, g);
    assert f[0] == g[0] && f[1] == g[1] && f[2] == g[2];
  }

  lemma ToyJsonRoundTrip(p: Payload)
    requires Plain(p)
    ensures ToyDecode(ToyEncode(p)) == Some(p)
  {
    ToyEncodeIsInjective(p, ToyDecode(ToyEncode(p)).value);
  }

  ghost function ToySuite(): Suite {
    Suite(
      (k: Bytes, m: Bytes) => seq(32, _ => 0),
      (m: Bytes, n: BoxNonce, p: Key, s: Key) => m,
      (b: Bytes, n: BoxNonce, p: Key, s: Key) => Some(b),
      (k: Key) => k,
      (p: Payload) => ToyEncode(p),
      (s: Str) => ToyDecode(s),
      (s: Str) => IsAscii(s),
      (s: Str) => s,
      (r: Str, a: Str, x: Str) => ToyCode(r, a, x),
      (s: Str) => ToyCodeFields(s))
  }

  /** No theorem about lawful suites is empty. */
  lemma LawsHoldTogether()
    ensures Lawful(ToySuite())
  {
    var c := ToySuite();
    forall p: Payload | Textual(c, p)
      ensures c.decode(c.encode(p)) == Some(p)
    {
      ToyJsonRoundTrip(p);
    }
    forall r: Str, a: Str, x: Str | c.isText(r) && c.isText(a) && c.isText(x)
      ensures c.codeFields(c.codeJson(r, a, x)) == Some((r, a, x))
    {
      ToyCodeRoundTrip(r, a, x);
    }
  }
}
