/** Go's time arithmetic, with the wrap-around and saturation of its 64-bit integers.

    A Time is the number of nanoseconds since the Unix epoch; Go stores it as whole seconds since
    year 1 in an int64 and a nanosecond part, which Sec and Nsec recover. */
module GoTime {

  type Time = int
  type Duration = int64
  type int64 = x: int | -0x8000_0000_0000_0000 <= x < 0x8000_0000_0000_0000

  const MAX_INT64: int64 := 0x7fff_ffff_ffff_ffff
  const MIN_INT64: int64 := -0x8000_0000_0000_0000
  const SECOND: int := 1_000_000_000
  const UNIX_TO_INTERNAL: int := 62_135_596_800

  function Wrap64(x: int): int64 {
    (x + 0x8000_0000_0000_0000) % 0x1_0000_0000_0000_0000 - 0x8000_0000_0000_0000
  }

  function Sec(t: Time): int { t / 1_000_000_000 + 62_135_596_800 }

  function Nsec(t: Time): int { t % 1_000_000_000 }

  function FromParts(sec: int, nsec: int): Time { (sec - 62_135_596_800) * 1_000_000_000 + nsec }

  /** Times that Go can represent. */
  predicate Representable(t: Time) {
    MIN_INT64 <= Sec(t) <= MAX_INT64
  }

  /** Clock readings from 1970 up to the year 2116. */
  predicate PresentDay(t: Time) {
    0 <= t < 0x4000_0000_0000_0000
  }

  /** time.Unix(sec, 0): the shift to year 1 wraps for extreme seconds. */
  function Unix(sec: int64): Time {
    FromParts(Wrap64(sec + 62_135_596_800), 0)
  }

  /** The seconds part of t.Unix(). */
  function UnixSec(t: Time): int { t / 1_000_000_000 }

  /** Time.addSec: saturates instead of wrapping. */
  function AddSec(sec: int, dsec: int): int {
    var sum := Wrap64(sec + dsec);
    if (sum > sec) == (dsec > 0) then sum
    else if dsec > 0 then 0x7fff_ffff_ffff_ffff
    else -0x7fff_ffff_ffff_ffff
  }

  /** Go's d / time.Second, which truncates toward zero. */
  function WholeSeconds(d: int): int {
    if d >= 0 then d / 1_000_000_000 else -((-d) / 1_000_000_000)
  }

  /** Time.Add: division and remainder truncate toward zero, then the nanoseconds are carried. */
  function Add(t: Time, d: Duration): Time {
    var dsec := WholeSeconds(d);
    var nsec := Nsec(t) + (d - dsec * 1_000_000_000);
    if nsec >= 1_000_000_000 then FromParts(AddSec(Sec(t), dsec + 1), nsec - 1_000_000_000)
    else if nsec < 0 then FromParts(AddSec(Sec(t), dsec - 1), nsec + 1_000_000_000)
    else FromParts(AddSec(Sec(t), dsec), nsec)
  }

  /** Time.Sub as Go computes it: with wrap-around, checked by adding back, saturating if wrong. */
  function CheckedSub(t: Time, u: Time): Duration {
    var d := Wrap64(Wrap64(Wrap64(Sec(t) - Sec(u)) * 1_000_000_000) + (Nsec(t) - Nsec(u)));
    if Add(u, d) == t then d
    else if t < u then MIN_INT64
    else MAX_INT64
  }

  /** What Time.Sub means: the true difference, clamped to the int64 range. */
  function Sub(t: Time, u: Time): Duration {
    if t - u < MIN_INT64 then MIN_INT64 else if t - u > MAX_INT64 then MAX_INT64 else t - u
  }

  lemma WrapShift(x: int, m: int)
    ensures Wrap64(x + 0x1_0000_0000_0000_0000 * m) == Wrap64(x)
  {
    var y := x + 0x8000_0000_0000_0000;
    var q, r := y / 0x1_0000_0000_0000_0000, y % 0x1_0000_0000_0000_0000;
    assert y + 0x1_0000_0000_0000_0000 * m == 0x1_0000_0000_0000_0000 * (q + m) + r;
  }

  lemma WrapWitness(x: int) returns (m: int)
    ensures Wrap64(x) == x + 0x1_0000_0000_0000_0000 * m
  {
    m := -((x + 0x8000_0000_0000_0000) / 0x1_0000_0000_0000_0000);
  }

  /** The wrapped computation inside CheckedSub wraps the true difference once. */
  lemma WrappedDifference(t: Time, u: Time)
    ensures Wrap64(Wrap64(Wrap64(Sec(t) - Sec(u)) * 1_000_000_000) + (Nsec(t) - Nsec(u))) == Wrap64(t - u)
  {
    var ds, dn := Sec(t) - Sec(u), Nsec(t) - Nsec(u);
    var m := WrapWitness(ds);
    var n := WrapWitness(Wrap64(ds) * 1_000_000_000);
    assert t - u == ds * 1_000_000_000 + dn;
    WrapShift(t - u, m * 1_000_000_000 + n);
  }

  lemma WholeSecondsBounds(d: Duration)
    ensures -1_000_000_000 < d - WholeSeconds(d) * 1_000_000_000 < 1_000_000_000
    ensures -9_300_000_000 < WholeSeconds(d) < 9_300_000_000
  {
  }

  /** addSec is exact inside the int64 range and ends at one of its ends outside. */
  lemma AddSecExactOrExtreme(sec: int64, dsec: int)
    requires -9_300_000_001 <= dsec <= 9_300_000_001
    ensures MIN_INT64 <= sec + dsec <= MAX_INT64 ==> AddSec(sec, dsec) == sec + dsec
    ensures sec + dsec > MAX_INT64 ==> AddSec(sec, dsec) == MAX_INT64
    ensures sec + dsec < MIN_INT64 ==> AddSec(sec, dsec) == MIN_INT64 + 1
  {
  }

  lemma PartsOfSum(u: Time, sec: int, nsec: int)
    requires 0 <= nsec < 1_000_000_000
    ensures Sec(FromParts(sec, nsec)) == sec && Nsec(FromParts(sec, nsec)) == nsec
    ensures u == FromParts(Sec(u), Nsec(u)) && 0 <= Nsec(u) < 1_000_000_000
  {
  }

  /** Adding a duration is exact unless the seconds saturate at an end of the int64 range. */
  lemma AddExactOrExtreme(u: Time, d: Duration)
    requires Representable(u)
    ensures Representable(u + d) ==> Add(u, d) == u + d
    ensures Sec(u + d) > MAX_INT64 ==> Sec(Add(u, d)) == MAX_INT64
    ensures Sec(u + d) < MIN_INT64 ==> Sec(Add(u, d)) == MIN_INT64 + 1
  {
    var dsec := WholeSeconds(d);
    var rem := d - dsec * 1_000_000_000;
    WholeSecondsBounds(d);
    PartsOfSum(u, 0, 0);
    var nsec := Nsec(u) + rem;
    var carry := if nsec >= 1_000_000_000 then 1 else if nsec < 0 then -1 else 0;
    var left := nsec - carry * 1_000_000_000;
    assert 0 <= left < 1_000_000_000;
    var sum := AddSec(Sec(u), dsec + carry);
    assert Add(u, d) == FromParts(sum, left);
    assert u + d == FromParts(Sec(u) + dsec + carry, left);
    PartsOfSum(u, sum, left);
    PartsOfSum(u, Sec(u) + dsec + carry, left);
    AddSecExactOrExtreme(Sec(u), dsec + carry);
  }

  lemma WrapIsIdentity(x: int)
    ensures Wrap64(x) == x <==> MIN_INT64 <= x <= MAX_INT64
  {
  }

  /** The check by adding back succeeds exactly when the true difference fits. */
  lemma AddBackCheck(t: Time, u: Time)
    requires Representable(t) && Representable(u)
    ensures Add(u, Wrap64(t - u)) == t <==> MIN_INT64 <= t - u <= MAX_INT64
  {
    hide Wrap64;
    hide Add;
    var d := Wrap64(t - u);
    WrapIsIdentity(t - u);
    AddExactOrExtreme(u, d);
    if t - u > MAX_INT64 {
      assert d < t - u;
    } else if t - u < MIN_INT64 {
      assert d > t - u;
    }
  }

  /** Go's computation gives the clamped true difference, for all times it can represent. */
  lemma CheckedSubIsSub(t: Time, u: Time)
    requires Representable(t) && Representable(u)
    ensures CheckedSub(t, u) == Sub(t, u)
  {
    hide Wrap64;
    hide Add;
    WrappedDifference(t, u);
    WrapIsIdentity(t - u);
    AddBackCheck(t, u);
  }

  lemma UnixIsRepresentable(sec: int64)
    ensures Representable(Unix(sec))
    ensures sec + UNIX_TO_INTERNAL <= MAX_INT64 ==> Unix(sec) == sec * SECOND
    ensures sec + UNIX_TO_INTERNAL > MAX_INT64 ==> Unix(sec) < -0x7000_0000_0000_0000 * SECOND
  {
  }
}
