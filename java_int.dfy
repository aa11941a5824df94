/** Java's fixed-width integer arithmetic: 32- and 64-bit two's-complement wrap-around and
    division that truncates toward zero. */
module JavaInt {
  const INT_MIN: int := -0x8000_0000
  const INT_MAX: int := 0x7FFF_FFFF
  const LONG_MIN: int := -0x8000_0000_0000_0000
  const LONG_MAX: int := 0x7FFF_FFFF_FFFF_FFFF

  predicate IsInt(x: int) { INT_MIN <= x <= INT_MAX }
  predicate IsLong(x: int) { LONG_MIN <= x <= LONG_MAX }

  /** The `int` that an exact result wraps to (also the `(int)` cast of a `long`). */
  function Wrap32(x: int): (r: int)
    ensures IsInt(r)
    ensures IsInt(x) ==> r == x
    ensures (r - x) % 0x1_0000_0000 == 0
  {
    var m := (x - INT_MIN) % 0x1_0000_0000;
    m + INT_MIN
  }

  /** The `long` that an exact result wraps to. */
  function Wrap64(x: int): (r: int)
    ensures IsLong(r)
    ensures IsLong(x) ==> r == x
    ensures (r - x) % 0x1_0000_0000_0000_0000 == 0
  {
    var m := (x - LONG_MIN) % 0x1_0000_0000_0000_0000;
    m + LONG_MIN
  }

  /** Exact division rounded toward zero, as Java's `/` computes it before any wrap. */
  function TruncDiv(a: int, b: int): (q: int)
    requires b != 0
    ensures a >= 0 && b > 0 ==> q == a / b
  {
    var q := (if a >= 0 then a else -a) / (if b >= 0 then b else -b);
    if (a >= 0) == (b > 0) then q else -q
  }

  /** Java `int` division: truncating, and `INT_MIN / -1` overflows back to `INT_MIN`. */
  function IntDiv(a: int, b: int): (q: int)
    requires IsInt(a) && IsInt(b) && b != 0
    ensures IsInt(q)
    ensures !(a == INT_MIN && b == -1) ==> q == TruncDiv(a, b)
  {
    TruncDivBound(a, b);
    Wrap32(TruncDiv(a, b))
  }

  /** Java `long` division. */
  function LongDiv(a: int, b: int): (q: int)
    requires IsLong(a) && IsLong(b) && b != 0
    ensures IsLong(q)
    ensures !(a == LONG_MIN && b == -1) ==> q == TruncDiv(a, b)
  {
    TruncDivBound(a, b);
    Wrap64(TruncDiv(a, b))
  }

  /** The quotient is no larger in size than the dividend. */
  lemma TruncDivBound(a: int, b: int)
    requires b != 0
    ensures -(if a >= 0 then a else -a) <= TruncDiv(a, b) <= (if a >= 0 then a else -a)
  {
    var n := if a >= 0 then a else -a;
    var d := if b >= 0 then b else -b;
    DivAtMost(n, d);
  }

  lemma DivAtMost(n: nat, d: int)
    requires d >= 1
    ensures 0 <= n / d <= n
  {
    MulAtLeast(n / d, d);
  }

  lemma MulAtLeast(q: int, d: int)
    requires q >= 0 && d >= 1
    ensures q * d >= q
  {
    assert q * d == q * (d - 1) + q;
  }
}
