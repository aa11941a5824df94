/** `NumberUtil`: number-string validators, and `BigDecimal` arithmetic that rounds HALF_UP to
    two decimals. A decimal is an unscaled integer and a scale: `Decimal(u, s)` stands for
    u / 10^s. */
module NumberUtil {
  import opened Wrappers
  import opened Text

  // ---------------------------------------------------------------------------------------
  // Validators

  /** The longest prefix of `t` made of digits. */
  function DigitRun(t: string): (n: nat)
    ensures n <= |t| && AllDigits(t[..n])
    ensures n < |t| ==> !IsDigit(t[n])
  {
    if t == [] || !IsDigit(t[0]) then 0
    else
      var n := 1 + DigitRun(t[1..]);
      assert forall i :: 1 <= i < n ==> t[..n][i] == t[1..][..n - 1][i - 1];
      n
  }

  /** The matcher of `^(\-|\+)?\d+(\.\d+)?$`: an optional sign, a run of digits, then either
      the end or a '.' followed by digits only. */
  predicate MatchesNumber(t: string)
  {
    var i := if t != [] && (t[0] == '+' || t[0] == '-') then 1 else 0;
    var j := i + DigitRun(t[i..]);
    j > i && (j == |t| || (t[j] == '.' && j + 1 < |t| && AllDigits(t[j + 1..])))
  }

  /** The matcher of `^-?[0-9]\d*$`: an optional '-', then one or more digits. */
  predicate MatchesWholeNumber(t: string)
  {
    var i := if t != [] && t[0] == '-' then 1 else 0;
    |t| > i && AllDigits(t[i..])
  }

  /** The pieces of the two patterns. */
  predicate OptSign(p: string, signs: set<char>)
  {
    p == [] || (|p| == 1 && p[0] in signs)
  }

  predicate NonEmptyDigits(p: string)
  {
    p != [] && AllDigits(p)
  }

  predicate OptFraction(p: string)
  {
    p == [] || (p[0] == '.' && NonEmptyDigits(p[1..]))
  }

  /** The language of the number pattern: a sign part, a digits part and a fraction part. */
  ghost predicate NumberGrammar(t: string)
  {
    exists i, j :: 0 <= i <= j <= |t| && OptSign(t[..i], {'+', '-'}) && NonEmptyDigits(t[i..j]) && OptFraction(t[j..])
  }

  /** The language of the whole-number pattern. */
  ghost predicate WholeNumberGrammar(t: string)
  {
    exists i :: 0 <= i <= |t| && OptSign(t[..i], {'-'}) && NonEmptyDigits(t[i..])
  }

  /** The digit run ends where the first non-digit is. */
  lemma {:induction false} DigitRunStops(u: string, k: nat)
    requires k <= |u| && AllDigits(u[..k]) && (k < |u| ==> !IsDigit(u[k]))
    ensures DigitRun(u) == k
  {
    if k > 0 {
      assert u[..k][0] == u[0];
      assert u[1..][..k - 1] == u[..k][1..];
      DigitRunStops(u[1..], k - 1);
    }
  }

  /** What the number matcher accepts is in the pattern's language. */
  lemma MatchesNumberSound(t: string)
    requires MatchesNumber(t)
    ensures NumberGrammar(t)
  {
    var i := if t != [] && (t[0] == '+' || t[0] == '-') then 1 else 0;
    var j := i + DigitRun(t[i..]);
    assert t[i..][..j - i] == t[i..j];
    assert OptSign(t[..i], {'+', '-'}) && NonEmptyDigits(t[i..j]);
    if j < |t| {
      assert t[j..][1..] == t[j + 1..];
    }
    assert OptFraction(t[j..]);
  }

  /** Everything in the pattern's language is accepted by the number matcher. */
  lemma MatchesNumberComplete(t: string, i: nat, j: nat)
    requires i <= j <= |t| && OptSign(t[..i], {'+', '-'}) && NonEmptyDigits(t[i..j]) && OptFraction(t[j..])
    ensures MatchesNumber(t)
  {
    assert t[i..j][0] == t[i];
    assert i == (if t != [] && (t[0] == '+' || t[0] == '-') then 1 else 0) by {
      if i == 1 {
        assert t[..i][0] == t[0];
      }
    }
    assert t[i..][..j - i] == t[i..j];
    if j < |t| {
      assert t[j] == t[j..][0];
      assert t[i..][j - i] == t[j];
    }
    DigitRunStops(t[i..], j - i);
    if j < |t| {
      assert t[j..][1..] == t[j + 1..];
    }
  }

  /** The number matcher accepts exactly the pattern's language. */
  lemma MatchesNumberIff(t: string)
    ensures MatchesNumber(t) <==> NumberGrammar(t)
  {
    if MatchesNumber(t) {
      MatchesNumberSound(t);
    }
    if NumberGrammar(t) {
      var i, j :| 0 <= i <= j <= |t| && OptSign(t[..i], {'+', '-'}) && NonEmptyDigits(t[i..j]) && OptFraction(t[j..]);
      MatchesNumberComplete(t, i, j);
    }
  }

  /** The whole-number matcher accepts exactly the pattern's language. */
  lemma MatchesWholeNumberIff(t: string)
    ensures MatchesWholeNumber(t) <==> WholeNumberGrammar(t)
  {
    var i := if t != [] && t[0] == '-' then 1 else 0;
    if MatchesWholeNumber(t) {
      assert OptSign(t[..i], {'-'}) && NonEmptyDigits(t[i..]);
    }
    if WholeNumberGrammar(t) {
      var i' :| 0 <= i' <= |t| && OptSign(t[..i'], {'-'}) && NonEmptyDigits(t[i'..]);
      if i' == 1 {
        assert t[..i'][0] == t[0];
      } else {
        assert t[i'..][0] == t[0];
      }
    }
  }

  /** `isNumber`: false for null, else the trimmed text is in the number pattern's language. */
  function IsNumber(s: Option<string>): (r: bool)
    ensures r <==> s.Some? && NumberGrammar(Trim(s.value))
  {
    if s.None? then false
    else
      var t := Trim(s.value);
      MatchesNumberIff(t);
      MatchesNumber(t)
  }

  /** `isWholeNumber`: false for null, else the trimmed text is in the whole-number pattern's
      language. */
  function IsWholeNumber(s: Option<string>): (r: bool)
    ensures r <==> s.Some? && WholeNumberGrammar(Trim(s.value))
  {
    if s.None? then false
    else
      var t := Trim(s.value);
      MatchesWholeNumberIff(t);
      MatchesWholeNumber(t)
  }

  /** Every whole number is a number. */
  lemma WholeNumberIsNumber(s: Option<string>)
    requires IsWholeNumber(s)
    ensures IsNumber(s)
  {
    var t := Trim(s.value);
    var i :| 0 <= i <= |t| && OptSign(t[..i], {'-'}) && NonEmptyDigits(t[i..]);
    assert t[i..|t|] == t[i..];
    assert OptSign(t[..i], {'+', '-'}) && NonEmptyDigits(t[i..|t|]) && OptFraction(t[|t|..]);
  }

  /** '+' is a number's sign but not a whole number's. */
  lemma PlusIsNotWhole()
    ensures IsNumber(Some("+1")) && !IsWholeNumber(Some("+1"))
  {
    var t := "+1";
    assert Trim(t) == t by { TrimIdentity(t); }
    assert MatchesNumber(t);
    assert !MatchesWholeNumber(t);
    MatchesNumberIff(t);
    MatchesWholeNumberIff(t);
  }

  // ---------------------------------------------------------------------------------------
  // Rounding

  function Abs(x: int): nat
  {
    if x < 0 then -x else x
  }

  /** `r` is n / d rounded HALF_UP: within half a unit of it, and on a tie the one farther from
      zero. */
  predicate HalfUpRounds(n: int, d: int, r: int)
  {
    2 * Abs(r * d - n) <= Abs(d) && (2 * Abs(r * d - n) == Abs(d) ==> Abs(r * d) > Abs(n))
  }

  /** n / d rounded HALF_UP, computed on magnitudes as `BigDecimal` does. */
  function RoundHalfUp(n: int, d: int): (r: int)
    requires d != 0
    ensures HalfUpRounds(n, d, r)
  {
    var a := Abs(n);
    var b := Abs(d);
    var q := a / b;
    var rem := a % b;
    var m := q + (if 2 * rem >= b then 1 else 0);
    RoundHalfUpMagnitude(a, b, m);
    var r := if (n >= 0) == (d > 0) then m else -m;
    SignedProduct(n, d, r, m);
    r
  }

  /** On magnitudes: m is a / b rounded half up. */
  lemma RoundHalfUpMagnitude(a: nat, b: nat, m: int)
    requires b > 0 && m == a / b + (if 2 * (a % b) >= b then 1 else 0)
    ensures 2 * Abs(m * b - a) <= b && (2 * Abs(m * b - a) == b ==> m * b > a)
    ensures m >= 0
  {
    var q := a / b;
    var rem := a % b;
    assert a == q * b + rem;
    if 2 * rem >= b {
      assert m * b == q * b + b;
    }
  }

  /** Signs restored: the product and the error keep the magnitudes' sizes. */
  lemma SignedProduct(n: int, d: int, r: int, m: int)
    requires d != 0 && m >= 0 && r == (if (n >= 0) == (d > 0) then m else -m)
    ensures Abs(r * d - n) == Abs(m * Abs(d) - Abs(n)) && Abs(r * d) == m * Abs(d)
  {
    if d > 0 {
      if n >= 0 {
      } else {
        assert r * d == -(m * d);
      }
    } else {
      assert m * Abs(d) == -(m * d);
      if n >= 0 {
        assert r * d == -(m * d);
      } else {
        assert r * d == m * d;
      }
    }
  }

  /** |x·y| = |x|·|y| */
  lemma AbsMul(x: int, y: int)
    ensures Abs(x * y) == Abs(x) * Abs(y)
  {
    if x < 0 && y >= 0 { assert x * y == -((-x) * y); }
    if x >= 0 && y < 0 { assert x * y == -(x * (-y)); }
    if x < 0 && y < 0 { assert x * y == (-x) * (-y); }
  }

  /** Multiples of a positive d: a non-zero multiple is at least d away from zero. */
  lemma MulBounds(k: int, d: int)
    requires d > 0
    ensures k >= 1 ==> k * d >= d
    ensures k <= -1 ==> k * d <= -d
    ensures k == 0 ==> k * d == 0
  {
    if k >= 1 {
      assert k * d == (k - 1) * d + d;
    } else if k <= -1 {
      assert k * d == (k + 1) * d - d;
    }
  }

  /** With a positive divisor, two HALF_UP roundings of one quotient are ordered both ways. */
  lemma HalfUpOrdered(n: int, d: int, r1: int, r2: int)
    requires d > 0 && HalfUpRounds(n, d, r1) && HalfUpRounds(n, d, r2)
    ensures r1 >= r2
  {
    if r1 < r2 {
      var p1 := r1 * d;
      var p2 := r2 * d;
      MulBounds(r2 - r1, d);
      assert (r2 - r1) * d == p2 - p1;
      MulBounds(r1, d);
      MulBounds(r2, d);
      // both errors are half a unit, on opposite sides, so both are ties; with n >= 0 the
      // tie puts p1 in [-d/2, 0), with n < 0 it puts p2 in (0, d/2]: neither is a multiple of d
      assert false;
    }
  }

  /** Rounding n / d is rounding (-n) / (-d). */
  lemma HalfUpNegateBoth(n: int, d: int, r: int)
    requires HalfUpRounds(n, d, r)
    ensures HalfUpRounds(-n, -d, r)
  {
    assert r * -d == -(r * d);
  }

  /** HALF_UP rounding has exactly one answer, so `HalfUpRounds` specifies `RoundHalfUp`
      completely. */
  lemma HalfUpUnique(n: int, d: int, r1: int, r2: int)
    requires d != 0 && HalfUpRounds(n, d, r1) && HalfUpRounds(n, d, r2)
    ensures r1 == r2
  {
    if d > 0 {
      HalfUpOrdered(n, d, r1, r2);
      HalfUpOrdered(n, d, r2, r1);
    } else {
      HalfUpNegateBoth(n, d, r1);
      HalfUpNegateBoth(n, d, r2);
      HalfUpOrdered(-n, -d, r1, r2);
      HalfUpOrdered(-n, -d, r2, r1);
    }
  }

  /** A quotient that is exact is kept as it is. */
  lemma RoundHalfUpExact(q: int, d: int)
    requires d != 0
    ensures RoundHalfUp(q * d, d) == q
  {
    assert HalfUpRounds(q * d, d, q);
    HalfUpUnique(q * d, d, q, RoundHalfUp(q * d, d));
  }

  /** HALF_UP is symmetric about zero. */
  lemma RoundHalfUpNegate(n: int, d: int)
    requires d != 0
    ensures RoundHalfUp(-n, d) == -RoundHalfUp(n, d)
  {
    var r := RoundHalfUp(n, d);
    assert -r * d - -n == -(r * d - n);
    assert -r * d == -(r * d);
    assert HalfUpRounds(-n, d, -r);
    HalfUpUnique(-n, d, -r, RoundHalfUp(-n, d));
  }

  // ---------------------------------------------------------------------------------------
  // Decimals

  /** A `BigDecimal` of non-negative scale: unscaled / 10^scale. */
  datatype Decimal = Decimal(unscaled: int, scale: nat)

  /** `BigDecimal.ZERO`, of scale 0. */
  const ZERO: Decimal := Decimal(0, 0)

  /** A null argument read as zero. */
  function OrZero(b: Option<Decimal>): Decimal
  {
    if b.Some? then b.value else ZERO
  }

  lemma {:induction false} Pow10Add(a: nat, b: nat)
    ensures Pow10(a + b) == Pow10(a) * Pow10(b)
  {
    if a > 0 {
      Pow10Add(a - 1, b);
      assert Pow10(a + b) == 10 * Pow10(a - 1 + b);
    }
  }

  /** `setScale(2, HALF_UP)`: the value rounded HALF_UP to two decimals, at scale 2. */
  function SetScale2(b: Decimal): (r: Decimal)
    ensures r.scale == 2 && HalfUpRounds(b.unscaled * 100, Pow10(b.scale), r.unscaled)
  {
    Decimal(RoundHalfUp(b.unscaled * 100, Pow10(b.scale)), 2)
  }

  /** A value with at most two decimals keeps its value: only its scale changes. */
  lemma SetScale2Exact(b: Decimal)
    requires b.scale <= 2
    ensures SetScale2(b).unscaled == b.unscaled * Pow10(2 - b.scale)
  {
    var p := Pow10(b.scale);
    assert Pow10(2 - b.scale) * p == 100 by {
      Pow10Add(2 - b.scale, b.scale);
      assert Pow10(2) == 100;
    }
    assert b.unscaled * 100 == (b.unscaled * Pow10(2 - b.scale)) * p;
    RoundHalfUpExact(b.unscaled * Pow10(2 - b.scale), p);
  }

  /** The two examples the utility documents: 6.666 becomes 6.67 and -6.664 becomes -6.66. */
  lemma SetScale2Examples()
    ensures SetScale2(Decimal(6666, 3)) == Decimal(667, 2)
    ensures SetScale2(Decimal(-6664, 3)) == Decimal(-666, 2)
  {
    assert Pow10(3) == 1000;
    HalfUpUnique(666600, 1000, 667, SetScale2(Decimal(6666, 3)).unscaled);
    HalfUpUnique(-666400, 1000, -666, SetScale2(Decimal(-6664, 3)).unscaled);
  }

  /** `compareTo`: -1, 0 or 1 as a is below, equal to or above b, whatever their scales. */
  function Compare(a: Decimal, b: Decimal): (c: int)
    ensures -1 <= c <= 1
  {
    var x := a.unscaled * Pow10(b.scale);
    var y := b.unscaled * Pow10(a.scale);
    if x < y then -1 else if x == y then 0 else 1
  }

  /** Comparison is antisymmetric. */
  lemma CompareAntisymmetric(a: Decimal, b: Decimal)
    ensures Compare(b, a) == -Compare(a, b)
  {
  }

  /** Trailing zeros do not change a value: 2.0 compares equal to 2.00. */
  lemma CompareIgnoresScale(a: Decimal, k: nat)
    ensures Compare(a, Decimal(a.unscaled * Pow10(k), a.scale + k)) == 0
  {
    var b := Decimal(a.unscaled * Pow10(k), a.scale + k);
    var p := Pow10(a.scale);
    var q := Pow10(k);
    var pq := Pow10(a.scale + k);
    Pow10Add(a.scale, k);
    MulRearrange(a.unscaled, p, q, pq);
    assert a.unscaled * pq == b.unscaled * p;
  }

  lemma MulRearrange(u: int, p: int, q: int, pq: int)
    requires pq == p * q
    ensures u * pq == (u * q) * p
  {
  }

  /** Comparing with zero reads the sign of the unscaled value. */
  lemma CompareWithZero(b: Decimal)
    ensures Compare(ZERO, b) == (if b.unscaled > 0 then -1 else if b.unscaled == 0 then 0 else 1)
    ensures Compare(b, ZERO) == -Compare(ZERO, b)
  {
    assert Pow10(0) == 1;
  }

  /** `biggerThanZero`: false for null. */
  predicate BiggerThanZero(b: Option<Decimal>)
    ensures BiggerThanZero(b) <==> b.Some? && b.value.unscaled > 0
  {
    match b
    case None => false
    case Some(v) => CompareWithZero(v); Compare(ZERO, v) < 0
  }

  /** `smallerThanZero`: false for null. */
  predicate SmallerThanZero(b: Option<Decimal>)
    ensures SmallerThanZero(b) <==> b.Some? && b.value.unscaled < 0
  {
    match b
    case None => false
    case Some(v) => CompareWithZero(v); Compare(ZERO, v) > 0
  }

  /** `isZero`: true for null. */
  predicate IsZero(b: Option<Decimal>)
    ensures IsZero(b) <==> b.None? || b.value.unscaled == 0
  {
    match b
    case None => true
    case Some(v) => CompareWithZero(v); Compare(ZERO, v) == 0
  }

  /** `isSameValue`: nulls read as zero; equal values at different scales are the same. */
  predicate IsSameValue(b1: Option<Decimal>, b2: Option<Decimal>)
    ensures b2.None? ==> (IsSameValue(b1, b2) <==> IsZero(b1))
    ensures b1.None? ==> (IsSameValue(b1, b2) <==> IsZero(b2))
  {
    CompareWithZero(OrZero(b1));
    CompareWithZero(OrZero(b2));
    Compare(OrZero(b1), OrZero(b2)) == 0
  }

  /** `isSameValue` does not depend on the order of its arguments. */
  lemma IsSameValueSymmetric(b1: Option<Decimal>, b2: Option<Decimal>)
    ensures IsSameValue(b1, b2) == IsSameValue(b2, b1)
  {
    CompareAntisymmetric(OrZero(b1), OrZero(b2));
  }

  /** `isOrSmallerZero`: null reads as zero, so it is exactly "not bigger than zero". */
  predicate IsOrSmallerZero(b: Option<Decimal>)
    ensures IsOrSmallerZero(b) <==> !BiggerThanZero(b)
  {
    CompareWithZero(OrZero(b));
    Compare(OrZero(b), ZERO) <= 0
  }

  /** `isOrBiggerZero`: null reads as zero, so it is exactly "not smaller than zero". */
  predicate IsOrBiggerZero(b: Option<Decimal>)
    ensures IsOrBiggerZero(b) <==> !SmallerThanZero(b)
  {
    CompareWithZero(OrZero(b));
    Compare(OrZero(b), ZERO) >= 0
  }

  /** Every argument, null included, is exactly one of positive, negative and zero. */
  lemma SignTrichotomy(b: Option<Decimal>)
    ensures BiggerThanZero(b) || SmallerThanZero(b) || IsZero(b)
    ensures !(BiggerThanZero(b) && SmallerThanZero(b))
    ensures !(BiggerThanZero(b) && IsZero(b)) && !(SmallerThanZero(b) && IsZero(b))
  {
  }

  /** `multiply`: zero (at scale 0) when either factor is null or zero, else the exact product
      rounded HALF_UP to two decimals. */
  function Multiply(b1: Option<Decimal>, b2: Option<Decimal>): (r: Decimal)
    ensures IsZero(b1) || IsZero(b2) ==> r == ZERO
    ensures !IsZero(b1) && !IsZero(b2) ==> (r.scale == 2 &&
      HalfUpRounds(b1.value.unscaled * b2.value.unscaled * 100, Pow10(b1.value.scale + b2.value.scale), r.unscaled))
  {
    if b1.None? || b2.None? || Compare(ZERO, b1.value) == 0 || Compare(ZERO, b2.value) == 0 then ZERO
    else SetScale2(Decimal(b1.value.unscaled * b2.value.unscaled, b1.value.scale + b2.value.scale))
  }

  /** Multiplying by 1 rounds the other factor to two decimals. */
  lemma MultiplyByOne(b: Decimal)
    requires b.unscaled != 0
    ensures Multiply(Some(b), Some(Decimal(1, 0))) == SetScale2(b)
  {
    CompareWithZero(b);
    CompareWithZero(Decimal(1, 0));
  }

  /** `divide`: null for a null or zero divisor; a null dividend reads as zero; otherwise the
      exact quotient rounded HALF_UP to two decimals. */
  function Divide(b1: Option<Decimal>, b2: Option<Decimal>): (r: Option<Decimal>)
    ensures r.None? <==> IsZero(b2)
    ensures r.Some? ==> (r.value.scale == 2 && HalfUpRounds(OrZero(b1).unscaled * Pow10(b2.value.scale) * 100,
      b2.value.unscaled * Pow10(OrZero(b1).scale), r.value.unscaled))
  {
    if b2.None? || Compare(ZERO, b2.value) == 0 then None
    else
      var a := OrZero(b1);
      var b := b2.value;
      Some(Decimal(RoundHalfUp(a.unscaled * Pow10(b.scale) * 100, b.unscaled * Pow10(a.scale)), 2))
  }

  /** A non-zero value divided by itself is 1.00. */
  lemma DivideBySelf(b: Decimal)
    requires b.unscaled != 0
    ensures Divide(Some(b), Some(b)) == Some(Decimal(100, 2))
  {
    var d := b.unscaled * Pow10(b.scale);
    assert d != 0;
    assert b.unscaled * Pow10(b.scale) * 100 == 100 * d;
    RoundHalfUpExact(100, d);
  }

  /** Zero, or a null dividend, divided by anything non-zero is 0.00. */
  lemma DivideZero(b: Decimal)
    requires b.unscaled != 0
    ensures Divide(None, Some(b)) == Some(Decimal(0, 2))
  {
    RoundHalfUpExact(0, b.unscaled * Pow10(0));
  }

  /** `opposite`: zero (at scale 0) for null, else the negated value rounded HALF_UP to two
      decimals. */
  function Opposite(b: Option<Decimal>): (r: Decimal)
    ensures b.None? ==> r == ZERO
    ensures b.Some? ==> r.scale == 2 && HalfUpRounds(-b.value.unscaled * 100, Pow10(b.value.scale), r.unscaled)
  {
    if b.None? then ZERO
    else SetScale2(Decimal(b.value.unscaled * -1, b.value.scale))
  }

  /** `scale`: zero (at scale 0) for null, else the value rounded HALF_UP to two decimals. */
  function Scale(b: Option<Decimal>): (r: Decimal)
    ensures b.None? ==> r == ZERO
    ensures b.Some? ==> r.scale == 2 && HalfUpRounds(b.value.unscaled * 100, Pow10(b.value.scale), r.unscaled)
  {
    if b.None? then ZERO else SetScale2(b.value)
  }

  /** Since HALF_UP is symmetric, `opposite` is `scale` with the sign flipped. */
  lemma OppositeIsNegatedScale(b: Decimal)
    ensures Opposite(Some(b)) == Decimal(-Scale(Some(b)).unscaled, 2)
  {
    assert b.unscaled * -1 * 100 == -(b.unscaled * 100);
    RoundHalfUpNegate(b.unscaled * 100, Pow10(b.scale));
  }

  /** Scaling twice is scaling once. */
  lemma ScaleIdempotent(b: Decimal)
    ensures Scale(Some(Scale(Some(b)))) == Scale(Some(b))
  {
    var s := Scale(Some(b));
    SetScale2Exact(s);
    assert Pow10(0) == 1;
  }

  /** `BigDecimal.add`: exact, at the larger of the two scales. */
  function DecAdd(x: Decimal, y: Decimal): Decimal
  {
    var m := if x.scale < y.scale then y.scale else x.scale;
    Decimal(x.unscaled * Pow10(m - x.scale) + y.unscaled * Pow10(m - y.scale), m)
  }

  /** A value written at a scale k at least its own. */
  function Scaled(x: Decimal, k: nat): int
    requires x.scale <= k
  {
    x.unscaled * Pow10(k - x.scale)
  }

  /** Writing at scale m, then at scale k, is writing at scale k. */
  lemma ScaledTwice(x: Decimal, m: nat, k: nat)
    requires x.scale <= m <= k
    ensures x.unscaled * Pow10(m - x.scale) * Pow10(k - m) == Scaled(x, k)
  {
    var p := Pow10(m - x.scale);
    var q := Pow10(k - m);
    Pow10Add(m - x.scale, k - m);
    assert x.unscaled * p * q == x.unscaled * (p * q);
  }

  /** Addition loses nothing: at any common scale the sum's unscaled value is the sum of the
      operands'. */
  lemma AddExact(x: Decimal, y: Decimal, k: nat)
    requires x.scale <= k && y.scale <= k
    ensures DecAdd(x, y).scale <= k
    ensures Scaled(DecAdd(x, y), k) == Scaled(x, k) + Scaled(y, k)
  {
    var m := DecAdd(x, y).scale;
    var a := x.unscaled * Pow10(m - x.scale);
    var b := y.unscaled * Pow10(m - y.scale);
    var q := Pow10(k - m);
    ScaledTwice(x, m, k);
    ScaledTwice(y, m, k);
    assert Scaled(DecAdd(x, y), k) == (a + b) * q;
    Distribute(a, b, q);
  }

  lemma Distribute(a: int, b: int, q: int)
    ensures (a + b) * q == a * q + b * q
  {
  }

  /** The running total `add` accumulates, from zero, left to right. */
  function Total(xs: seq<Decimal>): Decimal
  {
    if xs == [] then ZERO else DecAdd(Total(xs[..|xs| - 1]), xs[|xs| - 1])
  }

  /** The sum of the operands written at scale k. */
  function SumAt(xs: seq<Decimal>, k: nat): int
    requires forall i :: 0 <= i < |xs| ==> xs[i].scale <= k
  {
    if xs == [] then 0 else SumAt(xs[..|xs| - 1], k) + Scaled(xs[|xs| - 1], k)
  }

  /** The running total is the exact sum, at a scale no larger than any common scale. */
  lemma {:induction false} TotalIsSum(xs: seq<Decimal>, k: nat)
    requires forall i :: 0 <= i < |xs| ==> xs[i].scale <= k
    ensures Total(xs).scale <= k && Scaled(Total(xs), k) == SumAt(xs, k)
  {
    if xs == [] {
      assert Scaled(ZERO, k) == 0 * Pow10(k);
    } else {
      TotalIsSum(xs[..|xs| - 1], k);
      AddExact(Total(xs[..|xs| - 1]), xs[|xs| - 1], k);
    }
  }

  /** The arguments of `add` with nulls read as zero. */
  function Values(bs: seq<Option<Decimal>>): (vs: seq<Decimal>)
    ensures |vs| == |bs| && forall i :: 0 <= i < |bs| ==> vs[i] == OrZero(bs[i])
  {
    seq(|bs|, i requires 0 <= i < |bs| => OrZero(bs[i]))
  }

  /** `add`: overwrites each null argument with zero in place, then returns the exact sum
      rounded HALF_UP to two decimals. */
  method Add(bs: array<Option<Decimal>>) returns (r: Decimal)
    modifies bs
    ensures forall i :: 0 <= i < bs.Length ==> bs[i] == Some(OrZero(old(bs[i])))
    ensures r == SetScale2(Total(Values(old(bs[..]))))
  {
    ghost var vs := Values(bs[..]);
    for i := 0 to bs.Length
      invariant forall k :: 0 <= k < i ==> bs[k] == Some(vs[k])
      invariant forall k :: i <= k < bs.Length ==> bs[k] == old(bs[k])
    {
      if bs[i].None? {
        bs[i] := Some(ZERO);
      }
    }
    var result := ZERO;
    for i := 0 to bs.Length
      invariant result == Total(vs[..i])
    {
      assert vs[..i + 1][..i] == vs[..i];
      result := DecAdd(result, bs[i].value);
    }
    assert vs[..bs.Length] == vs;
    r := SetScale2(result);
  }
}
