/** Character and string operations of the Java runtime that the models below rely on:
    decimal rendering and parsing of integers, `String.trim`, commons-lang blankness,
    `String.replace` and `String.indexOf`. Strings are sequences of Unicode scalar values. */
module Text {
  import opened Wrappers
  import opened JavaInt

  // ---------------------------------------------------------------------------------------
  // Decimal digits

  predicate IsDigit(c: char) { '0' <= c <= '9' }

  predicate AllDigits(s: string) { forall i :: 0 <= i < |s| ==> IsDigit(s[i]) }

  function DigitChar(d: nat): (c: char)
    requires d < 10
    ensures IsDigit(c) && c as int - '0' as int == d
  {
    ('0' as int + d) as char
  }

  function DigitValue(c: char): (d: nat)
    requires IsDigit(c)
    ensures d < 10 && DigitChar(d) == c
  {
    c as int - '0' as int
  }

  /** The number a string of decimal digits denotes, read most significant digit first. */
  function DigitsValue(s: string): nat
    requires AllDigits(s)
  {
    if s == [] then 0 else DigitsValue(s[..|s| - 1]) * 10 + DigitValue(s[|s| - 1])
  }

  function Pow10(k: nat): (p: nat)
    ensures p >= 1
  {
    if k == 0 then 1 else 10 * Pow10(k - 1)
  }

  /** Shortest decimal rendering of a natural number (`Long.toString` for n >= 0). */
  function NatToString(n: nat): (s: string)
    ensures |s| >= 1 && AllDigits(s)
    ensures s[0] == '0' ==> n == 0
  {
    if n < 10 then [DigitChar(n)] else NatToString(n / 10) + [DigitChar(n % 10)]
  }

  /** `Integer.toString` / `Long.toString`: a minus sign for negative values. */
  function IntToString(i: int): (s: string)
    ensures |s| >= 1
  {
    if i < 0 then "-" + NatToString(-i) else NatToString(i)
  }

  lemma {:induction false} DigitsValueAppend(s: string, c: char)
    requires AllDigits(s) && IsDigit(c)
    ensures AllDigits(s + [c]) && DigitsValue(s + [c]) == DigitsValue(s) * 10 + DigitValue(c)
  {
    assert (s + [c])[..|s|] == s;
  }

  lemma {:induction false} NatToStringValue(n: nat)
    ensures DigitsValue(NatToString(n)) == n
  {
    if n >= 10 {
      NatToStringValue(n / 10);
      DigitsValueAppend(NatToString(n / 10), DigitChar(n % 10));
    }
  }

  /** The rendering of n has at most k digits exactly when n < 10^k. */
  lemma {:induction false} NatToStringLength(n: nat, k: nat)
    ensures |NatToString(n)| <= k <==> (k >= 1 && n < Pow10(k))
  {
    if n >= 10 {
      if k >= 1 {
        NatToStringLength(n / 10, k - 1);
      } else {
        assert |NatToString(n)| >= 1;
      }
    } else {
      if k >= 1 { Pow10AtLeast10(k); }
    }
  }

  lemma {:induction false} Pow10AtLeast10(k: nat)
    requires k >= 1
    ensures Pow10(k) >= 10
  {
    if k > 1 { Pow10AtLeast10(k - 1); }
  }

  /** A digit string of length k denotes a value below 10^k. */
  lemma {:induction false} DigitsValueBound(s: string)
    requires AllDigits(s)
    ensures DigitsValue(s) < Pow10(|s|)
  {
    if s != [] { DigitsValueBound(s[..|s| - 1]); }
  }

  function Zeros(k: nat): (s: string)
    ensures |s| == k && AllDigits(s)
    ensures forall i :: 0 <= i < k ==> s[i] == '0'
  {
    if k == 0 then "" else Zeros(k - 1) + "0"
  }

  /** Leading zeros do not change the value of a digit string. */
  lemma {:induction false} LeadingZerosValue(k: nat, s: string)
    requires AllDigits(s)
    ensures AllDigits(Zeros(k) + s) && DigitsValue(Zeros(k) + s) == DigitsValue(s)
  {
    if s == [] {
      assert Zeros(k) + s == Zeros(k);
      ZerosValue(k);
    } else {
      var init, last := s[..|s| - 1], s[|s| - 1];
      assert Zeros(k) + s == (Zeros(k) + init) + [last];
      assert s == init + [last];
      LeadingZerosValue(k, init);
      DigitsValueAppend(Zeros(k) + init, last);
      DigitsValueAppend(init, last);
    }
  }

  lemma {:induction false} ZerosValue(k: nat)
    ensures DigitsValue(Zeros(k)) == 0
  {
    if k > 0 {
      ZerosValue(k - 1);
      DigitsValueAppend(Zeros(k - 1), '0');
    }
  }

  /** `String.format("%0<width>d", n)` for n >= 0: zero-padded on the left to at least `width` digits. */
  function PadZeros(n: nat, width: nat): (s: string)
    ensures AllDigits(s) && |s| == if |NatToString(n)| < width then width else |NatToString(n)|
  {
    var digits := NatToString(n);
    if |digits| < width then Zeros(width - |digits|) + digits else digits
  }

  lemma PadZerosValue(n: nat, width: nat)
    ensures DigitsValue(PadZeros(n, width)) == n
  {
    var digits := NatToString(n);
    NatToStringValue(n);
    if |digits| < width { LeadingZerosValue(width - |digits|, digits); }
  }

  // ---------------------------------------------------------------------------------------
  // Parsing a `long`

  /** `Long.valueOf(String)`: an optional '+' or '-' followed by one or more decimal digits,
      denoting a value inside the `long` range; anything else is a `NumberFormatException` (None). */
  function ParseLong(s: string): (r: Option<int>)
    ensures r.Some? ==> IsLong(r.value)
  {
    if s == [] then None
    else
      var negative := s[0] == '-';
      var digits := if s[0] == '-' || s[0] == '+' then s[1..] else s;
      if digits == [] || !AllDigits(digits) then None
      else
        var magnitude: int := DigitsValue(digits);
        var value: int := if negative then -magnitude else magnitude;
        if IsLong(value) then Some(value) else None
  }

  // ---------------------------------------------------------------------------------------
  // Trimming and blankness

  /** The characters `String.trim` removes: every char up to and including U+0020. */
  predicate IsTrimmable(c: char) { c <= ' ' }

  function TrimStart(s: string): (t: string)
    ensures |t| <= |s| && t == s[|s| - |t|..]
    ensures t != [] ==> !IsTrimmable(t[0])
    ensures forall i :: 0 <= i < |s| - |t| ==> IsTrimmable(s[i])
  {
    if s != [] && IsTrimmable(s[0]) then TrimStart(s[1..]) else s
  }

  function TrimEnd(s: string): (t: string)
    ensures |t| <= |s| && t == s[..|t|]
    ensures t != [] ==> !IsTrimmable(t[|t| - 1])
    ensures forall i :: |t| <= i < |s| ==> IsTrimmable(s[i])
  {
    if s != [] && IsTrimmable(s[|s| - 1]) then TrimEnd(s[..|s| - 1]) else s
  }

  /** `String.trim`: drops leading and trailing characters up to U+0020. */
  function Trim(s: string): (t: string)
    ensures t != [] ==> !IsTrimmable(t[0]) && !IsTrimmable(t[|t| - 1])
  {
    TrimEnd(TrimStart(s))
  }

  /** A string whose first and last characters are above U+0020 is its own trim. */
  lemma TrimIdentity(s: string)
    requires s != [] && !IsTrimmable(s[0]) && !IsTrimmable(s[|s| - 1])
    ensures Trim(s) == s
  {
  }

  /** `Character.isWhitespace`. */
  predicate IsWhitespace(c: char)
  {
    || ('\t' <= c <= '\r') || ('\U{001C}' <= c <= ' ')
    || c == '\U{1680}' || ('\U{2000}' <= c <= '\U{2006}') || ('\U{2008}' <= c <= '\U{200A}')
    || c == '\U{2028}' || c == '\U{2029}' || c == '\U{205F}' || c == '\U{3000}'
  }

  /** commons-lang `StringUtils.isBlank`: null, empty, or whitespace only. */
  predicate IsBlank(s: Option<string>)
  {
    s.None? || forall i :: 0 <= i < |s.value| ==> IsWhitespace(s.value[i])
  }

  /** Guava `Strings.isNullOrEmpty`. */
  predicate IsNullOrEmpty(s: Option<string>) { s.None? || s.value == [] }

  // ---------------------------------------------------------------------------------------
  // Searching and replacing

  /** `String.indexOf(char)`: the first index holding `c`, or -1. */
  function IndexOf(s: string, c: char): (i: int)
    ensures -1 <= i < |s|
    ensures i == -1 <==> c !in s
    ensures i >= 0 ==> s[i] == c && c !in s[..i]
  {
    if s == [] then -1
    else if s[0] == c then 0
    else var j := IndexOf(s[1..], c); assert s[1..][..(if j < 0 then 0 else j)] == s[1..1 + (if j < 0 then 0 else j)]; if j == -1 then -1 else j + 1
  }

  /** `String.replace(char, char)`: every `a` becomes `b`. */
  function ReplaceChar(s: string, a: char, b: char): (r: string)
    ensures |r| == |s|
    ensures forall i :: 0 <= i < |s| ==> r[i] == if s[i] == a then b else s[i]
  {
    if s == [] then [] else [if s[0] == a then b else s[0]] + ReplaceChar(s[1..], a, b)
  }

  /** `String.replace(target, "")`: removes the non-overlapping occurrences of a non-empty
      `target`, scanning left to right. */
  function RemoveAll(s: string, target: string): (r: string)
    requires target != []
    ensures |r| <= |s|
    decreases |s|
  {
    if |s| < |target| then s
    else if s[..|target|] == target then RemoveAll(s[|target|..], target)
    else [s[0]] + RemoveAll(s[1..], target)
  }

  /** Removing a target from a string that starts with it and whose remainder cannot hold
      the target's first character leaves exactly that remainder. */
  lemma RemoveAllPrefix(target: string, rest: string)
    requires target != [] && target[0] !in rest
    ensures RemoveAll(target + rest, target) == rest
  {
    assert (target + rest)[..|target|] == target;
    assert (target + rest)[|target|..] == rest;
    RemoveAllAbsent(rest, target);
  }

  lemma {:induction false} RemoveAllAbsent(s: string, target: string)
    requires target != [] && target[0] !in s
    ensures RemoveAll(s, target) == s
    decreases |s|
  {
    if |s| >= |target| {
      assert s[..|target|][0] == s[0];
      assert s[..|target|] != target;
      RemoveAllAbsent(s[1..], target);
      assert [s[0]] + s[1..] == s;
    }
  }
}
