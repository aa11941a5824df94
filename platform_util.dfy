/** `PlatformUtil`: the customer-code format "MBER" + eight digits, its conversions to and from
    a `long`, and the null-or-empty tests on collections and maps. */
module PlatformUtil {
  import opened Wrappers
  import opened JavaInt
  import opened Text

  const CODE_PREFIX: string := "MBER"
  /** The largest code that fits in eight digits. */
  const MAX_CODE: nat := 99999999

  /** The pattern `MBER[0-9]{8}`, matched against the whole text. */
  predicate MatchesCode(t: string)
  {
    |t| == 12 && t[..4] == CODE_PREFIX && AllDigits(t[4..])
  }

  /** `isCodeLegal`: not blank, and the trimmed text matches the pattern. */
  predicate IsCodeLegal(strCode: Option<string>)
    ensures IsCodeLegal(strCode) ==> strCode.Some? && |Trim(strCode.value)| == 12
    ensures IsCodeLegal(strCode) ==> Trim(strCode.value)[..4] == CODE_PREFIX
  {
    !IsBlank(strCode) && MatchesCode(Trim(strCode.value))
  }

  /** The exception a null argument raises. */
  datatype Failure = NullPointer

  /** `strToCode`: removes every "MBER" and parses what is left as a `long`; text that does not
      parse gives null. A null argument is not caught. */
  function StrToCode(strCode: Option<string>): (r: Result<Option<int>, Failure>)
    ensures r.Err? <==> strCode.None?
    ensures r.Ok? && r.value.Some? ==> IsLong(r.value.value)
  {
    if strCode.None? then Err(NullPointer)
    else Ok(ParseLong(RemoveAll(strCode.value, CODE_PREFIX)))
  }

  /** `codeToStr`: `String.format("MBER%08d", code)`. A null argument is printed as the text
      "null", right-justified with spaces to the width of eight (the zero flag pads numbers
      only); a negative code as '-' and its magnitude padded to seven digits. */
  function CodeToStr(code: Option<int>): (s: string)
    requires code.Some? ==> IsLong(code.value)
    ensures |s| >= 4 && s[..4] == CODE_PREFIX
    ensures code.Some? && 0 <= code.value ==> AllDigits(s[4..]) && |s| >= 12
    ensures code.None? ==> s == CODE_PREFIX + "    null"
    ensures code.Some? && code.value < 0 ==> s == CODE_PREFIX + ("-" + PadZeros(-code.value, 7))
  {
    CODE_PREFIX + (
      if code.None? then "    null"
      else if code.value >= 0 then PadZeros(code.value, 8)
      else "-" + PadZeros(-code.value, 7))
  }

  /** Digit strings of one length with one value are the same string. */
  lemma {:induction false} DigitsInjective(s: string, t: string)
    requires AllDigits(s) && AllDigits(t) && |s| == |t| && DigitsValue(s) == DigitsValue(t)
    ensures s == t
  {
    if s != [] {
      var n := |s| - 1;
      var a, b := DigitsValue(s[..n]), DigitsValue(t[..n]);
      var d, e := DigitValue(s[n]), DigitValue(t[n]);
      assert a * 10 + d == b * 10 + e;
      assert (a - b) * 10 == e - d;
      assert a == b && d == e;
      DigitsInjective(s[..n], t[..n]);
      assert DigitChar(d) == s[n] && DigitChar(e) == t[n];
      assert s == s[..n] + [s[n]] && t == t[..n] + [t[n]];
    }
  }

  /** A code written by `codeToStr` starts with a letter and ends with a digit, so trimming
      leaves it whole and it is not blank. */
  lemma CodeTextIsTrimmed(code: nat)
    requires IsLong(code)
    ensures var s := CodeToStr(Some(code)); Trim(s) == s && !IsBlank(Some(s))
  {
    var s := CodeToStr(Some(code));
    assert s[0] == 'M';
    assert IsDigit(s[4..][|s| - 5]);
    TrimIdentity(s);
  }

  /** A code in range is written with exactly eight digits denoting it. */
  lemma EightDigits(code: nat)
    requires code <= MAX_CODE
    ensures |PadZeros(code, 8)| == 8 && DigitsValue(PadZeros(code, 8)) == code
  {
    assert Pow10(8) == MAX_CODE + 1;
    NatToStringLength(code, 8);
    PadZerosValue(code, 8);
  }

  /** Unsigned digits denoting a `long` parse to their value. */
  lemma ParseDigits(digits: string)
    requires digits != [] && AllDigits(digits) && IsLong(DigitsValue(digits))
    ensures ParseLong(digits) == Some(DigitsValue(digits))
  {
    assert IsDigit(digits[0]);
  }

  /** Removing the prefix from "MBER" + digits leaves the digits. */
  lemma RemovePrefix(digits: string)
    requires AllDigits(digits)
    ensures RemoveAll(CODE_PREFIX + digits, CODE_PREFIX) == digits
  {
    forall i | 0 <= i < |digits|
      ensures digits[i] != 'M'
    {
      assert IsDigit(digits[i]);
    }
    RemoveAllPrefix(CODE_PREFIX, digits);
  }

  /** For 0 <= code <= 99999999, `codeToStr` gives "MBER" and exactly eight digits: a legal
      code. */
  lemma CodeToStrLegal(code: nat)
    requires code <= MAX_CODE
    ensures |CodeToStr(Some(code))| == 12 && IsCodeLegal(Some(CodeToStr(Some(code))))
  {
    var digits := PadZeros(code, 8);
    var s := CodeToStr(Some(code));
    assert s == CODE_PREFIX + digits;
    EightDigits(code);
    assert MatchesCode(s) by {
      assert s[4..] == digits;
    }
    CodeTextIsTrimmed(code);
  }

  /** For 0 <= code <= 99999999, `strToCode` reads back what `codeToStr` wrote. */
  lemma CodeRoundTrip(code: nat)
    requires code <= MAX_CODE
    ensures StrToCode(Some(CodeToStr(Some(code)))) == Ok(Some(code))
  {
    var digits := PadZeros(code, 8);
    assert CodeToStr(Some(code)) == CODE_PREFIX + digits;
    EightDigits(code);
    RemovePrefix(digits);
    ParseDigits(digits);
  }

  /** A legal code, once trimmed, parses to a code in range that `codeToStr` writes back as
      the same text. */
  lemma LegalCodeRoundTrip(s: string)
    requires IsCodeLegal(Some(s))
    ensures var r := StrToCode(Some(Trim(s)));
      r.Ok? && r.value.Some? && 0 <= r.value.value <= MAX_CODE && CodeToStr(r.value) == Trim(s)
  {
    var t := Trim(s);
    var digits := t[4..];
    assert t == CODE_PREFIX + digits;
    var v := DigitsValue(digits);
    DigitsValueBound(digits);
    assert Pow10(8) == MAX_CODE + 1;
    CodeRoundTrip(v);
    var written := PadZeros(v, 8);
    assert CodeToStr(Some(v)) == CODE_PREFIX + written;
    NatToStringLength(v, 8);
    PadZerosValue(v, 8);
    DigitsInjective(written, digits);
  }

  /** A null code is written as text that is not a legal code and that `strToCode` reads back
      as null. */
  lemma NullCodeText()
    ensures !IsCodeLegal(Some(CodeToStr(None)))
    ensures StrToCode(Some(CodeToStr(None))) == Ok(None)
  {
    var s := CodeToStr(None);
    assert s == CODE_PREFIX + "    null";
    NullTextNotMatched(s);
    NullTextParses(s);
  }

  /** The null rendering is its own trim and does not match the code pattern. */
  lemma NullTextNotMatched(s: string)
    requires s == CODE_PREFIX + "    null"
    ensures Trim(s) == s && !MatchesCode(Trim(s))
  {
    TrimIdentity(s);
    assert s[4..] == "    null";
    NullTextNotDigits(s[4..]);
  }

  /** Text starting with a space holds a character that is not a digit. */
  lemma NullTextNotDigits(rest: string)
    requires rest == "    null"
    ensures !AllDigits(rest) && ParseLong(rest) == None
  {
    assert !IsDigit(rest[0]);
  }

  /** Removing "MBER" from the null rendering leaves text that does not parse. */
  lemma NullTextParses(s: string)
    requires s == CODE_PREFIX + "    null"
    ensures ParseLong(RemoveAll(s, CODE_PREFIX)) == None
  {
    var rest := "    null";
    assert CODE_PREFIX[0] !in rest;
    RemoveAllPrefix(CODE_PREFIX, rest);
    NullTextNotDigits(rest);
  }

  /** A negative code is written with a '-' where the pattern wants a digit. */
  lemma NegativeCodeNotLegal(code: int)
    requires IsLong(code) && code < 0
    ensures !IsCodeLegal(Some(CodeToStr(Some(code))))
  {
    var s := CodeToStr(Some(code));
    var rest := PadZeros(-code, 7);
    assert s == CODE_PREFIX + ("-" + rest);
    assert s[0] == 'M' && IsDigit(s[|s| - 1]) by {
      assert s[|s| - 1] == rest[|rest| - 1];
    }
    TrimIdentity(s);
    assert s[4..][0] == '-';
  }

  /** Exactly the codes from 0 to 99999999 are written as legal code text. */
  lemma CodeToStrLegalIff(code: int)
    requires IsLong(code)
    ensures IsCodeLegal(Some(CodeToStr(Some(code)))) <==> 0 <= code <= MAX_CODE
  {
    var s := CodeToStr(Some(code));
    if code < 0 {
      NegativeCodeNotLegal(code);
    } else if code > MAX_CODE {
      assert Pow10(8) == MAX_CODE + 1;
      NatToStringLength(code, 8);
      CodeTextIsTrimmed(code);
    } else {
      CodeToStrLegal(code);
    }
  }

  /** `isEmpty(Collection)`: null or no elements. */
  predicate IsEmptyCollection<T>(c: Option<seq<T>>)
    ensures c.None? ==> IsEmptyCollection(c)
    ensures c.Some? ==> (IsEmptyCollection(c) <==> c.value == [])
  {
    c.None? || |c.value| == 0
  }

  /** `isNotEmpty(Collection)`: the exact negation of `isEmpty`. */
  predicate IsNotEmptyCollection<T>(c: Option<seq<T>>)
    ensures IsNotEmptyCollection(c) <==> !IsEmptyCollection(c)
  {
    c.Some? && |c.value| != 0
  }

  /** `isEmpty(Map)`: null or no entries. */
  predicate IsEmptyMap<K, V>(m: Option<map<K, V>>)
    ensures m.None? ==> IsEmptyMap(m)
    ensures m.Some? ==> (IsEmptyMap(m) <==> m.value == map[])
  {
    m.None? || |m.value| == 0
  }

  /** `isNotEmpty(Map)`: the exact negation of `isEmpty`. */
  predicate IsNotEmptyMap<K, V>(m: Option<map<K, V>>)
    ensures IsNotEmptyMap(m) <==> !IsEmptyMap(m)
  {
    m.Some? && |m.value| != 0
  }
}
