/** `StringPart`: a string cut into parts that are later joined with separators. A value with
    n parts expects n - 1 separators; `withSeparator` fixes one separator in advance by merging
    the two parts around it. */
module StringPart {
  import opened Wrappers
  import opened Text

  datatype StringPart =
    | Of1(part1: string)
    | Of2(part1: string, part2: string)
    | Of3(part1: string, part2: string, part3: string)
    | OfN(parts: seq<string>)
  {
    function Parts(): (ps: seq<string>)
    {
      match this
      case Of1(p1) => [p1]
      case Of2(p1, p2) => [p1, p2]
      case Of3(p1, p2, p3) => [p1, p2, p3]
      case OfN(ps) => ps
    }

    /** `expectedSeparatorCount` */
    function Expected(): int
    {
      |Parts()| - 1
    }

    /** Every value built by `of` and `withSeparator` has at least one part, and the array
        variant is used only from four parts up. */
    predicate Valid()
    {
      OfN? ==> |parts| >= 4
    }

    /** `withSeparatorChecked`: the separator at `i` merges parts i and i + 1; at the last
        index it is appended to the last part. */
    function WithSeparatorChecked(i: nat, separator: string): StringPart
      requires i <= Expected()
    {
      match this
      case Of1(p1) => Of1(p1 + separator)
      case Of2(p1, p2) => if i == 0 then Of1(p1 + separator + p2) else Of2(p1, p2 + separator)
      case Of3(p1, p2, p3) =>
        if i == 0 then Of2(p1 + separator + p2, p3)
        else if i == 1 then Of2(p1, p2 + separator + p3)
        else Of3(p1, p2, p3 + separator)
      case OfN(ps) =>
        if |ps| == 4 && i < 3 then
          if i == 0 then Of3(ps[0] + separator + ps[1], ps[2], ps[3])
          else if i == 1 then Of3(ps[0], ps[1] + separator + ps[2], ps[3])
          else Of3(ps[0], ps[1], ps[2] + separator + ps[3])
        else if i == |ps| - 1 then OfN(ps[..i] + [ps[i] + separator])
        else OfN(ps[..i] + [ps[i] + separator + ps[i + 1]] + ps[i + 2..])
    }

    /** `withSeparator(separatorIndex, separator)`: an index outside 0..expected fails. */
    function WithSeparator(i: int, separator: string): (r: Result<StringPart, string>)
      ensures r.Err? <==> i < 0 || i > Expected()
      ensures r.Err? ==> (r.error ==
        "Invalid separatorIndex, expect: 0~" + IntToString(Expected()) + ", actual: " + IntToString(i))
    {
      if i < 0 || i > Expected() then
        Err("Invalid separatorIndex, expect: 0~" + IntToString(Expected()) + ", actual: " + IntToString(i))
      else Ok(WithSeparatorChecked(i, separator))
    }

    /** `withSeparator(separator)`: index 0, without the range check. */
    function WithFirstSeparator(separator: string): (r: StringPart)
      requires Valid()
      ensures WithSeparator(0, separator) == Ok(r)
    {
      WithSeparatorChecked(0, separator)
    }

    /** `joinChecked`: the parts with the first `expected` separators between them. */
    function JoinChecked(separators: seq<string>): string
      requires |separators| >= Expected()
    {
      match this
      case Of1(p1) => p1
      case Of2(p1, p2) => p1 + separators[0] + p2
      case Of3(p1, p2, p3) => p1 + separators[0] + p2 + separators[1] + p3
      case OfN(ps) => Interleave(ps, separators)
    }

    /** `join`: exactly `expected` separators go between the parts; one more is appended at the
        end; any other count fails. */
    function Join(separators: seq<string>): (r: Result<string, string>)
      requires Valid()
      ensures r.Ok? <==> |separators| == Expected() || |separators| == Expected() + 1
      ensures r.Err? ==> (r.error ==
        "Invalid separator count, expect: " + IntToString(Expected()) + "~" + IntToString(Expected() + 1) +
        ", actual: " + IntToString(|separators|))
      ensures r.Ok? ==>
                r.value == Interleave(Parts(), separators) +
                           (if |separators| == Expected() + 1 then separators[|separators| - 1] else "")
    {
      if |separators| == Expected() then
        JoinCheckedInterleaves(this, separators);
        Ok(JoinChecked(separators))
      else if |separators| == Expected() + 1 then
        JoinCheckedInterleaves(this, separators);
        Ok(JoinChecked(separators) + separators[|separators| - 1])
      else
        Err("Invalid separator count, expect: " + IntToString(Expected()) + "~" + IntToString(Expected() + 1) +
            ", actual: " + IntToString(|separators|))
    }
  }

  /** p0 s0 p1 s1 ... p(n-1): the parts with the separators between them; separators beyond
      the first n - 1 are not used. */
  function Interleave(parts: seq<string>, separators: seq<string>): string
    requires |separators| >= |parts| - 1
  {
    if |parts| <= 1 then (if parts == [] then "" else parts[0])
    else parts[0] + separators[0] + Interleave(parts[1..], separators[1..])
  }

  /** `of(parts...)`: no parts is an error; n parts expect n - 1 separators. */
  function Of(parts: seq<string>): (r: Result<StringPart, string>)
    ensures r.Err? <==> parts == []
    ensures r.Err? ==> r.error == "Invalid part count, expect: at least 1, actual: 0"
    ensures r.Ok? ==> r.value.Valid() && r.value.Parts() == parts && r.value.Expected() == |parts| - 1
  {
    if |parts| == 0 then Err("Invalid part count, expect: at least 1, actual: 0")
    else if |parts| == 1 then Ok(Of1(parts[0]))
    else if |parts| == 2 then Ok(Of2(parts[0], parts[1]))
    else if |parts| == 3 then Ok(Of3(parts[0], parts[1], parts[2]))
    else Ok(OfN(parts))
  }

  /** The StringBuilder loop of the array variant's `joinChecked`. */
  method JoinParts(parts: seq<string>, separators: seq<string>) returns (s: string)
    requires |separators| >= |parts| - 1
    ensures s == Interleave(parts, separators)
  {
    s := "";
    var i := 0;
    while i < |parts|
      invariant 0 <= i <= |parts|
      invariant i < |parts| ==> s + Interleave(parts[i..], separators[i..]) == Interleave(parts, separators)
      invariant i == |parts| ==> s == Interleave(parts, separators)
    {
      InterleaveStep(parts[i..], separators[i..]);
      s := s + parts[i];
      if i != |parts| - 1 {
        s := s + separators[i];
        assert parts[i..][1..] == parts[i + 1..] && separators[i..][1..] == separators[i + 1..];
      }
      i := i + 1;
    }
  }

  lemma InterleaveStep(parts: seq<string>, separators: seq<string>)
    requires parts != [] && |separators| >= |parts| - 1
    ensures |parts| == 1 ==> Interleave(parts, separators) == parts[0]
    ensures |parts| > 1 ==>
      Interleave(parts, separators) == parts[0] + separators[0] + Interleave(parts[1..], separators[1..])
  {
  }

  /** Every variant's `joinChecked` interleaves its parts with the separators. */
  lemma JoinCheckedInterleaves(p: StringPart, separators: seq<string>)
    requires |separators| >= p.Expected()
    ensures p.JoinChecked(separators) == Interleave(p.Parts(), separators)
  {
    match p
    case Of1(p1) =>
    case Of2(p1, p2) => InterleaveTwo(p1, p2, separators);
    case Of3(p1, p2, p3) => InterleaveThree(p1, p2, p3, separators);
    case OfN(ps) =>
  }

  lemma InterleaveTwo(p1: string, p2: string, separators: seq<string>)
    requires |separators| >= 1
    ensures Interleave([p1, p2], separators) == p1 + separators[0] + p2
  {
    assert [p1, p2][1..] == [p2];
    assert Interleave([p2], separators[1..]) == p2;
  }

  lemma InterleaveThree(p1: string, p2: string, p3: string, separators: seq<string>)
    requires |separators| >= 2
    ensures Interleave([p1, p2, p3], separators) == p1 + separators[0] + p2 + separators[1] + p3
  {
    assert [p1, p2, p3][1..] == [p2, p3];
    InterleaveTwo(p2, p3, separators[1..]);
  }

  /** `withSeparator` keeps a value `Valid`. */
  lemma WithSeparatorValid(p: StringPart, i: nat, separator: string)
    requires p.Valid() && i <= p.Expected()
    ensures p.WithSeparatorChecked(i, separator).Valid()
  {
  }

  /** Merging at `i` below the last index: parts i and i + 1 become one, the others stay in
      order, and one separator fewer is expected. */
  lemma {:induction false} WithSeparatorMerges(p: StringPart, i: nat, separator: string)
    requires p.Valid() && i < p.Expected()
    ensures var ps := p.Parts();
      p.WithSeparatorChecked(i, separator).Parts() == ps[..i] + [ps[i] + separator + ps[i + 1]] + ps[i + 2..]
    ensures p.WithSeparatorChecked(i, separator).Expected() == p.Expected() - 1
  {
    var ps := p.Parts();
    var q := p.WithSeparatorChecked(i, separator);
    assert q.Parts() == ps[..i] + [ps[i] + separator + ps[i + 1]] + ps[i + 2..];
  }

  /** The separator at the last index is appended to the last part; the count stays. */
  lemma {:induction false} WithSeparatorAppends(p: StringPart, separator: string)
    requires p.Valid()
    ensures var ps := p.Parts();
      p.WithSeparatorChecked(p.Expected(), separator).Parts() == ps[..|ps| - 1] + [ps[|ps| - 1] + separator]
  {
    var ps := p.Parts();
    var q := p.WithSeparatorChecked(p.Expected(), separator);
    assert q.Parts() == ps[..|ps| - 1] + [ps[|ps| - 1] + separator];
  }

  /** Interleaving with merged parts equals interleaving the original parts with the merging
      separator put in its place. */
  lemma {:induction false} InterleaveMerge(parts: seq<string>, i: nat, s: string, rest: seq<string>)
    requires i + 1 < |parts| && |rest| >= |parts| - 2
    ensures var merged := parts[..i] + [parts[i] + s + parts[i + 1]] + parts[i + 2..];
      Interleave(merged, rest) == Interleave(parts, rest[..i] + [s] + rest[i..])
  {
    var merged := parts[..i] + [parts[i] + s + parts[i + 1]] + parts[i + 2..];
    var seps := rest[..i] + [s] + rest[i..];
    if i == 0 {
      if |parts| == 2 {
        assert merged == [parts[0] + s + parts[1]];
        assert Interleave(parts[1..], seps[1..]) == parts[1];
      } else {
        assert merged[1..] == parts[2..];
        assert seps[1..][1..] == rest[1..];
        assert parts[1..][1..] == parts[2..];
        assert Interleave(merged, rest) == parts[0] + s + parts[1] + rest[0] + Interleave(parts[2..], rest[1..]);
      }
    } else {
      InterleaveMerge(parts[1..], i - 1, s, rest[1..]);
      assert merged[1..] == parts[1..][..i - 1] + [parts[1..][i - 1] + s + parts[1..][i]] + parts[1..][i + 1..];
      assert seps[1..] == rest[1..][..i - 1] + [s] + rest[1..][i - 1..];
      assert seps[0] == rest[0];
    }
  }

  /** Fixing the separator at `i` in advance and joining with the remaining separators gives
      the same string as joining with all of them. */
  lemma WithSeparatorJoin(p: StringPart, i: nat, s: string, rest: seq<string>)
    requires p.Valid() && i < p.Expected()
    requires |rest| == p.Expected() - 1 || |rest| == p.Expected()
    ensures p.WithSeparatorChecked(i, s).Valid()
    ensures p.WithSeparatorChecked(i, s).Join(rest) == p.Join(rest[..i] + [s] + rest[i..])
  {
    var q := p.WithSeparatorChecked(i, s);
    var seps := rest[..i] + [s] + rest[i..];
    WithSeparatorMerges(p, i, s);
    JoinCheckedInterleaves(q, rest);
    JoinCheckedInterleaves(p, seps);
    InterleaveMerge(p.Parts(), i, s, rest);
    if |rest| == p.Expected() {
      assert seps[|seps| - 1] == rest[|rest| - 1];
    }
  }
}
