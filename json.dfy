/** A compact JSON text format standing in for the Jackson object mapper: values of a small
    JSON model, their serialization, a parser for it, and "shapes" standing for the Java classes
    a body is bound to. Decoding what was encoded gives the value back (ParseSerialize). */
module Json {
  import opened Wrappers
  import opened Text

  datatype Value =
    | JNull
    | JBool(b: bool)
    | JInt(i: int)
    | JStr(s: string)
    | JArr(items: seq<Value>)
    | JObj(members: seq<Member>)

  datatype Member = Member(name: string, value: Value)

  /** What a Java class accepts when Jackson binds JSON to it. Every shape is a reference type,
      so JSON null binds to each of them. */
  datatype Shape =
    | AnyShape
    | BoolShape
    | IntShape
    | StringShape
    | ListShape(element: Shape)
    | RecordShape(properties: map<string, Shape>)

  datatype JsonError = NoTargetType | Malformed | ShapeMismatch

  /** `v` is exactly a value of the shape: a record holds only properties it declares. */
  predicate Conforms(v: Value, shape: Shape)
    decreases v
  {
    match shape
    case AnyShape => true
    case BoolShape => v.JNull? || v.JBool?
    case IntShape => v.JNull? || v.JInt?
    case StringShape => v.JNull? || v.JStr?
    case ListShape(e) =>
      v.JNull? || (v.JArr? && forall i :: 0 <= i < |v.items| ==> Conforms(v.items[i], e))
    case RecordShape(props) =>
      v.JNull? ||
      (v.JObj? && forall i :: 0 <= i < |v.members| ==>
         v.members[i].name in props && Conforms(v.members[i].value, props[v.members[i].name]))
  }

  /** `v` can be bound to the shape. The mapper is configured not to fail on unknown
      properties, so a record skips the members it does not declare. */
  predicate Binds(v: Value, shape: Shape)
    decreases v
  {
    match shape
    case AnyShape => true
    case BoolShape => v.JNull? || v.JBool?
    case IntShape => v.JNull? || v.JInt?
    case StringShape => v.JNull? || v.JStr?
    case ListShape(e) =>
      v.JNull? || (v.JArr? && forall i :: 0 <= i < |v.items| ==> Binds(v.items[i], e))
    case RecordShape(props) =>
      v.JNull? ||
      (v.JObj? && forall i :: 0 <= i < |v.members| ==>
         v.members[i].name in props ==> Binds(v.members[i].value, props[v.members[i].name]))
  }

  /** The object the mapper builds from `v`: undeclared record members are dropped. */
  function Bind(v: Value, shape: Shape): (r: Value)
    requires Binds(v, shape)
    ensures Conforms(r, shape)
    ensures v.JNull? <==> r.JNull?
    decreases v, 1
  {
    match shape
    case ListShape(e) => if v.JNull? then JNull else JArr(BindItems(v.items, e))
    case RecordShape(props) => if v.JNull? then JNull else JObj(BindMembers(v.members, props))
    case _ => v
  }

  function BindItems(items: seq<Value>, e: Shape): (r: seq<Value>)
    requires forall i :: 0 <= i < |items| ==> Binds(items[i], e)
    ensures |r| == |items|
    ensures forall i :: 0 <= i < |r| ==> Conforms(r[i], e)
    decreases items, 0
  {
    if items == [] then [] else [Bind(items[0], e)] + BindItems(items[1..], e)
  }

  function BindMembers(ms: seq<Member>, props: map<string, Shape>): (r: seq<Member>)
    requires forall i :: 0 <= i < |ms| ==> ms[i].name in props ==> Binds(ms[i].value, props[ms[i].name])
    ensures |r| <= |ms|
    ensures forall i :: 0 <= i < |r| ==> r[i].name in props && Conforms(r[i].value, props[r[i].name])
    decreases ms, 0
  {
    if ms == [] then []
    else if ms[0].name in props then
      [Member(ms[0].name, Bind(ms[0].value, props[ms[0].name]))] + BindMembers(ms[1..], props)
    else BindMembers(ms[1..], props)
  }

  /** A value that already conforms binds to itself. */
  lemma {:induction false} BindExact(v: Value, shape: Shape)
    requires Conforms(v, shape)
    ensures Binds(v, shape) && Bind(v, shape) == v
    decreases v, 1
  {
    match shape
    case ListShape(e) =>
      if v.JArr? { BindItemsExact(v.items, e); }
    case RecordShape(props) =>
      if v.JObj? { BindMembersExact(v.members, props); }
    case _ =>
  }

  lemma {:induction false} BindItemsExact(items: seq<Value>, e: Shape)
    requires forall i :: 0 <= i < |items| ==> Conforms(items[i], e)
    ensures forall i :: 0 <= i < |items| ==> Binds(items[i], e)
    ensures BindItems(items, e) == items
    decreases items, 0
  {
    if items != [] {
      BindExact(items[0], e);
      BindItemsExact(items[1..], e);
      assert forall i :: 1 <= i < |items| ==> items[i] == items[1..][i - 1];
      assert [items[0]] + items[1..] == items;
    }
  }

  lemma {:induction false} BindMembersExact(ms: seq<Member>, props: map<string, Shape>)
    requires forall i :: 0 <= i < |ms| ==> ms[i].name in props && Conforms(ms[i].value, props[ms[i].name])
    ensures forall i :: 0 <= i < |ms| ==> ms[i].name in props ==> Binds(ms[i].value, props[ms[i].name])
    ensures BindMembers(ms, props) == ms
    decreases ms, 0
  {
    if ms != [] {
      BindExact(ms[0].value, props[ms[0].name]);
      BindMembersExact(ms[1..], props);
      assert forall i :: 1 <= i < |ms| ==> ms[i] == ms[1..][i - 1];
      assert [Member(ms[0].name, ms[0].value)] + ms[1..] == ms;
    }
  }

  // ---------------------------------------------------------------------------------------
  // Serialization

  function HexDigit(d: nat): char
    requires d < 16
  {
    if d < 10 then DigitChar(d) else ('A' as int + d - 10) as char
  }

  /** How one character appears inside a JSON string literal. */
  function EscapeChar(c: char): (e: string)
    ensures e != [] && e[0] != '"'
  {
    if c == '"' then "\\\""
    else if c == '\\' then "\\\\"
    else if c == '\n' then "\\n"
    else if c == '\r' then "\\r"
    else if c == '\t' then "\\t"
    else if c == '\U{0008}' then "\\b"
    else if c == '\U{000C}' then "\\f"
    else if c < ' ' then "\\u00" + [HexDigit(c as int / 16), HexDigit(c as int % 16)]
    else [c]
  }

  function Escape(s: string): string
  {
    if s == [] then [] else EscapeChar(s[0]) + Escape(s[1..])
  }

  function Quote(s: string): string
  {
    "\"" + Escape(s) + "\""
  }

  function Serialize(v: Value): (t: string)
    ensures t != [] && t[0] != ']' && t[0] != '}'
  {
    match v
    case JNull => "null"
    case JBool(b) => if b then "true" else "false"
    case JInt(i) => IntToString(i)
    case JStr(s) => Quote(s)
    case JArr(items) => "[" + SerializeItems(items) + "]"
    case JObj(members) => "{" + SerializeMembers(members) + "}"
  }

  function SerializeItems(items: seq<Value>): string
  {
    if items == [] then ""
    else if |items| == 1 then Serialize(items[0])
    else Serialize(items[0]) + "," + SerializeItems(items[1..])
  }

  function SerializeMember(m: Member): string
  {
    Quote(m.name) + ":" + Serialize(m.value)
  }

  function SerializeMembers(members: seq<Member>): string
  {
    if members == [] then ""
    else if |members| == 1 then SerializeMember(members[0])
    else SerializeMember(members[0]) + "," + SerializeMembers(members[1..])
  }

  // ---------------------------------------------------------------------------------------
  // Parsing

  function HexValue(c: char): (r: Option<nat>)
    ensures r.Some? ==> r.value < 16
  {
    if '0' <= c <= '9' then Some(c as int - '0' as int)
    else if 'A' <= c <= 'F' then Some(c as int - 'A' as int + 10)
    else if 'a' <= c <= 'f' then Some(c as int - 'a' as int + 10)
    else None
  }

  /** Reads one (possibly escaped) character of a string literal; the second component is the
      number of characters it used. */
  function UnescapeOne(s: string): (r: Option<(char, nat)>)
    requires s != [] && s[0] != '"'
    ensures r.Some? ==> 1 <= r.value.1 <= |s|
  {
    if s[0] == '\\' then
      if |s| < 2 then None
      else if s[1] == '"' then Some(('"', 2))
      else if s[1] == '\\' then Some(('\\', 2))
      else if s[1] == '/' then Some(('/', 2))
      else if s[1] == 'n' then Some(('\n', 2))
      else if s[1] == 'r' then Some(('\r', 2))
      else if s[1] == 't' then Some(('\t', 2))
      else if s[1] == 'b' then Some(('\U{0008}', 2))
      else if s[1] == 'f' then Some(('\U{000C}', 2))
      else if s[1] == 'u' && |s| >= 6 then
        match (HexValue(s[2]), HexValue(s[3]), HexValue(s[4]), HexValue(s[5]))
        case (Some(a), Some(b), Some(c), Some(d)) =>
          var cp := ((a * 16 + b) * 16 + c) * 16 + d;
          if cp < 0xD800 || 0xE000 <= cp then Some((cp as char, 6)) else None
        case _ => None
      else None
    else if s[0] < ' ' then None
    else Some((s[0], 1))
  }

  /** Reads the characters of a string literal after its opening quote, up to and including
      the closing quote. */
  function ParseChars(s: string): (r: Option<(string, string)>)
    ensures r.Some? ==> |r.value.1| < |s|
    decreases |s|
  {
    if s == [] then None
    else if s[0] == '"' then Some(("", s[1..]))
    else
      match UnescapeOne(s)
      case None => None
      case Some((c, n)) =>
        match ParseChars(s[n..])
        case None => None
        case Some((t, rest)) => Some(([c] + t, rest))
  }

  /** The number of leading decimal digits. */
  function DigitSpan(s: string): (n: nat)
    ensures n <= |s| && AllDigits(s[..n])
    ensures n < |s| ==> !IsDigit(s[n])
  {
    if s != [] && IsDigit(s[0]) then
      var n := 1 + DigitSpan(s[1..]);
      assert s[..n] == [s[0]] + s[1..][..n - 1];
      n
    else 0
  }

  function ParseNumber(s: string): (r: Option<(Value, string)>)
    requires s != []
    ensures r.Some? ==> |r.value.1| < |s|
  {
    var t := if s[0] == '-' then s[1..] else s;
    var n := DigitSpan(t);
    if n == 0 then None
    else
      var magnitude: int := DigitsValue(t[..n]);
      Some((JInt(if s[0] == '-' then -magnitude else magnitude), t[n..]))
  }

  function ParseLiteral(s: string, word: string, v: Value): (r: Option<(Value, string)>)
    requires word != []
    ensures r.Some? ==> |r.value.1| < |s|
  {
    if |s| >= |word| && s[..|word|] == word then Some((v, s[|word|..])) else None
  }

  function ParseValue(s: string): (r: Option<(Value, string)>)
    ensures r.Some? ==> |r.value.1| < |s|
    decreases |s|, 2
  {
    if s == [] then None
    else if s[0] == 'n' then ParseLiteral(s, "null", JNull)
    else if s[0] == 't' then ParseLiteral(s, "true", JBool(true))
    else if s[0] == 'f' then ParseLiteral(s, "false", JBool(false))
    else if s[0] == '"' then ParseString(s)
    else if s[0] == '[' then ParseArray(s)
    else if s[0] == '{' then ParseObject(s)
    else if s[0] == '-' || IsDigit(s[0]) then ParseNumber(s)
    else None
  }

  function ParseString(s: string): (r: Option<(Value, string)>)
    requires s != []
    ensures r.Some? ==> |r.value.1| < |s|
  {
    match ParseChars(s[1..])
    case None => None
    case Some((t, rest)) => Some((JStr(t), rest))
  }

  function ParseArray(s: string): (r: Option<(Value, string)>)
    requires s != []
    ensures r.Some? ==> |r.value.1| < |s|
    decreases |s|, 1
  {
    if |s| > 1 && s[1] == ']' then Some((JArr([]), s[2..]))
    else
      match ParseItems(s[1..])
      case None => None
      case Some((items, rest)) => Some((JArr(items), rest))
  }

  function ParseObject(s: string): (r: Option<(Value, string)>)
    requires s != []
    ensures r.Some? ==> |r.value.1| < |s|
    decreases |s|, 1
  {
    if |s| > 1 && s[1] == '}' then Some((JObj([]), s[2..]))
    else
      match ParseMembers(s[1..])
      case None => None
      case Some((members, rest)) => Some((JObj(members), rest))
  }

  /** Reads `v1,v2,...,vn]` and returns the values and what follows the bracket. */
  function ParseItems(s: string): (r: Option<(seq<Value>, string)>)
    ensures r.Some? ==> |r.value.1| < |s|
    decreases |s|, 3
  {
    match ParseValue(s)
    case None => None
    case Some((v, t)) =>
      if t != [] && t[0] == ']' then Some(([v], t[1..]))
      else if t != [] && t[0] == ',' then
        match ParseItems(t[1..])
        case None => None
        case Some((vs, rest)) => Some(([v] + vs, rest))
      else None
  }

  /** Reads one `"k":v` member and returns it with what follows the value. */
  function ParseMember(s: string): (r: Option<(Member, string)>)
    ensures r.Some? ==> |r.value.1| < |s|
    decreases |s|, 2
  {
    if s == [] || s[0] != '"' then None
    else
      match ParseChars(s[1..])
      case None => None
      case Some((name, t)) =>
        if t == [] || t[0] != ':' then None
        else
          match ParseValue(t[1..])
          case None => None
          case Some((v, u)) => Some((Member(name, v), u))
  }

  /** Reads `"k1":v1,...,"kn":vn}` and returns the members and what follows the brace. */
  function ParseMembers(s: string): (r: Option<(seq<Member>, string)>)
    ensures r.Some? ==> |r.value.1| < |s|
    decreases |s|, 3
  {
    match ParseMember(s)
    case None => None
    case Some((m, u)) =>
      if u != [] && u[0] == '}' then Some(([m], u[1..]))
      else if u != [] && u[0] == ',' then
        match ParseMembers(u[1..])
        case None => None
        case Some((ms, rest)) => Some(([m] + ms, rest))
      else None
  }

  /** `ObjectMapper.readValue(text, cls)`: the whole text must be one value that binds to the
      class; a missing class is an error before anything is read. The result is the bound value. */
  function Deserialize(text: string, shape: Option<Shape>): (r: Result<Value, JsonError>)
    ensures r.Ok? ==> shape.Some? && Conforms(r.value, shape.value)
    ensures shape.None? ==> r == Err(NoTargetType)
  {
    if shape.None? then Err(NoTargetType)
    else
      match ParseValue(text)
      case None => Err(Malformed)
      case Some((v, rest)) =>
        if rest != [] then Err(Malformed)
        else if !Binds(v, shape.value) then Err(ShapeMismatch)
        else Ok(Bind(v, shape.value))
  }

  // ---------------------------------------------------------------------------------------
  // Round trip

  lemma HexDigitValue(d: nat)
    requires d < 16
    ensures HexValue(HexDigit(d)) == Some(d)
  {
  }

  lemma UnescapeEscaped(c: char, t: string)
    ensures (EscapeChar(c) + t)[0] != '"'
    ensures UnescapeOne(EscapeChar(c) + t) == Some((c, |EscapeChar(c)|))
  {
    var e := EscapeChar(c);
    var s := e + t;
    if c < ' ' && c != '\n' && c != '\r' && c != '\t' && c != '\U{0008}' && c != '\U{000C}' {
      var hi, lo := c as int / 16, c as int % 16;
      assert s[..6] == "\\u00" + [HexDigit(hi), HexDigit(lo)];
      assert s[2] == '0' && s[3] == '0' && s[4] == HexDigit(hi) && s[5] == HexDigit(lo);
      HexDigitValue(hi);
      HexDigitValue(lo);
    }
  }

  lemma {:induction false} ParseQuoted(s: string, rest: string)
    ensures ParseChars(Escape(s) + "\"" + rest) == Some((s, rest))
  {
    if s == [] {
      assert Escape(s) + "\"" + rest == "\"" + rest;
      assert ("\"" + rest)[1..] == rest;
    } else {
      var e := EscapeChar(s[0]);
      var tail := Escape(s[1..]) + "\"" + rest;
      assert Escape(s) + "\"" + rest == e + tail;
      UnescapeEscaped(s[0], tail);
      assert (e + tail)[|e|..] == tail;
      ParseQuoted(s[1..], rest);
      assert [s[0]] + s[1..] == s;
    }
  }

  lemma {:induction false} DigitSpanOf(d: string, rest: string)
    requires AllDigits(d)
    requires rest == [] || !IsDigit(rest[0])
    ensures DigitSpan(d + rest) == |d|
  {
    if d != [] {
      assert (d + rest)[1..] == d[1..] + rest;
      DigitSpanOf(d[1..], rest);
    }
  }

  lemma ParseInt(i: int, rest: string)
    requires rest == [] || !IsDigit(rest[0])
    ensures ParseNumber(IntToString(i) + rest) == Some((JInt(i), rest))
  {
    var n: nat := if i < 0 then -i else i;
    var t := NatToString(n) + rest;
    ParseDigits(n, rest);
    if i < 0 {
      Regroup2("-", NatToString(n), rest);
      HeadTail('-', t);
    }
  }

  /** The digits of n followed by `rest` are read back as n, and `rest` is left. */
  lemma ParseDigits(n: nat, rest: string)
    requires rest == [] || !IsDigit(rest[0])
    ensures var d := NatToString(n); var t := d + rest;
      t[0] != '-' && DigitSpan(t) == |d| && DigitsValue(t[..|d|]) == n && t[|d|..] == rest
  {
    var d := NatToString(n);
    var t := d + rest;
    DigitSpanOf(d, rest);
    assert t[..|d|] == d && t[|d|..] == rest;
    NatToStringValue(n);
  }

  /** Parsing the serialization of a value gives the value back and leaves what followed it,
      as long as what follows cannot extend a number. */
  lemma {:induction false} ParseSerialize(v: Value, rest: string)
    requires rest == [] || !IsDigit(rest[0])
    ensures ParseValue(Serialize(v) + rest) == Some((v, rest))
    decreases v, 2
  {
    match v
    case JNull => ParseSerializedLiteral(v, rest);
    case JBool(_) => ParseSerializedLiteral(v, rest);
    case JInt(i) => ParseSerializedNumber(i, rest);
    case JStr(t) => ParseSerializedString(t, rest);
    case JArr(items) => ParseSerializedArray(v, rest);
    case JObj(members) => ParseSerializedObject(v, rest);
  }

  lemma ParseSerializedLiteral(v: Value, rest: string)
    requires v.JNull? || v.JBool?
    ensures ParseValue(Serialize(v) + rest) == Some((v, rest))
  {
    var s := Serialize(v) + rest;
    if v.JNull? {
      assert s[..4] == "null";
    } else if v.b {
      assert s[..4] == "true";
    } else {
      assert s[..5] == "false";
    }
  }

  lemma ParseSerializedNumber(i: int, rest: string)
    requires rest == [] || !IsDigit(rest[0])
    ensures ParseValue(Serialize(JInt(i)) + rest) == Some((JInt(i), rest))
  {
    ParseInt(i, rest);
    var s := IntToString(i) + rest;
    assert s[0] == '-' || IsDigit(s[0]);
  }

  lemma ParseSerializedString(t: string, rest: string)
    ensures ParseValue(Serialize(JStr(t)) + rest) == Some((JStr(t), rest))
  {
    var s := Serialize(JStr(t)) + rest;
    assert s == "\"" + (Escape(t) + "\"" + rest);
    assert s[1..] == Escape(t) + "\"" + rest;
    ParseQuoted(t, rest);
  }

  lemma {:induction false} ParseSerializedArray(v: Value, rest: string)
    requires v.JArr?
    ensures ParseValue(Serialize(v) + rest) == Some((v, rest))
    decreases v, 1
  {
    var s := Serialize(v) + rest;
    if v.items == [] {
      assert SerializeItems(v.items) == "";
      assert s == "[]" + rest;
      assert s[2..] == rest;
    } else {
      ParseItemsSerialized(v.items, rest);
      assert s == "[" + (SerializeItems(v.items) + "]" + rest);
      assert s[1] == SerializeItems(v.items)[0];
      assert s[1..] == SerializeItems(v.items) + "]" + rest;
    }
  }

  lemma ParseObjectOf(body: string, rest: string, members: seq<Member>)
    requires body != [] && body[0] == '"'
    requires ParseMembers(body + "}" + rest) == Some((members, rest))
    ensures ParseValue("{" + body + "}" + rest) == Some((JObj(members), rest))
  {
    var s := "{" + body + "}" + rest;
    assert s[1..] == body + "}" + rest;
  }

  lemma {:induction false} ParseSerializedObject(v: Value, rest: string)
    requires v.JObj?
    ensures ParseValue(Serialize(v) + rest) == Some((v, rest))
    decreases v, 1
  {
    var body := SerializeMembers(v.members);
    assert Serialize(v) == "{" + body + "}";
    if v.members == [] {
      assert body == "";
      assert Serialize(v) + rest == "{}" + rest;
      assert ("{}" + rest)[2..] == rest;
    } else {
      ParseMembersSerialized(v.members, rest);
      ParseObjectOf(body, rest, v.members);
    }
  }

  lemma {:induction false} ParseItemsSerialized(items: seq<Value>, rest: string)
    requires items != []
    ensures SerializeItems(items) != [] && SerializeItems(items)[0] != ']'
    ensures ParseItems(SerializeItems(items) + "]" + rest) == Some((items, rest))
    decreases items, 0
  {
    var s := SerializeItems(items) + "]" + rest;
    if |items| == 1 {
      assert s == Serialize(items[0]) + ("]" + rest);
      ParseSerialize(items[0], "]" + rest);
      assert ("]" + rest)[1..] == rest;
      assert [items[0]] == items;
    } else {
      var tail := SerializeItems(items[1..]) + "]" + rest;
      assert s == Serialize(items[0]) + ("," + tail);
      ParseSerialize(items[0], "," + tail);
      assert ("," + tail)[1..] == tail;
      ParseItemsSerialized(items[1..], rest);
      assert [items[0]] + items[1..] == items;
    }
  }

  /** One serialized member, followed by `after`, is read back whole. */
  lemma {:induction false} ParseSerializedMember(m: Member, after: string)
    requires after != [] && (after[0] == '}' || after[0] == ',')
    ensures SerializeMember(m)[0] == '"'
    ensures ParseMember(SerializeMember(m) + after) == Some((m, after))
    decreases m, 0
  {
    var s := SerializeMember(m) + after;
    var t := ":" + Serialize(m.value) + after;
    SerializedMemberShape(m, after, s, t);
    ParseQuoted(m.name, t);
    ParseSerialize(m.value, after);
    ParseMemberOf(s, m.name, t, m.value, after);
  }

  /** How a serialized member followed by `after` splits into its quoted name and the rest. */
  lemma SerializedMemberShape(m: Member, after: string, s: string, t: string)
    requires s == SerializeMember(m) + after && t == ":" + Serialize(m.value) + after
    ensures s != [] && s[0] == '"' && s[1..] == Escape(m.name) + "\"" + t
    ensures t != [] && t[0] == ':' && t[1..] == Serialize(m.value) + after
  {
    Regroup("\"", Escape(m.name), "\"", ":", Serialize(m.value), after);
    HeadTail('"', Escape(m.name) + "\"" + t);
    Regroup2(":", Serialize(m.value), after);
    HeadTail(':', Serialize(m.value) + after);
  }

  lemma Regroup<T>(a: seq<T>, e: seq<T>, b: seq<T>, c: seq<T>, v: seq<T>, after: seq<T>)
    ensures a + e + b + c + v + after == a + (e + b + (c + v + after))
  {
  }

  lemma Regroup2<T>(a: seq<T>, b: seq<T>, c: seq<T>)
    ensures a + b + c == a + (b + c)
  {
  }

  lemma HeadTail<T>(c: T, x: seq<T>)
    ensures ([c] + x)[0] == c && ([c] + x)[1..] == x
  {
  }

  /** `ParseMember` unfolded: a quoted name, a colon and a value. */
  lemma ParseMemberOf(s: string, name: string, t: string, v: Value, u: string)
    requires s != [] && s[0] == '"' && ParseChars(s[1..]) == Some((name, t))
    requires t != [] && t[0] == ':' && ParseValue(t[1..]) == Some((v, u))
    ensures ParseMember(s) == Some((Member(name, v), u))
  {
  }

  /** `ParseMembers` unfolded at a member followed by the closing brace. */
  lemma ParseMembersLast(s: string, m: Member, u: string)
    requires ParseMember(s) == Some((m, u)) && u != [] && u[0] == '}'
    ensures ParseMembers(s) == Some(([m], u[1..]))
  {
  }

  /** `ParseMembers` unfolded at a member followed by a comma and further members. */
  lemma ParseMembersMore(s: string, m: Member, u: string, ms: seq<Member>, rest: string)
    requires ParseMember(s) == Some((m, u)) && u != [] && u[0] == ','
    requires ParseMembers(u[1..]) == Some((ms, rest))
    ensures ParseMembers(s) == Some(([m] + ms, rest))
  {
  }

  lemma {:induction false} ParseMembersSerialized(members: seq<Member>, rest: string)
    requires members != []
    ensures SerializeMembers(members) != [] && SerializeMembers(members)[0] == '"'
    ensures ParseMembers(SerializeMembers(members) + "}" + rest) == Some((members, rest))
    decreases members, 1
  {
    var m := members[0];
    var head := SerializeMember(m);
    if |members| == 1 {
      var after := "}" + rest;
      Regroup2(head, "}", rest);
      ParseSerializedMember(m, after);
      HeadTail('}', rest);
      ParseMembersLast(head + after, m, after);
      assert [m] == members;
    } else {
      var others := SerializeMembers(members[1..]);
      var tail := others + "}" + rest;
      var after := "," + tail;
      assert SerializeMembers(members) == head + "," + others;
      Regroup4(head, ",", others, "}", rest);
      ParseSerializedMember(m, after);
      HeadTail(',', tail);
      ParseMembersSerialized(members[1..], rest);
      ParseMembersMore(head + after, m, after, members[1..], rest);
      assert [m] + members[1..] == members;
    }
  }

  lemma Regroup4<T>(a: seq<T>, b: seq<T>, c: seq<T>, d: seq<T>, e: seq<T>)
    ensures a + b + c + d + e == a + (b + (c + d + e))
  {
  }

  /** A value that fits a shape survives serialization and binding to that shape. */
  lemma RoundTrip(v: Value, shape: Shape)
    requires Conforms(v, shape)
    ensures Deserialize(Serialize(v), Some(shape)) == Ok(v)
  {
    ParseSerialize(v, "");
    assert Serialize(v) + "" == Serialize(v);
    BindExact(v, shape);
  }
}
