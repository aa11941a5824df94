/** `EnumUtils`: looks up the constant of a value-carrying enum by its value, through a table per
    enum class that is filled the first time the class is asked for. */
module EnumUtils {
  import opened Wrappers

  /** An enum constant: its name and the value `getValue` returns. */
  datatype Constant<V> = Constant(name: string, value: V)

  /** An enum class: its name and its constants in declaration order. */
  datatype EnumClass<V> = EnumClass(name: string, constants: seq<Constant<V>>)

  /** Why registration fails; in the source each is an IllegalArgumentException. */
  datatype EnumError<V> =
    | AlreadyRegistered(cls: string)
    | ConflictedValue(cls: string, value: V, first: string, second: string)

  /** The value table `register` builds, constant by constant; the first constant whose value is
      already taken ends it with an error naming both constants. */
  function ValueTable<V(==)>(cls: string, cs: seq<Constant<V>>): Result<map<V, Constant<V>>, EnumError<V>>
  {
    if cs == [] then Ok(map[])
    else
      match ValueTable(cls, cs[..|cs| - 1])
      case Err(e) => Err(e)
      case Ok(m) =>
        var c := cs[|cs| - 1];
        if c.value in m then Err(ConflictedValue(cls, c.value, m[c.value].name, c.name))
        else Ok(m[c.value := c])
  }

  predicate DistinctValues<V(==)>(cs: seq<Constant<V>>)
  {
    forall i, j :: 0 <= i < j < |cs| ==> cs[i].value != cs[j].value
  }

  /** A table maps each constant's value to that constant and holds nothing else. */
  lemma {:induction false} TableEntries<V>(cls: string, cs: seq<Constant<V>>)
    requires ValueTable(cls, cs).Ok?
    ensures var m := ValueTable(cls, cs).value;
      (forall v :: v in m ==> m[v].value == v && m[v] in cs)
      && (forall i :: 0 <= i < |cs| ==> cs[i].value in m && m[cs[i].value] == cs[i])
  {
    if cs != [] {
      var init := cs[..|cs| - 1];
      TableEntries(cls, init);
      assert forall i :: 0 <= i < |init| ==> init[i] == cs[i];
    }
  }

  /** Registration succeeds exactly when no two constants share a value, and a failure names
      the earlier and the later constant with the shared value. */
  lemma {:induction false} TableOkIffDistinct<V>(cls: string, cs: seq<Constant<V>>)
    ensures ValueTable(cls, cs).Ok? <==> DistinctValues(cs)
    ensures ValueTable(cls, cs).Err? ==> exists i, j :: (0 <= i < j < |cs| && cs[i].value == cs[j].value &&
      ValueTable(cls, cs).error == ConflictedValue(cls, cs[j].value, cs[i].name, cs[j].name))
  {
    if cs != [] {
      var init := cs[..|cs| - 1];
      var c := cs[|cs| - 1];
      TableOkIffDistinct(cls, init);
      assert forall i :: 0 <= i < |init| ==> init[i] == cs[i];
      if ValueTable(cls, init).Ok? {
        TableEntries(cls, init);
        var m := ValueTable(cls, init).value;
        if c.value in m {
          var k :| 0 <= k < |init| && init[k] == m[c.value];
          assert cs[k].value == cs[|cs| - 1].value;
        }
      }
    }
  }

  lemma {:induction false} TableErrorPersists<V>(cls: string, cs: seq<Constant<V>>, k: nat)
    requires k <= |cs| && ValueTable(cls, cs[..k]).Err?
    ensures ValueTable(cls, cs) == ValueTable(cls, cs[..k])
    decreases |cs| - k
  {
    if k < |cs| {
      assert cs[..k + 1][..k] == cs[..k];
      TableErrorPersists(cls, cs, k + 1);
    } else {
      assert cs[..k] == cs;
    }
  }

  /** The static `enumHolder`: the value table of every enum class registered so far. */
  class EnumHolder<V(==)> {
    var enumHolder: map<EnumClass<V>, map<V, Constant<V>>>

    /** Every table held is the one built from its class's constants. */
    predicate Valid()
      reads this
    {
      forall cls :: cls in enumHolder ==> ValueTable(cls.name, cls.constants) == Ok(enumHolder[cls])
    }

    constructor ()
      ensures enumHolder == map[] && Valid()
    {
      enumHolder := map[];
    }

    /** `register`: fails for a class already held or for two constants with one value, and
        then leaves the holder as it was; otherwise adds the class's table. */
    method Register(cls: EnumClass<V>) returns (err: Option<EnumError<V>>)
      requires Valid()
      modifies this
      ensures Valid()
      ensures cls in old(enumHolder) ==> err == Some(AlreadyRegistered(cls.name)) && enumHolder == old(enumHolder)
      ensures cls !in old(enumHolder) && ValueTable(cls.name, cls.constants).Err? ==>
        err == Some(ValueTable(cls.name, cls.constants).error) && enumHolder == old(enumHolder)
      ensures cls !in old(enumHolder) && ValueTable(cls.name, cls.constants).Ok? ==>
        err.None? && enumHolder == old(enumHolder)[cls := ValueTable(cls.name, cls.constants).value]
    {
      if cls in enumHolder {
        return Some(AlreadyRegistered(cls.name));
      }
      var entityMap: map<V, Constant<V>> := map[];
      var i := 0;
      while i < |cls.constants|
        invariant 0 <= i <= |cls.constants|
        invariant ValueTable(cls.name, cls.constants[..i]) == Ok(entityMap)
      {
        var e := cls.constants[i];
        assert cls.constants[..i + 1][..i] == cls.constants[..i];
        if e.value in entityMap {
          TableErrorPersists(cls.name, cls.constants, i + 1);
          return Some(ConflictedValue(cls.name, e.value, entityMap[e.value].name, e.name));
        }
        entityMap := entityMap[e.value := e];
        i := i + 1;
      }
      assert cls.constants[..i] == cls.constants;
      enumHolder := enumHolder[cls := entityMap];
      return None;
    }

    /** `of`: registers the class when it is not held yet, then returns the constant with the
        given value, or none. */
    method Of(cls: EnumClass<V>, value: V) returns (r: Result<Option<Constant<V>>, EnumError<V>>)
      requires Valid()
      modifies this
      ensures Valid()
      ensures r.Err? <==> !DistinctValues(cls.constants)
      ensures r.Err? ==> (ValueTable(cls.name, cls.constants).Err? &&
        r.error == ValueTable(cls.name, cls.constants).error && enumHolder == old(enumHolder))
      ensures r.Ok? ==> cls in enumHolder
      ensures r.Ok? && r.value.Some? ==> r.value.value in cls.constants && r.value.value.value == value
      ensures r.Ok? && r.value.None? ==> forall i :: 0 <= i < |cls.constants| ==> cls.constants[i].value != value
      ensures cls in old(enumHolder) ==> enumHolder == old(enumHolder)
      ensures r.Ok? && cls !in old(enumHolder) ==>
        ValueTable(cls.name, cls.constants).Ok? &&
        enumHolder == old(enumHolder)[cls := ValueTable(cls.name, cls.constants).value]
    {
      TableOkIffDistinct(cls.name, cls.constants);
      if cls !in enumHolder {
        var err := Register(cls);
        if err.Some? {
          return Err(err.value);
        }
      }
      TableEntries(cls.name, cls.constants);
      var table := enumHolder[cls];
      if value in table {
        return Ok(Some(table[value]));
      }
      return Ok(None);
    }
  }
}
