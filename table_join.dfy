/** TableJoin: a query key `"alias.column"` split into the alias of a table
    in the join chain (absent when the key has no '.') and a column. */
module TableJoins {
  import opened Base
  import opened StringHelper

  const Separator: string := "."

  datatype TableJoin = TableJoin(name: Option<string>, column: string)

  /** `TableJoin.of(key)`: null is rejected; a key without '.' is all column;
      otherwise the alias is the text before the first '.' and the column
      the text after it. */
  function Of(key: Option<string>): (r: Result<TableJoin>)
    ensures key.None? ==> r == Err(NullPointer)
    ensures key.Some? ==> r.Ok?
    ensures key.Some? && '.' !in key.value ==> r == Ok(TableJoin(None, key.value))
    ensures key.Some? && '.' in key.value ==> r.Ok? && r.value.name.Some?
  {
    if key.None? then Err(NullPointer)
    else if '.' !in key.value then Ok(TableJoin(None, key.value))
    else
      IndexOfCharFound('.', key.value);
      AfterOfFailsOnlyOnEmpty(Some(Separator), key);
      var column := AfterOf(Some(Separator), key);
      Ok(TableJoin(Some(BeforeOf(Some(Separator), key)), column.value))
  }

  /** Splitting at the first '.' loses nothing: the alias has no '.', and the
      alias, the '.' and the column give back the key. */
  lemma OfRoundTrip(key: string)
    requires '.' in key
    ensures Of(Some(key)).Ok? && Of(Some(key)).value.name.Some?
    ensures var t := Of(Some(key)).value;
            '.' !in t.name.value && t.name.value + "." + t.column == key
  {
    IndexOfCharFound('.', key);
    SplitRoundTrip(Separator, key);
    var t := Of(Some(key)).value;
    var index := IndexOf(Separator, key);
    forall j | 0 <= j < |t.name.value|
      ensures t.name.value[j] != '.'
    {
      assert !OccursAt(Separator, key, j);
      assert key[j..j + 1] == [key[j]];
    }
  }

  /** Only the first '.' splits: `"a.b.c"` names alias `a` and column `b.c`. */
  lemma OfSplitsAtFirstDot()
    ensures Of(Some("a.b.c")) == Ok(TableJoin(Some("a"), "b.c"))
  {
    var key := "a.b.c";
    assert key[1] == '.';
    assert OccursAt(Separator, key, 1) by {
      assert key[1..2] == [key[1]];
    }
    assert !OccursAt(Separator, key, 0) by {
      assert key[0..1] == [key[0]];
    }
    assert IndexOf(Separator, key) == 1;
    assert key[..1] == "a" && key[2..] == "b.c";
  }

  /** `getNameOrElse(other)`: the alias unless it is null or blank. */
  function GetNameOrElse(t: TableJoin, other: Option<string>): (r: Option<string>)
    ensures IsBlank(t.name) ==> r == other
    ensures IsNotBlank(t.name) ==> r == t.name && r.Some?
  {
    if IsBlank(t.name) then other else t.name
  }

  /** A key without '.' takes the given fallback alias; a key
      `"alias.column"` with a visible alias resolves to that alias. */
  lemma KeyAliasResolution(key: string, fallback: Option<string>)
    ensures Of(Some(key)).Ok?
    ensures '.' !in key ==> GetNameOrElse(Of(Some(key)).value, fallback) == fallback
    ensures '.' in key && IsNotBlank(Of(Some(key)).value.name) ==>
              GetNameOrElse(Of(Some(key)).value, fallback) == Of(Some(key)).value.name &&
              Of(Some(key)).value.name.value + "." + Of(Some(key)).value.column == key
  {
    if '.' in key {
      OfRoundTrip(key);
    }
  }

  /** `withColumn`: the same alias with the column replaced. */
  function WithColumn(t: TableJoin, column: string): (r: TableJoin)
    ensures r.name == t.name && r.column == column
  {
    t.(column := column)
  }
}
