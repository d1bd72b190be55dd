/** Shared wrappers: Java's nullable references, its exceptions, and the
    `filter(...).findFirst()` stream search the library uses throughout. */
module Base {

  /** A Java reference that may be null (`None`) or an `Optional`. */
  datatype Option<+T> = None | Some(value: T)

  /** The exceptions the modelled code raises. `QueryException` is split by
      the situation that raises it; its formatted message is not modelled. */
  datatype Error =
    | NullPointer                          // NullPointerException
    | IndexOutOfBounds                     // String/List index out of range
    | CantFindTable(table: Option<string>) // alias not declared / not in the join map
    | CantFindColumn(column: string)       // no field answers to the column
    | TableNotFound(table: Option<string>) // join by table name found nothing
    | NoJoinField                          // no field links two join points
    | MissingTableAnnotation               // getTableNameOf on a class without @Table
    | EntityWithoutTable                   // tableNameOf on a class without @Table
    | NoEntityOfField(field: string)       // collection field without element type
    | PageableUndefined                    // toPage before any withPage

  /** A value or the exception that interrupted its computation. */
  datatype Result<+T> = Ok(value: T) | Err(error: Error)

  /** Completion of an operation that returns nothing (or `this`). */
  datatype Outcome = Pass | Fail(error: Error)

  /** `i` is the first index of `s` whose element satisfies `p`. */
  ghost predicate FirstMatch<T>(s: seq<T>, p: T -> bool, i: int) {
    0 <= i < |s| && p(s[i]) && forall j :: 0 <= j < i ==> !p(s[j])
  }

  /** `s.stream().filter(p).findFirst()`. */
  function FindFirst<T>(s: seq<T>, p: T -> bool): (r: Option<T>)
    ensures r.None? <==> forall i :: 0 <= i < |s| ==> !p(s[i])
    ensures r.Some? ==> exists i :: FirstMatch(s, p, i) && s[i] == r.value
  {
    if s == [] then None
    else if p(s[0]) then
      assert FirstMatch(s, p, 0);
      Some(s[0])
    else
      var r := FindFirst(s[1..], p);
      assert forall i :: FirstMatch(s[1..], p, i) ==> FirstMatch(s, p, i + 1);
      r
  }
}
