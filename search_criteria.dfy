/** SearchCriteria: the fluent builder. It records the root and the joins in
    its `Joiner`, appends a clause per meaningful `where`/`and`/`or` call,
    stores a page request, and on `toList`/`toPage` builds the join map,
    the selected columns and the WHERE predicate. Running the query and
    mapping rows to objects are not part of this model. */
module Criteria {
  import opened Base
  import opened Reflection
  import opened StringHelper
  import opened CollectionHelper
  import opened CriteriaHelper
  import opened TableJoins
  import opened JoinPoints
  import opened WhereClauses
  import J = Joining
  import P = Predicates

  /** Java's `int`. */
  newtype int32 = x: int | -0x8000_0000 <= x < 0x8000_0000

  /** Two's-complement wrap-around of an `int` result. */
  function Wrap32(x: int): int32 {
    ((x + 0x8000_0000) % 0x1_0000_0000 - 0x8000_0000) as int32
  }

  datatype Direction = Asc | Desc

  /** The stored `Pageable`: a zero-based page index, the size, and a sort. */
  datatype PageRequest = PageRequest(pageIndex: int32, size: int32, direction: Direction, orderBy: string)

  /** The page index `withPage(pageNumber, ...)` stores: one less than the
      one-based page number, never negative; `pageNumber - 1` is computed in
      32 bits, so the least `int` wraps to the greatest. */
  function PageIndexOf(pageNumber: int32): (r: int32)
    ensures r >= 0
    ensures pageNumber == -0x8000_0000 ==> r == 0x7fff_ffff
    ensures pageNumber > -0x8000_0000 ==> r as int == if pageNumber <= 0 then 0 else pageNumber as int - 1
  {
    var page := Wrap32(pageNumber as int - 1);
    if page < 0 then 0 else page
  }

  /** The names of the column fields among `fields`, in order. */
  function ColumnNames(fields: seq<FieldInfo>): (r: seq<string>)
    ensures |r| <= |fields|
    ensures forall n :: n in r <==> exists f :: f in fields && IsColumn(f) && f.name == n
  {
    if fields == [] then []
    else if IsColumn(fields[0]) then [fields[0].name] + ColumnNames(fields[1..])
    else ColumnNames(fields[1..])
  }

  /** `getSelectFields`: the names of the non-static column fields of the
      class the results are returned as. */
  function SelectFields(schema: Schema, returnType: ClassName): (r: seq<string>)
    ensures forall n :: n in r <==>
              exists f :: f in FieldsOf(schema, Some(returnType)) && !f.isStatic && IsColumn(f) && f.name == n
  {
    ColumnNames(NonStaticFieldsOf(schema, Some(returnType)))
  }

  /** The selection keeps the declaration order and every occurrence: the
      column names of two runs of fields are those of the first run followed
      by those of the second. */
  lemma {:induction false} ColumnNamesAppend(a: seq<FieldInfo>, b: seq<FieldInfo>)
    ensures ColumnNames(a + b) == ColumnNames(a) + ColumnNames(b)
    decreases |a|
  {
    if a == [] {
      assert a + b == b;
    } else {
      assert (a + b)[0] == a[0] && (a + b)[1..] == a[1..] + b;
      ColumnNamesAppend(a[1..], b);
    }
  }

  /** A single field gives its name exactly when it is a column. */
  lemma ColumnNamesSingle(f: FieldInfo)
    ensures ColumnNames([f]) == if IsColumn(f) then [f.name] else []
  {
    assert [f][1..] == [];
  }

  /** When the class's fields are the run `a` followed by the run `b` (say,
      its own declared fields and then an ancestor's), the selected names of
      `a` come first, in order, then those of `b`. */
  lemma SelectFieldsInDeclarationOrder(schema: Schema, returnType: ClassName, a: seq<FieldInfo>, b: seq<FieldInfo>)
    requires FieldsOf(schema, Some(returnType)) == a + b
    ensures SelectFields(schema, returnType) == ColumnNames(NonStatic(a)) + ColumnNames(NonStatic(b))
  {
    NonStaticAppend(a, b);
    ColumnNamesAppend(NonStatic(a), NonStatic(b));
  }

  /** `getSelections`: each selected field read from the root. */
  function Selections(fields: seq<string>, root: P.Handle): (r: seq<P.Expr>)
    ensures |r| == |fields|
    ensures forall i :: 0 <= i < |fields| ==> r[i] == P.Attr(root, fields[i])
  {
    seq(|fields|, i requires 0 <= i < |fields| => P.Attr(root, fields[i]))
  }

  /** The test of `getJoinField`'s filter in SearchCriteria: the field's name
      or its @Column name is the column. */
  predicate AnswersTo(f: FieldInfo, column: string) {
    f.name == column || ColumnName(f) == Some(column)
  }

  /** `getJoinField(clazz, column)`: the first non-static field answering to
      the column. */
  function ColumnField(schema: Schema, cls: Option<ClassName>, column: string): (r: Option<FieldInfo>)
    ensures var fs := NonStaticFieldsOf(schema, cls);
            (r.None? <==> forall i :: 0 <= i < |fs| ==> !AnswersTo(fs[i], column)) &&
            (r.Some? ==> exists i :: FirstMatch(fs, (f: FieldInfo) => AnswersTo(f, column), i) && fs[i] == r.value)
  {
    FindFirst(NonStaticFieldsOf(schema, cls), (f: FieldInfo) => AnswersTo(f, column))
  }

  /** The test of `getFieldWithJoinTable`'s filter: the field's own name,
      else the first of its @JoinTable name, @JoinColumn name and @ManyToMany
      `mappedBy` that is present decides. */
  predicate NamesJoinTable(f: FieldInfo, tableName: Option<string>) {
    if Some(f.name) == tableName then true
    else if JoinTableName(f).Some? then JoinTableName(f) == tableName
    else if JoinColumnName(f).Some? then JoinColumnName(f) == tableName
    else if ManyToManyMappedBy(f).Some? then ManyToManyMappedBy(f) == tableName
    else false
  }

  /** A present @JoinTable annotation hides the field's @JoinColumn and
      @ManyToMany names: a field whose own name differs matches exactly the
      @JoinTable name. */
  lemma JoinTableAnnotationDecides(f: FieldInfo, tableName: Option<string>)
    requires Some(f.name) != tableName && JoinTableName(f).Some?
    ensures NamesJoinTable(f, tableName) <==> JoinTableName(f) == tableName
  {
  }

  /** `getFieldWithJoinTable(tableName)` for the class of the last point:
      the first non-static field that names the table. */
  function FieldWithJoinTable(schema: Schema, lastClass: Option<ClassName>, tableName: Option<string>): (r: Option<FieldInfo>)
    ensures var fs := NonStaticFieldsOf(schema, lastClass);
            (r.None? <==> forall i :: 0 <= i < |fs| ==> !NamesJoinTable(fs[i], tableName)) &&
            (r.Some? ==> exists i :: FirstMatch(fs, (f: FieldInfo) => NamesJoinTable(f, tableName), i) && fs[i] == r.value)
  {
    FindFirst(NonStaticFieldsOf(schema, lastClass), (f: FieldInfo) => NamesJoinTable(f, tableName))
  }

  /** `getTableNameFrom(table)`: the clause's alias, or the root's alias when
      it is blank; the root's alias is read first, which fails without a
      root. */
  function TableNameFrom(t: TableJoin, rootJoin: Option<JoinPoint>): (r: Result<Option<string>>)
    ensures r.Ok? <==> rootJoin.Some?
    ensures r.Err? ==> r.error == NullPointer
    ensures r.Ok? && IsBlank(t.name) ==> r.value == rootJoin.value.tableName
    ensures r.Ok? && IsNotBlank(t.name) ==> r.value == t.name
  {
    if rootJoin.None? then Err(NullPointer)
    else Ok(GetNameOrElse(t, rootJoin.value.tableName))
  }

  /** The handle a clause is evaluated on: `joiner.getJoin` of its alias. */
  function ClauseHandle(q: QueryClause, rootJoin: Option<JoinPoint>, joinMap: map<Option<string>, P.Handle>): (r: Result<P.Handle>)
    ensures r.Ok? <==> TableNameFrom(q.clause.table, rootJoin).Ok? &&
                       TableNameFrom(q.clause.table, rootJoin).value in joinMap
    ensures r.Ok? ==> r.value == joinMap[TableNameFrom(q.clause.table, rootJoin).value]
    ensures TableNameFrom(q.clause.table, rootJoin).Ok? && r.Err? ==>
              r.error == CantFindTable(TableNameFrom(q.clause.table, rootJoin).value)
  {
    match TableNameFrom(q.clause.table, rootJoin)
    case Err(e) => Err(e)
    case Ok(name) => if name in joinMap then Ok(joinMap[name]) else Err(CantFindTable(name))
  }

  /** The WHERE predicate of a clause list: a left fold seeded with the
      first clause's predicate, combining each later clause with AND or OR
      by its own flag, with no precedence between the two. */
  function Compile(clauses: seq<QueryClause>, rootJoin: Option<JoinPoint>, joinMap: map<Option<string>, P.Handle>): (r: Result<Option<P.Pred>>)
    decreases |clauses|
    ensures clauses == [] ==> r == Ok(None)
    ensures clauses != [] && r.Ok? ==> r.value.Some?
  {
    if clauses == [] then Ok(None)
    else
      match Compile(clauses[..|clauses| - 1], rootJoin, joinMap)
      case Err(e) => Err(e)
      case Ok(acc) =>
        var q := clauses[|clauses| - 1];
        match ClauseHandle(q, rootJoin, joinMap)
        case Err(e) => Err(e)
        case Ok(h) =>
          var p := GetPredicate(q.clause, h);
          Ok(Some(if acc.None? then p else if q.isAndClause then P.And(acc.value, p) else P.Or(acc.value, p)))
  }

  /** A single clause compiles to its own predicate on the handle of its
      alias, whatever its AND/OR flag, or to the error resolving it. */
  lemma CompileSingle(q: QueryClause, rootJoin: Option<JoinPoint>, joinMap: map<Option<string>, P.Handle>)
    ensures ClauseHandle(q, rootJoin, joinMap).Ok? ==>
              Compile([q], rootJoin, joinMap) == Ok(Some(GetPredicate(q.clause, ClauseHandle(q, rootJoin, joinMap).value)))
    ensures ClauseHandle(q, rootJoin, joinMap).Err? ==>
              Compile([q], rootJoin, joinMap) == Err(ClauseHandle(q, rootJoin, joinMap).error)
  {
    assert [q][..0] == [];
  }

  /** Once a prefix fails, the whole list fails with the same error. */
  lemma {:induction false} CompileKeepsError(clauses: seq<QueryClause>, j: nat, rootJoin: Option<JoinPoint>,
                                             joinMap: map<Option<string>, P.Handle>)
    requires j <= |clauses| && Compile(clauses[..j], rootJoin, joinMap).Err?
    ensures Compile(clauses, rootJoin, joinMap) == Compile(clauses[..j], rootJoin, joinMap)
    decreases |clauses| - j
  {
    if j < |clauses| {
      assert clauses[..j + 1][..j] == clauses[..j];
      CompileKeepsError(clauses, j + 1, rootJoin, joinMap);
    } else {
      assert clauses[..j] == clauses;
    }
  }

  /** The first clause whose alias is not in the join map (or any clause,
      when there is no root) decides the error, the first clause included. */
  lemma {:induction false} CompileFailsOnFirstUnmapped(clauses: seq<QueryClause>, k: nat, rootJoin: Option<JoinPoint>,
                                                       joinMap: map<Option<string>, P.Handle>)
    requires k < |clauses| && ClauseHandle(clauses[k], rootJoin, joinMap).Err?
    requires forall i :: 0 <= i < k ==> ClauseHandle(clauses[i], rootJoin, joinMap).Ok?
    ensures Compile(clauses, rootJoin, joinMap) == Err(ClauseHandle(clauses[k], rootJoin, joinMap).error)
  {
    CompilePrefixOk(clauses[..k], rootJoin, joinMap);
    assert clauses[..k + 1][..k] == clauses[..k];
    assert clauses[..k + 1][k] == clauses[k];
    CompileKeepsError(clauses, k + 1, rootJoin, joinMap);
  }

  /** A list whose every clause resolves compiles. */
  lemma {:induction false} CompilePrefixOk(clauses: seq<QueryClause>, rootJoin: Option<JoinPoint>,
                                           joinMap: map<Option<string>, P.Handle>)
    requires forall i :: 0 <= i < |clauses| ==> ClauseHandle(clauses[i], rootJoin, joinMap).Ok?
    ensures Compile(clauses, rootJoin, joinMap).Ok?
    decreases |clauses|
  {
    if clauses != [] {
      var front := clauses[..|clauses| - 1];
      assert forall i :: 0 <= i < |front| ==> front[i] == clauses[i];
      CompilePrefixOk(front, rootJoin, joinMap);
    }
  }

  /** The first clause's AND/OR flag is never consulted. */
  lemma {:induction false} CompileIgnoresFirstFlag(clauses: seq<QueryClause>, flag: bool, rootJoin: Option<JoinPoint>,
                                                   joinMap: map<Option<string>, P.Handle>)
    requires clauses != []
    ensures Compile(clauses[0 := clauses[0].(isAndClause := flag)], rootJoin, joinMap) ==
            Compile(clauses, rootJoin, joinMap)
    decreases |clauses|
  {
    var flipped := clauses[0 := clauses[0].(isAndClause := flag)];
    var n := |clauses|;
    if n == 1 {
      assert flipped[..0] == clauses[..0];
      assert ClauseHandle(flipped[0], rootJoin, joinMap) == ClauseHandle(clauses[0], rootJoin, joinMap);
    } else {
      assert flipped[..n - 1] == clauses[..n - 1][0 := clauses[0].(isAndClause := flag)];
      CompileIgnoresFirstFlag(clauses[..n - 1], flag, rootJoin, joinMap);
      assert flipped[n - 1] == clauses[n - 1];
    }
  }

  /** No precedence: `[A, B (or), C (and)]` compiles to `and(or(A, B), C)`,
      which keeps a row when C holds and A or B holds, not when A holds
      alone. */
  lemma LeftFoldWithoutPrecedence(a: QueryClause, b: QueryClause, c: QueryClause, rootJoin: Option<JoinPoint>,
                                  joinMap: map<Option<string>, P.Handle>, row: P.Row)
    requires !b.isAndClause && c.isAndClause
    requires ClauseHandle(a, rootJoin, joinMap).Ok? && ClauseHandle(b, rootJoin, joinMap).Ok? &&
             ClauseHandle(c, rootJoin, joinMap).Ok?
    ensures var pa := GetPredicate(a.clause, ClauseHandle(a, rootJoin, joinMap).value);
            var pb := GetPredicate(b.clause, ClauseHandle(b, rootJoin, joinMap).value);
            var pc := GetPredicate(c.clause, ClauseHandle(c, rootJoin, joinMap).value);
            Compile([a, b, c], rootJoin, joinMap) == Ok(Some(P.And(P.Or(pa, pb), pc))) &&
            (P.Eval(Compile([a, b, c], rootJoin, joinMap).value.value, row) <==>
               (P.Eval(pa, row) || P.Eval(pb, row)) && P.Eval(pc, row))
  {
    var pa := GetPredicate(a.clause, ClauseHandle(a, rootJoin, joinMap).value);
    var pb := GetPredicate(b.clause, ClauseHandle(b, rootJoin, joinMap).value);
    assert [a][..0] == [];
    assert Compile([a], rootJoin, joinMap) == Ok(Some(pa));
    assert [a, b][..1] == [a];
    assert Compile([a, b], rootJoin, joinMap) == Ok(Some(P.Or(pa, pb)));
    assert [a, b, c][..2] == [a, b];
  }

  /** `getObjectFrom`'s map after copying the first `n` pairs: each put
      overwrites an earlier one under the same field name. */
  function FieldValueMap(fields: seq<string>, values: seq<Option<P.Value>>, n: nat): map<string, Option<P.Value>>
    requires n <= |fields| && n <= |values|
  {
    if n == 0 then map[] else FieldValueMap(fields, values, n - 1)[fields[n - 1] := values[n - 1]]
  }

  /** How many pairs `getObjectFrom` copies: all but the last field. */
  function CopiedCount(fields: seq<string>): nat {
    if |fields| == 0 then 0 else |fields| - 1
  }

  /** After `n` puts the keys are the first `n` field names. */
  lemma {:induction false} FieldValueMapKeys(fields: seq<string>, values: seq<Option<P.Value>>, n: nat)
    requires n <= |fields| && n <= |values|
    ensures FieldValueMap(fields, values, n).Keys == set i | 0 <= i < n :: fields[i]
  {
    if n > 0 {
      FieldValueMapKeys(fields, values, n - 1);
      assert (set i | 0 <= i < n :: fields[i]) == (set i | 0 <= i < n - 1 :: fields[i]) + {fields[n - 1]};
    }
  }

  /** A name maps to the value of its last occurrence among the first `n`
      fields: later puts overwrite earlier ones. */
  lemma {:induction false} FieldValueMapLastWins(fields: seq<string>, values: seq<Option<P.Value>>, n: nat, i: nat)
    requires n <= |fields| && n <= |values| && i < n
    requires forall k :: i < k < n ==> fields[k] != fields[i]
    ensures fields[i] in FieldValueMap(fields, values, n)
    ensures FieldValueMap(fields, values, n)[fields[i]] == values[i]
  {
    if i < n - 1 {
      FieldValueMapLastWins(fields, values, n - 1, i);
    }
  }

  /** The last selected field is never copied (unless its name occurs
      earlier), and with at most one field the map is empty. */
  lemma LastFieldDropped(fields: seq<string>, values: seq<Option<P.Value>>)
    requires CopiedCount(fields) <= |values|
    ensures |fields| <= 1 ==> FieldValueMap(fields, values, CopiedCount(fields)) == map[]
    ensures |fields| >= 1 && fields[|fields| - 1] !in fields[..|fields| - 1] ==>
              fields[|fields| - 1] !in FieldValueMap(fields, values, CopiedCount(fields))
  {
    FieldValueMapKeys(fields, values, CopiedCount(fields));
    if |fields| >= 1 {
      assert forall i :: 0 <= i < |fields| - 1 ==> fields[i] == fields[..|fields| - 1][i];
    }
  }

  /** `getObjectFrom(fields, values)` up to the Gson conversion: the map of
      the first `|fields| - 1` field names to the row's values. A row
      shorter than that fails on `values[i]`. */
  method GetObjectFrom(fields: seq<string>, values: seq<Option<P.Value>>) returns (r: Result<map<string, Option<P.Value>>>)
    ensures r.Ok? <==> CopiedCount(fields) <= |values|
    ensures r.Ok? ==> r.value == FieldValueMap(fields, values, CopiedCount(fields))
    ensures r.Err? ==> r.error == IndexOutOfBounds
  {
    var fieldValueMap: map<string, Option<P.Value>> := map[];
    var i := 0;
    while i < |fields| - 1
      invariant 0 <= i <= CopiedCount(fields) && i <= |values|
      invariant fieldValueMap == FieldValueMap(fields, values, i)
    {
      if i >= |values| {
        return Err(IndexOutOfBounds);
      }
      fieldValueMap := fieldValueMap[fields[i] := values[i]];
      i := i + 1;
    }
    return Ok(fieldValueMap);
  }

  /** What `toList`/`toPage` hand to JPA before running the query. */
  datatype QueryPlan = QueryPlan(selections: seq<P.Expr>, where: Option<P.Pred>, page: Option<PageRequest>)

  class SearchCriteria {
    const schema: Schema
    /** The table-name registry `init` builds: table name to entity class. */
    const entities: map<string, ClassName>
    const returnType: ClassName
    const joiner: J.Joiner
    var predicates: seq<QueryClause>
    var page: Option<PageRequest>

    constructor(schema: Schema, entities: map<string, ClassName>, returnType: ClassName)
      ensures this.schema == schema && this.entities == entities && this.returnType == returnType
      ensures fresh(joiner) && joiner.joinPoints == [] && joiner.joinMap == map[] &&
              joiner.rootJoin.None? && joiner.root.None?
      ensures predicates == [] && page.None?
    {
      this.schema := schema;
      this.entities := entities;
      this.returnType := returnType;
      joiner := new J.Joiner();
      predicates := [];
      page := None;
    }

    /** `select(clazz)`: a new, empty criteria returning `clazz`. */
    static method Select(schema: Schema, entities: map<string, ClassName>, clazz: Option<ClassName>)
      returns (r: Result<SearchCriteria>)
      ensures clazz.None? ==> r == Err(NullPointer)
      ensures clazz.Some? ==>
                (r.Ok? && fresh(r.value) && fresh(r.value.joiner) &&
                 r.value.returnType == clazz.value && r.value.schema == schema && r.value.entities == entities &&
                 r.value.predicates == [] && r.value.page.None? &&
                 r.value.joiner.AllPoints() == [] && r.value.joiner.joinMap == map[])
    {
      if clazz.None? {
        return Err(NullPointer);
      }
      var c := new SearchCriteria(schema, entities, clazz.value);
      return Ok(c);
    }

    /** `selectFrom(clazz)`: `select(clazz).from(clazz)`. */
    static method SelectFrom(schema: Schema, entities: map<string, ClassName>, clazz: Option<ClassName>)
      returns (r: Result<SearchCriteria>)
      ensures clazz.None? ==> r == Err(NullPointer)
      ensures clazz.Some? && GetTableNameOf(schema, clazz).Err? ==> r == Err(GetTableNameOf(schema, clazz).error)
      ensures clazz.Some? && GetTableNameOf(schema, clazz).Ok? ==>
                r.Ok? && fresh(r.value) && fresh(r.value.joiner) && r.value.returnType == clazz.value &&
                r.value.schema == schema && r.value.entities == entities &&
                r.value.predicates == [] && r.value.page.None? &&
                r.value.joiner.rootJoin == Some(JoinPoint(Some(GetTableNameOf(schema, clazz).value), clazz, None)) &&
                r.value.joiner.joinPoints == [] && r.value.joiner.joinMap == map[]
    {
      if clazz.None? {
        return Err(NullPointer);
      }
      var c := new SearchCriteria(schema, entities, clazz.value);
      var outcome := c.From(clazz);
      if outcome.Fail? {
        return Err(outcome.error);
      }
      return Ok(c);
    }

    /** `getTableClass(tableName)`: the registered entity of a table name. */
    function TableClass(tableName: Option<string>): (r: Option<ClassName>)
      ensures r.Some? <==> tableName.Some? && tableName.value in entities
      ensures r.Some? ==> r.value == entities[tableName.value]
    {
      if tableName.Some? && tableName.value in entities then Some(entities[tableName.value]) else None
    }

    /** `from(clazz)`: adds a point named by the class's @Table name. */
    method From(clazz: Option<ClassName>) returns (outcome: Outcome)
      modifies joiner
      ensures GetTableNameOf(schema, clazz).Err? ==>
                outcome == Fail(GetTableNameOf(schema, clazz).error) && unchanged(joiner)
      ensures GetTableNameOf(schema, clazz).Ok? ==>
                outcome == Pass && joiner.AddedPoint(JoinPoint(Some(GetTableNameOf(schema, clazz).value), clazz, None))
    {
      var tableName := GetTableNameOf(schema, clazz);
      if tableName.Err? {
        return Fail(tableName.error);
      }
      joiner.Add(JoinPoint(Some(tableName.value), clazz, None));
      return Pass;
    }

    /** `from(clazz, as)`: adds a point named `as`. */
    method FromAs(clazz: Option<ClassName>, alias: Option<string>)
      modifies joiner
      ensures joiner.AddedPoint(JoinPoint(alias, clazz, None))
    {
      joiner.Add(JoinPoint(alias, clazz, None));
    }

    /** `from(tableName)`: the registered class of the table, possibly
        absent, under the table name. */
    method FromTable(tableName: Option<string>) returns (outcome: Outcome)
      modifies joiner
      ensures tableName.None? ==> outcome == Fail(NullPointer) && unchanged(joiner)
      ensures tableName.Some? ==> outcome == Pass && joiner.AddedPoint(JoinPoint(tableName, TableClass(tableName), None))
    {
      if tableName.None? {
        return Fail(NullPointer);
      }
      FromAs(TableClass(tableName), tableName);
      return Pass;
    }

    /** `from(tableName, as)`. */
    method FromTableAs(tableName: Option<string>, alias: Option<string>) returns (outcome: Outcome)
      modifies joiner
      ensures tableName.None? ==> outcome == Fail(NullPointer) && unchanged(joiner)
      ensures tableName.Some? ==> outcome == Pass && joiner.AddedPoint(JoinPoint(alias, TableClass(tableName), None))
    {
      if tableName.None? {
        return Fail(NullPointer);
      }
      FromAs(TableClass(tableName), alias);
      return Pass;
    }

    /** `join(clazz)`: the same as `from(clazz)`; `Joiner.add` decides
        whether the point is the root. */
    method Join(clazz: Option<ClassName>) returns (outcome: Outcome)
      modifies joiner
      ensures GetTableNameOf(schema, clazz).Err? ==>
                outcome == Fail(GetTableNameOf(schema, clazz).error) && unchanged(joiner)
      ensures GetTableNameOf(schema, clazz).Ok? ==>
                outcome == Pass && joiner.AddedPoint(JoinPoint(Some(GetTableNameOf(schema, clazz).value), clazz, None))
    {
      outcome := From(clazz);
    }

    /** `join(clazz, as)`. */
    method JoinAs(clazz: Option<ClassName>, alias: Option<string>)
      modifies joiner
      ensures joiner.AddedPoint(JoinPoint(alias, clazz, None))
    {
      FromAs(clazz, alias);
    }

    /** `join(tableName)`. */
    method JoinTable(tableName: Option<string>) returns (outcome: Outcome)
      modifies joiner
      ensures JoinedByTableName(tableName, tableName, outcome)
    {
      outcome := JoinUsingTableName(tableName, tableName);
    }

    /** `join(tableName, as)`. */
    method JoinTableAs(tableName: Option<string>, alias: Option<string>) returns (outcome: Outcome)
      modifies joiner
      ensures JoinedByTableName(tableName, alias, outcome)
    {
      outcome := JoinUsingTableName(tableName, alias);
    }

    /** The effect of `joinUsingTableName(tableName, as)`. */
    twostate predicate JoinedByTableName(tableName: Option<string>, alias: Option<string>, outcome: Outcome)
      reads joiner
    {
      if TableClass(tableName).Some? then
        outcome == Pass && joiner.AddedPoint(JoinPoint(alias, TableClass(tableName), None))
      else if old(joiner.GetLast()).None? then
        outcome == Fail(NullPointer) && unchanged(joiner)
      else
        match FieldWithJoinTable(schema, old(joiner.GetLast()).value.clazz, tableName)
        case None => outcome == Fail(TableNotFound(tableName)) && unchanged(joiner)
        case Some(f) => outcome == Pass && joiner.AddedPoint(JoinPoint(alias, None, Some(f)))
    }

    /** `joinUsingTableName(tableName, as)`: a registered table joins its
        entity; otherwise the last point's class must have a field naming
        the table, and the join follows that field. Since the last point is
        null once any join exists, only the first join can be of this kind. */
    method JoinUsingTableName(tableName: Option<string>, alias: Option<string>) returns (outcome: Outcome)
      modifies joiner
      ensures JoinedByTableName(tableName, alias, outcome)
      ensures TableClass(tableName).None? && old(joiner.joinPoints) != [] ==> outcome == Fail(NullPointer)
      ensures TableClass(tableName).None? && old(joiner.rootJoin).None? ==> outcome == Fail(NullPointer)
    {
      var entity := TableClass(tableName);
      if entity.Some? {
        JoinAs(entity, alias);
        return Pass;
      }
      var last := joiner.GetLast();
      if last.None? {
        return Fail(NullPointer);
      }
      var field := FieldWithJoinTable(schema, last.value.clazz, tableName);
      if field.None? {
        return Fail(TableNotFound(tableName));
      }
      joiner.Add(JoinPoint(alias, None, field));
      return Pass;
    }

    /** `getTableJoinOf(key)`: splits the key, finds the point of its alias
        and the class behind it, and replaces the column by the name of the
        first non-static field answering to it. */
    function TableJoinOf(key: Option<string>): (r: Result<TableJoin>)
      reads joiner
      ensures key.None? ==> r == Err(NullPointer)
      ensures key.Some? ==>
                var t := Of(key).value;
                var jp := joiner.GetJoinPoint(t.name);
                (jp.None? ==> r == Err(CantFindTable(t.name))) &&
                (jp.Some? && GetType(jp.value).None? ==> r == Err(NullPointer)) &&
                (jp.Some? && GetType(jp.value).Some? ==>
                   var fs := NonStaticFieldsOf(schema, GetType(jp.value));
                   (r.Ok? <==> exists i :: 0 <= i < |fs| && AnswersTo(fs[i], t.column)) &&
                   (r.Ok? ==> r.value.name == t.name &&
                              exists i :: FirstMatch(fs, (f: FieldInfo) => AnswersTo(f, t.column), i) &&
                                          fs[i].name == r.value.column) &&
                   (r.Err? ==> r.error == CantFindColumn(t.column)))
    {
      match Of(key)
      case Err(e) => Err(e)
      case Ok(table) =>
        match joiner.GetJoinPoint(table.name)
        case None => Err(CantFindTable(table.name))
        case Some(jp) =>
          match GetType(jp)
          case None => Err(NullPointer)
          case Some(cls) =>
            match ColumnField(schema, Some(cls), table.column)
            case None => Err(CantFindColumn(table.column))
            case Some(f) => Ok(WithColumn(table, f.name))
    }

    /** The new list after a guarded clause: with the key resolved, one
        clause is appended; a resolution error leaves the list as it was. */
    twostate predicate Appended(key: string, condition: Condition, isAndClause: bool, outcome: Outcome)
      reads this, joiner
    {
      match TableJoinOf(Some(key))
      case Err(e) => outcome == Fail(e) && predicates == old(predicates)
      case Ok(t) => outcome == Pass && predicates == old(predicates) + [QueryClause(isAndClause, WhereClause(t, condition))]
    }

    /** Resolves the key and appends the clause. */
    method AddClause(key: string, condition: Condition, isAndClause: bool) returns (outcome: Outcome)
      modifies this
      ensures Appended(key, condition, isAndClause, outcome) && page == old(page)
    {
      var table := TableJoinOf(Some(key));
      if table.Err? {
        return Fail(table.error);
      }
      predicates := predicates + [QueryClause(isAndClause, WhereClause(table.value, condition))];
      return Pass;
    }

    /** The common shape of the twelve clause methods: a null key fails
        before anything else; a value the guard drops leaves the list as it
        was without resolving the key. */
    twostate predicate Guarded(key: Option<string>, guard: bool, outcome: Outcome)
      reads this
    {
      page == old(page) &&
      (key.None? ==> outcome == Fail(NullPointer) && predicates == old(predicates)) &&
      (key.Some? && !guard ==> outcome == Pass && predicates == old(predicates))
    }

    /** `where(key, ForAll, value)`: appended when the value is not null. */
    method WhereAll(key: Option<string>, action: ForAll, value: Option<P.Value>) returns (outcome: Outcome)
      modifies this
      ensures Guarded(key, value.Some?, outcome)
      ensures key.Some? && value.Some? ==> Appended(key.value, AllCondition(action, value.value), true, outcome)
    {
      if key.None? {
        return Fail(NullPointer);
      }
      if value.Some? {
        outcome := AddClause(key.value, AllCondition(action, value.value), true);
      } else {
        outcome := Pass;
      }
    }

    /** `where(key, ForString, value)`: appended when the value is not
        blank. */
    method WhereString(key: Option<string>, action: ForString, value: Option<string>) returns (outcome: Outcome)
      modifies this
      ensures Guarded(key, IsNotBlank(value), outcome)
      ensures key.Some? && IsNotBlank(value) ==> Appended(key.value, StringCondition(action, value.value), true, outcome)
    {
      if key.None? {
        return Fail(NullPointer);
      }
      if IsNotBlank(value) {
        outcome := AddClause(key.value, StringCondition(action, value.value), true);
      } else {
        outcome := Pass;
      }
    }

    /** `where(key, ForNumber, value)`: appended when the value is not null. */
    method WhereNumber(key: Option<string>, action: ForNumber, value: Option<P.Value>) returns (outcome: Outcome)
      modifies this
      ensures Guarded(key, value.Some?, outcome)
      ensures key.Some? && value.Some? ==> Appended(key.value, NumberCondition(action, value.value), true, outcome)
    {
      if key.None? {
        return Fail(NullPointer);
      }
      if value.Some? {
        outcome := AddClause(key.value, NumberCondition(action, value.value), true);
      } else {
        outcome := Pass;
      }
    }

    /** `where(key, ForCollection, values)`: guarded by the inverted
        `isNotEmpty`, so appended exactly when the collection is null or
        empty. */
    method WhereCollection(key: Option<string>, action: ForCollection, values: Option<seq<P.Value>>) returns (outcome: Outcome)
      modifies this
      ensures Guarded(key, IsNotEmpty(values), outcome)
      ensures key.Some? && IsNotEmpty(values) ==> Appended(key.value, CollectionCondition(action, values), true, outcome)
      ensures key.Some? && values.Some? && values.value != [] ==> outcome == Pass && predicates == old(predicates)
    {
      if key.None? {
        return Fail(NullPointer);
      }
      if IsNotEmpty(values) {
        outcome := AddClause(key.value, CollectionCondition(action, values), true);
      } else {
        outcome := Pass;
      }
    }

    /** `and(key, ForAll, value)` is `where(key, ForAll, value)`. */
    method AndAll(key: Option<string>, action: ForAll, value: Option<P.Value>) returns (outcome: Outcome)
      modifies this
      ensures Guarded(key, value.Some?, outcome)
      ensures key.Some? && value.Some? ==> Appended(key.value, AllCondition(action, value.value), true, outcome)
    {
      outcome := WhereAll(key, action, value);
    }

    /** `and(key, ForString, value)` is `where(key, ForString, value)`. */
    method AndString(key: Option<string>, action: ForString, value: Option<string>) returns (outcome: Outcome)
      modifies this
      ensures Guarded(key, IsNotBlank(value), outcome)
      ensures key.Some? && IsNotBlank(value) ==> Appended(key.value, StringCondition(action, value.value), true, outcome)
    {
      outcome := WhereString(key, action, value);
    }

    /** `and(key, ForNumber, value)` is `where(key, ForNumber, value)`. */
    method AndNumber(key: Option<string>, action: ForNumber, value: Option<P.Value>) returns (outcome: Outcome)
      modifies this
      ensures Guarded(key, value.Some?, outcome)
      ensures key.Some? && value.Some? ==> Appended(key.value, NumberCondition(action, value.value), true, outcome)
    {
      outcome := WhereNumber(key, action, value);
    }

    /** `and(key, ForCollection, values)` is `where(key, ForCollection,
        values)`. */
    method AndCollection(key: Option<string>, action: ForCollection, values: Option<seq<P.Value>>) returns (outcome: Outcome)
      modifies this
      ensures Guarded(key, IsNotEmpty(values), outcome)
      ensures key.Some? && IsNotEmpty(values) ==> Appended(key.value, CollectionCondition(action, values), true, outcome)
    {
      outcome := WhereCollection(key, action, values);
    }

    /** `or(key, ForAll, value)`: appended as an OR clause when the value is
        not null. */
    method OrAll(key: Option<string>, action: ForAll, value: Option<P.Value>) returns (outcome: Outcome)
      modifies this
      ensures Guarded(key, value.Some?, outcome)
      ensures key.Some? && value.Some? ==> Appended(key.value, AllCondition(action, value.value), false, outcome)
    {
      if key.None? {
        return Fail(NullPointer);
      }
      if value.Some? {
        outcome := AddClause(key.value, AllCondition(action, value.value), false);
      } else {
        outcome := Pass;
      }
    }

    /** `or(key, ForString, value)`: appended as an OR clause when the value
        is not blank. */
    method OrString(key: Option<string>, action: ForString, value: Option<string>) returns (outcome: Outcome)
      modifies this
      ensures Guarded(key, IsNotBlank(value), outcome)
      ensures key.Some? && IsNotBlank(value) ==> Appended(key.value, StringCondition(action, value.value), false, outcome)
    {
      if key.None? {
        return Fail(NullPointer);
      }
      if IsNotBlank(value) {
        outcome := AddClause(key.value, StringCondition(action, value.value), false);
      } else {
        outcome := Pass;
      }
    }

    /** `or(key, ForNumber, value)`: appended as an OR clause when the value
        is not null. */
    method OrNumber(key: Option<string>, action: ForNumber, value: Option<P.Value>) returns (outcome: Outcome)
      modifies this
      ensures Guarded(key, value.Some?, outcome)
      ensures key.Some? && value.Some? ==> Appended(key.value, NumberCondition(action, value.value), false, outcome)
    {
      if key.None? {
        return Fail(NullPointer);
      }
      if value.Some? {
        outcome := AddClause(key.value, NumberCondition(action, value.value), false);
      } else {
        outcome := Pass;
      }
    }

    /** `or(key, ForCollection, values)`: unlike `where`, appended as an OR
        clause for any non-null collection, the empty one included. */
    method OrCollection(key: Option<string>, action: ForCollection, values: Option<seq<P.Value>>) returns (outcome: Outcome)
      modifies this
      ensures Guarded(key, values.Some?, outcome)
      ensures key.Some? && values.Some? ==> Appended(key.value, CollectionCondition(action, values), false, outcome)
    {
      if key.None? {
        return Fail(NullPointer);
      }
      if values.Some? {
        outcome := AddClause(key.value, CollectionCondition(action, values), false);
      } else {
        outcome := Pass;
      }
    }

    /** `withPage(pageable)`: stored as given, null included. */
    method WithPage(pageable: Option<PageRequest>)
      modifies this
      ensures page == pageable && predicates == old(predicates)
    {
      page := pageable;
    }

    /** `withPage(pageNumber, size, orderBy, isAscending)`: a null `orderBy`
        is rejected; otherwise the zero-based page index is stored. */
    method WithPageNumber(pageNumber: int32, size: int32, orderBy: Option<string>, isAscending: bool) returns (outcome: Outcome)
      modifies this
      ensures predicates == old(predicates)
      ensures orderBy.None? ==> outcome == Fail(NullPointer) && page == old(page)
      ensures orderBy.Some? ==>
                outcome == Pass &&
                page == Some(PageRequest(PageIndexOf(pageNumber), size, if isAscending then Asc else Desc, orderBy.value))
    {
      if orderBy.None? {
        return Fail(NullPointer);
      }
      var sort := if isAscending then Asc else Desc;
      var index := Wrap32(pageNumber as int - 1);
      if index < 0 {
        index := 0;
      }
      page := Some(PageRequest(index, size, sort, orderBy.value));
      return Pass;
    }

    /** `getPredicate(cb)`: the left fold over the clause list, each clause
        on the handle of its alias. */
    method GetPredicate() returns (r: Result<Option<P.Pred>>)
      ensures r == Compile(predicates, joiner.rootJoin, joiner.joinMap)
    {
      var whereClause: Option<P.Pred> := None;
      var i := 0;
      while i < |predicates|
        invariant 0 <= i <= |predicates|
        invariant Compile(predicates[..i], joiner.rootJoin, joiner.joinMap) == Ok(whereClause)
      {
        var clause := predicates[i];
        assert predicates[..i + 1][..i] == predicates[..i] && predicates[..i + 1][i] == clause;
        var tableName := TableNameFrom(clause.clause.table, joiner.rootJoin);
        if tableName.Err? {
          CompileKeepsError(predicates, i + 1, joiner.rootJoin, joiner.joinMap);
          return Err(tableName.error);
        }
        var join := joiner.GetJoin(tableName.value);
        if join.Err? {
          CompileKeepsError(predicates, i + 1, joiner.rootJoin, joiner.joinMap);
          return Err(join.error);
        }
        var p := WhereClauses.GetPredicate(clause.clause, join.value);
        if whereClause.None? {
          whereClause := Some(p);
        } else if clause.isAndClause {
          whereClause := Some(P.And(whereClause.value, p));
        } else {
          whereClause := Some(P.Or(whereClause.value, p));
        }
        i := i + 1;
      }
      assert predicates[..i] == predicates;
      return Ok(whereClause);
    }

    /** The plan `toList` builds from the current state: the join map, then
        the selections from the root and the WHERE predicate. */
    ghost function PlanOf(rootJoin: Option<JoinPoint>, joinPoints: seq<JoinPoint>, clauses: seq<QueryClause>): Result<QueryPlan> {
      if rootJoin.None? then Err(NullPointer)
      else
        var chain := J.Realize(schema, rootJoin.value, joinPoints);
        if chain.outcome.Fail? then Err(chain.outcome.error)
        else match Compile(clauses, rootJoin, chain.joinMap)
          case Err(e) => Err(e)
          case Ok(w) =>
            Ok(QueryPlan(Selections(SelectFields(schema, returnType), P.Root(rootJoin.value.clazz)), w, None))
    }

    /** The joiner after `initJoinMap`: the same root and join points, and the
        map (and root handle) that `initJoinMap` builds from them, or a
        cleared map when there is no root. */
    twostate predicate JoinMapRebuilt()
      reads joiner
    {
      joiner.rootJoin == old(joiner.rootJoin) && joiner.joinPoints == old(joiner.joinPoints) &&
      (old(joiner.rootJoin).None? ==> joiner.joinMap == map[]) &&
      (old(joiner.rootJoin).Some? ==>
         joiner.root == Some(P.Root(old(joiner.rootJoin).value.clazz)) &&
         joiner.joinMap == J.Realize(schema, old(joiner.rootJoin).value, old(joiner.joinPoints)).joinMap)
    }

    /** `toList` up to running the query: rebuilds the join map, selects the
        column fields of the result class from the root, and compiles the
        clauses. */
    method ToList() returns (r: Result<QueryPlan>)
      modifies joiner
      ensures r == PlanOf(old(joiner.rootJoin), old(joiner.joinPoints), predicates)
      ensures JoinMapRebuilt()
    {
      var fields := SelectFields(schema, returnType);
      var init := joiner.InitJoinMap(schema);
      if init.Fail? {
        return Err(init.error);
      }
      var selections := Selections(fields, joiner.root.value);
      var where := GetPredicate();
      if where.Err? {
        return Err(where.error);
      }
      return Ok(QueryPlan(selections, where.value, None));
    }

    /** `toPage`: fails before doing anything when no page was set;
        otherwise the `toList` plan with the page attached. */
    method ToPage() returns (r: Result<QueryPlan>)
      modifies joiner
      ensures page.None? ==> r == Err(PageableUndefined) && unchanged(joiner)
      ensures page.Some? ==>
                match PlanOf(old(joiner.rootJoin), old(joiner.joinPoints), predicates)
                case Err(e) => r == Err(e)
                case Ok(plan) => r == Ok(plan.(page := page))
      ensures page.Some? ==> JoinMapRebuilt()
    {
      if page.None? {
        return Err(PageableUndefined);
      }
      var plan := ToList();
      if plan.Err? {
        return Err(plan.error);
      }
      return Ok(plan.value.(page := page));
    }
  }
}
