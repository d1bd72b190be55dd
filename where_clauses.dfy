/** The `WhereClause` interface and its four implementations. Each clause
    holds the resolved `TableJoin` (`getTable`), an operator from a closed
    enumeration, and the value; `getPredicate` maps the operator to one
    CriteriaBuilder predicate on the column of the handle it is given. */
module WhereClauses {
  import opened Base
  import opened StringHelper
  import opened TableJoins
  import P = Predicates

  /** The operator enumerations, with exactly the constants the switches
      handle. */
  datatype ForAll = Equal | NotEqual
  datatype ForString = Like | NotLike | StartWith | NotStartWith | EndWith | NotEndWith
  datatype ForNumber = LessThan | LessThanOrEqual | LargerThan | LargerThanOrEqual
  datatype ForCollection = In

  /** The operator and value of one of the four clause classes. */
  datatype Condition =
    | AllCondition(allAction: ForAll, value: P.Value)
    | StringCondition(stringAction: ForString, text: string)
    | NumberCondition(numberAction: ForNumber, number: P.Value)
    | CollectionCondition(collectionAction: ForCollection, values: Option<seq<P.Value>>)

  /** A `WhereClause`: `table` is what `getTable` returns. */
  datatype WhereClause = WhereClause(table: TableJoin, condition: Condition)

  /** A clause and whether it joins the clauses before it with AND. */
  datatype QueryClause = QueryClause(isAndClause: bool, clause: WhereClause)

  /** `getPredicate(cb, join)` of the clause's class. */
  function GetPredicate(c: WhereClause, join: P.Handle): (p: P.Pred)
    ensures P.IsAtom(p) && p.e == P.Attr(join, c.table.column)
    ensures c.condition.AllCondition? ==> (p.Equal? || p.NotEqual?) && p.value == c.condition.value
    ensures c.condition.StringCondition? ==>
              (p.Like? || p.NotLike?) && (p.NotLike? <==> IsNegated(c.condition.stringAction))
    ensures c.condition.StringCondition? && Positive(c.condition.stringAction) == Like ==>
              p.pattern == "%" + c.condition.text + "%"
    ensures c.condition.StringCondition? && Positive(c.condition.stringAction) == StartWith ==>
              p.pattern == c.condition.text + "%"
    ensures c.condition.StringCondition? && Positive(c.condition.stringAction) == EndWith ==>
              p.pattern == "%" + c.condition.text
    ensures c.condition.NumberCondition? ==>
              (p.LessThan? || p.LessThanOrEqualTo? || p.GreaterThan? || p.GreaterThanOrEqualTo?) &&
              p.value == c.condition.number
    ensures c.condition.CollectionCondition? ==> p.In? && p.values == c.condition.values
    ensures c.condition.AllCondition? && c.condition.allAction == Equal ==>
              p == P.Equal(P.Attr(join, c.table.column), c.condition.value)
    ensures c.condition.AllCondition? && c.condition.allAction == NotEqual ==>
              p == P.NotEqual(P.Attr(join, c.table.column), c.condition.value)
    ensures c.condition.NumberCondition? && c.condition.numberAction == LessThan ==>
              p == P.LessThan(P.Attr(join, c.table.column), c.condition.number)
    ensures c.condition.NumberCondition? && c.condition.numberAction == LessThanOrEqual ==>
              p == P.LessThanOrEqualTo(P.Attr(join, c.table.column), c.condition.number)
    ensures c.condition.NumberCondition? && c.condition.numberAction == LargerThan ==>
              p == P.GreaterThan(P.Attr(join, c.table.column), c.condition.number)
    ensures c.condition.NumberCondition? && c.condition.numberAction == LargerThanOrEqual ==>
              p == P.GreaterThanOrEqualTo(P.Attr(join, c.table.column), c.condition.number)
  {
    var x := P.Attr(join, c.table.column);
    match c.condition
    case AllCondition(action, v) =>
      (match action
       case Equal => P.Equal(x, v)
       case NotEqual => P.NotEqual(x, v))
    case StringCondition(action, v) =>
      (match action
       case Like => P.Like(x, "%" + v + "%")
       case NotLike => P.NotLike(x, "%" + v + "%")
       case StartWith => P.Like(x, v + "%")
       case NotStartWith => P.NotLike(x, v + "%")
       case EndWith => P.Like(x, "%" + v)
       case NotEndWith => P.NotLike(x, "%" + v))
    case NumberCondition(action, v) =>
      (match action
       case LessThan => P.LessThan(x, v)
       case LessThanOrEqual => P.LessThanOrEqualTo(x, v)
       case LargerThan => P.GreaterThan(x, v)
       case LargerThanOrEqual => P.GreaterThanOrEqualTo(x, v))
    case CollectionCondition(action, vs) =>
      (match action
       case In => P.In(x, vs))
  }

  predicate IsNegated(a: ForString) {
    a.NotLike? || a.NotStartWith? || a.NotEndWith?
  }

  /** The operator a negated string operator negates. */
  function Positive(a: ForString): (r: ForString)
    ensures !IsNegated(r)
    ensures !IsNegated(a) ==> r == a
  {
    match a
    case NotLike => Like
    case NotStartWith => StartWith
    case NotEndWith => EndWith
    case _ => a
  }

  ghost predicate Contains(s: string, v: string) {
    exists i :: OccursAt(v, s, i)
  }

  /** What a positive string operator asks of a column text `s`, stated
      without patterns. */
  ghost predicate StringTest(a: ForString, v: string, s: string) {
    match Positive(a)
    case Like => Contains(s, v)
    case StartWith => v <= s
    case EndWith => P.EndsWith(s, v)
    case _ => false
  }

  /** For a value without LIKE wildcards, the string operators keep exactly
      the rows whose column is a non-null text that contains, starts with or
      ends with the value, and the negated operators the non-null texts that
      do not. */
  lemma StringClauseMeaning(c: WhereClause, join: P.Handle, row: P.Row)
    requires c.condition.StringCondition? && P.NoWildcard(c.condition.text)
    ensures var x := P.Attr(join, c.table.column);
            P.Eval(GetPredicate(c, join), row) <==>
              x in row && row[x].Text? &&
              (StringTest(c.condition.stringAction, c.condition.text, row[x].text) !=
               IsNegated(c.condition.stringAction))
  {
    var x := P.Attr(join, c.table.column);
    var v := c.condition.text;
    if x in row && row[x].Text? {
      var s := row[x].text;
      match Positive(c.condition.stringAction)
      case Like => P.LikeInfix(s, v);
      case StartWith => P.LikePrefix(s, v);
      case EndWith => P.LikeSuffix(s, v);
    }
  }

  /** Each negated string operator is `notLike` with exactly the pattern its
      positive counterpart passes to `like`. */
  lemma NegatedSharesPattern(t: TableJoin, a: ForString, v: string, join: P.Handle)
    requires IsNegated(a)
    ensures var pos := GetPredicate(WhereClause(t, StringCondition(Positive(a), v)), join);
            pos.Like? &&
            GetPredicate(WhereClause(t, StringCondition(a, v)), join) == P.NotLike(pos.e, pos.pattern)
  {
  }

  /** On a non-null column, each negated operator keeps exactly the rows its
      positive counterpart drops; on NULL both drop the row. */
  lemma NegationComplements(t: TableJoin, a: ForString, v: string, join: P.Handle, row: P.Row)
    requires IsNegated(a)
    ensures var x := P.Attr(join, t.column);
            var neg := P.Eval(GetPredicate(WhereClause(t, StringCondition(a, v)), join), row);
            var pos := P.Eval(GetPredicate(WhereClause(t, StringCondition(Positive(a), v)), join), row);
            (x in row && row[x].Text? ==> (neg <==> !pos)) &&
            (x !in row ==> !neg && !pos)
  {
  }

  /** `EQUAL` keeps the rows whose column equals the value, `NOT_EQUAL` the
      rows whose non-null column differs from it. */
  lemma AllClauseMeaning(c: WhereClause, join: P.Handle, row: P.Row)
    requires c.condition.AllCondition?
    ensures var x := P.Attr(join, c.table.column);
            P.Eval(GetPredicate(c, join), row) <==>
              x in row && ((row[x] == c.condition.value) <==> c.condition.allAction == Equal)
  {
  }

  /** The comparisons put the column on the left: `LARGER_THAN v` keeps the
      rows where `v` is below the column, and the inclusive operators add
      equality to the strict ones, for numbers, texts and booleans alike. */
  lemma NumberClauseMeaning(c: WhereClause, join: P.Handle, row: P.Row)
    requires c.condition.NumberCondition?
    ensures var x := P.Attr(join, c.table.column);
            var v := c.condition.number;
            var strict := c.condition.numberAction.LessThan? || c.condition.numberAction.LargerThan?;
            var below := c.condition.numberAction.LessThan? || c.condition.numberAction.LessThanOrEqual?;
            P.Eval(GetPredicate(c, join), row) <==>
              x in row &&
              ((if below then P.Below(row[x], v) else P.Below(v, row[x])) || (!strict && row[x] == v))
  {
  }

  /** `IN` keeps the rows whose non-null column is one of the values; the
      collection is passed on unchecked, so a null one keeps no row. */
  lemma CollectionClauseMeaning(c: WhereClause, join: P.Handle, row: P.Row)
    requires c.condition.CollectionCondition?
    ensures var x := P.Attr(join, c.table.column);
            P.Eval(GetPredicate(c, join), row) <==>
              x in row && c.condition.values.Some? && row[x] in c.condition.values.value
  {
  }

  /** Values are not escaped: `START_WITH "a%"` also keeps a row whose text
      is "ab", which does not start with "a%". */
  lemma ValuesAreNotEscaped(join: P.Handle, row: P.Row, t: TableJoin)
    requires P.Attr(join, t.column) in row && row[P.Attr(join, t.column)] == P.Text("ab")
    ensures P.Eval(GetPredicate(WhereClause(t, StringCondition(StartWith, "a%")), join), row)
    ensures !("a%" <= "ab")
  {
    assert "a%" + "%" == "a%%";
    assert P.LikeMatch("", "");
    assert P.LikeMatch("", "%");
    assert P.LikeMatch("b", "%");
    assert P.LikeMatch("b", "%%");
    assert P.LikeMatch("ab", "a%%");
  }
}
