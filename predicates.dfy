/** The vocabulary the clauses are compiled to, in place of JPA's `From`,
    `Expression` and `Predicate` objects: symbolic handles for the root and
    the joins, attribute paths on them, and a predicate tree built from the
    CriteriaBuilder operations the library calls. A reference meaning is
    given alongside: which rows of the joined tables a WHERE clause keeps. */
module Predicates {
  import opened Base
  import opened Reflection
  import opened StringHelper

  /** `query.from(cls)` or `parent.join(fieldName)`. */
  datatype Handle = Root(cls: Option<ClassName>) | Join(parent: Handle, fieldName: string)

  /** `handle.get(name)`. */
  datatype Expr = Attr(from: Handle, name: string)

  /** A value a clause compares with, or a value read from a row. */
  datatype Value = Text(text: string) | Number(number: int) | Flag(flag: bool)

  datatype Pred =
    | Equal(e: Expr, value: Value)
    | NotEqual(e: Expr, value: Value)
    | Like(e: Expr, pattern: string)
    | NotLike(e: Expr, pattern: string)
    | LessThan(e: Expr, value: Value)
    | LessThanOrEqualTo(e: Expr, value: Value)
    | GreaterThan(e: Expr, value: Value)
    | GreaterThanOrEqualTo(e: Expr, value: Value)
    | In(e: Expr, values: Option<seq<Value>>)
    | And(left: Pred, right: Pred)
    | Or(left: Pred, right: Pred)

  predicate IsAtom(p: Pred) {
    !p.And? && !p.Or?
  }

  /** One row of the joined tables: the non-null attribute values. An
      attribute missing from the map is SQL NULL. */
  type Row = map<Expr, Value>

  /** Lexicographic order of texts. */
  predicate TextBelow(a: string, b: string) {
    if a == [] then b != []
    else b != [] && (a[0] < b[0] || (a[0] == b[0] && TextBelow(a[1..], b[1..])))
  }

  /** Strict order of comparable values: numbers by size, texts
      lexicographically, and `false` before `true` (as `Boolean.compareTo`);
      values of different kinds do not compare. */
  predicate Below(a: Value, b: Value) {
    (a.Number? && b.Number? && a.number < b.number) ||
    (a.Text? && b.Text? && TextBelow(a.text, b.text)) ||
    (a.Flag? && b.Flag? && !a.flag && b.flag)
  }

  predicate AtMost(a: Value, b: Value) {
    Below(a, b) || a == b
  }

  /** SQL `LIKE` without an escape character: `%` matches any run of
      characters, `_` any one character, every other character itself. */
  predicate LikeMatch(s: string, pattern: string)
    decreases |s| + |pattern|
  {
    if pattern == [] then s == []
    else if pattern[0] == '%' then
      LikeMatch(s, pattern[1..]) || (s != [] && LikeMatch(s[1..], pattern))
    else
      s != [] && (pattern[0] == '_' || pattern[0] == s[0]) && LikeMatch(s[1..], pattern[1..])
  }

  /** The text contains neither LIKE wildcard. */
  predicate NoWildcard(v: string) {
    forall i :: 0 <= i < |v| ==> v[i] != '%' && v[i] != '_'
  }

  predicate EndsWith(s: string, v: string) {
    |v| <= |s| && s[|s| - |v|..] == v
  }

  /** Whether a WHERE clause keeps a row: SQL's three-valued logic where
      UNKNOWN rows are dropped. A comparison with NULL (a missing attribute)
      is UNKNOWN, so every atom, negated ones included, is false on it; as
      negation occurs only inside atoms, `And` and `Or` are then exact. */
  predicate Eval(p: Pred, row: Row) {
    match p
    case Equal(e, v) => e in row && row[e] == v
    case NotEqual(e, v) => e in row && row[e] != v
    case Like(e, pat) => e in row && row[e].Text? && LikeMatch(row[e].text, pat)
    case NotLike(e, pat) => e in row && row[e].Text? && !LikeMatch(row[e].text, pat)
    case LessThan(e, v) => e in row && Below(row[e], v)
    case LessThanOrEqualTo(e, v) => e in row && AtMost(row[e], v)
    case GreaterThan(e, v) => e in row && Below(v, row[e])
    case GreaterThanOrEqualTo(e, v) => e in row && AtMost(v, row[e])
    case In(e, vs) => e in row && vs.Some? && row[e] in vs.value
    case And(l, r) => Eval(l, row) && Eval(r, row)
    case Or(l, r) => Eval(l, row) || Eval(r, row)
  }

  /** A pattern without wildcards matches only itself. */
  lemma {:induction false} LikeLiteral(s: string, v: string)
    requires NoWildcard(v)
    ensures LikeMatch(s, v) <==> s == v
  {
    if v != [] && s != [] {
      LikeLiteral(s[1..], v[1..]);
      assert s == [s[0]] + s[1..] && v == [v[0]] + v[1..];
    }
  }

  /** A lone `%` matches every text. */
  lemma {:induction false} LikeAnything(s: string)
    ensures LikeMatch(s, "%")
  {
    if s != [] {
      LikeAnything(s[1..]);
    }
  }

  /** `v%` matches exactly the texts that start with `v`. */
  lemma {:induction false} LikePrefix(s: string, v: string)
    requires NoWildcard(v)
    ensures LikeMatch(s, v + "%") <==> v <= s
  {
    if v == [] {
      assert v + "%" == "%";
      LikeAnything(s);
    } else {
      assert (v + "%")[0] == v[0] && (v + "%")[1..] == v[1..] + "%";
      if s != [] {
        LikePrefix(s[1..], v[1..]);
      }
    }
  }

  /** Some suffix of `s` (possibly empty, possibly all of it) matches `q`. */
  ghost predicate SuffixMatches(s: string, q: string) {
    exists k :: 0 <= k <= |s| && LikeMatch(s[k..], q)
  }

  /** A leading `%` lets the rest of the pattern match any suffix. */
  lemma {:induction false} LikeLeadingPercent(s: string, q: string)
    ensures LikeMatch(s, "%" + q) <==> SuffixMatches(s, q)
  {
    assert ("%" + q)[0] == '%' && ("%" + q)[1..] == q;
    assert s[0..] == s;
    if s != [] {
      LikeLeadingPercent(s[1..], q);
      forall k | 0 <= k <= |s| - 1
        ensures s[1..][k..] == s[k + 1..]
      {
      }
      if SuffixMatches(s, q) && !LikeMatch(s, q) {
        var k :| 0 <= k <= |s| && LikeMatch(s[k..], q);
        assert k != 0;
        assert LikeMatch(s[1..][k - 1..], q);
      }
    }
  }

  /** `%v` matches exactly the texts that end with `v`. */
  lemma LikeSuffix(s: string, v: string)
    requires NoWildcard(v)
    ensures LikeMatch(s, "%" + v) <==> EndsWith(s, v)
  {
    LikeLeadingPercent(s, v);
    if EndsWith(s, v) {
      LikeLiteral(s[|s| - |v|..], v);
    }
    if SuffixMatches(s, v) {
      var k :| 0 <= k <= |s| && LikeMatch(s[k..], v);
      LikeLiteral(s[k..], v);
    }
  }

  /** `%v%` matches exactly the texts that contain `v`. */
  lemma LikeInfix(s: string, v: string)
    requires NoWildcard(v)
    ensures LikeMatch(s, "%" + v + "%") <==> exists i :: OccursAt(v, s, i)
  {
    assert "%" + v + "%" == "%" + (v + "%");
    LikeLeadingPercent(s, v + "%");
    if SuffixMatches(s, v + "%") {
      var k :| 0 <= k <= |s| && LikeMatch(s[k..], v + "%");
      LikePrefix(s[k..], v);
      assert OccursAt(v, s, k);
    }
    if exists i :: OccursAt(v, s, i) {
      var i :| OccursAt(v, s, i);
      LikePrefix(s[i..], v);
      assert v <= s[i..];
    }
  }
}
