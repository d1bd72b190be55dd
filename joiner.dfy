/** Joiner: the root table and the ordered join points of a query, and the
    map from alias to JPA handle that `initJoinMap` rebuilds from them. The
    handles are symbolic (`Root(cls)`, `Join(parent, field)`), so the map
    records exactly which field each join follows from which handle. */
module Joining {
  import opened Base
  import opened Reflection
  import opened CollectionHelper
  import opened StringHelper
  import opened JoinPoints
  import opened Predicates

  /** The test of `getJoinField`'s filter for a present class: the field's
      type is the class, or it is a collection whose element type is. */
  predicate LinksTo(f: FieldInfo, newClass: ClassName) {
    f.declaredType == newClass || (f.isCollection && f.elementType == Some(newClass))
  }

  predicate HasCollection(fields: seq<FieldInfo>) {
    exists i :: 0 <= i < |fields| && fields[i].isCollection
  }

  /** The filter and `findFirst` of `getJoinField`. For a null class no
      field's type equals it, and the first collection field reached
      evaluates the method reference `newTableClass::equals`, which throws. */
  function FirstJoinField(fields: seq<FieldInfo>, newClass: Option<ClassName>): (r: Result<Option<FieldInfo>>)
    ensures newClass.Some? ==> r == Ok(FindFirst(fields, (f: FieldInfo) => LinksTo(f, newClass.value)))
    ensures newClass.None? ==> r == (if HasCollection(fields) then Err(NullPointer) else Ok(None))
  {
    if fields == [] then Ok(None)
    else if Some(fields[0].declaredType) == newClass then Ok(Some(fields[0]))
    else if fields[0].isCollection then
      if newClass.None? then Err(NullPointer)
      else if fields[0].elementType == newClass then Ok(Some(fields[0]))
      else FirstJoinField(fields[1..], newClass)
    else
      assert newClass.None? ==> (HasCollection(fields) <==> HasCollection(fields[1..])) by {
        if HasCollection(fields) {
          var i :| 0 <= i < |fields| && fields[i].isCollection;
          assert fields[1..][i - 1] == fields[i];
        }
      }
      FirstJoinField(fields[1..], newClass)
  }

  /** `getJoinField(lastClass, newTableClass)`: the name of the first field
      of the previous class (static fields included) that links to the new
      class. When none does, the exception message reads both classes'
      names, which throws first when either is null. */
  function GetJoinField(schema: Schema, lastClass: Option<ClassName>, newClass: Option<ClassName>): (r: Result<string>)
    ensures lastClass.Some? && newClass.Some? ==>
              var fs := FieldsOf(schema, lastClass);
              (r.Ok? <==> exists i :: 0 <= i < |fs| && LinksTo(fs[i], newClass.value)) &&
              (r.Ok? ==> exists i :: FirstMatch(fs, (f: FieldInfo) => LinksTo(f, newClass.value), i) &&
                                     fs[i].name == r.value) &&
              (r.Err? ==> r.error == NoJoinField)
    ensures lastClass.None? || newClass.None? ==> r.Err? && r.error == NullPointer
  {
    match FirstJoinField(FieldsOf(schema, lastClass), newClass)
    case Err(e) => Err(e)
    case Ok(Some(f)) => Ok(f.name)
    case Ok(None) => if lastClass.None? || newClass.None? then Err(NullPointer) else Err(NoJoinField)
  }

  /** The field a join point is reached by: its own field when it has one,
      otherwise the one `getJoinField` finds from the previous class. */
  function JoinFieldOf(schema: Schema, lastClass: Option<ClassName>, jp: JoinPoint): Result<string> {
    if jp.field.Some? then Ok(jp.field.value.name) else GetJoinField(schema, lastClass, jp.clazz)
  }

  /** The map and completion `initJoinMap`'s loop leaves, starting from map
      `m`, handle `last` of class `lastClass`, with `points` still to join. */
  datatype Chain = Chain(joinMap: map<Option<string>, Handle>, outcome: Outcome)

  function ChainFrom(schema: Schema, m: map<Option<string>, Handle>, last: Handle,
                     lastClass: Option<ClassName>, points: seq<JoinPoint>): Chain
    decreases |points|
  {
    if points == [] then Chain(m, Pass)
    else match JoinFieldOf(schema, lastClass, points[0])
      case Err(e) => Chain(m, Fail(e))
      case Ok(name) =>
        var h := Join(last, name);
        ChainFrom(schema, m[points[0].tableName := h], h, points[0].clazz, points[1..])
  }

  /** The whole of `initJoinMap` for a root point: a cleared map holding the
      root handle, then the chain of joins. */
  function Realize(schema: Schema, rootJoin: JoinPoint, points: seq<JoinPoint>): Chain {
    var r := Root(rootJoin.clazz);
    ChainFrom(schema, map[rootJoin.tableName := r], r, rootJoin.clazz, points)
  }

  /** The join handles alone, one per point: each is joined from the handle
      before it (the first from `last`) along the point's join field. */
  function Links(schema: Schema, last: Handle, lastClass: Option<ClassName>, points: seq<JoinPoint>): (r: Result<seq<Handle>>)
    decreases |points|
    ensures r.Ok? ==> |r.value| == |points|
    ensures r.Ok? ==> forall k :: 0 <= k < |points| ==>
              r.value[k].Join? &&
              r.value[k].parent == (if k == 0 then last else r.value[k - 1]) &&
              JoinFieldOf(schema, if k == 0 then lastClass else points[k - 1].clazz, points[k]) ==
                Ok(r.value[k].fieldName)
  {
    if points == [] then Ok([])
    else match JoinFieldOf(schema, lastClass, points[0])
      case Err(e) => Err(e)
      case Ok(name) =>
        var h := Join(last, name);
        match Links(schema, h, points[0].clazz, points[1..])
        case Err(e) => Err(e)
        case Ok(hs) => Ok([h] + hs)
  }

  /** `joinMap.put(points[k].tableName, handles[k])` for each k in order. */
  function PutAll(m: map<Option<string>, Handle>, points: seq<JoinPoint>, handles: seq<Handle>): map<Option<string>, Handle>
    requires |points| == |handles|
    decreases |points|
  {
    if points == [] then m
    else PutAll(m[points[0].tableName := handles[0]], points[1..], handles[1..])
  }

  function TableNames(points: seq<JoinPoint>): set<Option<string>> {
    set k | 0 <= k < |points| :: points[k].tableName
  }

  /** The loop succeeds exactly when every join field is found; it then
      leaves the map with each point's handle put in order, and otherwise
      fails with the first error, the map holding the joins made so far. */
  lemma {:induction false} ChainIsLinksPutInOrder(schema: Schema, m: map<Option<string>, Handle>, last: Handle,
                                                  lastClass: Option<ClassName>, points: seq<JoinPoint>)
    ensures var c := ChainFrom(schema, m, last, lastClass, points);
            var l := Links(schema, last, lastClass, points);
            (c.outcome.Pass? <==> l.Ok?) &&
            (l.Ok? ==> c.joinMap == PutAll(m, points, l.value)) &&
            (l.Err? ==> c.outcome == Fail(l.error))
    decreases |points|
  {
    if points != [] {
      match JoinFieldOf(schema, lastClass, points[0])
      case Err(e) =>
      case Ok(name) =>
        var h := Join(last, name);
        ChainIsLinksPutInOrder(schema, m[points[0].tableName := h], h, points[0].clazz, points[1..]);
    }
  }

  /** The keys after the puts are the old keys and every point's alias. */
  lemma {:induction false} PutAllKeys(m: map<Option<string>, Handle>, points: seq<JoinPoint>, handles: seq<Handle>)
    requires |points| == |handles|
    ensures PutAll(m, points, handles).Keys == m.Keys + TableNames(points)
    decreases |points|
  {
    if points != [] {
      PutAllKeys(m[points[0].tableName := handles[0]], points[1..], handles[1..]);
      assert TableNames(points) == {points[0].tableName} + TableNames(points[1..]) by {
        forall name | name in TableNames(points) ensures name in {points[0].tableName} + TableNames(points[1..]) {
          var k :| 0 <= k < |points| && points[k].tableName == name;
          if k > 0 {
            assert points[1..][k - 1] == points[k];
          }
        }
      }
    }
  }

  /** An alias no point uses keeps its old entry. */
  lemma {:induction false} PutAllUntouched(m: map<Option<string>, Handle>, points: seq<JoinPoint>,
                                           handles: seq<Handle>, name: Option<string>)
    requires |points| == |handles| && name in m
    requires forall k :: 0 <= k < |points| ==> points[k].tableName != name
    ensures name in PutAll(m, points, handles) && PutAll(m, points, handles)[name] == m[name]
    decreases |points|
  {
    if points != [] {
      PutAllUntouched(m[points[0].tableName := handles[0]], points[1..], handles[1..], name);
    }
  }

  /** Later puts overwrite earlier ones: an alias maps to the handle of the
      last point that uses it. */
  lemma {:induction false} PutAllLastWins(m: map<Option<string>, Handle>, points: seq<JoinPoint>,
                                          handles: seq<Handle>, i: nat)
    requires |points| == |handles| && i < |points|
    requires forall k :: i < k < |points| ==> points[k].tableName != points[i].tableName
    ensures points[i].tableName in PutAll(m, points, handles)
    ensures PutAll(m, points, handles)[points[i].tableName] == handles[i]
    decreases |points|
  {
    var m' := m[points[0].tableName := handles[0]];
    if i == 0 {
      PutAllUntouched(m', points[1..], handles[1..], points[0].tableName);
    } else {
      PutAllLastWins(m', points[1..], handles[1..], i - 1);
    }
  }

  /** After a successful `initJoinMap` the keys are exactly the root's alias
      and every join point's alias; each alias maps to the handle of the last
      point that uses it, and the root keeps its entry unless a join point
      reuses its alias. */
  lemma RealizeMap(schema: Schema, rootJoin: JoinPoint, points: seq<JoinPoint>)
    requires Realize(schema, rootJoin, points).outcome.Pass?
    ensures var r := Root(rootJoin.clazz);
            var hs := Links(schema, r, rootJoin.clazz, points);
            var m := Realize(schema, rootJoin, points).joinMap;
            hs.Ok? &&
            m.Keys == {rootJoin.tableName} + TableNames(points) &&
            (forall i :: 0 <= i < |points| && (forall k :: i < k < |points| ==> points[k].tableName != points[i].tableName) ==>
               points[i].tableName in m && m[points[i].tableName] == hs.value[i]) &&
            ((forall k :: 0 <= k < |points| ==> points[k].tableName != rootJoin.tableName) ==>
               rootJoin.tableName in m && m[rootJoin.tableName] == r)
  {
    var r := Root(rootJoin.clazz);
    var m0 := map[rootJoin.tableName := r];
    ChainIsLinksPutInOrder(schema, m0, r, rootJoin.clazz, points);
    var hs := Links(schema, r, rootJoin.clazz, points).value;
    PutAllKeys(m0, points, hs);
    forall i | 0 <= i < |points| && (forall k :: i < k < |points| ==> points[k].tableName != points[i].tableName)
      ensures points[i].tableName in PutAll(m0, points, hs) && PutAll(m0, points, hs)[points[i].tableName] == hs[i]
    {
      PutAllLastWins(m0, points, hs, i);
    }
    if forall k :: 0 <= k < |points| ==> points[k].tableName != rootJoin.tableName {
      PutAllUntouched(m0, points, hs, rootJoin.tableName);
    }
  }

  class Joiner {
    var joinPoints: seq<JoinPoint>
    var joinMap: map<Option<string>, Handle>
    var rootJoin: Option<JoinPoint>
    var root: Option<Handle>

    constructor()
      ensures joinPoints == [] && joinMap == map[] && rootJoin.None? && root.None?
    {
      joinPoints := [];
      joinMap := map[];
      rootJoin := None;
      root := None;
    }

    /** The root point, if any, then the join points in order. */
    function AllPoints(): seq<JoinPoint>
      reads this
    {
      (if rootJoin.Some? then [rootJoin.value] else []) + joinPoints
    }

    /** The state `add(jp)` leaves: the first point becomes the root and is
        not stored among the join points; every later one is appended,
        whatever its alias; the map and the root handle are untouched. */
    twostate predicate AddedPoint(jp: JoinPoint)
      reads this
    {
      (if old(rootJoin).None? && old(joinPoints) == []
       then rootJoin == Some(jp) && joinPoints == []
       else rootJoin == old(rootJoin) && joinPoints == old(joinPoints) + [jp]) &&
      joinMap == old(joinMap) && root == old(root)
    }

    /** `add`. */
    method Add(jp: JoinPoint)
      modifies this
      ensures AddedPoint(jp)
      ensures AllPoints() == old(AllPoints()) + [jp]
    {
      var isJoinPoint := rootJoin.None? && joinPoints == [];
      if isJoinPoint {
        rootJoin := Some(jp);
        return;
      }
      joinPoints := joinPoints + [jp];
    }

    /** `getJoin(tableName)`: the handle mapped to the alias, or a
        QueryException. */
    function GetJoin(tableName: Option<string>): (r: Result<Handle>)
      reads this
      ensures r.Ok? <==> tableName in joinMap
      ensures r.Ok? ==> r.value == joinMap[tableName]
      ensures r.Err? ==> r.error == CantFindTable(tableName)
    {
      if tableName in joinMap then Ok(joinMap[tableName]) else Err(CantFindTable(tableName))
    }

    /** `getLast`: the root while there are no joins; after that the inverted
        emptiness test inside `getLastElementOf` makes it null. */
    function GetLast(): (r: Option<JoinPoint>)
      reads this
      ensures joinPoints == [] ==> r == rootJoin
      ensures joinPoints != [] ==> r.None?
    {
      if joinPoints == [] then rootJoin else GetLastElementOf(Some(joinPoints)).value
    }

    /** `getJoinPoint(name)`: a blank alias stands for the root; any other
        alias finds the first point, root included, that carries it. */
    function GetJoinPoint(name: Option<string>): (r: Option<JoinPoint>)
      reads this
      ensures IsBlank(name) ==> r == rootJoin
      ensures IsNotBlank(name) ==>
                (r.Some? <==> exists i :: 0 <= i < |AllPoints()| && AllPoints()[i].tableName == name) &&
                (r.Some? ==> r.value.tableName == name &&
                             exists i :: FirstMatch(AllPoints(), (jp: JoinPoint) => jp.tableName == name, i) &&
                                         AllPoints()[i] == r.value)
    {
      if IsBlank(name) then rootJoin
      else FindFirst(AllPoints(), (jp: JoinPoint) => jp.tableName == name)
    }

    /** `initJoinMap`: clears the map, then (failing when there is no root)
        roots the query at the root point's class and joins each point from
        the previous handle, putting every handle under its point's alias. */
    method InitJoinMap(schema: Schema) returns (outcome: Outcome)
      modifies this
      ensures joinPoints == old(joinPoints) && rootJoin == old(rootJoin)
      ensures old(rootJoin).None? ==> outcome == Fail(NullPointer) && joinMap == map[] && root == old(root)
      ensures old(rootJoin).Some? ==>
                root == Some(Root(old(rootJoin).value.clazz)) &&
                Chain(joinMap, outcome) == Realize(schema, old(rootJoin).value, old(joinPoints))
    {
      joinMap := map[];
      if rootJoin.None? {
        return Fail(NullPointer);
      }
      var rj := rootJoin.value;
      var r := Root(rj.clazz);
      root := Some(r);
      var lastJoin := r;
      var lastClass := rj.clazz;
      joinMap := joinMap[rj.tableName := r];
      var i := 0;
      while i < |joinPoints|
        invariant 0 <= i <= |joinPoints|
        invariant joinPoints == old(joinPoints) && rootJoin == Some(rj) && root == Some(r)
        invariant ChainFrom(schema, joinMap, lastJoin, lastClass, joinPoints[i..]) == Realize(schema, rj, joinPoints)
      {
        var jp := joinPoints[i];
        assert joinPoints[i..][0] == jp && joinPoints[i..][1..] == joinPoints[i + 1..];
        var fieldName: string;
        if jp.field.Some? {
          fieldName := jp.field.value.name;
        } else {
          var found := GetJoinField(schema, lastClass, jp.clazz);
          if found.Err? {
            return Fail(found.error);
          }
          fieldName := found.value;
        }
        var newJoin := Join(lastJoin, fieldName);
        joinMap := joinMap[jp.tableName := newJoin];
        lastJoin := newJoin;
        lastClass := jp.clazz;
        i := i + 1;
      }
      return Pass;
    }
  }
}
