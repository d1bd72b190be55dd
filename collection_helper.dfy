/** CollectionHelper: emptiness tests, last element, map building and the
    container constructors. A Java `Collection`/`List` argument that may be
    null is an `Option<seq<T>>`; the sequence is its iteration order. */
module CollectionHelper {
  import opened Base

  /** `isEmpty` as written: true for a non-null collection that HAS elements. */
  predicate IsEmpty<T>(items: Option<seq<T>>) {
    items.Some? && |items.value| > 0
  }

  /** `isNotEmpty`: the negation of the inverted `isEmpty`. */
  predicate IsNotEmpty<T>(items: Option<seq<T>>) {
    !IsEmpty(items)
  }

  /** Both tests answer the opposite of their names: `IsEmpty` holds for
      exactly the collections that are present and have elements, and
      `IsNotEmpty` for exactly the null and the empty ones. */
  lemma EmptinessIsInverted<T>(items: Option<seq<T>>)
    ensures IsEmpty(items) <==> (items.Some? && items.value != [])
    ensures IsNotEmpty(items) <==> (items.None? || items.value == [])
    ensures !IsEmpty<T>(Some([])) && IsNotEmpty<T>(None)
  {
  }

  /** `getLastElementOf`: guarded by the inverted `isEmpty`, so a list with
      elements yields null, while an empty list reaches `get(-1)` and a null
      list fails on `size()`. */
  function GetLastElementOf<T>(list: Option<seq<T>>): (r: Result<Option<T>>)
    ensures r.Ok? <==> list.Some? && list.value != []
    ensures r.Ok? ==> r.value.None?
    ensures list == Some([]) ==> r == Err(IndexOutOfBounds)
    ensures list.None? ==> r == Err(NullPointer)
  {
    if IsEmpty(list) then Ok(None)
    else if list.None? then Err(NullPointer)
    else Err(IndexOutOfBounds)  // list.get(list.size() - 1) on an empty list
  }

  /** `mapOf(items, keyProvider, valueProvider)`: `Collectors.toMap` with a
      merge function that keeps the value already present. */
  function MapOf<E, K, V>(items: seq<E>, key: E -> K, value: E -> V): (m: map<K, V>)
  {
    if items == [] then map[]
    else
      var m := MapOf(items[..|items| - 1], key, value);
      var last := items[|items| - 1];
      if key(last) in m then m else m[key(last) := value(last)]
  }

  function Identity<V>(v: V): V {
    v
  }

  /** `mapOf(items, keyProvider)`: the items themselves are the values. */
  function MapOfItems<K, V>(items: seq<V>, key: V -> K): (m: map<K, V>)
  {
    MapOf(items, key, Identity)
  }

  /** One entry per distinct key: the keys are exactly the items' keys. */
  lemma {:induction false} MapOfKeys<E, K, V>(items: seq<E>, key: E -> K, value: E -> V)
    ensures MapOf(items, key, value).Keys == set i | 0 <= i < |items| :: key(items[i])
  {
    if items != [] {
      var front := items[..|items| - 1];
      MapOfKeys(front, key, value);
      assert forall i :: 0 <= i < |front| ==> front[i] == items[i];
    }
  }

  /** On duplicate keys the first item in iteration order wins. */
  lemma {:induction false} MapOfFirstWins<E, K, V>(items: seq<E>, key: E -> K, value: E -> V, i: nat)
    requires i < |items|
    requires forall j :: 0 <= j < i ==> key(items[j]) != key(items[i])
    ensures key(items[i]) in MapOf(items, key, value)
    ensures MapOf(items, key, value)[key(items[i])] == value(items[i])
  {
    var front := items[..|items| - 1];
    if i == |items| - 1 {
      MapOfKeys(front, key, value);
      assert forall j :: 0 <= j < |front| ==> front[j] == items[j];
    } else {
      MapOfFirstWins(front, key, value, i);
    }
  }

  /** The same for the key-only overload. */
  lemma MapOfItemsFirstWins<K, V>(items: seq<V>, key: V -> K, i: nat)
    requires i < |items|
    requires forall j :: 0 <= j < i ==> key(items[j]) != key(items[i])
    ensures key(items[i]) in MapOfItems(items, key) && MapOfItems(items, key)[key(items[i])] == items[i]
  {
    MapOfFirstWins(items, key, Identity, i);
  }

  /** `listOf(items...)`: a new list holding the items in order. */
  function ListOf<T>(items: seq<T>): seq<T> {
    items
  }

  /** `setOf(items...)` and `setOf(list)`: a new set of the items. */
  function SetOf<T(==)>(items: seq<T>): set<T> {
    set x | x in items
  }

  function EmptyList<T>(): seq<T> {
    []
  }

  function EmptyMap<K, V>(): map<K, V> {
    map[]
  }

  /** The container constructors hold exactly the given items, or none. */
  lemma ContainersHoldExactly<T>(items: seq<T>)
    ensures ListOf(items) == items
    ensures forall x :: x in SetOf(items) <==> x in items
    ensures EmptyList<T>() == [] && EmptyMap<T, T>() == map[]
  {
  }
}
