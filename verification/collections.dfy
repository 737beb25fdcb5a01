/** The collection helpers of `CollectionExtensions` that are in this model:
    the null-safe dictionary and lookup reads, get-or-create, the string
    join, the array range comparisons and the duplicate-tolerant dictionary
    builder.

    A dictionary is a `map`; a lookup is the sequence of key/element pairs it
    was built from, in order, which is how `ILookup` groups keep them. Arrays
    are sequences of at most `Int32Max` elements.
 */
module CollectionExtensions {
  import opened Wrappers
  import opened Text

  // ---------------------------------------------------------------------------
  // Dictionary and lookup reads

  /** `GetValue(dict, key, defaultVal)` on a dictionary: the stored value,
      and `defaultVal` for a null dictionary, a null key or a missing key. */
  function GetValue<K, V>(dict: Option<map<K, V>>, key: Option<K>, defaultVal: V): (r: V)
    ensures dict.None? || key.None? ==> r == defaultVal
    ensures dict.Some? && key.Some? && key.value in dict.value ==> r == dict.value[key.value]
    ensures dict.Some? && key.Some? && key.value !in dict.value ==> r == defaultVal
  {
    if dict.None? || key.None? || key.value !in dict.value then defaultVal
    else dict.value[key.value]
  }

  /** The lookup holds key `k` at position `i`, and not before. */
  predicate FirstAt<K(==), V>(pairs: seq<(K, V)>, k: K, i: int) {
    0 <= i < |pairs| && pairs[i].0 == k && forall j :: 0 <= j < i ==> pairs[j].0 != k
  }

  /** `GetValue(lookup, key, defaultVal)`: the first element of the key's
      group, and `defaultVal` for a null lookup, a null key or a key with no
      group. */
  function LookupValue<K(==), V>(lookup: Option<seq<(K, V)>>, key: Option<K>, defaultVal: V): (r: V)
    ensures lookup.None? || key.None? ==> r == defaultVal
    ensures lookup.Some? && key.Some? && (forall i :: 0 <= i < |lookup.value| ==> lookup.value[i].0 != key.value)
      ==> r == defaultVal
    ensures lookup.Some? && key.Some? ==>
      forall i :: FirstAt(lookup.value, key.value, i) ==> r == lookup.value[i].1
  {
    if lookup.None? || key.None? then defaultVal
    else FirstOfGroup(lookup.value, key.value, defaultVal)
  }

  function FirstOfGroup<K(==), V>(pairs: seq<(K, V)>, k: K, defaultVal: V): (r: V)
    ensures (forall i :: 0 <= i < |pairs| ==> pairs[i].0 != k) ==> r == defaultVal
    ensures forall i :: FirstAt(pairs, k, i) ==> r == pairs[i].1
    decreases |pairs|
  {
    if |pairs| == 0 then defaultVal
    else if pairs[0].0 == k then pairs[0].1
    else
      var r := FirstOfGroup(pairs[1..], k, defaultVal);
      assert forall i :: FirstAt(pairs, k, i) ==> FirstAt(pairs[1..], k, i - 1);
      r
  }

  /** The elements of a key's group, in the lookup's order. */
  function Group<K(==), V>(pairs: seq<(K, V)>, k: K): (g: seq<V>)
    ensures |g| <= |pairs|
    ensures |g| == 0 <==> forall i :: 0 <= i < |pairs| ==> pairs[i].0 != k
    ensures forall i :: 0 <= i < |pairs| && pairs[i].0 == k ==> pairs[i].1 in g
    ensures forall j :: 0 <= j < |g| ==> exists i :: 0 <= i < |pairs| && pairs[i] == (k, g[j])
    decreases |pairs|
  {
    if |pairs| == 0 then []
    else
      var rest := Group(pairs[1..], k);
      var g := (if pairs[0].0 == k then [pairs[0].1] else []) + rest;
      assert forall i :: 1 <= i < |pairs| ==> pairs[i] == pairs[1..][i - 1];
      assert forall j :: 0 <= j < |g| ==> exists i :: 0 <= i < |pairs| && pairs[i] == (k, g[j]) by {
        forall j | 0 <= j < |g|
          ensures exists i :: 0 <= i < |pairs| && pairs[i] == (k, g[j])
        {
          if pairs[0].0 == k && j == 0 {
            assert pairs[0] == (k, g[j]);
          } else {
            var jr := if pairs[0].0 == k then j - 1 else j;
            assert g[j] == rest[jr];
            var i :| 0 <= i < |pairs| - 1 && pairs[1..][i] == (k, rest[jr]);
            assert pairs[i + 1] == (k, g[j]);
          }
        }
      }
      g
  }

  /** `GetValues(lookup, key)`: the key's group, and null for a null lookup,
      a null key or a key with no group. */
  function GetValues<K(==), V>(lookup: Option<seq<(K, V)>>, key: Option<K>): (r: Option<seq<V>>)
    ensures r.None? <==>
      lookup.None? || key.None? || forall i :: 0 <= i < |lookup.value| ==> lookup.value[i].0 != key.value
    ensures r.Some? ==> |r.value| > 0
    ensures r.Some? ==> forall i :: 0 <= i < |lookup.value| && lookup.value[i].0 == key.value ==> lookup.value[i].1 in r.value
    ensures r.Some? ==> forall j :: 0 <= j < |r.value| ==>
      exists i :: 0 <= i < |lookup.value| && lookup.value[i] == (key.value, r.value[j])
  {
    if lookup.None? || key.None? then None
    else
      var g := Group(lookup.value, key.value);
      if |g| == 0 then None else Some(g)
  }

  /** A key's group lists the key's values in the order of the lookup, each
      as often as it is stored: one more pair at the end adds its value at
      the end exactly when it has the key. */
  lemma {:induction false} GroupAppend<K, V>(pairs: seq<(K, V)>, p: (K, V), k: K)
    ensures Group(pairs + [p], k) == Group(pairs, k) + (if p.0 == k then [p.1] else [])
    decreases |pairs|
  {
    if |pairs| == 0 {
      assert pairs + [p] == [p];
      assert [p][1..] == [];
    } else {
      var q := pairs + [p];
      var head := if pairs[0].0 == k then [pairs[0].1] else [];
      var tail := if p.0 == k then [p.1] else [];
      assert q[0] == pairs[0] && q[1..] == pairs[1..] + [p];
      GroupAppend(pairs[1..], p, k);
      calc {
        Group(q, k);
        head + Group(pairs[1..] + [p], k);
        head + (Group(pairs[1..], k) + tail);
        (head + Group(pairs[1..], k)) + tail;
        Group(pairs, k) + tail;
      }
    }
  }

  /** `GetValues` of a lookup with one more pair at the end: the same values
      in the same order, then that pair's value when it has the key. */
  lemma GetValuesAppend<K, V>(pairs: seq<(K, V)>, p: (K, V), k: K)
    ensures GetValues(Some(pairs + [p]), Some(k)).GetOr([]) ==
      GetValues(Some(pairs), Some(k)).GetOr([]) + (if p.0 == k then [p.1] else [])
  {
    GroupAppend(pairs, p, k);
  }

  /** The first element of a key's group, or the default without one. */
  lemma {:induction false} FirstOfGroupIsHead<K, V>(pairs: seq<(K, V)>, k: K, defaultVal: V)
    ensures FirstOfGroup(pairs, k, defaultVal) ==
      (if |Group(pairs, k)| == 0 then defaultVal else Group(pairs, k)[0])
    decreases |pairs|
  {
    if |pairs| > 0 && pairs[0].0 != k {
      FirstOfGroupIsHead(pairs[1..], k, defaultVal);
      assert Group(pairs, k) == [] + Group(pairs[1..], k);
    }
  }

  /** `GetValue` on a lookup reads the first of the values `GetValues`
      returns, and the default exactly when `GetValues` is null. */
  lemma LookupValueIsFirstOfValues<K, V>(lookup: Option<seq<(K, V)>>, key: Option<K>, defaultVal: V)
    ensures LookupValue(lookup, key, defaultVal) ==
      (if GetValues(lookup, key).None? then defaultVal else GetValues(lookup, key).value[0])
  {
    if lookup.Some? && key.Some? {
      FirstOfGroupIsHead(lookup.value, key.value, defaultVal);
    }
  }

  // ---------------------------------------------------------------------------
  // Get or create

  /** `GetOrCreateValue(dict, key, valueFactory)`: throws on a null
      dictionary; returns the stored value and leaves the dictionary as it is
      when the key is present; otherwise stores the factory's value and
      returns it. The result pairs the value with the dictionary after the
      call. */
  function GetOrCreateValue<K, V>(dict: Option<map<K, V>>, key: K, valueFactory: () -> V): (r: Outcome<(V, map<K, V>)>)
    ensures dict.None? <==> r == Throws(NullReferenceException)
    ensures dict.Some? && key in dict.value ==> r == Returns((dict.value[key], dict.value))
    ensures dict.Some? && key !in dict.value ==>
      r.Returns? && r.value.1 == dict.value[key := r.value.0] && r.value.0 == valueFactory()
  {
    if dict.None? then Throws(NullReferenceException)
    else if key in dict.value then Returns((dict.value[key], dict.value))
    else
      var v := valueFactory();
      Returns((v, dict.value[key := v]))
  }

  /** After `GetOrCreateValue` the key is present and `GetValue` reads the
      returned value; a second call changes nothing and returns the same. */
  lemma GetOrCreateThenGet<K, V>(dict: map<K, V>, key: K, valueFactory: () -> V, d: V)
    ensures
      var (v, after) := GetOrCreateValue(Some(dict), key, valueFactory).value;
      && key in after
      && GetValue(Some(after), Some(key), d) == v
      && GetOrCreateValue(Some(after), key, valueFactory) == Returns((v, after))
  {
  }

  // ---------------------------------------------------------------------------
  // Join

  /** An item's text: its `ToString()`, or `""` for a null item. */
  function ItemText(item: Option<string>): string {
    item.GetOr("")
  }

  /** The loop of `Join`: each item's text is appended, after the joiner
      only when something has been written already. */
  function JoinFrom(acc: string, items: seq<Option<string>>, joiner: string): string
    decreases |items|
  {
    if |items| == 0 then acc
    else
      var sep := if |acc| > 0 then joiner else "";
      JoinFrom(acc + sep + ItemText(items[0]), items[1..], joiner)
  }

  /** `Join(list, joiner)`: null for a null list. */
  function Join(list: Option<seq<Option<string>>>, joiner: string): (r: Option<string>)
    ensures r.None? <==> list.None?
    ensures r.Some? && (forall i :: 0 <= i < |list.value| ==> ItemText(list.value[i]) == "") ==> r.value == ""
  {
    match list
    case None => None
    case Some(items) =>
      JoinEmptyItems(items, joiner);
      Some(JoinFrom("", items, joiner))
  }

  lemma {:induction false} JoinEmptyItems(items: seq<Option<string>>, joiner: string)
    ensures (forall i :: 0 <= i < |items| ==> ItemText(items[i]) == "") ==> JoinFrom("", items, joiner) == ""
    decreases |items|
  {
    if |items| > 0 && forall i :: 0 <= i < |items| ==> ItemText(items[i]) == "" {
      JoinEmptyItems(items[1..], joiner);
      assert "" + "" + ItemText(items[0]) == "";
    }
  }

  /** `string.Join(joiner, texts)`: the texts with the joiner between each
      two. */
  function StringJoin(texts: seq<string>, joiner: string): string
    decreases |texts|
  {
    if |texts| == 0 then ""
    else if |texts| == 1 then texts[0]
    else texts[0] + joiner + StringJoin(texts[1..], joiner)
  }

  function Texts(items: seq<Option<string>>): (r: seq<string>)
    ensures |r| == |items|
    ensures forall i :: 0 <= i < |items| ==> r[i] == ItemText(items[i])
  {
    seq(|items|, i requires 0 <= i < |items| => ItemText(items[i]))
  }

  /** Once something is written, every further item gets its joiner. */
  lemma {:induction false} JoinFromNonEmpty(acc: string, items: seq<Option<string>>, joiner: string)
    requires |acc| > 0
    ensures |items| > 0 ==> JoinFrom(acc, items, joiner) == acc + joiner + StringJoin(Texts(items), joiner)
    ensures |items| == 0 ==> JoinFrom(acc, items, joiner) == acc
    decreases |items|
  {
    if |items| > 0 {
      var next := acc + joiner + ItemText(items[0]);
      JoinFromNonEmpty(next, items[1..], joiner);
      assert Texts(items)[1..] == Texts(items[1..]);
      if |items| > 1 {
        assert StringJoin(Texts(items), joiner) == ItemText(items[0]) + joiner + StringJoin(Texts(items[1..]), joiner);
      }
    }
  }

  /** When the first item's text is not empty, `Join` agrees with
      `string.Join`. */
  lemma JoinAgreesWithStringJoin(items: seq<Option<string>>, joiner: string)
    requires |items| > 0 && ItemText(items[0]) != ""
    ensures Join(Some(items), joiner) == Some(StringJoin(Texts(items), joiner))
  {
    var first := ItemText(items[0]);
    assert "" + "" + first == first;
    JoinFromNonEmpty(first, items[1..], joiner);
    assert Texts(items)[1..] == Texts(items[1..]);
  }

  /** The joiner is left out while nothing has been written: items with empty
      text at the front leave no joiner behind, unlike `string.Join`. */
  lemma JoinSkipsLeadingEmpty(item: Option<string>, rest: seq<Option<string>>, joiner: string)
    requires ItemText(item) == ""
    ensures Join(Some([item] + rest), joiner) == Join(Some(rest), joiner)
  {
    assert ([item] + rest)[1..] == rest;
    assert "" + "" + ItemText(item) == "";
  }

  // ---------------------------------------------------------------------------
  // Array comparison

  /** C# `int` addition: the sum wrapped into the 32-bit range. */
  function Wrap32(n: int): (r: int)
    ensures IsInt32(r)
    ensures IsInt32(n) ==> r == n
  {
    (n - Int32Min) % 0x1_0000_0000 + Int32Min
  }

  /** Both ranges lie inside their arrays. */
  predicate InBounds<T>(left: seq<T>, leftIdx: int, right: seq<T>, rightIdx: int, count: int) {
    0 <= leftIdx && 0 <= rightIdx && 0 <= count
    && leftIdx + count <= |left| && rightIdx + count <= |right|
  }

  /** `CompareTo(left, leftIdx, right, rightIdx, count)`: false for a null
      array or when a range's end, computed in 32-bit arithmetic, is past its
      array; otherwise the elements are compared pairwise and the first
      difference gives false. An element read outside an array (a negative
      start, or an end that wrapped round) throws. */
  method CompareRange<T(==)>(left: Option<seq<T>>, leftIdx: int, right: Option<seq<T>>, rightIdx: int, count: int)
    returns (r: Outcome<bool>)
    requires IsInt32(leftIdx) && IsInt32(rightIdx) && IsInt32(count)
    requires left.Some? ==> |left.value| <= Int32Max
    requires right.Some? ==> |right.value| <= Int32Max
    ensures left.None? || right.None? ==> r == Returns(false)
    ensures left.Some? && right.Some?
      && (Wrap32(leftIdx + count) > |left.value| || Wrap32(rightIdx + count) > |right.value|)
      ==> r == Returns(false)
    ensures left.Some? && right.Some? && InBounds(left.value, leftIdx, right.value, rightIdx, count) ==>
      r == Returns(left.value[leftIdx..leftIdx + count] == right.value[rightIdx..rightIdx + count])
    ensures r.Throws? ==>
      r.error == IndexOutOfRangeException && !InBounds(left.value, leftIdx, right.value, rightIdx, count)
    ensures r == Returns(true) && count > 0 ==> InBounds(left.value, leftIdx, right.value, rightIdx, count)
  {
    if left.None? || right.None? {
      return Returns(false);
    }
    var a, b := left.value, right.value;
    if Wrap32(leftIdx + count) > |a| || Wrap32(rightIdx + count) > |b| {
      return Returns(false);
    }
    var i := 0;
    while i < count
      invariant 0 <= i <= count || (i == 0 && count <= 0)
      invariant i > 0 ==> 0 <= leftIdx && leftIdx + i <= |a| && 0 <= rightIdx && rightIdx + i <= |b|
      invariant i > 0 ==> a[leftIdx..leftIdx + i] == b[rightIdx..rightIdx + i]
    {
      var li := Wrap32(leftIdx + i);
      var ri := Wrap32(rightIdx + i);
      if li < 0 || li >= |a| || ri < 0 || ri >= |b| {
        return Throws(IndexOutOfRangeException);
      }
      assert li == leftIdx + i && ri == rightIdx + i;
      if a[li] != b[ri] {
        if InBounds(a, leftIdx, b, rightIdx, count) {
          assert a[leftIdx..leftIdx + count][i] == a[li] && b[rightIdx..rightIdx + count][i] == b[ri];
        }
        return Returns(false);
      }
      assert a[leftIdx..leftIdx + i + 1] == a[leftIdx..leftIdx + i] + [a[li]];
      assert b[rightIdx..rightIdx + i + 1] == b[rightIdx..rightIdx + i] + [b[ri]];
      i := i + 1;
    }
    return Returns(true);
  }

  /** `CompareTo(left, right)`: both arrays present, of equal length and equal
      element by element. */
  method CompareArrays<T(==)>(left: Option<seq<T>>, right: Option<seq<T>>) returns (r: bool)
    requires left.Some? ==> |left.value| <= Int32Max
    requires right.Some? ==> |right.value| <= Int32Max
    ensures r <==> left.Some? && right.Some? && left.value == right.value
  {
    if left.None? || right.None? || |left.value| != |right.value| {
      return false;
    }
    var o := CompareRange(left, 0, right, 0, |left.value|);
    assert InBounds(left.value, 0, right.value, 0, |left.value|);
    assert left.value[0..|left.value|] == left.value && right.value[0..|right.value|] == right.value;
    return o.value;
  }

  // ---------------------------------------------------------------------------
  // Dictionaries from sequences with duplicate keys

  /** The duplicate resolution: `LastInWins` overwrites; every other value of
      the enumeration keeps the first element seen. */
  datatype Duplicates = FirstInWins | LastInWins

  /** An earlier element has the same key as element `i`. */
  predicate SeenBefore<S, K(==)>(source: seq<S>, keySelector: S -> K, i: int)
    requires 0 <= i < |source|
  {
    exists j :: 0 <= j < i && keySelector(source[j]) == keySelector(source[i])
  }

  /** A later element, before position `n`, has the same key as element
      `i`. */
  predicate SeenAfter<S, K(==)>(source: seq<S>, keySelector: S -> K, i: int, n: int)
    requires 0 <= i < n <= |source|
  {
    exists j :: i < j < n && keySelector(source[j]) == keySelector(source[i])
  }

  /** Among the first `n` elements, element `i` is the one the resolution
      keeps for its key. */
  predicate Kept<S, K(==)>(source: seq<S>, keySelector: S -> K, duplicates: Duplicates, i: int, n: int)
    requires 0 <= i < n <= |source|
  {
    if duplicates == LastInWins then !SeenAfter(source, keySelector, i, n) else !SeenBefore(source, keySelector, i)
  }

  /** `ToDictionary(source, keySelector, elementSelector, duplicates,
      onDuplicate)`: the dictionary, and the positions of the elements for
      which `onDuplicate` is called, in call order. */
  method ToDictionary<S, K(==), E>(source: seq<S>, keySelector: S -> K, elementSelector: S -> E, duplicates: Duplicates)
    returns (dict: map<K, E>, repeats: seq<nat>)
    ensures dict.Keys == set i | 0 <= i < |source| :: keySelector(source[i])
    ensures forall i :: 0 <= i < |source| && Kept(source, keySelector, duplicates, i, |source|) ==>
      dict[keySelector(source[i])] == elementSelector(source[i])
    ensures forall i :: 0 <= i < |source| ==> (i in repeats <==> SeenBefore(source, keySelector, i))
    ensures Increasing(repeats)
  {
    dict := map[];
    repeats := [];
    var i := 0;
    assert KeysUpTo(source, keySelector, 0) == {};
    while i < |source|
      invariant 0 <= i <= |source|
      invariant DictUpTo(source, keySelector, elementSelector, duplicates, dict, i)
      invariant RepeatsUpTo(source, keySelector, repeats, i)
    {
      var key := keySelector(source[i]);
      var isDup := key in dict;
      KeysUpToStep(source, keySelector, i);
      DictStep(source, keySelector, elementSelector, duplicates, dict, i);
      dict := if !isDup || duplicates == LastInWins then dict[key := elementSelector(source[i])] else dict;
      RepeatsStep(source, keySelector, repeats, i);
      if isDup {
        repeats := repeats + [i];
      }
      i := i + 1;
    }
    assert KeysUpTo(source, keySelector, |source|) == set i | 0 <= i < |source| :: keySelector(source[i]);
  }

  /** `dict` holds the keys of the first `i` elements, each with the element
      the resolution keeps among them. */
  ghost predicate DictUpTo<S, K, E>(source: seq<S>, keySelector: S -> K, elementSelector: S -> E,
                                    duplicates: Duplicates, dict: map<K, E>, i: int)
    requires 0 <= i <= |source|
  {
    && dict.Keys == KeysUpTo(source, keySelector, i)
    && forall j :: 0 <= j < i && Kept(source, keySelector, duplicates, j, i) ==>
         keySelector(source[j]) in dict && dict[keySelector(source[j])] == elementSelector(source[j])
  }

  /** One pass of the loop keeps `DictUpTo`. */
  lemma DictStep<S, K, E>(source: seq<S>, keySelector: S -> K, elementSelector: S -> E,
                          duplicates: Duplicates, dict: map<K, E>, i: int)
    requires 0 <= i < |source| && DictUpTo(source, keySelector, elementSelector, duplicates, dict, i)
    ensures
      var key := keySelector(source[i]);
      var next := if key !in dict || duplicates == LastInWins then dict[key := elementSelector(source[i])] else dict;
      DictUpTo(source, keySelector, elementSelector, duplicates, next, i + 1)
  {
    var key := keySelector(source[i]);
    var next := if key !in dict || duplicates == LastInWins then dict[key := elementSelector(source[i])] else dict;
    KeysUpToStep(source, keySelector, i);
    assert next.Keys == KeysUpTo(source, keySelector, i + 1);
    forall j | 0 <= j < i + 1 && Kept(source, keySelector, duplicates, j, i + 1)
      ensures keySelector(source[j]) in next && next[keySelector(source[j])] == elementSelector(source[j])
    {
      DictStepAt(source, keySelector, elementSelector, duplicates, dict, i, j);
    }
  }

  lemma DictStepAt<S, K, E>(source: seq<S>, keySelector: S -> K, elementSelector: S -> E,
                            duplicates: Duplicates, dict: map<K, E>, i: int, j: int)
    requires 0 <= i < |source| && DictUpTo(source, keySelector, elementSelector, duplicates, dict, i)
    requires 0 <= j < i + 1 && Kept(source, keySelector, duplicates, j, i + 1)
    ensures
      var key := keySelector(source[i]);
      var next := if key !in dict || duplicates == LastInWins then dict[key := elementSelector(source[i])] else dict;
      keySelector(source[j]) in next && next[keySelector(source[j])] == elementSelector(source[j])
  {
    var key := keySelector(source[i]);
    KeptStep(source, keySelector, duplicates, i);
    KeysUpToStep(source, keySelector, i);
    if j < i && keySelector(source[j]) != key {
      assert Kept(source, keySelector, duplicates, j, i);
    } else if j < i {
      assert duplicates != LastInWins && Kept(source, keySelector, duplicates, j, i);
      assert key in dict;
    }
  }

  /** The keys of the first `i` elements. */
  ghost function KeysUpTo<S, K>(source: seq<S>, keySelector: S -> K, i: int): set<K>
    requires 0 <= i <= |source|
  {
    set j | 0 <= j < i :: keySelector(source[j])
  }

  lemma KeysUpToStep<S, K>(source: seq<S>, keySelector: S -> K, i: int)
    requires 0 <= i < |source|
    ensures KeysUpTo(source, keySelector, i + 1) == KeysUpTo(source, keySelector, i) + {keySelector(source[i])}
    ensures keySelector(source[i]) in KeysUpTo(source, keySelector, i) <==> SeenBefore(source, keySelector, i)
  {
    if keySelector(source[i]) in KeysUpTo(source, keySelector, i) {
      var j :| 0 <= j < i && keySelector(source[j]) == keySelector(source[i]);
    }
  }

  /** Each position in a sequence is larger than the one before. */
  predicate Increasing(s: seq<nat>) {
    forall m, n :: 0 <= m < n < |s| ==> s[m] < s[n]
  }

  /** `repeats` lists, in order, the positions below `i` whose key was seen
      before. */
  predicate RepeatsUpTo<S, K(==)>(source: seq<S>, keySelector: S -> K, repeats: seq<nat>, i: int)
    requires 0 <= i <= |source|
  {
    && (forall j :: 0 <= j < i ==> (j in repeats <==> SeenBefore(source, keySelector, j)))
    && (forall j :: j in repeats ==> j < i)
    && Increasing(repeats)
  }

  lemma RepeatsStep<S, K>(source: seq<S>, keySelector: S -> K, repeats: seq<nat>, i: int)
    requires 0 <= i < |source| && RepeatsUpTo(source, keySelector, repeats, i)
    ensures SeenBefore(source, keySelector, i) ==> RepeatsUpTo(source, keySelector, repeats + [i], i + 1)
    ensures !SeenBefore(source, keySelector, i) ==> RepeatsUpTo(source, keySelector, repeats, i + 1)
  {
    var r := repeats + [i];
    forall m, n | 0 <= m < n < |r|
      ensures r[m] < r[n]
    {
      if n == |repeats| {
        assert r[m] == repeats[m] && repeats[m] in repeats;
      }
    }
  }

  /** How `Kept` changes when the prefix grows by element `i`. */
  lemma KeptStep<S, K>(source: seq<S>, keySelector: S -> K, duplicates: Duplicates, i: int)
    requires 0 <= i < |source|
    ensures forall j :: 0 <= j < i && keySelector(source[j]) != keySelector(source[i]) ==>
      (Kept(source, keySelector, duplicates, j, i + 1) <==> Kept(source, keySelector, duplicates, j, i))
    ensures forall j :: 0 <= j < i && keySelector(source[j]) == keySelector(source[i]) ==>
      (Kept(source, keySelector, duplicates, j, i + 1) <==>
        duplicates != LastInWins && Kept(source, keySelector, duplicates, j, i))
    ensures Kept(source, keySelector, duplicates, i, i + 1) <==>
      duplicates == LastInWins || !SeenBefore(source, keySelector, i)
  {
    forall j | 0 <= j < i
      ensures keySelector(source[j]) != keySelector(source[i]) ==>
        (SeenAfter(source, keySelector, j, i + 1) <==> SeenAfter(source, keySelector, j, i))
      ensures keySelector(source[j]) == keySelector(source[i]) ==> SeenAfter(source, keySelector, j, i + 1)
    {
      if SeenAfter(source, keySelector, j, i + 1) && keySelector(source[j]) != keySelector(source[i]) {
        var k :| j < k < i + 1 && keySelector(source[k]) == keySelector(source[j]);
        assert k < i;
      }
    }
  }

}
