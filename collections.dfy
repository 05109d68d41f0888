/** Collection helpers of the utility layer: Util.removeDuplicates, Util.toKeyValue
    and Util.getValueOfKey. */
module Collections {
  import opened Values

  predicate NoDuplicates<T(==,!new)>(s: seq<T>) {
    forall i, j :: 0 <= i < j < |s| ==> s[i] != s[j]
  }

  /** Where x first occurs in s. */
  function FirstIndex<T(==,!new)>(s: seq<T>, x: T): (k: nat)
    requires x in s
    ensures k < |s| && s[k] == x && x !in s[..k]
  {
    if s[0] == x then 0
    else
      var k := 1 + FirstIndex(s[1..], x);
      assert s[..k] == [s[0]] + s[1..][..k - 1];
      k
  }

  /** [...new Set(values)]: a Set keeps the first occurrence of each element, in
      insertion order. */
  function RemoveDuplicates<T(==,!new)>(values: seq<T>): (r: seq<T>)
    ensures forall x :: x in r <==> x in values
    ensures NoDuplicates(r)
    ensures |r| <= |values|
    decreases |values|
  {
    if values == [] then []
    else
      var r := RemoveDuplicates(values[..|values| - 1]);
      var x := values[|values| - 1];
      if x in r then r else r + [x]
  }

  /** The survivors keep the order in which they first occur in the input. */
  lemma {:induction false} RemoveDuplicatesKeepsFirstOccurrenceOrder<T(!new)>(values: seq<T>)
    ensures forall i, j :: 0 <= i < j < |RemoveDuplicates(values)| ==>
      FirstIndex(values, RemoveDuplicates(values)[i]) < FirstIndex(values, RemoveDuplicates(values)[j])
    decreases |values|
  {
    if values != [] {
      var init := values[..|values| - 1];
      var x := values[|values| - 1];
      var r0 := RemoveDuplicates(init);
      var r := RemoveDuplicates(values);
      RemoveDuplicatesKeepsFirstOccurrenceOrder(init);
      assert r == if x in r0 then r0 else r0 + [x];
      forall i, j | 0 <= i < j < |r| ensures FirstIndex(values, r[i]) < FirstIndex(values, r[j]) {
        assert r[i] == r0[i] && r0[i] in init;
        FirstIndexInPrefix(values, init, r[i]);
        if j < |r0| {
          assert r[j] == r0[j] && r0[j] in init;
          FirstIndexInPrefix(values, init, r[j]);
          assert FirstIndex(init, r0[i]) < FirstIndex(init, r0[j]);
        } else {
          assert x !in init && r[j] == x;
          assert values[..|values| - 1] == init;
          FirstIndexUnique(values, x, |values| - 1);
        }
      }
    }
  }

  lemma FirstIndexInPrefix<T(!new)>(values: seq<T>, init: seq<T>, y: T)
    requires values != [] && init == values[..|values| - 1] && y in init
    ensures FirstIndex(values, y) == FirstIndex(init, y) < |init|
  {
    var k := FirstIndex(init, y);
    assert values[..k] == init[..k];
    FirstIndexUnique(values, y, k);
  }

  lemma FirstIndexUnique<T(!new)>(s: seq<T>, x: T, k: nat)
    requires k < |s| && s[k] == x && x !in s[..k]
    ensures FirstIndex(s, x) == k
  {
  }

  /** A sequence without repeated elements is left as it is. */
  lemma {:induction false} RemoveDuplicatesIdempotent<T(!new)>(values: seq<T>)
    requires NoDuplicates(values)
    ensures RemoveDuplicates(values) == values
    decreases |values|
  {
    if values != [] {
      var init := values[..|values| - 1];
      assert NoDuplicates(init);
      RemoveDuplicatesIdempotent(init);
      assert values[|values| - 1] !in init;
      assert init + [values[|values| - 1]] == values;
    }
  }

  /** Util.removeDuplicates on any value: a non-array is first wrapped in a one-element array. */
  function RemoveDuplicatesOf(values: Value): (r: seq<Value>)
    ensures !values.Arr? ==> r == [values]
    ensures values.Arr? ==> NoDuplicates(r) && forall x :: x in r <==> x in values.elems
  {
    if values.Arr? then RemoveDuplicates(values.elems) else RemoveDuplicates([values])
  }

  /** The property key obj[key] contributes and the value obj[value] it stores. */
  function EntryKey(obj: Value, key: string): string {
    ToJsString(Get(obj, key))
  }

  /** The entries of toKeyValue's result: each object assigns keyValue[obj[key]] = obj[value]. */
  function KeyValuePairs(objs: seq<Value>, key: string, value: string): (ps: Props)
    ensures DistinctKeys(ps)
    decreases |objs|
  {
    if objs == [] then []
    else
      var acc := KeyValuePairs(objs[..|objs| - 1], key, value);
      var o := objs[|objs| - 1];
      PutPropKeepsKeysDistinct(acc, EntryKey(o, key), Get(o, value));
      PutProp(acc, EntryKey(o, key), Get(o, value))
  }

  /** The keys of toKeyValue's result are exactly the (stringified) keys of the objects. */
  lemma {:induction false} KeyValuePairsKeys(objs: seq<Value>, key: string, value: string)
    ensures forall k :: k in Keys(KeyValuePairs(objs, key, value)) <==>
      exists i :: 0 <= i < |objs| && EntryKey(objs[i], key) == k
    decreases |objs|
  {
    if objs != [] {
      var init := objs[..|objs| - 1];
      KeyValuePairsKeys(init, key, value);
      forall k ensures k in Keys(KeyValuePairs(objs, key, value)) <==>
        exists i :: 0 <= i < |objs| && EntryKey(objs[i], key) == k
      {
        if exists i :: 0 <= i < |objs| && EntryKey(objs[i], key) == k {
          var i :| 0 <= i < |objs| && EntryKey(objs[i], key) == k;
          if i < |objs| - 1 {
            assert init[i] == objs[i];
          }
        }
        if exists i :: 0 <= i < |init| && EntryKey(init[i], key) == k {
          var i :| 0 <= i < |init| && EntryKey(init[i], key) == k;
          assert objs[i] == init[i];
        }
      }
    }
  }

  /** When several objects share a key, the last of them wins. */
  lemma {:induction false} KeyValuePairsLastWins(objs: seq<Value>, key: string, value: string, i: nat)
    requires i < |objs|
    requires forall j :: i < j < |objs| ==> EntryKey(objs[j], key) != EntryKey(objs[i], key)
    ensures Lookup(KeyValuePairs(objs, key, value), EntryKey(objs[i], key)) == Get(objs[i], value)
    decreases |objs|
  {
    if i < |objs| - 1 {
      var init := objs[..|objs| - 1];
      assert init[i] == objs[i];
      KeyValuePairsLastWins(init, key, value, i);
    }
  }

  lemma KeyValuePairsSnoc(objs: seq<Value>, key: string, value: string, i: nat)
    requires i < |objs|
    ensures KeyValuePairs(objs[..i + 1], key, value)
      == PutProp(KeyValuePairs(objs[..i], key, value), EntryKey(objs[i], key), Get(objs[i], value))
  {
    assert objs[..i + 1][..i] == objs[..i];
  }

  predicate AnyNullish(objs: seq<Value>) {
    exists i :: 0 <= i < |objs| && IsNullish(objs[i])
  }

  lemma AnyNullishSnoc(objs: seq<Value>, i: nat)
    requires i < |objs|
    ensures AnyNullish(objs[..i + 1]) <==> AnyNullish(objs[..i]) || IsNullish(objs[i])
  {
    var prefix := objs[..i + 1];
    if AnyNullish(prefix) && !IsNullish(objs[i]) {
      var j :| 0 <= j < |prefix| && IsNullish(prefix[j]);
      assert objs[..i][j] == prefix[j];
    }
    if AnyNullish(objs[..i]) {
      var j :| 0 <= j < i && IsNullish(objs[..i][j]);
      assert prefix[j] == objs[..i][j];
    }
    if IsNullish(objs[i]) {
      assert prefix[i] == objs[i];
    }
  }

  /** Util.toKeyValue: reading a property of a null or undefined element throws. */
  method ToKeyValue(objs: seq<Value>, key: string, value: string) returns (r: Completion<Value>)
    ensures r.TypeError? <==> AnyNullish(objs)
    ensures r.Normal? ==> r.value == Obj(KeyValuePairs(objs, key, value))
  {
    var keyValue: Props := [];
    var i := 0;
    while i < |objs|
      invariant 0 <= i <= |objs|
      invariant !AnyNullish(objs[..i])
      invariant keyValue == KeyValuePairs(objs[..i], key, value)
    {
      var obj := objs[i];
      if IsNullish(obj) {
        assert AnyNullish(objs);
        return TypeError;
      }
      KeyValuePairsSnoc(objs, key, value, i);
      keyValue := PutProp(keyValue, EntryKey(obj, key), Get(obj, value));
      AnyNullishSnoc(objs, i);
      i := i + 1;
    }
    assert objs[..|objs|] == objs;
    r := Normal(Obj(keyValue));
  }

  /** The values a for-in loop reads as collection[item], one per key Object.keys
      reports, in order. */
  function Items(collection: Value): seq<Value> {
    var keys := OwnKeys(collection);
    seq(|keys|, i requires 0 <= i < |keys| => Get(collection, keys[i]))
  }

  /** The loop reads an array's elements, a string's characters and an object's own
      property values, in order, and nothing from any other value. */
  lemma ItemsAreOwnValues(collection: Value)
    ensures var items := Items(collection);
      && |items| == |OwnKeys(collection)|
      && (collection.Arr? ==> items == collection.elems)
      && (collection.Str? ==> forall i :: 0 <= i < |items| ==> items[i] == Str([collection.s[i]]))
      && (collection.Obj? && DistinctKeys(collection.props) ==>
            forall i :: 0 <= i < |items| ==> items[i] == collection.props[i].1)
      && (!IsContainer(collection) && !collection.Str? ==> items == [])
  {
    var items := Items(collection);
    forall i | 0 <= i < |items|
      ensures collection.Arr? ==> items[i] == collection.elems[i]
      ensures collection.Str? ==> items[i] == Str([collection.s[i]])
      ensures collection.Obj? && DistinctKeys(collection.props) ==> items[i] == collection.props[i].1
    {
      OwnKeysReadBack(collection, i);
    }
  }

  /** item.value === key */
  predicate HasValue(item: Value, key: Value) {
    StrictEquals(Get(item, "value"), key)
  }

  /** Util.getValueOfKey: the display of the first item whose value is key, or null.
      Visiting a null or undefined item throws before anything after it is seen. */
  method GetValueOfKey(key: Value, collection: Value) returns (r: Completion<Value>)
    ensures var items := Items(collection);
      (forall i :: 0 <= i < |items| ==> !IsNullish(items[i]) && !HasValue(items[i], key)) ==>
        r == Normal(Null)
    ensures var items := Items(collection);
      forall i :: 0 <= i < |items| && (forall j :: 0 <= j < i ==> !IsNullish(items[j]) && !HasValue(items[j], key)) ==>
        && (IsNullish(items[i]) ==> r == TypeError)
        && (!IsNullish(items[i]) && HasValue(items[i], key) ==> r == Normal(Get(items[i], "display")))
  {
    var items := Items(collection);
    for i := 0 to |items|
      invariant forall j :: 0 <= j < i ==> !IsNullish(items[j]) && !HasValue(items[j], key)
    {
      if IsNullish(items[i]) {
        return TypeError;
      }
      if HasValue(items[i], key) {
        return Normal(Get(items[i], "display"));
      }
    }
    r := Normal(Null);
  }
}
