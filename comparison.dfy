/** Comparison helpers of the utility layer: Util.areEqual with its inner compare,
    the change set Util.modifiedProps, Util.isEmptyObj and Util.areArraysEqual. */
module Comparison {
  import opened Text
  import opened Values
  import opened Collections

  /** Util.isEmptyObj: no own enumerable key. A for-in loop over null or undefined visits
      nothing, and one over a non-empty string visits its indices. */
  function IsEmptyObj(obj: Value): (r: bool)
    ensures r <==> match obj
      case Obj(ps) => ps == []
      case Arr(es) => es == []
      case Str(s) => s == ""
      case _ => true
  {
    OwnKeys(obj) == []
  }

  /** Util.areEqual as written. Values of different type tags differ and other scalars
      compare with ===; arrays and objects of different length or key count differ,
      and otherwise every entry goes through compare, where a false ends the loop. */
  function AreEqual(v1: Value, v2: Value): (r: bool)
    ensures !IsContainer(v1) ==> (r <==> v1 == v2)
    ensures r ==> TypeTag(v1) == TypeTag(v2)
    ensures r && v1.Arr? ==> |v1.elems| == |v2.elems|
    ensures r && v1.Obj? ==> |v1.props| == |v2.props|
    decreases v1, 0
  {
    var tag := TypeTag(v1);
    if tag != TypeTag(v2) then false
    else if !IsContainer(v1) then StrictEquals(v1, v2)
    else
      var valueLen := if v1.Arr? then |v1.elems| else |OwnKeys(v1)|;
      var otherLen := if v1.Arr? then |v2.elems| else |OwnKeys(v2)|;
      if valueLen != otherLen then false
      else if v1.Arr? then
        forall i | 0 <= i < valueLen :: Compare(v1.elems[i], v2.elems[i])
      else
        forall i | 0 <= i < |v1.props| :: Compare(v1.props[i].1, Get(v2, v1.props[i].0))
  }

  /** The inner compare of Util.areEqual. Each branch either returns false early or
      falls through to the final `return false`, so it reports false for every pair of
      items, matching or not; the recursive areEqual call changes nothing. */
  function Compare(item1: Value, item2: Value): (r: bool)
    ensures !r
    decreases item1, 1
  {
    var itemTag := TypeTag(item1);
    if IsContainer(item1) then
      if !AreEqual(item1, item2) then false else false
    else if itemTag != TypeTag(item2) then false
    else if !StrictEquals(item1, item2) then false
    else false
  }

  /** What areEqual reports: the same type tag and, for scalars, the same value; for
      arrays and objects, true only when both are empty, since compare never says yes. */
  lemma AreEqualOutcome(v1: Value, v2: Value)
    ensures AreEqual(v1, v2) <==>
      && TypeTag(v1) == TypeTag(v2)
      && (!IsContainer(v1) ==> v1 == v2)
      && (v1.Arr? ==> v1.elems == [] && v2.elems == [])
      && (v1.Obj? ==> v1.props == [] && v2.props == [])
  {
    TypeTagIdentifiesKind(v1, v2);
    if TypeTag(v1) == TypeTag(v2) && IsContainer(v1) {
      if v1.Arr? && v1.elems != [] && |v1.elems| == |v2.elems| {
        assert !Compare(v1.elems[0], v2.elems[0]);
      }
      if v1.Obj? && v1.props != [] && |v1.props| == |v2.props| {
        assert !Compare(v1.props[0].1, Get(v2, v1.props[0].0));
      }
    }
  }

  /** areEqual is not reflexive: an array or object with an entry is unequal to itself. */
  lemma AreEqualReflexiveExactlyWhenEmpty(v: Value)
    ensures AreEqual(v, v) <==> IsEmptyObj(v) || !IsContainer(v)
  {
    AreEqualOutcome(v, v);
  }

  /** areEqual is symmetric. */
  lemma AreEqualSymmetric(v1: Value, v2: Value)
    ensures AreEqual(v1, v2) == AreEqual(v2, v1)
  {
    AreEqualOutcome(v1, v2);
    AreEqualOutcome(v2, v1);
    TypeTagIdentifiesKind(v1, v2);
  }

  /** The listed properties modifiedProps checks: the given list, or Object.keys(oldObj). */
  function ListedProps(oldObj: Value, props: Option<seq<string>>): seq<string> {
    if props.Some? then props.value else OwnKeys(oldObj)
  }

  predicate Unchanged(oldObj: Value, newObj: Value, p: string) {
    AreEqual(Get(oldObj, p), Get(newObj, p))
  }

  /** The listed properties whose old and new values areEqual rejects, in list order. */
  function Differing(oldObj: Value, newObj: Value, props: seq<string>): (d: seq<string>)
    ensures forall p :: p in d <==> p in props && !Unchanged(oldObj, newObj, p)
    decreases |props|
  {
    if props == [] then []
    else
      var d := Differing(oldObj, newObj, props[..|props| - 1]);
      var p := props[|props| - 1];
      assert props == props[..|props| - 1] + [p];
      if Unchanged(oldObj, newObj, p) then d else d + [p]
  }

  /** The object {k: true, ...} with keys ks in this order. */
  function Flags(ks: seq<string>): (ps: Props)
    ensures Keys(ps) == ks
    ensures forall i :: 0 <= i < |ps| ==> ps[i].1 == Bool(true)
  {
    if ks == [] then [] else [(ks[0], Bool(true))] + Flags(ks[1..])
  }

  lemma {:induction false} PutFlag(ks: seq<string>, p: string)
    ensures PutProp(Flags(ks), p, Bool(true)) == if p in ks then Flags(ks) else Flags(ks + [p])
    decreases |ks|
  {
    if ks != [] && ks[0] != p {
      PutFlag(ks[1..], p);
      assert p in ks <==> p in ks[1..];
      FlagsSnoc(ks, p);
    }
  }

  lemma FlagsSnoc(ks: seq<string>, p: string)
    requires ks != []
    ensures Flags(ks + [p]) == [(ks[0], Bool(true))] + Flags(ks[1..] + [p])
  {
    var q := ks + [p];
    assert q[0] == ks[0];
    assert q[1..] == ks[1..] + [p];
    assert Flags(q) == [(q[0], Bool(true))] + Flags(q[1..]);
  }

  /** The object modifiedProps builds from the listed properties: mod[prop] = true for
      each listed property that areEqual rejects, in list order. */
  function ChangeSet(oldObj: Value, newObj: Value, listed: seq<string>): Props
    decreases |listed|
  {
    if listed == [] then []
    else
      var acc := ChangeSet(oldObj, newObj, listed[..|listed| - 1]);
      var p := listed[|listed| - 1];
      if Unchanged(oldObj, newObj, p) then acc else PutProp(acc, p, Bool(true))
  }

  /** The change set holds the changed properties once each, in the order of their
      first listing. */
  lemma {:induction false} ChangeSetOrder(oldObj: Value, newObj: Value, listed: seq<string>)
    ensures ChangeSet(oldObj, newObj, listed) == Flags(RemoveDuplicates(Differing(oldObj, newObj, listed)))
    decreases |listed|
  {
    if listed != [] {
      var init := listed[..|listed| - 1];
      var p := listed[|listed| - 1];
      ChangeSetOrder(oldObj, newObj, init);
      assert listed == init + [p];
      if !Unchanged(oldObj, newObj, p) {
        var d := Differing(oldObj, newObj, init);
        assert Differing(oldObj, newObj, listed) == d + [p];
        PutFlag(RemoveDuplicates(d), p);
      }
    }
  }

  /** The change set names every changed listed property once, each mapped to true,
      and is empty exactly when no listed property changed. */
  lemma ChangeSetMeaning(oldObj: Value, newObj: Value, listed: seq<string>)
    ensures var ps := ChangeSet(oldObj, newObj, listed);
      && DistinctKeys(ps)
      && (forall k :: k in Keys(ps) <==> k in listed && !Unchanged(oldObj, newObj, k))
      && (forall i :: 0 <= i < |ps| ==> ps[i].1 == Bool(true))
      && (ps == [] <==> forall p :: p in listed ==> Unchanged(oldObj, newObj, p))
  {
    ChangeSetOrder(oldObj, newObj, listed);
    var d := Differing(oldObj, newObj, listed);
    var ks := RemoveDuplicates(d);
    var ps := Flags(ks);
    assert forall i, j :: 0 <= i < j < |ps| ==> ps[i].0 == ks[i] != ks[j] == ps[j].0;
    assert ks != [] ==> ks[0] in Keys(ps) && ks[0] in d;
    assert d != [] ==> d[0] in ks;
  }

  lemma ChangeSetSnoc(oldObj: Value, newObj: Value, listed: seq<string>, i: nat)
    requires i < |listed|
    ensures ChangeSet(oldObj, newObj, listed[..i + 1]) ==
      if Unchanged(oldObj, newObj, listed[i]) then ChangeSet(oldObj, newObj, listed[..i])
      else PutProp(ChangeSet(oldObj, newObj, listed[..i]), listed[i], Bool(true))
  {
    assert listed[..i + 1][..i] == listed[..i];
  }

  /** Util.modifiedProps. Object.keys(null) and reading a property of null or undefined
      throw; otherwise the result is null when every listed property is unchanged, and
      else an object whose keys are exactly the changed properties, each mapped to true. */
  method ModifiedProps(oldObj: Value, newObj: Value, props: Option<seq<string>>) returns (r: Completion<Value>)
    ensures r.TypeError? <==>
      || (props.None? && IsNullish(oldObj))
      || (ListedProps(oldObj, props) != [] && (IsNullish(oldObj) || IsNullish(newObj)))
    ensures r.Normal? ==>
      (r.value == Null <==> forall p :: p in ListedProps(oldObj, props) ==> Unchanged(oldObj, newObj, p))
    ensures r.Normal? && r.value != Null ==> r.value == Obj(ChangeSet(oldObj, newObj, ListedProps(oldObj, props)))
  {
    if props.None? && IsNullish(oldObj) {
      return TypeError;
    }
    var listed := ListedProps(oldObj, props);
    var mod: Props := [];
    var i := 0;
    while i < |listed|
      invariant 0 <= i <= |listed|
      invariant mod == ChangeSet(oldObj, newObj, listed[..i])
      invariant i > 0 ==> !IsNullish(oldObj) && !IsNullish(newObj)
    {
      if IsNullish(oldObj) || IsNullish(newObj) {
        return TypeError;
      }
      var prop := listed[i];
      ChangeSetSnoc(oldObj, newObj, listed, i);
      if !Unchanged(oldObj, newObj, prop) {
        mod := PutProp(mod, prop, Bool(true));
      }
      i := i + 1;
    }
    assert listed[..i] == listed;
    ChangeSetMeaning(oldObj, newObj, listed);
    r := if IsEmptyObj(Obj(mod)) then Normal(Null) else Normal(Obj(mod));
  }

  /** Array.prototype.indexOf: the first position holding a value === v, or -1. */
  function IndexOfValue(a: seq<Value>, v: Value): (k: int)
    ensures -1 <= k < |a|
    ensures k >= 0 ==> StrictEquals(a[k], v) && forall j :: 0 <= j < k ==> !StrictEquals(a[j], v)
    ensures k == -1 ==> forall j :: 0 <= j < |a| ==> !StrictEquals(a[j], v)
    decreases |a|
  {
    if a == [] then -1
    else if StrictEquals(a[0], v) then 0
    else
      var k := IndexOfValue(a[1..], v);
      if k < 0 then -1 else k + 1
  }

  /** Util.areArraysEqual: the same length, and no element of a1 missing from a2. */
  function AreArraysEqual(a1: seq<Value>, a2: seq<Value>): (r: bool)
    ensures r <==> (|a1| == |a2| &&
      forall i :: 0 <= i < |a1| ==> exists j :: 0 <= j < |a2| && StrictEquals(a2[j], a1[i]))
  {
    |a1| == |a2| && !(exists i :: 0 <= i < |a1| && IndexOfValue(a2, a1[i]) < 0)
  }

  /** Two scalar arrays holding the same elements in any order compare equal. */
  lemma AreArraysEqualOnPermutations(a1: seq<Value>, a2: seq<Value>)
    requires multiset(a1) == multiset(a2)
    requires forall i :: 0 <= i < |a1| ==> !IsContainer(a1[i])
    ensures AreArraysEqual(a1, a2)
  {
    assert |a1| == |multiset(a1)| == |multiset(a2)| == |a2|;
    forall i | 0 <= i < |a1| ensures exists j :: 0 <= j < |a2| && StrictEquals(a2[j], a1[i]) {
      assert a1[i] in multiset(a1);
      assert a1[i] in a2;
      var j :| 0 <= j < |a2| && a2[j] == a1[i];
      assert StrictEquals(a2[j], a1[i]);
    }
  }

  /** Only membership is checked, so the comparison is not symmetric: [1, 1] against
      [1, 2] is equal, [1, 2] against [1, 1] is not. */
  lemma AreArraysEqualIsNotSymmetric()
    ensures AreArraysEqual([Int(1), Int(1)], [Int(1), Int(2)])
    ensures !AreArraysEqual([Int(1), Int(2)], [Int(1), Int(1)])
  {
    var a, b := [Int(1), Int(1)], [Int(1), Int(2)];
    assert IndexOfValue(b, Int(1)) == 0;
    assert IndexOfValue(a, Int(2)) == -1 by {
      assert IndexOfValue(a[1..], Int(2)) == -1;
    }
    assert b[1] == Int(2);
  }
}
