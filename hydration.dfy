/** Util.hydrate: batch enrichment of a list of objects. The truthy values of one
    property are collected, deduplicated and handed once to a lookup function, and
    each object then receives the looked-up entry under another property, in place. */
module Hydration {
  import opened Text
  import opened Values
  import opened Collections

  /** A JavaScript object whose own properties are updated in place. */
  class JsObject {
    var props: Props

    constructor (props: Props)
      ensures this.props == props
    {
      this.props := props;
    }
  }

  /** obj[keyProp] for each object, in order. */
  function KeysOf(objs: seq<JsObject>, keyProp: string): seq<Value>
    reads objs
  {
    seq(|objs|, i reads objs requires 0 <= i < |objs| => Lookup(objs[i].props, keyProp))
  }

  /** The truthy values, in order. */
  function TruthyOnly(vs: seq<Value>): (r: seq<Value>)
    ensures forall v :: v in r <==> v in vs && Truthy(v)
    decreases |vs|
  {
    if vs == [] then []
    else
      var init := TruthyOnly(vs[..|vs| - 1]);
      var v := vs[|vs| - 1];
      assert vs == vs[..|vs| - 1] + [v];
      if Truthy(v) then init + [v] else init
  }

  /** The key values hydrate asks for: the truthy ones, first occurrences only. */
  function RequestedKeys(keys: seq<Value>): (r: seq<Value>)
    ensures NoDuplicates(r)
    ensures forall v :: v in r <==> v in keys && Truthy(v)
  {
    RemoveDuplicates(TruthyOnly(keys))
  }

  /** The properties of one object after obj[hydratedProp] = keyData[obj[keyProp]]. */
  function Hydrated(ps: Props, keyProp: string, hydratedProp: string, keyData: Value): Props {
    PutProp(ps, hydratedProp, Get(keyData, ToJsString(Lookup(ps, keyProp))))
  }

  /** Writing the same value twice is writing it once. */
  lemma {:induction false} PutPropTwice(ps: Props, k: string, v: Value)
    ensures PutProp(PutProp(ps, k, v), k, v) == PutProp(ps, k, v)
    decreases |ps|
  {
    if ps != [] && ps[0].0 != k {
      PutPropTwice(ps[1..], k, v);
      assert PutProp(ps, k, v)[1..] == PutProp(ps[1..], k, v);
    }
  }

  /** With a key property other than the hydrated one, hydrating again with the same
      key data changes nothing. */
  lemma HydratedIdempotent(ps: Props, keyProp: string, hydratedProp: string, keyData: Value)
    requires keyProp != hydratedProp
    ensures Hydrated(Hydrated(ps, keyProp, hydratedProp, keyData), keyProp, hydratedProp, keyData)
      == Hydrated(ps, keyProp, hydratedProp, keyData)
  {
    PutPropTwice(ps, hydratedProp, Get(keyData, ToJsString(Lookup(ps, keyProp))));
  }

  /** Each object's properties, in order. */
  function PropsOf(objs: seq<JsObject>): (ps: seq<Props>)
    reads objs
    ensures |ps| == |objs|
    ensures forall i :: 0 <= i < |objs| ==> ps[i] == objs[i].props
  {
    seq(|objs|, i reads objs requires 0 <= i < |objs| => objs[i].props)
  }

  predicate DistinctObjects(objs: seq<JsObject>) {
    forall i, j :: 0 <= i < j < |objs| ==> objs[i] != objs[j]
  }

  /** The first loop of hydrate: obj[keyProp] of every object, when truthy, in order. */
  method CollectKeyValues(objs: seq<JsObject>, keyProp: string) returns (keyValues: seq<Value>)
    ensures keyValues == TruthyOnly(KeysOf(objs, keyProp))
  {
    keyValues := [];
    for i := 0 to |objs|
      invariant keyValues == TruthyOnly(KeysOf(objs[..i], keyProp))
    {
      var keyValue := Lookup(objs[i].props, keyProp);
      assert KeysOf(objs[..i + 1], keyProp) == KeysOf(objs[..i], keyProp) + [keyValue];
      if Truthy(keyValue) {
        keyValues := keyValues + [keyValue];
      }
    }
    assert objs[..|objs|] == objs;
  }

  /** The second loop of hydrate: obj[hydratedProp] = keyData[obj[keyProp]] for every
      object in turn. Reading a property of a null or undefined keyData throws at the
      first object, before anything changes. */
  method AssignHydrated(objs: seq<JsObject>, keyProp: string, hydratedProp: string, keyData: Value)
    returns (r: Completion<seq<JsObject>>)
    requires |objs| > 0
    modifies objs
    ensures r.TypeError? <==> IsNullish(keyData)
    ensures r.TypeError? ==> forall i :: 0 <= i < |objs| ==> objs[i].props == old(objs[i].props)
    ensures r.Normal? ==> r.value == objs
    ensures r.Normal? && (keyProp != hydratedProp || DistinctObjects(objs)) ==>
      forall i :: 0 <= i < |objs| ==>
        objs[i].props == Hydrated(old(objs[i].props), keyProp, hydratedProp, keyData)
  {
    ghost var olds := PropsOf(objs);
    assert forall j :: 0 <= j < |objs| ==> olds[j] == old(objs[j].props);
    ghost var aligned := keyProp != hydratedProp || DistinctObjects(objs);
    for i := 0 to |objs|
      invariant i > 0 ==> !IsNullish(keyData)
      invariant i == 0 ==> forall j :: 0 <= j < |objs| ==> objs[j].props == olds[j]
      invariant aligned ==>
        forall j :: 0 <= j < i ==> objs[j].props == Hydrated(olds[j], keyProp, hydratedProp, keyData)
      invariant aligned ==>
        forall j :: i <= j < |objs| ==>
          || objs[j].props == olds[j]
          || (keyProp != hydratedProp && objs[j].props == Hydrated(olds[j], keyProp, hydratedProp, keyData))
    {
      if IsNullish(keyData) {
        return TypeError;
      }
      var obj := objs[i];
      ghost var before := obj.props;
      label Before:
      obj.props := Hydrated(obj.props, keyProp, hydratedProp, keyData);
      if aligned {
        ghost var target := Hydrated(olds[i], keyProp, hydratedProp, keyData);
        if before != olds[i] {
          HydratedIdempotent(olds[i], keyProp, hydratedProp, keyData);
        }
        assert obj.props == target;
        forall j | 0 <= j < i + 1
          ensures objs[j].props == Hydrated(olds[j], keyProp, hydratedProp, keyData)
        {
          if objs[j] == obj {
            assert olds[j] == olds[i];
            assert objs[j].props == target;
          } else {
            assert j < i;
            assert old@Before(objs[j].props) == Hydrated(olds[j], keyProp, hydratedProp, keyData);
            assert objs[j].props == old@Before(objs[j].props);
          }
        }
        forall j | i + 1 <= j < |objs|
          ensures || objs[j].props == olds[j]
                  || (keyProp != hydratedProp && objs[j].props == Hydrated(olds[j], keyProp, hydratedProp, keyData))
        {
          if objs[j] == obj {
            assert olds[j] == olds[i];
          } else {
            assert objs[j].props == old@Before(objs[j].props);
          }
        }
      }
    }
    r := Normal(objs);
  }

  /** Util.hydrate. requested is the argument hydrateFn receives, or None when it is
      not called. With no truthy key the objects are returned untouched; a null or
      undefined keyData makes the first assignment throw before anything changes;
      otherwise every object gets keyData[obj[keyProp]] under hydratedProp, a missing
      entry giving undefined, and nothing else changes. When keyProp and hydratedProp
      are the same and an object occurs twice, its second visit reads the value written
      by the first; this one case is not described below. */
  method Hydrate(objs: seq<JsObject>, keyProp: string, hydratedProp: string, hydrateFn: seq<Value> -> Value)
    returns (r: Completion<seq<JsObject>>, requested: Option<seq<Value>>)
    modifies objs
    ensures var keys := RequestedKeys(old(KeysOf(objs, keyProp)));
      requested == if keys == [] then None else Some(keys)
    ensures requested.None? ==>
      r == Normal(objs) && forall i :: 0 <= i < |objs| ==> objs[i].props == old(objs[i].props)
    ensures requested.Some? && IsNullish(hydrateFn(requested.value)) ==>
      r == TypeError && forall i :: 0 <= i < |objs| ==> objs[i].props == old(objs[i].props)
    ensures requested.Some? && !IsNullish(hydrateFn(requested.value)) ==> r == Normal(objs)
    ensures (requested.Some? && !IsNullish(hydrateFn(requested.value))
             && (keyProp != hydratedProp || DistinctObjects(objs))) ==>
      forall i :: 0 <= i < |objs| ==>
        objs[i].props == Hydrated(old(objs[i].props), keyProp, hydratedProp, hydrateFn(requested.value))
  {
    var keyValues := CollectKeyValues(objs, keyProp);
    keyValues := RemoveDuplicates(keyValues);
    if |keyValues| == 0 {
      return Normal(objs), None;
    }
    assert |objs| > 0;
    requested := Some(keyValues);
    var keyData := hydrateFn(keyValues);
    r := AssignHydrated(objs, keyProp, hydratedProp, keyData);
  }
}
