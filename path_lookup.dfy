/** Dotted-path lookup (Util.getPath and Util.getPropertyValue): a path such as "a.b.c"
    is split on '.', and its segments are read one after another, with an optional
    "type mode" that unwraps a value into the value of its first own key. */
module PathLookup {
  import opened Text
  import opened Values

  /** String.prototype.split with a one-character separator: the pieces between the
      separators, empty pieces included; the empty string splits into [""]. */
  function Split(s: string, sep: char): (parts: seq<string>)
    ensures |parts| >= 1
    ensures forall i :: 0 <= i < |parts| ==> sep !in parts[i]
    decreases |s|
  {
    if s == [] then [""]
    else
      var rest := Split(s[1..], sep);
      if s[0] == sep then [""] + rest else [[s[0]] + rest[0]] + rest[1..]
  }

  lemma JoinCons(a: string, parts: seq<string>, sep: string)
    requires |parts| >= 1
    ensures Join([a + parts[0]] + parts[1..], sep) == a + Join(parts, sep)
  {
    var ps := [a + parts[0]] + parts[1..];
    if |parts| > 1 {
      assert ps[1..] == parts[1..];
    }
  }

  /** Joining the pieces of a split with the separator gives back the string. */
  lemma {:induction false} JoinSplit(s: string, sep: char)
    ensures Join(Split(s, sep), [sep]) == s
    decreases |s|
  {
    if s != [] {
      var rest := Split(s[1..], sep);
      JoinSplit(s[1..], sep);
      if s[0] == sep {
        assert ([""] + rest)[1..] == rest;
      } else {
        JoinCons([s[0]], rest, [sep]);
      }
    }
  }

  lemma {:induction false} SplitAfterPiece(w: string, sep: char, t: string)
    requires sep !in w
    ensures Split(w, sep) == [w]
    ensures Split(w + [sep] + t, sep) == [w] + Split(t, sep)
    decreases |w|
  {
    if w == [] {
      assert [sep] + t == [sep] + t;
      assert ([sep] + t)[1..] == t;
    } else {
      SplitAfterPiece(w[1..], sep, t);
      assert (w + [sep] + t)[1..] == w[1..] + [sep] + t;
      assert [w[0]] + w[1..] == w;
    }
  }

  /** Splitting a join of separator-free pieces gives back the pieces. */
  lemma {:induction false} SplitJoin(parts: seq<string>, sep: char)
    requires |parts| >= 1
    requires forall i :: 0 <= i < |parts| ==> sep !in parts[i]
    ensures Split(Join(parts, [sep]), sep) == parts
    decreases |parts|
  {
    if |parts| == 1 {
      SplitAfterPiece(parts[0], sep, "");
    } else {
      SplitJoin(parts[1..], sep);
      SplitAfterPiece(parts[0], sep, Join(parts[1..], [sep]));
      assert Join(parts, [sep]) == parts[0] + [sep] + Join(parts[1..], [sep]);
      assert [parts[0]] + parts[1..] == parts;
    }
  }

  /** The key type mode reads: Object.keys(v)[0], which is undefined, and so the
      key "undefined", when v has no own keys. */
  function FirstKey(v: Value): string {
    if |OwnKeys(v)| > 0 then OwnKeys(v)[0] else "undefined"
  }

  /** What type mode reads from a truthy value: the value of its first own key, which
      is the first element of an array, the first character of a string, the first
      property of an object, and undefined for a value with no own keys. */
  lemma FirstKeyRead(w: Value)
    requires Truthy(w)
    ensures var r := Get(w, FirstKey(w));
      && (w.Obj? && w.props != [] ==> r == w.props[0].1)
      && (w.Arr? && w.elems != [] ==> r == w.elems[0])
      && (w.Str? && w.s != [] ==> r == Str([w.s[0]]))
      && (OwnKeys(w) == [] ==> r == Undefined)
  {
    if w.Arr? && w.elems != [] {
      OwnKeysReadBack(w, 0);
    } else if w.Str? && w.s != [] {
      OwnKeysReadBack(w, 0);
    } else if w.Obj? && w.props != [] {
      assert Keys(w.props)[0] == w.props[0].0;
      assert Keys(w.props[..0]) == [];
      LookupFirst(w.props, 0);
    } else if OwnKeys(w) == [] {
      assert FirstKey(w) == "undefined";
      assert ParseIndex("undefined") == None by {
        assert !IsDigit('u');
      }
    }
  }

  /** Util.getPropertyValue, one step of a path: read property of obj unless obj is
      falsy (a falsy obj is passed through unchanged); in type mode a truthy result is
      replaced by the value of its first own key. */
  function GetPropertyValue(obj: Value, property: string, typeMode: bool): Value {
    var v := if Truthy(obj) then Get(obj, property) else obj;
    if typeMode && Truthy(v) then Get(v, FirstKey(v)) else v
  }

  /** What one step yields, case by case: a falsy obj passes through; outside type
      mode a truthy obj gives obj[property]; in type mode a truthy obj[property] is
      replaced by the value of its first own key. */
  lemma GetPropertyValueCases(obj: Value, property: string, typeMode: bool)
    ensures !Truthy(obj) ==> GetPropertyValue(obj, property, typeMode) == obj
    ensures Truthy(obj) && !typeMode ==> GetPropertyValue(obj, property, typeMode) == Get(obj, property)
    ensures Truthy(obj) && typeMode ==>
      var w := Get(obj, property);
      var r := GetPropertyValue(obj, property, typeMode);
      && (!Truthy(w) ==> r == w)
      && (w.Obj? && w.props != [] ==> r == w.props[0].1)
      && (w.Arr? && w.elems != [] ==> r == w.elems[0])
      && (w.Str? && w.s != [] ==> r == Str([w.s[0]]))
      && (Truthy(w) && OwnKeys(w) == [] ==> r == Undefined)
  {
    var w := Get(obj, property);
    if Truthy(obj) && typeMode && Truthy(w) {
      FirstKeyRead(w);
    }
  }

  /** The value reached by reading steps one after another from obj. */
  function Walk(obj: Value, steps: seq<string>, typeMode: bool): Value
    decreases |steps|
  {
    if steps == [] then obj
    else GetPropertyValue(Walk(obj, steps[..|steps| - 1], typeMode), steps[|steps| - 1], typeMode)
  }

  /** Once a walk reaches a falsy value it stays there. */
  lemma {:induction false} FalsyAbsorbs(obj: Value, steps: seq<string>, k: nat, typeMode: bool)
    requires k <= |steps|
    requires !Truthy(Walk(obj, steps[..k], typeMode))
    ensures Walk(obj, steps, typeMode) == Walk(obj, steps[..k], typeMode)
    decreases |steps|
  {
    if k < |steps| {
      var init := steps[..|steps| - 1];
      assert init[..k] == steps[..k];
      FalsyAbsorbs(obj, init, k, typeMode);
    } else {
      assert steps[..k] == steps;
    }
  }

  /** The result getPath promises: the default when the walk meets a falsy value before
      the last segment, or when the last segment reads undefined; otherwise the value
      the last segment reads. */
  function Resolve(obj: Value, path: string, default: Value, typeMode: bool): Value {
    var steps := Split(path, '.');
    var parent := Walk(obj, steps[..|steps| - 1], typeMode);
    if !Truthy(parent) then default
    else
      var v := GetPropertyValue(parent, steps[|steps| - 1], typeMode);
      if v.Undefined? then default else v
  }

  lemma WalkSnoc(obj: Value, steps: seq<string>, i: nat, typeMode: bool)
    requires i < |steps|
    ensures Walk(obj, steps[..i + 1], typeMode) == GetPropertyValue(Walk(obj, steps[..i], typeMode), steps[i], typeMode)
  {
    assert steps[..i + 1][..i] == steps[..i];
  }

  /** Util.getPath: the loop stops at the first falsy intermediate value. */
  method GetPath(obj: Value, path: string, default: Value, typeMode: bool) returns (r: Value)
    ensures r == Resolve(obj, path, default, typeMode)
  {
    var steps := Split(path, '.');
    var current := obj;
    var i := 0;
    while Truthy(current) && i < |steps| - 1
      invariant 0 <= i <= |steps| - 1
      invariant current == Walk(obj, steps[..i], typeMode)
    {
      WalkSnoc(obj, steps, i, typeMode);
      current := GetPropertyValue(current, steps[i], typeMode);
      i := i + 1;
    }
    if !Truthy(current) {
      StoppedEarly(obj, steps, i, typeMode);
      return default;
    }
    current := GetPropertyValue(current, steps[|steps| - 1], typeMode);
    r := if current.Undefined? then default else current;
  }

  /** A walk that meets a falsy value before the last segment leaves the parent of the
      last segment falsy. */
  lemma StoppedEarly(obj: Value, steps: seq<string>, i: nat, typeMode: bool)
    requires i <= |steps| - 1
    requires !Truthy(Walk(obj, steps[..i], typeMode))
    ensures !Truthy(Walk(obj, steps[..|steps| - 1], typeMode))
  {
    var init := steps[..|steps| - 1];
    assert init[..i] == steps[..i];
    FalsyAbsorbs(obj, init, i, typeMode);
  }

  /** getPath's result in terms of the whole walk: the value at the end of the path
      when every value met before the last segment is truthy and the last read is not
      undefined (a final null, 0, false or "" included), and the default otherwise. */
  lemma ResolveMeaning(obj: Value, path: string, default: Value, typeMode: bool)
    ensures var steps := Split(path, '.');
      Resolve(obj, path, default, typeMode) ==
        if (forall k :: 0 <= k < |steps| ==> Truthy(Walk(obj, steps[..k], typeMode)))
           && !Walk(obj, steps, typeMode).Undefined?
        then Walk(obj, steps, typeMode) else default
  {
    var steps := Split(path, '.');
    var n := |steps|;
    assert steps[..n][..n - 1] == steps[..n - 1];
    assert steps[..n] == steps;
    if Truthy(Walk(obj, steps[..n - 1], typeMode)) {
      forall k | 0 <= k < n ensures Truthy(Walk(obj, steps[..k], typeMode)) {
        if !Truthy(Walk(obj, steps[..k], typeMode)) {
          var init := steps[..n - 1];
          assert init[..k] == steps[..k];
          FalsyAbsorbs(obj, init, k, typeMode);
        }
      }
    }
  }

  /** A path that leads to undefined resolves to the default. */
  lemma ResolveMissingPath(obj: Value, path: string, default: Value, typeMode: bool)
    requires Walk(obj, Split(path, '.'), typeMode).Undefined?
    ensures Resolve(obj, path, default, typeMode) == default
  {
    ResolveMeaning(obj, path, default, typeMode);
  }

  /** A falsy value met before the last segment makes the result the default. */
  lemma ResolveShortCircuits(obj: Value, path: string, default: Value, typeMode: bool, k: nat)
    requires k < |Split(path, '.')|
    requires !Truthy(Walk(obj, Split(path, '.')[..k], typeMode))
    ensures Resolve(obj, path, default, typeMode) == default
  {
    ResolveMeaning(obj, path, default, typeMode);
  }

  /** A path of three names: the value two reads down, when truthy, is read once more. */
  lemma ResolveThree(obj: Value, x: string, y: string, z: string, default: Value, typeMode: bool)
    requires '.' !in x && '.' !in y && '.' !in z
    ensures var parent := GetPropertyValue(GetPropertyValue(obj, x, typeMode), y, typeMode);
      var v := GetPropertyValue(parent, z, typeMode);
      Resolve(obj, Join([x, y, z], "."), default, typeMode) ==
        if !Truthy(parent) || v.Undefined? then default else v
  {
    SplitJoin([x, y, z], '.');
    assert [x, y, z][..2] == [x, y];
    WalkSnoc(obj, [x, y], 0, typeMode);
    WalkSnoc(obj, [x, y], 1, typeMode);
    assert [x, y][..2] == [x, y] && [x, y][..0] == [];
  }

  /** The worked example {a:{b:{c:5}}}: the path "a.b.c" resolves to 5. */
  lemma ResolveExampleFound(obj: Value)
    requires obj == Obj([("a", Obj([("b", Obj([("c", Int(5))]))]))])
    ensures Resolve(obj, "a.b.c", Int(0), false) == Int(5)
  {
    var c := Obj([("c", Int(5))]);
    var b := Obj([("b", c)]);
    assert Join(["a", "b", "c"], ".") == "a.b.c";
    ResolveThree(obj, "a", "b", "c", Int(0), false);
    assert GetPropertyValue(obj, "a", false) == b;
    assert GetPropertyValue(b, "b", false) == c;
    assert GetPropertyValue(c, "c", false) == Int(5);
  }

  /** In the same object the path "a.x.c" resolves to the default. */
  lemma ResolveExampleMissing(obj: Value)
    requires obj == Obj([("a", Obj([("b", Obj([("c", Int(5))]))]))])
    ensures Resolve(obj, "a.x.c", Int(0), false) == Int(0)
  {
    var b := Obj([("b", Obj([("c", Int(5))]))]);
    assert Join(["a", "x", "c"], ".") == "a.x.c";
    ResolveThree(obj, "a", "x", "c", Int(0), false);
    assert GetPropertyValue(obj, "a", false) == b;
    assert GetPropertyValue(b, "x", false) == Undefined;
  }
}
