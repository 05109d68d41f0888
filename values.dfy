/** JavaScript values as the utility layer sees them: a closed datatype with the
    language's truthiness, its Object.prototype.toString type tags, own-property
    reads and writes, and string conversion. */
module Values {
  import opened Text

  /** An object's own properties, in enumeration order (the order of Object.keys). */
  type Props = seq<(string, Value)>

  datatype Value =
    | Undefined
    | Null
    | Bool(b: bool)
    | Int(i: int)
    | Str(s: string)
    | Arr(elems: seq<Value>)
    | Obj(props: Props)

  /** How a JavaScript expression ends: with a value, or by throwing the TypeError that
      reading a property of null or undefined raises. */
  datatype Completion<+T> = Normal(value: T) | TypeError

  /** JavaScript's ToBoolean. */
  predicate Truthy(v: Value) {
    match v
    case Undefined => false
    case Null => false
    case Bool(b) => b
    case Int(i) => i != 0
    case Str(s) => s != ""
    case Arr(_) => true
    case Obj(_) => true
  }

  /** The falsy values are exactly undefined, null, false, 0 and ""; every array and
      object is truthy. */
  lemma FalsyValues(v: Value)
    ensures !Truthy(v) <==> v == Undefined || v == Null || v == Bool(false) || v == Int(0) || v == Str("")
    ensures IsContainer(v) ==> Truthy(v)
  {
  }

  predicate IsNullish(v: Value) {
    v.Undefined? || v.Null?
  }

  predicate IsContainer(v: Value) {
    v.Arr? || v.Obj?
  }

  /** The tag Object.prototype.toString.call(v) reports. */
  function TypeTag(v: Value): (t: string)
    ensures t == "[object Array]" <==> v.Arr?
    ensures t == "[object Object]" <==> v.Obj?
    ensures IsContainer(v) <==> t == "[object Array]" || t == "[object Object]"
  {
    match v
    case Undefined => "[object Undefined]"
    case Null => "[object Null]"
    case Bool(_) => "[object Boolean]"
    case Int(_) => "[object Number]"
    case Str(_) => "[object String]"
    case Arr(_) => "[object Array]"
    case Obj(_) => "[object Object]"
  }

  lemma TypeTagIdentifiesKind(a: Value, b: Value)
    ensures TypeTag(a) == TypeTag(b) <==>
      (a.Undefined? && b.Undefined?) || (a.Null? && b.Null?) || (a.Bool? && b.Bool?) ||
      (a.Int? && b.Int?) || (a.Str? && b.Str?) || (a.Arr? && b.Arr?) || (a.Obj? && b.Obj?)
  {
  }

  /** JavaScript's ===. Two arrays or objects are === only when they are the same
      reference; values of this model carry no identity, so they never are. */
  predicate StrictEquals(a: Value, b: Value) {
    !IsContainer(a) && a == b
  }

  function Keys(ps: Props): (ks: seq<string>)
    ensures |ks| == |ps|
    ensures forall i :: 0 <= i < |ps| ==> ks[i] == ps[i].0
  {
    if ps == [] then [] else [ps[0].0] + Keys(ps[1..])
  }

  /** No key occurs twice: true of every JavaScript object's own properties. */
  predicate DistinctKeys(ps: Props) {
    forall i, j :: 0 <= i < j < |ps| ==> ps[i].0 != ps[j].0
  }

  /** Reads own property k; a missing property reads as undefined. */
  function Lookup(ps: Props, k: string): (v: Value)
    ensures k !in Keys(ps) ==> v == Undefined
  {
    if ps == [] then Undefined
    else if ps[0].0 == k then ps[0].1
    else Lookup(ps[1..], k)
  }

  /** A key reads the value of its first occurrence. */
  lemma {:induction false} LookupFirst(ps: Props, i: nat)
    requires i < |ps| && ps[i].0 !in Keys(ps[..i])
    ensures Lookup(ps, ps[i].0) == ps[i].1
  {
    if i > 0 {
      assert Keys(ps[..i])[0] == ps[0].0;
      assert ps[..i] == [ps[0]] + ps[1..][..i - 1];
      LookupFirst(ps[1..], i - 1);
    }
  }

  /** Assignment obj[k] = v: an existing property keeps its place in the
      enumeration order, a new one is appended. */
  function PutProp(ps: Props, k: string, v: Value): (r: Props)
    ensures Keys(r) == if k in Keys(ps) then Keys(ps) else Keys(ps) + [k]
    ensures Lookup(r, k) == v
    ensures forall k' :: k' != k ==> Lookup(r, k') == Lookup(ps, k')
  {
    if ps == [] then [(k, v)]
    else if ps[0].0 == k then [(k, v)] + ps[1..]
    else [ps[0]] + PutProp(ps[1..], k, v)
  }

  lemma PutPropKeepsKeysDistinct(ps: Props, k: string, v: Value)
    requires DistinctKeys(ps)
    ensures DistinctKeys(PutProp(ps, k, v))
  {
    var r := PutProp(ps, k, v);
    forall i, j | 0 <= i < j < |r| ensures r[i].0 != r[j].0 {
      assert Keys(r)[i] == r[i].0 && Keys(r)[j] == r[j].0;
      if j < |ps| {
        assert Keys(ps)[i] == ps[i].0 && Keys(ps)[j] == ps[j].0;
      }
    }
  }

  /** The keys "0", "1", ... of an array or string of length n. */
  function IndexKeys(n: nat): (ks: seq<string>)
    ensures |ks| == n
  {
    seq(n, (i: int) requires 0 <= i => NatToString(i))
  }

  /** Object.keys(v): own enumerable keys; none for null, undefined, booleans and numbers. */
  function OwnKeys(v: Value): seq<string> {
    match v
    case Obj(ps) => Keys(ps)
    case Arr(es) => IndexKeys(|es|)
    case Str(s) => IndexKeys(|s|)
    case _ => []
  }

  /** Property read v[k] on a value that is not null or undefined. Arrays and strings
      answer to their indices and to "length"; members inherited from prototypes are
      not part of this model and read as undefined. */
  function Get(v: Value, k: string): (r: Value)
  {
    match v
    case Obj(ps) => Lookup(ps, k)
    case Arr(es) =>
      if k == "length" then Int(|es|)
      else (match ParseIndex(k)
            case Some(i) => if i < |es| then es[i] else Undefined
            case None => Undefined)
    case Str(s) =>
      if k == "length" then Int(|s|)
      else (match ParseIndex(k)
            case Some(i) => if i < |s| then Str([s[i]]) else Undefined
            case None => Undefined)
    case _ => Undefined
  }

  /** A property read from an object is undefined or one of the object's own values. */
  lemma {:induction false} LookupIsOwnValue(ps: Props, k: string)
    ensures Lookup(ps, k) == Undefined || exists i :: 0 <= i < |ps| && Lookup(ps, k) == ps[i].1
    decreases |ps|
  {
    if ps != [] && ps[0].0 != k {
      LookupIsOwnValue(ps[1..], k);
      if Lookup(ps, k) != Undefined {
        var i :| 0 <= i < |ps[1..]| && Lookup(ps[1..], k) == ps[1..][i].1;
        assert Lookup(ps, k) == ps[i + 1].1;
      }
    }
  }

  /** A property read finds only data the value holds: one of an object's own values,
      an array element, a one-character piece of a string, or the length of an array or
      string, which is its number of own keys; anything else reads as undefined. */
  lemma GetReadsOwnData(v: Value, k: string)
    ensures var r := Get(v, k);
      && (!IsContainer(v) && !v.Str? ==> r == Undefined)
      && (v.Obj? ==> r == Undefined || exists i :: 0 <= i < |v.props| && r == v.props[i].1)
      && (v.Arr? && k != "length" ==> r == Undefined || r in v.elems)
      && (v.Str? && k != "length" ==> r == Undefined || exists i :: 0 <= i < |v.s| && r == Str([v.s[i]]))
      && ((v.Arr? || v.Str?) && k == "length" ==> r == Int(|OwnKeys(v)|))
  {
    if v.Obj? {
      LookupIsOwnValue(v.props, k);
    }
  }

  /** Reads a property under a name that is neither an index nor "length": only an
      object can have one. */
  function NamedProp(v: Value, k: string): Value {
    if v.Obj? then Lookup(v.props, k) else Undefined
  }

  lemma NamedPropIsGet(v: Value, k: string)
    requires |k| > 0 && !IsDigit(k[0]) && k != "length"
    ensures NamedProp(v, k) == Get(v, k)
  {
  }

  /** Reading an index of an array through its printed key yields that element. */
  lemma GetArrayIndex(es: seq<Value>, i: nat)
    requires i < |es|
    ensures Get(Arr(es), NatToString(i)) == es[i]
  {
    ParseIndexOfNatToString(i);
  }

  /** Every key Object.keys reports can be read back as an own property. */
  lemma OwnKeysReadBack(v: Value, j: nat)
    requires j < |OwnKeys(v)|
    ensures v.Obj? && DistinctKeys(v.props) ==> Get(v, OwnKeys(v)[j]) == v.props[j].1
    ensures v.Arr? ==> Get(v, OwnKeys(v)[j]) == v.elems[j]
    ensures v.Str? ==> Get(v, OwnKeys(v)[j]) == Str([v.s[j]])
  {
    if v.Arr? || v.Str? {
      ParseIndexOfNatToString(j);
    } else if v.Obj? && DistinctKeys(v.props) {
      var ps := v.props;
      assert forall i :: 0 <= i < j ==> Keys(ps[..j])[i] == ps[i].0 != ps[j].0;
      LookupFirst(ps, j);
    }
  }

  /** JavaScript's ToString, used for template literals, property keys and join. An
      array prints as its elements joined by ",", with null and undefined as "". */
  function ToJsString(v: Value): (s: string)
    ensures v.Str? ==> s == v.s
    ensures v.Obj? ==> s == TypeTag(v)
    ensures v.Arr? && v.elems == [] ==> s == ""
    ensures v.Arr? && |v.elems| == 1 ==> s == if IsNullish(v.elems[0]) then "" else ToJsString(v.elems[0])
    decreases v
  {
    match v
    case Undefined => "undefined"
    case Null => "null"
    case Bool(b) => if b then "true" else "false"
    case Int(i) => IntToString(i)
    case Str(s) => s
    case Obj(_) => "[object Object]"
    case Arr(es) =>
      Join(seq(|es|, i requires 0 <= i < |es| => if IsNullish(es[i]) then "" else ToJsString(es[i])), ",")
  }

  /** The message new Error(m) records: "" when m is undefined, ToString(m) otherwise. */
  function ErrorMessage(m: Value): (s: string)
    ensures m.Str? ==> s == m.s
    ensures m.Undefined? ==> s == ""
  {
    if m.Undefined? then "" else ToJsString(m)
  }
}
