/** The error classes: DomainError names each error after its class, DeepError builds
    its message from a chain of causes, and RequestError records an HTTP code and the
    failure it wraps and prints both. */
module Errors {
  import opened Text
  import opened Values

  /** A truthy cause is a proper part of the error holding it. Values here are finite
      trees, so every cause chain of the model is finite. */
  lemma CauseIsSmaller(e: Value)
    ensures Truthy(Cause(e)) ==> Cause(e) < e
  {
    if e.Obj? {
      LookupIsOwnValue(e.props, "cause");
    }
  }

  /** e.cause */
  function Cause(e: Value): Value {
    NamedProp(e, "cause")
  }

  /** e.message || e.reason: the text a link contributes, if truthy. */
  function LinkText(e: Value): Value {
    var m := NamedProp(e, "message");
    if Truthy(m) then m else NamedProp(e, "reason")
  }

  /** The property reads above are ordinary property reads. */
  lemma LinkReadsAreGets(e: Value)
    ensures Cause(e) == Get(e, "cause")
    ensures LinkText(e) == if Truthy(Get(e, "message")) then Get(e, "message") else Get(e, "reason")
  {
    NamedPropIsGet(e, "cause");
    NamedPropIsGet(e, "message");
    NamedPropIsGet(e, "reason");
  }

  /** The links generateMsg visits: the error itself, then each truthy cause in turn. */
  function CauseChain(e: Value): (links: seq<Value>)
    ensures |links| >= 1 && links[0] == e
    ensures forall i :: 0 <= i < |links| ==> (Truthy(Cause(links[i])) <==> i + 1 < |links|)
    ensures forall i :: 0 < i < |links| ==> links[i] == Cause(links[i - 1])
    decreases e
  {
    var c := Cause(e);
    CauseIsSmaller(e);
    if Truthy(c) then [e] + CauseChain(c) else [e]
  }

  function Bracket(m: Value): string {
    "[" + ToJsString(m) + "]"
  }

  /** What a link contributes: [m] for a truthy text m, nothing otherwise. */
  function Piece(link: Value): string {
    if Truthy(LinkText(link)) then Bracket(LinkText(link)) else ""
  }

  /** What the links contribute, link by link, outermost first. */
  function ChainMessage(links: seq<Value>): string
    decreases |links|
  {
    if links == [] then "" else ChainMessage(links[..|links| - 1]) + Piece(links[|links| - 1])
  }

  /** The truthy texts of the links, outermost first. */
  function Texts(links: seq<Value>): (ts: seq<Value>)
    ensures forall i :: 0 <= i < |ts| ==> Truthy(ts[i])
    decreases |links|
  {
    if links == [] then []
    else
      var last := LinkText(links[|links| - 1]);
      Texts(links[..|links| - 1]) + if Truthy(last) then [last] else []
  }

  /** "[m1][m2]...[mn]" */
  function Bracketed(ts: seq<Value>): string
    decreases |ts|
  {
    if ts == [] then "" else Bracketed(ts[..|ts| - 1]) + Bracket(ts[|ts| - 1])
  }

  /** The sum of |mi| + 2 over the texts. */
  function BracketedLength(ts: seq<Value>): nat
    decreases |ts|
  {
    if ts == [] then 0 else BracketedLength(ts[..|ts| - 1]) + |ToJsString(ts[|ts| - 1])| + 2
  }

  /** generateMsg, link by link, is the bracketed list of the truthy texts. */
  lemma {:induction false} ChainMessageIsBracketed(links: seq<Value>)
    ensures ChainMessage(links) == Bracketed(Texts(links))
    decreases |links|
  {
    if links != [] {
      var init := links[..|links| - 1];
      ChainMessageIsBracketed(init);
      var t := LinkText(links[|links| - 1]);
      if Truthy(t) {
        var ts := Texts(links);
        assert ts == Texts(init) + [t];
        assert ts[..|ts| - 1] == Texts(init);
      } else {
        assert Texts(links) == Texts(init);
      }
    }
  }

  lemma {:induction false} BracketedLengthIsSum(ts: seq<Value>)
    ensures |Bracketed(ts)| == BracketedLength(ts)
    decreases |ts|
  {
    if ts != [] {
      BracketedLengthIsSum(ts[..|ts| - 1]);
    }
  }

  /** Links without text contribute nothing, so a chain without any text yields "". */
  lemma ChainMessageEmpty(links: seq<Value>)
    ensures ChainMessage(links) == "" <==> Texts(links) == []
  {
    ChainMessageIsBracketed(links);
    BracketedLengthIsSum(Texts(links));
    if Texts(links) != [] {
      var ts := Texts(links);
      assert BracketedLength(ts) >= 2;
    }
  }

  lemma ChainMessageSnoc(links: seq<Value>, k: nat)
    requires k < |links|
    ensures ChainMessage(links[..k + 1]) == ChainMessage(links[..k]) + Piece(links[k])
  {
    assert links[..k + 1][..k] == links[..k];
  }

  /** One step down the chain: the next link is the cause, and there is one exactly
      when the cause is truthy. */
  lemma CauseChainStep(e: Value, k: nat)
    requires k < |CauseChain(e)|
    ensures Truthy(Cause(CauseChain(e)[k])) <==> k + 1 < |CauseChain(e)|
    ensures k + 1 < |CauseChain(e)| ==> CauseChain(e)[k + 1] == Cause(CauseChain(e)[k])
  {
  }

  /** generateMsg: reading e.message on a null or undefined error throws; otherwise the
      do-while visits the error and then its causes while they are truthy. */
  method GenerateMsg(error: Value) returns (r: Completion<string>)
    ensures r.TypeError? <==> IsNullish(error)
    ensures r.Normal? ==> r.value == ChainMessage(CauseChain(error))
  {
    if IsNullish(error) {
      return TypeError;
    }
    ghost var links := CauseChain(error);
    var msg := "";
    var e := error;
    ghost var k := 0;
    while true
      invariant 0 <= k < |links| && e == links[k]
      invariant msg == ChainMessage(links[..k])
      decreases |links| - k
    {
      var m := LinkText(e);
      if Truthy(m) {
        msg := msg + Bracket(m);
      }
      ChainMessageSnoc(links, k);
      CauseChainStep(error, k);
      e := Cause(e);
      if !Truthy(e) {
        assert links[..k + 1] == links;
        break;
      }
      k := k + 1;
    }
    r := Normal(msg);
  }

  /** An error {message: "a"} caused by {reason: "b"}, itself caused by an error with
      an empty message. */
  const Inner: Value := Obj([("message", Str(""))])
  const Middle: Value := Obj([("reason", Str("b")), ("cause", Inner)])
  const Outer: Value := Obj([("message", Str("a")), ("cause", Middle)])

  /** Its chain is the three errors, outermost first. */
  lemma CauseChainExample()
    ensures CauseChain(Outer) == [Outer, Middle, Inner]
  {
    assert "message"[0] != "cause"[0] && "reason"[0] != "cause"[0];
    assert Cause(Inner) == Lookup(Inner.props[1..], "cause") == Undefined;
    assert Cause(Middle) == Lookup(Middle.props[1..], "cause") == Inner;
    assert Cause(Outer) == Lookup(Outer.props[1..], "cause") == Middle;
    assert CauseChain(Inner) == [Inner];
  }

  lemma PiecesExample()
    ensures Piece(Outer) == "[a]" && Piece(Middle) == "[b]" && Piece(Inner) == ""
  {
    assert LinkText(Outer) == Str("a") && LinkText(Middle) == Str("b");
    assert LinkText(Inner) == Lookup(Inner.props[1..], "reason") == Undefined;
  }

  /** The message skips the link without text: "[a][b]". */
  lemma GenerateMsgExample()
    ensures ChainMessage(CauseChain(Outer)) == "[a][b]"
  {
    CauseChainExample();
    PiecesExample();
    ChainMessageOfThree(Outer, Middle, Inner);
    ConcatExample();
  }

  lemma ConcatExample()
    ensures "[a]" + "[b]" + "" == "[a][b]"
  {
    var x := "[a]" + "[b]" + "";
    assert x[0] == '[' && x[1] == 'a' && x[2] == ']' && x[3] == '[' && x[4] == 'b' && x[5] == ']';
  }

  lemma ChainMessageOfThree(a: Value, b: Value, c: Value)
    ensures ChainMessage([a, b, c]) == Piece(a) + Piece(b) + Piece(c)
  {
    assert [a, b, c][..2] == [a, b] && [a, b][..1] == [a] && [a][..0] == [];
    assert ChainMessage([a]) == "" + Piece(a) == Piece(a);
    assert ChainMessage([a, b]) == Piece(a) + Piece(b);
  }

  /** The error objects of the library. Each keeps the message its Error constructor
      recorded; DeepError and RequestError also keep their cause. */
  datatype ErrorObject =
    | DomainError(message: string)
    | DeepError(message: string, cause: Value)
    | RequestError(message: string, httpCode: Value, cause: Value)

  /** this.name = this.constructor.name: each class gets its own name, which has no
      line break. */
  function Name(e: ErrorObject): (n: string)
    ensures e.DomainError? <==> n == "DomainError"
    ensures e.DeepError? <==> n == "DeepError"
    ensures e.RequestError? <==> n == "RequestError"
    ensures '\n' !in n
  {
    match e
    case DomainError(_) => "DomainError"
    case DeepError(_, _) => "DeepError"
    case RequestError(_, _, _) => "RequestError"
  }

  /** Error.prototype.toString (ECMA-262, section 20.5.3.4) for a non-empty name. */
  function BaseString(e: ErrorObject): (b: string)
    ensures |Name(e)| <= |b| && b[..|Name(e)|] == Name(e)
    ensures b == Name(e) <==> e.message == ""
    ensures e.message != "" ==> |Name(e)| + 2 <= |b| && b[|Name(e)|..|Name(e)| + 2] == ": " && b[|Name(e)| + 2..] == e.message
  {
    if e.message == "" then Name(e) else Name(e) + ": " + e.message
  }

  /** The base string names the class and gives back the message it was built from. */
  lemma BaseStringDeterminesMessage(e1: ErrorObject, e2: ErrorObject)
    requires BaseString(e1) == BaseString(e2) && Name(e1) == Name(e2)
    ensures e1.message == e2.message
  {
    var n := Name(e1);
    if e1.message != "" && e2.message != "" {
      assert e1.message == BaseString(e1)[|n| + 2..];
      assert e2.message == BaseString(e2)[|n| + 2..];
    }
  }

  /** toString: the base string, and for a RequestError the HTTP code and the cause's
      stack (or the cause itself when it has no truthy stack). Reading cause.stack of a
      null or undefined cause throws. */
  function ToString(e: ErrorObject): (r: Completion<string>)
    ensures r.TypeError? <==> e.RequestError? && IsNullish(e.cause)
  {
    match e
    case RequestError(_, httpCode, cause) =>
      if IsNullish(cause) then TypeError
      else
        var stack := Get(cause, "stack");
        Normal(BaseString(e) + "\nHTTP Code: " + ToJsString(httpCode) + " \n Error: "
               + ToJsString(if Truthy(stack) then stack else cause))
    case _ => Normal(BaseString(e))
  }

  /** The printed form always starts with the base string; for a RequestError whose
      message has no line break, that base string is exactly the first line. */
  lemma ToStringStartsWithBase(e: ErrorObject)
    requires ToString(e).Normal?
    ensures var s := ToString(e).value;
      |BaseString(e)| <= |s| && s[..|BaseString(e)|] == BaseString(e)
    ensures e.RequestError? && '\n' !in e.message ==>
      var s := ToString(e).value;
      var b := BaseString(e);
      |b| < |s| && s[|b|] == '\n' && '\n' !in b
  {
    var s := ToString(e).value;
    var b := BaseString(e);
    if e.RequestError? {
      var t := ToJsString(if Truthy(Get(e.cause, "stack")) then Get(e.cause, "stack") else e.cause);
      var rest := "\nHTTP Code: " + ToJsString(e.httpCode) + " \n Error: " + t;
      assert s == b + rest;
      assert rest[0] == '\n';
      if '\n' !in e.message {
        NoLineBreakInBase(e);
      }
    }
  }

  /** Neither the name nor ": " holds a line break, so the base string has one only
      when the message does. */
  lemma NoLineBreakInBase(e: ErrorObject)
    requires '\n' !in e.message
    ensures '\n' !in BaseString(e)
  {
    var b := BaseString(e);
    var n := Name(e);
    forall i | 0 <= i < |b| ensures b[i] != '\n' {
      if i < |n| {
        assert b[i] == b[..|n|][i];
      } else if i < |n| + 2 {
        assert b[i] == b[|n|..|n| + 2][i - |n|];
      } else {
        assert b[i] == b[|n| + 2..][i - |n| - 2];
      }
    }
  }

  /** A RequestError prints its cause's stack when it has a truthy one, and the cause
      itself otherwise; either way it is the tail of the printed form. */
  lemma RequestErrorPrintsStackOrCause(message: string, httpCode: Value, cause: Value)
    requires !IsNullish(cause)
    ensures var s := ToString(RequestError(message, httpCode, cause)).value;
      var stack := Get(cause, "stack");
      var t := if Truthy(stack) then ToJsString(stack) else ToJsString(cause);
      |t| <= |s| && s[|s| - |t|..] == t
  {
  }

  /** Between the base string and the stack or cause, a RequestError prints the line
      break, "HTTP Code: ", the printed code, " ", a second line break and " Error: ". */
  lemma RequestErrorPrintsCode(message: string, httpCode: Value, cause: Value)
    requires !IsNullish(cause)
    ensures var e := RequestError(message, httpCode, cause);
      var s := ToString(e).value;
      var b := BaseString(e);
      var code := ToJsString(httpCode);
      && |b| + 12 + |code| + 10 <= |s|
      && s[|b|..|b| + 12] == "\nHTTP Code: "
      && s[|b| + 12..|b| + 12 + |code|] == code
      && s[|b| + 12 + |code|..|b| + 12 + |code| + 10] == " \n Error: "
  {
    var e := RequestError(message, httpCode, cause);
    var stack := Get(cause, "stack");
    var t := ToJsString(if Truthy(stack) then stack else cause);
    PiecesAfter(BaseString(e), "\nHTTP Code: ", ToJsString(httpCode), " \n Error: ", t);
  }

  /** Where the middle pieces of b + m + c + n + t sit. */
  lemma PiecesAfter(b: string, m: string, c: string, n: string, t: string)
    ensures var s := b + m + c + n + t;
      && |b| + |m| + |c| + |n| <= |s|
      && s[|b|..|b| + |m|] == m
      && s[|b| + |m|..|b| + |m| + |c|] == c
      && s[|b| + |m| + |c|..|b| + |m| + |c| + |n|] == n
  {
    var s1 := b + m;
    var s2 := s1 + c;
    var s3 := s2 + n;
    var s := s3 + t;
    assert s[..|s3|] == s3 && s3[..|s2|] == s2 && s2[..|s1|] == s1;
    assert s1[|b|..] == m && s2[|s1|..] == c && s3[|s2|..] == n;
    assert s[|b|..|s1|] == s1[|b|..];
    assert s[|s1|..|s2|] == s2[|s1|..];
    assert s[|s2|..|s3|] == s3[|s2|..];
  }

  /** new DomainError(message): Error records "" for an undefined message and the
      string form of anything else. */
  function NewDomainError(message: Value): (r: ErrorObject)
    ensures Name(r) == "DomainError"
    ensures message.Str? ==> r.message == message.s
    ensures message.Undefined? ==> r.message == ""
  {
    DomainError(ErrorMessage(message))
  }

  /** new RequestError(message, httpCode, cause): the code and cause are kept as given. */
  function NewRequestError(message: Value, httpCode: Value, cause: Value): (r: ErrorObject)
    ensures Name(r) == "RequestError"
    ensures r.RequestError? && r.httpCode == httpCode && r.cause == cause
    ensures message.Str? ==> r.message == message.s
    ensures message.Undefined? ==> r.message == ""
  {
    RequestError(ErrorMessage(message), httpCode, cause)
  }

  /** new DeepError(error): the message generated from the cause chain, and the
      argument itself kept as the cause. */
  method NewDeepError(error: Value) returns (r: Completion<ErrorObject>)
    ensures r.TypeError? <==> IsNullish(error)
    ensures r.Normal? ==> Name(r.value) == "DeepError" && r.value.DeepError? && r.value.cause == error
    ensures r.Normal? ==> r.value.message == Bracketed(Texts(CauseChain(error)))
  {
    var msg := GenerateMsg(error);
    if msg.TypeError? {
      return TypeError;
    }
    ChainMessageIsBracketed(CauseChain(error));
    r := Normal(DeepError(msg.value, error));
  }
}
