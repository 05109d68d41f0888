/** Decimal numerals and string joining: the parts of JavaScript's number-to-string
    conversion and of Array.prototype.join that the utility layer relies on. */
module Text {

  predicate IsDigit(c: char) {
    '0' <= c <= '9'
  }

  predicate AllDigits(s: string) {
    forall i :: 0 <= i < |s| ==> IsDigit(s[i])
  }

  function DigitChar(d: nat): (c: char)
    requires d < 10
    ensures IsDigit(c) && (c as int) - ('0' as int) == d
  {
    "0123456789"[d]
  }

  function DigitValue(c: char): (d: nat)
    requires IsDigit(c)
    ensures d < 10 && DigitChar(d) == c
  {
    (c as int) - ('0' as int)
  }

  /** A decimal numeral with no superfluous leading zero, the form in which
      JavaScript prints a non-negative integer and names an array index. */
  predicate Canonical(s: string) {
    |s| > 0 && AllDigits(s) && (|s| == 1 || s[0] != '0')
  }

  /** The decimal text of n, as Number.prototype.toString() prints a non-negative integer. */
  function NatToString(n: nat): (s: string)
    ensures Canonical(s)
    decreases n
  {
    if n < 10 then [DigitChar(n)] else NatToString(n / 10) + [DigitChar(n % 10)]
  }

  /** The number a string of decimal digits denotes. */
  function DecimalValue(s: string): (n: nat)
    requires AllDigits(s)
    decreases |s|
  {
    if s == [] then 0 else DecimalValue(s[..|s| - 1]) * 10 + DigitValue(s[|s| - 1])
  }

  /** The array index a property key names, if it names one: JavaScript treats a key
      as an index exactly when it is the canonical decimal text of a natural number. */
  function ParseIndex(k: string): (r: Option<nat>)
    ensures r.Some? <==> Canonical(k)
  {
    if Canonical(k) then Some(DecimalValue(k)) else None
  }

  datatype Option<+T> = None | Some(value: T)

  /** The decimal text of any integer, with a leading '-' for a negative one. */
  function IntToString(i: int): (s: string)
    ensures i >= 0 ==> Canonical(s)
    ensures i < 0 ==> |s| >= 2 && s[0] == '-' && Canonical(s[1..])
  {
    if i < 0 then "-" + NatToString(-i) else NatToString(i)
  }

  /** Joins parts with sep between neighbours, as Array.prototype.join does. */
  function Join(parts: seq<string>, sep: string): (s: string)
    ensures |parts| == 1 ==> s == parts[0]
    decreases |parts|
  {
    if |parts| == 0 then ""
    else if |parts| == 1 then parts[0]
    else parts[0] + sep + Join(parts[1..], sep)
  }

  lemma {:induction false} DecimalValueOfNatToString(n: nat)
    ensures DecimalValue(NatToString(n)) == n
    decreases n
  {
    if n >= 10 {
      var s := NatToString(n);
      assert s[..|s| - 1] == NatToString(n / 10);
      DecimalValueOfNatToString(n / 10);
    }
  }

  /** Printing an index and reading it back as a property key gives the index. */
  lemma ParseIndexOfNatToString(n: nat)
    ensures ParseIndex(NatToString(n)) == Some(n)
  {
    DecimalValueOfNatToString(n);
  }

  lemma {:induction false} LeadingDigitBound(s: string)
    requires |s| > 0 && AllDigits(s)
    ensures DecimalValue(s) >= DigitValue(s[0])
    decreases |s|
  {
    if |s| > 1 {
      var p := s[..|s| - 1];
      assert p[0] == s[0];
      LeadingDigitBound(p);
    }
  }

  /** Every canonical key is the printed form of the index it denotes. */
  lemma {:induction false} NatToStringOfParseIndex(k: string)
    requires Canonical(k)
    ensures NatToString(DecimalValue(k)) == k
    decreases |k|
  {
    if |k| > 1 {
      var p := k[..|k| - 1];
      assert p[0] == k[0];
      LeadingDigitBound(p);
      NatToStringOfParseIndex(p);
      var n := DecimalValue(k);
      assert n / 10 == DecimalValue(p) && n % 10 == DigitValue(k[|k| - 1]);
      assert k == p + [k[|k| - 1]];
    }
  }
}
