/** Character scans and small string conversions of the utility layer: Util._wasFound,
    Util.indexOf, Util.lastIndexOf, Util.removeLeadingZeros and Util.intToHex. */
module StringScan {
  import opened Text
  import opened Values

  /** String.prototype.includes(needle) on hay, which is what indexOf(needle) > -1 asks. */
  predicate Includes(hay: string, needle: string) {
    exists k :: 0 <= k <= |hay| - |needle| && OccursAt(hay, needle, k)
  }

  predicate OccursAt(hay: string, needle: string, k: int) {
    0 <= k <= |hay| - |needle| && hay[k..k + |needle|] == needle
  }

  /** Every string includes the empty string; a one-character string is included
      exactly when that character occurs. */
  lemma IncludesShort(hay: string, c: char)
    ensures Includes(hay, "")
    ensures Includes(hay, [c]) <==> c in hay
  {
    assert OccursAt(hay, "", 0);
    if c in hay {
      var k :| 0 <= k < |hay| && hay[k] == c;
      assert OccursAt(hay, [c], k);
    }
    if Includes(hay, [c]) {
      var k :| 0 <= k <= |hay| - 1 && OccursAt(hay, [c], k);
      assert hay[k..k + 1] == [c];
      assert hay[k] == c;
    }
  }

  /** String.prototype.charAt: the character at pos, or "" when pos is out of range. */
  function CharAt(s: string, pos: int): string {
    if 0 <= pos < |s| then [s[pos]] else ""
  }

  /** charAt at an in-range position gives the same one-character string as the
      property read s[pos]; it gives at most one character, and "" exactly when pos is
      out of range. */
  lemma CharAtReadsIndex(s: string, pos: int)
    ensures 0 <= pos < |s| ==> Str(CharAt(s, pos)) == Get(Str(s), NatToString(pos))
    ensures CharAt(s, pos) == "" <==> !(0 <= pos < |s|)
    ensures |CharAt(s, pos)| <= 1
  {
    if 0 <= pos < |s| {
      ParseIndexOfNatToString(pos);
    }
  }

  /** Util._wasFound: whether the character at pos is one of chars, negated when not is
      set. Out of range, charAt gives "", which every string includes, so such a
      position counts as found (and as not found when not is set). */
  function WasFound(str: string, chars: string, pos: int, not: bool): (r: bool)
    ensures 0 <= pos < |str| ==> (r <==> (str[pos] in chars) != not)
    ensures !(0 <= pos < |str|) ==> r == !not
  {
    var foundChar := Includes(chars, CharAt(str, pos));
    IncludesShort(chars, if 0 <= pos < |str| then str[pos] else ' ');
    (foundChar && !not) || (!foundChar && not)
  }

  /** Util.indexOf: the least position i >= pos, below the length, where the test
      holds, and -1 when there is none. A negative pos is itself such a position when
      not is unset, and is then returned as it is. */
  method IndexOf(str: string, chars: string, pos: int, not: bool) returns (r: int)
    ensures (exists i :: pos <= i < |str| && WasFound(str, chars, i, not)) ==>
      && pos <= r < |str|
      && WasFound(str, chars, r, not)
      && forall i :: pos <= i < r ==> !WasFound(str, chars, i, not)
    ensures (forall i :: pos <= i < |str| ==> !WasFound(str, chars, i, not)) ==> r == -1
  {
    var i := pos;
    while i < |str|
      invariant pos <= i
      invariant forall j :: pos <= j < i ==> !WasFound(str, chars, j, not)
      decreases |str| - i
    {
      if WasFound(str, chars, i, not) {
        return i;
      }
      i := i + 1;
    }
    r := -1;
  }

  /** Util.lastIndexOf: the greatest position i in [0, pos] where the test holds, and
      -1 when there is none. Positions past the end count as found when not is unset. */
  method LastIndexOf(str: string, chars: string, pos: int, not: bool) returns (r: int)
    ensures (exists i :: 0 <= i <= pos && WasFound(str, chars, i, not)) ==>
      && 0 <= r <= pos
      && WasFound(str, chars, r, not)
      && forall i :: r < i <= pos ==> !WasFound(str, chars, i, not)
    ensures (forall i :: 0 <= i <= pos ==> !WasFound(str, chars, i, not)) ==> r == -1
  {
    var i := pos;
    while i >= 0
      invariant i <= pos
      invariant forall j :: i < j <= pos ==> !WasFound(str, chars, j, not)
      decreases i
    {
      if WasFound(str, chars, i, not) {
        return i;
      }
      i := i - 1;
    }
    r := -1;
  }

  /** Searching with and without not are complementary at every in-range position. */
  lemma WasFoundComplement(str: string, chars: string, pos: int)
    requires 0 <= pos < |str|
    ensures WasFound(str, chars, pos, true) == !WasFound(str, chars, pos, false)
    ensures WasFound(str, chars, pos, false) <==> str[pos] in chars
  {
  }

  /** s with its leading '0' characters removed, as replace(/^0*\/, '') does. */
  function StripLeadingZeros(s: string): (r: string)
    ensures |r| <= |s| && r == s[|s| - |r|..]
    ensures forall i :: 0 <= i < |s| - |r| ==> s[i] == '0'
    ensures r == [] || r[0] != '0'
    decreases |s|
  {
    if s != [] && s[0] == '0' then StripLeadingZeros(s[1..]) else s
  }

  function Zeros(k: nat): (z: string)
    ensures |z| == k && forall i :: 0 <= i < k ==> z[i] == '0'
  {
    seq(k, _ => '0')
  }

  /** Stripping is the inverse of padding with zeros: a string that does not start with
      '0' comes back from any number of added leading zeros. */
  lemma {:induction false} StripPaddedZeros(k: nat, s: string)
    requires s == [] || s[0] != '0'
    ensures StripLeadingZeros(Zeros(k) + s) == s
    decreases k
  {
    if k > 0 {
      assert (Zeros(k) + s)[1..] == Zeros(k - 1) + s;
      StripPaddedZeros(k - 1, s);
    } else {
      assert Zeros(0) + s == s;
    }
  }

  /** Stripping twice strips nothing more. */
  lemma StripIdempotent(s: string)
    ensures StripLeadingZeros(StripLeadingZeros(s)) == StripLeadingZeros(s)
  {
    StripPaddedZeros(0, StripLeadingZeros(s));
    assert Zeros(0) + StripLeadingZeros(s) == StripLeadingZeros(s);
  }

  /** Util.removeLeadingZeros: toString() of null or undefined throws; otherwise the
      printed value without its leading zeros. */
  function RemoveLeadingZeros(value: Value): (r: Completion<string>)
    ensures r.TypeError? <==> IsNullish(value)
    ensures value.Str? ==> r == Normal(StripLeadingZeros(value.s))
    ensures value == Int(0) ==> r == Normal("")
  {
    if IsNullish(value) then TypeError else Normal(StripLeadingZeros(ToJsString(value)))
  }

  /** A positive number printed with any leading zeros comes back as its own decimal
      text; a positive number itself is left as it is. */
  lemma RemoveLeadingZerosOfPaddedNumber(k: nat, n: nat)
    requires n > 0
    ensures RemoveLeadingZeros(Str(Zeros(k) + NatToString(n))) == Normal(NatToString(n))
    ensures RemoveLeadingZeros(Int(n)) == Normal(NatToString(n))
  {
    var s := NatToString(n);
    assert s[0] != '0' by {
      if |s| == 1 {
        assert s == [DigitChar(n)];
      }
    }
    StripPaddedZeros(k, s);
    StripPaddedZeros(0, s);
    assert Zeros(0) + s == s;
    assert ToJsString(Int(n)) == IntToString(n) == s;
  }

  predicate IsHexDigit(c: char) {
    '0' <= c <= '9' || 'a' <= c <= 'f'
  }

  function HexDigitChar(d: nat): (c: char)
    requires d < 16
    ensures IsHexDigit(c)
  {
    "0123456789abcdef"[d]
  }

  function HexDigitValue(c: char): (d: nat)
    requires IsHexDigit(c)
    ensures d < 16
  {
    if c <= '9' then (c as int) - ('0' as int) else (c as int) - ('a' as int) + 10
  }

  lemma HexDigitRoundTrip(d: nat)
    requires d < 16
    ensures HexDigitValue(HexDigitChar(d)) == d
  {
  }

  predicate AllHex(s: string) {
    forall i :: 0 <= i < |s| ==> IsHexDigit(s[i])
  }

  /** Number.prototype.toString(16) of a non-negative integer: lower-case digits, no
      leading zero. */
  function HexText(n: nat): (s: string)
    ensures |s| >= 1 && AllHex(s)
    ensures n < 16 <==> |s| == 1
    ensures n < 256 ==> |s| <= 2
    ensures n > 0 ==> s[0] != '0'
    decreases n
  {
    if n < 16 then [HexDigitChar(n)] else HexText(n / 16) + [HexDigitChar(n % 16)]
  }

  /** The number a string of hexadecimal digits denotes. */
  function HexValue(s: string): nat
    requires AllHex(s)
    decreases |s|
  {
    if s == [] then 0 else HexValue(s[..|s| - 1]) * 16 + HexDigitValue(s[|s| - 1])
  }

  lemma {:induction false} HexValueOfHexText(n: nat)
    ensures HexValue(HexText(n)) == n
    decreases n
  {
    var d := n % 16;
    HexDigitRoundTrip(d);
    if n >= 16 {
      var s := HexText(n);
      assert s == HexText(n / 16) + [HexDigitChar(d)];
      assert s[..|s| - 1] == HexText(n / 16) && s[|s| - 1] == HexDigitChar(d);
      HexValueOfHexText(n / 16);
      assert HexValue(s) == HexValue(HexText(n / 16)) * 16 + d;
    }
  }

  /** A leading '0' does not change the value of a hexadecimal numeral. */
  lemma {:induction false} HexValueLeadingZero(s: string)
    requires AllHex(s)
    ensures AllHex("0" + s) && HexValue("0" + s) == HexValue(s)
    decreases |s|
  {
    if s != [] {
      var t := "0" + s;
      assert t[..|t| - 1] == "0" + s[..|s| - 1];
      HexValueLeadingZero(s[..|s| - 1]);
    }
  }

  /** Util.intToHex: toString(16) of the number, padded on the left with '0' to two
      characters; a negative number prints with a leading '-'. */
  function IntToHex(number: int): (r: string)
    ensures |r| >= 2
    ensures number >= 0 ==> AllHex(r)
    ensures number < 0 ==> r[0] == '-' && r[1..] == HexText(-number)
  {
    var s := if number < 0 then "-" + HexText(-number) else HexText(number);
    if |s| >= 2 then s else Zeros(2 - |s|) + s
  }

  /** Reading the text back as a hexadecimal numeral gives the number. */
  lemma IntToHexRoundTrip(number: nat)
    ensures HexValue(IntToHex(number)) == number
  {
    HexValueOfHexText(number);
    if number < 16 {
      HexValueLeadingZero(HexText(number));
      assert Zeros(1) == "0";
    }
  }

  /** A byte prints as exactly two lower-case hexadecimal digits, so distinct bytes
      print differently and the printed texts can be concatenated without a separator. */
  lemma IntToHexOfByte(number: nat)
    requires number < 256
    ensures |IntToHex(number)| == 2 && AllHex(IntToHex(number))
    ensures number < 16 ==> IntToHex(number) == ['0', HexDigitChar(number)]
  {
  }
}
