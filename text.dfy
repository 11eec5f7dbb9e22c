/**
 * The JavaScript string built-ins the application relies on: `trim`, `Number#toString`,
 * `padStart(2, '0')`, `parseInt` on decimal digits, `indexOf`, `toLowerCase` and `Number(s)`.
 */
module Text {

  /**
   * The characters `String.prototype.trim` removes and the regular-expression class `\s`
   * matches: ECMAScript WhiteSpace and LineTerminator.
   */
  predicate IsWhitespace(c: char)
  {
    c == ' ' || c == '\t' || c == '\n' || c == '\r' || c == '\U{000B}' || c == '\U{000C}'
    || c == '\U{00A0}' || c == '\U{1680}' || ('\U{2000}' <= c <= '\U{200A}')
    || c == '\U{2028}' || c == '\U{2029}' || c == '\U{202F}' || c == '\U{205F}'
    || c == '\U{3000}' || c == '\U{FEFF}'
  }

  predicate IsBlank(s: string)
  {
    forall i :: 0 <= i < |s| ==> IsWhitespace(s[i])
  }

  /** Number of leading whitespace characters. */
  function LeadingSpace(s: string): (n: nat)
    ensures n <= |s|
    ensures forall i :: 0 <= i < n ==> IsWhitespace(s[i])
    ensures n < |s| ==> !IsWhitespace(s[n])
  {
    if |s| == 0 || !IsWhitespace(s[0]) then 0 else 1 + LeadingSpace(s[1..])
  }

  /** Number of trailing whitespace characters. */
  function TrailingSpace(s: string): (n: nat)
    ensures n <= |s|
    ensures forall i :: |s| - n <= i < |s| ==> IsWhitespace(s[i])
    ensures n < |s| ==> !IsWhitespace(s[|s| - 1 - n])
  {
    if |s| == 0 || !IsWhitespace(s[|s| - 1]) then 0 else 1 + TrailingSpace(s[..|s| - 1])
  }

  /** `s.trim()`: the slice of `s` between its leading and trailing whitespace. */
  function Trim(s: string): (r: string)
    ensures |r| <= |s|
    ensures r == "" <==> IsBlank(s)
    ensures r != "" ==> !IsWhitespace(r[0]) && !IsWhitespace(r[|r| - 1])
    ensures (forall i :: 0 <= i < |s| ==> !IsWhitespace(s[i])) ==> r == s
    ensures LeadingSpace(s) + |r| <= |s| && r == s[LeadingSpace(s)..LeadingSpace(s) + |r|]
  {
    var a := LeadingSpace(s);
    var t := s[a..];
    var r := t[..|t| - TrailingSpace(t)];
    assert r == s[a..a + |r|];
    assert a == |s| ==> IsBlank(s);
    r
  }

  /**
   * The trim is what is left between the leading and the trailing whitespace: `s` is blank
   * padding, then `Trim(s)` in place, then blank padding.
   */
  lemma TrimIsInnerSlice(s: string)
    ensures var a, r := LeadingSpace(s), Trim(s);
      a + |r| <= |s| && r == s[a..a + |r|]
      && (forall i :: 0 <= i < a ==> IsWhitespace(s[i]))
      && (forall i :: a + |r| <= i < |s| ==> IsWhitespace(s[i]))
  {
    var a := LeadingSpace(s);
    var t := s[a..];
    var k := TrailingSpace(t);
    assert |Trim(s)| == |t| - k;
    forall i | a + |t| - k <= i < |s| ensures IsWhitespace(s[i]) {
      assert s[i] == t[i - a];
    }
  }

  /** Each character of the trim is the character of `s` just as far past the leading whitespace. */
  lemma TrimChars(s: string)
    ensures forall i :: 0 <= i < |Trim(s)| ==> Trim(s)[i] == s[LeadingSpace(s) + i]
  {
  }

  /** A whitespace character in front does not change the trim. */
  lemma TrimDropsLeadingSpace(c: char, x: string)
    requires IsWhitespace(c)
    ensures Trim([c] + x) == Trim(x)
  {
    var s := [c] + x;
    assert s[1..] == x;
    assert LeadingSpace(s) == 1 + LeadingSpace(x);
    assert s[LeadingSpace(s)..] == x[LeadingSpace(x)..];
  }

  /** The number of leading whitespace characters of a text that is not blank survives appending. */
  lemma {:induction false} LeadingSpaceAppend(x: string, y: string)
    requires !IsBlank(x)
    ensures LeadingSpace(x + y) == LeadingSpace(x)
  {
    if IsWhitespace(x[0]) {
      assert (x + y)[1..] == x[1..] + y;
      LeadingSpaceAppend(x[1..], y);
    }
  }

  /** A whitespace character at the end does not change the trim. */
  lemma TrimDropsTrailingSpace(x: string, c: char)
    requires IsWhitespace(c)
    ensures Trim(x + [c]) == Trim(x)
  {
    var s := x + [c];
    if IsBlank(x) {
      assert IsBlank(s) by {
        forall i | 0 <= i < |s| ensures IsWhitespace(s[i]) {
          if i < |x| { assert s[i] == x[i]; }
        }
      }
    } else {
      LeadingSpaceAppend(x, [c]);
      var a := LeadingSpace(x);
      var t := x[a..];
      TrailingSpaceAppend(t, c);
      AppendSlices(x, c, a, |t| - TrailingSpace(t));
    }
  }

  lemma TrailingSpaceAppend(t: string, c: char)
    requires IsWhitespace(c)
    ensures TrailingSpace(t + [c]) == 1 + TrailingSpace(t)
  {
    assert (t + [c])[..|t + [c]| - 1] == t;
  }

  lemma AppendSlices<T>(x: seq<T>, c: T, a: nat, n: nat)
    requires a + n <= |x|
    ensures (x + [c])[a..] == x[a..] + [c]
    ensures (x[a..] + [c])[..n] == x[a..][..n]
  {
  }

  /** Padding with whitespace on either side does not change the trim. */
  lemma {:induction false} TrimIgnoresPadding(p: string, x: string, q: string)
    requires IsBlank(p) && IsBlank(q)
    ensures Trim(p + x + q) == Trim(x)
  {
    if |p| > 0 {
      assert p + x + q == [p[0]] + (p[1..] + x + q);
      TrimDropsLeadingSpace(p[0], p[1..] + x + q);
      TrimIgnoresPadding(p[1..], x, q);
    } else if |q| > 0 {
      var q' := q[..|q| - 1];
      assert p + x + q == (p + x + q') + [q[|q| - 1]];
      TrimDropsTrailingSpace(p + x + q', q[|q| - 1]);
      TrimIgnoresPadding(p, x, q');
    } else {
      assert p + x + q == x;
    }
  }

  /** A text that starts and ends with a non-whitespace character is its own trim. */
  lemma TrimUnpadded(s: string)
    requires s != "" && !IsWhitespace(s[0]) && !IsWhitespace(s[|s| - 1])
    ensures Trim(s) == s
  {
    assert LeadingSpace(s) == 0;
    assert TrailingSpace(s) == 0;
    assert s[0..] == s && s[..|s|] == s;
  }

  /** Trimming twice is trimming once. */
  lemma TrimIdempotent(s: string)
    ensures Trim(Trim(s)) == Trim(s)
  {
    var r := Trim(s);
    if r != "" {
      TrimUnpadded(r);
    }
  }

  predicate IsDigit(c: char)
  {
    '0' <= c <= '9'
  }

  predicate AllDigits(s: string)
  {
    forall i :: 0 <= i < |s| ==> IsDigit(s[i])
  }

  function DigitChar(d: nat): (c: char)
    requires d < 10
    ensures IsDigit(c)
  {
    (('0' as int) + d) as char
  }

  function DigitValue(c: char): (d: nat)
    requires IsDigit(c)
    ensures d < 10
  {
    (c as int) - ('0' as int)
  }

  /** `String(n)` for a non-negative integer: its decimal digits, without leading zeros. */
  function NatToString(n: nat): (r: string)
    ensures |r| >= 1 && AllDigits(r)
    ensures (|r| == 1) == (n < 10)
    ensures 10 <= n < 100 ==> |r| == 2
    ensures r[0] == '0' ==> n == 0
  {
    if n < 10 then [DigitChar(n)] else NatToString(n / 10) + [DigitChar(n % 10)]
  }

  /** `parseInt(s, 10)` on a string of decimal digits. */
  function DigitsValue(s: string): (n: nat)
    requires AllDigits(s)
  {
    if |s| == 0 then 0 else 10 * DigitsValue(s[..|s| - 1]) + DigitValue(s[|s| - 1])
  }

  /** Decimal rendering and parsing are inverse. */
  lemma {:induction false} DigitsValueOfNatToString(n: nat)
    ensures DigitsValue(NatToString(n)) == n
  {
    if n >= 10 {
      var r := NatToString(n);
      assert r[..|r| - 1] == NatToString(n / 10);
      DigitsValueOfNatToString(n / 10);
    }
  }

  /** A leading zero does not change the value. */
  lemma {:induction false} DigitsValueLeadingZero(s: string)
    requires AllDigits(s)
    ensures DigitsValue("0" + s) == DigitsValue(s)
  {
    if |s| > 0 {
      assert ("0" + s)[..|"0" + s| - 1] == "0" + s[..|s| - 1];
      DigitsValueLeadingZero(s[..|s| - 1]);
    }
  }

  /** Number of leading ASCII digits. */
  function LeadingDigits(s: string): (n: nat)
    ensures n <= |s| && AllDigits(s[..n]) && (n < |s| ==> !IsDigit(s[n]))
  {
    if |s| == 0 || !IsDigit(s[0]) then 0
    else
      var k := LeadingDigits(s[1..]);
      assert s[..k + 1] == [s[0]] + s[1..][..k];
      k + 1
  }

  /** `String(i)` for any integer. */
  function IntToString(i: int): (r: string)
    ensures i >= 0 ==> r == NatToString(i)
    ensures i < 0 ==> r == "-" + NatToString(-i)
  {
    if i < 0 then "-" + NatToString(-i) else NatToString(i)
  }

  /** `n.toString().padStart(2, '0')`. */
  function Pad2(n: nat): (r: string)
    ensures AllDigits(r)
    ensures n < 100 ==> |r| == 2
    ensures |r| >= 2
  {
    if n < 10 then "0" + NatToString(n) else NatToString(n)
  }

  /** Padding keeps the value: `parseInt(Pad2(n), 10) == n`. */
  lemma Pad2Value(n: nat)
    ensures DigitsValue(Pad2(n)) == n
  {
    DigitsValueOfNatToString(n);
    if n < 10 {
      DigitsValueLeadingZero(NatToString(n));
    }
  }

  /** `s.indexOf(c)`: the first position of `c`, or -1. */
  function IndexOf(s: string, c: char): (r: int)
    ensures -1 <= r < |s|
    ensures r == -1 <==> c !in s
    ensures r >= 0 ==> s[r] == c && c !in s[..r]
  {
    if |s| == 0 then -1
    else if s[0] == c then 0
    else
      var k := IndexOf(s[1..], c);
      assert s == [s[0]] + s[1..];
      if k == -1 then -1
      else
        assert s[..k + 1] == [s[0]] + s[1..][..k];
        k + 1
  }

  function LowerChar(c: char): (r: char)
    ensures !('A' <= r <= 'Z')
    ensures !('A' <= c <= 'Z') ==> r == c
  {
    if 'A' <= c <= 'Z' then ((c as int) + 32) as char else c
  }

  /** `s.toLowerCase()` restricted to ASCII letters. */
  function ToLowerAscii(s: string): (r: string)
    ensures |r| == |s|
    ensures forall i :: 0 <= i < |s| ==> r[i] == LowerChar(s[i])
  {
    if |s| == 0 then [] else [LowerChar(s[0])] + ToLowerAscii(s[1..])
  }

  /** A JavaScript number as far as the model needs one: an integer or NaN. */
  datatype JsNumber = Num(value: int) | NaN

  /** `x || 0` on a number: NaN and 0 become 0. */
  function OrZero(x: JsNumber): (r: int)
    ensures x.Num? ==> r == x.value
    ensures x.NaN? ==> r == 0
  {
    match x
    case Num(v) => v
    case NaN => 0
  }

  /**
   * `Number(s)` for the decimal-integer strings a numeric input field produces: surrounding
   * whitespace is ignored, the empty string is 0, an optional sign may lead the digits, and
   * anything else is NaN.
   */
  function ToNumber(s: string): (r: JsNumber)
    ensures IsBlank(s) ==> r == Num(0)
    ensures AllDigits(s) && s != "" ==> r == Num(DigitsValue(s))
  {
    var t := Trim(s);
    if t == "" then Num(0)
    else if AllDigits(t) then Num(DigitsValue(t))
    else if |t| > 1 && (t[0] == '-' || t[0] == '+') && AllDigits(t[1..]) then
      var v: int := DigitsValue(t[1..]);
      Num(if t[0] == '-' then -v else v)
    else NaN
  }

  /**
   * `parseInt(s)` on decimal text: leading whitespace is skipped, an optional sign is read,
   * then the longest run of digits; with no digit the result is NaN.
   */
  function ParseInt(s: string): JsNumber
  {
    var t := s[LeadingSpace(s)..];
    var signed := |t| > 0 && (t[0] == '-' || t[0] == '+');
    var u := if signed then t[1..] else t;
    var n := LeadingDigits(u);
    if n == 0 then NaN
    else
      var v: int := DigitsValue(u[..n]);
      Num(if signed && t[0] == '-' then -v else v)
  }

  /** `parseInt(String(i)) == i`: the rendering of an integer parses back to it. */
  lemma ParseIntOfIntToString(i: int)
    ensures ParseInt(IntToString(i)) == Num(i)
  {
    var d := if i < 0 then -i else i;
    var r := NatToString(d);
    DigitsValueOfNatToString(d);
    assert LeadingDigits(r) == |r|;
    assert r[..|r|] == r;
    if i < 0 {
      var s := "-" + r;
      assert s[1..] == r;
      assert LeadingSpace(s) == 0;
      assert s[0..] == s;
    } else {
      assert LeadingSpace(r) == 0;
      assert r[0..] == r;
    }
  }

  /** Numbers from 100000 to 999999 are written with exactly six digits. */
  lemma SixDigitRendering(n: nat)
    requires 100000 <= n <= 999999
    ensures |NatToString(n)| == 6
  {
    var k1 := n / 10;
    var k2 := k1 / 10;
    var k3 := k2 / 10;
    var k4 := k3 / 10;
    assert 10 <= k4 < 100;
    assert |NatToString(k3)| == |NatToString(k4)| + 1;
    assert |NatToString(k2)| == |NatToString(k3)| + 1;
    assert |NatToString(k1)| == |NatToString(k2)| + 1;
    assert |NatToString(n)| == |NatToString(k1)| + 1;
  }
}
