/**
  Numerals: the digits of a natural number in a base, the text of a digit, and
  the way back from text to number. Used for the `%d` counts and the `%04x`
  codes and runes of the bfchar and bfrange sections.
 */
module Digits {
  import opened CMapTypes

  /** The digits of `n` in base `b`, most significant first, with no leading zero (0 is "0"). */
  function DigitsOf(n: nat, b: nat): (ds: seq<nat>)
    requires 2 <= b
    ensures 1 <= |ds|
    decreases n
  {
    if n < b then [n] else DivShrinks(n, b); DigitsOf(n / b, b) + [n % b]
  }

  /** The number whose digits in base `b` are `ds`, most significant first. */
  function ValueOf(ds: seq<nat>, b: nat): nat
  {
    if ds == [] then 0 else ValueOf(ds[..|ds| - 1], b) * b + ds[|ds| - 1]
  }

  predicate AllBelow(ds: seq<nat>, b: nat)
  {
    forall i :: 0 <= i < |ds| ==> ds[i] < b
  }

  /** Every digit of `n` is a digit of the base, and together they denote `n`. */
  lemma {:induction false} DigitsOfValue(n: nat, b: nat)
    requires 2 <= b
    ensures AllBelow(DigitsOf(n, b), b)
    ensures ValueOf(DigitsOf(n, b), b) == n
    decreases n
  {
    if n >= b {
      var q, r := n / b, n % b;
      DivShrinks(n, b);
      DigitsOfValue(q, b);
      ValueOfSnoc(DigitsOf(q, b), r, b);
      DivMod(n, b);
      SameProduct(ValueOf(DigitsOf(q, b), b), q, b);
    }
  }

  lemma DivMod(n: nat, b: nat)
    requires 0 < b
    ensures n == (n / b) * b + n % b && n % b < b
  {
  }

  lemma SameProduct(x: nat, y: nat, b: nat)
    requires x == y
    ensures x * b == y * b
  {
  }

  /** Dividing by a base of at least 2 makes a number that is at least the base smaller. */
  lemma DivShrinks(n: nat, b: nat)
    requires 2 <= b <= n
    ensures n / b < n
  {
    var q := n / b;
    DivMod(n, b);
    AtLeastDouble(q, b);
  }

  /** A multiple by at least 2 is at least twice the number. */
  lemma {:induction false} AtLeastDouble(q: nat, b: nat)
    requires 2 <= b
    ensures q * b >= 2 * q
  {
    if q > 0 {
      AtLeastDouble(q - 1, b);
      assert q * b == (q - 1) * b + b;
    }
  }

  /** Appending a digit multiplies the value by the base and adds the digit. */
  lemma ValueOfSnoc(ds: seq<nat>, d: nat, b: nat)
    ensures ValueOf(ds + [d], b) == ValueOf(ds, b) * b + d
    ensures forall i :: 0 <= i < |ds| ==> (ds + [d])[i] == ds[i]
  {
    assert (ds + [d])[..|ds|] == ds;
  }

  /** `n` zeros followed by `ds`. */
  function ZeroPad(ds: seq<nat>, width: nat): (r: seq<nat>)
    ensures |r| == if |ds| < width then width else |ds|
  {
    if |ds| < width then seq(width - |ds|, _ => 0) + ds else ds
  }

  /** Leading zeros change neither the digits' range nor their value. */
  lemma {:induction false} ZeroPadValue(ds: seq<nat>, width: nat, b: nat)
    requires 0 < b && AllBelow(ds, b)
    ensures AllBelow(ZeroPad(ds, width), b)
    ensures ValueOf(ZeroPad(ds, width), b) == ValueOf(ds, b)
  {
    if |ds| < width {
      LeadingZeros(width - |ds|, ds, b);
    }
  }

  lemma {:induction false} LeadingZeros(k: nat, ds: seq<nat>, b: nat)
    requires 0 < b && AllBelow(ds, b)
    ensures AllBelow(seq(k, _ => 0) + ds, b)
    ensures ValueOf(seq(k, _ => 0) + ds, b) == ValueOf(ds, b)
    decreases |ds|
  {
    var zs: seq<nat> := seq(k, _ => 0);
    var s := zs + ds;
    if ds == [] {
      assert s == zs;
      ZerosValue(k, b);
    } else {
      var init := ds[..|ds| - 1];
      LeadingZeros(k, init, b);
      assert s[..|s| - 1] == zs + init;
    }
  }

  lemma {:induction false} ZerosValue(k: nat, b: nat)
    ensures ValueOf(seq(k, _ => 0), b) == 0
  {
    if k > 0 {
      var zs: seq<nat> := seq(k, _ => 0);
      assert zs[..k - 1] == seq(k - 1, _ => 0);
      ZerosValue(k - 1, b);
    }
  }

  /** The lower-case character of a hexadecimal (or decimal) digit. */
  function DigitChar(d: nat): (ch: char)
    requires d < 16
  {
    if d < 10 then ('0' as int + d) as char else ('a' as int + d - 10) as char
  }

  /** The digit a character stands for, if it is one of 0-9 or a-f. */
  function CharDigit(ch: char): Option<nat>
  {
    if '0' <= ch <= '9' then Some(ch as int - '0' as int)
    else if 'a' <= ch <= 'f' then Some(ch as int - 'a' as int + 10)
    else None
  }

  /** A digit's character stands for that digit, and is an ASCII digit or lower-case letter. */
  lemma DigitCharInverse(d: nat)
    requires d < 16
    ensures CharDigit(DigitChar(d)) == Some(d)
    ensures IsDigitChar(DigitChar(d))
  {
  }

  predicate IsDigitChar(ch: char)
  {
    '0' <= ch <= '9' || 'a' <= ch <= 'f'
  }

  /** The characters of a sequence of digits. */
  function Render(ds: seq<nat>): (s: string)
    requires AllBelow(ds, 16)
    ensures |s| == |ds|
  {
    seq(|ds|, i requires 0 <= i < |ds| => DigitChar(ds[i]))
  }

  /** The digits of a text made only of digits below `b`. */
  function Unrender(s: string, b: nat): Option<seq<nat>>
  {
    if s == [] then Some([])
    else
      match (CharDigit(s[0]), Unrender(s[1..], b))
      case (Some(d), Some(ds)) => if d < b then Some([d] + ds) else None
      case _ => None
  }

  /** Reading the characters of digits back gives the digits. */
  lemma {:induction false} UnrenderRender(ds: seq<nat>, b: nat)
    requires b <= 16 && AllBelow(ds, b)
    ensures Unrender(Render(ds), b) == Some(ds)
  {
    if ds != [] {
      var s := Render(ds);
      assert s[1..] == Render(ds[1..]);
      UnrenderRender(ds[1..], b);
      DigitCharInverse(ds[0]);
      assert ds == [ds[0]] + ds[1..];
    }
  }

  /** The number a non-empty text of digits below `b` denotes. */
  function ReadNumber(s: string, b: nat): Option<nat>
  {
    if s == [] then None
    else
      match Unrender(s, b)
      case Some(ds) => Some(ValueOf(ds, b))
      case None => None
  }

  /** `%d` of a natural number. */
  function Decimal(n: nat): string
  {
    DigitsOfValue(n, 10);
    Render(DigitsOf(n, 10))
  }

  /** Reading a `%d` numeral back gives the number. */
  lemma DecimalRoundTrip(n: nat)
    ensures ReadNumber(Decimal(n), 10) == Some(n)
  {
    DigitsOfValue(n, 10);
    UnrenderRender(DigitsOf(n, 10), 10);
  }

  /**
    `%04x` of an integer: lower-case hexadecimal digits, zero-padded to width
    4. A negative value is written as "-" and its magnitude padded to width 3,
    since the sign counts towards the width.
   */
  function Hex04(v: int): string
  {
    if v < 0 then "-" + Padded(-v, 3) else Padded(v, 4)
  }

  /** Reads a `%x` numeral, with an optional leading minus sign. */
  function ReadHex(s: string): Option<int>
  {
    if s != [] && s[0] == '-' then
      match ReadNumber(s[1..], 16)
      case Some(n) => Some(0 - n)
      case None => None
    else ReadNumber(s, 16)
  }

  /** Every character of a `%04x` numeral is a digit or the minus sign, and there are at least four. */
  lemma Hex04Chars(v: int)
    ensures 4 <= |Hex04(v)|
    ensures forall i :: 0 <= i < |Hex04(v)| ==> IsDigitChar(Hex04(v)[i]) || Hex04(v)[i] == '-'
  {
    var mag: nat := if v < 0 then -v else v;
    var w := if v < 0 then 3 else 4;
    DigitsOfValue(mag, 16);
    ZeroPadValue(DigitsOf(mag, 16), w, 16);
    RenderDigits(ZeroPad(DigitsOf(mag, 16), w));
  }

  /** The characters of digits are digit characters. */
  lemma RenderDigits(ds: seq<nat>)
    requires AllBelow(ds, 16)
    ensures forall i :: 0 <= i < |ds| ==> IsDigitChar(Render(ds)[i])
  {
    forall i | 0 <= i < |ds|
      ensures IsDigitChar(Render(ds)[i])
    {
      DigitCharInverse(ds[i]);
    }
  }

  /** Reading a `%04x` numeral back gives the value, negative values included. */
  lemma Hex04RoundTrip(v: int)
    ensures ReadHex(Hex04(v)) == Some(v)
  {
    if v < 0 {
      PaddedRoundTrip(-v, 3);
      assert Hex04(v)[1..] == Padded(-v, 3);
    } else {
      PaddedRoundTrip(v, 4);
    }
  }

  /** The zero-padded hexadecimal digits of `mag`, the part of `%04x` after any sign. */
  function Padded(mag: nat, w: nat): (s: string)
  {
    DigitsOfValue(mag, 16);
    ZeroPadValue(DigitsOf(mag, 16), w, 16);
    Render(ZeroPad(DigitsOf(mag, 16), w))
  }

  /** The padded digits read back as the magnitude, and do not start with a minus sign. */
  lemma PaddedRoundTrip(mag: nat, w: nat)
    ensures Padded(mag, w) != [] && Padded(mag, w)[0] != '-'
    ensures ReadNumber(Padded(mag, w), 16) == Some(mag)
  {
    DigitsOfValue(mag, 16);
    var ds := ZeroPad(DigitsOf(mag, 16), w);
    ZeroPadValue(DigitsOf(mag, 16), w, 16);
    UnrenderRender(ds, 16);
    DigitCharInverse(ds[0]);
  }
}
