/** The three-digit counter (Display/index.tsx): the value is capped at 999, written in
    decimal as JavaScript's String does, padded on the left with '0' to three characters,
    and each character lights the segments whose digit list holds it. */
module Display {

  /** The largest value the counter shows. */
  const MAX: int := 999

  /** Display/index.tsx 12: values above 999 show as 999; nothing else is changed, so
      negative values pass through. */
  function Clamp(value: int): (r: int)
    ensures r <= MAX
    ensures value <= MAX ==> r == value
    ensures value > MAX ==> r == MAX
  {
    if value > MAX then MAX else value
  }

  predicate IsDigit(c: char) {
    '0' <= c <= '9'
  }

  function DigitChar(d: int): (c: char)
    requires 0 <= d <= 9
    ensures IsDigit(c)
  {
    ['0', '1', '2', '3', '4', '5', '6', '7', '8', '9'][d]
  }

  function DigitValue(c: char): (d: int)
    requires IsDigit(c)
    ensures 0 <= d <= 9 && DigitChar(d) == c
  {
    c as int - '0' as int
  }

  /** The decimal digits of n with no leading zero. */
  function NatToString(n: nat): (s: string)
    ensures |s| >= 1 && forall k :: 0 <= k < |s| ==> IsDigit(s[k])
    ensures s[0] == '0' ==> n == 0
    decreases n
  {
    if n < 10 then [DigitChar(n)] else NatToString(n / 10) + [DigitChar(n % 10)]
  }

  /** String(value) for an integer value: a '-' in front of a negative one, decimal
      digits everywhere else. */
  function IntToString(value: int): (r: string)
    ensures |r| >= 1
    ensures r[0] == '-' <==> value < 0
    ensures forall k :: (if value < 0 then 1 else 0) <= k < |r| ==> IsDigit(r[k])
    ensures |r| > (if value < 0 then 1 else 0)
    ensures r[if value < 0 then 1 else 0] == '0' ==> r == "0"
  {
    if value < 0 then "-" + NatToString(-value) else NatToString(value)
  }

  /** String.prototype.padStart with a one-character filler: as many fillers in front as
      make the length up to len; a string already that long is kept as it is. */
  function PadStart(s: string, len: nat, filler: char): (r: string)
    ensures |s| >= len ==> r == s
    ensures |s| < len ==> |r| == len
    ensures exists pad :: pad + s == r && forall k :: 0 <= k < |pad| ==> pad[k] == filler
  {
    var pad := seq(if |s| >= len then 0 else len - |s|, _ => filler);
    pad + s
  }

  /** Display/index.tsx 12-15: the characters the counter shows for a value: at least
      three of them, and a '-' among them exactly when the value is negative. */
  function Digits(value: int): (r: string)
    ensures |r| >= 3
    ensures '-' in r <==> value < 0
  {
    var s := IntToString(Clamp(value));
    var r := PadStart(s, 3, '0');
    assert r == seq(if |s| >= 3 then 0 else 3 - |s|, _ => '0') + s;
    assert value < 0 ==> r[|r| - |s|] == '-';
    r
  }

  /** The seven segments of one character cell, from top to bottom. */
  datatype Segments = Segments(
    top: bool,
    upperLeft: bool,
    upperRight: bool,
    middle: bool,
    lowerLeft: bool,
    lowerRight: bool,
    bottom: bool)

  const Dark := Segments(false, false, false, false, false, false, false)

  /** Display/index.tsx 29-39: a segment is lit exactly when its list holds the character;
      only the ten digits light anything. */
  function SegmentsOf(c: char): (s: Segments)
    ensures IsDigit(c) <==> s != Dark
  {
    Segments(
      c in "0235789",
      c in "045689",
      c in "01234789",
      c in "2345689",
      c in "0268",
      c in "013456789",
      c in "0235689")
  }

  /** The segments of every character the counter shows for a value. */
  function Show(value: int): (cells: seq<Segments>)
    ensures |cells| == |Digits(value)|
    ensures forall k :: 0 <= k < |cells| ==> cells[k] == SegmentsOf(Digits(value)[k])
  {
    seq(|Digits(value)|, k requires 0 <= k < |Digits(value)| => SegmentsOf(Digits(value)[k]))
  }

  // ----- the value the digits denote -----

  /** The number a string of decimal digits denotes. */
  function Value(s: string): nat
    requires forall k :: 0 <= k < |s| ==> IsDigit(s[k])
  {
    if s == [] then 0 else Value(s[..|s| - 1]) * 10 + DigitValue(s[|s| - 1])
  }

  function Pow10(k: nat): (p: nat)
    ensures p >= 1
  {
    if k == 0 then 1 else 10 * Pow10(k - 1)
  }

  /** The digits of n denote n. */
  lemma {:induction false} NatToStringValue(n: nat)
    ensures Value(NatToString(n)) == n
    decreases n
  {
    if n >= 10 {
      var front, last := NatToString(n / 10), DigitChar(n % 10);
      NatToStringValue(n / 10);
      var s := front + [last];
      assert s[..|s| - 1] == front && s[|s| - 1] == last;
      assert DigitValue(last) == n % 10;
    }
  }

  /** A number below 10^k has at most k digits. */
  lemma {:induction false} NatToStringLength(n: nat, k: nat)
    requires 1 <= k && n < Pow10(k)
    ensures |NatToString(n)| <= k
    decreases k
  {
    if n >= 10 {
      assert k >= 2;
      NatToStringLength(n / 10, k - 1);
    }
  }

  /** Leading zeros do not change the value. */
  lemma {:induction false} LeadingZerosValue(zeros: string, s: string)
    requires forall k :: 0 <= k < |zeros| ==> zeros[k] == '0'
    requires forall k :: 0 <= k < |s| ==> IsDigit(s[k])
    ensures forall k :: 0 <= k < |zeros + s| ==> IsDigit((zeros + s)[k])
    ensures Value(zeros + s) == Value(s)
    decreases |s|
  {
    var t := zeros + s;
    assert forall k :: 0 <= k < |t| ==> IsDigit(t[k]) by {
      forall k | 0 <= k < |t| ensures IsDigit(t[k]) {
        if k < |zeros| {
          assert t[k] == zeros[k];
        } else {
          assert t[k] == s[k - |zeros|];
        }
      }
    }
    if s == [] {
      assert t == zeros;
      AllZerosValue(zeros);
    } else {
      LeadingZerosValue(zeros, s[..|s| - 1]);
      assert t[..|t| - 1] == zeros + s[..|s| - 1];
      assert t[|t| - 1] == s[|s| - 1];
    }
  }

  /** A string of zeros denotes 0. */
  lemma {:induction false} AllZerosValue(zeros: string)
    requires forall k :: 0 <= k < |zeros| ==> zeros[k] == '0'
    ensures forall k :: 0 <= k < |zeros| ==> IsDigit(zeros[k])
    ensures Value(zeros) == 0
    decreases |zeros|
  {
    if zeros != [] {
      AllZerosValue(zeros[..|zeros| - 1]);
    }
  }

  // ----- the properties of the counter -----

  /** A value in 0..999 shows as exactly three decimal digits, zero-padded, that denote it. */
  lemma ShowsValueInRange(value: int)
    requires 0 <= value <= MAX
    ensures |Digits(value)| == 3
    ensures forall k :: 0 <= k < 3 ==> IsDigit(Digits(value)[k])
    ensures Value(Digits(value)) == value
    ensures Digits(value) == seq(3 - |NatToString(value)|, _ => '0') + NatToString(value)
  {
    var s := NatToString(value);
    NatToStringLength(value, 3);
    NatToStringValue(value);
    var zeros := seq(3 - |s|, _ => '0');
    assert Digits(value) == zeros + s;
    LeadingZerosValue(zeros, s);
  }

  /** A value above 999 shows as "999". */
  lemma ShowsMaxAbove(value: int)
    requires value > MAX
    ensures Digits(value) == "999"
  {
    assert NatToString(999) == "999";
  }

  /** A negative value keeps its sign: a '-' is among the characters shown, and that cell
      stays dark. */
  lemma NegativeShowsDarkSign(value: int)
    requires value < 0
    ensures exists k :: 0 <= k < |Digits(value)| && Digits(value)[k] == '-' && Show(value)[k] == Dark
  {
    var s := IntToString(value);
    var pad := seq(if |s| >= 3 then 0 else 3 - |s|, _ => '0');
    assert Digits(value) == pad + s;
    var k := |pad|;
    assert Digits(value)[k] == s[0] == '-';
  }

  /** -5 shows as "0-5": the pad goes in front of the sign. */
  lemma SmallNegativeExample()
    ensures Digits(-5) == "0-5"
  {
    assert IntToString(-5) == "-5";
  }

  lemma EightLightsAll()
    ensures SegmentsOf('8') == Segments(true, true, true, true, true, true, true)
  {
  }

  lemma OneLightsRightSide()
    ensures SegmentsOf('1') == Segments(false, false, true, false, false, true, false)
  {
  }

  lemma ZeroLightsAllButMiddle()
    ensures SegmentsOf('0') == Segments(true, true, true, false, true, true, true)
  {
  }

  /** No two digits light the same segments, so every shown digit can be read back. */
  lemma DigitsAreDistinguishable(c: char, d: char)
    requires IsDigit(c) && IsDigit(d) && c != d
    ensures SegmentsOf(c) != SegmentsOf(d)
  {
  }

  /** The digits of a non-negative value denote it; those after the sign of a negative
      value denote its magnitude. */
  lemma IntToStringValue(value: int)
    ensures value >= 0 ==> Value(IntToString(value)) == value
    ensures value < 0 ==> Value(IntToString(value)[1..]) == -value
  {
    if value < 0 {
      NatToStringValue(-value);
      assert IntToString(value)[1..] == NatToString(-value);
    } else {
      NatToStringValue(value);
    }
  }

  /** Three decimal digits denote hundreds, tens and units. */
  lemma ThreeDigitsValue(d: string)
    requires |d| == 3 && forall k :: 0 <= k < 3 ==> IsDigit(d[k])
    ensures Value(d) == DigitValue(d[0]) * 100 + DigitValue(d[1]) * 10 + DigitValue(d[2])
  {
    var two, one := d[..2], d[..1];
    assert two[..1] == one && two[1] == d[1] && one[..0] == [] && one[0] == d[0];
    assert Value(one) == DigitValue(d[0]);
    assert Value(two) == DigitValue(d[0]) * 10 + DigitValue(d[1]);
  }

  /** A value in 0..999 lights, from left to right, the segments of its hundreds, tens and
      units digit. */
  lemma ShowsDecimalDigits(value: int)
    requires 0 <= value <= MAX
    ensures |Show(value)| == 3
    ensures Show(value)[0] == SegmentsOf(DigitChar(value / 100))
    ensures Show(value)[1] == SegmentsOf(DigitChar(value / 10 % 10))
    ensures Show(value)[2] == SegmentsOf(DigitChar(value % 10))
  {
    ShowsValueInRange(value);
    var d := Digits(value);
    ThreeDigitsValue(d);
    var a, b, c := DigitValue(d[0]), DigitValue(d[1]), DigitValue(d[2]);
    DivideByTen(value, a * 10 + b, c);
    DivideByTen(a * 10 + b, a, b);
    DivideByHundred(value, a, b * 10 + c);
    var tens := value / 10;
    assert tens % 10 == b;
    assert DigitChar(a) == d[0] && DigitChar(b) == d[1] && DigitChar(c) == d[2];
  }

  lemma DivideByTen(n: int, q: int, r: int)
    requires n == 10 * q + r && 0 <= r < 10
    ensures n / 10 == q && n % 10 == r
  {
  }

  lemma DivideByHundred(n: int, q: int, r: int)
    requires n == 100 * q + r && 0 <= r < 100
    ensures n / 100 == q
  {
  }

  /** Two values in 0..999 that light the same segments are equal: the counter can be read. */
  lemma ShowIsReadable(v: int, w: int)
    requires 0 <= v <= MAX && 0 <= w <= MAX
    requires Show(v) == Show(w)
    ensures v == w
  {
    ShowsValueInRange(v);
    ShowsValueInRange(w);
    var dv, dw := Digits(v), Digits(w);
    forall k | 0 <= k < 3
      ensures dv[k] == dw[k]
    {
      if dv[k] != dw[k] {
        DigitsAreDistinguishable(dv[k], dw[k]);
      }
    }
    assert dv == dw;
  }
}
