/**
  Fixed-point decimals as text (include/commutil.h): a 64-bit magnitude with a scale, printed
  with a decimal point and parsed back by scaling the integer part in fixed-width arithmetic.
*/
module DecimalText {
  import opened Bytes
  import opened NumberText

  datatype Decimal = Decimal(reserved: uint16, scale: byte, sign: byte, hi32: uint32, lo64: uint64)

  /** The digits of the magnitude, padded on the left until one stands before the decimal point. */
  function Padded(lo64: nat, scale: nat): (s: string)
    ensures AllDigits(s) && |s| > scale
  {
    var s := Digits(lo64);
    if |s| <= scale then Zeros(scale - |s| + 1) + s else s
  }

  /** std::string's insert. */
  function Insert(s: string, pos: nat, t: string): string
    requires pos <= |s|
  {
    s[..pos] + t + s[pos..]
  }

  function Text(d: Decimal): string {
    var s := Padded(d.lo64, d.scale);
    (if d.sign != 0 && d.lo64 != 0 then "-" else "") +
    (if d.scale != 0 then Insert(s, |s| - d.scale, ".") else s)
  }

  /** Multiplies by ten, as shifts and adds, `scale` times. */
  function ScaleUp(x: nat, scale: nat): (r: nat)
    requires x < Bits64.Modulus()
    ensures r < Bits64.Modulus()
    decreases scale
  {
    if scale == 0 then x else ScaleUp(Bits64.Wrap(x * 8 + x * 2), scale - 1)
  }

  /** The text from its first minus sign on. */
  function FromMinus(s: string): (t: string)
    requires '-' in s
    ensures t != [] && t[0] == '-'
  {
    if s[0] == '-' then s else FromMinus(s[1..])
  }

  function Parse(s: string): Decimal {
    var t := if '-' in s then FromMinus(s) else s;
    var sign: byte := if '-' in s then 0x80 else 0;
    var whole := ReadDigits(t, 0, Bits64);
    if whole.rest != [] && whole.rest[0] == '.' then
      var part := ReadDigits(whole.rest[1..], 0, Bits64);
      var scale := (|whole.rest| - 1 - |part.rest|) % 256;
      Decimal(0, scale, sign, 0, Bits64.Wrap(ScaleUp(whole.value, scale) + part.value))
    else
      Decimal(0, 0, sign, 0, whole.value)
  }

  // The laws

  /** A number whose scaled value fits is scaled without any wrap-around, at any step. */
  lemma {:induction false} ScalesExactly(x: nat, scale: nat)
    requires x * Pow10(scale) < Bits64.Modulus()
    ensures x < Bits64.Modulus() && ScaleUp(x, scale) == x * Pow10(scale)
    ensures scale > 0 ==> 10 * x < Bits64.Modulus()
    decreases scale
  {
    hide Word.Modulus;
    if scale > 0 {
      var p := Pow10(scale - 1);
      MoveTen(x, p);
      assert (10 * x) * p == x * Pow10(scale) by { assert (10 * x) * p == 10 * (x * p); }
      AtLeastOnce(10 * x, p);
      ScalesExactly(10 * x, scale - 1);
    }
  }

  lemma AtLeastOnce(x: nat, p: nat)
    requires p >= 1
    ensures x <= x * p
  {
  }

  /** A magnitude split at the decimal point: the scaled integer part and the fraction add up to it. */
  lemma PartsAddUp(lo64: nat, scale: nat, whole: string, part: string)
    requires Padded(lo64, scale) == whole + part && |part| == scale
    ensures AllDigits(whole) && AllDigits(part)
    ensures ValueOf(whole) * Pow10(scale) + ValueOf(part) == lo64
  {
    hide Pow10, ValueOf, Digits;
    var s := Padded(lo64, scale);
    assert forall c <- whole :: c in s;
    assert forall c <- part :: c in s;
    ValueOfAppend(whole, part);
    ValueOfDigits(lo64);
    if |Digits(lo64)| <= scale {
      ZerosAreWorthNothing(scale - |Digits(lo64)| + 1, Digits(lo64));
    }
  }

  /** The digits before the point: a zero alone, or digits of which the first is no zero. */
  predicate IsWhole(s: string) {
    s == "0" || (s != [] && s[0] != '0')
  }

  /**
    The printed form: a minus sign for a negative number other than zero, the digits before the
    point, and behind a point as many digits as the scale says; together they are the magnitude.
  */
  lemma TextExactly(d: Decimal) returns (whole: string, part: string)
    ensures AllDigits(whole) && AllDigits(part) && IsWhole(whole) && |part| == d.scale
    ensures ValueOf(whole) * Pow10(d.scale) + ValueOf(part) == d.lo64
    ensures Text(d)
         == (if d.sign != 0 && d.lo64 != 0 then "-" else "") + whole + (if d.scale != 0 then "." + part else "")
  {
    hide Pow10, ValueOf;
    var s := Padded(d.lo64, d.scale);
    var point := |s| - d.scale;
    whole, part := s[..point], s[point..];
    assert whole + part == s;
    PartsAddUp(d.lo64, d.scale, whole, part);
    WholeOf(d.lo64, d.scale, whole, part);
    assert Insert(s, point, ".") == whole + ("." + part);
    assert d.scale == 0 ==> s == whole;
  }

  lemma WholeOf(lo64: nat, scale: nat, whole: string, part: string)
    requires Padded(lo64, scale) == whole + part && |part| == scale
    ensures IsWhole(whole)
  {
    var ds := Digits(lo64);
    if |ds| <= scale {
      assert |whole| == 1 && whole[0] == Padded(lo64, scale)[0] == '0';
    } else {
      assert whole[0] == ds[0];
    }
  }

  lemma NoMinusAmongDigits(s: string)
    requires AllDigits(s)
    ensures '-' !in s
  {
  }

  /** The digits before and after the point of an unsigned text are read for what they are worth. */
  lemma ReadsParts(whole: string, part: string)
    requires AllDigits(whole) && AllDigits(part)
    requires ValueOf(whole) < Bits64.Modulus() && ValueOf(part) < Bits64.Modulus()
    ensures ReadDigits(whole + ("." + part), 0, Bits64) == Parsed(ValueOf(whole), "." + part)
    ensures ReadDigits(part, 0, Bits64) == Parsed(ValueOf(part), [])
    ensures ReadDigits(whole, 0, Bits64) == Parsed(ValueOf(whole), [])
  {
    hide ReadDigits;
    assert ValueOf([]) == 0;
    ReadsDigits([], whole, "." + part, Bits64);
    ReadsDigits([], whole, [], Bits64);
    ReadsDigits([], part, [], Bits64);
    assert [] + whole == whole && whole + [] == whole && [] + part == part && part + [] == part;
  }

  lemma ParsesParts(whole: string, part: string)
    requires AllDigits(whole) && AllDigits(part) && |part| < 256
    requires ValueOf(whole) < Bits64.Modulus() && ValueOf(part) < Bits64.Modulus()
    ensures Parse(whole + ("." + part))
         == Decimal(0, |part|, 0, 0, Bits64.Wrap(ScaleUp(ValueOf(whole), |part|) + ValueOf(part)))
  {
    hide ReadDigits, ValueOf, ScaleUp, Parse, Word.Modulus, Word.Wrap;
    NoMinusAmongDigits(whole);
    NoMinusAmongDigits(part);
    ReadsParts(whole, part);
    ParsesBoth(whole + ("." + part), part, [], ValueOf(whole), ValueOf(part));
  }

  lemma ParsesWhole(whole: string)
    requires AllDigits(whole) && ValueOf(whole) < Bits64.Modulus()
    ensures Parse(whole) == Decimal(0, 0, 0, 0, ValueOf(whole))
  {
    hide ReadDigits, ValueOf, ScaleUp, FromMinus, Word.Modulus, Word.Wrap;
    EmptyValue();
    ReadsParts(whole, []);
    NoMinusAmongDigits(whole);
  }

  /** Unsigned decimals keep magnitude and scale, with no overflow anywhere in the scaling loop. */
  lemma UnsignedRoundTrip(d: Decimal)
    requires d.sign == 0 || d.lo64 == 0
    ensures Parse(Text(d)) == Decimal(0, d.scale, 0, 0, d.lo64)
  {
    hide Parse, ValueOf, Padded, ScaleUp, Pow10, Digits;
    var s := Padded(d.lo64, d.scale);
    var point := |s| - d.scale;
    var whole, part := s[..point], s[point..];
    assert whole + part == s;
    PartsAddUp(d.lo64, d.scale, whole, part);
    AtLeastOnce(ValueOf(whole), Pow10(d.scale));
    ScalesExactly(ValueOf(whole), d.scale);
    ParsesParts(whole, part);
    ParsesWhole(whole);
    if d.scale != 0 {
      assert Text(d) == whole + ("." + part);
    } else {
      EmptyValue();
      assert Text(d) == whole && part == [];
    }
  }

  lemma EmptyValue()
    ensures ValueOf([]) == 0 && Pow10(0) == 1
  {
  }

  /** Any text with a minus sign reads as minus nothing: the cursor is left standing on the sign. */
  lemma MinusReadsAsZero(s: string)
    requires '-' in s
    ensures Parse(s) == Decimal(0, 0, 0x80, 0, 0)
  {
    hide ReadDigits;
    ReadNone(FromMinus(s), 0, Bits64);
  }

  lemma ScaleMore(x: nat, scale: nat)
    requires x < Bits64.Modulus() && scale > 0
    ensures ScaleUp(x, scale) == ScaleUp(Bits64.Wrap(x * 8 + x * 2), scale - 1)
  {
    hide Word.Wrap, Word.Modulus;
  }

  lemma ScaleStep(y: nat, scale: nat)
    requires scale > 0
    ensures ScaleUp(Bits64.Wrap(y), scale) == ScaleUp(Bits64.Wrap(10 * y), scale - 1)
  {
    hide Word.Wrap, Word.Modulus, ScaleUp;
    var x := Bits64.Wrap(y);
    ScaleMore(x, scale);
    WrapStep(y, 0, Bits64);
    assert x * 8 + x * 2 + 0 == x * 8 + x * 2 && 10 * y + 0 == 10 * y;
  }

  lemma ScaleNone(x: nat)
    requires x < Bits64.Modulus()
    ensures ScaleUp(x, 0) == x
  {
  }

  lemma PowerStep(y: nat, scale: nat)
    requires scale > 0
    ensures (10 * y) * Pow10(scale - 1) == y * Pow10(scale)
  {
    var p := Pow10(scale - 1);
    MoveTen(y, p);
    assert (10 * y) * p == 10 * (y * p);
  }

  lemma {:induction false} ScalesModulo(y: nat, scale: nat)
    ensures ScaleUp(Bits64.Wrap(y), scale) == Bits64.Wrap(y * Pow10(scale))
    decreases scale
  {
    hide Word.Wrap, Word.Modulus, ScaleUp, Pow10;
    if scale > 0 {
      ScaleStep(y, scale);
      PowerStep(y, scale);
      ScalesModulo(10 * y, scale - 1);
    } else {
      ScaleNone(Bits64.Wrap(y));
      EmptyValue();
    }
  }

  lemma WrapsSum(x: nat, y: nat)
    ensures Bits64.Wrap(Bits64.Wrap(x) + Bits64.Wrap(y)) == (x + y) % 0x1_0000_0000_0000_0000
  {
  }

  /** Any text without a minus sign: digits, a point and digits, and whatever no digit follows, in 64-bit arithmetic. */
  lemma ParsesExactly(whole: string, part: string, rest: string)
    requires AllDigits(whole) && AllDigits(part) && StopsDigits(rest) && '-' !in rest
    ensures var v := ValueOf(whole) * Pow10(|part| % 256) + ValueOf(part);
      Parse(whole + ("." + (part + rest))) == Decimal(0, |part| % 256, 0, 0, v % 0x1_0000_0000_0000_0000)
  {
    hide ReadDigits, ValueOf, ScaleUp, Pow10, Parse, Word.Wrap, Word.Modulus;
    var tail := "." + (part + rest);
    EmptyValue();
    NoMinusAmongDigits(whole);
    NoMinusAmongDigits(part);
    ReadsDigits([], whole, tail, Bits64);
    ReadsDigits([], part, rest, Bits64);
    assert [] + whole == whole && [] + part == part;
    ParsesBoth(whole + tail, part + rest, rest, Bits64.Wrap(ValueOf(whole)), Bits64.Wrap(ValueOf(part)));
    ScalesModulo(ValueOf(whole), |part| % 256);
    WrapsSum(ValueOf(whole) * Pow10(|part| % 256), ValueOf(part));
  }

  lemma ParsesBoth(t: string, more: string, rest: string, x: nat, y: nat)
    requires '-' !in t && x < Bits64.Modulus() && y < Bits64.Modulus() && |rest| <= |more|
    requires ReadDigits(t, 0, Bits64) == Parsed(x, "." + more) && ReadDigits(more, 0, Bits64) == Parsed(y, rest)
    ensures var scale := (|more| - |rest|) % 256;
      Parse(t) == Decimal(0, scale, 0, 0, Bits64.Wrap(ScaleUp(x, scale) + y))
  {
    hide ReadDigits, ScaleUp, FromMinus, Word.Modulus, Word.Wrap;
    assert ("." + more)[1..] == more;
  }

  /** Exactly the unsigned decimals of at most 64 bits survive printing and parsing. */
  lemma RestoredExactly(d: Decimal)
    ensures Parse(Text(d)) == d <==> d.sign == 0 && d.hi32 == 0 && d.reserved == 0
  {
    hide Parse, Padded;
    if d.sign == 0 || d.lo64 == 0 {
      UnsignedRoundTrip(d);
    } else {
      assert Text(d)[0] == '-';
      assert '-' in Text(d);
      MinusReadsAsZero(Text(d));
    }
  }

  /** The smallest negative example: -1 comes back as minus zero. */
  lemma MinusOneIsLost()
    ensures Text(Decimal(0, 0, 0x80, 0, 1)) == "-1"
    ensures Parse("-1") == Decimal(0, 0, 0x80, 0, 0)
  {
    MinusReadsAsZero("-1");
    assert Padded(1, 0) == "1";
  }

  /** Negative decimals with a scale, with and without digits before the point. */
  lemma NegativeTexts()
    ensures Text(Decimal(0, 2, 0x80, 0, 12_345)) == "-123.45"
    ensures Text(Decimal(0, 2, 0x80, 0, 5)) == "-0.05"
  {
    hide Digits, Padded, Insert;
    OneMoreDigit(1, 1);
    OneMoreDigit(1, 2);
    OneMoreDigit(12, 3);
    OneMoreDigit(123, 4);
    OneMoreDigit(1234, 5);
    OneMoreDigit(1, 5);
    assert Digits(12_345) == "12345" && Digits(5) == "5";
    PaddedTexts();
    InsertsPoint("123", "45");
    InsertsPoint("0", "05");
  }

  lemma PaddedTexts()
    requires Digits(12_345) == "12345" && Digits(5) == "5"
    ensures Padded(12_345, 2) == "123" + "45" && Padded(5, 2) == "0" + "05"
  {
    hide Digits;
  }

  lemma InsertsPoint(whole: string, part: string)
    ensures Insert(whole + part, |whole|, ".") == whole + "." + part
  {
  }

  // The operations

  /** Prints in place: pads, then inserts the sign, then the point. */
  method ToString(d: Decimal) returns (s: string)
    ensures s == Text(d)
  {
    hide Digits, Padded, Pow10, Insert;
    s := Digits(d.lo64);
    WordsAreShort();
    DigitsShort(d.lo64, 20);
    var len := |s| % 256;
    if len <= d.scale {
      s := Insert(s, 0, Zeros(d.scale - len + 1));
    }
    PaddedInPlace(d, s);
    if d.sign != 0 && d.lo64 != 0 {
      s := Insert(s, 0, "-");
      PointBehindSign(Padded(d.lo64, d.scale), d.scale);
    }
    assert |s| == |Padded(d.lo64, d.scale)| + (if d.sign != 0 && d.lo64 != 0 then 1 else 0);
    if d.scale != 0 {
      s := Insert(s, |s| - d.scale, ".");
    }
  }

  lemma PaddedInPlace(d: Decimal, s: string)
    requires |Digits(d.lo64)| <= 20
    requires s == if |Digits(d.lo64)| <= d.scale
                  then Insert(Digits(d.lo64), 0, Zeros(d.scale - |Digits(d.lo64)| + 1)) else Digits(d.lo64)
    ensures s == Padded(d.lo64, d.scale)
  {
    hide Digits;
    assert Digits(d.lo64)[..0] == [] && Digits(d.lo64)[0..] == Digits(d.lo64);
  }

  lemma PointBehindSign(s: string, scale: nat)
    requires |s| > scale
    ensures Insert(s, 0, "-") == "-" + s
    ensures Insert("-" + s, |s| + 1 - scale, ".") == "-" + Insert(s, |s| - scale, ".")
  {
  }

  /** Parses by scaling the integer part in a loop. */
  method ParseDec(data: string) returns (dec: Decimal)
    ensures dec == Parse(data)
  {
    hide ReadDigits, Word.Wrap, FromMinus, ScaleUp;
    var sign: byte, start: nat := 0, 0;
    if '-' in data {
      sign := 0x80;
      start := FindMinus(data);
    } else {
      assert data[0..] == data;
    }
    var temp: nat, end: nat;
    temp, end := ReadUnsigned(data, start, Bits64);
    assert temp == ReadDigits(data[start..], 0, Bits64).value;
    if end < |data| && data[end] == '.' {
      var first := end + 1;
      assert data[end..][1..] == data[first..];
      var dot, last := ReadUnsigned(data, first, Bits64);
      var scale: byte := (last - first) % 256;
      temp := Scale(temp, scale);
      dec := Decimal(0, scale, sign, 0, Bits64.Wrap(temp + dot));
    } else {
      dec := Decimal(0, 0, sign, 0, temp);
    }
  }

  /** strchr for the minus sign. */
  method FindMinus(data: string) returns (p: nat)
    requires '-' in data
    ensures p < |data| && data[p..] == FromMinus(data)
  {
    p := 0;
    assert data[0..] == data;
    while data[p] != '-'
      invariant p < |data| && '-' in data[p..] && FromMinus(data[p..]) == FromMinus(data)
      decreases |data| - p
    {
      assert data[p..][1..] == data[p + 1..];
      p := p + 1;
    }
  }

  /** The loop that multiplies by ten, as shifts and adds. */
  method Scale(x: nat, scale: byte) returns (r: nat)
    requires x < Bits64.Modulus()
    ensures r < Bits64.Modulus() && r == ScaleUp(x, scale)
  {
    hide Word.Wrap, Word.Modulus;
    r := x;
    var left := scale;
    while left > 0
      invariant r < Bits64.Modulus() && ScaleUp(r, left) == ScaleUp(x, scale)
    {
      r := Bits64.Wrap(r * 8 + r * 2);
      left := left - 1;
    }
  }
}
