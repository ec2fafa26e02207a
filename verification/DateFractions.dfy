/**
  Date-times digit by digit (struct UDateTime in include/definebase.h): the value a fraction of any
  length stands for, from the digits to the packed field, and the layout of the printed form.
*/
module DateFractions {
  import opened Wrappers
  import opened NumberText
  import opened DateTimes

  // Fractions

  lemma TenToNineteen()
    ensures Pow10(9) == 1_000_000_000 && Pow10(19) == 10_000_000_000_000_000_000
  {
    assert Pow10(5) == 100_000;
    assert Pow10(10) == 10_000_000_000;
    assert Pow10(15) == 1_000_000_000_000_000;
  }

  /** The power does not wrap up to nineteen places. */
  lemma {:induction false} PowersFit(k: nat, most: nat)
    requires k <= most && Pow10(most) < Bits64.Modulus()
    ensures PowerOf10(k) == Pow10(k)
  {
    if k > 0 {
      PowersFit(k - 1, most);
      Pow10Grows(k, most);
    }
  }

  /** What comes out is nearest, and the upper of two equally near. */
  lemma RoundedIsNearest(x: nat, scale: nat)
    requires scale > 0
    ensures 2 * x < 2 * (Rounded(x, scale) * scale) + scale && 2 * (Rounded(x, scale) * scale) <= 2 * x + scale
  {
    var y, d := 2 * x + scale, 2 * scale;
    var q := y / d;
    assert y == q * d + y % d;
    assert q * d == 2 * (q * scale);
  }

  lemma RoundedExactly(m: nat, scale: nat)
    requires scale > 0
    ensures Rounded(m * scale, scale) == m
  {
    assert m * (2 * scale) == 2 * (m * scale);
    DivisionIs(2 * (m * scale) + scale, 2 * scale, m);
  }

  lemma DigitsRead(f: string, rest: string)
    requires AllDigits(f) && |f| <= 19 && StopsDigits(rest)
    ensures ReadDigits(f + rest, 0, Bits64) == Parsed(ValueOf(f), rest)
  {
    hide ReadDigits, ValueOf, Word.Wrap, Pow10;
    NothingIsZero();
    assert [] + f == f;
    ReadsDigits([], f, rest, Bits64);
    ValueIsBelow(f);
    TenToNineteen();
    Pow10Grows(|f|, 19);
  }

  lemma FractionRead(f: string, rest: string)
    requires AllDigits(f) && 1 <= |f| <= 19 && StopsDigits(rest)
    ensures Nanoseconds(f + rest) == Bits32.Wrap(Rounded(ValueOf(f) * 1_000_000_000, Pow10(|f|)))
  {
    hide ReadDigits, ValueOf, Word.Wrap, Rounded, Pow10, PowerOf10, AllDigits, StopsDigits;
    DigitsRead(f, rest);
    TenToNineteen();
    PowersFit(|f|, 19);
    assert |f + rest| - |rest| == |f|;
  }

  lemma NothingIsZero()
    ensures ValueOf([]) == 0
  {
  }

  /**
    A fraction of one to nineteen digits gives the nearest number of nanoseconds, the upper one of
    two; one of at most nine digits gives exactly what it says.
  */
  lemma FractionExactly(f: string, rest: string)
    requires AllDigits(f) && 1 <= |f| <= 19 && StopsDigits(rest)
    ensures var n, v, p := Nanoseconds(f + rest), ValueOf(f) * 1_000_000_000, Pow10(|f|);
      2 * v < 2 * (n * p) + p && 2 * (n * p) <= 2 * v + p && n <= 1_000_000_000
    ensures |f| <= 9 ==> Nanoseconds(f + rest) == ValueOf(f) * Pow10(9 - |f|)
  {
    hide ValueOf, Pow10, Nanoseconds, Rounded, Word.Wrap;
    var v, p := ValueOf(f) * 1_000_000_000, Pow10(|f|);
    FractionRead(f, rest);
    RoundedIsNearest(v, p);
    ValueIsBelow(f);
    AtMostOneSecond(ValueOf(f), p, Rounded(v, p));
    if |f| <= 9 {
      TenToNineteen();
      Pow10Sum(9 - |f|, |f|);
      Regroup(ValueOf(f), Pow10(9 - |f|), p);
      RoundedExactly(ValueOf(f) * Pow10(9 - |f|), p);
    }
  }

  lemma Regroup(a: nat, b: nat, c: nat)
    ensures a * (b * c) == (a * b) * c
  {
  }

  lemma AtMostOneSecond(x: nat, p: nat, n: nat)
    requires x < p && 2 * (n * p) <= 2 * (x * 1_000_000_000) + p
    ensures n <= 1_000_000_000
  {
    TimesGrows(1_000_000_001, n, p);
  }

  /** A time in database form, behind a date or alone, with digits behind a point. */
  function TimeWithFraction(tm: Tm, dated: bool, f: string): string {
    (if dated then DateText(tm) + " " else "") + (TimeText(tm) + ("." + f))
  }

  /** Such a time is parsed field by field. */
  lemma ParsesTimeWithFraction(tm: Tm, dated: bool, f: string)
    requires 0 <= tm.hour < 100 && 0 <= tm.min < 100 && 0 <= tm.sec < 100
    requires dated ==> -10_000 < tm.year < 10_000 && 0 <= tm.mon < 99 && 0 <= tm.mday < 100
    requires AllDigits(f)
    ensures ParseDB(TimeWithFraction(tm, dated, f))
         == Some(Packed(if dated then tm else tm.(year := 0, mon := 0, mday := 0), Nanoseconds(f)))
  {
    hide ParseTime, ParseDateTime, Nanoseconds, DateText, TimeText, Packed;
    var time := TimeText(tm) + ("." + f);
    Separators(tm);
    assert ("." + f)[1..] == f;
    assert ' ' !in f;
    ReadsTime(tm, "." + f);
    if dated {
      ReadsDate(tm, " " + time);
      var text := TimeWithFraction(tm, dated, f);
      assert text == DateText(tm) + (" " + time) && (" " + time)[1..] == time;
      assert text[|DateText(tm)|] == ' ';
    } else {
      assert "" + time == time;
    }
  }

  /**
    The fraction of a time, with or without a date, is stored in full hundreds of nanoseconds, and
    never as a whole second: up to seven digits exactly as written, an eighth and a ninth are cut off.
  */
  lemma FractionIsStored(tm: Tm, dated: bool, f: string)
    requires 0 <= tm.hour < 100 && 0 <= tm.min < 100 && 0 <= tm.sec < 100
    requires dated ==> -10_000 < tm.year < 10_000 && 0 <= tm.mon < 99 && 0 <= tm.mday < 100
    requires AllDigits(f) && 1 <= |f| <= 19
    ensures var r := ParseDB(TimeWithFraction(tm, dated, f));
      && r.Some? && r.value.ns100 == (if Nanoseconds(f) < 1_000_000_000 then Nanoseconds(f) / 100 else 9_999_999)
      && (|f| <= 9 ==> r.value.ns100 == ValueOf(f) * Pow10(9 - |f|) / 100)
      && (|f| <= 7 ==> r.value.ns100 == ValueOf(f) * Pow10(7 - |f|))
      && r.value.hour == tm.hour % 32 && r.value.minute == tm.min % 64 && r.value.second == tm.sec % 64
  {
    hide ParseDB, TimeWithFraction, Nanoseconds, ValueOf, Pow10;
    ParsesTimeWithFraction(tm, dated, f);
    FractionExactly(f, []);
    assert f + [] == f;
    if |f| <= 9 {
      BelowOneSecond(f);
    }
  }

  lemma BelowOneSecond(f: string)
    requires AllDigits(f) && 1 <= |f| <= 9
    ensures ValueOf(f) * Pow10(9 - |f|) <= MAX_NANO_SECONDS
    ensures |f| <= 7 ==> ValueOf(f) * Pow10(9 - |f|) == 100 * (ValueOf(f) * Pow10(7 - |f|))
  {
    hide ValueOf, Pow10;
    ValueIsBelow(f);
    TenToNineteen();
    Pow10Sum(|f|, 9 - |f|);
    var v, p, q := ValueOf(f), Pow10(|f|), Pow10(9 - |f|);
    TimesGrows(v + 1, p, q);
    assert (v + 1) * q == v * q + q;
    if |f| <= 7 {
      Pow10Sum(7 - |f|, 2);
      HundredIsTenSquared();
      Regroup(v, Pow10(7 - |f|), 100);
    }
  }

  lemma HundredIsTenSquared()
    ensures Pow10(2) == 100
  {
  }

  // The printed form

  /** A number that fits its width is printed in that many decimal places. */
  lemma FixedPlaces(n: nat, width: nat, k: nat)
    requires n < Pow10(width) && k < width
    ensures |Fixed(n, width)| == width && Fixed(n, width)[width - 1 - k] as int == 0x30 + n / Pow10(k) % 10
  {
    hide Digits, Pow10;
    DigitsShort(n, width);
    var ds := Digits(n);
    assert Fixed(n, width) == Zeros(width - |ds|) + ds;
    if k < |ds| {
      PlaceValue(n, k);
    } else {
      DigitsExactly(n, k);
      NothingThere(n, k);
    }
  }

  lemma NothingThere(n: nat, k: nat)
    requires k > 0 && |Digits(n)| <= k
    ensures n / Pow10(k) == 0
  {
    DigitsExactly(n, k);
    DivisionIs(n, Pow10(k), 0);
  }

  lemma TwoPlaces(n: nat)
    requires n < 100
    ensures Fixed(n, 2) == [DigitChar(n / 10), DigitChar(n % 10)]
  {
    hide Fixed;
    assert Pow10(0) == 1 && Pow10(1) == 10 && Pow10(2) == 100;
    FixedPlaces(n, 2, 0);
    FixedPlaces(n, 2, 1);
  }

  lemma FourPlaces(n: nat)
    requires n < 10_000
    ensures Fixed(n, 4) == [DigitChar(n / 1000), DigitChar(n / 100 % 10), DigitChar(n / 10 % 10), DigitChar(n % 10)]
  {
    hide Fixed;
    assert Pow10(0) == 1 && Pow10(1) == 10 && Pow10(2) == 100 && Pow10(3) == 1000 && Pow10(4) == 10_000;
    FixedPlaces(n, 4, 0);
    FixedPlaces(n, 4, 1);
    FixedPlaces(n, 4, 2);
    FixedPlaces(n, 4, 3);
  }

  lemma SevenPlaces(n: nat)
    requires n < 10_000_000
    ensures var s := Fixed(n, 7);
      |s| == 7 && s[..3] == [DigitChar(n / 1_000_000), DigitChar(n / 100_000 % 10), DigitChar(n / 10_000 % 10)]
      && s[3..] == [DigitChar(n / 1000 % 10), DigitChar(n / 100 % 10), DigitChar(n / 10 % 10), DigitChar(n % 10)]
  {
    hide Fixed;
    assert Pow10(0) == 1 && Pow10(1) == 10 && Pow10(2) == 100 && Pow10(3) == 1000 && Pow10(4) == 10_000;
    assert Pow10(5) == 100_000 && Pow10(6) == 1_000_000 && Pow10(7) == 10_000_000;
    FixedPlaces(n, 7, 0);
    FixedPlaces(n, 7, 1);
    FixedPlaces(n, 7, 2);
    FixedPlaces(n, 7, 3);
    FixedPlaces(n, 7, 4);
    FixedPlaces(n, 7, 5);
    FixedPlaces(n, 7, 6);
  }

  lemma SomeTime(year: int, mon: int, mday: int)
    ensures TimeText(Tm(year, mon, mday, 22, 3, 14)) == "22:03:14"
  {
    hide Fixed;
    TwoPlaces(22);
    TwoPlaces(3);
    TwoPlaces(14);
  }

  lemma SomeDate(year: int, hour: int, min: int, sec: int)
    requires year == 116 || year == -100
    ensures DateText(Tm(year, 1, 15, hour, min, sec)) == if year == 116 then "2016-02-15" else "1800-02-15"
  {
    hide Fixed;
    FourPlaces(2016);
    FourPlaces(1800);
    TwoPlaces(2);
    TwoPlaces(15);
  }

  lemma SomeFraction()
    ensures Fixed(2_340_000, 7) == "2340000"
  {
    hide Fixed;
    SevenPlaces(2_340_000);
    var s := Fixed(2_340_000, 7);
    assert s == s[..3] + s[3..];
  }

  lemma FullText(d: Stamp)
    requires d.ns100 != 0 && d.day != 0
    ensures DBText(d) == DateText(CTime(d)) + (" " + (TimeText(CTime(d)) + ("." + Fixed(d.ns100, 7))))
  {
    hide Fixed, TimeText, DateText;
  }

  lemma TimeOnlyText(d: Stamp)
    requires d.ns100 == 0 && d.day == 0 && d.hour != 0
    ensures DBText(d) == TimeText(CTime(d))
  {
    hide Fixed, TimeText, DateText;
    assert TimeText(CTime(d)) + "" == TimeText(CTime(d));
  }

  lemma DateOnlyText(d: Stamp)
    requires d.ns100 == 0 && d.hour == 0 && d.minute == 0 && d.second == 0
    ensures DBText(d) == DateText(CTime(d))
  {
    hide Fixed, TimeText, DateText;
  }

  /** The printed forms: with a fraction, a time alone, and a date alone, here one before 1900. */
  lemma PrintedForm()
    ensures DBText(Stamp(2_340_000, 14, 3, 22, 15, 1, 116, 0)) == "2016-02-15 22:03:14.2340000"
    ensures DBText(Stamp(0, 14, 3, 22, 0, 0, 0, 0)) == "22:03:14"
    ensures DBText(Stamp(0, 0, 0, 0, 15, 1, 100, 1)) == "1800-02-15"
  {
    hide Fixed, TimeText, DateText, DBText;
    FullText(Stamp(2_340_000, 14, 3, 22, 15, 1, 116, 0));
    TimeOnlyText(Stamp(0, 14, 3, 22, 0, 0, 0, 0));
    DateOnlyText(Stamp(0, 0, 0, 0, 15, 1, 100, 1));
    SomeTime(116, 1, 15);
    SomeTime(0, 0, 0);
    SomeDate(116, 22, 3, 14);
    SomeDate(-100, 0, 0, 0);
    SomeFraction();
  }

  /** The forms of the comment in the original, a time with and without a date, three digits behind the point. */
  lemma ParsedForm()
    ensures ParseDB("2016-02-15 22:03:14.234") == Some(Stamp(2_340_000, 14, 3, 22, 15, 1, 116, 0))
    ensures ParseDB("22:03:14.234") == Some(Stamp(2_340_000, 14, 3, 22, 0, 0, 0, 0))
  {
    hide ParseDB, TimeText, DateText, Nanoseconds, Pow10, ValueOf;
    var tm, f := Tm(116, 1, 15, 22, 3, 14), "234";
    SomeTime(116, 1, 15);
    SomeDate(116, 22, 3, 14);
    assert TimeWithFraction(tm, false, f) == "22:03:14.234";
    assert TimeWithFraction(tm, true, f) == "2016-02-15 22:03:14.234";
    ParsesTimeWithFraction(tm, false, f);
    ParsesTimeWithFraction(tm, true, f);
    FractionExactly(f, []);
    assert f + [] == f;
    ThreeDigits();
  }

  lemma ThreeDigits()
    ensures ValueOf("234") * Pow10(6) == 234_000_000
  {
    assert "234"[..2] == "23" && "23"[..1] == "2" && "2"[..0] == "";
    assert Pow10(6) == 1_000_000;
  }
}
