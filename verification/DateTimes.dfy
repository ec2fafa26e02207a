/**
  Date-times packed into 64 bits (struct UDateTime in include/definebase.h): packing from and
  to broken-down time, printing in database form and parsing that form back.
*/
module DateTimes {
  import opened Wrappers
  import opened NumberText

  type bits24 = x: int | 0 <= x < 0x100_0000
  type bits13 = x: int | 0 <= x < 8192
  type bits6 = x: int | 0 <= x < 64
  type bits5 = x: int | 0 <= x < 32
  type bits4 = x: int | 0 <= x < 16
  type bits1 = x: int | 0 <= x < 2

  /** The bit fields. The month counts from 0 and the year is the distance from 1900. */
  datatype Stamp = Stamp(ns100: bits24, second: bits6, minute: bits6, hour: bits5,
                         day: bits5, month: bits4, year: bits13, neg: bits1)

  /** std::tm without the fields derived from the calendar. */
  datatype Tm = Tm(year: int, mon: int, mday: int, hour: int, min: int, sec: int)

  const MAX_NANO_SECONDS: nat := 999_999_999

  /** Stores broken-down time; each field keeps the low bits of what is stored, and a day of 0 clears the date. */
  function Packed(tm: Tm, ns: nat): Stamp {
    var n := (if ns > MAX_NANO_SECONDS then MAX_NANO_SECONDS else ns) / 100;
    if tm.mday != 0 then
      Stamp(n, tm.sec % 64, tm.min % 64, tm.hour % 32, tm.mday % 32, tm.mon % 16,
            (if tm.year < 0 then -tm.year else tm.year) % 8192, if tm.year < 0 then 1 else 0)
    else
      Stamp(n, tm.sec % 64, tm.min % 64, tm.hour % 32, 0, 0, 0, 0)
  }

  function CTime(d: Stamp): Tm {
    Tm(if d.neg == 1 then 0 - d.year else d.year, d.month, d.day, d.hour, d.minute, d.second)
  }

  // Printing

  /** printf's %0wd. */
  function Fixed(n: int, width: nat): string {
    if n < 0 then "-" + Zeros(Missing(-n, width - 1)) + Digits(-n)
    else Zeros(Missing(n, width)) + Digits(n)
  }

  function Missing(n: nat, width: int): nat {
    if |Digits(n)| < width then width - |Digits(n)| else 0
  }

  function DateText(tm: Tm): string {
    Fixed(tm.year + 1900, 4) + ("-" + (Fixed(tm.mon + 1, 2) + ("-" + Fixed(tm.mday, 2))))
  }

  function TimeText(tm: Tm): string {
    Fixed(tm.hour, 2) + (":" + (Fixed(tm.min, 2) + (":" + Fixed(tm.sec, 2))))
  }

  function DBText(d: Stamp): string {
    var tm := CTime(d);
    var fraction := if d.ns100 != 0 then "." + Fixed(d.ns100, 7) else "";
    if d.ns100 == 0 && tm.hour == 0 && tm.min == 0 && tm.sec == 0 then DateText(tm)
    else if tm.mday != 0 then DateText(tm) + (" " + (TimeText(tm) + fraction))
    else TimeText(tm) + fraction
  }

  // Parsing

  /** The cursor moved one character on; there is no such place behind the end of the text. */
  function Next(s: string): Option<string> {
    if s == [] then None else Some(s[1..])
  }

  function PowerOf10(k: nat): nat {
    if k == 0 then 1 else var p := PowerOf10(k - 1); Bits64.Wrap(p * 8 + p * 2)
  }

  /**
    The fraction behind a point in nanoseconds, rounded to the nearest, over exact rationals.
    A conversion out of range, undefined in the original, is taken to wrap, and a divisor that
    wrapped to zero to give none.
  */
  function Nanoseconds(s: string): nat {
    var p := ReadDigits(s, 0, Bits64);
    Bits32.Wrap(Rounded(p.value * 1_000_000_000, PowerOf10(|s| - |p.rest|)))
  }

  function Rounded(x: nat, scale: nat): nat {
    if scale == 0 then 0 else (2 * x + scale) / (2 * scale)
  }

  datatype Clock = Clock(hour: int, min: int, sec: int, ns: nat)

  function ParseTime(s: string): Option<Clock> {
    var hour := ReadSigned(s, Bits32);
    match Next(hour.rest)
    case None => None
    case Some(s1) =>
      var min := ReadSigned(s1, Bits32);
      match Next(min.rest)
      case None => None
      case Some(s2) =>
        var sec := ReadSigned(s2, Bits32);
        var ns := if sec.rest != [] && sec.rest[0] == '.' then Nanoseconds(sec.rest[1..]) else 0;
        Some(Clock(hour.value, min.value, sec.value, ns))
  }

  function ParseDateTime(s: string): Option<(Tm, nat)> {
    var year := ReadSigned(s, Bits32);
    match Next(year.rest)
    case None => None
    case Some(s1) =>
      var mon := ReadSigned(s1, Bits32);
      match Next(mon.rest)
      case None => None
      case Some(s2) =>
        var day := ReadSigned(s2, Bits32);
        var date := Tm(year.value - 1900, mon.value - 1, day.value, 0, 0, 0);
        if day.rest != [] && day.rest[0] == ' ' then
          match ParseTime(day.rest[1..])
          case None => None
          case Some(c) => Some((date.(hour := c.hour, min := c.min, sec := c.sec), c.ns))
        else
          Some((date, 0))
  }

  /** None: the cursor would leave the text, which is not in database form. */
  function ParseDB(s: string): Option<Stamp> {
    if ' ' !in s && ':' in s then
      match ParseTime(s)
      case None => None
      case Some(c) => Some(Packed(Tm(0, 0, 0, c.hour, c.min, c.sec), c.ns))
    else
      match ParseDateTime(s)
      case None => None
      case Some(p) => Some(Packed(p.0, p.1))
  }

  // The laws

  /** A padded number of at most ten digits is read back up to the first character that is no digit. */
  lemma ReadsFixed(n: int, width: nat, rest: string)
    requires Bits32.FitsSigned(n) && Bits32.FitsSigned(-n) && StopsDigits(rest)
    ensures ReadSigned(Fixed(n, width) + rest, Bits32) == ParsedInt(n, rest)
  {
    hide ReadSigned, Fixed;
    if n < 0 {
      ReadsNegative(-n, width, rest);
    } else {
      ReadsNonNegative(n, width, rest);
    }
  }

  lemma ReadsNegative(m: nat, width: nat, rest: string)
    requires m > 0 && Bits32.FitsSigned(m) && StopsDigits(rest)
    ensures ReadSigned(Fixed(0 - m, width) + rest, Bits32) == ParsedInt(0 - m, rest)
  {
    hide ReadDigits, Digits, Missing, Zeros, ReadSigned, Word.Modulus;
    var s := Zeros(Missing(m, width - 1)) + Digits(m);
    assert m < Bits32.Modulus() by { FitsBelow(m); }
    ReadsPadded(Missing(m, width - 1), m, rest, Bits32);
    MinusSigned(s + rest);
    assert Fixed(0 - m, width) + rest == "-" + (s + rest);
  }

  lemma FitsBelow(m: nat)
    requires Bits32.FitsSigned(m)
    ensures m < Bits32.Modulus()
  {
  }

  lemma MinusSigned(t: string)
    ensures var p := ReadDigits(t, 0, Bits32);
      ReadSigned("-" + t, Bits32) == ParsedInt(Bits32.Negated(p.value), p.rest)
  {
    hide ReadDigits;
    assert ("-" + t)[1..] == t;
  }

  lemma ReadsNonNegative(m: nat, width: nat, rest: string)
    requires Bits32.FitsSigned(m) && StopsDigits(rest)
    ensures ReadSigned(Fixed(m, width) + rest, Bits32) == ParsedInt(m, rest)
  {
    hide ReadDigits, Digits, Missing;
    var s := Zeros(Missing(m, width)) + Digits(m);
    ReadsPadded(Missing(m, width), m, rest, Bits32);
    assert s[0] in s && (s + rest)[0] == s[0];
  }

  lemma ReadsPadded(pad: nat, m: nat, rest: string, w: Word)
    requires m < w.Modulus() && StopsDigits(rest)
    ensures AllDigits(Zeros(pad) + Digits(m))
    ensures ReadDigits(Zeros(pad) + Digits(m) + rest, 0, w) == Parsed(m, rest)
  {
    hide ReadDigits, Digits, Word.Modulus, Word.Wrap;
    var s := Zeros(pad) + Digits(m);
    ZerosAreWorthNothing(pad, Digits(m));
    ValueOfDigits(m);
    assert ValueOf([]) == 0;
    ReadsDigits([], s, rest, w);
    assert [] + s == s;
  }

  /** The time part is read back, with the fraction in nanoseconds. */
  lemma ReadsTime(tm: Tm, fraction: string)
    requires 0 <= tm.hour < 100 && 0 <= tm.min < 100 && 0 <= tm.sec < 100
    requires fraction != [] ==> fraction[0] == '.'
    ensures ParseTime(TimeText(tm) + fraction)
         == Some(Clock(tm.hour, tm.min, tm.sec, if fraction == [] then 0 else Nanoseconds(fraction[1..])))
  {
    hide ReadSigned, Fixed, Nanoseconds;
    var s2 := Fixed(tm.sec, 2) + fraction;
    var s1 := Fixed(tm.min, 2) + (":" + s2);
    assert TimeText(tm) + fraction == Fixed(tm.hour, 2) + (":" + s1);
    ReadsFixed(tm.hour, 2, ":" + s1);
    ReadsFixed(tm.min, 2, ":" + s2);
    ReadsFixed(tm.sec, 2, fraction);
    assert (":" + s1)[1..] == s1 && (":" + s2)[1..] == s2;
  }

  /** The date part is read back, whatever non-digit follows it. */
  lemma ReadsDate(tm: Tm, rest: string)
    requires -10_000 < tm.year < 10_000 && 0 <= tm.mon < 99 && 0 <= tm.mday < 100
    requires rest != [] ==> rest[0] == ' '
    ensures ParseDateTime(DateText(tm) + rest)
         == if rest == [] then Some((tm.(hour := 0, min := 0, sec := 0), 0))
            else match ParseTime(rest[1..])
                 case None => None
                 case Some(c) => Some((tm.(hour := c.hour, min := c.min, sec := c.sec), c.ns))
  {
    hide ReadSigned, Fixed, ParseTime;
    var s2 := Fixed(tm.mday, 2) + rest;
    var s1 := Fixed(tm.mon + 1, 2) + ("-" + s2);
    assert DateText(tm) + rest == Fixed(tm.year + 1900, 4) + ("-" + s1);
    ReadsFixed(tm.year + 1900, 4, "-" + s1);
    ReadsFixed(tm.mon + 1, 2, "-" + s2);
    ReadsFixed(tm.mday, 2, rest);
    assert ("-" + s1)[1..] == s1 && ("-" + s2)[1..] == s2;
  }

  predicate NoSeparator(s: string) {
    ' ' !in s && ':' !in s
  }

  lemma FixedHasNoSeparator(n: int, width: nat)
    ensures NoSeparator(Fixed(n, width))
  {
    hide Digits;
  }

  lemma Separators(tm: Tm)
    ensures NoSeparator(DateText(tm))
    ensures ' ' !in TimeText(tm) && ':' in TimeText(tm)
  {
    hide Fixed;
    FixedHasNoSeparator(tm.year + 1900, 4);
    FixedHasNoSeparator(tm.mon + 1, 2);
    FixedHasNoSeparator(tm.mday, 2);
    FixedHasNoSeparator(tm.hour, 2);
    FixedHasNoSeparator(tm.min, 2);
    FixedHasNoSeparator(tm.sec, 2);
    assert TimeText(tm)[|Fixed(tm.hour, 2)|] == ':';
  }

  /** Seven printed digits hold the 100-nanosecond count; an eighth shifts it by one decimal place. */
  lemma ReadsFraction(n: nat)
    requires n < 0x100_0000
    ensures Nanoseconds(Fixed(n, 7)) == if n < 10_000_000 then 100 * n else 10 * n
  {
    hide ReadDigits, Digits;
    var pad := Missing(n, 7);
    ReadsPadded(pad, n, [], Bits64);
    assert Fixed(n, 7) + [] == Fixed(n, 7);
    FractionWidth(n);
    if n < 10_000_000 {
      assert PowerOf10(7) == 10_000_000;
    } else {
      assert PowerOf10(7) == 10_000_000 && PowerOf10(8) == 100_000_000;
    }
  }

  lemma FractionWidth(n: nat)
    requires n < 0x100_0000
    ensures |Fixed(n, 7)| == if n < 10_000_000 then 7 else 8
  {
    assert Pow10(4) == 10_000 && Pow10(8) == 100_000_000 && Pow10(7) == 10_000_000;
    DigitsShort(n, 8);
    if n < 10_000_000 {
      DigitsShort(n, 7);
    } else {
      DigitsLong(n, 7);
    }
  }

  /** What parsing the printed form gives, for every 64-bit value. */
  lemma ParsesPrinted(d: Stamp)
    ensures ParseDB(DBText(d)) == Some(
      Packed(if d.day == 0 then CTime(d).(year := 0, mon := 0) else CTime(d),
             if d.ns100 < 10_000_000 then 100 * d.ns100 else 10 * d.ns100))
  {
    hide ParseTime, ParseDateTime, Fixed, Nanoseconds, DateText, TimeText;
    var tm := CTime(d);
    var fraction := if d.ns100 != 0 then "." + Fixed(d.ns100, 7) else "";
    Separators(tm);
    ReadsFraction(d.ns100);
    FixedHasNoSeparator(d.ns100, 7);
    assert fraction != [] ==> fraction[1..] == Fixed(d.ns100, 7);
    if d.ns100 == 0 && d.hour == 0 && d.minute == 0 && d.second == 0 {
      ReadsDate(tm, []);
      assert DateText(tm) + [] == DateText(tm);
    } else {
      ReadsTime(tm, fraction);
      var time := TimeText(tm) + fraction;
      if d.day != 0 {
        ReadsDate(tm, " " + time);
        assert (" " + time)[1..] == time;
        assert DBText(d)[|DateText(tm)|] == ' ';
      }
    }
  }

  // Texts that end early

  /** What follows a number, which may have a minus sign and may be empty. */
  function AfterNumber(s: string): string {
    SkipDigits(if s != [] && s[0] == '-' then s[1..] else s)
  }

  /** Two numbers with a character behind each do not fit in the text. */
  predicate TooShort(s: string) {
    AfterNumber(s) == [] || AfterNumber(AfterNumber(s)[1..]) == []
  }

  lemma {:induction false} DigitsSkipped(s: string, x: nat, w: Word)
    requires x < w.Modulus()
    ensures ReadDigits(s, x, w).rest == SkipDigits(s)
    decreases |s|
  {
    hide Word.Modulus, Word.Wrap;
    if s != [] && IsDigit(s[0]) {
      DigitsSkipped(s[1..], w.Wrap(x * 8 + x * 2 + DigitValue(s[0])), w);
    }
  }

  lemma NumberSkipped(s: string)
    ensures ReadSigned(s, Bits32).rest == AfterNumber(s)
  {
    hide ReadDigits, SkipDigits;
    DigitsSkipped(if s != [] && s[0] == '-' then s[1..] else s, 0, Bits32);
  }

  lemma TimeReadPast(s: string)
    ensures ParseTime(s).None? <==> TooShort(s)
  {
    hide ReadSigned, AfterNumber, Nanoseconds;
    NumberSkipped(s);
    if AfterNumber(s) != [] {
      NumberSkipped(AfterNumber(s)[1..]);
    }
  }

  /** The cursor leaves the text exactly if a date or a time ends with its first or second number. */
  lemma ReadPastExactly(s: string)
    ensures ParseDB(s).None? <==>
      || TooShort(s)
      || ((' ' in s || ':' !in s) &&
          var rest := AfterNumber(AfterNumber(AfterNumber(s)[1..])[1..]);
          rest != [] && rest[0] == ' ' && TooShort(rest[1..]))
  {
    hide ReadSigned, AfterNumber, ParseTime, Packed;
    TimeReadPast(s);
    NumberSkipped(s);
    if AfterNumber(s) != [] {
      var s1 := AfterNumber(s)[1..];
      NumberSkipped(s1);
      if AfterNumber(s1) != [] {
        var s2 := AfterNumber(s1)[1..];
        NumberSkipped(s2);
        if AfterNumber(s2) != [] {
          TimeReadPast(AfterNumber(s2)[1..]);
        }
      }
    }
  }

  /** Hours and minutes alone are not enough, although the separators show a time. */
  lemma MinutesAreReadPast()
    ensures ParseDB("12:30") == None
  {
    hide ParseDB;
    ReadPastExactly("12:30");
    var s := "12:30";
    assert s[1..][1..] == s[2..] && s[2..][1..] == s[3..] && s[3..][1..] == s[4..] && s[4..][1..] == [];
    assert SkipDigits(s[4..]) == [] && SkipDigits(s[3..]) == [];
    assert SkipDigits(s[1..]) == s[2..] && SkipDigits(s) == s[2..];
  }

  // Values that survive

  /** Set cannot produce anything else from broken-down time in the ranges it asserts. */
  predicate Settable(d: Stamp) {
    && d.ns100 < 10_000_000
    && (d.day == 0 ==> d.year == 0 && d.month == 0 && d.neg == 0)
    && (d.neg == 1 ==> d.year > 0)
  }

  predicate Asserted(tm: Tm) {
    && 0 <= tm.hour < 24 && 0 <= tm.min < 60 && 0 <= tm.sec < 60
    && (tm.mday != 0 ==> -8191 <= tm.year <= 8191 && 0 <= tm.mon <= 11 && 0 < tm.mday < 32)
  }

  lemma SetsOnlySettable(tm: Tm, ns: nat)
    requires Asserted(tm)
    ensures Settable(Packed(tm, ns))
  {
  }

  /** Exactly the settable values, before 1900, time-only and all-zero ones included, survive printing and parsing. */
  lemma RestoredExactly(d: Stamp)
    ensures ParseDB(DBText(d)) == Some(d) <==> Settable(d)
  {
    hide ParseDB, DBText;
    ParsesPrinted(d);
  }

  /** Set and GetCTime undo each other, on exactly the settable values. */
  lemma UnpackedExactly(d: Stamp)
    ensures Packed(CTime(d), 100 * d.ns100) == d <==> Settable(d)
  {
  }

  /** From the other side: on exactly the times in the fields' ranges, to full hundreds of nanoseconds. */
  lemma PackedExactly(tm: Tm, ns: nat)
    ensures CTime(Packed(tm, ns)) == tm && 100 * Packed(tm, ns).ns100 == ns <==>
      && 0 <= tm.hour < 32 && 0 <= tm.min < 64 && 0 <= tm.sec < 64
      && 0 <= tm.mday < 32 && 0 <= tm.mon < 16 && -8192 < tm.year < 8192
      && (tm.mday == 0 ==> tm.year == 0 && tm.mon == 0)
      && ns <= MAX_NANO_SECONDS && ns % 100 == 0
  {
  }

  /** The printed form and its terminator always fit the 32 characters of the string overload. */
  lemma TextFits(d: Stamp)
    ensures |DBText(d)| < 32
  {
    hide Fixed;
    var tm := CTime(d);
    FixedShort(tm.year + 1900, 4, 5);
    FixedShort(tm.mon + 1, 2, 2);
    FixedShort(tm.mday, 2, 2);
    FixedShort(tm.hour, 2, 2);
    FixedShort(tm.min, 2, 2);
    FixedShort(tm.sec, 2, 2);
    FixedShort(d.ns100, 7, 8);
  }

  /** A date with time and fraction takes 16 characters besides year and fraction. */
  lemma TextWidth(d: Stamp)
    requires d.ns100 != 0 && d.day != 0
    ensures |DBText(d)| == (if -1000 < CTime(d).year + 1900 < 10_000 then 4 else 5)
                           + 16 + (if d.ns100 < 10_000_000 then 7 else 8)
  {
    hide Fixed;
    var tm := CTime(d);
    YearWidth(tm.year + 1900);
    TwoDigits(tm.mon + 1);
    TwoDigits(tm.mday);
    TwoDigits(tm.hour);
    TwoDigits(tm.min);
    TwoDigits(tm.sec);
    FractionWidth(d.ns100);
  }

  /**
    It fits the 28 characters that ToDBString itself asks for exactly if there is no fraction, no
    date, or neither a year of more than four characters nor a fraction of more than seven digits.
  */
  lemma FitsAsAsked(d: Stamp)
    ensures |DBText(d)| < 28 <==>
      d.ns100 == 0 || d.day == 0 || (-1000 < CTime(d).year + 1900 < 10_000 && d.ns100 < 10_000_000)
  {
    hide Fixed;
    if d.ns100 != 0 && d.day != 0 {
      TextWidth(d);
    } else {
      var tm := CTime(d);
      YearWidth(tm.year + 1900);
      TwoDigits(tm.mon + 1);
      TwoDigits(tm.mday);
      TwoDigits(tm.hour);
      TwoDigits(tm.min);
      TwoDigits(tm.sec);
      FractionWidth(d.ns100);
    }
  }

  /**
    Two values that leave no room for the terminator: the first of January 1900 with a fraction of
    eight digits, which Set cannot produce, and one in the year 10000, which it can.
  */
  lemma AskedIsTooShort()
    ensures |DBText(Stamp(10_000_000, 0, 0, 0, 1, 0, 0, 0))| == 28
    ensures Settable(Stamp(1, 0, 0, 0, 1, 0, 8100, 0)) && |DBText(Stamp(1, 0, 0, 0, 1, 0, 8100, 0))| == 28
  {
    hide DBText;
    TextWidth(Stamp(10_000_000, 0, 0, 0, 1, 0, 0, 0));
    TextWidth(Stamp(1, 0, 0, 0, 1, 0, 8100, 0));
  }

  lemma TwoDigits(n: nat)
    requires n < 100
    ensures |Fixed(n, 2)| == 2
  {
    assert Pow10(2) == 100;
    DigitsShort(n, 2);
  }

  lemma YearWidth(n: int)
    requires -10_000 < n < 100_000
    ensures |Fixed(n, 4)| == if -1000 < n < 10_000 then 4 else 5
  {
    var m := if n < 0 then -n else n;
    assert Pow10(3) == 1000 && Pow10(4) == 10_000 && Pow10(5) == 100_000;
    DigitsShort(m, 5);
    if m < 1000 {
      DigitsShort(m, 3);
    } else if m < 10_000 {
      DigitsLong(m, 3);
      DigitsShort(m, 4);
    } else {
      DigitsLong(m, 4);
    }
  }

  lemma FixedShort(n: int, width: nat, most: nat)
    requires 2 <= width <= most <= 8
    requires if n < 0 then -n < Pow10(most - 1) else n < Pow10(most)
    ensures |Fixed(n, width)| <= most
  {
    DigitsShort(if n < 0 then -n else n, if n < 0 then most - 1 else most);
  }

  // The operations

  class UDateTime {
    var ns100: bits24
    var second: bits6
    var minute: bits6
    var hour: bits5
    var day: bits5
    var month: bits4
    var year: bits13
    var neg: bits1

    function Bits(): Stamp
      reads this
    {
      Stamp(ns100, second, minute, hour, day, month, year, neg)
    }

    constructor ()
      ensures Bits() == Stamp(0, 0, 0, 0, 0, 0, 0, 0)
    {
      ns100, second, minute, hour, day, month, year, neg := 0, 0, 0, 0, 0, 0, 0, 0;
    }

    method Set(dt: Tm, ns: nat)
      modifies this
      ensures Bits() == Packed(dt, ns)
    {
      var n := ns;
      if n > MAX_NANO_SECONDS {
        n := MAX_NANO_SECONDS;
      }
      if dt.mday != 0 {
        if dt.year < 0 {
          neg := 1;
          year := -dt.year % 8192;
        } else {
          neg := 0;
          year := dt.year % 8192;
        }
        month := dt.mon % 16;
        day := dt.mday % 32;
      } else {
        neg, year, month, day := 0, 0, 0, 0;
      }
      hour := dt.hour % 32;
      minute := dt.min % 64;
      second := dt.sec % 64;
      ns100 := n / 100;
    }

    method GetCTime() returns (tm: Tm, ns: nat)
      ensures tm == CTime(Bits()) && ns == 100 * Bits().ns100
    {
      ns := ns100 * 100;
      tm := Tm(if neg != 0 then 0 - year else year, month, day, hour, minute, second);
    }

    method ToDBString() returns (s: string)
      ensures s == DBText(Bits())
    {
      hide Fixed;
      var tm, _ := GetCTime();
      if ns100 != 0 {
        s := TimeText(tm) + ("." + Fixed(ns100, 7));
        if tm.mday != 0 {
          s := DateText(tm) + (" " + s);
        }
      } else if tm.hour != 0 || tm.min != 0 || tm.sec != 0 {
        s := TimeText(tm);
        assert s + "" == s;
        if tm.mday != 0 {
          s := DateText(tm) + (" " + s);
        }
      } else {
        s := DateText(tm);
      }
    }

    /** Tells whether the text was in database form; nothing is stored otherwise. */
    method ParseFromDBString(str: string) returns (ok: bool)
      modifies this
      ensures ok == ParseDB(str).Some?
      ensures Bits() == if ok then ParseDB(str).value else old(Bits())
    {
      hide ParseTime, ParseDateTime, Packed;
      assert str[0..] == str;
      if ' ' !in str && ':' in str {
        var clock := ReadTime(str, 0);
        if clock == None {
          return false;
        }
        var c := clock.value;
        Set(Tm(0, 0, 0, c.hour, c.min, c.sec), c.ns);
      } else {
        var time := ReadDateTime(str);
        if time == None {
          return false;
        }
        Set(time.value.0, time.value.1);
      }
      ok := true;
    }
  }

  method ReadTime(str: string, p: nat) returns (r: Option<Clock>)
    requires p <= |str|
    ensures r == ParseTime(str[p..])
  {
    hide ReadSigned, Nanoseconds;
    var hour, end := ReadInteger(str, p, Bits32);
    if end == |str| {
      return None;
    }
    assert str[end..][1..] == str[end + 1..];
    var min;
    min, end := ReadInteger(str, end + 1, Bits32);
    if end == |str| {
      return None;
    }
    assert str[end..][1..] == str[end + 1..];
    var sec;
    sec, end := ReadInteger(str, end + 1, Bits32);
    var ns: nat := 0;
    if end < |str| && str[end] == '.' {
      assert str[end..][1..] == str[end + 1..];
      ns := ReadNanoseconds(str, end + 1);
    }
    r := Some(Clock(hour, min, sec, ns));
  }

  /** The rational form of atof behind a point, scaled to nanoseconds. */
  method ReadNanoseconds(str: string, p: nat) returns (ns: nat)
    requires p <= |str|
    ensures ns == Nanoseconds(str[p..])
  {
    hide ReadDigits, Word.Wrap;
    var dot, end := ReadUnsigned(str, p, Bits64);
    var n, temp: nat := 0, 1;
    while n < end - p
      invariant n <= end - p && temp == PowerOf10(n)
    {
      temp := Bits64.Wrap(temp * 8 + temp * 2);
      n := n + 1;
    }
    ns := Bits32.Wrap(Rounded(dot * 1_000_000_000, temp));
  }

  method ReadDateTime(str: string) returns (r: Option<(Tm, nat)>)
    ensures r == ParseDateTime(str)
  {
    hide ReadSigned, ParseTime;
    assert str[0..] == str;
    var year, end := ReadInteger(str, 0, Bits32);
    if end == |str| {
      return None;
    }
    assert str[end..][1..] == str[end + 1..];
    var mon;
    mon, end := ReadInteger(str, end + 1, Bits32);
    if end == |str| {
      return None;
    }
    assert str[end..][1..] == str[end + 1..];
    var day;
    day, end := ReadInteger(str, end + 1, Bits32);
    var date := Tm(year - 1900, mon - 1, day, 0, 0, 0);
    if end < |str| && str[end] == ' ' {
      assert str[end..][1..] == str[end + 1..];
      var clock := ReadTime(str, end + 1);
      if clock == None {
        return None;
      }
      var c := clock.value;
      return Some((date.(hour := c.hour, min := c.min, sec := c.sec), c.ns));
    }
    r := Some((date, 0));
  }
}
