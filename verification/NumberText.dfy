/**
  Integers as text (include/definebase.h): the digit loops that print into a caller's buffer with
  an 8-bit index, the loops that read digits in fixed-width arithmetic, and the laws by which they
  undo each other.
*/
module NumberText {
  import opened Bytes

  predicate IsDigit(c: char) {
    '0' <= c <= '9'
  }

  function DigitValue(c: char): (v: nat)
    requires IsDigit(c)
    ensures v < 10
  {
    c as int - '0' as int
  }

  function DigitChar(d: nat): (c: char)
    requires d < 10
    ensures IsDigit(c) && DigitValue(c) == d
  {
    ('0' as int + d) as char
  }

  predicate AllDigits(s: string) {
    forall c <- s :: IsDigit(c)
  }

  function Pow10(k: nat): (p: nat)
    ensures p >= 1
  {
    if k == 0 then 1 else 10 * Pow10(k - 1)
  }

  /** The decimal digits of a number, without leading zeros. */
  function Digits(n: nat): (s: string)
    ensures |s| >= 1 && AllDigits(s)
    ensures n > 0 ==> s[0] != '0'
  {
    if n < 10 then [DigitChar(n)] else Digits(n / 10) + [DigitChar(n % 10)]
  }

  /** What a string of digits stands for, whatever its length. */
  function ValueOf(s: string): nat
    requires AllDigits(s)
  {
    if s == [] then 0
    else
      assert s[|s| - 1] in s && forall c <- s[..|s| - 1] :: c in s;
      10 * ValueOf(s[..|s| - 1]) + DigitValue(s[|s| - 1])
  }

  lemma {:induction false} ValueOfDigits(n: nat)
    ensures ValueOf(Digits(n)) == n
  {
    if n >= 10 {
      ValueOfDigits(n / 10);
      var s := Digits(n);
      assert s[..|s| - 1] == Digits(n / 10);
    } else {
      assert Digits(n)[..0] == [];
    }
  }

  lemma MoveTen(v: nat, p: nat)
    ensures 10 * (v * p) == v * (10 * p)
  {
  }

  lemma {:induction false} ValueOfAppend(a: string, b: string)
    requires AllDigits(a) && AllDigits(b)
    ensures AllDigits(a + b) && ValueOf(a + b) == ValueOf(a) * Pow10(|b|) + ValueOf(b)
  {
    if b == [] {
      assert a + b == a;
    } else {
      var front := b[..|b| - 1];
      assert (a + b)[..|a + b| - 1] == a + front;
      assert b[|b| - 1] in b && forall c <- front :: c in b;
      ValueOfAppend(a, front);
      MoveTen(ValueOf(a), Pow10(|front|));
    }
  }

  function Zeros(n: nat): (s: string)
    ensures |s| == n && AllDigits(s)
  {
    seq(n, i => '0')
  }

  lemma {:induction false} ZerosAreWorthNothing(n: nat, s: string)
    requires AllDigits(s)
    ensures AllDigits(Zeros(n) + s) && ValueOf(Zeros(n) + s) == ValueOf(s)
  {
    ValueOfAppend(Zeros(n), s);
    ZerosValue(n);
  }

  lemma {:induction false} ZerosValue(n: nat)
    ensures ValueOf(Zeros(n)) == 0
  {
    if n > 0 {
      assert Zeros(n)[..n - 1] == Zeros(n - 1);
      ZerosValue(n - 1);
    }
  }

  lemma {:induction false} DigitsShort(n: nat, k: nat)
    requires k > 0 && n < Pow10(k)
    ensures |Digits(n)| <= k
  {
    assert Pow10(k) == 10 * Pow10(k - 1) && Pow10(0) == 1;
    if n >= 10 {
      DigitsShort(n / 10, k - 1);
    }
  }

  lemma TimesGrows(a: nat, b: nat, d: nat)
    ensures a <= b ==> a * d <= b * d
  {
  }

  lemma DivisionIs(x: nat, d: nat, q: nat)
    requires q * d <= x < q * d + d
    ensures x / d == q
  {
    var e := x / d;
    assert e * d <= x < e * d + d;
    TimesGrows(q + 1, e, d);
    TimesGrows(e + 1, q, d);
  }

  lemma TenthsOf(n: nat, p: nat)
    requires p > 0
    ensures n / 10 / p == n / (10 * p)
  {
    var c := n / 10 / p;
    assert c * p <= n / 10 < c * p + p;
    assert c * (10 * p) == 10 * (c * p);
    DivisionIs(n, 10 * p, c);
  }

  lemma OneMoreDigit(n: nat, d: nat)
    requires n > 0 && d < 10
    ensures Digits(10 * n + d) == Digits(n) + [DigitChar(d)] && Digits(d) == [DigitChar(d)]
  {
    assert (10 * n + d) / 10 == n && (10 * n + d) % 10 == d;
  }

  /** Digits are written in decimal places: the one worth 10^k stands k places before the last. */
  lemma {:induction false} PlaceValue(n: nat, k: nat)
    requires k < |Digits(n)|
    ensures Digits(n)[|Digits(n)| - 1 - k] as int == 0x30 + n / Pow10(k) % 10
  {
    if n >= 10 && k > 0 {
      PlaceValue(n / 10, k - 1);
      TenthsOf(n, Pow10(k - 1));
    }
  }

  /** There are as many digits as it takes. */
  lemma DigitsExactly(n: nat, k: nat)
    requires k > 0
    ensures |Digits(n)| <= k <==> n < Pow10(k)
  {
    if n < Pow10(k) {
      DigitsShort(n, k);
    } else {
      DigitsLong(n, k);
    }
  }

  lemma {:induction false} DigitsLong(n: nat, k: nat)
    requires n >= Pow10(k)
    ensures |Digits(n)| > k
  {
    if k > 0 {
      assert n / 10 >= Pow10(k - 1);
      DigitsLong(n / 10, k - 1);
    }
  }

  lemma {:induction false} Pow10Sum(a: nat, b: nat)
    ensures Pow10(a + b) == Pow10(a) * Pow10(b)
  {
    if a > 0 {
      Pow10Sum(a - 1, b);
      assert 10 * (Pow10(a - 1) * Pow10(b)) == (10 * Pow10(a - 1)) * Pow10(b);
    }
  }

  lemma {:induction false} Pow10Grows(a: nat, b: nat)
    requires a <= b
    ensures Pow10(a) <= Pow10(b)
    decreases b
  {
    if a < b {
      Pow10Grows(a, b - 1);
    }
  }

  lemma {:induction false} ValueIsBelow(s: string)
    requires AllDigits(s)
    ensures ValueOf(s) < Pow10(|s|)
  {
    if s != [] {
      var front := s[..|s| - 1];
      assert s[|s| - 1] in s && forall c <- front :: c in s;
      ValueIsBelow(front);
    }
  }

  lemma WordsAreShort()
    ensures Bits32.Modulus() <= Pow10(10) && Bits64.Modulus() / 2 <= Pow10(19) && Bits64.Modulus() <= Pow10(20)
  {
    assert Pow10(5) == 100_000;
    assert Pow10(10) == 10_000_000_000;
    assert Pow10(15) == 1_000_000_000_000_000;
    assert Pow10(19) == 10_000_000_000_000_000_000;
  }

  // Reading

  /** The two widths of integer, with their wrap-around; a signed overflow, undefined in the original, wraps too. */
  datatype Word = Bits32 | Bits64 {
    function Modulus(): nat {
      if Bits64? then 0x1_0000_0000_0000_0000 else 0x1_0000_0000
    }

    function Wrap(x: nat): (r: nat)
      ensures r < Modulus()
      ensures x < Modulus() ==> r == x
    {
      if Bits64? then x % 0x1_0000_0000_0000_0000 else x % 0x1_0000_0000
    }

    predicate FitsSigned(x: int) {
      if Bits64? then -0x8000_0000_0000_0000 <= x < 0x8000_0000_0000_0000 else -0x8000_0000 <= x < 0x8000_0000
    }

    /** The signed reading of a word. */
    function AsSigned(x: nat): (r: int)
      requires x < Modulus()
      ensures FitsSigned(r)
    {
      if FitsSigned(x) then x else x - Modulus()
    }

    /** The signed reading of the word's two's complement. */
    function Negated(x: nat): (r: int)
      requires x < Modulus()
      ensures FitsSigned(r) && (FitsSigned(x) ==> r + x == 0)
    {
      if x == 0 then 0 else AsSigned(Modulus() - x)
    }
  }

  datatype Parsed = Parsed(value: nat, rest: string)

  /** Reads digits up to the first character that is none, in fixed-width arithmetic, as shifts and adds. */
  function ReadDigits(s: string, x: nat, w: Word): (r: Parsed)
    requires x < w.Modulus()
    ensures r.value < w.Modulus() && |r.rest| <= |s|
    decreases |s|
  {
    if s != [] && IsDigit(s[0]) then ReadDigits(s[1..], w.Wrap(x * 8 + x * 2 + DigitValue(s[0])), w)
    else Parsed(x, s)
  }

  predicate StopsDigits(s: string) {
    s == [] || !IsDigit(s[0])
  }

  /** What follows the digits a text starts with. */
  function SkipDigits(s: string): (r: string)
    ensures |r| <= |s| && StopsDigits(r)
  {
    if s != [] && IsDigit(s[0]) then SkipDigits(s[1..]) else s
  }

  lemma ReadStep(s: string, x: nat, w: Word)
    requires x < w.Modulus() && s != [] && IsDigit(s[0])
    ensures ReadDigits(s, x, w) == ReadDigits(s[1..], w.Wrap(x * 8 + x * 2 + DigitValue(s[0])), w)
  {
  }

  lemma ReadNone(s: string, x: nat, w: Word)
    requires x < w.Modulus() && StopsDigits(s)
    ensures ReadDigits(s, x, w) == Parsed(x, s)
  {
  }

  lemma WrapStep(y: nat, d: nat, w: Word)
    ensures w.Wrap(w.Wrap(y) * 8 + w.Wrap(y) * 2 + d) == w.Wrap(10 * y + d)
  {
    var r := w.Wrap(y);
    var q := if w.Bits64? then y / 0x1_0000_0000_0000_0000 else y / 0x1_0000_0000;
    var z := r * 8 + r * 2 + d;
    if w.Bits64? {
      assert 10 * y + d == z + 0x1_0000_0000_0000_0000 * (10 * q);
    } else {
      assert 10 * y + d == z + 0x1_0000_0000 * (10 * q);
    }
    WrapMultiple(z, 10 * q, w);
  }

  lemma WrapMultiple(z: nat, k: nat, w: Word)
    ensures w.Bits64? ==> w.Wrap(z + 0x1_0000_0000_0000_0000 * k) == w.Wrap(z)
    ensures w.Bits32? ==> w.Wrap(z + 0x1_0000_0000 * k) == w.Wrap(z)
  {
  }

  /** Reading stops right after the last digit, with the value of all the digits reduced to the word. */
  lemma {:induction false} ReadsDigits(done: string, ds: string, rest: string, w: Word)
    requires AllDigits(done) && AllDigits(ds) && StopsDigits(rest)
    ensures AllDigits(done + ds)
    ensures ReadDigits(ds + rest, w.Wrap(ValueOf(done)), w) == Parsed(w.Wrap(ValueOf(done + ds)), rest)
    decreases |ds|
  {
    hide Word.Wrap, Word.Modulus;
    hide ReadDigits;
    if ds == [] {
      assert ds + rest == rest && done + ds == done;
      ReadNone(rest, w.Wrap(ValueOf(done)), w);
    } else {
      var s := ds + rest;
      var d := ds[0];
      var next := done + [d];
      assert d in ds && forall c <- ds[1..] :: c in ds;
      assert s[1..] == ds[1..] + rest && next + ds[1..] == done + ds && next[..|next| - 1] == done;
      assert ValueOf(next) == 10 * ValueOf(done) + DigitValue(d);
      assert ReadDigits(s, w.Wrap(ValueOf(done)), w) == ReadDigits(s[1..], w.Wrap(ValueOf(next)), w) by {
        ReadStep(s, w.Wrap(ValueOf(done)), w);
        WrapStep(ValueOf(done), DigitValue(d), w);
      }
      ReadsDigits(next, ds[1..], rest, w);
    }
  }

  /** The printed form of any number of the word is read back, whatever follows it that is no digit. */
  lemma DigitsRoundTrip(n: nat, rest: string, w: Word)
    requires n < w.Modulus() && StopsDigits(rest)
    ensures ReadDigits(Digits(n) + rest, 0, w) == Parsed(n, rest)
  {
    hide ReadDigits, Digits, Word.Wrap, Word.Modulus;
    ReadsDigits([], Digits(n), rest, w);
    assert [] + Digits(n) == Digits(n);
    assert ValueOf([]) == 0;
    ValueOfDigits(n);
  }

  /** While the digits of n are read, no intermediate value exceeds n: nothing overflows. */
  lemma {:induction false} PrefixesStayBelow(s: string, k: nat)
    requires AllDigits(s) && k <= |s|
    ensures AllDigits(s[..k]) && ValueOf(s[..k]) <= ValueOf(s)
    decreases |s|
  {
    if k < |s| {
      var front := s[..|s| - 1];
      assert s[..k] == front[..k] && forall c <- front :: c in s;
      PrefixesStayBelow(front, k);
    } else {
      assert s[..k] == s;
    }
  }

  datatype ParsedInt = ParsedInt(value: int, rest: string)

  /** Reads an optional minus sign and digits. */
  function ReadSigned(s: string, w: Word): (r: ParsedInt)
    ensures w.FitsSigned(r.value)
  {
    if s != [] && s[0] == '-' then
      var p := ReadDigits(s[1..], 0, w);
      ParsedInt(w.Negated(p.value), p.rest)
    else
      var p := ReadDigits(s, 0, w);
      ParsedInt(w.AsSigned(p.value), p.rest)
  }

  function SignedDigits(x: int): string {
    if x < 0 then "-" + Digits(-x) else Digits(x)
  }

  /** Every signed number but the smallest is read back. */
  lemma SignedRoundTrip(x: int, rest: string, w: Word)
    requires w.FitsSigned(x) && w.FitsSigned(-x) && StopsDigits(rest)
    ensures ReadSigned(SignedDigits(x) + rest, w) == ParsedInt(x, rest)
  {
    hide ReadDigits, Digits;
    if x < 0 {
      assert (SignedDigits(x) + rest)[1..] == Digits(-x) + rest;
      DigitsRoundTrip(-x, rest, w);
    } else {
      assert Digits(x)[0] in Digits(x);
      assert IsDigit((Digits(x) + rest)[0]);
      DigitsRoundTrip(x, rest, w);
    }
  }

  /** atoui and atoull: the cursor runs over the digits of a NUL-terminated text. */
  method ReadUnsigned(text: string, p: nat, w: Word) returns (x: nat, end: nat)
    requires p <= |text|
    ensures p <= end <= |text| && Parsed(x, text[end..]) == ReadDigits(text[p..], 0, w)
  {
    hide Word.Wrap, Word.Modulus, ReadDigits;
    x, end := 0, p;
    while end < |text| && IsDigit(text[end])
      invariant p <= end <= |text| && x < w.Modulus()
      invariant ReadDigits(text[end..], x, w) == ReadDigits(text[p..], 0, w)
    {
      assert text[end..][1..] == text[end + 1..];
      ReadStep(text[end..], x, w);
      x := w.Wrap(x * 8 + x * 2 + DigitValue(text[end]));
      end := end + 1;
    }
    ReadNone(text[end..], x, w);
  }

  /** atoi and atoll. */
  method ReadInteger(text: string, p: nat, w: Word) returns (x: int, end: nat)
    requires p <= |text|
    ensures p <= end <= |text| && ParsedInt(x, text[end..]) == ReadSigned(text[p..], w)
  {
    hide ReadDigits, Word.Wrap;
    var neg := p < |text| && text[p] == '-';
    var start := if neg then p + 1 else p;
    if neg {
      assert text[p..][1..] == text[p + 1..];
    }
    var u: nat;
    u, end := ReadUnsigned(text, start, w);
    x := if neg then w.Negated(u) else w.AsSigned(u);
  }

  // Printing into a buffer

  /** Decrements an 8-bit index. */
  function Dec8(i: byte): byte {
    if i == 0 then 255 else i - 1
  }

  function Sub8(i: byte, j: byte): byte {
    if i >= j then i - j else 256 + i - j
  }

  function Inc8(i: byte): byte {
    if i == 255 then 0 else i + 1
  }

  /** The digits still missing, when `x` is what remains of the number. */
  function Left(x: nat): string {
    if x == 0 then [] else Digits(x)
  }

  lemma LeftNone()
    ensures Left(0) == []
  {
  }

  lemma LeftStep(x: nat)
    requires x > 0
    ensures Left(x) == Left(x / 10) + [DigitChar(x % 10)]
  {
    if x < 10 {
      assert Left(x / 10) + [DigitChar(x % 10)] == Digits(x);
    }
  }

  /**
    Writes the digits of x backwards from index `top` and tells the index of the cell before
    the first of them; that index wraps to 255 when the digits fill the buffer from 0.
  */
  method WriteDigits(x: nat, buff: array<char>, top: byte) returns (start: byte)
    requires top < 255 && top < buff.Length && |Left(x)| <= top + 1
    modifies buff
    ensures start == if |Left(x)| == top + 1 then 255 else top - |Left(x)|
    ensures buff[top + 1 - |Left(x)|..top + 1] == Left(x)
    ensures forall i :: 0 <= i < buff.Length && !(top + 1 - |Left(x)| <= i <= top) ==> buff[i] == old(buff[i])
  {
    hide Left, DigitChar;
    start := top;
    var y := x;
    ghost var n := top + 1;
    while y > 0
      invariant 0 <= n <= top + 1 && start == (if n == 0 then 255 else n - 1)
      invariant |Left(y)| <= n
      invariant Left(x) == Left(y) + buff[n..top + 1]
      invariant forall i :: 0 <= i < buff.Length && !(n <= i <= top) ==> buff[i] == old(buff[i])
    {
      LeftStep(y);
      ghost var tail := buff[n..top + 1];
      var c := DigitChar(y % 10);
      buff[start] := c;
      n := n - 1;
      assert buff[n..top + 1] == [c] + tail;
      assert Left(y) + tail == Left(y / 10) + ([c] + tail);
      y := y / 10;
      start := Dec8(start);
    }
    LeftNone();
  }

  lemma UnsignedIsShort(x: nat, top: byte)
    requires (top == 9 && x < Bits32.Modulus()) || (top == 19 && x < Bits64.Modulus())
    ensures |Digits(x)| <= top + 1
  {
    hide Digits, Pow10;
    WordsAreShort();
    DigitsShort(x, top + 1);
  }

  /** Prints an unsigned word; `top` is 9 for 32 bits and 19 for 64. */
  method UnsignedToString(x: nat, buff: array<char>, top: byte) returns (start: byte, chars: byte)
    requires (top == 9 && x < Bits32.Modulus()) || (top == 19 && x < Bits64.Modulus())
    requires buff.Length > top + 1
    modifies buff
    ensures start + chars <= top + 1 && buff[start..start + chars] == Digits(x) && buff[start + chars] == '\0'
  {
    if x == 0 {
      buff[0], buff[1] := '0', '\0';
      return 0, 1;
    }
    UnsignedIsShort(x, top);
    hide Digits;
    buff[top + 1] := '\0';
    start := WriteDigits(x, buff, top);
    ghost var left := Left(x);
    assert left == Digits(x) && 1 <= |left| <= top + 1;
    chars := Sub8(top, start);
    start := Inc8(start);
  }

  lemma SignedIsShort(x: nat, top: byte)
    requires (top == 10 && Bits32.FitsSigned(x)) || (top == 19 && Bits64.FitsSigned(x))
    ensures |Digits(x)| <= top
  {
    hide Digits, Pow10;
    WordsAreShort();
    DigitsShort(x, if top == 10 then 10 else 19);
  }

  /** Prints a signed word other than the smallest; `top` is 10 for 32 bits and 19 for 64. */
  method SignedToString(x: int, buff: array<char>, top: byte) returns (start: byte, chars: byte)
    requires (top == 10 && Bits32.FitsSigned(x) && Bits32.FitsSigned(-x))
          || (top == 19 && Bits64.FitsSigned(x) && Bits64.FitsSigned(-x))
    requires buff.Length > top + 1
    modifies buff
    ensures start + chars <= top + 1 && buff[start..start + chars] == SignedDigits(x) && buff[start + chars] == '\0'
  {
    if x == 0 {
      buff[0], buff[1] := '0', '\0';
      return 0, 1;
    }
    hide Digits, Pow10;
    var magnitude: nat := if x < 0 then -x else x;
    SignedIsShort(magnitude, top);
    buff[top + 1] := '\0';
    start := WriteDigits(magnitude, buff, top);
    ghost var left := Left(magnitude);
    assert left == Digits(magnitude) && 1 <= |left| <= top;
    chars := top - start;
    if x < 0 {
      buff[start] := '-';
      chars := chars + 1;
    } else {
      start := start + 1;
    }
  }
}
