/**
  What the comparison of variants (include/spvariant.h) compares: two variants are equal exactly
  if neither holds a NaN and both stand for the same value.
*/
module VariantEquality {
  import opened Bytes
  import opened Wrappers
  import opened Variants

  /** The sort of a plain value; two of different sorts never compare equal. */
  datatype Sort = Signed(bits: nat) | Unsigned(bits: nat) | Real(bits: nat) | Currency | Date | Truth | Decimal

  function SortOf(t: Plain): Sort {
    match t
    case I1 => Signed(8)
    case I2 => Signed(16)
    case I4 => Signed(32)
    case INT => Signed(32)
    case I8 => Signed(64)
    case UI1 => Unsigned(8)
    case UI2 => Unsigned(16)
    case UI4 => Unsigned(32)
    case UINT => Unsigned(32)
    case UI8 => Unsigned(64)
    case R4 => Real(32)
    case R8 => Real(64)
    case CY => Currency
    case DATE => Date
    case BOOL => Truth
    case DECIMAL => Decimal
  }

  /** What a variant stands for. */
  datatype Canon =
    | Nothing
    | NullValue
    | Amount(kind: Sort, n: int)
    | Float(kind: Sort, value: Floating)
    | Yes(b: bool)
    | Chars(text: Option<Text>)
    | Cells(kind: Sort, cells: seq<nat>)
    | Lines(texts: seq<Option<Text>>)
    | Several(items: seq<Canon>)

  /** The number in two's complement. */
  function SignedNumber(raw: seq<byte>, modulus: nat): int {
    var n := LittleEndian(raw);
    if 2 * n < modulus then n else n - modulus
  }

  /** Zero has one form only. */
  function OneZero(f: Floating): Floating {
    if f.exponent == 0 && f.fraction == 0 then Floating(false, 0, 0) else f
  }

  function PlainCanon(t: Plain, raw: seq<byte>): Canon
    requires |raw| == t.Width()
  {
    var kind := SortOf(t);
    match t
    case I1 => Amount(kind, SignedNumber(raw, 0x100))
    case I2 => Amount(kind, SignedNumber(raw, 0x1_0000))
    case I4 => Amount(kind, SignedNumber(raw, 0x1_0000_0000))
    case INT => Amount(kind, SignedNumber(raw, 0x1_0000_0000))
    case I8 => Amount(kind, SignedNumber(raw, 0x1_0000_0000_0000_0000))
    case CY => Amount(kind, SignedNumber(raw, 0x1_0000_0000_0000_0000))
    case R4 => Float(kind, OneZero(SingleOf(raw)))
    case R8 => Float(kind, OneZero(DoubleOf(raw)))
    case BOOL => Yes(LittleEndian(raw) != 0)
    case DECIMAL => Amount(kind, LittleEndian(raw[2..]))
    case _ => Amount(kind, LittleEndian(raw))
  }

  /** The memory of each element of an array, read as a number; of a DECIMAL, all but the reserved field. */
  function CellNumbers(t: Plain, count: nat, cells: seq<byte>): (r: seq<nat>)
    requires |cells| == count * t.Width()
    ensures |r| == count
    decreases count
  {
    if count == 0 then []
    else
      var w := t.Width();
      CellsLeft(count, w);
      [LittleEndian(if t.DECIMAL? then cells[2..w] else cells[..w])] + CellNumbers(t, count - 1, cells[w..])
  }

  lemma CellsLeft(count: nat, w: nat)
    requires count > 0
    ensures count * w == w + (count - 1) * w
  {
  }

  function CanonOf(v: Variant): Canon
    requires v.Valid()
    decreases v
  {
    match v
    case Empty => Nothing
    case Null => NullValue
    case Scalar(t, raw) => PlainCanon(t, raw)
    case Bstr(text) => Chars(text)
    case PlainArray(t, count, cells) => Cells(SortOf(t), CellNumbers(t, count, cells))
    case BstrArray(texts) => Lines(texts)
    case VariantArray(items) => Several(seq(|items|, i requires 0 <= i < |items| => CanonOf(items[i])))
  }

  // Scalars

  lemma SameSort(t: Plain, u: Plain)
    ensures Normal(t) == Normal(u) <==> SortOf(t) == SortOf(u)
    ensures Normal(t) == Normal(u) ==> t.Width() == u.Width() && t.DECIMAL? == u.DECIMAL? == Normal(t).DECIMAL?
    ensures Normal(t).Width() == t.Width()
  {
  }

  lemma SingleJoined(n: nat)
    requires n < 0x1_0000_0000
    ensures n == (if n / 0x8000_0000 == 1 then 0x8000_0000 else 0) + n / 0x80_0000 % 0x100 * 0x80_0000 + n % 0x80_0000
  {
    var q := n / 0x80_0000;
    assert n == q * 0x80_0000 + n % 0x80_0000 && q == q / 0x100 * 0x100 + q % 0x100;
    assert q / 0x100 == n / 0x8000_0000;
  }

  lemma SinglesAreFields(a: seq<byte>, b: seq<byte>)
    requires |a| == |b| == 4
    ensures SingleOf(a) == SingleOf(b) <==> a == b
  {
    hide LittleEndian, U32Of;
    LittleEndianIsExact(a, b);
    WordsAreLittleEndian(a);
    WordsAreLittleEndian(b);
    SingleJoined(U32Of(a));
    SingleJoined(U32Of(b));
  }

  lemma DoubleJoined(n: nat)
    requires n < 0x1_0000_0000_0000_0000
    ensures n == (if n / 0x8000_0000_0000_0000 == 1 then 0x8000_0000_0000_0000 else 0)
                 + n / 0x10_0000_0000_0000 % 0x800 * 0x10_0000_0000_0000 + n % 0x10_0000_0000_0000
  {
    var q := n / 0x10_0000_0000_0000;
    assert n == q * 0x10_0000_0000_0000 + n % 0x10_0000_0000_0000 && q == q / 0x800 * 0x800 + q % 0x800;
    assert q / 0x800 == n / 0x8000_0000_0000_0000;
  }

  lemma DoublesAreFields(a: seq<byte>, b: seq<byte>)
    requires |a| == |b| == 8
    ensures DoubleOf(a) == DoubleOf(b) <==> a == b
  {
    hide LittleEndian;
    LittleEndianIsExact(a, b);
    DoubleIsBelow(a);
    DoubleIsBelow(b);
    DoubleJoined(LittleEndian(a));
    DoubleJoined(LittleEndian(b));
  }

  lemma DoubleIsBelow(a: seq<byte>)
    requires |a| == 8
    ensures LittleEndian(a) < 0x1_0000_0000_0000_0000
  {
    hide LittleEndian;
    assert a == a[..4] + a[4..];
    LittleEndianHalves(a[..4], a[4..]);
    WordsAreLittleEndian(a[..4]);
    WordsAreLittleEndian(a[4..]);
  }

  lemma SingleExactly(a: seq<byte>, b: seq<byte>)
    requires |a| == |b| == 4
    ensures SamePlain(R4, a, b) <==> !HasNaN(Scalar(R4, a)) && PlainCanon(R4, a) == PlainCanon(R4, b)
  {
    hide SingleOf, IsNaN4, IsZero4;
    SingleFields(a);
    SingleFields(b);
    SinglesAreFields(a, b);
  }

  lemma DoubleExactly(a: seq<byte>, b: seq<byte>)
    requires |a| == |b| == 8
    ensures SamePlain(R8, a, b) <==> !HasNaN(Scalar(R8, a)) && PlainCanon(R8, a) == PlainCanon(R8, b)
  {
    hide DoubleOf, IsNaN8, IsZero8;
    DoubleFields(a);
    DoubleFields(b);
    DoublesAreFields(a, b);
  }

  /** The types that are neither floats nor compared in part. */
  lemma NumberExactly(t: Plain, u: Plain, a: seq<byte>, b: seq<byte>)
    requires |a| == |b| == t.Width() && SortOf(t) == SortOf(u) && t.Width() == u.Width()
    requires !t.R4? && !t.R8? && !t.BOOL? && !t.DECIMAL?
    ensures PlainCanon(t, a) == PlainCanon(u, b) <==> a == b
  {
    hide LittleEndian;
    LittleEndianIsExact(a, b);
    SmallNumbers(a, b);
  }

  lemma PlainExactly(t: Plain, u: Plain, a: seq<byte>, b: seq<byte>)
    requires |a| == t.Width() && |b| == u.Width()
    ensures IsEqual(Scalar(t, a), Scalar(u, b))
      <==> !HasNaN(Scalar(t, a)) && PlainCanon(t, a) == PlainCanon(u, b)
  {
    hide LittleEndian, SingleOf, DoubleOf, IsNaN4, IsNaN8, IsZero4, IsZero8, SignedNumber;
    SameSort(t, u);
    if SortOf(t) == SortOf(u) {
      match t
      case R4 =>
        SingleExactly(a, b);
      case R8 =>
        DoubleExactly(a, b);
      case BOOL =>
        LittleEndianIsExact(a, [0, 0]);
        LittleEndianIsExact(b, [0, 0]);
        ZeroBytes();
      case DECIMAL =>
        LittleEndianIsExact(a[2..], b[2..]);
      case _ =>
        NumberExactly(t, u, a, b);
    }
  }

  lemma ZeroBytes()
    ensures LittleEndian([0, 0]) == 0
  {
    var zeros: seq<byte> := [0, 0];
    TwoBytes(zeros);
    EmptyIsZero();
    assert zeros[2..] == [];
  }

  lemma SmallNumbers(a: seq<byte>, b: seq<byte>)
    requires |a| == |b| && |a| in {1, 2, 4, 8}
    ensures forall x <- [a, b] ::
      && (|a| == 1 ==> LittleEndian(x) < 0x100) && (|a| == 2 ==> LittleEndian(x) < 0x1_0000)
      && (|a| == 4 ==> LittleEndian(x) < 0x1_0000_0000) && (|a| == 8 ==> LittleEndian(x) < 0x1_0000_0000_0000_0000)
  {
    forall x | x == a || x == b
      ensures |x| == 1 ==> LittleEndian(x) < 0x100
      ensures |x| == 2 ==> LittleEndian(x) < 0x1_0000
      ensures |x| == 4 ==> LittleEndian(x) < 0x1_0000_0000
      ensures |x| == 8 ==> LittleEndian(x) < 0x1_0000_0000_0000_0000
    {
      if |x| == 1 {
        assert x[1..] == [];
      } else if |x| == 8 {
        DoubleIsBelow(x);
      } else {
        WordsAreLittleEndian(x);
      }
    }
  }

  // Arrays

  lemma {:induction false} CellsExactly(t: Plain, u: Plain, count: nat, a: seq<byte>, b: seq<byte>)
    requires Normal(t) == Normal(u) && |a| == |b| == count * t.Width()
    ensures Normal(t).Width() == t.Width() == u.Width()
    ensures SameCells(Normal(t), count, a, b) <==> CellNumbers(t, count, a) == CellNumbers(u, count, b)
    decreases count
  {
    hide SameCells, CellNumbers, LittleEndian, Normal;
    SameSort(t, u);
    if count == 0 {
      NoCells(t, u, a, b);
    } else {
      var w := t.Width();
      CellsLeft(count, w);
      CellsExactly(t, u, count - 1, a[w..], b[w..]);
      if t.DECIMAL? {
        LittleEndianIsExact(a[2..w], b[2..w]);
      } else {
        LittleEndianIsExact(a[..w], b[..w]);
      }
      OneCell(Normal(t), count, a, b);
      FirstCell(t, u, count, a, b);
    }
  }

  lemma NoCells(t: Plain, u: Plain, a: seq<byte>, b: seq<byte>)
    requires a == b == []
    ensures SameCells(Normal(t), 0, a, b) && CellNumbers(t, 0, a) == CellNumbers(u, 0, b)
  {
  }

  /** Cells are the same if the first ones are and the others are. */
  lemma OneCell(t: Plain, count: nat, a: seq<byte>, b: seq<byte>)
    requires count > 0 && |a| == |b| == count * t.Width()
    ensures var w := t.Width();
      && |a[w..]| == |b[w..]| == (count - 1) * w
      && (SameCells(t, count, a, b)
          <==> (if t.DECIMAL? then a[2..w] == b[2..w] else a[..w] == b[..w]) && SameCells(t, count - 1, a[w..], b[w..]))
  {
    var w := t.Width();
    CellsLeft(count, w);
    if t.DECIMAL? {
      DecimalCells(count, a, b);
    } else {
      assert a == a[..w] + a[w..] && b == b[..w] + b[w..];
    }
  }

  lemma FirstCell(t: Plain, u: Plain, count: nat, a: seq<byte>, b: seq<byte>)
    requires count > 0 && |a| == count * t.Width() && |b| == count * u.Width()
    requires Normal(t) == Normal(u) && t.Width() == u.Width() && (t.DECIMAL? <==> u.DECIMAL?)
    ensures var w := t.Width();
      && |a[w..]| == (count - 1) * w == |b[w..]|
      && (CellNumbers(t, count, a) == CellNumbers(u, count, b)
          <==> && (if t.DECIMAL? then LittleEndian(a[2..w]) == LittleEndian(b[2..w])
                   else LittleEndian(a[..w]) == LittleEndian(b[..w]))
               && CellNumbers(t, count - 1, a[w..]) == CellNumbers(u, count - 1, b[w..]))
  {
    hide LittleEndian;
    var w := t.Width();
    CellsLeft(count, w);
    var x, y := CellNumbers(t, count, a), CellNumbers(u, count, b);
    assert x[1..] == CellNumbers(t, count - 1, a[w..]) && y[1..] == CellNumbers(u, count - 1, b[w..]);
    assert x == [x[0]] + x[1..] && y == [y[0]] + y[1..];
  }

  lemma DecimalCells(count: nat, a: seq<byte>, b: seq<byte>)
    requires count > 0 && |a| == |b| == 16 * count
    ensures SameCells(DECIMAL, count, a, b) <==> a[2..16] == b[2..16] && SameCells(DECIMAL, count - 1, a[16..], b[16..])
  {
    forall i | 1 <= i < count
      ensures a[16 * i + 2..16 * i + 16] == a[16..][16 * (i - 1) + 2..16 * (i - 1) + 16]
      ensures b[16 * i + 2..16 * i + 16] == b[16..][16 * (i - 1) + 2..16 * (i - 1) + 16]
    {
    }
    if SameCells(DECIMAL, count, a, b) {
      assert a[16 * 0 + 2..16 * 0 + 16] == b[16 * 0 + 2..16 * 0 + 16];
      forall i | 0 <= i < count - 1
        ensures a[16..][16 * i + 2..16 * i + 16] == b[16..][16 * i + 2..16 * i + 16]
      {
        assert a[16 * (i + 1) + 2..16 * (i + 1) + 16] == b[16 * (i + 1) + 2..16 * (i + 1) + 16];
      }
    }
    if a[2..16] == b[2..16] && SameCells(DECIMAL, count - 1, a[16..], b[16..]) {
      forall i | 0 <= i < count
        ensures a[16 * i + 2..16 * i + 16] == b[16 * i + 2..16 * i + 16]
      {
        if i > 0 {
          assert a[16..][16 * (i - 1) + 2..16 * (i - 1) + 16] == b[16..][16 * (i - 1) + 2..16 * (i - 1) + 16];
        }
      }
    }
  }

  // Variants

  /** Two variants compare equal exactly if there is no NaN and both stand for the same value. */
  lemma {:induction false} EqualExactly(v: Variant, w: Variant)
    requires v.Valid() && w.Valid()
    ensures IsEqual(v, w) <==> !HasNaN(v) && CanonOf(v) == CanonOf(w)
    decreases v
  {
    match (v, w)
    case (Scalar(t, a), Scalar(u, b)) =>
      PlainExactly(t, u, a, b);
    case (PlainArray(t, m, a), PlainArray(u, n, b)) =>
      ArraysExactly(v, w);
    case (VariantArray(s), VariantArray(t)) =>
      if |s| == |t| {
        forall i | 0 <= i < |s|
          ensures IsEqual(s[i], t[i]) <==> !HasNaN(s[i]) && CanonOf(s[i]) == CanonOf(t[i])
        {
          EqualExactly(s[i], t[i]);
        }
        ListsExactly(s, t);
      } else {
        assert |CanonOf(v).items| != |CanonOf(w).items|;
      }
    case _ =>
  }

  lemma ArraysExactly(v: Variant, w: Variant)
    requires v.PlainArray? && w.PlainArray? && v.Valid() && w.Valid()
    ensures IsEqual(v, w) <==> CanonOf(v) == CanonOf(w)
  {
    hide CellNumbers, SameCells;
    SameSort(v.plain, w.plain);
    if SortOf(v.plain) == SortOf(w.plain) && v.count == w.count {
      CellsExactly(v.plain, w.plain, v.count, v.cells, w.cells);
    }
  }

  lemma ListsExactly(s: seq<Variant>, t: seq<Variant>)
    requires VariantArray(s).Valid() && VariantArray(t).Valid() && |s| == |t|
    requires forall i | 0 <= i < |s| :: IsEqual(s[i], t[i]) <==> !HasNaN(s[i]) && CanonOf(s[i]) == CanonOf(t[i])
    ensures IsEqual(VariantArray(s), VariantArray(t))
      <==> !HasNaN(VariantArray(s)) && CanonOf(VariantArray(s)) == CanonOf(VariantArray(t))
  {
    var a, b := CanonOf(VariantArray(s)).items, CanonOf(VariantArray(t)).items;
    assert forall i | 0 <= i < |s| :: a[i] == CanonOf(s[i]) && b[i] == CanonOf(t[i]);
    if a == b {
      assert forall i | 0 <= i < |s| :: CanonOf(s[i]) == CanonOf(t[i]);
    }
  }
}
