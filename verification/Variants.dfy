/**
  The variants that travel between peers: the supported cases of tagVARIANT
  (include/linux_win.h) with their payload as raw little-endian memory, and the recursive
  comparison of include/spvariant.h.
*/
module Variants {
  import opened Bytes
  import opened Wrappers

  /** Element types stored as plain memory. */
  datatype Plain = I1 | UI1 | I2 | UI2 | I4 | UI4 | I8 | UI8 | INT | UINT | R4 | R8 | CY | DATE | BOOL | DECIMAL {
    function Code(): (c: uint16)
      ensures 2 <= c <= 23 && c != VT_BSTR && c != VT_VARIANT
    {
      match this
      case I2 => 2
      case I4 => 3
      case R4 => 4
      case R8 => 5
      case CY => 6
      case DATE => 7
      case BOOL => 11
      case DECIMAL => 14
      case I1 => 16
      case UI1 => 17
      case UI2 => 18
      case UI4 => 19
      case I8 => 20
      case UI8 => 21
      case INT => 22
      case UINT => 23
    }

    function Width(): (w: nat)
      ensures 1 <= w <= 16
    {
      match this
      case I1 => 1
      case UI1 => 1
      case I2 => 2
      case UI2 => 2
      case BOOL => 2
      case I4 => 4
      case UI4 => 4
      case INT => 4
      case UINT => 4
      case R4 => 4
      case I8 => 8
      case UI8 => 8
      case R8 => 8
      case CY => 8
      case DATE => 8
      case DECIMAL => 16
    }
  }

  const VT_EMPTY: uint16 := 0
  const VT_NULL: uint16 := 1
  const VT_BSTR: uint16 := 8
  const VT_VARIANT: uint16 := 12
  const VT_CLSID: uint16 := 72
  const VT_ARRAY: uint16 := 0x2000

  /** The plain type with a given code, if there is one. */
  function PlainOf(code: uint16): (r: Option<Plain>)
    ensures r.Some? ==> r.value.Code() == code
  {
    match code
    case 2 => Some(I2)
    case 3 => Some(I4)
    case 4 => Some(R4)
    case 5 => Some(R8)
    case 6 => Some(CY)
    case 7 => Some(DATE)
    case 11 => Some(BOOL)
    case 14 => Some(DECIMAL)
    case 16 => Some(I1)
    case 17 => Some(UI1)
    case 18 => Some(UI2)
    case 19 => Some(UI4)
    case 20 => Some(I8)
    case 21 => Some(UI8)
    case 22 => Some(INT)
    case 23 => Some(UINT)
    case _ => None
  }

  lemma PlainOfCode(t: Plain)
    ensures PlainOf(t.Code()) == Some(t)
  {
  }

  /** The type codes as they stand on the wire. */
  lemma CodesAndWidths()
    ensures I2.Code() == 2 && I4.Code() == 3 && R4.Code() == 4 && R8.Code() == 5 && CY.Code() == 6 && DATE.Code() == 7
    ensures BOOL.Code() == 11 && DECIMAL.Code() == 14 && I1.Code() == 16 && UI1.Code() == 17 && UI2.Code() == 18
    ensures UI4.Code() == 19 && I8.Code() == 20 && UI8.Code() == 21 && INT.Code() == 22 && UINT.Code() == 23
    ensures VT_EMPTY == 0 && VT_NULL == 1 && VT_BSTR == 8 && VT_VARIANT == 12 && VT_CLSID == 72 && VT_ARRAY == 0x2000
    ensures I1.Width() == UI1.Width() == 1 && I2.Width() == UI2.Width() == BOOL.Width() == 2
    ensures I4.Width() == UI4.Width() == INT.Width() == UINT.Width() == R4.Width() == 4
    ensures I8.Width() == UI8.Width() == R8.Width() == CY.Width() == DATE.Width() == 8 && DECIMAL.Width() == 16
  {
  }

  /** A non-null BSTR: a text of 16-bit units that ends at its first null unit. */
  type Text = s: seq<uint16> | 0 !in s

  datatype Variant =
    | Empty
    | Null
    | Scalar(plain: Plain, raw: seq<byte>)
    | Bstr(text: Option<Text>)
    | PlainArray(plain: Plain, count: nat, cells: seq<byte>)
    | BstrArray(texts: seq<Option<Text>>)
    | VariantArray(items: seq<Variant>)
  {
    /** Memory of the right size, and sizes in bytes that fit in 32 bits. */
    ghost predicate Valid() {
      match this
      case Empty => true
      case Null => true
      case Scalar(plain, raw) => |raw| == plain.Width()
      case Bstr(text) => ShortText(text)
      case PlainArray(plain, count, cells) => |cells| == count * plain.Width() && |cells| <= MAX_UINT32
      case BstrArray(texts) => |texts| <= MAX_UINT32 && forall t <- texts :: ShortText(t)
      case VariantArray(items) => |items| <= MAX_UINT32 && forall v <- items :: v.Valid()
    }
  }

  ghost predicate ShortText(text: Option<Text>) {
    text.Some? ==> 2 * |text.value| <= MAX_UINT32
  }

  // Comparison

  /** Whether the four bytes of a float are a NaN. */
  predicate IsNaN4(raw: seq<byte>)
    requires |raw| == 4
  {
    var bits := U32Of(raw);
    bits / 0x80_0000 % 0x100 == 0xFF && bits % 0x80_0000 != 0
  }

  /** Whether the eight bytes of a double are a NaN. */
  predicate IsNaN8(raw: seq<byte>)
    requires |raw| == 8
  {
    var low, high := U32Of(raw[..4]), U32Of(raw[4..]);
    high / 0x10_0000 % 0x800 == 0x7FF && (high % 0x10_0000 != 0 || low != 0)
  }

  predicate IsZero4(raw: seq<byte>)
    requires |raw| == 4
  {
    U32Of(raw) % 0x8000_0000 == 0
  }

  predicate IsZero8(raw: seq<byte>)
    requires |raw| == 8
  {
    U32Of(raw[..4]) == 0 && U32Of(raw[4..]) % 0x8000_0000 == 0
  }

  /** INT and UINT compare as I4 and UI4. */
  function Normal(t: Plain): Plain {
    match t
    case INT => I4
    case UINT => UI4
    case _ => t
  }

  /** How two values of one plain type compare; a DECIMAL leaves its reserved field out. */
  predicate SamePlain(t: Plain, a: seq<byte>, b: seq<byte>)
    requires |a| == |b| == t.Width()
  {
    match t
    case R4 => !IsNaN4(a) && !IsNaN4(b) && (a == b || (IsZero4(a) && IsZero4(b)))
    case R8 => !IsNaN8(a) && !IsNaN8(b) && (a == b || (IsZero8(a) && IsZero8(b)))
    case BOOL => (a != [0, 0]) == (b != [0, 0])
    case DECIMAL => a[2..] == b[2..]
    case _ => a == b
  }

  /** Arrays of plain memory compare as memory, except that a DECIMAL leaves its reserved field out. */
  predicate SameCells(t: Plain, count: nat, a: seq<byte>, b: seq<byte>)
    requires |a| == |b| == count * t.Width()
  {
    if t.DECIMAL? then forall i | 0 <= i < count :: a[16 * i + 2..16 * i + 16] == b[16 * i + 2..16 * i + 16]
    else a == b
  }

  predicate IsEqual(v: Variant, w: Variant)
    requires v.Valid() && w.Valid()
    decreases v
  {
    match (v, w)
    case (Empty, Empty) => true
    case (Null, Null) => true
    case (Scalar(t, a), Scalar(u, b)) => Normal(t) == Normal(u) && SamePlain(Normal(t), a, b)
    case (Bstr(s), Bstr(t)) => s == t
    case (PlainArray(t, m, a), PlainArray(u, n, b)) =>
      Normal(t) == Normal(u) && m == n && SameCells(Normal(t), m, a, b)
    case (BstrArray(s), BstrArray(t)) => s == t
    case (VariantArray(s), VariantArray(t)) =>
      |s| == |t| && forall i | 0 <= i < |s| :: IsEqual(s[i], t[i])
    case _ => false
  }

  /** The fields of an IEEE 754 number. */
  datatype Floating = Floating(negative: bool, exponent: nat, fraction: nat)

  function SingleOf(raw: seq<byte>): Floating
    requires |raw| == 4
  {
    var bits := LittleEndian(raw);
    Floating(bits / 0x8000_0000 == 1, bits / 0x80_0000 % 0x100, bits % 0x80_0000)
  }

  function DoubleOf(raw: seq<byte>): Floating
    requires |raw| == 8
  {
    var bits := LittleEndian(raw);
    Floating(bits / 0x8000_0000_0000_0000 == 1, bits / 0x10_0000_0000_0000 % 0x800, bits % 0x10_0000_0000_0000)
  }

  /** Whether a float or double outside plain arrays is a NaN: all bits of the exponent, and some of the fraction. */
  predicate HasNaN(v: Variant)
    requires v.Valid()
  {
    match v
    case Scalar(R4, raw) => SingleOf(raw).exponent == 0xFF && SingleOf(raw).fraction != 0
    case Scalar(R8, raw) => DoubleOf(raw).exponent == 0x7FF && DoubleOf(raw).fraction != 0
    case VariantArray(items) => exists i | 0 <= i < |items| :: HasNaN(items[i])
    case _ => false
  }

  lemma SingleFields(raw: seq<byte>)
    requires |raw| == 4
    ensures var f := SingleOf(raw);
      && (IsNaN4(raw) <==> f.exponent == 0xFF && f.fraction != 0)
      && (IsZero4(raw) <==> f.exponent == 0 && f.fraction == 0)
  {
    hide LittleEndian, U32Of;
    WordsAreLittleEndian(raw);
    LowFields(U32Of(raw));
  }

  lemma LowFields(n: nat)
    requires n < 0x1_0000_0000
    ensures n % 0x8000_0000 == 0 <==> n / 0x80_0000 % 0x100 == 0 && n % 0x80_0000 == 0
  {
    var q, r := n / 0x80_0000, n % 0x80_0000;
    assert n == q * 0x80_0000 + r && q == q / 0x100 * 0x100 + q % 0x100;
    assert n % 0x8000_0000 == q % 0x100 * 0x80_0000 + r;
  }

  lemma DoubleFields(raw: seq<byte>)
    requires |raw| == 8
    ensures var f := DoubleOf(raw);
      && (IsNaN8(raw) <==> f.exponent == 0x7FF && f.fraction != 0)
      && (IsZero8(raw) <==> f.exponent == 0 && f.fraction == 0)
  {
    hide LittleEndian, U32Of;
    var low, high: nat := U32Of(raw[..4]), U32Of(raw[4..]);
    WordsAreLittleEndian(raw[..4]);
    WordsAreLittleEndian(raw[4..]);
    assert raw == raw[..4] + raw[4..];
    LittleEndianHalves(raw[..4], raw[4..]);
    HighFields(low, high);
  }

  lemma HighFields(low: nat, high: nat)
    requires low < 0x1_0000_0000
    ensures var bits := low + 0x1_0000_0000 * high;
      && bits / 0x10_0000_0000_0000 == high / 0x10_0000
      && bits % 0x10_0000_0000_0000 == low + 0x1_0000_0000 * (high % 0x10_0000)
  {
    var q, r := high / 0x10_0000, high % 0x10_0000;
    assert low + 0x1_0000_0000 * high == q * 0x10_0000_0000_0000 + (low + 0x1_0000_0000 * r);
  }

  /** A variant equals itself exactly when it holds no NaN. */
  lemma {:induction false} EqualToItself(v: Variant)
    requires v.Valid()
    ensures IsEqual(v, v) <==> !HasNaN(v)
  {
    hide IsNaN4, IsNaN8, SingleOf, DoubleOf;
    match v
    case Scalar(R4, raw) =>
      SingleFields(raw);
    case Scalar(R8, raw) =>
      DoubleFields(raw);
    case VariantArray(items) =>
      forall i | 0 <= i < |items|
        ensures IsEqual(items[i], items[i]) <==> !HasNaN(items[i])
      {
        EqualToItself(items[i]);
      }
    case _ =>
  }

  lemma {:induction false} EqualBothWays(v: Variant, w: Variant)
    requires v.Valid() && w.Valid()
    ensures IsEqual(v, w) == IsEqual(w, v)
  {
    match (v, w)
    case (VariantArray(s), VariantArray(t)) =>
      if |s| == |t| {
        forall i | 0 <= i < |s|
          ensures IsEqual(s[i], t[i]) == IsEqual(t[i], s[i])
        {
          EqualBothWays(s[i], t[i]);
        }
      }
    case _ =>
  }

  /** Compares arrays of plain memory: element by element for DECIMAL, else at one stroke after the first look. */
  method CompareCells(t: Plain, count: nat, a: seq<byte>, b: seq<byte>) returns (equal: bool)
    requires |a| == |b| == count * t.Width()
    ensures equal == SameCells(t, count, a, b)
  {
    var fixed := false;
    equal := true;
    var n := 0;
    while n < count && equal && !fixed
      invariant n <= count
      invariant fixed ==> !t.DECIMAL? && equal
      invariant !fixed && n > 0 ==> t.DECIMAL?
      invariant t.DECIMAL? && equal ==> forall i :: 0 <= i < n ==> a[16 * i + 2..16 * i + 16] == b[16 * i + 2..16 * i + 16]
      invariant !equal ==> !SameCells(t, count, a, b)
      decreases count - n, !fixed
    {
      if t == DECIMAL {
        equal := a[16 * n + 2..16 * n + 16] == b[16 * n + 2..16 * n + 16];
        n := n + 1;
      } else {
        fixed := true;
      }
    }
    if equal && fixed {
      equal := a == b;
    }
  }

  method CompareTexts(s: seq<Option<Text>>, t: seq<Option<Text>>) returns (equal: bool)
    ensures equal == (s == t)
  {
    if |s| != |t| {
      return false;
    }
    equal := true;
    var n := 0;
    while n < |s| && equal
      invariant n <= |s|
      invariant equal ==> s[..n] == t[..n]
      invariant !equal ==> s != t
    {
      equal := CompareText(s[n], t[n]);
      n := n + 1;
    }
  }

  method CompareText(s: Option<Text>, t: Option<Text>) returns (equal: bool)
    ensures equal == (s == t)
  {
    if s.None? && t.None? {
      return true;
    }
    if s.None? || t.None? {
      return false;
    }
    if |s.value| != |t.value| {
      return false;
    }
    equal := s.value == t.value;
  }

  /** The comparison as its loops run it, with one verdict that ends a loop as soon as it turns false. */
  method CompareVariants(v: Variant, w: Variant) returns (equal: bool)
    requires v.Valid() && w.Valid()
    ensures equal == IsEqual(v, w)
    decreases v
  {
    match (v, w)
    case (Empty, Empty) =>
      equal := true;
    case (Null, Null) =>
      equal := true;
    case (VariantArray(s), VariantArray(t)) =>
      if |s| != |t| {
        return false;
      }
      equal := true;
      var n := 0;
      while n < |s| && equal
        invariant n <= |s|
        invariant equal ==> forall i :: 0 <= i < n ==> IsEqual(s[i], t[i])
        invariant !equal ==> exists i :: 0 <= i < n && !IsEqual(s[i], t[i])
        decreases |s| - n
      {
        equal := CompareVariants(s[n], t[n]);
        n := n + 1;
      }
    case (BstrArray(s), BstrArray(t)) =>
      equal := CompareTexts(s, t);
    case (PlainArray(t, m, a), PlainArray(u, k, b)) =>
      if Normal(t) != Normal(u) || m != k {
        return false;
      }
      equal := CompareCells(Normal(t), m, a, b);
    case (Bstr(s), Bstr(t)) =>
      equal := CompareText(s, t);
    case (Scalar(t, a), Scalar(u, b)) =>
      equal := Normal(t) == Normal(u) && SamePlain(Normal(t), a, b);
    case _ =>
      equal := false;
  }
}
