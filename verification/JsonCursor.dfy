/**
  The JSON parser as the original runs it: a cursor moved in loops through a NUL-terminated
  text. Each method is proved to do what the function of its name in JsonParse says.
*/
module JsonCursor {
  import opened Wrappers
  import opened NumberText
  import opened JsonValues
  import opened JsonParse
  import Spec = JsonParse

  /** Eight-bit text without the terminator among its characters. */
  type CText = s: string | forall c <- s :: 0 < c as int < 256

  /**
    The cursor of the original, a `const TChar*&`. Reading the terminator is allowed, as it is
    there; every read of a character is proved to be at the terminator or before it.
  */
  class Cursor {
    const data: CText
    var pos: nat

    constructor (data: CText)
      ensures this.data == data && pos == 0
    {
      this.data := data;
      pos := 0;
    }

    ghost predicate Valid()
      reads this
    {
      pos <= |data|
    }

    /** The text still ahead. */
    ghost function Ahead(): string
      requires Valid()
      reads this
    {
      data[pos..]
    }

    function At(k: nat): (c: char)
      requires pos + k <= |data|
      reads this
      ensures pos + k < |data| ==> c == data[pos + k] && c != '\0'
      ensures pos + k == |data| ==> c == '\0'
    {
      if pos + k < |data| then data[pos + k] else '\0'
    }

    method Advance(n: nat)
      requires pos + n <= |data|
      modifies this
      ensures Valid() && pos == old(pos) + n && Ahead() == old(data[pos..])[n..]
    {
      pos := pos + n;
    }

    method SkipWhitespace() returns (more: bool)
      requires Valid()
      modifies this
      ensures Valid() && Ahead() == SkipBlanks(old(Ahead())) && pos >= old(pos)
      ensures more == (Ahead() != [])
      ensures forall k :: old(pos) <= k < pos ==> data[k] as int in {0x20, 0x09, 0x0A, 0x0D}
      ensures pos < |data| ==> data[pos] as int !in {0x20, 0x09, 0x0A, 0x0D}
    {
      while At(0) == ' ' || At(0) == '\n' || At(0) == '\r' || At(0) == '\t'
        invariant Valid() && pos >= old(pos)
        invariant forall k :: old(pos) <= k < pos ==> data[k] as int in {0x20, 0x09, 0x0A, 0x0D}
        invariant SkipBlanks(Ahead()) == SkipBlanks(old(Ahead()))
        decreases |data| - pos
      {
        Advance(1);
      }
      more := At(0) != '\0';
    }

    /** Checks the four digits of \u; the cursor stays on the last one. */
    method HexDigits() returns (ok: bool)
      requires pos < |data|
      modifies this
      ensures pos < |data| && pos >= old(pos)
      ensures ok == (old(pos) + 4 < |data| && forall k :: old(pos) < k <= old(pos) + 4 ==> IsHex(data[k]))
      ensures ok ==> pos == old(pos) + 4
    {
      var i := 0;
      while i < 4
        invariant 0 <= i <= 4 && pos == old(pos) + i && pos < |data|
        invariant forall k :: old(pos) < k <= pos ==> IsHex(data[k])
      {
        if !IsHex(At(1)) {
          return false;
        }
        Advance(1);
        i := i + 1;
      }
      ok := true;
    }

    /** The escape sequence under the cursor is left with the cursor behind it. */
    method Escaped() returns (ok: bool)
      requires pos < |data| && data[pos] == '\\'
      modifies this
      ensures Valid() && pos >= old(pos)
      ensures ok == (UnitLength(old(Ahead())) > 0)
      ensures ok ==> pos == old(pos) + UnitLength(old(Ahead()))
    {
      ghost var s := Ahead();
      Advance(1);
      assert s[0] == '\\' && (pos < |data| ==> s[1] == data[pos]);
      if IsEscape(At(0)) {
        Advance(1);
        return true;
      }
      if At(0) != 'u' {
        return false;
      }
      ghost var p := pos;
      ok := HexDigits();
      assert p + 4 < |data| ==> s[2] == data[p + 1] && s[3] == data[p + 2] && s[4] == data[p + 3] && s[5] == data[p + 4];
      if ok {
        Advance(1);
      }
    }

    /** Leaves the cursor behind the closing quote; the raw text before it is returned. */
    method ExtractString() returns (str: Option<string>)
      requires Valid()
      modifies this
      ensures Valid() && pos >= old(pos)
      ensures str.None? == Spec.ExtractString(old(Ahead())).None?
      ensures str.Some? ==> Spec.ExtractString(old(Ahead())) == Some(Scanned(str.value, Ahead()))
    {
      hide Spec.ExtractString, UnitLength, Behind;
      var start := pos;
      ghost var target := Spec.ExtractString(Ahead());
      BehindNothing(target);
      assert data[start..pos] == [];
      while At(0) != '\0'
        invariant Valid() && start <= pos
        invariant target == Behind(data[start..pos], Spec.ExtractString(Ahead()))
        decreases |data| - pos
      {
        ghost var p, s := pos, Ahead();
        var next := At(0);
        assert s != [] && s[0] == next;
        ScanStep(data[start..p], s);
        if next == '\\' {
          var ok := Escaped();
          if !ok {
            return None;
          }
        } else if next == '"' {
          str := Some(data[start..pos]);
          Advance(1);
          return;
        } else if next < ' ' && next != '\t' {
          return None;
        } else {
          Advance(1);
        }
        SplitSlice(data, start, p, pos);
      }
      ScanStep(data[start..pos], Ahead());
      str := None;
    }

    /** Moves over digits; the value a fraction's digits have is not part of this model. */
    method SkipNumberDigits()
      requires Valid()
      modifies this
      ensures Valid() && pos >= old(pos) && Ahead() == SkipDigits(old(Ahead()))
    {
      while '0' <= At(0) <= '9'
        invariant Valid() && pos >= old(pos) && SkipDigits(Ahead()) == SkipDigits(old(Ahead()))
        decreases |data| - pos
      {
        Advance(1);
      }
    }

    /** The integer part; None if there is no digit. */
    method Whole() returns (x: Option<nat>)
      requires Valid()
      modifies this
      ensures Valid() && pos >= old(pos)
      ensures x.None? == !StartsWithDigit(old(Ahead()))
      ensures x.Some? ==> pos > old(pos) && ReadWhole(old(Ahead())) == Parsed(x.value, Ahead())
    {
      hide ReadDigits;
      ghost var s := Ahead();
      assert At(0) != '\0' ==> s[0] == At(0);
      if At(0) == '0' {
        Advance(1);
        x := Some(0);
      } else if '1' <= At(0) <= '9' {
        var u, end := ReadUnsigned(data, pos, Bits64);
        assert |data[end..]| < |s| by { assert |ReadWhole(s).rest| < |s|; }
        pos := end;
        x := Some(u);
      } else {
        x := None;
      }
    }

    /** Moves over a fraction, if one is next; false if it has no digit. */
    method Fraction() returns (ok: bool)
      requires Valid()
      modifies this
      ensures Valid() && pos >= old(pos)
      ensures ok == SkipFraction(old(Ahead())).Some?
      ensures ok ==> SkipFraction(old(Ahead())) == Some(Ahead())
    {
      hide SkipDigits;
      assert At(0) != '\0' ==> Ahead()[0] == At(0);
      if At(0) != '.' {
        return true;
      }
      Advance(1);
      assert At(0) != '\0' ==> Ahead()[0] == At(0);
      ok := IsDigit(At(0));
      if ok {
        SkipNumberDigits();
      }
    }

    /** Moves over an exponent, if one is next; false if it has no digit. */
    method Exponent() returns (ok: bool)
      requires Valid()
      modifies this
      ensures Valid() && pos >= old(pos)
      ensures ok == SkipExponent(old(Ahead())).Some?
      ensures ok ==> SkipExponent(old(Ahead())) == Some(Ahead())
    {
      hide SkipDigits;
      assert At(0) != '\0' ==> Ahead()[0] == At(0);
      if At(0) != 'E' && At(0) != 'e' {
        return true;
      }
      Advance(1);
      Sign();
      assert At(0) != '\0' ==> Ahead()[0] == At(0);
      ok := IsDigit(At(0));
      if ok {
        SkipNumberDigits();
      }
    }

    method Sign()
      requires Valid()
      modifies this
      ensures Valid() && pos >= old(pos) && Ahead() == SkipSign(old(Ahead()))
    {
      assert At(0) != '\0' ==> Ahead()[0] == At(0);
      if At(0) == '-' || At(0) == '+' {
        Advance(1);
      }
    }

    method ParseNumber() returns (v: Option<JValue>)
      requires pos < |data| && (data[pos] == '-' || IsDigit(data[pos]))
      modifies this
      ensures Valid() && pos >= old(pos)
      ensures v.None? == Spec.ParseNumber(old(Ahead())).None?
      ensures v.Some? ==> Spec.ParseNumber(old(Ahead())) == Some(Step(v.value, Ahead()))
    {
      hide ReadWhole, SkipFraction, SkipExponent, Word.Negated;
      ghost var s := Ahead();
      var start := pos;
      var neg := At(0) == '-';
      if neg {
        Advance(1);
      }
      var magnitude := Whole();
      if magnitude == None {
        return None;
      }
      ghost var rest := Ahead();
      assert At(0) != '\0' ==> rest[0] == At(0);
      if At(0) != '.' && At(0) != 'e' && At(0) != 'E' {
        return Some(Integer(neg, magnitude.value));
      }
      var ok := Fraction();
      if !ok {
        return None;
      }
      ok := Exponent();
      if !ok {
        return None;
      }
      v := Some(Number(data[start..pos]));
      assert s[..|s| - |Ahead()|] == data[start..pos];
    }

    /** Moves over a keyword if it is next. */
    method Keyword(word: string) returns (ok: bool)
      requires Valid() && '\0' !in word
      modifies this
      ensures Valid() && pos >= old(pos) && ok == (word <= old(Ahead()))
      ensures Ahead() == if ok then old(Ahead())[|word|..] else old(Ahead())
    {
      var i := 0;
      while i < |word|
        invariant 0 <= i <= |word| && pos + i <= |data| && forall k :: 0 <= k < i ==> Ahead()[k] == word[k]
      {
        if At(i) != word[i] {
          assert pos + i < |data| ==> Ahead()[i] == data[pos + i];
          return false;
        }
        i := i + 1;
      }
      assert Ahead()[..i] == word;
      Advance(i);
      ok := true;
    }

    /** One of the three keywords, if it is next. */
    method ParseKeyword() returns (v: Option<JValue>)
      requires Valid() && Ahead() != [] && Ahead()[0] != '"'
      modifies this
      ensures Valid() && pos >= old(pos)
      ensures v.None? ==> pos == old(pos) && Ahead() == old(Ahead())
      ensures v.None? <==> !("false" <= old(Ahead()) || "true" <= old(Ahead()) || "null" <= old(Ahead()))
      ensures v.Some? ==> pos > old(pos) && ParseValue(old(Ahead())) == Some(Step(v.value, Ahead()))
    {
      hide Spec.ExtractString, Spec.ParseNumber, ParseElements, ParseMembers;
      var ok := Keyword("false");
      if ok {
        return Some(Bool(false));
      }
      ok := Keyword("true");
      if ok {
        return Some(Bool(true));
      }
      ok := Keyword("null");
      v := if ok then Some(Null) else None;
    }

    method ParseStr() returns (v: Option<JValue>)
      requires Valid()
      modifies this
      ensures Valid() && pos >= old(pos)
      ensures v.None? == ParseValue(old(Ahead())).None?
      ensures v.Some? ==> pos > old(pos) && ParseValue(old(Ahead())) == Some(Step(v.value, Ahead()))
      decreases |data| - pos, 0
    {
      hide Spec.ExtractString, Spec.ParseNumber, ParseElements, ParseMembers;
      ghost var s := Ahead();
      if At(0) == '\0' {
        return None;
      }
      var c := At(0);
      assert s[0] == c;
      if c == '"' {
        Advance(1);
        var str := ExtractString();
        return if str.Some? then Some(Text(str.value)) else None;
      }
      v := ParseKeyword();
      if v.Some? {
        return;
      }
      if c == '-' || IsDigit(c) {
        v := ParseNumber();
      } else if c == '{' {
        Advance(1);
        v := ParseObject();
      } else if c == '[' {
        Advance(1);
        v := ParseArray();
      } else {
        v := None;
      }
    }

    /** The loop behind an opening bracket. */
    method ParseArray() returns (v: Option<JValue>)
      requires Valid()
      modifies this
      ensures Valid() && pos >= old(pos)
      ensures v.None? == ParseElements(old(Ahead()), []).None?
      ensures v.Some? ==> ParseElements(old(Ahead()), []) == Some(Step(v.value, Ahead()))
      decreases |data| - pos, 1
    {
      hide SkipBlanks, ParseValue;
      var got: seq<JValue> := [];
      while At(0) != '\0'
        invariant Valid() && pos >= old(pos)
        invariant ParseElements(Ahead(), got) == ParseElements(old(Ahead()), [])
        decreases |data| - pos
      {
        NothingLeft();
        var more := SkipWhitespace();
        if !more {
          return None;
        }
        if |got| == 0 && At(0) == ']' {
          Advance(1);
          return Some(Array([]));
        }
        var value := ParseStr();
        if value == None {
          return None;
        }
        more := SkipWhitespace();
        if !more {
          return None;
        }
        if At(0) == ']' {
          Advance(1);
          return Some(Array(got + [value.value]));
        }
        if At(0) != ',' {
          return None;
        }
        got := got + [value.value];
        Advance(1);
      }
      NothingLeft();
      v := None;
    }

    /** A key up to the value behind its colon. */
    method ParseKey() returns (name: Option<string>)
      requires Valid()
      modifies this
      ensures Valid() && pos >= old(pos)
      ensures name.None? ==>
        old(Ahead()) == [] || Spec.ParseKey(old(Ahead())).None? || Spec.ParseKey(old(Ahead())).value.rest == []
      ensures name.Some? ==> pos > old(pos) && Spec.ParseKey(old(Ahead())) == Some(Scanned(name.value, Ahead()))
    {
      hide SkipBlanks, Spec.ExtractString;
      if At(0) != '"' {
        return None;
      }
      Advance(1);
      name := ExtractString();
      if name == None {
        return;
      }
      var more := SkipWhitespace();
      if !more || At(0) != ':' {
        return None;
      }
      Advance(1);
      more := SkipWhitespace();
      if !more {
        return None;
      }
    }

    /** The loop behind an opening brace. */
    method ParseObject() returns (v: Option<JValue>)
      requires Valid()
      modifies this
      ensures Valid() && pos >= old(pos)
      ensures v.None? == ParseMembers(old(Ahead()), []).None?
      ensures v.Some? ==> ParseMembers(old(Ahead()), []) == Some(Step(v.value, Ahead()))
      decreases |data| - pos, 1
    {
      hide SkipBlanks, ParseValue, Spec.ParseKey, Put;
      var got: seq<Member> := [];
      while At(0) != '\0'
        invariant Valid() && pos >= old(pos)
        invariant ParseMembers(Ahead(), got) == ParseMembers(old(Ahead()), [])
        decreases |data| - pos
      {
        NothingLeft();
        var more := SkipWhitespace();
        if !more {
          return None;
        }
        if |got| == 0 && At(0) == '}' {
          Advance(1);
          return Some(Object([]));
        }
        var name := ParseKey();
        if name == None {
          return None;
        }
        var value := ParseStr();
        if value == None {
          return None;
        }
        var members := Put(got, Member(name.value, value.value));
        more := SkipWhitespace();
        if !more {
          return None;
        }
        if At(0) == '}' {
          Advance(1);
          return Some(Object(members));
        }
        if At(0) != ',' {
          return None;
        }
        got := members;
        Advance(1);
      }
      NothingLeft();
      v := None;
    }
  }

  /** No text, no value. */
  lemma NothingLeft()
    ensures ParseValue([]) == None && SkipBlanks([]) == [] && Spec.ParseKey([]) == None
  {
  }

  /** Parses a whole text. */
  method Parse(data: CText) returns (v: Option<JValue>)
    ensures v == Spec.Parse(data)
  {
    hide SkipBlanks, ParseValue;
    NothingLeft();
    var cursor := new Cursor(data);
    assert cursor.Ahead() == data;
    var more := cursor.SkipWhitespace();
    if !more {
      return None;
    }
    v := cursor.ParseStr();
    if v == None {
      return;
    }
    more := cursor.SkipWhitespace();
    if more {
      v := None;
    }
  }

  lemma SplitSlice(s: string, start: nat, p: nat, q: nat)
    requires start <= p <= q <= |s|
    ensures s[start..q] == s[start..p] + s[p..][..q - p] && s[p..][q - p..] == s[q..]
  {
  }

  /** What the text ahead of the cursor makes of a string of which `raw` is read. */
  lemma ScanStep(raw: string, s: string)
    ensures s == [] ==> Behind(raw, Spec.ExtractString(s)) == None
    ensures s != [] && s[0] == '"' ==> Behind(raw, Spec.ExtractString(s)) == Some(Scanned(raw, s[1..]))
    ensures s != [] && s[0] != '"' ==>
      Behind(raw, Spec.ExtractString(s)) ==
        if UnitLength(s) == 0 then None
        else Behind(raw + s[..UnitLength(s)], Spec.ExtractString(s[UnitLength(s)..]))
    ensures s != [] && s[0] != '\\' ==> UnitLength(s) == if IsPlain(s[0]) then 1 else 0
  {
    hide UnitLength;
    if s != [] && s[0] == '"' {
      assert raw + [] == raw;
    } else if s != [] && UnitLength(s) > 0 {
      var n := UnitLength(s);
      BehindBehind(raw, s[..n], Spec.ExtractString(s[n..]));
    }
    PlainLength(s);
  }

  lemma PlainLength(s: string)
    ensures s != [] && s[0] != '\\' ==> UnitLength(s) == if IsPlain(s[0]) then 1 else 0
  {
  }

  ghost function Behind(raw: string, r: Option<Scanned>): Option<Scanned> {
    if r.None? then None else Some(Scanned(raw + r.value.raw, r.value.rest))
  }

  lemma BehindNothing(r: Option<Scanned>)
    ensures Behind([], r) == r
  {
    if r.Some? {
      assert [] + r.value.raw == r.value.raw;
    }
  }

  lemma BehindBehind(a: string, b: string, r: Option<Scanned>)
    ensures Behind(a, Behind(b, r)) == Behind(a + b, r)
  {
    if r.Some? {
      assert a + (b + r.value.raw) == a + b + r.value.raw;
    }
  }
}
