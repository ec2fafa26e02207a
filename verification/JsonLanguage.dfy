/**
  Exactly the derivable texts are accepted: every text the parser of include/jsonvalue.h
  accepts has a derivation tree, whose value is the parser's result.
*/
module JsonLanguage {
  import opened Wrappers
  import opened NumberText
  import opened JsonValues
  import opened JsonParse
  import opened JsonGrammar

  lemma {:induction false} BlanksSkipped(s: string) returns (b: string)
    ensures Blanks(b) && s == b + SkipBlanks(s)
  {
    if s != [] && IsBlank(s[0]) {
      var b' := BlanksSkipped(s[1..]);
      b := [s[0]] + b';
      assert s == b + SkipBlanks(s);
    } else {
      b := [];
      assert s == [] + s;
    }
  }

  lemma {:induction false} UnitsExtracted(s: string) returns (units: seq<string>)
    requires ExtractString(s).Some?
    ensures var r := ExtractString(s).value;
      Units(units) && Raw(units) == r.raw && s == WriteUnits(units, "\"" + r.rest)
    decreases |s|
  {
    hide UnitLength, IsUnit, StringUnit;
    var r := ExtractString(s).value;
    if s[0] == '"' {
      units := [];
      assert s == "\"" + s[1..];
    } else {
      var n := UnitLength(s);
      var more := UnitsExtracted(s[n..]);
      units := [s[..n]] + more;
      UnitsAgree(s[..n]);
      assert units[1..] == more && s == s[..n] + s[n..];
    }
  }

  lemma {:induction false} DigitsSkipped(s: string) returns (ds: string)
    ensures AllDigits(ds) && s == ds + SkipDigits(s)
    ensures StartsWithDigit(s) ==> SomeDigits(ds) && ds[0] == s[0]
  {
    if StartsWithDigit(s) {
      var more := DigitsSkipped(s[1..]);
      ds := [s[0]] + more;
      assert s == [s[0]] + s[1..];
    } else {
      ds := [];
      assert s == [] + s;
    }
  }

  lemma WholeRead(s: string) returns (whole: string)
    requires StartsWithDigit(s)
    ensures IsWhole(whole) && AllDigits(whole) && s == whole + ReadWhole(s).rest
    ensures ReadWhole(s).value == Bits64.Wrap(ValueOf(whole))
  {
    hide ReadDigits, SkipDigits;
    if s[0] == '0' {
      whole := "0";
      assert s == "0" + s[1..];
      assert ValueOf("0") == 0 by { assert "0"[..0] == []; }
    } else {
      whole := DigitsSkipped(s);
      var rest := SkipDigits(s);
      assert StopsDigits(rest);
      ReadsDigits([], whole, rest, Bits64);
      assert [] + whole == whole && ValueOf([]) == 0;
    }
  }

  lemma FractionSkipped(s: string) returns (f: string)
    requires SkipFraction(s).Some?
    ensures IsFraction(f) && s == f + SkipFraction(s).value
  {
    hide SkipDigits;
    if StartsWith(s, '.') {
      var ds := DigitsSkipped(s[1..]);
      f := "." + ds;
      assert f[1..] == ds && s == "." + s[1..];
    } else {
      f := [];
      assert s == [] + s;
    }
  }

  lemma SignSkipped(s: string) returns (sign: string)
    ensures sign == [] || sign == "-" || sign == "+"
    ensures s == sign + SkipSign(s)
  {
    sign := s[..|s| - |SkipSign(s)|];
  }

  lemma ExponentSkipped(s: string) returns (e: string)
    requires SkipExponent(s).Some?
    ensures IsExponent(e) && s == e + SkipExponent(s).value
  {
    hide SkipDigits, SkipSign, IsExponent;
    if StartsExponent(s) {
      var sign := SignSkipped(s[1..]);
      var rest := SkipSign(s[1..]);
      var ds := DigitsSkipped(rest);
      e := [s[0]] + (sign + ds);
      SignedDigitsAreSkipped(s[0], sign, ds);
      assert s == [s[0]] + s[1..];
      assert (sign + ds) + SkipDigits(rest) == sign + (ds + SkipDigits(rest));
      assert e + SkipDigits(rest) == [s[0]] + ((sign + ds) + SkipDigits(rest));
    } else {
      e := [];
      assert IsExponent(e) by { EmptyParts(); }
      assert s == [] + s;
    }
  }

  lemma SignedDigitsAreSkipped(c: char, sign: string, ds: string)
    requires (c == 'e' || c == 'E') && (sign == [] || sign == "-" || sign == "+") && SomeDigits(ds)
    ensures IsExponent([c] + (sign + ds))
  {
    var e := [c] + (sign + ds);
    assert e[1..] == sign + ds;
    assert ds[0] in ds;
    if sign == [] {
      assert e[1..] == ds;
    } else {
      assert e[2..] == ds;
    }
  }

  lemma NumeralOf(s: string) returns (t: Tree)
    requires (StartsWith(s, '-') || StartsWithDigit(s)) && ParseNumber(s).Some?
    ensures t.Numeral? && Legal(t) && Meaning(t) == ParseNumber(s).value.value
    ensures s == Write(t, ParseNumber(s).value.rest)
  {
    hide ReadWhole, SkipFraction, SkipExponent, Integer, WholeNumber, ValueOf, Word.Wrap, SkipDigits;
    hide IsWhole, IsFraction, IsExponent;
    var neg := s[0] == '-';
    var s1 := if neg then s[1..] else s;
    assert s == Sign(neg) + s1;
    var whole := WholeRead(s1);
    var s2 := ReadWhole(s1).rest;
    if !StartsWith(s2, '.') && !StartsExponent(s2) {
      t := Numeral(neg, whole, [], []);
      EmptyParts();
      assert [] + ([] + s2) == s2;
      IntegersAgree(neg, ValueOf(whole));
    } else {
      var fraction := FractionSkipped(s2);
      var s3 := SkipFraction(s2).value;
      var exponent := ExponentSkipped(s3);
      var rest := SkipExponent(s3).value;
      t := Numeral(neg, whole, fraction, exponent);
      LexemeOf(Sign(neg), whole, fraction, exponent, rest);
      if fraction == [] && exponent == [] {
        NothingSkipped(s2);
        assert false;
      }
    }
  }

  lemma EmptyParts()
    ensures IsFraction([]) && IsExponent([])
  {
  }

  /** A fraction or an exponent that was begun was read. */
  lemma NothingSkipped(s: string)
    requires SkipFraction(s).Some? && SkipExponent(SkipFraction(s).value).Some?
    requires s == SkipFraction(s).value == SkipExponent(SkipFraction(s).value).value
    ensures !StartsWith(s, '.') && !StartsExponent(s)
  {
  }

  /** The tree of a value the parser reads. */
  lemma {:induction false} TreeOf(s: string) returns (t: Tree)
    requires ParseValue(s).Some?
    ensures Legal(t) && Meaning(t) == ParseValue(s).value.value
    ensures s == Write(t, ParseValue(s).value.rest)
    decreases |s|, 0
  {
    hide ExtractString, ParseNumber, ParseElements, ParseMembers;
    if s[0] == '"' {
      var units := UnitsExtracted(s[1..]);
      t := Quoted(units);
      assert s == "\"" + s[1..];
    } else if "false" <= s {
      t := Keyword(Bool(false));
    } else if "true" <= s {
      t := Keyword(Bool(true));
    } else if "null" <= s {
      t := Keyword(Null);
    } else if s[0] == '-' || IsDigit(s[0]) {
      t := NumeralOf(s);
    } else if s[0] == '{' {
      assert s == "{" + s[1..];
      t := ObjectTree(s[1..]);
    } else {
      assert s == "[" + s[1..];
      t := ArrayTree(s[1..]);
    }
  }

  lemma ArrayTree(s: string) returns (t: Tree)
    requires ParseElements(s, []).Some?
    ensures Legal(t) && Meaning(t) == ParseElements(s, []).value.value
    ensures "[" + s == Write(t, ParseElements(s, []).value.rest)
    decreases |s|, 2
  {
    hide SkipBlanks, ParseValue;
    if StartsWith(SkipBlanks(s), ']') {
      var b := BlanksSkipped(s);
      t := EmptyArray(b);
      assert SkipBlanks(s) == "]" + SkipBlanks(s)[1..];
    } else {
      var es := ElementsOf(s, []);
      t := ArrayOf(es);
      assert [] + Meanings(es) == Meanings(es);
    }
  }

  lemma {:induction false} ElementsOf(s: string, got: seq<JValue>) returns (es: Elements)
    requires ParseElements(s, got).Some? && !(got == [] && StartsWith(SkipBlanks(s), ']'))
    ensures LegalElements(es) && ParseElements(s, got).value.value == Array(got + Meanings(es))
    ensures s == WriteElements(es, "]" + ParseElements(s, got).value.rest)
    decreases |s|, 1
  {
    hide SkipBlanks, ParseValue, Legal, Meaning, Write;
    var before := BlanksSkipped(s);
    var t := TreeOf(SkipBlanks(s));
    var v := ParseValue(SkipBlanks(s)).value;
    var after := BlanksSkipped(v.rest);
    var s2 := SkipBlanks(v.rest);
    assert s2 == [s2[0]] + s2[1..];
    if StartsWith(s2, ']') {
      es := Last(before, t, after);
      assert got + [v.value] == got + Meanings(es);
    } else {
      var more := ElementsOf(s2[1..], got + [v.value]);
      es := More(before, t, after, more);
      assert got + [v.value] + Meanings(more) == got + Meanings(es);
    }
  }

  lemma ObjectTree(s: string) returns (t: Tree)
    requires ParseMembers(s, []).Some?
    ensures Legal(t) && Meaning(t) == ParseMembers(s, []).value.value
    ensures "{" + s == Write(t, ParseMembers(s, []).value.rest)
    decreases |s|, 2
  {
    hide SkipBlanks, ParseValue, ParseKey;
    if StartsWith(SkipBlanks(s), '}') {
      var b := BlanksSkipped(s);
      t := EmptyObject(b);
      assert SkipBlanks(s) == "}" + SkipBlanks(s)[1..];
    } else {
      var ps := PairsOf(s, []);
      t := ObjectOf(ps);
    }
  }

  lemma KeyOf(s: string) returns (k: Key)
    requires ParseKey(SkipBlanks(s)).Some?
    ensures LegalKey(k) && Raw(k.units) == ParseKey(SkipBlanks(s)).value.raw
    ensures s == WriteKey(k, ParseKey(SkipBlanks(s)).value.rest)
  {
    hide SkipBlanks, ExtractString, WriteUnits;
    var before := BlanksSkipped(s);
    var s1 := SkipBlanks(s);
    var units := UnitsExtracted(s1[1..]);
    var name := ExtractString(s1[1..]).value;
    var beforeColon := BlanksSkipped(name.rest);
    var s2 := SkipBlanks(name.rest);
    var afterColon := BlanksSkipped(s2[1..]);
    k := Key(before, units, beforeColon, afterColon);
    assert s1 == "\"" + s1[1..] && s2 == ":" + s2[1..];
  }

  lemma {:induction false} PairsOf(s: string, got: seq<Member>) returns (ps: Pairs)
    requires ParseMembers(s, got).Some? && !(got == [] && StartsWith(SkipBlanks(s), '}'))
    ensures LegalPairs(ps) && ParseMembers(s, got).value.value == Object(Gathered(ps, got))
    ensures s == WritePairs(ps, "}" + ParseMembers(s, got).value.rest)
    decreases |s|, 1
  {
    hide SkipBlanks, ParseValue, ParseKey, WriteKey, Legal, LegalKey, Meaning, Write, Raw, Put;
    var k := KeyOf(s);
    var key := ParseKey(SkipBlanks(s)).value;
    var t := TreeOf(key.rest);
    var v := ParseValue(key.rest).value;
    var after := BlanksSkipped(v.rest);
    var s2 := SkipBlanks(v.rest);
    assert s2 == [s2[0]] + s2[1..];
    var members := Put(got, Member(key.raw, v.value));
    if StartsWith(s2, '}') {
      ps := LastPair(k, t, after);
    } else {
      assert members != [];
      var more := PairsOf(s2[1..], members);
      ps := MorePairs(k, t, after, more);
    }
  }

  // The accepted language

  /** A text of the grammar: the value `t` between blanks. */
  ghost predicate IsText(s: string, t: Tree, before: string, after: string) {
    Legal(t) && Blanks(before) && Blanks(after) && s == before + Write(t, after)
  }

  /** A derivable text is parsed to the value of its tree. */
  lemma ParsesText(s: string, t: Tree, before: string, after: string)
    requires IsText(s, t, before, after)
    ensures Parse(s) == Some(Meaning(t))
  {
    hide SkipBlanks, ParseValue, Legal, Write, Meaning;
    StartsAValue(t, after);
    SkipsBlanks(before, Write(t, after));
    assert Follows(after) by {
      if after != [] {
        assert after[0] in after;
      }
    }
    ParsesTree(t, after);
    SkipsBlanks(after, []);
    assert after + [] == after;
  }

  /** The parser accepts a text if and only if the text can be derived, and its result is the text's value. */
  lemma AcceptsExactly(s: string)
    ensures Parse(s).Some? <==> exists t, before, after :: IsText(s, t, before, after)
    ensures forall t, before, after :: IsText(s, t, before, after) ==> Parse(s) == Some(Meaning(t))
  {
    hide ParseValue, SkipBlanks, Legal, Write, Meaning, Blanks;
    forall t, before, after | IsText(s, t, before, after)
      ensures Parse(s) == Some(Meaning(t))
    {
      ParsesText(s, t, before, after);
    }
    if Parse(s).Some? {
      var before := BlanksSkipped(s);
      var t := TreeOf(SkipBlanks(s));
      var after := ParseValue(SkipBlanks(s)).value.rest;
      var b := BlanksSkipped(after);
      assert b == after by { assert b + [] == b; }
      assert IsText(s, t, before, after);
    }
  }

  /** A text means one thing only, however it is derived. */
  lemma Unambiguous(s: string, t: Tree, u: Tree, before: string, after: string, before': string, after': string)
    requires IsText(s, t, before, after) && IsText(s, u, before', after')
    ensures Meaning(t) == Meaning(u)
  {
    ParsesText(s, t, before, after);
    ParsesText(s, u, before', after');
  }
}
