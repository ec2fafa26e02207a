/**
  Escaping and unescaping of JSON strings (include/jsonvalue.h). The printer writes a string as
  it stands, so a string built from arbitrary text is escaped first.
*/
module JsonEscape {
  import opened Wrappers
  import opened JsonValues
  import opened JsonParse
  import opened JsonPrint

  /** The characters Unescape looks for behind a backslash; Escape leaves the slash alone by default. */
  predicate IsEscapable(c: char) {
    c == '\\' || c == '\U{08}' || c == '\U{0C}' || c == '"' || c == '\t' || c == '\r' || c == '\n' || c == '/'
  }

  predicate NeedsEscape(c: char, slash: bool) {
    IsEscapable(c) && (c != '/' || slash)
  }

  /** A backslash before every character that needs one. */
  function Escaped(s: string, slash: bool): string {
    if s == [] then []
    else (if NeedsEscape(s[0], slash) then ['\\', s[0]] else [s[0]]) + Escaped(s[1..], slash)
  }

  /** Every backslash directly before an escapable character is dropped. */
  function Unescaped(s: string): string {
    if s == [] then []
    else (if s[0] == '\\' && |s| > 1 && IsEscapable(s[1]) then [] else [s[0]]) + Unescaped(s[1..])
  }

  /** The characters by their code points: backslash, backspace, form feed, quotation mark, tab, line ends, slash. */
  lemma EscapableExactly(c: char)
    ensures IsEscapable(c) <==> c as int in {0x5C, 0x08, 0x0C, 0x22, 0x09, 0x0D, 0x0A, 0x2F}
  {
  }

  /** Escaping takes the characters one by one, and puts a backslash before each that is in the list. */
  lemma {:induction false} EscapesEach(a: string, c: char, b: string, slash: bool)
    ensures Escaped(a + [c] + b, slash)
         == Escaped(a, slash)
            + (if c as int in {0x5C, 0x08, 0x0C, 0x22, 0x09, 0x0D, 0x0A} || (slash && c as int == 0x2F)
               then ['\\', c] else [c])
            + Escaped(b, slash)
    ensures Escaped([], slash) == []
  {
    hide Escaped, NeedsEscape;
    EscapedNone(slash);
    if a == [] {
      assert [] + [c] + b == [c] + b;
      EscapedFirstOf(c, b, slash);
    } else {
      EscapesEach(a[1..], c, b, slash);
      assert a == [a[0]] + a[1..] && a + [c] + b == [a[0]] + (a[1..] + [c] + b);
      EscapedFirstOf(a[0], a[1..] + [c] + b, slash);
      EscapedFirstOf(a[0], a[1..], slash);
    }
  }

  lemma EscapedNone(slash: bool)
    ensures Escaped([], slash) == []
  {
  }

  lemma EscapedFirstOf(c: char, s: string, slash: bool)
    ensures Escaped([c] + s, slash)
         == (if c as int in {0x5C, 0x08, 0x0C, 0x22, 0x09, 0x0D, 0x0A} || (slash && c as int == 0x2F)
             then ['\\', c] else [c])
            + Escaped(s, slash)
  {
    assert ([c] + s)[1..] == s;
    EscapableExactly(c);
  }

  /** A backslash directly followed by an escapable character. */
  ghost predicate HasEscapedPair(s: string) {
    exists i :: 0 <= i < |s| - 1 && s[i] == '\\' && IsEscapable(s[i + 1])
  }

  /** Unescaping sees through escaping: it does to the escaped text what it does to the text itself. */
  lemma {:induction false} UnescapesAsBefore(s: string, slash: bool)
    ensures Unescaped(Escaped(s, slash)) == Unescaped(s)
  {
    if s != [] {
      hide Escaped, Unescaped, IsEscapable;
      var c, more := s[0], Escaped(s[1..], slash);
      EscapedFirst(s, slash);
      UnescapesAsBefore(s[1..], slash);
      EscapedHead(s[1..], slash);
      UnescapesHead(c, s[1..], more);
      assert s == [c] + s[1..];
      if NeedsEscape(c, slash) {
        BackslashDropped(c, more);
      }
    }
  }

  lemma EscapedFirst(s: string, slash: bool)
    requires s != []
    ensures Escaped(s, slash)
         == if NeedsEscape(s[0], slash) then ['\\'] + ([s[0]] + Escaped(s[1..], slash)) else [s[0]] + Escaped(s[1..], slash)
  {
  }

  /** What becomes of a character depends on the next one only. */
  lemma UnescapesHead(c: char, a: string, b: string)
    requires Unescaped(a) == Unescaped(b) && (a == [] <==> b == [])
    requires a != [] ==> (IsEscapable(a[0]) <==> IsEscapable(b[0]))
    ensures Unescaped([c] + a) == Unescaped([c] + b)
  {
    assert ([c] + a)[1..] == a && ([c] + b)[1..] == b;
  }

  lemma BackslashDropped(c: char, more: string)
    requires IsEscapable(c)
    ensures Unescaped(['\\'] + ([c] + more)) == Unescaped([c] + more)
  {
    var e := ['\\'] + ([c] + more);
    assert e[1..] == [c] + more && e[1] == c;
    assert [] + Unescaped(e[1..]) == Unescaped(e[1..]);
  }

  /** The first character of escaped text is escapable exactly if that of the text is. */
  lemma EscapedHead(s: string, slash: bool)
    ensures Escaped(s, slash) == [] <==> s == []
    ensures s != [] ==> (IsEscapable(Escaped(s, slash)[0]) <==> IsEscapable(s[0]))
  {
  }

  lemma {:induction false} UnescapedExactly(s: string)
    ensures |Unescaped(s)| <= |s|
    ensures Unescaped(s) == s <==> !HasEscapedPair(s)
  {
    if s != [] {
      UnescapedExactly(s[1..]);
      if s[0] == '\\' && |s| > 1 && IsEscapable(s[1]) {
        assert HasEscapedPair(s);
      } else {
        assert s == [s[0]] + s[1..];
        assert Unescaped(s)[1..] == Unescaped(s[1..]);
        if HasEscapedPair(s) {
          var i :| 0 <= i < |s| - 1 && s[i] == '\\' && IsEscapable(s[i + 1]);
          assert s[1..][i - 1] == '\\' && IsEscapable(s[1..][i - 1 + 1]);
        }
        if HasEscapedPair(s[1..]) {
          var i :| 0 <= i < |s| - 2 && s[1..][i] == '\\' && IsEscapable(s[1..][i + 1]);
          assert s[i + 1] == '\\' && IsEscapable(s[i + 1 + 1]);
        }
      }
    }
  }

  /** Unescape undoes Escape on exactly the strings without an escapable character right behind a backslash. */
  lemma UndoneExactly(s: string, slash: bool)
    ensures Unescaped(Escaped(s, slash)) == s <==> !HasEscapedPair(s)
  {
    UnescapesAsBefore(s, slash);
    UnescapedExactly(s);
  }

  predicate NoControls(s: string) {
    forall c <- s :: c >= ' '
  }

  /** The string parser takes the whole of an escaped string for exactly the strings without control characters. */
  lemma {:induction false} EscapedIsAcceptable(s: string, slash: bool)
    ensures Acceptable(Escaped(s, slash)) <==> NoControls(s)
  {
    hide ExtractString, UnitLength;
    if s == [] {
      EmptyIsAcceptable();
    } else {
      hide Acceptable;
      var c, more := s[0], Escaped(s[1..], slash);
      EscapedIsAcceptable(s[1..], slash);
      FirstIsWithoutControls(s);
      var first := if NeedsEscape(c, slash) then ['\\', c] else [c];
      FirstUnit(first, more + "\"");
      AcceptableBehind(first, more);
    }
  }

  lemma EmptyIsAcceptable()
    ensures Acceptable([])
  {
    assert [] + "\"" == "\"";
  }

  lemma FirstIsWithoutControls(s: string)
    requires s != []
    ensures NoControls(s) <==> s[0] >= ' ' && NoControls(s[1..])
  {
    assert s[0] in s && forall c <- s :: c == s[0] || c in s[1..];
    assert forall c <- s[1..] :: c in s;
  }

  lemma FirstUnit(first: string, rest: string)
    requires first == [] || |first| <= 2
    ensures |first| == 1 && first[0] != '"' && first[0] != '\\' ==>
      UnitLength(first + rest) == if first[0] >= ' ' || first[0] == '\t' then 1 else 0
    ensures |first| == 2 && first[0] == '\\' && first[1] != 'u' ==>
      UnitLength(first + rest) == if IsEscape(first[1]) then 2 else 0
  {
    assert first != [] ==> (first + rest)[0] == first[0];
    assert |first| == 2 ==> (first + rest)[1] == first[1];
  }

  lemma AcceptableBehind(first: string, more: string)
    requires |first| > 0 && first[0] != '"' && UnitLength(first + (more + "\"")) in {0, |first|}
    ensures Acceptable(first + more) <==> UnitLength(first + (more + "\"")) > 0 && Acceptable(more)
  {
    hide UnitLength;
    var s := first + (more + "\"");
    assert s == first + more + "\"";
    assert s[|first|..] == more + "\"" && s[..|first|] == first;
    assert s[0] == first[0];
    if UnitLength(s) > 0 {
      match ExtractString(more + "\"")
      case None =>
      case Some(r) =>
        assert ExtractString(s) == Some(Scanned(first + r.raw, r.rest));
        if first + r.raw == first + more {
          assert (first + r.raw)[|first|..] == r.raw && (first + more)[|first|..] == more;
        }
    }
  }

  /** A string value built from text without control characters survives printing and parsing. */
  lemma StringSurvives(s: string, slash: bool, st: Style)
    requires NoControls(s)
    ensures Parse(Stringified(Text(Escaped(s, slash)), 0, st)) == Some(Text(Escaped(s, slash)))
  {
    EscapedIsAcceptable(s, slash);
    PrintsAndParses(Text(Escaped(s, slash)), st);
  }

  // The operations, which edit the string they are given

  function InsertAt(s: string, pos: nat, c: char): (r: string)
    requires pos <= |s|
    ensures |r| == |s| + 1
  {
    s[..pos] + [c] + s[pos..]
  }

  class Buffer {
    var str: string

    constructor (s: string)
      ensures str == s
    {
      str := s;
    }

    method Escape(slash: bool)
      modifies this
      ensures str == Escaped(old(str), slash)
    {
      hide Escaped, NeedsEscape, InsertAt;
      var pos, len := 0, |str|;
      assert str[..0] == [] && str[0..] == str;
      assert [] + Escaped(str, slash) == Escaped(str, slash);
      while pos < len
        invariant 0 <= pos <= len == |str|
        invariant str[..pos] + Escaped(str[pos..], slash) == Escaped(old(str), slash)
        decreases len - pos
      {
        EscapeStep(str[..pos], str[pos..], slash);
        InsertSlices(str, pos, '\\');
        if NeedsEscape(str[pos], slash) {
          str := InsertAt(str, pos, '\\');
          pos := pos + 1;
          len := len + 1;
        }
        pos := pos + 1;
      }
      EscapedNothing(str, slash);
    }

    method Unescape()
      modifies this
      ensures str == Unescaped(old(str))
    {
      hide IsEscapable, Unescaped, Pending, Without;
      var prev := '\0';
      var pos, len := 0, |str|;
      PendingNothing(str);
      while pos < len
        invariant 0 <= pos <= len == |str|
        invariant pos > 0 ==> prev == str[pos - 1]
        invariant pos == 0 ==> prev == '\0'
        invariant Pending(str[..pos], str[pos..]) == Unescaped(old(str))
        decreases len - pos
      {
        PendingStep(str[..pos], str[pos..]);
        if pos > 0 {
          EraseSlices(str, pos);
        }
        InsertSlices(str, pos, ' ');
        if prev == '\\' && IsEscapable(str[pos]) {
          pos := pos - 1;
          str := Without(str, pos);
          len := len - 1;
        }
        prev := str[pos];
        pos := pos + 1;
      }
      assert str[..pos] == str && str[pos..] == [];
      PendingNothing(str);
    }
  }

  /** The result when `done` stands before the position, its last character not yet settled. */
  ghost function Pending(done: string, ahead: string): string {
    if done == [] then Unescaped(ahead)
    else done[..|done| - 1] + Unescaped([done[|done| - 1]] + ahead)
  }

  lemma PendingNothing(s: string)
    ensures Pending(s[..0], s[0..]) == Unescaped(s) && Pending(s, []) == s
  {
    assert s[0..] == s;
    if s != [] {
      var last := s[|s| - 1];
      assert [last] + [] == [last] && [last][1..] == [];
      assert Unescaped([last]) == [last] + [];
    }
  }

  lemma EscapedNothing(s: string, slash: bool)
    ensures s[..|s|] + Escaped(s[|s|..], slash) == s
  {
    assert s[..|s|] + [] == s;
  }

  /** Moving over one character, with the backslash it needs inserted before it. */
  lemma EscapeStep(done: string, ahead: string, slash: bool)
    requires ahead != []
    ensures done + Escaped(ahead, slash)
         == (done + if NeedsEscape(ahead[0], slash) then ['\\', ahead[0]] else [ahead[0]]) + Escaped(ahead[1..], slash)
  {
  }

  lemma InsertSlices(s: string, pos: nat, c: char)
    requires pos < |s|
    ensures var t := InsertAt(s, pos, c); t[..pos + 2] == s[..pos] + [c, s[pos]] && t[pos + 2..] == s[pos..][1..]
    ensures s[..pos + 1] == s[..pos] + [s[pos]] && s[pos + 1..] == s[pos..][1..]
  {
  }

  lemma EraseSlices(s: string, pos: nat)
    requires 0 < pos < |s|
    ensures var t := Without(s, pos - 1); t[..pos - 1] == s[..pos][..pos - 1] && t[pos - 1] == s[pos]
    ensures var t := Without(s, pos - 1); t[..pos] == s[..pos][..pos - 1] + [s[pos]] && t[pos..] == s[pos..][1..]
  {
  }

  /** Moving over one character, with the backslash before it erased if there is one to erase. */
  lemma PendingStep(done: string, ahead: string)
    requires ahead != []
    ensures var kept := if done != [] && done[|done| - 1] == '\\' && IsEscapable(ahead[0])
                        then done[..|done| - 1] else done;
      Pending(kept + [ahead[0]], ahead[1..]) == Pending(done, ahead)
  {
    assert [ahead[0]] + ahead[1..] == ahead;
    if done == [] {
      assert done + [ahead[0]] == [ahead[0]];
    } else {
      var last := done[|done| - 1];
      var front := done[..|done| - 1];
      assert ([last] + ahead)[1..] == ahead && ([last] + ahead)[1] == ahead[0];
      assert (done + [ahead[0]])[..|done|] == done && (front + [ahead[0]])[..|front|] == front;
      assert done == front + [last];
    }
  }
}
