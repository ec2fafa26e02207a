/**
  What each part of the JSON parser (include/jsonvalue.h) does with the text still in front of
  it: the value or string it reads and the text it leaves, or no result.
*/
module JsonParse {
  import opened Wrappers
  import opened NumberText
  import opened JsonValues

  /** What was read and the text behind it. */
  datatype Step = Step(value: JValue, rest: string)
  datatype Scanned = Scanned(raw: string, rest: string)

  predicate IsBlank(c: char) {
    c == ' ' || c == '\n' || c == '\r' || c == '\t'
  }

  predicate IsHex(c: char) {
    IsDigit(c) || 'A' <= c <= 'F' || 'a' <= c <= 'f'
  }

  predicate IsEscape(c: char) {
    c == '"' || c == '\\' || c == 'b' || c == 'f' || c == 'n' || c == 'r' || c == 't' || c == '/'
  }

  /** Characters a string may hold as they are. */
  predicate IsPlain(c: char) {
    c != '"' && c != '\\' && (c >= ' ' || c == '\t')
  }

  /** One character of a string's text: a plain one or an escape sequence. */
  predicate IsUnit(u: string) {
    || (|u| == 1 && IsPlain(u[0]))
    || (|u| == 2 && u[0] == '\\' && IsEscape(u[1]))
    || (|u| == 6 && u[0] == '\\' && u[1] == 'u' && IsHex(u[2]) && IsHex(u[3]) && IsHex(u[4]) && IsHex(u[5]))
  }

  /** The length of the unit the text begins with, 0 if it begins with none. */
  function UnitLength(s: string): (n: nat)
    ensures n <= |s| && (n > 0 ==> IsUnit(s[..n]))
  {
    if s == [] then 0
    else if IsPlain(s[0]) then 1
    else if s[0] != '\\' || |s| < 2 then 0
    else if IsEscape(s[1]) then 2
    else if s[1] == 'u' && |s| >= 6 && IsHex(s[2]) && IsHex(s[3]) && IsHex(s[4]) && IsHex(s[5]) then 6
    else 0
  }

  function SkipBlanks(s: string): (r: string)
    ensures |r| <= |s| && (r != [] ==> !IsBlank(r[0]))
  {
    if s != [] && IsBlank(s[0]) then SkipBlanks(s[1..]) else s
  }

  /** The string up to the closing quote, from behind the opening one. */
  function ExtractString(s: string): (r: Option<Scanned>)
    ensures r.Some? ==> |r.value.rest| < |s|
    decreases |s|
  {
    if s == [] then None
    else if s[0] == '"' then Some(Scanned([], s[1..]))
    else
      var n := UnitLength(s);
      if n == 0 then None
      else
        match ExtractString(s[n..])
        case None => None
        case Some(r) => Some(Scanned(s[..n] + r.raw, r.rest))
  }

  predicate StartsWithDigit(s: string) {
    s != [] && IsDigit(s[0])
  }

  predicate StartsWith(s: string, c: char) {
    s != [] && s[0] == c
  }

  function Integer(neg: bool, magnitude: nat): JValue
    requires magnitude < Bits64.Modulus()
  {
    var n := Bits64.Negated(magnitude);
    if !neg then Uint64(magnitude)
    else if n < 0 then Int64(n)
    else Uint64(n)
  }

  /** The text behind a fraction; None if the point is followed by no digit. */
  function SkipFraction(s: string): (r: Option<string>)
    ensures r.Some? ==> |r.value| <= |s|
  {
    if !StartsWith(s, '.') then Some(s)
    else if StartsWithDigit(s[1..]) then Some(SkipDigits(s[1..]))
    else None
  }

  function SkipSign(s: string): (r: string)
    ensures |r| <= |s|
  {
    if StartsWith(s, '-') || StartsWith(s, '+') then s[1..] else s
  }

  predicate StartsExponent(s: string) {
    StartsWith(s, 'e') || StartsWith(s, 'E')
  }

  function SkipExponent(s: string): (r: Option<string>)
    ensures r.Some? ==> |r.value| <= |s|
  {
    if !StartsExponent(s) then Some(s)
    else if StartsWithDigit(SkipSign(s[1..])) then Some(SkipDigits(SkipSign(s[1..])))
    else None
  }

  /** The digits of a number's integer part; a leading zero stands alone. */
  function ReadWhole(s: string): (r: Parsed)
    requires StartsWithDigit(s)
    ensures |r.rest| < |s| && r.value < Bits64.Modulus()
  {
    if s[0] == '0' then Parsed(0, s[1..])
    else
      ReadStep(s, 0, Bits64);
      ReadDigits(s, 0, Bits64)
  }

  function ParseNumber(s: string): (r: Option<Step>)
    requires StartsWith(s, '-') || StartsWithDigit(s)
    ensures r.Some? ==> |r.value.rest| < |s|
  {
    var neg := s[0] == '-';
    var s1 := if neg then s[1..] else s;
    if !StartsWithDigit(s1) then None
    else
      var whole := ReadWhole(s1);
      if !StartsWith(whole.rest, '.') && !StartsExponent(whole.rest) then
        Some(Step(Integer(neg, whole.value), whole.rest))
      else
        match SkipFraction(whole.rest)
        case None => None
        case Some(s2) =>
          match SkipExponent(s2)
          case None => None
          case Some(s3) => Some(Step(Number(s[..|s| - |s3|]), s3))
  }

  /** ParseStr: reads the value the text begins with. */
  function ParseValue(s: string): (r: Option<Step>)
    ensures r.Some? ==> |r.value.rest| < |s|
    decreases |s|, 0
  {
    if s == [] then None
    else if s[0] == '"' then
      match ExtractString(s[1..])
      case None => None
      case Some(t) => Some(Step(Text(t.raw), t.rest))
    else if "false" <= s then Some(Step(Bool(false), s[5..]))
    else if "true" <= s then Some(Step(Bool(true), s[4..]))
    else if "null" <= s then Some(Step(Null, s[4..]))
    else if s[0] == '-' || IsDigit(s[0]) then ParseNumber(s)
    else if s[0] == '{' then ParseMembers(s[1..], [])
    else if s[0] == '[' then ParseElements(s[1..], [])
    else None
  }

  /** The rest of an array, behind the bracket or a comma, when `got` was read already. */
  function ParseElements(s: string, got: seq<JValue>): (r: Option<Step>)
    ensures r.Some? ==> |r.value.rest| < |s|
    decreases |s|, 1
  {
    var s1 := SkipBlanks(s);
    if got == [] && StartsWith(s1, ']') then Some(Step(Array([]), s1[1..]))
    else
      match ParseValue(s1)
      case None => None
      case Some(v) =>
        var s2 := SkipBlanks(v.rest);
        if StartsWith(s2, ']') then Some(Step(Array(got + [v.value]), s2[1..]))
        else if StartsWith(s2, ',') then ParseElements(s2[1..], got + [v.value])
        else None
  }

  /** A key, the colon and the blanks behind it. */
  function ParseKey(s: string): (r: Option<Scanned>)
    ensures r.Some? ==> |r.value.rest| < |s|
  {
    if !StartsWith(s, '"') then None
    else
      match ExtractString(s[1..])
      case None => None
      case Some(name) =>
        var s1 := SkipBlanks(name.rest);
        if StartsWith(s1, ':') then Some(Scanned(name.raw, SkipBlanks(s1[1..]))) else None
  }

  /** The rest of an object, behind the brace or a comma, when `got` was read already. */
  function ParseMembers(s: string, got: seq<Member>): (r: Option<Step>)
    ensures r.Some? ==> |r.value.rest| < |s|
    decreases |s|, 1
  {
    var s1 := SkipBlanks(s);
    if got == [] && StartsWith(s1, '}') then Some(Step(Object([]), s1[1..]))
    else
      match ParseKey(s1)
      case None => None
      case Some(key) =>
        match ParseValue(key.rest)
        case None => None
        case Some(v) =>
          var s2 := SkipBlanks(v.rest);
          var members := Put(got, Member(key.raw, v.value));
          if StartsWith(s2, '}') then Some(Step(Object(members), s2[1..]))
          else if StartsWith(s2, ',') then ParseMembers(s2[1..], members)
          else None
  }

  /** The whole text: one value between blanks. */
  function Parse(s: string): Option<JValue> {
    match ParseValue(SkipBlanks(s))
    case None => None
    case Some(v) => if SkipBlanks(v.rest) == [] then Some(v.value) else None
  }
}
