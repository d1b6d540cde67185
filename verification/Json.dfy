/** Canonical JSON text: the printer, and a parser that undoes it (sections 2 to 7 of RFC 8259). Text is a
    sequence of UTF-16 code units. */
module Json {
  import opened Options

  type Unit = u: int | 0 <= u < 0x1_0000
  type Text = seq<Unit>

  /** A canonical value; a number is held as the text `Number::toString` gives it, which identifies it up to
      the sign of zero. Members are in the order in which they are enumerated. */
  datatype Canon =
    | CNull
    | CBool(b: bool)
    | CNumber(text: Text)
    | CString(s: Text)
    | CArray(items: seq<Canon>)
    | CObject(members: seq<CMember>)

  datatype CMember = CMember(key: Text, value: Canon)

  const QUOTE: Unit := 0x22
  const BACKSLASH: Unit := 0x5C
  const COMMA: Unit := 0x2C
  const COLON: Unit := 0x3A
  const OPEN_ARRAY: Unit := 0x5B
  const CLOSE_ARRAY: Unit := 0x5D
  const OPEN_OBJECT: Unit := 0x7B
  const CLOSE_OBJECT: Unit := 0x7D
  const LETTER_U: Unit := 0x75
  const NEWLINE: Unit := 0x0A

  const NULL_TEXT: Text := [0x6E, 0x75, 0x6C, 0x6C]
  const TRUE_TEXT: Text := [0x74, 0x72, 0x75, 0x65]
  const FALSE_TEXT: Text := [0x66, 0x61, 0x6C, 0x73, 0x65]

  /** Digits, signs, the point and the exponent mark. */
  predicate IsNumberUnit(u: Unit) {
    0x30 <= u <= 0x39 || u == 0x2B || u == 0x2D || u == 0x2E || u == 0x65
  }

  lemma NumberUnits(u: Unit)
    ensures IsNumberUnit(u) <==>
      u in {0x30, 0x31, 0x32, 0x33, 0x34, 0x35, 0x36, 0x37, 0x38, 0x39, 0x2B, 0x2D, 0x2E, 0x65}
  {
  }

  predicate IsNumberText(t: Text) {
    t != [] && forall i :: 0 <= i < |t| ==> IsNumberUnit(t[i])
  }

  predicate NumbersAreText(c: Canon) {
    match c
    case CNumber(text) => IsNumberText(text)
    case CArray(items) => forall i :: 0 <= i < |items| ==> NumbersAreText(items[i])
    case CObject(members) => forall i :: 0 <= i < |members| ==> NumbersAreText(members[i].value)
    case _ => true
  }

  // ------------------------------------------------------------------- strings ---

  function HexDigit(d: int): Unit
    requires 0 <= d < 16
  {
    if d < 10 then 0x30 + d else 0x57 + d
  }

  function HexValue(u: Unit): (d: Option<int>)
    ensures d.Some? ==> 0 <= d.value < 16
  {
    if 0x30 <= u <= 0x39 then Some(u - 0x30) else if 0x61 <= u <= 0x66 then Some(u - 0x57) else None
  }

  function Hex4(u: Unit): Text {
    [HexDigit(u / 0x1000), HexDigit(u / 0x100 % 16), HexDigit(u / 16 % 16), HexDigit(u % 16)]
  }

  /** The letter after the backslash of a two-unit escape. */
  function ShortEscape(u: Unit): Option<Unit> {
    if u == 0x08 then Some(0x62) else if u == 0x09 then Some(0x74) else if u == 0x0A then Some(0x6E)
    else if u == 0x0C then Some(0x66) else if u == 0x0D then Some(0x72)
    else if u == QUOTE then Some(QUOTE) else if u == BACKSLASH then Some(BACKSLASH) else None
  }

  function ShortUnescape(e: Unit): Option<Unit> {
    if e == 0x62 then Some(0x08) else if e == 0x74 then Some(0x09) else if e == 0x6E then Some(0x0A)
    else if e == 0x66 then Some(0x0C) else if e == 0x72 then Some(0x0D)
    else if e == QUOTE then Some(QUOTE) else if e == BACKSLASH then Some(BACKSLASH) else None
  }

  predicate IsHighSurrogate(u: Unit) { 0xD800 <= u <= 0xDBFF }
  predicate IsLowSurrogate(u: Unit) { 0xDC00 <= u <= 0xDFFF }

  /** One code unit that is not half of a surrogate pair. */
  function EscapeUnit(u: Unit): Text {
    if ShortEscape(u).Some? then [BACKSLASH, ShortEscape(u).value]
    else if u < 0x20 || IsHighSurrogate(u) || IsLowSurrogate(u) then [BACKSLASH, LETTER_U] + Hex4(u)
    else [u]
  }

  /** What is printed for one code unit, section 25.5.2.3 of ECMA-262: a two-unit escape for seven of them, a hexadecimal
      one in lower case for the other controls and for half a surrogate pair, and everything else as it is. */
  lemma EscapeUnitTable(u: Unit)
    ensures EscapeUnit(u) == match u
      case 8 => [0x5C, 0x62]
      case 9 => [0x5C, 0x74]
      case 10 => [0x5C, 0x6E]
      case 12 => [0x5C, 0x66]
      case 13 => [0x5C, 0x72]
      case 0x22 => [0x5C, 0x22]
      case 0x5C => [0x5C, 0x5C]
      case _ =>
        if u < 0x20 then [0x5C, 0x75, 0x30, 0x30, 0x30 + u / 16, if u % 16 < 10 then 0x30 + u % 16 else 0x57 + u % 16]
        else if 0xD800 <= u < 0xE000 then
          [0x5C, 0x75, 0x64] + [if u / 256 % 16 < 10 then 0x38 + (u / 256 - 0xD8) else 0x57 + u / 256 % 16]
          + [if u / 16 % 16 < 10 then 0x30 + u / 16 % 16 else 0x57 + u / 16 % 16]
          + [if u % 16 < 10 then 0x30 + u % 16 else 0x57 + u % 16]
        else [u]
  {
  }

  /** How many units stand for one: two, six or one. */
  function UnitLength(u: Unit): nat {
    if u in {8, 9, 10, 12, 13, 0x22, 0x5C} then 2 else if u < 0x20 || 0xD800 <= u < 0xE000 then 6 else 1
  }

  function EscapeAll(s: Text): Text {
    if s == [] then []
    else if |s| >= 2 && IsHighSurrogate(s[0]) && IsLowSurrogate(s[1]) then [s[0], s[1]] + EscapeAll(s[2..])
    else EscapeUnit(s[0]) + EscapeAll(s[1..])
  }

  function EscapedLength(s: Text): nat {
    if s == [] then 0
    else if |s| >= 2 && 0xD800 <= s[0] < 0xDC00 <= s[1] < 0xE000 then 2 + EscapedLength(s[2..])
    else UnitLength(s[0]) + EscapedLength(s[1..])
  }

  /** Surrogate pairs are printed as they are, every other unit by the table: with the parser, which fixes what is read
      back, this leaves one text for each string. */
  lemma {:induction false} EscapeAllLength(s: Text)
    ensures |EscapeAll(s)| == EscapedLength(s)
    decreases |s|
  {
    if s != [] {
      EscapeUnitTable(s[0]);
      hide EscapeUnit;
      if |s| >= 2 && IsHighSurrogate(s[0]) && IsLowSurrogate(s[1]) {
        EscapeAllLength(s[2..]);
      } else {
        EscapeAllLength(s[1..]);
      }
    }
  }

  function Quote(s: Text): Text {
    [QUOTE] + EscapeAll(s) + [QUOTE]
  }

  datatype Parsed<T> = Parsed(value: T, rest: Text) | NotParsed

  /** One possibly escaped code unit of a string body. */
  function ParseUnit(s: Text): (r: Parsed<Unit>)
    requires s != []
    ensures r.Parsed? ==> |r.rest| < |s|
  {
    if s[0] != BACKSLASH then Parsed(s[0], s[1..])
    else if |s| < 2 then NotParsed
    else if s[1] == LETTER_U then
      if |s| < 6 then NotParsed else
        var a, b, c, d := HexValue(s[2]), HexValue(s[3]), HexValue(s[4]), HexValue(s[5]);
        if a.None? || b.None? || c.None? || d.None? then NotParsed
        else Parsed(a.value * 0x1000 + b.value * 0x100 + c.value * 16 + d.value, s[6..])
    else
      var u := ShortUnescape(s[1]);
      if u.None? then NotParsed else Parsed(u.value, s[2..])
  }

  /** The body of a string up to and including the closing quote. */
  function ParseBody(s: Text): (r: Parsed<Text>)
    ensures r.Parsed? ==> |r.rest| < |s|
    decreases |s|
  {
    if s == [] then NotParsed
    else if s[0] == QUOTE then Parsed([], s[1..])
    else
      var first := ParseUnit(s);
      if first.NotParsed? then NotParsed else
        var tail := ParseBody(first.rest);
        if tail.NotParsed? then NotParsed else Parsed([first.value] + tail.value, tail.rest)
  }

  lemma ParseRaw(u: Unit, rest: Text)
    requires u != BACKSLASH
    ensures ParseUnit([u] + rest) == Parsed(u, rest)
  {
  }

  lemma HexRoundTrip(u: Unit)
    ensures HexValue(HexDigit(u / 0x1000)) == Some(u / 0x1000)
    ensures HexValue(HexDigit(u / 0x100 % 16)) == Some(u / 0x100 % 16)
    ensures HexValue(HexDigit(u / 16 % 16)) == Some(u / 16 % 16)
    ensures HexValue(HexDigit(u % 16)) == Some(u % 16)
    ensures u / 0x1000 * 0x1000 + u / 0x100 % 16 * 0x100 + u / 16 % 16 * 16 + u % 16 == u
  {
    var q := u / 16;
    var p := q / 16;
    assert u / 0x100 == p && u / 0x1000 == p / 16;
  }

  lemma ParseEscapedUnit(u: Unit, rest: Text)
    ensures EscapeUnit(u) != [] && EscapeUnit(u)[0] != QUOTE
    ensures ParseUnit(EscapeUnit(u) + rest) == Parsed(u, rest)
  {
    var s := EscapeUnit(u) + rest;
    if ShortEscape(u).None? && (u < 0x20 || IsHighSurrogate(u) || IsLowSurrogate(u)) {
      HexRoundTrip(u);
      hide HexDigit, HexValue;
      assert s[2..6] == Hex4(u) && s[6..] == rest;
      assert s[2] == Hex4(u)[0] && s[3] == Hex4(u)[1] && s[4] == Hex4(u)[2] && s[5] == Hex4(u)[3];
    } else if ShortEscape(u).Some? {
      assert s[2..] == rest;
    }
  }

  lemma ParseBodyUnfolds(text: Text, u: Unit, mid: Text, tail: Text, rest: Text)
    requires text != [] && text[0] != QUOTE
    requires ParseUnit(text) == Parsed(u, mid) && ParseBody(mid) == Parsed(tail, rest)
    ensures ParseBody(text) == Parsed([u] + tail, rest)
  {
    hide ParseUnit;
  }

  lemma {:induction false} ParseQuoted(s: Text, rest: Text)
    ensures ParseBody(EscapeAll(s) + [QUOTE] + rest) == Parsed(s, rest)
    decreases |s|
  {
    hide EscapeUnit, ParseUnit;
    var text := EscapeAll(s) + [QUOTE] + rest;
    if s == [] {
      assert text == [QUOTE] + rest;
    } else if |s| >= 2 && IsHighSurrogate(s[0]) && IsLowSurrogate(s[1]) {
      hide ParseBody;
      var after := EscapeAll(s[2..]) + [QUOTE] + rest;
      ParseQuoted(s[2..], rest);
      assert text == [s[0]] + ([s[1]] + after);
      ParseRaw(s[0], [s[1]] + after);
      ParseRaw(s[1], after);
      ParseBodyUnfolds([s[1]] + after, s[1], after, s[2..], rest);
      ParseBodyUnfolds(text, s[0], [s[1]] + after, [s[1]] + s[2..], rest);
      assert s == [s[0]] + ([s[1]] + s[2..]);
    } else {
      hide ParseBody;
      var after := EscapeAll(s[1..]) + [QUOTE] + rest;
      ParseQuoted(s[1..], rest);
      ParseEscapedUnit(s[0], after);
      assert text == EscapeUnit(s[0]) + after;
      assert text[0] == EscapeUnit(s[0])[0];
      ParseBodyUnfolds(text, s[0], after, s[1..], rest);
      assert s == [s[0]] + s[1..];
    }
  }

  // -------------------------------------------------------------------- values ---

  /** `JSON.stringify` of a canonical value. */
  function Print(c: Canon): Text
    decreases c
  {
    match c
    case CNull => NULL_TEXT
    case CBool(b) => if b then TRUE_TEXT else FALSE_TEXT
    case CNumber(text) => text
    case CString(s) => Quote(s)
    case CArray(items) =>
      if items == [] then [OPEN_ARRAY, CLOSE_ARRAY] else [OPEN_ARRAY] + Print(items[0]) + PrintItems(items[1..])
    case CObject(members) =>
      if members == [] then [OPEN_OBJECT, CLOSE_OBJECT]
      else [OPEN_OBJECT] + (Quote(members[0].key) + [COLON] + Print(members[0].value)) + PrintMembers(members[1..])
  }

  function PrintItems(items: seq<Canon>): Text
    decreases items
  {
    if items == [] then [CLOSE_ARRAY] else [COMMA] + Print(items[0]) + PrintItems(items[1..])
  }

  function PrintMembers(members: seq<CMember>): Text
    decreases members
  {
    if members == [] then [CLOSE_OBJECT]
    else [COMMA] + (Quote(members[0].key) + [COLON] + Print(members[0].value)) + PrintMembers(members[1..])
  }

  function TakeNumber(s: Text): (r: (Text, Text))
    ensures r.0 + r.1 == s
  {
    if s == [] || !IsNumberUnit(s[0]) then ([], s) else
      var (text, rest) := TakeNumber(s[1..]);
      ([s[0]] + text, rest)
  }

  function ParseValue(s: Text): (r: Parsed<Canon>)
    ensures r.Parsed? ==> |r.rest| < |s|
    decreases |s|, 0
  {
    if s == [] then NotParsed
    else if s[0] == QUOTE then
      var body := ParseBody(s[1..]);
      if body.NotParsed? then NotParsed else Parsed(CString(body.value), body.rest)
    else if s[0] == OPEN_ARRAY then
      if |s| > 1 && s[1] == CLOSE_ARRAY then Parsed(CArray([]), s[2..]) else
        var first := ParseValue(s[1..]);
        if first.NotParsed? then NotParsed else
          var others := ParseItems(first.rest);
          if others.NotParsed? then NotParsed else Parsed(CArray([first.value] + others.value), others.rest)
    else if s[0] == OPEN_OBJECT then
      if |s| > 1 && s[1] == CLOSE_OBJECT then Parsed(CObject([]), s[2..]) else
        var first := ParseMember(s[1..]);
        if first.NotParsed? then NotParsed else
          var others := ParseMembers(first.rest);
          if others.NotParsed? then NotParsed else Parsed(CObject([first.value] + others.value), others.rest)
    else if NULL_TEXT <= s then Parsed(CNull, s[4..])
    else if TRUE_TEXT <= s then Parsed(CBool(true), s[4..])
    else if FALSE_TEXT <= s then Parsed(CBool(false), s[5..])
    else
      var (text, rest) := TakeNumber(s);
      if text == [] then NotParsed else Parsed(CNumber(text), rest)
  }

  function ParseItems(s: Text): (r: Parsed<seq<Canon>>)
    ensures r.Parsed? ==> |r.rest| < |s|
    decreases |s|, 1
  {
    if s == [] then NotParsed
    else if s[0] == CLOSE_ARRAY then Parsed([], s[1..])
    else if s[0] != COMMA then NotParsed
    else
      var first := ParseValue(s[1..]);
      if first.NotParsed? then NotParsed else
        var others := ParseItems(first.rest);
        if others.NotParsed? then NotParsed else Parsed([first.value] + others.value, others.rest)
  }

  function ParseMember(s: Text): (r: Parsed<CMember>)
    ensures r.Parsed? ==> |r.rest| < |s|
    decreases |s|, 1
  {
    if s == [] || s[0] != QUOTE then NotParsed else
      var key := ParseBody(s[1..]);
      if key.NotParsed? || key.rest == [] || key.rest[0] != COLON then NotParsed else
        var value := ParseValue(key.rest[1..]);
        if value.NotParsed? then NotParsed else Parsed(CMember(key.value, value.value), value.rest)
  }

  function ParseMembers(s: Text): (r: Parsed<seq<CMember>>)
    ensures r.Parsed? ==> |r.rest| < |s|
    decreases |s|, 2
  {
    if s == [] then NotParsed
    else if s[0] == CLOSE_OBJECT then Parsed([], s[1..])
    else if s[0] != COMMA then NotParsed
    else
      var first := ParseMember(s[1..]);
      if first.NotParsed? then NotParsed else
        var others := ParseMembers(first.rest);
        if others.NotParsed? then NotParsed else Parsed([first.value] + others.value, others.rest)
  }

  /** What may follow a value: anything that does not continue a number. */
  predicate Ends(rest: Text) {
    rest == [] || !IsNumberUnit(rest[0])
  }

  lemma {:induction false} TakeNumberAll(text: Text, rest: Text)
    requires (forall i :: 0 <= i < |text| ==> IsNumberUnit(text[i])) && Ends(rest)
    ensures TakeNumber(text + rest) == (text, rest)
  {
    if text == [] {
      assert text + rest == rest;
    } else {
      TakeNumberAll(text[1..], rest);
      assert (text + rest)[1..] == text[1..] + rest;
      assert text == [text[0]] + text[1..];
    }
  }

  /** The first unit of a printed value tells its kind and is never a closing bracket. */
  lemma PrintStart(c: Canon)
    requires NumbersAreText(c)
    ensures Print(c) != [] && Print(c)[0] != CLOSE_ARRAY && Print(c)[0] != CLOSE_OBJECT
  {
  }

  lemma ParsePrintScalar(c: Canon, rest: Text)
    requires NumbersAreText(c) && Ends(rest) && !c.CArray? && !c.CObject?
    ensures ParseValue(Print(c) + rest) == Parsed(c, rest)
  {
    hide EscapeAll, ParseBody, TakeNumber;
    var s := Print(c) + rest;
    match c
    case CNull => assert s[4..] == rest;
    case CBool(b) =>
      if b { assert s[4..] == rest; } else { assert s[5..] == rest; }
    case CNumber(text) =>
      TakeNumberAll(text, rest);
      assert s[0] == text[0];
      assert s[0] != NULL_TEXT[0] && s[0] != TRUE_TEXT[0] && s[0] != FALSE_TEXT[0];
    case CString(str) =>
      ParseQuoted(str, rest);
      assert s[1..] == EscapeAll(str) + [QUOTE] + rest;
  }

  lemma ParseArrayUnfolds(s: Text, first: Canon, mid: Text, others: seq<Canon>, rest: Text)
    requires |s| > 1 && s[0] == OPEN_ARRAY && s[1] != CLOSE_ARRAY
    requires ParseValue(s[1..]) == Parsed(first, mid) && ParseItems(mid) == Parsed(others, rest)
    ensures ParseValue(s) == Parsed(CArray([first] + others), rest)
  {
    hide ParseItems, ParseBody, ParseMembers, ParseMember, TakeNumber;
  }

  lemma ParseArrayParts(first: Canon, others: seq<Canon>, rest: Text)
    requires Print(first) != [] && Print(first)[0] != CLOSE_ARRAY
    requires ParseValue(Print(first) + (PrintItems(others) + rest)) == Parsed(first, PrintItems(others) + rest)
    requires ParseItems(PrintItems(others) + rest) == Parsed(others, rest)
    ensures ParseValue([OPEN_ARRAY] + Print(first) + PrintItems(others) + rest) == Parsed(CArray([first] + others), rest)
  {
    hide Print, PrintItems, ParseItems, ParseValue;
    var body, tail := Print(first), PrintItems(others) + rest;
    var s := [OPEN_ARRAY] + body + PrintItems(others) + rest;
    assert s == [OPEN_ARRAY] + (body + tail);
    assert s[1..] == body + tail;
    assert s[1] == body[0];
    ParseArrayUnfolds(s, first, tail, others, rest);
  }

  lemma ParseObjectParts(first: CMember, others: seq<CMember>, rest: Text)
    requires var tail := PrintMembers(others) + rest;
      ParseMember(Quote(first.key) + [COLON] + Print(first.value) + tail) == Parsed(first, tail)
    requires ParseMembers(PrintMembers(others) + rest) == Parsed(others, rest)
    ensures ParseValue([OPEN_OBJECT] + (Quote(first.key) + [COLON] + Print(first.value)) + PrintMembers(others) + rest)
         == Parsed(CObject([first] + others), rest)
  {
    hide Print, PrintMembers, ParseMembers, ParseBody, ParseItems, ParseMember, TakeNumber, EscapeAll;
    var s := [OPEN_OBJECT] + (Quote(first.key) + [COLON] + Print(first.value)) + PrintMembers(others) + rest;
    assert s[1..] == Quote(first.key) + [COLON] + Print(first.value) + (PrintMembers(others) + rest);
    assert s[1] == QUOTE;
  }

  /** The parser undoes the printer, whatever follows. */
  lemma {:induction false} ParsePrint(c: Canon, rest: Text)
    requires NumbersAreText(c) && Ends(rest)
    ensures ParseValue(Print(c) + rest) == Parsed(c, rest)
    decreases c
  {
    hide ParseValue, Quote;
    if c.CArray? && c.items != [] {
      var tail := PrintItems(c.items[1..]) + rest;
      ItemsTailEnds(c.items[1..], rest);
      ParsePrint(c.items[0], tail);
      ParsePrintItems(c.items[1..], rest);
      PrintStart(c.items[0]);
      ParseArrayParts(c.items[0], c.items[1..], rest);
      assert c.items == [c.items[0]] + c.items[1..];
    } else if c.CObject? && c.members != [] {
      var tail := PrintMembers(c.members[1..]) + rest;
      MembersTailEnds(c.members[1..], rest);
      ParsePrint(c.members[0].value, tail);
      ParsePrintMember(c.members[0], tail);
      ParsePrintMembers(c.members[1..], rest);
      ParseObjectParts(c.members[0], c.members[1..], rest);
      assert c.members == [c.members[0]] + c.members[1..];
    } else if c.CArray? || c.CObject? {
      ParseEmpty(rest);
    } else {
      ParsePrintScalar(c, rest);
    }
  }

  lemma ParseEmpty(rest: Text)
    ensures ParseValue([OPEN_ARRAY, CLOSE_ARRAY] + rest) == Parsed(CArray([]), rest)
    ensures ParseValue([OPEN_OBJECT, CLOSE_OBJECT] + rest) == Parsed(CObject([]), rest)
  {
    assert ([OPEN_ARRAY, CLOSE_ARRAY] + rest)[2..] == rest;
    assert ([OPEN_OBJECT, CLOSE_OBJECT] + rest)[2..] == rest;
  }

  lemma ItemsTailEnds(items: seq<Canon>, rest: Text)
    ensures Ends(PrintItems(items) + rest)
  {
  }

  lemma MembersTailEnds(members: seq<CMember>, rest: Text)
    ensures Ends(PrintMembers(members) + rest)
  {
  }

  lemma ParsePrintMember(m: CMember, tail: Text)
    requires ParseValue(Print(m.value) + tail) == Parsed(m.value, tail)
    ensures ParseMember(Quote(m.key) + [COLON] + Print(m.value) + tail) == Parsed(m, tail)
  {
    hide EscapeAll, ParseBody, Print, ParseValue;
    var s := Quote(m.key) + [COLON] + Print(m.value) + tail;
    var afterKey := [COLON] + Print(m.value) + tail;
    ParseQuoted(m.key, afterKey);
    assert s[1..] == EscapeAll(m.key) + [QUOTE] + afterKey;
    assert afterKey[1..] == Print(m.value) + tail;
  }

  lemma {:induction false} ParsePrintItems(items: seq<Canon>, rest: Text)
    requires forall i :: 0 <= i < |items| ==> NumbersAreText(items[i])
    ensures ParseItems(PrintItems(items) + rest) == Parsed(items, rest)
    decreases items
  {
    hide Print, ParseValue;
    var s := PrintItems(items) + rest;
    if items != [] {
      var tail := PrintItems(items[1..]) + rest;
      ItemsTailEnds(items[1..], rest);
      ParsePrint(items[0], tail);
      ParsePrintItems(items[1..], rest);
      assert s[1..] == Print(items[0]) + tail;
      assert items == [items[0]] + items[1..];
    } else {
      assert s[1..] == rest;
    }
  }

  lemma ParseMembersUnfolds(s: Text, first: CMember, mid: Text, others: seq<CMember>, rest: Text)
    requires s != [] && s[0] == COMMA
    requires ParseMember(s[1..]) == Parsed(first, mid) && ParseMembers(mid) == Parsed(others, rest)
    ensures ParseMembers(s) == Parsed([first] + others, rest)
  {
    hide ParseMember;
  }

  lemma {:induction false} ParsePrintMembers(members: seq<CMember>, rest: Text)
    requires forall i :: 0 <= i < |members| ==> NumbersAreText(members[i].value)
    ensures ParseMembers(PrintMembers(members) + rest) == Parsed(members, rest)
    decreases members
  {
    hide Print, ParseValue, ParseMember, Quote;
    var s := PrintMembers(members) + rest;
    if members != [] {
      var tail := PrintMembers(members[1..]) + rest;
      MembersTailEnds(members[1..], rest);
      ParsePrint(members[0].value, tail);
      ParsePrintMember(members[0], tail);
      ParsePrintMembers(members[1..], rest);
      hide ParseMembers;
      assert s[1..] == Quote(members[0].key) + [COLON] + Print(members[0].value) + tail;
      assert members == [members[0]] + members[1..];
      ParseMembersUnfolds(s, members[0], tail, members[1..], rest);
    } else {
      assert s[1..] == rest;
    }
  }

  /** Two canonical values with the same text are the same value. */
  lemma PrintInjective(a: Canon, b: Canon)
    requires NumbersAreText(a) && NumbersAreText(b) && Print(a) == Print(b)
    ensures a == b
  {
    hide Print, ParseValue;
    ParsePrint(a, []);
    ParsePrint(b, []);
  }
}
