/** What the digest hashes: the preimage as the text encoder turns it into Unicode scalar values, which UTF-8
    (section 3 of RFC 3629) encodes one by one and without ambiguity. */
module Encoding {
  import opened Digest
  import opened Json
  import opened Options

  const REPLACEMENT := 0xFFFD

  predicate IsPair(t: Text) {
    |t| >= 2 && IsHighSurrogate(t[0]) && IsLowSurrogate(t[1])
  }

  predicate IsSurrogate(u: Unit) {
    IsHighSurrogate(u) || IsLowSurrogate(u)
  }

  function ScalarOfPair(high: Unit, low: Unit): int {
    0x1_0000 + (high - 0xD800) * 0x400 + (low - 0xDC00)
  }

  /** A surrogate pair is one scalar value; a surrogate on its own becomes the replacement character. */
  function Scalars(t: Text): seq<int>
    decreases |t|
  {
    if t == [] then []
    else if IsPair(t) then [ScalarOfPair(t[0], t[1])] + Scalars(t[2..])
    else [if IsSurrogate(t[0]) then REPLACEMENT else t[0]] + Scalars(t[1..])
  }

  /** No surrogate stands on its own. */
  predicate WellPaired(t: Text)
    decreases |t|
  {
    if t == [] then true
    else if IsPair(t) then WellPaired(t[2..])
    else !IsSurrogate(t[0]) && WellPaired(t[1..])
  }

  // -------------------------------------------------------------------- splitting ---

  /** A unit that is no surrogate splits the encoding. */
  lemma {:induction false} ScalarsSplit(a: Text, u: Unit, b: Text)
    requires !IsSurrogate(u)
    ensures Scalars(a + [u] + b) == Scalars(a) + [u as int] + Scalars(b)
    decreases |a|
  {
    var t := a + [u] + b;
    if a == [] {
      assert t == [u] + b && t[1..] == b;
    } else if IsPair(a) {
      ScalarsSplit(a[2..], u, b);
      assert t[0] == a[0] && t[1] == a[1] && t[2..] == a[2..] + [u] + b;
    } else {
      ScalarsSplit(a[1..], u, b);
      assert t[0] == a[0] && t[1] == (if |a| > 1 then a[1] else u) && t[1..] == a[1..] + [u] + b;
    }
  }

  lemma {:induction false} ScalarsWithoutNewline(t: Text)
    requires NoNewline(t)
    ensures forall i :: 0 <= i < |Scalars(t)| ==> Scalars(t)[i] != NEWLINE
    decreases |t|
  {
    if t != [] {
      assert t[0] != NEWLINE;
      if IsPair(t) {
        ScalarsWithoutNewline(t[2..]);
      } else {
        ScalarsWithoutNewline(t[1..]);
      }
    }
  }

  lemma LastNewlineOf(x: seq<int>, y: seq<int>)
    requires forall i :: 0 <= i < |y| ==> y[i] != NEWLINE
    ensures var p := x + [NEWLINE as int] + y;
      p[|x|] == NEWLINE && (forall i :: |x| < i < |p| ==> p[i] != NEWLINE) && p[..|x|] == x && p[|x| + 1..] == y
  {
  }

  lemma SplitsAtLastNewline(x1: seq<int>, y1: seq<int>, x2: seq<int>, y2: seq<int>)
    requires (forall i :: 0 <= i < |y1| ==> y1[i] != NEWLINE) && (forall i :: 0 <= i < |y2| ==> y2[i] != NEWLINE)
    requires x1 + [NEWLINE as int] + y1 == x2 + [NEWLINE as int] + y2
    ensures x1 == x2 && y1 == y2
  {
    LastNewlineOf(x1, y1);
    LastNewlineOf(x2, y2);
  }

  // -------------------------------------------------- paired texts lose nothing ---

  lemma {:induction false} ScalarsInjective(a: Text, b: Text)
    requires WellPaired(a) && WellPaired(b) && Scalars(a) == Scalars(b)
    ensures a == b
    decreases |a|
  {
    if a == [] {
      assert b == [];
    } else {
      assert b != [];
      assert Scalars(a)[0] == Scalars(b)[0];
      assert IsPair(a) <==> Scalars(a)[0] >= 0x1_0000;
      assert IsPair(b) <==> Scalars(b)[0] >= 0x1_0000;
      if IsPair(a) {
        PairDetermined(a[0], a[1], b[0], b[1]);
        assert Scalars(a)[1..] == Scalars(a[2..]) && Scalars(b)[1..] == Scalars(b[2..]);
        ScalarsInjective(a[2..], b[2..]);
        assert a == [a[0], a[1]] + a[2..] && b == [b[0], b[1]] + b[2..];
      } else {
        assert Scalars(a)[1..] == Scalars(a[1..]) && Scalars(b)[1..] == Scalars(b[1..]);
        ScalarsInjective(a[1..], b[1..]);
        assert a == [a[0]] + a[1..] && b == [b[0]] + b[1..];
      }
    }
  }

  lemma PairDetermined(h1: Unit, l1: Unit, h2: Unit, l2: Unit)
    requires IsHighSurrogate(h1) && IsLowSurrogate(l1) && IsHighSurrogate(h2) && IsLowSurrogate(l2)
    requires ScalarOfPair(h1, l1) == ScalarOfPair(h2, l2)
    ensures h1 == h2 && l1 == l2
  {
  }

  lemma {:induction false} PairedConcat(a: Text, b: Text)
    requires WellPaired(a) && WellPaired(b)
    ensures WellPaired(a + b)
    decreases |a|
  {
    var t := a + b;
    if a == [] {
      assert t == b;
    } else if IsPair(a) {
      PairedConcat(a[2..], b);
      assert t[0] == a[0] && t[1] == a[1] && t[2..] == a[2..] + b;
    } else {
      PairedConcat(a[1..], b);
      assert t[0] == a[0] && t[1..] == a[1..] + b;
    }
  }

  predicate Plain(t: Text) {
    forall i :: 0 <= i < |t| ==> !IsSurrogate(t[i])
  }

  lemma {:induction false} PlainIsPaired(t: Text)
    requires Plain(t)
    ensures WellPaired(t)
    decreases |t|
  {
    if t != [] {
      PlainIsPaired(t[1..]);
    }
  }

  /** Strings are escaped so that no surrogate is left on its own. */
  lemma {:induction false} EscapedIsPaired(s: Text)
    ensures WellPaired(EscapeAll(s))
    decreases |s|
  {
    if s == [] {
    } else if IsPair(s) {
      EscapedIsPaired(s[2..]);
      var t := [s[0], s[1]] + EscapeAll(s[2..]);
      assert t[2..] == EscapeAll(s[2..]);
    } else {
      EscapedIsPaired(s[1..]);
      EscapedUnitIsPlain(s[0]);
      PlainIsPaired(EscapeUnit(s[0]));
      PairedConcat(EscapeUnit(s[0]), EscapeAll(s[1..]));
    }
  }

  lemma EscapedUnitIsPlain(u: Unit)
    ensures Plain(EscapeUnit(u))
  {
  }

  lemma QuotedIsPaired(s: Text)
    ensures WellPaired(Quote(s))
  {
    hide EscapeAll;
    EscapedIsPaired(s);
    PlainIsPaired([QUOTE]);
    PairedConcat([QUOTE], EscapeAll(s));
    PairedConcat([QUOTE] + EscapeAll(s), [QUOTE]);
  }

  lemma UnitThenPaired(u: Unit, t: Text)
    requires !IsSurrogate(u) && WellPaired(t)
    ensures WellPaired([u] + t)
  {
    assert ([u] + t)[1..] == t;
  }

  /** A canonical text loses nothing when it is encoded. */
  lemma {:induction false} PrintIsPaired(c: Canon)
    requires NumbersAreText(c)
    ensures WellPaired(Print(c))
    decreases c
  {
    match c
    case CNull => PlainIsPaired(NULL_TEXT);
    case CBool(b) => PlainIsPaired(if b then TRUE_TEXT else FALSE_TEXT);
    case CNumber(text) => PlainIsPaired(text);
    case CString(s) => QuotedIsPaired(s);
    case CArray(items) =>
      if items == [] {
        PlainIsPaired([OPEN_ARRAY, CLOSE_ARRAY]);
      } else {
        PrintIsPaired(items[0]);
        ItemsArePaired(items[1..]);
        hide Print, PrintItems, WellPaired;
        UnitThenPaired(OPEN_ARRAY, Print(items[0]));
        PairedConcat([OPEN_ARRAY] + Print(items[0]), PrintItems(items[1..]));
        PrintOfArray(items);
      }
    case CObject(members) =>
      if members == [] {
        PlainIsPaired([OPEN_OBJECT, CLOSE_OBJECT]);
      } else {
        PrintIsPaired(members[0].value);
        MemberIsPaired(members[0]);
        MembersArePaired(members[1..]);
        hide Print, PrintMembers, WellPaired, Quote;
        var first := Quote(members[0].key) + [COLON] + Print(members[0].value);
        UnitThenPaired(OPEN_OBJECT, first);
        PairedConcat([OPEN_OBJECT] + first, PrintMembers(members[1..]));
        PrintOfObject(members);
      }
  }

  lemma PrintOfArray(items: seq<Canon>)
    requires items != []
    ensures Print(CArray(items)) == [OPEN_ARRAY] + Print(items[0]) + PrintItems(items[1..])
  {
  }

  lemma PrintOfObject(members: seq<CMember>)
    requires members != []
    ensures Print(CObject(members))
         == [OPEN_OBJECT] + (Quote(members[0].key) + [COLON] + Print(members[0].value)) + PrintMembers(members[1..])
  {
  }

  lemma MemberIsPaired(m: CMember)
    requires WellPaired(Print(m.value))
    ensures WellPaired(Quote(m.key) + [COLON] + Print(m.value))
  {
    hide Print, Quote, WellPaired;
    QuotedIsPaired(m.key);
    PlainIsPaired([COLON]);
    PairedConcat(Quote(m.key), [COLON]);
    PairedConcat(Quote(m.key) + [COLON], Print(m.value));
  }

  lemma {:induction false} ItemsArePaired(items: seq<Canon>)
    requires forall i :: 0 <= i < |items| ==> NumbersAreText(items[i])
    ensures WellPaired(PrintItems(items))
    decreases items
  {
    hide Print, WellPaired;
    if items == [] {
      PlainIsPaired([CLOSE_ARRAY]);
    } else {
      PrintIsPaired(items[0]);
      ItemsArePaired(items[1..]);
      UnitThenPaired(COMMA, Print(items[0]));
      PairedConcat([COMMA] + Print(items[0]), PrintItems(items[1..]));
    }
  }

  lemma {:induction false} MembersArePaired(members: seq<CMember>)
    requires forall i :: 0 <= i < |members| ==> NumbersAreText(members[i].value)
    ensures WellPaired(PrintMembers(members))
    decreases members
  {
    hide Print, WellPaired, Quote;
    if members == [] {
      PlainIsPaired([CLOSE_OBJECT]);
    } else {
      PrintIsPaired(members[0].value);
      MemberIsPaired(members[0]);
      MembersArePaired(members[1..]);
      var first := Quote(members[0].key) + [COLON] + Print(members[0].value);
      UnitThenPaired(COMMA, first);
      PairedConcat([COMMA] + first, PrintMembers(members[1..]));
    }
  }

  // ----------------------------------------------------------------- what is hashed ---

  /** The encoded preimage determines the arguments up to equivalence, and the tool exactly as far as its own
      encoding does: names that differ only in surrogates standing alone are hashed alike. */
  lemma EncodedPreimageDeterminesCall(tool1: Text, args1: Value, tool2: Text, args2: Value)
    requires WellFormed(args1) && WellFormed(args2) && CanonicalJson(args1).Some? && CanonicalJson(args2).Some?
    ensures Scalars(Preimage(tool1, CanonicalJson(args1).value)) == Scalars(Preimage(tool2, CanonicalJson(args2).value))
       <==> Scalars(tool1) == Scalars(tool2) && Equivalent(args1, args2)
  {
    hide Canonicalize, Equivalent, Print, NumbersAreText, WellFormed, Scalars, WellPaired;
    SameTextIffEquivalent(args1, args2);
    CanonicalNumbersAreText(args1);
    CanonicalNumbersAreText(args2);
    PrintIsPaired(Canonicalize(args1).value);
    PrintIsPaired(Canonicalize(args2).value);
    PrintHasNoNewline(Canonicalize(args1).value);
    PrintHasNoNewline(Canonicalize(args2).value);
    var json1, json2 := CanonicalJson(args1).value, CanonicalJson(args2).value;
    ScalarsSplit(tool1, NEWLINE, json1);
    ScalarsSplit(tool2, NEWLINE, json2);
    ScalarsWithoutNewline(json1);
    ScalarsWithoutNewline(json2);
    if Scalars(Preimage(tool1, json1)) == Scalars(Preimage(tool2, json2)) {
      SplitsAtLastNewline(Scalars(tool1), Scalars(json1), Scalars(tool2), Scalars(json2));
      ScalarsInjective(json1, json2);
    }
  }

  /** A tool name without such surrogates, as every name of the catalogue is, is determined too. */
  lemma HashedTextDeterminesCall(tool1: Text, args1: Value, tool2: Text, args2: Value)
    requires WellPaired(tool1) && WellPaired(tool2)
    requires WellFormed(args1) && WellFormed(args2) && CanonicalJson(args1).Some? && CanonicalJson(args2).Some?
    ensures Scalars(Preimage(tool1, CanonicalJson(args1).value)) == Scalars(Preimage(tool2, CanonicalJson(args2).value))
       <==> tool1 == tool2 && Equivalent(args1, args2)
  {
    hide Canonicalize, Equivalent, Print, WellFormed, Scalars, WellPaired, Preimage, CanonicalJson;
    EncodedPreimageDeterminesCall(tool1, args1, tool2, args2);
    if Scalars(tool1) == Scalars(tool2) {
      ScalarsInjective(tool1, tool2);
    }
  }
}
