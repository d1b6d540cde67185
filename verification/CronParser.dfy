/** The five-field cron parser: minute, hour, day-of-month, month, day-of-week. */
module CronParser {
  import opened Cron
  import opened Decimal
  import opened Options
  import opened Ticks

  datatype FieldSpec = FieldSpec(min: nat, max: nat, names: seq<string>, firstName: nat, isDayOfWeek: bool)

  const MONTH_NAMES := ["jan", "feb", "mar", "apr", "may", "jun", "jul", "aug", "sep", "oct", "nov", "dec"]
  const DAY_NAMES := ["sun", "mon", "tue", "wed", "thu", "fri", "sat"]

  const MINUTE := FieldSpec(0, 59, [], 0, false)
  const HOUR := FieldSpec(0, 23, [], 0, false)
  const DAY_OF_MONTH := FieldSpec(1, 31, [], 1, false)
  const MONTH := FieldSpec(1, 12, MONTH_NAMES, 1, false)
  const DAY_OF_WEEK := FieldSpec(0, 7, DAY_NAMES, 0, true)

  /** The five fields: names only ever stand for values the numbers of the field can reach. */
  predicate ValidSpec(spec: FieldSpec) {
    && spec.min <= spec.max
    && spec.min <= spec.firstName && spec.firstName + |spec.names| <= spec.max + 1
    && (spec.isDayOfWeek ==> spec.min == 0 && spec.max == 7)
  }

  // ------------------------------------------------------------------ splitting ---

  /** `text.split(separator)` for a one-character separator: never empty. */
  function Split(text: string, separator: char): (parts: seq<string>)
    ensures parts != []
  {
    if text == [] then [[]]
    else
      var rest := Split(text[1..], separator);
      if text[0] == separator then [[]] + rest else [[text[0]] + rest[0]] + rest[1..]
  }

  function Join(parts: seq<string>, separator: char): string
    requires parts != []
  {
    if |parts| == 1 then parts[0] else parts[0] + [separator] + Join(parts[1..], separator)
  }

  lemma {:induction false} SplitHead(head: string, tail: string, separator: char)
    requires separator !in head
    ensures Split(head + [separator] + tail, separator) == [head] + Split(tail, separator)
    ensures Split(head, separator) == [head]
  {
    var text := head + [separator] + tail;
    if head == [] {
      assert text[1..] == tail;
    } else {
      SplitHead(head[1..], tail, separator);
      assert text[1..] == head[1..] + [separator] + tail;
      assert head == [head[0]] + head[1..];
    }
  }

  lemma {:induction false} SplitJoin(parts: seq<string>, separator: char)
    requires parts != [] && forall i :: 0 <= i < |parts| ==> separator !in parts[i]
    ensures Split(Join(parts, separator), separator) == parts
  {
    if |parts| == 1 {
      SplitHead(parts[0], [], separator);
    } else {
      SplitJoin(parts[1..], separator);
      SplitHead(parts[0], Join(parts[1..], separator), separator);
    }
  }

  // --------------------------------------------------------------------- values ---

  /** Lower case as far as names and aliases can tell. Beside the capitals the Kelvin sign is the one character whose
      lower case is an ASCII letter alone; the others stay outside ASCII and match nothing, lowered or not. */
  function Lower(c: char): char {
    if 'A' <= c <= 'Z' then c - 'A' + 'a' else if c == '\U{212A}' then 'k' else c
  }

  function ToLower(s: string): string {
    seq(|s|, i requires 0 <= i < |s| => Lower(s[i]))
  }

  function ParseValue(token: string, spec: FieldSpec): (r: Option<nat>)
    requires ValidSpec(spec)
    ensures r.Some? ==> spec.min <= r.value <= spec.max
  {
    var index := IndexOf(spec.names, ToLower(token));
    if index != -1 then Some(spec.firstName + index)
    else if token == [] || !AllDigits(token) then None
    else
      var n := ParseNat(token);
      if n < spec.min || n > spec.max then None else Some(n)
  }

  /** What one comma part denotes: the values from `from` to `to` in steps of `step`. */
  datatype Range = Range(from: nat, to: nat, step: nat, restricts: bool)

  function ParseStep(stepText: string): Option<nat> {
    if stepText == [] || !AllDigits(stepText) || ParseNat(stepText) == 0 then None else Some(ParseNat(stepText))
  }

  function ParseRange(range: string, stepped: bool, step: nat, spec: FieldSpec): (r: Option<Range>)
    requires ValidSpec(spec) && step >= 1
    ensures r.Some? ==> spec.min <= r.value.from <= r.value.to <= spec.max && r.value.step >= 1
    ensures r.Some? && !r.value.restricts ==> r.value == Range(spec.min, spec.max, step, false) && !stepped
  {
    if range == "*" || range == "?" then Some(Range(spec.min, spec.max, step, stepped))
    else if '-' in range then
      var ends := Split(range, '-');
      if |ends| != 2 then None
      else
        var from, to := ParseValue(ends[0], spec), ParseValue(ends[1], spec);
        if from.None? || to.None? || from.value > to.value then None
        else Some(Range(from.value, to.value, step, true))
    else
      var from := ParseValue(range, spec);
      if from.None? then None
      else Some(Range(from.value, if stepped then spec.max else from.value, step, true))
  }

  function ParsePart(part: string, spec: FieldSpec): (r: Option<Range>)
    requires ValidSpec(spec)
    ensures r.Some? ==> spec.min <= r.value.from <= r.value.to <= spec.max && r.value.step >= 1
    ensures r.Some? && !r.value.restricts ==> r.value == Range(spec.min, spec.max, 1, false)
  {
    var pieces := Split(part, '/');
    if part == [] || |pieces| > 2 then None
    else if |pieces| == 1 then ParseRange(pieces[0], false, 1, spec)
    else
      var step := ParseStep(pieces[1]);
      if step.None? then None else ParseRange(pieces[0], true, step.value, spec)
  }

  // --------------------------------------------------------------------- fields ---

  datatype FieldResult = Field(values: set<int>, restricted: bool) | FieldError

  /** The value is one the part lists. */
  ghost predicate Denotes(range: Range, v: int) {
    range.from <= v <= range.to && exists k: nat :: v == range.from + k * range.step
  }

  /** The value is listed by a part of the field, reading 7 as Sunday in the day-of-week field. */
  ghost predicate Listed(parts: seq<string>, spec: FieldSpec, v: int)
    requires ValidSpec(spec)
  {
    exists i :: 0 <= i < |parts| && PartLists(parts[i], spec, v)
  }

  ghost predicate PartLists(part: string, spec: FieldSpec, v: int)
    requires ValidSpec(spec)
  {
    var range := ParsePart(part, spec);
    && range.Some?
    && (if spec.isDayOfWeek then v != 7 && (Denotes(range.value, v) || (v == 0 && Denotes(range.value, 7)))
        else Denotes(range.value, v))
  }

  method AddRange(values: set<int>, range: Range) returns (r: set<int>)
    requires range.step >= 1
    ensures forall v :: v in r <==> v in values || Denotes(range, v)
  {
    r := values;
    var v := range.from;
    ghost var k: nat := 0;
    while v <= range.to
      invariant v == range.from + k * range.step
      invariant forall u :: u in r <==>
        u in values || (range.from <= u <= range.to && exists j: nat :: j < k && u == range.from + j * range.step)
      decreases range.to - v
    {
      r := r + {v};
      assert (k + 1) * range.step == k * range.step + range.step;
      k := k + 1;
      v := v + range.step;
    }
    forall u ensures u in r <==> u in values || Denotes(range, u) {
      if Denotes(range, u) {
        var j: nat :| u == range.from + j * range.step;
        StepsOrdered(j, k, range.step);
      }
    }
  }

  lemma StepsOrdered(j: nat, k: nat, step: nat)
    ensures j >= k ==> j * step >= k * step
  {
  }

  /** The meaning of a field: refused when a part is malformed; otherwise the union of what its parts
      list, unrestricted when every part is a bare star. */
  ghost function FieldMeaning(raw: string, spec: FieldSpec): FieldResult
    requires ValidSpec(spec)
  {
    var parts := Split(raw, ',');
    if exists i :: 0 <= i < |parts| && ParsePart(parts[i], spec).None? then FieldError
    else
      Field(set v | spec.min <= v <= spec.max && Listed(parts, spec, v),
            exists i :: 0 <= i < |parts| && ParsePart(parts[i], spec).value.restricts)
  }

  method ParseField(raw: string, spec: FieldSpec) returns (r: FieldResult)
    requires ValidSpec(spec)
    ensures r == FieldMeaning(raw, spec)
  {
    hide ParsePart, Denotes;
    var parts := Split(raw, ',');
    var values: set<int> := {};
    var restricted := false;
    for i := 0 to |parts|
      invariant forall k :: 0 <= k < i ==> ParsePart(parts[k], spec).Some?
      invariant forall v :: v in values <==> exists k :: 0 <= k < i && Denotes(ParsePart(parts[k], spec).value, v)
      invariant restricted <==> exists k :: 0 <= k < i && ParsePart(parts[k], spec).value.restricts
    {
      var range := ParsePart(parts[i], spec);
      if range.None? {
        assert ParsePart(parts[i], spec).None?;
        return FieldError;
      }
      restricted := restricted || range.value.restricts;
      values := AddRange(values, range.value);
    }
    ghost var listed := values;
    forall k, v | 0 <= k < |parts| && Denotes(ParsePart(parts[k], spec).value, v) ensures spec.min <= v <= spec.max {
      DenotesWithin(ParsePart(parts[k], spec).value, v);
    }
    if spec.isDayOfWeek && 7 in values {
      values := values - {7} + {0};
    }
    assert forall v :: v in values <==> spec.min <= v <= spec.max && Listed(parts, spec, v);
    return Field(values, restricted);
  }

  lemma DenotesWithin(range: Range, v: int)
    requires Denotes(range, v)
    ensures range.from <= v <= range.to
  {
  }

  // ------------------------------------------------------- what a parsed field holds ---

  predicate Full(values: set<int>, spec: FieldSpec)
    requires ValidSpec(spec)
  {
    forall v :: spec.min <= v <= (if spec.isDayOfWeek then 6 else spec.max) ==> v in values
  }

  /** A parsed field is nonempty and in range, with Sunday as 0, and an unrestricted one is full. */
  lemma ParsedFieldInRange(raw: string, spec: FieldSpec)
    requires ValidSpec(spec)
    ensures var r := FieldMeaning(raw, spec);
      r.Field? ==>
        && r.values != {}
        && (forall v :: v in r.values ==> spec.min <= v <= (if spec.isDayOfWeek then 6 else spec.max))
        && (!r.restricted ==> Full(r.values, spec))
  {
    hide ParsePart;
    var r := FieldMeaning(raw, spec);
    if r.Field? {
      var parts := Split(raw, ',');
      var range := ParsePart(parts[0], spec).value;
      assert range.from == range.from + 0 * range.step;
      assert Denotes(range, range.from);
      var first: int := if spec.isDayOfWeek && range.from == 7 then 0 else range.from;
      assert PartLists(parts[0], spec, first);
      assert Listed(parts, spec, first);
      assert first in r.values;
      if !r.restricted {
        assert ParsePart(parts[0], spec).Some? && !range.restricts;
        forall v | spec.min <= v <= (if spec.isDayOfWeek then 6 else spec.max) ensures v in r.values {
          assert v == range.from + (v - range.from) * range.step;
          assert Denotes(range, v);
          assert PartLists(parts[0], spec, v);
        }
      }
    }
  }

  // ---------------------------------------------------------------- printing back ---

  function PrintAll(values: seq<int>): (parts: seq<string>)
    requires forall i :: 0 <= i < |values| ==> values[i] >= 0
    ensures |parts| == |values| && forall i :: 0 <= i < |values| ==> parts[i] == PrintNat(values[i])
  {
    if values == [] then [] else [PrintNat(values[0])] + PrintAll(values[1..])
  }

  /** A value set as a comma list, in ascending order. */
  function PrintField(values: set<int>): string
    requires values != {} && forall v :: v in values ==> v >= 0
  {
    var sorted := Sorted(values);
    assert forall i :: 0 <= i < |sorted| ==> sorted[i] in sorted;
    Join(PrintAll(sorted), ',')
  }

  lemma NumeralHasOnlyDigits(n: nat, c: char)
    requires !IsDigit(c)
    ensures c !in PrintNat(n)
  {
  }

  predicate NamesAreWords(spec: FieldSpec) {
    forall i :: 0 <= i < |spec.names| ==> spec.names[i] != [] && 'a' <= spec.names[i][0] <= 'z'
  }

  /** A numeral on its own denotes its value and nothing else. */
  lemma NumeralPart(n: nat, spec: FieldSpec)
    requires ValidSpec(spec) && NamesAreWords(spec) && spec.min <= n <= spec.max
    ensures ParsePart(PrintNat(n), spec) == Some(Range(n, n, 1, true))
  {
    var s := PrintNat(n);
    ParsePrint(n);
    NumeralHasOnlyDigits(n, '/');
    NumeralHasOnlyDigits(n, '-');
    NumeralHasOnlyDigits(n, '*');
    NumeralHasOnlyDigits(n, '?');
    SplitHead(s, [], '/');
    assert IsDigit(s[0]) && ToLower(s)[0] == s[0];
    assert ToLower(s) !in spec.names;
    assert s != "*" && s != "?";
  }

  lemma NumeralDenotes(n: nat, v: int)
    ensures Denotes(Range(n, n, 1, true), v) <==> v == n
  {
    assert n == n + 0 * 1;
  }

  lemma NumeralPartLists(n: nat, spec: FieldSpec, v: int)
    requires ValidSpec(spec) && NamesAreWords(spec) && spec.min <= n <= (if spec.isDayOfWeek then 6 else spec.max)
    ensures ',' !in PrintNat(n) && ParsePart(PrintNat(n), spec).Some?
    ensures ParsePart(PrintNat(n), spec).value.restricts
    ensures PartLists(PrintNat(n), spec, v) <==> v == n
  {
    hide ParsePart, PrintNat, Denotes;
    NumeralHasOnlyDigits(n, ',');
    NumeralPart(n, spec);
    NumeralDenotes(n, v);
    NumeralDenotes(n, 7);
  }

  lemma PrintedPartsList(sorted: seq<int>, spec: FieldSpec, v: int)
    requires ValidSpec(spec) && NamesAreWords(spec)
    requires forall i :: 0 <= i < |sorted| ==> spec.min <= sorted[i] <= (if spec.isDayOfWeek then 6 else spec.max)
    ensures Listed(PrintAll(sorted), spec, v) <==> v in sorted
  {
    hide ParsePart, PrintNat, PartLists;
    var parts := PrintAll(sorted);
    forall i | 0 <= i < |parts| ensures PartLists(parts[i], spec, v) <==> v == sorted[i] {
      NumeralPartLists(sorted[i], spec, v);
    }
    if v in sorted {
      var i :| 0 <= i < |sorted| && sorted[i] == v;
      assert PartLists(parts[i], spec, v);
    }
  }

  lemma MeaningOfParts(raw: string, spec: FieldSpec, values: set<int>)
    requires ValidSpec(spec) && forall v :: v in values ==> spec.min <= v <= spec.max
    requires forall i :: 0 <= i < |Split(raw, ',')| ==>
      ParsePart(Split(raw, ',')[i], spec).Some? && ParsePart(Split(raw, ',')[i], spec).value.restricts
    requires forall v: int :: Listed(Split(raw, ','), spec, v) <==> v in values
    ensures FieldMeaning(raw, spec) == Field(values, true)
  {
    hide ParsePart, Listed, Split;
    var parts := Split(raw, ',');
    assert ParsePart(parts[0], spec).value.restricts;
  }

  /** Parsing undoes printing: any nonempty set of values of the field comes back, as a restricted field. */
  lemma ParsePrintField(values: set<int>, spec: FieldSpec)
    requires ValidSpec(spec) && NamesAreWords(spec) && values != {}
    requires forall v :: v in values ==> spec.min <= v <= (if spec.isDayOfWeek then 6 else spec.max)
    ensures FieldMeaning(PrintField(values), spec) == Field(values, true)
  {
    hide ParsePart, PrintNat, Listed, Sorted, Split, Join, FieldMeaning;
    var sorted := Sorted(values);
    assert forall i :: 0 <= i < |sorted| ==> sorted[i] in sorted;
    var parts := PrintAll(sorted);
    forall i | 0 <= i < |parts|
      ensures ',' !in parts[i] && ParsePart(parts[i], spec).Some? && ParsePart(parts[i], spec).value.restricts
    {
      NumeralPartLists(sorted[i], spec, 0);
    }
    SplitJoin(parts, ',');
    forall v: int ensures Listed(parts, spec, v) <==> v in values {
      PrintedPartsList(sorted, spec, v);
    }
    MeaningOfParts(PrintField(values), spec, values);
  }

  // ------------------------------------------------------------- every form of a part ---

  /** A star, one value or a span, as it is written; the values are numerals. */
  datatype Form = Every | One(a: nat) | Span(a: nat, b: nat)

  function PrintForm(form: Form): string {
    match form
    case Every => "*"
    case One(a) => PrintNat(a)
    case Span(a, b) => PrintNat(a) + "-" + PrintNat(b)
  }

  function PrintPart(form: Form, step: Option<nat>): string {
    PrintForm(form) + if step.Some? then "/" + PrintNat(step.value) else ""
  }

  predicate InRange(n: nat, spec: FieldSpec) {
    spec.min <= n <= spec.max
  }

  /** The range a part stands for: a star is the whole field, a value alone is itself and with a step runs to the end of
      the field, a span runs as written. Values outside the field, spans that run backwards and a step of 0 are refused. */
  function RangeOf(form: Form, step: Option<nat>, spec: FieldSpec): Option<Range> {
    var stride := if step.Some? then step.value else 1;
    if stride == 0 then None
    else match form
      case Every => Some(Range(spec.min, spec.max, stride, step.Some?))
      case One(a) => if InRange(a, spec) then Some(Range(a, if step.Some? then spec.max else a, stride, true)) else None
      case Span(a, b) => if InRange(a, spec) && InRange(b, spec) && a <= b then Some(Range(a, b, stride, true)) else None
  }

  lemma NumeralValue(n: nat, spec: FieldSpec)
    requires ValidSpec(spec) && NamesAreWords(spec)
    ensures ParseValue(PrintNat(n), spec) == if InRange(n, spec) then Some(n) else None
  {
    var s := PrintNat(n);
    ParsePrint(n);
    assert IsDigit(s[0]) && ToLower(s)[0] == s[0];
    assert ToLower(s) !in spec.names;
  }

  lemma FormParses(form: Form, stepped: bool, step: nat, spec: FieldSpec)
    requires ValidSpec(spec) && NamesAreWords(spec) && step >= 1 && (stepped || step == 1)
    ensures ParseRange(PrintForm(form), stepped, step, spec) == RangeOf(form, if stepped then Some(step) else None, spec)
    ensures '/' !in PrintForm(form) && PrintForm(form) != ""
  {
    match form
    case Every =>
    case One(a) => OneParses(a, stepped, step, spec);
    case Span(a, b) => SpanParses(a, b, stepped, step, spec);
  }

  lemma OneParses(a: nat, stepped: bool, step: nat, spec: FieldSpec)
    requires ValidSpec(spec) && NamesAreWords(spec) && step >= 1
    ensures ParseRange(PrintNat(a), stepped, step, spec)
         == if InRange(a, spec) then Some(Range(a, if stepped then spec.max else a, step, true)) else None
    ensures '/' !in PrintNat(a)
  {
    NumeralHasOnlyDigits(a, '-');
    NumeralHasOnlyDigits(a, '/');
    NumeralValue(a, spec);
    assert IsDigit(PrintNat(a)[0]);
    hide PrintNat, ParseValue;
  }

  lemma SpanParses(a: nat, b: nat, stepped: bool, step: nat, spec: FieldSpec)
    requires ValidSpec(spec) && NamesAreWords(spec) && step >= 1
    ensures var text := PrintNat(a) + "-" + PrintNat(b);
      && '/' !in text
      && ParseRange(text, stepped, step, spec)
           == if InRange(a, spec) && InRange(b, spec) && a <= b then Some(Range(a, b, step, true)) else None
  {
    hide PrintNat, ParseValue, Split;
    NumeralHasOnlyDigits(a, '-');
    NumeralHasOnlyDigits(b, '-');
    NumeralHasOnlyDigits(a, '/');
    NumeralHasOnlyDigits(b, '/');
    NumeralValue(a, spec);
    NumeralValue(b, spec);
    TwoPieces(PrintNat(a), PrintNat(b), '-');
    var text := PrintNat(a) + "-" + PrintNat(b);
    assert IsDigit(text[0]) && text[|PrintNat(a)|] == '-';
  }

  lemma TwoPieces(a: string, b: string, separator: char)
    requires separator !in a && separator !in b
    ensures Split(a + [separator] + b, separator) == [a, b] && Split(a, separator) == [a]
  {
    SplitHead(a, b, separator);
    SplitHead(b, [], separator);
    hide Split;
  }

  lemma PiecesOf(text: string, step: Option<nat>)
    requires '/' !in text
    ensures Split(text + if step.Some? then "/" + PrintNat(step.value) else "", '/')
         == if step.Some? then [text, PrintNat(step.value)] else [text]
  {
    hide Split, PrintNat;
    TwoPieces(text, [], '/');
    if step.Some? {
      NumeralHasOnlyDigits(step.value, '/');
      TwoPieces(text, PrintNat(step.value), '/');
      assert text + ("/" + PrintNat(step.value)) == text + ['/'] + PrintNat(step.value);
    } else {
      assert text + "" == text;
    }
  }

  /** Each form of a part, with a step or without, parses to the range it stands for or is refused. */
  lemma ParsePrintPart(form: Form, step: Option<nat>, spec: FieldSpec)
    requires ValidSpec(spec) && NamesAreWords(spec)
    ensures ParsePart(PrintPart(form, step), spec) == RangeOf(form, step, spec)
  {
    var stride := if step.Some? then step.value else 1;
    FormParses(form, step.Some?, if stride == 0 then 1 else stride, spec);
    ParsePrint(stride);
    PiecesOf(PrintForm(form), step);
    hide ParseRange, PrintForm, PrintNat, Split, ValidSpec, NamesAreWords, InRange, ParseNat;
  }

  // ------------------------------------------------------------- nothing else parses ---

  lemma {:induction false} JoinSplit(text: string, separator: char)
    ensures Join(Split(text, separator), separator) == text
    ensures forall i :: 0 <= i < |Split(text, separator)| ==> separator !in Split(text, separator)[i]
  {
    if text != [] {
      JoinSplit(text[1..], separator);
      var rest, parts := Split(text[1..], separator), Split(text, separator);
      assert text == [text[0]] + text[1..];
      if text[0] == separator {
        assert parts[1..] == rest;
      } else if |rest| > 1 {
        assert parts[1..] == rest[1..];
      }
    }
  }

  /** A name in any case, or digits. */
  predicate IsValueText(t: string, spec: FieldSpec) {
    ToLower(t) in spec.names || (t != "" && AllDigits(t))
  }

  ghost predicate IsRangeText(t: string, spec: FieldSpec) {
    || t == "*" || t == "?" || IsValueText(t, spec)
    || exists a, b :: IsSpanText(t, a, b, spec)
  }

  predicate IsSpanText(t: string, a: string, b: string, spec: FieldSpec) {
    t == a + "-" + b && IsValueText(a, spec) && IsValueText(b, spec)
  }

  predicate IsSteppedText(part: string, t: string, digits: string) {
    part == t + "/" + digits && digits != "" && AllDigits(digits) && ParseNat(digits) > 0
  }

  lemma RangeTextOf(t: string, stepped: bool, step: nat, spec: FieldSpec)
    requires ValidSpec(spec) && step >= 1 && ParseRange(t, stepped, step, spec).Some?
    ensures IsRangeText(t, spec)
  {
    if t != "*" && t != "?" && '-' in t {
      JoinSplit(t, '-');
      var ends := Split(t, '-');
      assert ends[1..] == [ends[1]];
      assert IsSpanText(t, ends[0], ends[1], spec);
    }
  }

  /** Whatever parses is a star, a question mark, a value or a span of two, alone or with one positive step behind it. */
  lemma ParsedPartForm(part: string, spec: FieldSpec)
    requires ValidSpec(spec) && ParsePart(part, spec).Some?
    ensures IsRangeText(part, spec) || exists t, digits :: IsRangeText(t, spec) && IsSteppedText(part, t, digits)
  {
    hide ParseRange, IsRangeText;
    JoinSplit(part, '/');
    var pieces := Split(part, '/');
    if |pieces| == 1 {
      RangeTextOf(part, false, 1, spec);
    } else {
      assert pieces[1..] == [pieces[1]];
      RangeTextOf(pieces[0], true, ParseStep(pieces[1]).value, spec);
      assert IsSteppedText(part, pieces[0], pieces[1]);
    }
  }

  /** Case: the 26 capitals and the Kelvin sign, and no other character, are read as another one. */
  lemma LowerMeaning(c: char)
    ensures 'A' <= c <= 'Z' ==> Lower(c) as int == c as int + 32
    ensures c == '\U{212A}' ==> Lower(c) == 'k'
    ensures !('A' <= c <= 'Z') && c != '\U{212A}' ==> Lower(c) == c
  {
  }

  /** A name, in any case, stands for its place in the list. */
  lemma NameValue(token: string, spec: FieldSpec, i: nat)
    requires ValidSpec(spec) && i < |spec.names| && ToLower(token) == spec.names[i]
    requires forall j :: 0 <= j < |spec.names| && spec.names[j] == spec.names[i] ==> j == i
    ensures ParseValue(token, spec) == Some(spec.firstName + i)
  {
  }

  // ------------------------------------------------------------------ expressions ---

  /** White space and line terminators, sections 12.2 and 12.3 of ECMA-262. */
  predicate IsSpace(c: char) {
    var u := c as int;
    9 <= u <= 13 || u == 0x20 || u == 0xA0 || u == 0x1680 || 0x2000 <= u <= 0x200A
    || u == 0x2028 || u == 0x2029 || u == 0x202F || u == 0x205F || u == 0x3000 || u == 0xFEFF
  }

  /** The 25 of them, one by one. */
  lemma IsSpaceTable(c: char)
    ensures IsSpace(c) <==> c as int in {
      0x09, 0x0A, 0x0B, 0x0C, 0x0D, 0x20, 0xA0, 0x1680, 0x2000, 0x2001, 0x2002, 0x2003, 0x2004, 0x2005, 0x2006, 0x2007, 0x2008,
      0x2009, 0x200A, 0x2028, 0x2029, 0x202F, 0x205F, 0x3000, 0xFEFF}
  {
  }

  function TrimStart(s: string): (r: string)
    ensures |r| <= |s| && (s != [] && IsSpace(s[0]) ==> |r| < |s|)
  {
    if s != [] && IsSpace(s[0]) then TrimStart(s[1..]) else s
  }

  function Trim(s: string): string {
    var t := TrimStart(s);
    TrimEnd(t)
  }

  function TrimEnd(s: string): string {
    if s != [] && IsSpace(s[|s| - 1]) then TrimEnd(s[..|s| - 1]) else s
  }

  /** `text.split(/\s+/)`. */
  function SplitSpaces(text: string): (parts: seq<string>)
    ensures parts != []
    decreases |text|
  {
    if text == [] then [[]]
    else if IsSpace(text[0]) then
      (if TrimStart(text) == [] then [[], []] else [[]] + SplitSpaces(TrimStart(text)))
    else
      var rest := SplitSpaces(text[1..]);
      [[text[0]] + rest[0]] + rest[1..]
  }

  function Alias(name: string): Option<string> {
    if name == "@yearly" || name == "@annually" then Some("0 0 1 1 *")
    else if name == "@monthly" then Some("0 0 1 * *")
    else if name == "@weekly" then Some("0 0 * * 0")
    else if name == "@daily" || name == "@midnight" then Some("0 0 * * *")
    else if name == "@hourly" then Some("0 * * * *")
    else None
  }

  function Normalised(expression: string): string {
    var alias := Alias(ToLower(Trim(expression)));
    Trim(if alias.Some? then alias.value else expression)
  }

  const FIELDS := [MINUTE, HOUR, DAY_OF_MONTH, MONTH, DAY_OF_WEEK]

  lemma FieldsAreValid()
    ensures forall i :: 0 <= i < 5 ==> ValidSpec(FIELDS[i]) && NamesAreWords(FIELDS[i])
  {
    assert FIELDS[0] == MINUTE && FIELDS[1] == HOUR && FIELDS[2] == DAY_OF_MONTH && FIELDS[3] == MONTH
        && FIELDS[4] == DAY_OF_WEEK;
  }

  /** The fields an expression denotes; none when `parseCron` throws. */
  ghost function CronMeaning(expression: string): Option<CronFields> {
    FieldsAreValid();
    var parts := SplitSpaces(Normalised(expression));
    if |parts| != 5 || exists i :: 0 <= i < 5 && FieldMeaning(parts[i], FIELDS[i]).FieldError? then None
    else
      var r := seq(5, i requires 0 <= i < 5 => FieldMeaning(parts[i], FIELDS[i]));
      Some(CronFields(r[0].values, r[1].values, r[2].values, r[3].values, r[4].values, r[2].restricted, r[4].restricted))
  }

  method ParseCron(expression: string) returns (r: Option<CronFields>)
    ensures r == CronMeaning(expression)
  {
    hide FieldMeaning, Normalised, SplitSpaces;
    FieldsAreValid();
    var parts := SplitSpaces(Normalised(expression));
    if |parts| != 5 {
      return None;
    }
    var parsed: seq<FieldResult> := [];
    for i := 0 to 5
      invariant |parsed| == i && forall k :: 0 <= k < i ==> parsed[k] == FieldMeaning(parts[k], FIELDS[k]) && parsed[k].Field?
    {
      var field := ParseField(parts[i], FIELDS[i]);
      if field.FieldError? {
        return None;
      }
      parsed := parsed + [field];
    }
    return Some(CronFields(parsed[0].values, parsed[1].values, parsed[2].values, parsed[3].values, parsed[4].values,
                           parsed[2].restricted, parsed[4].restricted));
  }

  /** What the search relies on: every parsed expression has times of day in range, and the day rule is
      "either" when both day fields are restricted and "both" otherwise. */
  lemma ParsedCronIsValid(expression: string)
    ensures var r := CronMeaning(expression);
      r.Some? ==>
        && ValidFields(r.value)
        && forall dayOfMonth, dayOfWeek :: 1 <= dayOfMonth <= 31 && 0 <= dayOfWeek <= 6 ==>
             (MatchesDay(r.value, dayOfMonth, dayOfWeek) <==>
                if r.value.domRestricted && r.value.dowRestricted
                then dayOfMonth in r.value.daysOfMonth || dayOfWeek in r.value.daysOfWeek
                else dayOfMonth in r.value.daysOfMonth && dayOfWeek in r.value.daysOfWeek)
  {
    hide FieldMeaning, Normalised, SplitSpaces;
    FieldsAreValid();
    var parts := SplitSpaces(Normalised(expression));
    if CronMeaning(expression).Some? {
      forall i | 0 <= i < 5 ensures FieldMeaning(parts[i], FIELDS[i]).Field? {
      }
      ParsedFieldInRange(parts[0], FIELDS[0]);
      ParsedFieldInRange(parts[1], FIELDS[1]);
      ParsedFieldInRange(parts[2], FIELDS[2]);
      ParsedFieldInRange(parts[4], FIELDS[4]);
    }
  }

  ghost predicate Between(values: set<int>, low: int, high: int) {
    forall v :: v in values ==> low <= v <= high
  }

  /** The five fields hold nothing but minutes, hours, days, months and weekdays, and a day field that does not restrict
      holds all of them. */
  lemma ParsedCronInRange(expression: string)
    ensures var r := CronMeaning(expression);
      r.Some? ==>
        && Between(r.value.minutes, 0, 59) && Between(r.value.hours, 0, 23) && Between(r.value.daysOfMonth, 1, 31)
        && Between(r.value.months, 1, 12) && Between(r.value.daysOfWeek, 0, 6)
        && (!r.value.domRestricted ==> forall d :: 1 <= d <= 31 ==> d in r.value.daysOfMonth)
        && (!r.value.dowRestricted ==> forall d :: 0 <= d <= 6 ==> d in r.value.daysOfWeek)
  {
    hide FieldMeaning, Normalised, SplitSpaces;
    FieldsAreValid();
    var parts := SplitSpaces(Normalised(expression));
    if CronMeaning(expression).Some? {
      forall i | 0 <= i < 5 ensures FieldMeaning(parts[i], FIELDS[i]).Field? {
      }
      ParsedFieldInRange(parts[0], FIELDS[0]);
      ParsedFieldInRange(parts[1], FIELDS[1]);
      ParsedFieldInRange(parts[2], FIELDS[2]);
      ParsedFieldInRange(parts[3], FIELDS[3]);
      ParsedFieldInRange(parts[4], FIELDS[4]);
    }
  }

  // --------------------------------------------------------- whole expressions, printed ---

  predicate IsWord(w: string) {
    w != "" && forall i :: 0 <= i < |w| ==> !IsSpace(w[i])
  }

  lemma {:induction false} SplitSpacesWord(w: string, rest: string)
    requires IsWord(w)
    ensures SplitSpaces(w) == [w]
    ensures rest != "" && !IsSpace(rest[0]) ==> SplitSpaces(w + [' '] + rest) == [w] + SplitSpaces(rest)
    decreases |w|
  {
    var text := w + [' '] + rest;
    assert text[0] == w[0] && text[1..] == w[1..] + [' '] + rest && w == [w[0]] + w[1..];
    if |w| == 1 {
      var gap := [' '] + rest;
      assert text[1..] == gap && gap[1..] == rest && SplitSpaces("") == [""];
      assert TrimStart(gap) == TrimStart(rest);
    } else {
      SplitSpacesWord(w[1..], rest);
    }
  }

  predicate StartsAndEndsInWords(text: string) {
    text != "" && !IsSpace(text[0]) && !IsSpace(text[|text| - 1])
  }

  lemma {:induction false} SplitSpacesJoin(words: seq<string>)
    requires words != [] && forall i :: 0 <= i < |words| ==> IsWord(words[i])
    ensures SplitSpaces(Join(words, ' ')) == words && StartsAndEndsInWords(Join(words, ' '))
    ensures Join(words, ' ')[0] == words[0][0]
  {
    hide SplitSpaces, IsSpace;
    if |words| == 1 {
      SplitSpacesWord(words[0], "");
    } else {
      var rest := Join(words[1..], ' ');
      SplitSpacesJoin(words[1..]);
      SplitSpacesWord(words[0], rest);
      var text := words[0] + [' '] + rest;
      assert text[|text| - 1] == rest[|rest| - 1] && text[0] == words[0][0];
    }
  }

  lemma OnlyAliasesStartWithAt(name: string)
    requires name == "" || name[0] != '@'
    ensures Alias(name).None?
  {
  }

  ghost predicate FiveWords(words: seq<string>) {
    |words| == 5 && (forall i :: 0 <= i < 5 ==> IsWord(words[i])) && IsWord(words[0]) && words[0][0] != '@'
  }

  lemma WordsAreNormal(words: seq<string>)
    requires FiveWords(words)
    ensures Normalised(Join(words, ' ')) == Join(words, ' ') && SplitSpaces(Join(words, ' ')) == words
  {
    var text := Join(words, ' ');
    SplitSpacesJoin(words);
    assert Trim(text) == text;
    assert ToLower(text)[0] == Lower(words[0][0]);
    OnlyAliasesStartWithAt(ToLower(text));
  }

  /** Five words separated by spaces are the five fields, in their order. */
  lemma CronOfWords(words: seq<string>, fields: seq<FieldResult>)
    requires FiveWords(words) && |fields| == 5
    requires forall i :: 0 <= i < 5 ==>
      ValidSpec(FIELDS[i]) && fields[i] == FieldMeaning(words[i], FIELDS[i]) && fields[i].Field?
    ensures CronMeaning(Join(words, ' ')) == Some(CronFields(
              fields[0].values, fields[1].values, fields[2].values, fields[3].values, fields[4].values,
              fields[2].restricted, fields[4].restricted))
  {
    WordsAreNormal(words);
    hide FieldMeaning, SplitSpaces, Join, Normalised, IsWord;
  }

  lemma NumeralIsWord(n: nat)
    ensures IsWord(PrintNat(n)) && PrintNat(n)[0] != '@'
  {
    var s := PrintNat(n);
    forall i | 0 <= i < |s| ensures !IsSpace(s[i]) {
      assert IsDigit(s[i]);
    }
    assert IsDigit(s[0]);
  }

  lemma NumeralField(n: nat, spec: FieldSpec)
    requires ValidSpec(spec) && NamesAreWords(spec) && spec.min <= n <= (if spec.isDayOfWeek then 6 else spec.max)
    ensures FieldMeaning(PrintNat(n), spec) == Field({n as int}, true)
  {
    hide PrintNat, ParsePart, Split, Listed, PartLists;
    NumeralHasOnlyDigits(n, ',');
    TwoPieces(PrintNat(n), [], ',');
    forall v: int ensures Listed([PrintNat(n)], spec, v) <==> v in {n as int} {
      NumeralPartLists(n, spec, v);
      ListedAlone(PrintNat(n), spec, v);
    }
    NumeralPartLists(n, spec, n);
    MeaningOfParts(PrintNat(n), spec, {n as int});
  }

  lemma ListedAlone(part: string, spec: FieldSpec, v: int)
    requires ValidSpec(spec)
    ensures Listed([part], spec, v) <==> PartLists(part, spec, v)
  {
    hide PartLists;
    assert [part][0] == part;
  }

  /** Sunday is 0 and not 7. */
  predicate IsProper(v: int, spec: FieldSpec) {
    spec.isDayOfWeek ==> v != 7
  }

  /** Every value of a field. */
  function All(spec: FieldSpec): set<int> {
    set v: int | spec.min <= v <= spec.max && IsProper(v, spec)
  }

  lemma StarField(spec: FieldSpec)
    requires ValidSpec(spec) && NamesAreWords(spec)
    ensures FieldMeaning("*", spec) == Field(All(spec), false)
  {
    hide ParsePart, Split;
    ParsePrintPart(Every, None, spec);
    TwoPieces("*", [], ',');
    assert PrintPart(Every, None) == "*";
    var range := Range(spec.min, spec.max, 1, false);
    forall v: int | v in All(spec) ensures Listed(["*"], spec, v) {
      assert v == range.from + (v - range.from) * range.step;
      assert Denotes(range, v) && PartLists("*", spec, v);
      ListedAlone("*", spec, v);
    }
    ParsedFieldInRange("*", spec);
    assert ParsePart(["*"][0], spec) == Some(range);
  }

  /** A word that is a star or a numeral. */
  function Word(n: Option<nat>): string {
    if n.None? then "*" else PrintNat(n.value)
  }

  function ValuesOf(n: Option<nat>, spec: FieldSpec): set<int> {
    if n.None? then All(spec) else {n.value as int}
  }

  predicate Fits(n: Option<nat>, spec: FieldSpec) {
    n.Some? ==> spec.min <= n.value <= if spec.isDayOfWeek then 6 else spec.max
  }

  lemma WordField(n: Option<nat>, spec: FieldSpec)
    requires ValidSpec(spec) && NamesAreWords(spec) && Fits(n, spec)
    ensures FieldMeaning(Word(n), spec) == Field(ValuesOf(n, spec), n.Some?)
    ensures IsWord(Word(n)) && Word(n)[0] != '@'
  {
    hide FieldMeaning, All, PrintNat;
    if n.Some? {
      NumeralField(n.value, spec);
      NumeralIsWord(n.value);
    } else {
      StarField(spec);
    }
  }

  /** An expression of stars and numerals fires at those values: each of the five words is the field of its place. */
  lemma ParseWords(minute: Option<nat>, hour: Option<nat>, day: Option<nat>, month: Option<nat>, weekday: Option<nat>)
    requires Fits(minute, MINUTE) && Fits(hour, HOUR) && Fits(day, DAY_OF_MONTH) && Fits(month, MONTH)
    requires Fits(weekday, DAY_OF_WEEK)
    ensures CronMeaning(Join([Word(minute), Word(hour), Word(day), Word(month), Word(weekday)], ' ')) == Some(CronFields(
              ValuesOf(minute, MINUTE), ValuesOf(hour, HOUR), ValuesOf(day, DAY_OF_MONTH), ValuesOf(month, MONTH),
              ValuesOf(weekday, DAY_OF_WEEK), day.Some?, weekday.Some?))
  {
    FieldsAreValid();
    var parts := [minute, hour, day, month, weekday];
    var words, fields := WordsOf(parts), FieldsOf(parts);
    hide FieldMeaning, CronMeaning, All, ValuesOf, Word, IsWord, Join, ValidSpec, NamesAreWords, Fits;
    forall i | 0 <= i < 5 ensures IsWord(words[i]) && words[i][0] != '@' && fields[i] == FieldMeaning(words[i], FIELDS[i]) {
      WordField(parts[i], FIELDS[i]);
    }
    CronOfWords(words, fields);
    assert words == [Word(minute), Word(hour), Word(day), Word(month), Word(weekday)];
  }

  function WordsOf(parts: seq<Option<nat>>): (words: seq<string>)
    requires |parts| == 5
    ensures |words| == 5 && forall i :: 0 <= i < 5 ==> words[i] == Word(parts[i])
  {
    [Word(parts[0]), Word(parts[1]), Word(parts[2]), Word(parts[3]), Word(parts[4])]
  }

  function FieldsOf(parts: seq<Option<nat>>): (fields: seq<FieldResult>)
    requires |parts| == 5
    ensures |fields| == 5 && forall i :: 0 <= i < 5 ==> fields[i] == Field(ValuesOf(parts[i], FIELDS[i]), parts[i].Some?)
  {
    seq(5, i requires 0 <= i < 5 => Field(ValuesOf(parts[i], FIELDS[i]), parts[i].Some?))
  }

  /** The minute, hour, day, month and weekday an alias fixes; a year begins on 1 January, a week on Sunday. */
  function AliasFixes(name: string): Option<(Option<nat>, Option<nat>, Option<nat>, Option<nat>, Option<nat>)> {
    if name in {"@yearly", "@annually"} then Some((Some(0), Some(0), Some(1), Some(1), None))
    else if name == "@monthly" then Some((Some(0), Some(0), Some(1), None, None))
    else if name == "@weekly" then Some((Some(0), Some(0), None, None, Some(0)))
    else if name in {"@daily", "@midnight"} then Some((Some(0), Some(0), None, None, None))
    else if name == "@hourly" then Some((Some(0), None, None, None, None))
    else None
  }

  /** An alias, in any case and with white space around it, fires when it says. */
  lemma AliasMeaning(expression: string)
    requires AliasFixes(ToLower(Trim(expression))).Some?
    ensures var (minute, hour, day, month, weekday) := AliasFixes(ToLower(Trim(expression))).value;
      CronMeaning(expression) == Some(CronFields(
        ValuesOf(minute, MINUTE), ValuesOf(hour, HOUR), ValuesOf(day, DAY_OF_MONTH), ValuesOf(month, MONTH),
        ValuesOf(weekday, DAY_OF_WEEK), day.Some?, weekday.Some?))
  {
    var name := ToLower(Trim(expression));
    var (minute, hour, day, month, weekday) := AliasFixes(name).value;
    ParseWords(minute, hour, day, month, weekday);
    AliasText(name);
    var words := WordsOf([minute, hour, day, month, weekday]);
    hide ValuesOf, SplitSpaces, FieldMeaning, Word, Join, AliasFixes, CronMeaning, Trim, ToLower;
    assert words == [Word(minute), Word(hour), Word(day), Word(month), Word(weekday)];
    SameNormalForm(expression, Join(words, ' '));
  }

  lemma SameNormalForm(a: string, b: string)
    requires Normalised(a) == Normalised(b)
    ensures CronMeaning(a) == CronMeaning(b)
  {
    hide Normalised, SplitSpaces, FieldMeaning;
  }

  /** The aliases are those seven names and no others. */
  lemma AliasesAreListed(name: string)
    ensures Alias(name).Some? <==>
      name in {"@yearly", "@annually", "@monthly", "@weekly", "@daily", "@midnight", "@hourly"}
    ensures Alias(name).Some? <==> AliasFixes(name).Some?
  {
  }

  lemma AliasText(name: string)
    requires AliasFixes(name).Some?
    ensures var (minute, hour, day, month, weekday) := AliasFixes(name).value;
      var text := Join(WordsOf([minute, hour, day, month, weekday]), ' ');
      Alias(name) == Some(text) && Trim(text) == text && Normalised(text) == text
  {
    AliasLiteral(name);
    var (minute, hour, day, month, weekday) := AliasFixes(name).value;
    var words := WordsOf([minute, hour, day, month, weekday]);
    SmallWords(minute, hour, day, month, weekday);
    hide Word, IsWord, Alias, AliasFixes;
    WordsAreNormal(words);
    SplitSpacesJoin(words);
    JoinFive(words);
    hide Join, SplitSpaces, Normalised;
  }

  lemma AliasLiteral(name: string)
    requires AliasFixes(name).Some?
    ensures var (a, b, c, d, e) := AliasFixes(name).value;
      Alias(name) == Some(Word(a) + [' '] + (Word(b) + [' '] + (Word(c) + [' '] + (Word(d) + [' '] + Word(e)))))
  {
    SmallWords(None, None, None, None, None);
    hide Word, IsWord;
    assert "0" + [' '] + ("0" + [' '] + ("1" + [' '] + ("1" + [' '] + "*"))) == "0 0 1 1 *";
    assert "0" + [' '] + ("0" + [' '] + ("1" + [' '] + ("*" + [' '] + "*"))) == "0 0 1 * *";
    assert "0" + [' '] + ("0" + [' '] + ("*" + [' '] + ("*" + [' '] + "0"))) == "0 0 * * 0";
    assert "0" + [' '] + ("0" + [' '] + ("*" + [' '] + ("*" + [' '] + "*"))) == "0 0 * * *";
    assert "0" + [' '] + ("*" + [' '] + ("*" + [' '] + ("*" + [' '] + "*"))) == "0 * * * *";
  }

  lemma SmallWords(minute: Option<nat>, hour: Option<nat>, day: Option<nat>, month: Option<nat>, weekday: Option<nat>)
    ensures Word(None) == "*" && Word(Some(0)) == "0" && Word(Some(1)) == "1"
    ensures FiveWords(WordsOf([minute, hour, day, month, weekday]))
  {
    hide IsWord;
    forall n: Option<nat> ensures IsWord(Word(n)) && Word(n)[0] != '@' {
      if n.Some? { NumeralIsWord(n.value); } else { StarIsWord(); }
    }
  }

  lemma StarIsWord()
    ensures IsWord("*")
  {
  }

  lemma JoinFive(w: seq<string>)
    requires |w| == 5
    ensures Join(w, ' ') == w[0] + [' '] + (w[1] + [' '] + (w[2] + [' '] + (w[3] + [' '] + w[4])))
  {
    assert w[1..][1..] == w[2..] && w[2..][1..] == w[3..] && w[3..][1..] == w[4..];
    assert Join(w[4..], ' ') == w[4];
    assert Join(w[3..], ' ') == w[3] + [' '] + Join(w[4..], ' ');
    assert Join(w[2..], ' ') == w[2] + [' '] + Join(w[3..], ' ');
    assert Join(w[1..], ' ') == w[1] + [' '] + Join(w[2..], ' ');
  }
}
