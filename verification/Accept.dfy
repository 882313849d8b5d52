/** Negotiating a reader format from an Accept header. */
module Accept {
  import opened Options
  import opened Strings
  import opened Seqs

  datatype Format = HTML | Markdown | JSON

  datatype Outcome = Format(format: Format) | Invalid | NotAcceptable

  /** A parsed floating-point number, with the comparisons of IEEE 754. */
  datatype Float = NaN | Infinite(negative: bool) | Num(value: real) {
    predicate Less(y: Float) {
      match this
      case NaN => false
      case Infinite(negative) => negative && !y.NaN? && y != this
      case Num(x) => (y.Num? && x < y.value) || (y.Infinite? && !y.negative)
    }
  }

  /** `strconv.ParseFloat`, of which only its results are used. */
  type FloatParser = string -> Option<Float>

  const MAX_LENGTH := 4096
  const MAX_ENTRIES := 32

  datatype Entry = Entry(mime: string, q: Float)

  /** A supported entry that is not ruled out by its q. */
  datatype Candidate = Candidate(format: Format, q: Float)

  // ---- the header text ----

  predicate Control(c: char) {
    c < ' ' || c == '\U{007F}'
  }

  function Strip(s: string): (r: string)
    ensures |r| <= |s|
    ensures forall i :: 0 <= i < |r| ==> !Control(r[i])
  {
    if s == "" then ""
    else (if Control(s[0]) then "" else [s[0]]) + Strip(s[1..])
  }

  function Sanitize(raw: string): Option<string> {
    if !Lacks(raw, '\r') || !Lacks(raw, '\n') then None
    else
      var s := Strip(raw);
      Some(Trim(if |s| > MAX_LENGTH then s[..MAX_LENGTH] else s))
  }

  /** Stripping works character by character: controls go, all others stay, in order. */
  lemma {:induction false} StripConcat(a: string, b: string)
    ensures Strip(a + b) == Strip(a) + Strip(b)
  {
    if a == "" {
      assert a + b == b;
    } else {
      assert (a + b)[1..] == a[1..] + b;
      StripConcat(a[1..], b);
    }
  }

  lemma StripChar(c: char)
    ensures Strip([c]) == if c as int < 32 || c as int == 127 then "" else [c]
  {
    assert [c][1..] == "";
  }

  lemma {:induction false} StripLacks(s: string, c: char)
    requires Lacks(s, c)
    ensures Lacks(Strip(s), c)
  {
    if s != "" {
      StripLacks(s[1..], c);
    }
  }

  /** No control characters, and within the cap: sanitizing only trims. */
  predicate Clean(s: string) {
    |s| <= 4096 && forall i :: 0 <= i < |s| ==> !Control(s[i])
  }

  lemma {:induction false} StripClean(s: string)
    requires forall i :: 0 <= i < |s| ==> !Control(s[i])
    ensures Strip(s) == s
  {
    if s != "" {
      StripClean(s[1..]);
    }
  }

  lemma CleanOnlyTrims(s: string)
    requires Clean(s)
    ensures Sanitize(s) == Some(Trim(s))
  {
    StripClean(s);
  }

  lemma CleanTrim(s: string)
    requires Clean(s)
    ensures Clean(Trim(s))
  {
    var t := TrimLeft(s);
    assert forall i :: 0 <= i < |t| ==> t[i] == s[Lead(s, 0) + i];
  }

  lemma SanitizeFixed(s: string)
    requires Clean(s) && Trimmed(s)
    ensures Sanitize(s) == Some(s)
  {
    CleanOnlyTrims(s);
    TrimmedFixed(s);
  }

  /** Sanitizing a second time changes nothing. */
  lemma SanitizeIdempotent(raw: string)
    requires Sanitize(raw).Some?
    ensures Sanitize(Sanitize(raw).value) == Sanitize(raw)
  {
    var s := Strip(raw);
    var t := if |s| > MAX_LENGTH then s[..MAX_LENGTH] else s;
    CleanTrim(t);
    TrimIsTrimmed(t);
    SanitizeFixed(Trim(t));
  }

  // ---- entries ----

  predicate RangeChar(c: char) {
    || 'a' <= c <= 'z' || 'A' <= c <= 'Z' || '0' <= c <= '9'
    || c == '/' || c == '.' || c == '+' || c == '-' || c == '*' || c == '_'
  }

  predicate ValidRange(mime: string) {
    mime != "" && |mime| <= 128 && (forall i :: 0 <= i < |mime| ==> RangeChar(mime[i])) && !Lacks(mime, '/')
  }

  method CheckMediaRange(mime: string) returns (ok: bool)
    ensures ok <==> ValidRange(mime)
  {
    if mime == "" || |mime| > 128 {
      return false;
    }
    var i := 0;
    while i < |mime|
      invariant 0 <= i <= |mime|
      invariant forall j :: 0 <= j < i ==> RangeChar(mime[j])
    {
      if !RangeChar(mime[i]) {
        return false;
      }
      i := i + 1;
    }
    return Find(mime, '/') < |mime|;
  }

  predicate IsQ(param: string) {
    HasPrefix(ToLower(param), "q=")
  }

  /** A q that does not parse, or lies outside 0..1, counts as 1. */
  function ReadQ(parse: FloatParser, text: string): (q: Float)
    ensures QParsed(q)
  {
    match parse(text)
    case None => Num(1.0)
    case Some(v) => if v.Less(Num(0.0)) || Num(1.0).Less(v) then Num(1.0) else v
  }

  /** The first q parameter decides. */
  function FirstQ(parse: FloatParser, params: seq<string>): (q: Float)
    ensures QParsed(q)
  {
    if params == [] then Num(1.0)
    else
      var param := Trim(params[0]);
      if IsQ(param) then ReadQ(parse, Trim(param[2..])) else FirstQ(parse, params[1..])
  }

  method ParseQValue(parse: FloatParser, text: string) returns (q: Float)
    ensures q == FirstQ(parse, Split(text, ';'))
  {
    var params := Split(text, ';');
    var i := 0;
    while i < |params|
      invariant 0 <= i <= |params|
      invariant FirstQ(parse, params) == FirstQ(parse, params[i..])
    {
      var param := Trim(params[i]);
      if IsQ(param) {
        var v := parse(Trim(param[2..]));
        if v == None || v.value.Less(Num(0.0)) || Num(1.0).Less(v.value) {
          return Num(1.0);
        }
        return v.value;
      }
      i := i + 1;
    }
    return Num(1.0);
  }

  /** The q of a parsed entry: in 0..1, or NaN. */
  predicate QParsed(q: Float) {
    q.NaN? || (q.Num? && 0.0 <= q.value <= 1.0)
  }

  function ParseEntry(parse: FloatParser, part: string): (r: Option<Entry>)
    ensures r.Some? ==> QParsed(r.value.q)
  {
    var i := Find(part, ';');
    var mime := if i < |part| then Trim(part[..i]) else part;
    var q := if i < |part| then FirstQ(parse, Split(part[i + 1..], ';')) else Num(1.0);
    if ValidRange(mime) then Some(Entry(ToLower(mime), q)) else None
  }

  /** One part: a blank or malformed one is passed over. */
  function EntryOf(parse: FloatParser, part: string): (es: seq<Entry>)
    ensures es == [] || (|es| == 1 && QParsed(es[0].q))
  {
    if Trim(part) == "" then []
    else match ParseEntry(parse, Trim(part))
      case None => []
      case Some(e) => [e]
  }

  function Reader(parse: FloatParser): string -> seq<Entry> {
    part => EntryOf(parse, part)
  }

  function EntriesOf(parse: FloatParser, parts: seq<string>): seq<Entry> {
    FlatMap(Reader(parse), parts)
  }

  /** At most 32 comma-separated parts are looked at. */
  function Parts(accept: string): seq<string> {
    var parts := Split(accept, ',');
    if |parts| > MAX_ENTRIES then parts[..MAX_ENTRIES] else parts
  }

  lemma OneMorePart(parse: FloatParser, parts: seq<string>, i: nat)
    requires i < |parts|
    ensures EntriesOf(parse, parts[..i + 1]) == EntriesOf(parse, parts[..i]) + EntryOf(parse, parts[i])
  {
    assert parts[..i + 1] == parts[..i] + [parts[i]];
    FlatMapSnoc(Reader(parse), parts[..i], parts[i]);
  }

  /** The loop over the parts, collecting what each one reads as. */
  method ParseEntries(parse: FloatParser, accept: string) returns (entries: seq<Entry>)
    ensures entries == EntriesOf(parse, Parts(accept))
  {
    var parts := Parts(accept);
    entries := [];
    var i := 0;
    while i < |parts|
      invariant 0 <= i <= |parts|
      invariant entries == EntriesOf(parse, parts[..i])
    {
      OneMorePart(parse, parts, i);
      var entry := ReadPart(parse, parts[i]);
      entries := entries + entry;
      i := i + 1;
    }
    assert parts[..i] == parts;
  }

  method ReadPart(parse: FloatParser, part: string) returns (es: seq<Entry>)
    ensures es == EntryOf(parse, part)
  {
    var p := Trim(part);
    if p == "" {
      return [];
    }
    var entry := ReadEntry(parse, p);
    if entry == None {
      return [];
    }
    return [entry.value];
  }

  method ReadEntry(parse: FloatParser, part: string) returns (entry: Option<Entry>)
    ensures entry == ParseEntry(parse, part)
  {
    var mime, q := part, Num(1.0);
    var i := Find(part, ';');
    if i < |part| {
      mime := Trim(part[..i]);
      q := ParseQValue(parse, part[i + 1..]);
    }
    var ok := CheckMediaRange(mime);
    if !ok {
      return None;
    }
    return Some(Entry(ToLower(mime), q));
  }

  // ---- choosing ----

  function MatchFormat(mime: string): Option<Format> {
    var m := ToLower(Trim(mime));
    if m == "text/html" || m == "text/*" || m == "*/*" then Some(HTML)
    else if m == "text/markdown" || m == "text/x-markdown" then Some(Markdown)
    else if m == "application/json" || m == "application/*" then Some(JSON)
    else None
  }

  /** `q <= 0`, false for NaN. */
  predicate RuledOut(q: Float) {
    q == Num(0.0) || q.Less(Num(0.0))
  }

  function CandidateOf(e: Entry): seq<Candidate> {
    if RuledOut(e.q) || MatchFormat(e.mime).None? then []
    else [Candidate(MatchFormat(e.mime).value, e.q)]
  }

  function Candidates(entries: seq<Entry>): seq<Candidate> {
    FlatMap(CandidateOf, entries)
  }

  /** A later candidate wins only with a strictly greater q. */
  function Best(cs: seq<Candidate>): Option<Candidate> {
    if cs == [] then None
    else
      var c := cs[|cs| - 1];
      match Best(cs[..|cs| - 1])
      case None => Some(c)
      case Some(b) => if b.q.Less(c.q) then Some(c) else Some(b)
  }

  function AnswerWith(best: Option<Candidate>): Outcome {
    match best
    case None => NotAcceptable
    case Some(c) => Format(c.format)
  }

  /** What a nonempty sanitized header is answered with. */
  function Answer(parse: FloatParser, parts: seq<string>): Outcome {
    AnswerWith(Best(Candidates(EntriesOf(parse, parts))))
  }

  function Negotiation(parse: FloatParser, raw: string): Outcome {
    match Sanitize(raw)
    case None => Invalid
    case Some(accept) => if accept == "" then Format(HTML) else Answer(parse, Parts(accept))
  }

  method NegotiateReaderFormat(parse: FloatParser, raw: string) returns (outcome: Outcome)
    ensures outcome == Negotiation(parse, raw)
  {
    var accept := Sanitize(raw);
    if accept == None {
      return Invalid;
    }
    if accept.value == "" {
      return Format(HTML);
    }
    var entries := ParseEntries(parse, accept.value);
    if |entries| == 0 {
      return NotAcceptable;
    }
    outcome := Choose(entries);
  }

  /** The loop over the entries. */
  method Choose(entries: seq<Entry>) returns (outcome: Outcome)
    ensures outcome == AnswerWith(Best(Candidates(entries)))
  {
    var best, bestQ, found := HTML, Num(-1.0), false;
    var i := 0;
    while i < |entries|
      invariant 0 <= i <= |entries|
      invariant Best(Candidates(entries[..i])) == if found then Some(Candidate(best, bestQ)) else None
    {
      assert entries[..i + 1] == entries[..i] + [entries[i]];
      FlatMapSnoc(CandidateOf, entries[..i], entries[i]);
      ghost var front := Candidates(entries[..i]);
      assert front + [] == front;
      var entry := entries[i];
      i := i + 1;
      if RuledOut(entry.q) {
        continue;
      }
      var format := MatchFormat(entry.mime);
      if format == None {
        continue;
      }
      BestSnoc(front, Candidate(format.value, entry.q));
      if !found || bestQ.Less(entry.q) {
        best, bestQ, found := format.value, entry.q, true;
      }
    }
    assert entries[..i] == entries;
    if !found {
      return NotAcceptable;
    }
    return Format(best);
  }

  lemma BestSnoc(cs: seq<Candidate>, c: Candidate)
    ensures Best(cs + [c]) == match Best(cs)
                              case None => Some(c)
                              case Some(b) => if b.q.Less(c.q) then Some(c) else Some(b)
  {
    assert (cs + [c])[..|cs|] == cs;
  }

  // ---- what is chosen ----

  /** The candidates a part gives: one or none. */
  function CandidatesFrom(parse: FloatParser): string -> seq<Candidate> {
    part => Candidates(EntryOf(parse, part))
  }

  function CandidatesIn(parse: FloatParser, parts: seq<string>): seq<Candidate> {
    FlatMap(CandidatesFrom(parse), parts)
  }

  lemma SameCandidates(parse: FloatParser, parts: seq<string>)
    ensures Candidates(EntriesOf(parse, parts)) == CandidatesIn(parse, parts)
  {
    FlatMapTwice(Reader(parse), CandidateOf, CandidatesFrom(parse), parts);
  }

  /** Position `i` holds the first of the greatest q's. */
  ghost predicate FirstMaximum(cs: seq<Candidate>, i: nat) {
    && i < |cs| && cs[i].q.Num?
    && (forall j :: 0 <= j < |cs| && cs[j].q.Num? ==> cs[j].q.value <= cs[i].q.value)
    && (forall j :: 0 <= j < i && cs[j].q.Num? ==> cs[j].q.value < cs[i].q.value)
  }

  predicate Parsed(cs: seq<Candidate>) {
    forall i :: 0 <= i < |cs| ==> cs[i].q.NaN? || (cs[i].q.Num? && 0.0 < cs[i].q.value <= 1.0)
  }

  lemma OneParsed(es: seq<Entry>)
    requires es == [] || (|es| == 1 && QParsed(es[0].q))
    ensures Parsed(Candidates(es))
  {
    if es != [] {
      assert es == [es[0]];
      FlatMapOne(CandidateOf, es[0]);
    }
  }

  lemma {:induction false} CandidatesParsed(parse: FloatParser, parts: seq<string>)
    ensures Parsed(CandidatesIn(parse, parts))
  {
    if parts != [] {
      CandidatesParsed(parse, parts[..|parts| - 1]);
      OneParsed(EntryOf(parse, parts[|parts| - 1]));
    }
  }

  lemma {:induction false} BestExact(cs: seq<Candidate>) returns (i: nat)
    requires Parsed(cs) && cs != []
    ensures i < |cs| && Best(cs) == Some(cs[i])
    ensures cs[0].q.NaN? ==> i == 0
    ensures !cs[0].q.NaN? ==> FirstMaximum(cs, i)
  {
    var last := |cs| - 1;
    if last == 0 {
      i := 0;
      assert cs[..0] == [];
    } else {
      i := BestExact(cs[..last]);
      if cs[i].q.Less(cs[last].q) {
        i := last;
      }
    }
  }

  /**
   Negotiation picks the first supported entry of the greatest positive q, and fails exactly
   when there is none, provided the first supported entry's q is a number. A q of NaN parses
   and compares with nothing: standing first it wins against any q, elsewhere it never does.
   */
  lemma PicksFirstMaximum(parse: FloatParser, parts: seq<string>)
    ensures var cs := CandidatesIn(parse, parts);
            && (Answer(parse, parts) == NotAcceptable <==> cs == [])
            && (cs != [] ==> (FirstMaximumChosen(cs) <==> !cs[0].q.NaN?))
            && (cs != [] && !cs[0].q.NaN? ==>
                  exists i: nat :: FirstMaximum(cs, i) && Answer(parse, parts) == Format(cs[i].format))
            && (cs != [] && cs[0].q.NaN? ==> Answer(parse, parts) == Format(cs[0].format))
  {
    CandidatesParsed(parse, parts);
    SameCandidates(parse, parts);
    var cs := CandidatesIn(parse, parts);
    if cs != [] {
      var i := BestExact(cs);
      if !cs[0].q.NaN? {
        assert FirstMaximum(cs, i) && Best(cs) == Some(cs[i]);
      }
    }
  }

  ghost predicate FirstMaximumChosen(cs: seq<Candidate>) {
    exists i: nat :: FirstMaximum(cs, i) && Best(cs) == Some(cs[i])
  }

  // ---- entries that do not matter ----

  /** Blank, malformed, unsupported, or ruled out by its q. */
  predicate Junk(parse: FloatParser, part: string) {
    Candidates(EntryOf(parse, part)) == []
  }

  // ---- from parts to header text ----

  /** Blanks around a part do not matter. */
  lemma PartPadded(parse: FloatParser, pad: string, part: string)
    requires Blank(pad)
    ensures EntryOf(parse, pad + part) == EntryOf(parse, part) == EntryOf(parse, part + pad)
  {
    TrimLeftPad(pad, part);
    TrimRightPad(part, pad);
    TrimAfterTrimRight(part);
    TrimAfterTrimRight(part + pad);
  }

  lemma BlankLacksComma(pad: string)
    requires Blank(pad)
    ensures Lacks(pad, ',')
  {
  }

  function PadStart(pad: string, parts: seq<string>): seq<string>
    requires parts != []
  {
    [pad + parts[0]] + parts[1..]
  }

  lemma SplitPadLeft(pad: string, s: string)
    requires Blank(pad)
    ensures Split(pad + s, ',') == PadStart(pad, Split(s, ','))
  {
    BlankLacksComma(pad);
    if Lacks(s, ',') {
      SplitPadOne(pad, s);
    } else {
      var first, rest := CutAt(s);
      SplitPadHead(pad, first, rest);
    }
  }

  lemma SplitPadOne(pad: string, s: string)
    requires Lacks(pad, ',') && Lacks(s, ',')
    ensures Split(pad + s, ',') == PadStart(pad, Split(s, ','))
  {
    SplitLacking(s, ',');
    SplitLacking(pad + s, ',');
  }

  lemma SplitPadHead(pad: string, first: string, rest: string)
    requires Lacks(pad, ',') && Lacks(first, ',')
    ensures Split(pad + (first + [','] + rest), ',') == PadStart(pad, Split(first + [','] + rest, ','))
  {
    SplitHead(first, ',', rest);
    SplitHead(pad + first, ',', rest);
    PadStartCons(pad, first, Split(rest, ','));
    Associates(pad, first, [',']);
    Associates(pad, first + [','], rest);
  }

  lemma PadStartCons(pad: string, part: string, parts: seq<string>)
    ensures PadStart(pad, [part] + parts) == [pad + part] + parts
  {
  }

  lemma CutAt(s: string) returns (first: string, rest: string)
    requires !Lacks(s, ',')
    ensures s == first + [','] + rest && Lacks(first, ',') && |rest| < |s|
  {
    var i := Find(s, ',');
    first, rest := s[..i], s[i + 1..];
  }

  function PadEnd(parts: seq<string>, pad: string): seq<string>
    requires parts != []
  {
    parts[..|parts| - 1] + [parts[|parts| - 1] + pad]
  }

  lemma PadEndCons(part: string, parts: seq<string>, pad: string)
    requires parts != []
    ensures PadEnd([part] + parts, pad) == [part] + PadEnd(parts, pad)
  {
  }

  lemma SplitTail(first: string, rest: string, pad: string)
    requires Lacks(first, ',') && Split(rest + pad, ',') == PadEnd(Split(rest, ','), pad)
    ensures Split(first + [','] + rest + pad, ',') == PadEnd(Split(first + [','] + rest, ','), pad)
  {
    assert first + [','] + rest + pad == first + [','] + (rest + pad);
    SplitHead(first, ',', rest);
    SplitHead(first, ',', rest + pad);
    PadEndCons(first, Split(rest, ','), pad);
  }

  lemma {:induction false} SplitPadRight(s: string, pad: string)
    requires Blank(pad)
    ensures Split(s + pad, ',') == PadEnd(Split(s, ','), pad)
    decreases |s|
  {
    if Lacks(s, ',') {
      SplitPadOnly(s, pad);
    } else {
      var first, rest := CutAt(s);
      SplitPadRight(rest, pad);
      SplitTail(first, rest, pad);
    }
  }

  lemma SplitPadOnly(s: string, pad: string)
    requires Lacks(s, ',') && Blank(pad)
    ensures Split(s + pad, ',') == PadEnd(Split(s, ','), pad)
  {
    BlankLacksComma(pad);
    SplitLacking(s + pad, ',');
    SplitLacking(s, ',');
  }

  lemma PadFirst(f: string -> seq<Candidate>, pad: string, parts: seq<string>)
    requires parts != [] && f(pad + parts[0]) == f(parts[0])
    ensures FlatMap(f, PadStart(pad, parts)) == FlatMap(f, parts)
  {
    FlatMapCons(f, pad + parts[0], parts[1..]);
    FlatMapCons(f, parts[0], parts[1..]);
    assert [parts[0]] + parts[1..] == parts;
  }

  /** Trimming the header changes neither the number of parts nor the candidates. */
  lemma TrimKeepsCandidates(parse: FloatParser, s: string)
    ensures |Split(Trim(s), ',')| == |Split(s, ',')|
    ensures CandidatesIn(parse, Split(Trim(s), ',')) == CandidatesIn(parse, Split(s, ','))
  {
    var left, right := TrimDecomposed(s);
    PaddedCandidates(parse, left, Trim(s), right);
  }

  lemma PaddedCandidates(parse: FloatParser, left: string, t: string, right: string)
    requires Blank(left) && Blank(right)
    ensures var s := left + (t + right);
            && |Split(s, ',')| == |Split(t, ',')|
            && CandidatesIn(parse, Split(s, ',')) == CandidatesIn(parse, Split(t, ','))
  {
    SplitPadLeft(left, t + right);
    SplitPadRight(t, right);
    var outer, inner := Split(t + right, ','), Split(t, ',');
    PartPadded(parse, left, outer[0]);
    PartPadded(parse, right, inner[|inner| - 1]);
    PadFirst(CandidatesFrom(parse), left, outer);
    FlatMapLast(CandidatesFrom(parse), inner, inner[|inner| - 1] + right);
  }

  ghost predicate NoCommas(parts: seq<string>) {
    forall i :: 0 <= i < |parts| ==> Lacks(parts[i], ',')
  }

  /** The header is read whole: no line break refuses it, and nothing is cut off at the cap. */
  predicate Fits(raw: string) {
    Lacks(raw, '\r') && Lacks(raw, '\n') && |Strip(raw)| <= 4096
  }

  function StripEach(parts: seq<string>): seq<string> {
    seq(|parts|, i requires 0 <= i < |parts| => Strip(parts[i]))
  }

  /** Stripping the header is stripping its parts. */
  lemma {:induction false} StripJoin(parts: seq<string>)
    ensures Strip(Join(parts, ',')) == Join(StripEach(parts), ',')
  {
    if |parts| > 1 {
      StripJoin(parts[1..]);
      assert StripEach(parts)[1..] == StripEach(parts[1..]);
      StripConcat(parts[0] + [','], Join(parts[1..], ','));
      StripConcat(parts[0], [',']);
      StripChar(',');
    }
  }

  lemma StripNoCommas(parts: seq<string>)
    requires NoCommas(parts)
    ensures NoCommas(StripEach(parts))
  {
    forall i | 0 <= i < |parts| ensures Lacks(StripEach(parts)[i], ',') {
      StripLacks(parts[i], ',');
    }
  }

  /** A header of at most 32 parts is answered from its stripped parts, unless nothing visible is left. */
  lemma HeaderOfParts(parse: FloatParser, parts: seq<string>)
    requires 0 < |parts| <= 32 && NoCommas(parts) && Fits(Join(parts, ','))
    ensures var text := Join(StripEach(parts), ',');
            Negotiation(parse, Join(parts, ','))
            == if Trim(text) == "" then Format(HTML)
               else AnswerWith(Best(CandidatesIn(parse, StripEach(parts))))
  {
    var text := Join(StripEach(parts), ',');
    StripJoin(parts);
    assert Sanitize(Join(parts, ',')) == Some(Trim(text));
    StripNoCommas(parts);
    SplitJoin(StripEach(parts), ',');
    TrimKeepsCandidates(parse, text);
    SameCandidates(parse, Parts(Trim(text)));
  }

  lemma WithoutCommas(a: seq<string>, junk: string, b: seq<string>)
    requires NoCommas(a + b) && Lacks(junk, ',')
    ensures NoCommas(a + [junk] + b)
  {
    var with := a + [junk] + b;
    forall i | 0 <= i < |with| ensures Lacks(with[i], ',') {
      if i < |a| {
        assert with[i] == (a + b)[i];
      } else if i > |a| {
        assert with[i] == (a + b)[i - 1];
      }
    }
  }

  lemma StripEachAround(a: seq<string>, p: string, b: seq<string>)
    ensures StripEach(a + b) == StripEach(a) + StripEach(b)
    ensures StripEach(a + [p] + b) == StripEach(a) + [Strip(p)] + StripEach(b)
  {
  }

  /**
   Inserting an unsupported, malformed, blank or q=0 entry anywhere is invisible as long as
   the parts stay within 32 and the header within its cap, exactly when something visible was
   in the header to begin with: a blank header means HTML, and with junk in it means 406.
   */
  lemma JunkInvisibleExactly(parse: FloatParser, a: seq<string>, junk: string, b: seq<string>)
    requires 0 < |a + b| < 32 && Junk(parse, Strip(junk)) && Lacks(junk, ',') && NoCommas(a + b)
    requires Fits(Join(a + b, ',')) && Fits(Join(a + [junk] + b, ','))
    ensures Negotiation(parse, Join(a + [junk] + b, ',')) == Negotiation(parse, Join(a + b, ','))
            <==> Trim(Strip(Join(a + b, ','))) != ""
  {
    WithoutCommas(a, junk, b);
    HeaderOfParts(parse, a + b);
    HeaderOfParts(parse, a + [junk] + b);
    StripEachAround(a, junk, b);
    FlatMapSkip(CandidatesFrom(parse), StripEach(a), Strip(junk), StripEach(b));
    JoinHasComma(StripEach(a + [junk] + b));
    StripJoin(a + b);
    if Trim(Strip(Join(a + b, ','))) == "" {
      BlankHasNoCandidates(parse, StripEach(a + b));
    }
  }

  lemma JoinHasComma(parts: seq<string>)
    requires |parts| >= 2
    ensures Trim(Join(parts, ',')) != ""
  {
    var s := Join(parts, ',');
    assert s[|parts[0]|] == ',';
    VisibleSurvives(s, |parts[0]|);
  }

  lemma VisibleSurvives(s: string, i: nat)
    requires i < |s| && !IsSpace(s[i])
    ensures Trim(s) != ""
  {
    var n := Lead(s, 0);
    assert n <= i;
    assert s[n..][i - n] == s[i];
  }

  lemma BlankHasNoCandidates(parse: FloatParser, parts: seq<string>)
    requires parts != [] && Trim(Join(parts, ',')) == ""
    ensures CandidatesIn(parse, parts) == []
  {
    if |parts| == 1 {
      assert parts == [parts[0]];
      FlatMapOne(CandidatesFrom(parse), parts[0]);
    } else {
      JoinHasComma(parts);
    }
  }

  // ---- order ----

  ghost predicate Maximal(cs: seq<Candidate>, c: Candidate) {
    c in cs && c.q.Num? && forall d :: d in cs && d.q.Num? ==> d.q.value <= c.q.value
  }

  /** A candidate that some order lets win: one of the greatest q, or one whose q is NaN. */
  ghost predicate Winner(cs: seq<Candidate>, c: Candidate) {
    c in cs && (c.q.NaN? || Maximal(cs, c))
  }

  /** All possible winners ask for one format. */
  ghost predicate Unanimous(cs: seq<Candidate>) {
    forall c, d :: Winner(cs, c) && Winner(cs, d) ==> c.format == d.format
  }

  lemma BestWins(cs: seq<Candidate>)
    requires Parsed(cs) && cs != []
    ensures Best(cs).Some? && Winner(cs, Best(cs).value)
  {
    var i := BestExact(cs);
    assert cs[0] in cs && cs[i] in cs;
  }

  /** A possible winner that stands first does win. */
  lemma FirstWins(cs: seq<Candidate>)
    requires Parsed(cs) && cs != [] && Winner(cs, cs[0])
    ensures Best(cs) == Some(cs[0])
  {
    var i := BestExact(cs);
    assert cs[i] in cs;
  }

  lemma WinnerByContent(cs: seq<Candidate>, ds: seq<Candidate>, c: Candidate)
    requires multiset(cs) == multiset(ds) && Winner(ds, c)
    ensures Winner(cs, c)
  {
    assert forall d :: d in cs <==> d in multiset(cs);
    assert forall d :: d in ds <==> d in multiset(ds);
  }

  /** With one format among the possible winners, the order of the parts does not matter. */
  lemma OrderInvisible(parse: FloatParser, a: seq<string>, b: seq<string>)
    requires multiset(a) == multiset(b) && Unanimous(CandidatesIn(parse, a))
    ensures AnswerWith(Best(CandidatesIn(parse, a))) == AnswerWith(Best(CandidatesIn(parse, b)))
  {
    FlatMapPermuted(CandidatesFrom(parse), a, b);
    var cs, ds := CandidatesIn(parse, a), CandidatesIn(parse, b);
    assert |cs| == |multiset(cs)| == |ds|;
    if cs != [] {
      CandidatesParsed(parse, a);
      CandidatesParsed(parse, b);
      BestWins(cs);
      BestWins(ds);
      WinnerByContent(cs, ds, Best(ds).value);
    }
  }

  lemma OneCandidate(parse: FloatParser, part: string)
    ensures |CandidatesFrom(parse)(part)| <= 1
  {
    var es := EntryOf(parse, part);
    if es != [] {
      assert es == [es[0]];
      FlatMapOne(CandidateOf, es[0]);
    }
  }

  lemma PartOf(parse: FloatParser, parts: seq<string>, c: Candidate) returns (k: nat)
    requires c in CandidatesIn(parse, parts)
    ensures k < |parts| && CandidatesFrom(parse)(parts[k]) == [c]
  {
    k := FlatMapSource(CandidatesFrom(parse), parts, c);
    OneCandidate(parse, parts[k]);
    OnlyElement(CandidatesFrom(parse)(parts[k]), c);
  }

  function ToFront(parts: seq<string>, k: nat): seq<string>
    requires k < |parts|
  {
    [parts[k]] + (parts[..k] + parts[k + 1..])
  }

  lemma ToFrontPermutes(parts: seq<string>, k: nat)
    requires k < |parts|
    ensures multiset(ToFront(parts, k)) == multiset(parts)
    ensures StripEach(ToFront(parts, k)) == ToFront(StripEach(parts), k)
  {
    FrontedPermutes(parts, k);
    var all := ToFront(parts, k);
    forall i | 0 <= i < |parts| ensures StripEach(all)[i] == ToFront(StripEach(parts), k)[i] {
      assert all[i] == parts[if i == 0 then k else if i <= k then i - 1 else i];
    }
  }

  lemma FrontedPermutes(parts: seq<string>, k: nat)
    requires k < |parts|
    ensures multiset(ToFront(parts, k)) == multiset(parts)
  {
    assert parts == parts[..k] + [parts[k]] + parts[k + 1..];
  }

  /** Every possible winner wins when its part is moved to the front. */
  lemma FrontWins(parse: FloatParser, parts: seq<string>, c: Candidate) returns (k: nat)
    requires Winner(CandidatesIn(parse, parts), c)
    ensures k < |parts| && Best(CandidatesIn(parse, ToFront(parts, k))) == Some(c)
  {
    k := PartOf(parse, parts, c);
    var front := ToFront(parts, k);
    ToFrontPermutes(parts, k);
    FlatMapPermuted(CandidatesFrom(parse), front, parts);
    FlatMapCons(CandidatesFrom(parse), parts[k], parts[..k] + parts[k + 1..]);
    assert CandidatesIn(parse, front)[0] == c;
    WinnerByContent(CandidatesIn(parse, front), CandidatesIn(parse, parts), c);
    CandidatesParsed(parse, front);
    FirstWins(CandidatesIn(parse, front));
  }

  // ---- order of a whole header ----

  function Identity(): string -> string {
    part => part
  }

  lemma {:induction false} JoinLength(parts: seq<string>)
    requires parts != []
    ensures |Join(parts, ',')| == |FlatMap(Identity(), parts)| + |parts| - 1
  {
    if |parts| == 1 {
      assert parts == [parts[0]];
      FlatMapOne(Identity(), parts[0]);
    } else {
      JoinLength(parts[1..]);
      assert parts == [parts[0]] + parts[1..];
      FlatMapCons(Identity(), parts[0], parts[1..]);
    }
  }

  ghost predicate AllLack(parts: seq<string>, c: char) {
    forall p :: p in parts ==> Lacks(p, c)
  }

  lemma LacksConcat(a: string, b: string, c: char)
    ensures Lacks(a + b, c) <==> Lacks(a, c) && Lacks(b, c)
  {
    assert forall i :: 0 <= i < |a| ==> (a + b)[i] == a[i];
    assert forall i :: 0 <= i < |b| ==> (a + b)[|a| + i] == b[i];
  }

  lemma AllLackCons(part: string, parts: seq<string>, c: char)
    ensures AllLack([part] + parts, c) <==> Lacks(part, c) && AllLack(parts, c)
  {
    assert forall p :: p in [part] + parts <==> p == part || p in parts;
  }

  lemma {:induction false} JoinLacks(parts: seq<string>, c: char)
    requires c != ','
    ensures Lacks(Join(parts, ','), c) <==> AllLack(parts, c)
  {
    if parts != [] {
      AllLackCons(parts[0], parts[1..], c);
      assert parts == [parts[0]] + parts[1..];
      if |parts| > 1 {
        JoinLacks(parts[1..], c);
        LacksConcat(parts[0] + [','], Join(parts[1..], ','), c);
        LacksConcat(parts[0], [','], c);
      }
    }
  }

  lemma AllLackPermuted(a: seq<string>, b: seq<string>, c: char)
    requires multiset(a) == multiset(b) && AllLack(a, c)
    ensures AllLack(b, c)
  {
    forall p | p in b ensures Lacks(p, c) {
      assert p in multiset(a);
    }
  }

  function Stripped(): string -> seq<string> {
    part => [Strip(part)]
  }

  lemma StripEachPermuted(a: seq<string>, b: seq<string>)
    requires multiset(a) == multiset(b)
    ensures multiset(StripEach(a)) == multiset(StripEach(b))
  {
    FlatMapEach(Stripped(), a, StripEach(a));
    FlatMapEach(Stripped(), b, StripEach(b));
    FlatMapPermuted(Stripped(), a, b);
  }

  /** A header that is read whole is so in any order of its parts. */
  lemma FitsPermuted(a: seq<string>, b: seq<string>)
    requires a != [] && multiset(a) == multiset(b) && NoCommas(a) && Fits(Join(a, ','))
    ensures |a| == |b| && NoCommas(b) && Fits(Join(b, ','))
  {
    SameSize(a, b);
    JoinLacks(a, '\r');
    JoinLacks(b, '\r');
    JoinLacks(a, '\n');
    JoinLacks(b, '\n');
    AllLackPermuted(a, b, '\r');
    AllLackPermuted(a, b, '\n');
    AllLackPermuted(a, b, ',');
    StripEachPermuted(a, b);
    StripJoin(a);
    StripJoin(b);
    JoinLength(StripEach(a));
    JoinLength(StripEach(b));
    FlatMapPermuted(Identity(), StripEach(a), StripEach(b));
    SameSize(FlatMap(Identity(), StripEach(a)), FlatMap(Identity(), StripEach(b)));
  }

  /** The answer to a header of several parts. */
  lemma SeveralParts(parse: FloatParser, parts: seq<string>, b: seq<string>)
    requires 1 < |parts| <= 32 && NoCommas(parts) && Fits(Join(parts, ','))
    requires multiset(b) == multiset(parts)
    ensures HeaderAnswer(parse)(b) == AnswerWith(Best(CandidatesIn(parse, StripEach(b))))
  {
    FitsPermuted(parts, b);
    HeaderOfParts(parse, b);
    JoinHasComma(StripEach(b));
  }

  /** The answer to the header of some parts. */
  function HeaderAnswer(parse: FloatParser): seq<string> -> Outcome {
    parts => Negotiation(parse, Join(parts, ','))
  }

  /**
   The order of the parts of a header does not matter if and only if all possible winners,
   that is, the candidates of the greatest q and those whose q is NaN, ask for one format.
   */
  lemma OrderInvisibleExactly(parse: FloatParser, parts: seq<string>)
    requires 0 < |parts| <= 32 && NoCommas(parts) && Fits(Join(parts, ','))
    ensures OrderFree(HeaderAnswer(parse), parts) <==> Unanimous(CandidatesIn(parse, StripEach(parts)))
  {
    if |parts| == 1 {
      OneIsOrderFree(HeaderAnswer(parse), parts);
      OneUnanimous(parse, StripEach(parts));
    } else {
      var cs := CandidatesIn(parse, StripEach(parts));
      if OrderFree(HeaderAnswer(parse), parts) {
        forall c, d | Winner(cs, c) && Winner(cs, d) ensures c.format == d.format {
          WinnerAnswers(parse, parts, c);
          WinnerAnswers(parse, parts, d);
        }
      } else if Unanimous(cs) {
        forall b | multiset(b) == multiset(parts) ensures HeaderAnswer(parse)(b) == HeaderAnswer(parse)(parts) {
          SeveralParts(parse, parts, b);
          SeveralParts(parse, parts, parts);
          StripEachPermuted(parts, b);
          OrderInvisible(parse, StripEach(parts), StripEach(b));
        }
      }
    }
  }

  lemma OneUnanimous(parse: FloatParser, parts: seq<string>)
    requires |parts| == 1
    ensures Unanimous(CandidatesIn(parse, parts))
  {
    OneCandidate(parse, parts[0]);
    OnlyElement(parts, parts[0]);
    FlatMapOne(CandidatesFrom(parse), parts[0]);
    ShortUnanimous(CandidatesIn(parse, parts));
  }

  lemma ShortUnanimous(cs: seq<Candidate>)
    requires |cs| <= 1
    ensures Unanimous(cs)
  {
  }

  /** Where the order is irrelevant, the answer is the format of any possible winner. */
  lemma WinnerAnswers(parse: FloatParser, parts: seq<string>, c: Candidate)
    requires 1 < |parts| <= 32 && NoCommas(parts) && Fits(Join(parts, ','))
    requires OrderFree(HeaderAnswer(parse), parts) && Winner(CandidatesIn(parse, StripEach(parts)), c)
    ensures HeaderAnswer(parse)(parts) == Format(c.format)
  {
    var k := FrontWins(parse, StripEach(parts), c);
    ToFrontPermutes(parts, k);
    SeveralParts(parse, parts, ToFront(parts, k));
  }

  // ---- round trip ----

  /** A media range with its q, and a text that the float parser reads as that q. */
  datatype Item = Item(mime: string, text: string, q: real)

  predicate Renderable(parse: FloatParser, item: Item) {
    && ValidRange(item.mime)
    && item.text != "" && Trimmed(item.text) && Lacks(item.text, ';') && Lacks(item.text, ',')
    && 0.0 <= item.q <= 1.0 && parse(item.text) == Some(Num(item.q))
  }

  function Part(item: Item): string {
    item.mime + [';'] + ("q=" + item.text)
  }

  function Wanted(item: Item): Entry {
    Entry(ToLower(item.mime), Num(item.q))
  }

  predicate AllRenderable(parse: FloatParser, items: seq<Item>) {
    forall i :: 0 <= i < |items| ==> Renderable(parse, items[i])
  }

  function Render(items: seq<Item>): seq<string> {
    seq(|items|, i requires 0 <= i < |items| => Part(items[i]))
  }

  function AllWanted(items: seq<Item>): seq<Entry> {
    seq(|items|, i requires 0 <= i < |items| => Wanted(items[i]))
  }

  lemma QPrefix(text: string)
    ensures IsQ("q=" + text) && ("q=" + text)[2..] == text
  {
    var lower := ToLower("q=" + text);
    assert lower[0] == 'q' && lower[1] == '=';
    assert lower[..2] == ['q', '='];
  }

  lemma ParamReads(parse: FloatParser, text: string)
    requires text != "" && Trimmed(text) && Lacks(text, ';')
    ensures FirstQ(parse, Split("q=" + text, ';')) == ReadQ(parse, text)
  {
    var param := "q=" + text;
    SplitLacking(param, ';');
    assert param[|param| - 1] == text[|text| - 1];
    TrimmedFixed(param);
    TrimmedFixed(text);
    QPrefix(text);
  }

  lemma RangeFacts(mime: string)
    requires ValidRange(mime)
    ensures Trimmed(mime) && Lacks(mime, ';') && Lacks(mime, ',') && !IsSpace(mime[0])
  {
  }

  lemma PartReads(parse: FloatParser, mime: string, text: string)
    requires ValidRange(mime) && text != "" && Trimmed(text) && Lacks(text, ';')
    ensures EntryOf(parse, mime + [';'] + ("q=" + text)) == [Entry(ToLower(mime), ReadQ(parse, text))]
  {
    var part := mime + [';'] + ("q=" + text);
    RangeFacts(mime);
    assert part[0] == mime[0] && part[|part| - 1] == text[|text| - 1];
    TrimmedFixed(part);
    TrimmedFixed(mime);
    CutPart(mime, "q=" + text);
    ParamReads(parse, text);
    ParsedPart(parse, part, mime, "q=" + text);
  }

  lemma CutPart(mime: string, params: string)
    requires Lacks(mime, ';')
    ensures var part := mime + [';'] + params; var i := Find(part, ';');
            i < |part| && part[..i] == mime && part[i + 1..] == params
  {
    FindIn(mime, ';', params);
  }

  /** A trimmed part that is cut into a valid range and its parameters. */
  lemma ParsedPart(parse: FloatParser, part: string, mime: string, params: string)
    requires var i := Find(part, ';'); i < |part| && part[..i] == mime && part[i + 1..] == params
    requires Trim(part) == part && Trim(mime) == mime && ValidRange(mime)
    ensures EntryOf(parse, part) == [Entry(ToLower(mime), FirstQ(parse, Split(params, ';')))]
  {
  }

  lemma PartText(parse: FloatParser, item: Item)
    requires Renderable(parse, item)
    ensures Part(item) != "" && Trimmed(Part(item)) && Lacks(Part(item), ',')
  {
    RangeFacts(item.mime);
    var part := Part(item);
    assert part[0] == item.mime[0] && part[|part| - 1] == item.text[|item.text| - 1];
  }

  lemma PartRoundTrip(parse: FloatParser, item: Item)
    requires Renderable(parse, item)
    ensures EntryOf(parse, Part(item)) == [Wanted(item)]
  {
    assert ReadQ(parse, item.text) == Num(item.q);
    PartReads(parse, item.mime, item.text);
  }

  lemma RenderedEntries(parse: FloatParser, items: seq<Item>)
    requires AllRenderable(parse, items)
    ensures EntriesOf(parse, Render(items)) == AllWanted(items)
  {
    var f := Reader(parse);
    forall i | 0 <= i < |items| ensures f(Render(items)[i]) == [AllWanted(items)[i]] {
      PartRoundTrip(parse, items[i]);
    }
    FlatMapEach(f, Render(items), AllWanted(items));
  }

  lemma RenderedParts(parse: FloatParser, items: seq<Item>)
    requires AllRenderable(parse, items)
    ensures NoCommas(Render(items))
    ensures forall i :: 0 <= i < |items| ==> Render(items)[i] != "" && Trimmed(Render(items)[i])
  {
    forall i | 0 <= i < |items|
      ensures Render(items)[i] != "" && Trimmed(Render(items)[i]) && Lacks(Render(items)[i], ',')
    {
      PartText(parse, items[i]);
    }
  }

  /**
   Parsing what was rendered from at most 32 valid items, within the length cap, gives them
   back with their types in lower case and the same q.
   */
  lemma RenderRoundTrip(parse: FloatParser, items: seq<Item>)
    requires 0 < |items| <= 32 && AllRenderable(parse, items) && Clean(Join(Render(items), ','))
    ensures var raw := Join(Render(items), ',');
            Sanitize(raw) == Some(raw) && EntriesOf(parse, Parts(raw)) == AllWanted(items)
  {
    RenderedEntries(parse, items);
    RenderedParts(parse, items);
    SplitJoin(Render(items), ',');
    JoinEnds(Render(items));
    SanitizeFixed(Join(Render(items), ','));
  }

  // ---- from items to the answer ----

  /** What an item asks for: a format, if supported, and how much. */
  datatype Wish = Wish(format: Option<Format>, q: real)

  function WishOf(item: Item): Wish {
    Wish(NamedFormat(ToLower(item.mime)), item.q)
  }

  function Wishes(items: seq<Item>): seq<Wish> {
    seq(|items|, i requires 0 <= i < |items| => WishOf(items[i]))
  }

  predicate Eligible(w: Wish) {
    w.q > 0.0 && w.format.Some?
  }

  predicate NoneEligible(ws: seq<Wish>) {
    forall i :: 0 <= i < |ws| ==> !Eligible(ws[i])
  }

  /** Wish `i` is the first among the eligible ones of the greatest q. */
  ghost predicate FirstBest(ws: seq<Wish>, i: nat) {
    && i < |ws| && Eligible(ws[i])
    && (forall j :: 0 <= j < |ws| && Eligible(ws[j]) ==> ws[j].q <= ws[i].q)
    && (forall j :: 0 <= j < i && Eligible(ws[j]) ==> ws[j].q < ws[i].q)
  }

  function CandidateFor(w: Wish): seq<Candidate> {
    if Eligible(w) then [Candidate(w.format.value, Num(w.q))] else []
  }

  lemma SameCandidate(item: Item)
    requires 0.0 <= item.q && ValidRange(item.mime)
    ensures CandidateOf(Wanted(item)) == CandidateFor(WishOf(item))
  {
    LowerRange(item.mime);
    NamedExactly(ToLower(item.mime));
    CandidateWith(ToLower(item.mime), item.q);
  }

  lemma NamedExactly(m: string)
    requires Trim(m) == m && ToLower(m) == m
    ensures MatchFormat(m) == NamedFormat(m)
  {
    MatchExactly(m);
    DifferentNames(m);
  }

  lemma CandidateWith(m: string, q: real)
    requires 0.0 <= q
    ensures CandidateOf(Entry(m, Num(q)))
            == if q > 0.0 && MatchFormat(m).Some? then [Candidate(MatchFormat(m).value, Num(q))] else []
  {
  }

  lemma WishCandidates(items: seq<Item>)
    requires forall k :: 0 <= k < |items| ==> 0.0 <= items[k].q && ValidRange(items[k].mime)
    ensures Candidates(AllWanted(items)) == FlatMap(CandidateFor, Wishes(items))
  {
    var f, g := CandidateOf, CandidateFor;
    forall i | 0 <= i < |items| ensures f(AllWanted(items)[i]) == g(Wishes(items)[i]) {
      SameCandidate(items[i]);
    }
    FlatMapSame(f, g, AllWanted(items), Wishes(items));
  }

  /** How the first best wish changes with one more. */
  lemma FirstBestSnoc(ws: seq<Wish>, w: Wish, i: nat)
    ensures NoneEligible(ws + [w]) <==> NoneEligible(ws) && !Eligible(w)
    ensures NoneEligible(ws) && Eligible(w) ==> FirstBest(ws + [w], |ws|)
    ensures FirstBest(ws, i) ==> FirstBest(ws + [w], if Eligible(w) && ws[i].q < w.q then |ws| else i)
  {
    var all := ws + [w];
    assert all[|ws|] == w;
    forall j | 0 <= j < |ws| ensures all[j] == ws[j] {
    }
  }

  lemma BestCandidateSnoc(ws: seq<Wish>, w: Wish)
    ensures var best := Best(FlatMap(CandidateFor, ws));
            Best(FlatMap(CandidateFor, ws + [w]))
            == if Eligible(w) && (best == None || best.value.q.Less(Num(w.q)))
               then Some(Candidate(w.format.value, Num(w.q))) else best
  {
    FlatMapSnoc(CandidateFor, ws, w);
    var before := FlatMap(CandidateFor, ws);
    if Eligible(w) {
      BestSnoc(before, Candidate(w.format.value, Num(w.q)));
    } else {
      assert before + [] == before;
    }
  }

  /** The best candidate is that of the first best wish, if any. */
  ghost predicate Chosen(ws: seq<Wish>, i: nat) {
    var best := Best(FlatMap(CandidateFor, ws));
    if NoneEligible(ws) then best == None
    else FirstBest(ws, i) && best == Some(Candidate(ws[i].format.value, Num(ws[i].q)))
  }

  lemma ChosenSnoc(ws: seq<Wish>, w: Wish, i: nat) returns (i': nat)
    requires Chosen(ws, i)
    ensures Chosen(ws + [w], i')
  {
    BestCandidateSnoc(ws, w);
    FirstBestSnoc(ws, w, i);
    assert forall j :: 0 <= j < |ws| ==> (ws + [w])[j] == ws[j];
    i' := if NoneEligible(ws) || (Eligible(w) && ws[i].q < w.q) then |ws| else i;
  }

  lemma {:induction false} BestWish(ws: seq<Wish>) returns (i: nat)
    ensures Chosen(ws, i)
  {
    i := 0;
    if ws != [] {
      i := BestWish(ws[..|ws| - 1]);
      i := ChosenSnoc(ws[..|ws| - 1], ws[|ws| - 1], i);
      assert ws == ws[..|ws| - 1] + [ws[|ws| - 1]];
    }
  }

  /**
   From end to end: a header rendered from at most 32 valid items is answered 406 exactly
   when no item is supported with a positive q, and otherwise with the format of the first
   item of the greatest q among those.
   */
  lemma RenderedChoice(parse: FloatParser, items: seq<Item>)
    requires 0 < |items| <= 32 && AllRenderable(parse, items) && Clean(Join(Render(items), ','))
    ensures var answer, ws := Negotiation(parse, Join(Render(items), ',')), Wishes(items);
            if NoneEligible(ws) then answer == NotAcceptable
            else exists i: nat :: FirstBest(ws, i) && answer == Format(ws[i].format.value)
  {
    RenderRoundTrip(parse, items);
    RenderedParts(parse, items);
    JoinEnds(Render(items));
    WishCandidates(items);
    var i := BestWish(Wishes(items));
  }

  // ---- q ----

  /** A parameter that gives a q. */
  predicate QParam(p: string) {
    |p| >= 2 && (p[0] == 'q' || p[0] == 'Q') && p[1] == '='
  }

  lemma IsQExactly(p: string)
    ensures IsQ(p) <==> QParam(p)
  {
    var lower := ToLower(p);
    if |p| >= 2 {
      assert lower[..2] == [LowerChar(p[0]), LowerChar(p[1])];
    }
  }

  /** The q that a parsed number stands for: itself within 0..1, NaN for NaN, and 1 otherwise. */
  function QOf(number: Option<Float>): Float {
    match number
    case Some(Num(x)) => if 0.0 <= x <= 1.0 then Num(x) else Num(1.0)
    case Some(NaN) => NaN
    case _ => Num(1.0)
  }

  lemma ReadQExactly(parse: FloatParser, text: string)
    ensures ReadQ(parse, text) == QOf(parse(text))
  {
  }

  /** Without a q parameter, q is 1. */
  lemma {:induction false} NoQ(parse: FloatParser, params: seq<string>)
    requires forall i :: 0 <= i < |params| ==> !QParam(Trim(params[i]))
    ensures FirstQ(parse, params) == Num(1.0)
  {
    if params != [] {
      IsQExactly(Trim(params[0]));
      assert forall i :: 0 <= i < |params[1..]| ==> params[1..][i] == params[i + 1];
      NoQ(parse, params[1..]);
    }
  }

  /** Otherwise it is what the first q parameter stands for. */
  lemma {:induction false} FirstQExactly(parse: FloatParser, params: seq<string>, k: nat)
    requires k < |params| && QParam(Trim(params[k])) && forall i :: 0 <= i < k ==> !QParam(Trim(params[i]))
    ensures FirstQ(parse, params) == QOf(parse(Trim(Trim(params[k])[2..])))
  {
    IsQExactly(Trim(params[0]));
    if k > 0 {
      assert forall i :: 0 <= i < |params[1..]| ==> params[1..][i] == params[i + 1];
      FirstQExactly(parse, params[1..], k - 1);
    } else {
      ReadQExactly(parse, Trim(Trim(params[0])[2..]));
    }
  }

  /** Blanks around the semicolon, the parameter and its number do not matter. */
  lemma PaddedEntry(parse: FloatParser, mime: string, a: string, b: string, c: string, text: string, d: string)
    requires ValidRange(mime) && text != "" && Trimmed(text) && Lacks(text, ';')
    requires Blank(a) && Blank(b) && Blank(c) && Blank(d)
    ensures ParseEntry(parse, (mime + a) + [';'] + (b + ("q=" + (c + text)) + d))
            == Some(Entry(ToLower(mime), QOf(parse(text))))
  {
    var params := b + ("q=" + (c + text)) + d;
    PaddedRange(mime, a);
    CutPart(mime + a, params);
    PaddedParam(parse, b, c, text, d);
    PaddedParts(parse, (mime + a) + [';'] + params, mime + a, params, mime);
  }

  lemma PaddedRange(mime: string, pad: string)
    requires ValidRange(mime) && Blank(pad)
    ensures Trim(mime + pad) == mime && Lacks(mime + pad, ';')
  {
    RangeFacts(mime);
    TrimPadded("", mime, pad);
    assert "" + mime == mime;
  }

  lemma PaddedParts(parse: FloatParser, part: string, front: string, params: string, mime: string)
    requires var i := Find(part, ';'); i < |part| && part[..i] == front && part[i + 1..] == params
    requires Trim(front) == mime && ValidRange(mime)
    ensures ParseEntry(parse, part) == Some(Entry(ToLower(mime), FirstQ(parse, Split(params, ';'))))
  {
  }

  lemma PaddedParam(parse: FloatParser, b: string, c: string, text: string, d: string)
    requires text != "" && Trimmed(text) && Lacks(text, ';') && Blank(b) && Blank(c) && Blank(d)
    ensures FirstQ(parse, Split(b + ("q=" + (c + text)) + d, ';')) == QOf(parse(text))
  {
    var param := "q=" + (c + text);
    PaddedText(b, c, text, d);
    SplitLacking(b + param + d, ';');
    QNumber(c, text);
    FirstQExactly(parse, [b + param + d], 0);
  }

  lemma PaddedText(b: string, c: string, text: string, d: string)
    requires text != "" && Trimmed(text) && Lacks(text, ';') && Blank(b) && Blank(c) && Blank(d)
    ensures var param := "q=" + (c + text); Trim(b + param + d) == param && Lacks(b + param + d, ';')
  {
    var param := "q=" + (c + text);
    assert param[0] == 'q' && param[|param| - 1] == text[|text| - 1];
    TrimPadded(b, param, d);
  }

  lemma QNumber(c: string, text: string)
    requires text != "" && Trimmed(text) && Blank(c)
    ensures var param := "q=" + (c + text); QParam(param) && Trim(param[2..]) == text
  {
    TrimPadded(c, text, "");
    assert c + text + "" == c + text;
  }

  // ---- refusals and caps ----

  /** A header is invalid if and only if it holds a line break. */
  lemma InvalidExactly(parse: FloatParser, raw: string)
    ensures Negotiation(parse, raw) == Invalid <==> '\r' in raw || '\n' in raw
  {
    assert Lacks(raw, '\r') <==> '\r' !in raw;
    assert Lacks(raw, '\n') <==> '\n' !in raw;
  }

  /** Otherwise it is stripped, cut off at 4096 characters, and trimmed. */
  lemma SanitizeExactly(raw: string)
    requires Lacks(raw, '\r') && Lacks(raw, '\n')
    ensures |Strip(raw)| <= 4096 ==> Sanitize(raw) == Some(Trim(Strip(raw)))
    ensures |Strip(raw)| > 4096 ==> Sanitize(raw) == Some(Trim(Strip(raw)[..4096]))
  {
  }

  lemma RangeCharExactly(c: char)
    ensures RangeChar(c) <==> c in "abcdefghijklmnopqrstuvwxyz" || c in "ABCDEFGHIJKLMNOPQRSTUVWXYZ"
                              || c in "0123456789" || c in {'/', '.', '+', '-', '*', '_'}
  {
    LowerCase(c);
    UpperCase(c);
    Numeral(c);
  }

  /** Trimming the header leaves the candidates of the first parts as they are. */
  lemma TrimKeepsFront(parse: FloatParser, s: string, n: nat)
    requires 0 < n < |Split(s, ',')|
    ensures |Split(Trim(s), ',')| == |Split(s, ',')|
    ensures CandidatesIn(parse, Split(Trim(s), ',')[..n]) == CandidatesIn(parse, Split(s, ',')[..n])
  {
    var left, right := TrimDecomposed(s);
    var inner := Split(Trim(s), ',');
    SplitPadLeft(left, Trim(s) + right);
    SplitPadRight(Trim(s), right);
    FrontOfPadded(left, inner, right, n);
    PartPadded(parse, left, inner[0]);
    PadFirst(CandidatesFrom(parse), left, inner[..n]);
  }

  lemma FrontOfPadded(left: string, parts: seq<string>, right: string, n: nat)
    requires parts != [] && 0 < n < |PadStart(left, PadEnd(parts, right))|
    ensures |PadStart(left, PadEnd(parts, right))| == |parts|
    ensures PadStart(left, PadEnd(parts, right))[..n] == PadStart(left, parts[..n])
  {
  }

  /** Only the first 32 parts of a header count. */
  lemma LatePartsIgnored(parse: FloatParser, parts: seq<string>)
    requires |parts| > 32 && NoCommas(parts) && Fits(Join(parts, ','))
    ensures Negotiation(parse, Join(parts, ',')) == AnswerWith(Best(CandidatesIn(parse, StripEach(parts)[..32])))
  {
    var text := Join(StripEach(parts), ',');
    StripJoin(parts);
    SanitizeExactly(Join(parts, ','));
    StripNoCommas(parts);
    SplitJoin(StripEach(parts), ',');
    TrimKeepsFront(parse, text, 32);
    JoinHasComma(StripEach(parts));
    SameCandidates(parse, Parts(Trim(text)));
  }

  // ---- in the words of the header ----

  /** The names of the formats, as an Accept header spells them, in lower case. */
  predicate NamesHtml(m: string) {
    m == "text/html" || m == "text/*" || m == "*/*"
  }

  predicate NamesMarkdown(m: string) {
    m == "text/markdown" || m == "text/x-markdown"
  }

  predicate NamesJson(m: string) {
    m == "application/json" || m == "application/*"
  }

  function NamedFormat(m: string): Option<Format> {
    if NamesHtml(m) then Some(HTML)
    else if NamesMarkdown(m) then Some(Markdown)
    else if NamesJson(m) then Some(JSON)
    else None
  }

  lemma MatchExactly(mime: string)
    requires Trim(mime) == mime
    ensures MatchFormat(mime) == Some(HTML) <==> NamesHtml(ToLower(mime))
    ensures MatchFormat(mime) == Some(Markdown) <==> NamesMarkdown(ToLower(mime))
    ensures MatchFormat(mime) == Some(JSON) <==> NamesJson(ToLower(mime))
  {
    var m := ToLower(mime);
    DifferentNames(m);
  }

  lemma DifferentNames(m: string)
    ensures !(NamesHtml(m) && NamesMarkdown(m)) && !(NamesHtml(m) && NamesJson(m))
    ensures !(NamesMarkdown(m) && NamesJson(m))
  {
    if NamesHtml(m) {
      assert |m| == 9 || |m| == 6 || |m| == 3;
    }
    if NamesMarkdown(m) {
      assert |m| == 13 || |m| == 15;
    }
    if NamesJson(m) {
      assert |m| == 16 || |m| == 13;
      assert m[0] == 'a';
    }
  }

  /** A header of one valid range, and nothing else, is answered by its name alone. */
  lemma RangeAnswered(parse: FloatParser, mime: string)
    requires ValidRange(mime)
    ensures Negotiation(parse, mime) == Format(HTML) <==> NamesHtml(ToLower(mime))
    ensures Negotiation(parse, mime) == Format(Markdown) <==> NamesMarkdown(ToLower(mime))
    ensures Negotiation(parse, mime) == Format(JSON) <==> NamesJson(ToLower(mime))
    ensures Negotiation(parse, mime) == NotAcceptable
            <==> !NamesHtml(ToLower(mime)) && !NamesMarkdown(ToLower(mime)) && !NamesJson(ToLower(mime))
  {
    var lower := ToLower(mime);
    LowerRange(mime);
    MatchExactly(lower);
    DifferentNames(lower);
    PlainHeader(parse, mime);
  }

  lemma LowerRange(mime: string)
    requires ValidRange(mime)
    ensures ToLower(ToLower(mime)) == ToLower(mime) && Trim(ToLower(mime)) == ToLower(mime)
  {
    LowerTwice(mime);
    LowerTrimmed(mime);
    TrimmedFixed(ToLower(mime));
  }

  lemma LowerTwice(s: string)
    ensures ToLower(ToLower(s)) == ToLower(s)
  {
  }

  lemma LowerTrimmed(s: string)
    requires Trimmed(s)
    ensures Trimmed(ToLower(s))
  {
  }

  /** What a range without a q asks for. */
  function PlainCandidate(m: string): seq<Candidate> {
    match MatchFormat(m)
    case None => []
    case Some(f) => [Candidate(f, Num(1.0))]
  }

  lemma PlainCandidateOf(m: string)
    ensures CandidateOf(Entry(m, Num(1.0))) == PlainCandidate(m)
  {
  }

  lemma PlainCandidates(parse: FloatParser, mime: string)
    requires ValidRange(mime)
    ensures CandidatesFrom(parse)(mime) == PlainCandidate(ToLower(mime))
  {
    PlainRange(parse, mime);
    CandidatesOfOne(parse, mime, Entry(ToLower(mime), Num(1.0)));
    PlainCandidateOf(ToLower(mime));
  }

  lemma PlainHeader(parse: FloatParser, mime: string)
    requires ValidRange(mime)
    ensures Negotiation(parse, mime)
            == match MatchFormat(ToLower(mime)) case None => NotAcceptable case Some(f) => Format(f)
  {
    PlainCandidates(parse, mime);
    RangeStays(mime);
    OnePartHeader(parse, mime, PlainCandidate(ToLower(mime)));
  }

  /** A valid range holds nothing that sanitizing or splitting takes off. */
  lemma RangeStays(mime: string)
    requires ValidRange(mime)
    ensures Lacks(mime, ',') && Strip(mime) == mime && Fits(mime) && Trim(mime) != ""
  {
    RangeFacts(mime);
    StripClean(mime);
    TrimmedFixed(mime);
  }

  lemma OnePartHeader(parse: FloatParser, part: string, cs: seq<Candidate>)
    requires Lacks(part, ',') && Fits(part) && Strip(part) == part && Trim(part) != ""
    requires CandidatesFrom(parse)(part) == cs && |cs| <= 1
    ensures Negotiation(parse, part) == if cs == [] then NotAcceptable else Format(cs[0].format)
  {
    var parts := [part];
    StripOne(part);
    assert Join(parts, ',') == part;
    HeaderOfParts(parse, parts);
    FlatMapOne(CandidatesFrom(parse), part);
    OneBest(cs);
  }

  lemma StripOne(part: string)
    requires Strip(part) == part
    ensures StripEach([part]) == [part]
  {
  }

  lemma OneBest(cs: seq<Candidate>)
    requires |cs| <= 1
    ensures Best(cs) == if cs == [] then None else Some(cs[0])
  {
    if cs != [] {
      assert cs[..0] == [];
    }
  }

  // ---- inputs that show the conditions are needed ----

  lemma HtmlRange()
    ensures ValidRange("text/html") && MatchFormat(ToLower("text/html")) == Some(HTML)
  {
    assert "text/html"[4] == '/';
    assert ToLower("text/html") == "text/html";
    TrimmedFixed("text/html");
  }

  lemma JsonValid()
    ensures ValidRange("application/json") && ToLower("application/json") == "application/json"
  {
    assert "application/json"[11] == '/';
  }

  lemma JsonRange()
    ensures ValidRange("application/json") && MatchFormat(ToLower("application/json")) == Some(JSON)
  {
    JsonValid();
    TrimmedFixed("application/json");
    MatchExactly("application/json");
  }

  lemma CandidatesOfOne(parse: FloatParser, part: string, e: Entry)
    requires EntryOf(parse, part) == [e]
    ensures CandidatesFrom(parse)(part) == CandidateOf(e)
  {
    FlatMapOne(CandidateOf, e);
  }

  lemma AnswerToParts(parse: FloatParser, parts: seq<string>)
    ensures Answer(parse, parts) == AnswerWith(Best(CandidatesIn(parse, parts)))
  {
    SameCandidates(parse, parts);
  }

  /** A candidate with q=NaN wins from the front, and only from there. */
  lemma LeadingNaN(f: string -> seq<Candidate>, a: string, b: string, c: Candidate, d: Candidate)
    requires f(a) == [c] && f(b) == [d] && c.q.NaN? && d.q.Num?
    ensures Best(FlatMap(f, [a, b])) == Some(c) && !FirstMaximumChosen(FlatMap(f, [a, b]))
    ensures Best(FlatMap(f, [b, a])) == Some(d)
  {
    FlatMapEach(f, [a, b], [c, d]);
    FlatMapEach(f, [b, a], [d, c]);
    BestOfTwo(c, d);
    BestOfTwo(d, c);
    assert ![c, d][0].q.Num?;
  }

  lemma BestOfTwo(c: Candidate, d: Candidate)
    ensures Best([c, d]) == Some(if c.q.Less(d.q) then d else c)
  {
    assert [c, d] == [c] + [d] && [c] == [] + [c];
    BestSnoc([], c);
    BestSnoc([c], d);
  }

  function WithQ(mime: string, text: string): string {
    mime + [';'] + ("q=" + text)
  }

  /** A text that the parser takes for `q`, with nothing in it that would end the parameter. */
  predicate Reads(parse: FloatParser, text: string, q: Float) {
    text != "" && Trimmed(text) && Lacks(text, ';') && parse(text) == Some(q)
  }

  predicate Supports(mime: string, format: Format) {
    ValidRange(mime) && MatchFormat(ToLower(mime)) == Some(format)
  }

  lemma PositiveCandidate(parse: FloatParser, mime: string, text: string, format: Format, q: Float)
    requires Supports(mime, format) && Reads(parse, text, q) && (q == NaN || q == Num(1.0))
    ensures CandidatesFrom(parse)(WithQ(mime, text)) == [Candidate(format, q)]
  {
    ReadsQ(parse, text, q);
    var part := WithQ(mime, text);
    WithQReads(parse, mime, text);
    CandidatesOfOne(parse, part, Entry(ToLower(mime), q));
    CandidateSupported(ToLower(mime), format, q);
  }

  lemma ReadsQ(parse: FloatParser, text: string, q: Float)
    requires Reads(parse, text, q) && (q == NaN || q == Num(1.0))
    ensures ReadQ(parse, text) == q && !RuledOut(q)
  {
  }

  lemma WithQReads(parse: FloatParser, mime: string, text: string)
    requires ValidRange(mime) && text != "" && Trimmed(text) && Lacks(text, ';')
    ensures EntryOf(parse, WithQ(mime, text)) == [Entry(ToLower(mime), ReadQ(parse, text))]
  {
    PartReads(parse, mime, text);
  }

  lemma CandidateSupported(mime: string, format: Format, q: Float)
    requires MatchFormat(mime) == Some(format) && !RuledOut(q)
    ensures CandidateOf(Entry(mime, q)) == [Candidate(format, q)]
  {
  }

  /** A range at q=nan in front of another at q=1 is chosen, although its q is not the greatest. */
  lemma LeadingNaNWins(parse: FloatParser, a: string, nan: string, c: Format, b: string, one: string, d: Format)
    requires Supports(a, c) && Reads(parse, nan, NaN) && Supports(b, d) && Reads(parse, one, Num(1.0))
    ensures Answer(parse, [WithQ(a, nan), WithQ(b, one)]) == Format(c)
    ensures Answer(parse, [WithQ(b, one), WithQ(a, nan)]) == Format(d)
    ensures !FirstMaximumChosen(CandidatesIn(parse, [WithQ(a, nan), WithQ(b, one)]))
  {
    var v, w := WithQ(a, nan), WithQ(b, one);
    PositiveCandidate(parse, a, nan, c, NaN);
    PositiveCandidate(parse, b, one, d, Num(1.0));
    LeadingNaN(CandidatesFrom(parse), v, w, Candidate(c, NaN), Candidate(d, Num(1.0)));
    AnswerToParts(parse, [v, w]);
    AnswerToParts(parse, [w, v]);
  }

  lemma PlainTexts(parse: FloatParser)
    requires parse("nan") == Some(NaN) && parse("1") == Some(Num(1.0))
    ensures Reads(parse, "nan", NaN) && Reads(parse, "1", Num(1.0))
  {
  }

  /** For instance "text/html;q=nan" and "application/json;q=1". */
  lemma HtmlBeatsJson(parse: FloatParser)
    requires parse("nan") == Some(NaN) && parse("1") == Some(Num(1.0))
    ensures Answer(parse, [WithQ("text/html", "nan"), WithQ("application/json", "1")]) == Format(HTML)
    ensures Answer(parse, [WithQ("application/json", "1"), WithQ("text/html", "nan")]) == Format(JSON)
  {
    HtmlRange();
    JsonRange();
    PlainTexts(parse);
    LeadingNaNWins(parse, "text/html", "nan", HTML, "application/json", "1", JSON);
  }

  lemma PlainRange(parse: FloatParser, mime: string)
    requires ValidRange(mime)
    ensures EntryOf(parse, mime) == [Entry(ToLower(mime), Num(1.0))]
  {
    RangeFacts(mime);
    TrimmedFixed(mime);
    assert Find(mime, ';') == |mime|;
  }

  lemma UnsupportedRange(parse: FloatParser, mime: string)
    requires ValidRange(mime) && MatchFormat(ToLower(mime)) == None
    ensures CandidatesFrom(parse)(mime) == []
  {
    PlainRange(parse, mime);
    CandidatesOfOne(parse, mime, Entry(ToLower(mime), Num(1.0)));
  }

  lemma EmptyPart(parse: FloatParser)
    ensures CandidatesFrom(parse)("") == []
  {
  }

  lemma EmptyHeader(parse: FloatParser)
    ensures Negotiation(parse, "") == Format(HTML)
  {
  }

  /** An empty header means HTML; with an unsupported entry in it, 406. */
  lemma BlankHeaderWithJunk(parse: FloatParser, mime: string)
    requires ValidRange(mime) && MatchFormat(ToLower(mime)) == None
    ensures Negotiation(parse, "") == Format(HTML)
    ensures Negotiation(parse, Join(["", mime], ',')) == NotAcceptable
  {
    EmptyHeader(parse);
    EmptyPart(parse);
    RangeFits(mime);
    UnsupportedRange(parse, mime);
    JunkHeader(parse, "", mime);
  }

  lemma JunkHeader(parse: FloatParser, a: string, b: string)
    requires NoCommas([a, b]) && Fits(Join([a, b], ',')) && StripEach([a, b]) == [a, b]
    requires CandidatesFrom(parse)(a) == [] && CandidatesFrom(parse)(b) == []
    ensures Negotiation(parse, Join([a, b], ',')) == NotAcceptable
  {
    JoinHasComma([a, b]);
    HeaderOfParts(parse, [a, b]);
    NothingInTwo(CandidatesFrom(parse), a, b);
  }

  lemma NothingInTwo(f: string -> seq<Candidate>, a: string, b: string)
    requires f(a) == [] && f(b) == []
    ensures FlatMap(f, [a, b]) == []
  {
    FlatMapNothing(f, [a, b]);
  }

  lemma RangeFits(mime: string)
    requires ValidRange(mime)
    ensures NoCommas(["", mime]) && Fits(Join(["", mime], ',')) && StripEach(["", mime]) == ["", mime]
  {
    RangeFacts(mime);
    var raw := Join(["", mime], ',');
    assert ["", mime][1..] == [mime];
    assert raw == "" + [','] + mime == [','] + mime;
    StripClean(mime);
    StripClean(raw);
    assert StripEach(["", mime]) == ["", mime];
  }

  /** Such a range: an image. */
  lemma ImageUnsupported()
    ensures ValidRange("image/png") && MatchFormat(ToLower("image/png")) == None
  {
    assert "image/png"[5] == '/';
    assert ToLower("image/png") == "image/png";
    TrimmedFixed("image/png");
  }

  lemma {:induction false} JoinEnds(parts: seq<string>)
    requires parts != [] && forall i :: 0 <= i < |parts| ==> parts[i] != "" && Trimmed(parts[i])
    ensures Trimmed(Join(parts, ',')) && Join(parts, ',') != ""
  {
    var s := Join(parts, ',');
    if |parts| > 1 {
      JoinEnds(parts[1..]);
      var rest := Join(parts[1..], ',');
      assert s[0] == parts[0][0] && s[|s| - 1] == rest[|rest| - 1];
    }
  }
}
