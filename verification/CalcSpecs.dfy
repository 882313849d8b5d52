/** The calc specifications of an aggregate query: printed, and parsed by the server and by the CLI. */
module CalcSpecs {
  import opened Options
  import opened Strings
  import opened Seqs

  /** `field` is empty for a plain count. */
  datatype Spec = Spec(fn: string, field: string)

  const COUNT := Spec("count", "")

  predicate ValidFn(fn: string) {
    fn == "count" || fn == "avg" || fn == "sum" || fn == "min" || fn == "max"
  }

  predicate FieldChar(c: char) {
    || 'a' <= c <= 'z' || 'A' <= c <= 'Z' || '0' <= c <= '9'
    || c == '_' || c == '-' || c == '.' || c == '[' || c == ']' || c == '*'
  }

  predicate ValidField(s: string) {
    s != "" && forall i :: 0 <= i < |s| ==> FieldChar(s[i])
  }

  function Label(s: Spec): string {
    if s.field == "" then s.fn else s.fn + [':'] + s.field
  }

  /** What the server computes: a count, or a supported function of a well-named field. */
  predicate ValidSpec(s: Spec) {
    s == COUNT || (ValidFn(s.fn) && ValidField(s.field))
  }

  // ---- parsing ----

  /** One part: nothing when blank, no result when refused. */
  function ReadPart(part: string, checkFn: bool): Option<seq<Spec>> {
    ReadTrimmed(Trim(part), checkFn)
  }

  function ReadTrimmed(p: string, checkFn: bool): Option<seq<Spec>> {
    if p == "" then Some([])
    else if p == "count" then Some([COUNT])
    else
      var i := Find(p, ':');
      if i == |p| || i + 1 == |p| then None
      else if checkFn && !ValidFn(p[..i]) then None
      else if !ValidField(p[i + 1..]) then None
      else Some([Spec(p[..i], p[i + 1..])])
  }

  type PartReader = string -> Option<seq<Spec>>

  /** The server's part reader checks the function, the CLI's does not. */
  function Server(): PartReader {
    part => ReadPart(part, true)
  }

  function Cli(): PartReader {
    part => ReadPart(part, false)
  }

  function ReadParts(read: PartReader, parts: seq<string>): Option<seq<Spec>> {
    if parts == [] then Some([])
    else
      match ReadParts(read, parts[..|parts| - 1])
      case None => None
      case Some(front) =>
        match read(parts[|parts| - 1])
        case None => None
        case Some(last) => Some(front + last)
  }

  /** No specification at all means a count. */
  function OrCount(r: Option<seq<Spec>>): Option<seq<Spec>> {
    if r == Some([]) then Some([COUNT]) else r
  }

  function Parse(read: PartReader, raw: string): Option<seq<Spec>> {
    if raw == "" then Some([COUNT]) else OrCount(ReadParts(read, Split(raw, ',')))
  }

  /** The loop of both parsers. */
  method ParseSpecs(read: PartReader, raw: string) returns (r: Option<seq<Spec>>)
    ensures r == Parse(read, raw)
  {
    if raw == "" {
      return Some([COUNT]);
    }
    var parts := Split(raw, ',');
    var specs := [];
    var i := 0;
    while i < |parts|
      invariant 0 <= i <= |parts|
      invariant ReadParts(read, parts[..i]) == Some(specs)
    {
      assert parts[..i + 1][..i] == parts[..i];
      var part := read(parts[i]);
      if part == None {
        RefusedStays(read, parts, i + 1);
        return None;
      }
      specs := specs + part.value;
      i := i + 1;
    }
    assert parts[..i] == parts;
    if |specs| == 0 {
      return Some([COUNT]);
    }
    return Some(specs);
  }

  lemma {:induction false} RefusedStays(read: PartReader, parts: seq<string>, n: nat)
    requires n <= |parts| && ReadParts(read, parts[..n]) == None
    ensures ReadParts(read, parts) == None
  {
    if n == |parts| {
      assert parts[..n] == parts;
    } else {
      assert parts[..|parts| - 1][..n] == parts[..n];
      RefusedStays(read, parts[..|parts| - 1], n);
    }
  }

  /** The check that the CLI makes while it builds its query. */
  method CheckFunctions(specs: seq<Spec>) returns (ok: bool)
    ensures ok <==> forall i :: 0 <= i < |specs| ==> ValidFn(specs[i].fn)
  {
    var i := 0;
    while i < |specs|
      invariant 0 <= i <= |specs|
      invariant forall j :: 0 <= j < i ==> ValidFn(specs[j].fn)
    {
      if !ValidFn(specs[i].fn) {
        return false;
      }
      i := i + 1;
    }
    return true;
  }

  predicate FunctionsValid(specs: seq<Spec>) {
    forall i :: 0 <= i < |specs| ==> ValidFn(specs[i].fn)
  }

  function Checked(r: Option<seq<Spec>>): Option<seq<Spec>> {
    if r.Some? && !FunctionsValid(r.value) then None else r
  }

  lemma PartAgrees(part: string)
    ensures ReadPart(part, true) == Checked(ReadPart(part, false))
  {
    var r := ReadPart(part, false);
    if r.Some? && r.value != [] {
      assert FunctionsValid(r.value) <==> ValidFn(r.value[0].fn);
    }
  }

  lemma {:induction false} PartsAgree(parts: seq<string>)
    ensures ReadParts(Server(), parts) == Checked(ReadParts(Cli(), parts))
  {
    if parts != [] {
      var n := |parts| - 1;
      PartsAgree(parts[..n]);
      PartAgrees(parts[n]);
      var front, last := ReadParts(Cli(), parts[..n]), Cli()(parts[n]);
      if front.Some? && last.Some? {
        ValidConcat(front.value, last.value);
      }
    }
  }

  lemma ValidConcat(a: seq<Spec>, b: seq<Spec>)
    ensures FunctionsValid(a + b) <==> FunctionsValid(a) && FunctionsValid(b)
  {
    assert forall i :: 0 <= i < |b| ==> (a + b)[|a| + i] == b[i];
    assert forall i :: 0 <= i < |a| ==> (a + b)[i] == a[i];
  }

  /** Server and CLI accept the same texts, with the same specifications. */
  lemma ParsersAgree(raw: string)
    ensures Parse(Server(), raw) == Checked(Parse(Cli(), raw))
  {
    PartsAgree(Split(raw, ','));
    assert FunctionsValid([COUNT]);
  }

  // ---- printing and parsing ----

  predicate AllValid(specs: seq<Spec>) {
    forall i :: 0 <= i < |specs| ==> ValidSpec(specs[i])
  }

  function Labels(specs: seq<Spec>): seq<string> {
    seq(|specs|, i requires 0 <= i < |specs| => Label(specs[i]))
  }

  lemma FnFacts(fn: string)
    requires ValidFn(fn)
    ensures fn != "" && Trimmed(fn) && Lacks(fn, ':') && Lacks(fn, ',')
  {
  }

  lemma FieldFacts(field: string)
    requires ValidField(field)
    ensures Trimmed(field) && Lacks(field, ',') && !IsSpace(field[|field| - 1])
  {
  }

  lemma LabelText(s: Spec)
    requires ValidSpec(s)
    ensures Label(s) != "" && Trimmed(Label(s)) && Lacks(Label(s), ',')
  {
    FnFacts(s.fn);
    if s != COUNT {
      FieldFacts(s.field);
      var l := Label(s);
      assert l[0] == s.fn[0] && l[|l| - 1] == s.field[|s.field| - 1];
    }
  }

  lemma LabelCut(s: Spec)
    requires ValidSpec(s) && s != COUNT
    ensures var l := Label(s); var i := Find(l, ':');
            i == |s.fn| && i + 1 < |l| && l[..i] == s.fn && l[i + 1..] == s.field && l != "count"
  {
    FnFacts(s.fn);
    FindIn(s.fn, ':', s.field);
    assert Label(s)[|s.fn|] == ':';
    assert Lacks("count", ':');
  }

  lemma LabelReads(s: Spec)
    requires ValidSpec(s)
    ensures ReadPart(Label(s), true) == Some([s])
  {
    LabelText(s);
    TrimmedFixed(Label(s));
    if s != COUNT {
      LabelCut(s);
    }
  }

  lemma {:induction false} PartsRead(read: PartReader, parts: seq<string>, specs: seq<Spec>)
    requires |parts| == |specs| && forall i :: 0 <= i < |parts| ==> read(parts[i]) == Some([specs[i]])
    ensures ReadParts(read, parts) == Some(specs)
  {
    if parts != [] {
      PartsRead(read, parts[..|parts| - 1], specs[..|specs| - 1]);
      assert specs == specs[..|specs| - 1] + [specs[|specs| - 1]];
    }
  }

  /** Parsing the joined labels of valid specifications gives them back, on both sides. */
  lemma LabelsRoundTrip(specs: seq<Spec>)
    requires specs != [] && AllValid(specs)
    ensures Parse(Server(), Join(Labels(specs), ',')) == Some(specs)
    ensures Parse(Cli(), Join(Labels(specs), ',')) == Some(specs)
  {
    var labels := Labels(specs);
    forall i | 0 <= i < |specs|
      ensures Server()(labels[i]) == Some([specs[i]]) && Lacks(labels[i], ',') && labels[i] != ""
    {
      LabelText(specs[i]);
      LabelReads(specs[i]);
    }
    SplitJoin(labels, ',');
    assert Join(labels, ',') != "" by {
      assert labels[0] != "";
    }
    PartsRead(Server(), labels, specs);
    ParsersAgree(Join(labels, ','));
    forall i | 0 <= i < |specs| ensures Cli()(labels[i]) == Some([specs[i]]) {
      PartAgrees(labels[i]);
    }
    PartsRead(Cli(), labels, specs);
  }

  /** No two valid specifications share a label. */
  lemma LabelInjective(s: Spec, t: Spec)
    requires ValidSpec(s) && ValidSpec(t) && Label(s) == Label(t)
    ensures s == t
  {
    LabelReads(s);
    LabelReads(t);
  }

  lemma {:induction false} ReadValid(parts: seq<string>)
    ensures ReadParts(Server(), parts).Some? ==> AllValid(ReadParts(Server(), parts).value)
  {
    if parts != [] {
      ReadValid(parts[..|parts| - 1]);
    }
  }

  /** Whatever is accepted is a nonempty list of valid specifications. */
  lemma AcceptsOnlyValid(raw: string)
    ensures Parse(Server(), raw).Some? ==>
              Parse(Server(), raw).value != [] && AllValid(Parse(Server(), raw).value)
  {
    ReadValid(Split(raw, ','));
  }

  // ---- in plain text ----

  lemma FieldCharExactly(c: char)
    ensures FieldChar(c) <==> c in "abcdefghijklmnopqrstuvwxyz" || c in "ABCDEFGHIJKLMNOPQRSTUVWXYZ"
                              || c in "0123456789" || c in {'_', '-', '.', '[', ']', '*'}
  {
    LowerCase(c);
    UpperCase(c);
    Numeral(c);
  }

  /** The five functions of the server; the CLI's parser leaves the function to the later check. */
  predicate OneOfFive(fn: string) {
    fn in {"count", "avg", "sum", "min", "max"}
  }

  lemma OnePart(read: PartReader, part: string)
    requires part != "" && Lacks(part, ',') && (read(part).Some? ==> read(part).value != [])
    ensures Parse(read, part) == read(part)
  {
    SplitLacking(part, ',');
    assert [part][..0] == [];
    assert ReadParts(read, [part][..0]) == Some([]);
    if read(part).Some? {
      assert [] + read(part).value == read(part).value;
    }
  }

  lemma FunctionOf(fn: string, field: string)
    requires Lacks(fn, ':') && Lacks(fn, ',') && Lacks(field, ',')
    ensures var p := fn + [':'] + field;
            Find(p, ':') == |fn| && p[..|fn|] == fn && p[|fn| + 1..] == field && Lacks(p, ',') && p != "count"
  {
    FindIn(fn, ':', field);
    var p := fn + [':'] + field;
    assert p[|fn|] == ':';
    assert Lacks("count", ':');
  }

  lemma FunctionRead(fn: string, field: string, checkFn: bool)
    requires fn != "" && Trimmed(fn) && Lacks(fn, ':') && Lacks(fn, ',') && Trimmed(field) && Lacks(field, ',')
    ensures ReadPart(fn + [':'] + field, checkFn)
            == if ValidField(field) && (checkFn ==> ValidFn(fn)) then Some([Spec(fn, field)]) else None
  {
    var p := fn + [':'] + field;
    FunctionOf(fn, field);
    assert p[0] == fn[0] && p[|p| - 1] == if field == "" then ':' else field[|field| - 1];
    TrimmedFixed(p);
  }

  lemma FunctionParsed(fn: string, field: string, read: PartReader, checkFn: bool)
    requires fn != "" && Trimmed(fn) && Lacks(fn, ':') && Lacks(fn, ',') && Trimmed(field) && Lacks(field, ',')
    requires forall part: string :: read(part) == ReadPart(part, checkFn)
    ensures Parse(read, fn + [':'] + field)
            == if ValidField(field) && (checkFn ==> ValidFn(fn)) then Some([Spec(fn, field)]) else None
  {
    FunctionOf(fn, field);
    FunctionRead(fn, field, checkFn);
    OnePart(read, fn + [':'] + field);
  }

  /** "fn:field" is accepted for the five functions of well-named fields, and only for them. */
  lemma FunctionExactly(fn: string, field: string)
    requires fn != "" && Trimmed(fn) && Lacks(fn, ':') && Lacks(fn, ',') && Trimmed(field) && Lacks(field, ',')
    ensures Parse(Server(), fn + ":" + field)
            == if OneOfFive(fn) && ValidField(field) then Some([Spec(fn, field)]) else None
    ensures Parse(Cli(), fn + ":" + field) == if ValidField(field) then Some([Spec(fn, field)]) else None
  {
    FunctionParsed(fn, field, Server(), true);
    FunctionParsed(fn, field, Cli(), false);
    assert OneOfFive(fn) <==> ValidFn(fn);
  }

  lemma {:induction false} BlankParts(read: PartReader, parts: seq<string>)
    requires forall i :: 0 <= i < |parts| ==> read(parts[i]) == Some([])
    ensures ReadParts(read, parts) == Some([])
  {
    if parts != [] {
      BlankParts(read, parts[..|parts| - 1]);
      var none: seq<Spec> := [];
      assert none + none == none;
    }
  }

  /** Nothing but blanks and commas asks for a count. */
  lemma BlankMeansCount(raw: string)
    requires forall i :: 0 <= i < |Split(raw, ',')| ==> Trim(Split(raw, ',')[i]) == ""
    ensures Parse(Server(), raw) == Parse(Cli(), raw) == Some([Spec("count", "")])
  {
    BlankParts(Server(), Split(raw, ','));
    BlankParts(Cli(), Split(raw, ','));
  }

  /** Blanks around a part do not matter. */
  lemma PaddedPart(left: string, part: string, right: string, checkFn: bool)
    requires Blank(left) && Blank(right) && Trimmed(part)
    ensures ReadPart(left + part + right, checkFn) == ReadPart(part, checkFn)
  {
    TrimPadded(left, part, right);
    TrimmedFixed(part);
  }

  lemma LabelSpelled()
    ensures Label(COUNT) == "count" && Label(Spec("avg", "mastery")) == "avg:mastery"
  {
    assert "avg" + [':'] + "mastery" == "avg:mastery";
  }
}
