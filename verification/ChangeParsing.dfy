/**
 From the text of `git log --format=%H|%an|%at|%s` to change entries, and from a commit
 subject to an action and a path.
 */
module ChangeParsing {
  import opened Strings
  import opened ChangesFeed
  import opened Options
  import opened Seqs
  import Decimal

  datatype Change = Change(action: string, path: string)

  datatype Entry = Entry(hash: string, actor: string, time: nat, change: Change)

  const COLON := ": "
  const ARROW := " \U{2192} "

  function NormalizeAction(raw: string): string {
    var verb := ToLower(raw);
    if verb == "write" || verb == "create" || verb == "update" then "write"
    else if verb == "delete" || verb == "remove" then "delete"
    else if verb == "rename" || verb == "move" then "rename"
    else if verb == "bulk" then "bulk"
    else "write"
  }

  /** "old → new" names the new path. */
  function NewPath(path: string): string {
    var i := Index(path, ARROW);
    if i >= 0 then Trim(path[i + 3..]) else path
  }

  /** The last steps: a rename keeps the new path, a bulk change names none. */
  function Finish(action: string, path: string): Change {
    if action == "rename" then Change(action, NewPath(path))
    else if action == "bulk" then Change("write", "")
    else Change(action, path)
  }

  /** `SplitN(subject, " ", 2)` and what is made of the two parts. */
  function ParseVerbAndPath(subject: string): Change {
    var n := Find(subject, ' ');
    if n < |subject| then Finish(NormalizeAction(subject[..n]), Trim(subject[n + 1..]))
    else Change("write", subject)
  }

  /** The actor, if there is one, goes with the first ": ". */
  function DropActor(s: string): string {
    var i := Index(s, COLON);
    if i >= 0 then s[i + 2..] else s
  }

  function AfterActor(subject: string): string {
    Trim(DropActor(Trim(subject)))
  }

  function ParseSubject(subject: string): Change {
    ParseVerbAndPath(AfterActor(subject))
  }

  // ---- lines ----

  /** `strings.SplitN`. */
  function SplitN(s: string, sep: char, n: nat): (parts: seq<string>)
    requires n > 0
    ensures 0 < |parts| <= n
  {
    var i := Find(s, sep);
    if n == 1 || i == |s| then [s] else [s[..i]] + SplitN(s[i + 1..], sep, n - 1)
  }

  /** The seconds field; anything but a plain numeral reads as 0. */
  function ParseTime(s: string): nat {
    if s != "" && Decimal.Digits(s) then Decimal.Value(s) else 0
  }

  function ParseLine(line: string): Option<Entry> {
    if line == "" then None
    else
      var parts := SplitN(line, '|', 4);
      if |parts| < 4 then None
      else Some(Entry(parts[0], parts[1], ParseTime(parts[2]), ParseSubject(parts[3])))
  }

  /** A line gives one entry or none. */
  function Reader(): string -> seq<Entry> {
    line => if ParseLine(line).Some? then [ParseLine(line).value] else []
  }

  function Entries(lines: seq<string>): seq<Entry> {
    FlatMap(Reader(), lines)
  }

  lemma OneMoreLine(lines: seq<string>, i: nat)
    requires i < |lines|
    ensures Entries(lines[..i + 1]) == Entries(lines[..i]) + Reader()(lines[i])
  {
    assert lines[..i + 1] == lines[..i] + [lines[i]];
    FlatMapSnoc(Reader(), lines[..i], lines[i]);
  }

  /** The loop over the output of git. */
  method QueryChanges(out: string) returns (changes: seq<Entry>, lastSeq: string)
    ensures changes == Entries(Split(Trim(out), '\n'))
    ensures lastSeq == if changes == [] then "" else changes[0].hash
  {
    var lines := Split(Trim(out), '\n');
    changes := [];
    var i := 0;
    while i < |lines|
      invariant 0 <= i <= |lines|
      invariant changes == Entries(lines[..i])
    {
      OneMoreLine(lines, i);
      var e := ParseLine(lines[i]);
      if e.Some? {
        changes := changes + [e.value];
      }
      i := i + 1;
    }
    assert lines[..i] == lines;
    lastSeq := "";
    if |changes| > 0 {
      lastSeq := changes[0].hash;
    }
  }

  // ---- what git prints ----

  function Fields(hash: string, author: string, time: string, subject: string): string {
    hash + ['|'] + (author + ['|'] + (time + ['|'] + subject))
  }

  function Line(c: Commit): string {
    Fields(c.hash, c.author, Decimal.Print(c.time), c.subject)
  }

  function Lines(cs: seq<Commit>): seq<string> {
    seq(|cs|, i requires 0 <= i < |cs| => Line(cs[i]))
  }

  /** Each line with its newline. */
  function Printed(lines: seq<string>): string {
    if lines == [] then "" else Printed(lines[..|lines| - 1]) + lines[|lines| - 1] + ['\n']
  }

  function Output(cs: seq<Commit>): string {
    Printed(Lines(cs))
  }

  ghost predicate Printable(c: Commit) {
    && c.hash != "" && (forall i :: 0 <= i < |c.hash| ==> HexDigit(c.hash[i]))
    && Lacks(c.author, '\n') && Lacks(c.subject, '\n')
  }

  lemma SplitNFields(a: string, b: string, c: string, x: string)
    requires Lacks(a, '|') && Lacks(b, '|') && Lacks(c, '|')
    ensures SplitN(Fields(a, b, c, x), '|', 4) == [a, b, c, x]
  {
    var cx := c + ['|'] + x;
    var bcx := b + ['|'] + cx;
    FindIn(a, '|', bcx);
    FindIn(b, '|', cx);
    FindIn(c, '|', x);
    var s := a + ['|'] + bcx;
    assert s[..|a|] == a && s[|a| + 1..] == bcx;
    assert bcx[..|b|] == b && bcx[|b| + 1..] == cx;
    assert cx[..|c|] == c && cx[|c| + 1..] == x;
    assert SplitN(x, '|', 1) == [x];
    assert SplitN(cx, '|', 2) == [c] + [x];
    assert SplitN(bcx, '|', 3) == [b] + [c, x];
  }

  lemma ParseFields(a: string, b: string, c: string, x: string)
    requires Lacks(a, '|') && Lacks(b, '|') && Lacks(c, '|')
    ensures ParseLine(Fields(a, b, c, x)) == Some(Entry(a, b, ParseTime(c), ParseSubject(x)))
  {
    SplitNFields(a, b, c, x);
  }

  /** Text with a separator in it, cut at its first one: `a` up to there, and what follows. */
  lemma CutOnce(a: string, r: string) returns (b: string, middle: string)
    ensures a + ['|'] + r == b + ['|'] + (middle + r)
    ensures Lacks(b, '|')
    ensures Lacks(a, '|') ==> b == a && middle == ""
  {
    var i := Find(a, '|');
    if i == |a| {
      b, middle := a, "";
      assert a[..i] == a;
      assert "" + r == r;
    } else {
      b, middle := a[..i], a[i + 1..] + ['|'];
      assert a == a[..i] + ['|'] + a[i + 1..];
    }
  }

  /** A printed line always has four fields, and the last one ends with the subject. */
  lemma LineFields(c: Commit) returns (b: string, t: string, x: string)
    ensures Line(c) == Fields(c.hash, b, t, x + c.subject)
    ensures Lacks(b, '|') && Lacks(t, '|')
    ensures Lacks(c.author, '|') ==> b == c.author && t == Decimal.Print(c.time) && x == ""
  {
    var time := Decimal.Print(c.time);
    assert Lacks(time, '|') by {
      assert Decimal.Digits(time);
    }
    var rest := time + ['|'] + c.subject;
    var m;
    b, m := CutOnce(c.author, rest);
    assert c.author + ['|'] + rest == b + ['|'] + (m + rest);
    assert m + rest == (m + time) + ['|'] + c.subject;
    t, x := CutOnce(m + time, c.subject);
    assert Line(c) == c.hash + ['|'] + (c.author + ['|'] + rest);
    assert m == "" ==> m + time == time;
  }

  /**
   Every line git prints in this format gives exactly one entry with the right hash,
   whatever author and subject hold; all four fields come back if and only if the author
   holds no separator.
   */
  lemma LineRoundTrip(c: Commit)
    requires Lacks(c.hash, '|')
    ensures ParseLine(Line(c)).Some? && ParseLine(Line(c)).value.hash == c.hash
    ensures ParseLine(Line(c)).value == Entry(c.hash, c.author, c.time, ParseSubject(c.subject))
            <==> Lacks(c.author, '|')
  {
    var b, t, x := LineFields(c);
    ParseFields(c.hash, b, t, x + c.subject);
    assert x == "" ==> x + c.subject == c.subject;
    assert Lacks(ParseLine(Line(c)).value.actor, '|');
  }

  // ---- trailing white space ----

  lemma TrimFields(a: string, b: string, c: string, x: string)
    ensures TrimRight(Fields(a, b, c, x)) == Fields(a, b, c, TrimRight(x))
  {
    var front := a + ['|'] + (b + ['|'] + (c + ['|']));
    assert Fields(a, b, c, x) == front + x;
    assert Fields(a, b, c, TrimRight(x)) == front + TrimRight(x);
    assert front[|front| - 1] == '|';
    TrimRightKeeps(front, x);
  }

  lemma SameSubject(subject: string)
    ensures ParseSubject(TrimRight(subject)) == ParseSubject(subject)
  {
    TrimAfterTrimRight(subject);
    assert AfterActor(TrimRight(subject)) == AfterActor(subject);
  }

  /** Trailing blanks of a line never change its entry. */
  lemma TrimmedLine(c: Commit)
    requires Lacks(c.hash, '|')
    ensures ParseLine(TrimRight(Line(c))) == ParseLine(Line(c))
    ensures TrimRight(Line(c)) != ""
  {
    var b, t, x := LineFields(c);
    var last := x + c.subject;
    TrimFields(c.hash, b, t, last);
    ParseFields(c.hash, b, t, last);
    ParseFields(c.hash, b, t, TrimRight(last));
    SameSubject(last);
  }

  lemma LineLacksNewline(c: Commit)
    requires Printable(c)
    ensures Lacks(Line(c), '\n')
  {
    assert Decimal.Digits(Decimal.Print(c.time));
  }

  // ---- the whole output ----

  ghost predicate AllPrintable(cs: seq<Commit>) {
    forall i :: 0 <= i < |cs| ==> Printable(cs[i])
  }

  /** One line of text that starts with a visible character. */
  predicate Visible(line: string) {
    line != "" && !IsSpace(line[0]) && Lacks(line, '\n')
  }

  predicate AllVisible(lines: seq<string>) {
    forall i :: 0 <= i < |lines| ==> Visible(lines[i])
  }

  lemma LineVisible(c: Commit)
    requires Printable(c)
    ensures Visible(Line(c))
  {
    assert HexDigit(c.hash[0]) && Line(c)[0] == c.hash[0];
    LineLacksNewline(c);
  }

  lemma {:induction false} PrintedSplits(lines: seq<string>, last: string)
    requires AllVisible(lines) && Lacks(last, '\n')
    ensures Split(Printed(lines) + last, '\n') == lines + [last]
  {
    SplitLacking(last, '\n');
    if lines == [] {
      assert "" + last == last;
    } else {
      var front, line := lines[..|lines| - 1], lines[|lines| - 1];
      PrintedSplits(front, line);
      assert lines == front + [line];
      assert Printed(lines) + last == (Printed(front) + line) + ['\n'] + last;
      SplitConcat(Printed(front) + line, '\n', last);
    }
  }

  lemma {:induction false} PrintedStarts(lines: seq<string>)
    requires AllVisible(lines) && lines != []
    ensures Printed(lines) != "" && !IsSpace(Printed(lines)[0])
  {
    if |lines| > 1 {
      PrintedStarts(lines[..|lines| - 1]);
    } else {
      assert Printed(lines)[0] == lines[0][0];
    }
  }

  lemma VisibleStaysVisible(line: string)
    requires Visible(line)
    ensures TrimRight(line) != "" && Lacks(TrimRight(line), '\n')
  {
    assert Tail(line, |line|) > 0;
  }

  /** Trimming the output takes off the last newline and the blanks before it, nothing else. */
  lemma PrintedTrimmed(lines: seq<string>)
    requires AllVisible(lines) && lines != []
    ensures var n := |lines| - 1; Trim(Printed(lines)) == Printed(lines[..n]) + TrimRight(lines[n])
  {
    var front, line := lines[..|lines| - 1], lines[|lines| - 1];
    PrintedStarts(lines);
    VisibleStaysVisible(line);
    TrimRightPad(Printed(front) + line, ['\n']);
    TrimRightKeeps(Printed(front), line);
  }

  lemma PrintedLines(lines: seq<string>)
    requires AllVisible(lines) && lines != []
    ensures var n := |lines| - 1; Split(Trim(Printed(lines)), '\n') == lines[..n] + [TrimRight(lines[n])]
  {
    var n := |lines| - 1;
    PrintedTrimmed(lines);
    VisibleStaysVisible(lines[n]);
    PrintedSplits(lines[..n], TrimRight(lines[n]));
  }

  lemma PrintableLine(c: Commit)
    requires Printable(c)
    ensures Lacks(c.hash, '|')
    ensures ParseLine(Line(c)).Some? && ParseLine(Line(c)).value.hash == c.hash
  {
    assert Lacks(c.hash, '|');
    LineRoundTrip(c);
  }

  /** The entries of the lines of `cs`, one for each. */
  ghost predicate EntryPerCommit(es: seq<Entry>, cs: seq<Commit>) {
    && |es| == |cs|
    && (forall i :: 0 <= i < |cs| ==> Some(es[i]) == ParseLine(Line(cs[i])))
    && (forall i :: 0 <= i < |cs| ==> es[i].hash == cs[i].hash)
  }

  lemma EntriesOfLines(cs: seq<Commit>)
    requires AllPrintable(cs)
    ensures EntryPerCommit(Entries(Lines(cs)), cs)
  {
    var f := Reader();
    forall i | 0 <= i < |cs| ensures ParseLine(Line(cs[i])).Some? && ParseLine(Line(cs[i])).value.hash == cs[i].hash {
      PrintableLine(cs[i]);
    }
    var es := seq(|cs|, i requires 0 <= i < |cs| => ParseLine(Line(cs[i])).value);
    FlatMapEach(f, Lines(cs), es);
  }

  /** Trailing blanks of the last line do not matter. */
  lemma LastTrimmed(lines: seq<string>)
    requires lines != [] && ParseLine(TrimRight(lines[|lines| - 1])) == ParseLine(lines[|lines| - 1])
    ensures var n := |lines| - 1; Entries(lines[..n] + [TrimRight(lines[n])]) == Entries(lines)
  {
    FlatMapLast(Reader(), lines, TrimRight(lines[|lines| - 1]));
  }

  lemma NoOutput()
    ensures Entries(Split(Trim(""), '\n')) == []
  {
    assert Split("", '\n') == [""];
    FlatMapOne(Reader(), "");
  }

  lemma LinesVisible(cs: seq<Commit>)
    requires AllPrintable(cs)
    ensures AllVisible(Lines(cs))
  {
    forall i | 0 <= i < |cs| ensures Visible(Lines(cs)[i]) {
      LineVisible(cs[i]);
    }
  }

  lemma OutputEntries(cs: seq<Commit>)
    requires AllPrintable(cs) && cs != []
    ensures Entries(Split(Trim(Output(cs)), '\n')) == Entries(Lines(cs))
  {
    LinesVisible(cs);
    PrintableLine(cs[|cs| - 1]);
    TrimmedLine(cs[|cs| - 1]);
    PrintedLines(Lines(cs));
    LastTrimmed(Lines(cs));
  }

  /**
   Reading back what git printed: one entry per commit, in order, each the reading of its
   own line, and so each with its own hash; the first of them is the cursor handed out.
   */
  lemma OutputRoundTrip(cs: seq<Commit>)
    requires AllPrintable(cs)
    ensures EntryPerCommit(Entries(Split(Trim(Output(cs)), '\n')), cs)
  {
    if cs == [] {
      NoOutput();
    } else {
      EntriesOfLines(cs);
      OutputEntries(cs);
    }
  }

  /**
   The feed over text: in every reachable state, what is read back from git's answer to a
   query is one entry per listed commit, and the hash handed out is the cursor the protocol
   moves to; with nothing listed there is none, and the cursor stays.
   */
  lemma CursorFromText(s: State, limit: nat)
    requires Inv(s) && limit > 0 && forall i :: 0 <= i < |s.log| ==> Printable(s.log[i])
    ensures GitLog(s.log, s.cursor, limit).Commits?
    ensures var changes := GitLog(s.log, s.cursor, limit).commits;
            var es := Entries(Split(Trim(Output(changes)), '\n'));
            && EntryPerCommit(es, changes)
            && Answer(s, limit, changes).cursor == if es == [] then s.cursor else es[0].hash
  {
    ExactListing(s, limit);
    var changes := GitLog(s.log, s.cursor, limit).commits;
    assert AllPrintable(changes);
    OutputRoundTrip(changes);
  }

  // ---- subjects ----

  /** A nonempty word without white space. */
  predicate Word(s: string) {
    s != "" && forall i :: 0 <= i < |s| ==> !IsSpace(s[i])
  }

  predicate ColonAt(s: string, i: int) {
    0 <= i && i + 1 < |s| && s[i] == ':' && s[i + 1] == ' '
  }

  lemma ColonAtIff(s: string, i: nat)
    requires i <= |s|
    ensures HasPrefix(s[i..], COLON) <==> ColonAt(s, i)
  {
    if ColonAt(s, i) {
      assert s[i..][..2] == COLON;
    }
    if HasPrefix(s[i..], COLON) {
      assert s[i..][..2][0] == s[i] && s[i..][..2][1] == s[i + 1];
    }
  }

  /** `Index(s, ": ")` is the first place where a colon and a space stand. */
  lemma IndexColon(s: string)
    ensures var r := Index(s, COLON);
            && (r >= 0 ==> ColonAt(s, r))
            && forall i :: 0 <= i < (if r < 0 then |s| else r) ==> !ColonAt(s, i)
  {
    var r := Index(s, COLON);
    IndexFirst(s, COLON);
    if r >= 0 {
      ColonAtIff(s, r);
    }
    forall i | 0 <= i < (if r < 0 then |s| else r) ensures !ColonAt(s, i) {
      ColonAtIff(s, i);
    }
  }

  lemma IndexIn(a: string, b: string)
    requires Index(a, COLON) < 0
    ensures Index(a + COLON + b, COLON) == |a|
  {
    var s := a + COLON + b;
    IndexColon(a);
    IndexColon(s);
    assert ColonAt(s, |a|);
    forall i | 0 <= i < |a| ensures !ColonAt(s, i) {
      assert !ColonAt(a, i);
    }
  }

  lemma SuffixLacksColon(a: string, n: nat)
    requires n <= |a| && Index(a, COLON) < 0
    ensures Index(a[n..], COLON) < 0
  {
    IndexColon(a);
    IndexColon(a[n..]);
    forall i | 0 <= i < |a[n..]| ensures !ColonAt(a[n..], i) {
      assert !ColonAt(a, n + i);
    }
  }

  lemma VisibleAtTheRight(s: string)
    requires Trim(s) != ""
    ensures TrimRight(s) != ""
  {
    TrimAfterTrimRight(s);
  }

  lemma TrimVerb(verb: string, path: string)
    requires Word(verb) && TrimRight(path) != ""
    ensures TrimRight(verb + [' '] + path) == Trim(verb + [' '] + path) == verb + [' '] + TrimRight(path)
  {
    var s := verb + [' '] + path;
    assert s[0] == verb[0];
    assert TrimLeft(s) == s;
    TrimRightKeeps(verb + [' '], path);
  }

  lemma CutVerb(verb: string, t: string)
    requires Lacks(verb, ' ')
    ensures ParseVerbAndPath(verb + [' '] + t) == Finish(NormalizeAction(verb), Trim(t))
  {
    var u := verb + [' '] + t;
    FindIn(verb, ' ', t);
    assert u[..|verb|] == verb && u[|verb| + 1..] == t;
  }

  /** What is left of "verb path" once trimmed and cut at the first space. */
  lemma VerbAndPath(verb: string, path: string)
    requires Word(verb) && Trim(path) != ""
    ensures TrimRight(verb + [' '] + path) == Trim(verb + [' '] + path) == verb + [' '] + TrimRight(path)
    ensures ParseVerbAndPath(Trim(verb + [' '] + path)) == Finish(NormalizeAction(verb), Trim(path))
  {
    VisibleAtTheRight(path);
    TrimVerb(verb, path);
    CutVerb(verb, TrimRight(path));
    TrimAfterTrimRight(path);
  }

  lemma TrimActor(a: string, rest: string)
    requires a == "" || !IsSpace(a[0])
    requires TrimRight(rest) != ""
    ensures Trim(a + COLON + rest) == a + COLON + TrimRight(rest)
  {
    var s := a + COLON + rest;
    assert s[0] == if a == "" then ':' else a[0];
    assert TrimLeft(s) == s;
    TrimRightKeeps(a + COLON, rest);
  }

  lemma SkipLeft(actor: string, rest: string)
    ensures Trim(actor + rest) == Trim(TrimLeft(actor) + rest)
  {
    var n := Lead(actor, 0);
    assert actor + rest == actor[..n] + (actor[n..] + rest);
    TrimLeftPad(actor[..n], actor[n..] + rest);
  }

  lemma TrimmedSubject(actor: string, rest: string)
    requires TrimRight(rest) != ""
    ensures Trim(actor + COLON + rest) == TrimLeft(actor) + COLON + TrimRight(rest)
  {
    var a := TrimLeft(actor);
    assert actor + COLON + rest == actor + (COLON + rest);
    assert a + COLON + rest == a + (COLON + rest);
    SkipLeft(actor, COLON + rest);
    TrimActor(a, rest);
  }

  lemma CutActor(a: string, r: string)
    requires Index(a, COLON) < 0
    ensures var s := a + COLON + r; Index(s, COLON) == |a| && s[|a| + 2..] == r
  {
    IndexIn(a, r);
  }

  /** The actor goes, with the blanks in front of it. */
  lemma ActorDropped(actor: string, rest: string)
    requires Index(actor, COLON) < 0 && TrimRight(rest) != ""
    ensures ParseSubject(actor + COLON + rest) == ParseVerbAndPath(Trim(rest))
  {
    TrimmedSubject(actor, rest);
    SuffixLacksColon(actor, Lead(actor, 0));
    CutActor(TrimLeft(actor), TrimRight(rest));
    TrimAfterTrimRight(rest);
  }

  /**
   "actor: verb path" reads back as the normalised verb and the path, when the actor holds
   no ": " and the path is not blank.
   */
  lemma SubjectRoundTrip(actor: string, verb: string, path: string)
    requires Index(actor, COLON) < 0 && Word(verb) && Trim(path) != ""
    ensures ParseSubject(actor + COLON + (verb + [' '] + path)) == Finish(NormalizeAction(verb), Trim(path))
  {
    var rest := verb + [' '] + path;
    VerbAndPath(verb, path);
    ActorDropped(actor, rest);
  }

  predicate ArrowAt(s: string, i: int) {
    0 <= i && i + 2 < |s| && s[i] == ' ' && s[i + 1] == '\U{2192}' && s[i + 2] == ' '
  }

  lemma ArrowAtIff(s: string, i: nat)
    requires i <= |s|
    ensures HasPrefix(s[i..], ARROW) <==> ArrowAt(s, i)
  {
    if ArrowAt(s, i) {
      assert s[i..][..3] == ARROW;
    }
    if HasPrefix(s[i..], ARROW) {
      assert s[i..][..3][0] == s[i] && s[i..][..3][1] == s[i + 1] && s[i..][..3][2] == s[i + 2];
    }
  }

  /** The first place where an arrow stands between two spaces. */
  lemma IndexArrow(s: string)
    ensures var r := Index(s, ARROW);
            && (r >= 0 ==> ArrowAt(s, r))
            && forall i :: 0 <= i < (if r < 0 then |s| else r) ==> !ArrowAt(s, i)
  {
    var r := Index(s, ARROW);
    IndexFirst(s, ARROW);
    if r >= 0 {
      ArrowAtIff(s, r);
    }
    forall i | 0 <= i < (if r < 0 then |s| else r) ensures !ArrowAt(s, i) {
      ArrowAtIff(s, i);
    }
  }

  /** Whether an arrow stands in the old path, or would with the space that follows it. */
  predicate HoldsArrow(source: string) {
    Index(source + [' '], ARROW) >= 0
  }

  lemma NewPathOf(source: string, target: string)
    requires Trimmed(target) && !HoldsArrow(source)
    ensures NewPath(source + ARROW + target) == target
  {
    FirstArrowBetween(source, target);
    assert (source + ARROW + target)[|source| + 3..] == target;
    TrimmedFixed(target);
  }

  lemma FirstArrowBetween(source: string, target: string)
    requires !HoldsArrow(source)
    ensures Index(source + ARROW + target, ARROW) == |source|
  {
    var path := source + ARROW + target;
    IndexArrow(path);
    assert ArrowAt(path, |source|);
    forall i | 0 <= i < |source| ensures !ArrowAt(path, i) {
      NoArrowBefore(source, target, i);
    }
  }

  lemma NoArrowBefore(source: string, target: string, i: nat)
    requires !HoldsArrow(source) && i < |source|
    ensures !ArrowAt(source + ARROW + target, i)
  {
    IndexArrow(source + [' ']);
    assert !ArrowAt(source + [' '], i);
    if i + 2 <= |source| {
      assert forall k :: i <= k <= i + 2 ==> (source + ARROW + target)[k] == (source + [' '])[k];
    }
  }

  /** What stands behind the first of two arrows still holds the second one. */
  lemma NewPathLong(source: string, target: string)
    requires Trimmed(target) && target != "" && HoldsArrow(source)
    ensures |NewPath(source + ARROW + target)| > |target|
  {
    var path := source + ARROW + target;
    var i := Index(path, ARROW);
    FirstArrowInside(source, target);
    var rest := path[i + 3..];
    var k := |source| + 1 - (i + 3);
    assert rest[k] == '\U{2192}' && rest[|rest| - 1] == target[|target| - 1];
    var n := Lead(rest, 0);
    assert n <= k;
    assert TrimLeft(rest) == rest[n..] && TrimRight(rest[n..]) == rest[n..];
  }

  lemma FirstArrowInside(source: string, target: string)
    requires HoldsArrow(source)
    ensures 0 <= Index(source + ARROW + target, ARROW) <= |source| - 2
  {
    var path, j := source + ARROW + target, Index(source + [' '], ARROW);
    IndexArrow(source + [' ']);
    IndexArrow(path);
    assert ArrowAt(path, j);
  }

  /** A rename keeps the new path if and only if the old one holds no arrow between spaces. */
  lemma RenameKeepsNewPath(actor: string, verb: string, source: string, target: string)
    requires Index(actor, COLON) < 0 && Word(verb) && NormalizeAction(verb) == "rename"
    requires Trimmed(source) && source != "" && Trimmed(target) && target != ""
    ensures ParseSubject(actor + COLON + (verb + [' '] + (source + ARROW + target))) == Change("rename", target)
            <==> !HoldsArrow(source)
  {
    var path := source + ARROW + target;
    assert path[0] == source[0] && path[|path| - 1] == target[|target| - 1];
    TrimmedFixed(path);
    SubjectRoundTrip(actor, verb, path);
    if HoldsArrow(source) {
      NewPathLong(source, target);
    } else {
      NewPathOf(source, target);
    }
  }

  /** A bulk change reads as a write that names no path. */
  lemma BulkIsPathlessWrite(actor: string, verb: string, summary: string)
    requires Index(actor, COLON) < 0 && Word(verb) && NormalizeAction(verb) == "bulk" && Trim(summary) != ""
    ensures ParseSubject(actor + COLON + (verb + [' '] + summary)) == Change("write", "")
  {
    SubjectRoundTrip(actor, verb, summary);
  }

  /** With a blank path the verb itself is taken for a path, whatever it is. */
  lemma PathlessSubject(actor: string, verb: string)
    requires Index(actor, COLON) < 0 && Word(verb)
    ensures ParseSubject(actor + COLON + verb) == Change("write", verb)
  {
    TrimmedFixed(verb);
    ActorDropped(actor, verb);
    assert Lacks(verb, ' ');
    assert Find(verb, ' ') == |verb|;
  }

  lemma BlankPathTrimmed(actor: string, verb: string, path: string)
    requires Word(verb) && Trim(path) == ""
    ensures Trim(actor + COLON + (verb + [' '] + path)) == Trim(actor + COLON + verb)
  {
    BlankTrims(path);
    assert actor + COLON + (verb + [' '] + path) == (actor + COLON + verb) + ([' '] + path);
    TrimPaddedRight(actor + COLON + verb, [' '] + path);
  }

  lemma BlankTrims(s: string)
    requires Trim(s) == ""
    ensures Blank(s)
  {
    var left, right := TrimDecomposed(s);
  }

  lemma TrimPaddedRight(s: string, pad: string)
    requires Blank(pad)
    ensures Trim(s + pad) == Trim(s)
  {
    TrimRightPad(s, pad);
    TrimAfterTrimRight(s + pad);
    TrimAfterTrimRight(s);
  }

  lemma BlankPathSubject(actor: string, verb: string, path: string)
    requires Index(actor, COLON) < 0 && Word(verb) && Trim(path) == ""
    ensures ParseSubject(actor + COLON + (verb + [' '] + path)) == Change("write", verb)
  {
    BlankPathTrimmed(actor, verb, path);
    SameAfterActor(actor + COLON + (verb + [' '] + path), actor + COLON + verb);
    PathlessSubject(actor, verb);
  }

  lemma SameAfterActor(a: string, b: string)
    requires Trim(a) == Trim(b)
    ensures ParseSubject(a) == ParseSubject(b)
  {
  }

  lemma FinishPathless(action: string)
    ensures Finish(action, "").path == ""
  {
    NewPathShort("");
  }

  /** For an actor without ": ", "actor: verb path" is read as verb and path if and only if there is a path. */
  lemma SubjectExactly(actor: string, verb: string, path: string)
    requires Index(actor, COLON) < 0 && Word(verb)
    ensures ParseSubject(actor + COLON + (verb + [' '] + path)) == Finish(NormalizeAction(verb), Trim(path))
            <==> Trim(path) != ""
  {
    if Trim(path) != "" {
      SubjectRoundTrip(actor, verb, path);
    } else {
      BlankPathSubject(actor, verb, path);
      FinishPathless(NormalizeAction(verb));
    }
  }

  // ---- actors that hold ": " ----

  /** What is left of an actor behind its first ": ". */
  function ActorRest(actor: string): string {
    TrimLeft(DropActor(TrimLeft(actor)))
  }

  lemma ColonBehindBlanks(actor: string)
    requires Index(actor, COLON) >= 0
    ensures Index(TrimLeft(actor), COLON) >= 0
  {
    var n, i := Lead(actor, 0), Index(actor, COLON);
    IndexColon(actor);
    IndexColon(actor[n..]);
    assert n <= i;
    assert ColonAt(actor[n..], i - n);
  }

  lemma FirstColonStays(a: string, rest: string)
    requires Index(a, COLON) >= 0
    ensures var s, j := a + COLON + rest, Index(a, COLON);
            Index(s, COLON) == j && s[j + 2..] == a[j + 2..] + COLON + rest
  {
    var s, j := a + COLON + rest, Index(a, COLON);
    IndexColon(a);
    IndexColon(s);
    assert ColonAt(s, j);
    forall i | 0 <= i < j ensures !ColonAt(s, i) {
      assert !ColonAt(a, i);
    }
  }

  /** The cut comes too early: the rest of the actor stays in front of what it did. */
  lemma ActorKept(actor: string, rest: string)
    requires Index(actor, COLON) >= 0 && rest != "" && Trimmed(rest)
    ensures AfterActor(actor + COLON + rest) == ActorRest(actor) + COLON + rest
  {
    TrimmedFixed(rest);
    TrimmedSubject(actor, rest);
    ColonBehindBlanks(actor);
    DroppedEarly(TrimLeft(actor), rest);
    TrimmedSubject(DropActor(TrimLeft(actor)), rest);
  }

  lemma DroppedEarly(a: string, rest: string)
    requires Index(a, COLON) >= 0
    ensures DropActor(a + COLON + rest) == DropActor(a) + COLON + rest
  {
    FirstColonStays(a, rest);
  }

  lemma ColonNormalizes(verb: string)
    requires verb != "" && verb[|verb| - 1] == ':'
    ensures NormalizeAction(verb) == "write"
  {
    var lower := ToLower(verb);
    assert lower[|lower| - 1] == ':';
  }

  /** A rest without a space is taken for the verb of a write. */
  lemma ColonVerb(y: string, r: string)
    requires Lacks(y, ' ') && r != "" && Trimmed(r)
    ensures ParseVerbAndPath(y + COLON + r) == Change("write", r)
  {
    assert y + COLON + r == y + [':'] + [' '] + r;
    CutVerb(y + [':'], r);
    ColonNormalizes(y + [':']);
    TrimmedFixed(r);
    FinishPlain("write", r);
  }

  lemma TrimKeepsTail(z: string, tail: string)
    requires tail != "" && Trimmed(tail)
    ensures |Trim(z + tail)| >= |tail|
  {
    var s := z + tail;
    var n := Lead(s, 0);
    assert s[|z|] == tail[0];
    assert n <= |z|;
    assert s[n..] == z[n..] + tail;
    TrimmedFixed(tail);
    TrimRightKeeps(z[n..], tail);
  }

  /** A rest with a space: what follows the space is longer than what the actor did. */
  lemma SpacedVerb(y: string, r: string)
    requires !Lacks(y, ' ') && r != "" && Trimmed(r)
    ensures var c := ParseVerbAndPath(y + COLON + r); c.action == "rename" || c.path == "" || |c.path| > |r|
  {
    var t, n := y + COLON + r, Find(y, ' ');
    SpaceStays(y, COLON + r);
    assert t == y + (COLON + r);
    var tail := COLON + r;
    assert tail[|tail| - 1] == r[|r| - 1];
    TrimKeepsTail(y[n + 1..], tail);
    FinishLong(NormalizeAction(t[..n]), Trim(t[n + 1..]));
  }

  lemma SpaceStays(y: string, rest: string)
    requires !Lacks(y, ' ')
    ensures var t, n := y + rest, Find(y, ' '); n < |y| && Find(t, ' ') == n && t[n + 1..] == y[n + 1..] + rest
  {
    var t, n := y + rest, Find(y, ' ');
    assert forall k :: 0 <= k < |y| ==> t[k] == y[k];
  }

  lemma FinishLong(action: string, path: string)
    ensures var c := Finish(action, path); c.action == "rename" || c.path == "" || c.path == path
  {
  }

  /**
   What the cut makes of an actor's change. With ": " in the actor, it is read as a write of
   all that the actor did, or of something longer.
   */
  lemma ActorMisread(actor: string, rest: string)
    requires Index(actor, COLON) >= 0 && rest != "" && Trimmed(rest)
    ensures var c := ParseSubject(actor + COLON + rest);
            if Lacks(ActorRest(actor), ' ') then c == Change("write", rest)
            else c.action == "rename" || c.path == "" || |c.path| > |rest|
  {
    ActorKept(actor, rest);
    if Lacks(ActorRest(actor), ' ') {
      ColonVerb(ActorRest(actor), rest);
    } else {
      SpacedVerb(ActorRest(actor), rest);
    }
  }

  /**
   A write or a delete, "actor: verb path" with a path, is read back if and only if the actor
   holds no ": ".
   */
  lemma ActorExactly(actor: string, verb: string, path: string)
    requires Word(verb) && path != "" && Trimmed(path)
    requires NormalizeAction(verb) == "write" || NormalizeAction(verb) == "delete"
    ensures ParseSubject(actor + COLON + (verb + [' '] + path)) == Change(NormalizeAction(verb), path)
            <==> Index(actor, COLON) < 0
  {
    if Index(actor, COLON) < 0 {
      PlainActor(actor, verb, path);
    } else {
      ColonActor(actor, verb, path);
    }
  }

  lemma PlainActor(actor: string, verb: string, path: string)
    requires Word(verb) && path != "" && Trimmed(path) && Index(actor, COLON) < 0
    requires NormalizeAction(verb) == "write" || NormalizeAction(verb) == "delete"
    ensures ParseSubject(actor + COLON + (verb + [' '] + path)) == Change(NormalizeAction(verb), path)
  {
    TrimmedFixed(path);
    SubjectRoundTrip(actor, verb, path);
    FinishPlain(NormalizeAction(verb), path);
  }

  lemma FinishPlain(action: string, path: string)
    requires action == "write" || action == "delete"
    ensures Finish(action, path) == Change(action, path)
  {
  }

  lemma ColonActor(actor: string, verb: string, path: string)
    requires Word(verb) && path != "" && Trimmed(path) && Index(actor, COLON) >= 0
    requires NormalizeAction(verb) == "write" || NormalizeAction(verb) == "delete"
    ensures ParseSubject(actor + COLON + (verb + [' '] + path)) != Change(NormalizeAction(verb), path)
  {
    WithVerb(verb, path);
    ActorMisread(actor, verb + [' '] + path);
    OtherChange(ParseSubject(actor + COLON + (verb + [' '] + path)), NormalizeAction(verb), path);
  }

  lemma WithVerb(verb: string, path: string)
    requires Word(verb) && path != "" && Trimmed(path)
    ensures var rest := verb + [' '] + path; Trimmed(rest) && |rest| > |path|
  {
    var rest := verb + [' '] + path;
    assert rest[0] == verb[0] && rest[|rest| - 1] == path[|path| - 1];
  }

  lemma OtherChange(c: Change, action: string, path: string)
    requires path != "" && (c.action == "rename" || c.path == "" || |c.path| > |path|)
    requires action == "write" || action == "delete"
    ensures c != Change(action, path)
  {
  }

  /** For instance, what "bob: x" writes to "p" is read as a write of "write p". */
  lemma ColonActorMisread()
    ensures ParseSubject("bob: x" + COLON + "write p") == Change("write", "write p")
  {
    assert Lacks("bob", ':');
    IndexColon("bob");
    IndexIn("bob", "x");
    assert "bob" + COLON + "x" == "bob: x" && "bob: x"[5..] == "x";
    TrimmedFixed("bob: x");
    TrimmedFixed("x");
    ActorMisread("bob: x", "write p");
  }

  // ---- subjects that KiwiFS writes ----

  lemma SpacedPathShort(path: string)
    requires !Lacks(path, ' ')
    ensures |ParseVerbAndPath(path).path| < |path|
  {
    var n := Find(path, ' ');
    TrimIsTrimmed(path[n + 1..]);
    FinishShort(NormalizeAction(path[..n]), Trim(path[n + 1..]));
  }

  lemma UnspacedPath(path: string)
    requires Lacks(path, ' ')
    ensures ParseVerbAndPath(path) == Change("write", path)
  {
    assert Find(path, ' ') == |path|;
  }

  /**
   A single write is committed as "actor: path", without a verb. It is read as a write of
   that path if and only if the path holds no space or, for an actor with ": " in it, what is
   behind that in the actor holds none.
   */
  lemma WriteSubjectExactly(actor: string, path: string)
    requires path != "" && Trimmed(path)
    ensures ParseSubject(actor + COLON + path) == Change("write", path)
            <==> Lacks(if Index(actor, COLON) < 0 then path else ActorRest(actor), ' ')
  {
    if Index(actor, COLON) < 0 {
      TrimmedFixed(path);
      ActorDropped(actor, path);
      if Lacks(path, ' ') {
        UnspacedPath(path);
      } else {
        SpacedPathShort(path);
      }
    } else {
      ActorMisread(actor, path);
    }
  }

  /**
   A delete is committed as "delete: path", without an actor. It is never read as the delete
   of that path, and as a write of it if and only if the path holds no space.
   */
  lemma DeleteNeverRead(path: string)
    requires path != "" && Trimmed(path)
    ensures ParseSubject("delete" + COLON + path) != Change("delete", path)
    ensures ParseSubject("delete" + COLON + path) == Change("write", path) <==> Lacks(path, ' ')
  {
    assert Lacks("delete", ':');
    IndexColon("delete");
    TrimmedFixed(path);
    ActorDropped("delete", path);
    if Lacks(path, ' ') {
      UnspacedPath(path);
    } else {
      SpacedPathShort(path);
    }
  }

  lemma ActorlessTrimmed(verb: string, path: string)
    requires Word(verb) && path != "" && Trimmed(path)
    ensures Trim(verb + [' '] + path) == verb + [' '] + path
  {
    TrimmedFixed(path);
    TrimVerb(verb, path);
  }

  lemma ActorlessCut(verb: string, path: string)
    requires Word(verb) && Lacks(verb, ':') && path != "" && Trimmed(path) && Index(path, COLON) >= 0
    ensures |ParseSubject(verb + [' '] + path).path| < |path|
  {
    ActorlessTrimmed(verb, path);
    ColonInPath(verb, path);
    ParseUncut(verb + [' '] + path);
  }

  lemma ActorlessKept(verb: string, path: string)
    requires Word(verb) && Lacks(verb, ':') && path != "" && Trimmed(path) && Index(path, COLON) < 0
    ensures ParseSubject(verb + [' '] + path) == Finish(NormalizeAction(verb), path)
  {
    ActorlessTrimmed(verb, path);
    ColonInPath(verb, path);
    ParseUncut(verb + [' '] + path);
    CutVerb(verb, path);
    TrimmedFixed(path);
  }

  /**
   Without an actor, "verb path" reads back as that path exactly when the path holds no
   ": ": otherwise everything up to it is taken for the actor.
   */
  lemma ActorlessSubject(verb: string, path: string)
    requires Word(verb) && Lacks(verb, ':') && path != "" && Trimmed(path)
    requires NormalizeAction(verb) == "write" || NormalizeAction(verb) == "delete"
    ensures ParseSubject(verb + [' '] + path).path == path <==> Index(path, COLON) < 0
  {
    if Index(path, COLON) < 0 {
      ActorlessKept(verb, path);
    } else {
      ActorlessCut(verb, path);
    }
  }

  /** A path with a colon and a space, written without an actor: "write a: b" is read as the path "b". */
  lemma ColonPathLost()
    ensures ParseSubject("write a" + COLON + "b") == Change("write", "b")
  {
    assert Lacks("write a", ':');
    IndexColon("write a");
    TrimmedFixed("b");
    ActorDropped("write a", "b");
    UnspacedPath("b");
  }

  /** A trimmed subject is read whole, or from behind its first ": ". */
  lemma ParseUncut(s: string)
    requires Trim(s) == s
    ensures var i := Index(s, COLON);
            if i < 0 then ParseSubject(s) == ParseVerbAndPath(s)
            else |ParseSubject(s).path| <= |s| - i - 2
  {
    AfterActorShort(s);
    ParsedPathShort(AfterActor(s));
  }

  lemma AfterActorShort(s: string)
    requires Trim(s) == s
    ensures var i := Index(s, COLON);
            if i < 0 then AfterActor(s) == s else |AfterActor(s)| <= |s| - i - 2
  {
    var i := Index(s, COLON);
    if i >= 0 {
      TrimIsTrimmed(s[i + 2..]);
    }
  }

  lemma ColonInPath(verb: string, path: string)
    requires Lacks(verb, ':')
    ensures var i := Index(verb + [' '] + path, COLON);
            (i < 0 <==> Index(path, COLON) < 0) && (i >= 0 ==> i > |verb|)
  {
    var s := verb + [' '] + path;
    IndexColon(s);
    IndexColon(path);
    forall k | 0 <= k < |path| ensures ColonAt(s, |verb| + 1 + k) <==> ColonAt(path, k) {
    }
    assert forall k :: 0 <= k <= |verb| ==> !ColonAt(s, k);
    var i, j := Index(s, COLON), Index(path, COLON);
    if i >= 0 {
      assert ColonAt(path, i - |verb| - 1);
    }
    if j >= 0 {
      assert ColonAt(s, |verb| + 1 + j);
    }
  }

  lemma ParsedPathShort(s: string)
    ensures |ParseVerbAndPath(s).path| <= |s|
  {
    var n := Find(s, ' ');
    if n < |s| {
      TrimIsTrimmed(s[n + 1..]);
      FinishShort(NormalizeAction(s[..n]), Trim(s[n + 1..]));
    }
  }

  lemma FinishShort(action: string, path: string)
    ensures |Finish(action, path).path| <= |path|
  {
    NewPathShort(path);
  }

  lemma NewPathShort(path: string)
    ensures |NewPath(path)| <= |path|
  {
    var i := Index(path, ARROW);
    if i >= 0 {
      TrimIsTrimmed(path[i + 3..]);
    }
  }

  /** Whatever the subject, its change is a write, a delete or a rename, of a path without blanks around it. */
  lemma SubjectNormal(subject: string)
    ensures var c := ParseSubject(subject);
            (c.action == "write" || c.action == "delete" || c.action == "rename") && Trimmed(c.path)
  {
    AfterActorTrimmed(subject);
    VerbAndPathNormal(AfterActor(subject));
  }

  lemma AfterActorTrimmed(subject: string)
    ensures Trimmed(AfterActor(subject))
  {
    TrimIsTrimmed(DropActor(Trim(subject)));
  }

  lemma VerbAndPathNormal(s: string)
    requires Trimmed(s)
    ensures var c := ParseVerbAndPath(s);
            (c.action == "write" || c.action == "delete" || c.action == "rename") && Trimmed(c.path)
  {
    var n := Find(s, ' ');
    if n < |s| {
      TrimIsTrimmed(s[n + 1..]);
      FinishNormal(NormalizeAction(s[..n]), Trim(s[n + 1..]));
      NormalVerb(s[..n]);
    }
  }

  lemma NormalVerb(verb: string)
    ensures var a := NormalizeAction(verb); a == "write" || a == "delete" || a == "rename" || a == "bulk"
  {
  }

  lemma FinishNormal(action: string, path: string)
    requires Trimmed(path)
    ensures Trimmed(Finish(action, path).path)
  {
    NewPathTrimmed(path);
  }

  lemma NewPathTrimmed(path: string)
    requires Trimmed(path)
    ensures Trimmed(NewPath(path))
  {
    var i := Index(path, ARROW);
    if i >= 0 {
      TrimIsTrimmed(path[i + 3..]);
    }
  }

  // ---- in plain text ----

  /**
   "actor: verb path", by the verb in any case: "delete" and "remove" are deletes, "rename" and
   "move" renames, "bulk" a write without a path, and everything else a write of the path.
   */
  lemma VerbsExactly(actor: string, verb: string, path: string)
    requires Index(actor, COLON) < 0 && Word(verb) && Trim(path) != ""
    ensures var v, c := ToLower(verb), ParseSubject(actor + COLON + (verb + [' '] + path));
            if v == "delete" || v == "remove" then c == Change("delete", Trim(path))
            else if v == "rename" || v == "move" then c == Change("rename", NewPath(Trim(path)))
            else if v == "bulk" then c == Change("write", "")
            else c == Change("write", Trim(path))
  {
    SubjectRoundTrip(actor, verb, path);
    FinishedVerb(verb, Trim(path));
  }

  lemma FinishedVerb(verb: string, path: string)
    ensures var v, c := ToLower(verb), Finish(NormalizeAction(verb), path);
            if v == "delete" || v == "remove" then c == Change("delete", path)
            else if v == "rename" || v == "move" then c == Change("rename", NewPath(path))
            else if v == "bulk" then c == Change("write", "")
            else c == Change("write", path)
  {
  }

  lemma PlainName(actor: string)
    requires Lacks(actor, ':')
    ensures Index(actor, COLON) < 0
  {
    IndexColon(actor);
  }

  /** For instance, the remove of a file, and the move of one. */
  lemma RemoveReads(subject: string)
    requires subject == "alice: remove a.md"
    ensures ParseSubject(subject) == Change("delete", "a.md")
  {
    assert Lacks("alice", ':');
    PlainName("alice");
    assert "alice" + COLON == "alice: " && "remove" + [' '] + "a.md" == "remove a.md";
    assert subject == "alice" + COLON + ("remove" + [' '] + "a.md");
    RemoveVerb();
    PlainActor("alice", "remove", "a.md");
  }

  lemma RemoveVerb()
    ensures NormalizeAction("remove") == "delete" && Word("remove")
  {
    assert ToLower("remove") == "remove";
  }

  lemma MoveReads(subject: string)
    requires subject == "alice: move a \U{2192} b"
    ensures ParseSubject(subject) == Change("rename", "b")
  {
    assert Lacks("alice", ':');
    PlainName("alice");
    assert "alice" + COLON == "alice: " && "a" + ARROW + "b" == "a \U{2192} b";
    assert subject == "alice" + COLON + ("move" + [' '] + ("a" + ARROW + "b"));
    MoveVerb();
    IndexArrow("a" + [' ']);
    RenameKeepsNewPath("alice", "move", "a", "b");
  }

  lemma MoveVerb()
    ensures NormalizeAction("move") == "rename" && Word("move")
  {
    assert ToLower("move") == "move";
  }

  /** A line of git's output, field by field. */
  lemma LineReads(line: string)
    requires line == "ab|bob|12|bob: x"
    ensures ParseLine(line) == Some(Entry("ab", "bob", 12, ParseSubject("bob: x")))
  {
    Twelve();
    var rest := "12" + ['|'] + "bob: x";
    assert rest == "12|bob: x" && "bob" + ['|'] + rest == "bob|12|bob: x";
    assert line == Fields("ab", "bob", "12", "bob: x");
    ParseFields("ab", "bob", "12", "bob: x");
  }

  lemma Twelve()
    ensures ParseTime("12") == 12 && Lacks("12", '|')
  {
    assert Decimal.Digits("12") && "12"[..1] == "1" && "1"[..0] == "";
    assert Decimal.Value("1") == 1;
  }
}
