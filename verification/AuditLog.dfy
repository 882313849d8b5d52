/**
 The audit log: one JSONL file per UTC day, written by concurrent callers that sample the
 day before they take the lock, and read back behind a file-name prefilter.
 */
module AuditLog {
  import opened Options
  import opened Strings
  import opened Calendar
  import Seqs

  /** Nanoseconds since the start of day 0, UTC. */
  type Instant = nat

  const DAY: nat := 86400 * 1000000000

  function DayOf(t: Instant): nat {
    t / DAY
  }

  /** An entry: when its request started, and the rest of the record. */
  datatype Entry = Entry(ts: Instant, rest: string)

  /** The JSON encoder and decoder. */
  datatype Codec = Codec(encode: Entry -> string, decode: string -> Option<Entry>)

  /** Encodings are nonempty, hold no raw newline, and decode to what was encoded. */
  ghost predicate Faithful(codec: Codec) {
    forall e: Entry :: codec.encode(e) != "" && Lacks(codec.encode(e), '\n') && codec.decode(codec.encode(e)) == Some(e)
  }

  function FileName(day: string): string {
    day + ".jsonl"
  }

  // ---- the logger ----

  /** The `*os.File` a logger holds; a closed one accepts no writes. */
  datatype Handle = Handle(name: string, open: bool)

  datatype Logger = Logger(file: Option<Handle>, day: string, disk: map<string, string>)

  function Append(disk: map<string, string>, name: string, data: string): map<string, string> {
    disk[name := (if name in disk then disk[name] else "") + data]
  }

  /** The section of `Log` under the lock, given whether an open would succeed. */
  function LogLocked(l: Logger, data: string, day: string, opens: bool): Logger {
    if l.day != day || l.file.None? then
      if opens then
        Logger(Some(Handle(FileName(day), true)), day, Append(l.disk, FileName(day), data))
      else
        l.(file := if l.file.Some? then Some(l.file.value.(open := false)) else None)
    else if l.file.value.open then
      l.(disk := Append(l.disk, l.file.value.name, data))
    else
      l
  }

  function CloseLocked(l: Logger): Logger {
    l.(file := None)
  }

  class AuditLogger {
    var file: Option<Handle>
    var day: string
    /** The directory the files live in. */
    var disk: map<string, string>

    function State(): Logger
      reads this
    {
      Logger(file, day, disk)
    }

    constructor ()
      ensures State() == Logger(None, "", map[])
    {
      file, day, disk := None, "", map[];
    }

    method Log(codec: Codec, entry: Entry, sampledDay: string, opens: bool)
      modifies this
      ensures State() == LogLocked(old(State()), codec.encode(entry) + ['\n'], sampledDay, opens)
    {
      var data := codec.encode(entry);
      data := data + ['\n'];
      if day != sampledDay || file == None {
        if file != None {
          file := Some(file.value.(open := false));
        }
        if !opens {
          return;
        }
        file := Some(Handle(FileName(sampledDay), true));
        day := sampledDay;
      }
      if file.value.open {
        disk := Append(disk, file.value.name, data);
      }
    }

    method Close()
      modifies this
      ensures State() == CloseLocked(old(State()))
    {
      if file != None {
        file := None;
      }
    }

    /** Reads the directory, given as the sorted listing of its files. */
    method ReadEntries(codec: Codec, listing: seq<(string, string)>, sinceDay: string, since: Instant, limit: int)
      returns (result: seq<Entry>)
      ensures var all := ReadAll(codec, listing, sinceDay, since);
              result == if limit > 0 && |all| > limit then all[..limit] else all
    {
      result := [];
      var i := 0;
      while i < |listing|
        invariant 0 <= i <= |listing|
        invariant ReadAll(codec, listing, sinceDay, since) == result + ReadAll(codec, listing[i..], sinceDay, since)
        invariant limit > 0 ==> |result| < limit
      {
        var name, data := listing[i].0, listing[i].1;
        NextFile(codec, listing, i, sinceDay, since);
        i := i + 1;
        if |name| < 10 || StringLess(name[..10], sinceDay) {
          continue;
        }
        Seqs.Associates(result, ReadFile(codec, data, since), ReadAll(codec, listing[i..], sinceDay, since));
        ghost var read := result + ReadFile(codec, data, since);
        var full;
        result, full := ScanFile(codec, data, since, limit, result);
        if full {
          PrefixStays(result, read, ReadAll(codec, listing[i..], sinceDay, since));
          return;
        }
      }
    }

    /** The inner loop: take lines off the data; `full` at the limit. */
    method ScanFile(codec: Codec, content: string, since: Instant, limit: int, before: seq<Entry>)
      returns (result: seq<Entry>, full: bool)
      requires limit > 0 ==> |before| < limit
      ensures result <= before + ReadFile(codec, content, since)
      ensures full ==> limit > 0 && |result| == limit
      ensures !full ==> result == before + ReadFile(codec, content, since) && (limit > 0 ==> |result| < limit)
    {
      result, full := before, false;
      var data := content;
      while |data| > 0
        invariant before + ReadFile(codec, content, since) == result + ReadFile(codec, data, since)
        invariant limit > 0 ==> |result| < limit
        decreases |data|
      {
        FirstLine(codec, data, since);
        var line;
        line, data := CutLine(data);
        Seqs.Associates(result, KeepLine(codec, line, since), ReadFile(codec, data, since));
        assert result + [] == result;
        if |line| == 0 {
          continue;
        }
        var e := codec.decode(line);
        if e == None || e.value.ts < since {
          continue;
        }
        result := result + [e.value];
        if limit > 0 && |result| >= limit {
          full := true;
          return;
        }
      }
      EmptyFile(codec, since);
    }

    /** The index scan to the next newline, or to the end of the data. */
    method CutLine(data: string) returns (line: string, rest: string)
      requires data != ""
      ensures line == FirstOf(data) && rest == RestOf(data) && |rest| < |data|
    {
      var idx := 0;
      while idx < |data| && data[idx] != '\n'
        invariant 0 <= idx <= |data|
        invariant forall k :: 0 <= k < idx ==> data[k] != '\n'
      {
        idx := idx + 1;
      }
      assert idx == Find(data, '\n');
      line := data[..idx];
      rest := if idx < |data| then data[idx + 1..] else "";
    }
  }

  lemma PrefixStays<T>(a: seq<T>, b: seq<T>, c: seq<T>)
    requires a <= b
    ensures |a| <= |b + c| && a == (b + c)[..|a|]
    ensures |a| == |b + c| ==> a == b + c
  {
  }

  lemma NextFile(codec: Codec, listing: seq<(string, string)>, i: nat, sinceDay: string, since: Instant)
    requires i < |listing|
    ensures var rest := ReadAll(codec, listing[i + 1..], sinceDay, since);
            ReadAll(codec, listing[i..], sinceDay, since)
            == if Skipped(listing[i].0, sinceDay) then rest else ReadFile(codec, listing[i].1, since) + rest
  {
    assert listing[i..][0] == listing[i] && listing[i..][1..] == listing[i + 1..];
    var rest := ReadAll(codec, listing[i + 1..], sinceDay, since);
    assert [] + rest == rest;
  }

  function FirstOf(data: string): string {
    data[..Find(data, '\n')]
  }

  function RestOf(data: string): string {
    var i := Find(data, '\n');
    if i < |data| then data[i + 1..] else ""
  }

  // ---- reading ----

  function KeepLine(codec: Codec, line: string, since: Instant): seq<Entry> {
    if line == "" then []
    else match codec.decode(line)
      case None => []
      case Some(e) => if e.ts < since then [] else [e]
  }

  function KeepLines(codec: Codec, lines: seq<string>, since: Instant): seq<Entry> {
    if lines == [] then [] else KeepLine(codec, lines[0], since) + KeepLines(codec, lines[1..], since)
  }

  function ReadFile(codec: Codec, data: string, since: Instant): seq<Entry> {
    KeepLines(codec, Split(data, '\n'), since)
  }

  predicate Skipped(name: string, sinceDay: string) {
    |name| < 10 || StringLess(name[..10], sinceDay)
  }

  function ReadAll(codec: Codec, listing: seq<(string, string)>, sinceDay: string, since: Instant): seq<Entry> {
    if listing == [] then []
    else
      (if Skipped(listing[0].0, sinceDay) then [] else ReadFile(codec, listing[0].1, since))
      + ReadAll(codec, listing[1..], sinceDay, since)
  }

  lemma OneLine(codec: Codec, line: string, since: Instant)
    ensures KeepLines(codec, [line], since) == KeepLine(codec, line, since)
  {
    var lines := [line];
    assert lines[1..] == [];
    assert KeepLines(codec, lines[1..], since) == [];
  }

  lemma EmptyFile(codec: Codec, since: Instant)
    ensures ReadFile(codec, "", since) == []
  {
    OneLine(codec, "", since);
  }

  /** The index scan takes off exactly the first line of the split. */
  lemma FirstLine(codec: Codec, data: string, since: Instant)
    requires data != ""
    ensures ReadFile(codec, data, since)
            == KeepLine(codec, FirstOf(data), since) + ReadFile(codec, RestOf(data), since)
  {
    var i := Find(data, '\n');
    if i < |data| {
      var parts := [data[..i]] + Split(data[i + 1..], '\n');
      assert parts[1..] == Split(data[i + 1..], '\n');
    } else {
      assert data[..i] == data;
      EmptyFile(codec, since);
      OneLine(codec, data, since);
    }
  }

  function Since(es: seq<Entry>, since: Instant): seq<Entry> {
    if es == [] then []
    else Since(es[..|es| - 1], since) + (if es[|es| - 1].ts < since then [] else [es[|es| - 1]])
  }

  /** What appending the entries one by one leaves in a file. */
  function Encoded(codec: Codec, es: seq<Entry>): string {
    if es == [] then "" else Encoded(codec, es[..|es| - 1]) + (codec.encode(es[|es| - 1]) + ['\n'])
  }

  lemma {:induction false} KeepLinesConcat(codec: Codec, a: seq<string>, b: seq<string>, since: Instant)
    ensures KeepLines(codec, a + b, since) == KeepLines(codec, a, since) + KeepLines(codec, b, since)
  {
    if a == [] {
      assert a + b == b;
    } else {
      assert (a + b)[1..] == a[1..] + b;
      KeepLinesConcat(codec, a[1..], b, since);
    }
  }

  lemma ReadFileLine(codec: Codec, before: string, line: string, since: Instant)
    requires Lacks(line, '\n')
    ensures ReadFile(codec, before + ['\n'] + line, since)
            == ReadFile(codec, before, since) + KeepLine(codec, line, since)
  {
    SplitConcat(before, '\n', line);
    SplitLacking(line, '\n');
    KeepLinesConcat(codec, Split(before, '\n'), [line], since);
    OneLine(codec, line, since);
  }

  /** One more line at the end of a file that ends in a newline, or is empty. */
  lemma ReadAppended(codec: Codec, content: string, line: string, since: Instant)
    requires Lacks(line, '\n') && (content == "" || content[|content| - 1] == '\n')
    ensures ReadFile(codec, content + line, since) == ReadFile(codec, content, since) + KeepLine(codec, line, since)
    ensures ReadFile(codec, content + (line + ['\n']), since) == ReadFile(codec, content + line, since)
  {
    if content == "" {
      ReadOnly(codec, line, since);
      assert content + line == line;
    } else {
      var before := content[..|content| - 1];
      assert content == before + ['\n'];
      EndNewline(codec, before, since);
      ReadFileLine(codec, before, line, since);
    }
    assert content + (line + ['\n']) == (content + line) + ['\n'];
    EndNewline(codec, content + line, since);
  }

  /** A file of one line. */
  lemma ReadOnly(codec: Codec, line: string, since: Instant)
    requires Lacks(line, '\n')
    ensures ReadFile(codec, "", since) == [] && ReadFile(codec, line, since) == KeepLine(codec, line, since)
  {
    EmptyFile(codec, since);
    SplitLacking(line, '\n');
    OneLine(codec, line, since);
  }

  lemma EndNewline(codec: Codec, before: string, since: Instant)
    ensures ReadFile(codec, before + ['\n'], since) == ReadFile(codec, before, since)
  {
    assert before + ['\n'] == before + ['\n'] + "";
    ReadFileLine(codec, before, "", since);
  }

  lemma ReadOneMore(codec: Codec, content: string, e: Entry, since: Instant)
    requires Faithful(codec) && (content == "" || content[|content| - 1] == '\n')
    ensures var line := codec.encode(e);
            var kept := if e.ts < since then [] else [e];
            && ReadFile(codec, content + (line + ['\n']), since) == ReadFile(codec, content, since) + kept
            && ReadFile(codec, (content + (line + ['\n']))[..|content| + |line|], since)
               == ReadFile(codec, content, since) + kept
  {
    var line := codec.encode(e);
    assert Lacks(line, '\n') && line != "" && codec.decode(line) == Some(e);
    ReadAppended(codec, content, line, since);
    assert (content + (line + ['\n']))[..|content| + |line|] == content + line;
  }

  /**
   Reading inverts writing: the entries of a file, in order, with or without the newline
   at its end.
   */
  lemma {:induction false} ReadInvertsWrite(codec: Codec, es: seq<Entry>, since: Instant)
    requires Faithful(codec)
    ensures ReadFile(codec, Encoded(codec, es), since) == Since(es, since)
    ensures es != [] ==> ReadFile(codec, Encoded(codec, es)[..|Encoded(codec, es)| - 1], since) == Since(es, since)
  {
    if es == [] {
      EmptyFile(codec, since);
    } else {
      var front, e := es[..|es| - 1], es[|es| - 1];
      ReadInvertsWrite(codec, front, since);
      EncodedEnds(codec, front);
      ReadOneMore(codec, Encoded(codec, front), e, since);
    }
  }

  lemma EncodedEnds(codec: Codec, es: seq<Entry>)
    ensures var s := Encoded(codec, es); s == "" || s[|s| - 1] == '\n'
  {
  }

  // ---- every interleaving of callers ----

  /** A call between its clock sample and the lock. */
  datatype Call = Call(entry: Entry, day: nat)

  /** A stretch under the lock: a call with its line, its day and whether an open would succeed, or `Close`. */
  datatype Section = Locked(call: Call, data: string, day: string, opens: bool) | Closed

  datatype System = System(clock: Instant, logger: Logger, pending: multiset<Call>, sections: seq<Section>)

  datatype Step =
    | Advance(to: Instant)
    | Sample(entry: Entry)               // marshal, and read the day
    | Write(call: Call, opens: bool)     // take the lock
    | Close

  const EMPTY := Logger(None, "", map[])
  const INIT := System(0, EMPTY, multiset{}, [])

  function Locking(codec: Codec, c: Call, opens: bool): Section
    requires Named(c.day)
  {
    Locked(c, codec.encode(c.entry) + ['\n'], DayName(c.day), opens)
  }

  function Enter(l: Logger, s: Section): Logger {
    match s
    case Locked(_, data, day, opens) => LogLocked(l, data, day, opens)
    case Closed => CloseLocked(l)
  }

  /** The clock never falls, and days keep four-digit years; a request starts before it is logged. */
  function Next(codec: Codec, s: System, step: Step): (s': System) {
    match step
    case Advance(to) => if s.clock <= to && Named(DayOf(to)) then s.(clock := to) else s
    case Sample(e) => if e.ts <= s.clock then s.(pending := s.pending + multiset{Call(e, DayOf(s.clock))}) else s
    case Write(c, opens) =>
      if c in s.pending && Named(c.day) then
        var section := Locking(codec, c, opens);
        s.(logger := Enter(s.logger, section), pending := s.pending - multiset{c}, sections := s.sections + [section])
      else s
    case Close => s.(logger := Enter(s.logger, Closed), sections := s.sections + [Closed])
  }

  function Run(codec: Codec, steps: seq<Step>): System {
    if steps == [] then INIT else Next(codec, Run(codec, steps[..|steps| - 1]), steps[|steps| - 1])
  }

  // ---- which calls write ----

  /** The call writes its entry: it opens a file for its day, or holds an open one. */
  predicate Lands(l: Logger, day: string, opens: bool) {
    if l.day != day || l.file.None? then opens else l.file.value.open
  }

  /** A call appends to the file of its day exactly when it lands, and otherwise writes nothing. */
  lemma WritesExactly(l: Logger, data: string, day: string, opens: bool)
    requires data != "" && (l.file.Some? ==> l.file.value.name == FileName(l.day))
    ensures var disk := LogLocked(l, data, day, opens).disk;
            && (disk == Append(l.disk, FileName(day), data) <==> Lands(l, day, opens))
            && (disk == l.disk <==> !Lands(l, day, opens))
  {
    AppendChanges(l.disk, FileName(day), data);
  }

  lemma AppendChanges(disk: map<string, string>, name: string, data: string)
    requires data != ""
    ensures Append(disk, name, data) != disk
  {
    if name in disk {
      assert |disk[name] + data| > |disk[name]|;
      assert Append(disk, name, data)[name] != disk[name];
    } else {
      assert name in Append(disk, name, data);
    }
  }

  /** The logger after some sections, from a new one. */
  function After(ss: seq<Section>): Logger {
    if ss == [] then EMPTY else Enter(After(ss[..|ss| - 1]), ss[|ss| - 1])
  }

  /** The `i`-th section is a call that lands. */
  predicate Landed(ss: seq<Section>, i: nat)
    requires i < |ss|
  {
    ss[i].Locked? && Lands(After(ss[..i]), ss[i].day, ss[i].opens)
  }

  /** The calls that land, in the order of the lock. */
  function Landings(ss: seq<Section>): seq<Call> {
    if ss == [] then []
    else Landings(ss[..|ss| - 1]) + (if Landed(ss, |ss| - 1) then [ss[|ss| - 1].call] else [])
  }

  /** A section that neither closes the logger nor opens another day's file. */
  predicate Keeps(s: Section, day: string) {
    s.Locked? && (s.day == day || !s.opens)
  }

  /** Before section `n`, the logger still has the day of the landing call `k`. */
  ghost predicate Holds(ss: seq<Section>, n: nat, k: nat)
    requires n <= |ss|
  {
    k < n && Landed(ss, k) && forall m :: k < m < n ==> Keeps(ss[m], ss[k].day)
  }

  /** Between `k` and `n`, a call of another day has tried to rotate. */
  ghost predicate Rotated(ss: seq<Section>, n: nat, k: nat)
    requires k < n <= |ss| && ss[k].Locked?
  {
    exists j :: k < j < n && ss[j].Locked? && ss[j].day != ss[k].day
  }

  /** The handle is that of the day last landed on, and open unless a rotation failed since. */
  ghost predicate HandleExact(l: Logger, ss: seq<Section>, n: nat)
    requires n <= |ss|
  {
    && (l.file.Some? ==> exists k: nat :: Holds(ss, n, k))
    && (forall k: nat :: Holds(ss, n, k) ==> HandleOf(l, ss, n, k))
  }

  ghost predicate HandleOf(l: Logger, ss: seq<Section>, n: nat, k: nat)
    requires k < n <= |ss| && ss[k].Locked?
  {
    l.file.Some? && l.day == ss[k].day && (l.file.value.open <==> !Rotated(ss, n, k))
  }

  /** What a section does to the handle. */
  predicate HandleAfter(l: Logger, s: Section, l': Logger) {
    if s.Closed? then l'.file.None?
    else if Lands(l, s.day, s.opens) then l'.file.Some? && l'.day == s.day && l'.file.value.open
    else l'.day == l.day && l'.file.Some? == l.file.Some? && (l'.file.Some? ==> !l'.file.value.open)
  }

  lemma EnterHandle(l: Logger, s: Section)
    ensures HandleAfter(l, s, Enter(l, s))
  {
  }

  lemma HolderStep(l: Logger, ss: seq<Section>, n: nat, l': Logger) returns (k: nat)
    requires n < |ss| && HandleExact(l, ss, n) && HandleAfter(l, ss[n], l') && l'.file.Some?
    requires Landed(ss, n) <==> ss[n].Locked? && Lands(l, ss[n].day, ss[n].opens)
    ensures Holds(ss, n + 1, k)
  {
    if Landed(ss, n) {
      k := n;
    } else {
      k :| Holds(ss, n, k);
      assert HandleOf(l, ss, n, k);
    }
  }

  lemma HeldStep(l: Logger, ss: seq<Section>, n: nat, l': Logger, k: nat)
    requires n < |ss| && HandleExact(l, ss, n) && HandleAfter(l, ss[n], l') && Holds(ss, n + 1, k)
    requires Landed(ss, n) <==> ss[n].Locked? && Lands(l, ss[n].day, ss[n].opens)
    ensures HandleOf(l', ss, n + 1, k)
  {
    if k < n {
      assert Holds(ss, n, k);
      RotatedStep(ss, n, k);
    }
  }

  lemma RotatedStep(ss: seq<Section>, n: nat, k: nat)
    requires k < n < |ss| && ss[k].Locked?
    ensures Rotated(ss, n + 1, k) <==> Rotated(ss, n, k) || (ss[n].Locked? && ss[n].day != ss[k].day)
  {
  }

  lemma {:induction false} HandleHistory(ss: seq<Section>, n: nat)
    requires n <= |ss|
    ensures HandleExact(After(ss[..n]), ss, n)
  {
    if n > 0 {
      HandleHistory(ss, n - 1);
      assert ss[..n][..n - 1] == ss[..n - 1];
      var l := After(ss[..n - 1]);
      var l' := Enter(l, ss[n - 1]);
      EnterHandle(l, ss[n - 1]);
      if l'.file.Some? {
        var k := HolderStep(l, ss, n - 1, l');
      }
      forall k: nat | Holds(ss, n, k) ensures HandleOf(l', ss, n, k) {
        HeldStep(l, ss, n - 1, l', k);
      }
    } else {
      assert ss[..0] == [];
    }
  }

  /** The logger has the file of this call's day, or had it before a rotation failed. */
  ghost predicate Held(ss: seq<Section>, i: nat)
    requires i < |ss| && ss[i].Locked?
  {
    exists k: nat :: Holds(ss, i, k) && ss[k].day == ss[i].day
  }

  /** A failed rotation to another day has closed the file of this call's day. */
  ghost predicate Stranded(ss: seq<Section>, i: nat)
    requires i < |ss| && ss[i].Locked?
  {
    exists k: nat :: Holds(ss, i, k) && ss[k].day == ss[i].day && Rotated(ss, i, k)
  }

  /**
   A call loses its entry if and only if it had no handle for its day and its own open
   failed, or it found its day's handle closed by a rotation that failed.
   */
  lemma LostExactly(ss: seq<Section>, i: nat)
    requires i < |ss| && ss[i].Locked?
    ensures !Landed(ss, i) <==> (!Held(ss, i) && !ss[i].opens) || Stranded(ss, i)
  {
    HandleHistory(ss, i);
  }

  function CallsOf(ss: seq<Section>): seq<Call> {
    if ss == [] then []
    else CallsOf(ss[..|ss| - 1]) + (if ss[|ss| - 1].Locked? then [ss[|ss| - 1].call] else [])
  }

  predicate AllOpen(ss: seq<Section>) {
    forall i :: 0 <= i < |ss| && ss[i].Locked? ==> ss[i].opens
  }

  lemma NoneStranded(ss: seq<Section>, i: nat)
    requires i < |ss| && ss[i].Locked? && AllOpen(ss)
    ensures Landed(ss, i)
  {
    LostExactly(ss, i);
    forall k: nat | Holds(ss, i, k) ensures !Rotated(ss, i, k) {
      assert forall j :: k < j < i ==> Keeps(ss[j], ss[k].day);
    }
  }

  /** While opens succeed, every call lands. */
  lemma {:induction false} AllLand(ss: seq<Section>)
    requires AllOpen(ss)
    ensures Landings(ss) == CallsOf(ss)
  {
    if ss != [] {
      AllLand(ss[..|ss| - 1]);
      if ss[|ss| - 1].Locked? {
        NoneStranded(ss, |ss| - 1);
      }
    }
  }

  // ---- what is on the disk ----

  /** The entries written to the file of one day, in the order of the lock. */
  function OnDay(cs: seq<Call>, day: nat): seq<Entry> {
    if cs == [] then []
    else OnDay(cs[..|cs| - 1], day) + (if cs[|cs| - 1].day == day then [cs[|cs| - 1].entry] else [])
  }

  predicate GoodCall(c: Call) {
    Named(c.day) && DayOf(c.entry.ts) <= c.day
  }

  /** The file of `day` holds exactly the entries written for it; no entries, no file. */
  ghost predicate FileExact(codec: Codec, cs: seq<Call>, disk: map<string, string>, day: nat)
    requires Named(day)
  {
    var name := FileName(DayName(day));
    if OnDay(cs, day) == [] then name !in disk
    else name in disk && disk[name] == Encoded(codec, OnDay(cs, day))
  }

  ghost predicate GoodCalls(cs: seq<Call>) {
    forall i :: 0 <= i < |cs| ==> GoodCall(cs[i])
  }

  function Logged(codec: Codec, disk: map<string, string>, c: Call): map<string, string>
    requires Named(c.day)
  {
    Append(disk, FileName(DayName(c.day)), codec.encode(c.entry) + ['\n'])
  }

  /** The directory that the calls leave, each appending to the file of its own day. */
  ghost function DiskOf(codec: Codec, cs: seq<Call>): map<string, string>
    requires GoodCalls(cs)
  {
    if cs == [] then map[] else Logged(codec, DiskOf(codec, cs[..|cs| - 1]), cs[|cs| - 1])
  }

  /** The section is what `Log` makes of its call. */
  ghost predicate GoodSection(codec: Codec, s: Section) {
    s.Locked? ==> GoodCall(s.call) && s == Locking(codec, s.call, s.opens)
  }

  ghost predicate GoodSections(codec: Codec, ss: seq<Section>) {
    forall i :: 0 <= i < |ss| ==> GoodSection(codec, ss[i])
  }

  ghost predicate Inv(codec: Codec, s: System) {
    && Named(DayOf(s.clock))
    && (forall c :: c in s.pending ==> GoodCall(c))
    && GoodSections(codec, s.sections)
    && s.logger == After(s.sections)
  }

  lemma FileNameInjective(m: nat, n: nat)
    requires Named(m) && Named(n) && FileName(DayName(m)) == FileName(DayName(n))
    ensures m == n
  {
    assert FileName(DayName(m))[..10] == DayName(m) && FileName(DayName(n))[..10] == DayName(n);
    DayNameOrder(m, n);
  }

  lemma FileAfterWrite(codec: Codec, cs: seq<Call>, disk: map<string, string>, c: Call, day: nat)
    requires Named(day) && Named(c.day) && FileExact(codec, cs, disk, day)
    ensures FileExact(codec, cs + [c], Logged(codec, disk, c), day)
  {
    OnDaySnoc(cs, c, day);
    if day == c.day {
      EncodedSnoc(codec, OnDay(cs, day), c.entry);
    } else if FileName(DayName(day)) == FileName(DayName(c.day)) {
      FileNameInjective(day, c.day);
    }
  }

  lemma OnDaySnoc(cs: seq<Call>, c: Call, day: nat)
    ensures OnDay(cs + [c], day) == if c.day == day then OnDay(cs, day) + [c.entry] else OnDay(cs, day)
  {
    assert (cs + [c])[..|cs|] == cs;
  }

  lemma EncodedSnoc(codec: Codec, es: seq<Entry>, e: Entry)
    ensures Encoded(codec, es + [e]) == Encoded(codec, es) + (codec.encode(e) + ['\n'])
    ensures es == [] ==> Encoded(codec, es + [e]) == codec.encode(e) + ['\n']
  {
    assert (es + [e])[..|es|] == es;
  }

  lemma {:induction false} DiskExact(codec: Codec, cs: seq<Call>, day: nat)
    requires GoodCalls(cs) && Named(day)
    ensures FileExact(codec, cs, DiskOf(codec, cs), day)
  {
    if cs != [] {
      var front, c := cs[..|cs| - 1], cs[|cs| - 1];
      DiskExact(codec, front, day);
      FileAfterWrite(codec, front, DiskOf(codec, front), c, day);
      assert front + [c] == cs;
    }
  }

  lemma {:induction false} DiskNames(codec: Codec, cs: seq<Call>, name: string) returns (i: nat)
    requires GoodCalls(cs) && name in DiskOf(codec, cs)
    ensures i < |cs| && name == FileName(DayName(cs[i].day))
  {
    i := |cs| - 1;
    if name != FileName(DayName(cs[i].day)) {
      i := DiskNames(codec, cs[..|cs| - 1], name);
    }
  }

  /** A good handle and a good open: the data goes to the file of the sampled day. */
  lemma LockedAppends(l: Logger, data: string, day: string)
    requires l.file.Some? ==> l.file.value == Handle(FileName(l.day), true)
    ensures var l' := LogLocked(l, data, day, true);
            && l'.file == Some(Handle(FileName(l'.day), true))
            && l'.disk == Append(l.disk, FileName(day), data)
  {
  }

  lemma EnterDisk(codec: Codec, l: Logger, s: Section)
    requires GoodSection(codec, s) && (l.file.Some? ==> l.file.value.name == FileName(l.day))
    ensures var l' := Enter(l, s);
            && (l'.file.Some? ==> l'.file.value.name == FileName(l'.day))
            && l'.disk == if s.Locked? && Lands(l, s.day, s.opens) then Logged(codec, l.disk, s.call) else l.disk
  {
  }

  /** The directory holds what the calls in `cs` wrote, and a handle is that of its day. */
  ghost predicate DiskIs(codec: Codec, l: Logger, cs: seq<Call>) {
    (l.file.Some? ==> l.file.value.name == FileName(l.day)) && GoodCalls(cs) && l.disk == DiskOf(codec, cs)
  }

  lemma DiskStep(codec: Codec, l: Logger, cs: seq<Call>, s: Section)
    requires DiskIs(codec, l, cs) && GoodSection(codec, s)
    ensures DiskIs(codec, Enter(l, s), if s.Locked? && Lands(l, s.day, s.opens) then cs + [s.call] else cs)
  {
    EnterDisk(codec, l, s);
    if s.Locked? && Lands(l, s.day, s.opens) {
      DiskOfSnoc(codec, cs, s.call);
    }
  }

  /** The directory holds what the landing calls wrote, and nothing else. */
  lemma {:induction false} DiskOfLandings(codec: Codec, ss: seq<Section>)
    requires GoodSections(codec, ss)
    ensures DiskIs(codec, After(ss), Landings(ss))
  {
    if ss != [] {
      DiskOfLandings(codec, ss[..|ss| - 1]);
      DiskStep(codec, After(ss[..|ss| - 1]), Landings(ss[..|ss| - 1]), ss[|ss| - 1]);
      LandingsStep(ss);
    }
  }

  lemma LandingsStep(ss: seq<Section>)
    requires ss != []
    ensures var front, s := ss[..|ss| - 1], ss[|ss| - 1];
            && After(ss) == Enter(After(front), s)
            && Landings(ss)
               == if s.Locked? && Lands(After(front), s.day, s.opens) then Landings(front) + [s.call]
                  else Landings(front)
  {
  }

  lemma DiskOfSnoc(codec: Codec, cs: seq<Call>, c: Call)
    requires GoodCalls(cs) && GoodCall(c)
    ensures GoodCalls(cs + [c]) && DiskOf(codec, cs + [c]) == Logged(codec, DiskOf(codec, cs), c)
  {
    assert (cs + [c])[..|cs|] == cs;
  }

  lemma WriteKeeps(codec: Codec, s: System, c: Call, opens: bool)
    requires Inv(codec, s) && c in s.pending
    ensures Inv(codec, Next(codec, s, Write(c, opens)))
  {
    assert GoodCall(c);
    var ss := s.sections + [Locking(codec, c, opens)];
    assert ss[..|s.sections|] == s.sections;
  }

  lemma SampleKeeps(codec: Codec, s: System, e: Entry)
    requires Inv(codec, s) && e.ts <= s.clock
    ensures Inv(codec, Next(codec, s, Sample(e)))
  {
    DayMonotone(e.ts, s.clock);
    assert GoodCall(Call(e, DayOf(s.clock)));
  }

  lemma StepKeeps(codec: Codec, s: System, step: Step)
    requires Inv(codec, s)
    ensures Inv(codec, Next(codec, s, step))
  {
    match step {
      case Write(c, opens) => if c in s.pending { WriteKeeps(codec, s, c, opens); }
      case Sample(e) => if e.ts <= s.clock { SampleKeeps(codec, s, e); }
      case Advance(_) =>
      case Close => assert (s.sections + [Closed])[..|s.sections|] == s.sections;
    }
  }

  lemma {:induction false} RunKeeps(codec: Codec, steps: seq<Step>)
    ensures Inv(codec, Run(codec, steps))
  {
    if steps == [] {
      assert DayOf(0) == 0;
    } else {
      RunKeeps(codec, steps[..|steps| - 1]);
      StepKeeps(codec, Run(codec, steps[..|steps| - 1]), steps[|steps| - 1]);
    }
  }

  // ---- every call takes the lock, on the day that it sampled ----

  /** Days are stretches of 24 hours. */
  lemma DayExactly(t: Instant)
    ensures DayOf(t) * 86400000000000 <= t < (DayOf(t) + 1) * 86400000000000
  {
  }

  /** The clock goes where it is told to, but never back. */
  lemma AdvanceExactly(codec: Codec, s: System, to: Instant)
    requires s.clock <= to && Named(to / 86400000000000)
    ensures Next(codec, s, Advance(to)) == s.(clock := to)
  {
    DayExactly(to);
  }

  /** The call that a step samples, with the day that the clock stands at. */
  function SampledBy(s: System, step: Step): multiset<Call> {
    if step.Sample? && step.entry.ts <= s.clock then multiset{Call(step.entry, s.clock / 86400000000000)}
    else multiset{}
  }

  /** The calls that the run's samples made. */
  function Sampled(codec: Codec, steps: seq<Step>): multiset<Call> {
    if steps == [] then multiset{}
    else
      var front := steps[..|steps| - 1];
      Sampled(codec, front) + SampledBy(Run(codec, front), steps[|steps| - 1])
  }

  /** The calls that are pending, and those that took the lock. */
  function AllCalls(s: System): multiset<Call> {
    s.pending + multiset(CallsOf(s.sections))
  }

  lemma StepConserves(codec: Codec, s: System, step: Step)
    requires Inv(codec, s)
    ensures AllCalls(Next(codec, s, step)) == AllCalls(s) + SampledBy(s, step)
  {
    if step.Sample? {
      SampleConserves(codec, s, step.entry);
    } else if step.Write? && step.call in s.pending {
      WriteConserves(codec, s, step.call, step.opens);
    } else {
      QuietConserves(codec, s, step);
    }
  }

  lemma QuietConserves(codec: Codec, s: System, step: Step)
    requires step.Write? ==> step.call !in s.pending
    requires !step.Sample?
    ensures AllCalls(Next(codec, s, step)) == AllCalls(s)
  {
    CallsOfSnoc(s.sections, Closed);
  }

  lemma SampleConserves(codec: Codec, s: System, e: Entry)
    ensures AllCalls(Next(codec, s, Sample(e))) == AllCalls(s) + SampledBy(s, Sample(e))
  {
  }

  lemma WriteConserves(codec: Codec, s: System, c: Call, opens: bool)
    requires Inv(codec, s) && c in s.pending
    ensures AllCalls(Next(codec, s, Write(c, opens))) == AllCalls(s)
  {
    WriteTakesLock(codec, s, c, opens);
    MovedCall(s.pending, CallsOf(s.sections), c);
  }

  lemma MovedCall(pending: multiset<Call>, taken: seq<Call>, c: Call)
    requires c in pending
    ensures (pending - multiset{c}) + multiset(taken + [c]) == pending + multiset(taken)
  {
  }

  /** In every run, each call that sampled a day is pending, or took the lock once. */
  lemma {:induction false} CallsConserved(codec: Codec, steps: seq<Step>)
    ensures AllCalls(Run(codec, steps)) == Sampled(codec, steps)
  {
    if steps != [] {
      var front := steps[..|steps| - 1];
      CallsConserved(codec, front);
      RunKeeps(codec, front);
      StepConserves(codec, Run(codec, front), steps[|steps| - 1]);
    }
  }

  lemma CallsOfSnoc(ss: seq<Section>, s: Section)
    ensures CallsOf(ss + [s]) == CallsOf(ss) + if s.Locked? then [s.call] else []
  {
    assert (ss + [s])[..|ss|] == ss;
  }

  /** A pending call that gets the lock leaves a section with its line and its day. */
  lemma WriteTakesLock(codec: Codec, s: System, c: Call, opens: bool)
    requires Inv(codec, s) && c in s.pending
    ensures var s' := Next(codec, s, Write(c, opens));
            && s'.pending == s.pending - multiset{c} && CallsOf(s'.sections) == CallsOf(s.sections) + [c]
            && s'.sections == s.sections + [Locked(c, codec.encode(c.entry) + ['\n'], DayName(c.day), opens)]
  {
    assert GoodCall(c);
    CallsOfSnoc(s.sections, Locking(codec, c, opens));
  }

  /** A call that lands appends its line to the file of its own day, and to no other. */
  lemma LineAppended(codec: Codec, s: System, c: Call, opens: bool)
    requires Faithful(codec) && Inv(codec, s) && c in s.pending && Lands(s.logger, DayName(c.day), opens)
    ensures var s', name := Next(codec, s, Write(c, opens)), DayName(c.day) + ".jsonl";
            && name in s'.logger.disk
            && s'.logger.disk[name]
               == (if name in s.logger.disk then s.logger.disk[name] else "") + (codec.encode(c.entry) + ['\n'])
            && forall other :: other != name ==>
                 (other in s'.logger.disk <==> other in s.logger.disk)
                 && (other in s.logger.disk ==> s'.logger.disk[other] == s.logger.disk[other])
  {
    DiskOfLandings(codec, s.sections);
    var data := codec.encode(c.entry) + ['\n'];
    WritesExactly(s.logger, data, DayName(c.day), opens);
  }

  /** For instance, the file of 5 March 2024. */
  lemma MarchFile(n: nat)
    requires n == 739315
    ensures Named(n) && FileName(DayName(n)) == "2024-03-05.jsonl"
  {
    March2024(n);
    NameOfMarch(DayName(n));
  }

  lemma NameOfMarch(day: string)
    requires day == "2024-03-05"
    ensures FileName(day) == "2024-03-05.jsonl"
  {
  }

  // ---- the day prefilter ----

  /** A directory listing: each file once, with its content. */
  ghost predicate Lists(listing: seq<(string, string)>, disk: map<string, string>) {
    && (forall i :: 0 <= i < |listing| ==> listing[i].0 in disk && disk[listing[i].0] == listing[i].1)
    && (forall i, j :: 0 <= i < j < |listing| ==> listing[i].0 != listing[j].0)
    && (forall name :: name in disk ==> exists i :: 0 <= i < |listing| && listing[i].0 == name)
  }

  /** A file by its name and content. */
  ghost predicate FileOf(codec: Codec, file: (string, string), cs: seq<Call>, day: nat) {
    Named(day) && file == (FileName(DayName(day)), Encoded(codec, OnDay(cs, day)))
  }

  /** Every file of the listing holds the entries of one day, all started on that day or before. */
  ghost predicate DayFiles(codec: Codec, listing: seq<(string, string)>, cs: seq<Call>) {
    forall i :: 0 <= i < |listing| ==> HoldsDay(codec, listing[i], cs)
  }

  ghost predicate HoldsDay(codec: Codec, file: (string, string), cs: seq<Call>) {
    exists day: nat :: FileOf(codec, file, cs, day)
  }

  lemma {:induction false} OnDayBounded(cs: seq<Call>, day: nat, since: Instant)
    requires GoodCalls(cs) && day < DayOf(since)
    ensures Since(OnDay(cs, day), since) == []
  {
    if cs != [] {
      var c, es := cs[|cs| - 1], OnDay(cs[..|cs| - 1], day);
      OnDayBounded(cs[..|cs| - 1], day, since);
      if c.day == day {
        EarlierDay(c.entry.ts, since);
        assert (es + [c.entry])[..|es|] == es;
      } else {
        assert OnDay(cs, day) == es;
      }
    }
  }

  lemma DayMonotone(a: Instant, b: Instant)
    requires a <= b
    ensures DayOf(a) <= DayOf(b)
  {
  }

  lemma EarlierDay(a: Instant, b: Instant)
    requires DayOf(a) < DayOf(b)
    ensures a < b
  {
  }

  /** A file whose day is before that of `since` has nothing to give. */
  lemma SkippedIsEmpty(codec: Codec, file: (string, string), cs: seq<Call>, local: nat, since: Instant)
    requires Faithful(codec) && HoldsDay(codec, file, cs) && GoodCalls(cs)
    requires Named(local) && local <= DayOf(since) && Skipped(file.0, DayName(local))
    ensures ReadFile(codec, file.1, since) == []
  {
    var day: nat :| FileOf(codec, file, cs, day);
    assert file.0[..10] == DayName(day);
    DayNameOrder(day, local);
    ReadInvertsWrite(codec, OnDay(cs, day), since);
    OnDayBounded(cs, day, since);
  }

  /** The same reading without the file-name test. */
  function ReadEvery(codec: Codec, listing: seq<(string, string)>, since: Instant): seq<Entry> {
    if listing == [] then [] else ReadFile(codec, listing[0].1, since) + ReadEvery(codec, listing[1..], since)
  }

  lemma {:induction false} PrefilterInvisible(
      codec: Codec, listing: seq<(string, string)>, cs: seq<Call>, local: nat, since: Instant)
    requires Faithful(codec) && DayFiles(codec, listing, cs) && GoodCalls(cs)
    requires Named(local) && local <= DayOf(since)
    ensures ReadAll(codec, listing, DayName(local), since) == ReadEvery(codec, listing, since)
  {
    if listing != [] {
      assert HoldsDay(codec, listing[0], cs);
      assert forall i :: 0 <= i < |listing[1..]| ==> listing[1..][i] == listing[i + 1];
      PrefilterInvisible(codec, listing[1..], cs, local, since);
      if Skipped(listing[0].0, DayName(local)) {
        SkippedIsEmpty(codec, listing[0], cs, local, since);
      }
    }
  }

  lemma ListsDayFiles(codec: Codec, cs: seq<Call>, listing: seq<(string, string)>)
    requires GoodCalls(cs) && Lists(listing, DiskOf(codec, cs))
    ensures DayFiles(codec, listing, cs)
  {
    forall i | 0 <= i < |listing| ensures HoldsDay(codec, listing[i], cs) {
      var k := DiskNames(codec, cs, listing[i].0);
      DiskExact(codec, cs, cs[k].day);
      OnDayHas(cs, k);
      assert FileOf(codec, listing[i], cs, cs[k].day);
    }
  }

  // ---- nothing lost, nothing twice ----

  /** All entries written, in the order of the lock. */
  function Written(cs: seq<Call>): seq<Entry> {
    if cs == [] then [] else Written(cs[..|cs| - 1]) + [cs[|cs| - 1].entry]
  }

  /** The entries of several days, day by day. */
  function OnDays(cs: seq<Call>, days: seq<nat>): seq<Entry> {
    if days == [] then [] else OnDay(cs, days[0]) + OnDays(cs, days[1..])
  }

  ghost predicate Distinct(days: seq<nat>) {
    forall i, j :: 0 <= i < j < |days| ==> days[i] != days[j]
  }

  /** The files of the listing are those of `days`, in turn. */
  ghost predicate FilesOf(codec: Codec, listing: seq<(string, string)>, cs: seq<Call>, days: seq<nat>) {
    && |days| == |listing|
    && forall i :: 0 <= i < |days| ==> FileOf(codec, listing[i], cs, days[i])
  }

  ghost function DayHeld(codec: Codec, file: (string, string), cs: seq<Call>): (day: nat)
    requires HoldsDay(codec, file, cs)
    ensures FileOf(codec, file, cs, day)
  {
    var day: nat :| FileOf(codec, file, cs, day);
    day
  }

  lemma DaysListed(codec: Codec, listing: seq<(string, string)>, cs: seq<Call>) returns (days: seq<nat>)
    requires DayFiles(codec, listing, cs)
    ensures FilesOf(codec, listing, cs, days)
  {
    days := seq(|listing|, i requires 0 <= i < |listing| => DayHeld(codec, listing[i], cs));
  }

  lemma {:induction false} SinceConcat(a: seq<Entry>, b: seq<Entry>, since: Instant)
    ensures Since(a + b, since) == Since(a, since) + Since(b, since)
  {
    if b == [] {
      assert a + b == a;
    } else {
      assert (a + b)[..|a + b| - 1] == a + b[..|b| - 1];
      SinceConcat(a, b[..|b| - 1], since);
    }
  }

  lemma {:induction false} ReadEveryDay(
      codec: Codec, listing: seq<(string, string)>, cs: seq<Call>, days: seq<nat>, since: Instant)
    requires Faithful(codec) && FilesOf(codec, listing, cs, days)
    ensures ReadEvery(codec, listing, since) == Since(OnDays(cs, days), since)
  {
    if listing != [] {
      ReadInvertsWrite(codec, OnDay(cs, days[0]), since);
      ReadEveryDay(codec, listing[1..], cs, days[1..], since);
      SinceConcat(OnDay(cs, days[0]), OnDays(cs, days[1..]), since);
    }
  }

  lemma {:induction false} OneMoreCall(cs: seq<Call>, c: Call, days: seq<nat>)
    requires Distinct(days)
    ensures multiset(OnDays(cs + [c], days))
            == multiset(OnDays(cs, days)) + if c.day in days then multiset{c.entry} else multiset{}
  {
    if days != [] {
      OneMoreCall(cs, c, days[1..]);
      assert (cs + [c])[..|cs|] == cs;
      assert days == [days[0]] + days[1..];
    }
  }

  /** Days that are all different and cover every call hold each entry exactly once. */
  lemma {:induction false} DaysPartition(cs: seq<Call>, days: seq<nat>)
    requires Distinct(days) && forall i :: 0 <= i < |cs| ==> cs[i].day in days
    ensures multiset(OnDays(cs, days)) == multiset(Written(cs))
  {
    if cs == [] {
      NoCalls(days);
    } else {
      var front, c := cs[..|cs| - 1], cs[|cs| - 1];
      assert cs == front + [c];
      DaysPartition(front, days);
      OneMoreCall(front, c, days);
    }
  }

  lemma {:induction false} NoCalls(days: seq<nat>)
    ensures OnDays([], days) == []
  {
    if days != [] {
      NoCalls(days[1..]);
    }
  }

  lemma {:induction false} SinceCounts(es: seq<Entry>, e: Entry, since: Instant)
    ensures multiset(Since(es, since))[e] == if e.ts >= since then multiset(es)[e] else 0
  {
    if es != [] {
      var n := |es| - 1;
      SinceCounts(es[..n], e, since);
      assert es == es[..n] + [es[n]];
    }
  }

  lemma ListedDaysDiffer(
      codec: Codec, listing: seq<(string, string)>, disk: map<string, string>, cs: seq<Call>, days: seq<nat>)
    requires Lists(listing, disk) && FilesOf(codec, listing, cs, days)
    ensures Distinct(days)
  {
    forall i, j | 0 <= i < j < |days| ensures days[i] != days[j] {
      assert listing[i].0 != listing[j].0;
    }
  }

  lemma ListedDaysCover(codec: Codec, cs: seq<Call>, listing: seq<(string, string)>, days: seq<nat>, i: nat)
    requires GoodCalls(cs) && Lists(listing, DiskOf(codec, cs)) && FilesOf(codec, listing, cs, days)
    requires i < |cs|
    ensures cs[i].day in days
  {
    OnDayHas(cs, i);
    DiskExact(codec, cs, cs[i].day);
    var k :| 0 <= k < |listing| && listing[k].0 == FileName(DayName(cs[i].day));
    FileNameInjective(days[k], cs[i].day);
  }

  /**
   In every interleaving of callers, also across midnight and with opens that fail, and with
   `since` in UTC (or in any zone whose date is not ahead of it): the prefilter is invisible,
   and a read returns each entry exactly as often as a call that carried it landed if its
   time is at or after `since`, and never otherwise. By `LostExactly` the calls that do not
   land are those whose own open failed, or whose day's handle a failed rotation had closed.
   */
  lemma NoEntryLost(codec: Codec, steps: seq<Step>, listing: seq<(string, string)>, local: nat, since: Instant)
    requires Faithful(codec) && Lists(listing, Run(codec, steps).logger.disk)
    requires Named(local) && local <= DayOf(since)
    ensures var written := Written(Landings(Run(codec, steps).sections));
            var result := ReadAll(codec, listing, DayName(local), since);
            && result == ReadEvery(codec, listing, since)
            && forall e :: multiset(result)[e] == if e.ts >= since then multiset(written)[e] else 0
  {
    RunKeeps(codec, steps);
    var ss := Run(codec, steps).sections;
    var cs := Landings(ss);
    DiskOfLandings(codec, ss);
    ListsDayFiles(codec, cs, listing);
    PrefilterInvisible(codec, listing, cs, local, since);
    ReadsWritten(codec, cs, listing, since);
  }

  lemma ReadsWritten(codec: Codec, cs: seq<Call>, listing: seq<(string, string)>, since: Instant)
    requires Faithful(codec) && GoodCalls(cs) && Lists(listing, DiskOf(codec, cs)) && DayFiles(codec, listing, cs)
    ensures forall e :: multiset(ReadEvery(codec, listing, since))[e]
                        == if e.ts >= since then multiset(Written(cs))[e] else 0
  {
    var days := DaysListed(codec, listing, cs);
    ListedDaysDiffer(codec, listing, DiskOf(codec, cs), cs, days);
    forall i | 0 <= i < |cs| ensures cs[i].day in days {
      ListedDaysCover(codec, cs, listing, days, i);
    }
    DaysPartition(cs, days);
    ReadEveryDay(codec, listing, cs, days, since);
    forall e ensures multiset(ReadEvery(codec, listing, since))[e]
                     == if e.ts >= since then multiset(Written(cs))[e] else 0 {
      SinceCounts(OnDays(cs, days), e, since);
    }
  }

  /** While opens succeed, nothing is lost at all: the calls that took the lock are all there. */
  lemma EveryEntryRead(codec: Codec, steps: seq<Step>, listing: seq<(string, string)>, local: nat, since: Instant)
    requires Faithful(codec) && Lists(listing, Run(codec, steps).logger.disk)
    requires Named(local) && local <= DayOf(since)
    requires AllOpen(Run(codec, steps).sections)
    ensures var written := Written(CallsOf(Run(codec, steps).sections));
            var result := ReadAll(codec, listing, DayName(local), since);
            forall e :: multiset(result)[e] == if e.ts >= since then multiset(written)[e] else 0
  {
    NoEntryLost(codec, steps, listing, local, since);
    AllLand(Run(codec, steps).sections);
  }

  lemma {:induction false} OnDayHas(cs: seq<Call>, i: nat)
    requires i < |cs|
    ensures cs[i].entry in OnDay(cs, cs[i].day)
  {
    if i < |cs| - 1 {
      OnDayHas(cs[..|cs| - 1], i);
    }
  }

  /** One entry, logged at the moment it started, and read back. */
  function ReadBackAlone(codec: Codec, e: Entry, local: nat, since: Instant): seq<Entry>
    requires Named(local) && Named(DayOf(e.ts))
  {
    ReadAll(codec, [(FileName(DayName(DayOf(e.ts))), Encoded(codec, [e]))], DayName(local), since)
  }

  /**
   The prefilter formats `since` in its own zone. It loses nothing exactly when that local
   date is not ahead of the UTC date: otherwise an entry at `since` itself is skipped with
   its file.
   */
  lemma ZoneExactly(codec: Codec, local: nat, since: Instant)
    requires Faithful(codec) && Named(local) && Named(DayOf(since))
    ensures (forall e: Entry :: e.ts >= since && Named(DayOf(e.ts)) ==> ReadBackAlone(codec, e, local, since) == [e])
            <==> local <= DayOf(since)
  {
    forall e: Entry | e.ts >= since && Named(DayOf(e.ts))
      ensures ReadBackAlone(codec, e, local, since) == if DayOf(e.ts) < local then [] else [e]
    {
      AloneReads(codec, e, local, since);
    }
    if local <= DayOf(since) {
      forall e: Entry | e.ts >= since && Named(DayOf(e.ts)) ensures ReadBackAlone(codec, e, local, since) == [e] {
        DayMonotone(since, e.ts);
      }
    } else {
      var e := Entry(since, "");
      assert ReadBackAlone(codec, e, local, since) == [];
    }
  }

  lemma AloneReads(codec: Codec, e: Entry, local: nat, since: Instant)
    requires Faithful(codec) && Named(local) && e.ts >= since && Named(DayOf(e.ts))
    ensures ReadBackAlone(codec, e, local, since) == if DayOf(e.ts) < local then [] else [e]
  {
    var name := FileName(DayName(DayOf(e.ts)));
    var listing := [(name, Encoded(codec, [e]))];
    assert name[..10] == DayName(DayOf(e.ts));
    DayNameOrder(DayOf(e.ts), local);
    ReadInvertsWrite(codec, [e], since);
    assert [e][..0] == [];
    assert Since([e], since) == [e];
    assert listing[1..] == [];
    assert ReadAll(codec, listing[1..], DayName(local), since) == [];
  }

  /**
   An open that fails during a rotation leaves the old, closed handle and the old day
   behind: a call that still carries the old day is then lost in silence, even though the
   disk is fine again.
   */
  lemma FailedRotationLosesLateCalls(l: Logger, data: string, late: string, today: string)
    requires l.file.Some? && l.file.value.open && l.day != today
    ensures LogLocked(LogLocked(l, data, today, false), late, l.day, true).disk == l.disk
  {
  }

  /** The same as a history: the third call is stranded, although its open would have succeeded. */
  lemma LateCallStranded(first: Section, rotating: Section, late: Section)
    requires first.Locked? && rotating.Locked? && late.Locked?
    requires first.day == late.day != rotating.day && first.opens && !rotating.opens && late.opens
    ensures var ss := [first, rotating, late]; Stranded(ss, 2) && !Landed(ss, 2)
  {
    var ss := [first, rotating, late];
    assert ss[..0] == [];
    assert Landed(ss, 0);
    assert Holds(ss, 2, 0);
    assert ss[1].Locked? && Rotated(ss, 2, 0);
    LostExactly(ss, 2);
  }
}
