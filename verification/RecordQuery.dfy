/** Reading the record back: pruning generations unread, collecting their records, and selecting. */
module RecordQuery {
  import opened Common
  import opened RecordFiles

  // --- Skipping a generation ---

  /** The time of the first non-blank line, or the EOFError that no handler on this path catches. */
  datatype FirstTime = RaisesEof | At(time: Option<int>)

  function FirstRecordTime(lines: seq<Line>, end: End): FirstTime {
    if lines == [] then (if end == Truncated then RaisesEof else At(None))
    else
      match lines[0]
      case Blank => FirstRecordTime(lines[1..], end)
      case Rec(r) => At(r.ts)
      case _ => At(None)
  }

  datatype Decision = Raises | Skip | Read

  function Before(file: File, since: Option<int>): bool {
    since.Some? && file.mtime.Some? && file.mtime.value < since.value
  }

  function SkipGeneration(file: File, since: Option<int>, until: Option<int>): Decision {
    if Before(file, since) then Skip
    else if until == None then Read
    else
      match FirstRecordTime(file.lines, file.end)
      case RaisesEof => Raises
      case At(first) => if first.Some? && first.value > until.value then Skip else Read
  }

  // --- Reading ---

  /** The records among the lines, in order. */
  function RecordsIn(lines: seq<Line>): seq<Record> {
    if lines == [] then []
    else
      var front := RecordsIn(lines[..|lines| - 1]);
      if lines[|lines| - 1].Rec? then front + [lines[|lines| - 1].record] else front
  }

  function MalformedIn(lines: seq<Line>): nat {
    if lines == [] then 0
    else
      MalformedIn(lines[..|lines| - 1]) +
      if lines[|lines| - 1].Torn? || lines[|lines| - 1].NotTable? then 1 else 0
  }

  datatype Reading = Failed | Readings(records: seq<Record>, malformed: nat, read: seq<string>)

  /** What reading the named generations in order yields. */
  function ReadNames(dir: map<string, File>, names: seq<string>, since: Option<int>, until: Option<int>): Reading
    requires forall n :: n in names ==> n in dir
  {
    if names == [] then Readings([], 0, [])
    else
      var last := names[|names| - 1];
      var front := ReadNames(dir, names[..|names| - 1], since, until);
      if front == Failed then Failed
      else
        match SkipGeneration(dir[last], since, until)
        case Raises => Failed
        case Skip => front
        case Read =>
          Readings(front.records + RecordsIn(dir[last].lines),
                   front.malformed + MalformedIn(dir[last].lines),
                   front.read + [last])
  }

  /** Reads the named files in turn, keeping records and counting what is not one. */
  method ReadRecords(dir: map<string, File>, names: seq<string>, since: Option<int>, until: Option<int>)
    returns (result: Reading)
    requires forall n :: n in names ==> n in dir
    ensures result == ReadNames(dir, names, since, until)
  {
    var records, malformed: nat, read := [], 0, [];
    for i := 0 to |names|
      invariant ReadNames(dir, names[..i], since, until) == Readings(records, malformed, read)
    {
      assert names[..i + 1][..i] == names[..i];
      var file := dir[names[i]];
      var decision := SkipGeneration(file, since, until);
      if decision == Raises {
        FailurePersists(dir, names, i + 1, since, until);
        return Failed;
      }
      if decision == Skip {
        continue;
      }
      read := read + [names[i]];
      ghost var records0, malformed0 := records, malformed;
      for j := 0 to |file.lines|
        invariant records == records0 + RecordsIn(file.lines[..j])
        invariant malformed == malformed0 + MalformedIn(file.lines[..j])
      {
        assert file.lines[..j + 1][..j] == file.lines[..j];
        match file.lines[j]
        case Blank =>
        case Rec(r) => records := records + [r];
        case _ => malformed := malformed + 1;
      }
      assert file.lines[..|file.lines|] == file.lines;
    }
    assert names[..|names|] == names;
    result := Readings(records, malformed, read);
  }

  lemma {:induction false} FailurePersists(
      dir: map<string, File>, names: seq<string>, i: nat, since: Option<int>, until: Option<int>)
    requires forall n :: n in names ==> n in dir
    requires i <= |names| && ReadNames(dir, names[..i], since, until) == Failed
    ensures ReadNames(dir, names, since, until) == Failed
    decreases |names| - i
  {
    if i == |names| {
      assert names[..i] == names;
    } else {
      assert names[..i + 1][..i] == names[..i];
      FailurePersists(dir, names, i + 1, since, until);
    }
  }

  // --- Selecting ---

  datatype StatusWanted = Exact(code: int) | Class(hundreds: int)

  /** A parsed filter set. An empty field selects everything. Matching a host pattern is the shipped matcher's. */
  datatype Filters = Filters(
    decision: set<string>, mode: set<string>, plane: set<string>, reason: set<string>,
    id: set<string>, httpMethod: set<string>, status: seq<StatusWanted>, host: seq<string>,
    since: Option<int>, until: Option<int>)

  predicate Among(value: Option<string>, wanted: set<string>) {
    wanted == {} || (value.Some? && value.value in wanted)
  }

  function Text(value: Option<string>): string {
    if value.Some? then value.value else ""
  }

  predicate Accepts(w: StatusWanted, status: int) {
    match w
    case Exact(code) => status == code
    case Class(hundreds) => status / 100 == hundreds
  }

  predicate MatchesStatus(r: Record, wanted: seq<StatusWanted>) {
    r.status.Some? && exists w :: w in wanted && Accepts(w, r.status.value)
  }

  predicate InWindow(r: Record, f: Filters) {
    (f.since.Some? || f.until.Some?) ==>
      && r.ts.Some?
      && (f.since.Some? ==> f.since.value <= r.ts.value)
      && (f.until.Some? ==> r.ts.value <= f.until.value)
  }

  /** The unseen text functions the reader calls. */
  datatype TextOps = TextOps(lower: string -> string, upper: string -> string, matches: (string, seq<string>) -> bool)

  predicate Matches(r: Record, f: Filters, ops: TextOps) {
    && Among(r.decision, f.decision)
    && Among(r.mode, f.mode)
    && Among(r.plane, f.plane)
    && Among(r.reason, f.reason)
    && (f.id == {} || ops.lower(Text(r.id)) in f.id)
    && (f.httpMethod == {} || ops.upper(Text(r.httpMethod)) in f.httpMethod)
    && (f.status == [] || MatchesStatus(r, f.status))
    && (f.host == [] || (r.host.Some? && ops.matches(r.host.value, f.host)))
    && InWindow(r, f)
  }

  /** The records that pass all filters, in order. */
  function Select(records: seq<Record>, f: Filters, ops: TextOps): seq<Record> {
    if records == [] then []
    else
      var front := Select(records[..|records| - 1], f, ops);
      if Matches(records[|records| - 1], f, ops) then front + [records[|records| - 1]] else front
  }

  /** Passes over a record as soon as one filter rejects it. */
  method SelectRecords(records: seq<Record>, f: Filters, ops: TextOps) returns (out: seq<Record>)
    ensures out == Select(records, f, ops)
    ensures forall r :: r in out <==> r in records && Matches(r, f, ops)
  {
    out := [];
    for i := 0 to |records|
      invariant out == Select(records[..i], f, ops)
      invariant forall r :: r in out <==> r in records[..i] && Matches(r, f, ops)
    {
      assert records[..i + 1][..i] == records[..i];
      if Matches(records[i], f, ops) {
        out := out + [records[i]];
      }
    }
    assert records[..|records|] == records;
  }

  lemma {:induction false} SelectConcat(a: seq<Record>, b: seq<Record>, f: Filters, ops: TextOps)
    ensures Select(a + b, f, ops) == Select(a, f, ops) + Select(b, f, ops)
  {
    if b == [] {
      assert a + b == a;
    } else {
      SelectConcat(a, b[..|b| - 1], f, ops);
      assert (a + b)[..|a + b| - 1] == a + b[..|b| - 1];
    }
  }

  lemma {:induction false} SelectNothing(records: seq<Record>, f: Filters, ops: TextOps)
    requires forall r :: r in records ==> !InWindow(r, f)
    ensures Select(records, f, ops) == []
  {
    if records != [] {
      SelectNothing(records[..|records| - 1], f, ops);
    }
  }

  // --- Pruned reading refines full reading ---

  /** No record is later than the file's mtime, and the first record, if it is the first line, is the earliest. */
  ghost predicate Chronological(file: File) {
    && (forall l :: l in file.lines && l.Rec? && l.record.ts.Some? && file.mtime.Some? ==>
          l.record.ts.value <= file.mtime.value)
    && match FirstRecordTime(file.lines, file.end)
       case At(Some(t)) => forall l :: l in file.lines && l.Rec? && l.record.ts.Some? ==> t <= l.record.ts.value
       case _ => true
  }

  lemma {:induction false} RecordIsLine(lines: seq<Line>, r: Record)
    requires r in RecordsIn(lines)
    ensures Rec(r) in lines
  {
    var last := lines[|lines| - 1];
    if last != Rec(r) {
      RecordIsLine(lines[..|lines| - 1], r);
    }
  }

  lemma SkippedHoldsNothing(file: File, f: Filters, ops: TextOps)
    requires Chronological(file)
    requires SkipGeneration(file, f.since, f.until) == Skip
    ensures Select(RecordsIn(file.lines), f, ops) == []
  {
    forall r | r in RecordsIn(file.lines) ensures !InWindow(r, f) {
      RecordIsLine(file.lines, r);
    }
    SelectNothing(RecordsIn(file.lines), f, ops);
  }

  /** A generation on which the read raises: nothing before the truncation but blank lines, and not skipped by mtime. */
  predicate RaisesOn(file: File, since: Option<int>, until: Option<int>) {
    && until.Some?
    && file.end == Truncated
    && (forall l :: l in file.lines ==> l == Blank)
    && !Before(file, since)
  }

  lemma {:induction false} FirstRaisesExactly(lines: seq<Line>, end: End)
    ensures FirstRecordTime(lines, end) == RaisesEof <==> end == Truncated && forall l :: l in lines ==> l == Blank
  {
    if lines != [] {
      FirstRaisesExactly(lines[1..], end);
      assert forall l :: l in lines <==> l == lines[0] || l in lines[1..];
      assert lines[0] in lines;
    }
  }

  /**
    A read raises exactly when an unpruned generation is truncated before its first record and
    --until is given; otherwise selecting from the pruned read equals selecting from everything.
   */
  lemma {:induction false} PrunedReadingRefinesFull(dir: map<string, File>, names: seq<string>, f: Filters,
      ops: TextOps)
    requires forall n :: n in names ==> n in dir && Chronological(dir[n])
    ensures ReadNames(dir, names, None, None).Readings?
    ensures ReadNames(dir, names, f.since, f.until) == Failed <==>
            exists n :: n in names && RaisesOn(dir[n], f.since, f.until)
    ensures ReadNames(dir, names, f.since, f.until).Readings? ==>
            Select(ReadNames(dir, names, f.since, f.until).records, f, ops) ==
            Select(ReadNames(dir, names, None, None).records, f, ops)
  {
    if names != [] {
      var front, last := names[..|names| - 1], names[|names| - 1];
      var file := dir[last];
      PrunedReadingRefinesFull(dir, front, f, ops);
      FirstRaisesExactly(file.lines, file.end);
      assert forall n :: n in names <==> n in front || n == last;
      var full := ReadNames(dir, front, None, None);
      SelectConcat(full.records, RecordsIn(file.lines), f, ops);
      var pruned := ReadNames(dir, front, f.since, f.until);
      if pruned.Readings? {
        SelectConcat(pruned.records, RecordsIn(file.lines), f, ops);
        if SkipGeneration(file, f.since, f.until) == Skip {
          SkippedHoldsNothing(file, f, ops);
        }
      }
    }
  }
}
