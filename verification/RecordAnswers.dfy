/** Pruned queries over every orderly history answer from the whole retained record. */
module RecordAnswers {
  import opened Common
  import opened Sorting
  import opened RecordFiles
  import opened RecordQuery
  import opened RecordRotation
  import opened RecordReadback

  /** Records are stamped in order, and no later than the moment they are written. */
  predicate OrderlyStep(h: History, s: Step) {
    s.Append? ==>
      && h.clock <= s.now
      && (s.line.Rec? && s.line.record.ts.Some? ==> h.high <= s.line.record.ts.value <= s.now)
  }

  predicate OrderlyRun(h: History, steps: seq<Step>)
    decreases steps
  {
    steps == [] || (OrderlyStep(h, steps[0]) && OrderlyRun(Next(h, steps[0]), steps[1..]))
  }

  predicate Timed(l: Line) {
    l.Rec? && l.record.ts.Some?
  }

  ghost predicate OrderlyLines(lines: seq<Line>, limit: int) {
    && (forall i :: 0 <= i < |lines| && Timed(lines[i]) ==> lines[i].record.ts.value <= limit)
    && forall i, j :: 0 <= i < j < |lines| && Timed(lines[i]) && Timed(lines[j]) ==>
         lines[i].record.ts.value <= lines[j].record.ts.value
  }

  ghost predicate OrderlyGen(g: Gen, high: int) {
    OrderlyLines(g.lines, g.mtime) && OrderlyLines(g.lines, high)
  }

  ghost predicate Orderly(h: History) {
    && h.high <= h.clock
    && (h.log.live.Some? ==> OrderlyGen(h.log.live.value, h.high))
    && forall i :: 0 <= i < |h.log.rotated| && h.log.rotated[i].Some? ==> OrderlyGen(h.log.rotated[i].value, h.high)
  }

  lemma AppendKeepsOrderly(g: Gen, line: Line, now: int, high: int, high': int)
    requires OrderlyGen(g, high) && high <= high' <= now
    requires Timed(line) ==> high <= line.record.ts.value == high'
    ensures OrderlyGen(Appended(g, line, now), high')
  {
  }

  lemma OrderlyAppendKeeps(h: History, s: Step)
    requires Orderly(h) && OrderlyStep(h, s) && s.Append?
    ensures Orderly(Next(h, s))
  {
    var h' := Next(h, s);
    if h.log.live.Some? {
      AppendKeepsOrderly(h.log.live.value, s.line, s.now, h.high, h'.high);
    } else if s.held && h.log.rotated != [] && h.log.rotated[0].Some? {
      AppendKeepsOrderly(h.log.rotated[0].value, s.line, s.now, h.high, h'.high);
    } else {
      AppendKeepsOrderly(Gen([], s.now, false), s.line, s.now, h.high, h'.high);
    }
  }

  lemma OrderlyStepKeeps(h: History, s: Step)
    requires Orderly(h) && OrderlyStep(h, s)
    ensures Orderly(Next(h, s))
  {
    if s.Append? {
      OrderlyAppendKeeps(h, s);
    } else {
      assert Next(h, s).high == h.high;
    }
  }

  lemma {:induction false} OrderlyRunKeeps(h: History, steps: seq<Step>)
    requires Orderly(h) && OrderlyRun(h, steps)
    ensures Orderly(Run(h, steps))
    decreases steps
  {
    if steps != [] {
      OrderlyStepKeeps(h, steps[0]);
      OrderlyRunKeeps(Next(h, steps[0]), steps[1..]);
    }
  }

  lemma {:induction false} FirstIsEarliest(lines: seq<Line>, end: End, limit: int)
    requires OrderlyLines(lines, limit)
    ensures match FirstRecordTime(lines, end)
            case At(Some(t)) => forall l :: l in lines && Timed(l) ==> t <= l.record.ts.value
            case _ => true
  {
    if lines != [] && lines[0] == Blank {
      assert OrderlyLines(lines[1..], limit);
      FirstIsEarliest(lines[1..], end, limit);
      assert forall l :: l in lines <==> l == lines[0] || l in lines[1..];
    }
  }

  lemma OrderlyIsChronological(file: File, g: Gen, high: int)
    requires OrderlyGen(g, high) && Holds(file, g.lines, g.mtime)
    ensures Chronological(file)
  {
    FirstIsEarliest(g.lines, file.end, g.mtime);
  }

  lemma {:induction false} RecordsConcat(a: seq<Line>, b: seq<Line>)
    ensures RecordsIn(a + b) == RecordsIn(a) + RecordsIn(b)
  {
    if b == [] {
      assert a + b == a;
    } else {
      RecordsConcat(a, b[..|b| - 1]);
      assert (a + b)[..|a + b| - 1] == a + b[..|b| - 1];
    }
  }

  lemma {:induction false} FullReadIsRecords(dir: map<string, File>, names: seq<string>)
    requires forall n :: n in names ==> n in dir
    ensures ReadNames(dir, names, None, None).Readings?
    ensures ReadNames(dir, names, None, None).records == RecordsIn(LinesOf(dir, names))
  {
    if names != [] {
      var front, last := names[..|names| - 1], names[|names| - 1];
      FullReadIsRecords(dir, front);
      RecordsConcat(LinesOf(dir, front), dir[last].lines);
    }
  }

  lemma OrderedName(base: string, listing: seq<string>, liveExists: bool, n: string)
    requires n in Ordered(base, listing, liveExists)
    ensures (n == base && liveExists) || (n in listing && Generation(base, n).Some?)
  {
    var c := Candidates(base, listing);
    var s := StableSort(c);
    if !(n == base && liveExists) {
      assert n in Values(s);
      var i :| 0 <= i < |s| && s[i].1 == n;
      assert s[i] in multiset(s);
      assert s[i] in multiset(c);
      CandidateNumber(base, listing, s[i]);
    }
  }

  lemma WholeIsClean(dir: map<string, File>, base: string, log: Log, i: nat)
    requires Shows(dir, base, log) && i < |log.rotated| && log.rotated[i].Some?
    ensures var name, g := NameAt(base, log, i), log.rotated[i].value;
            name in dir && Holds(dir[name], g.lines, g.mtime) && dir[name].end == Clean
  {
  }

  lemma SettledGeneration(dir: map<string, File>, base: string, log: Log, n: string, k: nat)
    requires Shows(dir, base, log) && log.partial.None? && n in dir && Generation(base, n) == Some(k)
    ensures 1 <= k <= |log.rotated| && log.rotated[k - 1].Some?
    ensures Holds(dir[n], log.rotated[k - 1].value.lines, log.rotated[k - 1].value.mtime) && dir[n].end == Clean
  {
    NumberedIsNamed(dir, base, log, k, n);
    WholeIsClean(dir, base, log, k - 1);
  }

  lemma SettledNames(dir: map<string, File>, base: string, h: History, listing: seq<string>, n: string)
    requires Orderly(h) && h.log.partial.None?
    requires Shows(dir, base, h.log) && Lists(listing, dir)
    requires n in Ordered(base, listing, base in dir)
    ensures n in dir && Chronological(dir[n]) && dir[n].end == Clean
  {
    OrderedName(base, listing, base in dir, n);
    if n == base && base in dir {
      OrderlyIsChronological(dir[base], h.log.live.value, h.high);
    } else {
      var k := Generation(base, n).value;
      SettledGeneration(dir, base, h.log, n, k);
      OrderlyIsChronological(dir[n], h.log.rotated[k - 1].value, h.high);
    }
  }

  /**
    In every orderly history with no compression in progress, and for every filter set and
    listing order, the pruned query never fails and selects exactly what selecting from the
    whole retained tail of the appended history would.
   */
  lemma EveryQueryIsExact(
      steps: seq<Step>, dir: map<string, File>, base: string, listing: seq<string>, f: Filters, ops: TextOps)
    requires OrderlyRun(EMPTY, steps) && Run(EMPTY, steps).log.partial.None?
    requires Shows(dir, base, Run(EMPTY, steps).log) && Lists(listing, dir)
    ensures forall n :: n in Ordered(base, listing, base in dir) ==> n in dir
    ensures var h := Run(EMPTY, steps);
            var read := ReadNames(dir, Ordered(base, listing, base in dir), f.since, f.until);
            && h.dropped <= |h.appended|
            && read.Readings?
            && Select(read.records, f, ops) == Select(RecordsIn(h.appended[h.dropped..]), f, ops)
  {
    var h := Run(EMPTY, steps);
    var names := Ordered(base, listing, base in dir);
    RunKeepsInv(EMPTY, steps);
    OrderlyRunKeeps(EMPTY, steps);
    ReadsTheTailInOrder(steps, dir, base, listing);
    forall n | n in names ensures n in dir && Chronological(dir[n]) && dir[n].end == Clean {
      SettledNames(dir, base, h, listing, n);
    }
    PrunedReadingRefinesFull(dir, names, f, ops);
    FullReadIsRecords(dir, names);
  }
}
