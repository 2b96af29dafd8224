/**
  Every history of the record: the inspector appends, logrotate renames, compresses and drops,
  and at any moment somebody may read the directory back in any listing order.
 */
module RecordRotation {
  import opened Common
  import opened RecordFiles

  datatype Gen = Gen(lines: seq<Line>, mtime: int, gz: bool)

  /** While a generation is compressed its `.gz` exists beside it, with some lines already readable. */
  datatype Partial = Partial(index: nat, readable: nat)

  /**
    The live file, the rotated ones (`rotated[i]` is generation i + 1, where there is one), and a
    compression in progress. While a rotation renames its way down the numbers there is a gap.
   */
  datatype Log = Log(live: Option<Gen>, rotated: seq<Option<Gen>>, partial: Option<Partial>)

  datatype Step =
    | Append(line: Line, now: int, held: bool)
    | Rename(index: nat)
    | Rotate
    | BeginCompress(index: nat)
    | Flush(readable: nat)
    | EndCompress(now: int)
    | DropOldest

  /** The log, everything ever appended, how much of it has been dropped, the latest record time and the clock. */
  datatype History = History(log: Log, appended: seq<Line>, dropped: nat, high: int, clock: int)

  function Appended(g: Gen, line: Line, now: int): Gen {
    g.(lines := g.lines + [line], mtime := now)
  }

  /** After a rotation the listener may still hold the renamed file open, and the live one does not exist yet. */
  function AppendTo(log: Log, line: Line, now: int, held: bool): Log {
    if log.live.Some? then log.(live := Some(Appended(log.live.value, line, now)))
    else if held && log.rotated != [] && log.rotated[0].Some? then
      log.(rotated := log.rotated[0 := Some(Appended(log.rotated[0].value, line, now))])
    else log.(live := Some(Gen([line], now, false)))
  }

  function Max(a: int, b: int): int {
    if a < b then b else a
  }

  /** A file to compress; generation 1 only once its writer has moved on to a new live file. */
  predicate Compressible(log: Log, i: nat) {
    i < |log.rotated| && log.rotated[i].Some? && !log.rotated[i].value.gz && (i == 0 ==> log.live.Some?)
  }

  /** Generation i + 1 can become i + 2: nothing is there. */
  predicate Movable(log: Log, i: nat) {
    i < |log.rotated| && log.rotated[i].Some? && (i + 1 < |log.rotated| ==> log.rotated[i + 1].None?)
  }

  function Renamed(rotated: seq<Option<Gen>>, i: nat): seq<Option<Gen>>
    requires i < |rotated|
  {
    rotated[..i] + [None, rotated[i]] + if i + 2 <= |rotated| then rotated[i + 2..] else []
  }

  /**
    One step; a step that is not possible changes nothing. A rotation is a number of steps: the
    newest rotated file is compressed, the files are renamed one by one, and then the live one.
   */
  function Next(h: History, s: Step): History {
    var log := h.log;
    match s
    case Append(line, now, held) =>
      h.(log := AppendTo(log, line, now, held),
         appended := h.appended + [line],
         high := if line.Rec? && line.record.ts.Some? then Max(h.high, line.record.ts.value) else h.high,
         clock := now)
    case Rename(i) =>
      if Movable(log, i) && log.live.Some? && log.partial.None?
      then h.(log := log.(rotated := Renamed(log.rotated, i)))
      else h
    case Rotate =>
      if log.live.Some? && log.live.value.lines != [] && log.partial.None?
          && (log.rotated != [] ==> log.rotated[0].None?) then
        h.(log := log.(live := None, rotated := [log.live] + if log.rotated == [] then [] else log.rotated[1..]))
      else h
    case BeginCompress(i) =>
      if Compressible(log, i) && log.partial.None? then h.(log := log.(partial := Some(Partial(i, 0)))) else h
    case Flush(m) =>
      if log.partial.Some? && m <= |LinesAt(log, log.partial.value.index)| then
        h.(log := log.(partial := Some(Partial(log.partial.value.index, m))))
      else h
    case EndCompress(now) =>
      if log.partial.Some? && Compressible(log, log.partial.value.index) then
        var i := log.partial.value.index;
        var g := log.rotated[i].value;
        h.(log := log.(partial := None, rotated := log.rotated[i := Some(g.(gz := true, mtime := Max(g.mtime, now)))]))
      else h
    case DropOldest =>
      if log.rotated != [] && log.partial.None? then
        h.(log := log.(rotated := log.rotated[..|log.rotated| - 1]),
           dropped := h.dropped + |SlotLines(log.rotated[|log.rotated| - 1])|)
      else h
  }

  function Run(h: History, steps: seq<Step>): History
    decreases steps
  {
    if steps == [] then h else Run(Next(h, steps[0]), steps[1..])
  }

  const EMPTY := History(Log(None, [], None), [], 0, 0, 0)

  function SlotLines(slot: Option<Gen>): seq<Line> {
    if slot.Some? then slot.value.lines else []
  }

  function LinesAt(log: Log, i: nat): seq<Line> {
    if i < |log.rotated| then SlotLines(log.rotated[i]) else []
  }

  /** The rotated lines, oldest first. */
  function Older(rotated: seq<Option<Gen>>): seq<Line> {
    if rotated == [] then [] else SlotLines(rotated[|rotated| - 1]) + Older(rotated[..|rotated| - 1])
  }

  function Retained(log: Log): seq<Line> {
    Older(log.rotated) + if log.live.Some? then log.live.value.lines else []
  }

  /** A compression in progress works on a file that is still there uncompressed. */
  ghost predicate PartialFits(log: Log) {
    log.partial.Some? ==>
        Compressible(log, log.partial.value.index)
            && log.partial.value.readable <= |LinesAt(log, log.partial.value.index)|
  }

  ghost predicate Inv(h: History) {
    && h.dropped <= |h.appended|
    && Retained(h.log) == h.appended[h.dropped..]
    && PartialFits(h.log)
    && (h.log.live.Some? ==> !h.log.live.value.gz)
    && (h.log.live.None? && h.log.rotated != [] && h.log.rotated[0].Some? ==> !h.log.rotated[0].value.gz)
  }

  lemma {:induction false} OlderConcat(a: seq<Option<Gen>>, b: seq<Option<Gen>>)
    ensures Older(a + b) == Older(b) + Older(a)
  {
    if b == [] {
      assert a + b == a;
    } else {
      var front, last := b[..|b| - 1], b[|b| - 1];
      OlderConcat(a, front);
      assert (a + b)[..|a + b| - 1] == a + front && (a + b)[|a + b| - 1] == last;
      assert SlotLines(last) + (Older(front) + Older(a)) == (SlotLines(last) + Older(front)) + Older(a);
    }
  }

  lemma OlderOne(slot: Option<Gen>)
    ensures Older([slot]) == SlotLines(slot)
  {
    assert [slot][..0] == [];
  }

  lemma OlderPush(slot: Option<Gen>, rotated: seq<Option<Gen>>)
    ensures Older([slot] + rotated) == Older(rotated) + SlotLines(slot)
  {
    OlderConcat([slot], rotated);
    OlderOne(slot);
  }

  lemma {:induction false} OlderSameLines(a: seq<Option<Gen>>, b: seq<Option<Gen>>)
    requires |a| == |b| && forall i :: 0 <= i < |a| ==> SlotLines(a[i]) == SlotLines(b[i])
    ensures Older(a) == Older(b)
  {
    if a != [] {
      OlderSameLines(a[..|a| - 1], b[..|b| - 1]);
    }
  }

  lemma OlderMiddle(a: seq<Option<Gen>>, m: seq<Option<Gen>>, c: seq<Option<Gen>>)
    ensures Older(a + m + c) == Older(c) + (Older(m) + Older(a))
  {
    OlderConcat(a + m, c);
    OlderConcat(a, m);
  }

  lemma OlderPair(a: Option<Gen>, b: Option<Gen>)
    ensures Older([a, b]) == SlotLines(b) + SlotLines(a)
  {
    assert [a] + [b] == [a, b];
    OlderPush(a, [b]);
    OlderOne(b);
  }

  lemma OlderReplaced(a: seq<Option<Gen>>, m: seq<Option<Gen>>, n: seq<Option<Gen>>, c: seq<Option<Gen>>)
    requires Older(m) == Older(n)
    ensures Older(a + m + c) == Older(a + n + c)
  {
    OlderMiddle(a, m, c);
    OlderMiddle(a, n, c);
  }

  lemma IntoTheGap(a: seq<Option<Gen>>, slot: Option<Gen>, c: seq<Option<Gen>>)
    ensures Older(a + [slot, None] + c) == Older(a + [None, slot] + c)
  {
    OlderPair(None, slot);
    OlderPair(slot, None);
    OlderReplaced(a, [slot, None], [None, slot], c);
  }

  lemma PastTheEnd(a: seq<Option<Gen>>, slot: Option<Gen>)
    ensures Older(a + [slot]) == Older(a + [None, slot])
  {
    OlderPair(None, slot);
    OlderOne(slot);
    OlderConcat(a, [slot]);
    OlderConcat(a, [None, slot]);
  }

  /** Renaming into a gap moves no line past another. */
  lemma RenameKeepsLines(log: Log, i: nat)
    requires Movable(log, i)
    ensures Older(Renamed(log.rotated, i)) == Older(log.rotated)
  {
    var r, slot := log.rotated, log.rotated[i];
    if i + 1 < |r| {
      assert r == r[..i] + [slot, None] + r[i + 2..];
      IntoTheGap(r[..i], slot, r[i + 2..]);
    } else {
      assert r == r[..i] + [slot];
      assert Renamed(r, i) == r[..i] + [None, slot];
      PastTheEnd(r[..i], slot);
    }
  }

  lemma HeldAppend(g: Gen, rest: seq<Option<Gen>>, line: Line, now: int)
    ensures Older([Some(Appended(g, line, now))] + rest) == Older([Some(g)] + rest) + [line]
  {
    OlderPush(Some(g), rest);
    OlderPush(Some(Appended(g, line, now)), rest);
  }

  lemma AppendRetained(log: Log, line: Line, now: int, held: bool)
    ensures Retained(AppendTo(log, line, now, held)) == Retained(log) + [line]
  {
    if log.live.None? && held && log.rotated != [] && log.rotated[0].Some? {
      var g, rest := log.rotated[0].value, log.rotated[1..];
      assert log.rotated == [Some(g)] + rest;
      assert log.rotated[0 := Some(Appended(g, line, now))] == [Some(Appended(g, line, now))] + rest;
      HeldAppend(g, rest, line, now);
    }
  }

  lemma RotateRetained(log: Log)
    requires log.live.Some? && (log.rotated != [] ==> log.rotated[0].None?)
    ensures Older([log.live] + if log.rotated == [] then [] else log.rotated[1..]) == Retained(log)
  {
    var rest := if log.rotated == [] then [] else log.rotated[1..];
    OlderPush(log.live, rest);
    if log.rotated != [] {
      assert log.rotated == [None] + rest;
      OlderPush(None, rest);
    }
  }

  lemma DropRetained(appended: seq<Line>, dropped: nat, gone: seq<Line>, rest: seq<Line>)
    requires dropped <= |appended| && appended[dropped..] == gone + rest
    ensures dropped + |gone| <= |appended| && appended[dropped + |gone|..] == rest
  {
    assert |gone + rest| == |appended| - dropped;
    assert appended[dropped..][|gone|..] == appended[dropped + |gone|..];
    assert (gone + rest)[|gone|..] == rest;
  }

  lemma TailPlus(appended: seq<Line>, dropped: nat, line: Line)
    requires dropped <= |appended|
    ensures (appended + [line])[dropped..] == appended[dropped..] + [line]
  {
  }

  lemma AppendKeepsInv(h: History, line: Line, now: int, held: bool)
    requires Inv(h)
    ensures Inv(Next(h, Append(line, now, held)))
  {
    AppendRetained(h.log, line, now, held);
    TailPlus(h.appended, h.dropped, line);
  }

  lemma RenameKeepsInv(h: History, i: nat)
    requires Inv(h)
    ensures Inv(Next(h, Rename(i)))
  {
    if Movable(h.log, i) {
      RenameKeepsLines(h.log, i);
    }
  }

  lemma RotateKeepsInv(h: History)
    requires Inv(h)
    ensures Inv(Next(h, Rotate))
  {
    if h.log.live.Some? && (h.log.rotated != [] ==> h.log.rotated[0].None?) {
      RotateRetained(h.log);
    }
  }

  lemma CompressKeepsInv(h: History, s: Step)
    requires Inv(h) && (s.BeginCompress? || s.Flush? || s.EndCompress?)
    ensures Inv(Next(h, s))
  {
    var now := Next(h, s).log.rotated;
    if s.EndCompress? {
      OlderSameLines(h.log.rotated, now);
    }
  }

  lemma DropKeepsInv(h: History)
    requires Inv(h)
    ensures Inv(Next(h, DropOldest))
  {
    var log, log' := h.log, Next(h, DropOldest).log;
    if log.rotated != [] && log.partial.None? {
      var gone := SlotLines(log.rotated[|log.rotated| - 1]);
      assert Retained(log) == gone + Retained(log');
      DropRetained(h.appended, h.dropped, gone, Retained(log'));
    }
  }

  lemma StepKeepsInv(h: History, s: Step)
    requires Inv(h)
    ensures Inv(Next(h, s))
  {
    match s
    case Append(line, now, held) => AppendKeepsInv(h, line, now, held);
    case Rename(i) => RenameKeepsInv(h, i);
    case Rotate => RotateKeepsInv(h);
    case DropOldest => DropKeepsInv(h);
    case _ => CompressKeepsInv(h, s);
  }

  lemma {:induction false} RunKeepsInv(h: History, steps: seq<Step>)
    requires Inv(h)
    ensures Inv(Run(h, steps))
    decreases steps
  {
    if steps != [] {
      StepKeepsInv(h, steps[0]);
      RunKeepsInv(Next(h, steps[0]), steps[1..]);
    }
  }
}
