/** The grouped view from the files up: which connections it flags, after every history and for every `-n`. */
module RecordFlags {
  import opened Common
  import opened RecordFiles
  import opened RecordQuery
  import opened RecordRotation
  import opened RecordReadback
  import opened RecordAnswers
  import opened RecordGroups

  /** An unfiltered read of the files returns the records of the retained tail. */
  lemma ReadIsTheTail(steps: seq<Step>, dir: map<string, File>, base: string, listing: seq<string>)
    requires Shows(dir, base, Run(EMPTY, steps).log) && Lists(listing, dir) && Run(EMPTY, steps).log.partial.None?
    ensures forall n :: n in Ordered(base, listing, base in dir) ==> n in dir
    ensures var h, read := Run(EMPTY, steps), ReadNames(dir, Ordered(base, listing, base in dir), None, None);
            h.dropped <= |h.appended| && read.Readings? && read.records == RecordsIn(h.appended[h.dropped..])
  {
    ReadsTheTailInOrder(steps, dir, base, listing);
    FullReadIsRecords(dir, Ordered(base, listing, base in dir));
  }

  lemma LastLinesIsATail(gone: seq<Record>, kept: seq<Record>, limit: nat)
    ensures var history, shown := gone + kept, LastLines(kept, limit);
            |shown| <= |history| && shown == history[|history| - |shown|..]
  {
  }

  /** What the view shows is a tail of everything ever written. */
  lemma ShownIsATail(appended: seq<Line>, dropped: nat, limit: nat)
    requires dropped <= |appended|
    ensures var history, shown := RecordsIn(appended), LastLines(RecordsIn(appended[dropped..]), limit);
            |shown| <= |history| && shown == history[|history| - |shown|..]
  {
    assert appended == appended[..dropped] + appended[dropped..];
    RecordsConcat(appended[..dropped], appended[dropped..]);
    LastLinesIsATail(RecordsIn(appended[..dropped]), RecordsIn(appended[dropped..]), limit);
  }

  /** A group of the view comes from a key with records. */
  lemma GroupHasKey(shown: seq<Record>, g: Group) returns (key: GroupKey)
    requires g in Grouped(shown)
    ensures HasKey(shown, key) && g == GroupOf(shown, key)
  {
    var a :| 0 <= a < |Grouped(shown)| && Grouped(shown)[a] == g;
    key := KeysIn(shown)[a];
    assert key in KeysIn(shown);
    KeysExactly(shown);
  }

  /** A request of the connection was written before everything the view shows. */
  ghost predicate RequestMissing(history: seq<Record>, shown: seq<Record>, id: string)
    requires |shown| <= |history|
  {
    exists r :: r in ItemsOf(history[..|history| - |shown|], Conn(id)) && r.req.Some?
  }

  /** Flagged exactly when a request is missing; a record that names no connection, by its own ordinal. */
  ghost predicate FlaggedRightly(history: seq<Record>, shown: seq<Record>, g: Group)
    requires |shown| <= |history|
  {
    if g.id.Some? then GroupIsPartial(g.items) <==> RequestMissing(history, shown, g.id.value)
    else |g.items| == 1 && (GroupIsPartial(g.items) <==> g.items[0].req.Some? && g.items[0].req.value != 1)
  }

  lemma LoneFlag(items: seq<Record>)
    requires |items| == 1
    ensures GroupIsPartial(items) <==> items[0].req.Some? && items[0].req.value != 1
  {
    assert items == [items[0]];
  }

  lemma GroupFlaggedRightly(history: seq<Record>, d: nat, g: Group)
    requires d <= |history| && WellFormed(history) && g in Grouped(history[d..])
    ensures FlaggedRightly(history, history[d..], g)
  {
    var shown := history[d..];
    var key := GroupHasKey(shown, g);
    if key.Conn? {
      HasKeyNamed(shown, key);
      PartialExactlyWhenMissing(history, d, key.id);
    } else {
      GroupingIsAPartition(shown);
      LoneFlag(g.items);
    }
  }

  lemma HasKeyNamed(shown: seq<Record>, key: GroupKey)
    requires HasKey(shown, key) && key.Conn?
    ensures key.id != ""
  {
  }

  lemma ViewFlagsRightly(appended: seq<Line>, dropped: nat, limit: nat, g: Group)
    requires dropped <= |appended| && WellFormed(RecordsIn(appended))
    ensures var history, shown := RecordsIn(appended), LastLines(RecordsIn(appended[dropped..]), limit);
            |shown| <= |history| && (g in Grouped(shown) ==> FlaggedRightly(history, shown, g))
  {
    var history, shown := RecordsIn(appended), LastLines(RecordsIn(appended[dropped..]), limit);
    ShownIsATail(appended, dropped, limit);
    if g in Grouped(shown) {
      GroupFlaggedRightly(history, |history| - |shown|, g);
    }
  }

  /**
    After every history of appends, renames, rotations, compressions and drops, in every listing
    order and for every `-n`: the grouped view read back from the files flags a connection exactly
    when one of its requests was written and is not shown.
   */
  lemma FlaggedExactlyInEveryRun(
      steps: seq<Step>, dir: map<string, File>, base: string, listing: seq<string>, limit: nat, g: Group)
    requires Shows(dir, base, Run(EMPTY, steps).log) && Lists(listing, dir) && Run(EMPTY, steps).log.partial.None?
    requires WellFormed(RecordsIn(Run(EMPTY, steps).appended))
    ensures forall n :: n in Ordered(base, listing, base in dir) ==> n in dir
    ensures var read := ReadNames(dir, Ordered(base, listing, base in dir), None, None);
            && read.Readings?
            && var history, shown := RecordsIn(Run(EMPTY, steps).appended), LastLines(read.records, limit);
               && |shown| <= |history|
               && (g in Grouped(shown) ==> FlaggedRightly(history, shown, g))
  {
    ReadIsTheTail(steps, dir, base, listing);
    ViewFlagsRightly(Run(EMPTY, steps).appended, Run(EMPTY, steps).dropped, limit, g);
  }
}
