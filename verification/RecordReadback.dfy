/** What somebody who reads the directory back meets, at any moment and in any listing order. */
module RecordReadback {
  import opened Common
  import opened Sorting
  import opened RecordFiles
  import opened RecordRotation

  /** `file` is the generation on disk: same lines, and an mtime not before its last write (or no stat at all). */
  ghost predicate Holds(file: File, lines: seq<Line>, mtime: int) {
    file.lines == lines && (file.mtime.Some? ==> mtime <= file.mtime.value)
  }

  function NameAt(base: string, log: Log, i: nat): string
    requires i < |log.rotated| && log.rotated[i].Some?
  {
    GenerationName(base, i + 1, log.rotated[i].value.gz)
  }

  /** The half-written `.gz` of generation k. */
  predicate HalfWritten(base: string, log: Log, k: int, name: string) {
    k >= 1 && log.partial.Some? && log.partial.value.index == k - 1 && name == GenerationName(base, k, true)
  }

  predicate Whole(base: string, log: Log, k: int, name: string) {
    1 <= k <= |log.rotated| && log.rotated[k - 1].Some? && name == NameAt(base, log, k - 1)
  }

  /** The directory of the log, possibly with unrelated files whose names are not generations. */
  ghost predicate Shows(dir: map<string, File>, base: string, log: Log) {
    && (base in dir <==> log.live.Some?)
    && (log.live.Some? ==> Holds(dir[base], log.live.value.lines, log.live.value.mtime) && dir[base].end == Clean)
    && (forall i :: 0 <= i < |log.rotated| && log.rotated[i].Some? ==>
          var name, g := NameAt(base, log, i), log.rotated[i].value;
          name in dir && Holds(dir[name], g.lines, g.mtime) && dir[name].end == Clean)
    && (log.partial.Some? && Compressible(log, log.partial.value.index) ==>
          var p := log.partial.value;
          var name, g := GenerationName(base, p.index + 1, true), log.rotated[p.index].value;
          name in dir && p.readable <= |g.lines| && dir[name].end == Truncated
              && Holds(dir[name], g.lines[..p.readable], g.mtime))
    && forall name :: name in dir && Generation(base, name).Some? ==>
         var k := Generation(base, name).value;
         1 <= k <= |log.rotated| && (Whole(base, log, k, name) || HalfWritten(base, log, k, name))
  }

  ghost predicate Lists(listing: seq<string>, dir: map<string, File>) {
    NoDuplicates(listing) && forall n :: n in listing <==> n in dir
  }

  /** The lines a reader meets in the named files, one file after the other. */
  function LinesOf(dir: map<string, File>, names: seq<string>): seq<Line>
    requires forall n :: n in names ==> n in dir
  {
    if names == [] then [] else LinesOf(dir, names[..|names| - 1]) + dir[names[|names| - 1]].lines
  }

  lemma {:induction false} LinesConcat(dir: map<string, File>, a: seq<string>, b: seq<string>)
    requires forall n :: n in a + b ==> n in dir
    ensures forall n :: n in a || n in b ==> n in a + b
    ensures LinesOf(dir, a + b) == LinesOf(dir, a) + LinesOf(dir, b)
  {
    if b == [] {
      assert a + b == a;
    } else {
      var all, front := a + b, b[..|b| - 1];
      assert all[..|all| - 1] == a + front && all[|all| - 1] == b[|b| - 1];
      forall n | n in a + front ensures n in dir { assert n in all; }
      LinesConcat(dir, a, front);
      assert LinesOf(dir, all) == LinesOf(dir, a + front) + dir[b[|b| - 1]].lines;
    }
  }

  /** The items of generation n, then n - 1, down to 1. */
  function ByNumber(s: seq<Keyed<string>>, n: nat): seq<string> {
    if n == 0 then [] else WithKey(s, KeyOf(n)) + ByNumber(s, n - 1)
  }

  ghost predicate Numbered(s: seq<Keyed<string>>, n: nat) {
    && (s != [] ==> n > 0)
    && forall i :: 0 <= i < |s| ==> s[i].0.major == 0 && 0 - n <= s[i].0.minor <= -1
  }

  lemma {:induction false} WithKeyAll(s: seq<Keyed<string>>, k: Key)
    ensures (forall i :: 0 <= i < |s| ==> s[i].0 == k) ==> WithKey(s, k) == Values(s)
    ensures (forall i :: 0 <= i < |s| ==> s[i].0 != k) ==> WithKey(s, k) == []
  {
    if s != [] {
      WithKeyAll(s[..|s| - 1], k);
    }
  }

  ghost predicate AllNumber(s: seq<Keyed<string>>, m: nat) {
    forall i :: 0 <= i < |s| ==> s[i].0 == KeyOf(m)
  }

  lemma NotNumber(s: seq<Keyed<string>>, m: nat, n: nat)
    requires AllNumber(s, m) && n != m
    ensures WithKey(s, KeyOf(n)) == []
  {
    WithKeyAll(s, KeyOf(n));
  }

  lemma {:induction false} ByNumberDrop(a: seq<Keyed<string>>, b: seq<Keyed<string>>, m: nat, n: nat)
    requires AllNumber(a, m) && n < m
    ensures ByNumber(a + b, n) == ByNumber(b, n)
  {
    if n > 0 {
      WithKeyConcat(a, b, KeyOf(n));
      NotNumber(a, m, n);
      ByNumberDrop(a, b, m, n - 1);
    }
  }

  lemma FirstBelow(s: seq<Keyed<string>>, m: int) returns (i: nat)
    requires Ascending(s) && forall j :: 0 <= j < |s| ==> s[j].0.major == 0
    ensures i <= |s|
    ensures forall j :: 0 <= j < i ==> s[j].0.minor <= m
    ensures forall j :: i <= j < |s| ==> s[j].0.minor > m
  {
    i := 0;
    while i < |s| && s[i].0.minor <= m
      invariant i <= |s| && forall j :: 0 <= j < i ==> s[j].0.minor <= m
    {
      i := i + 1;
    }
  }

  lemma ByNumberUnfolds(s: seq<Keyed<string>>, n: nat)
    requires n > 0
    ensures ByNumber(s, n) == WithKey(s, KeyOf(n)) + ByNumber(s, n - 1)
  {
  }

  lemma ValuesConcat(a: seq<Keyed<string>>, b: seq<Keyed<string>>)
    ensures Values(a + b) == Values(a) + Values(b)
  {
  }

  lemma NoneHasKey(b: seq<Keyed<string>>, n: nat)
    requires n > 0 && Numbered(b, n - 1)
    ensures WithKey(b, KeyOf(n)) == []
  {
    WithKeyAll(b, KeyOf(n));
  }

  lemma HeadHasKey(a: seq<Keyed<string>>, b: seq<Keyed<string>>, n: nat)
    requires n > 0 && Numbered(b, n - 1) && AllNumber(a, n)
    ensures WithKey(a + b, KeyOf(n)) == Values(a)
  {
    WithKeyConcat(a, b, KeyOf(n));
    WithKeyAll(a, KeyOf(n));
    NoneHasKey(b, n);
  }

  lemma ByNumberSplits(a: seq<Keyed<string>>, b: seq<Keyed<string>>, n: nat)
    requires n > 0 && Numbered(b, n - 1) && AllNumber(a, n)
    ensures ByNumber(a + b, n) == Values(a) + ByNumber(b, n - 1)
  {
    HeadHasKey(a, b, n);
    ByNumberDrop(a, b, n, n - 1);
    ByNumberUnfolds(a + b, n);
  }

  lemma SplitAtNumber(a: seq<Keyed<string>>, b: seq<Keyed<string>>, n: nat)
    requires n > 0 && Numbered(b, n - 1)
    requires AllNumber(a, n)
    requires Values(b) == ByNumber(b, n - 1)
    ensures Values(a + b) == ByNumber(a + b, n)
  {
    ByNumberSplits(a, b, n);
    ValuesConcat(a, b);
  }

  lemma HeadAndTail(s: seq<Keyed<string>>, i: nat, n: nat)
    requires n > 0 && Ascending(s) && Numbered(s, n) && i <= |s|
    requires forall j :: 0 <= j < i ==> s[j].0.minor <= 0 - n
    requires forall j :: i <= j < |s| ==> s[j].0.minor > 0 - n
    ensures AllNumber(s[..i], n)
    ensures Ascending(s[i..]) && Numbered(s[i..], n - 1)
  {
    var b := s[i..];
    forall j | 0 <= j < |b| ensures b[j].0.major == 0 && 0 - (n - 1) <= b[j].0.minor <= -1 {
      assert b[j] == s[i + j];
    }
    if b != [] {
      assert b[0] == s[i];
    }
    forall j, k | 0 <= j < k < |b| ensures Leq(b[j].0, b[k].0) {
      assert b[j] == s[i + j] && b[k] == s[i + k];
    }
  }

  /** An ascending listing is its generations in descending number. */
  lemma {:induction false} AscendingIsByNumber(s: seq<Keyed<string>>, n: nat)
    requires Ascending(s) && Numbered(s, n)
    ensures Values(s) == ByNumber(s, n)
  {
    if n > 0 {
      var i := FirstBelow(s, 0 - n);
      HeadAndTail(s, i, n);
      AscendingIsByNumber(s[i..], n - 1);
      SplitAtNumber(s[..i], s[i..], n);
      assert s == s[..i] + s[i..];
    }
  }

  lemma {:induction false} ByNumberCongruent(s: seq<Keyed<string>>, t: seq<Keyed<string>>, n: nat)
    requires forall k :: WithKey(s, k) == WithKey(t, k)
    ensures ByNumber(s, n) == ByNumber(t, n)
  {
    if n > 0 {
      ByNumberCongruent(s, t, n - 1);
    }
  }

  lemma SortedIsByNumber(c: seq<Keyed<string>>, n: nat)
    requires Numbered(c, n)
    ensures Values(StableSort(c)) == ByNumber(c, n)
  {
    var s := StableSort(c);
    SortAscending(c);
    forall i | 0 <= i < |s| ensures s[i].0.major == 0 && 0 - n <= s[i].0.minor <= -1 {
      assert s[i] in multiset(s);
      assert s[i] in multiset(c);
    }
    AscendingIsByNumber(s, n);
    forall k ensures WithKey(s, k) == WithKey(c, k) { SortStable(c, k); }
    ByNumberCongruent(s, c, n);
  }

  /** The listed names of one generation, in listing order. */
  function NamesAt(base: string, listing: seq<string>, k: nat): seq<string> {
    if listing == [] then []
    else
      var front := NamesAt(base, listing[..|listing| - 1], k);
      if Generation(base, listing[|listing| - 1]) == Some(k) then front + [listing[|listing| - 1]] else front
  }

  lemma {:induction false} NamesAtMembers(base: string, listing: seq<string>, k: nat)
    requires NoDuplicates(listing)
    ensures NoDuplicates(NamesAt(base, listing, k))
    ensures forall n :: n in NamesAt(base, listing, k) <==> n in listing && Generation(base, n) == Some(k)
  {
    if listing != [] {
      var front, last := listing[..|listing| - 1], listing[|listing| - 1];
      NamesAtMembers(base, front, k);
      assert last !in front;
      assert listing == front + [last];
    }
  }

  lemma {:induction false} WithKeyIsNamesAt(base: string, listing: seq<string>, k: nat)
    ensures WithKey(Candidates(base, listing), KeyOf(k)) == NamesAt(base, listing, k)
  {
    if listing != [] {
      var front, last := listing[..|listing| - 1], listing[|listing| - 1];
      WithKeyIsNamesAt(base, front, k);
      var g := Generation(base, last);
      if g.Some? {
        var x: Keyed<string> := (KeyOf(g.value), last);
        WithKeyConcat(Candidates(base, front), [x], KeyOf(k));
        assert [x][..0] == [];
        assert WithKey([x], KeyOf(k)) == if g.value == k then [last] else [];
      }
    }
  }

  lemma OneName(names: seq<string>, a: string)
    requires NoDuplicates(names) && forall n :: n in names <==> n == a
    ensures names == [a]
  {
    DistinctCount(names);
    assert (set n | n in names) == {a};
    assert names[0] in names;
  }

  lemma TwoNames(names: seq<string>, a: string, b: string)
    requires a != b && NoDuplicates(names) && forall n :: n in names <==> n == a || n == b
    ensures names == [a, b] || names == [b, a]
  {
    DistinctCount(names);
    assert (set n | n in names) == {a, b};
    assert names[0] in names && names[1] in names && names[0] != names[1];
  }

  /** How many lines of generations 1 to n a half-written `.gz` shows a second time. */
  function Repeated(log: Log, n: nat): nat {
    if log.partial.Some? && log.partial.value.index < n then log.partial.value.readable else 0
  }

  lemma NumberedIsNamed(dir: map<string, File>, base: string, log: Log, k: nat, n: string)
    requires Shows(dir, base, log) && n in dir && Generation(base, n) == Some(k)
    ensures Whole(base, log, k, n) || HalfWritten(base, log, k, n)
  {
  }

  lemma NamedIsNumbered(dir: map<string, File>, base: string, log: Log, k: nat, n: string)
    requires Shows(dir, base, log) && PartialFits(log) && (Whole(base, log, k, n) || HalfWritten(base, log, k, n))
    ensures n in dir && Generation(base, n) == Some(k)
  {
    if Whole(base, log, k, n) {
      WholeIsShown(dir, base, log, k - 1);
      GenerationRoundTrip(base, k, log.rotated[k - 1].value.gz);
    } else {
      HalfIsShown(dir, base, log, k);
      GenerationRoundTrip(base, k, true);
    }
  }

  lemma EmptyOrNamed(names: seq<string>)
    ensures names == [] || exists n :: n in names
  {
    assert names != [] ==> names[0] in names;
  }

  /** The names listed for generation k: those of the whole file and of a half-written one. */
  lemma NamesExactly(dir: map<string, File>, base: string, log: Log, listing: seq<string>, k: nat)
    requires Shows(dir, base, log) && Lists(listing, dir) && 1 <= k <= |log.rotated| && PartialFits(log)
    ensures NoDuplicates(NamesAt(base, listing, k))
    ensures forall n :: n in NamesAt(base, listing, k) <==> Whole(base, log, k, n) || HalfWritten(base, log, k, n)
  {
    NamesAtMembers(base, listing, k);
    forall n ensures n in NamesAt(base, listing, k) <==> Whole(base, log, k, n) || HalfWritten(base, log, k, n) {
      if n in dir && Generation(base, n) == Some(k) { NumberedIsNamed(dir, base, log, k, n); }
      if Whole(base, log, k, n) || HalfWritten(base, log, k, n) { NamedIsNumbered(dir, base, log, k, n); }
    }
  }

  predicate Compressing(log: Log, k: nat) {
    k >= 1 && log.partial.Some? && log.partial.value.index == k - 1
  }

  /** Generation k is one name, two while it is compressed, or none in the gap. */
  ghost predicate NamesFit(base: string, log: Log, names: seq<string>, k: nat)
    requires 1 <= k <= |log.rotated|
  {
    if log.rotated[k - 1].None? then names == []
    else
      var a, b := NameAt(base, log, k - 1), GenerationName(base, k, true);
      if Compressing(log, k) then names == [a, b] || names == [b, a] else names == [a]
  }

  lemma NamesOfNumber(base: string, log: Log, names: seq<string>, k: nat)
    requires 1 <= k <= |log.rotated| && PartialFits(log) && NoDuplicates(names)
    requires forall n :: n in names <==> Whole(base, log, k, n) || HalfWritten(base, log, k, n)
    ensures NamesFit(base, log, names, k)
  {
    if log.rotated[k - 1].None? {
      EmptyOrNamed(names);
    } else if Compressing(log, k) {
      GenerationNamesDiffer(base, k);
      TwoNames(names, NameAt(base, log, k - 1), GenerationName(base, k, true));
    } else {
      OneName(names, NameAt(base, log, k - 1));
    }
  }

  lemma LinesOfOne(dir: map<string, File>, a: string)
    requires a in dir
    ensures LinesOf(dir, [a]) == dir[a].lines
  {
    assert [a][..0] == [];
  }

  lemma LinesOfTwo(dir: map<string, File>, a: string, b: string)
    requires a in dir && b in dir
    ensures LinesOf(dir, [a, b]) == dir[a].lines + dir[b].lines
  {
    assert [a, b][..1] == [a];
    LinesOfOne(dir, a);
  }

  /** The files listed for generation k hold its lines once, and again what a half-written `.gz` repeats. */
  ghost predicate HoldsNumber(dir: map<string, File>, log: Log, names: seq<string>, k: nat)
    requires 1 <= k <= |log.rotated|
  {
    var extra, lines := Repeated(log, k) - Repeated(log, k - 1), SlotLines(log.rotated[k - 1]);
    && (forall n :: n in names ==> n in dir)
    && |LinesOf(dir, names)| == |lines| + extra
    && (extra == 0 ==> LinesOf(dir, names) == lines)
  }

  lemma OneFile(dir: map<string, File>, log: Log, a: string, k: nat)
    requires 1 <= k <= |log.rotated| && !Compressing(log, k)
    requires a in dir && dir[a].lines == SlotLines(log.rotated[k - 1])
    ensures HoldsNumber(dir, log, [a], k)
  {
    LinesOfOne(dir, a);
  }

  lemma TwoFiles(dir: map<string, File>, log: Log, a: string, b: string, k: nat)
    requires 1 <= k <= |log.rotated| && Compressing(log, k)
    requires a in dir && dir[a].lines == SlotLines(log.rotated[k - 1])
    requires b in dir && |dir[b].lines| == log.partial.value.readable
    ensures HoldsNumber(dir, log, [a, b], k) && HoldsNumber(dir, log, [b, a], k)
  {
    LinesOfTwo(dir, a, b);
    LinesOfTwo(dir, b, a);
  }

  lemma WholeIsShown(dir: map<string, File>, base: string, log: Log, i: nat)
    requires Shows(dir, base, log) && i < |log.rotated| && log.rotated[i].Some?
    ensures NameAt(base, log, i) in dir && dir[NameAt(base, log, i)].lines == SlotLines(log.rotated[i])
  {
  }

  lemma HalfIsShown(dir: map<string, File>, base: string, log: Log, k: nat)
    requires Shows(dir, base, log) && PartialFits(log) && Compressing(log, k)
    ensures GenerationName(base, k, true) in dir
            && |dir[GenerationName(base, k, true)].lines| == log.partial.value.readable
  {
  }

  lemma FitHoldsNumber(dir: map<string, File>, base: string, log: Log, names: seq<string>, k: nat)
    requires Shows(dir, base, log) && 1 <= k <= |log.rotated| && PartialFits(log) && NamesFit(base, log, names, k)
    ensures HoldsNumber(dir, log, names, k)
  {
    if log.rotated[k - 1].Some? {
      WholeIsShown(dir, base, log, k - 1);
      if Compressing(log, k) {
        HalfIsShown(dir, base, log, k);
        TwoFiles(dir, log, NameAt(base, log, k - 1), GenerationName(base, k, true), k);
      } else {
        OneFile(dir, log, NameAt(base, log, k - 1), k);
      }
    }
  }

  lemma NumberLines(dir: map<string, File>, base: string, log: Log, listing: seq<string>, k: nat)
    requires Shows(dir, base, log) && Lists(listing, dir) && 1 <= k <= |log.rotated| && PartialFits(log)
    ensures HoldsNumber(dir, log, WithKey(Candidates(base, listing), KeyOf(k)), k)
  {
    WithKeyIsNamesAt(base, listing, k);
    NamesExactly(dir, base, log, listing, k);
    NamesOfNumber(base, log, NamesAt(base, listing, k), k);
    FitHoldsNumber(dir, base, log, NamesAt(base, listing, k), k);
  }

  /** The names hold the lines of generations 1 to n, and what a half-written `.gz` among them repeats. */
  ghost predicate HoldsUpTo(dir: map<string, File>, log: Log, names: seq<string>, n: nat)
    requires n <= |log.rotated|
  {
    && (forall x :: x in names ==> x in dir)
    && |LinesOf(dir, names)| == |Older(log.rotated[..n])| + Repeated(log, n)
    && (Repeated(log, n) == 0 ==> LinesOf(dir, names) == Older(log.rotated[..n]))
  }

  lemma OneMoreNumber(dir: map<string, File>, log: Log, names: seq<string>, rest: seq<string>, n: nat)
    requires 1 <= n <= |log.rotated| && HoldsNumber(dir, log, names, n) && HoldsUpTo(dir, log, rest, n - 1)
    ensures HoldsUpTo(dir, log, names + rest, n)
  {
    LinesConcat(dir, names, rest);
    var now := log.rotated[..n];
    assert now[..n - 1] == log.rotated[..n - 1] && now[n - 1] == log.rotated[n - 1];
    assert Older(now) == SlotLines(log.rotated[n - 1]) + Older(log.rotated[..n - 1]);
  }

  ghost predicate EachHolds(dir: map<string, File>, log: Log, c: seq<Keyed<string>>, n: nat)
    requires n <= |log.rotated|
  {
    forall k :: 1 <= k <= n ==> HoldsNumber(dir, log, WithKey(c, KeyOf(k)), k)
  }

  lemma LastHolds(dir: map<string, File>, log: Log, c: seq<Keyed<string>>, n: nat)
    requires 1 <= n <= |log.rotated| && EachHolds(dir, log, c, n)
    ensures EachHolds(dir, log, c, n - 1) && HoldsNumber(dir, log, WithKey(c, KeyOf(n)), n)
  {
  }

  lemma {:induction false} NumberedLines(dir: map<string, File>, log: Log, c: seq<Keyed<string>>, n: nat)
    requires n <= |log.rotated| && EachHolds(dir, log, c, n)
    ensures HoldsUpTo(dir, log, ByNumber(c, n), n)
  {
    if n > 0 {
      LastHolds(dir, log, c, n);
      NumberedLines(dir, log, c, n - 1);
      OneMoreNumber(dir, log, WithKey(c, KeyOf(n)), ByNumber(c, n - 1), n);
      ByNumberUnfolds(c, n);
    }
  }

  lemma CandidatesNumbered(dir: map<string, File>, base: string, log: Log, listing: seq<string>)
    requires Shows(dir, base, log) && Lists(listing, dir)
    ensures Numbered(Candidates(base, listing), |log.rotated|)
  {
    var c := Candidates(base, listing);
    forall i | 0 <= i < |c| ensures c[i].0.major == 0 && 0 - |log.rotated| <= c[i].0.minor <= -1 {
      CandidateNumber(base, listing, c[i]);
    }
    if c != [] {
      CandidateNumber(base, listing, c[0]);
    }
  }

  lemma OrderedLines(dir: map<string, File>, base: string, log: Log, listing: seq<string>)
    requires Shows(dir, base, log) && Lists(listing, dir) && PartialFits(log)
    ensures forall n :: n in Ordered(base, listing, base in dir) ==> n in dir
    ensures |LinesOf(dir, Ordered(base, listing, base in dir))| == |Retained(log)| + Repeated(log, |log.rotated|)
    ensures Repeated(log, |log.rotated|) == 0 ==> LinesOf(dir, Ordered(base, listing, base in dir)) == Retained(log)
  {
    var rotated := Values(StableSort(Candidates(base, listing)));
    RotatedLines(dir, base, log, listing);
    if base in dir {
      LinesConcat(dir, rotated, [base]);
      LinesOfOne(dir, base);
    } else {
      assert rotated + [] == rotated;
    }
  }

  lemma RotatedLines(dir: map<string, File>, base: string, log: Log, listing: seq<string>)
    requires Shows(dir, base, log) && Lists(listing, dir) && PartialFits(log)
    ensures HoldsUpTo(dir, log, Values(StableSort(Candidates(base, listing))), |log.rotated|)
    ensures log.rotated[..|log.rotated|] == log.rotated
  {
    var n := |log.rotated|;
    CandidatesNumbered(dir, base, log, listing);
    SortedIsByNumber(Candidates(base, listing), n);
    forall k | 1 <= k <= n ensures HoldsNumber(dir, log, WithKey(Candidates(base, listing), KeyOf(k)), k) {
      NumberLines(dir, base, log, listing, k);
    }
    NumberedLines(dir, log, Candidates(base, listing), n);
  }

  /**
    After every history and for every listing order, the reader meets the retained tail of what
    was appended, in append order and once each, exactly when no half-written `.gz` is readable.
   */
  lemma ReadsTheTailInOrder(steps: seq<Step>, dir: map<string, File>, base: string, listing: seq<string>)
    requires Shows(dir, base, Run(EMPTY, steps).log) && Lists(listing, dir)
    ensures forall n :: n in Ordered(base, listing, base in dir) ==> n in dir
    ensures var h := Run(EMPTY, steps);
            && h.dropped <= |h.appended|
            && (LinesOf(dir, Ordered(base, listing, base in dir)) == h.appended[h.dropped..] <==>
                h.log.partial.None? || h.log.partial.value.readable == 0)
  {
    RunKeepsInv(EMPTY, steps);
    OrderedLines(dir, base, Run(EMPTY, steps).log, listing);
  }
}
