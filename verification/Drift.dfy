/**
  Comparing the generated run files with the live ones, in both directions.

  The globs and the text normaliser are inputs; which files of one workload a name filter keeps
  is worked out from the file name, as the program does.
 */
module Drift {
  import opened Common

  /** `text` is what reading through the path yields, where it resolves; `link` is set for a symlink. */
  datatype File = File(rel: string, text: string, link: Option<string>, resolves: bool)

  datatype Scan = Scan(glob: string, content: bool, nameFiltered: bool)

  datatype Diff = Diff(rel: string, live: string, gen: string)

  /** `workload` is empty when no filter was given. */
  datatype Env = Env(globs: (string, string) -> bool, norm: string -> string, workload: string)

  // --- Scope ---

  function LastIndex(s: string, c: char): int
    ensures -1 <= LastIndex(s, c) < |s|
    ensures LastIndex(s, c) >= 0 ==> s[LastIndex(s, c)] == c
    ensures forall i :: LastIndex(s, c) < i < |s| ==> s[i] != c
  {
    if s == "" then -1
    else if s[|s| - 1] == c then |s| - 1
    else LastIndex(s[..|s| - 1], c)
  }

  function FileName(rel: string): string { rel[LastIndex(rel, '/') + 1..] }

  /** The file name without its last suffix. */
  function Stem(rel: string): string {
    var name := FileName(rel);
    var dot := LastIndex(name, '.');
    if 0 < dot < |name| - 1 then name[..dot] else name
  }

  const PREFIX := "workload-"

  predicate Names(stem: string, prefix: string, workload: string) {
    stem == prefix + workload || prefix + workload + ['-'] <= stem
  }

  predicate InScope(env: Env, scan: Scan, rel: string) {
    env.workload == "" || !scan.nameFiltered || Names(Stem(rel), PREFIX, env.workload)
  }

  predicate Considered(env: Env, scan: Scan, rel: string) {
    env.globs(scan.glob, rel) && InScope(env, scan, rel)
  }

  // --- What is reported ---

  function Find(fs: seq<File>, rel: string): Option<File> {
    if fs == [] then None
    else if fs[|fs| - 1].rel == rel then Some(fs[|fs| - 1])
    else Find(fs[..|fs| - 1], rel)
  }

  /** The live text a generated file is compared with; a missing file reads as empty. */
  function LiveText(env: Env, live: seq<File>, rel: string): string {
    var f := Find(live, rel);
    if f.Some? && f.value.resolves then env.norm(f.value.text) else ""
  }

  predicate Present(live: seq<File>, rel: string) {
    var f := Find(live, rel);
    f.Some? && (f.value.resolves || f.value.link.Some?)
  }

  function Target(f: File): string { if f.link.Some? then f.link.value else "" }

  function MissingNote(f: File): string { "# missing enablement symlink -> " + Target(f) + "\n" }

  function OrphanNote(f: File): string { "# orphaned enablement symlink -> " + Target(f) + "\n" }

  function Forward(env: Env, scan: Scan, g: File, live: seq<File>): seq<Diff> {
    if !Considered(env, scan, g.rel) then []
    else if scan.content then
      if env.norm(g.text) != LiveText(env, live, g.rel)
      then [Diff(g.rel, LiveText(env, live, g.rel), env.norm(g.text))] else []
    else if !Present(live, g.rel) then [Diff(g.rel, "", MissingNote(g))] else []
  }

  function Rels(env: Env, scan: Scan, gen: seq<File>): set<string> {
    set i | 0 <= i < |gen| && Considered(env, scan, gen[i].rel) :: gen[i].rel
  }

  predicate Orphan(env: Env, scan: Scan, gen: seq<File>, l: File) {
    Considered(env, scan, l.rel) && l.rel !in Rels(env, scan, gen)
  }

  function Backward(env: Env, scan: Scan, gen: seq<File>, l: File): seq<Diff> {
    if !Orphan(env, scan, gen, l) then []
    else if scan.content then [Diff(l.rel, l.text, "")]
    else [Diff(l.rel, OrphanNote(l), "")]
  }

  function ForwardAll(env: Env, scan: Scan, gen: seq<File>, live: seq<File>): seq<Diff> {
    if gen == [] then []
    else ForwardAll(env, scan, gen[..|gen| - 1], live) + Forward(env, scan, gen[|gen| - 1], live)
  }

  function BackwardAll(env: Env, scan: Scan, gen: seq<File>, live: seq<File>): seq<Diff> {
    if live == [] then []
    else BackwardAll(env, scan, gen, live[..|live| - 1]) + Backward(env, scan, gen, live[|live| - 1])
  }

  function ScanDrifts(env: Env, scan: Scan, gen: seq<File>, live: seq<File>): seq<Diff> {
    ForwardAll(env, scan, gen, live) + BackwardAll(env, scan, gen, live)
  }

  function Drifts(env: Env, scans: seq<Scan>, gen: seq<File>, live: seq<File>): seq<Diff> {
    if scans == [] then []
    else Drifts(env, scans[..|scans| - 1], gen, live) + ScanDrifts(env, scans[|scans| - 1], gen, live)
  }

  /** An orphan that cannot be read ends the comparison with an error. */
  predicate Unreadable(env: Env, scan: Scan, gen: seq<File>, live: seq<File>) {
    scan.content && exists i :: 0 <= i < |live| && Orphan(env, scan, gen, live[i]) && !live[i].resolves
  }

  /** Content drift and missing files, and the paths the generator owns. */
  method CompareGenerated(env: Env, scan: Scan, gen: seq<File>, live: seq<File>)
    returns (rels: set<string>, diffs: seq<Diff>)
    ensures rels == Rels(env, scan, gen)
    ensures diffs == ForwardAll(env, scan, gen, live)
  {
    diffs, rels := [], {};
    for i := 0 to |gen|
      invariant rels == Rels(env, scan, gen[..i])
      invariant diffs == ForwardAll(env, scan, gen[..i], live)
    {
      assert gen[..i + 1][..i] == gen[..i];
      RelsSnoc(env, scan, gen[..i + 1]);
      var g := gen[i];
      if Considered(env, scan, g.rel) {
        rels := rels + {g.rel};
        if scan.content {
          var was := LiveText(env, live, g.rel);
          if env.norm(g.text) != was {
            diffs := diffs + [Diff(g.rel, was, env.norm(g.text))];
          }
        } else if !Present(live, g.rel) {
          diffs := diffs + [Diff(g.rel, "", MissingNote(g))];
        }
      }
    }
    assert gen[..|gen|] == gen;
  }

  /** Live files of the scan that nothing generates any more. */
  method SweepOrphans(env: Env, scan: Scan, gen: seq<File>, live: seq<File>,
      rels: set<string>)
    returns (raised: bool, diffs: seq<Diff>)
    requires rels == Rels(env, scan, gen)
    ensures raised <==> Unreadable(env, scan, gen, live)
    ensures !raised ==> diffs == BackwardAll(env, scan, gen, live)
  {
    diffs := [];
    for i := 0 to |live|
      invariant scan.content ==> forall k :: 0 <= k < i && Orphan(env, scan, gen, live[k]) ==> live[k].resolves
      invariant diffs == BackwardAll(env, scan, gen, live[..i])
    {
      assert live[..i + 1][..i] == live[..i];
      var l := live[i];
      if Considered(env, scan, l.rel) && l.rel !in rels {
        if scan.content && !l.resolves {
          return true, diffs;
        }
        diffs := diffs + [Diff(l.rel, if scan.content then l.text else OrphanNote(l), "")];
      }
    }
    assert live[..|live|] == live;
    return false, diffs;
  }

  method CollectDrift(env: Env, scans: seq<Scan>, gen: seq<File>, live: seq<File>)

    returns (raised: bool, diffs: seq<Diff>)
    ensures raised <==> exists i :: 0 <= i < |scans| && Unreadable(env, scans[i], gen, live)
    ensures !raised ==> diffs == Drifts(env, scans, gen, live)
  {
    diffs := [];
    for i := 0 to |scans|
      invariant forall k :: 0 <= k < i ==> !Unreadable(env, scans[k], gen, live)
      invariant diffs == Drifts(env, scans[..i], gen, live)
    {
      assert scans[..i + 1][..i] == scans[..i];
      var rels, forward := CompareGenerated(env, scans[i], gen, live);
      var failed, backward := SweepOrphans(env, scans[i], gen, live, rels);
      if failed {
        return true, diffs;
      }
      diffs := diffs + (forward + backward);
    }
    assert scans[..|scans|] == scans;
    return false, diffs;
  }

  lemma RelsSnoc(env: Env, scan: Scan, gen: seq<File>)
    requires gen != []
    ensures Rels(env, scan, gen) == Rels(env, scan, gen[..|gen| - 1]) +
            if Considered(env, scan, gen[|gen| - 1].rel) then {gen[|gen| - 1].rel} else {}
  {
    var front := gen[..|gen| - 1];
    forall r | r in Rels(env, scan, gen) && r != gen[|gen| - 1].rel ensures r in Rels(env, scan, front) {
      var i :| 0 <= i < |gen| && Considered(env, scan, gen[i].rel) && gen[i].rel == r;
      assert front[i] == gen[i];
    }
    forall r | r in Rels(env, scan, front) ensures r in Rels(env, scan, gen) {
      var i :| 0 <= i < |front| && Considered(env, scan, front[i].rel) && front[i].rel == r;
      assert gen[i] == front[i];
    }
  }

  // --- What drift is ---

  predicate DistinctRels(fs: seq<File>) {
    forall i, j :: 0 <= i < j < |fs| ==> fs[i].rel != fs[j].rel
  }

  /** Both trees agree on one scan: the same paths, and for content the same normalised texts. */
  predicate Agree(env: Env, scan: Scan, gen: seq<File>, live: seq<File>) {
    && (forall i :: 0 <= i < |gen| && Considered(env, scan, gen[i].rel) ==>
          if scan.content then env.norm(gen[i].text) == LiveText(env, live, gen[i].rel) else Present(live, gen[i].rel))
    && (forall i :: 0 <= i < |live| && Considered(env, scan, live[i].rel) ==> live[i].rel in Rels(env, scan, gen))
  }

  lemma {:induction false} ForwardExactly(env: Env, scan: Scan, gen: seq<File>, live: seq<File>, d: Diff)
    ensures d in ForwardAll(env, scan, gen, live) <==>
            exists i :: 0 <= i < |gen| && d in Forward(env, scan, gen[i], live)
  {
    if gen != [] {
      var front := gen[..|gen| - 1];
      ForwardExactly(env, scan, front, live, d);
      if i :| 0 <= i < |front| && d in Forward(env, scan, front[i], live) { assert gen[i] == front[i]; }
      if i :| 0 <= i < |gen| && d in Forward(env, scan, gen[i], live) { assert i < |front| ==> front[i] == gen[i]; }
    }
  }

  lemma {:induction false} BackwardExactly(env: Env, scan: Scan, gen: seq<File>, live: seq<File>, d: Diff)
    ensures d in BackwardAll(env, scan, gen, live) <==>
            exists i :: 0 <= i < |live| && d in Backward(env, scan, gen, live[i])
  {
    if live != [] {
      var front := live[..|live| - 1];
      BackwardExactly(env, scan, gen, front, d);
      if i :| 0 <= i < |front| && d in Backward(env, scan, gen, front[i]) { assert live[i] == front[i]; }
      if i :| 0 <= i < |live| && d in Backward(env, scan, gen, live[i]) { assert i < |front| ==> front[i] == live[i]; }
    }
  }

  predicate ReportedBy(env: Env, scan: Scan, gen: seq<File>, live: seq<File>, d: Diff) {
    (exists i :: 0 <= i < |gen| && d in Forward(env, scan, gen[i], live)) ||
    (exists i :: 0 <= i < |live| && d in Backward(env, scan, gen, live[i]))
  }

  lemma ScanReportedExactly(env: Env, scan: Scan, gen: seq<File>, live: seq<File>, d: Diff)
    ensures d in ScanDrifts(env, scan, gen, live) <==> ReportedBy(env, scan, gen, live, d)
  {
    ForwardExactly(env, scan, gen, live, d);
    BackwardExactly(env, scan, gen, live, d);
  }

  predicate ReportedBySome(env: Env, scans: seq<Scan>, gen: seq<File>, live: seq<File>, d: Diff) {
    exists i :: 0 <= i < |scans| && ReportedBy(env, scans[i], gen, live, d)
  }

  lemma ReportedBySnoc(env: Env, scans: seq<Scan>, scan: Scan, gen: seq<File>, live: seq<File>, d: Diff)
    ensures ReportedBySome(env, scans + [scan], gen, live, d) <==>
            ReportedBySome(env, scans, gen, live, d) || ReportedBy(env, scan, gen, live, d)
  {
    var all := scans + [scan];
    if i :| 0 <= i < |scans| && ReportedBy(env, scans[i], gen, live, d) { assert all[i] == scans[i]; }
    assert all[|scans|] == scan;
  }

  /** A difference is reported exactly when some scan finds it. */
  lemma {:induction false} ReportedExactly(env: Env, scans: seq<Scan>, gen: seq<File>, live: seq<File>, d: Diff)
    ensures d in Drifts(env, scans, gen, live) <==> ReportedBySome(env, scans, gen, live, d)
  {
    if scans != [] {
      var front, scan := scans[..|scans| - 1], scans[|scans| - 1];
      assert scans == front + [scan];
      ReportedExactly(env, front, gen, live, d);
      ScanReportedExactly(env, scan, gen, live, d);
      ReportedBySnoc(env, front, scan, gen, live, d);
    }
  }

  /** Nothing is reported for a scan exactly when the trees agree on it. */
  lemma SilentExactly(env: Env, scan: Scan, gen: seq<File>, live: seq<File>)
    ensures Agree(env, scan, gen, live) <==> forall d :: !ReportedBy(env, scan, gen, live, d)
  {
    if Agree(env, scan, gen, live) {
      forall d ensures !ReportedBy(env, scan, gen, live, d) {}
    } else if i :| 0 <= i < |gen| && Forward(env, scan, gen[i], live) != [] {
      var d := Forward(env, scan, gen[i], live)[0];
      assert ReportedBy(env, scan, gen, live, d);
    } else {
      forall i | 0 <= i < |gen| && Considered(env, scan, gen[i].rel)
        ensures if scan.content then env.norm(gen[i].text) == LiveText(env, live, gen[i].rel)
                else Present(live, gen[i].rel)
      {
        assert Forward(env, scan, gen[i], live) == [];
      }
      var i :| 0 <= i < |live| && Considered(env, scan, live[i].rel) && live[i].rel !in Rels(env, scan, gen);
      var d := Backward(env, scan, gen, live[i])[0];
      assert ReportedBy(env, scan, gen, live, d);
    }
  }

  /** No drift is reported exactly when every scan's trees agree. */
  lemma NoDriftExactly(env: Env, scans: seq<Scan>, gen: seq<File>, live: seq<File>)
    ensures Drifts(env, scans, gen, live) == [] <==> forall i :: 0 <= i < |scans| ==> Agree(env, scans[i], gen, live)
  {
    var ds := Drifts(env, scans, gen, live);
    if ds != [] {
      ReportedExactly(env, scans, gen, live, ds[0]);
      var i :| 0 <= i < |scans| && ReportedBy(env, scans[i], gen, live, ds[0]);
      SilentExactly(env, scans[i], gen, live);
    } else {
      forall i | 0 <= i < |scans| ensures Agree(env, scans[i], gen, live) {
        SilentExactly(env, scans[i], gen, live);
        forall d ensures !ReportedBy(env, scans[i], gen, live, d) { ReportedExactly(env, scans, gen, live, d); }
      }
    }
  }

  /** The in-scope paths of a tree. */
  predicate Holds(env: Env, scan: Scan, fs: seq<File>, rel: string) {
    Considered(env, scan, rel) && Find(fs, rel).Some?
  }

  lemma {:induction false} FindExactly(fs: seq<File>, rel: string)
    ensures Find(fs, rel).Some? <==> exists i :: 0 <= i < |fs| && fs[i].rel == rel
    ensures Find(fs, rel).Some? ==> Find(fs, rel).value in fs && Find(fs, rel).value.rel == rel
    ensures DistinctRels(fs) ==> forall i :: 0 <= i < |fs| && fs[i].rel == rel ==> Find(fs, rel) == Some(fs[i])
  {
    if fs != [] {
      var front := fs[..|fs| - 1];
      FindExactly(front, rel);
      if i :| 0 <= i < |front| && front[i].rel == rel { assert fs[i].rel == rel; }
      if i :| 0 <= i < |fs| && fs[i].rel == rel { assert i < |front| ==> front[i] == fs[i]; }
      forall i | DistinctRels(fs) && 0 <= i < |fs| && fs[i].rel == rel ensures Find(fs, rel) == Some(fs[i]) {
        if i < |front| { assert front[i] == fs[i]; }
      }
    }
  }

  /** One path is the same on both sides; for content, with equal normalised texts. */
  predicate SameAt(env: Env, scan: Scan, gen: seq<File>, live: seq<File>, rel: string) {
    && (Holds(env, scan, gen, rel) <==> Holds(env, scan, live, rel))
    && (scan.content && Holds(env, scan, gen, rel) && Holds(env, scan, live, rel) ==>
          Find(live, rel).value.resolves && env.norm(Find(gen, rel).value.text) == env.norm(Find(live, rel).value.text))
  }

  /** A generated text that is not empty, and live paths that exist at least as links. */
  predicate Plain(env: Env, gen: seq<File>, live: seq<File>) {
    && DistinctRels(gen) && DistinctRels(live)
    && (forall i :: 0 <= i < |gen| ==> env.norm(gen[i].text) != "")
    && (forall i :: 0 <= i < |live| ==> live[i].resolves || live[i].link.Some?)
  }

  lemma AgreeingIsSameAt(env: Env, scan: Scan, gen: seq<File>, live: seq<File>, rel: string)
    requires Plain(env, gen, live) && Agree(env, scan, gen, live)
    ensures SameAt(env, scan, gen, live, rel)
  {
    FindExactly(gen, rel);
    FindExactly(live, rel);
  }

  lemma SameAtIsAgreeing(env: Env, scan: Scan, gen: seq<File>, live: seq<File>)
    requires Plain(env, gen, live) && forall rel :: SameAt(env, scan, gen, live, rel)
    ensures Agree(env, scan, gen, live)
  {
    forall i | 0 <= i < |gen| && Considered(env, scan, gen[i].rel)
      ensures if scan.content then env.norm(gen[i].text) == LiveText(env, live, gen[i].rel)
              else Present(live, gen[i].rel)
    {
      var rel := gen[i].rel;
      FindExactly(gen, rel);
      FindExactly(live, rel);
      assert SameAt(env, scan, gen, live, rel);
    }
    forall i | 0 <= i < |live| && Considered(env, scan, live[i].rel) ensures live[i].rel in Rels(env, scan, gen) {
      var rel := live[i].rel;
      FindExactly(gen, rel);
      FindExactly(live, rel);
      assert SameAt(env, scan, gen, live, rel);
    }
  }

  /** With no empty generated text, silence means the same tree: paths and normalised contents. */
  lemma NoDriftMeansSameTree(env: Env, scans: seq<Scan>, gen: seq<File>, live: seq<File>)
    requires Plain(env, gen, live)
    ensures Drifts(env, scans, gen, live) == [] <==>
            forall i, rel :: 0 <= i < |scans| ==> SameAt(env, scans[i], gen, live, rel)
  {
    NoDriftExactly(env, scans, gen, live);
    if forall i :: 0 <= i < |scans| ==> Agree(env, scans[i], gen, live) {
      forall i, rel | 0 <= i < |scans| ensures SameAt(env, scans[i], gen, live, rel) {
        AgreeingIsSameAt(env, scans[i], gen, live, rel);
      }
    } else {
      var i :| 0 <= i < |scans| && !Agree(env, scans[i], gen, live);
      if forall rel :: SameAt(env, scans[i], gen, live, rel) {
        SameAtIsAgreeing(env, scans[i], gen, live);
      }
    }
  }

  // --- What a name filter keeps ---

  /** A workload name, and what may stand between it and the suffix: no dot and no slash. */
  predicate PlainName(s: string) { '.' !in s && '/' !in s }

  lemma StemOfUnit(base: string, suffix: string, name: string)
    requires base != "" && '/' !in base && suffix != "" && PlainName(suffix) && name == base + ['.'] + suffix
    ensures Stem(name) == base
  {
    assert name[|base|] == '.' && name[|base| + 1..] == suffix && name[..|base|] == base;
    assert forall i :: |base| < i < |name| ==> name[i] == suffix[i - |base| - 1];
    assert '/' !in name;
    assert FileName(name) == name;
  }

  lemma PrefixCancels(p: string, a: string, b: string)
    ensures p + a == p + b <==> a == b
    ensures p + a <= p + b <==> a <= b
  {
    assert (p + a)[|p|..] == a && (p + b)[|p|..] == b;
    if p + a <= p + b {
      assert (p + b)[..|p + a|] == p + a;
      assert (p + b)[|p|..|p| + |a|] == a;
    }
  }

  lemma NamesCancels(prefix: string, owner: string, w: string)
    ensures Names(prefix + owner, prefix, w) <==> owner == w || w + ['-'] <= owner
  {
    PrefixCancels(prefix, w, owner);
    PrefixCancels(prefix, w + ['-'], owner);
    assert prefix + w + ['-'] == prefix + (w + ['-']);
  }

  lemma UnitNames(prefix: string, owner: string, suffix: string, name: string, w: string)
    requires prefix != "" && '/' !in prefix && '/' !in owner && suffix != "" && PlainName(suffix)
    requires name == prefix + owner + ['.'] + suffix
    ensures Names(Stem(name), prefix, w) <==> owner == w || w + ['-'] <= owner
  {
    assert Stem(name) == prefix + owner by {
      StemOfUnit(prefix + owner, suffix, name);
    }
    NamesCancels(prefix, owner, w);
  }

  /** A workload's own unit is kept by its filter, and so is every unit of a longer name after a dash. */
  lemma UnitInScopeExactly(env: Env, scan: Scan, owner: string, suffix: string, name: string)
    requires env.workload != "" && scan.nameFiltered && '/' !in owner && suffix != "" && PlainName(suffix)
    requires name == PREFIX + owner + ['.'] + suffix
    ensures InScope(env, scan, name) <==> owner == env.workload || env.workload + ['-'] <= owner
  {
    assert PREFIX == ['w', 'o', 'r', 'k', 'l', 'o', 'a', 'd', '-'];
    UnitNames(PREFIX, owner, suffix, name, env.workload);
  }

  /** The seccomp profile of a workload is outside its own filter: its file name has two suffixes. */
  lemma SeccompIsOutOfScope(env: Env, scan: Scan, name: string)
    requires env.workload != "" && scan.nameFiltered && PlainName(env.workload)
    requires name == PREFIX + env.workload + ".seccomp.json"
    ensures !InScope(env, scan, name)
  {
    var owner := env.workload + ".seccomp";
    assert name == PREFIX + owner + ['.'] + "json";
    UnitInScopeExactly(env, scan, owner, "json", name);
    assert owner[|env.workload|] == '.' && (env.workload + ['-'])[|env.workload|] == '-';
  }

  lemma ReportedIsConsidered(env: Env, scan: Scan, gen: seq<File>, live: seq<File>, d: Diff)
    requires ReportedBy(env, scan, gen, live, d)
    ensures Considered(env, scan, d.rel)
  {}

  lemma DriftIsConsidered(env: Env, scans: seq<Scan>, gen: seq<File>, live: seq<File>, d: Diff) returns (i: nat)
    requires d in Drifts(env, scans, gen, live)
    ensures i < |scans| && Considered(env, scans[i], d.rel)
  {
    ReportedExactly(env, scans, gen, live, d);
    i :| 0 <= i < |scans| && ReportedBy(env, scans[i], gen, live, d);
    ReportedIsConsidered(env, scans[i], gen, live, d);
  }

  /** So a filtered comparison never reports the seccomp profile of the workload it is about. */
  lemma FilteredSeccompIsSilent(env: Env, scans: seq<Scan>, gen: seq<File>, live: seq<File>, name: string, d: Diff)
    requires env.workload != "" && PlainName(env.workload) && name == PREFIX + env.workload + ".seccomp.json"
    requires forall i :: 0 <= i < |scans| ==> scans[i].nameFiltered || !env.globs(scans[i].glob, name)
    requires d in Drifts(env, scans, gen, live)
    ensures d.rel != name
  {
    var i := DriftIsConsidered(env, scans, gen, live, d);
    if scans[i].nameFiltered {
      SeccompIsOutOfScope(env, scans[i], name);
    }
  }
}
