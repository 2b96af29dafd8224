/**
  The data step of a restore: replace data/ under --force, otherwise merge the archive into it.

  The merge copies entry by entry over what is there. Directories are entered, files are
  overwritten, and everything else that is already present is in the way.
 */
module Restore {
  import opened Common
  import opened DataTree

  /** `failed`: an entry could not be written. `through`: an entry was written by way of an old symlink. */
  datatype Merged = Merged(entries: seq<Entry>, failed: bool, through: bool)
  datatype Placed = Placed(node: Node, failed: bool, through: bool)

  function SetEntry(es: seq<Entry>, name: string, n: Node): seq<Entry> {
    if es == [] then [Entry(name, n)]
    else if es[0].name == name then [Entry(name, n)] + es[1..]
    else [es[0]] + SetEntry(es[1..], name, n)
  }

  /** One archived entry copied over what data/ holds under that name. */
  function Place(was: Option<Node>, name: string, n: Node): Placed
    decreases if n.Dir? then n.entries else [], 1
  {
    if was == None then Placed(n, false, false)
    else match n
      case Link(_) => Placed(was.value, true, false)
      case Dir(es) =>
        if was.value.Dir? then
          var m := Merge(was.value.entries, es);
          Placed(Dir(m.entries), m.failed, m.through)
        else Placed(was.value, was.value.File?, was.value.Link?)
      case File(_) =>
        match was.value
        case File(_) => Placed(n, false, false)
        case Link(_) => Placed(was.value, false, true)
        case Dir(es) =>
          // Copying a file onto a directory puts it inside, under its own name.
          var inside := FindEntry(es, name);
          if inside == None || inside.value.File? then Placed(Dir(SetEntry(es, name, n)), false, false)
          else Placed(was.value, inside.value.Dir?, inside.value.Link?)
  }

  /** A copy into an existing tree; an entry that fails does not stop the others. */
  function Merge(was: seq<Entry>, es: seq<Entry>): Merged
    decreases es, 0
  {
    if es == [] then Merged(was, false, false)
    else
      var m, last := Merge(was, es[..|es| - 1]), es[|es| - 1];
      assert es[..0] == [];
      var p := Place(FindEntry(m.entries, last.name), last.name, last.node);
      Merged(SetEntry(m.entries, last.name, p.node), m.failed || p.failed, m.through || p.through)
  }

  // --- What a merge should be ---

  datatype Shape = Nothing | IsFile(content: int) | IsLink(target: string) | IsDir

  function ShapeOf(n: Option<Node>): Shape {
    if n == None then Nothing
    else match n.value
      case File(c) => IsFile(c)
      case Link(t) => IsLink(t)
      case Dir(_) => IsDir
  }

  /** Every path is what the archive says it is, or else what it was. */
  predicate OverlaidAt(now: seq<Entry>, was: seq<Entry>, es: seq<Entry>, rel: Path) {
    ShapeOf(Find(now, rel)) == if Find(es, rel).Some? then ShapeOf(Find(es, rel)) else ShapeOf(Find(was, rel))
  }

  ghost predicate Overlays(now: seq<Entry>, was: seq<Entry>, es: seq<Entry>) {
    forall rel: Path :: OverlaidAt(now, was, es, rel)
  }

  predicate Compatible(was: Node, n: Node) {
    (was.File? && n.File?) || (was.Dir? && n.Dir?)
  }

  /** A path both trees hold, as anything but two files or two directories. */
  predicate ClashAt(was: seq<Entry>, es: seq<Entry>, rel: Path) {
    Find(was, rel).Some? && Find(es, rel).Some? && !Compatible(Find(was, rel).value, Find(es, rel).value)
  }

  ghost predicate Clashes(was: seq<Entry>, es: seq<Entry>) {
    exists rel: Path :: ClashAt(was, es, rel)
  }

  // --- One directory of a merge ---

  lemma {:induction false} FindFirst(es: seq<Entry>, name: string)
    requires es != []
    ensures FindEntry(es, name) == if es[0].name == name then Some(es[0].node) else FindEntry(es[1..], name)
  {
    if |es| > 1 {
      var front := es[..|es| - 1];
      FindFirst(front, name);
      assert front[1..] == es[1..][..|es| - 2];
    }
  }

  lemma {:induction false} FindSet(es: seq<Entry>, name: string, n: Node, other: string)
    ensures FindEntry(SetEntry(es, name, n), other) == if other == name then Some(n) else FindEntry(es, other)
  {
    var now := SetEntry(es, name, n);
    FindFirst(now, other);
    if es != [] {
      FindFirst(es, other);
      if es[0].name != name {
        FindSet(es[1..], name, n, other);
        assert now[1..] == SetEntry(es[1..], name, n);
      } else {
        assert now[1..] == es[1..];
      }
    }
  }

  function PlaceEntry(was: seq<Entry>, es: seq<Entry>, name: string): Placed
    requires FindEntry(es, name).Some?
  {
    Place(FindEntry(was, name), name, FindEntry(es, name).value)
  }

  /** Names are merged independently of each other. */
  lemma {:induction false} MergeEntry(was: seq<Entry>, es: seq<Entry>, name: string)
    requires NamesDistinct(es)
    ensures FindEntry(Merge(was, es).entries, name) ==
            if FindEntry(es, name) == None then FindEntry(was, name) else Some(PlaceEntry(was, es, name).node)
    decreases |es|
  {
    if es != [] {
      var front, last := es[..|es| - 1], es[|es| - 1];
      var m := Merge(was, front);
      MergeEntry(was, front, name);
      MergeEntry(was, front, last.name);
      FindSet(m.entries, last.name, Place(FindEntry(m.entries, last.name), last.name, last.node).node, name);
      FindEntryExactly(front, last.name);
      forall i | 0 <= i < |front| ensures front[i].name != last.name { assert front[i] == es[i]; }
    }
  }

  predicate Clean(was: seq<Entry>, es: seq<Entry>, name: string) {
    FindEntry(es, name).Some? ==> !PlaceEntry(was, es, name).failed && !PlaceEntry(was, es, name).through
  }

  /** A merge reports no trouble exactly when none of its entries does. */
  lemma {:induction false} MergeFlags(was: seq<Entry>, es: seq<Entry>)
    requires NamesDistinct(es)
    ensures !Merge(was, es).failed && !Merge(was, es).through <==> forall name :: Clean(was, es, name)
    decreases |es|
  {
    if es == [] {
      forall name ensures Clean(was, es, name) { assert FindEntry(es, name) == None; }
    } else {
      var front, last := es[..|es| - 1], es[|es| - 1];
      MergeFlags(was, front);
      MergeEntry(was, front, last.name);
      FindEntryExactly(front, last.name);
      forall i | 0 <= i < |front| ensures front[i].name != last.name { assert front[i] == es[i]; }
      forall name | name != last.name ensures Clean(was, es, name) <==> Clean(was, front, name) {
        assert FindEntry(es, name) == FindEntry(front, name);
      }
      assert Clean(was, front, last.name);
      assert FindEntry(es, last.name) == Some(last.node);
      var m, p := Merge(was, front), PlaceEntry(was, es, last.name);
      assert Merge(was, es).failed == (m.failed || p.failed) && Merge(was, es).through == (m.through || p.through);
      if forall name :: Clean(was, es, name) {
        forall name ensures Clean(was, front, name) { assert Clean(was, es, name); }
        assert Clean(was, es, last.name);
      }
      if !m.failed && !m.through && !p.failed && !p.through {
        forall name ensures Clean(was, es, name) { assert Clean(was, front, name); }
      }
    }
  }

  /** A clash at or below one name of both trees. */
  ghost predicate ClashUnder(was: Option<Node>, n: Option<Node>) {
    was.Some? && n.Some? &&
    (!Compatible(was.value, n.value) || (n.value.Dir? && Clashes(was.value.entries, n.value.entries)))
  }

  lemma NameHasClash(was: seq<Entry>, es: seq<Entry>, name: string)
    requires ClashUnder(FindEntry(was, name), FindEntry(es, name))
    ensures Clashes(was, es)
  {
    var o, n := FindEntry(was, name).value, FindEntry(es, name).value;
    if !Compatible(o, n) {
      assert ClashAt(was, es, [name]);
    } else {
      var rel: Path :| ClashAt(o.entries, n.entries, rel);
      assert ([name] + rel)[1..] == rel;
      assert ClashAt(was, es, [name] + rel);
    }
  }

  lemma {:induction false} NoClashOverlaid(was: seq<Entry>, es: seq<Entry>, rel: Path)
    requires WellNamed(es) && !Clashes(was, es)
    ensures OverlaidAt(Merge(was, es).entries, was, es, rel)
    decreases |rel|
  {
    if rel != [] {
      var o, n := FindEntry(was, rel[0]), FindEntry(es, rel[0]);
      MergeEntry(was, es, rel[0]);
      if ClashUnder(o, n) {
        NameHasClash(was, es, rel[0]);
      } else if o.Some? && n.Some? && n.value.Dir? && |rel| > 1 {
        FoundIsWellNamed(es, rel[0]);
        NoClashOverlaid(o.value.entries, n.value.entries, rel[1..]);
      }
    }
  }

  lemma {:induction false} NoClashClean(was: seq<Entry>, es: seq<Entry>)
    requires WellNamed(es) && !Clashes(was, es)
    ensures !Merge(was, es).failed && !Merge(was, es).through
    decreases es
  {
    MergeFlags(was, es);
    forall name ensures Clean(was, es, name) {
      var o, n := FindEntry(was, name), FindEntry(es, name);
      if ClashUnder(o, n) {
        NameHasClash(was, es, name);
      } else if o.Some? && n.Some? && n.value.Dir? {
        FindEntryExactly(es, name);
        var i :| 0 <= i < |es| && es[i].name == name;
        NoClashClean(o.value.entries, es[i].node.entries);
      }
    }
  }

  /** A clash is reported, leads through a symlink, or leaves a path that is not what the archive says. */
  lemma {:induction false} ClashShows(was: seq<Entry>, es: seq<Entry>, rel: Path)
    requires WellNamed(es) && ClashAt(was, es, rel)
    requires !Merge(was, es).failed && !Merge(was, es).through
    ensures !Overlays(Merge(was, es).entries, was, es)
    decreases |rel|
  {
    var name, now := rel[0], Merge(was, es).entries;
    var o, n := FindEntry(was, name).value, FindEntry(es, name).value;
    MergeEntry(was, es, name);
    MergeFlags(was, es);
    assert Clean(was, es, name);
    if |rel| == 1 {
      assert !OverlaidAt(now, was, es, [name]);
    } else {
      FoundIsWellNamed(es, name);
      ClashShows(o.entries, n.entries, rel[1..]);
      var p: Path :| !OverlaidAt(Merge(o.entries, n.entries).entries, o.entries, n.entries, p);
      assert ([name] + p)[1..] == p;
      assert !OverlaidAt(now, was, es, [name] + p);
    }
  }

  /** Merging lays the archive over the old tree exactly when no path is two different kinds of thing. */
  lemma MergeExactly(was: seq<Entry>, es: seq<Entry>)
    requires WellNamed(es)
    ensures var m := Merge(was, es);
            !m.failed && !m.through && Overlays(m.entries, was, es) <==> !Clashes(was, es)
  {
    var m := Merge(was, es);
    if !Clashes(was, es) {
      NoClashClean(was, es);
      forall rel: Path ensures OverlaidAt(m.entries, was, es, rel) {
        NoClashOverlaid(was, es, rel);
      }
    } else if !m.failed && !m.through {
      var rel: Path :| ClashAt(was, es, rel);
      ClashShows(was, es, rel);
    }
  }

  // --- The data step ---

  /**
    Exists: the workload is there and --force is not given. NoData: the archive holds no data/.
    Raised: the copy reported entries it could not write. Followed: it reported none so far as the
    tree goes, but laid an entry over a symlink, and what came of that is the target's business.
   */
  datatype Outcome = Exists | NoData | Refused | Done | Raised | Followed

  /** data/ is itself a mount point, by the mount list or by its parent's device. */
  predicate IsMount(dir: Path, view: View) {
    dir in view.mounts ||
    (dir != [] && dir in view.devs && dir[..|dir| - 1] in view.devs && view.devs[dir] != view.devs[dir[..|dir| - 1]])
  }

  /** The guards in front of the copy; `escapes` is the verdict on the archive's symlinks. */
  predicate Declines(was: Option<seq<Entry>>, escapes: bool, force: bool, dir: Path, rootDev: int, view: View) {
    escapes || (was.Some? && (Refuses(was.value, dir, rootDev, view) || (force && IsMount(dir, view))))
  }

  function CopyOutcome(m: Merged): Outcome {
    if m.failed then Raised else if m.through then Followed else Done
  }

  /** A credential file of an archive. */
  datatype Blob = Blob(name: string, content: string)

  datatype Archive = Archive(config: string, creds: seq<Blob>, data: Option<seq<Entry>>)

  /** Credentials already stored are kept unless --force is given. */
  function RestoredCreds(creds: map<string, string>, files: seq<Blob>, force: bool): map<string, string> {
    if files == [] then creds
    else
      var front, last := RestoredCreds(creds, files[..|files| - 1], force), files[|files| - 1];
      if last.name in front && !force then front else front[last.name := last.content]
  }

  predicate FilesDiffer(files: seq<Blob>) {
    forall i, j :: 0 <= i < j < |files| ==> files[i].name != files[j].name
  }

  /** The restore leaves this credential file's target as it was. */
  predicate Leaves(creds: map<string, string>, file: Blob, force: bool) {
    file.name in creds && (force ==> creds[file.name] == file.content)
  }

  lemma {:induction false} RestoredOne(creds: map<string, string>, files: seq<Blob>, force: bool, n: string)
    requires FilesDiffer(files)
    ensures n in RestoredCreds(creds, files, force) <==>
            n in creds || exists i :: 0 <= i < |files| && files[i].name == n
    ensures (forall i :: 0 <= i < |files| ==> files[i].name != n) && n in creds ==>
            RestoredCreds(creds, files, force)[n] == creds[n]
    ensures forall i :: 0 <= i < |files| && files[i].name == n ==>
              RestoredCreds(creds, files, force)[n] == if n in creds && !force then creds[n] else files[i].content
  {
    if files != [] {
      var front, last := files[..|files| - 1], files[|files| - 1];
      assert forall i :: 0 <= i < |front| ==> front[i] == files[i];
      RestoredOne(creds, front, force, n);
      RestoredOne(creds, front, force, last.name);
      if i :| 0 <= i < |front| && front[i].name == n { assert files[i].name == n; }
    }
  }

  /** The credential store is left as it was exactly when every file is. */
  lemma CredsLeftExactly(creds: map<string, string>, files: seq<Blob>, force: bool)
    requires FilesDiffer(files)
    ensures RestoredCreds(creds, files, force) == creds <==>
            forall i :: 0 <= i < |files| ==> Leaves(creds, files[i], force)
  {
    var now := RestoredCreds(creds, files, force);
    if now == creds {
      forall i | 0 <= i < |files|
          ensures Leaves(creds, files[i], force) { RestoredOne(creds, files, force, files[i].name); }
    }
    if forall i :: 0 <= i < |files| ==> Leaves(creds, files[i], force) {
      forall n ensures (n in now <==> n in creds) && (n in creds ==> now[n] == creds[n]) {
        RestoredOne(creds, files, force, n);
        if i :| 0 <= i < |files| && files[i].name == n { assert Leaves(creds, files[i], force); }
      }
    }
  }

  class Workload {
    var active: bool
    var config: Option<string>
    var creds: map<string, string>
    var tree: Option<seq<Entry>>

    constructor (active: bool, config: Option<string>, creds: map<string, string>, tree: Option<seq<Entry>>)
      ensures this.active == active && this.config == config && this.creds == creds && this.tree == tree
    {
      this.active, this.config, this.creds, this.tree := active, config, creds, tree;
    }

    method RestoreCredentials(files: seq<Blob>, force: bool)
      modifies this`creds
      ensures creds == RestoredCreds(old(creds), files, force)
    {
      for i := 0 to |files|
        invariant creds == RestoredCreds(old(creds), files[..i], force)
      {
        assert files[..i + 1][..i] == files[..i];
        if files[i].name !in creds || force {
          creds := creds[files[i].name := files[i].content];
        }
      }
      assert files[..|files|] == files;
    }

    method RestoreData(archive: Option<seq<Entry>>, escapes: bool, force: bool,
                       dir: Path, rootDev: int, view: View, points: seq<Path>) returns (outcome: Outcome)
      requires forall m :: m in points <==> m in view.mounts
      modifies this`tree
      ensures outcome != Exists && (outcome == NoData <==> archive == None)
      ensures outcome == Refused <==> archive.Some? && Declines(old(tree), escapes, force, dir, rootDev, view)
      ensures outcome in {NoData, Refused} ==> tree == old(tree)
      ensures outcome in {Done, Raised, Followed} && (force || old(tree) == None) ==> outcome == Done && tree == archive
      ensures outcome in {Done, Raised, Followed} && !force && old(tree).Some? ==>
                var m := Merge(old(tree).value, archive.value);
                outcome == CopyOutcome(m) && tree == Some(m.entries)
      ensures outcome in {Done, Raised, Followed} && old(tree).Some? ==>
                !MountUnder(dir, view.mounts) && (force ==> dir !in view.mounts)
    {
      if archive == None {
        return NoData;
      }
      if escapes {
        return Refused;
      }
      if tree.Some? {
        var refused := AssertNoMountsUnder(tree.value, dir, rootDev, view, points);
        if refused || (force && IsMount(dir, view)) {
          return Refused;
        }
        if force {
          tree := None;
        }
      }
      if tree == None {
        tree := archive;
        return Done;
      }
      var m := Merge(tree.value, archive.value);
      tree := Some(m.entries);
      return CopyOutcome(m);
    }

    /**
      A restore from an archive. The guards on data/ come last: by the time they refuse, the
      service has been told to stop and config and credentials are the archive's.
     */
    method Restore(archive: Archive, stopTook: bool, escapes: bool, force: bool,
                   dir: Path, rootDev: int, view: View, points: seq<Path>) returns (outcome: Outcome)
      requires FilesDiffer(archive.creds) && forall m :: m in points <==> m in view.mounts
      modifies this
      ensures outcome == Exists <==> old(config).Some? && !force
      ensures outcome == Exists ==>
              active == old(active) && config == old(config) && creds == old(creds) && tree == old(tree)
      ensures outcome != Exists ==>
                && config == Some(archive.config) && creds == RestoredCreds(old(creds), archive.creds, force)
                && active == (old(active) && !stopTook)
      ensures outcome == NoData <==> outcome != Exists && archive.data == None
      ensures outcome == Refused <==>
                outcome != Exists && archive.data.Some? && Declines(old(tree), escapes, force, dir, rootDev, view)
      ensures outcome in {NoData, Refused} ==> tree == old(tree)
      ensures outcome in {Done, Raised, Followed} && (force || old(tree) == None) ==>
              outcome == Done && tree == archive.data
      ensures outcome in {Done, Raised, Followed} && !force && old(tree).Some? ==>
                var m := Merge(old(tree).value, archive.data.value);
                outcome == CopyOutcome(m) && tree == Some(m.entries)
      // A refusal leaves the workload as it was exactly when there was nothing else to change.
      ensures outcome == Refused ==>
                (active == old(active) && config == old(config) && creds == old(creds) && tree == old(tree) <==>
                 && (old(active) ==> !stopTook) && old(config) == Some(archive.config)
                 && forall i :: 0 <= i < |archive.creds| ==> Leaves(old(creds), archive.creds[i], force))
    {
      if config.Some? && !force {
        return Exists;
      }
      CredsLeftExactly(creds, archive.creds, force);
      active := active && !stopTook;
      config := Some(archive.config);
      RestoreCredentials(archive.creds, force);
      outcome := RestoreData(archive.data, escapes, force, dir, rootDev, view, points);
    }

    /**
      Taking a backup and restoring it with --force on the spot leaves config, credentials and
      data/ as they were, whatever is mounted there: either nothing was skipped, or the guards
      decline. `files` are the stored credentials the backup found referenced.
     */
    method BackupThenForce(files: seq<Blob>, stopTook: bool, escapes: bool, dir: Path, rootDev: int, view: View,
        points: seq<Path>)
      requires config.Some? && tree.Some? && WellNamed(tree.value)
      requires FilesDiffer(files) && forall i :: 0 <= i < |files| ==>
               files[i].name in creds && creds[files[i].name] == files[i].content
      requires forall m :: m in points <==> m in view.mounts
      modifies this
      ensures config == old(config) && creds == old(creds) && tree == old(tree)
    {
      var archive := Archive(config.value, files, Some(Capture(tree.value, dir, rootDev, view)));
      UnrefusedIsWhole(tree.value, dir, rootDev, view);
      CredsLeftExactly(creds, files, true);
      var outcome := Restore(archive, stopTook, escapes, true, dir, rootDev, view, points);
    }
  }

  // --- Restoring what was captured ---

  lemma UnrefusedIsWhole(es: seq<Entry>, dir: Path, rootDev: int, view: View)
    requires WellNamed(es)
    ensures Refuses(es, dir, rootDev, view) <==>
            Capture(es, dir, rootDev, view) != es || exists m :: Unseen(es, dir, view, m)
  {
    RefusesExactly(es, dir, rootDev, view);
    CapturesAllExactly(es, dir, rootDev, view);
  }

  lemma {:induction false} CaptureWellNamed(es: seq<Entry>, dir: Path, rootDev: int, view: View)
    requires WellNamed(es)
    ensures WellNamed(Capture(es, dir, rootDev, view))
    ensures forall e :: e in Capture(es, dir, rootDev, view) ==> exists i :: 0 <= i < |es| && es[i].name == e.name
    decreases es
  {
    if es != [] {
      var front, last := es[..|es| - 1], es[|es| - 1];
      var at := dir + [last.name];
      var kept, all := Capture(front, dir, rootDev, view), Capture(es, dir, rootDev, view);
      forall i | 0 <= i < |front| ensures front[i] == es[i] {}
      CaptureWellNamed(front, dir, rootDev, view);
      if last.node.Dir? { CaptureWellNamed(last.node.entries, at, rootDev, view); }
      forall i | 0 <= i < |kept| ensures kept[i].name != last.name {
        assert kept[i] in kept;
        var j :| 0 <= j < |front| && front[j].name == kept[i].name;
        assert es[j] == front[j];
      }
      assert es[|es| - 1].name == last.name;
      forall i, j | 0 <= i < j < |all| ensures all[i].name != all[j].name {
        assert all[i] == kept[i];
      }
    }
  }

  ghost predicate HoldsLink(es: seq<Entry>) {
    exists rel: Path :: Find(es, rel).Some? && Find(es, rel).value.Link?
  }

  ghost predicate SameShapes(now: seq<Entry>, was: seq<Entry>) {
    forall rel: Path :: ShapeOf(Find(now, rel)) == ShapeOf(Find(was, rel))
  }

  /**
    Merging a backup into the very tree it was taken from changes nothing, and works exactly when it
    holds no symlink.
   */
  lemma MergeOwnBackup(es: seq<Entry>, dir: Path, rootDev: int, view: View)
    requires WellNamed(es)
    ensures var archive := Capture(es, dir, rootDev, view);
            var m := Merge(es, archive);
            !m.failed && !m.through && SameShapes(m.entries, es) <==> !HoldsLink(archive)
  {
    var archive := Capture(es, dir, rootDev, view);
    var m := Merge(es, archive);
    CaptureWellNamed(es, dir, rootDev, view);
    MergeExactly(es, archive);
    forall rel: Path
      ensures ClashAt(es, archive, rel) <==> Find(archive, rel).Some? && Find(archive, rel).value.Link?
      ensures OverlaidAt(m.entries, es, archive, rel) <==> ShapeOf(Find(m.entries, rel)) == ShapeOf(Find(es, rel))
    {
      CapturedExactly(es, dir, rootDev, view, rel);
    }
  }
}
