/**
  The precious data/ tree of a workload, and the two walks over it that have to agree: a backup
  skips what is mounted under data/, a restore refuses to start while anything is mounted there.

  Comparing devices alone would miss a directory bind-mounted from the same disk; each walk also
  looks a path up among the machine's mount points.
 */
module DataTree {
  import opened Common

  type Path = seq<string>

  datatype Node =
    | File(content: int)
    | Link(target: string)
    | Dir(entries: seq<Entry>)

  datatype Entry = Entry(name: string, node: Node)

  /** What the host reports: lstat devices, absent where lstat fails, and the mount points. */
  datatype View = View(devs: map<Path, int>, mounts: set<Path>)

  // --- Looking things up ---

  function FindEntry(es: seq<Entry>, name: string): Option<Node> {
    if es == [] then None
    else
      var front := FindEntry(es[..|es| - 1], name);
      if front.Some? then front
      else if es[|es| - 1].name == name then Some(es[|es| - 1].node) else None
  }

  /** The node at a non-empty relative path. */
  function Find(es: seq<Entry>, rel: Path): Option<Node>
    decreases |rel|
  {
    if rel == [] then None
    else
      var n := FindEntry(es, rel[0]);
      if |rel| == 1 || n == None then n
      else if n.value.Dir? then Find(n.value.entries, rel[1..]) else None
  }

  predicate NamesDistinct(es: seq<Entry>) {
    forall i, j :: 0 <= i < j < |es| ==> es[i].name != es[j].name
  }

  /** No directory lists a name twice. */
  predicate WellNamed(es: seq<Entry>)
    decreases es
  {
    NamesDistinct(es) && forall i :: 0 <= i < |es| && es[i].node.Dir? ==> WellNamed(es[i].node.entries)
  }

  lemma {:induction false} FindEntryExactly(es: seq<Entry>, name: string)
    requires NamesDistinct(es)
    ensures FindEntry(es, name).Some? <==> exists i :: 0 <= i < |es| && es[i].name == name
    ensures forall i :: 0 <= i < |es| && es[i].name == name ==> FindEntry(es, name) == Some(es[i].node)
  {
    if es != [] {
      var front, last := es[..|es| - 1], es[|es| - 1];
      FindEntryExactly(front, name);
      if i :| 0 <= i < |front| && front[i].name == name {
        assert es[i].name == name;
      }
      forall i | 0 <= i < |es| && es[i].name == name ensures FindEntry(es, name) == Some(es[i].node) {
        if i < |front| {
          assert front[i] == es[i];
        } else {
          forall j | 0 <= j < |front| ensures front[j].name != name { assert es[j] == front[j]; }
        }
      }
    }
  }

  lemma FoundIsWellNamed(es: seq<Entry>, name: string)
    requires WellNamed(es) && FindEntry(es, name).Some? && FindEntry(es, name).value.Dir?
    ensures WellNamed(FindEntry(es, name).value.entries)
  {
    FindEntryExactly(es, name);
  }

  // --- Capturing ---

  /** Another device than the root's, or a mount point. An entry that cannot be read is no boundary. */
  predicate Boundary(at: Path, rootDev: int, view: View) {
    at in view.devs && (view.devs[at] != rootDev || at in view.mounts)
  }

  /** What a copy with that ignore callback holds. */
  function Capture(es: seq<Entry>, dir: Path, rootDev: int, view: View): seq<Entry>
    decreases es
  {
    if es == [] then []
    else
      var front, last := Capture(es[..|es| - 1], dir, rootDev, view), es[|es| - 1];
      var at := dir + [last.name];
      if Boundary(at, rootDev, view) then front
      else if last.node.Dir? then front + [Entry(last.name, Dir(Capture(last.node.entries, at, rootDev, view)))]
      else front + [last]
  }

  function CaptureNode(n: Node, at: Path, rootDev: int, view: View): Node {
    if n.Dir? then Dir(Capture(n.entries, at, rootDev, view)) else n
  }

  /** The ignore callback of one directory. */
  method Ignore(names: seq<string>, dir: Path, rootDev: int, view: View) returns (skipped: set<string>)
    ensures forall name :: name in skipped <==> name in names && Boundary(dir + [name], rootDev, view)
  {
    skipped := {};
    for i := 0 to |names|
      invariant forall name :: name in skipped <==> name in names[..i] && Boundary(dir + [name], rootDev, view)
    {
      assert names[..i + 1] == names[..i] + [names[i]];
      var at := dir + [names[i]];
      if at !in view.devs {
        continue;
      }
      if view.devs[at] != rootDev || at in view.mounts {
        skipped := skipped + {names[i]};
      }
    }
    assert names[..|names|] == names;
  }

  /** Whether a capture leaves anything out. */
  predicate SkipsAnything(es: seq<Entry>, dir: Path, rootDev: int, view: View)
    decreases es
  {
    exists i :: 0 <= i < |es| &&
      (Boundary(dir + [es[i].name], rootDev, view) ||
       (es[i].node.Dir? && SkipsAnything(es[i].node.entries, dir + [es[i].name], rootDev, view)))
  }

  // --- Refusing ---

  /** Every path below a directory, as a walk that follows no symlink lists them. */
  function Walk(es: seq<Entry>, dir: Path): seq<Path>
    decreases es
  {
    if es == [] then []
    else
      var last := es[|es| - 1];
      var at := dir + [last.name];
      Walk(es[..|es| - 1], dir) + [at] + if last.node.Dir? then Walk(last.node.entries, at) else []
  }

  predicate MountUnder(dir: Path, mounts: set<Path>) {
    exists m :: m in mounts && dir < m
  }

  predicate ForeignIn(paths: seq<Path>, rootDev: int, view: View) {
    exists i :: 0 <= i < |paths| && paths[i] in view.devs && view.devs[paths[i]] != rootDev
  }

  /** The restore guard: a mount point below the directory, or an entry on another device. */
  predicate Refuses(es: seq<Entry>, dir: Path, rootDev: int, view: View) {
    MountUnder(dir, view.mounts) || ForeignIn(Walk(es, dir), rootDev, view)
  }

  /** Raises on the first mount point or foreign entry it meets. */
  method AssertNoMountsUnder(es: seq<Entry>, dir: Path, rootDev: int, view: View,
      points: seq<Path>)
    returns (refused: bool)
    requires forall m :: m in points <==> m in view.mounts
    ensures refused <==> Refuses(es, dir, rootDev, view)
  {
    for i := 0 to |points|
      invariant forall k :: 0 <= k < i ==> !(dir < points[k])
    {
      if dir < points[i] {
        assert points[i] in view.mounts;
        return true;
      }
    }
    var paths := Walk(es, dir);
    for i := 0 to |paths|
      invariant forall k :: 0 <= k < i ==> !(paths[k] in view.devs && view.devs[paths[k]] != rootDev)
    {
      if paths[i] in view.devs && view.devs[paths[i]] != rootDev {
        return true;
      }
    }
    return false;
  }

  lemma {:induction false} WalkExactly(es: seq<Entry>, dir: Path, rel: Path)
    requires WellNamed(es)
    ensures dir + rel in Walk(es, dir) <==> Find(es, rel).Some?
    decreases es
  {
    if es == [] {
      if rel != [] { assert FindEntry(es, rel[0]) == None; }
    } else {
      var front, last := es[..|es| - 1], es[|es| - 1];
      var at := dir + [last.name];
      assert WellNamed(front) by { forall i | 0 <= i < |front| ensures front[i] == es[i] {} }
      WalkExactly(front, dir, rel);
      if rel == [] {
        assert dir + rel == dir;
        WalkIsBelow(es, dir, dir);
      } else if rel[0] == last.name {
        forall i | 0 <= i < |front| ensures front[i].name != last.name { assert front[i] == es[i]; }
        FindEntryExactly(front, last.name);
        assert Find(front, rel) == None;
        assert dir + rel == at + rel[1..];
        assert dir + rel == at <==> |rel| == 1;
        if last.node.Dir? { WalkExactly(last.node.entries, at, rel[1..]); }
      } else {
        assert Find(es, rel) == Find(front, rel);
        assert (dir + rel)[|dir|] != at[|dir|];
        if last.node.Dir? { WalkIsBelow(last.node.entries, at, dir + rel); }
      }
    }
  }

  lemma {:induction false} WalkIsBelow(es: seq<Entry>, dir: Path, p: Path)
    ensures p in Walk(es, dir) ==> dir < p
    decreases es
  {
    if es != [] {
      var last := es[|es| - 1];
      var at := dir + [last.name];
      WalkIsBelow(es[..|es| - 1], dir, p);
      if last.node.Dir? { WalkIsBelow(last.node.entries, at, p); }
    }
  }

  // --- The two walks agree ---

  /** The path or one of its ancestors below the root is a boundary of the tree. */
  predicate Cut(dir: Path, rootDev: int, view: View, rel: Path) {
    exists k :: 1 <= k <= |rel| && Boundary(dir + rel[..k], rootDev, view)
  }

  /** A deeper path is cut at its first component or inside that directory. */
  lemma CutBelow(dir: Path, rootDev: int, view: View, rel: Path)
    requires rel != []
    ensures Cut(dir, rootDev, view, rel) <==>
            Boundary(dir + [rel[0]], rootDev, view) || Cut(dir + [rel[0]], rootDev, view, rel[1..])
  {
    var at, tail := dir + [rel[0]], rel[1..];
    assert dir + rel[..1] == at;
    forall k | 1 <= k <= |tail| ensures dir + rel[..k + 1] == at + tail[..k] {}
    if k :| 1 <= k <= |rel| && Boundary(dir + rel[..k], rootDev, view) {
      if k > 1 {
        assert dir + rel[..k - 1 + 1] == at + tail[..k - 1];
      }
    }
    if k :| 1 <= k <= |tail| && Boundary(at + tail[..k], rootDev, view) {
      assert Boundary(dir + rel[..k + 1], rootDev, view);
    }
  }

  lemma {:induction false} CaptureEntry(es: seq<Entry>, dir: Path, rootDev: int, view: View, name: string)
    ensures FindEntry(Capture(es, dir, rootDev, view), name) ==
            if FindEntry(es, name) == None || Boundary(dir + [name], rootDev, view) then None
            else Some(CaptureNode(FindEntry(es, name).value, dir + [name], rootDev, view))
  {
    if es != [] {
      var front, last := es[..|es| - 1], es[|es| - 1];
      var kept, all := Capture(front, dir, rootDev, view), Capture(es, dir, rootDev, view);
      CaptureEntry(front, dir, rootDev, view, name);
      if !Boundary(dir + [last.name], rootDev, view) {
        assert all[..|all| - 1] == kept;
      }
    }
  }

  lemma CapturedAtTop(es: seq<Entry>, dir: Path, rootDev: int, view: View, name: string)
    ensures Find(Capture(es, dir, rootDev, view), [name]) ==
            if Find(es, [name]) == None || Cut(dir, rootDev, view, [name]) then None
            else Some(CaptureNode(Find(es, [name]).value, dir + [name], rootDev, view))
  {
    CaptureEntry(es, dir, rootDev, view, name);
    CutBelow(dir, rootDev, view, [name]);
    assert !Cut(dir + [name], rootDev, view, [name][1..]);
  }

  /** Captured paths are exactly those with no boundary at or above them, and what they name is unchanged. */
  lemma {:induction false} CapturedExactly(es: seq<Entry>, dir: Path, rootDev: int, view: View, rel: Path)
    ensures Find(Capture(es, dir, rootDev, view), rel) ==
            if Find(es, rel) == None || Cut(dir, rootDev, view, rel) then None
            else Some(CaptureNode(Find(es, rel).value, dir + rel, rootDev, view))
    decreases |rel|
  {
    if |rel| == 1 {
      CapturedAtTop(es, dir, rootDev, view, rel[0]);
      assert rel == [rel[0]];
    } else if rel != [] {
      var n, at := FindEntry(es, rel[0]), dir + [rel[0]];
      CaptureEntry(es, dir, rootDev, view, rel[0]);
      CutBelow(dir, rootDev, view, rel);
      assert dir + rel == at + rel[1..];
      if n.Some? && n.value.Dir? {
        CapturedExactly(n.value.entries, at, rootDev, view, rel[1..]);
      }
    }
  }

  /** Something is skipped exactly when some path of the tree is a boundary. */
  lemma {:induction false} SkipsExactly(es: seq<Entry>, dir: Path, rootDev: int, view: View)
    requires WellNamed(es)
    ensures SkipsAnything(es, dir, rootDev, view) <==>
            exists rel: Path :: Find(es, rel).Some? && Boundary(dir + rel, rootDev, view)
    decreases es
  {
    forall i | 0 <= i < |es| && es[i].node.Dir?
      ensures SkipsAnything(es[i].node.entries, dir + [es[i].name], rootDev, view) <==>
              exists rel: Path ::
                  Find(es[i].node.entries, rel).Some? && Boundary(dir + [es[i].name] + rel, rootDev, view)
    {
      SkipsExactly(es[i].node.entries, dir + [es[i].name], rootDev, view);
    }
    if SkipsAnything(es, dir, rootDev, view) {
      SkipsSomePath(es, dir, rootDev, view);
    }
    if rel: Path :| Find(es, rel).Some? && Boundary(dir + rel, rootDev, view) {
      FindEntryExactly(es, rel[0]);
      var i :| 0 <= i < |es| && es[i].name == rel[0];
      if |rel| == 1 {
        assert rel == [rel[0]];
      } else {
        assert dir + rel == dir + [es[i].name] + rel[1..];
        assert Find(es[i].node.entries, rel[1..]).Some?;
      }
    }
  }

  lemma SkipsSomePath(es: seq<Entry>, dir: Path, rootDev: int, view: View)
    requires WellNamed(es) && SkipsAnything(es, dir, rootDev, view)
    requires forall i ::
             0 <= i < |es| && es[i].node.Dir?
                 && SkipsAnything(es[i].node.entries, dir + [es[i].name], rootDev, view) ==>
               exists rel: Path ::
                   Find(es[i].node.entries, rel).Some? && Boundary(dir + [es[i].name] + rel, rootDev, view)
    ensures exists rel: Path :: Find(es, rel).Some? && Boundary(dir + rel, rootDev, view)
  {
    var i :| 0 <= i < |es| &&
      (Boundary(dir + [es[i].name], rootDev, view) ||
       (es[i].node.Dir? && SkipsAnything(es[i].node.entries, dir + [es[i].name], rootDev, view)));
    var name := es[i].name;
    FindEntryExactly(es, name);
    if Boundary(dir + [name], rootDev, view) {
      assert Find(es, [name]).Some?;
    } else {
      var rel: Path :| Find(es[i].node.entries, rel).Some? && Boundary(dir + [name] + rel, rootDev, view);
      assert ([name] + rel)[1..] == rel && dir + ([name] + rel) == dir + [name] + rel;
      assert Find(es, [name] + rel).Some?;
    }
  }

  /** A mount point below the root that the walks cannot see: not in the tree, or lstat fails on it. */
  predicate Unseen(es: seq<Entry>, dir: Path, view: View, m: Path) {
    m in view.mounts && dir < m && (Find(es, m[|dir|..]) == None || m !in view.devs)
  }

  /**
    Restore refuses exactly when backup skipped something, or a mount point is out of the
    capture's sight. Where every mount point is a readable path of the tree the two coincide.
   */
  lemma RefusesExactly(es: seq<Entry>, dir: Path, rootDev: int, view: View)
    requires WellNamed(es)
    ensures Refuses(es, dir, rootDev, view) <==>
            SkipsAnything(es, dir, rootDev, view) || exists m :: Unseen(es, dir, view, m)
  {
    SkipsExactly(es, dir, rootDev, view);
    var paths := Walk(es, dir);
    if rel: Path :| Find(es, rel).Some? && Boundary(dir + rel, rootDev, view) {
      WalkExactly(es, dir, rel);
      if dir + rel in view.mounts {
        assert rel != [] && dir < dir + rel;
      } else {
        var i :| 0 <= i < |paths| && paths[i] == dir + rel;
      }
    }
    if m :| m in view.mounts && dir < m && !Unseen(es, dir, view, m) {
      assert m == dir + m[|dir|..];
      assert Boundary(dir + m[|dir|..], rootDev, view);
    }
    if i :| 0 <= i < |paths| && paths[i] in view.devs && view.devs[paths[i]] != rootDev {
      WalkIsBelow(es, dir, paths[i]);
      var rel := paths[i][|dir|..];
      assert paths[i] == dir + rel;
      WalkExactly(es, dir, rel);
      assert Boundary(dir + rel, rootDev, view);
    }
  }

  /** The archive is the whole tree exactly when nothing was skipped. */
  lemma {:induction false} CapturesAllExactly(es: seq<Entry>, dir: Path, rootDev: int, view: View)
    ensures |Capture(es, dir, rootDev, view)| <= |es|
    ensures Capture(es, dir, rootDev, view) == es <==> !SkipsAnything(es, dir, rootDev, view)
    decreases es
  {
    if es != [] {
      var front, last := es[..|es| - 1], es[|es| - 1];
      var at := dir + [last.name];
      var kept, all := Capture(front, dir, rootDev, view), Capture(es, dir, rootDev, view);
      CapturesAllExactly(front, dir, rootDev, view);
      SkipsSnoc(es, dir, rootDev, view);
      if last.node.Dir? { CapturesAllExactly(last.node.entries, at, rootDev, view); }
      assert es == front + [last];
      if !Boundary(at, rootDev, view) {
        assert all == kept + [Entry(last.name, CaptureNode(last.node, at, rootDev, view))];
        if all == es {
          assert kept == all[..|all| - 1] == front && all[|all| - 1] == last;
        }
      }
    }
  }

  lemma SkipsSnoc(es: seq<Entry>, dir: Path, rootDev: int, view: View)
    requires es != []
    ensures var last := es[|es| - 1];
            var at := dir + [last.name];
            SkipsAnything(es, dir, rootDev, view) <==>
            SkipsAnything(es[..|es| - 1], dir, rootDev, view) || Boundary(at, rootDev, view) ||
            (last.node.Dir? && SkipsAnything(last.node.entries, at, rootDev, view))
  {
    var front := es[..|es| - 1];
    forall i | 0 <= i < |front| ensures front[i] == es[i] {}
  }
}
