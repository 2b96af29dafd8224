/** The cleanup command: computing the orphan lists, then removing them from the host in place. */
module Cleanup {
  import opened Common
  import opened Deployments
  import opened HostModel

  datatype Plan = Plan(users: seq<string>, dirs: seq<string>, skipped: map<string, string>)

  /** Every judgement remembered so far is the guard's, and the report holds exactly the spared ones. */
  ghost predicate Memo(h: Host, sight: Sight, judged: map<string, Option<string>>, skipped: map<string, string>) {
    && (forall n :: n in judged ==> judged[n] == Elsewhere(h, sight, n))
    && skipped == map n | n in judged && judged[n].Some? :: judged[n].value
  }

  lemma MemoGrows(
      h: Host, sight: Sight, name: string, judged: map<string, Option<string>>, skipped: map<string, string>)
    requires Memo(h, sight, judged, skipped) && name !in judged
    ensures var dep := Elsewhere(h, sight, name);
            Memo(h, sight, judged[name := dep], if dep.Some? then skipped[name := dep.value] else skipped)
  {
    var dep := Elsewhere(h, sight, name);
    var now := judged[name := dep];
    var want := map n | n in now && now[n].Some? :: now[n].value;
    assert want == if dep.Some? then skipped[name := dep.value] else skipped;
  }

  method BelongsElsewhere(h: Host, sight: Sight, name: string,
                          judged: map<string, Option<string>>, skipped: map<string, string>)
    returns (dep: Option<string>, judged': map<string, Option<string>>, skipped': map<string, string>)
    requires Memo(h, sight, judged, skipped)
    ensures dep == Elsewhere(h, sight, name)
    ensures Memo(h, sight, judged', skipped')
    ensures judged'.Keys == judged.Keys + {name}
  {
    judged', skipped' := judged, skipped;
    if name !in judged {
      dep := OtherDeploymentsState(h.deployed.Keys, h.booted, sight, MarkerAt(h, name), name);
      MemoGrows(h, sight, name, judged, skipped);
      judged' := judged[name := dep];
      if dep.Some? {
        skipped' := skipped[name := dep.value];
      }
    }
    dep := judged'[name];
  }

  /** The directory listing names every child of the base once, in no particular order. */
  ghost predicate Lists(listing: seq<string>, h: Host) {
    NoDuplicates(listing) && forall n :: n in listing <==> n in h.trees
  }

  ghost function ConsultedUsers(h: Host, users: seq<string>): set<string>
    requires h.booted in h.deployed
  {
    set u | u in users && WorkloadUser(u) && !Configured(h, NameOf(u)) :: NameOf(u)
  }

  ghost function ConsultedDirs(h: Host, names: seq<string>): set<string>
    requires h.booted in h.deployed
  {
    set n | n in names && Scanned(h, n) && User(n) !in BootedEtc(h).users && !Configured(h, n)
  }

  /** One passwd entry of the user scan. */
  method JudgeUser(h: Host, sight: Sight, u: string, configured: set<string>,
                   judged: map<string, Option<string>>, skipped: map<string, string>)
    returns (orphan: bool, judged': map<string, Option<string>>, skipped': map<string, string>)
    requires Valid(h) && configured == ConfiguredNames(BootedEtc(h))
    requires Memo(h, sight, judged, skipped)
    ensures orphan <==> WorkloadUser(u) && Judged(h, sight, NameOf(u))
    ensures Memo(h, sight, judged', skipped')
    ensures judged'.Keys == judged.Keys + ConsultedUsers(h, [u])
  {
    orphan, judged', skipped' := false, judged, skipped;
    if !WorkloadUser(u) {
      return;
    }
    var name := NameOf(u);
    if name !in configured {
      var dep;
      dep, judged', skipped' := BelongsElsewhere(h, sight, name, judged, skipped);
      orphan := dep == None;
    }
  }

  /** One child of the base in the directory scan. */
  method JudgeDir(h: Host, sight: Sight, n: string, configured: set<string>,
                  judged: map<string, Option<string>>, skipped: map<string, string>)
    returns (orphan: bool, judged': map<string, Option<string>>, skipped': map<string, string>)
    requires Valid(h) && n in h.trees && configured == ConfiguredNames(BootedEtc(h))
    requires Memo(h, sight, judged, skipped)
    ensures orphan <==> OrphanDir(h, sight, n)
    ensures Memo(h, sight, judged', skipped')
    ensures judged'.Keys == judged.Keys + ConsultedDirs(h, [n])
  {
    orphan, judged', skipped' := false, judged, skipped;
    if !IsDir(h.trees[n]) || "." <= n {
      return;
    }
    if n == BACKUPS {
      return;
    }
    if User(n) !in BootedEtc(h).users && n !in configured {
      var dep;
      dep, judged', skipped' := BelongsElsewhere(h, sight, n, judged, skipped);
      orphan := dep == None;
    }
  }

  method FindOrphanUsers(h: Host, sight: Sight)
    returns (orphans: seq<string>, judged: map<string, Option<string>>, skipped: map<string, string>)
    requires Valid(h)
    ensures orphans == OrphansIn(h, sight, BootedEtc(h).users)
    ensures Memo(h, sight, judged, skipped)
    ensures judged.Keys == ConsultedUsers(h, BootedEtc(h).users)
  {
    var users := BootedEtc(h).users;
    var configured := ConfiguredNames(BootedEtc(h));
    orphans, judged, skipped := [], map[], map[];
    for i := 0 to |users|
      invariant orphans == OrphansIn(h, sight, users[..i])
      invariant Memo(h, sight, judged, skipped)
      invariant judged.Keys == ConsultedUsers(h, users[..i])
    {
      assert users[..i + 1] == users[..i] + [users[i]];
      assert ConsultedUsers(h, users[..i + 1]) == ConsultedUsers(h, users[..i]) + ConsultedUsers(h, [users[i]]);
      var orphan;
      orphan, judged, skipped := JudgeUser(h, sight, users[i], configured, judged, skipped);
      if orphan {
        orphans := orphans + [users[i]];
      }
    }
    assert users[..|users|] == users;
  }

  method FindOrphanDirs(h: Host, sight: Sight, listing: seq<string>,
                        judged: map<string, Option<string>>, skipped: map<string, string>)
    returns (dirs: seq<string>, judged': map<string, Option<string>>, skipped': map<string, string>)
    requires Valid(h) && Lists(listing, h)
    requires Memo(h, sight, judged, skipped)
    ensures forall n :: n in dirs <==> OrphanDir(h, sight, n)
    ensures NoDuplicates(dirs)
    ensures Memo(h, sight, judged', skipped')
    ensures judged'.Keys == judged.Keys + ConsultedDirs(h, listing)
  {
    var configured := ConfiguredNames(BootedEtc(h));
    dirs, judged', skipped' := [], judged, skipped;
    for i := 0 to |listing|
      invariant forall n :: n in dirs <==> n in listing[..i] && OrphanDir(h, sight, n)
      invariant NoDuplicates(dirs)
      invariant Memo(h, sight, judged', skipped')
      invariant judged'.Keys == judged.Keys + ConsultedDirs(h, listing[..i])
    {
      var n := listing[i];
      assert listing[..i + 1] == listing[..i] + [n] && n !in listing[..i];
      assert ConsultedDirs(h, listing[..i + 1]) == ConsultedDirs(h, listing[..i]) + ConsultedDirs(h, [n]);
      var orphan;
      orphan, judged', skipped' := JudgeDir(h, sight, n, configured, judged', skipped');
      if orphan {
        dirs := dirs + [n];
      }
    }
    assert listing[..|listing|] == listing;
  }

  ghost function RootOf(user: string): string {
    if WorkloadUser(user) then Root(NameOf(user)) else user
  }

  /** Claims the whole root of every orphaned user, so that one --apply is enough. */
  method ClaimRoots(h: Host, users: seq<string>, scanned: seq<string>) returns (dirs: seq<string>)
    requires NoDuplicates(scanned)
    requires forall u :: u in users ==> WorkloadUser(u)
    ensures NoDuplicates(dirs)
    ensures forall root :: root in dirs <==>
              root in scanned || exists u :: u in users && RootOf(u) == root && RootExists(h, root)
  {
    dirs := scanned;
    for i := 0 to |users|
      invariant NoDuplicates(dirs)
      invariant forall root :: root in dirs <==>
                  root in scanned || exists u :: u in users[..i] && RootOf(u) == root && RootExists(h, root)
    {
      assert users[..i + 1] == users[..i] + [users[i]] && users[i] in users;
      var root := Root(NameOf(users[i]));
      assert RootOf(users[i]) == root && users[i] in users[..i + 1];
      forall u | u in users[..i] ensures u in users[..i + 1] {}
      if RootExists(h, root) && root !in dirs {
        dirs := dirs + [root];
      }
    }
    assert users[..|users|] == users;
  }

  lemma ClaimedIsDoomed(h: Host, sight: Sight, root: string)
    requires Valid(h)
    ensures Doomed(h, sight, root) <==>
            OrphanDir(h, sight, root) ||
            exists u :: u in OrphansIn(h, sight, BootedEtc(h).users) && RootOf(u) == root && RootExists(h, root)
  {
    var users := OrphansIn(h, sight, BootedEtc(h).users);
    forall u ensures u in users <==> OrphanUser(h, sight, u) {}
    forall u | OrphanUser(h, sight, u) ensures RootOf(u) == Root(NameOf(u)) {}
  }

  lemma ConsultedSplits(h: Host, listing: seq<string>)
    requires Valid(h) && Lists(listing, h)
    ensures Consulted(h) == ConsultedUsers(h, BootedEtc(h).users) + ConsultedDirs(h, listing)
  {
  }

  /** The plan of one sweep, printed by a dry run and executed by --apply. */
  method FindOrphans(h: Host, sight: Sight, listing: seq<string>) returns (plan: Plan)
    requires Valid(h) && Lists(listing, h)
    ensures plan.users == OrphansIn(h, sight, BootedEtc(h).users)
    ensures forall root :: root in plan.dirs <==> Doomed(h, sight, root)
    ensures NoDuplicates(plan.dirs)
    ensures plan.skipped == Spared(h, sight)
  {
    var users, judged, skipped := FindOrphanUsers(h, sight);
    var scanned;
    scanned, judged, skipped := FindOrphanDirs(h, sight, listing, judged, skipped);
    var dirs := ClaimRoots(h, users, scanned);
    plan := Plan(users, dirs, skipped);
    forall root ensures root in dirs <==> Doomed(h, sight, root) { ClaimedIsDoomed(h, sight, root); }
    ConsultedSplits(h, listing);
  }

  lemma {:induction false} WithoutOneMore(users: seq<string>, gone: set<string>, name: string)
    ensures WithoutUsers(WithoutUsers(users, gone), {name}) == WithoutUsers(users, gone + {name})
  {
    if users != [] {
      var front, u := users[..|users| - 1], users[|users| - 1];
      WithoutOneMore(front, gone, name);
      if u !in gone {
        var kept := WithoutUsers(front, gone);
        assert (kept + [u])[..|kept|] == kept;
      }
    }
  }

  lemma {:induction false} WithoutNone(users: seq<string>)
    ensures WithoutUsers(users, {}) == users
  {
    if users != [] {
      WithoutNone(users[..|users| - 1]);
    }
  }

  /** The users userdel takes. */
  function Gone(names: seq<string>, o: Outcome): set<string> {
    set u | u in names && u !in o.stuckUsers
  }

  /** rmtree of one root, with its failures. */
  function Rmtree(trees: map<string, Entry>, root: string, o: Outcome): map<string, Entry> {
    map n | n in trees && (Covers(root, n, trees[n]) ==> Remains(n, trees[n], o).Some?) ::
      if Covers(root, n, trees[n]) then Remains(n, trees[n], o).value else trees[n]
  }

  ghost predicate Covered(roots: seq<string>, n: string, e: Entry) {
    exists root :: root in roots && Covers(root, n, e)
  }

  ghost function RmtreeAll(trees: map<string, Entry>, roots: seq<string>, o: Outcome): map<string, Entry> {
    map n | n in trees && (Covered(roots, n, trees[n]) ==> Remains(n, trees[n], o).Some?) ::
      if Covered(roots, n, trees[n]) then Remains(n, trees[n], o).value else trees[n]
  }

  lemma RmtreeStep(trees: map<string, Entry>, roots: seq<string>, root: string, o: Outcome)
    ensures Rmtree(RmtreeAll(trees, roots, o), root, o) == RmtreeAll(trees, roots + [root], o)
  {
    var before := RmtreeAll(trees, roots, o);
    var left, right := Rmtree(before, root, o), RmtreeAll(trees, roots + [root], o);
    forall n ensures (n in left <==> n in right) && (n in left ==> left[n] == right[n]) {
      if n in trees { CoveredByOneMore(roots, root, n, trees[n]); }
      assert n in before ==> Covers(root, n, before[n]) == Covers(root, n, trees[n]);
    }
  }

  lemma CoveredByOneMore(roots: seq<string>, root: string, n: string, e: Entry)
    ensures Covered(roots + [root], n, e) <==> Covered(roots, n, e) || Covers(root, n, e)
  {
    if Covered(roots, n, e) {
      var r :| r in roots && Covers(r, n, e);
      assert r in roots + [root];
    }
    if Covers(root, n, e) { assert root in roots + [root]; }
  }

  /** The running host: the files and passwd entries workloadctl changes in place. */
  class Machine {
    var deployed: map<Deployment, Etc>
    var booted: Deployment
    var trees: map<string, Entry>

    function Value(): Host
      reads this
    {
      Host(deployed, booted, trees)
    }

    constructor (h: Host)
      ensures Value() == h
    {
      deployed, booted, trees := h.deployed, h.booted, h.trees;
    }

    /** Stamps a tree. True if the file changed; a write that fails is reported and swallowed by the caller. */
    method WriteMarker(name: string, sight: Sight, writable: bool) returns (changed: bool)
      requires name in trees && IsDir(trees[name])
      modifies this`trees
      ensures Value() == old(Value()).(trees :=
                old(trees)[name := WithMarker(old(trees[name]),
                    Stamped(old(trees[name].marker), name, BootedId(booted, sight), writable))])
      ensures changed <==> old(trees) != trees
    {
      var payload := Payload(name, BootedId(booted, sight));
      var was := trees[name].marker;
      if ReadMarker(was) == Some(payload) {
        assert trees[name := WithMarker(trees[name], was)] == trees;
        return false;
      }
      if !writable {
        assert trees[name := WithMarker(trees[name], was)] == trees;
        return false;
      }
      trees := trees[name := WithMarker(trees[name], Object(payload))];
      assert trees[name] != old(trees)[name];
      return true;
    }

    /** cleanup --apply. */
    method Apply(sight: Sight, listing: seq<string>, o: Outcome) returns (plan: Plan)
      requires Valid(Value()) && Lists(listing, Value())
      modifies this
      ensures Value() == Swept(old(Value()), sight, o)
      ensures plan.users == OrphansIn(old(Value()), sight, BootedEtc(old(Value())).users)
      ensures forall root :: root in plan.dirs <==> Doomed(old(Value()), sight, root)
      ensures plan.skipped == Spared(old(Value()), sight)
    {
      var h := Value();
      plan := FindOrphans(h, sight, listing);
      RemoveUsers(plan.users, o);
      RemoveTrees(plan.dirs, o);

      var gone := set u | u in plan.users && u !in o.stuckUsers;
      forall n | n in h.trees ensures Covered(plan.dirs, n, h.trees[n]) <==> Hit(h, sight, n) {}
      assert RmtreeAll(h.trees, plan.dirs, o) == SweptTrees(h, sight, o);
    }

    method RemoveUsers(names: seq<string>, o: Outcome)
      requires booted in deployed
      modifies this`deployed
      ensures deployed == old(deployed)[booted := old(deployed[booted]).(users :=
                WithoutUsers(old(deployed[booted].users), Gone(names, o)))]
    {
      var etc := deployed[booted];
      var users := etc.users;
      WithoutNone(users);
      assert Gone(names[..0], o) == {};
      for i := 0 to |names|
        invariant users == WithoutUsers(etc.users, Gone(names[..i], o))
        invariant deployed == old(deployed)[booted := etc.(users := users)]
      {
        assert names[..i + 1] == names[..i] + [names[i]];
        if names[i] !in o.stuckUsers {
          WithoutOneMore(etc.users, Gone(names[..i], o), names[i]);
          assert Gone(names[..i + 1], o) == Gone(names[..i], o) + {names[i]};
          users := WithoutUsers(users, {names[i]});
          deployed := deployed[booted := etc.(users := users)];
        } else {
          assert Gone(names[..i + 1], o) == Gone(names[..i], o);
        }
      }
      assert names[..|names|] == names;
    }

    method RemoveTrees(roots: seq<string>, o: Outcome)
      modifies this`trees
      ensures trees == RmtreeAll(old(trees), roots, o)
    {
      assert RmtreeAll(trees, [], o) == trees;
      for i := 0 to |roots|
        invariant trees == RmtreeAll(old(trees), roots[..i], o)
      {
        RmtreeStep(old(trees), roots[..i], roots[i], o);
        assert roots[..i + 1] == roots[..i] + [roots[i]];
        trees := Rmtree(trees, roots[i], o);
      }
      assert roots[..|roots|] == roots;
    }
  }
}
