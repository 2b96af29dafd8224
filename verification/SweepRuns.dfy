/**
  Whole histories of a host: provisioning, editing /etc, deploying, booting, pruning and sweeping
  in any order, with any failures. `last` remembers which deployment last provisioned each tree;
  the code cannot see it and has only the markers.
 */
module SweepRuns {
  import opened Common
  import opened Deployments
  import opened HostModel

  datatype Step =
    | Provision(name: string, sight: Sight, writable: bool)
    | EditConfigs(configs: map<string, Config>)
    | AddUser(user: string)
    | MakeTree(name: string, entry: Entry)
    | Purge(name: string)
    | Deploy(d: Deployment, etc: Etc)
    | Boot(d: Deployment)
    | Prune(d: Deployment)
    | Sweep(sight: Sight, outcome: Outcome)

  datatype History = History(host: Host, last: map<string, Deployment>)

  function WithBootedEtc(h: Host, etc: Etc): Host {
    h.(deployed := h.deployed[h.booted := etc])
  }

  /** Provisioning needs the user, a loadable config in the workload's directory, and room for the tree. */
  predicate Provisions(h: Host, name: string)
    requires h.booted in h.deployed
  {
    && PlainName(name)
    && User(name) in BootedEtc(h).users
    && name in BootedEtc(h).configs && BootedEtc(h).configs[name] != Unparsable
    && (name in h.trees ==> IsDir(h.trees[name]))
  }

  /** One step; a step that is not possible changes nothing. */
  ghost function Next(t: History, s: Step): History
    requires t.host.booted in t.host.deployed
    ensures Next(t, s).host.booted in Next(t, s).host.deployed
  {
    var h := t.host;
    match s
    case Provision(n, sight, writable) =>
      if Provisions(h, n) then
        var marker := Stamped(MarkerAt(h, n), n, BootedId(h.booted, sight), writable);
        History(h.(trees := h.trees[n := if n in h.trees then WithMarker(h.trees[n], marker) else Dir(marker)]),
            t.last[n := h.booted])
      else t
    case EditConfigs(configs) =>
      t.(host := WithBootedEtc(h, BootedEtc(h).(configs := configs)))
    case AddUser(user) =>
      if '/' in user then t
      else t.(host := WithBootedEtc(h, BootedEtc(h).(users := BootedEtc(h).users + [user])))
    case MakeTree(n, entry) =>
      if PlainName(n) && n !in h.trees then t.(host := h.(trees := h.trees[n := entry])) else t
    case Purge(n) =>
      var etc := BootedEtc(h);
      History(WithBootedEtc(h, etc.(users := WithoutUsers(etc.users, {User(n)}))).(trees := h.trees - {n}),
              t.last - {n})
    case Deploy(d, etc) =>
      if d in h.deployed || exists u :: u in etc.users && '/' in u then t
      else t.(host := h.(deployed := h.deployed[d := etc]))
    case Boot(d) =>
      if d in h.deployed then t.(host := h.(booted := d)) else t
    case Prune(d) =>
      if d != h.booted then t.(host := h.(deployed := h.deployed - {d})) else t
    case Sweep(sight, o) =>
      History(Swept(h, sight, o), map n | n in t.last && !Hit(h, sight, n) :: t.last[n])
  }

  ghost function Run(t: History, steps: seq<Step>): History
    requires t.host.booted in t.host.deployed
    ensures Run(t, steps).host.booted in Run(t, steps).host.deployed
    decreases steps
  {
    if steps == [] then t else Run(Next(t, steps[0]), steps[1..])
  }

  /** The stamp took: a rewrite knew its own deployment, or the marker it could not rewrite already says so. */
  ghost predicate Recorded(h: Host, name: string, sight: Sight, writable: bool) {
    && ValidId(h.booted.id)
    && if writable then sight.cmdline else Names(MarkerAt(h, name), name, h.booted.id)
  }

  ghost predicate RecordedRun(t: History, steps: seq<Step>)
    requires t.host.booted in t.host.deployed
    decreases steps
  {
    steps == [] ||
    (&& (steps[0].Provision? && Provisions(t.host, steps[0].name) ==>
           Recorded(t.host, steps[0].name, steps[0].sight, steps[0].writable))
     && RecordedRun(Next(t, steps[0]), steps[1..]))
  }

  /** Every tree with a known provisioner carries a marker naming it. */
  ghost predicate MarkersNameLast(t: History) {
    forall n :: n in t.last ==>
      && n in t.host.trees && IsDir(t.host.trees[n])
      && Names(t.host.trees[n].marker, n, t.last[n].id)
      && ValidId(t.last[n].id)
  }

  ghost predicate Inv(t: History) {
    Valid(t.host) && MarkersNameLast(t)
  }

  lemma NamesUnique(marker: MarkerFile, name: string, a: string, b: string)
    requires Names(marker, name, a) && Names(marker, name, b)
    ensures a == b
  {
  }

  /** The guard answers exactly the rows of the provenance table. */
  lemma GuardIsTheTable(deployed: set<Deployment>, booted: Deployment, sight: Sight, marker: MarkerFile, name: string)
    ensures OtherDeploymentsState(deployed, booted, sight, marker, name) ==
            match ProvenanceOf(deployed, booted, sight, marker, name)
            case ByOther(id) => Some(id)
            case _ => None
  {
    if id :| Names(marker, name, id) {
      forall id' | Names(marker, name, id') ensures id' == id { NamesUnique(marker, name, id, id'); }
    } else if marker.Object? && Field(marker.fields, "deployment").JString? {
      assert !Names(marker, name, Field(marker.fields, "deployment").text);
    }
  }

  lemma SweepKeepsValid(h: Host, sight: Sight, o: Outcome)
    requires Valid(h)
    ensures Valid(Swept(h, sight, o))
  {
  }

  lemma ProvisionKeepsInv(t: History, n: string, sight: Sight, writable: bool)
    requires Inv(t) && (Provisions(t.host, n) ==> Recorded(t.host, n, sight, writable))
    ensures Inv(Next(t, Provision(n, sight, writable)))
  {
    UserInverse(n);
  }

  lemma SweepKeepsInv(t: History, sight: Sight, o: Outcome)
    requires Inv(t)
    ensures Inv(Next(t, Sweep(sight, o)))
  {
    SweepKeepsValid(t.host, sight, o);
  }

  lemma EtcKeepsInv(t: History, s: Step)
    requires Inv(t) && (s.EditConfigs? || s.AddUser? || s.Deploy? || s.Boot? || s.Prune?)
    ensures Inv(Next(t, s))
  {
  }

  lemma TreesKeepInv(t: History, s: Step)
    requires Inv(t) && (s.MakeTree? || s.Purge?)
    ensures Inv(Next(t, s))
  {
  }

  lemma StepKeepsInv(t: History, s: Step)
    requires Inv(t)
    requires s.Provision? && Provisions(t.host, s.name) ==> Recorded(t.host, s.name, s.sight, s.writable)
    ensures Inv(Next(t, s))
  {
    match s
    case Provision(n, sight, writable) => ProvisionKeepsInv(t, n, sight, writable);
    case Sweep(sight, o) => SweepKeepsInv(t, sight, o);
    case MakeTree(_, _) => TreesKeepInv(t, s);
    case Purge(_) => TreesKeepInv(t, s);
    case _ => EtcKeepsInv(t, s);
  }

  lemma {:induction false} MarkersNameTheLastProvisioner(t: History, steps: seq<Step>)
    requires Inv(t) && RecordedRun(t, steps)
    ensures Inv(Run(t, steps))
    decreases steps
  {
    if steps != [] {
      StepKeepsInv(t, steps[0]);
      MarkersNameTheLastProvisioner(Next(t, steps[0]), steps[1..]);
    }
  }

  /** The last provisioner is another deployment, and the sweeping process can see that it exists. */
  ghost predicate OwnedElsewhere(t: History, sight: Sight, n: string) {
    && sight.deployRoot
    && n in t.last
    && DeploymentExists(t.host.deployed.Keys, t.last[n].id)
    && BootedId(t.host.booted, sight) != Some(t.last[n].id)
  }

  /** The verdict on every provisioned tree after every run, in terms of who really provisioned it. */
  lemma SweepVerdict(t: History, steps: seq<Step>, sight: Sight, n: string)
    requires Inv(t) && RecordedRun(t, steps)
    requires n in Run(t, steps).last
    ensures n in Run(t, steps).host.trees
    ensures Hit(Run(t, steps).host, sight, n) <==>
            BaseClaimed(Run(t, steps).host, sight) ||
            (Run(t, steps).host.trees[n].Dir? && Reachable(Run(t, steps).host, n)
                && !Configured(Run(t, steps).host, n) &&
             !OwnedElsewhere(Run(t, steps), sight, n))
  {
    MarkersNameTheLastProvisioner(t, steps);
    HitExactly(Run(t, steps).host, sight, n);
  }

  /** What a sweep must never touch. */
  ghost predicate Live(t: History, sight: Sight, n: string)
    requires t.host.booted in t.host.deployed
  {
    || Configured(t.host, n)
    || (sight.deployRoot && n in t.last && t.last[n] in t.host.deployed && t.last[n].id != t.host.booted.id)
  }

  lemma SweptUserExactly(h: Host, sight: Sight, o: Outcome, u: string)
    requires Valid(h)
    ensures u in BootedEtc(Swept(h, sight, o)).users <==>
            u in BootedEtc(h).users && !(OrphanUser(h, sight, u) && u !in o.stuckUsers)
  {
  }

  /** Safety over every run: no sweep removes the tree or the user of live state, whatever fails. */
  lemma NoRunSweepsLiveState(t: History, steps: seq<Step>, sight: Sight, o: Outcome, n: string)
    requires Inv(t) && RecordedRun(t, steps)
    requires Live(Run(t, steps), sight, n)
    ensures User(n) in BootedEtc(Run(t, steps).host).users ==>
            User(n) in BootedEtc(Run(t, steps + [Sweep(sight, o)]).host).users
    ensures n in Run(t, steps).host.trees && !BaseClaimed(Run(t, steps).host, sight) ==>
            n in Run(t, steps + [Sweep(sight, o)]).host.trees &&
            Run(t, steps + [Sweep(sight, o)]).host.trees[n] == Run(t, steps).host.trees[n]
  {
    RunAppend(t, steps, Sweep(sight, o));
    MarkersNameTheLastProvisioner(t, steps);
    SweepSparesLive(Run(t, steps), sight, o, n);
  }

  lemma SweepSparesLive(t: History, sight: Sight, o: Outcome, n: string)
    requires Inv(t) && Live(t, sight, n)
    ensures var h, h' := t.host, Swept(t.host, sight, o);
            && (User(n) in BootedEtc(h).users ==> User(n) in BootedEtc(h').users)
            && (n in h.trees && !BaseClaimed(h, sight) ==> n in h'.trees && h'.trees[n] == h.trees[n])
  {
    UserInverse(n);
    SweptUserExactly(t.host, sight, o, User(n));
    assert !Judged(t.host, sight, n);
    if n in t.host.trees {
      HitExactly(t.host, sight, n);
    }
  }

  lemma {:induction false} RunAppend(t: History, steps: seq<Step>, s: Step)
    requires t.host.booted in t.host.deployed
    ensures Run(t, steps + [s]) == Next(Run(t, steps), s)
    decreases steps
  {
    if steps == [] {
      assert Run(t, [s]) == Run(Next(t, s), []);
    } else {
      RunAppend(Next(t, steps[0]), steps[1..], s);
      assert (steps + [s])[1..] == steps[1..] + [s];
    }
  }

  /**
    Completeness: state last provisioned here whose config is gone is swept, whatever other
    deployments exist; a symlinked root alone stays.
   */
  lemma DeletedConfigIsSwept(t: History, steps: seq<Step>, sight: Sight, n: string)
    requires Inv(t) && RecordedRun(t, steps)
    requires sight.cmdline
    requires n in Run(t, steps).last && Run(t, steps).last[n] == Run(t, steps).host.booted
    requires !Configured(Run(t, steps).host, n) && Reachable(Run(t, steps).host, n)
    ensures n in Run(t, steps).host.trees
    ensures n in Run(t, steps + [Sweep(sight, CLEAN)]).host.trees <==>
            Run(t, steps).host.trees[n].Link? && !BaseClaimed(Run(t, steps).host, sight)
    ensures User(n) !in BootedEtc(Run(t, steps + [Sweep(sight, CLEAN)]).host).users
  {
    var before := Run(t, steps);
    RunAppend(t, steps, Sweep(sight, CLEAN));
    MarkersNameTheLastProvisioner(t, steps);
    SweepVerdict(t, steps, sight, n);
    UserInverse(n);
    SweptUserExactly(before.host, sight, CLEAN, User(n));
  }

  /**
    The marker carries no stateroot. With the last provisioner still deployed beside the booted
    deployment, its state is swept exactly when the two share one `<checksum>.<serial>`.
   */
  lemma OtherStaterootIsSweptExactly(t: History, steps: seq<Step>, n: string)
    requires Inv(t) && RecordedRun(t, steps)
    requires n in Run(t, steps).last
    requires Run(t, steps).last[n] in Run(t, steps).host.deployed
    requires Run(t, steps).last[n] != Run(t, steps).host.booted
    requires !Configured(Run(t, steps).host, n) && Reachable(Run(t, steps).host, n)
    requires !BaseClaimed(Run(t, steps).host, Sight(true, true))
    ensures n in Run(t, steps).host.trees
    ensures Hit(Run(t, steps).host, Sight(true, true), n) <==>
            Run(t, steps).last[n].id == Run(t, steps).host.booted.id && Run(t, steps).host.trees[n].Dir?
  {
    MarkersNameTheLastProvisioner(t, steps);
    SweepVerdict(t, steps, Sight(true, true), n);
  }

  /** A config file in the workload's own directory protects its state exactly when it parses to that name. */
  lemma ConfigFileProtectsExactly(t: History, steps: seq<Step>, sight: Sight, n: string)
    requires Inv(t) && RecordedRun(t, steps)
    requires sight.cmdline && n != ""
    requires n in Run(t, steps).last && Run(t, steps).last[n] == Run(t, steps).host.booted
    requires n in BootedEtc(Run(t, steps).host).configs
    requires forall dir :: dir in BootedEtc(Run(t, steps).host).configs && dir != n ==>
               BootedEtc(Run(t, steps).host).configs[dir] != Named(n)
    requires Reachable(Run(t, steps).host, n) && !BaseClaimed(Run(t, steps).host, sight)
    ensures n in Run(t, steps).host.trees
    ensures Hit(Run(t, steps).host, sight, n) <==>
            BootedEtc(Run(t, steps).host).configs[n] != Named(n) && Run(t, steps).host.trees[n].Dir?
  {
    MarkersNameTheLastProvisioner(t, steps);
    SweepVerdict(t, steps, sight, n);
  }

  /** The backup output survives every sweep unless an orphaned `_wl-backups` user claims it. */
  lemma BackupsSurviveExactly(h: Host, sight: Sight)
    requires Valid(h) && BACKUPS in h.trees
    requires !BaseClaimed(h, sight)
    ensures Hit(h, sight, BACKUPS) <==> OrphanUser(h, sight, User(BACKUPS)) && h.trees[BACKUPS].Dir?
  {
    HitExactly(h, sight, BACKUPS);
    UserInverse(BACKUPS);
  }

  // --- One sweep is enough ---

  /** Off the base claim, what a clean sweep leaves behind is judged as before. */
  lemma LeftBehind(h: Host, sight: Sight, n: string)
    requires Valid(h) && !BaseClaimed(h, sight)
    ensures var h' := Swept(h, sight, CLEAN);
            && (n in h'.trees ==> n in h.trees && h'.trees[n] == h.trees[n] && !Hit(h, sight, n))
            && (!Judged(h, sight, n) ==> MarkerAt(h', n) == MarkerAt(h, n))
  {
    if n in h.trees {
      HitExactly(h, sight, n);
    }
  }

  ghost predicate Converged(h: Host, sight: Sight)
    requires Valid(h)
  {
    var h' := Swept(h, sight, CLEAN);
    && OrphansIn(h', sight, BootedEtc(h').users) == []
    && (forall root :: !Doomed(h', sight, root))
    && Spared(h', sight) == Spared(h, sight)
  }

  lemma NoOrphanUserLeft(h: Host, sight: Sight, u: string)
    requires Valid(h) && !BaseClaimed(h, sight)
    ensures !OrphanUser(Swept(h, sight, CLEAN), sight, u)
  {
    SweptUserExactly(h, sight, CLEAN, u);
    if WorkloadUser(u) {
      LeftBehind(h, sight, NameOf(u));
    }
  }

  /** A symlinked workload root that looks orphaned: it is removed by no sweep, and found again by the next. */
  predicate Lingers(h: Host, sight: Sight, n: string)
    requires h.booted in h.deployed
  {
    Scanned(h, n) && h.trees[n].Link? && Judged(h, sight, n)
  }

  /** Off the base claim, a clean sweep leaves exactly the lingering roots to be found again. */
  lemma DoomedLeftExactly(h: Host, sight: Sight, root: string)
    requires Valid(h) && !BaseClaimed(h, sight)
    ensures Doomed(Swept(h, sight, CLEAN), sight, root) <==> Lingers(h, sight, root)
  {
    var h' := Swept(h, sight, CLEAN);
    forall u ensures !OrphanUser(h', sight, u) { NoOrphanUserLeft(h, sight, u); }
    UserInverse(root);
    SweptUserExactly(h, sight, CLEAN, User(root));
    if root in h.trees {
      HitExactly(h, sight, root);
      LeftBehind(h, sight, root);
    }
  }

  lemma SameSpared(h: Host, sight: Sight, n: string)
    requires Valid(h) && !BaseClaimed(h, sight)
    ensures n in Spared(h, sight) <==> n in Spared(Swept(h, sight, CLEAN), sight)
    ensures n in Spared(h, sight) ==> Spared(h, sight)[n] == Spared(Swept(h, sight, CLEAN), sight)[n]
  {
    var h' := Swept(h, sight, CLEAN);
    LeftBehind(h, sight, n);
    UserInverse(n);
    SweptUserExactly(h, sight, CLEAN, User(n));
    if n in h.trees {
      HitExactly(h, sight, n);
    }
    ConsultedExactly(h, n);
    ConsultedExactly(h', n);
  }

  lemma ConsultedExactly(h: Host, n: string)
    requires Valid(h)
    ensures n in Consulted(h) <==> !Configured(h, n) && (User(n) in BootedEtc(h).users || Scanned(h, n))
  {
    UserInverse(n);
    forall u | u in BootedEtc(h).users && WorkloadUser(u) ensures User(NameOf(u)) == u { NameInverse(u); }
  }

  lemma BaseClaimTakesEverything(h: Host, sight: Sight)
    requires Valid(h) && BaseClaimed(h, sight)
    ensures Swept(h, sight, CLEAN).trees == map[]
    ensures Spared(Swept(h, sight, CLEAN), sight) == map[]
  {
    forall n | n in h.trees ensures Hit(h, sight, n) { HitExactly(h, sight, n); }
  }

  lemma ConvergesOffTheBase(h: Host, sight: Sight)
    requires Valid(h) && !BaseClaimed(h, sight)
    ensures Converged(h, sight) <==> !exists n :: Lingers(h, sight, n)
  {
    var h' := Swept(h, sight, CLEAN);
    SweepKeepsValid(h, sight, CLEAN);
    forall u ensures !OrphanUser(h', sight, u) { NoOrphanUserLeft(h, sight, u); }
    NoneIn(h', sight);
    forall root ensures Doomed(h', sight, root) <==> Lingers(h, sight, root) { DoomedLeftExactly(h, sight, root); }
    SparedAlike(h, sight);
  }

  lemma SparedAlike(h: Host, sight: Sight)
    requires Valid(h) && !BaseClaimed(h, sight)
    ensures Spared(Swept(h, sight, CLEAN), sight) == Spared(h, sight)
  {
    var a, b := Spared(h, sight), Spared(Swept(h, sight, CLEAN), sight);
    forall n ensures (n in a <==> n in b) && (n in a ==> a[n] == b[n]) { SameSpared(h, sight, n); }
  }

  lemma ConvergesOnTheBase(h: Host, sight: Sight)
    requires Valid(h) && BaseClaimed(h, sight) && Spared(h, sight) == map[]
    ensures Converged(h, sight)
  {
    var h' := Swept(h, sight, CLEAN);
    SweepKeepsValid(h, sight, CLEAN);
    BaseClaimTakesEverything(h, sight);
    forall u ensures !OrphanUser(h', sight, u) {
      SweptUserExactly(h, sight, CLEAN, u);
      if u in BootedEtc(h).users && WorkloadUser(u) {
        ConsultedExactly(h, NameOf(u));
        NameInverse(u);
        assert NameOf(u) !in Spared(h, sight);
      }
    }
    NoneIn(h', sight);
  }

  /**
    After one clean --apply, a second run finds nothing to remove and reports the same spared
    state, exactly when no orphaned root is a symlink; or, with the base directory claimed, when
    no state was spared that went with it.
   */
  lemma SweepConvergesExactly(h: Host, sight: Sight)
    requires Valid(h)
    ensures Converged(h, sight) <==>
            if BaseClaimed(h, sight) then Spared(h, sight) == map[] else !exists n :: Lingers(h, sight, n)
  {
    if !BaseClaimed(h, sight) {
      ConvergesOffTheBase(h, sight);
    } else if Spared(h, sight) == map[] {
      ConvergesOnTheBase(h, sight);
    } else {
      BaseClaimTakesEverything(h, sight);
    }
  }

  lemma NoneIn(h: Host, sight: Sight)
    requires Valid(h)
    requires forall u :: !OrphanUser(h, sight, u)
    ensures OrphansIn(h, sight, BootedEtc(h).users) == []
  {
    var r := OrphansIn(h, sight, BootedEtc(h).users);
    if r != [] {
      assert r[0] in r;
      assert OrphanUser(h, sight, r[0]);
    }
  }

  // --- The stamp decides ---

  ghost predicate NoStrayUsers(h: Host) {
    forall d :: d in h.deployed ==>
      User("") !in h.deployed[d].users && User(".") !in h.deployed[d].users && User("..") !in h.deployed[d].users
  }

  /**
    After `steps`, a clean sweep destroys the tree although deployment `d`, which last provisioned
    it, still exists.
   */
  ghost predicate Lost(t: History, n: string, d: Deployment, steps: seq<Step>)
    requires t.host.booted in t.host.deployed
  {
    var b := Run(t, steps);
    && n in b.last && b.last[n] == d
    && d in b.host.deployed && d.id != b.host.booted.id
    && n in b.host.trees && !Configured(b.host, n)
    && !BaseClaimed(b.host, Sight(true, true))
    && n !in Swept(b.host, Sight(true, true), CLEAN).trees
  }

  /** A later state that judges the tree an orphan of its own, while `d` is still deployed. */
  ghost predicate Exposed(t: History, h: History, n: string, d: Deployment) {
    && Valid(h.host) && h.last == t.last && d in h.host.deployed && d.id != h.host.booted.id
    && n in h.host.trees && h.host.trees[n].Dir? && Reachable(h.host, n)
    && Judged(h.host, Sight(true, true), n) && !BaseClaimed(h.host, Sight(true, true))
  }

  /** Two steps that touch neither the tree nor its history, then a judgement against it. */
  lemma TwoStepsLose(t: History, n: string, d: Deployment, a: Step, b: Step)
    requires Valid(t.host) && n in t.last && t.last[n] == d && d in t.host.deployed
    requires !a.Provision? && !b.Provision?
    requires Exposed(t, Next(Next(t, a), b), n, d)
    ensures RecordedRun(t, [a, b]) && Lost(t, n, d, [a, b])
  {
    var m := Next(t, a);
    assert [a, b][1..] == [b] && [b][1..] == [];
    assert Run(m, [b]) == Run(Next(m, b), []);
    assert RecordedRun(Next(m, b), []) && RecordedRun(m, [b]);
    HitExactly(Next(m, b).host, Sight(true, true), n);
  }

  /** The marker names some other deployed `x`: boot it, drop the config, and the state looks like its own. */
  lemma LostToNamed(t: History, n: string, d: Deployment, x: Deployment)
    requires Valid(t.host) && NoStrayUsers(t.host) && !("." <= n) && n != BACKUPS
    requires n in t.host.trees && t.host.trees[n].Dir?
    requires n in t.last && t.last[n] == d && d in t.host.deployed
    requires x in t.host.deployed && ValidId(x.id) && x.id != d.id && Names(t.host.trees[n].marker, n, x.id)
    ensures RecordedRun(t, [Boot(x), EditConfigs(map[])]) && Lost(t, n, d, [Boot(x), EditConfigs(map[])])
  {
    TwoStepsLose(t, n, d, Boot(x), EditConfigs(map[]));
  }

  lemma FreshJudgesAgainst(t: History, n: string, d: Deployment, f: Deployment)
    requires Valid(t.host) && !("." <= n) && n != BACKUPS && d in t.host.deployed && f.id != d.id
    requires n in t.host.trees && t.host.trees[n].Dir? && f !in t.host.deployed
    requires forall x :: x in t.host.deployed && ValidId(x.id) ==> !Names(t.host.trees[n].marker, n, x.id)
    ensures Exposed(t, Next(Next(t, Deploy(f, Etc(map[], []))), Boot(f)), n, d)
  {
    var h := Next(Next(t, Deploy(f, Etc(map[], []))), Boot(f)).host;
    assert h.deployed.Keys == t.host.deployed.Keys + {f};
    assert BootedEtc(h) == Etc(map[], []);
  }

  /** The marker names no deployed id: a fresh deployment sees an orphan. */
  lemma LostToFresh(t: History, n: string, d: Deployment, f: Deployment)
    requires Valid(t.host) && !("." <= n) && n != BACKUPS
    requires n in t.host.trees && t.host.trees[n].Dir?
    requires n in t.last && t.last[n] == d && d in t.host.deployed
    requires f !in t.host.deployed && f.id != d.id
    requires forall x :: x in t.host.deployed && ValidId(x.id) ==> !Names(t.host.trees[n].marker, n, x.id)
    ensures RecordedRun(t, [Deploy(f, Etc(map[], [])), Boot(f)]) && Lost(t, n, d, [Deploy(f, Etc(map[], [])), Boot(f)])
  {
    FreshJudgesAgainst(t, n, d, f);
    TwoStepsLose(t, n, d, Deploy(f, Etc(map[], [])), Boot(f));
  }

  /** The tree the provision stamps is a symlink. */
  predicate Linked(h: Host, n: string) {
    n in h.trees && h.trees[n].Link?
  }

  lemma UnrecordedIsLost(t: History, n: string, sight: Sight, writable: bool, f: Deployment)
    requires Inv(t) && NoStrayUsers(t.host)
    requires Provisions(t.host, n) && !("." <= n) && n != BACKUPS
    requires f !in t.host.deployed && f.id != t.host.booted.id
    requires !Recorded(t.host, n, sight, writable) && !Linked(t.host, n)
    ensures var t' := Next(t, Provision(n, sight, writable));
            exists steps :: RecordedRun(t', steps) && Lost(t', n, t.host.booted, steps)
  {
    var d := t.host.booted;
    var t' := Next(t, Provision(n, sight, writable));
    if x :| x in t'.host.deployed && ValidId(x.id) && Names(t'.host.trees[n].marker, n, x.id) {
      assert x.id != d.id;
      LostToNamed(t', n, d, x);
    } else {
      LostToFresh(t', n, d, f);
    }
  }

  /** One tree: it is a symlink, or its marker names its last provisioner. */
  ghost predicate Safe(t: History, n: string) {
    && Valid(t.host)
    && (n in t.last ==>
          && n in t.host.trees && IsDir(t.host.trees[n])
          && (t.host.trees[n].Link? || (Names(t.host.trees[n].marker, n, t.last[n].id) && ValidId(t.last[n].id))))
  }

  lemma SweepKeepsSafe(t: History, n: string, sight: Sight, o: Outcome)
    requires Safe(t, n)
    ensures Safe(Next(t, Sweep(sight, o)), n)
  {
    SweepKeepsValid(t.host, sight, o);
  }

  lemma ProvisionKeepsSafe(t: History, n: string, m: string, sight: Sight, writable: bool)
    requires Safe(t, n) && (Provisions(t.host, m) ==> Recorded(t.host, m, sight, writable))
    ensures Safe(Next(t, Provision(m, sight, writable)), n)
  {
    UserInverse(m);
  }

  lemma OtherStepKeepsSafe(t: History, n: string, s: Step)
    requires Safe(t, n) && !s.Provision? && !s.Sweep?
    ensures Safe(Next(t, s), n)
  {
  }

  lemma {:induction false} RunKeepsSafe(t: History, n: string, steps: seq<Step>)
    requires Safe(t, n) && RecordedRun(t, steps)
    ensures Safe(Run(t, steps), n)
    decreases steps
  {
    if steps != [] {
      match steps[0] {
        case Provision(m, sight, writable) => ProvisionKeepsSafe(t, n, m, sight, writable);
        case Sweep(sight, o) => SweepKeepsSafe(t, n, sight, o);
        case _ => OtherStepKeepsSafe(t, n, steps[0]);
      }
      RunKeepsSafe(Next(t, steps[0]), n, steps[1..]);
    }
  }

  lemma SafeIsNotLost(t: History, n: string, d: Deployment, steps: seq<Step>)
    requires Safe(t, n) && RecordedRun(t, steps)
    ensures !Lost(t, n, d, steps)
  {
    RunKeepsSafe(t, n, steps);
    if Lost(t, n, d, steps) {
      HitExactly(Run(t, steps).host, Sight(true, true), n);
    }
  }

  lemma ProvisionMakesSafe(t: History, n: string, sight: Sight, writable: bool)
    requires Inv(t) && Provisions(t.host, n) && (Recorded(t.host, n, sight, writable) || Linked(t.host, n))
    ensures Safe(Next(t, Provision(n, sight, writable)), n)
  {
    UserInverse(n);
  }

  /**
    A provision protects its tree in every later history exactly when its stamp was recorded or
    the root is a symlink: otherwise a failed marker write or an unreadable kernel command line
    leaves the tree open to a sweep that runs while its provisioner still exists.
   */
  lemma StampDecidesSurvival(t: History, n: string, sight: Sight, writable: bool, f: Deployment)
    requires Inv(t) && NoStrayUsers(t.host)
    requires Provisions(t.host, n) && !("." <= n) && n != BACKUPS
    requires f !in t.host.deployed && f.id != t.host.booted.id
    ensures var t' := Next(t, Provision(n, sight, writable));
            Recorded(t.host, n, sight, writable) || Linked(t.host, n) <==>
            forall steps :: RecordedRun(t', steps) ==> !Lost(t', n, t.host.booted, steps)
  {
    var t' := Next(t, Provision(n, sight, writable));
    if Recorded(t.host, n, sight, writable) || Linked(t.host, n) {
      ProvisionMakesSafe(t, n, sight, writable);
      forall steps | RecordedRun(t', steps) ensures !Lost(t', n, t.host.booted, steps) {
        SafeIsNotLost(t', n, t.host.booted, steps);
      }
    } else {
      UnrecordedIsLost(t, n, sight, writable, f);
    }
  }
}
