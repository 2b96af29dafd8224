/**
  Updating a fleet: reprovision every workload, verify the containers, roll back the failures,
  and account for each in one row.
 */
module Update {
  import opened Common

  datatype Status = Healthy | Starting | Unwell

  /** What a workload is verified by; `second` is what is seen after waiting for a starting container. */
  datatype Check =
    | Health(first: seq<Status>, second: seq<Status>)
    | Liveness(active: seq<bool>)

  /** A container's image reference, and what its rollback tag points at, if there is one. */
  datatype Image = Image(ref: string, previous: Option<string>)

  /**
    `haveOld`: an image was there before the pull. `store`: what the references of the workload's
    images point at. `stuck`: the restart after a rollback would raise.
   */
  datatype Candidate = Candidate(
    name: string, wait: nat, haveOld: bool, check: Check, stuck: bool, images: seq<Image>, store: map<string, string>)

  datatype Verify = IsHealthy | IsUnhealthy | IsActive | IsCrashed
  datatype Verdict = Verdict(verify: Verify, rolledBack: bool)

  datatype Provision = Skipped | Failed | Unchanged | Provisioned
  datatype Workload = Workload(vm: bool, provision: Provision, candidate: Candidate)

  datatype Result = Updated | RolledBack | WasSkipped | HasFailed | IsUnchanged
  datatype Row = Row(workload: string, vm: bool, result: Result, verify: Option<Verify>)

  // --- Verifying ---

  predicate AllHealthy(ss: seq<Status>) { forall s :: s in ss ==> s == Healthy }

  /** The statuses the verdict rests on: a second look is only worth it with something to go back to. */
  function FinalStatuses(c: Candidate): seq<Status>
    requires c.check.Health?
  {
    if Starting in c.check.first && c.haveOld then c.check.second else c.check.first
  }

  predicate Passes(c: Candidate) {
    match c.check
    case Health(_, _) => AllHealthy(FinalStatuses(c))
    case Liveness(active) => forall a :: a in active ==> a
  }

  predicate RollsBack(c: Candidate) { !Passes(c) && c.haveOld }

  /** A rollback whose restart raises. */
  predicate Sticks(c: Candidate) { RollsBack(c) && c.stuck }

  method VerifyOne(c: Candidate) returns (v: Verdict)
    ensures v.rolledBack <==> RollsBack(c)
    ensures v.verify in {IsHealthy, IsActive} <==> Passes(c)
    ensures v.verify in {IsHealthy, IsUnhealthy} <==> c.check.Health?
  {
    match c.check {
      case Health(first, second) =>
        if forall s :: s in first ==> s == Healthy {
          return Verdict(IsHealthy, false);
        }
        if Starting in first && c.haveOld {
          if forall s :: s in second ==> s == Healthy {
            return Verdict(IsHealthy, false);
          }
          return Verdict(IsUnhealthy, true);
        }
        return Verdict(IsUnhealthy, c.haveOld);
      case Liveness(active) =>
        if forall a :: a in active ==> a {
          return Verdict(IsActive, false);
        }
        return Verdict(IsCrashed, c.haveOld);
    }
  }

  // --- Rolling back ---

  /** Every reference with a rollback tag is pointed at it, in container order. */
  function Retagged(store: map<string, string>, images: seq<Image>): map<string, string> {
    if images == [] then store
    else
      var front, last := Retagged(store, images[..|images| - 1]), images[|images| - 1];
      if last.previous.Some? then front[last.ref := last.previous.value] else front
  }

  method DoRollback(store: map<string, string>, images: seq<Image>) returns (now: map<string, string>)
    ensures now == Retagged(store, images)
  {
    now := store;
    for i := 0 to |images|
      invariant now == Retagged(store, images[..i])
    {
      assert images[..i + 1][..i] == images[..i];
      if images[i].previous.Some? {
        now := now[images[i].ref := images[i].previous.value];
      }
    }
    assert images[..|images|] == images;
  }

  /** A reference is pointed at some tag among the images. */
  predicate TaggedBy(images: seq<Image>, ref: string, id: string) {
    exists j :: 0 <= j < |images| && images[j].ref == ref && images[j].previous == Some(id)
  }

  lemma TaggedBySnoc(images: seq<Image>, last: Image, ref: string, id: string)
    ensures TaggedBy(images + [last], ref, id) <==>
            TaggedBy(images, ref, id) || (last.ref == ref && last.previous == Some(id))
  {
    var all := images + [last];
    if j :| 0 <= j < |images| && images[j].ref == ref && images[j].previous == Some(id) { assert all[j] == images[j]; }
    assert all[|images|] == last;
  }

  /** A reference ends up at a tag some container has for it, or, if none has one, where it was. */
  lemma {:induction false} RetaggedAt(store: map<string, string>, images: seq<Image>, ref: string)
    ensures var now := Retagged(store, images);
            || (ref in now && TaggedBy(images, ref, now[ref]))
            || ((forall id :: !TaggedBy(images, ref, id)) && (ref in now <==> ref in store)
               && (ref in store ==> now[ref] == store[ref]))
  {
    if images != [] {
      var front, last := images[..|images| - 1], images[|images| - 1];
      RetaggedAt(store, front, ref);
      assert images == front + [last];
      forall id ensures TaggedBy(images, ref, id) <==>
          TaggedBy(front, ref, id) || (last.ref == ref && last.previous == Some(id)) {
        TaggedBySnoc(front, last, ref, id);
      }
    }
  }

  /** The container runs on the image it had before. */
  predicate Restored(now: map<string, string>, image: Image) {
    image.previous.Some? && image.ref in now && now[image.ref] == image.previous.value
  }

  /** A rollback restores every container exactly when each has a tag and containers that share a reference share it. */
  lemma RollbackRestoresExactly(store: map<string, string>, images: seq<Image>)
    ensures (forall i :: 0 <= i < |images| ==> Restored(Retagged(store, images), images[i])) <==>
            && (forall i :: 0 <= i < |images| ==> images[i].previous.Some?)
            && forall i, j :: 0 <= i < |images| && 0 <= j < |images| && images[i].ref == images[j].ref ==>
               images[i].previous == images[j].previous
  {
    var now := Retagged(store, images);
    if (forall i :: 0 <= i < |images| ==> images[i].previous.Some?) &&
       forall i, j :: 0 <= i < |images| && 0 <= j < |images| && images[i].ref == images[j].ref ==>
           images[i].previous == images[j].previous {
      forall i | 0 <= i < |images| ensures Restored(now, images[i]) {
        RetaggedAt(store, images, images[i].ref);
        assert TaggedBy(images, images[i].ref, images[i].previous.value);
        var j :| 0 <= j < |images| && images[j].ref == images[i].ref && images[j].previous == Some(now[images[i].ref]);
      }
    }
    if forall i :: 0 <= i < |images| ==> Restored(now, images[i]) {
      forall i, j | 0 <= i < |images| && 0 <= j < |images| && images[i].ref == images[j].ref
        ensures images[i].previous == images[j].previous
      {
        assert Restored(now, images[i]) && Restored(now, images[j]);
      }
    }
  }

  /** What a workload's references point at once it has been verified. */
  function StoreAfter(c: Candidate): map<string, string> {
    if RollsBack(c) then Retagged(c.store, c.images) else c.store
  }

  predicate DistinctNames(cs: seq<Candidate>) {
    forall i, j :: 0 <= i < j < |cs| ==> cs[i].name != cs[j].name
  }

  function RollBacks(cs: seq<Candidate>): nat {
    if cs == [] then 0 else RollBacks(cs[..|cs| - 1]) + if RollsBack(cs[|cs| - 1]) then 1 else 0
  }

  /** How long to wait before looking: long enough for the slowest health check, and at least five seconds. */
  method MaxWait(cs: seq<Candidate>) returns (wait: nat)
    ensures wait >= 5 && forall i :: 0 <= i < |cs| ==> wait >= cs[i].wait
    ensures wait == 5 || exists i :: 0 <= i < |cs| && wait == cs[i].wait
  {
    wait := 5;
    for i := 0 to |cs|
      invariant wait >= 5 && forall k :: 0 <= k < i ==> wait >= cs[k].wait
      invariant wait == 5 || exists k :: 0 <= k < i && wait == cs[k].wait
    {
      if cs[i].wait > wait {
        wait := cs[i].wait;
      }
    }
  }

  /** The verdicts of exactly these candidates. */
  ghost predicate VerdictsOf(cs: seq<Candidate>, verified: map<string, Verdict>) {
    && (forall n :: n in verified <==> exists i :: 0 <= i < |cs| && cs[i].name == n)
    && (forall i :: 0 <= i < |cs| ==> cs[i].name in verified && (verified[cs[i].name].rolledBack <==> RollsBack(cs[i])))
  }

  lemma OneMoreVerdict(before: seq<Candidate>, c: Candidate, verified: map<string, Verdict>, v: Verdict)
    requires VerdictsOf(before, verified) && (v.rolledBack <==> RollsBack(c))
    requires forall i :: 0 <= i < |before| ==> before[i].name != c.name
    ensures VerdictsOf(before + [c], verified[c.name := v])
  {
    var cs, now := before + [c], verified[c.name := v];
    assert cs[|before|] == c;
    forall n ensures n in now <==> exists k :: 0 <= k < |cs| && cs[k].name == n {
      if k :| 0 <= k < |before| && before[k].name == n { assert cs[k].name == n; }
      if k :| 0 <= k < |cs| && cs[k].name == n { assert k < |before| ==> before[k].name == n; }
    }
  }

  predicate NoneSticks(cs: seq<Candidate>) {
    forall i :: 0 <= i < |cs| ==> !Sticks(cs[i])
  }

  /** What has been established about the candidates verified so far. */
  ghost predicate Progress(cs: seq<Candidate>, rolledBack: nat, verified: map<string, Verdict>,
      stores: seq<map<string, string>>) {
    && NoneSticks(cs) && rolledBack == RollBacks(cs) && VerdictsOf(cs, verified)
    && |stores| == |cs| && forall i :: 0 <= i < |cs| ==> stores[i] == StoreAfter(cs[i])
  }

  lemma OneMoreVerified(
      before: seq<Candidate>, c: Candidate, rolledBack: nat, verified: map<string, Verdict>,
      stores: seq<map<string, string>>, v: Verdict)
    requires Progress(before, rolledBack, verified, stores) && !Sticks(c) && (v.rolledBack <==> RollsBack(c))
    requires forall i :: 0 <= i < |before| ==> before[i].name != c.name
    ensures Progress(before + [c], if v.rolledBack then rolledBack + 1 else rolledBack,
                     verified[c.name := v], stores + [StoreAfter(c)])
  {
    OneMoreVerdict(before, c, verified, v);
    assert (before + [c])[..|before|] == before;
  }

  /** One candidate: its verdict, and the images it is left on. */
  method Settle(c: Candidate) returns (v: Verdict, store: map<string, string>)
    ensures v.rolledBack <==> RollsBack(c)
    ensures store == StoreAfter(c)
  {
    v := VerifyOne(c);
    store := c.store;
    if v.rolledBack {
      store := DoRollback(store, c.images);
    }
  }

  /** The verdict on each candidate and the images it is left on, unless a rollback's restart raises. */
  method VerifyAll(cs: seq<Candidate>)
    returns (raised: bool, rolledBack: nat, verified: map<string, Verdict>, stores: seq<map<string, string>>)
    requires DistinctNames(cs)
    ensures raised <==> !NoneSticks(cs)
    ensures !raised ==> rolledBack == RollBacks(cs) && VerdictsOf(cs, verified)
    ensures !raised ==> |stores| == |cs| && forall i :: 0 <= i < |cs| ==> stores[i] == StoreAfter(cs[i])
  {
    rolledBack, verified, stores := 0, map[], [];
    for i := 0 to |cs|
      invariant Progress(cs[..i], rolledBack, verified, stores)
    {
      assert cs[..i + 1] == cs[..i] + [cs[i]];
      var v, store := Settle(cs[i]);
      if v.rolledBack && cs[i].stuck {
        assert Sticks(cs[i]);
        return true, rolledBack, verified, stores;
      }
      OneMoreVerified(cs[..i], cs[i], rolledBack, verified, stores, v);
      if v.rolledBack {
        rolledBack := rolledBack + 1;
      }
      verified := verified[cs[i].name := v];
      stores := stores + [store];
    }
    assert cs[..|cs|] == cs;
    return false, rolledBack, verified, stores;
  }

  // --- Rows ---

  /** The row before verification, and whether there is anything to verify. */
  function FirstRow(w: Workload): Row {
    var result := match w.provision
      case Skipped => WasSkipped
      case Failed => HasFailed
      case Unchanged => if w.vm then Updated else IsUnchanged
      case Provisioned => Updated;
    Row(w.candidate.name, w.vm, result, None)
  }

  predicate Verified(w: Workload) { !w.vm && w.provision == Provisioned }

  function FirstRows(fleet: seq<Workload>): seq<Row> {
    if fleet == [] then [] else FirstRows(fleet[..|fleet| - 1]) + [FirstRow(fleet[|fleet| - 1])]
  }

  function Candidates(fleet: seq<Workload>): seq<Candidate> {
    if fleet == [] then []
    else
      var last := fleet[|fleet| - 1];
      Candidates(fleet[..|fleet| - 1]) + if Verified(last) then [last.candidate] else []
  }

  predicate DistinctFleet(fleet: seq<Workload>) {
    forall i, j :: 0 <= i < j < |fleet| ==> fleet[i].candidate.name != fleet[j].candidate.name
  }

  /** What a workload's row must say in the end. */
  predicate Accounts(w: Workload, row: Row) {
    && row.workload == w.candidate.name && row.vm == w.vm
    && (row.result == RolledBack <==> Verified(w) && RollsBack(w.candidate))
    && (row.result == WasSkipped <==> w.provision == Skipped)
    && (row.result == HasFailed <==> w.provision == Failed)
    && (row.result == IsUnchanged <==> w.provision == Unchanged && !w.vm)
  }

  function Count(rows: seq<Row>, r: Result): nat {
    if rows == [] then 0 else Count(rows[..|rows| - 1], r) + if rows[|rows| - 1].result == r then 1 else 0
  }

  /** Folds the verdicts into the rows in place. */
  method ApplyVerdicts(rows: array<Row>, verified: map<string, Verdict>)
    modifies rows
    ensures forall i :: 0 <= i < rows.Length ==>
              rows[i] == Judged(old(rows[i]), verified)
  {
    for i := 0 to rows.Length
      invariant forall k :: 0 <= k < i ==> rows[k] == Judged(old(rows[k]), verified)
      invariant forall k :: i <= k < rows.Length ==> rows[k] == old(rows[k])
    {
      var row := rows[i];
      if row.workload in verified {
        var v := verified[row.workload];
        row := row.(verify := Some(v.verify));
        if v.rolledBack {
          row := row.(result := RolledBack);
        }
        rows[i] := row;
      }
    }
  }

  function Judged(row: Row, verified: map<string, Verdict>): Row {
    if row.workload !in verified then row
    else
      var v := verified[row.workload];
      Row(row.workload, row.vm, if v.rolledBack then RolledBack else row.result, Some(v.verify))
  }

  lemma {:induction false} CandidatesExactly(fleet: seq<Workload>)
    ensures forall c :: c in Candidates(fleet) <==>
            exists i :: 0 <= i < |fleet| && Verified(fleet[i]) && fleet[i].candidate == c
    ensures DistinctFleet(fleet) ==> DistinctNames(Candidates(fleet))
  {
    if fleet != [] {
      var front, last := fleet[..|fleet| - 1], fleet[|fleet| - 1];
      var cs := Candidates(front);
      CandidatesExactly(front);
      forall c ensures c in Candidates(fleet) <==>
          exists i :: 0 <= i < |fleet| && Verified(fleet[i]) && fleet[i].candidate == c {
        if i :| 0 <= i < |front| && Verified(front[i]) && front[i].candidate == c { assert fleet[i] == front[i]; }
        if i :| 0 <= i < |fleet| && Verified(fleet[i]) && fleet[i].candidate == c {
          assert i < |front| ==> front[i] == fleet[i];
        }
      }
      if DistinctFleet(fleet) {
        forall i, j | 0 <= i < j < |front| ensures front[i].candidate.name != front[j].candidate.name {
          assert front[i] == fleet[i] && front[j] == fleet[j];
        }
        forall k | 0 <= k < |cs| ensures cs[k].name != last.candidate.name {
          assert cs[k] in cs;
          var i :| 0 <= i < |front| && Verified(front[i]) && front[i].candidate == cs[k];
          assert fleet[i] == front[i];
        }
      }
    }
  }

  lemma {:induction false} FirstRowsAt(fleet: seq<Workload>)
    ensures |FirstRows(fleet)| == |fleet| && forall i :: 0 <= i < |fleet| ==> FirstRows(fleet)[i] == FirstRow(fleet[i])
  {
    if fleet != [] { FirstRowsAt(fleet[..|fleet| - 1]); }
  }

  /** The whole fleet: one row each, in order, saying what became of the workload. */
  method UpdateAll(fleet: seq<Workload>) returns (raised: bool, rows: seq<Row>, rolledBack: nat)
    requires DistinctFleet(fleet)
    ensures raised <==> exists i :: 0 <= i < |fleet| && Verified(fleet[i]) && Sticks(fleet[i].candidate)
    ensures !raised ==> |rows| == |fleet| && forall i :: 0 <= i < |fleet| ==> Accounts(fleet[i], rows[i])
    ensures !raised ==> rolledBack == Count(rows, RolledBack)
  {
    rows := [];
    var updated: seq<Candidate> := [];
    for i := 0 to |fleet|
      invariant rows == FirstRows(fleet[..i]) && updated == Candidates(fleet[..i])
    {
      assert fleet[..i + 1][..i] == fleet[..i];
      rows := rows + [FirstRow(fleet[i])];
      if Verified(fleet[i]) {
        updated := updated + [fleet[i].candidate];
      }
    }
    assert fleet[..|fleet|] == fleet;
    CandidatesExactly(fleet);
    FirstRowsAt(fleet);
    var verified, stores;
    raised, rolledBack, verified, stores := VerifyAll(updated);
    StuckExactly(fleet);
    if raised {
      return;
    }
    var table := new Row[|rows|](i requires 0 <= i < |rows| => rows[i]);
    ApplyVerdicts(table, verified);
    rows := table[..];
    forall i | 0 <= i < |fleet| ensures rows[i] == Judged(FirstRow(fleet[i]), verified) && Accounts(fleet[i], rows[i]) {
      JudgedAccounts(fleet, verified, i);
    }
    RollBacksCounted(fleet, rows);
  }

  lemma StuckExactly(fleet: seq<Workload>)
    ensures !NoneSticks(Candidates(fleet)) <==>
            exists i :: 0 <= i < |fleet| && Verified(fleet[i]) && Sticks(fleet[i].candidate)
  {
    var cs := Candidates(fleet);
    CandidatesExactly(fleet);
    if i :| 0 <= i < |fleet| && Verified(fleet[i]) && Sticks(fleet[i].candidate) {
      assert fleet[i].candidate in cs;
    }
    if k :| 0 <= k < |cs| && Sticks(cs[k]) {
      assert cs[k] in cs;
    }
  }

  /** A workload has a verdict exactly when it was up for verification, and it is its own. */
  lemma VerdictIsOwn(fleet: seq<Workload>, verified: map<string, Verdict>, i: nat)
    requires DistinctFleet(fleet) && i < |fleet| && VerdictsOf(Candidates(fleet), verified)
    ensures fleet[i].candidate.name in verified <==> Verified(fleet[i])
    ensures Verified(fleet[i]) ==> (verified[fleet[i].candidate.name].rolledBack <==> RollsBack(fleet[i].candidate))
  {
    var cs, w := Candidates(fleet), fleet[i];
    CandidatesExactly(fleet);
    if Verified(w) {
      assert w.candidate in cs;
      var k :| 0 <= k < |cs| && cs[k] == w.candidate;
      assert cs[k].name in verified;
    }
    if w.candidate.name in verified {
      var k :| 0 <= k < |cs| && cs[k].name == w.candidate.name;
      assert cs[k] in cs;
      var j :| 0 <= j < |fleet| && Verified(fleet[j]) && fleet[j].candidate == cs[k];
      assert j == i;
    }
  }

  lemma JudgedAccounts(fleet: seq<Workload>, verified: map<string, Verdict>, i: nat)
    requires DistinctFleet(fleet) && i < |fleet| && VerdictsOf(Candidates(fleet), verified)
    ensures Accounts(fleet[i], Judged(FirstRow(fleet[i]), verified))
  {
    VerdictIsOwn(fleet, verified, i);
  }

  lemma {:induction false} RollBacksCounted(fleet: seq<Workload>, rows: seq<Row>)
    requires |rows| == |fleet| && forall i :: 0 <= i < |fleet| ==> Accounts(fleet[i], rows[i])
    ensures RollBacks(Candidates(fleet)) == Count(rows, RolledBack)
  {
    if fleet != [] {
      var front, last := fleet[..|fleet| - 1], fleet[|fleet| - 1];
      RollBacksCounted(front, rows[..|fleet| - 1]);
      assert Accounts(last, rows[|fleet| - 1]);
      if Verified(last) {
        var cs := Candidates(fleet);
        assert cs[..|cs| - 1] == Candidates(front);
      } else {
        assert Candidates(fleet) == Candidates(front);
      }
    }
  }

  /** Every row is counted once: the five counts of the summary add up to the rows. */
  lemma {:induction false} TallyAddsUp(rows: seq<Row>)
    ensures Count(rows, Updated) + Count(rows, RolledBack) + Count(rows, WasSkipped) + Count(rows, HasFailed) +
            Count(rows, IsUnchanged) == |rows|
  {
    if rows != [] { TallyAddsUp(rows[..|rows| - 1]); }
  }
}
