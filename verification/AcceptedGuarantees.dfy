/** What an operator gets from an accepted container table: publish specs, shared hosts, apexes, exemptions. */
module AcceptedGuarantees {
  import opened Common
  import opened Toml
  import opened ContainerConfig
  import opened ContainerRules
  import opened ContainerAgreement
  import opened ContainerMeaning
  import opened ContainerAcceptance
  import opened EgressDocument

  /** The demands on an accepted table, one by one. */
  lemma AcceptedMeets(net: Fields, config: Option<Fields>, ops: Ops)
    requires Accepted(net, config, ops)
    ensures PortsMeet(Get(net, "ports"))
    ensures NothingIdle(Delivered(net, ops), ops)
    ensures EntriesMeet(PolicyEntries(net, ops), TlsMode(net), SpliceHosts(net), StripAll(AllowedHosts(net)), ops)
    ensures TlsMeets(net) && (SpliceHosts(net) != [] ==> EffectiveTls(net, ops) != "splice")
  {
    AcceptedExactly(net, config, ops);
  }

  // --- Publish specs ---

  /** Characters that would split a unit's argument, end it early, or be expanded in it. */
  predicate CorruptsUnit(c: char) {
    IsSpace(c) || c in {'"', '\'', '\\', '%', '$'}
  }

  lemma PublishCharIsSafe(c: char)
    requires PublishChar(c)
    ensures !CorruptsUnit(c)
  {
    assert c in ":.[]-/" ==> c == ':' || c == '.' || c == '[' || c == ']' || c == '-' || c == '/';
  }

  /** An accepted publish spec is one non-blank word of its unit, with nothing to expand. */
  lemma AcceptedSpecIsOneWord(net: Fields, config: Option<Fields>, ops: Ops, i: nat)
    requires Accepted(net, config, ops) && "ports" in net && i < |Items(net, "ports")|
    ensures net["ports"].Arr? && Items(net, "ports")[i].Str? && Items(net, "ports")[i].text != ""
    ensures forall c :: c in Items(net, "ports")[i].text ==> !CorruptsUnit(c)
  {
    AcceptedMeets(net, config, ops);
    var spec := Items(net, "ports")[i];
    assert SpecMeets(spec);
    forall c | c in spec.text ensures !CorruptsUnit(c) {
      var k :| 0 <= k < |spec.text| && spec.text[k] == c;
      PublishCharIsSafe(c);
    }
  }

  // --- Requests on a governed host ---

  ghost predicate Governs(e: PolicyEntry, host: string, ops: Ops) {
    ops.matches(host, e.host)
  }

  /** Some entry that governs the host permits the request. */
  ghost predicate SomePermits(
      entries: seq<PolicyEntry>, host: string, request: string, path: string, pathMatch: (string, string) -> bool,
      ops: Ops) {
    exists k :: 0 <= k < |entries| && Governs(entries[k], host, ops)
        && Permits(WithoutCredential(entries[k]), request, path, pathMatch)
  }

  lemma GoverningPermits(
      entries: seq<PolicyEntry>, host: string, request: string, path: string, pathMatch: (string, string) -> bool,
      ops: Ops)
    ensures (exists e ::
            e in Governing(host, WithoutCredentials(entries), ops) && Permits(e, request, path, pathMatch)) <==>
            SomePermits(entries, host, request, path, pathMatch, ops)
  {
    var docs := WithoutCredentials(entries);
    GoverningExactly(host, docs, ops);
    if k :|
      && 0 <= k < |entries| && Governs(entries[k], host, ops)
      && Permits(WithoutCredential(entries[k]), request, path, pathMatch)
    {
      assert docs[k] in docs && docs[k].host == entries[k].host;
    }
    if e :| e in Governing(host, docs, ops) && Permits(e, request, path, pathMatch) {
      var k :| 0 <= k < |docs| && docs[k] == e;
      assert Governs(entries[k], host, ops);
    }
  }

  lemma GovernedHasGoverning(entries: seq<PolicyEntry>, host: string, i: nat, ops: Ops)
    requires i < |entries| && Governs(entries[i], host, ops)
    ensures Governing(host, WithoutCredentials(entries), ops) != []
  {
    var docs := WithoutCredentials(entries);
    GoverningExactly(host, docs, ops);
    assert docs[i] in docs && docs[i].host == entries[i].host;
  }

  /** A governed host is decided by its entries alone, on any table. */
  lemma GovernedByEntries(
      net: Fields, ops: Ops, host: string, i: nat, request: string, path: string, pathMatch: (string, string) -> bool)
    requires i < |PolicyEntries(net, ops)| && Governs(PolicyEntries(net, ops)[i], host, ops)
    ensures Allows(Render(net, ops), host, request, path, pathMatch, ops) <==>
            SomePermits(PolicyEntries(net, ops), host, request, path, pathMatch, ops)
  {
    ExplainRendered(net, host, ops);
    GovernedHasGoverning(PolicyEntries(net, ops), host, i, ops);
    GoverningPermits(PolicyEntries(net, ops), host, request, path, pathMatch, ops);
  }

  /** Entries that match one host are siblings, and so state both lists. */
  lemma SharersStateBoth(entries: seq<PolicyEntry>, ops: Ops, host: string, i: nat, j: nat, k: nat)
    requires OverlapSound(ops) && i < |entries| && j < |entries| && k < |entries| && i != j
    requires Governs(entries[i], host, ops) && Governs(entries[j], host, ops) && Governs(entries[k], host, ops)
    requires forall n :: 0 <= n < |entries| && HasSibling(entries, n, ops) ==> StatesBoth(entries[n])
    ensures StatesBoth(entries[k])
  {
    var other := if k == i then j else i;
    assert ops.overlap(entries[k].host, entries[other].host);
    assert HasSibling(entries, k, ops);
  }

  /** The entry lists the request by method and by path; nothing is open by omission. */
  predicate Lists(e: PolicyEntry, request: string, path: string, pathMatch: (string, string) -> bool) {
    && StatesBoth(e) && request in e.methods.value
    && exists i :: 0 <= i < |e.paths.value| && pathMatch(path, e.paths.value[i])
  }

  ghost predicate SomeLists(
      entries: seq<PolicyEntry>, host: string, request: string, path: string, pathMatch: (string, string) -> bool,
      ops: Ops) {
    exists k :: 0 <= k < |entries| && Governs(entries[k], host, ops) && Lists(entries[k], request, path, pathMatch)
  }

  ghost predicate SharersState(entries: seq<PolicyEntry>, host: string, ops: Ops) {
    forall k :: 0 <= k < |entries| && Governs(entries[k], host, ops) ==> StatesBoth(entries[k])
  }

  lemma StatedIsListed(e: PolicyEntry, request: string, path: string, pathMatch: (string, string) -> bool)
    requires StatesBoth(e)
    ensures Permits(WithoutCredential(e), request, path, pathMatch) <==> Lists(e, request, path, pathMatch)
  {
    var methods, paths := Strings(e.methods.value), Strings(e.paths.value);
    if i :| 0 <= i < |e.methods.value| && e.methods.value[i] == request { assert methods[i] == JStr(request); }
    if i :| 0 <= i < |paths| && paths[i].JStr? && pathMatch(path, paths[i].text) {
      assert pathMatch(path, e.paths.value[i]);
    }
    if i :| 0 <= i < |e.paths.value| && pathMatch(path, e.paths.value[i]) {
      assert pathMatch(path, paths[i].text);
    }
  }

  lemma PermitsIsLists(
      entries: seq<PolicyEntry>, host: string, request: string, path: string, pathMatch: (string, string) -> bool,
      ops: Ops)
    requires SharersState(entries, host, ops)
    ensures SomePermits(entries, host, request, path, pathMatch, ops) <==>
            SomeLists(entries, host, request, path, pathMatch, ops)
  {
    if k :|
      && 0 <= k < |entries| && Governs(entries[k], host, ops)
      && Permits(WithoutCredential(entries[k]), request, path, pathMatch)
    {
      StatedIsListed(entries[k], request, path, pathMatch);
    }
    if k :| 0 <= k < |entries| && Governs(entries[k], host, ops) && Lists(entries[k], request, path, pathMatch) {
      StatedIsListed(entries[k], request, path, pathMatch);
    }
  }

  /**
    Where two entries of an accepted table match one host, every entry matching it states both
    lists, and a request is allowed exactly when one of them lists its method and its path.
   */
  lemma SharedHostIsDecidedByLists(
      net: Fields, config: Option<Fields>, ops: Ops, host: string, i: nat, j: nat,
      request: string, path: string, pathMatch: (string, string) -> bool)
    requires Accepted(net, config, ops) && OverlapSound(ops)
    requires i < |PolicyEntries(net, ops)| && j < |PolicyEntries(net, ops)| && i != j
    requires Governs(PolicyEntries(net, ops)[i], host, ops) && Governs(PolicyEntries(net, ops)[j], host, ops)
    ensures SharersState(PolicyEntries(net, ops), host, ops)
    ensures Allows(Render(net, ops), host, request, path, pathMatch, ops) <==>
            SomeLists(PolicyEntries(net, ops), host, request, path, pathMatch, ops)
  {
    var entries := PolicyEntries(net, ops);
    assert SharersState(entries, host, ops) by {
      AcceptedMeets(net, config, ops);
      forall k | 0 <= k < |entries| && Governs(entries[k], host, ops) ensures StatesBoth(entries[k]) {
        SharersStateBoth(entries, ops, host, i, j, k);
      }
    }
    GovernedByEntries(net, ops, host, i, request, path, pathMatch);
    PermitsIsLists(entries, host, request, path, pathMatch, ops);
  }

  // --- Apexes ---

  /**
    An allowlisted apex whose wildcard has an entry is matched by an entry itself: its connections
    are terminated and its requests decided by entries, never by the allowlist.
   */
  lemma AllowlistedApexIsGoverned(
      net: Fields, config: Option<Fields>, ops: Ops, h: nat, w: nat, request: string, path: string,
      pathMatch: (string, string) -> bool)
    returns (k: nat)
    requires Accepted(net, config, ops) && OverlapSound(ops)
    requires h < |StripAll(AllowedHosts(net))| && w < |PolicyEntries(net, ops)|
    requires ops.lower(Strip(PolicyEntries(net, ops)[w].host)) == ops.lower("*." + StripAll(AllowedHosts(net))[h])
    ensures var apex := StripAll(AllowedHosts(net))[h];
            && k < |PolicyEntries(net, ops)| && Governs(PolicyEntries(net, ops)[k], apex, ops)
            && Explain(Render(net, ops), apex, ops).Some?
            && TlsTreatment(Explain(Render(net, ops), apex, ops).value) == Terminated
            && (Allows(Render(net, ops), apex, request, path, pathMatch, ops) <==>
                SomePermits(PolicyEntries(net, ops), apex, request, path, pathMatch, ops))
  {
    var apex := StripAll(AllowedHosts(net))[h];
    AcceptedMeets(net, config, ops);
    k := UntrappedIsMatched(PolicyEntries(net, ops), apex, ops, w);
    GovernedHostIsTerminated(net, config, ops, apex, k);
    GovernedByEntries(net, ops, apex, k, request, path, pathMatch);
  }

  lemma UntrappedIsMatched(entries: seq<PolicyEntry>, apex: string, ops: Ops, w: nat) returns (k: nat)
    requires !ApexTrapped(entries, apex, ops) && w < |entries|
             && ops.lower(Strip(entries[w].host)) == ops.lower("*." + apex)
    ensures k < |entries| && Governs(entries[k], apex, ops)
  {
    k :| 0 <= k < |entries| && ops.matches(apex, entries[k].host);
  }

  // --- Exemptions ---

  /** A splice list in an accepted table means the workload is inspected, and each exemption touches the allowlist. */
  lemma SpliceListMeansInspect(net: Fields, config: Option<Fields>, ops: Ops, i: nat)
    requires Accepted(net, config, ops) && i < |SpliceHosts(net)|
    ensures EffectiveTls(net, ops) == "inspect"
    ensures OverlapsAny(SpliceHosts(net)[i], StripAll(AllowedHosts(net)), ops)
    ensures forall k :: 0 <= k < |PolicyEntries(net, ops)| ==>
            !ops.overlap(PolicyEntries(net, ops)[k].host, SpliceHosts(net)[i])
  {
    AcceptedMeets(net, config, ops);
    AcceptedTlsIsKnown(net, config, ops);
    forall k | 0 <= k < |PolicyEntries(net, ops)|
      ensures !ops.overlap(PolicyEntries(net, ops)[k].host, SpliceHosts(net)[i])
    {
      assert !OverlapsAny(PolicyEntries(net, ops)[k].host, SpliceHosts(net), ops);
    }
  }
}
