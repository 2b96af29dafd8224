/** The inspector's policy document: rendered from the [network] table, read back by the `rules` report. */
module EgressDocument {
  import opened Common
  import opened Toml
  import opened ContainerConfig
  import opened ContainerRules
  import opened ContainerAgreement

  /** `JOther` is a number or boolean: its str() and its truth value. */
  datatype Json =
    | JNull
    | JStr(text: string)
    | JArr(items: seq<Json>)
    | JObj(fields: map<string, Json>)
    | JOther(shown: string, truth: bool)

  type Document = map<string, Json>

  // --- Rendering ---

  function Strings(texts: seq<string>): (r: seq<Json>)
    ensures |r| == |texts| && forall i :: 0 <= i < |texts| ==> r[i] == JStr(texts[i])
  {
    seq(|texts|, i requires 0 <= i < |texts| => JStr(texts[i]))
  }

  /** Absent is null, not an empty list. */
  function OptionalList(list: Option<seq<string>>): Json {
    if list.None? then JNull else JArr(Strings(list.value))
  }

  /** An entry without a credential emits no such key at all. */
  function RenderEntry(e: PolicyEntry): Json {
    var base: map<string, Json> :=
      map["host" := JStr(e.host), "methods" := OptionalList(e.methods), "paths" := OptionalList(e.paths)];
    if e.credential.Some? && e.credential.value != "" then JObj(base["credential" := JStr(e.credential.value)])
    else JObj(base)
  }

  function RenderEntries(entries: seq<PolicyEntry>): (r: seq<Json>)
    ensures |r| == |entries| && forall i :: 0 <= i < |entries| ==> r[i] == RenderEntry(entries[i])
  {
    seq(|entries|, i requires 0 <= i < |entries| => RenderEntry(entries[i]))
  }

  function Render(net: Fields, ops: Ops): Document {
    map[
      "tls" := JStr(EffectiveTls(net, ops)),
      "hosts" := JArr(Strings(AllowedHosts(net))),
      "internal_expected" := JArr(Strings(InternalHosts(net))),
      "splice" := JArr(Strings(SpliceHosts(net))),
      "http2" := JArr([]),
      "policy" := JArr(RenderEntries(PolicyEntries(net, ops)))]
  }

  // --- Reading back ---

  /** The matcher's own entry type, with list elements as they come; it has no credential. */
  datatype DocEntry = DocEntry(host: string, methods: Option<seq<Json>>, paths: Option<seq<Json>>)

  function Shown(v: Json): string {
    match v
    case JStr(s) => s
    case JOther(shown, _) => shown
    case JNull => "None"
    case _ => "[]"
  }

  predicate Holds(v: Json) {
    match v
    case JNull => false
    case JStr(text) => text != ""
    case JArr(items) => items != []
    case JObj(fields) => fields != map[]
    case JOther(_, truth) => truth
  }

  function Characters(text: string): (r: seq<string>)
    ensures |r| == |text| && forall i :: 0 <= i < |text| ==> r[i] == [text[i]]
  {
    seq(|text|, i requires 0 <= i < |text| => [text[i]])
  }

  /** Null, a number or a boolean: iterating over it raises. */
  predicate Uniterable(v: Json) { v.JNull? || v.JOther? }

  /** What iterating over a value gives: a list's elements, a text's characters; None where it raises. */
  function Listed(v: Json): Option<seq<Json>> {
    match v
    case JArr(items) => Some(items)
    case JStr(text) => Some(Strings(Characters(text)))
    case JObj(_) => Some([])
    case _ => None
  }

  /** A missing, null or otherwise false value counts as an empty list. */
  function DocList(doc: Document, key: string): Option<seq<Json>> {
    if key in doc && Holds(doc[key]) then Listed(doc[key]) else Some([])
  }

  function OptionalTuple(o: map<string, Json>, key: string): Option<seq<Json>> {
    if key !in o then None else Listed(o[key])
  }

  /** A list key of an entry that can be read: absent and null are not lists. */
  predicate Listable(o: map<string, Json>, key: string) {
    key in o && o[key] != JNull ==> !Uniterable(o[key])
  }

  /** What one element of the policy array gives. */
  datatype Reading = Skipped | Raises | Entry(entry: DocEntry)

  predicate HasHost(raw: Json) {
    raw.JObj? && "host" in raw.fields && Strip(Shown(raw.fields["host"])) != ""
  }

  function ReadEntry(raw: Json): Reading {
    if !HasHost(raw) then Skipped
    else if !Listable(raw.fields, "methods") || !Listable(raw.fields, "paths") then Raises
    else Entry(DocEntry(Shown(raw.fields["host"]), OptionalTuple(raw.fields, "methods"),
        OptionalTuple(raw.fields, "paths")))
  }

  function ReadAll(items: seq<Json>): Option<seq<DocEntry>> {
    if items == [] then Some([])
    else
      var front, e := ReadAll(items[..|items| - 1]), ReadEntry(items[|items| - 1]);
      if front == None || e == Raises then None
      else if e == Skipped then front
      else Some(front.value + [e.entry])
  }

  /** The entries of a document; None where reading them raises. */
  function Entries(doc: Document): Option<seq<DocEntry>> {
    var items := DocList(doc, "policy");
    if items == None then None else ReadAll(items.value)
  }

  lemma {:induction false} RaisesExactly(items: seq<Json>)
    ensures ReadAll(items) == None <==> exists i :: 0 <= i < |items| && ReadEntry(items[i]) == Raises
  {
    if items != [] {
      var front := items[..|items| - 1];
      RaisesExactly(front);
      if i :| 0 <= i < |front| && ReadEntry(front[i]) == Raises { assert ReadEntry(items[i]) == Raises; }
      if i :| 0 <= i < |items| && ReadEntry(items[i]) == Raises {
        assert i < |front| ==> ReadEntry(front[i]) == Raises;
      }
    }
  }

  /** Reads policy entries back from a document, passing over elements without a host. */
  method ReadEntries(doc: Document) returns (out: Option<seq<DocEntry>>)
    ensures out == Entries(doc)
  {
    var raws := DocList(doc, "policy");
    if raws == None {
      return None;
    }
    var items, read := raws.value, [];
    for i := 0 to |items|
      invariant ReadAll(items[..i]) == Some(read)
    {
      assert items[..i + 1][..i] == items[..i];
      var raw := items[i];
      if !HasHost(raw) {
        continue;
      }
      if !Listable(raw.fields, "methods") || !Listable(raw.fields, "paths") {
        assert ReadEntry(items[i]) == Raises;
        RaisesExactly(items);
        return None;
      }
      var e := DocEntry(Shown(raw.fields["host"]), OptionalTuple(raw.fields, "methods"),
          OptionalTuple(raw.fields, "paths"));
      read := read + [e];
    }
    assert items[..|items|] == items;
    out := Some(read);
  }

  /** The reader raises exactly on a number or boolean for the array, or for a list of an element with a host. */
  lemma ReadingRaisesExactly(doc: Document)
    ensures Entries(doc) == None <==>
            && "policy" in doc
            && match doc["policy"]
               case JOther(_, truth) => truth
               case JArr(items) =>
                 exists i :: 0 <= i < |items| && HasHost(items[i]) &&
                             !(Listable(items[i].fields, "methods") && Listable(items[i].fields, "paths"))
               case _ => false
  {
    var items := DocList(doc, "policy");
    if items.Some? {
      RaisesExactly(items.value);
    }
  }

  /** Elements of a policy array that gave no entry; None where counting raises. */
  function UnreadableEntries(doc: Document): Option<int> {
    if "policy" !in doc || !doc["policy"].JArr? then Some(0)
    else if Entries(doc) == None then None
    else Some(|doc["policy"].items| - |Entries(doc).value|)
  }

  // --- The report ---

  function Matching(host: string, patterns: seq<Json>, ops: Ops): seq<string> {
    if patterns == [] then []
    else
      var front, p := Matching(host, patterns[..|patterns| - 1], ops), Shown(patterns[|patterns| - 1]);
      if ops.matches(host, p) then front + [p] else front
  }

  /** The entries that govern a host: every one whose pattern matches it. */
  function Governing(host: string, entries: seq<DocEntry>, ops: Ops): seq<DocEntry> {
    if entries == [] then []
    else
      var front, e := Governing(host, entries[..|entries| - 1], ops), entries[|entries| - 1];
      if ops.matches(host, e.host) then front + [e] else front
  }

  datatype View = View(hosts: seq<string>, splice: seq<string>, governing: seq<DocEntry>, admitted: bool, tls: string)

  const TLS_DEFAULT := "inspect"

  /** None where a list or an entry of the document raises. */
  function Explain(doc: Document, host: string, ops: Ops): Option<View> {
    var lists := [DocList(doc, "hosts"), DocList(doc, "internal_expected"), DocList(doc, "splice")];
    if lists[0] == None || lists[1] == None || lists[2] == None || Entries(doc) == None then None
    else
      var hosts, governing := Matching(host, lists[0].value, ops), Governing(host, Entries(doc).value, ops);
      Some(View(hosts, Matching(host, lists[2].value, ops), governing, hosts != [] || governing != [],
                if "tls" in doc then Shown(doc["tls"]) else TLS_DEFAULT))
  }

  datatype Treatment =
    | RefusedThoughSpliced | Refused | UnknownMode | SplicedByMode | SplicedBy(patterns: seq<string>) | Terminated

  function TlsTreatment(v: View): Treatment {
    if !v.admitted then (if v.splice != [] then RefusedThoughSpliced else Refused)
    else if v.tls !in {"inspect", "splice"} then UnknownMode
    else if v.tls == "splice" then SplicedByMode
    else if v.splice != [] then SplicedBy(v.splice)
    else Terminated
  }

  // --- Round trip ---

  lemma {:induction false} StripLeftClean(s: string)
    ensures StripLeft(s) == "" || !IsSpace(StripLeft(s)[0])
  {
    if s != "" && IsSpace(s[0]) {
      StripLeftClean(s[1..]);
    }
  }

  lemma {:induction false} StripRightClean(s: string)
    ensures StripRight(s) == "" || !IsSpace(StripRight(s)[|StripRight(s)| - 1])
    ensures StripRight(s) <= s
  {
    if s != "" && IsSpace(s[|s| - 1]) {
      StripRightClean(s[..|s| - 1]);
    }
  }

  lemma StripTwice(s: string)
    ensures Strip(Strip(s)) == Strip(s)
  {
    StripLeftClean(s);
    StripRightClean(StripLeft(s));
  }

  lemma {:induction false} HostsNonblank(items: seq<Value>, ops: Ops)
    ensures forall i :: 0 <= i < |ReadPolicies(items, ops)| ==> Strip(ReadPolicies(items, ops)[i].host) != ""
  {
    if items != [] {
      HostsNonblank(items[..|items| - 1], ops);
      var last := items[|items| - 1];
      if ReadPolicy(last, ops).Some? {
        StripTwice(last.fields["host"].text);
      }
    }
  }

  function Elements(list: Option<seq<string>>): Option<seq<Json>> {
    if list == None then None else Some(Strings(list.value))
  }

  function WithoutCredential(e: PolicyEntry): DocEntry {
    DocEntry(e.host, Elements(e.methods), Elements(e.paths))
  }

  function WithoutCredentials(entries: seq<PolicyEntry>): (r: seq<DocEntry>)
    ensures |r| == |entries| && forall i :: 0 <= i < |entries| ==> r[i] == WithoutCredential(entries[i])
  {
    seq(|entries|, i requires 0 <= i < |entries| => WithoutCredential(entries[i]))
  }

  lemma EntryRoundTrip(e: PolicyEntry)
    requires Strip(e.host) != ""
    ensures ReadEntry(RenderEntry(e)) == Entry(WithoutCredential(e))
  {
    var o := RenderEntry(e).fields;
    assert o["host"] == JStr(e.host) && o["methods"] == OptionalList(e.methods) && o["paths"] == OptionalList(e.paths);
  }

  lemma {:induction false} ReadAllPointwise(items: seq<Json>, read: seq<DocEntry>)
    requires |items| == |read| && forall i :: 0 <= i < |items| ==> ReadEntry(items[i]) == Entry(read[i])
    ensures ReadAll(items) == Some(read)
  {
    if items != [] {
      var front, last := read[..|read| - 1], read[|read| - 1];
      ReadAllPointwise(items[..|items| - 1], front);
      assert ReadEntry(items[|items| - 1]) == Entry(last);
      assert read == front + [last];
    }
  }

  lemma EntriesRoundTrip(entries: seq<PolicyEntry>)
    requires forall i :: 0 <= i < |entries| ==> Strip(entries[i].host) != ""
    ensures ReadAll(RenderEntries(entries)) == Some(WithoutCredentials(entries))
  {
    var items, read := RenderEntries(entries), WithoutCredentials(entries);
    forall i | 0 <= i < |entries| ensures ReadEntry(items[i]) == Entry(read[i]) {
      EntryRoundTrip(entries[i]);
    }
    ReadAllPointwise(items, read);
  }

  lemma RenderedParts(net: Fields, ops: Ops)
    ensures DocList(Render(net, ops), "hosts") == Some(Strings(AllowedHosts(net)))
    ensures DocList(Render(net, ops), "internal_expected") == Some(Strings(InternalHosts(net)))
    ensures DocList(Render(net, ops), "splice") == Some(Strings(SpliceHosts(net)))
    ensures DocList(Render(net, ops), "policy") == Some(RenderEntries(PolicyEntries(net, ops)))
    ensures "policy" in Render(net, ops) && Render(net, ops)["policy"] == JArr(RenderEntries(PolicyEntries(net, ops)))
    ensures "tls" in Render(net, ops) && Shown(Render(net, ops)["tls"]) == EffectiveTls(net, ops)
  {
  }

  /** Rendering then reading loses nothing, for every table, accepted or not. */
  lemma DocumentIsLossless(net: Fields, ops: Ops)
    ensures Entries(Render(net, ops)) == Some(WithoutCredentials(PolicyEntries(net, ops)))
    ensures UnreadableEntries(Render(net, ops)) == Some(0)
  {
    RenderedParts(net, ops);
    HostsNonblank(Items(net, "policy"), ops);
    EntriesRoundTrip(PolicyEntries(net, ops));
  }

  /** The report on a rendered document, from the readers' lists. */
  function ViewOf(entries: seq<DocEntry>, hosts: seq<string>, splice: seq<string>, tls: string, host: string,
      ops: Ops): View {
    var listed, governing := Matching(host, Strings(hosts), ops), Governing(host, entries, ops);
    View(listed, Matching(host, Strings(splice), ops), governing, listed != [] || governing != [], tls)
  }

  function RenderedView(net: Fields, host: string, ops: Ops): View {
    var entries := WithoutCredentials(PolicyEntries(net, ops));
    ViewOf(entries, AllowedHosts(net), SpliceHosts(net), EffectiveTls(net, ops), host, ops)
  }

  lemma ExplainRendered(net: Fields, host: string, ops: Ops)
    ensures Explain(Render(net, ops), host, ops) == Some(RenderedView(net, host, ops))
  {
    RenderedParts(net, ops);
    DocumentIsLossless(net, ops);
  }

  // --- Requests ---

  predicate Permits(e: DocEntry, request: string, path: string, pathMatch: (string, string) -> bool) {
    && (e.methods.None? || JStr(request) in e.methods.value)
    && (e.paths.None? || exists i ::
          0 <= i < |e.paths.value| && e.paths.value[i].JStr? && pathMatch(path, e.paths.value[i].text))
  }

  /** A governed host is decided by its entries alone; any other host by the allowlist. */
  ghost predicate Allows(doc: Document, host: string, request: string, path: string,
      pathMatch: (string, string) -> bool, ops: Ops) {
    var view := Explain(doc, host, ops);
    view.Some? && AllowsBy(view.value, request, path, pathMatch)
  }

  lemma {:induction false} GoverningExactly(host: string, entries: seq<DocEntry>, ops: Ops)
    ensures forall e :: e in Governing(host, entries, ops) <==> e in entries && ops.matches(host, e.host)
  {
    if entries != [] {
      GoverningExactly(host, entries[..|entries| - 1], ops);
      assert entries == entries[..|entries| - 1] + [entries[|entries| - 1]];
    }
  }

  lemma {:induction false} PoliciesExactly(items: seq<Value>, ops: Ops)
    ensures forall e :: e in ReadPolicies(items, ops) <==> exists v :: v in items && ReadPolicy(v, ops) == Some(e)
  {
    if items != [] {
      var front, last := items[..|items| - 1], items[|items| - 1];
      PoliciesExactly(front, ops);
      assert items == front + [last];
      forall e ensures e in ReadPolicies(items, ops) <==> exists v :: v in items && ReadPolicy(v, ops) == Some(e) {
        if v :| v in items && ReadPolicy(v, ops) == Some(e) {
          if v in front {
            assert e in ReadPolicies(front, ops);
          }
        }
        if e in ReadPolicies(front, ops) {
          var v :| v in front && ReadPolicy(v, ops) == Some(e);
          assert v in items;
        }
        assert last in items;
      }
    }
  }

  lemma SameItems(a: seq<Value>, b: seq<Value>, v: Value)
    requires multiset(a) == multiset(b)
    ensures v in a <==> v in b
  {
    assert v in a <==> v in multiset(a);
    assert v in b <==> v in multiset(b);
  }

  lemma WithoutMembers(a: seq<PolicyEntry>, b: seq<PolicyEntry>, e: DocEntry)
    requires forall p :: p in a ==> p in b
    ensures e in WithoutCredentials(a) ==> e in WithoutCredentials(b)
  {
    if e in WithoutCredentials(a) {
      var i :| 0 <= i < |a| && WithoutCredentials(a)[i] == e;
      assert a[i] in b;
      var j :| 0 <= j < |b| && b[j] == a[i];
      assert WithoutCredentials(b)[j] == e;
    }
  }

  /** The entries read depend on the policy blocks as a set. */
  lemma SameBlocksSameEntries(a: seq<Value>, b: seq<Value>, ops: Ops, e: DocEntry)
    requires multiset(a) == multiset(b)
    ensures e in WithoutCredentials(ReadPolicies(a, ops)) <==> e in WithoutCredentials(ReadPolicies(b, ops))
  {
    forall v ensures v in a <==> v in b { SameItems(a, b, v); }
    PoliciesExactly(a, ops);
    PoliciesExactly(b, ops);
    WithoutMembers(ReadPolicies(a, ops), ReadPolicies(b, ops), e);
    WithoutMembers(ReadPolicies(b, ops), ReadPolicies(a, ops), e);
  }

  ghost predicate AllowsBy(v: View, request: string, path: string, pathMatch: (string, string) -> bool) {
    if v.governing != [] then exists e :: e in v.governing && Permits(e, request, path, pathMatch)
    else v.hosts != []
  }

  lemma SameSetSameAnswer(v: View, w: View, request: string, path: string, pathMatch: (string, string) -> bool)
    requires v.hosts == w.hosts && forall e :: e in v.governing <==> e in w.governing
    ensures AllowsBy(v, request, path, pathMatch) <==> AllowsBy(w, request, path, pathMatch)
  {
    assert v.governing != [] ==> v.governing[0] in w.governing;
    assert w.governing != [] ==> w.governing[0] in v.governing;
  }

  /** Reordering the policy blocks changes no permitted request. */
  lemma ReorderingChangesNothing(
      net: Fields, blocks: seq<Value>, host: string, request: string, path: string,
      pathMatch: (string, string) -> bool, ops: Ops)
    requires "policy" in net && net["policy"].Arr? && multiset(blocks) == multiset(net["policy"].items)
    ensures Allows(Render(net, ops), host, request, path, pathMatch, ops) <==>
            Allows(Render(net["policy" := Arr(blocks)], ops), host, request, path, pathMatch, ops)
  {
    var net', items := net["policy" := Arr(blocks)], net["policy"].items;
    assert AllowedHosts(net') == AllowedHosts(net);
    ExplainRendered(net, host, ops);
    ExplainRendered(net', host, ops);
    var a, b := WithoutCredentials(ReadPolicies(items, ops)), WithoutCredentials(ReadPolicies(blocks, ops));
    GoverningExactly(host, a, ops);
    GoverningExactly(host, b, ops);
    forall e ensures e in a <==> e in b { SameBlocksSameEntries(items, blocks, ops, e); }
    SameSetSameAnswer(RenderedView(net, host, ops), RenderedView(net', host, ops), request, path, pathMatch);
  }

  // --- Every governed host is terminated ---

  /** All that is assumed of the unseen overlap test. */
  ghost predicate OverlapSound(ops: Ops) {
    forall h, p, q :: ops.matches(h, p) && ops.matches(h, q) ==> ops.overlap(p, q)
  }

  lemma {:induction false} NotAlsoSpliced(entries: seq<PolicyEntry>, splice: seq<string>, ops: Ops, i: nat, j: nat)
    requires AlsoSplicedErrors(entries, splice, ops) == [] && i < |entries| && j < |splice|
    ensures !ops.overlap(entries[i].host, splice[j])
  {
    if i < |entries| - 1 {
      NotAlsoSpliced(entries[..|entries| - 1], splice, ops, i, j);
    }
  }

  lemma {:induction false} MatchingExactly(host: string, patterns: seq<string>, ops: Ops)
    ensures Matching(host, Strings(patterns), ops) == [] <==>
            forall i :: 0 <= i < |patterns| ==> !ops.matches(host, patterns[i])
  {
    if patterns != [] {
      var front := patterns[..|patterns| - 1];
      MatchingExactly(host, front, ops);
      assert Strings(patterns)[..|patterns| - 1] == Strings(front);
      assert forall i :: 0 <= i < |front| ==> front[i] == patterns[i];
    }
  }

  lemma PolicyMeansInspect(net: Fields, config: Option<Fields>, ops: Ops)
    requires Accepted(net, config, ops) && PolicyEntries(net, ops) != []
    ensures EffectiveTls(net, ops) == "inspect"
    ensures AlsoSplicedErrors(PolicyEntries(net, ops), SpliceHosts(net), ops) == []
  {
    AcceptedParts(net, config, ops);
    ReadersDropNothing(net, config, ops);
    assert TlsMode(net) != Some("splice");
  }

  lemma GovernedView(entries: seq<PolicyEntry>, hosts: seq<string>, splice: seq<string>, ops: Ops, host: string, i: nat)
    requires OverlapSound(ops) && AlsoSplicedErrors(entries, splice, ops) == []
    requires i < |entries| && ops.matches(host, entries[i].host)
    ensures var v := ViewOf(WithoutCredentials(entries), hosts, splice, "inspect", host, ops);
            v.admitted && TlsTreatment(v) == Terminated
  {
    GoverningExactly(host, WithoutCredentials(entries), ops);
    assert WithoutCredentials(entries)[i] in Governing(host, WithoutCredentials(entries), ops);
    forall j | 0 <= j < |splice| ensures !ops.matches(host, splice[j]) {
      NotAlsoSpliced(entries, splice, ops, i, j);
    }
    MatchingExactly(host, splice, ops);
  }

  /** On an accepted table a host any policy entry matches is admitted, terminated and parsed. */
  lemma GovernedHostIsTerminated(net: Fields, config: Option<Fields>, ops: Ops, host: string, i: nat)
    requires Accepted(net, config, ops) && OverlapSound(ops)
    requires i < |PolicyEntries(net, ops)| && ops.matches(host, PolicyEntries(net, ops)[i].host)
    ensures var v := Explain(Render(net, ops), host, ops);
            v.Some? && v.value.admitted && TlsTreatment(v.value) == Terminated
  {
    PolicyMeansInspect(net, config, ops);
    ExplainRendered(net, host, ops);
    GovernedView(PolicyEntries(net, ops), AllowedHosts(net), SpliceHosts(net), ops, host, i);
  }

  lemma {:induction false} NothingGoverns(entries: seq<PolicyEntry>, host: string, ops: Ops)
    requires forall i :: 0 <= i < |entries| ==> !ops.matches(host, entries[i].host)
    ensures Governing(host, WithoutCredentials(entries), ops) == []
  {
    if entries != [] {
      NothingGoverns(entries[..|entries| - 1], host, ops);
      assert WithoutCredentials(entries)[..|entries| - 1] == WithoutCredentials(entries[..|entries| - 1]);
    }
  }

  ghost predicate MatchesOne(host: string, patterns: seq<string>, ops: Ops) {
    exists i :: 0 <= i < |patterns| && ops.matches(host, patterns[i])
  }

  lemma UngovernedView(
      entries: seq<PolicyEntry>, hosts: seq<string>, splice: seq<string>, tls: string, ops: Ops, host: string)
    requires tls == "inspect" || tls == "splice"
    requires forall i :: 0 <= i < |entries| ==> !ops.matches(host, entries[i].host)
    ensures TlsTreatment(ViewOf(WithoutCredentials(entries), hosts, splice, tls, host, ops)) ==
            if !MatchesOne(host, hosts, ops)
                then (if MatchesOne(host, splice, ops) then RefusedThoughSpliced else Refused)
            else if tls == "splice" then SplicedByMode
            else if MatchesOne(host, splice, ops) then SplicedBy(Matching(host, Strings(splice), ops))
            else Terminated
  {
    NothingGoverns(entries, host, ops);
    MatchingExactly(host, hosts, ops);
    MatchingExactly(host, splice, ops);
  }

  lemma AcceptedTlsIsKnown(net: Fields, config: Option<Fields>, ops: Ops)
    requires Accepted(net, config, ops)
    ensures EffectiveTls(net, ops) == "inspect" || EffectiveTls(net, ops) == "splice"
  {
    AcceptedParts(net, config, ops);
    CleanTlsIsKnown(net, ops);
  }

  lemma CleanTlsIsKnown(net: Fields, ops: Ops)
    requires TlsErrors(net) == []
    ensures EffectiveTls(net, ops) == "inspect" || EffectiveTls(net, ops) == "splice"
  {
  }

  /** The treatment of every other host of an accepted table, from its lists and its mode. */
  lemma UngovernedTreatment(net: Fields, config: Option<Fields>, ops: Ops, host: string)
    requires Accepted(net, config, ops)
    requires forall i :: 0 <= i < |PolicyEntries(net, ops)| ==> !ops.matches(host, PolicyEntries(net, ops)[i].host)
    ensures Explain(Render(net, ops), host, ops).Some?
    ensures TlsTreatment(Explain(Render(net, ops), host, ops).value) ==
            if !MatchesOne(host, AllowedHosts(net), ops) then
              (if MatchesOne(host, SpliceHosts(net), ops) then RefusedThoughSpliced else Refused)
            else if EffectiveTls(net, ops) == "splice" then SplicedByMode
            else if MatchesOne(host, SpliceHosts(net), ops)
                then SplicedBy(Matching(host, Strings(SpliceHosts(net)), ops))
            else Terminated
  {
    AcceptedTlsIsKnown(net, config, ops);
    ExplainRendered(net, host, ops);
    UngovernedView(PolicyEntries(net, ops), AllowedHosts(net), SpliceHosts(net), EffectiveTls(net, ops), ops, host);
  }
}
