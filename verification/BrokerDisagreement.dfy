/**
  The container rules have no counterpart of the VM rule that entries for one host must agree on
  their credential. Whatever the host and the two credentials, a table that selects both for it
  is accepted, and the broker built from it serves only one of the two entries.
 */
module BrokerDisagreement {
  import opened Common
  import opened Toml
  import opened ContainerConfig
  import opened ContainerRules
  import opened ContainerMeaning
  import opened ContainerAcceptance
  import opened Broker
  import opened BrokerTables

  /** A credential block with nothing but the required keys. */
  ghost predicate IsBlock(v: Value, c: Credential) {
    && v.Table? && v.fields.Keys == {"name", "placeholder", "env"} && c.authHeader.None? && c.authFormat.None?
    && v.fields["name"] == Str(c.name) && v.fields["placeholder"] == Str(c.placeholder) && v.fields["env"] == Str(c.env)
  }

  /** A policy block that lets GET / through with a credential. */
  ghost predicate IsSelecting(v: Value, host: string, credential: string) {
    && v.Table? && v.fields.Keys == POLICY_KEYS
    && v.fields["host"] == Str(host) && v.fields["credential"] == Str(credential)
    && v.fields["methods"] == Arr([Str("GET")]) && v.fields["paths"] == Arr([Str("/")])
  }

  /** Two credentials, and an entry for each on the same host. */
  ghost predicate Disagrees(net: Fields, host: string, a: Credential, b: Credential) {
    && net.Keys == {"credential", "policy", "ca_delivery"} && net["ca_delivery"] == Str("image")
    && net["credential"].Arr? && |net["credential"].items| == 2
    && IsBlock(net["credential"].items[0], a) && IsBlock(net["credential"].items[1], b)
    && net["policy"].Arr? && |net["policy"].items| == 2
    && IsSelecting(net["policy"].items[0], host, a.name) && IsSelecting(net["policy"].items[1], host, b.name)
  }

  function Block(c: Credential): Value {
    Table(map["name" := Str(c.name), "placeholder" := Str(c.placeholder), "env" := Str(c.env)])
  }

  function Selecting(host: string, credential: string): Value {
    Table(map["host" := Str(host), "credential" := Str(credential),
              "methods" := Arr([Str("GET")]), "paths" := Arr([Str("/")])])
  }

  function DisagreeingTable(host: string, a: Credential, b: Credential): Fields {
    map["credential" := Arr([Block(a), Block(b)]),
        "policy" := Arr([Selecting(host, a.name), Selecting(host, b.name)]),
        "ca_delivery" := Str("image")]
  }

  lemma BlockIsOne(c: Credential)
    requires c.authHeader.None? && c.authFormat.None?
    ensures IsBlock(Block(c), c)
  {
  }

  lemma SelectingIsOne(host: string, credential: string)
    ensures IsSelecting(Selecting(host, credential), host, credential)
  {
  }

  /** There is such a table for every host and every two credentials that state no header or format. */
  lemma DisagreementExists(host: string, a: Credential, b: Credential)
    requires a.authHeader.None? && a.authFormat.None? && b.authHeader.None? && b.authFormat.None?
    ensures Disagrees(DisagreeingTable(host, a, b), host, a, b)
  {
    BlockIsOne(a);
    BlockIsOne(b);
    SelectingIsOne(host, a.name);
    SelectingIsOne(host, b.name);
  }

  /** What the rules ask of the names anyway. */
  predicate OrdinaryHost(host: string) {
    ProblemWith(Str(host)) == None && Strip(host) == host && '*' !in host
  }

  predicate OrdinaryPair(a: Credential, b: Credential) {
    && SegmentName(a.name) && SegmentName(b.name) && a.name != b.name
    && EnvName(a.env) && EnvName(b.env) && a.env != b.env && a.env !in CA_ENV_VARS && b.env !in CA_ENV_VARS
    && a.placeholder != "" && Strip(a.placeholder) == a.placeholder
    && b.placeholder != "" && Strip(b.placeholder) == b.placeholder
  }

  ghost predicate Ordinary(host: string, a: Credential, b: Credential) {
    OrdinaryHost(host) && OrdinaryPair(a, b)
  }

  // --- Words ---

  lemma {:induction false} NoSpaceLeft(s: string)
    requires s != "" ==> !IsSpace(s[0])
    ensures StripLeft(s) == s
  {
  }

  lemma NothingToStrip(s: string)
    requires forall i :: 0 <= i < |s| ==> !IsSpace(s[i])
    ensures Strip(s) == s
  {
    NoSpaceLeft(s);
  }

  lemma SegmentIsAWord(s: string)
    requires SegmentName(s) || EnvName(s)
    ensures Word(Some(Str(s))) == Some(s)
  {
    forall i | 0 <= i < |s| ensures !IsSpace(s[i]) {
      assert SegmentChar(s[i]) || EnvChar(s[i]);
    }
    NothingToStrip(s);
  }

  // --- Two such credentials ---

  const FIRST := Credential("x", "p", "X", None, None)
  const SECOND := Credential("y", "q", "Y", None, None)

  lemma TheTwoAreOrdinary()
    ensures OrdinaryPair(FIRST, SECOND)
  {
    NothingToStrip("p");
    NothingToStrip("q");
    assert "X" !in CA_ENV_VARS && "Y" !in CA_ENV_VARS by {
      assert forall v :: v in CA_ENV_VARS ==> |v| > 1;
    }
  }

  // --- The blocks ---

  lemma BlockReads(v: Value, c: Credential, ops: Ops)
    requires IsBlock(v, c) && SegmentName(c.name) && EnvName(c.env) && c.env !in CA_ENV_VARS
    requires c.placeholder != "" && Strip(c.placeholder) == c.placeholder
    ensures ReadCredential(v) == Some(c) && CredentialMeets(v, ops)
    ensures WordAt(v, "name") == Some(c.name) && WordAt(v, "env") == Some(c.env)
  {
    SegmentIsAWord(c.name);
    SegmentIsAWord(c.env);
  }

  lemma OneMoreCredential(items: seq<Value>, x: Value, c: Credential)
    requires ReadCredential(x) == Some(c)
    ensures ReadCredentials(items + [x]) == ReadCredentials(items) + [c]
  {
    assert (items + [x])[..|items|] == items;
  }

  lemma CredentialsRead(x: Value, y: Value, a: Credential, b: Credential)
    requires ReadCredential(x) == Some(a) && ReadCredential(y) == Some(b)
    ensures ReadCredentials([x, y]) == [a, b]
  {
    OneMoreCredential([], x, a);
    OneMoreCredential([x], y, b);
    assert [] + [x] == [x] && [x] + [y] == [x, y] && [] + [a] == [a] && [a] + [b] == [a, b];
  }

  lemma TwoMeet(x: Value, y: Value, ops: Ops)
    requires CredentialMeets(x, ops) && CredentialMeets(y, ops)
    ensures EachMeets([x, y], ops)
  {
  }

  lemma TwoWords(x: Value, y: Value, key: string)
    requires WordAt(x, key) != WordAt(y, key)
    ensures WordsDiffer([x, y], key)
  {
  }

  lemma CredentialsAreGood(x: Value, y: Value, ops: Ops)
    requires CredentialMeets(x, ops) && CredentialMeets(y, ops)
    requires WordAt(x, "name") != WordAt(y, "name") && WordAt(x, "env") != WordAt(y, "env")
    ensures CredentialsMeet([x, y], ops)
  {
    TwoMeet(x, y, ops);
    TwoWords(x, y, "name");
    TwoWords(x, y, "env");
  }

  lemma OneText(text: string, upper: bool, ops: Ops)
    ensures Texts([Str(text)], upper, ops) == [if upper then ops.upper(text) else text]
  {
    assert [Str(text)][..0] == [];
  }

  lemma ListsRead(ops: Ops)
    requires ops.upper("GET") == "GET"
    ensures ListMeets(true, Some(Arr([Str("GET")])), ops)
            && PolicyList(Some(Arr([Str("GET")])), true, ops) == Some(["GET"])
    ensures ListMeets(false, Some(Arr([Str("/")])), ops) && PolicyList(Some(Arr([Str("/")])), false, ops) == Some(["/"])
  {
    NothingToStrip("GET");
    NothingToStrip("/");
    OneText("GET", true, ops);
    OneText("/", false, ops);
  }

  function Entry(host: string, credential: string): PolicyEntry {
    PolicyEntry(host, Some(["GET"]), Some(["/"]), Some(credential))
  }

  lemma SelectingReads(v: Value, host: string, credential: string, names: set<string>, ops: Ops)
    requires IsSelecting(v, host, credential) && ProblemWith(Str(host)) == None && Strip(host) == host && '*' !in host
    requires SegmentName(credential) && credential in names && ops.upper("GET") == "GET"
    ensures ReadPolicy(v, ops) == Some(Entry(host, credential)) && PolicyMeets(v, names, ops)
  {
    SegmentIsAWord(credential);
    ListsRead(ops);
  }

  lemma OneMorePolicy(items: seq<Value>, x: Value, e: PolicyEntry, ops: Ops)
    requires ReadPolicy(x, ops) == Some(e)
    ensures ReadPolicies(items + [x], ops) == ReadPolicies(items, ops) + [e]
  {
    assert (items + [x])[..|items|] == items;
  }

  lemma PoliciesRead(x: Value, y: Value, e: PolicyEntry, f: PolicyEntry, ops: Ops)
    requires ReadPolicy(x, ops) == Some(e) && ReadPolicy(y, ops) == Some(f)
    ensures ReadPolicies([x, y], ops) == [e, f]
  {
    OneMorePolicy([], x, e, ops);
    OneMorePolicy([x], y, f, ops);
    assert [] + [x] == [x] && [x] + [y] == [x, y] && [] + [e] == [e] && [e] + [f] == [e, f];
  }

  lemma PoliciesAreGood(x: Value, y: Value, names: set<string>, ops: Ops)
    requires PolicyMeets(x, names, ops) && PolicyMeets(y, names, ops)
    ensures PoliciesMeet([x, y], names, ops)
  {
  }

  // --- The table ---

  lemma CredentialPart(x: Value, y: Value, a: Credential, b: Credential, host: string, ops: Ops)
    requires IsBlock(x, a) && IsBlock(y, b) && Ordinary(host, a, b)
    ensures ReadCredentials([x, y]) == [a, b] && CredentialsMeet([x, y], ops)
  {
    BlockReads(x, a, ops);
    BlockReads(y, b, ops);
    CredentialsRead(x, y, a, b);
    CredentialsAreGood(x, y, ops);
  }

  lemma PolicyPart(x: Value, y: Value, host: string, a: Credential, b: Credential, ops: Ops)
    requires IsSelecting(x, host, a.name) && IsSelecting(y, host, b.name) && Ordinary(host, a, b)
             && ops.upper("GET") == "GET"
    ensures ReadPolicies([x, y], ops) == [Entry(host, a.name), Entry(host, b.name)]
            && PoliciesMeet([x, y], {a.name, b.name}, ops)
  {
    SelectingReads(x, host, a.name, {a.name, b.name}, ops);
    SelectingReads(y, host, b.name, {a.name, b.name}, ops);
    PoliciesRead(x, y, Entry(host, a.name), Entry(host, b.name), ops);
    PoliciesAreGood(x, y, {a.name, b.name}, ops);
  }

  /** A table that sets none of the other keys. */
  ghost predicate Bare(net: Fields) {
    && "ports" !in net && "http2" !in net && "mode" !in net && "hosts" !in net && "allow" !in net
    && "internal" !in net && "splice" !in net && "tls" !in net && "tls_reason" !in net && "ca_mount_path" !in net
  }

  lemma DisagreeingIsBare(net: Fields, host: string, a: Credential, b: Credential)
    requires Disagrees(net, host, a, b)
    ensures Bare(net)
  {
  }

  lemma BareMeets(net: Fields, ops: Ops)
    requires Bare(net)
    ensures BlocksMeet(net, ops) && TlsMode(net) == None && TlsMeets(net) && PortsMeet(Get(net, "ports"))
            && !OnHostNetwork(net, None)
    ensures AllowedHosts(net) == [] && SpliceHosts(net) == [] && InternalHosts(net) == [] && CaMountPath(net) == None
  {
  }

  lemma TableReads(net: Fields, host: string, a: Credential, b: Credential, ops: Ops)
    requires Disagrees(net, host, a, b) && Ordinary(host, a, b) && ops.upper("GET") == "GET"
    ensures CredentialEntries(net) == [a, b] && PolicyEntries(net, ops) == [Entry(host, a.name), Entry(host, b.name)]
    ensures ArrayMeets(net, "credential") && CredentialsMeet(Items(net, "credential"), ops)
    ensures ArrayMeets(net, "policy") && PoliciesMeet(Items(net, "policy"), {a.name, b.name}, ops)
  {
    var cs, ps := net["credential"].items, net["policy"].items;
    assert cs == [cs[0], cs[1]] && ps == [ps[0], ps[1]];
    CredentialPart(cs[0], cs[1], a, b, host, ops);
    PolicyPart(ps[0], ps[1], host, a, b, ops);
  }

  lemma ImageIsDelivered(net: Fields)
    requires "ca_delivery" in net && net["ca_delivery"] == Str("image")
    ensures CaDelivery(net) == Some("image")
  {
    NothingToStrip("image");
  }

  lemma SetMeets(host: string, a: Credential, b: Credential, ops: Ops)
    ensures var t := Taken([], [], [], [a, b], [Entry(host, a.name), Entry(host, b.name)]);
            NothingIdle(t, ops) && EntriesMeet(t.entries, None, [], [], ops) && NamesOf(t.creds) == {a.name, b.name}
  {
    var creds, entries := [a, b], [Entry(host, a.name), Entry(host, b.name)];
    assert entries[0].credential == Some(a.name) && entries[1].credential == Some(b.name);
    assert creds[0] == a && creds[1] == b;
  }

  lemma AllDemandsMet(net: Fields, a: Credential, b: Credential, entries: seq<PolicyEntry>, ops: Ops)
    requires Bare(net) && CaDelivery(net) == Some("image") && entries != []
    requires CredentialEntries(net) == [a, b] && PolicyEntries(net, ops) == entries
    requires ArrayMeets(net, "credential") && CredentialsMeet(Items(net, "credential"), ops)
    requires ArrayMeets(net, "policy") && PoliciesMeet(Items(net, "policy"), {a.name, b.name}, ops)
    requires NothingIdle(Taken([], [], [], [a, b], entries), ops) && EntriesMeet(entries, None, [], [], ops)
    requires NamesOf([a, b]) == {a.name, b.name}
    ensures Meets(net, None, ops)
  {
    BareMeets(net, ops);
    assert Delivered(net, ops) == Taken([], [], [], [a, b], entries);
  }

  lemma DisagreeingTableIsAccepted(net: Fields, host: string, a: Credential, b: Credential, ops: Ops)
    requires Disagrees(net, host, a, b) && Ordinary(host, a, b) && ops.upper("GET") == "GET"
    ensures Accepted(net, None, ops)
    ensures BrokerHosts(net, ops) == [Pair(host, a.name), Pair(host, b.name)]
  {
    TableReads(net, host, a, b, ops);
    SetMeets(host, a, b, ops);
    DisagreeingIsBare(net, host, a, b);
    ImageIsDelivered(net);
    AllDemandsMet(net, a, b, [Entry(host, a.name), Entry(host, b.name)], ops);
    AcceptedExactly(net, None, ops);
    PairsOfTwo(host, a.name, b.name);
  }

  lemma PairsOfTwo(host: string, a: string, b: string)
    requires a != "" && b != ""
    ensures CredentialedPairs([Entry(host, a), Entry(host, b)]) == [Pair(host, a), Pair(host, b)]
  {
    var one, two := [Entry(host, a)], [Entry(host, a), Entry(host, b)];
    assert one[..0] == [] && two[..1] == one;
    assert CredentialedPairs(one) == [Pair(host, a)];
  }

  /** For every host and every two credentials: accepted, and one of the two entries is not served with its own. */
  lemma OneEntryIsNotServed(
      net: Fields, host: string, a: Credential, b: Credential, ops: Ops, workload: string, listen: string, uid: string)
    requires Disagrees(net, host, a, b) && Ordinary(host, a, b) && ops.upper("GET") == "GET" && SegmentName(workload)
    ensures Accepted(net, None, ops)
    ensures Command(workload, listen, uid, BrokerHosts(net, ops), CredentialEntries(net)).Some?
    ensures var argv := ArgvOf(Command(workload, listen, uid, BrokerHosts(net, ops), CredentialEntries(net)).value);
            !Served(workload, HostTable(argv), BrokerHosts(net, ops))
  {
    DisagreeingTableIsAccepted(net, host, a, b, ops);
    AcceptedCommand(net, None, ops, workload, listen, uid);
    var pairs := BrokerHosts(net, ops);
    assert pairs[0].host == pairs[1].host && pairs[0].credential != pairs[1].credential;
  }

  /** On every host the rules let through there is such a table, with these two credentials. */
  lemma EveryHostCanDisagree(host: string, ops: Ops, workload: string, listen: string, uid: string)
    requires OrdinaryHost(host) && ops.upper("GET") == "GET" && SegmentName(workload)
    ensures var net := DisagreeingTable(host, FIRST, SECOND);
            && Accepted(net, None, ops)
            && var command := Command(workload, listen, uid, BrokerHosts(net, ops), CredentialEntries(net));
               command.Some? && !Served(workload, HostTable(ArgvOf(command.value)), BrokerHosts(net, ops))
  {
    TheTwoAreOrdinary();
    DisagreementExists(host, FIRST, SECOND);
    OneEntryIsNotServed(DisagreeingTable(host, FIRST, SECOND), host, FIRST, SECOND, ops, workload, listen, uid);
  }
}
