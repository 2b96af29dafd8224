/** validate_container_network: the loops that apply the rules and collect their errors. */
module ContainerValidator {
  import opened Common
  import opened Toml
  import opened ContainerConfig
  import opened ContainerRules
  import opened ContainerMeaning
  import opened ContainerAcceptance

  method ValidatePublishPorts(ports: Option<Value>) returns (errors: seq<Error>)
    ensures errors == PublishErrors(ports)
    ensures errors == [] <==> PortsMeet(ports)
  {
    PublishExactly(ports);
    errors := [];
    if ports == None {
      return;
    }
    if !ports.value.Arr? {
      return [Error("ports", NotAnArray)];
    }
    var specs := ports.value.items;
    for i := 0 to |specs|
      invariant errors == PortErrors(specs[..i])
    {
      assert specs[..i + 1][..i] == specs[..i];
      var spec := specs[i];
      if Word(Some(spec)) == None {
        errors := errors + [Error("ports", BlankPort)];
        continue;
      }
      if exists k :: 0 <= k < |spec.text| && !PublishChar(spec.text[k]) {
        errors := errors + [Error("ports", PortCharacters)];
      }
    }
    assert specs[..|specs|] == specs;
  }

  method ValidateHosts(net: Fields) returns (hosts: seq<string>, errors: seq<Error>)
    ensures hosts == ValidHosts(net)
    ensures errors == ArrayErrors(net, "hosts") + HostErrors(Items(net, "hosts"))
  {
    hosts, errors := [], ArrayErrors(net, "hosts");
    var raw := Items(net, "hosts");
    for i := 0 to |raw|
      invariant errors == ArrayErrors(net, "hosts") + HostErrors(raw[..i])
      invariant hosts == StrippedHosts(raw[..i])
    {
      assert raw[..i + 1][..i] == raw[..i];
      var problem := ProblemWith(raw[i]);
      if problem.Some? {
        errors := errors + [Error("hosts", BadHost(problem.value))];
      }
      var word := Word(Some(raw[i]));
      if word.Some? {
        hosts := hosts + [word.value];
      }
    }
    assert raw[..|raw|] == raw;
  }

  method ValidateAllowItem(item: Value) returns (errors: seq<Error>)
    ensures errors == AllowItemErrors(item)
  {
    errors := [];
    if !item.Table? {
      return [Error("allow", EntryNotATable)];
    }
    var host, address := Word(Get(item.fields, "host")), Word(Get(item.fields, "address"));
    if host == None && address == None {
      return [Error("allow", NoDestination)];
    }
    if host.Some? && address.Some? {
      return [Error("allow", TwoDestinations)];
    }
    var port := Get(item.fields, "port");
    if port == None || !port.value.Int? || !(1 <= port.value.number <= 65535) {
      errors := errors + [Error("allow", PortOutOfRange)];
    } else if port.value.number in {80, 443} {
      errors := errors + [Error("allow", InspectedPort)];
    }
    if !HasReason(item.fields) {
      errors := errors + [Error("allow", NoReason)];
    }
  }

  method ValidateAllow(raw: seq<Value>) returns (errors: seq<Error>)
    ensures errors == AllowErrors(raw)
  {
    errors := [];
    for i := 0 to |raw|
      invariant errors == AllowErrors(raw[..i])
    {
      assert raw[..i + 1][..i] == raw[..i];
      var itemErrors := ValidateAllowItem(raw[i]);
      errors := errors + itemErrors;
    }
    assert raw[..|raw|] == raw;
  }

  method ValidateReasonItem(key: string, item: Value) returns (host: Option<string>, errors: seq<Error>)
    ensures host == ReasonItemHost(item)
    ensures errors == ReasonItemErrors(key, item)
  {
    if !item.Table? {
      return None, [Error(key, EntryNotATable)];
    }
    if "host" !in item.fields {
      return None, [Error(key, NoHost)];
    }
    var problem := ProblemWith(item.fields["host"]);
    if problem.Some? {
      return None, [Error(key, BadHost(problem.value))];
    }
    host, errors := Some(Strip(item.fields["host"].text)), [];
    if !HasReason(item.fields) {
      errors := [Error(key, NoReason)];
    }
  }

  /** Shared by the two arrays whose entries are a host and a reason. */
  method ValidateHostReasonArray(net: Fields, key: string) returns (hosts: seq<string>, errors: seq<Error>)
    ensures hosts == ReasonValidHosts(Items(net, key))
    ensures errors == ArrayErrors(net, key) + ReasonErrors(key, Items(net, key))
  {
    hosts, errors := [], [];
    var raw := Items(net, key);
    for i := 0 to |raw|
      invariant hosts == ReasonValidHosts(raw[..i])
      invariant errors == ReasonErrors(key, raw[..i])
    {
      assert raw[..i + 1][..i] == raw[..i];
      var host, more := ValidateReasonItem(key, raw[i]);
      errors := errors + more;
      if host.Some? {
        hosts := hosts + [host.value];
      }
    }
    assert raw[..|raw|] == raw;
    errors := ArrayErrors(net, key) + errors;
  }

  /** One credential block; the accumulators are the loop's `creds`, `seen`, `seen_envs` and `errors`. */
  method ValidateCredential(item: Value, st: CredState, ops: Ops) returns (st': CredState)
    ensures st' == CheckCredential(st, item, ops)
  {
    st' := st;
    if !item.Table? {
      return Complain(st', EntryNotATable);
    }
    var f := item.fields;
    if f.Keys - CREDENTIAL_KEYS != {} {
      st' := Complain(st', UnknownKey);
    }
    if FirstMissing(f).Some? {
      return Complain(st', Missing(FirstMissing(f).value));
    }
    var name, placeholder, env := Word(Get(f, "name")).value, Word(Get(f, "placeholder")).value,
        Word(Get(f, "env")).value;
    if !SegmentName(name) {
      return Complain(st', BadCredentialName);
    }
    if !EnvName(env) {
      return Complain(st', BadEnvName);
    }
    if env in CA_ENV_VARS {
      return Complain(st', ReservedEnv);
    }
    if env in st'.envs {
      return Complain(st', RepeatedEnv);
    }
    st' := st'.(envs := st'.envs + {env});
    if name in st'.names {
      return Complain(st', RepeatedName);
    }
    st' := st'.(names := st'.names + {name});
    var header, format := None, None;
    if "auth_header" in f {
      header := Word(Get(f, "auth_header"));
      if header == None {
        return Complain(st', BlankAuthHeader);
      }
      st' := st'.(errors := st'.errors + AuthHeaderErrors(header.value, ops));
    }
    if "auth_format" in f {
      format := Word(Get(f, "auth_format"));
      if format == None {
        return Complain(st', BlankAuthFormat);
      }
      st' := st'.(errors := st'.errors + AuthFormatErrors(format.value, ops));
    }
    st' := st'.(creds := st'.creds + [Credential(name, placeholder, env, header, format)]);
  }

  method ValidateCredentialEntries(net: Fields, ops: Ops) returns (creds: seq<Credential>, errors: seq<Error>)
    ensures creds == ValidCredentials(net, ops)
    ensures errors == ArrayErrors(net, "credential") + CheckCredentials(Items(net, "credential"), ops).errors
  {
    var raw := Items(net, "credential");
    var st := CredState([], {}, {}, []);
    for i := 0 to |raw|
      invariant st == CheckCredentials(raw[..i], ops)
    {
      assert raw[..i + 1][..i] == raw[..i];
      st := ValidateCredential(raw[i], st, ops);
    }
    assert raw[..|raw|] == raw;
    creds, errors := st.creds, ArrayErrors(net, "credential") + st.errors;
  }

  /** A `methods` or `paths` list of one policy entry. */
  method ValidateList(isMethod: bool, value: Option<Value>, ops: Ops)
    returns (list: Option<seq<string>>, errors: seq<Error>)
    ensures list == ListOf(isMethod, value, ops)
    ensures errors == ListErrors(isMethod, value, ops)
  {
    list, errors := None, [];
    if value == None {
      return;
    }
    if !value.value.Arr? {
      return Some([]), [Error("policy", ListNotAnArray)];
    }
    var items, out := value.value.items, [];
    for i := 0 to |items|
      invariant out == GoodItems(isMethod, items[..i], ops)
      invariant errors == ItemErrors(isMethod, items[..i], ops)
    {
      assert items[..i + 1][..i] == items[..i];
      var problem := ItemProblem(isMethod, items[i], ops);
      if problem.Some? {
        errors := errors + [Error("policy", problem.value)];
        continue;
      }
      out := out + [if isMethod then ops.upper(items[i].text) else items[i].text];
    }
    assert items[..|items|] == items;
    if items == [] {
      errors := errors + [Error("policy", EmptyList)];
    }
    list := Some(out);
  }

  method ValidateSelector(host: string, v: Option<Value>, names: set<string>)

    returns (credential: Option<string>, errors: seq<Error>)
    ensures credential == Word(v)
    ensures errors == SelectorErrors(host, v, names)
  {
    credential, errors := Word(v), [];
    if v == None {
      return;
    }
    if credential == None {
      errors := [Error("policy", BadSelector)];
      return;
    }
    if credential.value !in names {
      errors := errors + [Error("policy", UndeclaredCredential)];
    }
    if '*' in host {
      errors := errors + [Error("policy", WildcardCredential)];
    }
  }

  /** Everything after the host. */
  method ValidatePolicyFields(f: Fields, host: string, names: set<string>, ops: Ops)
    returns (entry: PolicyEntry, errors: seq<Error>)
    ensures entry ==
            PolicyEntry(host, ListOf(true, Get(f, "methods"), ops), ListOf(false, Get(f, "paths"), ops),
                Word(Get(f, "credential")))
    ensures errors == ListErrors(true, Get(f, "methods"), ops) + ListErrors(false, Get(f, "paths"), ops) +
                      SelectorErrors(host, Get(f, "credential"), names)
  {
    var methods, paths, methodErrors, pathErrors;
    methods, methodErrors := ValidateList(true, Get(f, "methods"), ops);
    paths, pathErrors := ValidateList(false, Get(f, "paths"), ops);
    var credential, selectorErrors := ValidateSelector(host, Get(f, "credential"), names);
    errors := methodErrors + pathErrors + selectorErrors;
    entry := PolicyEntry(host, methods, paths, credential);
  }

  /** The host, and then everything after it. */
  method ValidatePolicyHost(f: Fields, names: set<string>, ops: Ops)
    returns (entry: Option<PolicyEntry>, errors: seq<Error>)
    ensures entry == PolicyItemEntry(Table(f), ops)
    ensures errors == PolicyFieldErrors(f, names, ops)
  {
    if "host" !in f {
      return None, [Error("policy", NoHost)];
    }
    var problem := ProblemWith(f["host"]);
    if problem.Some? {
      return None, [Error("policy", BadHost(problem.value))];
    }
    var built;
    built, errors := ValidatePolicyFields(f, Strip(f["host"].text), names, ops);
    entry := Some(built);
  }

  method ValidatePolicyItem(item: Value, names: set<string>, ops: Ops)

    returns (entry: Option<PolicyEntry>, errors: seq<Error>)
    ensures entry == PolicyItemEntry(item, ops)
    ensures errors == PolicyItemErrors(item, names, ops)
  {
    if !item.Table? {
      return None, [Error("policy", EntryNotATable)];
    }
    var unknown := if item.fields.Keys - POLICY_KEYS != {} then [Error("policy", UnknownKey)] else [];
    entry, errors := ValidatePolicyHost(item.fields, names, ops);
    errors := unknown + errors;
  }

  method ValidatePolicies(raw: seq<Value>, names: set<string>, ops: Ops)

    returns (entries: seq<PolicyEntry>, errors: seq<Error>)
    ensures entries == PolicyValidEntries(raw, ops)
    ensures errors == PolicyErrors(raw, names, ops)
  {
    entries, errors := [], [];
    for i := 0 to |raw|
      invariant entries == PolicyValidEntries(raw[..i], ops)
      invariant errors == PolicyErrors(raw[..i], names, ops)
    {
      assert raw[..i + 1][..i] == raw[..i];
      var entry, itemErrors := ValidatePolicyItem(raw[i], names, ops);
      errors := errors + itemErrors;
      if entry.Some? {
        entries := entries + [entry.value];
      }
    }
    assert raw[..|raw|] == raw;
  }

  /** A splice exemption must cover something allowlisted. */
  method CheckCoverage(splice: seq<string>, hosts: seq<string>, ops: Ops) returns (errors: seq<Error>)
    ensures errors == SpliceCoverErrors(splice, hosts, ops)
  {
    errors := [];
    for i := 0 to |splice|
      invariant errors == SpliceCoverErrors(splice[..i], hosts, ops)
    {
      assert splice[..i + 1][..i] == splice[..i];
      if !OverlapsAny(splice[i], hosts, ops) {
        errors := errors + [Error("splice", NotAllowlisted)];
      }
    }
    assert splice[..|splice|] == splice;
  }

  /** Every credential is selected, and every internal entry names something on a list. */
  method CheckSelections(creds: seq<Credential>, entries: seq<PolicyEntry>, internals: seq<string>,
      hosts: seq<string>, ops: Ops)
    returns (errors: seq<Error>)
    ensures errors == UnselectedErrors(creds, entries) + InternalCoverErrors(internals, hosts, HostsOf(entries), ops)
  {
    errors := [];
    for i := 0 to |creds|
      invariant errors == UnselectedErrors(creds[..i], entries)
    {
      assert creds[..i + 1][..i] == creds[..i];
      if !Selects(entries, creds[i].name) {
        errors := errors + [Error("credential", UnselectedCredential)];
      }
    }
    assert creds[..|creds|] == creds;
    var policyHosts := HostsOf(entries);
    for i := 0 to |internals|
      invariant errors ==
                UnselectedErrors(creds, entries) + InternalCoverErrors(internals[..i], hosts, policyHosts, ops)
    {
      assert internals[..i + 1][..i] == internals[..i];
      if !OverlapsAny(internals[i], hosts, ops) && !OverlapsAny(internals[i], policyHosts, ops) {
        errors := errors + [Error("internal", NotAllowlisted)];
      }
    }
    assert internals[..|internals|] == internals;
  }

  method CheckAlsoSpliced(entries: seq<PolicyEntry>, splice: seq<string>, ops: Ops) returns (errors: seq<Error>)
    ensures errors == AlsoSplicedErrors(entries, splice, ops)
  {
    errors := [];
    for i := 0 to |entries|
      invariant errors == AlsoSplicedErrors(entries[..i], splice, ops)
    {
      assert entries[..i + 1][..i] == entries[..i];
      var j, hit := 0, false;
      while j < |splice| && !hit
        invariant j <= |splice|
        invariant forall k :: 0 <= k < j && !hit ==> !ops.overlap(entries[i].host, splice[k])
        invariant hit ==> OverlapsAny(entries[i].host, splice, ops)
        decreases |splice| - j, !hit
      {
        hit := ops.overlap(entries[i].host, splice[j]);
        j := j + 1;
      }
      if hit {
        errors := errors + [Error("policy", PolicyAlsoSpliced)];
      }
    }
    assert entries[..|entries|] == entries;
  }

  method CheckOverlaps(entries: seq<PolicyEntry>, ops: Ops) returns (errors: seq<Error>)
    ensures errors == OverlapErrors(entries, |entries|, ops)
  {
    errors := [];
    for i := 0 to |entries|
      invariant errors == OverlapErrors(entries, i, ops)
    {
      if !HasSibling(entries, i, ops) {
        continue;
      }
      if entries[i].methods == None || entries[i].paths == None {
        errors := errors + [Error("policy", OverlapOmitsKeys)];
      }
    }
  }

  method CheckApexes(entries: seq<PolicyEntry>, hosts: seq<string>, ops: Ops) returns (errors: seq<Error>)
    ensures errors == ApexErrors(entries, hosts, ops)
  {
    errors := [];
    for i := 0 to |hosts|
      invariant errors == ApexErrors(entries, hosts[..i], ops)
    {
      assert hosts[..i + 1][..i] == hosts[..i];
      if ApexTrapped(entries, hosts[i], ops) {
        errors := errors + [Error("policy", ApexUncovered)];
      }
    }
    assert hosts[..|hosts|] == hosts;
  }

  /** The rules on a non-empty set of policy entries. */
  method CheckPolicySet(net: Fields, entries: seq<PolicyEntry>, splice: seq<string>, hosts: seq<string>, ops: Ops)
    returns (errors: seq<Error>)
    requires entries == ValidEntries(net, ops) && splice == ValidSplice(net) && hosts == ValidHosts(net)
    ensures errors == PolicySetErrors(net, ops)
    ensures errors == [] <==> EntriesMeet(entries, TlsMode(net), splice, hosts, ops)
  {
    PolicySetExactly(net, ops);
    if entries == [] {
      return [];
    }
    errors := if TlsMode(net) == Some("splice") then [Error("policy", PolicyUnderSplice)] else [];
    var spliced := CheckAlsoSpliced(entries, splice, ops);
    var overlaps := CheckOverlaps(entries, ops);
    var apexes := CheckApexes(entries, hosts, ops);
    errors := errors + spliced + overlaps + apexes;
  }

  method CheckRedundant(splice: seq<string>, effective: string) returns (errors: seq<Error>)
    ensures errors == RedundantErrors(splice, effective)
  {
    errors := [];
    for i := 0 to |splice|
      invariant errors == RedundantErrors(splice[..i], effective)
    {
      assert splice[..i + 1][..i] == splice[..i];
      if effective == "splice" {
        errors := errors + [Error("splice", RedundantSplice)];
      }
    }
    assert splice[..|splice|] == splice;
  }

  /** The egress keys a table sets. */
  method NamedEgressKeys(net: Fields) returns (named: seq<string>)
    ensures named == NamedKeys(net, EGRESS_KEYS)
  {
    var keys := EGRESS_KEYS;
    named := [];
    for i := 0 to |keys|
      invariant named == NamedKeys(net, keys[..i])
    {
      assert keys[..i + 1][..i] == keys[..i];
      if Truthy(Get(net, keys[i])) {
        named := named + [keys[i]];
      }
    }
    assert keys[..|keys|] == keys;
  }

  /** The refusal of egress keys under host networking, or else the rules on the table. */
  method ValidateEgress(net: Fields, config: Option<Fields>, ops: Ops) returns (errors: seq<Error>)
    ensures errors == if OnHostNetwork(net, config) && NamedKeys(net, EGRESS_KEYS) != []
                      then [Error("network", HostModeConflict(NamedKeys(net, EGRESS_KEYS)))] else TableErrors(net, ops)
  {
    if OnHostNetwork(net, config) {
      var named := NamedEgressKeys(net);
      if named != [] {
        return [Error("network", HostModeConflict(named))];
      }
    }
    errors := ValidateTable(net, ops);
  }

  method ValidateContainerNetwork(table: Value, config: Option<Fields>, ops: Ops) returns (errors: seq<Error>)
    ensures errors == NetworkErrors(table, config, ops)
    ensures errors == [] <==> table.Table? && Meets(table.fields, config, ops)
  {
    if !table.Table? {
      return [Error("network", NotATable)];
    }
    AcceptedExactly(table.fields, config, ops);
    var ports := ValidatePublishPorts(Get(table.fields, "ports"));
    var http2 := if "http2" in table.fields then [Error("http2", Http2Refused)] else [];
    var egress := ValidateEgress(table.fields, config, ops);
    errors := ports + http2 + egress;
  }

  method ValidateTable(net: Fields, ops: Ops) returns (errors: seq<Error>)
    ensures errors == TableErrors(net, ops)
  {
    var hosts, internals, splice, hostArrayErrors := ValidateHostArrays(net);
    var entries, entryErrors := ValidateEntries(net, hosts, internals, splice, ops);
    var setErrors := CheckPolicySet(net, entries, splice, hosts, ops);
    var triggered := hosts != [] || entries != [] || Truthy(Get(net, "allow"));
    var redundant := CheckRedundant(splice, EffectiveTls(net, ops));
    errors := hostArrayErrors + entryErrors + setErrors + TlsErrors(net) + CaErrors(net, triggered, ops) + redundant;
  }

  method ValidateHostArrays(net: Fields)
    returns (hosts: seq<string>, internals: seq<string>, splice: seq<string>, errors: seq<Error>)
    ensures hosts == ValidHosts(net) && internals == ValidInternal(net) && splice == ValidSplice(net)
    ensures errors == HostArrayErrors(net)
  {
    var hostErrors, internalErrors, spliceErrors;
    hosts, hostErrors := ValidateHosts(net);
    var allowErrors := ValidateAllow(Items(net, "allow"));
    internals, internalErrors := ValidateHostReasonArray(net, "internal");
    splice, spliceErrors := ValidateHostReasonArray(net, "splice");
    errors := hostErrors + (ArrayErrors(net, "allow") + allowErrors) + internalErrors + spliceErrors;
  }

  method ValidateEntries(net: Fields, hosts: seq<string>, internals: seq<string>, splice: seq<string>, ops: Ops)
    returns (entries: seq<PolicyEntry>, errors: seq<Error>)
    requires hosts == ValidHosts(net) && internals == ValidInternal(net) && splice == ValidSplice(net)
    ensures entries == ValidEntries(net, ops)
    ensures errors == EntryErrors(net, ops)
  {
    var coverErrors := CheckCoverage(splice, hosts, ops);
    var creds, credentialErrors := ValidateCredentialEntries(net, ops);
    var policyErrors;
    entries, policyErrors := ValidatePolicies(Items(net, "policy"), NamesOf(creds), ops);
    var selectionErrors := CheckSelections(creds, entries, internals, hosts, ops);
    errors := coverErrors + credentialErrors + (ArrayErrors(net, "policy") + policyErrors) + selectionErrors;
  }
}
