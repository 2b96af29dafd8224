/** An accepted table is one the tolerant readers read in full, exactly as the validator did. */
module ContainerAgreement {
  import opened Common
  import opened Toml
  import opened ContainerConfig
  import opened ContainerRules

  // --- Taking an error-free table apart ---

  lemma HostArraysClean(net: Fields)
    requires HostArrayErrors(net) == []
    ensures ArrayErrors(net, "hosts") == [] && HostErrors(Items(net, "hosts")) == []
    ensures ArrayErrors(net, "allow") == [] && AllowErrors(Items(net, "allow")) == []
    ensures ReasonErrors("internal", Items(net, "internal")) == []
    ensures ReasonErrors("splice", Items(net, "splice")) == []
  {
  }

  lemma EntriesClean(net: Fields, ops: Ops)
    requires EntryErrors(net, ops) == []
    ensures CheckCredentials(Items(net, "credential"), ops).errors == []
    ensures PolicyErrors(Items(net, "policy"), NamesOf(ValidCredentials(net, ops)), ops) == []
    ensures UnselectedErrors(ValidCredentials(net, ops), ValidEntries(net, ops)) == []
  {
  }

  /** No part of an accepted table has an error; under host mode it also names no egress key. */
  lemma AcceptedParts(net: Fields, config: Option<Fields>, ops: Ops)
    requires Accepted(net, config, ops)
    ensures HostArrayErrors(net) == [] && EntryErrors(net, ops) == [] && PolicySetErrors(net, ops) == []
    ensures TlsErrors(net) == [] && CaErrors(net, Triggered(net, ops), ops) == []
    ensures OnHostNetwork(net, config) ==> NamedKeys(net, EGRESS_KEYS) == []
  {
    assert TableErrors(net, ops) == [];
  }

  // --- Policy entries ---

  lemma {:induction false} ListsAgree(isMethod: bool, items: seq<Value>, ops: Ops)
    requires ItemErrors(isMethod, items, ops) == []
    ensures Texts(items, isMethod, ops) == GoodItems(isMethod, items, ops)
  {
    if items != [] {
      ListsAgree(isMethod, items[..|items| - 1], ops);
    }
  }

  lemma ListValueAgrees(isMethod: bool, v: Option<Value>, ops: Ops)
    requires ListErrors(isMethod, v, ops) == []
    ensures PolicyList(v, isMethod, ops) == ListOf(isMethod, v, ops)
  {
    if v.Some? && v.value.Arr? {
      ListsAgree(isMethod, v.value.items, ops);
    }
  }

  lemma PolicyItemAgrees(item: Value, names: set<string>, ops: Ops)
    requires PolicyItemErrors(item, names, ops) == []
    ensures PolicyItemEntry(item, ops).Some?
    ensures ReadPolicy(item, ops) == PolicyItemEntry(item, ops)
  {
    assert item.Table? && "host" in item.fields;
    ListValueAgrees(true, Get(item.fields, "methods"), ops);
    ListValueAgrees(false, Get(item.fields, "paths"), ops);
  }

  lemma {:induction false} PoliciesAgree(items: seq<Value>, names: set<string>, ops: Ops)
    requires PolicyErrors(items, names, ops) == []
    ensures ReadPolicies(items, ops) == PolicyValidEntries(items, ops)
    ensures |PolicyValidEntries(items, ops)| == |items|
  {
    if items != [] {
      PoliciesAgree(items[..|items| - 1], names, ops);
      PolicyItemAgrees(items[|items| - 1], names, ops);
    }
  }

  // --- Credential blocks ---

  /** What the credential loop has established about the blocks it kept, as long as it has not complained. */
  ghost predicate CredsOk(st: CredState) {
    && st.names == NamesOf(st.creds)
    && (forall i :: 0 <= i < |st.creds| ==> st.creds[i].env in st.envs)
    && (forall i :: 0 <= i < |st.creds| ==> SegmentName(st.creds[i].name) && st.creds[i].env !in CA_ENV_VARS)
    && (forall i, j :: 0 <= i < j < |st.creds| ==> st.creds[i].name != st.creds[j].name)
    && forall i, j :: 0 <= i < j < |st.creds| ==> st.creds[i].env != st.creds[j].env
  }

  lemma OptionalAgrees(st: CredState, item: Fields, ops: Ops)
    requires FirstMissing(item) == None && CheckOptional(st, item, ops).errors == []
    ensures st.errors == []
    ensures ReadCredential(Table(item)).Some?
    ensures CheckOptional(st, item, ops) == st.(creds := st.creds + [ReadCredential(Table(item)).value])
  {
  }

  lemma RequiredAgrees(st: CredState, item: Fields, ops: Ops)
    requires CheckRequired(st, item, ops).errors == []
    ensures st.errors == []
    ensures ReadCredential(Table(item)).Some?
    ensures var c := ReadCredential(Table(item)).value;
            && CheckRequired(st, item, ops) ==
               CredState(st.creds + [c], st.names + {c.name}, st.envs + {c.env}, [])
            && SegmentName(c.name) && c.env !in CA_ENV_VARS && c.env !in st.envs && c.name !in st.names
  {
    assert FirstMissing(item) == None;
    var name, env := Word(Get(item, "name")).value, Word(Get(item, "env")).value;
    OptionalAgrees(st.(envs := st.envs + {env}, names := st.names + {name}), item, ops);
  }

  lemma OneMoreOk(st: CredState, c: Credential)
    requires CredsOk(st)
    requires SegmentName(c.name) && c.env !in CA_ENV_VARS && c.env !in st.envs && c.name !in st.names
    ensures CredsOk(CredState(st.creds + [c], st.names + {c.name}, st.envs + {c.env}, []))
  {
    var creds := st.creds + [c];
    assert NamesOf(creds) == NamesOf(st.creds) + {c.name} by {
      forall i | 0 <= i < |st.creds| ensures creds[i] == st.creds[i] {}
      assert creds[|st.creds|] == c;
    }
    forall i | 0 <= i < |st.creds| ensures st.creds[i].name != c.name {
      assert st.creds[i].name in NamesOf(st.creds);
    }
  }

  lemma CredentialAgrees(st: CredState, item: Value, ops: Ops)
    requires CheckCredential(st, item, ops).errors == []
    ensures st.errors == []
    ensures ReadCredential(item).Some?
    ensures CheckCredential(st, item, ops).creds == st.creds + [ReadCredential(item).value]
    ensures CredsOk(st) ==> CredsOk(CheckCredential(st, item, ops))
  {
    assert item.Table?;
    if item.fields.Keys - CREDENTIAL_KEYS != {} {
      RequiredAgrees(Complain(st, UnknownKey), item.fields, ops);
    } else {
      RequiredAgrees(st, item.fields, ops);
    }
    if CredsOk(st) {
      OneMoreOk(st, ReadCredential(item).value);
    }
  }

  lemma {:induction false} CredentialsAgree(items: seq<Value>, ops: Ops)
    requires CheckCredentials(items, ops).errors == []
    ensures ReadCredentials(items) == CheckCredentials(items, ops).creds
    ensures |ReadCredentials(items)| == |items|
    ensures CredsOk(CheckCredentials(items, ops))
  {
    if items != [] {
      CredentialAgrees(CheckCredentials(items[..|items| - 1], ops), items[|items| - 1], ops);
      CredentialsAgree(items[..|items| - 1], ops);
    }
  }

  // --- Hosts ---

  lemma {:induction false} ReasonsAgree(key: string, items: seq<Value>)
    requires ReasonErrors(key, items) == []
    ensures ReasonHosts(items) == ReasonValidHosts(items)
  {
    if items != [] {
      ReasonsAgree(key, items[..|items| - 1]);
      assert ReasonItemErrors(key, items[|items| - 1]) == [];
    }
  }

  function StripAll(hosts: seq<string>): seq<string> {
    if hosts == [] then [] else StripAll(hosts[..|hosts| - 1]) + [Strip(hosts[|hosts| - 1])]
  }

  /** The document carries the hosts as written; the rules were applied to them stripped. */
  lemma {:induction false} HostsAgreeUpToPadding(items: seq<Value>)
    ensures StrippedHosts(items) == StripAll(AllowedHostsIn(items))
    ensures |StrippedHosts(items)| == |AllowedHostsIn(items)|
    ensures StrippedHosts(items) == AllowedHostsIn(items) <==>
            forall i :: 0 <= i < |AllowedHostsIn(items)| ==> Strip(AllowedHostsIn(items)[i]) == AllowedHostsIn(items)[i]
  {
    if items != [] {
      var front, last := items[..|items| - 1], items[|items| - 1];
      HostsAgreeUpToPadding(front);
      if Word(Some(last)).Some? {
        var a, b := StrippedHosts(front), AllowedHostsIn(front);
        assert (b + [last.text])[..|b|] == b;
        assert (a + [Strip(last.text)])[..|a|] == a;
        assert forall i :: 0 <= i < |b| ==> (b + [last.text])[i] == b[i];
        assert (b + [last.text])[|b|] == last.text;
        if a + [Strip(last.text)] == b + [last.text] {
          assert (a + [Strip(last.text)])[|a|] == (b + [last.text])[|b|];
          assert a == b;
        }
      }
    }
  }

  lemma {:induction false} AllowsRead(items: seq<Value>)
    requires AllowErrors(items) == []
    ensures |ReadAllows(items)| == |items|
  {
    if items != [] {
      AllowsRead(items[..|items| - 1]);
      assert AllowItemErrors(items[|items| - 1]) == [];
    }
  }

  // --- The agreement ---

  /** The validator and the readers mean the same config. */
  predicate SameTable(net: Fields, config: Option<Fields>) {
    config.Some? ==> NetworkOf(config.value) == Some(net)
  }

  lemma {:induction false} NamedNothing(net: Fields, keys: seq<string>, key: string)
    requires NamedKeys(net, keys) == [] && key in keys
    ensures !Truthy(Get(net, key))
  {
    if key != keys[|keys| - 1] {
      NamedNothing(net, keys[..|keys| - 1], key);
    }
  }

  /** On an accepted table the readers drop nothing and change nothing. */
  lemma ReadersDropNothing(net: Fields, config: Option<Fields>, ops: Ops)
    requires Accepted(net, config, ops)
    ensures PolicyEntries(net, ops) == ValidEntries(net, ops) && |PolicyEntries(net, ops)| == |Items(net, "policy")|
    ensures CredentialEntries(net) == ValidCredentials(net, ops)
            && |CredentialEntries(net)| == |Items(net, "credential")|
    ensures SpliceHosts(net) == ValidSplice(net) && InternalHosts(net) == ValidInternal(net)
    ensures CredsOk(CheckCredentials(Items(net, "credential"), ops))
  {
    AcceptedParts(net, config, ops);
    EntriesClean(net, ops);
    HostArraysClean(net);
    PoliciesAgree(Items(net, "policy"), NamesOf(ValidCredentials(net, ops)), ops);
    CredentialsAgree(Items(net, "credential"), ops);
    ReasonsAgree("splice", Items(net, "splice"));
    ReasonsAgree("internal", Items(net, "internal"));
  }

  /** Under host mode an accepted table names none of the triggers. */
  lemma HostModeIsUntriggered(net: Fields, ops: Ops)
    requires NamedKeys(net, EGRESS_KEYS) == []
    ensures !Triggered(net, ops)
  {
    assert EGRESS_KEYS[0] == "hosts" && EGRESS_KEYS[1] == "policy" && EGRESS_KEYS[2] == "allow";
    NamedNothing(net, EGRESS_KEYS, "hosts");
    NamedNothing(net, EGRESS_KEYS, "policy");
    NamedNothing(net, EGRESS_KEYS, "allow");
    assert Items(net, "hosts") == [] && Items(net, "policy") == [];
  }

  lemma TriggersRead(net: Fields, ops: Ops)
    requires ArrayErrors(net, "allow") == [] && AllowErrors(Items(net, "allow")) == []
    requires PolicyEntries(net, ops) == ValidEntries(net, ops)
    ensures Triggered(net, ops) <==>
            AllowedHosts(net) != [] || PolicyEntries(net, ops) != [] || AllowEntries(net) != []
  {
    AllowsRead(Items(net, "allow"));
    HostsAgreeUpToPadding(Items(net, "hosts"));
    assert Truthy(Get(net, "allow")) <==> Items(net, "allow") != [];
  }

  /** The validator's trigger is the predicate that decides whether an inspector exists. */
  lemma TriggerIsInspection(net: Fields, config: Fields, ops: Ops)
    requires Accepted(net, Some(config), ops) && SameTable(net, Some(config))
    ensures UsesInspect(config, ops) <==> Triggered(net, ops) && !RunsOnHostNetwork(config)
    ensures RunsOnHostNetwork(config) ==> !Triggered(net, ops)
  {
    ReadersDropNothing(net, Some(config), ops);
    AcceptedParts(net, Some(config), ops);
    HostArraysClean(net);
    TriggersRead(net, ops);
    if RunsOnHostNetwork(config) {
      HostModeIsUntriggered(net, ops);
    }
  }
}
