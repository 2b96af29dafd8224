/**
  What the container rules amount to, said without their loops: conditions on each block by
  itself, and conditions on the entries the rest of the program will read.
 */
module ContainerMeaning {
  import opened Common
  import opened Toml
  import opened ContainerConfig
  import opened ContainerRules

  lemma BothEmpty(a: seq<Error>, b: seq<Error>)
    ensures a + b == [] <==> a == [] && b == []
  {
    assert |a + b| == |a| + |b|;
  }

  // --- Publish specs ---

  predicate SpecMeets(v: Value) {
    v.Str? && Strip(v.text) != "" && AllIn(v.text, PublishChar)
  }

  predicate SpecsMeet(specs: seq<Value>) {
    forall i :: 0 <= i < |specs| ==> SpecMeets(specs[i])
  }

  predicate PortsMeet(ports: Option<Value>) {
    ports.Some? ==> ports.value.Arr? && SpecsMeet(ports.value.items)
  }

  lemma LastSpec(specs: seq<Value>)
    requires specs != []
    ensures PortErrors(specs) == [] <==> PortErrors(specs[..|specs| - 1]) == [] && SpecMeets(specs[|specs| - 1])
  {
    var last := specs[|specs| - 1];
    assert Word(Some(last)) == None <==> !last.Str? || Strip(last.text) == "";
  }

  lemma SpecsSnoc(specs: seq<Value>)
    requires specs != []
    ensures SpecsMeet(specs) <==> SpecsMeet(specs[..|specs| - 1]) && SpecMeets(specs[|specs| - 1])
  {
    var front := specs[..|specs| - 1];
    assert forall i :: 0 <= i < |front| ==> front[i] == specs[i];
  }

  lemma {:induction false} PortErrorsExactly(specs: seq<Value>)
    ensures PortErrors(specs) == [] <==> SpecsMeet(specs)
  {
    if specs != [] {
      PortErrorsExactly(specs[..|specs| - 1]);
      LastSpec(specs);
      SpecsSnoc(specs);
    }
  }

  /** Ports pass exactly when they are absent, or an array of non-blank specs over the alphabet. */
  lemma PublishExactly(ports: Option<Value>)
    ensures PublishErrors(ports) == [] <==> PortsMeet(ports)
  {
    if ports.Some? && ports.value.Arr? {
      PortErrorsExactly(ports.value.items);
    }
  }

  // --- Single blocks ---

  lemma {:induction false} HostErrorsExactly(items: seq<Value>)
    ensures HostErrors(items) == [] <==> forall i :: 0 <= i < |items| ==> ProblemWith(items[i]) == None
  {
    if items != [] {
      var front := items[..|items| - 1];
      HostErrorsExactly(front);
      assert forall i :: 0 <= i < |front| ==> front[i] == items[i];
    }
  }

  /** One destination, a port outside the inspected ones, and a reason. */
  predicate AllowMeets(item: Value) {
    && item.Table?
    && (Word(Get(item.fields, "host")).Some? <==> Word(Get(item.fields, "address")).None?)
    && PortMeets(Get(item.fields, "port"))
    && HasReason(item.fields)
  }

  predicate PortMeets(port: Option<Value>) {
    port.Some? && port.value.Int? && 1 <= port.value.number <= 65535 && port.value.number != 80
        && port.value.number != 443
  }

  predicate AllowsMeet(items: seq<Value>) {
    forall i :: 0 <= i < |items| ==> AllowMeets(items[i])
  }

  lemma LastAllow(items: seq<Value>)
    requires items != []
    ensures AllowErrors(items) == [] <==> AllowErrors(items[..|items| - 1]) == [] && AllowMeets(items[|items| - 1])
  {
    BothEmpty(AllowErrors(items[..|items| - 1]), AllowItemErrors(items[|items| - 1]));
    AllowItemExactly(items[|items| - 1]);
  }

  lemma AllowsSnoc(items: seq<Value>)
    requires items != []
    ensures AllowsMeet(items) <==> AllowsMeet(items[..|items| - 1]) && AllowMeets(items[|items| - 1])
  {
    var front := items[..|items| - 1];
    assert forall i :: 0 <= i < |front| ==> front[i] == items[i];
  }

  lemma {:induction false} AllowErrorsExactly(items: seq<Value>)
    ensures AllowErrors(items) == [] <==> AllowsMeet(items)
  {
    if items != [] {
      AllowErrorsExactly(items[..|items| - 1]);
      LastAllow(items);
      AllowsSnoc(items);
    }
  }

  lemma AllowItemExactly(item: Value)
    ensures AllowItemErrors(item) == [] <==> AllowMeets(item)
  {
  }

  predicate ReasonMeets(item: Value) {
    item.Table? && "host" in item.fields && ProblemWith(item.fields["host"]) == None && HasReason(item.fields)
  }

  predicate ReasonsMeet(items: seq<Value>) {
    forall i :: 0 <= i < |items| ==> ReasonMeets(items[i])
  }

  lemma LastReason(key: string, items: seq<Value>)
    requires items != []
    ensures ReasonErrors(key, items) == [] <==>
            ReasonErrors(key, items[..|items| - 1]) == [] && ReasonMeets(items[|items| - 1])
  {
    BothEmpty(ReasonErrors(key, items[..|items| - 1]), ReasonItemErrors(key, items[|items| - 1]));
  }

  lemma ReasonsSnoc(items: seq<Value>)
    requires items != []
    ensures ReasonsMeet(items) <==> ReasonsMeet(items[..|items| - 1]) && ReasonMeets(items[|items| - 1])
  {
    var front := items[..|items| - 1];
    assert forall i :: 0 <= i < |front| ==> front[i] == items[i];
  }

  lemma {:induction false} ReasonErrorsExactly(key: string, items: seq<Value>)
    ensures ReasonErrors(key, items) == [] <==> ReasonsMeet(items)
  {
    if items != [] {
      ReasonErrorsExactly(key, items[..|items| - 1]);
      LastReason(key, items);
      ReasonsSnoc(items);
    }
  }

  // --- Credential blocks ---

  predicate HeaderMeets(v: Option<Value>, ops: Ops) {
    v.Some? ==> Word(v).Some? && AuthHeaderErrors(Word(v).value, ops) == []
  }

  predicate FormatMeets(v: Option<Value>, ops: Ops) {
    v.Some? ==> Word(v).Some? && AuthFormatErrors(Word(v).value, ops) == []
  }

  predicate CredentialMeets(item: Value, ops: Ops) {
    && item.Table? && item.fields.Keys - CREDENTIAL_KEYS == {}
    && FirstMissing(item.fields) == None
    && SegmentName(Word(Get(item.fields, "name")).value)
    && EnvName(Word(Get(item.fields, "env")).value) && Word(Get(item.fields, "env")).value !in CA_ENV_VARS
    && HeaderMeets(Get(item.fields, "auth_header"), ops) && FormatMeets(Get(item.fields, "auth_format"), ops)
  }

  /** The word a block gives for a key. */
  function WordAt(item: Value, key: string): Option<string> {
    if item.Table? then Word(Get(item.fields, key)) else None
  }

  function WordsAt(items: seq<Value>, key: string): set<string> {
    set i | 0 <= i < |items| && WordAt(items[i], key).Some? :: WordAt(items[i], key).value
  }

  predicate WordsDiffer(items: seq<Value>, key: string) {
    forall i, j :: 0 <= i < j < |items| ==> WordAt(items[i], key) != WordAt(items[j], key)
  }

  predicate EachMeets(items: seq<Value>, ops: Ops) {
    forall i :: 0 <= i < |items| ==> CredentialMeets(items[i], ops)
  }

  /** Each block by itself, and no name or variable twice. */
  predicate CredentialsMeet(items: seq<Value>, ops: Ops) {
    && EachMeets(items, ops)
    && WordsDiffer(items, "name") && WordsDiffer(items, "env")
  }

  lemma OptionalExactly(st: CredState, item: Fields, ops: Ops)
    requires FirstMissing(item) == None
    ensures CheckOptional(st, item, ops).errors == [] <==>
            st.errors == [] && HeaderMeets(Get(item, "auth_header"), ops) && FormatMeets(Get(item, "auth_format"), ops)
    ensures CheckOptional(st, item, ops).names == st.names && CheckOptional(st, item, ops).envs == st.envs
  {
    var header, format := Get(item, "auth_header"), Get(item, "auth_format");
    if header.Some? && Word(header).Some? {
      BothEmpty(st.errors, AuthHeaderErrors(Word(header).value, ops));
      if format.Some? && Word(format).Some? {
        BothEmpty(st.errors + AuthHeaderErrors(Word(header).value, ops), AuthFormatErrors(Word(format).value, ops));
      }
    } else if header.None? && format.Some? && Word(format).Some? {
      BothEmpty(st.errors, AuthFormatErrors(Word(format).value, ops));
    }
  }

  lemma RequiredExactly(st: CredState, item: Fields, ops: Ops)
    ensures CheckRequired(st, item, ops).errors == [] <==>
            && st.errors == [] && FirstMissing(item) == None
            && SegmentName(Word(Get(item, "name")).value)
            && EnvName(Word(Get(item, "env")).value) && Word(Get(item, "env")).value !in CA_ENV_VARS
            && Word(Get(item, "env")).value !in st.envs && Word(Get(item, "name")).value !in st.names
            && HeaderMeets(Get(item, "auth_header"), ops) && FormatMeets(Get(item, "auth_format"), ops)
    ensures CheckRequired(st, item, ops).errors == [] ==>
            && CheckRequired(st, item, ops).names == st.names + {Word(Get(item, "name")).value}
            && CheckRequired(st, item, ops).envs == st.envs + {Word(Get(item, "env")).value}
  {
    if FirstMissing(item) == None {
      var name, env := Word(Get(item, "name")).value, Word(Get(item, "env")).value;
      OptionalExactly(st.(envs := st.envs + {env}, names := st.names + {name}), item, ops);
    }
  }

  lemma CredentialExactly(st: CredState, item: Value, ops: Ops)
    ensures CheckCredential(st, item, ops).errors == [] <==>
            && st.errors == [] && CredentialMeets(item, ops)
            && WordAt(item, "name").value !in st.names && WordAt(item, "env").value !in st.envs
    ensures CheckCredential(st, item, ops).errors == [] ==>
            && CheckCredential(st, item, ops).names == st.names + {WordAt(item, "name").value}
            && CheckCredential(st, item, ops).envs == st.envs + {WordAt(item, "env").value}
  {
    if item.Table? {
      RequiredExactly(st, item.fields, ops);
      RequiredExactly(Complain(st, UnknownKey), item.fields, ops);
    }
  }

  lemma WordsSnoc(items: seq<Value>, key: string)
    requires items != [] && WordAt(items[|items| - 1], key).Some?
    ensures var front, w := items[..|items| - 1], WordAt(items[|items| - 1], key).value;
            && WordsAt(items, key) == WordsAt(front, key) + {w}
            && (WordsDiffer(items, key) <==> WordsDiffer(front, key) && w !in WordsAt(front, key))
  {
    var front, last := items[..|items| - 1], items[|items| - 1];
    assert forall i :: 0 <= i < |front| ==> front[i] == items[i];
    forall w | w in WordsAt(items, key) ensures w in WordsAt(front, key) + {WordAt(last, key).value} {
      var i :| 0 <= i < |items| && WordAt(items[i], key) == Some(w);
      assert i < |front| ==> front[i] == items[i];
    }
    forall w | w in WordsAt(front, key) ensures w in WordsAt(items, key) {
      var i :| 0 <= i < |front| && WordAt(front[i], key) == Some(w);
      assert items[i] == front[i];
    }
    assert items[|items| - 1] == last;
    if WordsDiffer(front, key) && WordAt(last, key).value !in WordsAt(front, key) {
      forall i, j | 0 <= i < j < |items| ensures WordAt(items[i], key) != WordAt(items[j], key) {
        assert front[i] == items[i];
        if WordAt(front[i], key).Some? { assert WordAt(front[i], key).value in WordsAt(front, key); }
      }
    }
  }

  lemma EachSnoc(items: seq<Value>, ops: Ops)
    requires items != []
    ensures EachMeets(items, ops) <==> EachMeets(items[..|items| - 1], ops) && CredentialMeets(items[|items| - 1], ops)
  {
    var front := items[..|items| - 1];
    assert forall i :: 0 <= i < |front| ==> front[i] == items[i];
  }

  lemma CredentialsSnoc(items: seq<Value>, ops: Ops)
    requires items != []
    ensures var front, last := items[..|items| - 1], items[|items| - 1];
            CredentialsMeet(items, ops) <==>
            && CredentialsMeet(front, ops) && CredentialMeets(last, ops)
            && WordAt(last, "name").value !in WordsAt(front, "name")
               && WordAt(last, "env").value !in WordsAt(front, "env")
  {
    EachSnoc(items, ops);
    if CredentialMeets(items[|items| - 1], ops) {
      WordsSnoc(items, "name");
      WordsSnoc(items, "env");
    }
  }

  lemma MetWordsSnoc(items: seq<Value>, ops: Ops)
    requires items != [] && CredentialMeets(items[|items| - 1], ops)
    ensures var front, last := items[..|items| - 1], items[|items| - 1];
            && WordsAt(items, "name") == WordsAt(front, "name") + {WordAt(last, "name").value}
            && WordsAt(items, "env") == WordsAt(front, "env") + {WordAt(last, "env").value}
  {
    WordsSnoc(items, "name");
    WordsSnoc(items, "env");
  }

  /** The loop's outcome on credential blocks: what it complains of, and what it has seen. */
  ghost predicate Checked(items: seq<Value>, ops: Ops) {
    var st := CheckCredentials(items, ops);
    && (st.errors == [] <==> CredentialsMeet(items, ops))
    && (st.errors == [] ==> st.names == WordsAt(items, "name") && st.envs == WordsAt(items, "env"))
  }

  lemma CheckedSnoc(items: seq<Value>, ops: Ops)
    requires items != [] && Checked(items[..|items| - 1], ops)
    ensures Checked(items, ops)
  {
    var front, last := items[..|items| - 1], items[|items| - 1];
    CredentialExactly(CheckCredentials(front, ops), last, ops);
    CredentialsSnoc(items, ops);
    if CredentialMeets(last, ops) {
      MetWordsSnoc(items, ops);
    }
  }

  /** The credential loop complains of nothing exactly when the blocks meet their conditions. */
  lemma {:induction false} CredentialsExactly(items: seq<Value>, ops: Ops)
    ensures Checked(items, ops)
  {
    if items != [] {
      CredentialsExactly(items[..|items| - 1], ops);
      CheckedSnoc(items, ops);
    }
  }

  // --- Policy blocks ---

  predicate ListMeets(isMethod: bool, v: Option<Value>, ops: Ops) {
    v.Some? ==>
      && v.value.Arr? && v.value.items != []
      && forall i :: 0 <= i < |v.value.items| ==> ItemProblem(isMethod, v.value.items[i], ops) == None
  }

  predicate SelectorMeets(host: string, v: Option<Value>, names: set<string>) {
    v.Some? ==> Word(v).Some? && Word(v).value in names && '*' !in host
  }

  predicate PolicyMeets(item: Value, names: set<string>, ops: Ops) {
    && item.Table? && item.fields.Keys - POLICY_KEYS == {}
    && "host" in item.fields && ProblemWith(item.fields["host"]) == None
    && ListMeets(true, Get(item.fields, "methods"), ops) && ListMeets(false, Get(item.fields, "paths"), ops)
    && SelectorMeets(Strip(item.fields["host"].text), Get(item.fields, "credential"), names)
  }

  lemma {:induction false} ItemErrorsExactly(isMethod: bool, items: seq<Value>, ops: Ops)
    ensures ItemErrors(isMethod, items, ops) == [] <==>
            forall i :: 0 <= i < |items| ==> ItemProblem(isMethod, items[i], ops) == None
  {
    if items != [] {
      var front := items[..|items| - 1];
      ItemErrorsExactly(isMethod, front, ops);
      assert forall i :: 0 <= i < |front| ==> front[i] == items[i];
    }
  }

  lemma ListExactly(isMethod: bool, v: Option<Value>, ops: Ops)
    ensures ListErrors(isMethod, v, ops) == [] <==> ListMeets(isMethod, v, ops)
  {
    if v.Some? && v.value.Arr? {
      var items := v.value.items;
      ItemErrorsExactly(isMethod, items, ops);
      BothEmpty(ItemErrors(isMethod, items, ops), if items == [] then [Error("policy", EmptyList)] else []);
    }
  }

  lemma PolicyFieldsExactly(f: Fields, names: set<string>, ops: Ops)
    requires "host" in f && ProblemWith(f["host"]) == None
    ensures PolicyFieldErrors(f, names, ops) == [] <==>
            && ListMeets(true, Get(f, "methods"), ops) && ListMeets(false, Get(f, "paths"), ops)
            && SelectorMeets(Strip(f["host"].text), Get(f, "credential"), names)
  {
    var a, b := ListErrors(true, Get(f, "methods"), ops), ListErrors(false, Get(f, "paths"), ops);
    var c := SelectorErrors(Strip(f["host"].text), Get(f, "credential"), names);
    ListExactly(true, Get(f, "methods"), ops);
    ListExactly(false, Get(f, "paths"), ops);
    BothEmpty(a, b);
    BothEmpty(a + b, c);
  }

  lemma PolicyItemExactly(item: Value, names: set<string>, ops: Ops)
    ensures PolicyItemErrors(item, names, ops) == [] <==> PolicyMeets(item, names, ops)
  {
    if item.Table? {
      var f := item.fields;
      var unknown := if f.Keys - POLICY_KEYS != {} then [Error("policy", UnknownKey)] else [];
      BothEmpty(unknown, PolicyFieldErrors(f, names, ops));
      if "host" in f && ProblemWith(f["host"]) == None {
        PolicyFieldsExactly(f, names, ops);
      }
    }
  }

  predicate PoliciesMeet(items: seq<Value>, names: set<string>, ops: Ops) {
    forall i :: 0 <= i < |items| ==> PolicyMeets(items[i], names, ops)
  }

  lemma PoliciesSnoc(items: seq<Value>, names: set<string>, ops: Ops)
    requires items != []
    ensures PoliciesMeet(items, names, ops) <==>
            PoliciesMeet(items[..|items| - 1], names, ops) && PolicyMeets(items[|items| - 1], names, ops)
  {
    var front := items[..|items| - 1];
    assert forall i :: 0 <= i < |front| ==> front[i] == items[i];
  }

  lemma PolicyErrorsSplit(items: seq<Value>, names: set<string>, ops: Ops)
    requires items != []
    ensures PolicyErrors(items, names, ops) == [] <==>
            PolicyErrors(items[..|items| - 1], names, ops) == []
                && PolicyItemErrors(items[|items| - 1], names, ops) == []
  {
    BothEmpty(PolicyErrors(items[..|items| - 1], names, ops), PolicyItemErrors(items[|items| - 1], names, ops));
  }

  lemma {:induction false} PoliciesExactly(items: seq<Value>, names: set<string>, ops: Ops)
    ensures PolicyErrors(items, names, ops) == [] <==> PoliciesMeet(items, names, ops)
  {
    if items != [] {
      PoliciesExactly(items[..|items| - 1], names, ops);
      PolicyErrorsSplit(items, names, ops);
      PolicyItemExactly(items[|items| - 1], names, ops);
      PoliciesSnoc(items, names, ops);
    }
  }

  // --- Conditions across entries ---

  lemma {:induction false} SpliceCoverExactly(splice: seq<string>, hosts: seq<string>, ops: Ops)
    ensures SpliceCoverErrors(splice, hosts, ops) == [] <==>
            forall i :: 0 <= i < |splice| ==> OverlapsAny(splice[i], hosts, ops)
  {
    if splice != [] {
      var front := splice[..|splice| - 1];
      SpliceCoverExactly(front, hosts, ops);
      assert forall i :: 0 <= i < |front| ==> front[i] == splice[i];
    }
  }

  lemma {:induction false} InternalCoverExactly(internals: seq<string>, hosts: seq<string>, policyHosts: seq<string>,
      ops: Ops)
    ensures InternalCoverErrors(internals, hosts, policyHosts, ops) == [] <==>
            forall i :: 0 <= i < |internals| ==>
                OverlapsAny(internals[i], hosts, ops) || OverlapsAny(internals[i], policyHosts, ops)
  {
    if internals != [] {
      var front := internals[..|internals| - 1];
      InternalCoverExactly(front, hosts, policyHosts, ops);
      assert forall i :: 0 <= i < |front| ==> front[i] == internals[i];
    }
  }

  lemma {:induction false} UnselectedExactly(creds: seq<Credential>, entries: seq<PolicyEntry>)
    ensures UnselectedErrors(creds, entries) == [] <==> forall i :: 0 <= i < |creds| ==> Selects(entries, creds[i].name)
  {
    if creds != [] {
      var front := creds[..|creds| - 1];
      UnselectedExactly(front, entries);
      assert forall i :: 0 <= i < |front| ==> front[i] == creds[i];
    }
  }

  lemma {:induction false} AlsoSplicedExactly(entries: seq<PolicyEntry>, splice: seq<string>, ops: Ops)
    ensures AlsoSplicedErrors(entries, splice, ops) == [] <==>
            forall i :: 0 <= i < |entries| ==> !OverlapsAny(entries[i].host, splice, ops)
  {
    if entries != [] {
      var front := entries[..|entries| - 1];
      AlsoSplicedExactly(front, splice, ops);
      assert forall i :: 0 <= i < |front| ==> front[i] == entries[i];
    }
  }

  predicate StatesBoth(e: PolicyEntry) {
    e.methods.Some? && e.paths.Some?
  }

  lemma {:induction false} OverlapExactly(entries: seq<PolicyEntry>, n: nat, ops: Ops)
    requires n <= |entries|
    ensures OverlapErrors(entries, n, ops) == [] <==>
            forall i :: 0 <= i < n && HasSibling(entries, i, ops) ==> StatesBoth(entries[i])
  {
    if n > 0 {
      OverlapExactly(entries, n - 1, ops);
    }
  }

  lemma {:induction false} ApexExactly(entries: seq<PolicyEntry>, hosts: seq<string>, ops: Ops)
    ensures ApexErrors(entries, hosts, ops) == [] <==>
            forall i :: 0 <= i < |hosts| ==> !ApexTrapped(entries, hosts[i], ops)
  {
    if hosts != [] {
      var front := hosts[..|hosts| - 1];
      ApexExactly(entries, front, ops);
      assert forall i :: 0 <= i < |front| ==> front[i] == hosts[i];
    }
  }

  lemma {:induction false} RedundantExactly(splice: seq<string>, effective: string)
    ensures RedundantErrors(splice, effective) == [] <==> splice == [] || effective != "splice"
  {
  }

  lemma {:induction false} NamedKeysExactly(net: Fields, keys: seq<string>)
    ensures NamedKeys(net, keys) == [] <==> forall i :: 0 <= i < |keys| ==> !Truthy(Get(net, keys[i]))
  {
    if keys != [] {
      var front := keys[..|keys| - 1];
      NamedKeysExactly(net, front);
      assert forall i :: 0 <= i < |front| ==> front[i] == keys[i];
    }
  }

  /**
    Policy entries are never spliced, decide shared hosts by stated lists, and leave no allowlisted
    apex ungoverned.
   */
  ghost predicate EntriesMeet(entries: seq<PolicyEntry>, tls: Option<string>, splice: seq<string>,
      hosts: seq<string>, ops: Ops) {
    entries != [] ==>
      && tls != Some("splice")
      && (forall i :: 0 <= i < |entries| ==> !OverlapsAny(entries[i].host, splice, ops))
      && (forall i :: 0 <= i < |entries| && HasSibling(entries, i, ops) ==> StatesBoth(entries[i]))
      && (forall i :: 0 <= i < |hosts| ==> !ApexTrapped(entries, hosts[i], ops))
  }

  lemma EntriesExactly(entries: seq<PolicyEntry>, tls: Option<string>, splice: seq<string>, hosts: seq<string>,
      ops: Ops)
    requires entries != []
    ensures EntriesMeet(entries, tls, splice, hosts, ops) <==>
            && tls != Some("splice") && AlsoSplicedErrors(entries, splice, ops) == []
            && OverlapErrors(entries, |entries|, ops) == [] && ApexErrors(entries, hosts, ops) == []
  {
    AlsoSplicedExactly(entries, splice, ops);
    OverlapExactly(entries, |entries|, ops);
    ApexExactly(entries, hosts, ops);
  }

  lemma PolicySetExactly(net: Fields, ops: Ops)
    ensures PolicySetErrors(net, ops) == [] <==>
            EntriesMeet(ValidEntries(net, ops), TlsMode(net), ValidSplice(net), ValidHosts(net), ops)
  {
    var entries := ValidEntries(net, ops);
    if entries != [] {
      var a := if TlsMode(net) == Some("splice") then [Error("policy", PolicyUnderSplice)] else [];
      var b, c := AlsoSplicedErrors(entries, ValidSplice(net), ops), OverlapErrors(entries, |entries|, ops);
      BothEmpty(a, b);
      BothEmpty(a + b, c);
      BothEmpty(a + b + c, ApexErrors(entries, ValidHosts(net), ops));
      EntriesExactly(entries, TlsMode(net), ValidSplice(net), ValidHosts(net), ops);
    }
  }

  // --- The whole table ---

  predicate ArrayMeets(net: Fields, key: string) {
    key in net ==> net[key].Arr?
  }

  /** Every block of every array, by itself. */
  ghost predicate BlocksMeet(net: Fields, ops: Ops) {
    && ArrayMeets(net, "hosts")
       && (forall i :: 0 <= i < |Items(net, "hosts")| ==> ProblemWith(Items(net, "hosts")[i]) == None)
    && ArrayMeets(net, "allow") && AllowsMeet(Items(net, "allow"))
    && ArrayMeets(net, "internal") && ReasonsMeet(Items(net, "internal"))
    && ArrayMeets(net, "splice") && ReasonsMeet(Items(net, "splice"))
  }

  lemma ArrayThen(net: Fields, key: string, errors: seq<Error>)
    ensures ArrayErrors(net, key) + errors == [] <==> ArrayMeets(net, key) && errors == []
  {
    BothEmpty(ArrayErrors(net, key), errors);
  }

  lemma HostArraysExactly(net: Fields, ops: Ops)
    ensures HostArrayErrors(net) == [] <==> BlocksMeet(net, ops)
  {
    var a, b := HostErrors(Items(net, "hosts")), AllowErrors(Items(net, "allow"));
    var c, d := ReasonErrors("internal", Items(net, "internal")), ReasonErrors("splice", Items(net, "splice"));
    HostErrorsExactly(Items(net, "hosts"));
    AllowErrorsExactly(Items(net, "allow"));
    ReasonErrorsExactly("internal", Items(net, "internal"));
    ReasonErrorsExactly("splice", Items(net, "splice"));
    ArrayThen(net, "hosts", a);
    ArrayThen(net, "allow", b);
    ArrayThen(net, "internal", c);
    ArrayThen(net, "splice", d);
    var p, q, r := ArrayErrors(net, "hosts") + a, ArrayErrors(net, "allow") + b, ArrayErrors(net, "internal") + c;
    BothEmpty(p, q);
    BothEmpty(p + q, r);
    BothEmpty(p + q + r, ArrayErrors(net, "splice") + d);
  }
}
