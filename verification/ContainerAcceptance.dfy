/** When a container table is accepted, and what that buys the rest of the program. */
module ContainerAcceptance {
  import opened Common
  import opened Toml
  import opened ContainerConfig
  import opened ContainerRules
  import opened ContainerAgreement
  import opened ContainerMeaning

  /** What was taken from the arrays of a table. */
  datatype Taken = Taken(
    hosts: seq<string>, splice: seq<string>, internals: seq<string>, creds: seq<Credential>, entries: seq<PolicyEntry>)

  /** As the validator collects them. */
  function Collected(net: Fields, ops: Ops): Taken {
    Taken(ValidHosts(net), ValidSplice(net), ValidInternal(net), ValidCredentials(net, ops), ValidEntries(net, ops))
  }

  /** As the readers deliver them; hosts are compared without their padding. */
  function Delivered(net: Fields, ops: Ops): Taken {
    Taken(StripAll(AllowedHosts(net)), SpliceHosts(net), InternalHosts(net), CredentialEntries(net),
        PolicyEntries(net, ops))
  }

  /** Every array, block by block. */
  ghost predicate ArraysMeet(net: Fields, names: set<string>, ops: Ops) {
    && BlocksMeet(net, ops)
    && ArrayMeets(net, "credential") && CredentialsMeet(Items(net, "credential"), ops)
    && ArrayMeets(net, "policy") && PoliciesMeet(Items(net, "policy"), names, ops)
  }

  /** No exemption is dead and no credential idle. */
  ghost predicate NothingIdle(t: Taken, ops: Ops) {
    && (forall i :: 0 <= i < |t.splice| ==> OverlapsAny(t.splice[i], t.hosts, ops))
    && (forall i :: 0 <= i < |t.internals| ==>
          OverlapsAny(t.internals[i], t.hosts, ops) || OverlapsAny(t.internals[i], HostsOf(t.entries), ops))
    && (forall i :: 0 <= i < |t.creds| ==> Selects(t.entries, t.creds[i].name))
  }

  /** A written mode is a known one, and a reason goes with a written splice and with nothing else. */
  predicate TlsMeets(net: Fields) {
    && TlsMode(net) in {None, Some("inspect"), Some("splice")}
    && (TlsMode(net) == Some("splice") <==> Word(Get(net, "tls_reason")).Some?)
  }

  /** A decrypting inspector has a way to be trusted; a mount path goes with a mount. */
  predicate CaMeets(net: Fields, triggered: bool, tls: string) {
    && (triggered && tls == "inspect" ==>
          CaDelivery(net) in {Some("env"), Some("mount"), Some("image")}
              && (CaDelivery(net) == Some("mount") ==> CaMountPath(net).Some?))
    && (CaMountPath(net).Some? ==> CaDelivery(net) == Some("mount"))
  }

  ghost predicate TableMeets(net: Fields, t: Taken, ops: Ops) {
    && ArraysMeet(net, NamesOf(t.creds), ops)
    && NothingIdle(t, ops)
    && EntriesMeet(t.entries, TlsMode(net), t.splice, t.hosts, ops)
    && TlsMeets(net)
    && CaMeets(net, t.hosts != [] || t.entries != [] || Truthy(Get(net, "allow")), EffectiveTls(net, ops))
    && (t.splice != [] ==> EffectiveTls(net, ops) != "splice")
  }

  lemma TlsExactly(net: Fields)
    ensures TlsErrors(net) == [] <==> TlsMeets(net)
  {
  }

  lemma CaExactly(net: Fields, triggered: bool, ops: Ops)
    ensures CaErrors(net, triggered, ops) == [] <==> CaMeets(net, triggered, EffectiveTls(net, ops))
  {
  }

  lemma EntryErrorsSplit(net: Fields, ops: Ops)
    ensures EntryErrors(net, ops) == [] <==>
            && SpliceCoverErrors(ValidSplice(net), ValidHosts(net), ops) == []
            && ArrayErrors(net, "credential") + CheckCredentials(Items(net, "credential"), ops).errors == []
            && ArrayErrors(net, "policy") + PolicyErrors(Items(net, "policy"), NamesOf(ValidCredentials(net, ops)),
               ops) == []
            && UnselectedErrors(ValidCredentials(net, ops), ValidEntries(net, ops)) == []
            && InternalCoverErrors(ValidInternal(net), ValidHosts(net), HostsOf(ValidEntries(net, ops)), ops) == []
  {
    var d := UnselectedErrors(ValidCredentials(net, ops), ValidEntries(net, ops));
    var e := InternalCoverErrors(ValidInternal(net), ValidHosts(net), HostsOf(ValidEntries(net, ops)), ops);
    FourEmpty(SpliceCoverErrors(ValidSplice(net), ValidHosts(net), ops),
              ArrayErrors(net, "credential") + CheckCredentials(Items(net, "credential"), ops).errors,
              ArrayErrors(net, "policy") + PolicyErrors(Items(net, "policy"), NamesOf(ValidCredentials(net, ops)),
                  ops), d + e);
    BothEmpty(d, e);
  }

  lemma IdleExactly(t: Taken, ops: Ops)
    ensures NothingIdle(t, ops) <==>
            && SpliceCoverErrors(t.splice, t.hosts, ops) == []
            && UnselectedErrors(t.creds, t.entries) == []
            && InternalCoverErrors(t.internals, t.hosts, HostsOf(t.entries), ops) == []
  {
    SpliceCoverExactly(t.splice, t.hosts, ops);
    UnselectedExactly(t.creds, t.entries);
    InternalCoverExactly(t.internals, t.hosts, HostsOf(t.entries), ops);
  }

  lemma EntryErrorsExactly(net: Fields, ops: Ops)
    ensures EntryErrors(net, ops) == [] <==>
            && ArrayMeets(net, "credential") && CredentialsMeet(Items(net, "credential"), ops)
            && ArrayMeets(net, "policy") && PoliciesMeet(Items(net, "policy"), NamesOf(ValidCredentials(net, ops)), ops)
            && NothingIdle(Collected(net, ops), ops)
  {
    var names := NamesOf(ValidCredentials(net, ops));
    EntryErrorsSplit(net, ops);
    IdleExactly(Collected(net, ops), ops);
    CredentialsExactly(Items(net, "credential"), ops);
    PoliciesExactly(Items(net, "policy"), names, ops);
    ArrayThen(net, "credential", CheckCredentials(Items(net, "credential"), ops).errors);
    ArrayThen(net, "policy", PolicyErrors(Items(net, "policy"), names, ops));
  }

  lemma FourEmpty(a: seq<Error>, b: seq<Error>, c: seq<Error>, d: seq<Error>)
    ensures a + b + c + d == [] <==> a == [] && b == [] && c == [] && d == []
  {
    BothEmpty(a, b);
    BothEmpty(a + b, c);
    BothEmpty(a + b + c, d);
  }

  lemma SixEmpty(a: seq<Error>, b: seq<Error>, c: seq<Error>, d: seq<Error>, e: seq<Error>, f: seq<Error>)
    ensures a + b + c + d + e + f == [] <==> a == [] && b == [] && c == [] && d == [] && e == [] && f == []
  {
    FourEmpty(a, b, c, d);
    BothEmpty(a + b + c + d, e);
    BothEmpty(a + b + c + d + e, f);
  }

  lemma TableErrorsSplit(net: Fields, ops: Ops)
    ensures TableErrors(net, ops) == [] <==>
            && HostArrayErrors(net) == [] && EntryErrors(net, ops) == [] && PolicySetErrors(net, ops) == []
               && TlsErrors(net) == []
            && CaErrors(net, Triggered(net, ops), ops) == []
               && RedundantErrors(ValidSplice(net), EffectiveTls(net, ops)) == []
  {
    SixEmpty(HostArrayErrors(net), EntryErrors(net, ops), PolicySetErrors(net, ops), TlsErrors(net),
             CaErrors(net, Triggered(net, ops), ops), RedundantErrors(ValidSplice(net), EffectiveTls(net, ops)));
  }

  /** No complaint about the table exactly when it meets its conditions, as the validator collects it. */
  lemma CollectedExactly(net: Fields, ops: Ops)
    ensures TableErrors(net, ops) == [] <==> TableMeets(net, Collected(net, ops), ops)
  {
    TableErrorsSplit(net, ops);
    HostArraysExactly(net, ops);
    EntryErrorsExactly(net, ops);
    PolicySetExactly(net, ops);
    TlsExactly(net);
    CaExactly(net, Triggered(net, ops), ops);
    RedundantExactly(ValidSplice(net), EffectiveTls(net, ops));
  }

  // --- The validator's collection and the readers' delivery ---

  lemma CredentialsSame(net: Fields, ops: Ops)
    requires CredentialsMeet(Items(net, "credential"), ops)
    ensures CredentialEntries(net) == ValidCredentials(net, ops)
  {
    CredentialsExactly(Items(net, "credential"), ops);
    CredentialsAgree(Items(net, "credential"), ops);
  }

  lemma EntriesSame(net: Fields, names: set<string>, ops: Ops)
    requires PoliciesMeet(Items(net, "policy"), names, ops)
    ensures PolicyEntries(net, ops) == ValidEntries(net, ops)
  {
    PoliciesExactly(Items(net, "policy"), names, ops);
    PoliciesAgree(Items(net, "policy"), names, ops);
  }

  lemma HostsSame(net: Fields, ops: Ops)
    requires BlocksMeet(net, ops)
    ensures StripAll(AllowedHosts(net)) == ValidHosts(net) && SpliceHosts(net) == ValidSplice(net)
            && InternalHosts(net) == ValidInternal(net)
  {
    HostsAgreeUpToPadding(Items(net, "hosts"));
    ReasonErrorsExactly("splice", Items(net, "splice"));
    ReasonsAgree("splice", Items(net, "splice"));
    ReasonErrorsExactly("internal", Items(net, "internal"));
    ReasonsAgree("internal", Items(net, "internal"));
  }

  lemma DeliveredIsCollected(net: Fields, names: set<string>, ops: Ops)
    requires ArraysMeet(net, names, ops)
    ensures Delivered(net, ops) == Collected(net, ops)
  {
    CredentialsSame(net, ops);
    EntriesSame(net, names, ops);
    HostsSame(net, ops);
  }

  lemma MeetsEither(net: Fields, ops: Ops)
    ensures TableMeets(net, Collected(net, ops), ops) <==> TableMeets(net, Delivered(net, ops), ops)
  {
    if TableMeets(net, Collected(net, ops), ops) {
      DeliveredIsCollected(net, NamesOf(ValidCredentials(net, ops)), ops);
    }
    if TableMeets(net, Delivered(net, ops), ops) {
      DeliveredIsCollected(net, NamesOf(CredentialEntries(net)), ops);
    }
  }

  // --- Acceptance ---

  predicate NoEgressKey(net: Fields) {
    forall i :: 0 <= i < |EGRESS_KEYS| ==> !Truthy(Get(net, EGRESS_KEYS[i]))
  }

  /** The whole of what is demanded of a table, in terms of what the rest of the program reads from it. */
  ghost predicate Meets(net: Fields, config: Option<Fields>, ops: Ops) {
    && PortsMeet(Get(net, "ports")) && "http2" !in net
    && (OnHostNetwork(net, config) ==> NoEgressKey(net))
    && TableMeets(net, Delivered(net, ops), ops)
  }

  lemma RestEmpty(net: Fields, config: Option<Fields>, ops: Ops)
    ensures Accepted(net, config, ops) <==>
            && PublishErrors(Get(net, "ports")) == [] && "http2" !in net
            && (OnHostNetwork(net, config) ==> NamedKeys(net, EGRESS_KEYS) == [])
            && TableErrors(net, ops) == []
  {
    var a, b := PublishErrors(Get(net, "ports")), if "http2" in net then [Error("http2", Http2Refused)] else [];
    var c := if OnHostNetwork(net, config) && NamedKeys(net, EGRESS_KEYS) != []
             then [Error("network", HostModeConflict(NamedKeys(net, EGRESS_KEYS)))] else TableErrors(net, ops);
    BothEmpty(a, b);
    BothEmpty(a + b, c);
  }

  /** A table is accepted exactly when it meets every demand. */
  lemma AcceptedExactly(net: Fields, config: Option<Fields>, ops: Ops)
    ensures Accepted(net, config, ops) <==> Meets(net, config, ops)
  {
    RestEmpty(net, config, ops);
    PublishExactly(Get(net, "ports"));
    NamedKeysExactly(net, EGRESS_KEYS);
    CollectedExactly(net, ops);
    MeetsEither(net, ops);
  }
}
