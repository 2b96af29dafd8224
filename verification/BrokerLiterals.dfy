/**
  Whether the broker's host rows name hosts. Collapsing entries on their host takes every such host
  for a literal; the container rules refuse a credential only on a pattern with a star.
 */
module BrokerLiterals {
  import opened Common
  import opened Toml
  import opened ContainerConfig
  import opened ContainerRules
  import opened ContainerMeaning
  import opened ContainerAcceptance
  import opened Broker
  import opened BrokerTables
  import BrokerDisagreement

  /** A name without any character that makes it a pattern. */
  predicate Literal(host: string) {
    '*' !in host && '?' !in host && '[' !in host
  }

  predicate Credentialed(e: PolicyEntry) {
    e.credential.Some? && e.credential.value != ""
  }

  // --- No star ---

  predicate Starless(e: PolicyEntry) {
    Credentialed(e) ==> '*' !in e.host
  }

  lemma ItemStarless(item: Value, names: set<string>, ops: Ops)
    requires PolicyMeets(item, names, ops) && ReadPolicy(item, ops).Some?
    ensures Starless(ReadPolicy(item, ops).value)
  {
  }

  lemma {:induction false} ItemsStarless(items: seq<Value>, names: set<string>, ops: Ops)
    requires PoliciesMeet(items, names, ops)
    ensures forall i :: 0 <= i < |ReadPolicies(items, ops)| ==> Starless(ReadPolicies(items, ops)[i])
  {
    if items != [] {
      PoliciesSnoc(items, names, ops);
      ItemsStarless(items[..|items| - 1], names, ops);
      if ReadPolicy(items[|items| - 1], ops).Some? {
        ItemStarless(items[|items| - 1], names, ops);
      }
    }
  }

  lemma AcceptedStarless(net: Fields, config: Option<Fields>, ops: Ops)
    requires Accepted(net, config, ops)
    ensures forall i :: 0 <= i < |PolicyEntries(net, ops)| ==> Starless(PolicyEntries(net, ops)[i])
  {
    AcceptedExactly(net, config, ops);
    ItemsStarless(Items(net, "policy"), NamesOf(CredentialEntries(net)), ops);
  }

  // --- The rows ---

  ghost predicate LiteralRows(rows: seq<Flag>) {
    forall i :: 0 <= i < |rows| ==> Literal(rows[i].key)
  }

  ghost predicate LiteralHosts(pairs: seq<Pair>) {
    forall i :: 0 <= i < |pairs| ==> Literal(pairs[i].host)
  }

  lemma RowsAreTheHosts(workload: string, rows: seq<Flag>, pairs: seq<Pair>)
    requires HostsExact(workload, rows, pairs)
    ensures LiteralRows(rows) <==> LiteralHosts(pairs)
  {
    if LiteralRows(rows) {
      forall i | 0 <= i < |pairs| ensures Literal(pairs[i].host) {
        assert HasHost(pairs, pairs[i].host);
        assert Serves(rows, pairs[i].host);
      }
    }
    if LiteralHosts(pairs) {
      forall i | 0 <= i < |rows| ensures Literal(rows[i].key) {
        assert Serves(rows, rows[i].key);
        assert HasHost(pairs, rows[i].key);
      }
    }
  }

  /** No entry that selects a credential has a question mark or an opening bracket in its host. */
  ghost predicate PlainSelectors(entries: seq<PolicyEntry>) {
    forall i :: 0 <= i < |entries| && Credentialed(entries[i]) ==> '?' !in entries[i].host && '[' !in entries[i].host
  }

  lemma PairsAreTheSelectors(entries: seq<PolicyEntry>)
    requires forall i :: 0 <= i < |entries| ==> Starless(entries[i])
    ensures LiteralHosts(CredentialedPairs(entries)) <==> PlainSelectors(entries)
  {
    var pairs := CredentialedPairs(entries);
    PairsFromEntries(entries);
    if LiteralHosts(pairs) {
      forall i | 0 <= i < |entries| && Credentialed(entries[i])
        ensures '?' !in entries[i].host && '[' !in entries[i].host
      {
        var p := Pair(entries[i].host, entries[i].credential.value);
        assert entries[i].host == p.host;
        assert p in pairs;
      }
    }
    if PlainSelectors(entries) {
      forall k | 0 <= k < |pairs| ensures Literal(pairs[k].host) {
        assert pairs[k] in pairs;
        var i :| 0 <= i < |entries| && entries[i].host == pairs[k].host &&
                 entries[i].credential == Some(pairs[k].credential) && pairs[k].credential != "";
        assert Starless(entries[i]);
      }
    }
  }

  /** The host rows of an accepted table are literals exactly when no selecting entry has a '?' or '[' in its host. */
  lemma RowsAreLiteralExactly(
      net: Fields, config: Option<Fields>, ops: Ops, workload: string, listen: string, uid: string)
    requires Accepted(net, config, ops) && SegmentName(workload)
    ensures Command(workload, listen, uid, BrokerHosts(net, ops), CredentialEntries(net)).Some?
    ensures var argv := ArgvOf(Command(workload, listen, uid, BrokerHosts(net, ops), CredentialEntries(net)).value);
            LiteralRows(HostTable(argv)) <==> PlainSelectors(PolicyEntries(net, ops))
  {
    AcceptedCommand(net, config, ops, workload, listen, uid);
    AcceptedStarless(net, config, ops);
    PairsAreTheSelectors(PolicyEntries(net, ops));
    var argv := ArgvOf(Command(workload, listen, uid, BrokerHosts(net, ops), CredentialEntries(net)).value);
    RowsAreTheHosts(workload, HostTable(argv), BrokerHosts(net, ops));
  }

  // --- A pattern that is accepted ---

  const QUESTION := "a?.b"

  lemma QuestionIsNoProblem()
    ensures BrokerDisagreement.OrdinaryHost(QUESTION) && '?' in QUESTION
  {
    BrokerDisagreement.NothingToStrip(QUESTION);
    assert QUESTION[1..] == "?.b" && "?.b"[1..] == ".b" && ".b"[1..] == "b" && "b"[1..] == "";
    assert !Contains("", "://") && !Contains("b", "://") && !Contains(".b", "://") && !Contains("?.b", "://");
    assert QUESTION[1] == '?';
  }

  /** A credential on a?.b is accepted, whatever the credentials are called, and the row names no host. */
  lemma PatternRowIsAccepted(
      a: Credential, b: Credential, ops: Ops, workload: string, listen: string, uid: string)
    requires BrokerDisagreement.OrdinaryPair(a, b) && ops.upper("GET") == "GET" && SegmentName(workload)
    requires a.authHeader.None? && a.authFormat.None? && b.authHeader.None? && b.authFormat.None?
    ensures var net := BrokerDisagreement.DisagreeingTable(QUESTION, a, b);
            && Accepted(net, None, ops)
            && var command := Command(workload, listen, uid, BrokerHosts(net, ops), CredentialEntries(net));
               command.Some? && !LiteralRows(HostTable(ArgvOf(command.value)))
  {
    var net := BrokerDisagreement.DisagreeingTable(QUESTION, a, b);
    QuestionIsNoProblem();
    BrokerDisagreement.DisagreementExists(QUESTION, a, b);
    BrokerDisagreement.DisagreeingTableIsAccepted(net, QUESTION, a, b, ops);
    BrokerDisagreement.TableReads(net, QUESTION, a, b, ops);
    RowsAreLiteralExactly(net, None, ops, workload, listen, uid);
    assert Credentialed(PolicyEntries(net, ops)[0]);
  }
}
