/** The tables the broker's command line decodes to, and how they relate to the policy it was built from. */
module BrokerTables {
  import opened Common
  import opened Toml
  import opened ContainerConfig
  import opened ContainerRules
  import opened ContainerAgreement
  import opened Broker

  // --- Decoding ---

  /** A flag as the broker's parser splits it: at the first '='. */
  datatype Flag = Flag(name: string, key: string, value: string)

  function Key(s: string): string {
    if s == "" || s[0] == '=' then "" else [s[0]] + Key(s[1..])
  }

  function Rest(s: string): string {
    if s == "" then "" else if s[0] == '=' then s[1..] else Rest(s[1..])
  }

  function FlagOf(a: Arg): Flag {
    Flag(a.name, Key(a.text), Rest(a.text))
  }

  /** The flags with one name, in order. */
  function Named(args: seq<Arg>, name: string): seq<Flag> {
    if args == [] then []
    else
      var front, a := Named(args[..|args| - 1], name), args[|args| - 1];
      if a.name == name then front + [FlagOf(a)] else front
  }

  /** Two strings at a time. */
  function Unspell(words: seq<string>): seq<Arg> {
    if |words| < 2 then [] else Unspell(words[..|words| - 2]) + [Arg(words[|words| - 2], words[|words| - 1])]
  }

  lemma {:induction false} UnspellSpell(args: seq<Arg>)
    ensures Unspell(Spell(args)) == args
  {
    if args != [] {
      var front, last := args[..|args| - 1], args[|args| - 1];
      UnspellSpell(front);
      var words := Spell(front) + [last.name, last.text];
      assert words[..|words| - 2] == Spell(front);
    }
  }

  function HostTable(argv: seq<string>): seq<Flag>
    requires argv != []
  {
    Named(Unspell(argv[1..]), "--host")
  }

  function Described(argv: seq<string>, fact: Fact): seq<Flag>
    requires argv != []
  {
    Named(Unspell(argv[1..]), FlagName(fact))
  }

  /** The credential id the broker serves a host with. */
  function Lookup(table: seq<Flag>, host: string): Option<string> {
    if table == [] then None
    else if table[0].key == host then Some(table[0].value)
    else Lookup(table[1..], host)
  }

  // --- What the command decodes to ---

  predicate NoEquals(s: string) {
    '=' !in s
  }

  lemma {:induction false} SplitAtEquals(a: string, b: string)
    requires NoEquals(a)
    ensures Key(a + "=" + b) == a && Rest(a + "=" + b) == b
  {
    var s := a + "=" + b;
    if a == "" {
      assert s[1..] == b;
    } else {
      assert s[0] == a[0] && s[1..] == a[1..] + "=" + b;
      SplitAtEquals(a[1..], b);
    }
  }

  lemma SealHasNoEquals(workload: string, credential: string)
    requires Seal(workload, credential).Some?
    ensures NoEquals(Seal(workload, credential).value)
  {
    forall i | 0 <= i < |workload| ensures workload[i] != '=' { assert SegmentChar(workload[i]); }
    forall i | 0 <= i < |credential| ensures credential[i] != '=' { assert SegmentChar(credential[i]); }
  }

  lemma SealInjective(workload: string, a: string, b: string)
    requires Seal(workload, a).Some? && Seal(workload, b).Some? && Seal(workload, a) == Seal(workload, b)
    ensures a == b
  {
    var base := "broker-" + workload + "-";
    assert (base + a)[|base|..] == a && (base + b)[|base|..] == b;
  }

  function HostFlags(workload: string, pairs: seq<Pair>): seq<Flag> {
    if pairs == [] then []
    else
      var front, p := HostFlags(workload, pairs[..|pairs| - 1]), pairs[|pairs| - 1];
      var id := Seal(workload, p.credential);
      front + [Flag("--host", p.host, if id.Some? then id.value else "")]
  }

  lemma {:induction false} NamedConcat(a: seq<Arg>, b: seq<Arg>, name: string)
    ensures Named(a + b, name) == Named(a, name) + Named(b, name)
  {
    if b == [] {
      assert a + b == a;
    } else {
      NamedConcat(a, b[..|b| - 1], name);
      assert (a + b)[..|a + b| - 1] == a + b[..|b| - 1];
    }
  }

  lemma NamedOne(a: Arg, name: string)
    ensures Named([a], name) == if a.name == name then [FlagOf(a)] else []
  {
    assert [a][..0] == [];
  }

  lemma {:induction false} HostArgsNamed(workload: string, pairs: seq<Pair>, name: string)
    requires HostArgs(workload, pairs).Some?
    requires forall i :: 0 <= i < |pairs| ==> NoEquals(pairs[i].host)
    ensures Named(HostArgs(workload, pairs).value, name) == if name == "--host" then HostFlags(workload, pairs) else []
  {
    if pairs != [] {
      var front, p := pairs[..|pairs| - 1], pairs[|pairs| - 1];
      HostArgsNamed(workload, front, name);
      SplitAtEquals(p.host, Seal(workload, p.credential).value);
      var a := Arg("--host", p.host + "=" + Seal(workload, p.credential).value);
      NamedConcat(HostArgs(workload, front).value, [a], name);
      NamedOne(a, name);
    }
  }

  lemma {:induction false} HostFlagsKeys(workload: string, pairs: seq<Pair>)
    ensures |HostFlags(workload, pairs)| == |pairs|
    ensures forall i :: 0 <= i < |pairs| ==> HostFlags(workload, pairs)[i].key == pairs[i].host
  {
    if pairs != [] {
      HostFlagsKeys(workload, pairs[..|pairs| - 1]);
    }
  }

  lemma FlagNamesDiffer(a: Fact, b: Fact)
    ensures FlagName(a) != "--host" && FlagName(a) != "--name" && FlagName(a) != "--listen"
            && FlagName(a) != "--caller-uid"
    ensures FlagName(a) == FlagName(b) ==> a == b
  {
    var host, name, listen, uid := "--host", "--name", "--listen", "--caller-uid";
    assert host[2] == 'h' && name[2] == 'n' && listen[2] == 'l' && uid[2] == 'c';
    var p, h, f := "--placeholder", "--auth-header", "--auth-format";
    assert p[2] == 'p' && h[2] == 'a' && f[2] == 'a' && h[7] == 'h' && f[7] == 'f';
  }

  function FactFlag(id: string, cred: Credential, fact: Fact): seq<Flag> {
    var v := Stated(fact, cred);
    if v.Some? then [Flag(FlagName(fact), id, v.value)] else []
  }

  lemma FactArgNamed(id: string, cred: Credential, fact: Fact, name: string)
    requires NoEquals(id)
    ensures Named(FactArg(id, cred, fact), name) == if name == FlagName(fact) then FactFlag(id, cred, fact) else []
  {
    var v := Stated(fact, cred);
    if v.Some? {
      SplitAtEquals(id, v.value);
      NamedOne(Arg(FlagName(fact), id + "=" + v.value), name);
    }
  }

  lemma DescriptionSplits(id: string, cred: Credential, name: string)
    ensures Named(DescriptionOf(id, cred), name) ==
            Named(FactArg(id, cred, Placeholder), name) + Named(FactArg(id, cred, AuthHeader), name) +
            Named(FactArg(id, cred, AuthFormat), name)
  {
    NamedConcat(FactArg(id, cred, Placeholder), FactArg(id, cred, AuthHeader), name);
    NamedConcat(FactArg(id, cred, Placeholder) + FactArg(id, cred, AuthHeader), FactArg(id, cred, AuthFormat), name);
  }

  lemma DescriptionNamed(id: string, cred: Credential, fact: Fact)
    requires NoEquals(id)
    ensures Named(DescriptionOf(id, cred), FlagName(fact)) == FactFlag(id, cred, fact)
  {
    DescriptionSplits(id, cred, FlagName(fact));
    FactArgNamed(id, cred, Placeholder, FlagName(fact));
    FactArgNamed(id, cred, AuthHeader, FlagName(fact));
    FactArgNamed(id, cred, AuthFormat, FlagName(fact));
    FlagNamesDiffer(Placeholder, fact);
    FlagNamesDiffer(AuthHeader, fact);
    FlagNamesDiffer(AuthFormat, fact);
  }

  lemma DescriptionHasNoHost(id: string, cred: Credential)
    requires NoEquals(id)
    ensures Named(DescriptionOf(id, cred), "--host") == []
  {
    DescriptionSplits(id, cred, "--host");
    FactArgNamed(id, cred, Placeholder, "--host");
    FactArgNamed(id, cred, AuthHeader, "--host");
    FactArgNamed(id, cred, AuthFormat, "--host");
    FlagNamesDiffer(Placeholder, Placeholder);
    FlagNamesDiffer(AuthHeader, AuthHeader);
    FlagNamesDiffer(AuthFormat, AuthFormat);
  }

  /** One fact of every selected credential whose declared block states it. */
  function Facts(workload: string, selected: seq<string>, creds: seq<Credential>, fact: Fact): seq<Flag> {
    if selected == [] then []
    else
      var front, c := Facts(workload, selected[..|selected| - 1], creds, fact), selected[|selected| - 1];
      if CredentialNamed(creds, c) == None || Seal(workload, c) == None then front
      else front + FactFlag(Seal(workload, c).value, CredentialNamed(creds, c).value, fact)
  }

  lemma {:induction false} DescriptionsNamed(workload: string, selected: seq<string>, creds: seq<Credential>,
      fact: Fact)
    requires DescriptionArgs(workload, selected, creds).Some?
    ensures Named(DescriptionArgs(workload, selected, creds).value, FlagName(fact)) ==
            Facts(workload, selected, creds, fact)
    ensures Named(DescriptionArgs(workload, selected, creds).value, "--host") == []
  {
    if selected != [] {
      var front, c := selected[..|selected| - 1], selected[|selected| - 1];
      DescriptionsNamed(workload, front, creds, fact);
      if CredentialNamed(creds, c).Some? {
        var id, cred := Seal(workload, c).value, CredentialNamed(creds, c).value;
        var before := DescriptionArgs(workload, front, creds).value;
        SealHasNoEquals(workload, c);
        DescriptionNamed(id, cred, fact);
        DescriptionHasNoHost(id, cred);
        NamedConcat(before, DescriptionOf(id, cred), FlagName(fact));
        NamedConcat(before, DescriptionOf(id, cred), "--host");
      }
    }
  }

  lemma PlainNamed(workload: string, listen: string, uid: string, name: string)
    requires name != "--name" && name != "--listen" && name != "--caller-uid"
    ensures Named([Arg("--name", workload), Arg("--listen", listen), Arg("--caller-uid", uid)], name) == []
  {
    var a, b, c := Arg("--name", workload), Arg("--listen", listen), Arg("--caller-uid", uid);
    assert [a, b, c] == [a] + [b] + [c];
    NamedOne(a, name);
    NamedOne(b, name);
    NamedOne(c, name);
    NamedConcat([a], [b], name);
    NamedConcat([a] + [b], [c], name);
  }

  function ArgvOf(command: seq<Arg>): (argv: seq<string>)
    ensures argv != []
  {
    [BROKER_BIN] + Spell(command)
  }

  lemma CommandNamed(workload: string, listen: string, uid: string, pairs: seq<Pair>, creds: seq<Credential>,
      name: string)
    requires Command(workload, listen, uid, pairs, creds).Some?
    requires name != "--name" && name != "--listen" && name != "--caller-uid"
    ensures Named(Command(workload, listen, uid, pairs, creds).value, name) ==
            Named(HostArgs(workload, FirstPairs(pairs)).value, name) +
            Named(DescriptionArgs(workload, Selected(FirstPairs(pairs)), creds).value, name)
  {
    var firsts := FirstPairs(pairs);
    var h, d := HostArgs(workload, firsts).value, DescriptionArgs(workload, Selected(firsts), creds).value;
    PlainNamed(workload, listen, uid, name);
    NamedConcat(h, d, name);
    NamedConcat([Arg("--name", workload), Arg("--listen", listen), Arg("--caller-uid", uid)], h + d, name);
  }

  lemma ArgvUnspells(command: seq<Arg>)
    ensures Unspell(ArgvOf(command)[1..]) == command
  {
    assert ArgvOf(command)[1..] == Spell(command);
    UnspellSpell(command);
  }

  lemma HostsDecode(workload: string, listen: string, uid: string, pairs: seq<Pair>, creds: seq<Credential>)
    requires Command(workload, listen, uid, pairs, creds).Some?
    requires forall i :: 0 <= i < |pairs| ==> NoEquals(pairs[i].host)
    ensures HostTable(ArgvOf(Command(workload, listen, uid, pairs, creds).value)) ==
            HostFlags(workload, FirstPairs(pairs))
  {
    var firsts := FirstPairs(pairs);
    ArgvUnspells(Command(workload, listen, uid, pairs, creds).value);
    CommandNamed(workload, listen, uid, pairs, creds, "--host");
    forall i | 0 <= i < |firsts| ensures NoEquals(firsts[i].host) { FirstIsAPair(pairs, i); }
    HostArgsNamed(workload, firsts, "--host");
    DescriptionsNamed(workload, Selected(firsts), creds, Placeholder);
  }

  lemma FactsDecode(workload: string, listen: string, uid: string, pairs: seq<Pair>, creds: seq<Credential>, fact: Fact)
    requires Command(workload, listen, uid, pairs, creds).Some?
    requires forall i :: 0 <= i < |pairs| ==> NoEquals(pairs[i].host)
    ensures Described(ArgvOf(Command(workload, listen, uid, pairs, creds).value), fact) ==
            Facts(workload, Selected(FirstPairs(pairs)), creds, fact)
  {
    var firsts := FirstPairs(pairs);
    ArgvUnspells(Command(workload, listen, uid, pairs, creds).value);
    FlagNamesDiffer(fact, fact);
    CommandNamed(workload, listen, uid, pairs, creds, FlagName(fact));
    forall i | 0 <= i < |firsts| ensures NoEquals(firsts[i].host) { FirstIsAPair(pairs, i); }
    HostArgsNamed(workload, firsts, FlagName(fact));
    DescriptionsNamed(workload, Selected(firsts), creds, fact);
  }

  /** Decoding the argv recovers one row per host, and each fact of every selected credential that states it. */
  lemma CommandDecodes(workload: string, listen: string, uid: string, pairs: seq<Pair>, creds: seq<Credential>)
    requires Command(workload, listen, uid, pairs, creds).Some?
    requires forall i :: 0 <= i < |pairs| ==> NoEquals(pairs[i].host)
    ensures var argv := ArgvOf(Command(workload, listen, uid, pairs, creds).value);
            && HostTable(argv) == HostFlags(workload, FirstPairs(pairs))
            && forall fact :: Described(argv, fact) == Facts(workload, Selected(FirstPairs(pairs)), creds, fact)
  {
    HostsDecode(workload, listen, uid, pairs, creds);
    forall fact ensures Described(ArgvOf(Command(workload, listen, uid, pairs, creds).value), fact) ==
                        Facts(workload, Selected(FirstPairs(pairs)), creds, fact) {
      FactsDecode(workload, listen, uid, pairs, creds, fact);
    }
  }

  lemma {:induction false} FirstIsAPair(pairs: seq<Pair>, i: nat)
    requires i < |FirstPairs(pairs)|
    ensures exists j :: 0 <= j < |pairs| && pairs[j] == FirstPairs(pairs)[i]
  {
    var front := FirstPairs(pairs[..|pairs| - 1]);
    if i < |front| {
      FirstIsAPair(pairs[..|pairs| - 1], i);
      var j :| 0 <= j < |pairs| - 1 && pairs[..|pairs| - 1][j] == front[i];
      assert pairs[j] == front[i];
    } else {
      assert pairs[|pairs| - 1] == FirstPairs(pairs)[i];
    }
  }

  lemma {:induction false} FirstPairsDistinct(pairs: seq<Pair>)
    ensures forall i, j :: 0 <= i < j < |FirstPairs(pairs)| ==> FirstPairs(pairs)[i].host != FirstPairs(pairs)[j].host
  {
    if pairs != [] {
      FirstPairsDistinct(pairs[..|pairs| - 1]);
    }
  }

  lemma {:induction false} SelectedDistinct(pairs: seq<Pair>)
    ensures NoDuplicates(Selected(pairs))
    ensures forall c :: c in Selected(pairs) <==> exists i :: 0 <= i < |pairs| && pairs[i].credential == c
  {
    if pairs != [] {
      var front, last := pairs[..|pairs| - 1], pairs[|pairs| - 1];
      SelectedDistinct(front);
      forall c ensures c in Selected(pairs) <==> exists i :: 0 <= i < |pairs| && pairs[i].credential == c {
        if i :| 0 <= i < |front| && front[i].credential == c {
          assert pairs[i].credential == c;
        }
        if i :| 0 <= i < |pairs| && pairs[i].credential == c {
          assert i < |front| ==> front[i].credential == c;
        }
        assert pairs[|pairs| - 1].credential == last.credential;
      }
    }
  }

  // --- Which credential a host is served with ---

  /** The credential of the earliest entry for a host. */
  function FirstFor(pairs: seq<Pair>, host: string): Option<string> {
    if pairs == [] then None
    else
      var front := FirstFor(pairs[..|pairs| - 1], host);
      if front.Some? then front
      else if pairs[|pairs| - 1].host == host then Some(pairs[|pairs| - 1].credential) else None
  }

  lemma {:induction false} FirstForHas(pairs: seq<Pair>, host: string)
    ensures FirstFor(pairs, host).Some? <==> HasHost(pairs, host)
    ensures FirstFor(pairs, host).Some? ==>
            exists i :: 0 <= i < |pairs| && pairs[i] == Pair(host, FirstFor(pairs, host).value)
  {
    if pairs != [] {
      var front, last := pairs[..|pairs| - 1], pairs[|pairs| - 1];
      FirstForHas(front, host);
      if i :| 0 <= i < |front| && front[i].host == host {
        assert pairs[i].host == host;
      }
      if i :| 0 <= i < |pairs| && pairs[i].host == host {
        assert i < |front| ==> front[i].host == host;
      }
      if FirstFor(front, host).Some? {
        var i :| 0 <= i < |front| && front[i] == Pair(host, FirstFor(front, host).value);
        assert pairs[i] == front[i];
      } else if last.host == host {
        assert pairs[|pairs| - 1] == Pair(host, last.credential);
      }
    }
  }

  lemma {:induction false} FirstForFirsts(pairs: seq<Pair>, host: string)
    ensures FirstFor(FirstPairs(pairs), host) == FirstFor(pairs, host)
  {
    if pairs != [] {
      var front, last := pairs[..|pairs| - 1], pairs[|pairs| - 1];
      FirstForFirsts(front, host);
      FirstForHas(FirstPairs(front), host);
      var firsts := FirstPairs(front);
      if !HasHost(firsts, last.host) {
        assert (firsts + [last])[..|firsts|] == firsts;
      }
    }
  }

  lemma {:induction false} LookupSnoc(table: seq<Flag>, f: Flag, host: string)
    ensures Lookup(table + [f], host) ==
            if Lookup(table, host).Some? then Lookup(table, host) else if f.key == host then Some(f.value) else None
  {
    if table == [] {
      assert table + [f] == [f];
    } else {
      assert (table + [f])[1..] == table[1..] + [f];
      LookupSnoc(table[1..], f, host);
    }
  }

  lemma {:induction false} LookupIsFirst(workload: string, pairs: seq<Pair>, host: string)
    requires forall i :: 0 <= i < |pairs| ==> Seal(workload, pairs[i].credential).Some?
    ensures Lookup(HostFlags(workload, pairs), host) ==
            if FirstFor(pairs, host).Some? then Seal(workload, FirstFor(pairs, host).value) else None
  {
    if pairs != [] {
      var front, p := pairs[..|pairs| - 1], pairs[|pairs| - 1];
      LookupIsFirst(workload, front, host);
      LookupSnoc(HostFlags(workload, front), Flag("--host", p.host, Seal(workload, p.credential).value), host);
      FirstForHas(front, host);
    }
  }

  lemma {:induction false} HostArgsSealed(workload: string, pairs: seq<Pair>)
    ensures HostArgs(workload, pairs).Some? <==>
            forall i :: 0 <= i < |pairs| ==> Seal(workload, pairs[i].credential).Some?
  {
    if pairs != [] {
      HostArgsSealed(workload, pairs[..|pairs| - 1]);
      assert forall i :: 0 <= i < |pairs| - 1 ==> pairs[..|pairs| - 1][i] == pairs[i];
    }
  }

  ghost predicate Agreeing(pairs: seq<Pair>) {
    forall i, j :: 0 <= i < |pairs| && 0 <= j < |pairs| && pairs[i].host == pairs[j].host ==>
      pairs[i].credential == pairs[j].credential
  }

  ghost predicate Served(workload: string, table: seq<Flag>, pairs: seq<Pair>) {
    forall i :: 0 <= i < |pairs| ==> Lookup(table, pairs[i].host) == Seal(workload, pairs[i].credential)
  }

  /** Every selecting entry is served with its own credential exactly when entries for one host agree. */
  lemma ServedExactlyWhenAgreeing(workload: string, listen: string, uid: string, pairs: seq<Pair>,
      creds: seq<Credential>)
    requires Command(workload, listen, uid, pairs, creds).Some?
    requires forall i :: 0 <= i < |pairs| ==> NoEquals(pairs[i].host) && Seal(workload, pairs[i].credential).Some?
    ensures Served(workload, HostTable(ArgvOf(Command(workload, listen, uid, pairs, creds).value)), pairs) <==>
            Agreeing(pairs)
  {
    var table := HostTable(ArgvOf(Command(workload, listen, uid, pairs, creds).value));
    HostsDecode(workload, listen, uid, pairs, creds);
    HostArgsSealed(workload, FirstPairs(pairs));
    forall i | 0 <= i < |pairs|
      ensures FirstFor(pairs, pairs[i].host).Some? &&
              Lookup(table, pairs[i].host) == Seal(workload, FirstFor(pairs, pairs[i].host).value)
    {
      LookupIsFirst(workload, FirstPairs(pairs), pairs[i].host);
      FirstForFirsts(pairs, pairs[i].host);
      FirstForHas(pairs, pairs[i].host);
    }
    if Agreeing(pairs) {
      forall i | 0 <= i < |pairs| ensures Lookup(table, pairs[i].host) == Seal(workload, pairs[i].credential) {
        FirstForHas(pairs, pairs[i].host);
      }
    }
    if Served(workload, table, pairs) {
      forall i, j | 0 <= i < |pairs| && 0 <= j < |pairs| && pairs[i].host == pairs[j].host
        ensures pairs[i].credential == pairs[j].credential
      {
        SealInjective(workload, pairs[i].credential, pairs[j].credential);
      }
    }
  }

  // --- The command of an accepted table ---

  lemma HostHasNoEquals(pattern: Value)
    requires ProblemWith(pattern) == None
    ensures NoEquals(Strip(pattern.text))
  {
    var text := Strip(pattern.text);
    forall i | 0 <= i < |text| ensures text[i] != '=' { assert HostChar(text[i]); }
  }

  /** What the rules guarantee about one entry's host and selector. */
  predicate SoundEntry(e: PolicyEntry, names: set<string>) {
    NoEquals(e.host) && (e.credential.Some? ==> e.credential.value in names)
  }

  lemma ItemSound(item: Value, names: set<string>, ops: Ops)
    requires PolicyItemErrors(item, names, ops) == []
    ensures PolicyItemEntry(item, ops).Some? && SoundEntry(PolicyItemEntry(item, ops).value, names)
  {
    assert item.Table? && "host" in item.fields && ProblemWith(item.fields["host"]) == None;
    HostHasNoEquals(item.fields["host"]);
    assert SelectorErrors(Strip(item.fields["host"].text), Get(item.fields, "credential"), names) == [];
  }

  predicate GoodItem(item: Value, names: set<string>, ops: Ops) {
    PolicyItemEntry(item, ops).Some? && SoundEntry(PolicyItemEntry(item, ops).value, names)
  }

  lemma LastItemIsGood(items: seq<Value>, names: set<string>, ops: Ops)
    requires items != [] && PolicyErrors(items, names, ops) == []
    ensures PolicyErrors(items[..|items| - 1], names, ops) == []
    ensures GoodItem(items[|items| - 1], names, ops)
  {
    var a, b := PolicyErrors(items[..|items| - 1], names, ops), PolicyItemErrors(items[|items| - 1], names, ops);
    assert |a + b| == |a| + |b|;
    ItemSound(items[|items| - 1], names, ops);
  }

  predicate AllGood(items: seq<Value>, names: set<string>, ops: Ops) {
    forall i :: 0 <= i < |items| ==> GoodItem(items[i], names, ops)
  }

  lemma AllGoodSnoc(items: seq<Value>, names: set<string>, ops: Ops)
    requires items != [] && AllGood(items[..|items| - 1], names, ops) && GoodItem(items[|items| - 1], names, ops)
    ensures AllGood(items, names, ops)
  {
    var front := items[..|items| - 1];
    forall i | 0 <= i < |items| ensures GoodItem(items[i], names, ops) {
      if i < |front| { assert items[i] == front[i]; }
    }
  }

  lemma {:induction false} CleanItems(items: seq<Value>, names: set<string>, ops: Ops)
    requires PolicyErrors(items, names, ops) == []
    ensures AllGood(items, names, ops)
  {
    if items != [] {
      LastItemIsGood(items, names, ops);
      CleanItems(items[..|items| - 1], names, ops);
      AllGoodSnoc(items, names, ops);
    }
  }

  lemma {:induction false} GoodItemsSound(items: seq<Value>, names: set<string>, ops: Ops)
    requires AllGood(items, names, ops)
    ensures forall i :: 0 <= i < |PolicyValidEntries(items, ops)| ==>
            SoundEntry(PolicyValidEntries(items, ops)[i], names)
  {
    if items != [] {
      GoodItemsSound(items[..|items| - 1], names, ops);
      assert GoodItem(items[|items| - 1], names, ops);
    }
  }

  lemma EntriesSound(items: seq<Value>, names: set<string>, ops: Ops)
    requires PolicyErrors(items, names, ops) == []
    ensures forall i :: 0 <= i < |PolicyValidEntries(items, ops)| ==>
            SoundEntry(PolicyValidEntries(items, ops)[i], names)
  {
    CleanItems(items, names, ops);
    GoodItemsSound(items, names, ops);
  }

  lemma {:induction false} PairsFromEntries(entries: seq<PolicyEntry>)
    ensures forall p :: p in CredentialedPairs(entries) <==>
              exists i :: 0 <= i < |entries| && entries[i].host == p.host
                  && entries[i].credential == Some(p.credential) && p.credential != ""
  {
    if entries != [] {
      var front, last := entries[..|entries| - 1], entries[|entries| - 1];
      PairsFromEntries(front);
      forall p ensures p in CredentialedPairs(entries) <==>
                       exists i :: 0 <= i < |entries| && entries[i].host == p.host
                           && entries[i].credential == Some(p.credential) && p.credential != "" {
        if p in CredentialedPairs(front) {
          var i :| 0 <= i < |front| && front[i].host == p.host && front[i].credential == Some(p.credential)
              && p.credential != "";
          assert entries[i] == front[i];
        }
        if i :|
          && 0 <= i < |entries| && entries[i].host == p.host
          && entries[i].credential == Some(p.credential) && p.credential != ""
        {
          if i < |front| {
            assert front[i] == entries[i];
          }
        }
        assert entries[|entries| - 1] == last;
      }
    }
  }

  lemma {:induction false} NamedIsDeclared(creds: seq<Credential>, name: string)
    ensures CredentialNamed(creds, name).Some? <==> name in NamesOf(creds)
    ensures CredentialNamed(creds, name).Some? ==> CredentialNamed(creds, name).value.name == name
    ensures CredentialNamed(creds, name).Some? ==> CredentialNamed(creds, name).value in creds
  {
    if creds != [] {
      NamedIsDeclared(creds[1..], name);
      if creds[0].name != name {
        assert name in NamesOf(creds) <==> name in NamesOf(creds[1..]) by {
          if i :| 0 <= i < |creds| && creds[i].name == name {
            assert creds[1..][i - 1].name == name;
          }
          if i :| 0 <= i < |creds[1..]| && creds[1..][i].name == name {
            assert creds[i + 1].name == name;
          }
        }
      } else {
        assert creds[0].name in NamesOf(creds);
      }
    }
  }

  predicate NamesDiffer(creds: seq<Credential>) {
    forall i, j :: 0 <= i < j < |creds| ==> creds[i].name != creds[j].name
  }

  ghost predicate Usable(workload: string, pairs: seq<Pair>, creds: seq<Credential>) {
    && SegmentName(workload) && NamesDiffer(creds)
    && forall i :: 0 <= i < |pairs| ==>
         NoEquals(pairs[i].host) && SegmentName(pairs[i].credential) && pairs[i].credential in NamesOf(creds)
  }

  lemma PairsUsable(entries: seq<PolicyEntry>, creds: seq<Credential>, workload: string)
    requires SegmentName(workload) && NamesDiffer(creds)
    requires forall i :: 0 <= i < |entries| ==> SoundEntry(entries[i], NamesOf(creds))
    requires forall i :: 0 <= i < |creds| ==> SegmentName(creds[i].name)
    ensures Usable(workload, CredentialedPairs(entries), creds)
  {
    var pairs := CredentialedPairs(entries);
    PairsFromEntries(entries);
    forall i | 0 <= i < |pairs|
      ensures NoEquals(pairs[i].host) && SegmentName(pairs[i].credential) && pairs[i].credential in NamesOf(creds)
    {
      assert pairs[i] in pairs;
      var j :| 0 <= j < |entries| && entries[j].host == pairs[i].host
          && entries[j].credential == Some(pairs[i].credential);
      assert SoundEntry(entries[j], NamesOf(creds));
      var k :| 0 <= k < |creds| && creds[k].name == pairs[i].credential;
    }
  }

  lemma AcceptedPairsUsable(net: Fields, config: Option<Fields>, ops: Ops, workload: string)
    requires Accepted(net, config, ops) && SegmentName(workload)
    ensures Usable(workload, BrokerHosts(net, ops), CredentialEntries(net))
  {
    ReadersDropNothing(net, config, ops);
    AcceptedParts(net, config, ops);
    EntriesClean(net, ops);
    EntriesSound(Items(net, "policy"), NamesOf(CredentialEntries(net)), ops);
    PairsUsable(PolicyEntries(net, ops), CredentialEntries(net), workload);
  }

  lemma {:induction false} DescriptionArgsSealed(workload: string, selected: seq<string>, creds: seq<Credential>)
    requires forall i :: 0 <= i < |selected| ==> Seal(workload, selected[i]).Some?
    ensures DescriptionArgs(workload, selected, creds).Some?
  {
    if selected != [] {
      DescriptionArgsSealed(workload, selected[..|selected| - 1], creds);
    }
  }

  /** The first pairs of usable ones select sealed, declared credentials. */
  lemma UsableSelected(workload: string, pairs: seq<Pair>, creds: seq<Credential>, c: string)
    requires Usable(workload, pairs, creds) && c in Selected(FirstPairs(pairs))
    ensures Seal(workload, c).Some? && CredentialNamed(creds, c).Some?
  {
    var firsts := FirstPairs(pairs);
    SelectedDistinct(firsts);
    var j :| 0 <= j < |firsts| && firsts[j].credential == c;
    FirstIsAPair(pairs, j);
    NamedIsDeclared(creds, c);
  }

  lemma UsableCommand(workload: string, listen: string, uid: string, pairs: seq<Pair>, creds: seq<Credential>)
    requires Usable(workload, pairs, creds)
    ensures Command(workload, listen, uid, pairs, creds).Some?
  {
    var firsts := FirstPairs(pairs);
    var selected := Selected(firsts);
    forall i | 0 <= i < |firsts| ensures firsts[i] in pairs { FirstIsAPair(pairs, i); }
    HostArgsSealed(workload, firsts);
    forall i | 0 <= i < |selected| ensures Seal(workload, selected[i]).Some? {
      UsableSelected(workload, pairs, creds, selected[i]);
    }
    DescriptionArgsSealed(workload, selected, creds);
  }

  // --- What the decoded tables must say ---

  predicate Serves(hosts: seq<Flag>, host: string) {
    exists i :: 0 <= i < |hosts| && hosts[i].key == host
  }

  predicate SelectsId(hosts: seq<Flag>, id: string) {
    exists i :: 0 <= i < |hosts| && hosts[i].value == id
  }

  predicate KeysDiffer(rows: seq<Flag>) {
    forall i, j :: 0 <= i < j < |rows| ==> rows[i].key != rows[j].key
  }

  /**
    A row for every host that some entry selects a credential for and for no other, once each,
    naming one of its credentials.
   */
  ghost predicate HostsExact(workload: string, hosts: seq<Flag>, pairs: seq<Pair>) {
    && KeysDiffer(hosts)
    && (forall host :: Serves(hosts, host) <==> HasHost(pairs, host))
    && forall i :: 0 <= i < |hosts| ==>
         exists p :: p in pairs && p.host == hosts[i].key && Seal(workload, p.credential) == Some(hosts[i].value)
  }

  /** A declared block of that id states the fact so. */
  ghost predicate States(workload: string, creds: seq<Credential>, fact: Fact, id: string, value: string) {
    exists c :: c in creds && Seal(workload, c.name) == Some(id) && Stated(fact, c) == Some(value)
  }

  /** A fact is given once per credential, exactly for the ones a host row selects, exactly as their block states it. */
  ghost predicate FactExact(workload: string, hosts: seq<Flag>, rows: seq<Flag>, creds: seq<Credential>, fact: Fact) {
    && KeysDiffer(rows)
    && forall r :: r in rows <==>
         r.name == FlagName(fact) && SelectsId(hosts, r.key) && States(workload, creds, fact, r.key, r.value)
  }

  /** Credential `c` gives the row: its declared block states the fact so. */
  predicate GivesFact(workload: string, creds: seq<Credential>, fact: Fact, c: string, r: Flag) {
    && CredentialNamed(creds, c).Some? && Seal(workload, c) == Some(r.key) && r.name == FlagName(fact)
    && Stated(fact, CredentialNamed(creds, c).value) == Some(r.value)
  }

  lemma LastFact(workload: string, selected: seq<string>, creds: seq<Credential>, fact: Fact, r: Flag)
    requires selected != []
    ensures r in Facts(workload, selected, creds, fact) <==>
            r in Facts(workload, selected[..|selected| - 1], creds, fact) ||
            GivesFact(workload, creds, fact, selected[|selected| - 1], r)
  {
    var c := selected[|selected| - 1];
    if CredentialNamed(creds, c).Some? && Seal(workload, c).Some? {
      var id, cred := Seal(workload, c).value, CredentialNamed(creds, c).value;
      assert r in FactFlag(id, cred, fact) <==>
          r.name == FlagName(fact) && r.key == id && Stated(fact, cred) == Some(r.value);
    }
  }

  lemma {:induction false} FactsMembers(workload: string, selected: seq<string>, creds: seq<Credential>, fact: Fact,
      r: Flag)
    ensures r in Facts(workload, selected, creds, fact) <==>
            exists c :: c in selected && GivesFact(workload, creds, fact, c, r)
  {
    if selected != [] {
      var front, last := selected[..|selected| - 1], selected[|selected| - 1];
      FactsMembers(workload, front, creds, fact, r);
      LastFact(workload, selected, creds, fact, r);
      assert selected == front + [last];
      if c :| c in front && GivesFact(workload, creds, fact, c, r) { assert c in selected; }
      assert last in selected;
    }
  }

  lemma {:induction false} FactsDiffer(workload: string, selected: seq<string>, creds: seq<Credential>, fact: Fact)
    requires NoDuplicates(selected)
    ensures KeysDiffer(Facts(workload, selected, creds, fact))
  {
    if selected != [] {
      var front, last := selected[..|selected| - 1], selected[|selected| - 1];
      var rows := Facts(workload, front, creds, fact);
      FactsDiffer(workload, front, creds, fact);
      forall i | 0 <= i < |rows| ensures Seal(workload, last) != Some(rows[i].key) {
        FactsMembers(workload, front, creds, fact, rows[i]);
        var c :| c in front && GivesFact(workload, creds, fact, c, rows[i]);
        if Seal(workload, last) == Seal(workload, c) { SealInjective(workload, last, c); }
      }
    }
  }

  lemma {:induction false} HostFlagsValues(workload: string, pairs: seq<Pair>, i: nat)
    requires i < |pairs| && Seal(workload, pairs[i].credential).Some?
    ensures |HostFlags(workload, pairs)| == |pairs|
    ensures HostFlags(workload, pairs)[i].key == pairs[i].host
    ensures Some(HostFlags(workload, pairs)[i].value) == Seal(workload, pairs[i].credential)
  {
    HostFlagsKeys(workload, pairs[..|pairs| - 1]);
    if i < |pairs| - 1 {
      HostFlagsValues(workload, pairs[..|pairs| - 1], i);
    }
  }

  lemma SelectedIds(workload: string, pairs: seq<Pair>, id: string)
    requires forall i :: 0 <= i < |pairs| ==> Seal(workload, pairs[i].credential).Some?
    ensures SelectsId(HostFlags(workload, pairs), id) <==>
            exists c :: c in Selected(pairs) && Seal(workload, c) == Some(id)
  {
    var hosts := HostFlags(workload, pairs);
    HostFlagsKeys(workload, pairs);
    SelectedDistinct(pairs);
    if i :| 0 <= i < |hosts| && hosts[i].value == id {
      HostFlagsValues(workload, pairs, i);
      assert pairs[i].credential in Selected(pairs);
    }
    if c :| c in Selected(pairs) && Seal(workload, c) == Some(id) {
      var i :| 0 <= i < |pairs| && pairs[i].credential == c;
      HostFlagsValues(workload, pairs, i);
      assert hosts[i].value == id;
    }
  }

  lemma UniqueBlock(creds: seq<Credential>, c: Credential)
    requires NamesDiffer(creds) && c in creds
    ensures CredentialNamed(creds, c.name) == Some(c)
  {
    NamedIsDeclared(creds, c.name);
    var i :| 0 <= i < |creds| && creds[i] == c;
    assert c.name in NamesOf(creds);
    var d := CredentialNamed(creds, c.name).value;
    var j :| 0 <= j < |creds| && creds[j] == d;
    assert i == j;
  }

  /** A selected credential gives a fact exactly as the one block of its id states it. */
  lemma GivenIsStated(workload: string, creds: seq<Credential>, fact: Fact, r: Flag, c: string)
    requires NamesDiffer(creds) && Seal(workload, c) == Some(r.key) && r.name == FlagName(fact)
    ensures GivesFact(workload, creds, fact, c, r) <==> States(workload, creds, fact, r.key, r.value)
  {
    NamedIsDeclared(creds, c);
    if d :| d in creds && Seal(workload, d.name) == Some(r.key) && Stated(fact, d) == Some(r.value) {
      SealInjective(workload, d.name, c);
      UniqueBlock(creds, d);
    }
  }

  lemma FactRowExactly(workload: string, firsts: seq<Pair>, creds: seq<Credential>, fact: Fact, r: Flag)
    requires NamesDiffer(creds) && forall i :: 0 <= i < |firsts| ==> Seal(workload, firsts[i].credential).Some?
    ensures r in Facts(workload, Selected(firsts), creds, fact) <==>
            r.name == FlagName(fact) && SelectsId(HostFlags(workload, firsts), r.key)
                && States(workload, creds, fact, r.key, r.value)
  {
    var selected := Selected(firsts);
    FactsMembers(workload, selected, creds, fact, r);
    SelectedIds(workload, firsts, r.key);
    if c :| c in selected && GivesFact(workload, creds, fact, c, r) {
      GivenIsStated(workload, creds, fact, r, c);
    }
    if r.name == FlagName(fact) && States(workload, creds, fact, r.key, r.value) {
      if c :| c in selected && Seal(workload, c) == Some(r.key) {
        GivenIsStated(workload, creds, fact, r, c);
      }
    }
  }

  lemma FactsExact(workload: string, pairs: seq<Pair>, creds: seq<Credential>, fact: Fact)
    requires Usable(workload, pairs, creds)
    ensures FactExact(workload, HostFlags(workload, FirstPairs(pairs)),
            Facts(workload, Selected(FirstPairs(pairs)), creds, fact), creds, fact)
  {
    var firsts := FirstPairs(pairs);
    FirstsSealed(workload, pairs, creds);
    SelectedDistinct(firsts);
    FactsDiffer(workload, Selected(firsts), creds, fact);
    forall r ensures r in Facts(workload, Selected(firsts), creds, fact) <==>
                     r.name == FlagName(fact) && SelectsId(HostFlags(workload, firsts), r.key)
                         && States(workload, creds, fact, r.key, r.value) {
      FactRowExactly(workload, firsts, creds, fact, r);
    }
  }

  lemma FirstsSealed(workload: string, pairs: seq<Pair>, creds: seq<Credential>)
    requires Usable(workload, pairs, creds)
    ensures forall i :: 0 <= i < |FirstPairs(pairs)| ==> Seal(workload, FirstPairs(pairs)[i].credential).Some?
  {
    forall i | 0 <= i < |FirstPairs(pairs)| ensures Seal(workload, FirstPairs(pairs)[i].credential).Some? {
      FirstIsAPair(pairs, i);
    }
  }

  lemma {:induction false} FirstsCover(pairs: seq<Pair>, host: string)
    ensures HasHost(FirstPairs(pairs), host) <==> HasHost(pairs, host)
  {
    FirstForFirsts(pairs, host);
    FirstForHas(pairs, host);
    FirstForHas(FirstPairs(pairs), host);
  }

  lemma HostRowsExact(workload: string, pairs: seq<Pair>)
    requires forall i :: 0 <= i < |pairs| ==> Seal(workload, pairs[i].credential).Some?
    ensures HostsExact(workload, HostFlags(workload, FirstPairs(pairs)), pairs)
  {
    var firsts := FirstPairs(pairs);
    var hosts := HostFlags(workload, firsts);
    FirstPairsDistinct(pairs);
    HostFlagsKeys(workload, firsts);
    forall host ensures Serves(hosts, host) <==> HasHost(pairs, host) {
      FirstsCover(pairs, host);
      if i :| 0 <= i < |firsts| && firsts[i].host == host { assert hosts[i].key == host; }
    }
    forall i | 0 <= i < |hosts|
      ensures exists p :: p in pairs && p.host == hosts[i].key && Seal(workload, p.credential) == Some(hosts[i].value)
    {
      FirstIsAPair(pairs, i);
      assert firsts[i] in pairs;
      HostFlagsValues(workload, firsts, i);
    }
  }

  /** The decoded argv: exact host rows, exact facts of all three kinds. */
  ghost predicate TablesExact(workload: string, argv: seq<string>, pairs: seq<Pair>, creds: seq<Credential>)
    requires argv != []
  {
    && HostsExact(workload, HostTable(argv), pairs)
    && forall fact :: FactExact(workload, HostTable(argv), Described(argv, fact), creds, fact)
  }

  lemma UsableTables(workload: string, listen: string, uid: string, pairs: seq<Pair>, creds: seq<Credential>)
    requires Usable(workload, pairs, creds)
    ensures Command(workload, listen, uid, pairs, creds).Some?
    ensures var argv := ArgvOf(Command(workload, listen, uid, pairs, creds).value);
            && TablesExact(workload, argv, pairs, creds)
            && (Served(workload, HostTable(argv), pairs) <==> Agreeing(pairs))
  {
    UsableCommand(workload, listen, uid, pairs, creds);
    CommandDecodes(workload, listen, uid, pairs, creds);
    HostRowsExact(workload, pairs);
    forall fact
      ensures FactExact(workload, HostFlags(workload, FirstPairs(pairs)),
              Facts(workload, Selected(FirstPairs(pairs)), creds, fact), creds, fact)
    {
      FactsExact(workload, pairs, creds, fact);
    }
    ServedExactlyWhenAgreeing(workload, listen, uid, pairs, creds);
  }

  /**
    The broker command of an accepted table: a row for exactly the hosts whose entries select a
    credential; placeholder, header and format of exactly the credentials those rows select, each
    once and as its own block states it; and every entry served with the credential it selects
    exactly when entries for one host agree, which the container rules do not check.
   */
  lemma AcceptedCommand(net: Fields, config: Option<Fields>, ops: Ops, workload: string, listen: string, uid: string)
    requires Accepted(net, config, ops) && SegmentName(workload)
    ensures Command(workload, listen, uid, BrokerHosts(net, ops), CredentialEntries(net)).Some?
    ensures var argv := ArgvOf(Command(workload, listen, uid, BrokerHosts(net, ops), CredentialEntries(net)).value);
            && TablesExact(workload, argv, BrokerHosts(net, ops), CredentialEntries(net))
            && (Served(workload, HostTable(argv), BrokerHosts(net, ops)) <==> Agreeing(BrokerHosts(net, ops)))
  {
    AcceptedPairsUsable(net, config, ops, workload);
    UsableTables(workload, listen, uid, BrokerHosts(net, ops), CredentialEntries(net));
  }
}
