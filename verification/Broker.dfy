/** The credential broker's command line. */
module Broker {
  import opened Common
  import opened Toml
  import opened ContainerConfig
  import opened ContainerRules

  /** A policy entry's host and the credential it selects. */
  datatype Pair = Pair(host: string, credential: string)

  function CredentialedPairs(entries: seq<PolicyEntry>): seq<Pair> {
    if entries == [] then []
    else
      var front, e := CredentialedPairs(entries[..|entries| - 1]), entries[|entries| - 1];
      if e.credential.Some? && e.credential.value != "" then front + [Pair(e.host, e.credential.value)] else front
  }

  function BrokerHosts(net: Fields, ops: Ops): seq<Pair> {
    CredentialedPairs(PolicyEntries(net, ops))
  }

  /** The seal name of broker/<workload>/<credential>; None where the scoped name is refused. */
  function Seal(workload: string, credential: string): Option<string> {
    if SegmentName(workload) && SegmentName(credential) then Some("broker-" + workload + "-" + credential) else None
  }

  function CredentialNamed(creds: seq<Credential>, name: string): Option<Credential> {
    if creds == [] then None
    else if creds[0].name == name then Some(creds[0])
    else CredentialNamed(creds[1..], name)
  }

  // --- The argv ---

  const BROKER_BIN := "/usr/libexec/moatery/moat-broker"

  /** The first pair of every host, in order. */
  function FirstPairs(pairs: seq<Pair>): seq<Pair> {
    if pairs == [] then []
    else
      var front, p := FirstPairs(pairs[..|pairs| - 1]), pairs[|pairs| - 1];
      if HasHost(front, p.host) then front else front + [p]
  }

  predicate HasHost(pairs: seq<Pair>, host: string) {
    exists i :: 0 <= i < |pairs| && pairs[i].host == host
  }

  /** The credentials those pairs select, each once, in order. */
  function Selected(pairs: seq<Pair>): seq<string> {
    if pairs == [] then []
    else
      var front, c := Selected(pairs[..|pairs| - 1]), pairs[|pairs| - 1].credential;
      if c in front then front else front + [c]
  }

  /** One flag and its text; the argv spells it as two strings. */
  datatype Arg = Arg(name: string, text: string)

  function HostArgs(workload: string, pairs: seq<Pair>): Option<seq<Arg>> {
    if pairs == [] then Some([])
    else
      var front, p := HostArgs(workload, pairs[..|pairs| - 1]), pairs[|pairs| - 1];
      if front == None || Seal(workload, p.credential) == None then None
      else Some(front.value + [Arg("--host", p.host + "=" + Seal(workload, p.credential).value)])
  }

  /** What a block can state about its credential. */
  datatype Fact = Placeholder | AuthHeader | AuthFormat

  function FlagName(fact: Fact): string {
    match fact
    case Placeholder => "--placeholder"
    case AuthHeader => "--auth-header"
    case AuthFormat => "--auth-format"
  }

  /** The fact as the block states it; an empty header or format is none. */
  function Stated(fact: Fact, cred: Credential): Option<string> {
    var v := match fact
      case Placeholder => Some(cred.placeholder)
      case AuthHeader => cred.authHeader
      case AuthFormat => cred.authFormat;
    if fact != Placeholder && v == Some("") then None else v
  }

  function FactArg(id: string, cred: Credential, fact: Fact): seq<Arg> {
    var v := Stated(fact, cred);
    if v.Some? then [Arg(FlagName(fact), id + "=" + v.value)] else []
  }

  function DescriptionOf(id: string, cred: Credential): seq<Arg> {
    FactArg(id, cred, Placeholder) + FactArg(id, cred, AuthHeader) + FactArg(id, cred, AuthFormat)
  }

  /** Each fact once per selected credential; a name no block declares is passed over. */
  function DescriptionArgs(workload: string, selected: seq<string>, creds: seq<Credential>): Option<seq<Arg>> {
    if selected == [] then Some([])
    else
      var front, c := DescriptionArgs(workload, selected[..|selected| - 1], creds), selected[|selected| - 1];
      if front == None then None
      else if CredentialNamed(creds, c) == None then front
      else if Seal(workload, c) == None then None
      else Some(front.value + DescriptionOf(Seal(workload, c).value, CredentialNamed(creds, c).value))
  }

  function Command(workload: string, listen: string, uid: string, pairs: seq<Pair>,
      creds: seq<Credential>): Option<seq<Arg>> {
    var hosts := HostArgs(workload, FirstPairs(pairs));
    var described := DescriptionArgs(workload, Selected(FirstPairs(pairs)), creds);
    if hosts == None || described == None then None
    else
      var base := [Arg("--name", workload), Arg("--listen", listen), Arg("--caller-uid", uid)];
      Some(base + (hosts.value + described.value))
  }

  function Spell(args: seq<Arg>): seq<string> {
    if args == [] then [] else Spell(args[..|args| - 1]) + [args[|args| - 1].name, args[|args| - 1].text]
  }

  lemma OneMorePair(pairs: seq<Pair>, i: nat)
    requires i < |pairs|
    ensures var seen, p := FirstPairs(pairs[..i]), pairs[i];
            FirstPairs(pairs[..i + 1]) == if HasHost(seen, p.host) then seen else seen + [p]
  {
    assert pairs[..i + 1][..i] == pairs[..i];
  }

  lemma OneMoreHost(workload: string, seen: seq<Pair>, p: Pair)
    requires HostArgs(workload, seen).Some?
    ensures HostArgs(workload, seen + [p]) ==
            if Seal(workload, p.credential) == None then None
            else
              Some(HostArgs(workload, seen).value + [Arg("--host", p.host + "=" + Seal(workload, p.credential).value)])
    ensures Selected(seen + [p]) ==
            if p.credential in Selected(seen) then Selected(seen) else Selected(seen) + [p.credential]
  {
    assert (seen + [p])[..|seen|] == seen;
  }

  /** The host flags, one per host, and the credentials they select. */
  method HostPart(workload: string, pairs: seq<Pair>) returns (args: Option<seq<Arg>>, selected: seq<string>)
    ensures args == HostArgs(workload, FirstPairs(pairs))
    ensures args.Some? ==> selected == Selected(FirstPairs(pairs))
  {
    var hostArgs, seen := [], [];
    selected := [];
    for i := 0 to |pairs|
      invariant seen == FirstPairs(pairs[..i])
      invariant HostArgs(workload, seen) == Some(hostArgs)
      invariant selected == Selected(seen)
    {
      OneMorePair(pairs, i);
      var p := pairs[i];
      if exists k :: 0 <= k < |seen| && seen[k].host == p.host {
        continue;
      }
      OneMoreHost(workload, seen, p);
      var id := Seal(workload, p.credential);
      seen := seen + [p];
      if id == None {
        HostArgsFailure(workload, pairs, i + 1);
        return None, selected;
      }
      hostArgs := hostArgs + [Arg("--host", p.host + "=" + id.value)];
      if p.credential !in selected {
        selected := selected + [p.credential];
      }
    }
    assert pairs[..|pairs|] == pairs;
    args := Some(hostArgs);
  }

  /** The facts about each selected credential. */
  method DescriptionPart(workload: string, selected: seq<string>, creds: seq<Credential>)
    returns (args: Option<seq<Arg>>)
    ensures args == DescriptionArgs(workload, selected, creds)
  {
    var described := [];
    for i := 0 to |selected|
      invariant DescriptionArgs(workload, selected[..i], creds) == Some(described)
    {
      assert selected[..i + 1][..i] == selected[..i];
      var cred := CredentialNamed(creds, selected[i]);
      if cred == None {
        continue;
      }
      var id := Seal(workload, selected[i]);
      if id == None {
        DescriptionFailure(workload, selected, creds, i + 1);
        return None;
      }
      described := described + DescriptionOf(id.value, cred.value);
    }
    assert selected[..|selected|] == selected;
    args := Some(described);
  }

  /** The argv, or None where a credential name is refused. */
  method BrokerCommand(workload: string, listen: string, uid: string, pairs: seq<Pair>, creds: seq<Credential>)
    returns (argv: Option<seq<string>>)
    ensures var command := Command(workload, listen, uid, pairs, creds);
            argv == if command.Some? then Some([BROKER_BIN] + Spell(command.value)) else None
  {
    var base := [Arg("--name", workload), Arg("--listen", listen), Arg("--caller-uid", uid)];
    var hosts, selected := HostPart(workload, pairs);
    if hosts == None {
      return None;
    }
    var described := DescriptionPart(workload, selected, creds);
    if described == None {
      return None;
    }
    argv := Some([BROKER_BIN] + Spell(base + (hosts.value + described.value)));
  }

  lemma {:induction false} HostArgsFailure(workload: string, pairs: seq<Pair>, i: nat)
    requires i <= |pairs| && HostArgs(workload, FirstPairs(pairs[..i])) == None
    ensures HostArgs(workload, FirstPairs(pairs)) == None
    decreases |pairs| - i
  {
    if i == |pairs| {
      assert pairs[..i] == pairs;
    } else {
      assert pairs[..i + 1][..i] == pairs[..i];
      var front := FirstPairs(pairs[..i]);
      assert (front + [pairs[i]])[..|front|] == front;
      HostArgsFailure(workload, pairs, i + 1);
    }
  }

  lemma {:induction false} DescriptionFailure(workload: string, selected: seq<string>, creds: seq<Credential>, i: nat)
    requires i <= |selected| && DescriptionArgs(workload, selected[..i], creds) == None
    ensures DescriptionArgs(workload, selected, creds) == None
    decreases |selected| - i
  {
    if i == |selected| {
      assert selected[..i] == selected;
    } else {
      assert selected[..i + 1][..i] == selected[..i];
      DescriptionFailure(workload, selected, creds, i + 1);
    }
  }
}
