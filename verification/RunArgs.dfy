/** The podman flags that put a container's egress CA and credential placeholders into it. */
module RunArgs {
  import opened Common
  import opened Toml
  import opened ContainerConfig
  import opened ContainerRules
  import opened ContainerAgreement

  datatype RunFlag = Env(name: string, value: string) | Volume(source: string, target: string)

  const CA_BUNDLE_PATH := "/usr/local/share/ca-certificates/egress-ca.crt"

  predicate UsesCredentials(config: Fields, ops: Ops) {
    UsesInspect(config, ops) && NetworkOf(config).Some? && CredentialEntries(NetworkOf(config).value) != []
  }

  function PlaceholderFlags(creds: seq<Credential>): (r: seq<RunFlag>)
    ensures |r| == |creds| && forall i :: 0 <= i < |creds| ==> r[i] == Env(creds[i].env, creds[i].placeholder)
  {
    seq(|creds|, i requires 0 <= i < |creds| => Env(creds[i].env, creds[i].placeholder))
  }

  function CredentialEnvArgs(config: Fields, ops: Ops): seq<RunFlag> {
    if !UsesCredentials(config, ops) then [] else PlaceholderFlags(CredentialEntries(NetworkOf(config).value))
  }

  function BundleFlags(vars: seq<string>): (r: seq<RunFlag>)
    ensures |r| == |vars| && forall i :: 0 <= i < |vars| ==> r[i] == Env(vars[i], CA_BUNDLE_PATH)
  {
    seq(|vars|, i requires 0 <= i < |vars| => Env(vars[i], CA_BUNDLE_PATH))
  }

  /** Anything but `image` and `mount` is delivered as `env`. */
  function CaDeliveryArgs(config: Fields, certificate: string, ops: Ops): seq<RunFlag> {
    if !UsesInspect(config, ops) || NetworkOf(config) == None then []
    else
      var net := NetworkOf(config).value;
      var delivery := CaDelivery(net);
      if delivery == None || delivery == Some("image") then []
      else if delivery == Some("mount") then
        if CaMountPath(net) == None then [] else [Volume(certificate, CaMountPath(net).value)]
      else [Volume(certificate, CA_BUNDLE_PATH)] + BundleFlags(CA_ENV_VARS)
  }

  /** The env variables the flags assign, in order. */
  function Assigned(flags: seq<RunFlag>): seq<string> {
    if flags == [] then []
    else
      var front, f := Assigned(flags[..|flags| - 1]), flags[|flags| - 1];
      if f.Env? then front + [f.name] else front
  }

  lemma {:induction false} AssignedConcat(a: seq<RunFlag>, b: seq<RunFlag>)
    ensures Assigned(a + b) == Assigned(a) + Assigned(b)
  {
    if b == [] {
      assert a + b == a;
    } else {
      AssignedConcat(a, b[..|b| - 1]);
      assert (a + b)[..|a + b| - 1] == a + b[..|b| - 1];
    }
  }

  lemma {:induction false} AssignedByBundle(vars: seq<string>)
    ensures Assigned(BundleFlags(vars)) == vars
  {
    if vars != [] {
      AssignedByBundle(vars[..|vars| - 1]);
      assert BundleFlags(vars)[..|vars| - 1] == BundleFlags(vars[..|vars| - 1]);
    }
  }

  function EnvsOf(creds: seq<Credential>): (r: seq<string>)
    ensures |r| == |creds| && forall i :: 0 <= i < |creds| ==> r[i] == creds[i].env
  {
    seq(|creds|, i requires 0 <= i < |creds| => creds[i].env)
  }

  lemma {:induction false} AssignedByPlaceholders(creds: seq<Credential>)
    ensures Assigned(PlaceholderFlags(creds)) == EnvsOf(creds)
  {
    if creds != [] {
      AssignedByPlaceholders(creds[..|creds| - 1]);
      assert PlaceholderFlags(creds)[..|creds| - 1] == PlaceholderFlags(creds[..|creds| - 1]);
    }
  }

  lemma AssignedByCa(config: Fields, certificate: string, ops: Ops)
    ensures Assigned(CaDeliveryArgs(config, certificate, ops)) == []
            || Assigned(CaDeliveryArgs(config, certificate, ops)) == CA_ENV_VARS
  {
    var flags := CaDeliveryArgs(config, certificate, ops);
    if |flags| == 1 {
      assert flags[..0] == [];
    } else if flags != [] {
      var v := Volume(certificate, CA_BUNDLE_PATH);
      AssignedConcat([v], BundleFlags(CA_ENV_VARS));
      AssignedByBundle(CA_ENV_VARS);
      assert [v][..0] == [];
    }
  }

  lemma CaVarsDistinct()
    ensures NoDuplicates(CA_ENV_VARS)
  {
    assert |CA_ENV_VARS[0]| == 13 && |CA_ENV_VARS[1]| == 19 && |CA_ENV_VARS[2]| == 18 && |CA_ENV_VARS[3]| == 14
        && |CA_ENV_VARS[4]| == 8;
  }

  lemma DistinctConcat(a: seq<string>, b: seq<string>)
    requires NoDuplicates(a) && NoDuplicates(b) && forall x :: x in a ==> x !in b
    ensures NoDuplicates(a + b)
  {
    var s := a + b;
    forall i, j | 0 <= i < j < |s| ensures s[i] != s[j] {
      assert i < |a| ==> s[i] == a[i] && a[i] in a;
      assert j >= |a| ==> s[j] == b[j - |a|] && b[j - |a|] in b;
      assert i >= |a| ==> s[i] == b[i - |a|];
    }
  }

  lemma EnvsDistinct(creds: seq<Credential>)
    requires forall i, j :: 0 <= i < j < |creds| ==> creds[i].env != creds[j].env
    requires forall i :: 0 <= i < |creds| ==> creds[i].env !in CA_ENV_VARS
    ensures NoDuplicates(EnvsOf(creds)) && forall x :: x in CA_ENV_VARS ==> x !in EnvsOf(creds)
  {
  }

  lemma EachVariableOnceOf(net: Fields, config: Fields, certificate: string, ops: Ops)
    requires SameTable(net, Some(config))
    requires var creds := CredentialEntries(net);
             (forall i, j :: 0 <= i < j < |creds| ==> creds[i].env != creds[j].env) &&
             (forall i :: 0 <= i < |creds| ==> creds[i].env !in CA_ENV_VARS)
    ensures NoDuplicates(Assigned(CaDeliveryArgs(config, certificate, ops) + CredentialEnvArgs(config, ops)))
  {
    var ca, creds := CaDeliveryArgs(config, certificate, ops), CredentialEntries(net);
    AssignedConcat(ca, CredentialEnvArgs(config, ops));
    AssignedByCa(config, certificate, ops);
    AssignedByPlaceholders(creds);
    CaVarsDistinct();
    EnvsDistinct(creds);
    DistinctConcat(Assigned(ca), Assigned(CredentialEnvArgs(config, ops)));
  }

  /** On an accepted config the CA and credential flags together assign each variable at most once. */
  lemma EachVariableOnce(net: Fields, config: Fields, certificate: string, ops: Ops)
    requires Accepted(net, Some(config), ops) && SameTable(net, Some(config))
    ensures NoDuplicates(Assigned(CaDeliveryArgs(config, certificate, ops) + CredentialEnvArgs(config, ops)))
  {
    ReadersDropNothing(net, Some(config), ops);
    EachVariableOnceOf(net, config, certificate, ops);
  }

  lemma {:induction false} EveryBlockSelected(creds: seq<Credential>, entries: seq<PolicyEntry>)
    requires UnselectedErrors(creds, entries) == [] && creds != []
    ensures entries != []
  {
  }

  lemma CredentialsMeanInspection(net: Fields, config: Fields, ops: Ops)
    requires Accepted(net, Some(config), ops) && SameTable(net, Some(config)) && CredentialEntries(net) != []
    ensures UsesCredentials(config, ops)
  {
    ReadersDropNothing(net, Some(config), ops);
    AcceptedParts(net, Some(config), ops);
    EntriesClean(net, ops);
    EveryBlockSelected(CredentialEntries(net), PolicyEntries(net, ops));
    TriggerIsInspection(net, config, ops);
  }

  /** Every declared credential's placeholder reaches the container. */
  lemma EveryPlaceholderDelivered(net: Fields, config: Fields, ops: Ops, i: nat)
    requires Accepted(net, Some(config), ops) && SameTable(net, Some(config)) && i < |CredentialEntries(net)|
    ensures Env(CredentialEntries(net)[i].env, CredentialEntries(net)[i].placeholder) in CredentialEnvArgs(config, ops)
  {
    CredentialsMeanInspection(net, config, ops);
    assert PlaceholderFlags(CredentialEntries(net))[i] in PlaceholderFlags(CredentialEntries(net));
  }

  lemma InspectHasARoute(net: Fields, ops: Ops)
    requires CaErrors(net, true, ops) == [] && EffectiveTls(net, ops) == "inspect"
    ensures CaDelivery(net) == Some("env") || CaDelivery(net) == Some("image") ||
            (CaDelivery(net) == Some("mount") && CaMountPath(net).Some?)
  {
  }

  lemma RouteIsDelivered(net: Fields, config: Fields, certificate: string, ops: Ops)
    requires NetworkOf(config) == Some(net) && UsesInspect(config, ops)
    ensures CaDelivery(net) == Some("image") ==> CaDeliveryArgs(config, certificate, ops) == []
    ensures CaDelivery(net) == Some("mount") && CaMountPath(net).Some? ==>
              CaDeliveryArgs(config, certificate, ops) == [Volume(certificate, CaMountPath(net).value)]
    ensures CaDelivery(net) == Some("env") ==>
              CaDeliveryArgs(config, certificate, ops) ==
                  [Volume(certificate, CA_BUNDLE_PATH)] + BundleFlags(CA_ENV_VARS)
  {
  }

  /** An inspected container in inspect mode always gets the CA route it declares. */
  lemma DeclaredRouteIsDelivered(net: Fields, config: Fields, certificate: string, ops: Ops)
    requires Accepted(net, Some(config), ops) && SameTable(net, Some(config))
    requires UsesInspect(config, ops) && EffectiveTls(net, ops) == "inspect"
    ensures match CaDelivery(net)
            case Some("image") => CaDeliveryArgs(config, certificate, ops) == []
            case Some("mount") =>
              CaMountPath(net).Some?
                  && CaDeliveryArgs(config, certificate, ops) == [Volume(certificate, CaMountPath(net).value)]
            case Some("env") =>
              CaDeliveryArgs(config, certificate, ops) ==
                  [Volume(certificate, CA_BUNDLE_PATH)] + BundleFlags(CA_ENV_VARS)
            case _ => false
  {
    assert CaErrors(net, true, ops) == [] by {
      TriggerIsInspection(net, config, ops);
      AcceptedParts(net, Some(config), ops);
    }
    InspectHasARoute(net, ops);
    RouteIsDelivered(net, config, certificate, ops);
  }

  // --- Which assignment wins ---

  /** A plain variable of the container's environment. */
  datatype Plain = Plain(name: string, value: string)

  const HOST_IP := "HOST_IP"

  function PlainFlags(plain: seq<Plain>): (r: seq<RunFlag>)
    ensures |r| == |plain| && forall i :: 0 <= i < |plain| ==> r[i] == Env(plain[i].name, plain[i].value)
  {
    seq(|plain|, i requires 0 <= i < |plain| => Env(plain[i].name, plain[i].value))
  }

  /** The host's address and the container's plain variables, which follow everything else. */
  function EnvArgs(address: string, plain: seq<Plain>): seq<RunFlag> {
    [Env(HOST_IP, address)] + PlainFlags(plain)
  }

  function AllFlags(config: Fields, certificate: string, address: string, plain: seq<Plain>, ops: Ops): seq<RunFlag> {
    CaDeliveryArgs(config, certificate, ops) + CredentialEnvArgs(config, ops) + EnvArgs(address, plain)
  }

  /** The flag whose value a variable ends up with: the last that assigns it, or -1. */
  function LastSetter(flags: seq<RunFlag>, name: string): int {
    if flags == [] then -1
    else if flags[|flags| - 1].Env? && flags[|flags| - 1].name == name then |flags| - 1
    else LastSetter(flags[..|flags| - 1], name)
  }

  lemma {:induction false} LastSetterConcat(a: seq<RunFlag>, b: seq<RunFlag>, name: string)
    ensures LastSetter(a + b, name) == if LastSetter(b, name) >= 0 then |a| + LastSetter(b, name)
            else LastSetter(a, name)
  {
    if b == [] {
      assert a + b == a;
    } else {
      assert (a + b)[..|a + b| - 1] == a + b[..|b| - 1];
      LastSetterConcat(a, b[..|b| - 1], name);
    }
  }

  lemma {:induction false} LastSetterRange(flags: seq<RunFlag>, name: string)
    ensures -1 <= LastSetter(flags, name) < |flags|
    ensures LastSetter(flags, name) >= 0 <==> exists i :: 0 <= i < |flags| && flags[i].Env? && flags[i].name == name
  {
    if flags != [] {
      var front := flags[..|flags| - 1];
      LastSetterRange(front, name);
      if i :| 0 <= i < |flags| && flags[i].Env? && flags[i].name == name {
        assert i < |front| ==> front[i] == flags[i];
      }
      if i :| 0 <= i < |front| && front[i].Env? && front[i].name == name {
        assert flags[i] == front[i];
      }
    }
  }

  predicate Assigns(plain: seq<Plain>, name: string) {
    exists i :: 0 <= i < |plain| && plain[i].name == name
  }

  predicate Overwrites(plain: seq<Plain>, name: string) {
    name == HOST_IP || Assigns(plain, name)
  }

  lemma PlainFlagsSet(plain: seq<Plain>, name: string)
    ensures LastSetter(PlainFlags(plain), name) >= 0 <==> Assigns(plain, name)
  {
    var flags := PlainFlags(plain);
    LastSetterRange(flags, name);
    if i :| 0 <= i < |plain| && plain[i].name == name {
      assert flags[i] == Env(plain[i].name, plain[i].value);
    }
  }

  lemma OneSets(f: RunFlag, name: string)
    requires f.Env?
    ensures LastSetter([f], name) == if f.name == name then 0 else -1
  {
    assert [f][..0] == [];
  }

  lemma EnvArgsSet(address: string, plain: seq<Plain>, name: string)
    ensures LastSetter(EnvArgs(address, plain), name) >= 0 <==> Overwrites(plain, name)
  {
    PlainFlagsSet(plain, name);
    OneSets(Env(HOST_IP, address), name);
    LastSetterConcat([Env(HOST_IP, address)], PlainFlags(plain), name);
  }

  lemma {:induction false} PlaceholderSets(creds: seq<Credential>, i: nat)
    requires i < |creds| && forall a, b :: 0 <= a < b < |creds| ==> creds[a].env != creds[b].env
    ensures LastSetter(PlaceholderFlags(creds), creds[i].env) == i
    decreases |creds|
  {
    var front := creds[..|creds| - 1];
    assert PlaceholderFlags(creds)[..|creds| - 1] == PlaceholderFlags(front);
    if i < |front| {
      assert creds[i].env != creds[|creds| - 1].env;
      PlaceholderSets(front, i);
    }
  }

  /**
    Over the whole list of flags, a declared credential's placeholder is what its variable ends up
    with exactly when the variable is not HOST_IP and not one of the container's plain ones.
   */
  lemma PlaceholderWinsExactly(
      net: Fields, config: Fields, certificate: string, address: string, plain: seq<Plain>, ops: Ops, i: nat)
    requires Accepted(net, Some(config), ops) && SameTable(net, Some(config)) && i < |CredentialEntries(net)|
    ensures var c, flags := CredentialEntries(net)[i], AllFlags(config, certificate, address, plain, ops);
            var own := |CaDeliveryArgs(config, certificate, ops)| + i;
            && own < |flags| && flags[own] == Env(c.env, c.placeholder)
            && (LastSetter(flags, c.env) == own <==> !Overwrites(plain, c.env))
  {
    ReadersDropNothing(net, Some(config), ops);
    CredentialsMeanInspection(net, config, ops);
    PlaceholderWinsOf(CaDeliveryArgs(config, certificate, ops), CredentialEntries(net), address, plain, i);
  }

  lemma PlaceholderWinsOf(ca: seq<RunFlag>, creds: seq<Credential>, address: string, plain: seq<Plain>, i: nat)
    requires i < |creds| && forall a, b :: 0 <= a < b < |creds| ==> creds[a].env != creds[b].env
    ensures var flags := ca + PlaceholderFlags(creds) + EnvArgs(address, plain);
            && |ca| + i < |flags| && flags[|ca| + i] == Env(creds[i].env, creds[i].placeholder)
            && (LastSetter(flags, creds[i].env) == |ca| + i <==> !Overwrites(plain, creds[i].env))
  {
    var mine, rest := PlaceholderFlags(creds), EnvArgs(address, plain);
    PlaceholderSets(creds, i);
    LastSetterConcat(ca, mine, creds[i].env);
    LastSetterConcat(ca + mine, rest, creds[i].env);
    EnvArgsSet(address, plain, creds[i].env);
  }
}
