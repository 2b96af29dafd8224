/**
  Reading a container's [network] table. These readers are shape-tolerant: what they cannot read
  they drop, and it is the validator's business that nothing is ever dropped from an accepted table.
 */
module ContainerConfig {
  import opened Common
  import opened Toml

  /** The functions the pipeline takes from other packages. */
  datatype Ops = Ops(
    upper: string -> string,
    lower: string -> string,
    matches: (string, string) -> bool,
    overlap: (string, string) -> bool,
    formatFields: string -> Option<seq<string>>)

  /** A list that was not written admits everything; one written empty admits nothing. */
  datatype PolicyEntry = PolicyEntry(
    host: string, methods: Option<seq<string>>, paths: Option<seq<string>>, credential: Option<string>)

  datatype Credential = Credential(
    name: string, placeholder: string, env: string, authHeader: Option<string>, authFormat: Option<string>)

  datatype HostReason = HostReason(host: string, reason: Option<string>)

  datatype AllowEntry = AllowEntry(host: Option<string>, address: Option<string>, port: Option<int>,
      reason: Option<string>)

  // --- [[network.policy]] ---

  /** The string items of a list, upper-cased on request. */
  function Texts(items: seq<Value>, upper: bool, ops: Ops): seq<string> {
    if items == [] then []
    else
      var front := Texts(items[..|items| - 1], upper, ops);
      match items[|items| - 1]
      case Str(s) => front + [if upper then ops.upper(s) else s]
      case _ => front
  }

  /** One `methods` or `paths` value. Absent is None; anything but a list is empty. */
  function PolicyList(v: Option<Value>, upper: bool, ops: Ops): Option<seq<string>> {
    match v
    case None => None
    case Some(Arr(items)) => Some(Texts(items, upper, ops))
    case _ => Some([])
  }

  function ReadPolicy(item: Value, ops: Ops): Option<PolicyEntry> {
    if !item.Table? || Word(Get(item.fields, "host")) == None then None
    else
      Some(PolicyEntry(
        Word(Get(item.fields, "host")).value,
        PolicyList(Get(item.fields, "methods"), true, ops),
        PolicyList(Get(item.fields, "paths"), false, ops),
        Word(Get(item.fields, "credential"))))
  }

  function ReadPolicies(items: seq<Value>, ops: Ops): seq<PolicyEntry> {
    if items == [] then []
    else
      var front := ReadPolicies(items[..|items| - 1], ops);
      var e := ReadPolicy(items[|items| - 1], ops);
      if e.Some? then front + [e.value] else front
  }

  function PolicyEntries(net: Fields, ops: Ops): seq<PolicyEntry> {
    ReadPolicies(Items(net, "policy"), ops)
  }

  method ParsePolicyEntries(net: Fields, ops: Ops) returns (entries: seq<PolicyEntry>)
    ensures entries == PolicyEntries(net, ops)
  {
    entries := [];
    var raw := Items(net, "policy");
    for i := 0 to |raw|
      invariant entries == ReadPolicies(raw[..i], ops)
    {
      assert raw[..i + 1][..i] == raw[..i];
      var item := raw[i];
      if !item.Table? {
        continue;
      }
      var host := Word(Get(item.fields, "host"));
      if host == None {
        continue;
      }
      var credential := Word(Get(item.fields, "credential"));
      var methods := NormalisePolicyList(Get(item.fields, "methods"), true, ops);
      var paths := NormalisePolicyList(Get(item.fields, "paths"), false, ops);
      entries := entries + [PolicyEntry(host.value, methods, paths, credential)];
    }
    assert raw[..|raw|] == raw;
  }

  method NormalisePolicyList(value: Option<Value>, upper: bool, ops: Ops) returns (list: Option<seq<string>>)
    ensures list == PolicyList(value, upper, ops)
  {
    if value == None {
      return None;
    }
    if !value.value.Arr? {
      return Some([]);
    }
    var items, out := value.value.items, [];
    for i := 0 to |items|
      invariant out == Texts(items[..i], upper, ops)
    {
      assert items[..i + 1][..i] == items[..i];
      if !items[i].Str? {
        continue;
      }
      out := out + [if upper then ops.upper(items[i].text) else items[i].text];
    }
    assert items[..|items|] == items;
    list := Some(out);
  }

  // --- [[network.credential]] ---

  function ReadCredential(item: Value): Option<Credential> {
    if !item.Table? then None
    else
      var name, placeholder, env :=
        Word(Get(item.fields, "name")), Word(Get(item.fields, "placeholder")), Word(Get(item.fields, "env"));
      if name == None || placeholder == None || env == None then None
      else
        Some(Credential(name.value, placeholder.value, env.value,
                        Word(Get(item.fields, "auth_header")), Word(Get(item.fields, "auth_format"))))
  }

  function ReadCredentials(items: seq<Value>): seq<Credential> {
    if items == [] then []
    else
      var front := ReadCredentials(items[..|items| - 1]);
      var c := ReadCredential(items[|items| - 1]);
      if c.Some? then front + [c.value] else front
  }

  function CredentialEntries(net: Fields): seq<Credential> {
    ReadCredentials(Items(net, "credential"))
  }

  method ParseCredentialEntries(net: Fields) returns (creds: seq<Credential>)
    ensures creds == CredentialEntries(net)
  {
    creds := [];
    var raw := Items(net, "credential");
    for i := 0 to |raw|
      invariant creds == ReadCredentials(raw[..i])
    {
      assert raw[..i + 1][..i] == raw[..i];
      var item := raw[i];
      if !item.Table? {
        continue;
      }
      var required, values := ["name", "placeholder", "env"], [];
      for k := 0 to 3
        invariant |values| == k
        invariant forall j :: 0 <= j < k ==> Word(Get(item.fields, required[j])) == Some(values[j])
      {
        var value := Word(Get(item.fields, required[k]));
        if value == None {
          values := [];
          break;
        }
        values := values + [value.value];
      }
      if values == [] {
        continue;
      }
      assert required[0] == "name" && required[1] == "placeholder" && required[2] == "env";
      creds := creds + [Credential(values[0], values[1], values[2],
                                   Word(Get(item.fields, "auth_header")), Word(Get(item.fields, "auth_format")))];
    }
    assert raw[..|raw|] == raw;
  }

  // --- The other arrays and scalars ---

  /** [network].hosts, unstripped. */
  function AllowedHostsIn(items: seq<Value>): seq<string> {
    if items == [] then []
    else
      var front := AllowedHostsIn(items[..|items| - 1]);
      var last := items[|items| - 1];
      if Word(Some(last)).Some? then front + [last.text] else front
  }

  function AllowedHosts(net: Fields): seq<string> {
    AllowedHostsIn(Items(net, "hosts"))
  }

  function ReadAllow(item: Value): Option<AllowEntry> {
    if !item.Table? then None
    else
      var host, address := Word(Get(item.fields, "host")), Word(Get(item.fields, "address"));
      if host == None && address == None then None
      else
        var port := Get(item.fields, "port");
        Some(AllowEntry(host, address,
                        if port.Some? && port.value.Int? then Some(port.value.number) else None,
                        Word(Get(item.fields, "reason"))))
  }

  function ReadAllows(items: seq<Value>): seq<AllowEntry> {
    if items == [] then []
    else
      var front := ReadAllows(items[..|items| - 1]);
      var e := ReadAllow(items[|items| - 1]);
      if e.Some? then front + [e.value] else front
  }

  function AllowEntries(net: Fields): seq<AllowEntry> {
    ReadAllows(Items(net, "allow"))
  }

  function ReadHostReason(item: Value): Option<HostReason> {
    if !item.Table? || Word(Get(item.fields, "host")) == None then None
    else Some(HostReason(Word(Get(item.fields, "host")).value, Word(Get(item.fields, "reason"))))
  }

  /** The hosts of the readable [[network.internal]] or [[network.splice]] entries. */
  function ReasonHosts(items: seq<Value>): seq<string> {
    if items == [] then []
    else
      var front := ReasonHosts(items[..|items| - 1]);
      var e := ReadHostReason(items[|items| - 1]);
      if e.Some? then front + [e.value.host] else front
  }

  function SpliceHosts(net: Fields): seq<string> {
    ReasonHosts(Items(net, "splice"))
  }

  function InternalHosts(net: Fields): seq<string> {
    ReasonHosts(Items(net, "internal"))
  }

  /** The mode as written, padding included. */
  function TlsMode(net: Fields): Option<string> {
    if Word(Get(net, "tls")).Some? then Some(net["tls"].text) else None
  }

  function CaDelivery(net: Fields): Option<string> {
    Word(Get(net, "ca_delivery"))
  }

  function CaMountPath(net: Fields): Option<string> {
    Word(Get(net, "ca_mount_path"))
  }

  function EffectiveTls(net: Fields, ops: Ops): string {
    var explicit := TlsMode(net);
    if explicit.Some? then explicit.value
    else if PolicyEntries(net, ops) != [] then "inspect" else "splice"
  }

  // --- Topology ---

  /** None where an explicit workload.mode is not one of the three. */
  function InferMode(config: Fields): Option<string> {
    var workload := Get(config, "workload");
    var mode := if workload.Some? && workload.value.Table? then Get(workload.value.fields, "mode") else None;
    if mode == None then Some(if "containers" in config then "pod" else "single")
    else
      match mode.value
      case Str(m) => if m in {"single", "pod", "bridge"} then Some(m) else None
      case _ => None
  }

  function NetworkOf(config: Fields): Option<Fields> {
    match Get(config, "network")
    case None => Some(map[])
    case Some(Table(net)) => Some(net)
    case _ => None
  }

  predicate SaysHostMode(net: Fields) {
    Get(net, "mode") == Some(Str("host"))
  }

  predicate RunsOnHostNetwork(config: Fields) {
    var net := NetworkOf(config);
    net.Some? && SaysHostMode(net.value) && InferMode(config) != Some("bridge")
  }

  predicate UsesInspect(config: Fields, ops: Ops) {
    var net := NetworkOf(config);
    && net.Some?
    && !RunsOnHostNetwork(config)
    && (AllowedHosts(net.value) != [] || PolicyEntries(net.value, ops) != [] || AllowEntries(net.value) != [])
  }
}
