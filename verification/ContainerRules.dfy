/** The rules a container's [network] table must satisfy, one function per part of the table. */
module ContainerRules {
  import opened Common
  import opened Toml
  import opened ContainerConfig

  datatype HostProblem = NotString | EmptyPattern | LooksLikeUrl | HasPath | HasPort | MatchesAll | BadCharacters

  datatype Rule =
    | NotATable | NotAnArray | EntryNotATable | NoHost | BadHost(problem: HostProblem)
    | BlankPort | PortCharacters | Http2Refused | HostModeConflict(keys: seq<string>)
    | NoDestination | TwoDestinations | PortOutOfRange | InspectedPort | NoReason | NotAllowlisted
    | UnknownKey | Missing(key: string) | BadCredentialName | BadEnvName | ReservedEnv | RepeatedEnv | RepeatedName
    | BlankAuthHeader | BadAuthHeader | RefusedAuthHeader | BlankAuthFormat | BadAuthFormat
    | ListNotAnArray | EmptyList | BadMethodToken | RefusedMethod | UnknownMethod | BlankPath | BadPath
    | BadSelector | UndeclaredCredential | WildcardCredential | UnselectedCredential
    | PolicyUnderSplice | PolicyAlsoSpliced | OverlapOmitsKeys | ApexUncovered
    | UnknownTls | SpliceWithoutReason | StrayTlsReason
    | NoCaDelivery | UnknownCaDelivery | NoMountPath | StrayMountPath | RedundantSplice

  /** An error message: the key it is about and the rule broken. */
  datatype Error = Error(key: string, rule: Rule)

  // --- Characters ---

  predicate Letter(c: char) {
    'a' <= c <= 'z' || 'A' <= c <= 'Z'
  }

  predicate Alphanumeric(c: char) {
    Letter(c) || '0' <= c <= '9'
  }

  predicate AllIn(s: string, p: char -> bool) {
    forall i :: 0 <= i < |s| ==> p(s[i])
  }

  predicate HostChar(c: char) {
    Alphanumeric(c) || c in "*?.[]!_-"
  }

  predicate PublishChar(c: char) {
    Alphanumeric(c) || c in ":.[]-/"
  }

  predicate SegmentChar(c: char) {
    Alphanumeric(c) || c == '_' || c == '-'
  }

  predicate EnvChar(c: char) {
    Alphanumeric(c) || c == '_'
  }

  /** Section 5.1 of RFC 9110: a field name is one or more tchar. */
  predicate Tchar(c: char) {
    Alphanumeric(c) || c in "!#$%&'*+.^_`|~-"
  }

  predicate SegmentName(s: string) {
    s != "" && AllIn(s, SegmentChar)
  }

  predicate EnvName(s: string) {
    s != "" && AllIn(s, EnvChar) && !('0' <= s[0] <= '9')
  }

  predicate Contains(s: string, t: string) {
    t <= s || (s != "" && Contains(s[1..], t))
  }

  // --- Patterns and ports ---

  function ProblemWith(pattern: Value): Option<HostProblem> {
    if !pattern.Str? then Some(NotString)
    else
      var text := Strip(pattern.text);
      if text == "" then Some(EmptyPattern)
      else if Contains(text, "://") then Some(LooksLikeUrl)
      else if '/' in text then Some(HasPath)
      else if ':' in text then Some(HasPort)
      else if text == "*" then Some(MatchesAll)
      else if !AllIn(text, HostChar) then Some(BadCharacters)
      else None
  }

  function PortErrors(specs: seq<Value>): seq<Error> {
    if specs == [] then []
    else
      var front, spec := PortErrors(specs[..|specs| - 1]), specs[|specs| - 1];
      if Word(Some(spec)) == None then front + [Error("ports", BlankPort)]
      else if !AllIn(spec.text, PublishChar) then front + [Error("ports", PortCharacters)]
      else front
  }

  function PublishErrors(ports: Option<Value>): seq<Error> {
    match ports
    case None => []
    case Some(Arr(specs)) => PortErrors(specs)
    case _ => [Error("ports", NotAnArray)]
  }

  // --- [network].hosts ---

  function HostErrors(patterns: seq<Value>): seq<Error> {
    if patterns == [] then []
    else
      var front, p := HostErrors(patterns[..|patterns| - 1]), ProblemWith(patterns[|patterns| - 1]);
      if p.Some? then front + [Error("hosts", BadHost(p.value))] else front
  }

  /** The hosts as the rules see them: stripped. */
  function StrippedHosts(patterns: seq<Value>): seq<string> {
    if patterns == [] then []
    else
      var front, w := StrippedHosts(patterns[..|patterns| - 1]), Word(Some(patterns[|patterns| - 1]));
      if w.Some? then front + [w.value] else front
  }

  /** `t.get(key, [])` must be an array. */
  function ArrayErrors(net: Fields, key: string): seq<Error> {
    if key in net && !net[key].Arr? then [Error(key, NotAnArray)] else []
  }

  // --- [[network.allow]] ---

  predicate HasReason(item: Fields) {
    Word(Get(item, "reason")).Some?
  }

  function AllowItemErrors(item: Value): seq<Error> {
    if !item.Table? then [Error("allow", EntryNotATable)]
    else
      var host, address := Word(Get(item.fields, "host")), Word(Get(item.fields, "address"));
      if host == None && address == None then [Error("allow", NoDestination)]
      else if host.Some? && address.Some? then [Error("allow", TwoDestinations)]
      else
        var port := Get(item.fields, "port");
        (if port == None || !port.value.Int? || !(1 <= port.value.number <= 65535) then [Error("allow", PortOutOfRange)]
         else if port.value.number == 80 || port.value.number == 443 then [Error("allow", InspectedPort)]
         else []) +
        (if HasReason(item.fields) then [] else [Error("allow", NoReason)])
  }

  function AllowErrors(items: seq<Value>): seq<Error> {
    if items == [] then [] else AllowErrors(items[..|items| - 1]) + AllowItemErrors(items[|items| - 1])
  }

  // --- [[network.internal]] and [[network.splice]] ---

  /** The host an entry contributes, whether or not it also lacks a reason. */
  function ReasonItemHost(item: Value): Option<string> {
    if item.Table? && "host" in item.fields && ProblemWith(item.fields["host"]) == None
    then Some(Strip(item.fields["host"].text)) else None
  }

  function ReasonItemErrors(key: string, item: Value): seq<Error> {
    if !item.Table? then [Error(key, EntryNotATable)]
    else if "host" !in item.fields then [Error(key, NoHost)]
    else if ProblemWith(item.fields["host"]).Some? then [Error(key, BadHost(ProblemWith(item.fields["host"]).value))]
    else if HasReason(item.fields) then [] else [Error(key, NoReason)]
  }

  function ReasonErrors(key: string, items: seq<Value>): seq<Error> {
    if items == [] then [] else ReasonErrors(key, items[..|items| - 1]) + ReasonItemErrors(key, items[|items| - 1])
  }

  function ReasonValidHosts(items: seq<Value>): seq<string> {
    if items == [] then []
    else
      var front, h := ReasonValidHosts(items[..|items| - 1]), ReasonItemHost(items[|items| - 1]);
      if h.Some? then front + [h.value] else front
  }

  predicate OverlapsAny(host: string, patterns: seq<string>, ops: Ops) {
    exists i :: 0 <= i < |patterns| && ops.overlap(host, patterns[i])
  }

  /** A splice exemption for a name no allowlist pattern covers exempts nothing. */
  function SpliceCoverErrors(splice: seq<string>, hosts: seq<string>, ops: Ops): seq<Error> {
    if splice == [] then []
    else
      var front := SpliceCoverErrors(splice[..|splice| - 1], hosts, ops);
      if OverlapsAny(splice[|splice| - 1], hosts, ops) then front else front + [Error("splice", NotAllowlisted)]
  }

  function InternalCoverErrors(internals: seq<string>, hosts: seq<string>, policyHosts: seq<string>,
      ops: Ops): seq<Error> {
    if internals == [] then []
    else
      var front, h := InternalCoverErrors(internals[..|internals| - 1], hosts, policyHosts, ops),
          internals[|internals| - 1];
      if OverlapsAny(h, hosts, ops) || OverlapsAny(h, policyHosts, ops) then front
      else front + [Error("internal", NotAllowlisted)]
  }

  // --- [[network.credential]] ---

  const CREDENTIAL_KEYS := {"name", "placeholder", "env", "auth_header", "auth_format"}

  /** The variables that point a guest's clients at its egress CA. */
  const CA_ENV_VARS := ["SSL_CERT_FILE", "NODE_EXTRA_CA_CERTS", "REQUESTS_CA_BUNDLE", "GIT_SSL_CAINFO", "PIP_CERT"]

  const REFUSED_HEADERS := {
    "content-length", "transfer-encoding", "host", "connection", "upgrade", "te", "trailer", "keep-alive",
    "proxy-authorization", "proxy-authenticate"}

  function AuthHeaderErrors(header: string, ops: Ops): seq<Error> {
    if header == "" || !AllIn(header, Tchar) then [Error("credential", BadAuthHeader)]
    else if ops.lower(header) in REFUSED_HEADERS then [Error("credential", RefusedAuthHeader)]
    else []
  }

  function AuthFormatErrors(format: string, ops: Ops): seq<Error> {
    if ops.formatFields(format) == Some(["secret"]) then [] else [Error("credential", BadAuthFormat)]
  }

  function FirstMissing(item: Fields): Option<string> {
    if Word(Get(item, "name")) == None then Some("name")
    else if Word(Get(item, "placeholder")) == None then Some("placeholder")
    else if Word(Get(item, "env")) == None then Some("env")
    else None
  }

  /** The accumulators of the credential loop. */
  datatype CredState = CredState(creds: seq<Credential>, names: set<string>, envs: set<string>, errors: seq<Error>)

  function Complain(st: CredState, rule: Rule): CredState {
    st.(errors := st.errors + [Error("credential", rule)])
  }

  /** The optional pair, once the required keys and their uniqueness hold. */
  function CheckOptional(st: CredState, item: Fields, ops: Ops): CredState
    requires FirstMissing(item) == None
  {
    var header, format := Get(item, "auth_header"), Get(item, "auth_format");
    if header.Some? && Word(header) == None then Complain(st, BlankAuthHeader)
    else
      var st1 := if header.Some? then st.(errors := st.errors + AuthHeaderErrors(Word(header).value, ops)) else st;
      if format.Some? && Word(format) == None then Complain(st1, BlankAuthFormat)
      else
        var st2 := if format.Some? then st1.(errors := st1.errors + AuthFormatErrors(Word(format).value, ops)) else st1;
        st2.(creds := st2.creds + [Credential(
          Word(Get(item, "name")).value, Word(Get(item, "placeholder")).value, Word(Get(item, "env")).value,
          Word(header), Word(format))])
  }

  function CheckRequired(st: CredState, item: Fields, ops: Ops): CredState {
    if FirstMissing(item).Some? then Complain(st, Missing(FirstMissing(item).value))
    else
      var name, env := Word(Get(item, "name")).value, Word(Get(item, "env")).value;
      if !SegmentName(name) then Complain(st, BadCredentialName)
      else if !EnvName(env) then Complain(st, BadEnvName)
      else if env in CA_ENV_VARS then Complain(st, ReservedEnv)
      else if env in st.envs then Complain(st, RepeatedEnv)
      else
        var st1 := st.(envs := st.envs + {env});
        if name in st.names then Complain(st1, RepeatedName)
        else CheckOptional(st1.(names := st1.names + {name}), item, ops)
  }

  function CheckCredential(st: CredState, item: Value, ops: Ops): CredState {
    if !item.Table? then Complain(st, EntryNotATable)
    else if item.fields.Keys - CREDENTIAL_KEYS != {} then CheckRequired(Complain(st, UnknownKey), item.fields, ops)
    else CheckRequired(st, item.fields, ops)
  }

  function CheckCredentials(items: seq<Value>, ops: Ops): CredState {
    if items == [] then CredState([], {}, {}, [])
    else CheckCredential(CheckCredentials(items[..|items| - 1], ops), items[|items| - 1], ops)
  }

  // --- [[network.policy]] ---

  const POLICY_KEYS := {"host", "methods", "paths", "credential"}

  const POLICY_METHODS := {
    "ACL", "BASELINE-CONTROL", "BIND", "CHECKIN", "CHECKOUT", "COPY", "DELETE", "GET", "HEAD", "LABEL", "LINK",
    "LOCK", "MERGE", "MKACTIVITY", "MKCALENDAR", "MKCOL", "MKREDIRECTREF", "MKWORKSPACE", "MOVE", "OPTIONS",
    "ORDERPATCH", "PATCH", "POST", "PROPFIND", "PROPPATCH", "PUT", "REBIND", "REPORT", "SEARCH", "TRACE", "UNBIND",
    "UNCHECKOUT", "UNLINK", "UNLOCK", "UPDATE", "UPDATEREDIRECTREF", "VERSION-CONTROL"}

  function TokenProblem(token: Value, ops: Ops): Option<Rule> {
    if !token.Str? || Strip(token.text) != token.text || AnySpace(token.text) then Some(BadMethodToken)
    else if ops.upper(token.text) in {"CONNECT", "PRI"} then Some(RefusedMethod)
    else if ops.upper(token.text) !in POLICY_METHODS then Some(UnknownMethod)
    else None
  }

  function PathProblem(path: Value): Option<Rule> {
    if Word(Some(path)) == None then Some(BlankPath)
    else if !("/" <= path.text) || '?' in path.text || '#' in path.text then Some(BadPath)
    else None
  }

  function ItemProblem(isMethod: bool, item: Value, ops: Ops): Option<Rule> {
    if isMethod then TokenProblem(item, ops) else PathProblem(item)
  }

  /** The accepted items of a `methods` (upper-cased) or `paths` list. */
  function GoodItems(isMethod: bool, items: seq<Value>, ops: Ops): seq<string> {
    if items == [] then []
    else
      var front, last := GoodItems(isMethod, items[..|items| - 1], ops), items[|items| - 1];
      if ItemProblem(isMethod, last, ops).Some? then front
      else front + [if isMethod then ops.upper(last.text) else last.text]
  }

  function ItemErrors(isMethod: bool, items: seq<Value>, ops: Ops): seq<Error> {
    if items == [] then []
    else
      var front, p := ItemErrors(isMethod, items[..|items| - 1], ops), ItemProblem(isMethod, items[|items| - 1], ops);
      if p.Some? then front + [Error("policy", p.value)] else front
  }

  function ListOf(isMethod: bool, v: Option<Value>, ops: Ops): Option<seq<string>> {
    match v
    case None => None
    case Some(Arr(items)) => Some(GoodItems(isMethod, items, ops))
    case _ => Some([])
  }

  function ListErrors(isMethod: bool, v: Option<Value>, ops: Ops): seq<Error> {
    match v
    case None => []
    case Some(Arr(items)) =>
      ItemErrors(isMethod, items, ops) + if items == [] then [Error("policy", EmptyList)] else []
    case _ => [Error("policy", ListNotAnArray)]
  }

  function SelectorErrors(host: string, v: Option<Value>, names: set<string>): seq<Error> {
    if v == None then []
    else if Word(v) == None then [Error("policy", BadSelector)]
    else
      (if Word(v).value in names then [] else [Error("policy", UndeclaredCredential)]) +
      (if '*' in host then [Error("policy", WildcardCredential)] else [])
  }

  function PolicyItemEntry(item: Value, ops: Ops): Option<PolicyEntry> {
    if !item.Table? || "host" !in item.fields || ProblemWith(item.fields["host"]).Some? then None
    else
      Some(PolicyEntry(
        Strip(item.fields["host"].text),
        ListOf(true, Get(item.fields, "methods"), ops),
        ListOf(false, Get(item.fields, "paths"), ops),
        Word(Get(item.fields, "credential"))))
  }

  function PolicyFieldErrors(f: Fields, names: set<string>, ops: Ops): seq<Error> {
    if "host" !in f then [Error("policy", NoHost)]
    else if ProblemWith(f["host"]).Some? then [Error("policy", BadHost(ProblemWith(f["host"]).value))]
    else
      ListErrors(true, Get(f, "methods"), ops) +
      ListErrors(false, Get(f, "paths"), ops) +
      SelectorErrors(Strip(f["host"].text), Get(f, "credential"), names)
  }

  function PolicyItemErrors(item: Value, names: set<string>, ops: Ops): seq<Error> {
    if !item.Table? then [Error("policy", EntryNotATable)]
    else
      (if item.fields.Keys - POLICY_KEYS != {} then [Error("policy", UnknownKey)] else []) +
      PolicyFieldErrors(item.fields, names, ops)
  }

  function PolicyValidEntries(items: seq<Value>, ops: Ops): seq<PolicyEntry> {
    if items == [] then []
    else
      var front, e := PolicyValidEntries(items[..|items| - 1], ops), PolicyItemEntry(items[|items| - 1], ops);
      if e.Some? then front + [e.value] else front
  }

  function PolicyErrors(items: seq<Value>, names: set<string>, ops: Ops): seq<Error> {
    if items == [] then []
    else PolicyErrors(items[..|items| - 1], names, ops) + PolicyItemErrors(items[|items| - 1], names, ops)
  }

  // --- Rules across tables ---

  function NamesOf(creds: seq<Credential>): set<string> {
    set i | 0 <= i < |creds| :: creds[i].name
  }

  predicate Selects(entries: seq<PolicyEntry>, name: string) {
    exists i :: 0 <= i < |entries| && entries[i].credential == Some(name)
  }

  function UnselectedErrors(creds: seq<Credential>, entries: seq<PolicyEntry>): seq<Error> {
    if creds == [] then []
    else
      var front := UnselectedErrors(creds[..|creds| - 1], entries);
      if Selects(entries, creds[|creds| - 1].name) then front else front + [Error("credential", UnselectedCredential)]
  }

  function HostsOf(entries: seq<PolicyEntry>): seq<string> {
    if entries == [] then [] else HostsOf(entries[..|entries| - 1]) + [entries[|entries| - 1].host]
  }

  /** A name in both `policy` and `splice`. */
  function AlsoSplicedErrors(entries: seq<PolicyEntry>, splice: seq<string>, ops: Ops): seq<Error> {
    if entries == [] then []
    else
      var front := AlsoSplicedErrors(entries[..|entries| - 1], splice, ops);
      if OverlapsAny(entries[|entries| - 1].host, splice, ops) then front + [Error("policy", PolicyAlsoSpliced)]
      else front
  }

  predicate HasSibling(entries: seq<PolicyEntry>, i: nat, ops: Ops)
    requires i < |entries|
  {
    exists j :: 0 <= j < |entries| && j != i && ops.overlap(entries[i].host, entries[j].host)
  }

  /** Entries that share a host must each state both lists. */
  function OverlapErrors(entries: seq<PolicyEntry>, n: nat, ops: Ops): seq<Error>
    requires n <= |entries|
  {
    if n == 0 then []
    else
      var front, e := OverlapErrors(entries, n - 1, ops), entries[n - 1];
      if HasSibling(entries, n - 1, ops) && (e.methods == None || e.paths == None)
      then front + [Error("policy", OverlapOmitsKeys)] else front
  }

  predicate ApexTrapped(entries: seq<PolicyEntry>, apex: string, ops: Ops) {
    && (exists i :: 0 <= i < |entries| && ops.lower(Strip(entries[i].host)) == ops.lower("*." + apex))
    && !exists i :: 0 <= i < |entries| && ops.matches(apex, entries[i].host)
  }

  function ApexErrors(entries: seq<PolicyEntry>, hosts: seq<string>, ops: Ops): seq<Error> {
    if hosts == [] then []
    else
      var front := ApexErrors(entries, hosts[..|hosts| - 1], ops);
      if ApexTrapped(entries, hosts[|hosts| - 1], ops) then front + [Error("policy", ApexUncovered)] else front
  }

  function TlsErrors(net: Fields): seq<Error> {
    var explicit, reason := TlsMode(net), Word(Get(net, "tls_reason"));
    (if explicit.Some? && explicit.value !in {"inspect", "splice"} then [Error("tls", UnknownTls)] else []) +
    (if explicit == Some("splice") && reason == None then [Error("tls", SpliceWithoutReason)] else []) +
    (if reason.Some? && explicit != Some("splice") then [Error("tls_reason", StrayTlsReason)] else [])
  }

  function CaErrors(net: Fields, triggered: bool, ops: Ops): seq<Error> {
    var delivery, mount := CaDelivery(net), CaMountPath(net);
    (if triggered && EffectiveTls(net, ops) == "inspect" then
       if delivery == None then [Error("ca_delivery", NoCaDelivery)]
       else if delivery.value !in {"env", "mount", "image"} then [Error("ca_delivery", UnknownCaDelivery)]
       else if delivery.value == "mount" && mount == None then [Error("ca_delivery", NoMountPath)]
       else []
     else []) +
    (if mount.Some? && delivery != Some("mount") then [Error("ca_mount_path", StrayMountPath)] else [])
  }

  function RedundantErrors(splice: seq<string>, effective: string): seq<Error> {
    if splice == [] || effective != "splice" then []
    else RedundantErrors(splice[..|splice| - 1], effective) + [Error("splice", RedundantSplice)]
  }

  /** The keys an egress policy is written with, for the host-mode refusal. */
  const EGRESS_KEYS := ["hosts", "policy", "allow", "internal", "splice", "tls", "ca_delivery", "credential"]

  function NamedKeys(net: Fields, keys: seq<string>): seq<string> {
    if keys == [] then []
    else
      var front := NamedKeys(net, keys[..|keys| - 1]);
      if Truthy(Get(net, keys[|keys| - 1])) then front + [keys[|keys| - 1]] else front
  }

  predicate OnHostNetwork(net: Fields, config: Option<Fields>) {
    if config.Some? then RunsOnHostNetwork(config.value) else SaysHostMode(net)
  }

  // --- The whole table ---

  function ValidHosts(net: Fields): seq<string> {
    StrippedHosts(Items(net, "hosts"))
  }

  function ValidSplice(net: Fields): seq<string> {
    ReasonValidHosts(Items(net, "splice"))
  }

  function ValidInternal(net: Fields): seq<string> {
    ReasonValidHosts(Items(net, "internal"))
  }

  function ValidCredentials(net: Fields, ops: Ops): seq<Credential> {
    CheckCredentials(Items(net, "credential"), ops).creds
  }

  function ValidEntries(net: Fields, ops: Ops): seq<PolicyEntry> {
    PolicyValidEntries(Items(net, "policy"), ops)
  }

  predicate Triggered(net: Fields, ops: Ops) {
    ValidHosts(net) != [] || ValidEntries(net, ops) != [] || Truthy(Get(net, "allow"))
  }

  function HostArrayErrors(net: Fields): seq<Error> {
    (ArrayErrors(net, "hosts") + HostErrors(Items(net, "hosts"))) +
    (ArrayErrors(net, "allow") + AllowErrors(Items(net, "allow"))) +
    (ArrayErrors(net, "internal") + ReasonErrors("internal", Items(net, "internal"))) +
    (ArrayErrors(net, "splice") + ReasonErrors("splice", Items(net, "splice")))
  }

  function EntryErrors(net: Fields, ops: Ops): seq<Error> {
    SpliceCoverErrors(ValidSplice(net), ValidHosts(net), ops) +
    (ArrayErrors(net, "credential") + CheckCredentials(Items(net, "credential"), ops).errors) +
    (ArrayErrors(net, "policy") + PolicyErrors(Items(net, "policy"), NamesOf(ValidCredentials(net, ops)), ops)) +
    (UnselectedErrors(ValidCredentials(net, ops), ValidEntries(net, ops)) +
     InternalCoverErrors(ValidInternal(net), ValidHosts(net), HostsOf(ValidEntries(net, ops)), ops))
  }

  function PolicySetErrors(net: Fields, ops: Ops): seq<Error> {
    var entries := ValidEntries(net, ops);
    if entries == [] then []
    else
      (if TlsMode(net) == Some("splice") then [Error("policy", PolicyUnderSplice)] else []) +
      AlsoSplicedErrors(entries, ValidSplice(net), ops) +
      OverlapErrors(entries, |entries|, ops) +
      ApexErrors(entries, ValidHosts(net), ops)
  }

  function TableErrors(net: Fields, ops: Ops): seq<Error> {
    HostArrayErrors(net) + EntryErrors(net, ops) + PolicySetErrors(net, ops) + TlsErrors(net) +
    CaErrors(net, Triggered(net, ops), ops) + RedundantErrors(ValidSplice(net), EffectiveTls(net, ops))
  }

  /** Everything validate_container_network reports, in its order. */
  function NetworkErrors(table: Value, config: Option<Fields>, ops: Ops): seq<Error> {
    if !table.Table? then [Error("network", NotATable)]
    else
      var net := table.fields;
      PublishErrors(Get(net, "ports")) +
      (if "http2" in net then [Error("http2", Http2Refused)] else []) +
      if OnHostNetwork(net, config) && NamedKeys(net, EGRESS_KEYS) != []
      then [Error("network", HostModeConflict(NamedKeys(net, EGRESS_KEYS)))]
      else TableErrors(net, ops)
  }

  predicate Accepted(net: Fields, config: Option<Fields>, ops: Ops) {
    NetworkErrors(Table(net), config, ops) == []
  }
}
