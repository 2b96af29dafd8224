/**
  Which ostree deployment a workload's state belongs to.

  Several deployments of one machine have their own configs but see the same state. Each workload
  tree therefore keeps a marker: the id of the deployment that was booted when the tree was last
  set up.
 */
module Deployments {
  import opened Common

  /** A deployment is a directory `<stateroot>/deploy/<id>`; only `id` is written into a marker. */
  datatype Deployment = Deployment(stateroot: string, id: string)

  datatype Json = JNull | JString(text: string) | JOther(code: int)

  /** The marker file of a tree. Unreadable, corrupt and non-object contents are all `Unusable`. */
  datatype MarkerFile = NoMarker | Unusable | Object(fields: map<string, Json>)

  /** What the running process could read: the deploy root, and the `ostree=` kernel argument. */
  datatype Sight = Sight(deployRoot: bool, cmdline: bool)

  predicate HexDigit(c: char) {
    '0' <= c <= '9' || 'a' <= c <= 'f'
  }

  /** `<64 hex digits>.<serial>`. */
  predicate ValidId(id: string) {
    && |id| > 65
    && (forall i | 0 <= i < 64 :: HexDigit(id[i]))
    && id[64] == '.'
    && forall i | 65 <= i < |id| :: '0' <= id[i] <= '9'
  }

  function BootedId(booted: Deployment, sight: Sight): Option<string> {
    if sight.cmdline && ValidId(booted.id) then Some(booted.id) else None
  }

  /** Looks under every stateroot. */
  predicate DeploymentExists(deployed: set<Deployment>, id: string) {
    ValidId(id) && exists d :: d in deployed && d.id == id
  }

  function ReadMarker(marker: MarkerFile): Option<map<string, Json>> {
    if marker.Object? then Some(marker.fields) else None
  }

  function Field(fields: map<string, Json>, key: string): Json {
    if key in fields then fields[key] else JNull
  }

  function Payload(name: string, id: Option<string>): map<string, Json> {
    map["name" := JString(name), "deployment" := if id.Some? then JString(id.value) else JNull]
  }

  /** The marker after a stamp: unchanged content is not rewritten, and a failed write changes nothing. */
  function Stamped(marker: MarkerFile, name: string, id: Option<string>, writable: bool): MarkerFile {
    if ReadMarker(marker) == Some(Payload(name, id)) || !writable then marker
    else Object(Payload(name, id))
  }

  /** The other deployment that owns the state, or None when the caller may judge it. */
  function OtherDeploymentsState(
      deployed: set<Deployment>, booted: Deployment, sight: Sight, marker: MarkerFile, name: string): Option<string>
  {
    if !sight.deployRoot then None
    else
      match ReadMarker(marker)
      case None => None
      case Some(fields) =>
        if Field(fields, "name") != JString(name) then None
        else
          match Field(fields, "deployment")
          case JString(id) =>
            if BootedId(booted, sight) == Some(id) then None
            else if DeploymentExists(deployed, id) then Some(id) else None
          case _ => None
  }

  /** The marker records that deployment `id` last provisioned workload `name`. */
  ghost predicate Names(marker: MarkerFile, name: string, id: string) {
    && marker.Object?
    && "name" in marker.fields && marker.fields["name"] == JString(name)
    && "deployment" in marker.fields && marker.fields["deployment"] == JString(id)
  }

  /** The rows of the provenance table, and the case that deployments cannot be seen at all. */
  datatype Provenance = Unseen | Unmarked | ByBooted | ByOther(id: string) | Defunct

  ghost function ProvenanceOf(
      deployed: set<Deployment>, booted: Deployment, sight: Sight, marker: MarkerFile, name: string): Provenance
  {
    if !sight.deployRoot then Unseen
    else if id :| Names(marker, name, id) then
      if BootedId(booted, sight) == Some(id) then ByBooted
      else if DeploymentExists(deployed, id) then ByOther(id)
      else Defunct
    else Unmarked
  }
}
