/**
  The host as the orphan sweep sees it, and what one sweep does to it.

  A host has several deployments, each with its own /etc (workload configs and system users),
  and one /var whose workload trees are shared by all of them.
 */
module HostModel {
  import opened Common
  import opened Deployments

  /** One `workload.toml`: it fails to parse, parses without a name, or declares a name. */
  datatype Config = Unparsable | Unnamed | Named(name: string)

  /** The /etc of one deployment: configs by directory name, and the passwd entries in order. */
  datatype Etc = Etc(configs: map<string, Config>, users: seq<string>)

  /** A child of /var/lib/workloads; `Link` is a symlink to a directory, whose marker is read through it. */
  datatype Entry = Dir(marker: MarkerFile) | Link(marker: MarkerFile) | NotDir

  /** `is_dir`, which follows symlinks. */
  predicate IsDir(e: Entry) {
    e.Dir? || e.Link?
  }

  function WithMarker(e: Entry, marker: MarkerFile): Entry {
    if e.Link? then Link(marker) else Dir(marker)
  }

  datatype Host = Host(deployed: map<Deployment, Etc>, booted: Deployment, trees: map<string, Entry>)

  const PREFIX := "_wl-"
  const BACKUPS := "backups"

  /** A directory entry's name, as opposed to "", "." and ".." which `base / name` resolves away. */
  predicate PlainName(name: string) {
    name != "" && name != "." && name != ".." && '/' !in name
  }

  predicate WorkloadUser(user: string) {
    PREFIX <= user
  }

  function User(name: string): string {
    PREFIX + name
  }

  function NameOf(user: string): string
    requires WorkloadUser(user)
  {
    user[|PREFIX|..]
  }

  ghost predicate Valid(h: Host) {
    && h.booted in h.deployed
    && (forall n :: n in h.trees ==> PlainName(n))
    && forall d, u :: d in h.deployed && u in h.deployed[d].users ==> '/' !in u
  }

  function BootedEtc(h: Host): Etc
    requires h.booted in h.deployed
  {
    h.deployed[h.booted]
  }

  /** The names the booted deployment's parsable configs declare. */
  function ConfiguredNames(etc: Etc): set<string> {
    set dir | dir in etc.configs && etc.configs[dir].Named? && etc.configs[dir].name != "" :: etc.configs[dir].name
  }

  predicate Configured(h: Host, name: string)
    requires h.booted in h.deployed
  {
    name in ConfiguredNames(BootedEtc(h))
  }

  /** workloadctl never stamps the base directory itself, so only a real child has a marker. */
  function MarkerAt(h: Host, name: string): MarkerFile {
    if name in h.trees && IsDir(h.trees[name]) then h.trees[name].marker else NoMarker
  }

  function Elsewhere(h: Host, sight: Sight, name: string): Option<string> {
    OtherDeploymentsState(h.deployed.Keys, h.booted, sight, MarkerAt(h, name), name)
  }

  // --- What one sweep selects ---

  predicate Judged(h: Host, sight: Sight, name: string)
    requires h.booted in h.deployed
  {
    !Configured(h, name) && Elsewhere(h, sight, name) == None
  }

  predicate OrphanUser(h: Host, sight: Sight, user: string)
    requires h.booted in h.deployed
  {
    && user in BootedEtc(h).users
    && WorkloadUser(user)
    && Judged(h, sight, NameOf(user))
  }

  /** The orphans among the given passwd entries, in order. */
  function OrphansIn(h: Host, sight: Sight, users: seq<string>): (r: seq<string>)
    requires h.booted in h.deployed
    ensures forall u :: u in r ==> u in users && WorkloadUser(u) && Judged(h, sight, NameOf(u))
    ensures forall u :: u in users && WorkloadUser(u) && Judged(h, sight, NameOf(u)) ==> u in r
  {
    if users == [] then []
    else
      var u := users[|users| - 1];
      var front := OrphansIn(h, sight, users[..|users| - 1]);
      if WorkloadUser(u) && Judged(h, sight, NameOf(u)) then front + [u] else front
  }

  /** The directory scan looks at non-hidden directories other than the backup output. */
  predicate Scanned(h: Host, name: string) {
    && name in h.trees
    && IsDir(h.trees[name])
    && !("." <= name)
    && name != BACKUPS
  }

  predicate OrphanDir(h: Host, sight: Sight, name: string)
    requires h.booted in h.deployed
  {
    && Scanned(h, name)
    && User(name) !in BootedEtc(h).users
    && Judged(h, sight, name)
  }

  /** `base / name` as a normalised path: "" is the base directory and ".." its parent. */
  function Root(name: string): string {
    if name == "." then "" else name
  }

  predicate RootExists(h: Host, root: string) {
    root == "" || root == ".." || root in h.trees
  }

  /** The paths one sweep hands to rmtree. */
  ghost predicate Doomed(h: Host, sight: Sight, root: string)
    requires h.booted in h.deployed
  {
    || OrphanDir(h, sight, root)
    || exists u :: OrphanUser(h, sight, u) && Root(NameOf(u)) == root && RootExists(h, root)
  }

  /** The names whose marker a sweep consults. */
  function Consulted(h: Host): set<string>
    requires h.booted in h.deployed
  {
    (set u | u in BootedEtc(h).users && WorkloadUser(u) && !Configured(h, NameOf(u)) :: NameOf(u)) +
    (set n | n in h.trees && Scanned(h, n) && User(n) !in BootedEtc(h).users && !Configured(h, n))
  }

  /** The state reported as another deployment's, by name. */
  function Spared(h: Host, sight: Sight): map<string, string>
    requires h.booted in h.deployed
  {
    map n | n in Consulted(h) && Elsewhere(h, sight, n).Some? :: Elsewhere(h, sight, n).value
  }

  // --- What one sweep does ---

  /** Which removals fail: users userdel keeps, trees rmtree leaves whole, trees it leaves without their marker. */
  datatype Outcome = Outcome(stuckUsers: set<string>, kept: set<string>, gutted: set<string>)

  const CLEAN := Outcome({}, {}, {})

  function Remains(n: string, e: Entry, o: Outcome): Option<Entry> {
    if n in o.kept then Some(e)
    else if n in o.gutted && e.Dir? then Some(Dir(NoMarker))
    else None
  }

  /**
    rmtree of `root`: a plain child if it is a directory, everything for the base and its parent.
    Given a symlink it refuses, and the refusal is ignored.
   */
  predicate Covers(root: string, n: string, e: Entry) {
    root == "" || root == ".." || (root == n && e.Dir?)
  }

  ghost predicate Hit(h: Host, sight: Sight, n: string)
    requires h.booted in h.deployed
  {
    n in h.trees && exists root :: Doomed(h, sight, root) && Covers(root, n, h.trees[n])
  }

  ghost function SweptTrees(h: Host, sight: Sight, o: Outcome): map<string, Entry>
    requires h.booted in h.deployed
  {
    map n | n in h.trees && (Hit(h, sight, n) ==> Remains(n, h.trees[n], o).Some?) ::
      if Hit(h, sight, n) then Remains(n, h.trees[n], o).value else h.trees[n]
  }

  /** The passwd entries left after userdel of every name in `gone`. */
  function WithoutUsers(users: seq<string>, gone: set<string>): (r: seq<string>)
    ensures forall u :: u in r <==> u in users && u !in gone
  {
    if users == [] then []
    else
      var u := users[|users| - 1];
      var front := WithoutUsers(users[..|users| - 1], gone);
      if u in gone then front else front + [u]
  }

  function SweptUsers(h: Host, sight: Sight, o: Outcome): seq<string>
    requires h.booted in h.deployed
  {
    var users := BootedEtc(h).users;
    WithoutUsers(users, set u | u in OrphansIn(h, sight, users) && u !in o.stuckUsers)
  }

  ghost function Swept(h: Host, sight: Sight, o: Outcome): Host
    requires h.booted in h.deployed
  {
    h.(deployed := h.deployed[h.booted := BootedEtc(h).(users := SweptUsers(h, sight, o))],
       trees := SweptTrees(h, sight, o))
  }

  /** A `_wl-` user whose name part is "", "." or ".." makes the sweep claim the whole base directory. */
  ghost predicate BaseClaimed(h: Host, sight: Sight)
    requires h.booted in h.deployed
  {
    OrphanUser(h, sight, User("")) || OrphanUser(h, sight, User(".")) || OrphanUser(h, sight, User(".."))
  }

  /** The sweep can reach the tree: its user exists here, or the directory scan does not exempt it. */
  predicate Reachable(h: Host, n: string)
    requires h.booted in h.deployed
  {
    User(n) in BootedEtc(h).users || (!("." <= n) && n != BACKUPS)
  }

  lemma UserInverse(n: string)
    ensures WorkloadUser(User(n)) && NameOf(User(n)) == n
  {
  }

  lemma NameInverse(u: string)
    requires WorkloadUser(u)
    ensures User(NameOf(u)) == u
  {
  }

  /** Selection without the lists: what makes one path doomed. */
  lemma DoomedExactly(h: Host, sight: Sight, root: string)
    requires Valid(h)
    ensures PlainName(root) ==>
              (Doomed(h, sight, root) <==>
               root in h.trees && Judged(h, sight, root) &&
               (User(root) in BootedEtc(h).users || Scanned(h, root)))
    ensures root == "" ==>
              (Doomed(h, sight, root) <==> OrphanUser(h, sight, User("")) || OrphanUser(h, sight, User(".")))
    ensures root == ".." ==> (Doomed(h, sight, root) <==> OrphanUser(h, sight, User("..")))
  {
    forall u | OrphanUser(h, sight, u) ensures u == User(NameOf(u)) { NameInverse(u); }
    UserInverse(root);
    UserInverse(".");
  }

  /** A sweep hits a tree exactly when the base is claimed, or its directory is judged and reachable. */
  lemma HitExactly(h: Host, sight: Sight, n: string)
    requires Valid(h) && n in h.trees
    ensures Hit(h, sight, n) <==>
            BaseClaimed(h, sight) ||
            (h.trees[n].Dir? && Reachable(h, n) && Judged(h, sight, n))
  {
    DoomedExactly(h, sight, n);
    DoomedExactly(h, sight, "");
    DoomedExactly(h, sight, "..");
  }
}
