# workloadctl in Dafny

A model of the parts of workloadctl where a mistake is expensive, with proofs about them. It
covers eight subjects.

- **Cleanup after a rollback** (`Deployments`, `HostModel`, `Cleanup`, `SweepRuns`). The sweep of
  `_wl-*` users and state trees, guarded by provenance markers, as a class that changes the host
  in place; and a state machine of provisions, config edits, deployments, boots, prunes and sweeps.
- **The egress record** (`RecordFiles`, `RecordQuery`, `RecordRotation`, `RecordReadback`,
  `RecordAnswers`, `RecordGroups`, `RecordFlags`). Naming and ordering rotated generations, skipping
  files by time, selecting, and grouping by connection, over every history of appends, renames,
  rotations, compressions and drops.
- **The container egress policy** (`Toml`, `ContainerConfig`, `ContainerRules`, `ContainerAgreement`,
  `ContainerMeaning`, `ContainerAcceptance`, `ContainerValidator`, `EgressDocument`,
  `AcceptedGuarantees`, `Broker`, `BrokerTables`, `BrokerDisagreement`, `BrokerLiterals`, `RunArgs`).
  One table read twice, by a strict validator and by tolerant readers, then compiled into a policy
  document, a broker command and podman flags; and what being accepted amounts to and buys.
- **Backup** (`Backup`, `BackupFaults`). Pause, copy, resume, with a fault possible at every step.
- **Capture and restore** (`DataTree`, `Restore`). The two tree walks around mount points, replacing
  or merging `data/`, and what a restore has done by the time it refuses.
- **The catalog** (`Literals`, `TomlText`, `FieldEditor`, `FieldSetter`, `Lineage`). How a value is
  quoted, run through a replacement template and read back; editing one field of a config file by
  pattern; and what both do to a workload's bundle over any sequence of `init` and `duplicate`.
- **Drift** (`Drift`) and **update** (`Update`). Two-directional comparison of run files; verification,
  rollback and accounting of a fleet.
- **Secret export** (`SecretExport`). The framing of a portable secret.

`Common` and `Sorting` hold shared helpers. `dafny verify dfyconfig.toml` checks everything.

## How the model reads

Code that works by changing things is a method or a class, tied by its `ensures` to a specification
function; what the program promises is then proved about that function. Everything outside the
program is an input: the clock, lstat, the outcome of each external command, the failures of
`userdel` and `rmtree`. A theorem over all inputs is therefore a theorem over all faults. Hostname
matching, pattern overlap, case mapping and the format parser are inputs too (`Ops`, `TextOps`); the
only thing assumed of overlap is that two patterns matching one host overlap (`OverlapSound`).

## Where code and documentation disagree

The model follows the code. Each of these is a proved statement.

- Two stateroots that hold the same `<csum>.<serial>`: the docstring of `other_deployments_state`
  says such state is spared. The marker then names the booted id, and the state is swept, exactly
  when the ids coincide (`SweepRuns.OtherStaterootIsSweptExactly`).
- A `_wl-`, `_wl-.` or `_wl-..` user that counts as an orphan makes the sweep claim the whole base
  directory, spared state included (`HostModel.HitExactly`, `SweepRuns.SweepConvergesExactly`). An
  orphaned `_wl-backups` user claims the backups (`SweepRuns.BackupsSurviveExactly`).
- A config file that does not parse, or names another workload, does not protect its own state
  (`SweepRuns.ConfigFileProtectsExactly`).
- A provision whose marker write failed, or that could not read the kernel command line, leaves its
  tree open to a later sweep by another deployment (`SweepRuns.StampDecidesSurvival`).
- While logrotate is writing a `.gz`, its lines are read twice (`RecordReadback.ReadsTheTailInOrder`),
  and under `--until` a `.gz` with no complete line raises (`RecordQuery.PrunedReadingRefinesFull`).
- The rules check `hosts` stripped, the document carries them unstripped
  (`ContainerAgreement.HostsAgreeUpToPadding`).
- `broker_command` relies on entries for one host agreeing on the credential. The VM rules enforce
  that, the container rules do not, for any host and any two credentials
  (`BrokerDisagreement.OneEntryIsNotServed`); the broker serves every pair exactly when they agree
  (`BrokerTables.AcceptedCommand`).
- `broker_command` also relies on a credentialed host being a literal. The rules refuse only a star:
  a credential on `a?.b` is accepted and its row names no host (`BrokerLiterals.PatternRowIsAccepted`).
  The rows are literals exactly when no selecting entry has a `?` or `[` in its host
  (`BrokerLiterals.RowsAreLiteralExactly`).
- A credential whose variable is HOST_IP, or one of the container's plain ones, is accepted, and its
  placeholder is overwritten by a later flag (`RunArgs.PlaceholderWinsExactly`).
- The crash-consistent backup promises that an interrupted copy never leaves the guest paused. An
  interrupt just before the guarded copy, or just before `cont` is issued, does; likewise a cold
  copy's service stays down (`BackupFaults.ResumesExactly`, `BackupFaults.StartsExactly`).
- A restore that declines to start on `data/` has already stopped the service and replaced config
  and credentials (`Restore.Workload.Restore`).
- A symlinked workload root that looks orphaned is listed by every sweep and removed by none
  (`SweepRuns.SweepConvergesExactly`).
- The capture lets an unreadable mount point through, which the restore guard refuses
  (`DataTree.RefusesExactly`).
- Merging a backup into the tree it was taken from fails whenever it holds a symlink
  (`Restore.MergeOwnBackup`).
- The name pattern lets one trailing line break pass. `--scratch` writes the name unescaped, and a
  replaced line goes through a template that turns an escaped break back into a real one, so a
  workload `a\n` can be created whose file does not parse (`Lineage.BrokenName`). Over every run a
  workload keeps its name and its first ancestor's bundle exactly when no name or bundle on its line
  of descent failed to get through a raw or replaced line (`Lineage.EveryDescendantResolves`); for
  valid names that is a line break at the end (`Lineage.NamedBundleSpoils`).
- `toml_string` promises a literal that is safe. One that holds DEL does not parse
  (`Literals.InsertReadsExactly`), and on a replaced line one with a backslash, a line break or
  another control character does not read back (`Literals.ReplaceReadsExactly`).
- Setting a field tells sections, fields and values apart by their looks. Where a line inside a
  multi-line value looks like one, or the field is spelled with quotes, dots or over several lines,
  the edit goes wrong (`FieldSetter.LensExactly`).
- A template with a `bundle` of its own redirects an instance named like the bundle
  (`Lineage.RootIsItsBundle`).
- `drift NAME` never reports the seccomp profile of NAME: `workload-NAME.seccomp.json` has a stem
  the name filter does not accept (`Drift.FilteredSeccompIsSilent`).

## Model

| member | source | states |
|---|---|---|
| `SweepRuns.GuardIsTheTable` | workloadctl/lib/deployment.py:179-214 | The guard spares state exactly when deployments can be seen, and its marker names this workload and a deployed id other than the booted one: the rows of a provenance table stated without the guard's order of tests. |
| `Cleanup.Machine.WriteMarker` | workloadctl/lib/deployment.py:152-176 | Stamps the tree with name and booted id, reports a change exactly when the file changed, and leaves an up-to-date or unwritable marker alone. |
| `Cleanup.BelongsElsewhere` | workloadctl/lib/cmd_cleanup.py:83-92 | The memo answers as the guard would, and the report holds exactly the spared names judged so far. |
| `Cleanup.FindOrphanUsers` | workloadctl/lib/cmd_cleanup.py:94-103 | The orphaned users in passwd order. |
| `Cleanup.FindOrphanDirs` | workloadctl/lib/cmd_cleanup.py:105-127 | The orphaned directories with no user, symlinked ones included, with the exemptions for files, dot names and backups. |
| `Cleanup.ClaimRoots` | workloadctl/lib/cmd_cleanup.py:129-139 | Adds the root of every orphaned user once, if it exists. |
| `Cleanup.FindOrphans` | workloadctl/lib/cmd_cleanup.py:83-139 | The plan lists exactly the orphaned users, exactly the doomed roots without repetition, and exactly the spared state. |
| `HostModel.DoomedExactly` | workloadctl/lib/cmd_cleanup.py:96-139 | Which roots are claimed, for plain names and for the names that denote the base directory or its parent. |
| `HostModel.HitExactly` | workloadctl/lib/cmd_cleanup.py:96-139 | A tree is removed exactly when the base is claimed, or it is a real directory, reachable, and neither configured nor owned elsewhere. |
| `Cleanup.Machine.Apply` | workloadctl/lib/cmd_cleanup.py:225-259 | `--apply` takes the host to exactly the swept host, whichever removals fail. |
| `SweepRuns.MarkersNameTheLastProvisioner` | workloadctl/lib/deployment.py:152-176 | Over every run of recorded provisions, each marker names the deployment that last provisioned its tree. |
| `SweepRuns.SweepVerdict` | workloadctl/lib/cmd_cleanup.py:83-139 | After every such run, a provisioned tree is swept exactly when the base is claimed, or it is a real directory, reachable, not configured and not owned by another live deployment. |
| `SweepRuns.NoRunSweepsLiveState` | workloadctl/lib/cmd_cleanup.py:73-92 | No run ends in a sweep that removes the user of a configured workload or of one last provisioned by another live deployment, nor, unless the whole base directory is claimed, its tree. |
| `SweepRuns.DeletedConfigIsSwept` | workloadctl/lib/cmd_cleanup.py:94-139 | State this deployment provisioned and no longer configures loses its user to one clean sweep, and its tree unless that is a symlink and the base is not claimed. |
| `SweepRuns.OtherStaterootIsSweptExactly` | workloadctl/lib/deployment.py:188-200 | State of another deployed deployment is swept exactly when both share their id and the root is a real directory. |
| `SweepRuns.ConfigFileProtectsExactly` | workloadctl/lib/cmd_cleanup.py:102-127 | A config file fails to protect its state exactly when it does not parse or names another directory, and the root is a real directory. |
| `SweepRuns.BackupsSurviveExactly` | workloadctl/lib/cmd_cleanup.py:111-114 | Off the base claim the backup directory is swept exactly when it is a real directory and an orphaned `_wl-backups` user exists. |
| `SweepRuns.DoomedLeftExactly` | workloadctl/lib/cmd_cleanup.py:105-139 | Off the base claim a clean sweep leaves exactly the orphaned symlinked roots to be found again. |
| `SweepRuns.SweepConvergesExactly` | workloadctl/lib/cmd_cleanup.py:105-139 | After one clean sweep a second finds nothing and reports the same spared state, exactly when no orphaned root is a symlink, or, with the base claimed, when nothing was spared. |
| `SweepRuns.StampDecidesSurvival` | workloadctl/lib/deployment.py:152-176 | A provision's tree survives every later history in which its provisioner exists, exactly when its stamp was recorded or its root is a symlink. |
| `RecordFiles.GenerationRoundTrip` | workloadctl/lib/egress_record_query.py:184-213 | The number in a generation's file name reads back, compressed or not. |
| `RecordFiles.Generations` | workloadctl/lib/egress_record_query.py:184-213 | The candidates by descending number, stably, with the live file last. |
| `RecordQuery.ReadRecords` | workloadctl/lib/egress_record_query.py:269-305 | Records, malformed count and files read, or the uncaught error, for any list of generations. |
| `RecordQuery.SelectRecords` | workloadctl/lib/egress_record_query.py:353-391 | Keeps exactly the records that match every field, in order. |
| `RecordQuery.FirstRaisesExactly` | workloadctl/lib/egress_record_query.py:250-266 | Looking for the first record's time raises exactly on a truncated file with no line but blanks. |
| `RecordQuery.SkippedHoldsNothing` | workloadctl/lib/egress_record_query.py:222-247 | A skipped generation holds no record the filters would select. |
| `RecordQuery.PrunedReadingRefinesFull` | workloadctl/lib/egress_record_query.py:222-305 | Selecting over the pruned reading equals selecting over everything, for every filter set; and the pruned reading fails exactly when a file it probes raises. |
| `RecordRotation.RunKeepsInv` | workloadctl/logrotate/workloadctl-inspect:35-49 | Over every history of appends, single renames, rotations, compressions (generation 1 included) and drops, the log retains exactly the tail of what was appended. |
| `RecordRotation.RenameKeepsLines` | workloadctl/logrotate/workloadctl-inspect:35-49 | Renaming one generation into the gap above it moves no line past another. |
| `RecordReadback.ReadsTheTailInOrder` | workloadctl/lib/egress_record_query.py:184-305 | At every moment of every such history, between two renames too, reading the generations returns that tail in append order with nothing repeated, exactly when no half-written `.gz` has readable lines. |
| `RecordAnswers.EveryQueryIsExact` | workloadctl/lib/egress_record_query.py:184-391 | Off a running compression and with clocks that do not go back, every query over the files answers as one over the retained history. |
| `RecordGroups.GroupByConnection` | workloadctl/lib/egress_record_query.py:394-419 | The groups in order of first appearance, each sorted. |
| `RecordGroups.FirstAppearanceOrder` | workloadctl/lib/egress_record_query.py:394-419 | An earlier group's first record precedes a later group's. |
| `RecordGroups.SortItemsExactly` | workloadctl/lib/egress_record_query.py:394-419 | Sorting a group permutes it, puts connection-level records first and requests ascending, and is stable. |
| `RecordGroups.GroupingIsAPartition` | workloadctl/lib/egress_record_query.py:394-419 | The groups hold every record exactly once, one id per group, no id in two groups, id-less records alone. |
| `RecordGroups.PartialExactlyWhenMissing` | workloadctl/lib/egress_record_query.py:422-433 | On any tail of a well-formed history a group is flagged partial exactly when one of its requests is missing. |
| `RecordFlags.FlaggedExactlyInEveryRun` | workloadctl/lib/cmd_egress.py:222-232 | For every history, directory listing and `-n`: each group of the view read back from the files is flagged exactly when a request of its connection was written and is not shown. |
| `ContainerConfig.ParsePolicyEntries` | workloadctl/lib/config_parser.py:114-140 | The tolerant policy reader, element by element. |
| `ContainerConfig.NormalisePolicyList` | workloadctl/lib/config_parser.py:93-111 | An absent list stays apart from an empty one. |
| `ContainerConfig.ParseCredentialEntries` | workloadctl/lib/credential_entries.py:22-55 | The tolerant credential reader. |
| `ContainerValidator.ValidatePublishPorts` | workloadctl/lib/container_validate.py:57-86 | No error exactly when ports are absent or an array of non-blank specs over the alphabet. |
| `ContainerValidator.ValidateHosts` | workloadctl/lib/container_validate.py:151-161 | The stripped hosts and the errors of the list. |
| `ContainerValidator.ValidateAllow` | workloadctl/lib/container_validate.py:163-209 | Every allow-entry error. |
| `ContainerValidator.ValidateHostReasonArray` | workloadctl/lib/container_validate.py:212-239 | The hosts kept and the errors of `internal` and `splice`. |
| `ContainerValidator.ValidateCredentialEntries` | workloadctl/lib/credential_entries.py:168-305 | The credentials built and every error, with names and variables unique. |
| `ContainerValidator.ValidatePolicyItem` | workloadctl/lib/container_validate.py:283-401 | The entry built from one block and its errors. |
| `ContainerValidator.CheckPolicySet` | workloadctl/lib/container_validate.py:403-486 | No error exactly when entries are never spliced, entries sharing a host state both lists, and no allowlisted apex is left to its wildcard. |
| `ContainerValidator.ValidateContainerNetwork` | workloadctl/lib/container_validate.py:89-571 | All errors of a table, in order, host mode included; none exactly when the table meets every demand as stated without the loops. |
| `ContainerMeaning.CredentialsExactly` | workloadctl/lib/credential_entries.py:168-305 | The credential loop complains of nothing exactly when each block is good by itself and no name or variable occurs twice. |
| `ContainerMeaning.PoliciesExactly` | workloadctl/lib/container_validate.py:276-401 | Policy blocks pass exactly when each is good by itself. |
| `ContainerMeaning.PolicySetExactly` | workloadctl/lib/container_validate.py:426-486 | The set of entries passes exactly when no entry overlaps a splice pattern, siblings state both lists, and no apex is trapped. |
| `ContainerAcceptance.AcceptedExactly` | workloadctl/lib/container_validate.py:89-571 | A table is accepted exactly when its blocks are good one by one and the entries, credentials and hosts the readers deliver meet the conditions across them. |
| `AcceptedGuarantees.AcceptedSpecIsOneWord` | workloadctl/lib/container_validate.py:40-54 | An accepted publish spec is one non-blank word of its unit: no space, quote, backslash, percent or dollar sign. |
| `AcceptedGuarantees.GovernedByEntries` | workloadctl/lib/cmd_rules.py:203-225 | On any table a request to a governed host is allowed exactly when a governing entry permits it. |
| `AcceptedGuarantees.SharedHostIsDecidedByLists` | workloadctl/lib/container_validate.py:455-470 | Where two entries of an accepted table match a host, all that match it state both lists, and a request is allowed exactly when one lists its method and path. |
| `AcceptedGuarantees.AllowlistedApexIsGoverned` | workloadctl/lib/container_validate.py:472-486 | An allowlisted apex whose wildcard has an entry is matched by an entry, terminated, and decided by entries, never by the allowlist. |
| `AcceptedGuarantees.SpliceListMeansInspect` | workloadctl/lib/container_validate.py:250-262 | A splice list in an accepted table means inspect mode; each of its patterns overlaps an allowlisted one and none overlaps a policy host. |
| `ContainerAgreement.PoliciesAgree` | workloadctl/lib/container_validate.py:283-401 | With no errors the tolerant reader and the validator build the same policy entries, element by element. |
| `ContainerAgreement.CredentialsAgree` | workloadctl/lib/credential_entries.py:168-305 | The same for credentials. |
| `ContainerAgreement.ReadersDropNothing` | workloadctl/lib/container_validate.py:269-401 | On every accepted table the readers return exactly what the validator built, one entry per block. |
| `ContainerAgreement.HostsAgreeUpToPadding` | workloadctl/lib/container_network_config.py:76-81 | The reader's hosts are the validator's before stripping, equal exactly when none is padded. |
| `ContainerAgreement.TriggerIsInspection` | workloadctl/lib/container_network_config.py:149-192 | On every accepted table inspection is used exactly when the validator's trigger holds off the host network. |
| `EgressDocument.ReadEntries` | workloadctl/lib/cmd_rules.py:94-115 | The entries read back from a document, or the error; a text where a list belongs is read character by character. |
| `EgressDocument.ReadingRaisesExactly` | workloadctl/lib/cmd_rules.py:94-115 | Reading raises exactly on a number or boolean in place of the policy array, or of the methods or paths of an element with a host. |
| `EgressDocument.DocumentIsLossless` | workloadctl/lib/egress_policy.py:413-443 | Rendering then reading any table, accepted or not, keeps host, methods and paths of every entry, absent apart from empty, and nothing is unreadable. |
| `EgressDocument.ReorderingChangesNothing` | workloadctl/lib/cmd_rules.py:203-266 | Permuting the policy blocks changes no permitted request. |
| `EgressDocument.GovernedHostIsTerminated` | workloadctl/lib/cmd_rules.py:203-266 | On every accepted table a host some entry matches is admitted and terminated, never spliced or refused. |
| `EgressDocument.UngovernedTreatment` | workloadctl/lib/cmd_rules.py:228-266 | The treatment of every other host, from the lists and the mode. |
| `Broker.BrokerCommand` | workloadctl/lib/broker_config.py:250-322 | The argv, or its refusal of a credential name. |
| `BrokerTables.UnspellSpell` | workloadctl/lib/broker_config.py:271-322 | The flags are recovered from the argv. |
| `BrokerTables.CommandDecodes` | workloadctl/lib/broker_config.py:250-338 | Decoding the argv gives one row per host and, for placeholder, header and format alike, the facts of every selected credential that states them. |
| `BrokerTables.FactsExact` | workloadctl/lib/broker_config.py:303-322 | Each fact is given once per credential, exactly for those a host row selects, with exactly the value their own block states. |
| `BrokerTables.HostRowsExact` | workloadctl/lib/broker_config.py:290-302 | There is one row for each host that some entry selects a credential for and no other, naming one of its credentials. |
| `BrokerTables.ServedExactlyWhenAgreeing` | workloadctl/lib/broker_config.py:287-289 | Every pair looks up to its own credential exactly when entries for one host agree. |
| `BrokerTables.AcceptedCommand` | workloadctl/lib/broker_config.py:195-338 | On every accepted table the command exists, its host rows and all three kinds of facts are exact, and all pairs are served exactly when they agree. |
| `BrokerDisagreement.DisagreeingTableIsAccepted` | workloadctl/lib/container_validate.py:276-486 | For every host and every two credentials, a table that selects both for it passes the container rules. |
| `BrokerDisagreement.OneEntryIsNotServed` | workloadctl/lib/broker_config.py:287-289 | The broker built from such a table does not serve every entry with its credential. |
| `BrokerDisagreement.DisagreementExists` | workloadctl/lib/container_validate.py:376-400 | There is such a table for every host and every two credentials that state no header or format. |
| `BrokerDisagreement.EveryHostCanDisagree` | workloadctl/lib/broker_config.py:287-289 | On every host without a star that the rules let through, two concrete credentials make an accepted table whose broker does not serve both entries. |
| `BrokerLiterals.RowsAreLiteralExactly` | workloadctl/lib/broker_config.py:287-303 | The host rows of an accepted table are literals exactly when no entry that selects a credential has a `?` or `[` in its host. |
| `BrokerLiterals.PatternRowIsAccepted` | workloadctl/lib/container_validate.py:391-398 | A credential on `a?.b` is accepted, and the broker's row then names no host. |
| `RunArgs.EachVariableOnce` | workloadctl/lib/container_run_args.py:750-829 | On every accepted config the CA and credential flags assign each variable at most once. |
| `RunArgs.EveryPlaceholderDelivered` | workloadctl/lib/container_run_args.py:750-770 | Every declared credential's placeholder is delivered. |
| `RunArgs.PlaceholderWinsExactly` | workloadctl/lib/container_run_args.py:731-770 | Over the whole list of flags a placeholder is what its variable ends up with exactly when the variable is not HOST_IP and not one of the container's plain ones. |
| `RunArgs.DeclaredRouteIsDelivered` | workloadctl/lib/container_run_args.py:773-829 | Inspect mode yields the declared CA route: nothing, one volume, or one volume and all five variables. |
| `Backup.Machine.CopyCredentials` | workloadctl/lib/backup.py:274-283 | Copies the stored credentials in order up to the first fault. |
| `Backup.Machine.Copy` | workloadctl/lib/backup.py:253-347 | Log, fault and service state of the copy for every combination of faults and of interrupts between its guarded steps; a later fault replaces a pending one. |
| `Backup.Machine.Session` | workloadctl/lib/backup.py:80-172 | Pausing, copying, resuming and resyncing, with the vCPU state left behind. |
| `Backup.Machine.BackupVmCrash` | workloadctl/lib/backup.py:38-179 | The whole crash-consistent backup, cold fallback included; a VM that was not paused is left paused only by a failed `stop` that paused it all the same, an interrupt between the guarded steps, or a `cont` that did not take. |
| `BackupFaults.CopiesLiveExactly` | workloadctl/lib/backup.py:259-333 | Staging works on a running workload exactly when told not to stop it or when is-active says it is down. |
| `BackupFaults.CrashCopiesLiveExactly` | workloadctl/lib/backup.py:54-118 | For all faults a VM is copied live exactly when is-active twice said it was down while it ran. |
| `BackupFaults.StartsExactly` | workloadctl/lib/backup.py:334-347 | A start is attempted once, last, exactly when the service was seen active, its stop succeeded and no interrupt fell between the guarded steps. |
| `BackupFaults.ResumesExactly` | workloadctl/lib/backup.py:96-137 | `cont` is attempted exactly once if `stop` succeeded and no interrupt fell between the guarded steps, and never otherwise. |
| `BackupFaults.ResumesAfterTheCopy` | workloadctl/lib/backup.py:115-137 | All staging lies between the pause and the resume. |
| `BackupFaults.ClosesExactly` | workloadctl/lib/backup.py:76-174 | The socket is closed once, last, on exactly the paths that made a client. |
| `BackupFaults.SucceedsExactly` | workloadctl/lib/backup.py:38-179 | A size is reported exactly when both probes, every piece of staging (stored credentials only) and the lookup of the size went well, with the stop and start of a cold copy or the monitor of a live one. |
| `BackupFaults.CopiesExactly` | workloadctl/lib/backup.py:253-347 | A copy raises nothing exactly when its probe, every piece of staging and, where it stopped the service, stop and start went well. |
| `BackupFaults.RecoveryNeverDecides` | workloadctl/lib/backup.py:123-172 | However the resume failed in an expected way, and whatever befell the clock short of an interrupt, the result is the same. |
| `BackupFaults.BackupAll` | workloadctl/lib/cmd_backup.py:98-126 | Backed-up and failed workloads in order, up to the first fault that is not isolated. |
| `BackupFaults.EveryWorkloadOnce` | workloadctl/lib/cmd_backup.py:98-126 | Every workload reached is in exactly one of the two lists, for any fleet. |
| `DataTree.Ignore` | workloadctl/lib/backup.py:232-248 | The callback skips exactly the readable entries on another device or on a mount point. |
| `DataTree.AssertNoMountsUnder` | workloadctl/lib/cmd_backup.py:219-245 | Refuses exactly when a mount point lies below or a readable entry is on another device. |
| `DataTree.CapturedExactly` | workloadctl/lib/backup.py:309-317 | The captured paths are exactly those with no boundary at or above them, unchanged. |
| `DataTree.WalkExactly` | workloadctl/lib/cmd_backup.py:230-233 | The guard's walk visits exactly the paths of the tree. |
| `DataTree.RefusesExactly` | workloadctl/lib/cmd_backup.py:182-245 | Restore refuses exactly when capture skips something or a mount point is absent from the tree or unreadable. |
| `DataTree.CapturesAllExactly` | workloadctl/lib/backup.py:309-317 | The archive is the whole tree exactly when nothing is skipped. |
| `Restore.MergeExactly` | workloadctl/lib/cmd_backup.py:443-448 | A merge is the archive laid over the old tree, with no error and no write through a symlink, exactly when no path is two kinds of thing or a symlink on both sides. |
| `Restore.MergeOwnBackup` | workloadctl/lib/cmd_backup.py:443-448 | Merging a backup into its own tree changes nothing and succeeds exactly when it holds no symlink. |
| `Restore.UnrefusedIsWhole` | workloadctl/lib/cmd_backup.py:182-245 | A tree the guard lets through is captured whole. |
| `Restore.CredsLeftExactly` | workloadctl/lib/cmd_backup.py:403-417 | Restoring credentials leaves the store as it was exactly when every file is there already and, under `--force`, the same. |
| `Restore.Workload.RestoreData` | workloadctl/lib/cmd_backup.py:421-448 | Refusals leave `data/` alone; otherwise it becomes the archive or the merge, and no mount lay under it. |
| `Restore.Workload.Restore` | workloadctl/lib/cmd_backup.py:385-448 | The whole restore; a refused one has already stopped the service and replaced config and credentials, and leaves the workload as it was exactly when there was nothing in them to change. |
| `Restore.Workload.BackupThenForce` | workloadctl/lib/cmd_backup.py:385-448 | Backup followed by `restore --force` leaves config, credentials and `data/` as they were, whatever is mounted. |
| `Literals.InsertReadsExactly` | workloadctl/lib/workloadctl_core.py:195-200 | A quoted literal reads back as its value exactly when that holds no DEL; otherwise the line does not parse. |
| `Literals.ExpandsExactly` | workloadctl/lib/cmd_catalog.py:91-92 | The replacement template refuses a literal exactly when the value holds a control character other than tab and the line ends; otherwise it undoes every escape but the quote's. |
| `Literals.ReplaceReadsExactly` | workloadctl/lib/cmd_catalog.py:91-92 | A literal that went through the template reads back as its value exactly when that holds no backslash, no control character but tab, and no DEL. |
| `Literals.ReplacingShortens` | workloadctl/lib/cmd_catalog.py:91-92 | Whatever does read back is never longer than the value, and shorter if that held a backslash. |
| `Literals.RawReadsExactly` | workloadctl/lib/cmd_catalog.py:204-211 | A value without backslash and quote, written unescaped, reads back exactly when no character of it is illegal; otherwise the line does not parse. |
| `FieldEditor.RegularIsLens` | workloadctl/lib/cmd_catalog.py:79-95 | On a regular file a line put in reads back, keeps every other reading and leaves a file that parses. |
| `FieldEditor.RegularKept` | workloadctl/lib/cmd_catalog.py:79-95 | An edit keeps that condition for every field. |
| `FieldSetter.SetReadsBackExactly` | workloadctl/lib/cmd_catalog.py:79-95 | On a regular file a set reads back, keeps every other reading and leaves a file that parses, exactly when the value gets through the replaced or inserted line. |
| `FieldSetter.LensExactly` | workloadctl/lib/cmd_catalog.py:79-95 | A file takes every value a replaced line can carry exactly when the line the patterns find is the field's own one, or, where they find none, the field has room under a header they find or may add. |
| `FieldSetter.SecondSetWins` | workloadctl/lib/cmd_catalog.py:79-95 | A second set reads as if it were the only one. |
| `FieldSetter.SetsCommute` | workloadctl/lib/cmd_catalog.py:79-95 | Sets of different fields commute as readings. |
| `Lineage.NamesGetThrough` | workloadctl/lib/workload_lib.py:129-130 | A valid name gets through an inserted line always, and through a raw or replaced one exactly when it does not end in a line break. |
| `Lineage.Catalog.Init` | workloadctl/lib/cmd_catalog.py:225-270 | Creates the instance exactly when both names are valid, the template exists and the name is free; no template is refused half-way. |
| `Lineage.Catalog.Duplicate` | workloadctl/lib/cmd_catalog.py:281-329 | Creates the copy exactly when both names are valid, the source exists and parses, the name is free and the template does not refuse the bundle. |
| `Lineage.InitResolves` | workloadctl/lib/cmd_catalog.py:260-268 | An instance whose name and bundle get through reads its own name and resolves to its root bundle; any other does not parse. |
| `Lineage.ScratchResolves` | workloadctl/lib/cmd_catalog.py:196-217 | A scratch workload reads its own name and resolves to it, unless that ends in a line break; then it does not parse. |
| `Lineage.DuplicateResolves` | workloadctl/lib/cmd_catalog.py:317-325 | A copy reads its name and resolves to whatever its source resolves to exactly when name and bundle get through. |
| `Lineage.NamedBundleSpoils` | workloadctl/lib/cmd_catalog.py:317-325 | Where the source's bundle is a valid name, a copy is never refused, and spoiled exactly when its name or that bundle ends in a line break and replaces a line. |
| `Lineage.EveryDescendantResolves` | workloadctl/lib/cmd_catalog.py:196-327 | After every run of init, scratch, duplicate and removal, a workload's file parses, reads its own name and resolves to its first ancestor's bundle exactly when no command on its line of descent wrote a name or bundle that does not get through. |
| `Lineage.PlainRunsResolve` | workloadctl/lib/cmd_catalog.py:196-327 | In a run whose names and bundles do not end in a line break, and whose templates redirect a namesake only to values a replaced line can carry, no workload is ever spoiled. |
| `Lineage.RootIsItsBundle` | workloadctl/lib/workloadctl_core.py:296-310 | The first ancestor resolves to its bundle exactly when it is not spoiled, and has another name or a template that does not redirect it. |
| `Lineage.BrokenName` | workloadctl/lib/workload_lib.py:129-130 | `a` with a line break is a valid name; a scratch workload of that name and a copy under it do not parse. |
| `Drift.CompareGenerated` | workloadctl/lib/cmd_drift.py:117-145 | Content drift and missing files of one scan, and the generated paths. |
| `Drift.SweepOrphans` | workloadctl/lib/cmd_drift.py:147-161 | The orphans of one scan, or the error on one that cannot be read. |
| `Drift.CollectDrift` | workloadctl/lib/cmd_drift.py:116-163 | All differences over all scans. |
| `Drift.ReportedExactly` | workloadctl/lib/cmd_drift.py:116-163 | A difference is reported exactly when some scan witnesses it. |
| `Drift.NoDriftExactly` | workloadctl/lib/cmd_drift.py:116-163 | Nothing is reported exactly when every scan's trees agree. |
| `Drift.NoDriftMeansSameTree` | workloadctl/lib/cmd_drift.py:116-163 | With no empty generated text, silence means the same in-scope paths and equal normalised contents. |
| `Drift.UnitInScopeExactly` | workloadctl/lib/cmd_drift.py:95-106 | A name filter keeps exactly the units of that name and of names that continue it after a dash. |
| `Drift.FilteredSeccompIsSilent` | workloadctl/lib/run_files.py:324-326 | A filtered comparison never reports the workload's own seccomp profile. |
| `Update.VerifyOne` | workloadctl/lib/cmd_update.py:101-170 | A workload is rolled back exactly when its final check failed and an old image exists. |
| `Update.MaxWait` | workloadctl/lib/cmd_update.py:80-85 | The wait is the maximum of five seconds and every health wait. |
| `Update.VerifyAll` | workloadctl/lib/cmd_update.py:67-170 | One verdict per candidate, the images each is left on and the number of rollbacks, or the error of a rollback whose restart raises. |
| `Update.DoRollback` | workloadctl/lib/cmd_update.py:55-61 | Points every image reference with a rollback tag at it, in container order. |
| `Update.RollbackRestoresExactly` | workloadctl/lib/cmd_update.py:55-61 | A rollback puts every container back on its previous image exactly when each has a rollback tag and containers that share a reference share it. |
| `Update.ApplyVerdicts` | workloadctl/lib/cmd_update.py:278-288 | Folds the verdicts into the rows in place. |
| `Update.UpdateAll` | workloadctl/lib/cmd_update.py:345-361 | For distinct names: one row each saying what became of the workload, and the rollback count equals the rows marked rolled back. |
| `Update.TallyAddsUp` | workloadctl/lib/cmd_update.py:291-297 | The five counts add up to the rows. |
| `SecretExport.RoundTrip` | workloadctl/lib/cmd_secret.py:59-99 | Export then import with one passphrase gives back the plaintext, for every salt. |
| `SecretExport.AcceptedExactly` | workloadctl/lib/cmd_secret.py:74-99 | A blob with the header, however short, is opened exactly when it is a frame under this passphrase. |
| `SecretExport.FramesDiffer` | workloadctl/lib/cmd_secret.py:59-71 | Salt and ciphertext of a frame are unique. |
| `SecretExport.LegacyIsLegacy` | workloadctl/lib/cmd_secret.py:97-99 | A legacy export is never taken for the new form. |

## Left out

- Backup.Machine.Copy: interrupts fall at steps or in the two windows around a guarded body; other instants are not told apart.
- Restore.MergeExactly: what comes of an entry laid over an old symlink is not modelled, only that it happened (a restore then ends as `Followed`); the copy of an entry whose lstat failed is taken to succeed.
- FieldSetter.LensExactly: what a stray line does to the multi-line value it lands in is not followed, only that the field does not read back; a table extended by dotted keys after a header below it is taken to parse.
- FieldSetter.SetReadsBackExactly: a replaced value with a backslash, a quote, a `#` and a line break can spill into further lines that parse; such a file counts as one that does not.
- EgressDocument.ReadEntries: an object in place of a list is read as an empty one, not by its keys; a host pattern that is not text is compared as it prints.
- RecordRotation.RunKeepsInv: a reader that lists the directory before a rename and opens a file after it, and a compression that logrotate abandons for good, are not modelled.
- Drift.CollectDrift: globs and text normalisation are inputs; the policy documents under /run are compared by the same equality and are not modelled separately.
- The SELinux module sweep of cleanup, which is a set difference.
- JSON and terminal output, argument parsing, and the messages of errors; the validators' errors are constructors, not texts.
- Regular expressions, except where a pattern decides a property; Unicode case mapping; JSON text encoding.
- The VM validators and renderers, which repeat the container ones with other keys.
- The check for symlinks that escape an archive's data tree, taken as a verdict.
- User namespaces, publish-spec parsing in `health`, static name resolution, and everything `diagnose` reports: easy members beside the ones proved here.
- systemctl, podman, openssl, tar and QMP themselves: each is an outcome.
