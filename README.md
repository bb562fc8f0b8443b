# oMigrate core, modelled in Dafny

oMigrate moves a podman container, or a whole pod, from one host to another. It
reads the container's create command and its inspect output, then transfers the
parts the container needs: the network, the env file, the image, the secrets
and the volume backups. It creates the container on the destination over SSH.
For a pod, it creates the members in dependency order, following their
`--requires` options. This project models the deterministic core of the script
`oMigrate.py`. Every podman reply, SSH reply, local command output, file listing
and operator answer is a parameter of the model.

- `text.dfy` (module `Text`): the string primitives the script relies on.
  - `str.replace` is a leftmost, non-overlapping replace-all.
  - `re.sub('.*X', '')` drops every line up to and through its last `X`.
  - `re.sub(' .*', '')`, `re.sub(',.*', '')` and `re.sub('_[0-9].*', '')` cut every line at its first match.
  - `^\S+ ` drops the first token.
  - The module also covers `split`, `join` and `strip`.
- `commands.dfy` (module `Commands`): the create command and what is read out of it.
  - The create command is rebuilt from `podman container inspect` output (`funcGetCntCreateCmd`).
  - The option values read from it are the network, the `--name`, the `--requires` list, the env-file path and its directory, and the secret names.
- `archives.dfy` (module `Archives`): archive files.
  - Volume backup names (`funcVolumeBackup`).
  - The volume name recovered from them at import time (`funcVolSendRestore`).
  - Image archive names (`funcImageSync`).
- `inspect.dfy` (module `Inspect`): reading the replies.
  - Remote replies (`funcSftpCmdRS`, `funcSftpCmdRL`).
  - The remote existence check (`funcContainerExistRemote`).
  - Mount-list parsing (`funcGetCntVolName`, `funcGetPodVolName`).
  - Pod-member parsing (`funcGetPodContainers`).
- `sync.dfy` (module `Sync`): the decisions made for one container.
  - Whether the create on the destination succeeded (`funcSyncContainer`).
  - Whether to skip the image transfer (`funcImageSync`).
  - The env-file checks (`funcSyncContainerEnvFile`).
  - The secret checks and the secret loop (`funcSyncContainerSecret`).
- `network.dfy` (module `Network`): the network step (`funcSyncNetwork`).
  - The class `NetworkMemo` holds the script's one global slot `vGlobNetworkName`.
- `scheduler.dfy` (module `Scheduler`): the pod scheduler.
  - The requirement queue `name:flag:0:required` built by `funcPodCntRequire`.
  - The loop of `funcSyncPodContainers`.
  - A function definition (`Visit`, `Outer`, `Pass`, `Schedule`) states what one visit, one pass and the whole loop do.
  - The class `PodScheduler` holds the global queue and the destination. Its loops are proved to compute exactly those functions.

Three of the properties below are about the shape of the scheduler loop, and all three are proved:
- The `for` loops walk a list that their body shrinks. So removing the entry under the index skips the next entry (`RemovalSkipsNext`).
- The loop has no progress guard. Two pod members that both require a container already on the destination never leave the queue, so the loop never ends (`TwoFlaggedStuck`). One path to that state: the queue `web:1:0:db`, `api:1:0:db`, `db:0:0:None`.
  - The first pass creates `db` while visiting `web`.
  - Every later pass removes nothing. The "already on the destination" removal compares the bare name `db` with whole entries.
- A flagged entry is visited in the direct branch only when it is alone in the queue (`SoleEntryMigrated`).

Some further observations about the script, which the model follows:
- The network step remembers a single network, in the global `vGlobNetworkName` (oMigrate.py:69, 775-796). A container on another network queries the destination again (`AlternatingNetworksQueryAgain`).
- Every operator decision goes through the console prompt `funcYesNo` (oMigrate.py:102). The model takes each answer as a parameter.
- The `while` loop at oMigrate.py:965 has no progress guard (`TwoFlaggedStuck`).
- The removal of a created requirement at oMigrate.py:1013-1016 matches queue entries by prefix (`PassCrashesOnPrefixNames`).

## Model

| member | source | states |
|---|---|---|
| Commands.EscapeDollars | oMigrate.py:337 | after replacing `$` by `\$`, every `$` in the text has a backslash right before it |
| Commands.UnbracketShape | oMigrate.py:330-331 | the stripped line holds no `[` and no `]` once both are removed |
| Commands.UnbracketPrinted | oMigrate.py:330-331 | a printed one-element list `[cmd]` with its newline is read back as `cmd` |
| Commands.FinishShape | oMigrate.py:334-345 | dropping ` --detach`, quoting `sh -c` and escaping `$` bring in no bracket; the result has every `$` escaped and ends with `"` whenever it holds `sh -c` |
| Commands.FinishUnchanged | oMigrate.py:334-345 | a command with no `h` and no `$` is returned unchanged by the finishing steps |
| Commands.CreateCommandShape | oMigrate.py:329-345 | the create command handed to the destination holds no `[` or `]`, has every `$` escaped, and ends with `"` whenever it holds `sh -c` |
| Commands.RunRewriteReachesArguments | oMigrate.py:333 | for any program holding no `run` (such as `podman` or `/usr/bin/podman`), the `run` to `create` rewrite changes the subcommand and also every `run` inside the arguments |
| Commands.RewriteLeavesNoRun | oMigrate.py:333 | for every input, no `run` survives the replace-all |
| Commands.RewriteBeforeFinish | oMigrate.py:329-334 | the text handed to the ` --detach` removal and the later steps holds no `run`: every `run` of the bracket-free line was replaced before ` --detach` is removed |
| Commands.RunNamedRewrite | oMigrate.py:333 | for `PROGRAM run --name run<SUFFIX> ...` the rewrite produces `--name create<SUFFIX>` |
| Commands.RunNameRenamed | oMigrate.py:329-345 | as written, a container named `run<SUFFIX>` is recreated under the name `create<SUFFIX>` |
| Commands.RunToCreateKeepsArguments | oMigrate.py:333 | the corrected rewrite, after a program path without spaces, turns ` run ` into ` create ` and keeps all arguments unchanged |
| Commands.RunNamedRewriteFixed | oMigrate.py:333 | the corrected rewrite of `PROGRAM run --name run<SUFFIX> ...` keeps the argument `--name run<SUFFIX>` |
| Commands.RunNameKept | oMigrate.py:329-345 | with the corrected rewrite the container keeps its name `run<SUFFIX>` |
| Commands.CreateCommandFixedShape | oMigrate.py:330-345 | the corrected rewrite keeps the no-bracket and escaped-`$` guarantees |
| Commands.NetworkNameOf | oMigrate.py:770-771 | a one-line command naming its network once yields exactly that network |
| Commands.ContainerNameOf | oMigrate.py:1113-1114 | a one-line command giving `--name` once yields exactly that name |
| Commands.RequiredNamesOf | oMigrate.py:1139-1140 | a one-line command giving `--requires` once yields exactly that comma-separated list |
| Commands.EnvDirIsDirName | oMigrate.py:598-609 | for an env-file path starting with `/`, the directory found is the path without its last component (`/` for a file at the root) |
| Commands.EnvDirNeedsSlash | oMigrate.py:601-607 | a path without any `/` has no directory: the second `del` raises |
| Commands.SecretNames | oMigrate.py:672-677 | the loop collects, in order, one name for every ` --`-separated piece holding `secret `, and no name holds a comma |
| Commands.SecretOfOption | oMigrate.py:674-676 | the piece `secret NAME,OPTIONS`, or `secret NAME` ending the piece, names the secret NAME |
| Archives.JoinPathShape | oMigrate.py:478 | `os.path.join` of a non-empty directory and a relative file puts exactly one `/` between them |
| Archives.VolumeArchives | oMigrate.py:475-483 | one archive per volume, in order, each `dir/prefix_name_date.tar` |
| Archives.BackupVolumes | oMigrate.py:470-490 | the backup loop gives the archive list exactly when every export succeeds; otherwise the run ends |
| Archives.ArchivePathShape | oMigrate.py:478 | a volume archive path is the directory, `/prefix_`, and `name_date.tar`, all on one line |
| Archives.ArchiveTail | oMigrate.py:576 | dropping through the last `/prefix_` of a volume archive leaves `name_date.tar` |
| Archives.VolumeNameRoundTrip | oMigrate.py:576-577 | the name recovered from `dir/prefix_name_yyyymmdd.tar` is `name` whenever `name` has no `_` followed by a digit |
| Archives.VolumeNameCut | oMigrate.py:577 | a name holding `_<digit>` is recovered only up to its first such pair |
| Archives.VolumeNamesCollide | oMigrate.py:576-577 | the volumes `data` and `data_1` are both imported into `data` |
| Archives.VolumeNameRoundTripExact | oMigrate.py:576-577 | the corrected recovery, which removes exactly the `_yyyymmdd.tar` the backup added, gives back every volume name |
| Archives.ImportNames | oMigrate.py:575-578 | the import loop uses one recovered name per archive, in order |
| Archives.ImportCommandRoundTrip | oMigrate.py:575-578 | the `podman volume import` command built for a backup archive names the volume the archive was made from, when the name holds no `_<digit>` |
| Archives.BackupImportRoundTrip | oMigrate.py:470-578 | backing up and importing restores each volume under its own name when no name holds `_<digit>` |
| Archives.SanitiseShape | oMigrate.py:517-519 | the sanitised image reference has the original length, holds `_` where the original held `.`, `/` or `:` and the original character elsewhere, and holds none of `.`, `/`, `:` |
| Inspect.CommandReply | oMigrate.py:241-250 | the reply text is `OK` exactly when the error channel reports 0; the status is then the exit status, and otherwise the error code |
| Inspect.LinesReplyShape | oMigrate.py:261-277 | a successful reply holds no newline and carries the exit status; a failed one carries the error code and starts with the error prefix |
| Inspect.CleanPlainLine | oMigrate.py:272-274 | a plain output line is read back without its newline and otherwise unchanged |
| Inspect.ExistRemoteListedFirst | oMigrate.py:305-317 | a container listed first on the destination is found: the run stops outside loop mode, and the check reports `1` in loop mode |
| Inspect.ExistRemoteOnlyFirstLine | oMigrate.py:309-321 | a listing that starts with another name reports the container absent, whatever lines follow |
| Inspect.ExistRemoteEmptyListing | oMigrate.py:309-321 | an empty listing (the reply `None`) reports the container absent |
| Inspect.VolumeOptionIsDashV | oMigrate.py:357 | the test for `--volume` or `-v` is the same as testing for `-v` alone |
| Inspect.VolumeNamesIn | oMigrate.py:368-373 | one volume name per mount row, in order |
| Inspect.GetVolumeNames | oMigrate.py:357-378 | the parsing is skipped (`None`) when there is no volume option and fails when there is no inspect output; otherwise the loop computes the names of all mount rows |
| Inspect.SplitJoinRows | oMigrate.py:366 | mount rows without the separator `} {` are split back apart after being joined |
| Inspect.MountRowName | oMigrate.py:370-371 | a row `<pre>volume <name><post>` naming its volume once yields `name` |
| Inspect.VolumeNamesOfRows | oMigrate.py:368-373 | rows that each name their volume once yield exactly those names |
| Inspect.VolumeNamesRoundTrip | oMigrate.py:366-373 | mount rows joined as podman prints them give back exactly their volume names, in order |
| Inspect.GetPodMembers | oMigrate.py:883-895 | no output stops the run; otherwise the loop computes the non-infra member names of all rows |
| Inspect.PodMemberShape | oMigrate.py:888-890 | a member name holds no space and no newline |
| Inspect.PodMembersShape | oMigrate.py:887-893 | the names kept hold no space, no newline and no `infra` |
| Inspect.PodMemberKept | oMigrate.py:892-893 | a row whose name does not hold `infra` contributes its name |
| Inspect.PodMembersComplete | oMigrate.py:887-893 | every row whose name does not hold `infra` contributes its name |
| Inspect.PodMembersSound | oMigrate.py:887-893 | every name kept is the name of some row |
| Inspect.PodMemberOf | oMigrate.py:888-890 | a row `<id> <name><post>`, with or without its newline, yields `name` |
| Sync.CreateResultOfCommand | oMigrate.py:392-405 | the container is created exactly when both channels report 0; outside loop mode any failure stops the run; in loop mode the failure text is handed back |
| Sync.ImageSource | oMigrate.py:500-502 | the loop keeps the last output line, stripped; there is no image source when there is no output |
| Sync.ImageSync | oMigrate.py:510-539 | the migration directory gains a file only on a transfer, and that file is the new dated archive; in sync, skipped or failed, the directory is unchanged |
| Sync.ImageInSyncDoesNothing | oMigrate.py:510-511 | when the local image Id equals the remote reply, nothing is saved, sent or loaded |
| Sync.ImageArchiveSkips | oMigrate.py:523-539 | an existing dated archive skips save, send and load |
| Sync.ImageSyncOnce | oMigrate.py:523-539 | one image synced twice on one day is transferred at most once |
| Sync.ImageArchivesShared | oMigrate.py:517-523 | two image references that differ only in `.`, `/` and `:` share one archive file |
| Sync.EnvFileSentOnlyIfMatching | oMigrate.py:615-648 | the env file is sent only when the directory is configured and matches, the local file exists, and the remote test reports `1` |
| Sync.EnvFileByDirectory | oMigrate.py:619-654 | for `--env-file <absolute path>`: the run stops exactly when the file's directory is not the configured one or the local file is missing; nothing is sent when the remote test reports `0` |
| Sync.SyncSecrets | oMigrate.py:705-747 | the secret loop computes the sends, creates and stop that the definition of the loop gives |
| Sync.SecretLoopSends | oMigrate.py:707-715 | the loop only appends to the list of sent secrets, and only secrets of the command whose directory test answered `0` |
| Sync.SecretLoopCreates | oMigrate.py:712-743 | the loop only appends to the list of created secrets, and only secrets whose directory test answered `0` and whose create returned status 0 |
| Sync.SecretLoopAllCreated | oMigrate.py:707-743 | when the directory test answers `0` and every create succeeds, every secret is sent and created, in order |
| Sync.SecretLoopStopped | oMigrate.py:721-747 | once the run has stopped, no further secret is handled |
| Sync.SecretConflict | oMigrate.py:721-743 | a failed create while the remote directory exists: the file was sent, the secret is not created, and the run goes on exactly when the reply says "secret name in use" and the operator keeps the existing secret |
| Sync.SecretDirMissingStops | oMigrate.py:744-747 | a directory test answering `1` stops the run with nothing sent or created |
| Sync.SecretOtherAnswerSkipped | oMigrate.py:709-712 | any other directory-test answer skips the secret and changes nothing |
| Sync.SecretConflictKept | oMigrate.py:721-732 | after a name clash the operator keeps, the loop goes on with the next secret |
| Sync.SecretLoopKeepsConflicts | oMigrate.py:707-743 | when every secret is either created or kept after a name clash, the loop never stops and sends every secret, in order |
| Sync.SecretMissingSendsNothing | oMigrate.py:689-704 | a missing local secret file leads to the operator's choice between skipping and stopping; nothing is sent |
| Sync.SecretSyncSendsNamed | oMigrate.py:666-747 | every secret sent or created is named in the command, and it passed the directory test; a created secret also returned status 0 |
| Network.NetworkMemo.constructor | oMigrate.py:69 | the network slot starts empty |
| Network.NetworkMemo.Sync | oMigrate.py:763-831 | one network step issues the remote commands, updates the slot and reaches the outcome that the network decision defines |
| Network.RememberedNetworkIsQuiet | oMigrate.py:776-829 | a network equal to the remembered one issues no remote command and no prompt, and leaves the slot unchanged, whatever the replies and answers |
| Network.ContinuingRemembers | oMigrate.py:789-827 | every path that uses a network and does not stop the run leaves that network remembered |
| Network.NetworkStopsWhen | oMigrate.py:789-823 | the run stops exactly when reuse of an existing network is declined, or when a requested create does not answer with the network's name |
| Network.NetworkIssuesQueryFirst | oMigrate.py:776-816 | remote commands are issued only for a network that is not remembered: the existence query first, then at most the create |
| Network.SecondContainerQuiet | oMigrate.py:776-829 | a second container on the same network, after a first that went through, is handled without any remote command |
| Network.AlternatingNetworksQueryAgain | oMigrate.py:776-796 | the slot holds one network only: a container on another network queries the remote again |
| Network.NetworkOfCommand | oMigrate.py:767-773 | for a command naming its network once, the network remembered afterwards is exactly that network |
| Scheduler.RequireQueueSome | oMigrate.py:1134-1147 | a queue is built exactly when every member's create command could be read |
| Scheduler.RequireQueueExact | oMigrate.py:1134-1147 | one entry per member, in order: `name:1:0:<required>` when the command holds `--requires `, `name:0:0:None` otherwise |
| Scheduler.RequireQueueGrows | oMigrate.py:1136-1147 | each member read appends exactly its own entry |
| Scheduler.PodScheduler.constructor | oMigrate.py:71 | the queue starts empty, with the destination as given and nothing started |
| Scheduler.PodScheduler.BuildQueue | oMigrate.py:1130-1147 | the loop appends the queue for the members, or fails when a member's create command cannot be read; the destination is unchanged |
| Scheduler.EntryRoundTrip | oMigrate.py:969-974 | an entry built from colon-free fields splits back into its name, flag and required list |
| Scheduler.RequireEntryParses | oMigrate.py:969-974 | a member's entry reads back as its name, its flag and the containers it requires |
| Scheduler.RemoveFirst | oMigrate.py:1040 | `list.remove` takes exactly one copy of a present element and leaves a list without it unchanged |
| Scheduler.RemoveFirstAt | oMigrate.py:1040 | the element removed is the first occurrence |
| Scheduler.Matching | oMigrate.py:1013 | the filter keeps exactly the queue entries that start with the name: every entry it yields starts with the name, and every entry that starts with the name is yielded |
| Scheduler.MatchingTwo | oMigrate.py:1013 | two queue entries starting with the name leave at least two entries in the filtered list |
| Scheduler.MatchingOnly | oMigrate.py:1013 | when exactly one entry starts with the name, the filter yields that entry alone |
| Scheduler.DropByPrefix | oMigrate.py:1013-1016 | a removal that succeeds removes exactly one queue entry |
| Scheduler.DropByPrefixSole | oMigrate.py:1013-1016 | with exactly one entry starting with the name, that entry is the one removed |
| Scheduler.DropByPrefixNeedsSole | oMigrate.py:1013-1016 | the removal succeeds only when exactly one queue entry starts with the name, and then it removes that entry; with none or several, `remove` raises |
| Scheduler.NameFieldOf | oMigrate.py:969-971 | the text before the first colon of an entry is the container name |
| Scheduler.DropByNameExact | oMigrate.py:1013-1016 | the corrected removal takes the first entry of that container and keeps every other entry, in order |
| Scheduler.DropByNameAbsent | oMigrate.py:1013-1016 | with no entry for the container, the corrected removal changes nothing |
| Scheduler.PrefixNamesCrash | oMigrate.py:1013-1016 | as written, with entries `name` and `name<more>` queued, removing `name` raises; the corrected removal takes `name` alone |
| Scheduler.PrefixNameTakesOther | oMigrate.py:1013-1016 | as written, with only `name<more>` queued, removing `name` takes the other container's entry; the corrected removal leaves it |
| Scheduler.LoopReplyText | oMigrate.py:394-405 | in loop mode a successful create reports `OK` |
| Scheduler.SuccessText | oMigrate.py:999-1002 | the text `OK` passes the `OK` test and not the dependency test |
| Scheduler.RequirementStep | oMigrate.py:985-1023 | one required container: the queue only loses entries, the requirement list never grows, and the destination only gains containers; a create answered "OK" whose volume step fails stops the run |
| Scheduler.Requirements | oMigrate.py:981-1023 | the inner loop only removes queue entries and only adds to the destination |
| Scheduler.Visit | oMigrate.py:969-1040 | visiting one entry only removes queue entries; a failed volume step stops the run |
| Scheduler.Outer | oMigrate.py:967-1043 | a pass over the queue only removes entries |
| Scheduler.RepeatOnce | oMigrate.py:965 | one turn of the `while` on a non-empty queue: a stop or crash ends the loop there, otherwise the loop goes on from the new state |
| Scheduler.PodScheduler.RunRequirementStep | oMigrate.py:985-1023 | the body of the inner loop updates the queue, the destination, the started list and the requirement list as the requirement step defines |
| Scheduler.PodScheduler.RunRequirements | oMigrate.py:981-1023 | the inner loop, over a shrinking requirement list, ends in the state the inner-loop definition gives |
| Scheduler.PodScheduler.RunVisit | oMigrate.py:969-1040 | one visit of the outer `for` ends in the state the visit definition gives |
| Scheduler.PodScheduler.RunPass | oMigrate.py:967-1043 | the outer `for`, over a shrinking queue, ends in the state the pass definition gives |
| Scheduler.PodScheduler.RunOnePass | oMigrate.py:965-1043 | after one pass, what is left of the schedule equals the schedule from the state before it |
| Scheduler.PodScheduler.Migrate | oMigrate.py:961-1043 | the `while` loop, given at most `passes` passes, ends in the state and with the ending that the schedule definition gives |
| Scheduler.DirectVisit | oMigrate.py:1024-1040 | an entry in the direct branch is created whatever the create replies; when its volume step completes it is started and taken off the queue in that visit, and when the volume step fails the run stops with the entry still queued and not started |
| Scheduler.SoleEntryMigrated | oMigrate.py:976-1040 | an entry alone in the queue whose volume step completes is migrated even when it is flagged, and the loop ends done |
| Scheduler.RemovalSkipsNext | oMigrate.py:967-1040 | two entries without requirements, the first's volume step completing: one pass migrates the first and skips the second |
| Scheduler.UnmetRequirementStays | oMigrate.py:999-1001 | a required container whose create reports that it cannot be used as a dependency stays queued, and the loop moves on |
| Scheduler.CreatedRequirementDequeued | oMigrate.py:1002-1016 | a required container created with status 0 joins the destination; when its volume step completes it is started and its entry leaves the queue (it being the only entry starting with that name), and when the volume step fails the run stops there |
| Scheduler.OtherReplyStops | oMigrate.py:1019-1023 | any other create reply for a required container stops the run |
| Scheduler.RequirementRestoreFails | oMigrate.py:1004-1007 | a required container whose create is answered "OK" but whose volume step fails stops the run, with the queue and the started list unchanged |
| Scheduler.RepeatEnds | oMigrate.py:965 | the loop reports done only with an empty queue and unfinished only with a non-empty one, and never grows the queue |
| Scheduler.ScheduleEnds | oMigrate.py:965-1043 | the schedule reports done only with an empty queue, is done at once on an empty queue, and never adds to the queue |
| Scheduler.RequirementsMet | oMigrate.py:985-990 | requirements already on the destination change nothing: the bare name is never a queue entry |
| Scheduler.OuterStuck | oMigrate.py:967-990 | a pass over flagged entries whose requirements are all on the destination changes nothing |
| Scheduler.StuckForever | oMigrate.py:965-990 | such a queue never shrinks, however many passes the loop is given |
| Scheduler.NoProgressForever | oMigrate.py:965 | a pass that changes nothing is repeated for as long as the loop runs |
| Scheduler.TwoFlaggedStuck | oMigrate.py:965-1043 | two members that both require containers already on the destination keep the loop running forever |
| Scheduler.PrefixQueueDrop | oMigrate.py:1013-1016 | with `name` and `name<more>` queued after the entry requiring `name`, the prefix removal finds two entries and raises |
| Scheduler.PassCrashesOnPrefixNames | oMigrate.py:1011-1016 | in a whole pass, creating `name` (its volume step completing) for the entry that requires it makes the pass raise when `name<more>` is also queued |

## Left out

- Console prompts (`funcYesNo`, `input`) are not modelled. Each operator answer is a boolean parameter.
- Printed messages, the disclaimer and the end message are not modelled. They produce no state.
- The SSH session, the SFTP transfers and local `subprocess` calls are not modelled. Their replies are parameters.
  - A reply is a status and the first output line.
  - The files already in the migration directory are a set.
  - The destination's containers are a set.
- `funcDateString` is not modelled: the date is an 8-digit parameter.
- `time.sleep` and the status polling in `funcStartContainer` and `funcStartPod` are not modelled. Their results are only reported.
- Parsing the stop output in `funcStopContainer` and `funcStopPod` is not modelled: the jobs ignore the result.
- Argument parsing and the job sequencing in `funcContainerJob` and `funcPodJob` are not modelled. They are a straight-line list of calls.
- Initialising and starting a container during the scheduler are recorded only as the container joining the `started` list. Their replies are only printed and they never stop the run.
- The volume step of a container in the scheduler (`funcVolSendRestore`) is an outside answer, `restore`. When it does not complete (an empty mount listing, a failed export), the script calls `exit(1)`; the model stops the run there. Which of its inner commands failed is not modelled.
- The `str()` rendering of the bytes line read by `funcGetCntVolName` is not modelled. The model reads the mount text as given.
- Python's `repr` quoting of the filtered list at oMigrate.py:1014-1015 is modelled for entries without quote characters only.
- Inspect.CommandReply: the `OSError` path, where the function prints and returns `None`, is not modelled.
- Inspect.ExistRemote: the loop flag is the string `"false"`/`"true"` in the script. It is a boolean here because every call passes one of those two.
- Sync.EnvFileSync: a local `test` that prints no line at all makes `vCmdData[0]` raise. The model takes the line as given.
- Sync.SecretSync: the local test output is read with `int()`, which raises on text that is not a number. The model takes the statuses as integers.
- Sync.ImageSync: a failed SFTP send of the image archive is not modelled. A failed save stops the run; a failed load is only reported.
- Scheduler.RequirementStep: the script checks the destination with `funcContainerExistRemote`, which compares the first listed name. The model tests membership in the destination set.
- Scheduler.Visit: the create command of each container is assumed readable in the scheduler. A `None` from `funcGetCntCreateCmd` there is not modelled.
- Archives.RecoverVolumeName: the prefix is spliced unescaped into a regular expression. The model covers prefixes without regular-expression metacharacters (`RegexLiteral`); a prefix holding one of `\ ^ $ | ? * + ( ) [ ] { } .` is not modelled.
- Scheduler.Schedule: the `while` loop has no bound in the script. The model gives it a number of passes, and `Unfinished` reports that passes ran out with entries left.
- `funcSyncPodEnvFiles`, `funcSyncPodSecFiles`, `funcPodSyncNetwork` and `funcSyncPodImages` are not modelled beyond the single-container steps. They only repeat those steps over the pod members.

## Findings

| source | as written | input that shows it | evidently intended | confidence | as-written member | corrected member |
|---|---|---|---|---|---|---|
| oMigrate.py:333 | every `run` in the create command becomes `create` | `podman run --name runner alpine` is recreated as the container `createner` | only the subcommand `run` becomes `create` | not executed | Commands.RunNameRenamed | Commands.RunNameKept |
| oMigrate.py:577 | the volume name is cut at the first `_` followed by a digit | volumes `data` and `data_1` are both imported into `data` | remove exactly the `_yyyymmdd.tar` the backup appended | not executed | Archives.VolumeNamesCollide | Archives.VolumeNameRoundTripExact |
| oMigrate.py:1013-1016 | a created requirement is removed from the queue by a `startswith` filter | pod members `web` (with `--requires db`), `db` and `db-backup`: creating `db` makes `remove` raise | remove the entry whose name field is the container's name | not executed | Scheduler.PassCrashesOnPrefixNames | Scheduler.DropByNameExact |

The corrected definitions (`Commands.CreateCommandLineFixed`, `Archives.RecoverVolumeNameExact`,
`Scheduler.DropByName`) stand beside the as-written ones. The rest of the model keeps the
script's own behaviour.
