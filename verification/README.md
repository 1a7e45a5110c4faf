# Verified models of the deployment platform's protocols

This project models the protocols, parsers and tree transformations of an internal deployment
platform in Dafny and proves what they promise. `dafny verify dfyconfig.toml` checks all of it.

| part | modules | the code it models |
|---|---|---|
| Runner jobs | `RunnerJobs`, `RunnerCancels`, `RunnerPolling` | the job table of the runner service, driven by guarded SQL statements, and the adapter that polls it |
| Agent gateway | `AgentRegistry`, `AgentGateway` | credentials, sessions, connections and subscribers, changed by one handler at a time |
| Release archives | `TarReader`, `TarFields`, `TarArchive` | the streaming reader that looks for `.env.example`, and the format it reads (ustar Interchange Format and pax Extended Header of IEEE Std 1003.1-2017) |
| Project settings | `ConfigTree`, `SecretPaths`, `ConfigRedaction`, `ConfigFlags`, `ConfigMerge`, `ConfigPatch`, `ConfigRoundTrip` | redacting a config for the client and merging a patch back |
| Secret store | `ProjectSecrets`, `SecretRoundTrip` | secrets replaced by references, and back |
| CI logs | `CiLog` | byte-range reads of a growing log, shown line by line |
| Artifact deploys | `DownloadTokens`, `ArtifactReleases`, `DeployedVersions`, `DeployRuns`, `DeployExclusion`, `DeployService`, `DeployResults`, `ReleaseDeletion` | the per-target lock, the end of a run, its tokens, the versions recorded on a target, and what may be deleted |
| Networks | `IpAddress`, `IpText`, `IpMatch`, `Allowlist` | address text, CIDR rules (RFC 4291, RFC 4632) and the allowlist file |
| Smaller cores | `ReplayWindow`, `LogTruncation`, `SseResume`, `SseIds`, `RateLimiter` | the nonce window, the stored end of a log, resumed event streams, the fixed window |
| Common | `Wrappers`, `Text`, `Numerals` | options, splitting text, numerals |

Code that changes state is a class whose methods change the same fields, or a method with the same
loop; each is proved against a function of the old state, and the properties are lemmas about that
function over every input or every run. Code made of expressions is functions.

## Where the code does less than one would think

Each of these is a proved lemma, with the exact condition under which the code does what is meant.

- A cancel that takes effect between a completion's read and its write is lost, the job ends `succeeded` (`CancelCanBeLost`); in every run a cancel is honoured exactly when no completion was overtaken so (`CancelHonouredExactly`). A cancel that read a waiting job answers `cancelled` and leaves no mark when the job starts before it writes (`CancelCanBeMissed`); in every run it leaves its mark exactly when the job neither started nor ended since the read (`CancelMarksExactly`).
- A log chunk that is stored with a number at or below one already shown is never shown (`LateChunk`, with a run in `ChunkZeroIsNeverShown`). After any moves a poll has shown every stored chunk exactly when none came so late (`PollShowsAllExactly`).
- The scan limit of the archive reader is applied per chunk: one chunking finds the file and another does not (`ChunkingDecides`). Past the limit this is so exactly when the bytes up to it hold the file (`CapMattersExactly`).
- The path of a pax header is looked for at line starts, and the first one is taken. A line inside the value of another record can be taken for it (`ACommentIsTakenForThePath`), an earlier path for the later one that overrides it (`AnOverriddenPathIsTaken`), and a path that holds a line end is cut. The path is read right exactly when the line that is taken says what the last path record says (`ReadsThePathExactly`).
- A secret of an environment whose name has a dot is neither redacted (`RedactedExactlyWithoutDots`) nor moved to the secret store (`StoredExactlyWithoutDots`), and a blank in a patch overwrites it (`BlankKeepsExactlyWithoutDots`): the dotted path leads elsewhere.
- A new secret of an environment that is named like a presence flag, `hasA`, is dropped (`NewSecretTakenExactly`), and so is every stored key of the config itself that looks like one (`FlagLikeKeyIsDropped`).
- A `null` where a listed secret's parent object would be comes back from a save as an object (`SaveBackIsIdentity`, `SaveBackFillsNull`).
- A reference is not recognized when an environment's name holds a line end, and then is not resolved (`ResolvingUndoesPersisting`, `ReferableExactly`); saving the project again stores the reference over the secret (`LineEndLosesTheSecret`; `SavingAgainExactly` says when a second save changes nothing).
- A step's partial last line is never shown when the step turns `skipped` (`SkippedInALine`) or the watch ends without a last listing in which the step is over (`EndsInALine`): `_finalFlush` ignores a listing that fails. Every byte read is shown exactly when the log was ended without a skip, or that line is blank (`StepReader.Watch`).
- The `finally` of a deploy call can delete the reservation of a later call, and then two deploys run on one target (`TwoDeploysOnOneTarget`; `ErasingIsWhatBreaksIt` says exactly when). It cannot if a result or a timeout never ends a run before the call that started it has returned, and a call that ends its run itself returns before anything else happens (`TimelyRunsAreExclusive`).
- A component's history of versions is cut to ten, so from the twelfth different version on it is not complete (`HistoryIsRecent`), and an agent that reports another previous version than the recorded one makes it lose the version that was installed (`InstalledIsListedExactly`).
- A download that names the wrong agent still uses up one of the token's five uses; a use is counted exactly when the token is usable for the artifact, whoever asks (`TokenTable.Consume`).
- The nonce table is used after the clock was read; if a later request overtakes in between, a nonce is accepted twice (`OvertakingAllowsReplay`). Under any clock a request is replayed exactly when it, or an accepted one before it, came after the retention of the last one that took the nonce (`TakenAgainExactly`, `NoReplayExactly`).
- The fixed window of the rate limiter lets through up to twice the limit less one in a time as long as the window, and does in a run (`ARunMeetsTheBound`).
- A blank `Last-Event-ID` is the number 0 and skips the first line; of headers that are not the number of a line it is the only kind that does (`BlankIdSkipsTheFirstLine`). No browser sends one.
- The allowlist's cap of 256 entries is one of `add`, not of `load`: what is loaded is within it exactly when the file has no more different rules (`LoadedWithinCapExactly`, with a file in `TooManyAreLoaded`), and adding never goes past it (`Allowlist.Serve`).

## Model

| member | source | states |
|---|---|---|
| RunnerJobs.RowsStayOk | runner-cloud/src/index.ts:405-443 | in every run of statements `completed_at` is set exactly on terminal rows, and lease and start times stay within the expiry and lease bounds |
| RunnerJobs.TerminalRowsNeverChange | runner-cloud/src/index.ts:405-415 | no statement ever changes a terminal row |
| RunnerJobs.RecoveryIsComplete | runner-cloud/src/index.ts:405-416 | after recovery no stale pending, leased or running row is left, and recovering again at the same time changes nothing |
| RunnerJobs.BoundedLifetime | runner-cloud/src/index.ts:405-416 | recovery after created_at + timeout + 750 s makes the job terminal, and nothing later changes it |
| RunnerJobs.LifetimeBoundIsTight | runner-cloud/src/index.ts:432-443 | at the bound itself a job leased and started at the last moments is still running |
| RunnerJobs.StartedAtMostOnce | runner-cloud/src/index.ts:646-651 | over any run a job is started at most once |
| RunnerJobs.LeasesApart | runner-cloud/src/index.ts:432-443 | with a clock that does not go back, two leases of one job are more than 60 s apart |
| RunnerJobs.CancelIsFinal | runner-cloud/src/index.ts:601-620 | with atomic handlers a cancelled job never ends as succeeded or failed |
| RunnerJobs.CancelRace | runner-cloud/src/index.ts:604-616 | a cancel written after its read leaves its mark exactly when the status is still of the kind that was read |
| RunnerCancels.CancelHonouredExactly | runner-cloud/src/index.ts:673-681 | over any run of statements, with handlers of completions and cancels in flight, a job's cancel is honoured exactly when no completion read it unmarked and was then overtaken by a cancel |
| RunnerCancels.MarkedSince | runner-cloud/src/index.ts:611-617 | a job is marked as cancelled exactly when it was before or a cancel took effect since |
| RunnerCancels.ReadEarlier | runner-cloud/src/index.ts:604-605 | what a handler in flight goes by is what its own read saw |
| RunnerCancels.CancelCanBeLost | runner-cloud/src/index.ts:673-681 | a completion reads, a cancel reads and writes, the completion writes: the job ends as succeeded |
| RunnerCancels.CancelCanBeMissed | runner-cloud/src/index.ts:604-620 | a cancel reads a leased job, the job starts, the cancel writes: it answers that the job is cancelled, and the job runs on unmarked |
| RunnerCancels.CancelMarksExactly | runner-cloud/src/index.ts:604-620 | over any run a cancel that read an unfinished job marks the row exactly when the job neither started nor ended since the read, and else changes nothing |
| RunnerCancels.CompletedExactly | runner-cloud/src/index.ts:673-681 | over any run a completion that takes effect leaves `succeeded`, code and no error exactly when its read saw no cancel and the code is 0, `failed` with its error when it saw none and the code is another, and `cancelled` when it saw one |
| RunnerJobs.OldestPending | runner-cloud/src/index.ts:436-441 | the row a lease picks is a leasable one of the agent, and none is older; none is picked only if there is none |
| RunnerJobs.JobStore.CreateJob | runner-cloud/src/index.ts:552-583 | adds one pending row with the queue expiry, and changes no other |
| RunnerJobs.JobStore.RecoverStaleJobs | runner-cloud/src/index.ts:405-416 | the four statements together are one recovery of every row |
| RunnerJobs.RecoveredRow | runner-cloud/src/index.ts:405-416 | what recovery makes of a row, for each status and time, and that it leaves every other row |
| RunnerJobs.JobStore.LeaseJob | runner-cloud/src/index.ts:418-445 | recovers, then leases the oldest leasable job for 60 s |
| RunnerJobs.JobStore.StartJob | runner-cloud/src/index.ts:646-651 | starts the job exactly when its lease is held by this agent and not over |
| RunnerJobs.JobStore.CompleteJob | runner-cloud/src/index.ts:669-682 | a running job of this agent ends as `cancelled` after a cancel request, else as `succeeded` on exit code 0 and `failed` on any other, with code, error and time stored; any other row is refused and stays |
| RunnerJobs.JobStore.CancelJob | runner-cloud/src/index.ts:601-620 | a waiting job is cancelled, a running one is asked to stop, a terminal one is refused |
| RunnerPolling.RunnerAdapter.EmitNewLogs | backend/src/adapters/CloudflareRunnerAdapter.js:65-74 | emits the lines of exactly the rows numbered after the last one emitted, in order |
| RunnerPolling.RunnerAdapter.EmitLines | backend/src/adapters/CloudflareRunnerAdapter.js:69-72 | one tagged line per piece of a chunk that is not empty |
| RunnerPolling.PieceByPiece | backend/src/adapters/CloudflareRunnerAdapter.js:69-69 | a content is cut at each line feed, which takes one carriage return before it along |
| RunnerPolling.TaggedMeans | backend/src/adapters/CloudflareRunnerAdapter.js:70-72 | a piece that is not empty is a line behind the name of its stream, an empty one is none |
| RunnerPolling.PollCatchesUp | runner-cloud/src/index.ts:586-599 | after a poll every chunk stored so far was emitted once, in order |
| RunnerPolling.AlwaysInStep | runner-cloud/src/index.ts:653-667 | in every run in which no chunk comes late, retried or not, the emitted rows are the stored ones up to the last poll |
| RunnerPolling.UpwardIsNeverLate | runner-cloud/src/index.ts:653-667 | an agent that numbers its chunks upward, and may repeat any, is never late |
| RunnerPolling.PostMeans | runner-cloud/src/index.ts:653-667 | a chunk is stored, once for its number, exactly when number and length are valid and the agent runs the job |
| RunnerPolling.TerminalStoresNothing | runner-cloud/src/index.ts:661-664 | once a job is terminal no chunk is stored |
| RunnerPolling.TerminalPollIsComplete | backend/src/adapters/CloudflareRunnerAdapter.js:48-58 | a poll that sees a terminal status has emitted every chunk that was or ever will be stored exactly when none came late |
| RunnerPolling.LateChunk | backend/src/adapters/CloudflareRunnerAdapter.js:67-68 | after any moves a chunk that is stored is emitted by the next poll exactly when it is numbered after the last one emitted, and else by no later poll either |
| RunnerPolling.PollShowsAllExactly | backend/src/adapters/CloudflareRunnerAdapter.js:65-74 | after any moves a poll has emitted every stored chunk, once and in order, exactly when none came late |
| RunnerPolling.ChunkZeroIsNeverShown | backend/src/adapters/CloudflareRunnerAdapter.js:67-68 | a run in which chunk 0 is stored after chunk 1 was emitted, and never emitted whatever follows |
| AgentRegistry.LoadedIsOk | idp-agent-gateway/src/gateway.js:165-189 | whatever the file holds, the loaded records have valid ids, valid hashes and sanitized details |
| AgentRegistry.LoadMeans | idp-agent-gateway/src/gateway.js:165-189 | which elements of the file are taken and which record each becomes, the last one of an id holding |
| AgentRegistry.IdsMean | idp-agent-gateway/src/gateway.js:53-55 | which texts are agent ids |
| AgentRegistry.HashesMean | idp-agent-gateway/src/gateway.js:172-172 | which texts are credential hashes |
| AgentRegistry.DetailsMean | idp-agent-gateway/src/gateway.js:71-78 | which details are kept, and how far |
| AgentRegistry.SerializeRegistry | idp-agent-gateway/src/gateway.js:191-202 | what is written loads as the same registry |
| AgentGateway.Gateway.SessionsAreCurrent | idp-agent-gateway/src/gateway.js:348-387 | sessions and handshaken connections are in one-to-one correspondence, and each carries the credential the registry holds now |
| AgentGateway.Gateway.PersistRegistry | idp-agent-gateway/src/gateway.js:204-223 | a forced write that succeeds puts the registry's credentials into the file; one that fails leaves the file |
| AgentGateway.Gateway.VerifyAgentCredential | idp-agent-gateway/src/gateway.js:225-238 | accepts exactly the hash the registry holds for a valid id |
| AgentGateway.Gateway.IssueCredential | idp-agent-gateway/src/gateway.js:240-260 | the new credential replaces the old one and closes the agent's connections, or a failed write leaves everything |
| AgentGateway.Gateway.RevokeCredential | idp-agent-gateway/src/gateway.js:262-275 | the record goes and the agent's connections are closed, or a failed write leaves everything |
| AgentGateway.Gateway.CloseAgentConnections | idp-agent-gateway/src/gateway.js:277-286 | exactly this agent's connections and session are closed and forgotten |
| AgentGateway.Gateway.AcceptAgent | idp-agent-gateway/src/gateway.js:288-315 | a new connection carries the credential that is current |
| AgentGateway.Gateway.DetachAgent | idp-agent-gateway/src/gateway.js:375-387 | takes a connection out of every table; the session of another connection stays |
| AgentGateway.Gateway.OnHandshakeTimeout | idp-agent-gateway/src/gateway.js:288-315 | a connection without a handshake is closed, one with it stays |
| AgentGateway.Gateway.CompleteAgentHandshake | idp-agent-gateway/src/gateway.js:348-373 | the connection becomes its agent's session and the one it replaces is closed; a connection without a credential is closed |
| AgentGateway.Gateway.HandleAgentMessage | idp-agent-gateway/src/gateway.js:324-346 | a message is forwarded to exactly the subscribers of its id, and only from that id's current session; the connection is closed exactly by a message of the wrong kind or id, or a handshake with an old credential |
| AgentGateway.Gateway.SendCommand | idp-agent-gateway/src/gateway.js:482-486 | a command reaches exactly the current session of its agent, or is refused |
| AgentGateway.Gateway.CheckHeartbeats | idp-agent-gateway/src/gateway.js:396-410 | connections that missed too many pongs are closed, the others stay |
| AgentGateway.Gateway.HandleWebMessage | idp-agent-gateway/src/gateway.js:429-452 | one valid handshake registers the subscriber and is acknowledged, subscriptions then change within the limit, and exactly a message of the wrong kind, id or order closes the socket |
| AgentGateway.Gateway.AcceptWeb | idp-agent-gateway/src/gateway.js:412-427 | a new subscriber has no id and no subscriptions |
| AgentGateway.Gateway.OnWebHandshakeTimeout | idp-agent-gateway/src/gateway.js:415-418 | a subscriber without a handshake is closed, one with it stays |
| AgentGateway.Gateway.OnWebClose | idp-agent-gateway/src/gateway.js:412-427 | a closed subscriber is forgotten, and nothing else |
| AgentGateway.Gateway.Forward | idp-agent-gateway/src/gateway.js:454-460 | exactly the open subscribers of the agent get the event |
| AgentGateway.Serve | idp-agent-gateway/src/gateway.js:141-163 | every sequence of events of agents, subscribers and administrators, each at its own time and with writes that may fail, keeps all tables valid, so every session is current in every reachable state |
| AgentGateway.ServeUpgrade | idp-agent-gateway/src/server.js:188-199 | a connection is accepted exactly when the credential presented is the one the registry holds |
| TarReader.EnvExamplePathMeaning | backend/src/core/artifacts/envExample.js:38-41 | a path is accepted exactly when, without empty and `.` segments, it is `.env.example` or one folder above it, with either slash |
| TarReader.StepAppend | backend/src/core/artifacts/envExample.js:68-110 | a step that needs no more bytes does the same when more bytes follow |
| TarReader.ChunkingIrrelevant | backend/src/core/artifacts/envExample.js:112-117 | within the scan limit every chunking of a stream gives the result of the whole |
| TarReader.RetentionBounded | backend/src/core/artifacts/envExample.js:76-86 | less than 64 KiB is kept between chunks |
| TarReader.CapIsPerChunk | backend/src/core/artifacts/envExample.js:112-114 | past the limit the same bytes are read in one chunking and given up in another |
| TarReader.CapMattersExactly | backend/src/core/artifacts/envExample.js:112-114 | past the limit all chunkings agree exactly when the bytes up to the limit hold no result; then none finds one |
| TarReader.PastTheCap | backend/src/core/artifacts/envExample.js:112-114 | what any chunking finds past the limit is what the bytes up to the limit hold |
| TarReader.EnvExampleReader.Consume | backend/src/core/artifacts/envExample.js:68-110 | the loop ends, also on entries of size zero, and does what running the steps does |
| TarReader.EnvExampleReader.OnData | backend/src/core/artifacts/envExample.js:112-117 | one chunk advances the reader as feeding it does, and the limit settles it |
| TarReader.ReadEnvExample | backend/src/core/artifacts/envExample.js:49-123 | reading a list of chunks gives the specified result |
| TarArchive.ReadOctalOfField | backend/src/core/artifacts/envExample.js:26-29 | the size field of a written header reads as the size |
| TarFields.NumberFieldMeans | backend/src/core/artifacts/envExample.js:26-29 | white space, a sign, octal digits and anything behind them read as that number; without a digit the field is no number |
| TarFields.PathLineMeans | backend/src/core/artifacts/envExample.js:31-35 | a line is a path record exactly when it is digits, ` path=` and the value |
| TarArchive.HeaderIsRead | backend/src/core/artifacts/envExample.js:86-108 | a written header is taken as its type, size and effective name say |
| TarArchive.EntryIsRead | backend/src/core/artifacts/envExample.js:69-109 | a written entry is consumed whole: name entries set the next name, a wanted file settles, others are skipped with their padding |
| TarArchive.ReadingUndoesWriting | backend/src/core/artifacts/envExample.js:68-110 | a written archive reads as its list of entries says |
| TarArchive.ChunkingDecides | backend/src/core/artifacts/envExample.js:112-117 | an archive of which one chunking gives the file and another nothing |
| TarArchive.PaxPathOfRecords | backend/src/core/artifacts/envExample.js:31-35 | what is read from written extended header records, whatever their values hold, is the first path record's value up to its first line end, or a line before it that looks like one |
| TarArchive.ReadsThePathExactly | backend/src/core/artifacts/envExample.js:31-35 | the path read is the one the records give, that of the last path record, exactly when the first line that looks like a path is that of the only path record, whole, or says the same |
| TarArchive.ACommentIsTakenForThePath | backend/src/core/artifacts/envExample.js:31-35 | a valid comment record whose second line is taken for the path |
| TarArchive.AnOverriddenPathIsTaken | backend/src/core/artifacts/envExample.js:31-35 | two path records of which the first is taken and the second holds |
| TarArchive.ArchiveIsRead | backend/src/core/artifacts/envExample.js:86-108 | an archive of members named by ustar, pax or GNU long names reads as the first wanted member |
| TarArchive.FirstEnvExampleIsRead | backend/src/core/artifacts/envExample.js:38-41 | the first regular member read as a root or one-level `.env.example` of at most 64 KiB is what is read; without one the result is none; a member with clear records is read by its own name |
| SecretPaths.GetSecretFieldPaths | backend/src/secrets/secretRef.js:53-74 | lists the base paths, and for each environment those its override has |
| SecretPaths.SecretPathsApart | backend/src/secrets/secretRef.js:13-22 | no secret path leads through or to another |
| ConfigRedaction.RedactConfig | backend/src/api/projectSerialization.js:100-117 | deletes each listed path and sets its presence flag; nothing is left at a listed path or at a secret path of an environment whose name has no dot |
| ConfigRedaction.NothingSecretLeft | backend/src/api/projectSerialization.js:100-117 | for every config, in any order of the paths, the redacted config holds no value at a listed path or at a secret path whose environment's name has no dot |
| ConfigRedaction.RedactedExactlyWithoutDots | backend/src/api/projectSerialization.js:66-83 | an environment's secret is removed exactly when the environment's name has no dot |
| ConfigFlags.FlagSaysWhetherPresent | backend/src/api/projectSerialization.js:100-117 | for listed paths that keep apart each flag says whether the secret was there and not empty, as it was before redaction |
| ConfigFlags.PlainNamesKeepApart | backend/src/secrets/secretRef.js:53-74 | the listed paths of a config with plainly named environments keep apart |
| ConfigFlags.RedactedElsewhere | backend/src/api/projectSerialization.js:100-117 | a path apart from the listed ones and their flags is as it was |
| ConfigFlags.FlagsOfSecrets | backend/src/api/projectSerialization.js:78-83 | the flags of the base secrets, by name |
| ConfigFlags.FlagsAreNames | backend/src/api/projectSerialization.js:78-83 | a key looks like a presence flag exactly when it is the flag of a key that starts with a small letter |
| ConfigMerge.MergeProjectConfig | backend/src/api/projectSerialization.js:129-161 | merges the patch, replaces the wholesale keys and settles each secret path in turn; what that is at every path `ConfigPatch` says |
| ConfigPatch.PatchMeans | backend/src/api/projectSerialization.js:129-161 | for every patch and every path apart from the listed ones: a value of the patch that is no object is taken, what it says nothing of stays as stored, below a `ciConfig` or `artifactDeploy` object of the patch everything is as the patch has it, and below a value that is no object there is nothing |
| ConfigPatch.StripMeans | backend/src/api/projectSerialization.js:208-218 | what is merged: nothing at or below a key that looks like a flag, all below `ciConfig`, and every other value |
| ConfigPatch.SecretMeans | backend/src/api/projectSerialization.js:129-161 | at every listed place of a secret a text with something else than white space is taken, the token of a changed source goes, and a stored secret stays, exactly when no array of the patch is in its way |
| ConfigPatch.SourceMeans | backend/src/api/projectSerialization.js:29-46 | a new token is asked for exactly when the patch has an artifact deploy whose source differs in platform, url but for slashes at its end, owner, repository or user |
| ConfigPatch.TokensMean | backend/src/api/projectSerialization.js:49-64 | the tokens asked for anew are those of the changed scopes: the config itself and the environments of the patch |
| ConfigMerge.EverySecretIsSettled | backend/src/api/projectSerialization.js:129-161 | at every listed place of a secret a new value is taken unless the environment is named like a flag, a changed source drops its token, and otherwise the stored secret is kept, exactly when no array of the patch is in its way |
| ConfigMerge.PlainNamesAreOutOfReach | backend/src/secrets/secretRef.js:53-74 | with plainly named environments no listed path leads on through another, so every patch settles every secret |
| ConfigMerge.BlankKeepsExactlyWithoutDots | backend/src/api/projectSerialization.js:143-158 | a patch that blanks an environment's secret leaves the stored one exactly when the environment's name has no dot and no new token is asked for |
| ConfigMerge.NewSecretTakenExactly | backend/src/api/projectSerialization.js:133-146 | an environment's new secret is taken exactly when the environment is not named like a presence flag |
| ConfigMerge.FlagLikeKeyIsDropped | backend/src/api/projectSerialization.js:208-218 | a stored key that looks like a presence flag is dropped by every save |
| ConfigMerge.KeepSecretElsewhere | backend/src/api/projectSerialization.js:143-158 | settling one secret disturbs no other |
| ConfigRoundTrip.SaveBackIsIdentity | backend/src/api/projectSerialization.js:100-161 | merging the redacted form of a config without flag-like keys into it, whose listed paths keep apart and away from `ciConfig`, gives it back exactly when no null is where a listed secret's parent would be |
| ConfigRoundTrip.PlainlyNamedIsWellFormed | backend/src/secrets/secretRef.js:53-74 | the listed paths of a config with plainly named environments do keep apart and away from `ciConfig` |
| ConfigRoundTrip.SaveBackFillsNull | backend/src/api/projectSerialization.js:235-244 | otherwise the null becomes an object that holds a null for the secret |
| ConfigRoundTrip.FlaggedKeepsIdentity | backend/src/api/projectSerialization.js:29-46 | redaction does not change a scope's source identity |
| ProjectSecrets.RefIsRead | backend/src/secrets/secretRef.js:82-110 | a reference that was made reads as its project and path, exactly when the path is one line |
| ProjectSecrets.RefMeans | backend/src/secrets/secretRef.js:3-4 | a text is a reference exactly when it is `secret://`, an id without slash, `/` and one line of text |
| ProjectSecrets.RefsDiffer | backend/src/secrets/secretRef.js:82-90 | two paths of a project have different references |
| ProjectSecrets.SecretStore.Persist | backend/src/secrets/projectSecrets.js:40-61 | each plain secret moves into the store and leaves its reference; a blank project id with a secret to move changes nothing; which texts those are `SecretRoundTrip.PlaintextLeaves` says |
| ProjectSecrets.SecretStore.Resolve | backend/src/secrets/projectSecrets.js:72-93 | each reference is replaced by its entry; a missing entry fails |
| ProjectSecrets.SecretStore.Delete | backend/src/secrets/projectSecrets.js:110-120 | removes exactly the entries of the listed paths, or without a config of the base paths, and counts them; a blank id removes nothing and fails |
| SecretRoundTrip.NoPlaintextOnDisk | backend/src/secrets/projectSecrets.js:45-58 | after persisting every listed path holds a reference, a blank or no text |
| SecretRoundTrip.PlaintextLeaves | backend/src/secrets/projectSecrets.js:45-58 | at every listed path a text with something else than white space that is no reference is replaced by its reference, under which it is stored; a text stays exactly when it is blank, a reference, or the one that is made |
| SecretRoundTrip.SavingAgainExactly | backend/src/secrets/projectSecrets.js:45-58 | saving a saved config changes nothing exactly when each reference that was made reads as one, is the secret itself, or was stored over the secret already |
| SecretRoundTrip.SavingAgainStores | backend/src/secrets/projectSecrets.js:45-58 | a second save leaves the config and stores each unreadable reference over its secret, and no other entry |
| SecretRoundTrip.LineEndLosesTheSecret | backend/src/secrets/secretRef.js:3-4 | with a line end in an environment's name the second save replaces the secret by its own reference |
| SecretRoundTrip.ResolvingUndoesPersisting | backend/src/secrets/projectSecrets.js:40-93 | resolving the persisted form of plain secrets never fails, and gives the config back exactly when every reference reads as one |
| SecretRoundTrip.ReferableExactly | backend/src/secrets/secretRef.js:3-4 | for an id without slashes a reference reads as one exactly when no piece of its path holds a line end |
| SecretRoundTrip.OnlyPlainTextsAreStored | backend/src/secrets/projectSecrets.js:48-55 | no reference is ever stored as a secret |
| SecretRoundTrip.ResolvingReplacesReferences | backend/src/secrets/projectSecrets.js:72-93 | for any config resolving fails exactly when a reference has no entry, and else replaces the references and nothing else |
| SecretRoundTrip.ProjectsAreSeparate | backend/src/secrets/projectSecrets.js:54-56 | saving one project's secrets never changes what another project resolves to |
| SecretRoundTrip.DeletingForgets | backend/src/secrets/projectSecrets.js:110-120 | deleting a persisted project removes all of its entries and keeps all others |
| SecretRoundTrip.StoredExactlyWithoutDots | backend/src/secrets/secretRef.js:53-74 | an environment's plaintext leaves the config exactly when the environment's name has no dot |
| CiLog.SplitLogLines | backend/src/adapters/ci/BitbucketPipelinesClient.js:75-88 | gives the complete lines that are not blank and the incomplete rest, or with flush all of them; which those are `CiLog.LineByLine` says |
| CiLog.LineByLine | backend/src/adapters/ci/BitbucketPipelinesClient.js:75-88 | each piece up to a newline that has something else than white space is shown in its place, whole but for one carriage return at its end; one of white space only is not |
| CiLog.ReadStepLog | backend/src/adapters/ci/BitbucketPipelinesClient.js:332-372 | each kind of answer moves the cursor and ends the log as specified |
| CiLog.AnswerMeans | backend/src/adapters/ci/BitbucketPipelinesClient.js:332-372 | for each kind of answer the new offset, the bytes taken, whether the log is done, and when it is given up |
| CiLog.ReadShowsTheNext | backend/src/adapters/ci/BitbucketPipelinesClient.js:332-372 | a read shows exactly the lines its bytes complete, and the partial last line exactly when it is done, which but for a row of 404s is the end of the log |
| CiLog.GivesUpAfterTheBudget | backend/src/adapters/ci/BitbucketPipelinesClient.js:358-365 | a log is given up as missing only for a finished step and after thirty seconds of nothing but 404s |
| CiLog.TailLostExactly | backend/src/adapters/CiPipelineAdapter.js:381-381 | an end without flush loses the partial line exactly when it is not blank |
| CiLog.StepReader.FinishLog | backend/src/adapters/CiPipelineAdapter.js:445-449 | giving up shows the partial line first |
| CiLog.StepReader.ReadStepLogs | backend/src/adapters/CiPipelineAdapter.js:418-443 | whatever the answers, the lines shown are those of the bytes read; a final flush of a finished step ends its log |
| CiLog.StepReader.ProcessStep | backend/src/adapters/CiPipelineAdapter.js:371-390 | nothing is shown again once the log is done, a final flush ends a finished step's log, and a step that is skipped before its log is done loses its partial line |
| CiLog.StepReader.Watch | backend/src/adapters/CiPipelineAdapter.js:252-300 | over a whole watch every byte read was shown exactly once if and only if the log was ended without a skip or the partial line is blank; any other end leaves out that line and only it |
| CiLog.SkippedInALine | backend/src/adapters/CiPipelineAdapter.js:376-381 | a log read into its second line when the step is skipped: the line is never shown |
| CiLog.EndsInALine | backend/src/adapters/CiPipelineAdapter.js:359-368 | a log read into its second line when the watch ends and the last listing fails: the line is never shown |
| CiLog.ALineIsLeftBehind | backend/src/adapters/ci/BitbucketPipelinesClient.js:75-88 | the answer that leaves a line behind is a true one |
| DownloadTokens.TokenTable.Issue | backend/src/core/artifacts/downloadTokens.js:41-60 | drops expired tokens and adds one bound to its artifact, agent and deployment |
| DownloadTokens.TokenTable.Consume | backend/src/core/artifacts/downloadTokens.js:67-74 | counts a use of a usable token and grants it exactly when the agent fits |
| DownloadTokens.TokenTable.RevokeForDeployment | backend/src/core/artifacts/downloadTokens.js:77-80 | deletes exactly the deployment's tokens |
| DownloadTokens.FiveDownloads | backend/src/store/artifactDeployRepository.js:446-453 | a token opens at most five downloads, all of its artifact, for its agent when one is named, and within thirty minutes |
| DownloadTokens.RevokedForGood | backend/src/store/artifactDeployRepository.js:459-461 | after its deployment ended a token opens nothing |
| ArtifactReleases.ReleaseTable.ListReadyLocalReleases | backend/src/store/artifactDeployRepository.js:236-242 | exactly the project's ready local releases, newest first, each once |
| ArtifactReleases.ReleaseTable.Prune | backend/src/core/artifacts/artifactUploadService.js:48-75 | deletes exactly the unprotected releases past the retention of their bucket and leaves every target |
| ArtifactReleases.ReleaseTable.MarkFinalized | backend/src/store/artifactDeployRepository.js:245-253 | a finalized release is newer than every other of its project |
| ArtifactReleases.NewestOfEachBucketStay | backend/src/core/artifacts/artifactUploadService.js:42-54 | a release is deleted exactly when it is unprotected and as many as the retention of its bucket are as new; previews never count against named releases |
| ArtifactReleases.PushedOutByItsKind | backend/src/core/artifacts/artifactUploadService.js:42-54 | previews, which are those marked as such, and named releases are counted apart |
| ArtifactReleases.CurrentMeans | backend/src/store/artifactDeployRepository.js:255-270 | which releases a target protects |
| ArtifactReleases.FreshReleaseStays | backend/src/core/artifacts/artifactUploadService.js:48-54 | the newest release of a project, as one just finalized is, is never deleted by a prune that keeps at least one |
| DeployedVersions.RecordDeployedVersions | backend/src/core/artifacts/artifactDeployService.js:316-331 | each deployed component gets the new version, the time, and as its history what was listed before, with the version reported, or else recorded, in front, in that order, without doubles, blanks and the new version, cut after ten; the others stay |
| DeployedVersions.HistoryIsRecent | backend/src/core/artifacts/artifactDeployService.js:316-331 | after any deploys to a target, of any components and by agents that report nothing or what is recorded, each component lists its versions newest first and each once, all of them exactly up to eleven |
| DeployedVersions.InstalledIsListedExactly | backend/src/core/artifacts/artifactDeployService.js:323-327 | the version that was installed is listed after the next deploy exactly when the agent reports it or nothing |
| DeployedVersions.InstalledReleasesStay | backend/src/store/artifactDeployRepository.js:255-270 | after any deploys to a target no prune deletes the last release nor one that a component was last deployed from |
| DeployRuns.EveryRunEndsOnce | backend/src/core/artifacts/artifactDeployService.js:333-366 | in every order of events each run does its terminal bookkeeping once, locks are of unfinished runs with a timer or a call still starting them, and tokens are not overused and belong to unfinished runs, or to ended ones of which revoking failed |
| DeployRuns.SucceededExactly | backend/src/core/artifacts/artifactDeployService.js:269-314 | over any events a run is recorded as succeeded exactly when a successful result came while it was going on |
| DeployRuns.StepKeepsLocks | backend/src/core/artifacts/artifactDeployService.js:333-341 | every step keeps locks on unfinished runs of the same target |
| DeployRuns.StepKeepsTimers | backend/src/core/artifacts/artifactDeployService.js:436-448 | every step keeps a timer on each run that goes on after its call left `startRun` |
| DeployRuns.StepKeepsTokens | backend/src/core/artifacts/artifactDeployService.js:342-346 | every step keeps each token with an unfinished run, or one of which revoking failed |
| DeployRuns.OneMoreToken | backend/src/core/artifacts/downloadTokens.js:41-60 | building a payload issues one token per component, for its run, and drops those that are over by then |
| DeployExclusion.OneDeployPerTarget | backend/src/core/artifacts/artifactDeployService.js:168-177 | in every run in which no `finally` erases a reservation a target has at most one preparing call or unfinished run, and no release in use is deleted |
| DeployExclusion.ErasingIsWhatBreaksIt | backend/src/core/artifacts/artifactDeployService.js:556-556 | a return lets the next reservation break exclusion exactly when it erases another call's reservation |
| DeployExclusion.TimelyRunsAreExclusive | backend/src/core/artifacts/artifactDeployService.js:508-557 | if no result or timeout ends a run before its call has returned, and a call that ends its run returns at once, exclusion holds in every run of the service |
| DeployExclusion.TwoDeploysOnOneTarget | backend/src/core/artifacts/artifactDeployService.js:556-556 | nine events, the first call's run being over before the call returns, lead to two deploys on one target |
| DeployExclusion.BusyIsInUse | backend/src/core/artifacts/artifactDeployService.js:458-463 | a release is busy exactly when a preparing call or an unfinished run uses it |
| DeployService.Service.ReservePreparation | backend/src/core/artifacts/artifactDeployService.js:168-177 | reserves exactly a target that is neither active nor reserved |
| DeployService.Service.FailPreparation | backend/src/core/artifacts/artifactDeployService.js:508-514 | a failed check gives the reservation back |
| DeployService.Service.LeaveCall | backend/src/core/artifacts/artifactDeployService.js:555-557 | the `finally` deletes whatever reservation the target has |
| DeployService.Service.FailSession | backend/src/core/artifacts/artifactDeployService.js:418-431 | without a session the target is free again |
| DeployService.Service.StartRun | backend/src/core/artifacts/artifactDeployService.js:395-438 | takes the lock and issues the tokens; a payload that cannot be built ends the run |
| DeployService.Service.FinishRun | backend/src/core/artifacts/artifactDeployService.js:333-366 | the first end frees the lock, revokes the tokens and records the outcome; a second does nothing |
| DeployService.Service.CommandSent | backend/src/core/artifacts/artifactDeployService.js:440-445 | arms the timer unless the run is over |
| DeployService.Service.CommandFailed | backend/src/core/artifacts/artifactDeployService.js:446-448 | a command that cannot be sent ends the run |
| DeployService.Service.OnTimeout | backend/src/core/artifacts/artifactDeployService.js:368-377 | an armed timer that fires ends the run |
| DeployResults.HandleResult | backend/src/core/artifacts/artifactDeployService.js:269-331 | the first result of a run ends it; of a deploy that succeeded the target first gets the new versions and the release, which is current from then on; a later result changes nothing |
| DeployService.Service.RequestCancel | backend/src/core/artifacts/artifactDeployService.js:380-393 | marks the run and keeps its lock |
| DeployService.Service.ReleaseIsBusy | backend/src/core/artifacts/artifactDeployService.js:458-463 | answers whether the release is being prepared or deployed |
| DeployService.Service.Serve | backend/src/core/artifacts/artifactDeployService.js:333-448 | over every sequence of events the handlers take the service where the events lead, its tables stay sound, and unless a reservation is erased each target has one deploy |
| ReleaseDeletion.PruneSparesDeploys | backend/src/core/artifacts/artifactUploadService.js:38-59 | after any events in which no reservation is erased, a prune deletes exactly the candidates that are on no target and that no deploy, prepared or going on, uses |
| ReleaseDeletion.Prune | backend/src/core/artifacts/artifactUploadService.js:48-75 | the prune that asks the deploy service deletes exactly those, and what deploys rely on stays |
| ReleaseDeletion.DeleteRelease | backend/src/core/artifacts/releaseService.js:594-608 | answers missing, being built, being deployed or installed, in this order, or deletes exactly this release |
| IpAddress.ReadIpv4 | idp-agent-gateway/src/ipMatch.js:27-37 | four decimal octets, or nothing |
| IpAddress.ReadGroups | idp-agent-gateway/src/ipMatch.js:75-82 | two bytes per hex group, or nothing |
| IpAddress.PrintedIsRead | idp-agent-gateway/src/ipMatch.js:19-83 | printing and reading an address gives its bytes |
| IpText.DottedMeans | idp-agent-gateway/src/ipMatch.js:27-37 | a dotted quad is read exactly in its one plain form |
| IpText.Ipv6Means | idp-agent-gateway/src/ipMatch.js:40-83 | a text is read as an IPv6 address exactly when it is eight hex groups, or at most seven with a `::` among them, and then as those groups say |
| IpText.FilledIsRead | idp-agent-gateway/src/ipMatch.js:64-69 | a `::` stands for zeros between the groups before and those behind it |
| IpText.TailIsRead | idp-agent-gateway/src/ipMatch.js:44-55 | a dotted tail reads as its two groups in hex |
| IpText.MappedIsUnmapped | idp-agent-gateway/src/ipMatch.js:85-92 | `::ffff:` and a dotted quad is that IPv4 address |
| IpText.UnmapMeans | idp-agent-gateway/src/ipMatch.js:85-92 | an address is unmapped exactly behind ten zero bytes and two of ones |
| IpText.ZoneIsIgnored | idp-agent-gateway/src/ipMatch.js:40-42 | a zone changes nothing |
| IpAddress.CanonicalText | idp-agent-gateway/src/ipMatch.js:85-103 | the canonical text reads as the unmapped bytes, is its own canonical text, and is shared exactly by addresses with the same unmapped bytes |
| IpMatch.MatchingIsNumeric | idp-agent-gateway/src/ipMatch.js:160-169 | comparing whole bytes and a masked byte is comparing the numbers divided by 2^(bits - prefix) |
| IpMatch.RuleMatches | idp-agent-gateway/src/ipMatch.js:151-170 | holds exactly when address and rule are of one family and agree as numbers over the prefix; which texts they are `IpText` and the next rows say |
| IpMatch.CidrMeans | idp-agent-gateway/src/ipMatch.js:111-137 | an entry with a slash is the unmapped address before it and a prefix of one to three digits within its bits, or no rule |
| IpMatch.BareMeans | idp-agent-gateway/src/ipMatch.js:111-137 | an entry without a slash is the one address, or no rule |
| IpMatch.MatchesAny | idp-agent-gateway/src/ipMatch.js:178-185 | holds exactly when some entry is a rule that covers the address |
| IpMatch.RuleIsRead | idp-agent-gateway/src/ipMatch.js:111-137 | the text of a rule reads as the rule |
| IpMatch.NormalizingKeepsTheRule | idp-agent-gateway/src/ipMatch.js:145-148 | normalizing is idempotent, keeps what the rule covers, and gives one text exactly to rules with the same bytes and prefix |
| Allowlist.LoadedIsOk | idp-agent-gateway/src/allowlist.js:48-72 | whatever the file holds, the loaded list is canonical and without duplicates |
| Allowlist.LoadedAreTheRules | idp-agent-gateway/src/allowlist.js:48-72 | loading lists each different rule of the file once, and nothing else, however many there are |
| Allowlist.LoadedWithinCapExactly | idp-agent-gateway/src/allowlist.js:48-72 | a loaded list is within the cap exactly when the file's different rules are |
| Allowlist.TooManyAreLoaded | idp-agent-gateway/src/allowlist.js:48-72 | a file of 257 rules of which all are loaded |
| Allowlist.WrittenIsLoaded | idp-agent-gateway/src/allowlist.js:75-86 | what is written loads as the same list |
| Allowlist.List.Add | idp-agent-gateway/src/allowlist.js:111-131 | appends a new canonical entry, or for one of four reasons or a failed write changes nothing; the list stays what a restart would load |
| Allowlist.List.Remove | idp-agent-gateway/src/allowlist.js:134-149 | removes the one entry, or changes nothing; a failed write puts it back in its place |
| Allowlist.List.Allows | idp-agent-gateway/src/allowlist.js:101-104 | an empty list allows everyone, another exactly what its rules cover |
| Allowlist.Serve | idp-agent-gateway/src/allowlist.js:111-149 | whatever is added and removed, the list stays within the cap or within what the file brought |
| Allowlist.AddThenRemove | idp-agent-gateway/src/allowlist.js:111-149 | adding a rule and removing it in any spelling gives the same list |
| ReplayWindow.NonceTable.Authenticate | runner-cloud/src/agentAuth.ts:86-136 | a stale request or a known nonce leaves the table, any other is entered for 600 s |
| ReplayWindow.NonceSleeps | runner-cloud/src/agentAuth.ts:122-127 | a nonce is accepted again only after its retention |
| ReplayWindow.RetentionIsExactlyTight | runner-cloud/src/agentAuth.ts:86-94 | no triple authenticates twice in any run with a clock that does not go back exactly when the retention is at least twice the window |
| ReplayWindow.TakenAgainExactly | runner-cloud/src/agentAuth.ts:107-136 | under any clock a taken nonce is accepted again exactly when the request is in its window and it, or an accepted one in between, came after the retention |
| ReplayWindow.ReplayedExactly | runner-cloud/src/agentAuth.ts:86-136 | with twice the window as retention a triple is replayed exactly when an accepted request in between had a later clock, past the retention |
| ReplayWindow.NoReplayExactly | runner-cloud/src/agentAuth.ts:86-136 | a run under any clock authenticates no triple twice exactly when none slips past the retention so |
| ReplayWindow.OvertakingAllowsReplay | runner-cloud/src/agentAuth.ts:86-127 | if the clock the table sees goes back, one can |
| LogTruncation.TruncateLogText | backend/src/store/deploymentRepository.js:88-132 | text within both caps is stored as it is; else keeps the longest run of last lines within both caps, or the last bytes of a lone line that is too long, behind a marker exactly when something was cut |
| LogTruncation.DropToBytes | backend/src/store/deploymentRepository.js:103-116 | the running total is the size of the joined rest, and no shorter drop would fit |
| LogTruncation.StoredIsTheEnd | backend/src/store/deploymentRepository.js:118-131 | what is stored is an end of the text, cut exactly when a cap is exceeded |
| LogTruncation.StoredIsSmall | backend/src/store/deploymentRepository.js:121-131 | the stored text is at most the cap and the marker line |
| LogTruncation.StoringAgainIsTheSame | backend/src/store/deploymentRepository.js:88-132 | truncating what was stored changes nothing |
| SseResume.Session.PushLog | backend/src/services/DeploymentManager.js:178-194 | every subscriber that stays gets the line once, with its index |
| SseResume.Session.OpenStream | backend/src/routes/deploy.js:70-98 | a new stream has the lines from its start to the end and is subscribed for the rest |
| SseResume.ResumesRightAfter | backend/src/routes/deploy.js:70-81 | the id of a line resumes right after it |
| SseIds.StartMeans | backend/src/routes/deploy.js:70-81 | the replay starts behind line n exactly when the header is a number of that value, in any notation, or is blank and n is 0 |
| SseIds.NumberMeans | backend/src/routes/deploy.js:72-75 | exactly the texts with a sign, digits, a point and a power of ten, or a prefix of base 16, 8 or 2, are numbers, of that value |
| SseResume.NoGapAndNoRepeat | backend/src/routes/deploy.js:70-98 | over any pushes, lost frames and reconnects the client's lines are a prefix of the buffer, and all of it once nothing is on its way |
| SseResume.BlankIdSkipsTheFirstLine | backend/src/routes/deploy.js:70-81 | of headers that are not the number of a line exactly the blank ones leave out the first line |
| SseResume.EmptyIdSkipsTheFirstLine | backend/src/routes/deploy.js:72-80 | an empty id starts at the second line |
| RateLimiter.Limiter.Check | backend/src/core/rateLimiter.js:75-91 | counts the request in the live window or a new one and allows it up to the limit |
| RateLimiter.Limiter.Sweep | backend/src/core/rateLimiter.js:48-55 | removes exactly the expired buckets |
| RateLimiter.SweepsAreInvisible | backend/src/core/rateLimiter.js:45-55 | with a clock that does not go back the sweeps change no answer |
| RateLimiter.OneBucketDecides | backend/src/core/rateLimiter.js:75-91 | in any run among other keys and sweeps a key's yes answers are those of its own bucket |
| RateLimiter.RunStaysUnderTheBound | backend/src/core/rateLimiter.js:75-91 | in any run no time as long as the window has more than twice the limit less one yes answers for a key |
| RateLimiter.ARunMeetsTheBound | backend/src/core/rateLimiter.js:75-91 | a run from an empty limiter has that many |
| RateLimiter.LessThanTwiceTheLimit | backend/src/core/rateLimiter.js:75-91 | any time as long as the window lets through at most twice the limit less one |
| RateLimiter.TheBoundIsTight | backend/src/core/rateLimiter.js:75-91 | and that many can get through |

## Left out

- HTTP, WebSocket and SQL transport, timers and promises: each is a step that may happen, fail or be delayed; a failing disk write is a nondeterministic choice.
- Cryptography and randomness: hashes, signatures and fresh ids are inputs; that fresh ids are new is assumed where a step needs it.
- Bytes are written as characters 0 to 255. UTF-8 decoding, gunzip, and Unicode white space in `trim` are not modelled; the token scrubber of the CI adapter neither.
- Runner jobs: the agents table, enrolment, releases, audit rows, the checks of agent signatures; the default status `pending` of a new row, which the migration sets.
- Agent gateway: a socket is part of its connection; the order of the file's elements is arbitrary; the failure limiter of the upgrade, listing, statistics and shutdown, and detail values that are not texts are left out.
- Archives: negative zero as a size is zero; the decompressor and the parsing of the file that was found (`parseEnvExample`, `buildConfigSchema`) are left out.
- Project settings: object keys are unordered and trees are values, so sharing of subtrees with the input is not captured; array elements are data without named properties; environment names that are array indexes or members of `Object.prototype`, and patches that are not objects, are left out.
- ConfigRoundTrip.SaveBackIsIdentity: excluded are keys that look like presence flags outside `ciConfig`, which a save drops (`FlagLikeKeyIsDropped`), a listed path through a `ciConfig` key, where flags are data and stay, and listed paths that run into one another, as those of environments named `a` and `a.password`.
- ConfigMerge.EverySecretIsSettled: leaves out a stored object or null at a secret's place when an environment is named like a path into it (`a.password`); the result then depends on the order of the object's keys.
- ConfigMerge.NewSecretTakenExactly: leaves out the same.
- Secret store: encryption, the file, and a missing store (both directions then pass the project through).
- CiLog.StepReader.Watch: one step is watched; the order of lines across steps, sub-steps, run phases and poll delays are left out. The server's answers are taken to be true of a log that only grows.
- CiLog.ReadStepLog: the total of a `Content-Range` header is an input; its parsing is left out.
- Artifact deploys: stage events, audit and log lines, the checks of a request before its target is reserved, artifact rows and upload locks.
- DeployRuns.EveryRunEndsOnce: channels and reconnects are no events of it, as they end no run and hold no lock.
- DeployedVersions.HistoryIsRecent: starts from a target without recorded versions.
- DeployService.Service.StartRun: run objects are named by their deployment id and kept in a map, so a field update is a map update.
- IpAddress.ReadIpv4: `net.isIP` stands before it, so number forms other than plain decimals never reach it and are not modelled; where Node's grammar for IPv6 differs from section 2.2 of RFC 4291 the model follows the RFC.
- Allowlist: dates of entries.
- LogTruncation.TruncateLogText: a cut inside a character, which decoding would replace.
- SseResume.Session.OpenStream: archived sessions, status and end events; the number a `Last-Event-ID` is read as is exact here, where JavaScript rounds it to a double.
- RateLimiter.Limiter.Check: limits and windows that are not whole numbers.
- Jenkins, SSH, WinRM, PMP and GitHub adapters, the release composer, permission tables, environment loading and route wiring: foreign calls or single-branch facts.
