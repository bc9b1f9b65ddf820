# Forward Slash Windows: verified models

Dafny models of the parts of Forward Slash Windows whose correctness rests on more than one function, with proofs of
what each part promises. `dafny verify dfyconfig.toml` checks everything.

What is modelled, and where:

- **The minifilter's tables and create path** (`DriverTable`, `FilterDriver`, `DriverRuns`, `DriverLaw`,
  `NamespaceSplit`, `CreateLaw`, `WideNames`). The two fixed arrays are changed by scans under one lock; the class works on the arrays, each locked
  region is proved equal to a function of the tables, and `DriverRuns` proves what every run of connects, messages
  and disconnects keeps. A disconnect is two separately locked steps.
- **The broker's publication over the driver** (`FilterMessage`, `BrokerPublish`, `PublishLaw`, `BrokerPort`): the UTF-16 message,
  the cached state, and the agreement between cache and driver under every interleaving with other port clients, also
  of those that run between the connect, the ping and the send of one publish.
- **The keyboard hook, the worker's revalidation and the pause writer** (`EnterHook`, `EnterRevalidation`,
  `PausePersistence`): flags and generation over runs of key events, reads at their own moments under arbitrary
  interference, and atomic steps of several threads.
- **The window host** (`WindowHost`, `WindowLaw`): tokens between three sets and a counter while user code runs.
- **The path resolver, native targets, `file:` URIs and the two funnels** (`PathText`, `PathNormal`, `PathRender`,
  `PathResolve`, `PathLaw`, `Utf8Text`, `PercentCoding`, `FileTargets`, `TargetFunnels`, `TargetLaw`).
- **The settings key in two hives** (`RegText`, `RegShown`, `RegNumbers`, `RegSettings`, `RegResync`): the text of
  `reg query` and what each stored value shows in it, dual writes, deletes and the self-heal.
- **The scheduled-task clock and SHA-256** (`Numerals`, `Widths`, `TaskClock`, `Sha256Constants`, `Sha256Spec`,
  `Sha256Digest`, `Sha256Law`).

Code that updates state in place is a class or a method with loops, proved equal to a function on values; the
promises are lemmas about those functions. The modules named `...Law` state what comes out on the raw inputs, in units,
characters, bits and literals, without the functions that compute it.

## Assumptions

- The Filter Manager delivers no message from a connection once its disconnect callback has begun, and a new
  connection context is allocated apart from the live ones (`DriverRuns.Enabled`).
- The driver stays loaded, `GetTickCount64` does not go back, and the driver's folding of units identifies the two
  cases of ASCII letters (`BrokerPublish.CanStep`, `FilterMessage.FoldsAsciiCase`). A handle that did not pass its
  ping stays registered until its own disconnect, which then happens as another client's.
- Case folding beyond ASCII is a parameter: a map on UTF-16 units in the driver, a relation on strings in the
  resolver. The proofs use no property of either but the ASCII one above.
- Windows get fresh tokens, and a mount or dispatch settles the pump it holds (`WindowHost.Enabled`).
- The hook reads its surroundings once per callback; no mutex is poisoned.
- Calls into Windows, child processes and the registry are parameters that succeed or fail. The registry compares
  value names without ASCII case.

## Where code and documentation differ

- The round-trip tables of crates/fsw-path/tests/target_contract_matrix.rs:14 read as if parsing undid printing for
  every native target. It does for every drive path, but not for shares whose server is `localhost`, holds `@`, or is
  `?` or `.`: the code accepts such a share (the last two when the separator after the server is typed as `/`) and
  then refuses its printed URI. `FileTargets.UriRoundTrip` is the exact statement.
- The bare provider root prints a URI that its own parser refuses (`TargetFunnels.EveryTargetUri`).
- The comment on the state-changed broadcast says listeners catch up. At rest memory and registry agree exactly when a
  reload has looked since the last toggle or the registry holds the toggled value (`PausePersistence.RestIsExact`). A
  change stored and announced by another process while a write of the broker is in flight is skipped and not looked at
  again (`PausePersistence.OutsideWriteInFlightIsLost`).
- The self-heal is said to mirror anything missing or different. A foreign text value with a line feed in it can make
  a missing value look present (`RegResync.ForeignTextFools`) or a written one look different, so that every sync writes
  it again (`RegResync.ForeignTextRepeats`), and a synced text with a line feed is written again by every sync
  (`RegSettings.LineFeedIsAlwaysPlanned`). `RegSettings.SyncOutcome` and `RegResync.SecondSyncPlansNothing` are the
  exact statements.
- `delete_setting` reports success although the real value stays when `reg query` gives no answer, and also when it
  answers with a type the parser does not list, such as `REG_LINK` (`RegSettings.LinkIsKept`);
  `RegSettings.SilentlyKept` is the exact statement.

## Model

| member | source | states |
|---|---|---|
| `FilterDriver.IsValidDistributionName` | driver/fswfilter/fswfilter.c:289-310 | accepts exactly the 128-unit fields whose text up to the first NUL has 1 to 127 units, none of them a separator, a colon or below a space, and is neither `.` nor `..`; units after the NUL do not matter |
| `FilterDriver.IsValidVolumeName` | driver/fswfilter/fswfilter.c:569-591 | accepts exactly `\Device\`, in any casing, followed by one terminated, non-empty component of allowed units |
| `FilterDriver.Filter.constructor` | driver/fswfilter/fswfilter.c:57-66 | both global tables start empty |
| `FilterDriver.Filter.RegisterConnection` | driver/fswfilter/fswfilter.c:336-361 | the array scan admits a connection into the first free of 64 entries exactly when its session holds fewer than four, and changes nothing else |
| `FilterDriver.Filter.ForgetConnection` | driver/fswfilter/fswfilter.c:365-377 | the first entry of the connection is freed, everything else stays |
| `FilterDriver.Filter.ClearMappingsForOwner` | driver/fswfilter/fswfilter.c:314-329 | the first slot of the owner is zeroed, everything else stays |
| `FilterDriver.Filter.FindSlots` | driver/fswfilter/fswfilter.c:1004-1024 | one pass finds the sender's slot or, without one, both the first slot of its identity and the first free slot |
| `FilterDriver.Filter.CheckMessage` | driver/fswfilter/fswfilter.c:945-993 | a message reaches the lock exactly when header, operation, volume and every counted name are valid; only a Ping succeeds before it |
| `FilterDriver.Filter.CommitMessage` | driver/fswfilter/fswfilter.c:995-1062 | the locked region: own slot before same identity before free slot, with each refusal in that order, and exactly one slot rewritten on success |
| `FilterDriver.Filter.HandleMessage` | driver/fswfilter/fswfilter.c:916-1064 | the whole message path on the table, checks and commit together |
| `FilterDriver.Filter.IsCandidateDistribution` | driver/fswfilter/fswfilter.c:540-564 | the gate answers for any occupied slot, whoever owns it |
| `FilterDriver.Filter.Owns` | driver/fswfilter/fswfilter.c:596-633 | the lookup stops at the first slot with the requestor's identity and answers from that slot alone |
| `DriverRuns.ConnectKeepsInv` | driver/fswfilter/fswfilter.c:336-361 | a connect keeps the caps, distinct connections, distinct slots and every slot backed by a live connection |
| `DriverRuns.SendKeepsInv` | driver/fswfilter/fswfilter.c:995-1062 | a Replace, Clear, Ping or refused message keeps the same invariant; a stored mapping is valid and carries its owner's identity |
| `DriverRuns.BeginDisconnectKeepsInv` | driver/fswfilter/fswfilter.c:887-894 | the first half of a disconnect keeps the invariant while the connection is still listed |
| `DriverRuns.EndDisconnectKeepsInv` | driver/fswfilter/fswfilter.c:895 | forgetting a connection leaves no slot without a live owner |
| `DriverRuns.EveryRunKeepsInv` | driver/fswfilter/fswfilter.c:314-377 | in every run of connects, messages and two-step disconnects no two occupied slots share an owner or an identity, each slot has its owner's identity, each owner is live, every stored name and volume is valid, and no session exceeds its cap |
| `DriverRuns.RunKeepsGeneration` | driver/fswfilter/fswfilter.c:1030-1040 | for as long as one owner holds a slot, the slot's generation never drops |
| `DriverRuns.FirstMatchAnswersForAll` | driver/fswfilter/fswfilter.c:596-633 | in every reachable state stopping at the first match answers as a search of all slots would, and a positive answer implies a positive gate |
| `DriverRuns.DisconnectRevokes` | driver/fswfilter/fswfilter.c:887-898 | the clear frees exactly the slots of the connection, after which its identity owns nothing |
| `DriverRuns.AdmittedBelowCap` | driver/fswfilter/fswfilter.c:5-14 | with at most 16 sessions, the caller's included, a connection is admitted exactly when its own session is below its cap of four: counted over sessions, a free entry must exist |
| `DriverRuns.CountBySession` | driver/fswfilter/fswfilter.c:336-361 | any set of sessions together holds at most four connections each |
| `DriverLaw.NameFieldMeaning` | driver/fswfilter/fswfilter.c:289-310 | a name field is valid exactly if a NUL ends 1 to 127 units, each from 0x20 on and none of 0x5C, 0x2F, 0x3A, that are not one or two dots |
| `DriverLaw.VolumeFieldMeaning` | driver/fswfilter/fswfilter.c:569-591 | a volume field is valid exactly if it holds the eight units of the device prefix, in some casing, and such units up to a NUL |
| `DriverLaw.VerdictIsExact` | driver/fswfilter/fswfilter.c:916-1064 | in the tables of every run, each answer to a message and exactly when it is given, on the message's fields and the slots' owners, identities and generations |
| `DriverLaw.EffectIsExact` | driver/fswfilter/fswfilter.c:995-1062 | what a message leaves: a Replace stores exactly its fields in the sender's slot or a free one, a Clear frees the sender's, nothing else changes anything |
| `DriverLaw.CountIsCardinality` | driver/fswfilter/fswfilter.c:343-352 | the scan's count is the number of entries of the session |
| `DriverLaw.ConnectIsExact` | driver/fswfilter/fswfilter.c:336-361 | a connect is admitted exactly if one of the 64 entries is free and its session has fewer than four, and takes one entry |
| `DriverLaw.EndIsExact` | driver/fswfilter/fswfilter.c:365-377 | forgetting a connection frees its entry alone |
| `NamespaceSplit.SplitNamespace` | driver/fswfilter/fswfilter.c:452-527 | the buffer-advancing loops compute the split of a name |
| `NamespaceSplit.SplitIsExact` | driver/fswfilter/fswfilter.c:436-527 | a name is split exactly when it reads separators, the root `fwdslash` in any casing, separators, a component of 1 to 127 units and a tail, and then it has that one reading; a tail of separators alone counts as empty |
| `NamespaceSplit.BuildTargetName` | driver/fswfilter/fswfilter.c:638-663 | the target is the provider prefix, the distribution and the remainder, refused before allocation when its bytes exceed 65535 |
| `NamespaceSplit.TargetIsInjective` | driver/fswfilter/fswfilter.c:638-663 | a target name determines the distribution and the remainder it was built from |
| `NamespaceSplit.PreCreate` | driver/fswfilter/fswfilter.c:784-837 | the create path redirects as the split, the gate, the ownership lookup and the length limit say, and passes through on every failure |
| `NamespaceSplit.RedirectIsExact` | driver/fswfilter/fswfilter.c:784-837 | in every reachable table a create is redirected to a target exactly when its name means a distribution some slot grants the requestor on that volume and the target fits: the gate loses no redirect |
| `CreateLaw.SplitIsTyped` | driver/fswfilter/fswfilter.c:436-527 | on every name: the component and the remainder returned are what was typed behind `\fwdslash\`, and a tail is dropped exactly if it is separators alone |
| `CreateLaw.CreateIsExact` | driver/fswfilter/fswfilter.c:784-837 | where every create of every run goes, on units alone: to the spelled-out provider prefix, the component and the tail as typed, exactly if a slot of the requestor's identity carries the volume and the component in its fields; else nowhere |
| `CreateLaw.MessageDecidesCreate` | driver/fswfilter/fswfilter.c:596-663 | after a Replace the driver took, the text of its volume field and of its first `count` name fields decides every create of the sender's identity |
| `FilterMessage.DecodeEncode` | crates/fsw-broker/src/main.rs:2287-2300 | UTF-16 decoding inverts encoding for every string |
| `FilterMessage.DecodeInjective` | crates/fsw-broker/src/main.rs:2280-2299 | a buffer that decodes to a string is that string's encoding |
| `FilterMessage.VolumeFits` | crates/fsw-broker/src/main.rs:2280-2299 | the broker's own check of its encoded volume name passes exactly for NUL-free device roots of 1 to 127 units |
| `FilterMessage.CopyWideTruncated` | crates/fsw-broker/src/main.rs:511-517 | the copy fills at most all but the last unit and leaves the rest of the field as it was |
| `FilterMessage.FillNames` | crates/fsw-broker/src/main.rs:2331-2344 | the first 32 names land in the 32 fields, cut to 127 units and NUL-terminated; the other fields stay zero |
| `FilterMessage.FilterMappingMessage` | crates/fsw-broker/src/main.rs:2318-2346 | the message is built exactly when the volume name survives its own check |
| `FilterMessage.NameFieldValid` | crates/fsw-path/src/lib.rs:761-768 | a name the resolver accepts as a distribution, cut to the field, is a name the driver accepts |
| `FilterMessage.VolumeFieldValid` | driver/fswfilter/fswfilter.c:569-591 | a volume the broker accepts is one the driver accepts |
| `FilterMessage.MessageAccepted` | crates/fsw-broker/src/main.rs:2318-2346 | every Replace built from valid registered names passes all of the driver's message, volume and name checks, and carries the names cut to 127 units of the first 32 distributions |
| `BrokerPort.FilterPort.DisconnectFilter` | crates/fsw-broker/src/main.rs:2115-2127 | the published list is dropped with the port |
| `BrokerPort.FilterPort.EnsureFilterPort` | crates/fsw-broker/src/main.rs:2153-2182 | an open port is kept; otherwise one connect and one ping decide, and a failed ping leaves no port behind |
| `BrokerPort.FilterPort.PublishFilterMappings` | crates/fsw-broker/src/main.rs:2348-2450 | the publish over the broker's statics and the driver object, with every early return |
| `BrokerPort.FilterPort.SendMappings` | crates/fsw-broker/src/main.rs:2426-2450 | a refused or undelivered message drops the port; only a success is recorded |
| `BrokerPublish.ClientKeepsAgreement` | driver/fswfilter/fswfilter.c:886-1062 | whatever other port clients do, the broker's connection keeps its entry, its slot and its contents |
| `BrokerPublish.ConnectKeepsAgreement` | crates/fsw-broker/src/main.rs:2153-2182 | a fresh handle starts live, with nothing stored for it, and stays so until its ping is answered |
| `BrokerPublish.PublishStepAgrees` | crates/fsw-broker/src/main.rs:2348-2450 | each step of a publish keeps the agreement whatever other clients and the clock did since the step before |
| `BrokerPublish.EveryPublishSettles` | crates/fsw-broker/src/main.rs:2348-2450 | however a publish of any run ends, with others running between its connect, ping and send, the broker has no port or the driver stores exactly this publish's list; a skipped publish was not stale; the driver never answers "old generation" or "invalid" |
| `BrokerPublish.StepsArePublish` | crates/fsw-broker/src/main.rs:2348-2450 | run without interruption, the steps give what the publish over the statics gives |
| `BrokerPublish.RepeatIsSkipped` | crates/fsw-broker/src/main.rs:2391-2422 | once the driver has taken a list, every later publish of the same list that does not insist is skipped and changes neither side |
| `BrokerPublish.GuardedVolumeIsSendable` | crates/fsw-broker/src/main.rs:2311-2346 | a volume that passed the preflight can always be sent |
| `BrokerPublish.EveryRunAgrees` | crates/fsw-broker/src/main.rs:2115-2450 | in every interleaving of the steps of publishes, of a closing window, of clock ticks and of other clients, a recorded list equals what the driver stores for this connection |
| `PublishLaw.GuardIsExact` | crates/fsw-broker/src/main.rs:2253-2316 | the guard passes with a name exactly if nothing is at `C:\fwdslash` and both volume queries show that name, NUL-terminated and below `\Device\` |
| `PublishLaw.EveryPublishIsGuarded` | crates/fsw-broker/src/main.rs:2348-2366 | in every run a publish goes on exactly if its probes allow it; one they do not allow ends rejected, without port or recorded list, and leaves the driver alone |
| `PublishLaw.MessageIsSpelled` | crates/fsw-broker/src/main.rs:2318-2346 | the message of a list unit by unit: header, generation from the clock, the volume, and the first 32 names cut to 127 units |
| `PublishLaw.PublishedDecidesCreate` | crates/fsw-broker/src/main.rs:2348-2450 | from the list to the creates: in every run, while the broker records a list, its volume and first 32 names decide every create of the broker's identity |
| `PublishLaw.RejectedIsExact` | crates/fsw-broker/src/main.rs:2348-2366 | an uninterrupted publish is rejected exactly if its probes do not allow it |
| `PublishLaw.NotConnectedIsExact` | crates/fsw-broker/src/main.rs:2368-2407 | it stops without a port exactly if it has none and the connect or its ping fails; a forced one is recorded all the same |
| `PublishLaw.SendIsExact` | crates/fsw-broker/src/main.rs:2397-2450 | it is skipped exactly if nobody insists and the list was the last tried and is the one recorded; otherwise it is sent, and port and record stay exactly on success |
| `PublishLaw.AnswerIsDrivers` | crates/fsw-broker/src/main.rs:2424-2450 | the answer and the new tables are the driver's, to the message of that list |
| `PausePersistence.CounterExact` | crates/fsw-broker/src/main.rs:2596-2636 | in every run, failures and outside writers included, the in-flight counter equals the unfinished submissions and never underflows |
| `PausePersistence.EveryRunKeepsAlways` | crates/fsw-broker/src/main.rs:2587-2636 | what every run keeps, failures and outside writers at any moment included: a reload looks only when nothing is in flight, and a toggle that is not lost is on its way to the registry or stands there |
| `PausePersistence.RestIsExact` | crates/fsw-broker/src/main.rs:3214-3264 | whenever any run comes to rest, memory is at the registry if a reload has looked since the last toggle and at that toggle if not; the two agree exactly when one has looked or the registry holds the toggled value; if that toggle was not lost all three agree |
| `PausePersistence.LostHasCause` | crates/fsw-broker/src/main.rs:2596-2636 | a toggle is lost only to a failed submission or write, or to another process's write, after it |
| `PausePersistence.ReloadNeverRevertsToggle` | crates/fsw-broker/src/main.rs:3240-3264 | in every run a reload ends with another value than the last toggle only if that toggle was lost, and none reads or applies anything while a write is unfinished |
| `PausePersistence.Settles` | crates/fsw-broker/src/main.rs:3214-3296 | so a run at rest whose writes succeeded and met no outside write in flight holds the latest decision, whoever took it, in memory and registry |
| `PausePersistence.OrderlyReload` | crates/fsw-broker/src/main.rs:3240-3264 | and in such a run every reload that looks finds the latest decision stored |
| `PausePersistence.OutsideWriteInFlightIsLost` | crates/fsw-broker/src/main.rs:3240-3247 | the disagreeing side is reached: an outside write announced while a write is in flight is skipped and never looked at |
| `PausePersistence.FailedWriteIsReverted` | crates/fsw-broker/src/main.rs:2596-2604 | a toggle whose write fails is undone by a pending broadcast: a reachable state at rest shows it |
| `PausePersistence.QueueKeepsOrder` | crates/fsw-broker/src/main.rs:2587-2636 | in every run what was submitted is what was tried, what is being written and what waits, in order |
| `PausePersistence.StoredIsLastWritten` | crates/fsw-broker/src/main.rs:2587-2604 | the registry holds the last value written, here or in another process |
| `PausePersistence.EveryWriteIsAnnounced` | crates/fsw-broker/src/main.rs:3214-3224 | every value written is announced once: still to be broadcast, waiting, or taken by a reload |
| `EnterHook.Hook.Post` | crates/fsw-broker/src/main.rs:1993-2012 | a message is queued exactly when the worker exists and the post succeeds |
| `EnterHook.Hook.LowLevelKeyboardProc` | crates/fsw-broker/src/main.rs:1927-2037 | flags, generation, queue and verdict of one callback, with every early pass-through |
| `EnterHook.Hook.RemoveHook` | crates/fsw-broker/src/main.rs:2062-2071 | removal clears both flags and nothing else |
| `EnterHook.SuppressOnlyWhileDown` | crates/fsw-broker/src/main.rs:1960-1974 | "suppress key-up" implies "Enter is down" at every callback boundary |
| `EnterHook.OneVerdictPerPress` | crates/fsw-broker/src/main.rs:1960-2037 | the first key-down, all repeats and the key-up of one press get the same verdict; a swallowed press posts exactly one message, carrying its generation, and no other press posts any |
| `EnterHook.FirstDownIsExact` | crates/fsw-broker/src/main.rs:1967-2037 | in every run the first key-down is swallowed exactly when the target matches, the broker is not paused, the foreground is the cached browser or a candidate class, the new generation fits a signed word, the worker exists and the post succeeds; the message says whether it was the cached browser |
| `EnterHook.OnlyFirstDownsPost` | crates/fsw-broker/src/main.rs:1967-2037 | nothing but a swallowed first key-down posts |
| `EnterHook.DownByHistory` | crates/fsw-broker/src/main.rs:1960-1974 | a press is in progress exactly if Enter went down and has neither come up nor lost its hook since; a key-up without one passes |
| `EnterHook.OthersPassThrough` | crates/fsw-broker/src/main.rs:1942-1958 | other keys, marked replays and lower-integrity input pass and change neither flag |
| `EnterHook.GenerationCounts` | crates/fsw-broker/src/main.rs:1940-1945 | the generation counts unmarked key-downs modulo 2^64 |
| `EnterRevalidation.CheckMeansQuiet` | crates/fsw-broker/src/main.rs:1444-1459 | with fewer than 2^64 key-downs in between, the check is true exactly when no key went down from the captured generation to the last read and control and text were as expected at both samples |
| `EnterRevalidation.WrappedGenerationIsUnseen` | crates/fsw-broker/src/main.rs:1444-1459 | the width matters: after exactly 2^64 key-downs the check passes over them |
| `EnterRevalidation.ApplyTranslatedEnter` | crates/fsw-broker/src/main.rs:1485-1499 | the actions taken, in order |
| `EnterRevalidation.WriteOnceReplayOnce` | crates/fsw-broker/src/main.rs:1485-1499 | at most one write and one replay; the write exactly in a quiet window for the user's text, the replay exactly if the quiet window reaches past the write and shows the value then left |
| `WindowHost.LiveHost.PublishMountedWindow` | crates/windows-reactor/src/app.rs:901-921 | the mounted token leaves flight and opens, or is finalised if it was closed meanwhile; no assertion fails |
| `WindowHost.LiveHost.RegisterPending` | crates/windows-reactor/src/app.rs:945-958 | fresh tokens are counted and put in flight |
| `WindowHost.LiveHost.RollbackPendingWindows` | crates/windows-reactor/src/app.rs:996-1008 | every token of a refused open leaves flight and the count |
| `WindowHost.LiveHost.OpenLiveWindows` | crates/windows-reactor/src/app.rs:923-994 | nothing happens beyond 64 pending opens; a refused enqueue is rolled back |
| `WindowHost.LiveHost.RejectPendingWindow` | crates/windows-reactor/src/app.rs:1010-1036 | a rejected mount leaves flight and the count, faults unless it was a declaration, and exits on a fault or an empty host |
| `WindowHost.LiveHost.TakeForDispatch` | crates/windows-reactor/src/app.rs:1038-1052 | a dispatch moves an open token into flight, and ignores others |
| `WindowHost.LiveHost.FinishDispatch` | crates/windows-reactor/src/app.rs:1053-1123 | the token comes back, or is finalised if closed meanwhile, or is dropped with a fault |
| `WindowHost.LiveHost.DispatchWindowClosed` | crates/windows-reactor/src/app.rs:1126-1142 | a close in flight is remembered, a close of an open window finalises it |
| `WindowHost.StepKeepsInv` | crates/windows-reactor/src/app.rs:901-1142 | each step keeps open and in-flight tokens disjoint, closed-in-flight tokens in flight, the count equal to the unmounted tokens, and an empty host exiting |
| `WindowHost.EveryRunKeepsInv` | crates/windows-reactor/src/app.rs:901-1142 | the same in every interleaving of opens, mounts, dispatches, closes, rejections and roll-backs |
| `WindowHost.ClosedTokenEndsOnce` | crates/windows-reactor/src/app.rs:1126-1142 | a token reported closed is never open again and is finalised at most once, and exactly once when it leaves flight without its pump failing |
| `WindowHost.PendingBounded` | crates/windows-reactor/src/app.rs:923-958 | the pending count never passes 64 unless the launch itself registered more |
| `WindowLaw.TokenLife` | crates/windows-reactor/src/app.rs:901-1142 | in every run the host has each token exactly where a state machine of that token alone puts it, with requests accepted up to 64 waiting windows |
| `WindowLaw.FaultIsExact` | crates/windows-reactor/src/app.rs:1010-1123 | a fault is raised exactly by a failed mount or dispatch |
| `WindowLaw.ExitIsExact` | crates/windows-reactor/src/app.rs:1126-1153 | exit is requested exactly if something failed or the host has been without open, held and waiting windows: closing one of several windows never exits |
| `PathText.JoinSplit` | crates/fsw-path/src/lib.rs:382-449 | joining what was split on one separator swaps separators |
| `PathNormal.NormalizeMeaning` | crates/fsw-path/src/lib.rs:639-703 | walking components fails exactly when some prefix has more `..` than names, and otherwise leaves exactly the names no later `..` takes away |
| `PathNormal.NormalizeAppend` | crates/fsw-path/src/lib.rs:639-703 | walking two inputs one after the other is walking their concatenation |
| `PathRender.RenderBuf.Render` | crates/fsw-path/src/lib.rs:638-709 | the push-and-truncate loop gives base, normalised names and kept trailing separator, the Linux form the same names joined by `/`, whatever the buffer held |
| `PathRender.RenderBuf.RenderTail` | crates/fsw-path/src/lib.rs:650-703 | the loop over the components of what follows the distribution |
| `PathRender.RenderBuf.ResolveUnderRoot` | crates/fsw-path/src/lib.rs:364-449 | the same below a custom root, whose base is a prefix of every result and is never truncated into |
| `PathRender.RenderBuf.TrimToBase` | crates/fsw-path/src/lib.rs:382-395 | the base is the root without trailing separators, except the one a bare drive keeps |
| `PathResolve.ResolveInto` | crates/fsw-path/src/lib.rs:555-630 | resolution through a reused buffer equals resolution, and leaves the rendered texts in it |
| `PathResolve.RewriteEquivalence` | crates/fsw-path/src/lib.rs:609-630 | passing the default distribution out of band gives the same result or error as strictly resolving "/" + distribution + input |
| `PathResolve.NamesOfSlashForm` | crates/fsw-path/src/lib.rs:697-709 | a printed Linux path reads back as the names it was printed from |
| `PathResolve.PrintedPathResolvesToItself` | crates/fsw-path/src/lib.rs:555-709 | resolving a resolved path again, through its own printed form, changes nothing |
| `PathResolve.ValidRootBase` | crates/fsw-path/src/lib.rs:468-540 | the base of a valid root is a drive or names a server and a share |
| `PathResolve.FolderIsNeverProvider` | crates/fsw-path/src/lib.rs:460-483 | no path below a valid custom root is the provider literal `\\wsl.localhost`, in any casing, with any trailing separators |
| `PathLaw.MalformedIsExact` | crates/fsw-path/src/lib.rs:562-573 | each malformed input gets the first error that applies |
| `PathLaw.StrictIsExact` | crates/fsw-path/src/lib.rs:575-609 | strict mode on every well-formed input: distribution, `\\wsl.localhost` text and slash form of the names left by the walk, the bare root, or the error |
| `PathLaw.DefaultIsExact` | crates/fsw-path/src/lib.rs:611-630 | default mode: the same below the preferred distribution, else the one of WSL, else the error |
| `PathLaw.UnderRootIsExact` | crates/fsw-path/src/lib.rs:364-449 | below a custom root: the trimmed root and those names, a drive alone with one separator |
| `PathLaw.WalkIsNormalize` | crates/fsw-path/src/lib.rs:639-703 | the names left: empty components and `.` are passed over, `..` takes the last name back or fails |
| `Utf8Text.DecodeEncode` | crates/fsw-path/src/target.rs:430-431 | strict UTF-8 decoding inverts encoding for every string |
| `PercentCoding.PercentEncode` | crates/fsw-path/src/target.rs:434-452 | the byte loop writes each kept byte as it is and every other as `%` and two upper-case digits |
| `PercentCoding.PercentDecode` | crates/fsw-path/src/target.rs:398-432 | the index loop decodes escapes and characters, and fails on a broken escape or on bytes that are no UTF-8 |
| `PercentCoding.DecodeEncodeBytes` | crates/fsw-path/src/target.rs:398-452 | decoding inverts encoding for all bytes, whatever follows |
| `PercentCoding.DecodeEncoded` | crates/fsw-path/src/target.rs:398-452 | and for every string |
| `PercentCoding.NoEncodedSeparator` | crates/fsw-path/src/target.rs:463-475 | text encoded from bytes without a backslash holds neither `%2F` nor `%5C` |
| `PercentCoding.EncodedChars` | crates/fsw-path/src/target.rs:434-452 | encoding writes only unreserved characters, `/`, `:` and `%` |
| `PercentCoding.KeptIsUnreserved` | crates/fsw-path/src/target.rs:434-452 | exactly ASCII letters, digits and `-._~/:` are written as they are |
| `PercentCoding.EncodedByteShape` | crates/fsw-path/src/target.rs:434-452 | the others as `%` and two upper-case digits of the byte |
| `FileTargets.NormalizeNativePath` | crates/fsw-path/src/target.rs:324-347 | accepts exactly drive paths and shares with a server and a share name free of colons, swapping separators and raising the drive letter |
| `FileTargets.EmptyServer` | crates/fsw-path/src/target.rs:333-335 | the check for four leading separators can never be the one that rejects |
| `FileTargets.AcceptedShape` | crates/fsw-path/src/target.rs:298-347 | an accepted path holds no `/`, no control character, and is accepted unchanged again |
| `FileTargets.ParseBuilt` | crates/fsw-path/src/target.rs:349-396 | parsing what was printed gives authority and path back before they are judged |
| `FileTargets.UriRoundTrip` | crates/fsw-path/src/target.rs:298-475 | for every path accepted, exactly what parsing its printed URI gives: the same target, except for shares whose server is `localhost` (invalid path), holds `@` (invalid URI) or is `?` or `.` (device path) |
| `FileTargets.ServersThatDoNotReturn` | crates/fsw-path/src/target.rs:364-369 | each excluded server is reached: its share is accepted and its URI does not come back |
| `FileTargets.UserPartDoesNotReturn` | crates/fsw-path/src/target.rs:367-369 | a concrete share whose URI is refused |
| `TargetFunnels.ClaimIsExact` | crates/fsw-core/src/lib.rs:695-708 | the shell funnel's gate claims exactly the inputs the alias resolver answers for, so its "claimed but none" arm is never taken |
| `TargetFunnels.AliasOpensDrive` | crates/fsw-path/src/target.rs:242-277 | `/mnt/<letter>` opens the upper-case drive, below it the normalised names of what follows the letter, with the traversal error exactly when those leave the root |
| `TargetFunnels.AbsoluteInputsAreNative` | crates/fsw-path/src/target.rs:109-129 | an absolute native path is never taken for a URI, an expansion or anything else |
| `TargetFunnels.NativeInputsRoundTrip` | crates/fsw-path/src/target.rs:80-86 | through the whole entry point, the printed URI of an accepted native path resolves as the round trip says |
| `TargetFunnels.SlashOwner` | crates/fsw-core/src/lib.rs:671-740 | past the alias a valid root owns every slash input; without one, list mode gives `/` to the provider and the rest to the distribution named first, and default mode gives everything to the pinned, else the default distribution |
| `TargetFunnels.SlashInputsAreNotUris` | crates/fsw-path/src/target.rs:109-134 | an input starting with `/` always reaches the slash branch |
| `TargetFunnels.FolderAccepted` | crates/fsw-path/src/target.rs:298-322 | a folder below a drive or a share is accepted as it is, up to its drive letter, unless it holds a control character |
| `TargetFunnels.FunnelsAgree` | crates/fsw-core/src/lib.rs:653-740 | for every input starting with `/`, snapshot and base, both funnels give the same slash error or the same path up to drive-letter case; only folder and drive targets holding a C0 control character are refused by the browser funnel alone |
| `TargetFunnels.RelativeStaysInDistribution` | crates/fsw-path/src/target.rs:202-226 | a relative input with a WSL base never leaves that distribution, whatever it is called |
| `TargetFunnels.EveryTargetUri` | crates/fsw-path/src/target.rs:80-86 | what the URI of any target of a slash input parses to: the bare provider root to an error, a folder as the round trip says, a WSL path to the same path as a network path without context, or to an error exactly if it holds a control character or its share is empty or holds a colon |
| `TargetLaw.NativeIsExact` | crates/fsw-path/src/target.rs:298-347 | every native text: accepted exactly as a share with server and share name free of colons, or as a drive path, without control characters and device prefixes |
| `TargetLaw.UriIsExact` | crates/fsw-path/src/target.rs:349-396 | every `file:` URI with an authority, whoever wrote it: each refusal in order, a separator spelled `%2F` or `%5C` among them, and the native path it otherwise means |
| `TargetLaw.PlainUriIsExact` | crates/fsw-path/src/target.rs:349-396 | and every one without: only an absolute path means something |
| `TargetLaw.DriveUriIs` | crates/fsw-path/src/target.rs:382-396 | the URI of a path without a server: `file:///` and its escaped text |
| `TargetLaw.ShareUriIs` | crates/fsw-path/src/target.rs:382-396 | the URI of a share: the escaped server, and the escaped rest as its path |
| `TargetLaw.AliasIsExact` | crates/fsw-path/src/target.rs:242-277 | `/mnt/`, a letter, and nothing or `/`: the drive in upper case with the names behind it, or the error |
| `TargetLaw.SlashWithoutContext` | crates/fsw-path/src/target.rs:136-158 | without a context only the alias and the malformed slash inputs are answered |
| `TargetLaw.ShellIsExact` | crates/fsw-core/src/lib.rs:671-740 | every other input of the shell: below a valid custom root if there is one, else resolved |
| `TargetLaw.RootIsExact` | crates/fsw-path/src/lib.rs:468-540 | exactly which custom roots are valid |
| `TargetLaw.RelativeNativeIsExact` | crates/fsw-path/src/target.rs:192-202 | a relative input below an accepted native base: the base, one separator and the input, unless that holds a control character or reads as a device path |
| `TargetLaw.RelativeWslIsExact` | crates/fsw-path/src/target.rs:203-226 | below a WSL directory: the walk over the directory's components and then the input's, strictly in that distribution |
| `TargetLaw.RelativeRefusals` | crates/fsw-path/src/target.rs:181-215 | the relative inputs refused before that, and those that lack a base or a context |
| `TargetLaw.NotHandledIsExact` | crates/fsw-path/src/target.rs:109-134 | an input is left to others exactly if it has another scheme or is text a shell expands |
| `TargetLaw.FirstChecks` | crates/fsw-path/src/target.rs:109-123 | what is looked at first: nothing, a device path, a `file:` URI |
| `TargetLaw.OthersAreNativeOrRelative` | crates/fsw-path/src/target.rs:124-134 | an absolute text is a native path, and what is nothing else is relative |
| `RegText.LeftmostCut` | crates/fsw-core/src/settings_write.rs:175-206 | the loop over the seven types keeps the leftmost cut, the earlier type on a tie |
| `RegText.SplitValueLine` | crates/fsw-core/src/settings_write.rs:175-213 | the split of one line, none for a blank name or a line without a type |
| `RegText.ParseRegQuery` | crates/fsw-core/src/settings_write.rs:163-171 | the values of the value lines, in order |
| `RegText.LineRoundTrip` | crates/fsw-core/src/settings_write.rs:155-213 | a printed line gives its value back exactly when the name, its gaps included, holds no type token between gaps, whatever the data holds |
| `RegText.BareLineRoundTrip` | crates/fsw-core/src/settings_write.rs:183-196 | the same for empty data printed with nothing behind the type: the name must not open with that type either |
| `RegText.QueryRoundTrip` | crates/fsw-core/src/settings_write.rs:163-171 | parsing inverts printing for every list of values without line feeds, exactly when no name holds such a token |
| `RegShown.QueryIsShown` | crates/fsw-core/src/settings_write.rs:163-171 | for every list of values, whatever their data, the parsed query is what each value shows by itself, one after the other |
| `RegShown.ListedShowsFirst` | crates/fsw-core/src/settings_write.rs:175-213 | a value of a listed type shows its own name first, with its data up to a line feed |
| `RegShown.UnlistedName` | crates/fsw-core/src/settings_write.rs:175-213 | the printed line of a value of any other type is never read as a value of that name |
| `RegShown.ValueIsInLine` | crates/fsw-core/src/settings_write.rs:175-213 | whatever the line, a value read from it has a non-empty trimmed name, a listed type and the rest of the line as its data |
| `RegText.PlainWithoutSpaces` | crates/fsw-core/src/settings_write.rs:239-260 | a name without spaces, as every synced one, is such a name unless it spells a type |
| `RegNumbers.NumbersReturn` | crates/fsw-core/src/settings_write.rs:144-153 | hexadecimal and decimal renderings of every 64-bit number read back as it |
| `RegNumbers.NumbersAreLimited` | crates/fsw-core/src/settings_write.rs:144-153 | with white space around it and either prefix, a number is read exactly if it is below 2^64 |
| `RegNumbers.RenderedMatches` | crates/fsw-core/src/settings_write.rs:107-120 | a stored value is recognised as itself and as nothing else |
| `RegSettings.Settings.SetSetting` | crates/fsw-core/src/settings_write.rs:432-444 | a packaged write attempts both hives whatever the first does and succeeds only if both do; an unpackaged one writes the one hive |
| `RegSettings.Settings.DeleteSetting` | crates/fsw-core/src/settings_write.rs:368-376 | both hives after a delete and what it reports: a child asks the real hive first, the process itself asks what it sees; absent is success |
| `RegSettings.Settings.SyncToRealHive` | crates/fsw-core/src/settings_write.rs:485-505 | the sync writes the planned names that land, in order, and reports whether any did |
| `RegSettings.PlanIsExact` | crates/fsw-core/src/settings_write.rs:215-237 | a name is planned exactly when the hive read back does not hold its value |
| `RegSettings.SyncOutcome` | crates/fsw-core/src/settings_write.rs:485-505 | for every hive: after a sync the real hive holds a synced value exactly if it did before, or if the hive read back did not show it and its write landed |
| `RegSettings.ReadableSyncOutcome` | crates/fsw-core/src/settings_write.rs:485-505 | with values that print one to a line, exactly if it did before or its write landed, whether or not the query answered |
| `RegResync.ForeignTextFools` | crates/fsw-core/src/settings_write.rs:163-171 | one foreign text with a line feed in it can print as a line of a value that is not there; the sync then leaves that value out |
| `RegSettings.SyncTouchesOnlyMerged` | crates/fsw-core/src/settings_write.rs:584-587 | a sync deletes nothing and leaves every other name as it was |
| `RegSettings.WroteIsExact` | crates/fsw-core/src/settings_write.rs:491-505 | a sync reports a write exactly if a value the hive read back did not show was written |
| `RegResync.SecondSyncPlansNothing` | crates/fsw-core/src/settings_write.rs:485-505 | for every hive: after a sync whose writes all landed a second one plans nothing exactly when no synced text holds a line feed and, going down the hive as it was before, each synced name is met first at its own rewritten entry, or at a kept value that prints it with the synced value |
| `RegResync.QuietSecondSync` | crates/fsw-core/src/settings_write.rs:485-505 | so in a hive where no other value prints a line under a synced name, exactly when no synced text holds a line feed |
| `RegResync.ReadableIsQuiet` | crates/fsw-core/src/settings_write.rs:163-171 | values that print one to a line make such a hive |
| `RegResync.ForeignTextRepeats` | crates/fsw-core/src/settings_write.rs:163-171 | one foreign text that spells a synced name with another value makes every second sync write that name again |
| `RegSettings.LineFeedIsAlwaysPlanned` | crates/fsw-core/src/settings_write.rs:163-171 | a text with a line feed is planned again by every sync |
| `RegSettings.DualWriteAgrees` | crates/fsw-core/src/settings_write.rs:23-31 | after a dual write both views answer alike for the name, and other names keep theirs |
| `RegSettings.ShadowedWrite` | crates/fsw-core/src/settings_write.rs:25-31 | writing the real hive alone shows to a packaged reader exactly if its own hive holds no other value |
| `RegSettings.QueryFinds` | crates/fsw-core/src/settings_write.rs:377-386 | a query for one name finds a stored value of any type and any data exactly if it is answered and the value is recognised: its type is listed, or a later line of its data spells the name |
| `RegSettings.DeleteIsExact` | crates/fsw-core/src/settings_write.rs:368-386 | what a packaged delete leaves in each hive and when it reports success, for every stored value |
| `RegSettings.SilentlyKept` | crates/fsw-core/src/settings_write.rs:368-386 | success is reported with the value still in the real hive exactly if the query went unanswered or did not recognise it, and the in-process delete landed |
| `RegSettings.LinkIsKept` | crates/fsw-core/src/settings_write.rs:131-142 | it is reached: a value of type `REG_LINK` survives a delete that reports success |
| `RegSettings.UnpackagedDelete` | crates/fsw-core/src/settings_write.rs:368-376 | an unpackaged delete clears the one hive or reports failure |
| `Numerals.PaddedReturns` | crates/fsw-cli/src/scheduled_task.rs:103 | a number padded to a width it fits reads back as itself |
| `TaskClock.TaskStartBoundary` | crates/fsw-cli/src/scheduled_task.rs:73-104 | the carries print a valid moment exactly one minute later |
| `TaskClock.OneMinuteLater` | crates/fsw-cli/src/scheduled_task.rs:86-102 | the step is valid and one minute on, by the closed-form day count with the leap rule |
| `TaskClock.MinutesAreUnique` | crates/fsw-cli/src/scheduled_task.rs:74-85 | no two valid moments are the same number of minutes in |
| `TaskClock.PrintedReturns` | crates/fsw-cli/src/scheduled_task.rs:377-382 | a boundary up to year 9999 reads back from its fixed positions as the moment it prints |
| `TaskClock.LongYearFails` | crates/fsw-cli/src/scheduled_task.rs:377-382 | from year 10000 on it does not read back at all |
| `TaskClock.ShownMinuteIsUnique` | crates/fsw-cli/src/scheduled_task.rs:375-384 | a boundary text shows one minute only |
| `TaskClock.StepText` | crates/fsw-cli/src/scheduled_task.rs:377-383 | one round reads the text back and shows the next minute, and gives up exactly past year 9999 |
| `TaskClock.DelayedBoundary` | crates/fsw-cli/src/scheduled_task.rs:375-384 | the boundary is the valid moment exactly max(1, delay) minutes later, and there is none exactly when the minute before it, which must be read back, lies past year 9999 |
| `TaskClock.PrintedLayout` | crates/fsw-cli/src/scheduled_task.rs:103 | the text is `YYYY-MM-DDThh:mm:00` in decimal digits of the fields |
| `Sha256Constants.CubeRootIsUnique` | crates/fsw-core/src/update.rs:1077-1142 | each round constant is, by the type of the table, the first 32 bits after the point of the cube root of a number that is prime, and the prime has no other |
| `Sha256Constants.SquareRootIsUnique` | crates/fsw-core/src/update.rs:1067-1076 | the same for the initial state and square roots |
| `Sha256Constants.RowsRise` | crates/fsw-core/src/update.rs:1067-1142 | the primes of the two tables rise: 64 of them from 2 to 311, and eight from 2 to 19 |
| `Sha256Digest.PadMessage` | crates/fsw-core/src/update.rs:1060-1065 | the padding loop gives the padding of section 5.1.1 of FIPS 180-4 |
| `Sha256Spec.PaddedSize` | crates/fsw-core/src/update.rs:1060-1065 | a multiple of 64 bytes |
| `Sha256Spec.PaddingIsShortest` | crates/fsw-core/src/update.rs:1060-1065 | no shorter whole number of blocks holds message, mark and length |
| `Sha256Spec.PaddingIsInjective` | crates/fsw-core/src/update.rs:1059-1065 | different messages have different padded messages |
| `Sha256Digest.Expand` | crates/fsw-core/src/update.rs:1144-1159 | the in-place schedule equals the recursive one |
| `Sha256Spec.ScheduleIsStandard` | crates/fsw-core/src/update.rs:1148-1159 | with any addition that may be reordered, that schedule is the recursion of section 6.2.2 of FIPS 180-4, whose terms stand in the opposite order |
| `Sha256Spec.Word32Schedule` | crates/fsw-core/src/update.rs:1148-1159 | so with wrapping addition of 32-bit words the two agree |
| `Sha256Digest.ExtendWords` | crates/fsw-core/src/update.rs:1148-1159 | the words from the seventeenth on, each from four earlier ones |
| `Sha256Digest.Compress` | crates/fsw-core/src/update.rs:1160-1180 | 64 rounds in eight rotated registers equal the recursive rounds |
| `Sha256Digest.HashBlocks` | crates/fsw-core/src/update.rs:1143-1189 | the block loop equals the recursive hash over the blocks |
| `Sha256Spec.BitwiseMeaning` | crates/fsw-core/src/update.rs:1162-1163 | choose selects bits, majority is what two of three say |
| `Sha256Digest.Sha256Hex` | crates/fsw-core/src/update.rs:1058-1196 | the digest of every input below 2^61 bytes, and none from there on |
| `Sha256Spec.DigestShape` | crates/fsw-core/src/update.rs:1190-1195 | 64 lower-case hexadecimal digits, which determine the final state |
| `Sha256Law.BigSigma0Bits` | crates/fsw-core/src/update.rs:1164 | bit `i` is the exclusive or of bits `i+2`, `i+13` and `i+22` modulo 32 |
| `Sha256Law.BigSigma1Bits` | crates/fsw-core/src/update.rs:1165 | of bits `i+6`, `i+11` and `i+25` |
| `Sha256Law.SmallSigma0Bits` | crates/fsw-core/src/update.rs:1149-1151 | of bits `i+7` and `i+18` modulo 32, and of `i+3` while there is one |
| `Sha256Law.SmallSigma1Bits` | crates/fsw-core/src/update.rs:1152-1154 | of bits `i+17` and `i+19` modulo 32, and of `i+10` while there is one |
| `Sha256Law.OneRound` | crates/fsw-core/src/update.rs:1160-1180 | a round is the one assignment of the eight registers by T1 and T2 modulo 2^32 |
| `Sha256Law.ScheduleIsUnique` | crates/fsw-core/src/update.rs:1144-1159 | the schedule is the one list of sixteen big-endian words of the block and their recursion |
| `Sha256Law.DigestIsStandard` | crates/fsw-core/src/update.rs:1058-1196 | a text is the digest of a message exactly if some padding, schedules, registers and hash values satisfy the equations of FIPS 180-4 for it |

## Left out

- FilterDriver.Filter.HandleMessage: capturing the user buffer, its length check, pool allocation and the protocol
  version reported to a Ping are not modelled; the message arrives captured.
- BrokerPublish.EveryRunAgrees: driver unload and reload are not modelled; a fresh driver would start empty while the
  broker still holds a port.
- BrokerPort.FilterPort.PublishFilterMappings: logging, the health-timer interval and the sort of the distribution
  list are left out; the list arrives sorted.
- PausePersistence.Settles: requires orderly steps; `PausePersistence.RestIsExact` says what holds at rest without them.
  The threads' atomics are state-machine steps, not a class: their interleaving is the point.
- PausePersistence.CounterExact: the counter is unbounded where the source has 32 bits.
- EnterRevalidation.CheckMeansQuiet: the final comparison of the foreground window is left out.
- WindowHost.LiveHost.FinishDispatch: the pump's own event loop, re-arming and diagnostics are outcomes of the
  dispatch.
- WindowHost.ClosedTokenEndsOnce: what happens after `finalize_closed_window` (queueing the drop of the window) is
  left out.
- PathRender.RenderBuf.Render: capacity and allocation of the buffer are not modelled.
- FileTargets.NormalizeNativePath: paths are sequences of Unicode scalar values; the source indexes their UTF-8 bytes
  at ASCII characters only, where both agree.
- RegSettings.Settings.SyncToRealHive: reading the merged view through the registry API is a parameter, and the
  console code page of the child's output is not modelled.
- RegSettings.Settings.DeleteSetting: what a packaged delete records in the package's hive for a value that only the
  real hive holds is not modelled; it counts as a delete that landed.
- Sha256Constants.RowsRise: that there are only 64 primes up to 311, so that none is missing, is not proved.
- Sha256Digest.Sha256Hex: the word operations are a parameter of schedule, rounds and blocks, bound to 32-bit words at
  the end.
- Kernel token queries, eligibility, interrupt levels and the port's security descriptor: the identity is a value.
- Win32, COM, UI Automation, tray, menu and WinUI calls, and everything they draw.
- Network, update offers and versions, PowerShell and `schtasks` child processes beyond the text given to them.
- The browser-specific URI rewrite of the broker (crates/fsw-broker/src/main.rs:1753-1758): it targets another
  program's parser.
- Win32 normalisation hazards of trailing dots and spaces, and `to_wsl_path`: single comparisons.
- Browser profile matching, element builders, the folder picker, adapter tables and release tools.
