# Verified models of the shared infrastructure's small engines

This project models, in Dafny, the engines of the repository that carry real protocols, parsers and arithmetic, and
proves what they are for. Check all of it with `dafny verify dfyconfig.toml`.

- **Docker slots** (`Slots`, `SlotExclusion`, `SlotTurnover`, `SlotScan`, `DockerCalls`): sessions that share a directory of slots
  (`mkdir`, exclusive owner file, stale reclaim, checked release) as a machine of interleaved steps with process death
  and a clock, the scan loop as a method that refines the machine, and the event handlers around one `docker` call.
- **The tenants program scanner** (`TenantAst`, `TenantScan`, `TenantSoundness`, `TenantFollow`, `TenantComplete`,
  `TenantGates`, `TenantExample`): a static analysis over a TypeScript syntax tree, with an evaluation semantics it is proved
  sound for and a reading of the declarations it is proved complete for.
- **The inputs-file install** (`SeedInstall`, `SeedSafety`, `SeedDurability`, `SeedProgram`): every system call of the install is a step
  of a file-system machine on which any number of runs interleave, and any of them may crash after any step.
- **The first-boot document** (`PgpPackets`, `Enrolment`, `Heredoc`): the OpenPGP packet walker, the enrolment script as
  a step machine, and the here-document its configuration is written through.
- **DNS capture and compare** (`ZoneCheck`, `ZoneAnswers`, `ZoneAgreement`, `ZoneProgram`, `ZoneDiff`, `ZoneFile`): two routes from a
  server's answers to a zone, the comparison of every server with its controls, and the zone file's round trip.
- **The bootstrap record** (`BootstrapRecord`, `BootstrapFill`, `BootstrapExpansion`): producer and checker over a git
  history, merging of variable files, and bounded filling of references against recursive expansion.
- **Shard selection** (`CiSelect`), **the egress route** (`Egress`), **the role harness** (`RoleHarness`) and **the edge's
  site blocks** (`Caddyfile`).

`Common` and `Text` hold the datatypes and the text operations (decimal numbers, trimming, splitting) the rest share.

Loops and mutable state are methods and classes, proved against the machine or the function whose properties the lemmas
state. What the model takes from outside (clocks, the results of system calls, digests, the answers of a DNS server, the
trees of a repository) is a parameter, and the theorems hold for all of its values.

## What was found

Some things the code is written to do, it does only under a condition. Each has a lemma.

- An always-run step that is also marked skipped is not run on a normal return (`RoleHarness.AlwaysRunStepsAreStarted`,
  `RoleHarness.SkippedAlwaysStepIsNotStarted`). The step lists the harness makes never mark one (`RoleHarness.DestroyIsStarted`).
- A role with no scenario has no step-list problem, though none of its steps run (`RoleHarness.SkippableStepsRunSomewhere`).
- Filling gives the recursive expansion of a text exactly when the expansion holds no template
  (`BootstrapExpansion.FillIsExpansion`); where it holds one, the seam of two texts can be read as a reference that no text
  holds (`BootstrapExpansion.SeamIsReadAsReference`). A template in a dictionary's key is neither filled nor refused
  (`BootstrapFill.TemplatedKeyIsPassedOn`): what filling returns is free of templates exactly when no key held one
  (`BootstrapFill.TemplatedKeysArePassedOn`).
- The site blocks answer for each hostname once exactly when no two redirects leave from one hostname, which the
  renderer does not check (`Caddyfile.HostnamesArePartitioned`, `Caddyfile.RepeatedSourceIsAccepted`).
- The comparison never looks at a record whose type is not probed (`ZoneDiff.NoDiffsIsExact`, `ZoneDiff.UnprobedRecordIsUnseen`),
  and its control catches an altered record only of a probed type (`ZoneDiff.ControlCatches`).
- A zone written to its file loads back as it was exactly when its values are spelled canonically and none of its keys is the
  provider's (`ZoneFile.WrittenZoneLoadsBack`).
- Exclusion holds as long as no removal takes away a slot that a session holds or is writing its owner file in
  (`SlotExclusion.ExclusionWhileSpared`), and a removal is safe in every such continuation exactly when it takes none
  (`SlotExclusion.StepIsSafeWhenItSpares`). Both gaps can break it: the one between the stale check and the removal
  (`SlotExclusion.SplitReclaimLosesExclusion`) and, for a session suspended longer than the orphan age, the one between
  creating an owner file and writing it (`SlotExclusion.SplitWriteLosesExclusion`).
- A document larger than the read-back's limit is installed and then reported as not read back: when no call fails, success
  is reported exactly for a document within the limit (`SeedProgram.Install`).
- A record whose `schema` is the JSON value `true` passes the check for 1 (`BootstrapRecord.TrueSchemaIsCurrent`), and no
  other value but 1 does (`BootstrapRecord.CurrentSchemaIsOne`).

## Model

| member | source | states |
|---|---|---|
| Slots.OwnerTextNamesItsProcess | hetzner/edge/dockerHarness.ts:380-391 | The owner text a session writes, read back and trimmed, is the session's own text and names its own process id, for every label. |
| SlotExclusion.MutualExclusion | hetzner/edge/dockerHarness.ts:488-545 | In every interleaving of any number of sessions, of one process or several and with equal labels or not, of deaths and of clock steps, in which each reclaim and each owner write is one step, no two live sessions hold the same slot, and at most `max` hold at once. |
| SlotExclusion.ExclusionWhileSpared | hetzner/edge/dockerHarness.ts:488-545 | The same with reclaims and owner writes in halves and other sessions' steps between them, as long as each removal that takes a slot away takes one that no session, at that moment, holds or has an owner file open for. |
| SlotExclusion.StepIsSafeWhenItSpares | hetzner/edge/dockerHarness.ts:488-545 | A removal is safe exactly when it spares: every sparing continuation after it keeps one holder for each slot if and only if it took away no slot that a session held or had an owner file open for. |
| SlotExclusion.RemoverRetakes | hetzner/edge/dockerHarness.ts:511-534 | When it did, the remover alone, going on, makes and takes the slot and two sessions hold it. |
| SlotExclusion.OneStepSpares | hetzner/edge/dockerHarness.ts:488-545 | Where reclaims and owner writes are one step, every removal does. |
| SlotExclusion.NextKeepsInv | hetzner/edge/dockerHarness.ts:488-545 | Every step that takes no slot out of a session's hands keeps: a slot has one holder, each holder's own text is in its slot, and an owner file being written is in its slot. |
| SlotExclusion.RunKeepsInv | hetzner/edge/dockerHarness.ts:488-545 | Every run of such steps keeps that invariant. |
| SlotExclusion.InvIsExclusive | hetzner/edge/dockerHarness.ts:488-545 | The invariant bounds the number of holders by `max`, each in a slot of its own. |
| SlotExclusion.HeldSlotIsNotStale | hetzner/edge/dockerHarness.ts:503-510 | A slot held by a session of a running process is stale neither by its owner nor by its age, at any clock value. |
| SlotExclusion.HeldSlotSurvives | hetzner/edge/dockerHarness.ts:488-545 | While a session holds a slot, no step but its own release, its process's death or a removal that takes that slot out of its hands touches the slot or the session, a suspended writer's owner write included. |
| SlotExclusion.DeadOwnerIsStale | hetzner/edge/dockerHarness.ts:370-391 | A slot whose owner's process is gone is stale whatever its age. |
| SlotExclusion.StaleIsExact | hetzner/edge/dockerHarness.ts:388-420 | What is reclaimed, slot by slot: a `pid=` owner whose process is gone at any age, or no owner text and a readable date more than ten seconds back; an owner file that cannot be read never. |
| SlotExclusion.OwnerPidIsExact | hetzner/edge/dockerHarness.ts:388-391 | A text names a process exactly when it is `pid=` and digits up to its end or a space. |
| SlotExclusion.ReleaseFreesSlot | hetzner/edge/dockerHarness.ts:536-541 | A session that holds a slot and releases it ends and its slot is gone, with every other slot and session as it was. |
| SlotExclusion.ReleasedSlotIsTaken | hetzner/edge/dockerHarness.ts:492-541 | After that a session that scans the slot makes it and holds it in two steps. |
| SlotExclusion.ReleaseSparesOthers | hetzner/edge/dockerHarness.ts:536-541 | A release that finds another text in its slot, or no slot, leaves every slot in place. |
| SlotTurnover.GivesUpExactly | hetzner/edge/dockerHarness.ts:488-558 | A session that seeks a slot gives up exactly at a refusal: a `mkdir` or an owner write that fails for good, a stale slot that may not be removed, or a pass that ends past its deadline. No slot has changed then; a pass that ends in time begins again at slot 1. |
| SlotTurnover.LostSlotIsPassedOver | hetzner/edge/dockerHarness.ts:524-534 | A slot lost between its `mkdir` and its owner file is left as it is and the next one is tried. |
| SlotTurnover.FailedReleaseLeavesSlot | hetzner/edge/dockerHarness.ts:536-541 | A release whose removal fails ends and changes no slot. |
| SlotTurnover.DeadHoldersSlotIsTaken | hetzner/edge/dockerHarness.ts:503-545 | A holder's process dies: any session of another process that scans the slot reclaims it, makes it and holds it. |
| SlotTurnover.UnownedSlotIsReclaimed | hetzner/edge/dockerHarness.ts:396-420 | A slot whose maker dies before it creates the owner file is stale exactly once it is more than ten seconds old. |
| SlotTurnover.UnwrittenSlotIsReclaimed | hetzner/edge/dockerHarness.ts:396-420 | So is one whose maker dies between creating the owner file and writing it. |
| SlotExclusion.ReclaimIsCheckThenRemove | hetzner/edge/dockerHarness.ts:503-522 | The one-step reclaim is exactly the check followed by the removal. |
| SlotExclusion.SplitReclaimLosesExclusion | hetzner/edge/dockerHarness.ts:503-522 | With another session's steps between the check and the removal, a run exists in which two live sessions hold one slot: a removal meets a slot that was taken since. |
| SlotExclusion.WriteIsOpenThenFill | hetzner/edge/dockerHarness.ts:526-534 | The one-step owner write is exactly an exclusive creation followed by the writing of the text, and takes a slot that has no owner file. |
| SlotExclusion.SplitWriteLosesExclusion | hetzner/edge/dockerHarness.ts:526-534 | A session suspended for more than the orphan age between creating its owner file and writing it is reclaimed, and a run exists in which it and the reclaimer both hold the slot. |
| SlotScan.ScanOnce | hetzner/edge/dockerHarness.ts:495-530 | One pass, with its `i -= 1` retry, takes the first slot that is absent or stale and removable, changes no other slot, says what it did, and is a run of the slot machine. |
| SlotScan.PassMakesProgress | hetzner/edge/dockerHarness.ts:495-545 | When removals succeed, a pass takes a slot exactly when some slot is absent or stale, within `max + 1` attempts at `mkdir`. |
| DockerCalls.DockerCall.constructor | hetzner/edge/dockerHarness.ts:94-136 | A started call is unsettled and live, with its deadline timer. |
| DockerCalls.DockerCall.Finish | hetzner/edge/dockerHarness.ts:109-117 | Settling clears the timers, leaves the live set and resolves once; a second call changes nothing. |
| DockerCalls.DockerCall.OnExit | hetzner/edge/dockerHarness.ts:126-129 | An exit adds the grace timer with its status, unless the call is settled. |
| DockerCalls.DockerCall.OnClose | hetzner/edge/dockerHarness.ts:125-125 | A close settles with its status. |
| DockerCalls.DockerCall.OnError | hetzner/edge/dockerHarness.ts:121-124 | An error settles with no status. |
| DockerCalls.DockerCall.OnTimer | hetzner/edge/dockerHarness.ts:127-136 | A timer's firing marks the timeout and sets the kill grace, or settles. |
| DockerCalls.SettlesOnceInTime | hetzner/edge/dockerHarness.ts:88-138 | For every order of close, exit, error and timer events the call resolves at most once, has resolved once the deadline plus 2000 ms is past and never later than that, is live exactly until then, and says it timed out only at or after the deadline and always after it. |
| DockerCalls.ExitBoundsTheWait | hetzner/edge/dockerHarness.ts:88-138 | A child's exit bounds the rest of the wait by the exit grace. |
| DockerCalls.NeverStuck | hetzner/edge/dockerHarness.ts:88-138 | An unsettled call always has an event that can happen. |
| DockerCalls.EndSettles | hetzner/edge/dockerHarness.ts:121-125 | In every run, a close of an unsettled call settles it at once with exactly its status, and an error with none. |
| DockerCalls.StatusIsTheClients | hetzner/edge/dockerHarness.ts:88-138 | A status the promise resolves with is one that the client closed or exited with in that very run. |
| DockerCalls.ExitSettles | hetzner/edge/dockerHarness.ts:126-129 | An exit followed by nothing but its 500 ms settles the call with the exit's status at that moment. |
| DockerCalls.DeadlineSettles | hetzner/edge/dockerHarness.ts:130-136 | A call the client never ends is marked timed out at its deadline and settles with no status 2000 ms later. |
| DockerCalls.SettledIsFinal | hetzner/edge/dockerHarness.ts:109-117 | After it has settled, no event changes anything but the time. |
| DockerCalls.DeadlineIsKept | hetzner/edge/dockerHarness.ts:130-136 | A deadline of 1 to 2147483647 ms is kept: the promise has resolved by 2000 ms after it. |
| DockerCalls.OutOfRangeDeadlineIsShort | hetzner/edge/dockerHarness.ts:130-136 | Any other deadline is one of 1 ms. |
| TenantScan.DeclarationIndex.constructor | hetzner/tenants.structure.scan.ts:182-205 | The walk's two maps hold, for every name, the number of its declarations and its last binding. |
| TenantScan.StripWrappers | hetzner/tenants.structure.scan.ts:207-219 | The loop takes off every outer parenthesis and type assertion. |
| TenantSoundness.ResolutionIsSound | hetzner/tenants.structure.scan.ts:244-292 | When an expression resolves to a module or a module's member, every value it can evaluate to, through aliases, destructuring and imports, is exactly that. |
| TenantSoundness.SoleDeclarationBinds | hetzner/tenants.structure.scan.ts:269-279 | The one declaration of a name is the one its recorded binding comes from. |
| TenantFollow.ResolutionIsExact | hetzner/tenants.structure.scan.ts:244-292 | Resolution, which ends on cyclic aliases, finds exactly what following bindings without a guard reaches in some number of steps. |
| TenantFollow.FollowedIsResolved | hetzner/tenants.structure.scan.ts:244-292 | The set of seen names cuts nothing that following could reach. |
| TenantFollow.ResolvedIsFollowed | hetzner/tenants.structure.scan.ts:244-292 | What is resolved is reached by following, in a number of steps the lemma gives. |
| TenantComplete.ResolvesWhatIsDenoted | hetzner/tenants.structure.scan.ts:102-292 | Resolution is complete: the scan resolves an expression to a module or a member exactly when the declaring nodes, read without the index, make it denote that, cyclic aliases and all. |
| TenantComplete.NameResolvesAsDeclared | hetzner/tenants.structure.scan.ts:244-292 | A name declared once resolves as its declaration says; when that is a namespace import, so do `name.key` and `name["key"]`. |
| TenantComplete.BindingOfEachKind | hetzner/tenants.structure.scan.ts:102-164 | What each kind of declaration binds: a value import of a recognised package its module or member, a sole `const` alias what its source denotes, a plain destructured element the member it names. |
| TenantComplete.ConstructionIsWhatIsDenoted | hetzner/tenants.structure.scan.ts:294-306 | A `new` is classified by what its callee denotes: unresolved, forbidden, Host and route each exactly then. |
| TenantComplete.AllowedNewIsNotReported | hetzner/tenants.structure.scan.ts:471-495 | A `new` of a member the file may construct is never reported forbidden or unresolved, whatever imports and aliases it goes through. |
| TenantGates.TwiceDeclaredIsUnresolved | hetzner/tenants.structure.scan.ts:182-279 | A name with a second declaration of any kind, a parameter that shadows it included, resolves to nothing. |
| TenantScan.LookUnderApplies | hetzner/tenants.structure.scan.ts:414-421 | The loop takes off every outer `.apply(...)` call and wrapper. |
| TenantSoundness.LaterPropertiesKeepKey | hetzner/tenants.structure.scan.ts:400-413 | Under last-write-wins evaluation with spreads and computed keys, a key that nothing later can write has the value of its own property. |
| TenantSoundness.AppliesKeepVerified | hetzner/tenants.structure.scan.ts:414-428 | An expression that is a `verified` call under its `.apply` calls evaluates to a value made from that call. |
| TenantSoundness.GatedRouteIsVerified | hetzner/tenants.structure.scan.ts:386-430 | A gated route's evaluated props have a `networkId` that came from a call of `verified`. |
| TenantSoundness.GatedHostCarriesGate | hetzner/tenants.structure.scan.ts:353-372 | A gated Host's evaluated options list the file's one exported gate among their transformations. |
| TenantGates.GatedRouteIsExact | hetzner/tenants.structure.scan.ts:386-430 | A route is gated exactly when its props are a literal whose one `networkId` calls the file's own `verified` under any `.apply` calls, with no spread after it and every key written out. |
| TenantGates.VerifyCallIsExact | hetzner/tenants.structure.scan.ts:414-428 | The value is such a call exactly when `verified` is declared once, in a form that can be followed, and is called with one argument. |
| TenantGates.GatedHostIsExact | hetzner/tenants.structure.scan.ts:353-372 | A Host is gated exactly when its options are a literal with one assigned `transformations`, an array that lists the real gate by name, and no key that is not written out. |
| TenantGates.RealGateIsExact | hetzner/tenants.structure.scan.ts:333-351 | The gate is real exactly when its one declaration in the file is a sole, exported, top-level `const`. |
| TenantScan.DescribeHostViolations | hetzner/tenants.structure.scan.ts:432-451 | The Host violations are exactly: no Host, a number other than two, and each Host without its gate. |
| TenantScan.ScanNews | hetzner/tenants.structure.scan.ts:482-493 | The loop over every `new` reports exactly the forbidden, the unresolved and the ungated routes, and collects the Hosts in order. |
| TenantScan.ScanTenantsSource | hetzner/tenants.structure.scan.ts:471-495 | The scan reports exactly the violations of the program. |
| TenantSoundness.ExpressionIsScanned | hetzner/tenants.structure.scan.ts:453-463 | A `new` at any depth of any expression is among those scanned. |
| TenantGates.ScannedIsExact | hetzner/tenants.structure.scan.ts:453-463 | What is scanned is exactly the `new` expressions that occur in the program, at any depth. |
| TenantGates.NewReportIsExact | hetzner/tenants.structure.scan.ts:471-495 | A `new` is reported forbidden, unresolved or ungated exactly by what its callee denotes. |
| TenantGates.HostReportIsExact | hetzner/tenants.structure.scan.ts:432-451 | No Host at all is reported exactly when no `new` constructs one, each Host exactly when there are not two, and each that is not gated. |
| TenantSoundness.AcceptedNewIsFine | hetzner/tenants.structure.scan.ts:471-495 | In an accepted program each `new` is an allowed member, a gated Host or a gated route, and there are exactly two Hosts. |
| TenantSoundness.AcceptedProgramIsGated | hetzner/tenants.structure.scan.ts:471-495 | In an accepted program whatever a `new` evaluates to construct is an allowed member; there are exactly two Hosts, each carrying the gate; and each route's evaluated `networkId` came from `verified`. |
| TenantExample.ExampleIsAccepted | hetzner/tenants.structure.scan.ts:471-495 | A program with two gated Hosts and a gated route is accepted. |
| SeedSafety.DestinationIsUnchangedOrWhole | ansible/tools/seed_host_inputs.py:554-579 | After every prefix of the steps of any number of runs, with crashes, short writes or a loss of power anywhere, the destination is as it was or one run's complete document, owned by root with mode 0600. |
| SeedSafety.NothingIsOverwritten | ansible/tools/seed_host_inputs.py:568-574 | Without `replace` an existing destination is never replaced, and of all such runs at most one puts its file in place. |
| SeedSafety.OneRunSucceeds | ansible/tools/seed_host_inputs.py:568-579 | Of any runs without `replace`, however they interleave, at most one ends in success, and none when a destination was there. |
| SeedSafety.EndedRunLeavesNoTemporary | ansible/tools/seed_host_inputs.py:554-579 | A run whose final removal was made left no temporary file, whatever its outcome; one that could not open its file left its temporary name as it was before. |
| SeedSafety.BytesAreAlwaysClosed | ansible/tools/seed_host_inputs.py:550-565 | No byte of a document is ever in a file that is not root's with mode 0600, at any moment of any run. |
| SeedDurability.SuccessSurvivesPowerLoss | ansible/tools/seed_host_inputs.py:554-579 | Once any run is past its directory flush, a loss of power at any later moment brings back some run's whole document: never nothing and never what was there before. |
| SeedDurability.OnlyFlushSettles | ansible/tools/seed_host_inputs.py:568-575 | What a loss of power may bring back only grows, by what is placed, until a directory flush is done. |
| SeedDurability.ExistsMeansThere | ansible/tools/seed_host_inputs.py:570-574 | A run says that the destination exists only when it was not to replace it, it is there, and the run put nothing there. |
| SeedDurability.PlacedMeansPlaced | ansible/tools/seed_host_inputs.py:568-579 | A run that fails its read-back has placed its file, and one that replaced the destination has nothing left to sweep. |
| SeedDurability.ReadBackIsExact | ansible/tools/seed_host_inputs.py:576-589 | Reading back succeeds exactly for the run's own document, root's and with mode 0600, of at most a megabyte; anything else is "not read back". |
| SeedDurability.OpeningIsExclusive | ansible/tools/seed_host_inputs.py:558-559 | A temporary name that is taken is never opened, and a new file starts empty. |
| SeedDurability.StoppedRunIsSilent | ansible/tools/seed_host_inputs.py:554-579 | A run that was stopped, or has ended, changes nothing any more. |
| SeedSafety.NextKeepsInv | ansible/tools/seed_host_inputs.py:554-579 | Every step of every run keeps what these rest on, whatever the other runs are doing. |
| SeedProgram.WriteAll | ansible/tools/seed_host_inputs.py:544-547 | The write loop, through writes of any length, writes the whole document and touches no name, when no write fails; a failed write leads to the clean-up. |
| SeedProgram.Prepare | ansible/tools/seed_host_inputs.py:562-563 | Mode and owner are set before the first write, exactly when neither call fails; otherwise the run goes to its clean-up. |
| SeedProgram.Build | ansible/tools/seed_host_inputs.py:559-567 | When no call fails and the temporary name is free, the temporary file holds the whole document, closed to root; a taken name ends the run with the disk as it was. |
| SeedProgram.Flush | ansible/tools/seed_host_inputs.py:565-567 | The written file is flushed and closed, exactly when neither call fails. |
| SeedProgram.PlaceAndCheck | ansible/tools/seed_host_inputs.py:568-589 | When no call fails: an existing destination that may not be replaced is reported and left alone, and otherwise the document is at the destination, reported read back exactly when it is within the limit. Success is never reported otherwise. |
| SeedProgram.FlushAndReadBack | ansible/tools/seed_host_inputs.py:575-589 | Reading back succeeds exactly when the destination is the finished document and no larger than the limit. |
| SeedProgram.Sweep | ansible/tools/seed_host_inputs.py:577-579 | The temporary name is removed and nothing else, a missing one being no failure. |
| SeedProgram.Install | ansible/tools/seed_host_inputs.py:554-589 | Whatever fails, the calls made are a run of the machine, the run ends, and it reports success only when the destination holds the whole document. When no call fails the outcome and the directory are determined: refused with nothing changed for a taken temporary name or a destination that may not be replaced, and otherwise installed with no temporary left and no other name changed, with success exactly when the document is within the limit. |
| SeedProgram.StoppedAnywhere | ansible/tools/seed_host_inputs.py:554-579 | Stopping the program after any of its calls is a run of the machine too. |
| PgpPackets.HeaderBits | hetzner-host/cloudInit.ts:305-334 | The bit masks and shifts of a header octet are the quotients and remainders the grammar uses. |
| PgpPackets.HeaderOctet | hetzner-host/cloudInit.ts:305-334 | Masking and shifting the octet gives the two marks, the tag in either form and the width of an old length. |
| PgpPackets.HeaderAt | hetzner-host/cloudInit.ts:306-340 | The cursor reads one header and length, or refuses, as the reading function does. |
| PgpPackets.ReadOctets | hetzner-host/cloudInit.ts:284-299 | The length loop reads the big-endian number of its octets, or finds the data too short. |
| PgpPackets.PgpPacketTags | hetzner-host/cloudInit.ts:301-348 | The cursor loop computes the recursive walk, refusals included. |
| PgpPackets.WrittenIsRead | hetzner-host/cloudInit.ts:301-348 | A packet written in any of the forms of section 4.2 of RFC 4880 with a definite length is read back, whatever follows. |
| PgpPackets.ReadIsWritten | hetzner-host/cloudInit.ts:301-348 | What is read at the front of the data is the writing of one packet. |
| PgpPackets.WalkOfPackets | hetzner-host/cloudInit.ts:301-348 | Walking the writing of any list of packets returns its tags in order. |
| PgpPackets.AcceptedIsPackets | hetzner-host/cloudInit.ts:301-348 | Accepted bytes are tiled by packets, which the lemma gives. |
| PgpPackets.PacketsAreUnique | hetzner-host/cloudInit.ts:301-348 | No two lists of packets are written the same. |
| PgpPackets.WalkIsExact | hetzner-host/cloudInit.ts:301-348 | Bytes are accepted with given tags exactly when they are the writing of a list of packets with those tags. |
| PgpPackets.WalkOfConcatenation | hetzner-host/cloudInit.ts:301-348 | Walking accepted bytes followed by others returns the tags of the first and then the result for the others. |
| PgpPackets.SecretKeysAreRefused | hetzner-host/cloudInit.ts:372-384 | A secret key packet anywhere among well-formed packets has the block refused. |
| PgpPackets.PublicKeyIsExact | hetzner-host/cloudInit.ts:372-384 | Bytes pass the check on a signer's data exactly when they are packets written one after another, the first a public key and every one of a public key's five types; so an ordinary exported key is accepted. |
| PgpPackets.FrontFaults | hetzner-host/cloudInit.ts:301-340 | Each of the four refusals of a header, exactly by its octets. |
| PgpPackets.RefusedAtFault | hetzner-host/cloudInit.ts:301-348 | Refused data is some whole packets and then the fault that is reported. |
| PgpPackets.FaultIsReported | hetzner-host/cloudInit.ts:301-348 | Whole packets followed by a fault are refused with that fault. |
| Enrolment.CommandAt | hetzner-host/cloudInit.ts:553-593 | Where each kind of command stands in the script. |
| Enrolment.CommandKeepsInv | hetzner-host/cloudInit.ts:553-593 | Each command that succeeds leaves the host in the state the next one assumes. |
| Enrolment.RunIsReached | hetzner-host/cloudInit.ts:553-593 | Every run, each command free to fail, is before a command with all earlier ones done, or stopped at one that failed. |
| Enrolment.TriggerOnlyAfterChecks | hetzner-host/cloudInit.ts:547-593 | At every moment of every run from a fresh host the pull program is in place only if all three files have the recorded hashes and the engine install succeeded, and then it is the file that was checked. |
| Enrolment.DoneMarkerMeansDone | hetzner-host/cloudInit.ts:553-593 | The done marker exists only when every command before its own write succeeded, and a completed run leaves it reading `ok` with the record's own configuration. |
| Enrolment.FailureNamesItsStep | hetzner-host/cloudInit.ts:553-593 | A failure after the trap is set records the step it stopped at when the marker can be written; one before it records nothing. |
| Enrolment.StepsAreNamed | hetzner-host/cloudInit.ts:547-593 | The step name in force at each command that can fail: its own fetch, check, install, configuration or marker. |
| Enrolment.OldMarkersAreCleared | hetzner-host/cloudInit.ts:565-565 | Whatever markers a host had, past their removal neither is there until the run itself writes one. |
| Enrolment.EngineMeansInstalled | hetzner-host/cloudInit.ts:579-580 | From a fresh host the engine is installed exactly when the run got past that command. |
| Enrolment.CommandWritesItsTarget | hetzner-host/cloudInit.ts:571-592 | A command that fails may leave anything in the file it was writing, one that succeeds leaves a file there, and no command writes another's. |
| Enrolment.GoodRunCompletes | hetzner-host/cloudInit.ts:553-593 | When every command goes well and the fetched files are the recorded ones, the script runs to its end. |
| Heredoc.HeredocRoundTrip | hetzner-host/cloudInit.ts:388-397 | Text that ends in a newline and has no delimiter line is read back from the here-document exactly, with what follows it left to the shell. |
| Heredoc.AcceptedConfigIsReadBack | hetzner-host/cloudInit.ts:388-397 | So it is for every configuration that is accepted. |
| Heredoc.AcceptableTextIsExact | hetzner-host/cloudInit.ts:388-397 | A text is accepted exactly when it has 1 to 16384 printable characters and newlines, ends in a newline, and the closing line stands nowhere in it as a line. |
| ZoneAgreement.NameRoundTrip | hetzner/dns/zonecheck.py:75-79 | A name made fully qualified and read back from a transcript is itself in lower case. |
| ZoneAgreement.TokenRoundTrip | hetzner/dns/zonecheck.py:145-180 | The type token a query is recorded with gives the type back. |
| ZoneAgreement.TextIsReadBack | hetzner/dns/zonecheck.py:384-413 | Parsing the recorder's text gives its blocks back, in order, up to empty lines at their ends. |
| ZoneAgreement.BlockIsReadAsAnswer | hetzner/dns/zonecheck.py:419-446 | One block read from a transcript adds exactly the answer the query had. |
| ZoneAgreement.RoutesAgree | hetzner/dns/zonecheck.py:419-446 | Reading the blocks of a list of queries gives what capturing them gives, errors included. |
| ZoneAgreement.ProbesAreAll | hetzner/dns/zonecheck.py:240-260 | The probes are every name with every probed type but the provider's own records. |
| ZoneAgreement.CaptureAgreement | hetzner/dns/zonecheck.py:384-446 | For lower-case names and answers with no line like a query header, the zone read from the recorder's text has exactly the captured rrsets, every query sent and every name's rcode. |
| ZoneAgreement.CapturedZonePassesItsCheck | hetzner/dns/zonecheck.py:449-478 | A zone declared from a capture passes the check of that capture's transcript exactly when each rcode is the expected one. |
| ZoneAnswers.RecordsAreThePrinted | hetzner/dns/zonecheck.py:106-131 | A TTL and value are among the records read exactly when some line prints them for the name asked about, in any case of letters, and for the type or its TYPEnn spelling. |
| ZoneAnswers.StatusIsTheLast | hetzner/dns/zonecheck.py:111-116 | The rcode is the status of the last comment that has one, and there is none exactly when none has. |
| ZoneAnswers.FlagsAreTheLast | hetzner/dns/zonecheck.py:117-119 | The flags are those of the last comment that has any. |
| ZoneAnswers.OtherRecordChangesNothing | hetzner/dns/zonecheck.py:124-128 | A record line of another owner or type leaves the answer as it would be without it. |
| ZoneAnswers.AskIsExact | hetzner/dns/zonecheck.py:145-180 | A query answers exactly when the last status is NOERROR or NXDOMAIN and the last flags hold `aa`, with what was printed; each of its three refusals is told by the same lines. |
| ZoneAnswers.CapturedIsThePrinted | hetzner/dns/zonecheck.py:240-260 | A capture succeeds exactly when every key is answered with one TTL, and then has an rrset for exactly the keys a value was printed for, with the values printed for that name and type. |
| ZoneAnswers.FqdnIsQualified | hetzner/dns/zonecheck.py:75-79 | The name asked about is the owner, the zone without its final dots and one dot, in lower case. |
| ZoneAnswers.ProbedIsExact | hetzner/dns/zonecheck.py:240-248 | Each of the twelve probed types is asked for of every name, but for the NS records of the apex. |
| ZoneAnswers.ReadBlockIsExact | hetzner/dns/zonecheck.py:425-446 | A transcript's block is refused exactly for a name outside the zone, no status or no `aa`; one that is read adds its query, and its rcode when it asks for A. |
| ZoneAnswers.NameInZoneIsLower | hetzner/dns/zonecheck.py:427-433 | The name read back is in lower case and is what stands before the zone's name. |
| ZoneAnswers.RefusedIsTextBefore | hetzner/dns/zonecheck.py:402-413 | A transcript's text is refused exactly when a line with something on it comes before the first query's. |
| ZoneAnswers.ExpectedRcodeIsExact | hetzner/dns/zonecheck.py:199-205 | NOERROR is expected of the apex, of a name that holds records and of one with a name below it, empty itself or not, and NXDOMAIN of any other. |
| ZoneAnswers.CheckIsExact | hetzner/dns/zonecheck.py:449-478 | The check of a transcript finds nothing exactly when it shows the declared rrsets, holds every probed type of every declared name and the apex SOA, and gives each name the rcode expected of it. |
| ZoneAnswers.ProblemsAreExact | hetzner/dns/zonecheck.py:457-477 | Each of its five problems is found exactly when it is one. |
| ZoneProgram.Recorder.constructor | hetzner/dns/zonecheck.py:387-389 | A recorder starts with nothing kept. |
| ZoneProgram.Recorder.Run | hetzner/dns/zonecheck.py:391-396 | The recorder passes on the runner's answer and keeps it, stripped, after those before. |
| ZoneProgram.Recorder.Text | hetzner/dns/zonecheck.py:398-399 | Its text is the kept blocks with a blank line between. |
| ZoneProgram.Query | hetzner/dns/zonecheck.py:145-180 | A query through the recorder gives the server's answer and records it. |
| ZoneProgram.CaptureName | hetzner/dns/zonecheck.py:240-260 | The probes of one name are added to what was captured before, and the first failure stops it. |
| ZoneProgram.Capture | hetzner/dns/zonecheck.py:240-260 | The capture loops give what asking every probe in turn gives, and record every query. |
| ZoneProgram.ParseLines | hetzner/dns/zonecheck.py:402-413 | The line loop splits a transcript into its blocks, or refuses text before the first header. |
| ZoneProgram.ReadTranscript | hetzner/dns/zonecheck.py:419-446 | The block loop computes the zone a transcript shows. |
| ZoneDiff.DiffServer | hetzner/dns/zonecheck.py:280-297 | The loops report exactly the rcode, value and TTL differences of the names and probed types the provider does not own. |
| ZoneDiff.DiffName | hetzner/dns/zonecheck.py:287-296 | One name's types add exactly that name's differences. |
| ZoneDiff.NoDiffsIsExact | hetzner/dns/zonecheck.py:280-297 | Nothing is reported exactly when every rcode, and every value set (and TTL when asked) of a probed type not the provider's, is the zone's. |
| ZoneDiff.DiffKindsAreExact | hetzner/dns/zonecheck.py:287-296 | Of one key, a value diff is reported exactly when the values differ, and a TTL diff when they do not, TTLs are checked and some record has another. |
| ZoneDiff.UnprobedRecordIsUnseen | hetzner/dns/zonecheck.py:280-297 | A record of a type that is not probed, under a name the zone has, changes nothing that is reported, whatever its TTL and values. |
| ZoneDiff.ControlCatches | hetzner/dns/zonecheck.py:317-323 | When nothing is reported, the comparison with the altered copy reports the altered key exactly when its type is probed and not the provider's and its values were not the sentinel already. |
| ZoneDiff.AlteredIsOneValue | hetzner/dns/zonecheck.py:317-323 | The altered copy is the zone but for the values of one key. |
| ZoneDiff.Compare | hetzner/dns/zonecheck.py:332-370 | Over every server of both sides: the diffs are exactly the servers' own, and the failures exactly the pairs that serve one apex NS set and the servers whose altered copy went unreported. |
| ZoneDiff.ReportedIsControl | hetzner/dns/zonecheck.py:363-365 | Where nothing differs, what is printed under the altered key is the altered value and nothing else. |
| ZoneDiff.ProbedTypeIsValues | hetzner/dns/zonecheck.py:363-363 | Only a diff of values is printed under a probed type. |
| ZoneDiff.EmptyReportIsExact | hetzner/dns/zonecheck.py:332-370 | A report is empty exactly when every server gives the zone's answers, no two sides share an apex NS set and, if there is any server, the altered key is one the comparison looks at. |
| ZoneFile.WordsOfJoined | hetzner/dns/zonecheck.py:96-103 | Words joined by blanks split into the same words. |
| ZoneFile.NormaliseTwice | hetzner/dns/zonecheck.py:82-103 | A canonical value is its own canonical value, for every record type. |
| ZoneFile.NormaliseIsExact | hetzner/dns/zonecheck.py:82-103 | The canonical value of each type: TXT stripped and no more, addresses as the library spells them, any other type as its words one blank apart with its domain name or tag folded. |
| ZoneFile.SpellingIsExact | hetzner/dns/zonecheck.py:43-44 | Exactly the domain name of a CNAME, NS, PTR, MX or SRV is folded and dotted, and the tag of a CAA folded. |
| ZoneFile.WordsAround | hetzner/dns/zonecheck.py:96-96 | The words of a text cut at a blank are the words of its parts. |
| ZoneFile.LoadZone | hetzner/dns/zonecheck.py:208-220 | Loading gives one rrset for each entry, with its canonical values, and is refused exactly when a key is repeated or the provider's, or an address is none. |
| ZoneFile.LoadedIsNormal | hetzner/dns/zonecheck.py:208-220 | What is loaded is spelled canonically and holds no key of the provider. |
| ZoneFile.WrittenZoneLoadsBack | hetzner/dns/zonecheck.py:208-232 | Writing a zone and loading what was written gives the zone back exactly when its values are spelled canonically and none of its keys is the provider's. |
| BootstrapRecord.LastChange | ansible/tools/pull_bootstrap.py:493-503 | The last commit of a file is one that changes it with none after it, and there is none exactly when no commit changes it. |
| BootstrapRecord.BuildRecord | ansible/tools/pull_bootstrap.py:533-551 | Building gives a current record with exactly its five keys and schema 1; it refuses only when no record is current, with the reason of the checkout before that of the configuration. |
| BootstrapRecord.BuildEntry | ansible/tools/pull_bootstrap.py:543-549 | A file's entry is current, and is refused only when it can have none. |
| BootstrapRecord.VerifyEntry | ansible/tools/pull_bootstrap.py:576-598 | Each of the seven things wrong with an entry is reported exactly when it is, an entry that has a known pin but a file no commit changed is refused, and nothing is reported exactly for the current entry. |
| BootstrapRecord.VerifyPinned | ansible/tools/pull_bootstrap.py:585-598 | The checks past the pin report exactly the problems there are. |
| BootstrapRecord.VerifyRecord | ansible/tools/pull_bootstrap.py:554-573 | Whatever JSON the record is, each problem is reported exactly when it is one, and none exactly when the record is current. |
| BootstrapRecord.VerifyFile | ansible/tools/pull_bootstrap.py:563-567 | One file of the loop adds exactly its own problems, an entry that cannot be checked being one. |
| BootstrapRecord.CurrentEntryParts | ansible/tools/pull_bootstrap.py:576-598 | An entry is current exactly when its three fields are the last commit, the digest of the file there and the address of both. |
| BootstrapRecord.AllPassIsCurrent | ansible/tools/pull_bootstrap.py:576-598 | An entry is current exactly when none of the seven checks fails and its last commit can be told. |
| BootstrapRecord.PinnedFileIsTheTips | ansible/tools/pull_bootstrap.py:576-598 | In a current record the file at each pin is the file at main's tip, and the digest and the address are that file's. |
| BootstrapRecord.CurrentRecordsAgree | ansible/tools/pull_bootstrap.py:533-573 | Two current records hold the same entries and configuration, so the checker accepts only what the producer builds. |
| BootstrapRecord.TrueSchemaIsCurrent | ansible/tools/pull_bootstrap.py:557-558 | A current record whose schema is replaced by `true` is still current, and so is not reported. |
| BootstrapRecord.CurrentSchemaIsOne | ansible/tools/pull_bootstrap.py:557-558 | The schema of a current record is 1 exactly when it is not `true`. |
| BootstrapRecord.RecordIsExact | ansible/tools/pull_bootstrap.py:533-598 | Field by field: a record is current exactly when HEAD is the remote's tip in a whole clone, the schema is 1 or `true`, the configuration is the one rendered, and each of the three files, at its own path, has the pin, digest and address HEAD gives. |
| BootstrapRecord.EntryIsExact | ansible/tools/pull_bootstrap.py:511-549 | An entry is current exactly when it has the commit where the file became what it is at HEAD, the digest of its content there, and the address of that path at that commit. |
| BootstrapRecord.TipIsExact | ansible/tools/pull_bootstrap.py:453-490 | A checkout is accepted exactly when the clone is whole and HEAD is the remote's tip, and each refusal has its own reason. |
| BootstrapRecord.CurrentRecordExists | ansible/tools/pull_bootstrap.py:473-551 | A current record exists exactly when HEAD is main's whole, freshly fetched tip, the configuration renders and HEAD holds all three files. |
| BootstrapRecord.RecordOutlivesCommit | ansible/tools/pull_bootstrap.py:554-598 | After one more commit on main a current record is still current exactly when the commit leaves the three files and the configuration as they were. |
| BootstrapFill.MergeVariables | ansible/tools/pull_bootstrap.py:198-217 | Merging gives exactly the union of the sources, and is refused exactly when two set one name, naming it and both owners. |
| BootstrapFill.MergeIgnoresOrder | ansible/tools/pull_bootstrap.py:198-217 | Any other order of the sources is refused alike and merges to the same map. |
| BootstrapFill.FillText | ansible/tools/pull_bootstrap.py:287-315 | The loop with its early exits is three rounds of substitution, refused when a template remains. |
| BootstrapFill.ReferenceIsExact | ansible/tools/pull_bootstrap.py:133-133 | A text starts with a reference exactly when it starts with a name of lower-case letters and underscores between its braces, one blank inside each. |
| BootstrapFill.NamedIsExact | ansible/tools/pull_bootstrap.py:318-332 | A name that is not set is told from one that is no text. |
| BootstrapFill.RefusedAtReference | ansible/tools/pull_bootstrap.py:302-308 | A round is refused for a reference that has no text, with that reference's own refusal. |
| BootstrapFill.FillIsExact | ansible/tools/pull_bootstrap.py:287-301 | Filling a value fills each of its texts and keeps its shape, its keys and whatever is no text. |
| BootstrapFill.RefusedForText | ansible/tools/pull_bootstrap.py:287-301 | A value is refused for one of its texts, with that text's own refusal. |
| BootstrapFill.SubOfPlain | ansible/tools/pull_bootstrap.py:302-310 | Text without a template mark is left alone by substitution. |
| BootstrapFill.FilledIsTemplateFree | ansible/tools/pull_bootstrap.py:287-315 | What filling returns holds no template, at any depth of lists and dictionaries, outside the dictionaries' keys, and filling it again changes nothing. |
| BootstrapFill.TemplateFreeIsKept | ansible/tools/pull_bootstrap.py:287-315 | A value without a template is passed on unchanged. |
| BootstrapFill.TemplatedKeyIsPassedOn | ansible/tools/pull_bootstrap.py:300-301 | A dictionary with any reference for a key is passed on as it is, template and all. |
| BootstrapFill.TemplatedKeysArePassedOn | ansible/tools/pull_bootstrap.py:298-301 | For every value that is filled, the result is free of templates, keys included, exactly when no key of the value, at any depth, held one. |
| BootstrapExpansion.TokensTile | ansible/tools/pull_bootstrap.py:133-135 | A text is tiled by its references and the literal text between them. |
| BootstrapExpansion.SubReplacesTokens | ansible/tools/pull_bootstrap.py:302-310 | For every text, one round replaces each reference with its variable's text and nothing else, and is refused exactly when a name has no text. |
| BootstrapExpansion.TokensAround | ansible/tools/pull_bootstrap.py:133-135 | A reference in a text is read as itself whatever stands around it, and cuts the text in two. |
| BootstrapExpansion.RenderedExpandsTheSame | ansible/tools/pull_bootstrap.py:302-311 | Reading a filled text again expands only what its pieces expand, and to the same unless the expansion holds a template. |
| BootstrapExpansion.FillIsExpansion | ansible/tools/pull_bootstrap.py:287-315 | For every text and all variables: where recursive expansion does not end within three levels, filling is refused; where it does, filling gives the expansion if and only if the expansion holds no template. |
| BootstrapExpansion.ExpansionIsStable | ansible/tools/pull_bootstrap.py:136-137 | An expansion that needs fewer levels is the same with more, so the bound changes no result. |
| BootstrapExpansion.CyclesAreRefused | ansible/tools/pull_bootstrap.py:287-315 | Every text that leads into a cycle of references, or to a name with no text, has no expansion at any depth and is refused. |
| BootstrapExpansion.SeamIsReadAsReference | ansible/tools/pull_bootstrap.py:302-310 | Where an expansion holds a template, filling can take it for a reference that no text holds, for any two names and any value. |
| CiSelect.NeededUnits | ansible/checks/ci_select.py:697-734 | The worklist ends with every shard exactly when a rule says so, and otherwise with the least set that holds the changed files' units and is closed under references. |
| CiSelect.ReadersOf | ansible/checks/ci_select.py:718-723 | The readers of a path outside ansible/ are the units that read it or a directory above it. |
| CiSelect.UnitIsTheDirectory | ansible/checks/ci_select.py:65-65 | A path lies in a unit exactly when it names something inside the directory, which is one directly under `ansible/roles/` or `ansible/patterns/`; the unit is that path without its slash. |
| CiSelect.RunsEverythingIsExact | ansible/checks/ci_select.py:697-716 | A path runs every shard exactly when it is one of the listed files or under `ansible/harness/`, or under `ansible/` in no unit, not in the skeleton and not only linted. |
| CiSelect.SeedsAreExact | ansible/checks/ci_select.py:705-723 | What a changed path calls for by itself: its unit, the skeleton, or the units that read it or a directory above it. |
| CiSelect.Close | ansible/checks/ci_select.py:724-731 | The worklist alone computes the least closed set. |
| CiSelect.NeededIsReached | ansible/checks/ci_select.py:697-734 | A unit is selected exactly when a chain of references leads to it from a changed file. |
| CiSelect.SelectionIsHomomorphic | ansible/checks/ci_select.py:697-734 | Selection distributes over lists of changed files, with "every shard" absorbing. |
| CiSelect.SelectionIsMonotone | ansible/checks/ci_select.py:684-734 | More changed files, more readers, more references or an unmapped reference never drop a unit. |
| CiSelect.Select | ansible/checks/ci_select.py:737-753 | A push runs nothing, a pull request or merge-queue entry with a known diff runs the shards its files need in order, and any other event runs all. |
| CiSelect.NoShardIsDropped | ansible/checks/ci_select.py:737-753 | A run over more changes keeps every shard that a smaller one kept. |
| CiSelect.ChangedUnitIsTested | ansible/checks/ci_select.py:697-753 | The shards of a changed unit, and of any unit a chain of references leads to from it, are always kept. |
| Egress.ParseInvertsPrint | hetzner/egress.ts:44-55 | Parsing the dotted quad of any 32-bit address gives the address. |
| Egress.PrintInvertsParse | hetzner/egress.ts:44-55 | Every accepted text is the dotted quad of the 32-bit address it parses to. |
| Egress.ParseIsInjective | hetzner/egress.ts:44-55 | No two texts are one address. |
| Egress.MaskRoundsDown | hetzner/egress.ts:74-77 | Masking off low bits rounds down to a multiple of a power of two, for every width. |
| Egress.MaskIsInterval | hetzner/egress.ts:74-114 | Two addresses agree under the mask exactly when the one lies in the other's range, prefixes 0, 31 and 32 included. |
| Egress.CidrOfPrinted | hetzner/egress.ts:65-78 | The text of a range parses to its masked base and its mask. |
| Egress.ParsedCidrIsPrinted | hetzner/egress.ts:65-78 | Every accepted range text is that of an address and a prefix of at most 32. |
| Egress.RouteOfPrinted | hetzner/egress.ts:95-127 | For every address and range: the route, or which of the three refusals it meets. |
| Egress.RouteIsExact | hetzner/egress.ts:95-127 | A route is made exactly for the text of an address from the range's start plus two up to its end, the public gateway excepted, and is then the default route through it. |
| Egress.TextRefusals | hetzner/egress.ts:44-100 | A gateway or range text that is no address is told from a text that is no range, for all texts. |
| RoleHarness.RunMolecule | ansible/harness/run_harness.py:475-497 | The loop and its `finally`: when no interrupt arrives, up to the end of the loop, one outcome per step in order, with SKIP exactly for the marked steps and the others after a failure; otherwise an interrupt, after which every always-run step is run. |
| RoleHarness.RunAlways | ansible/harness/run_harness.py:492-496 | The `finally` runs the always-run steps in order, all of them or up to an interrupt of its own. |
| RoleHarness.AlwaysRunStepsAreStarted | ansible/harness/run_harness.py:475-497 | On a normal return an always-run step was started exactly when it is not marked skipped; after an interrupt every one is started. |
| RoleHarness.SkippedAlwaysStepIsNotStarted | ansible/harness/run_harness.py:484-486 | An always-run step marked skipped is passed over. |
| RoleHarness.NothingRunsAfterFailure | ansible/harness/run_harness.py:483-490 | After the first failure every step that is not always-run is SKIP and is not started. |
| RoleHarness.OutcomesAreTheCommands | ansible/harness/run_harness.py:455-490 | The n-th started step passed exactly when the n-th command succeeded and failed exactly when it failed; the others were skipped. |
| RoleHarness.NoFailureIsAllSucceeded | ansible/harness/run_harness.py:455-497 | No outcome is a failure exactly when every started command succeeded. |
| RoleHarness.FirstFailureIsFirstFailed | ansible/harness/run_harness.py:455-497 | The first failure is the first started command that did not succeed. |
| RoleHarness.StartedAfterFailureIsAlways | ansible/harness/run_harness.py:475-497 | However the run ends, interrupted or not, a step started after a command failed is an always-run one, and none marked skipped is started. |
| RoleHarness.CleanRunIsComplete | ansible/harness/run_harness.py:483-490 | A run without a failure passed every step but those marked skipped. |
| RoleHarness.DestroyIsStarted | ansible/harness/run_harness.py:386-421 | Whatever a scenario leaves out and whatever happens, `destroy` is started. |
| RoleHarness.ReadSkips | ansible/harness/run_harness.py:292-309 | A file with a problem leaves nothing out, and nothing but a skippable step is ever left out. |
| RoleHarness.ReadSkipsIsExact | ansible/harness/run_harness.py:292-309 | A step is left out exactly when the file names it and names no step that may not be left out; the others are what is wrong with it. |
| RoleHarness.ScenarioSteps | ansible/harness/run_harness.py:386-421 | A scenario's nine steps in order, whatever its file says: only the five that may be left out are ever marked skipped, and `destroy` alone always runs. |
| RoleHarness.SkipProblems | ansible/harness/run_harness.py:312-330 | The problems are exactly the malformed files and the skippable steps every scenario leaves out. |
| RoleHarness.SkippableStepsRunSomewhere | ansible/harness/run_harness.py:312-330 | With no such problem, every skippable step runs in some scenario exactly when there is one. |
| Caddyfile.AssertUpstreamsAreDistinct | hetzner/edge/render.ts:704-720 | It passes exactly when no two servable sites share an upstream. |
| Caddyfile.AssertHostnamesAreDistinct | hetzner/edge/render.ts:724-738 | It passes exactly when no hostname is claimed twice, by two sites or by one. |
| Caddyfile.AssertStaticHostnamesAreDistinct | hetzner/edge/render.ts:747-764 | It passes exactly when the static hostnames are distinct and none is a servable one. |
| Caddyfile.AddServing | hetzner/edge/render.ts:789-794 | The block of what a site still serves holds those hostnames and its own upstream, and there is none when there are none. |
| Caddyfile.AddSite | hetzner/edge/render.ts:788-798 | A site's blocks answer once for each hostname it still serves and once for each redirect from one of its hostnames, and write nothing else; they are refused exactly when one of their names is. |
| Caddyfile.AddRedirects | hetzner/edge/render.ts:795-797 | Each redirect from one of the hostnames is written once, to its own target. |
| Caddyfile.AddStatics | hetzner/edge/render.ts:799-801 | Each static site is written once. |
| Caddyfile.RenderCaddyfile | hetzner/edge/render.ts:766-801 | When the renderer accepts its input; that each block is a site's own hostnames to its own upstream, a redirect or a static page that was asked for; and how many addresses each hostname then is. |
| Caddyfile.HostnamesArePartitioned | hetzner/edge/render.ts:766-801 | Every servable and static hostname is an address of exactly one block, and no other hostname is of any, if and only if no two written redirects leave from one hostname. |
| Caddyfile.RepeatedSourceIsAccepted | hetzner/edge/render.ts:766-801 | The renderer accepts redirects that share a source. |
| Caddyfile.HostnameReachesItsSite | hetzner/edge/render.ts:766-801 | A block that holds a servable hostname proxies it to the upstream of the one site that claims it, or redirects it where a redirect from it leads. |
| Caddyfile.WrittenNamesAreChecked | hetzner/edge/render.ts:766-801 | Nothing unchecked is written: every hostname, redirect target, upstream and static page of an accepted input's blocks passes its rule. |

## Left out

- SlotExclusion.MutualExclusion: takes the stale check and the removal as one step, because the source leaves that gap in place, and the creation and the writing of an owner file as one. ExclusionWhileSpared is without either assumption. The removal's own inner steps are one step throughout.
- SlotScan.PassMakesProgress: is about one pass without interference; the polling loop around it and its refusal after `waitMs` appear only as the machine's `EndPass`.
- Process ids too large for a JavaScript number, and the texts of the slot messages.
- DockerCalls.SettlesOnceInTime: timers fire when due; an event loop that is blocked past a timer is not modelled, and neither are the outputs of the child and the sweep at exit.
- The TypeScript parser: the scan starts from a syntax tree. What the file itself does not determine (a parameter, a call, a `let`) may evaluate to any value, and names are taken to be used in scope.
- SeedSafety.EndedRunLeavesNoTemporary: promises nothing for runs that crashed or whose final removal failed, which can leave the file.
- SeedProgram.FlushAndReadBack: compares the destination's bytes with the document's, where the source compares decoded JSON; an equal document written differently by a concurrent run with `replace` is read back there and not here.
- Encoding of the inputs document (it is its bytes), the closing of a file on an error path, and `Live`, `collect`, `run_fill` and `run_set`, which ask for and gather the values.
- The armour and base64 around a key block, the shape checks of the bootstrap record in TypeScript, and the layout and rendering of the whole first-boot document.
- Enrolment.DoneMarkerMeansDone: the marker's own write may fail half way and leave the file, so its presence implies every earlier command and not that write.
- Zone lines are taken as already matched against their patterns; message texts and their order, the thread pool of `fetch` and `strip_transcript` are not part of this model. `altered_copy`'s choice of a key is a parameter, and so is a failing query, which ends a comparison.
- ZoneFile.WrittenZoneLoadsBack: starts from the file's decoded list and leaves out its other fields. The address library's spelling of A and AAAA values is a parameter with its canonical forms, and lower case is that of ASCII letters.
- ZoneAgreement.CaptureAgreement: needs lower-case names, because a transcript is read back in lower case, and no printed line shaped like a query header.
- Merges in the git history, abbreviated ids, and the rendering of the configuration (`render_config`, `resolve`, `check_config`, `check_playbook`), which is a given result.
- Dictionary keys that are not text, which filling turns into text.
- The scans that find readers and references in role files (`RoleScan`, `reads_by_path`, `strip_comment`), whose results are parameters of the selection.
- The commands of the harness steps, their output and the other checks of `run_role`.
- Egress.RouteIsExact: JavaScript's signed 32-bit operators are modelled by their unsigned results.
- The bodies of the site blocks (directives, protection chain, probes and metrics blocks) and the AppSec files; the hostname pattern, the address plan and the static pages are parameters.
- Pulumi resource declarations, processes, sockets and other command-line tools of the repository.
