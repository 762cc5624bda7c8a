# A verified model of udev 117, dpkg, and the signal and FPGA code

The repository carries udev 117 and a busybox with its own dpkg next to a few signal-processing
and FPGA helpers. This project models the parts of them that hold state or non-trivial algorithms
and proves, in Dafny 4.11, what they promise.

`dafny verify dfyconfig.toml` verifies all files.

## How the files belong together

- **The event daemon** (`udevd.c`). `Scheduler` gives the state (pending list, running list, the
  two flags, the exported directories, a log of exports) and one function per step. `Udevd` holds
  the daemon as a class over the linked lists of `Lists`, whose methods walk them as the source
  does; each is proved to make exactly the corresponding step. `SchedulerSafety`,
  `SchedulerExports` and `SchedulerProgress` prove what holds in every run, `SchedulerWaits` what
  an event waits for, `SchedulerOrder` and `SchedulerStalls` when related events run side by side
  after all, and when the queue gets stuck.
- **The device database** (`udev_db.c`, `udev_node.c`, `udev_device.c`). `Records` is the printer
  and the parser of a device file, `DeviceDb` the database, name index and `/dev` as values,
  `DeviceTree` the procedures on a mutable tree, `DeviceDbProofs` and `DeviceDbLatest`
  what holds after every sequence of device events, `DeviceDbNodes` the same of nodes, and
  `DeviceDbLimits` runs after which it does not hold. `NameList` are the lists of names.
- **dpkg** (`dpkg.c`). `DebVersion`, `DebVersionOrder`, `DebVersionRules` and `DebVersionLaws` are the version
  comparison, `HashProbe` (with `Sieve`) and `NameTable` the double-hashed tables, `PackageTable`,
  `Dependencies` and `DependencyText` the packages, the flattened dependency edges and the text
  they come from. `PackageConflicts` has the check of conflicts and with it all of `check_deps`.
  `ControlText` reads control files, `PackageChecks` goes from their texts to the verdict, and
  `PackageMeaning` says what the verdict means.
- **Rules and strings**. `Lists` has the circular lists of `list.h` as linked objects;
  `RuleFiles` and `RuleFileLists` sort and merge the lists of rules files on them. `RuleBuffer`,
  `RuleMatch`, `RuleEval`, `RuleFlow` and `RuleOrder` are the rules packed byte by byte, key
  matching, and evaluation with gotos. `Paths`
  builds and resolves relative links and encodes paths in place. `Utf8` and `ReplaceChars` are the
  sanitiser of names. `CStrings`, `Sequences` and `Decimal` are small shared helpers.
- **Numeric and ring code**. `Goertzel` and `Fir` work over exact reals; `Pool` is the ring of
  sixteen message slots.

Code that changes state step by step is modelled by methods with loops, arrays, linked objects and
classes, each tied by its postcondition to a function of the old state; the lemmas are about those
functions. Where a property fails for some inputs, one lemma says exactly for which ones it holds,
and another gives an input for which it fails:

| what may fail | exactly when it holds | an input |
|---|---|---|
| the queue never gets stuck | `SchedulerStalls.RunStallsIff` | `SchedulerStalls.ThrottlingCanStall` |
| events of related devices never run side by side | `SchedulerOrder.RelatedRunTogetherIff` | `SchedulerOrder.UrgentRunsBesideBlocker`, `SchedulerOrder.OverlongPathsRunTogether` |
| no event runs beside an earlier one that blocks it | `SchedulerOrder.RunIsInOrderIff` | `SchedulerOrder.UrgentRunsBesideBlocker` |
| a device survives storage | `Records.SurvivesStorage` | `Records.NumberIsLost`, `Records.NegativePriorityIsLost` |
| links go where the events say | `DeviceDbLimits.LinksFollowEventsIff` | `DeviceDbLimits.LostPriorityMisleads` |
| every link is right all along a run | `DeviceDbProofs.LinksAreRightIff` | `DeviceDbLimits.KeptRemovalLeavesLink`, `DeviceDbLimits.StrangerTakesLink` |
| the removal of an unknown device keeps the links | `DeviceDbProofs.StrangerKeepsLinksIff` | `DeviceDbLimits.StrangerTakesLink` |
| an ignored removal keeps the links | `DeviceDbProofs.KeptRemovalKeepsLinksIff` | `DeviceDbLimits.KeptRemovalLeavesLink` |
| a renamed device is found by its name | `DeviceDbProofs.RenameForgetsIndex` | `DeviceDbLimits.RenamedDeviceIsNotFound` |
| conflicts of packages are found | `PackageConflicts.ConflictsAreMissedIff` | `PackageConflicts.MissedConflict` |
| the label search finds the label | `RuleBuffer.LabelSearchIsRightIff` | `RuleBuffer.LabelSearchCanGoWrong` |
| a relative link resolves to its node | `Paths.ResolveUndoesTarget` | `Paths.NodeThatGoesUp` |
| a whitelist keeps allowed characters | `ReplaceChars.CleanStringsAreKeptIff` | `ReplaceChars.SplitCharacterIsCounted` |
| Goertzel's result has the phase of the bin | `Goertzel.ResultIsBinIff` | `Goertzel.QuarterPeriodTurns` |
| a session of it is fed what is needed | `Goertzel.SessionSucceedsIff` | `Goertzel.OverfedSessionFails`, `Goertzel.SurplusIsRefused` |

Numbers in device files are printed as unsigned and read with `atoi`, so it matters whether a
`long` has 32 or 64 bits: the constant `Decimal.LONG_MAX` is either, and every result holds for
both; so is the word that rules are padded to, `RuleBuffer.WORD`.

Two places where the code and its comments disagree, and the model follows the code: the comment
in front of `version_compare` promises -1, 0 or 1, but the result is any number of that sign; and
the comment in the middle of `fast_goertzel_algorithm` gives a result turned by the angle of one
sample against what is computed.

## Model

| member | source | states |
|---|---|---|
| SchedulerSafety.RelationIsExact | udev-117/udevd.c:433-456 | two device paths are related exactly if equal or ancestor and descendant, as far as one of them ends inside a path buffer |
| SchedulerWaits.AncestorIff | udev-117/udevd.c:433-456 | an ancestor is the path up to some slash |
| SchedulerWaits.RelationTells | udev-117/udevd.c:433-456 | the relation is 1 for equal paths, and 2 one way exactly if it is 3 the other way |
| SchedulerWaits.BlocksIff | udev-117/udevd.c:459-520 | an event waits exactly for those about its own or a related device, about the device it is moved away from, and, for an add event, about its physical device or one related to that |
| SchedulerSafety.RunKeeps | udev-117/udevd.c:208-300 | in every run, whatever the events and numbers: events are conserved and no child that was started in turn runs beside a blocking one started before it |
| SchedulerSafety.NeverRunTogether | udev-117/udevd.c:433-559 | in every run, an event without timeout never runs beside an earlier started event for the same device, an ancestor or a descendant |
| SchedulerOrder.NextKeepsOrderIff | udev-117/udevd.c:260-300 | no running child blocks a later one after a step, exactly if the step does not start an event with a timeout beside a running one that blocks it |
| SchedulerOrder.RunIsInOrderIff | udev-117/udevd.c:260-300 | a whole run is in that order, as far as the buffers let relations be seen, exactly if none of its steps does so |
| SchedulerOrder.UrgentRunsBesideBlocker | udev-117/udevd.c:291-299 | a run in which an event with a timeout is started beside any other, also one for the same device |
| SchedulerOrder.OverlongPathsRunTogether | udev-117/udevd.c:433-456 | two events for one device whose path fills the buffer are not taken for related and run side by side |
| SchedulerOrder.RelatedRunTogetherIff | udev-117/udevd.c:433-520 | events for two related devices can run side by side in some run exactly if the later one has a timeout, or both paths fill the buffer and the limit is not negative |
| SchedulerSafety.StartsOnlyAfterPredecessors | udev-117/udevd.c:459-520 | with increasing sequence numbers, an event starts only after every earlier event that blocks it was deleted from both lists |
| SchedulerWaits.MoveNeverBesideFormer | udev-117/udevd.c:470-501 | in every run, a move started in turn never runs beside an event for the former name that was started before it |
| SchedulerWaits.SetUpNeverBesidePhysical | udev-117/udevd.c:482-516 | in every run, an add event started in turn never runs beside one for its physical device, an ancestor or a descendant of that, started before it |
| SchedulerWaits.WaitsForRelated | udev-117/udevd.c:459-520 | with increasing sequence numbers an event starts in turn only after all earlier ones for related devices have ended |
| SchedulerWaits.MoveWaitsForFormer | udev-117/udevd.c:470-501 | the same for those about the device it is moved away from |
| SchedulerWaits.SetUpWaitsForPhysical | udev-117/udevd.c:482-516 | the same for those about the physical device of an add event |
| SchedulerWaits.MayStartIff | udev-117/udevd.c:459-520 | a pending event may start exactly if none pending before it or running is about what it waits for and the limit allows one more |
| SchedulerSafety.NothingLostOrDuplicated | udev-117/udevd.c:208-300 | pending, running and ended events together are exactly the accepted ones, counted with multiplicity |
| SchedulerSafety.RunningBound | udev-117/udevd.c:491-518 | with a positive limit at most limit + 2 children run that were started in turn |
| SchedulerSafety.QueueDirectoryTellsTheTruth | udev-117/udevd.c:149-206 | the exported queue lists exactly the pending and running events |
| SchedulerSafety.FailedDirectoryTellsTheTruth | udev-117/udevd.c:149-206 | without moves, a path is in the exported failures exactly if the last export for it is a failure |
| SchedulerSafety.FailuresFollowRenames | udev-117/udevd.c:149-206 | with moves or without, a path is in the exported failures exactly if some failure, followed through all later exports and renames, is recorded under it |
| SchedulerExports.FailedExactlyForFailedAdds | udev-117/udevd.c:208-219 | over every run an event is exported as failed exactly if it is an add event with non-zero status, else as finished |
| SchedulerExports.ReapReportsStatus | udev-117/udevd.c:800-817 | the exit of a child takes the first one with its process number off the list and exports it with the status of the exit: failed for an add event with non-zero status, else finished |
| SchedulerExports.StrangerExits | udev-117/udevd.c:800-817 | the exit of another process changes nothing |
| SchedulerExports.ExportsAreExplained | udev-117/udevd.c:800-817 | in every run each finished or failed entry carries the status that its own process exited with, or 0 where the fork for it failed |
| SchedulerExports.InExactlyOnePlace | udev-117/udevd.c:208-300 | with increasing sequence numbers an accepted event was queued once and is in exactly one of pending, running, ended |
| SchedulerProgress.PassIsExhaustive | udev-117/udevd.c:522-559 | a dispatch pass that is not throttled leaves no event behind that could start, even if forks fail |
| SchedulerWaits.ThrottledPassIsPrefix | udev-117/udevd.c:522-559 | a pass throttled at its n-th iteration does to the first n pending events what a pass over these alone does, and leaves the others as they are |
| SchedulerWaits.NothingStartsWhileStopped | udev-117/udevd.c:694-701 | from a stop of the queue until it is started again no event is started in turn and nothing pending is lost |
| SchedulerProgress.OldestCanStart | udev-117/udevd.c:459-520 | with nothing running the oldest pending event can always start |
| SchedulerProgress.NoLostWakeup | udev-117/udevd.c:800-817 | in every unthrottled run, if an event could start then another pass is due or execution is stopped |
| SchedulerProgress.NoDeadlock | udev-117/udevd.c:1168-1243 | when the daemon is settled and nothing runs, nothing is pending |
| SchedulerStalls.PassStallsIff | udev-117/udevd.c:522-559 | with nothing running, a pass ends with events pending and nothing running exactly if throttling sets in before all events are dealt with and before a fork succeeds |
| SchedulerStalls.NextStallsIff | udev-117/udevd.c:1168-1243 | a step leaves the queue stuck exactly if it makes such a pass, or the queue was stuck and the step does not touch it |
| SchedulerStalls.RunStallsIff | udev-117/udevd.c:1168-1243 | a run ends stuck exactly if one of its steps stalls the queue and none after it touches it |
| SchedulerStalls.ThrottlingCanStall | udev-117/udevd.c:522-559 | a run after which an event stays pending with nothing to wake it |
| SchedulerProgress.QueueDrains | udev-117/udevd.c:800-817 | whatever order children exit in, with whatever status, as many exits as live events empty both lists |
| Udevd.CompareDevpath | udev-117/udevd.c:433-456 | the character loop computes the relation of the paths |
| Udevd.Daemon.MsgQueueDelete | udev-117/udevd.c:208-219 | takes the message out of its ring and exports how it ended, as the step says |
| Udevd.Daemon.UdevEventRun | udev-117/udevd.c:221-258 | a failed fork deletes the message it was called for; else its pid is set |
| Udevd.Daemon.MsgQueueInsert | udev-117/udevd.c:260-300 | the new state is that of the insert step |
| Udevd.Daemon.DevpathBusy | udev-117/udevd.c:459-520 | the walks over both linked lists answer non-zero exactly if the event is not dispatchable |
| Udevd.Daemon.MsgQueueManager | udev-117/udevd.c:522-559 | the walk over the linked pending list, whose entries are moved or freed on the way, computes the dispatch pass |
| Udevd.Daemon.UdevDone | udev-117/udevd.c:800-817 | reaps the first child on the running list with the pid, and no other |
| Udevd.Daemon.MainLoopStep | udev-117/udevd.c:1168-1243 | every reaction of the main loop is one step of the model |
| Records.BufGetLine | udev-117/udev_utils_file.c:156-172 | the count leads to the end of the line |
| Records.LineEndIsFirstBreak | udev-117/udev_utils_file.c:156-172 | that end is the first newline that no backslash escapes |
| Records.ParseBuffer | udev-117/udev_db.c:228-289 | the parser loop reads the buffer line by line into the device the specification names |
| Records.ParseJoin | udev-117/udev_db.c:228-289 | splitting undoes joining for all lines without newline and trailing backslash |
| Records.LoadOfSave | udev-117/udev_db.c:139-289 | for every priority and partition count: a record read back is the bare name from a link, and from a file the device itself, its numbers as atoi reads them |
| Records.SurvivesStorage | udev-117/udev_db.c:139-181 | a device survives storage exactly if it has no links, partitions, environment or option and its number and priority are zero, or it has some of these and no number is negative or a long is wide |
| Records.RecordAsWritten | udev-117/udev_db.c:151-181 | the lines of a record, letter by letter |
| Records.LinesAsWritten | udev-117/udev_db.c:151-181 | lines follow one another, each ended by a newline |
| Records.NameAsWritten | udev-117/udev_db.c:139-148 | a device with nothing but a name is stored as a link to its name |
| Records.NumberIsLost | udev-117/udev_db.c:139-181 | a device 8:0 without links comes back without its number |
| Records.NegativePriorityIsLost | udev-117/udev_db.c:139-181 | priority -100 comes back as the highest there is where a long has 32 bits |
| Decimal.ReadBackIff | udev-117/udev_db.c:169-181 | an int printed as unsigned and read with atoi comes back exactly if it is not negative or a long is wider than an int |
| Decimal.AtoiReads | udev-117/udev_db.c:257-277 | atoi skips white space and reads a sign or none and the digits up to the first other character |
| Decimal.NearestLong | udev-117/udev_db.c:257-277 | of a number that fits no long the nearest one is read |
| Decimal.DecimalValue | udev-117/udev_db.c:169-181 | numbers are decimal |
| DeviceDbProofs.PickIsBest | udev-117/udev_node.c:213-247 | the fold over the claimants finds a claim of maximal priority, the own one if that has it, and none only if there is none |
| DeviceDbProofs.UpdateLinkIsRight | udev-117/udev_node.c:184-267 | afterwards the link is absent if unclaimed and else leads to a claimant of maximal priority; nothing else changes |
| DeviceDbProofs.UpdateLinksAreRight | udev-117/udev_node.c:269-318 | the same for a list of names, the links outside the list untouched |
| DeviceDbLatest.RecordsTellTheLatest | udev-117/udev_device.c:176-294 | over every sequence of events, what is stored for a device is what the last event about it said, as far as storing keeps it |
| DeviceDbLatest.NamesFollowEvents | udev-117/udev_db.c:48-78 | the index, who claims a link, and with which priority, follow from the last event about each device alone, whatever names are used |
| DeviceDbLatest.LinksFollowEvents | udev-117/udev_node.c:184-267 | over every sequence of events that neither ignore a removal nor take a link of another device away, with priorities that are read back, every link is as the last event about each device asks for |
| DeviceDbLimits.LinksFollowEventsIff | udev-117/udev_db.c:169-181 | with p as the only priority below zero, they follow in all runs exactly if p is read back as it was stored |
| DeviceDbLimits.LostPriorityMisleads | udev-117/udev_db.c:169-181 | a run with a priority that is not read back, after which the link leads to the lower claimant |
| DeviceDbProofs.IndexAlwaysAgrees | udev-117/udev_db.c:48-78 | over every sequence of events, whatever names they use, the index holds exactly the pairs of a name and a stored device that has it |
| DeviceDbProofs.LinksAlwaysRight | udev-117/udev_device.c:176-294 | over every sequence of events that neither ignore a removal nor take a link of another device away, every link is absent if unclaimed and else leads to a claimant; to one of maximal priority if priorities are read back as stored |
| DeviceDbProofs.NextKeepsLinksIff | udev-117/udev_device.c:176-294 | an event keeps the links right exactly if it is neither an ignored removal of a device one of whose links leads to its node, nor takes a link away that is there |
| DeviceDbProofs.LinksAreRightIff | udev-117/udev_device.c:176-294 | the links are right all along a run exactly if none of its events is of that kind |
| DeviceDbProofs.StrangerKeepsLinksIff | udev-117/udev_device.c:266-292 | the removal of a device that is not in the database keeps the links right exactly if the kernel's name is not that of a link to a node of the event's number |
| DeviceDbProofs.StrangerKeepsNodesIff | udev-117/udev_device.c:266-292 | it leaves every stored device its node exactly if it does not take one of these away |
| DeviceDbLimits.StrangerTakesLink | udev-117/udev_device.c:272-289 | a run in which the removal of an unknown device takes the link of another |
| DeviceDbLimits.KernelNameAsLink | udev-117/etc/udev/rules.d/50-udev-default.rules:29 | a device with a node name of its own and the kernel's name as link is added and removed with its link |
| DeviceDbProofs.HandledDeviceWinsTies | udev-117/udev_node.c:217-228 | the device of the last event owns every link it claims with maximal priority, whatever the priorities of the others |
| DeviceDbProofs.NoDanglingLinks | udev-117/udev_device.c:176-294 | if no two devices share a node name and no removal takes another device's node, every stored device has its node and, unless links are broken as above, every link leads to a node |
| DeviceDbNodes.NodesFollowEvents | udev-117/udev_device.c:176-294 | in such a run every device that is there has its node with the number that the last event about it gave |
| DeviceDbNodes.RemovalTakesNodeIff | udev-117/udev_node.c:399-423 | a removal takes the device's node exactly if it has the device's number, and no other node |
| DeviceDbNodes.FormerNodeGoes | udev-117/udev_node.c:308-317 | a device that comes again under another name gives up its former node |
| DeviceDbNodes.LinkIsMadeIff | udev-117/udev_node.c:126-181 | a link is made unless the node of another device stands in its place |
| DeviceDbProofs.KeptRemovalKeepsLinksIff | udev-117/udev_device.c:263-294 | an ignored removal keeps the links right exactly if none of the device's links leads to its node, unless the best other claimant has a node of the same name |
| DeviceDbProofs.KeptRemovalAmongDistinctNodes | udev-117/udev_device.c:263-294 | a link leads elsewhere, where no two devices share a node name, exactly if it is not a link to the node of the device |
| DeviceDbLimits.KeptRemovalLeavesLink | udev-117/udev_device.c:284-287 | adding a device and removing it with the option to ignore that leaves its link in place with no device left |
| DeviceDbProofs.RenameForgetsIndex | udev-117/udev_db.c:120-128 | after a rename the index agrees exactly if nothing was renamed |
| DeviceDbLimits.RenamedDeviceIsNotFound | udev-117/udev_db.c:120-128 | a renamed device is in the index under its old path only, where nothing is stored |
| DeviceTree.Tree.NameIndex | udev-117/udev_db.c:48-78 | adds or removes the one pair |
| DeviceTree.Tree.DbAddDevice | udev-117/udev_db.c:130-185 | stores the record and the index entries of all names |
| DeviceTree.Tree.DbGetDevice | udev-117/udev_db.c:187-292 | reads what is stored, link or file |
| DeviceTree.Tree.DbDeleteDevice | udev-117/udev_db.c:294-310 | removes the record and the index entries of all names |
| DeviceTree.Tree.UpdateLink | udev-117/udev_node.c:184-267 | the loop over the devices by name picks the best claim and points the link at it |
| DeviceTree.Tree.UpdateSymlinks | udev-117/udev_node.c:269-318 | the current links, the links given up and the former node name are updated in this order |
| DeviceTree.Tree.RemoveNode | udev-117/udev_node.c:399-423 | the node goes only if it has the device's number |
| DeviceTree.Tree.DeviceEvent | udev-117/udev_device.c:175-294 | the transition of the model for add, change and remove events of devices with a node |
| NameList.NameListAdd | udev-117/udev_utils.c:57-85 | the loops compute the specified list |
| NameList.AddKeepsSet | udev-117/udev_utils.c:57-85 | one name more, no duplicates |
| NameList.AddKeepsSorted | udev-117/udev_utils.c:57-85 | sorted adding keeps a sorted list sorted |
| NameList.AddKeepsPlaces | udev-117/udev_utils.c:57-85 | without sorting a new name comes last |
| NameList.LessIff | udev-117/udev_utils.c:68-76 | names are compared at their first difference, a prefix coming first |
| DebVersion.VersionComparePart | busybox-1_22_stable/archival/dpkg.c:240-277 | the character loops have the sign of the order of section 5.6.12 of the Debian Policy Manual |
| DebVersion.CompareNumbers | busybox-1_22_stable/archival/dpkg.c:257-274 | digit runs of any length are compared exactly as numbers by length and first difference |
| DebVersionOrder.KeyDecides | busybox-1_22_stable/archival/dpkg.c:229-277 | the order of parts is the lexicographic order of a key, zero-padded |
| DebVersionOrder.PartReflexive | busybox-1_22_stable/archival/dpkg.c:240-277 | a part equals itself |
| DebVersionOrder.PartAntisymmetric | busybox-1_22_stable/archival/dpkg.c:240-277 | swapping the parts changes the sign |
| DebVersionOrder.PartTransitive | busybox-1_22_stable/archival/dpkg.c:240-277 | the order is transitive, and equal ends force equality in between |
| DebVersionRules.DigitsCompareAsNumbers | busybox-1_22_stable/archival/dpkg.c:257-274 | digit strings compare as the natural numbers they denote |
| DebVersionRules.TildeSortsFirst | busybox-1_22_stable/archival/dpkg.c:229-237 | a part continued by a tilde sorts before the part, whatever follows |
| DebVersionRules.LettersBeforeOthers | busybox-1_22_stable/archival/dpkg.c:229-255 | behind a common start letters come before all other characters |
| DebVersionRules.CodesDecide | busybox-1_22_stable/archival/dpkg.c:229-255 | letters among each other, and other characters among each other, come in the order of their codes |
| DebVersionRules.TildeBeforeAll | busybox-1_22_stable/archival/dpkg.c:229-255 | a tilde comes before letters and other characters |
| DebVersionRules.EndBeforeRest | busybox-1_22_stable/archival/dpkg.c:229-255 | a part comes before its continuation by a letter or another character |
| DebVersionRules.DigitBeforeText | busybox-1_22_stable/archival/dpkg.c:240-255 | a digit where text may stand comes before letters and other characters |
| DebVersionOrder.SplitVersion | busybox-1_22_stable/archival/dpkg.c:295-322 | epoch up to the first colon, revision after the last dash |
| DebVersionOrder.VersionCompare | busybox-1_22_stable/archival/dpkg.c:283-334 | has the sign of the order of (epoch, upstream, revision) |
| DebVersionOrder.VersionPreorder | busybox-1_22_stable/archival/dpkg.c:283-334 | that order is a total preorder |
| DebVersionLaws.VersionIsRead | busybox-1_22_stable/archival/dpkg.c:295-322 | epoch, upstream version and revision are read back from the version they are written as |
| DebVersionLaws.ShortVersionIsRead | busybox-1_22_stable/archival/dpkg.c:295-322 | without epoch it is 0, without revision that is empty |
| DebVersionLaws.PartsDecideInTurn | busybox-1_22_stable/archival/dpkg.c:324-333 | the epochs decide as numbers, then the upstream versions, then the revisions |
| DebVersionOrder.TestVersion | busybox-1_22_stable/archival/dpkg.c:336-354 | decides whether the versions stand in the relation |
| DebVersionLaws.OperatorsOnNumbers | busybox-1_22_stable/archival/dpkg.c:336-354 | on digit strings the five operators are the comparisons of the numbers |
| DebVersionLaws.TildeIsLess | busybox-1_22_stable/archival/dpkg.c:336-354 | a version continued by a tilde is less |
| DebVersionLaws.AnyAndNone | busybox-1_22_stable/archival/dpkg.c:336-354 | VER_ANY always holds, and a missing operator never |
| DebVersionOrder.OperatorsAreConsistent | busybox-1_22_stable/archival/dpkg.c:336-354 | the operators are the relations of one preorder: complements, converses, and exactly one of less, equal, more |
| DebVersionOrder.OperatorsRespectOrder | busybox-1_22_stable/archival/dpkg.c:336-354 | equal versions cannot be told apart, and the weak operators are transitive |
| HashProbe.EverySlotIsProbed | busybox-1_22_stable/archival/dpkg.c:189-206 | in a table of prime size, probing visits every slot |
| HashProbe.ProbesDiffer | busybox-1_22_stable/archival/dpkg.c:189-206 | no slot is probed twice within one round |
| HashProbe.TrialDivision | busybox-1_22_stable/archival/dpkg.c:85-116 | trial division next to multiples of six up to the root proves primality |
| HashProbe.NameTableSizeIsPrime | busybox-1_22_stable/archival/dpkg.c:88 | 16381 is prime |
| HashProbe.PackageTableSizeIsPrime | busybox-1_22_stable/archival/dpkg.c:98 | 10007 is prime |
| HashProbe.StatusTableSizeIsPrime | busybox-1_22_stable/archival/dpkg.c:116 | 8191 is prime |
| NameTable.SearchEndsIff | busybox-1_22_stable/archival/dpkg.c:189-206 | a search ends exactly if some slot is empty or holds what is looked for, and else passes over slots for ever |
| NameTable.SearchNameHashtable | busybox-1_22_stable/archival/dpkg.c:189-206 | the probing loop returns the slot and stores a new name |
| NameTable.NumbersAreStable | busybox-1_22_stable/archival/dpkg.c:189-206 | over every sequence of lookups with no more distinct names than slots, every name keeps its number and stays reachable by it |
| NameTable.NumbersNameNames | busybox-1_22_stable/archival/dpkg.c:189-206 | two lookups give the same number exactly if they were for the same name |
| PackageTable.FindPackageFinds | busybox-1_22_stable/archival/dpkg.c:356-377 | the search ends at a matching package exactly if the table holds one |
| PackageTable.StoreKeepsPaths | busybox-1_22_stable/archival/dpkg.c:356-377 | storing a package where its search ended keeps every package reachable |
| PackageTable.SearchPackageHashtable | busybox-1_22_stable/archival/dpkg.c:356-377 | the probing loop computes that slot |
| PackageTable.SearchForProvides | busybox-1_22_stable/archival/dpkg.c:395-408 | the first provider behind the start, or none |
| PackageTable.EdgeSatisfied | busybox-1_22_stable/archival/dpkg.c:1113-1148 | an edge holds exactly if a package of its name and version, or a provider, has the wanted status |
| PackageTable.CheckEdges | busybox-1_22_stable/archival/dpkg.c:1096-1177 | the loop with its counter and index skip computes the walk |
| PackageTable.CheckDependencies | busybox-1_22_stable/archival/dpkg.c:1064-1177 | accepts exactly if every package wanted for install has each comma group of its fields satisfied |
| PackageConflicts.AddProvided | busybox-1_22_stable/archival/dpkg.c:996-1022 | the loops store what is provided and not there as packages without edges |
| PackageConflicts.AddedIff | busybox-1_22_stable/archival/dpkg.c:1001-1019 | a name is added exactly if no package answers to it, as a package of that name and version without edges |
| PackageConflicts.AddVirtualsKeeps | busybox-1_22_stable/archival/dpkg.c:996-1022 | with room for them, all provided names are listed afterwards and every package stays reachable |
| PackageConflicts.CheckConflicts | busybox-1_22_stable/archival/dpkg.c:1024-1061 | stops at the first edge of a package not yet installed that is reported as a conflict, or whose status is missing |
| PackageConflicts.ConflictsAreMissedIff | busybox-1_22_stable/archival/dpkg.c:1047-1050 | what is reported is a conflict; conflicts that are there pass exactly if every name has a status and no package has itself a version its conflict is about |
| PackageConflicts.PlainConflictsAreFound | busybox-1_22_stable/archival/dpkg.c:1024-1061 | a conflict without a version is never passed over |
| PackageConflicts.MissedConflict | busybox-1_22_stable/archival/dpkg.c:1047-1050 | version 1 of a conflicts with version 2 of b, both are to be installed, and nothing is found, in whatever slots they are |
| PackageConflicts.ProvidedConflictStops | busybox-1_22_stable/archival/dpkg.c:1001-1019 | a conflict with a provided name without status keeps the check from passing, even the provider's own |
| PackageMeaning.ConflictsMean | busybox-1_22_stable/archival/dpkg.c:1024-1061 | the check passes exactly if every conflict of a package not yet installed is with nothing stored, or with something that has a status and is not wanted or whose version the own one does not meet |
| PackageConflicts.CheckDeps | busybox-1_22_stable/archival/dpkg.c:980-1180 | the whole check accepts exactly if no conflict is reported, no status is missing, and every package wanted for install has its groups satisfied |
| Dependencies.WalkGroup | busybox-1_22_stable/archival/dpkg.c:1096-1177 | over the edges of one comma group the walk goes on exactly if an alternative is satisfied, skipping the rest |
| Dependencies.WalkDecidesFields | busybox-1_22_stable/archival/dpkg.c:1096-1177 | over all fields the walk accepts exactly if every dependency group is satisfied, and never finds the list corrupt |
| DependencyText.AddAlternatives | busybox-1_22_stable/archival/dpkg.c:445-508 | the edges of one comma group, the OR edge first with the number of alternatives |
| DependencyText.AddSplitDependencies | busybox-1_22_stable/archival/dpkg.c:429-519 | the edges of a field, for every text the procedure accepts |
| DependencyText.FieldRoundTrip | busybox-1_22_stable/archival/dpkg.c:429-519 | reading a written field gives back its groups, alternatives, operators and versions |
| DependencyText.BlanksInConstraint | busybox-1_22_stable/archival/dpkg.c:460-500 | blanks behind the bracket, the operator and the version of a constraint do not matter |
| DependencyText.BlanksInAlternative | busybox-1_22_stable/archival/dpkg.c:460-500 | nor do blanks before the name and before the bracket |
| DependencyText.BlanksAroundName | busybox-1_22_stable/archival/dpkg.c:460-500 | a name alone, with or without blanks, stands for any version |
| DependencyText.AcceptedTextIsDecided | busybox-1_22_stable/archival/dpkg.c:429-519 | for every accepted text the walk over its edges accepts exactly if each group is satisfied |
| ControlText.ReadPackageField | busybox-1_22_stable/archival/dpkg.c:537-616 | the loop with its four offsets finds the field, or text without a name, or runs on behind the terminator |
| ControlText.FieldIsRead | busybox-1_22_stable/archival/dpkg.c:537-616 | a written field, with colons and continued lines in its value, is read back |
| ControlText.ControlRoundTrip | busybox-1_22_stable/archival/dpkg.c:618-678 | a written control file is read back: name, version, and all dependency fields in their order |
| PackageChecks.FillPackage | busybox-1_22_stable/archival/dpkg.c:618-678 | the loop over the text of a control file yields the package with name, version and the edges of all its fields in order; none if a field cannot be read |
| PackageChecks.StorePackage | busybox-1_22_stable/archival/dpkg.c:680-688 | replaces what the search for the name and version ends at and gives the slot; a package without version is not stored |
| PackageChecks.TableIsOk | busybox-1_22_stable/archival/dpkg.c:679-688 | every table made by fewer stores than it has slots keeps all packages reachable, and a slot free |
| PackageChecks.DebsAreStored | busybox-1_22_stable/archival/dpkg.c:1807-1819 | however many control files follow, the slots of packages to be processed hold packages of their names |
| PackageChecks.ReadControls | busybox-1_22_stable/archival/dpkg.c:1807-1819 | reading all control files gives the table and the slots of the packages to be processed |
| PackageChecks.CheckControls | busybox-1_22_stable/archival/dpkg.c:980-1180 | from the texts of all control files to the verdict of the whole check: accepted exactly if no conflict of a package to be processed is reported and every stored package to be installed has all groups of its fields satisfied |
| PackageMeaning.DependenciesMean | busybox-1_22_stable/archival/dpkg.c:1064-1177 | of every stored package wanted for install each comma group of Depends has an alternative to be installed, and of Pre-Depends one installed, by its own name and version or by a provider |
| PackageMeaning.ConstraintOnNumbers | busybox-1_22_stable/archival/dpkg.c:468-500 | the operators of a constraint, a single < or > included, say of numbers what they look like |
| PackageMeaning.FieldAsWritten | busybox-1_22_stable/archival/dpkg.c:429-519 | a field of two groups, letter by letter |
| PackageMeaning.ControlAsWritten | busybox-1_22_stable/archival/dpkg.c:618-678 | a control file, letter by letter |
| PackageMeaning.KindsAre | busybox-1_22_stable/archival/dpkg.c:620-678 | the eight fields that hold constraints |
| PackageMeaning.LastIsStored | busybox-1_22_stable/archival/dpkg.c:680-688 | a control file's package is stored unless it has no version, and replaces only packages of its name in an equal version |
| Lists.ListAddBetween | udev-117/list.h:60-68 | the ring with the entry inserted, linked both ways |
| Lists.ListAddTail | udev-117/list.h:91-94 | the entry comes before the node given |
| Lists.ListDel | udev-117/list.h:115-120 | the ring without the entry, which is poisoned |
| Lists.ListMoveTail | udev-117/list.h:148-153 | one ring loses the entry, the other gains it |
| RuleFiles.MergeIsSorted | udev-117/udev_rules_parse.c:752-769 | merging gives a permutation of both lists, sorted by base name, files of the main directory ahead of equal dynamic ones |
| RuleFiles.ListedByBase | udev-117/udev_utils.c:145-185 | a listed directory is sorted by base name |
| RuleFiles.RuleFilesAreOrdered | udev-117/udev_rules_parse.c:732-769 | whatever order the directories are read in, the files are processed sorted by base name with main files first |
| RuleFileLists.NameListAdd | udev-117/udev_utils.c:57-85 | on linked entries: the names are those of the specification, the other entries stay the same objects |
| RuleFileLists.MergeDynamic | udev-117/udev_rules_parse.c:752-769 | the nested loops over the linked lists, moving entries while walking, compute the merge and empty the dynamic list |
| RuleFileLists.NameListCleanup | udev-117/udev_utils.c:133-142 | every entry is taken off and freed exactly once |
| RuleBuffer.StoredValuesAreRead | udev-117/udev_rules_parse.c:197-209 | every stored value is read back at its offset, whatever is stored behind it |
| RuleBuffer.PackedAt | udev-117/udev_rules_parse.c:39-57 | among the bytes of all rules the i-th offset is inside the buffer exactly if there is an i-th rule, and that rule is read there |
| RuleBuffer.TextIsStored | udev-117/udev_rules_parse.c:59-79 | a string that ends among its rule's own bytes is read from the packed bytes as it was stored |
| RuleBuffer.LabelSearchIsRightIff | udev-117/udev_rules_parse.c:59-79 | the label search is right exactly if no rule without a label before the target has the label's text as its first string |
| RuleBuffer.LabelSearchCanGoWrong | udev-117/udev_rules_parse.c:59-79 | a rule that stops it at the wrong place |
| RuleBuffer.Rules.AddRule | udev-117/udev_rules_parse.c:634-648 | the bytes of the padded rule are appended to the buffer, whose end stays word-aligned |
| RuleBuffer.Rules.IterNext | udev-117/udev_rules_parse.c:39-57 | the next rule, or none at the end |
| RuleBuffer.Rules.IterLabel | udev-117/udev_rules_parse.c:59-79 | moves forward to the first rule whose compared string is the label, without stepping over it |
| RuleBuffer.Rules.ReadAll | udev-117/udev_rules_parse.c:33-57 | iterating over the bytes from 0 yields exactly the added rules in order and ends exactly at the size of the buffer |
| RuleMatch.MatchKey | udev-117/udev_rules.c:898-937 | 0 exactly if some part between bars matches, for a match, or none does, for a non-match; other keys never decide |
| RuleMatch.BarsSeparate | udev-117/udev_rules.c:906-924 | a value without bars is one pattern, and bars stand between patterns of which one has to match |
| RuleMatch.KeysMean | udev-117/udev_rules.c:926-936 | a match wants its pattern to match, a non-match wants it not to, other keys want nothing |
| RuleEval.ApplyRule | udev-117/udev_rules.c:1311-1434 | the assignments of one rule: options, owner, group, mode, symlinks, name and programs with their flag |
| RuleEval.GetName | udev-117/udev_rules.c:1286-1460 | the loop over the packed rules computes the evaluation, gotos and last rules included |
| RuleEval.GetRun | udev-117/udev_rules.c:1462-1528 | the same for the programs to run on removal |
| RuleEval.VisitsAreIncreasing | udev-117/udev_rules.c:1295-1446 | rules are visited in order, each at most once |
| RuleEval.RunVisitsAreIncreasing | udev-117/udev_rules.c:1469-1525 | the same on removal |
| RuleFlow.WholeEvaluation | udev-117/udev_rules.c:1294-1446 | the rules reached are exactly the path from the first rule along the gotos of the rules applied, up to one that ends it; the rules applied are exactly those on it that match and do not name a named device |
| RuleFlow.WholeRemoval | udev-117/udev_rules.c:1468-1525 | the same on removal, where rules that give the device a name, symlink, owner, group or mode do not count |
| RuleFlow.OnwardIff | udev-117/udev_rules.c:1441-1445 | a rule with a goto leads to the first later rule whose compared string is the label, or the end |
| RuleFlow.IgnoredIff | udev-117/udev_rules.c:1312-1316 | the device is ignored exactly if the last rule reached counts and says so |
| RuleFlow.NamingIff | udev-117/udev_rules.c:1405-1410 | the operations that name a device |
| RuleEval.SettleIsEffective | udev-117/udev_rules.c:1355-1434 | a list holds exactly the values of the contributions after the last reset and up to the first final one, each once, and flagged are those that one of these flags |
| RuleOrder.ListsAreInOrder | udev-117/udev_rules.c:1355-1434 | after every evaluation programs and symlinks stand in the order in which the applied rules that count bring them first, and nothing else stands there |
| RuleOrder.RemovalIsInOrder | udev-117/udev_rules.c:1496-1513 | the same for the programs on removal |
| RuleOrder.ErrorsIgnoredIff | udev-117/udev_rules.c:1420-1434 | errors of exactly those programs are ignored that a rule that counts brings with this option |
| RuleOrder.TwoProgramsInOrder | udev-117/udev_rules.c:1420-1434 | RUN+="a" and RUN+="b" give a and then b |
| RuleEval.RightsAreDecided | udev-117/udev_rules.c:1332-1352 | owner, group and mode are those of the first final rule that sets them, else of the last one, else the defaults |
| RuleEval.OwnerIs | udev-117/udev_rules.c:1338-1344 | the owner is that of the first applied rule with := for it, else of the last with an owner |
| RuleEval.GroupIs | udev-117/udev_rules.c:1345-1351 | the same for the group |
| RuleEval.ModeIs | udev-117/udev_rules.c:1332-1337 | the same for the mode, where a mode of 0 sets and keeps nothing |
| RuleEval.OptionsAreSettled | udev-117/udev_rules.c:1317-1331 | link priority and partitions are those of the last applied rule that has them; a removal is ignored if some applied rule says so |
| RuleEval.EvaluationIsSettled | udev-117/udev_rules.c:1286-1460 | over every rule list: symlinks, programs, owner, group and mode are those the applied rules settle |
| RuleEval.FirstNamerWins | udev-117/udev_rules.c:1301-1451 | at most one rule names the device; without one it has the kernel's name |
| RuleEval.RemovalIsSettled | udev-117/udev_rules.c:1462-1528 | the programs on removal are settled by the applied rules, none of which names the device, and a final assignment is the last rule applied |
| Paths.RelativeTarget | udev-117/udev_node.c:112-123 | the two loops build the relative target |
| Paths.ResolveLink | udev-117/udev_sysfs.c:130-142 | the loops strip and append as specified |
| Paths.TargetIs | udev-117/udev_node.c:112-123 | the target goes up once for every directory between the link and the directory shared with the node |
| Paths.ResolveHere | udev-117/udev_sysfs.c:130-142 | a target without a step up is looked for in the link's directory |
| Paths.ResolveUp | udev-117/udev_sysfs.c:130-142 | a step up is a target of a link one directory higher |
| Paths.ResolveUndoesTarget | udev-117/udev_node.c:112-123 | resolving the target from the link's own path gives the node back, exactly if the node's path does not go up right below the shared directory |
| Paths.ResolveUndoesTargetOfPlain | udev-117/udev_sysfs.c:130-142 | it does so for all absolute node paths without a component of two dots |
| Paths.NodeThatGoesUp | udev-117/udev_sysfs.c:130-142 | the node /dev/../a linked from /dev/b resolves to /a |
| Paths.PathEncode | udev-117/udev_utils_string.c:53-74 | the buffer holds the encoded string, or as much of it as fits |
| Paths.PathDecode | udev-117/udev_utils_string.c:76-94 | decoding in place computes the decoded string: what is written never overtakes what is read |
| Paths.DecodeEncode | udev-117/udev_utils_string.c:53-94 | decoding undoes encoding for every string |
| Paths.EncodedHasNoSlash | udev-117/udev_utils_string.c:53-74 | an encoded path is one path component |
| Paths.EncodeIsInjective | udev-117/udev_utils_string.c:53-94 | different paths get different names |
| Paths.EncodeParts | udev-117/udev_utils_string.c:53-74 | slash and backslash are written as escapes, everything else as it is |
| Paths.DecodeKeepsOthers | udev-117/udev_utils_string.c:76-94 | a string without these escapes is decoded to itself |
| Paths.EncodeThenDecode | udev-117/udev_utils_string.c:53-94 | a string whose encoding fits is found again in its buffer after both |
| Utf8.DecodeUnichar | udev-117/udev_utils_string.c:117-154 | the loop computes the value or -1, reading nothing behind the terminator |
| Utf8.LongForms | udev-117/udev_utils_string.c:117-154 | sequences of five and six bytes are decoded too, six bits of every byte but the first |
| Utf8.DecodingFailsIff | udev-117/udev_utils_string.c:117-154 | decoding gives -1 exactly if the first byte announces no sequence or a byte announced is no continuation |
| Utf8.ValidateUnichar | udev-117/udev_utils_string.c:187-217 | the length of the valid character at the front, or -1, reading nothing behind the terminator |
| Utf8.AcceptedTokens | udev-117/udev_utils_string.c:187-217 | the multibyte characters accepted are exactly the encodings of section 3 of RFC 3629 of the numbers up to 10FFFF other than surrogates, FDD0 to FDEF and those ending in FFFF |
| Utf8.PermittedIff | udev-117/udev_utils_string.c:172-185 | the numbers permitted |
| ReplaceChars.ReplaceInPlace | udev-117/udev_utils_string.c:220-270 | the loop leaves the specified string, of the same length, and counts the bytes replaced |
| ReplaceChars.OnlyAllowedTokensAreLeft | udev-117/udev_utils_string.c:220-270 | with an underscore in the whitelist only allowed tokens are left |
| ReplaceChars.SecondRunChangesNothing | udev-117/udev_utils_string.c:220-270 | a second run changes nothing for any whitelist, and counts nothing exactly if the list has an underscore or none was written |
| ReplaceChars.BytesChangeOnlySo | udev-117/udev_utils_string.c:253-266 | a byte is kept or replaced: white space by a space if the list has one, anything else by an underscore |
| ReplaceChars.CountIsOfChanges | udev-117/udev_utils_string.c:220-270 | where no underscore or space stands, the number returned is that of the bytes changed |
| ReplaceChars.TokensAre | udev-117/udev_utils_string.c:225-250 | the tokens that are allowed |
| ReplaceChars.CleanStringsAreKept | udev-117/udev_utils_string.c:220-270 | with a whitelist of whole characters nothing is replaced exactly if the string is made of allowed tokens |
| ReplaceChars.CleanStringsAreKeptIff | udev-117/udev_utils_string.c:220-270 | every string of allowed tokens is kept exactly if the list has no first byte of a character without the others |
| ReplaceChars.SplitCharacterIsCounted | udev-117/udev_utils_string.c:225-229 | with any other list such a character is torn apart |
| ReplaceChars.AsciiListsHaveWholeCharacters | udev-117/udev.h:37-39 | lists of ASCII characters, as all lists of the program, are of that kind |
| Goertzel.FastGoertzel | fft/goertzel.c:26-85 | the loop has the squared magnitude of the bin of the Fourier sum |
| Goertzel.ResultIsTurnedBin | fft/goertzel.c:57-77 | the result is the bin turned by omega once per sample |
| Goertzel.MagnitudeIsOfBin | fft/goertzel.c:57-77 | the squared magnitude of the result is that of the bin, and a quadratic form in the two delayed values |
| Goertzel.ResultIsBinIff | fft/goertzel.c:76-82 | the result, and so its phase, is that of the bin exactly if whole periods were sampled or the bin is zero |
| Goertzel.QuarterPeriodTurns | fft/goertzel.c:76-82 | one sample 1.0 at a quarter of the sampling frequency: the bin is 1, the result the imaginary unit |
| Goertzel.Algo.Update | fft/goertzel.c:101-121 | samples are taken while too few were fed, and refused with -1 after that |
| Goertzel.Algo.Final | fft/goertzel.c:123-159 | takes all samples, succeeds exactly if the count is the length, and then gives the result of all samples fed |
| Goertzel.Session | fft/goertzel.c:87-159 | init, any updates and final give the result of what was fed |
| Goertzel.SplitDoesNotMatter | fft/goertzel.c:87-159 | however the samples are split, what is fed is all of them, as in the one-shot form |
| Goertzel.SessionSucceedsIff | fft/goertzel.c:101-159 | a session succeeds exactly if its samples are just enough, or the updates alone were at some point and only refused ones followed |
| Goertzel.OverfedSessionFails | fft/goertzel.c:101-159 | three samples in one piece where two are wanted are all taken, and the session fails |
| Goertzel.SurplusIsRefused | fft/goertzel.c:101-159 | the same in two pieces: the second is refused, and the session succeeds |
| Fir.FloatFirFilter | fft/fir.c:179-213 | the output is the convolution with zeros before the start, also when it overwrites the input; the rest of the output is untouched |
| Fir.ConvolutionCommutes | fft/fir.c:197-209 | coefficients and input play the same part |
| Fir.DelayCommutes | fft/fir.c:197-209 | a delayed input gives a delayed output |
| Pool.StepKeeps | fpga/nl_pool.c:58-101 | every step of either side keeps the ring invariant |
| Pool.InEveryInterleaving | fpga/nl_pool.c:58-101 | in every interleaving: in is out plus useful modulo 16, useful is at most 16, delivery is in order, the producer never holds a slot that waits, the consumer sees the oldest message |
| Pool.HeldSlotIsStable | fpga/nl_pool.c:58-101 | while the consumer holds a slot nothing the producer does changes it |
| Pool.GetFailsIff | fpga/nl_pool.c:67-101 | a get fails exactly if sixteen messages wait, or none; so one side always gets a slot |
| Pool.SlotIsPrepared | fpga/nl_pool.c:86-101 | the slot got has a new header of its length and process number; its data and the other slots stay |
| Pool.MessagePasses | fpga/nl_pool.c:58-101 | either side may ask for a slot at any time, and a message goes through an empty pool |
| Pool.HookKeepsRingIff | fpga/nl_pool.c:58-84 | a hook keeps the ring exactly if its side could have got a slot; else the counter overflows or wraps |
| Pool.NlPool.KernGetPool | fpga/nl_pool.c:86-101 | a slot with a new header, or none |
| Pool.NlPool.WriteSlot | fpga/fpga-test.c:31-42 | the received message goes into the slot the producer holds |
| Pool.NlPool.KernPoolHook | fpga/nl_pool.c:77-84 | publishes the slot |
| Pool.NlPool.UserGetPool | fpga/nl_pool.c:67-74 | the oldest slot that waits, or none |
| Pool.NlPool.UserPoolHook | fpga/nl_pool.c:58-65 | gives the slot back |

## Left out

- udevd: sockets, signals, inotify, the environment passed to children; fork and reaping are steps whose answers are arbitrary
- udevd: debug trace mode, and changes of the child limit while the daemon runs
- udevd: counting processes in `/proc`; throttling is an arbitrary stop of the dispatch loop
- udevd: what becomes of the memory of deleted messages
- SchedulerSafety.RunningBound: events with a timeout are not limited by the source, so only children started in turn are bounded
- Records.LoadOfSave: names, links and environment entries must fit the buffers they are read into, which the source cuts without notice
- Records: lines of fewer than two characters, for which the source looks past the end of the line
- DeviceDbProofs.LinksAlwaysRight: events are taken one at a time, no name is that of a node and of a link, and no call fails; several udev processes at once may race in `/dev`
- DeviceTree.Tree.RemoveNode: the nodes of partitions, made and removed with the device's own, are not modelled; the database does not list their names
- DeviceTree.Tree.DeviceEvent: the rename of a database entry is modelled apart from the events (`DeviceDbProofs.RenameForgetsIndex`), and network interfaces, which have no node, are not
- DeviceDb: owner, mode and group of nodes, programs run, and messages to the log
- RuleEval: format substitution, attributes, programs and imports; whether the i-th rule matches and what it yields are arbitrary answers
- RuleMatch.MatchKey: fnmatch is arbitrary; values longer than a path buffer, which the source cuts
- RuleBuffer: the tokeniser of rule lines, key pairs and options; integer widths of offsets
- RuleBuffer: how the compiler lays out the header of a rule is arbitrary; a string that does not end before the buffer does is read as ending there
- RuleFiles: `name_list_key_add`, which matches keys by prefix, and list splicing
- NameTable: the mixing of characters in `make_hash` is arbitrary; only that start and decrement are in range is used
- PackageTable.CheckDependencies: the dependency part of `check_deps` alone; `PackageConflicts.CheckDeps` is all of it
- PackageConflicts.CheckDeps: the table has room for the names that are provided, else a search in the source never ends; every package to be processed has a status, as the caller sees to; how the program goes on after looking up a missing status is left open
- PackageTable: the status table is a map from names to status, and names are compared as strings where the source compares their numbers (`NameTable.NumbersNameNames`)
- DependencyText.AddSplitDependencies: a constraint without operator, after which the source uses an operator that was never set, is not accepted by the model
- ControlText: reading on behind the end of a text, as after a field without value there, and a control file without a name are given no meaning; such a text is not accepted
- PackageChecks.CheckControls: the status of packages is given, not read from the status file, and every package to be processed has one
- dpkg: archives, maintainer scripts, and writing the status file
- Paths: truncation by the size of path buffers, and the scratch buffer of `path_encode`, which is three times as long as the string where four times may be needed
- Paths.PathEncode: an encoding that does not fit is left without terminator, as the source does; nothing is claimed about decoding it
- Utf8: the C library's locale; white space is that of the C locale
- Goertzel: rounding, the square root, the arc tangent and the scaling by two over the count; sine and cosine are two reals on the unit circle
- Fir.FloatFirFilter: rounding; input and output are the same array or do not overlap, and the coefficients are not overwritten
- Fir: the window and kernel design
- Pool: the spin on the lock, which two sides may pass at the same time; each hook is one atomic step, and memory suffices when the pool is made
- Everything else: SDL, fftw, console tools, the character display library, font tables, the FPGA test program
