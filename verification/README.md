# A verified model of the mail notifier's protocols

The notifier forwards incoming mail to a chat webhook.  Around it stand an installer, a management tool that
migrates mail filters and runtime files on a remote server, and a private configuration helper.  All of them must
survive a loss of power or of the connection between any two steps.  This project models those protocols and a few
self-contained algorithms in Dafny 4.11 and proves what they promise.  `dafny verify dfyconfig.toml` checks it.

| file | what it models |
|---|---|
| `ScopeJournal.dfy`, `ScopeJournalCodec.dfy` | the two-slot journal of the private configuration helper, as an atomic register |
| `InstallJournal.dfy`, `InstallTransaction.dfy`, `InstallCleanup.dfy` | the installer: its journal, the all-or-nothing switch of application and configuration, the receipt-driven removal |
| `ScopedMigration.dfy`, `PriorityCompaction.dfy` | the journalled migration of managed filters and the predicted compaction of priorities |
| `BootstrapMigration.dfy` | the first migration, through a maintenance window with a deadline |
| `FixedMigration.dfy` | the file-by-file migration of the pinned runtime after a published backup |
| `DeliveryOutbox.dfy` | the outbox under concurrent deliveries and selected retries |
| `DeliveryHealth.dfy` | the health monitor's sequence numbers and pending alert |
| `OperationalLog.dfy` | the bounded log and its compaction |
| `SystemMail.dfy` | building and recognising the notifier's own mails |
| `QuoteTrimmer.dfy` | the HTML scanner that drops quoted parts, against a tree specification |
| `NotificationFormatter.dfy`, `Utf8.dfy` | UTF-8 cleaning and the title (section 4 of RFC 3629) |
| `ForwardingSources.dfy` | the closure of the forwarding graph |
| `Base64.dfy`, `Text.dfy`, `Outcomes.dfy` | base64 (section 4 of RFC 4648), text and how a step ends |

## How losing power and failing calls are modelled

* A class holds the durable state.  `fuel` counts the durable steps that are left; at zero the next step does not
  happen and the method ends as `Crashed`.  `None` means the power never fails.  Runs are methods that give every
  process its own amount of fuel, so a run of any length may be cut at any step, recoveries included.
* A remote call may be carried out or not, and answered or not, independently; `calm` rules that out.  Progress is
  claimed for attempts that are calm and never cut, from whatever state earlier attempts left.
* `Refused` is an exception the source raises on purpose.  Where it matters the condition is exact.
* Digests, MACs, clocks, random values, the JSON and date functions of the platform and the webhook's answers are
  parameters.  Where a property needs digests to tell texts apart, or random values not to repeat, that is an
  explicit hypothesis of the member; digests are then strings of any length, because no function onto strings of a
  fixed length could satisfy it.

## What came out differently from what one might expect

* A slot of the scope journal that is torn at generation 3 or later is torn for good: every read and write refuses.
  Reads refuse half an anchor as well, which the same first write repairs.  Both can be told from the two slots
  (`ScopeJournal.Store.StuckIffUnselectable`, `ScopeJournal.Store.Read`).  Values are never lost, progress is.
* When the clock passes the deadline between the last deletion and the opening of the window, `bootstrap_migrate`
  still records the window, and no later attempt accepts that record (`BootstrapMigration.Migration.Migrate` says
  exactly when, `BootstrapMigration.OpensTooLate` reaches it).
* A normal return of `bootstrap_migrate` does not imply that the locator was switched.  It was, unless the server has
  no rule, none is desired and the locator was the old one: then the attempt returns at once, be it the very first
  one with no rules on either side or one taken up after the deletions (`BootstrapMigration.Migration.Migrate`,
  `BootstrapMigration.EndsUnswitched`).  The one caller refuses an empty list of targets (`manager/manage.py`, lines
  1602 to 1604), and with any desired rule an end is always a commit under the new locator
  (`BootstrapMigration.Migration.Run`).
* A recovery whose clock is before that of the failure, and whose alert is not taken at once, is stored as a state the
  health monitor never accepts again (`DeliveryHealth.Monitor.Record` says exactly when, `DeliveryHealth.ClockSetBack`
  reaches it, `DeliveryHealth.Monitor.Run` keeps it).
* A scoped migration whose server renumbers an unrelated filter is safe but cannot commit while the priority differs:
  the last check compares whole rules.  A resumed run refuses such a readback at once.  Old filters are compared by
  body only, so their priorities do not matter (`ScopedMigration.Migration.Resume`, `ScopedMigration.Migration.Run`).
* The repetition of a first swap that was cut in the middle of slot 0 goes on to a second write, so that losing power
  once more can tear the journal for good (`ScopeJournal.Store.TornByRepetition`, `ScopeJournal.TornByTwoLosses`);
  from every other cut any number of losses does no harm (`ScopeJournal.Store.RepeatFirstSwap`).
* An installation cut between its temporary file and its marker is recovered, but the file stays and makes every
  recovery refuse a later installation that is cut after its marker.  A recovery leaves such files exactly when there
  were some before or it finds them without a marker (`InstallTransaction.Installer.Recover`,
  `InstallTransaction.LitterBlocksTheNext`).
* A removal receipt that is cut short is refused by every recovery; nothing is removed then
  (`InstallCleanup.Cleanup.Resume`, `InstallCleanup.Cleanup.Run`).


## Model

| member | source | states |
|---|---|---|
| ScopeJournalCodec.Codec.DecodeIffEncoding | bin/manage-private-config.php:313-379 | A byte string decodes as a record of a slot exactly when it is the canonical encoding of that record, the record is valid and its generation has the slot's parity |
| ScopeJournalCodec.Codec.NoPrefixDecodes | bin/manage-private-config.php:320-379 | No strict prefix of an encoding decodes, in either slot: a rewrite that was cut short is recognised |
| ScopeJournalCodec.Codec.PrefixFree | bin/manage-private-config.php:286-318 | An encoding is a prefix of another only when the records are equal |
| ScopeJournalCodec.Codec.MarkOfMark | bin/manage-private-config.php:422-433 | The completion mark of a generation names that generation |
| ScopeJournalCodec.Codec.MarksPrefixFree | bin/manage-private-config.php:422-433 | A mark is a prefix of another only when the generations are equal |
| ScopeJournalCodec.Codec.NoPrefixMarks | bin/manage-private-config.php:435-473 | A mark that was cut short names no generation |
| Base64.DecodeOfEncode | bin/manage-private-config.php:355-361 | Strict decoding returns exactly the encoded bytes |
| Base64.Decode | src/SystemMailAuthenticator.php:163-193 | Only canonical base64 text (section 4 of RFC 4648) decodes |
| Text.SplitOfJoin | src/SystemMailAuthenticator.php:231-275 | Splitting undoes joining when no part holds the separator |
| Text.ParseOfDecimal | src/SystemMailAuthenticator.php:367-374 | A decimal numeral is read back as its number |
| ScopeJournal.ConcreteIsLawful | bin/manage-private-config.php:286-379 | The concrete record and mark formats have every property the store relies on, whatever the digest function |
| ScopeJournal.Store.Rewrite | bin/manage-private-config.php:158-185 | Truncate and refill byte by byte: whole when it returns, a prefix of the new bytes when power is lost |
| ScopeJournal.Store.Apply | bin/manage-private-config.php:686-736 | The target becomes the record's body or is refused untouched; a cut leaves a prefix that applying accepts again |
| ScopeJournal.Store.CompletionGeneration | bin/manage-private-config.php:435-473 | A torn mark is completed only when it is a strict prefix of the recoverable generation's mark |
| ScopeJournal.Store.PersistCompletion | bin/manage-private-config.php:475-489 | The mark ends at the generation; written marks never name a later one |
| ScopeJournal.Store.RepairSlot | bin/manage-private-config.php:492-513 | A slot is rewritten to the canonical bytes; with the prefix rule exactly non-prefixes are refused |
| ScopeJournal.Store.InitializeBootstrap | bin/manage-private-config.php:520-544 | The first write fills slot 0 and slot 1 over its own remnant only; a remnant of another record is refused untouched |
| ScopeJournal.Store.AdoptBootstrap | bin/manage-private-config.php:547-593 | Only a whole anchor with a prefix of its record authorises finishing the first write |
| ScopeJournal.Store.AdoptCompletion | bin/manage-private-config.php:785-807 | Only the first completion, cut short, is finished from its prefix |
| ScopeJournal.Store.SelectionOf | bin/manage-private-config.php:381-395 | Both slots select a record exactly when the journal is settled or applying one, and it is that one |
| ScopeJournal.Store.PublishComplete | bin/manage-private-config.php:767-783 | Completion record, then mark: both slots are valid at consecutive generations and the mark names the higher |
| ScopeJournal.Store.Recover | bin/manage-private-config.php:809-833 | The register keeps its value; refused exactly when the two slots hold bytes and neither rule nor can be adopted, half an anchor included; otherwise converged; converged journals change no byte |
| ScopeJournal.Store.Read | bin/manage-private-config.php:835-860 | A read that returns gives the register's value, and it refuses exactly when the two slots hold bytes and neither rule nor can be adopted, half an anchor included |
| ScopeJournal.Store.StuckIffUnselectable | bin/manage-private-config.php:381-395 | Both tears can be told from the slots: readers give up on any of them, and only half an anchor can be repaired |
| ScopeJournal.Store.WriteFirst | bin/manage-private-config.php:862-924 | The first write gives its body or keeps the value; repeating it over its own remnant is never refused |
| ScopeJournal.Store.BeginNext | bin/manage-private-config.php:862-924 | A cut while the next record is written leaves the old value and a journal that refuses |
| ScopeJournal.Store.WriteNext | bin/manage-private-config.php:862-924 | A further write gives its body; refused, with nothing changed, exactly when the generations are used up |
| ScopeJournal.Store.Write | bin/manage-private-config.php:862-924 | A write that returns leaves its body, converged; a cut leaves the old value or the body; an open journal never refuses a proper body; a tear other than half an anchor is refused untouched; a proper body is written exactly when the slots take it |
| ScopeJournal.Store.CompareAndSwap | bin/manage-private-config.php:936-978 | The answer to a swap of proper bodies is determined by the slots and the register before it; changed, already applied and conflict mean what they say of it |
| ScopeJournal.Store.RepeatFirstSwap | bin/manage-private-config.php:936-978 | The first swap loses power anywhere, and again in any repetition that does not begin with half an anchor: it ends with the desired body, converged, and a further recovery changes no byte |
| ScopeJournal.Store.TornByRepetition | bin/manage-private-config.php:862-924 | From half an anchor a repetition finishes the first write and goes on to a further one; with exactly that power a single swap tears the journal for good |
| ScopeJournal.TornByTwoLosses | bin/manage-private-config.php:862-978 | Two swaps that lose power, from an existing target and with the real record format, end there |
| ScopeJournal.Store.HalfAnchoredIffAnchoring | bin/manage-private-config.php:492-544 | Half an anchor can be told from the slots: bytes but no record in slot 0, none in slot 1 |
| ScopeJournal.Store.Serve | bin/manage-private-config.php:843-978 | One process, losing power anywhere, is one step of an atomic register, and which requests throw is exact |
| ScopeJournal.Store.ReadyServes | bin/manage-private-config.php:843-978 | Nothing torn, no first write half done and numbers left: no acceptable request is refused |
| ScopeJournal.Store.Run | bin/manage-private-config.php:843-978 | Every sequence of reads, writes and swaps that lose power anywhere is a history of one atomic register; from a journal that is ready, with the power on, every acceptable request is served |
| ScopeJournal.ReadsAfterWrite | bin/manage-private-config.php:843-978 | After a write that returned, a read gives its body or that of a later write: never a torn and never an earlier one |
| InstallJournal.Journal.WriteExclusive | macos/install_transaction.py:255-264 | An exclusive create is refused exactly when the name exists; a cut leaves a torn file |
| InstallJournal.Journal.WriteStateOnly | macos/install_transaction.py:285-294 | The entry is in the log from the moment its state has its final name |
| InstallJournal.Journal.WritePointer | macos/install_transaction.py:296-307 | The pointer of the last state is the only one that may be missing |
| InstallJournal.Journal.StateNumbers | macos/install_transaction.py:324-352 | The state names are exactly 1..n |
| InstallJournal.Journal.PointerNumbers | macos/install_transaction.py:324-352 | The pointers are 1..n, or lack the last |
| InstallJournal.Journal.Append | macos/install_transaction.py:309-312 | The log is extended by the entry, or, when cut, by it or by nothing |
| InstallJournal.Journal.Inspect | macos/install_transaction.py:324-352 | The checks refuse exactly on a left-over temporary file or an empty journal, and otherwise find the last state |
| InstallJournal.Journal.RecoverHead | macos/install_transaction.py:324-355 | Quarantine, or the last state that reached its name, after which states and pointers are both 1..n and recovering again changes nothing |
| InstallJournal.Journal.AppendAll | macos/install_transaction.py:280-312 | Any number of appends cut at any file step leave a log of the first of them |
| InstallTransaction.PlansKeepTheirPromise | macos/install_transaction.py:364-399 | Every plan of the table can be carried out from its cell and leaves exactly the promised configuration |
| InstallTransaction.LoopFollowsThePlan | macos/install_app.py:1209-1236 | Taking the first action of a plan and classifying anew ends where the whole plan ends |
| InstallTransaction.RoundKeepsCourse | macos/install_app.py:1209-1236 | A round is possible, stays on course, comes closer, and stops only at the goal |
| InstallTransaction.LoopReachesTheGoal | macos/install_app.py:1209-1236 | From every layout on course the loop reaches the goal in at most four of its eight rounds |
| InstallTransaction.OthersAreQuarantined | macos/install_app.py:1209-1236 | A layout that no publication or rollback passes through is left for inspection |
| InstallTransaction.ApplyPerforms | macos/install_app.py:1187-1207 | Moving or removing the files does to the classified layout what the action says |
| InstallTransaction.Installer.StageConfig | macos/install_app.py:268-338 | Up to the marker the old configuration is untouched |
| InstallTransaction.Installer.PublishConfig | macos/install_app.py:268-338 | The old configuration is set aside and the new one published; every cut stays on course |
| InstallTransaction.Installer.Exchange | macos/install_app.py:858-864 | The trees are exchanged atomically, or renamed when there was no application |
| InstallTransaction.Installer.Publish | macos/install_app.py:855-873 | Intent, exchange, verification: the head and the trees always agree on what recovery will decide |
| InstallTransaction.Installer.Commit | macos/install_app.py:1076-1080 | The old configuration is forgotten and then the marker, with both halves new throughout |
| InstallTransaction.Installer.Complete | macos/install_app.py:898-918 | Both halves are checked once more; a completion receipt exists only when both are new |
| InstallTransaction.Installer.Install | macos/install_app.py:1057-1082 | An installation that returns leaves both halves new, no transaction and no file besides; the cuts that leave a temporary file, or a marker with its files, are named |
| InstallTransaction.Installer.ConvergeConfig | macos/install_app.py:1209-1236 | The recovery loop never uses up its eight rounds and ends at the goal the application dictates |
| InstallTransaction.Installer.RecoverConfigMarker | macos/install_app.py:1098-1240 | The configuration ends with the application; refused exactly on a torn marker, a missing one whose configuration was recorded, or a whole one beside files of another transaction |
| InstallTransaction.Installer.JudgeApplication | macos/install_app.py:1290-1348 | Journal head and tree digests tell whether the application is old, new or absent |
| InstallTransaction.Installer.RecoverHalves | macos/install_app.py:1351-1369 | A judged transaction ends with both halves alike and no transaction left, and with the completion receipt when both are new |
| InstallTransaction.Installer.Recover | macos/install_app.py:1243-1374 | A recovery that returns leaves no transaction and both halves old or both new, as the installed tree dictates, and the completion receipt exactly when both are new; it refuses only in quarantine; it leaves files to trip over exactly when there were some before or it finds them without a marker |
| InstallTransaction.Installer.Run | macos/install_app.py:1057-1374 | Over every installation and any number of recoveries, all losing power anywhere, whenever one returns both halves are old or both new |
| InstallTransaction.RunAll | macos/install_app.py:1057-1374 | Over any number of installations, each cut and recovered anywhere, application and configuration always belong to the same one |
| InstallTransaction.LeavesTemp | macos/install_app.py:1098-1131 | An installation cut after its temporary file is recovered and leaves the file for good |
| InstallTransaction.BlockedByLitter | macos/install_app.py:1180-1185 | Beside such a file an installation cut after its marker is refused by every recovery |
| InstallTransaction.LitterBlocksTheNext | macos/install_app.py:1057-1374 | One after the other: what the first installation leaves keeps the second from being recovered |
| InstallCleanup.Scan | macos/install_transaction.py:460-497 | The scan lists every entry beneath a directory once, truthfully, by name, and what lies beneath a directory before it |
| InstallCleanup.FirstName | macos/install_transaction.py:463 | The names of a directory are visited in their order |
| InstallCleanup.OneInventory | macos/install_transaction.py:460-517 | There is one inventory of a tree only: the list is determined by the tree, the digests and the order |
| InstallCleanup.DescribeTells | macos/install_transaction.py:481-497 | With digests that tell contents apart an entry tells a node from any other, down to the content of a file |
| InstallCleanup.InOrderIsOrdered | macos/install_transaction.py:460-497 | In that order nothing is listed twice, and a directory after what lies beneath it |
| InstallCleanup.OneNameMore | macos/install_transaction.py:460-497 | Appending a child's entries and then its own keeps the list complete and in order |
| InstallCleanup.ThroughAll | macos/install_transaction.py:460-497 | Every path beneath a directory goes through one of its names |
| InstallCleanup.Cleanup.CreateReceipt | macos/install_transaction.py:510-534 | A receipt is made exactly when its name is free and the expected inventory is that of the tree; a cut may leave a torn one |
| InstallCleanup.Cleanup.RemoveEntry | macos/install_transaction.py:588-620 | One entry is removed if it is still there with its identity; nothing lies beneath it then |
| InstallCleanup.Cleanup.NextIsRemovable | macos/install_transaction.py:588-620 | Once all earlier entries are gone the next one can be removed: a directory is empty by then |
| InstallCleanup.Cleanup.RemoveEntries | macos/install_transaction.py:588-620 | All surviving entries go, in order; a cut leaves the rest as recorded |
| InstallCleanup.Cleanup.ScanTells | macos/install_transaction.py:581-587 | The scan finds something unrecorded or changed exactly when there is such an entry |
| InstallCleanup.Cleanup.Resume | macos/install_transaction.py:562-628 | Nothing is removed unless all that is left is as recorded (`RecordedIffSame`: every node is the very one that was recorded); the receipt goes last; an uncut resume always finishes; a torn receipt is refused with nothing removed |
| InstallCleanup.Cleanup.RecordedIffSame | macos/install_transaction.py:581-587 | The comparison with the receipt passes exactly when every node left is the one that was there, content included |
| InstallCleanup.Cleanup.Run | macos/install_transaction.py:510-628 | With a whole receipt any number of interrupted removals and one uninterrupted one remove exactly what was recorded; without one, or when a single node of the directory is not the one that was recorded, nothing is ever removed |
| PriorityCompaction.ExpectedIsRank | manager/manage.py:197-216 | The compaction formula gives a survivor its place among the survivors |
| PriorityCompaction.CompactionRenumbers | manager/manage.py:197-216 | For any numbering and any removed peers the formula maps the survivors onto 1..n-k, keeping their order |
| PriorityCompaction.RanksNumber | manager/manage.py:197-216 | The survivors' places are 1..m, each once |
| PriorityCompaction.ExpectedTells | manager/manage.py:197-216 | A priority is predicted exactly when the old ones are a numbering and something is missing that may be |
| ScopedMigration.ValidatedMakesSense | manager/scope_journal.py:54-128 | What a journal that passes its checks guarantees of identifiers, digests, announcements and phases |
| ScopedMigration.Plan.FreshIsSafe | manager/scope_journal.py:186-217 | A journal that passes its checks and the untouched server start out consistent |
| ScopedMigration.Plan.AddIsSafe | manager/manage.py:290-311 | Adding a desired body that is missing, while every old filter is there, breaks nothing on the server |
| ScopedMigration.Plan.AddIsJournalled | manager/manage.py:290-311 | An announced addition is accounted for by the journal, whatever identifier it gets |
| ScopedMigration.Plan.DeleteIsSafe | manager/manage.py:313-328 | Deleting an old filter once all desired ones are there breaks nothing |
| ScopedMigration.Plan.DeleteIsJournalled | manager/manage.py:313-328 | An announced deletion is accounted for |
| ScopedMigration.Plan.AnnouncementIsJournalled | manager/manage.py:865-880 | Announcing an operation while everything is settled gives a valid journal |
| ScopedMigration.Plan.NameIsJournalled | manager/manage.py:228-237 | Naming the announced addition gives a valid journal |
| ScopedMigration.Plan.RetirementIsJournalled | manager/manage.py:268-275 | Retiring the filter whose deletion was announced gives a valid journal |
| ScopedMigration.Plan.OneUnknown | manager/manage.py:226-239 | At most one filter is not named by the journal |
| ScopedMigration.Migration.Write | manager/scope_journal.py:148-168 | The journal is replaced only by a state that passes validation |
| ScopedMigration.Migration.Adopt | manager/manage.py:225-239 | An unknown filter with the announced body is taken for the announced addition, whatever run announced it |
| ScopedMigration.Migration.IntactMovedUpAtMost | manager/manage.py:247-261 | An unrelated filter that passes the audit is as it was or has its compacted priority |
| ScopedMigration.Migration.Retire | manager/manage.py:268-275 | A missing old filter is the one whose deletion was announced, and is retired |
| ScopedMigration.Migration.SnapshotFilters | manager/manage.py:218-288 | The audit accounts for every filter by name, retires what is gone, and with a journal that can be written passes exactly when every unrelated filter is as it was or has its compacted priority |
| ScopedMigration.Migration.IntactIffCompacted | manager/manage.py:247-261 | An unrelated filter passes exactly when it is as it was or has the priority of a renumbering that closes the gaps |
| ScopedMigration.Migration.PeersTell | manager/manage.py:197-206 | The peers of a filter are those of its domain |
| ScopedMigration.Migration.Announce | manager/manage.py:294-295 | The journal announces the next operation before the call |
| ScopedMigration.Migration.CallAdd | manager/manage.py:296-301 | Whatever the server does with the call, the journal accounts for it |
| ScopedMigration.Migration.AddFilter | manager/manage.py:290-311 | The body is there once, all other bodies are as before, and the readback was audited |
| ScopedMigration.Migration.DeleteFilter | manager/manage.py:313-328 | The old filter alone is gone, all desired bodies are still there, and the readback was audited |
| ScopedMigration.Migration.BodiesOf | manager/manage.py:166-172 | The bodies of the recorded additions are found by their digests |
| ScopedMigration.Migration.Resume | manager/manage.py:782-808 | A run takes up the journal only when the server matches it, which it does unless priorities moved |
| ScopedMigration.Migration.AddMissing | manager/manage.py:885-889 | Afterwards every desired body is there, each once |
| ScopedMigration.Migration.DeleteStale | manager/manage.py:890-895 | Afterwards no old filter is there and every desired body still is |
| ScopedMigration.Migration.ApplyConfig | manager/manage.py:897-931 | The private configuration changes only once the server has converged |
| ScopedMigration.Migration.ConvergedIsNamed | manager/manage.py:582-591 | Once everything desired is there, the journal names each of it exactly once |
| ScopedMigration.Migration.CommittableIsMigrated | manager/manage.py:580-597 | The last checks imply: unrelated filters exactly as before, every desired body once, nothing else |
| ScopedMigration.Migration.Commit | manager/manage.py:945-949 | A commit leaves a valid committed journal and the whole migration done |
| ScopedMigration.Migration.Sync | manager/manage.py:842-951 | One attempt, cut anywhere: safe, and when it returns everything is migrated; undisturbed it returns |
| ScopedMigration.Migration.Run | manager/manage.py:842-951 | Over any number of cut attempts against a failing, unanswering or renumbering server nothing unsafe ever happens; with a last undisturbed attempt the migration is committed exactly when every unrelated filter it finds has its first priority; those of old filters do not matter |
| DeliveryOutbox.IsDefiniteTotalRejection | src/DeliveryOutbox.php:131-154 | Of a result that is no success: true exactly when something was attempted and every attempt was refused for one of the listed reasons |
| DeliveryOutbox.SecondTokenOnlyAfterRejection | src/DeliveryOutbox.php:42-105 | While a message is known, a second token is given out only after every earlier send was finished as a definite total rejection; one left in flight is never sent again |
| DeliveryOutbox.SendStays | src/DeliveryOutbox.php:42-105 | A claimed send stays in the history until the message is forgotten, and is finished at most by its own token |
| DeliveryOutbox.ClaimMirrors | src/DeliveryOutbox.php:57-65 | Claiming an unknown or pending message keeps rows and history in agreement |
| DeliveryOutbox.FinishMirrors | src/DeliveryOutbox.php:73-85 | Finishing a send keeps rows and history in agreement |
| DeliveryOutbox.HistoryGrows | src/DeliveryOutbox.php:42-105 | Every allowed event keeps the history lawful |
| DeliveryOutbox.RowsMakeSense | src/DeliveryOutbox.php:154-205 | Whatever is stored after any run passes the checks of a later read |
| DeliveryOutbox.RowsTell | src/DeliveryOutbox.php:68-86 | The state of a row tells how the last send of its message ended, or that it has not |
| DeliveryOutbox.FindOldest | src/DeliveryOutbox.php:50-56 | The row given up is delivered and no delivered one is older; None only when nothing is delivered |
| DeliveryOutbox.Outbox.MakeRoom | src/DeliveryOutbox.php:49-56 | Expired rows go; one more goes only when there is no room, and it is the oldest delivered one |
| DeliveryOutbox.Outbox.Begin | src/DeliveryOutbox.php:34-66 | A new row in flight with a fresh token, or suppressed exactly when the message is known, or a conflict that changes nothing; which of them, and when none, is determined by the payload, the rows and the size limits |
| DeliveryOutbox.Outbox.Finish | src/DeliveryOutbox.php:68-86 | Only the row in flight under that token takes the outcome: delivered, pending after total rejection, else review only; it does exactly when it waits for it and the store keeps to its size |
| DeliveryOutbox.Outbox.ClaimSelected | src/DeliveryOutbox.php:89-106 | A row goes in flight again exactly when it is pending, of that revision, with a current recipient, and the store keeps to its size |
| DeliveryOutbox.Service.Deliver | src/DeliveryApplication.php:107-127 | Suppressed exactly when the message is known; with a store that can take the row it is stored before it is sent; sent without a row only when the store could not take it |
| DeliveryOutbox.DeliverTwice | src/DeliveryApplication.php:107-127 | Delivered twice within a week, with a store that works, a message is handed to the webhook once |
| DeliveryOutbox.KnownForAWeek | src/DeliveryOutbox.php:40-48 | A message is known for seven days from when its row was made |
| DeliveryOutbox.LivesForAWeek | src/DeliveryOutbox.php:60 | A row lives for seven days and no longer |
| DeliveryOutbox.Service.Retry | src/DeliveryRecovery.php:20-24 | A retry holds a token exactly when the row can be selected and the store keeps to its size |
| DeliveryOutbox.Service.HandOver | src/DeliveryApplication.php:128-133 | Each token is handed over at most once |
| DeliveryOutbox.Service.Settle | src/DeliveryApplication.php:134-144 | The outcome is stored exactly when the row awaits it and the store keeps to its size; else all stays as it is |
| DeliveryOutbox.Service.Run | src/DeliveryApplication.php:107-144 | Every interleaving of deliveries and retries that stop anywhere has a lawful history |
| QuoteTrimmer.HtmlOfTree | src/QuoteTrimmer.php:46-121 | On the rendering of any well-formed tree the scanner leaves exactly the rendering of the tree without its quoted elements |
| QuoteTrimmer.ScanKept | src/QuoteTrimmer.php:46-121 | Outside quotes what is kept of a forest is the rendering of the pruned forest |
| QuoteTrimmer.ScanSkipped | src/QuoteTrimmer.php:77-104 | Inside a quote nothing is kept and the depth is the same after any forest, raw text included |
| QuoteTrimmer.ScanRaw | src/QuoteTrimmer.php:248-273 | A raw-text element is taken whole, whatever its text looks like |
| QuoteTrimmer.RawIsRead | src/QuoteTrimmer.php:248-260 | The first closing tag with the name, after content that has none, is the element's own |
| QuoteTrimmer.OpenTagIsRead | src/QuoteTrimmer.php:169-214 | A rendered opening tag is read with its name, attributes, end and slash |
| QuoteTrimmer.CloseTagIsRead | src/QuoteTrimmer.php:229-246 | A rendered closing tag is read with its name and end, in any case of letters |
| QuoteTrimmer.CommentIsRead | src/QuoteTrimmer.php:65-73 | A rendered comment ends where it ends |
| QuoteTrimmer.ClosingTag | src/QuoteTrimmer.php:229-246 | The method at an offset agrees with the specification on the rest of the text |
| QuoteTrimmer.AttributesEnd | src/QuoteTrimmer.php:185-213 | The quote-aware scan of attributes agrees with its specification |
| QuoteTrimmer.ClosedTells | src/QuoteTrimmer.php:189-211 | A tag ends at the first bracket outside quotations, when that is a closing one |
| QuoteTrimmer.BrokenTells | src/QuoteTrimmer.php:189-213 | Otherwise it is given up at the very first opening bracket, quoted or not, or at the end of the text |
| QuoteTrimmer.OpenerTells | src/QuoteTrimmer.php:169-214 | A tag that is read is written as its name and its attributes |
| QuoteTrimmer.BrokenOpener | src/QuoteTrimmer.php:169-226 | A tag that cannot be read is given up at once or at the first opening bracket after its name |
| QuoteTrimmer.CloserTells | src/QuoteTrimmer.php:229-246 | A closing tag that is read is written as one |
| QuoteTrimmer.RawEndTells | src/QuoteTrimmer.php:248-261 | Raw text ends with the first closing tag of its element, or with the text |
| QuoteTrimmer.SelfClosesTells | src/QuoteTrimmer.php:209 | A tag closes itself when only space follows its last slash |
| QuoteTrimmer.AfterTells | src/QuoteTrimmer.php:67-75 | A comment ends with the first occurrence of its end, or with the text |
| QuoteTrimmer.OpeningTag | src/QuoteTrimmer.php:169-214 | The method agrees with the specification, malformed tags included |
| QuoteTrimmer.RawTextElementEnd | src/QuoteTrimmer.php:248-260 | Skipping from candidate to candidate finds the first closing tag of the name anywhere |
| QuoteTrimmer.OpaqueElementEnd | src/QuoteTrimmer.php:263-273 | Plaintext runs to the end, raw text to its closing tag, anything else to its own end |
| QuoteTrimmer.TakeAt | src/QuoteTrimmer.php:54-118 | One turn of the loop takes what the specification takes |
| QuoteTrimmer.Html | src/QuoteTrimmer.php:46-121 | On every text the pass ends, its result is a subsequence of the text, and is what the scanner function says |
| FixedMigration.InspectTells | manager/release_workflow.py:510-535 | An inspection sees an exact tree, or a part of it, exactly when every file is as the manifest says |
| FixedMigration.DescribeTells | manager/release_workflow.py:524-535 | With digests that tell contents apart a manifest tells a file from any other |
| FixedMigration.Plan.PrefixDescribes | manager/release_workflow.py:467-471 | The k-th manifest describes the tree after k replacements |
| FixedMigration.Plan.BackupRestores | manager/release_workflow.py:503-508 | The originals laid over any tree of the chain give the original tree |
| FixedMigration.Plan.PrefixesDiffer | manager/release_workflow.py:481-486 | When each file is replaced once by a different one, no two manifests of the chain are the same |
| FixedMigration.Migration.Restorable | manager/release_workflow.py:551-560 | The live tree is one of the chain, and whenever it is not the first the published backup restores it |
| FixedMigration.Migration.BuildPrefixes | manager/release_workflow.py:467-471 | The manifests built in the loop are those of the chain |
| FixedMigration.Migration.FindPrefix | manager/release_workflow.py:481-486 | The single exact manifest is the one of the files replaced so far |
| FixedMigration.Migration.DeleteStaging | manager/release_workflow.py:575-609 | A partial staging directory is removed file by file and never holds anything but originals |
| FixedMigration.Migration.ReadOriginals | manager/release_workflow.py:561-570 | What is read for the backup is exactly the originals |
| FixedMigration.Migration.Upload | manager/release_workflow.py:612-625 | The staging directory holds some originals at every cut and all of them at the end |
| FixedMigration.Migration.Publish | manager/release_workflow.py:626-630 | The backup appears whole or not at all |
| FixedMigration.Migration.PrepareBackup | manager/release_workflow.py:560-630 | The backup is published whole from whatever an earlier attempt left |
| FixedMigration.Migration.ReplaceAtomic | manager/release_workflow.py:647-652 | A replacement leads to the next tree of the chain or changes nothing, answered or not |
| FixedMigration.Migration.ReplaceFile | manager/release_workflow.py:635-670 | One turn of the loop ends with the next tree or refuses; the second try is safe |
| FixedMigration.Migration.Transaction | manager/release_workflow.py:495-670 | The remaining files are replaced in order |
| FixedMigration.Migration.Migrate | manager/release_workflow.py:448-493 | A normal return means the last tree |
| FixedMigration.Migration.Run | manager/release_workflow.py:448-670 | Over any number of cut attempts the live tree is always in the chain and restorable; one undisturbed attempt finishes |
| BootstrapMigration.Count | manager/release_deployer.py:327-329 | Counting gives every body as often as it occurs |
| BootstrapMigration.LookAt | manager/release_deployer.py:481-485 | Looking at the desired rules in order never adds one too many and misses none |
| BootstrapMigration.ForeignIsIsolated | manager/release_deployer.py:332-356 | A server with anything besides old and new rules, or too many of one, is not classified at all |
| BootstrapMigration.ClassifyTells | manager/release_deployer.py:332-356 | Rules are taken for a remnant of the maintenance, or for both sets, only when they are |
| BootstrapMigration.ReadableMakesSense | manager/release_deployer.py:262-308 | A record that is taken up fits its phase, its times in order within two minutes |
| BootstrapMigration.EndsUnswitched | manager/release_deployer.py:381-470 | With no new rule an attempt cut after the deletions makes the next one return with nothing to do and the locator not switched |
| BootstrapMigration.OpensTooLate | manager/release_deployer.py:282-474 | An undisturbed attempt that reads the clock late stores a window record, and the next attempt refuses it without any change |
| BootstrapMigration.Migration.NeverTogether | manager/release_deployer.py:465-489 | Old and new rules are never there together; a new one is there only after the locator was switched |
| BootstrapMigration.Migration.ReadableWindow | manager/release_deployer.py:282-308 | The record of a window can be taken up exactly when the window began by its deadline |
| BootstrapMigration.Migration.DeleteAll | manager/release_deployer.py:466-470 | The old filters go one by one; undisturbed they all go exactly when every deletion finds the deadline ahead |
| BootstrapMigration.Migration.Found | manager/release_deployer.py:332-356 | By what is recorded, an attempt finds exactly one of the four legitimate states |
| BootstrapMigration.Migration.DeleteOld | manager/release_deployer.py:434-441 | One old rule is deleted within the deadline and the rest read back |
| BootstrapMigration.Migration.OpenWindow | manager/release_deployer.py:466-474 | The window is recorded only on an empty readback; it begins with the clock reading after the deletions, and its record is accepted exactly when that one is not past the deadline |
| BootstrapMigration.Migration.Switch | manager/release_deployer.py:376-380 | The locator is switched within the deadline |
| BootstrapMigration.Migration.AddNew | manager/release_deployer.py:443-453 | One missing rule is added within the deadline and all read back |
| BootstrapMigration.Migration.AddRemaining | manager/release_deployer.py:481-485 | Afterwards the multiset of bodies equals the desired one |
| BootstrapMigration.Migration.CloseWindow | manager/release_deployer.py:475-492 | A commit implies the desired multiset, the new locator, and a record that is accepted when read |
| BootstrapMigration.Migration.Maintain | manager/release_deployer.py:412-492 | From every recorded phase the window is opened and closed; in time and undisturbed it always is; without a confirmation nothing is touched |
| BootstrapMigration.Migration.Migrate | manager/release_deployer.py:310-494 | One attempt, cut anywhere; it has nothing to do exactly when there is no rule at all to remove or add, and a return leaves the new locator exactly otherwise or if it was there before; an undisturbed attempt, the first one or one that resumes an authorization, leaves a record that is never accepted exactly when the clock passes the deadline between the deletions and the window |
| BootstrapMigration.Migration.Run | manager/release_deployer.py:310-494 | Over any number of cut attempts nothing unsafe happens and an end means the desired rules; with any desired rule it is a commit under the new locator with a readable record; a stuck window stays; unconfirmed attempts touch neither rules nor locator |
| SystemMail.BuiltIsAuthentic | src/SystemMailAuthenticator.php:62-139 | Every mail that is built is recognised |
| SystemMail.BuiltUnlessTooLong | src/SystemMailAuthenticator.php:62-113 | Valid inputs are built, unless a line or the whole mail is too long |
| SystemMail.AuthenticIffCarried | src/SystemMailAuthenticator.php:163-216 | The checks of version 2 pass exactly on the headers and body of a mail that carries its own MAC and the hash of that body |
| SystemMail.RecognisedIff | src/SystemMailAuthenticator.php:115-139 | A text is recognised exactly when it is taken apart at its first blank line into a version that passes its checks |
| SystemMail.OneMacOneMail | src/SystemMailAuthenticator.php:193-216 | With a MAC that tells texts apart two mails that pass with the same MAC say the same |
| SystemMail.RequiredAsWritten | src/SystemMailAuthenticator.php:231-275 | Each required header has the values that are written, in order, never folded |
| SystemMail.FoldedLine | src/SystemMailAuthenticator.php:240-249 | A continued line is refused after a required header and spoils one that must be exact |
| SystemMail.ExactLine | src/SystemMailAuthenticator.php:252-275 | A header that must be exact is spoilt by a missing blank |
| SystemMail.ValidBodyIff | src/SystemMailAuthenticator.php:320-324 | A body is UTF-8 text that ends with one line end, without carriage returns and NULs |
| SystemMail.BlankIsFirst | src/SystemMailAuthenticator.php:219-228 | The blank line found is the first one, and one is found when there is any |
| SystemMail.FrameInjective | src/SystemMailAuthenticator.php:367-374 | Different lists of fields are framed differently |
| SystemMail.MacCoversMail | src/SystemMailAuthenticator.php:85-93 | What the MAC covers determines the whole mail |
| SystemMail.FrameFields | src/SystemMailAuthenticator.php:367-374 | The loop computes the framing |
| SystemMail.HeadersAreRead | src/SystemMailAuthenticator.php:231-275 | A block of known headers is parsed back, each with its value once |
| SystemMail.ReadHeaders | src/SystemMailAuthenticator.php:231-275 | The loop over the lines agrees with the specification of the parser, folding and malformed lines included |
| SystemMail.FieldIsRead | src/SystemMailAuthenticator.php:251-274 | A known header line is read as its name, in any case of letters, and its value |
| SystemMail.BlankAfterLines | src/SystemMailAuthenticator.php:219-228 | The first blank line after the headers is the one that ends them |
| SystemMail.UnwrapOfWrapped | src/SystemMailAuthenticator.php:361-364 | Removing the line ends of 76-column text gives the text back |
| SystemMail.BodyIsRead | src/SystemMailAuthenticator.php:177-183 | The canonical writing of a body, and so the body, is read back |
| SystemMail.DecodeBody | src/SystemMailAuthenticator.php:177-183 | Only the canonical writing of a body is accepted |
| SystemMail.SplitSubject | src/SystemMailAuthenticator.php:331-352 | The loop computes the pieces of the subject |
| SystemMail.ChunksOfText | src/SystemMailAuthenticator.php:331-352 | The pieces of a subject are the text, cut between code points, none empty and none over 45 bytes |
| SystemMail.MailIsRead | src/SystemMailAuthenticator.php:94-112 | All eleven headers of a mail are read back with their values |
| SystemMail.IsUtf8IffWellFormed | src/SystemMailAuthenticator.php:315-318 | The validity check accepts exactly the well-formed UTF-8 texts |
| Utf8.ReadOfEncode | src/NotificationFormatter.php:133-161 | What is written for a code point (section 4 of RFC 3629) is read back as it |
| Utf8.EncodeOfRead | src/NotificationFormatter.php:133-161 | A sequence that is accepted is the writing of the code point it stands for |
| Utf8.PointsOfEncodeAll | src/NotificationFormatter.php:133-161 | Well-formed text is read as the code points it was written from |
| Utf8.WellFormedIffStarts | src/NotificationFormatter.php:133-161 | A text is well formed exactly when an accepted sequence starts wherever one is read |
| NotificationFormatter.WithoutControlCharacters | src/NotificationFormatter.php:80-114 | The result is the code points of the text, malformed bytes replaced, without the controls, in UTF-8 |
| NotificationFormatter.Cleaned | src/NotificationFormatter.php:80-114 | Nothing that is left is a control character |
| NotificationFormatter.CleanedIsClean | src/NotificationFormatter.php:80-114 | Text that is well formed and without controls is left alone, so cleaning is idempotent |
| NotificationFormatter.FirstCodePoints | src/NotificationFormatter.php:121-131 | Of well-formed text exactly the first code points, of any text a prefix |
| NotificationFormatter.TitleTextIsOneLine | src/NotificationFormatter.php:116-119 | A title's text has no control and no line break |
| NotificationFormatter.TrimLeft | src/NotificationFormatter.php:116-119 | Only characters that are trimmed go at the front |
| NotificationFormatter.TrimRight | src/NotificationFormatter.php:116-119 | Only characters that are trimmed go at the end |
| NotificationFormatter.WithoutTitleControls | src/NotificationFormatter.php:116-119 | Dropping and trimming bytes is dropping and trimming code points |
| NotificationFormatter.Title | src/NotificationFormatter.php:13-22 | The title is at most the first hundred code points of the whole title, cut between two of them |
| OperationalLog.NewestIsLongest | src/OperationalLogger.php:640-672 | No longer run of newest records fits the budget |
| OperationalLog.WindowIsLongest | src/OperationalLogger.php:613-634 | The window is the longest end of the log that follows a line end within the last 240 KiB, or all of a shorter log |
| OperationalLog.LogOfRecords | src/OperationalLogger.php:636-676 | Of a log that consists of records the longest newest run that fits is kept |
| OperationalLog.Newest | src/OperationalLogger.php:640-672 | What is selected is a run of newest records in order, and fits |
| OperationalLog.SelectNewest | src/OperationalLogger.php:640-676 | The loop from the newest line back selects the longest run that fits, or refuses when not even the newest does |
| OperationalLog.Logger.WriteAll | src/OperationalLogger.php:600-610 | All bytes are written, or a prefix of them |
| OperationalLog.Logger.ReadTail | src/OperationalLogger.php:624-631 | The window is read whole in pieces of any size |
| OperationalLog.Logger.CompactedTail | src/OperationalLogger.php:613-677 | What is kept is the longest newest run of valid complete records of the last 240 KiB that fits |
| OperationalLog.Logger.KeptFits | src/OperationalLogger.php:613-677 | What is kept fits the budget and ends a line |
| OperationalLog.Logger.Append | src/OperationalLogger.php:413-480 | Old log and event, or kept records and event, at most 240 KiB and whole lines; a failed append loses nothing that was there |
| OperationalLog.Logger.Run | src/OperationalLogger.php:413-480 | After every successful append the log is bounded and newline-terminated |
| DeliveryHealth.StatusIsOfHighest | src/DeliveryHealthMonitor.php:104-165 | The applied sequence is the highest, not above the reserved one, and the status is its outcome |
| DeliveryHealth.DegradedHasFailed | src/DeliveryHealthMonitor.php:127-158 | While deliveries fail the latest transition is a failure with its classification |
| DeliveryHealth.Observed | src/DeliveryHealthMonitor.php:118-158 | What one more observation does to status, failure and alert |
| DeliveryHealth.AcceptedMakesSense | src/DeliveryHealthMonitor.php:246-284 | In a state that is accepted the failure, the alert and the numbers fit together |
| DeliveryHealth.Monitor.Read | src/DeliveryHealthMonitor.php:223-285 | A missing state is created, an unacceptable one refused, anything else returned |
| DeliveryHealth.Monitor.Reserve | src/DeliveryHealthMonitor.php:55-71 | The next number, greater than every one given out; a stored state that is not accepted is refused and stays, and with working writes nothing else is, short of the last number |
| DeliveryHealth.Monitor.SendPendingAlert | src/DeliveryHealthMonitor.php:168-193 | What is sent is the alert of the latest transition, and it is forgotten only after it was handed over; with a sendmail that takes everything it is sent, and with working writes forgotten |
| DeliveryHealth.Monitor.ChangedTells | src/DeliveryHealthMonitor.php:127-159 | The state after a transition tells of the observations, its alert included |
| DeliveryHealth.Monitor.ChangedAccepted | src/DeliveryHealthMonitor.php:246-284 | The state after a transition is accepted when read again exactly when it is a failure or the clock has not gone back |
| DeliveryHealth.Monitor.ToldIsAccepted | src/DeliveryHealthMonitor.php:246-284 | Once the alert is forgotten the state is accepted whatever the clock says |
| DeliveryHealth.ClockSetBack | src/DeliveryHealthMonitor.php:55-193 | A run from the start whose clock goes back before a recovery, and whose alert is not taken, ends in a state that is not accepted |
| DeliveryHealth.Monitor.Record | src/DeliveryHealthMonitor.php:104-165 | A late lower sequence changes nothing; with working writes a reserved later one is applied, and nothing else ever is; what is stored is accepted again exactly when the status stays, a failure is recorded, the clock has not gone back or the alert was taken |
| DeliveryHealth.Monitor.RecordFailure | src/DeliveryHealthMonitor.php:83-89 | Any classification and hash end up acceptable, and the failure is applied like any observation |
| DeliveryHealth.Monitor.Run | src/DeliveryHealthMonitor.php:55-193 | Over every interleaving with a clock that does not go back, every stored state is accepted and tells of what was applied; with working writes as many numbers are given out as are asked for; a state that is not accepted is never changed again |
| ForwardingSources.Discover | manager/xserver_api.py:127-144 | The loop ends, and the result is the base and exactly the accounts with a forwarding path to it, cycles or not |
| ForwardingSources.ClosedHasPath | manager/xserver_api.py:136-143 | A set nothing outside forwards into has the start of every path that ends in it |

## Left out

- File identities (device, inode, owner, mode, link count), symbolic links, directory chains and locks: the file that is read is the file that was written, and one process at a time holds the lock.  The device and inode fields of the journal records (of the slots, the lock, the target and the prior target) are left out of the modelled encoding and of its checks.
- Changes that others make to the journals, the installed application and configuration, the filters and the runtime files while nobody is looking: the checks of the source that notice them are in the model, but never decide.
- SSH, FTPS, keychain, HTTP and subprocess code, the menus and prompts, the alert texts, bundle building and code signing.
- InstallTransaction.Installer.Install: without the exception paths `rollback` and `abort`, whose results recovery partly refuses, and only for runs that install a configuration; a missing configuration directory counts as an empty one; the uninstaller is not part of this model.
- InstallTransaction.Installer.Cleanup: three steps only (receipt, transaction, receipt), since `InstallCleanup` models the removal itself.
- InstallTransaction.Installer.Recover: the old and the new digests are taken to differ, as the source quarantines when they are equal; `InstallTransaction.RunAll` leaves out such installations.
- InstallCleanup.Scan: without entries that are neither files nor directories, and without the checks of owners and link counts, which make the source refuse.
- InstallCleanup.Cleanup.Run: the directory is changed once, between the receipt and the removals.
- InstallCleanup.Cleanup.CreateReceipt: a receipt is whole or torn; one that lacks only its newline, which can still be read, counts as whole.
- ScopedMigration.Migration.DeleteFilter: only old filters, the only ones `sync_targets` deletes; retiring an added filter again is not part of this model.
- ScopedMigration.Migration.CallAdd: the server's answer names the filter it created.
- ScopedMigration.Migration.Resume: the rules to add and to retire are taken as those of the plan; looking candidates up by digest, the version 1 journal and replacing a committed journal are not part of this model.
- ScopedMigration.Migration.ApplyConfig: the configuration is one text, compared and swapped by this client alone.
- ScopedMigration.Migration.SnapshotFilters: a readback that lacks identifiers or repeats them, which the source refuses, cannot be expressed by a map of filters.
- BootstrapMigration.Migration.Migrate: the locator argument is the current locator; the recorded rules are those of the arguments, so that the baseline check always passes; the fault hooks are the places where power may fail.
- FixedMigration.Migration.VerifyLive: the two channels over which a tree is verified are one inspection; directories and the temporary files of interrupted uploads, which make an inspection refuse, are not part of this model.
- FixedMigration.Migration.FindPrefix: the manifests are required to describe the original tree and the new files; `_migrate_fixed_runtime`, which chains two such migrations, is not part of this model.
- DeliveryOutbox.Outbox.Begin: addresses are taken as canonical, sizes and digests are parameters, and the reading back of a stored row covers its fields but not its JSON text; the ties among equally old delivered rows are broken in any way; the store fails only by its limits: a failing disk, which has the same effect on a delivery, is not part of this model.
- DeliveryOutbox.Service.Deliver: the reservation of the deduplicator, health and logging around the outbox calls are not part of this model; a send's answer is arbitrary.
- QuoteTrimmer.Html: which element is quoted is a parameter, so the class attribute's pattern is not part of this model; `plainText` is not either.
- QuoteTrimmer.HtmlOfTree: idempotence is not claimed, and does not hold on malformed text.
- SystemMail.BuiltIsAuthentic: canonical address lists and the reading of dates are parameters with the hypotheses it names; the older version 1 check is a parameter that is never taken for a built mail.
- SystemMail.DecodeBody: the lenient decoding step and the comparison with the canonical text are one strict decoding.
- OperationalLog.Logger.CompactedTail: whether a line is well-formed UTF-8 that decodes to an object is a parameter; the building of events is not part of this model.
- NotificationFormatter.Title: the body of a notification (`format`) is not part of this model.
- DeliveryHealth.Monitor.Read: timestamps are numbers of seconds; duplicate keys, the size limit and the version 1 record are not part of this model; the wording and sending of alerts is one call that may fail.
- ForwardingSources.Discover: the result is a set, not sorted, and the API's own validation of addresses is not part of this model.
- The reading of the log by the management tool, MIME parsing and the webhook client.
