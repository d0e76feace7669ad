# heyl, proved in Dafny

heyl is a command-line client for heylogin. This project models the parts of it whose correctness is not
visible in any single function, and proves what they promise:

- **The vault as a log of deltas.** A vault's state is every commit folded in order, the newer `updateTime`
  winning element by element, with times compared as strings. The META vault is edited by folding the log,
  changing one entry, and committing the whole folded state back onto the same log.
  `OrderedMap`, `Json`, `Merge`, `Delivery`, `Time`, `StampedFold`, `Meta`, `MetaLog`, `Serialize`, `MetaVault`,
  `VaultRuns`.
- **Local session slots.** Every command is a sequence of single keychain writes that a crash can cut
  anywhere and whose reads the keychain may refuse; strict slots drop their unlock after each read; waiting for an unlock is a polling loop with
  saturating arithmetic. `Slots`, `SlotRuns`, `StrictSlot`, `Polling`.
- **Recording and replaying.** The matcher that answers calls from a recording, the loop that thins out
  polls, the two together with the polling loop, the error taxonomy over two trips, and the structural diff.
  `Corpus`, `Collapse`, `PollReplay`, `Errors`, `Diff`.
- **Reading a login.** Ranking over the vaults that open, the key chain from an authenticator to a vault's
  two secrets, and what it takes for a vault to open. `Get`, `Keys`, `Reading`.
- **Unlock windows as typed and printed.** `Settings`. `Wrappers`, `Text` and `Bytes` are shared helpers.

Code that works in place is modelled as classes and loops (`Merge.Accumulator`, `Meta.Editor`,
`MetaVault.Backend`, `Slots.Keychain`, `StrictSlot.Backend`, `Corpus.RecordingApi`, `Corpus.RecordedApi`, and
the loops of `Polling`, `Collapse`, `Diff`, `Get`, `Keys`); each method is proved equal to a specification
function, and the theorems are about that function. Code that only computes is functions.

Check everything with `dafny verify --resource-limit 2000000 dfyconfig.toml`.

## Where the code and what is said about it differ

The model follows the code. Each difference has its theorem, with the exact condition where there is one.

- `Display` (crates/heyl-domain/src/time.rs:93-98) says it always matches `Date.toISOString()`. Line 98
  divides a signed subsecond, so before the epoch the milliseconds come out with a minus sign unless they
  are zero, and before year 0 the year has a sign inside its four places. Over everything a timestamp can
  hold, exactly the other instants round-trip (`Time.DisplayRoundTrip`). Against those, exactly they and the
  instants before year 0 sort the way they follow each other (`Time.FaithfulIsOrder`);
  `Time.PreEpochOrderFails` and `Time.YearsBeforeZeroReverse` are instants that sort the wrong way round.
- `run_in` reads a slot's token but stores a refreshed one in the default slot
  (crates/heyl-app/src/unlock.rs:105-113). `SlotRuns.RefreshToDefault` says exactly when that keeps the slot
  invariant, `SlotRuns.RefreshBreaksInvariant` is a two-command run where it does not, and
  `SlotRuns.RemoveForced` says exactly when a removal then leaves every other slot alone.
- `exists` and `slots` (crates/heyl-app/src/session/mod.rs:101-110, 179-186) take a read the keychain refuses
  for an item that is not there. `SlotRuns.RunConsistent` says exactly which runs survive that,
  `SlotRuns.RefusedReadBreaksInvariant` is one that does not, and `SlotRuns.IndexAdded` and
  `SlotRuns.IndexRemoved` say when the index loses the other slots' names.
- `MetaVault::commit` (crates/heyl-app/src/meta_vault.rs:112-114) says there is never anything to merge. The
  fold still compares times, so an edit stamped before the entry it replaces is accepted and has no effect:
  `MetaLog.CommitTakesEffect`, and `MetaLog.LateTombstone` for a clock that runs behind.
- `encode` (crates/heyl-vault/src/serialize.rs:87-90) calls a commit blob the full state. Every reader merges
  it into the fold of the ones before it, as crates/heyl-vault/src/merge.rs does: `MetaVault.FoldedAppend`.
- A list given something that is no object restarts (merge.rs:94-97). So folds of two halves of a log do
  not always merge to the fold of the whole: `Delivery.FoldsMerge` says exactly when, and
  `Delivery.NullThenObject` is a half that does not.
- `collapse` (tools/heyl-fixtures/src/record.rs:375-379) is safe for a caller that stops when an answer tells
  it to. A wait is such a caller (`PollReplay.CollapsedReplays`); a command that goes on with one more `Sync`
  after the grant is not, as soon as one poll said no (`PollReplay.CollapsedEnsure`).
- `wire_error` (crates/heyl-grpc/src/server.rs:237-240) is called the inverse of `to_api_error`. The client's
  parser trims what is sent and refuses it when it is no header value, and `sanitise` leaves every control
  character but the line breaks in; it can also turn an innocent message into the marker of a truncated
  response. `Errors.RefusalSurvives` gives the exact condition on the text sent,
  `Errors.ControlCharacterRefused` and `Errors.MarkerFromColon` one input each.

## Assumptions

Library code is a function-valued parameter, with what it promises stated as a predicate: JSON text and
Snappy (`Serialize.Ideal`), the storable key (`MetaVault.Authentic`), base64 and protobuf details
(`Errors.Ideal`, which promises nothing of how a message decodes), UTF-8, SHA-512, X25519 and the box (`Keys.Ideal`), UUID and metadata parsing
(`Meta.Reader`), lower-casing (`lower`). What the backend, the phone, the keychain and the clock answer are
parameters too; a keychain may refuse any write, and any command's reads of a slot's items or of the index. The backend's guard is a model: it takes a commit exactly when the commit names the newest
one. Strings compare by code point, which is the order of their UTF-8 bytes.

## Model

| member | source | states |
|---|---|---|
| OrderedMap.Put | crates/heyl-vault/src/lib.rs:17-20 | an insert under an existing key keeps its place, a new key goes last, and no other key's value changes |
| OrderedMap.MergeGet | crates/heyl-vault/src/merge.rs:77-107 | a keyed merge loses no key of either side and combines exactly the keys both have |
| OrderedMap.MergeKeys | crates/heyl-vault/src/merge.rs:77-107 | the accumulator's keys keep their places, and the new ones follow in the later commit's order |
| OrderedMap.FoldKeysInOrder | crates/heyl-vault/src/merge.rs:55-86 | of two keys of a fold, the earlier one stands in some commit with the later one nowhere before it in the history |
| Merge.MergeElement | crates/heyl-vault/src/merge.rs:99-106 | one element goes in unless the one there is strictly newer; a tie goes to the later commit |
| Merge.MergeList | crates/heyl-vault/src/merge.rs:93-107 | the loop over one list is the keyed merge by `updateTime`, or a replacement when either side is no object |
| Merge.Accumulator.MergeName | crates/heyl-vault/src/merge.rs:79-84 | an absent name is taken whole, a present one merged in place |
| Merge.Accumulator.MergeContent | crates/heyl-vault/src/merge.rs:77-86 | the loop over one commit leaves exactly the merged content in the accumulator |
| Merge.FoldCommits | crates/heyl-vault/src/merge.rs:55-71 | the fold refines its declarative state, is an error exactly on no commits, and takes framing, type and version from the newest |
| Merge.RestartMeaning | crates/heyl-vault/src/merge.rs:94-97 | a list depends on nothing up to and including the last commit whose value for it is no object |
| Merge.FoldElement | crates/heyl-vault/src/merge.rs:36-119 | an id folds to an element exactly when that element has the greatest (`updateTime`, commit index) since the list's restart |
| Merge.FoldByUpdateTime | crates/heyl-vault/src/merge.rs:99-119 | the element an id folds to carries, in its field `updateTime` and no other, a text not below that of any element given since the restart, and comes no earlier where the two are the same; one without such a text loses to any that has one |
| Merge.FoldUnstamped | crates/heyl-vault/src/merge.rs:109-119 | where no element has such a text, the last commit that carries the id decides |
| Text.LessMeaning | crates/heyl-vault/src/merge.rs:99-103 | the string order: the first place where two texts differ decides, and a text comes after its own beginnings |
| Merge.FindWinner | crates/heyl-vault/src/merge.rs:99-106 | an id is missing from the fold only if no commit since the restart carries it |
| Merge.FoldList | crates/heyl-vault/src/merge.rs:93-107 | a list that folds to an object is the fold of the objects given since its restart, key order included |
| Merge.FoldShape | crates/heyl-vault/src/merge.rs:55-107 | no name and no id is lost, names and ids stand in order of first appearance, and a name last given no object holds just that |
| Delivery.DeliveryDoesNotMatter | crates/heyl-vault/src/merge.rs:55-107 | commits made of objects can be permuted and duplicated without changing the content as maps if and only if no two of them tie for newest on an id with different elements |
| Delivery.TieIsVisible | crates/heyl-vault/src/merge.rs:99-106 | delivering one of two such tied commits again changes the outcome |
| Delivery.FoldPrefix | crates/heyl-vault/src/merge.rs:55-107 | replacing any prefix of the log by its own fold is invisible, restarts included |
| Delivery.FoldsMerge | crates/heyl-vault/src/merge.rs:77-107 | merging the folds of two halves is the fold of the whole, whatever the first half was, if and only if no list in the second half is an object after having been something else |
| Delivery.RestartIsVisible | crates/heyl-vault/src/merge.rs:94-97 | for every other second half there is a first half for which it fails |
| Delivery.NullThenObject | crates/heyl-vault/src/merge.rs:94-97 | null and then an object under one name is such a second half |
| Time.CivilOf | crates/heyl-domain/src/time.rs:97 | every instant of years 0 to 9999 has one valid UTC date and time that denotes it |
| Time.CalendarConstants | crates/heyl-domain/src/time.rs:80-110 | the epoch and the end of year 9999 stand where the calendar puts them |
| Time.CalendarRepeats | crates/heyl-domain/src/time.rs:97 | the calendar repeats after ten thousand years, which is how dates before year 0 are found |
| Time.DaysBeforeYearClosed | crates/heyl-domain/src/time.rs:97 | the leap-year recursion is the closed proleptic Gregorian count |
| Time.MonthStarts | crates/heyl-domain/src/time.rs:97 | the day of the year every month starts on, in both kinds of year |
| Time.DayNumberClosed | crates/heyl-domain/src/time.rs:97 | the day of a date is the closed March-based count, which names no month length |
| Time.InstantClosed | crates/heyl-domain/src/time.rs:97 | an instant is its day and its hours, minutes, seconds and milliseconds on it |
| Time.PartsInOrder | crates/heyl-domain/src/time.rs:99-109 | reading date and time fields left to right orders instants |
| Time.TruncateRoundsDown | crates/heyl-domain/src/time.rs:80-90 | truncation is the floor to milliseconds on both sides of the epoch |
| Time.DisplayColumns | crates/heyl-domain/src/time.rs:95-110 | where it is faithful, the text is the seven zero-padded fields with their marks, always 24 characters |
| Time.DisplayText | crates/heyl-domain/src/time.rs:95-110 | over every instant a timestamp can hold, the text written out with its literal marks, the year and the subsecond with the signs they have |
| Time.YearSigned | crates/heyl-domain/src/time.rs:99-109 | a year before 0 prints as its number after a minus sign, the sign taking one of the four places |
| Time.UnfaithfulSubsecond | crates/heyl-domain/src/time.rs:98 | an unfaithful instant from year 0 on prints how far it lies before the next whole second, after a minus sign |
| Time.DisplayRoundTrip | crates/heyl-domain/src/time.rs:67-110 | over every instant a timestamp can hold, parsing the text gives it back floored if and only if it is not before the epoch, or falls on a whole second not before year 0 |
| Time.ParseMeaning | crates/heyl-domain/src/time.rs:67-72 | a text reads as an instant if and only if it is the zero-padded date and time of a valid date that denotes it |
| Time.DisplayOrder | crates/heyl-domain/src/time.rs:80-110 | string order and equality of faithful texts are order and equality of the floored instants |
| Time.FaithfulIsOrder | crates/heyl-domain/src/time.rs:95-110 | over every instant a timestamp can hold, it compares as text with every faithful one the way the instants do if and only if it is faithful itself or before year 0 |
| Time.MinusSortsFirst | crates/heyl-domain/src/time.rs:98 | any other instant sorts before its own whole second |
| Time.YearsBeforeZeroReverse | crates/heyl-domain/src/time.rs:99-109 | of two of the 999 years before year 0 the later sorts first |
| Time.PreEpochOrderFails | crates/heyl-domain/src/time.rs:98 | one and two milliseconds before the epoch print in the wrong order |
| StampedFold.WinnerByInstant | crates/heyl-vault/src/merge.rs:109-119 | comparing `updateTime` as a string picks the very winner that comparing instants would |
| Meta.Editor.SessionsMut | crates/heyl-vault/src/meta.rs:148-156 | an absent `sessions` is added empty at the end, a present one is left alone |
| Meta.Editor.UpsertSession | crates/heyl-vault/src/meta.rs:61-71 | the document becomes its edited form; on a `sessions` that is no object it fails |
| Meta.Editor.TombstoneSession | crates/heyl-vault/src/meta.rs:81-95 | the same for a tombstone; with no entry to mark it fails and leaves at most an added empty `sessions` |
| Meta.Editor.SetDescription | crates/heyl-vault/src/meta.rs:101-119 | the same for a rename |
| Meta.EditTouchesOneEntry | crates/heyl-vault/src/meta.rs:61-156 | every other list and every other id comes back unchanged and in place |
| Meta.EditKeepsFields | crates/heyl-vault/src/meta.rs:81-163 | a tombstone or rename changes its own field and the two clocks of the entry, and no other field |
| Meta.EditAccepted | crates/heyl-vault/src/meta.rs:61-156 | an edit goes through if and only if `sessions` is absent or an object, and, but for an upsert, holds an object under the id |
| Meta.EditedEntry | crates/heyl-vault/src/meta.rs:61-163 | the entry an accepted edit leaves, field by field by name; a field it adds goes last, its own before `editTime` before `updateTime` |
| Meta.TakenMeaning | crates/heyl-vault/src/meta.rs:132-137 | a name is taken exactly when an entry that parses, is not deleted and belongs to a live session shows it |
| Meta.CandidatesDiffer | crates/heyl-vault/src/meta.rs:139-144 | no two numbered candidates are the same name |
| Meta.FirstCandidates | crates/heyl-vault/src/meta.rs:139-144 | the first three candidates as text |
| Meta.AllTaken | crates/heyl-vault/src/meta.rs:139-144 | the first n candidates can all be taken only if n names are |
| Meta.Disambiguate | crates/heyl-vault/src/meta.rs:132-146 | terminates with the least-numbered candidate that no live, undeleted entry shows, after at most one more try than names are taken; the 32-bit counter overflows exactly when 2^32 - 1 candidates are all taken |
| MetaLog.MergeListsIdempotent | crates/heyl-vault/src/merge.rs:93-107 | merging a list into itself changes nothing |
| MetaLog.CommitWholeState | crates/heyl-app/src/meta_vault.rs:83-130 | the edited fold merged back whole onto the log is exactly the edited state, key order included; with an older stamp it is exactly the old state |
| MetaLog.CommitTakesEffect | crates/heyl-app/src/meta_vault.rs:110-130 | an accepted commit is what the log folds to if and only if its stamp is not older than the entry it replaces |
| MetaLog.StaleMeaning | crates/heyl-vault/src/merge.rs:99-119 | a stamp is older exactly when the entry there has an `updateTime` text above the time of the edit |
| MetaLog.LateTombstone | crates/heyl-vault/src/meta.rs:81-95 | a tombstone stamped before the entry it marks is committed and leaves the log folding to what it folded to before |
| MetaLog.StampedEntry | crates/heyl-vault/src/meta.rs:160-163 | there is such a log for every id and every stamp |
| MetaLog.AcceptedIsCurrent | crates/heyl-app/src/meta_vault.rs:75-130 | in every reachable state, an accepted commit is an edit of the very log it lands on |
| MetaLog.OpenThenCommit | crates/heyl-app/src/meta_vault.rs:69-130 | whatever others do in between, a client's commit lands if and only if no commit has landed since it opened, and then lands its edit of what it read |
| MetaLog.NothingToCommit | crates/heyl-app/src/meta_vault.rs:69-106 | a client that could not open or edit commits nothing |
| MetaLog.LogIsRegisters | crates/heyl-app/src/meta_vault.rs:83-130 | over every run of many clients, whatever the others commit, the log folds under each id to that id's own register, which knows only that id's accepted edits, other clients' writes under it, and when they restart the list |
| MetaLog.LastEditSurvives | crates/heyl-app/src/meta_vault.rs:110-130 | the owner's last accepted edit is what the log folds to whatever other clients do, unless they write something not older under its id or restart the list |
| MetaLog.EntryStays | crates/heyl-vault/src/meta.rs:73-95 | an entry, a tombstone included, stays against any later copy with a strictly older time |
| MetaLog.OthersUntouched | crates/heyl-vault/src/meta.rs:26-29 | what no accepted edit addresses comes out of every run unchanged, whether or not it parses |
| Serialize.Encode | crates/heyl-vault/src/serialize.rs:94-131 | the insertions build the envelope in its order, and every refusal is the right one |
| Serialize.EncodeDecode | crates/heyl-vault/src/serialize.rs:79-190 | what is written decodes to the same document: framing, type, version, content and key order |
| Serialize.DecodeMeaning | crates/heyl-vault/src/serialize.rs:140-190 | for every blob, whoever wrote it: it reads as a document if and only if its first byte names the framing and its payload is an object with the three fields; any 64-bit version is read |
| Serialize.DecodeRefuses | crates/heyl-vault/src/serialize.rs:140-155 | which first bytes are refused as what |
| Serialize.OtherVersionsRead | crates/heyl-vault/src/serialize.rs:94-190 | a document of a version that is refused for writing is read all the same |
| MetaVault.Backend.CreateCommit | crates/heyl-app/src/meta_vault.rs:124-129 | a commit is appended under a new id exactly when it names the newest one |
| MetaVault.MetaVault.Commit | crates/heyl-app/src/meta_vault.rs:119-130 | succeeds exactly when the document encodes and the guard holds, appends the sealed document and nothing else, and otherwise leaves the log alone with the right failure |
| MetaVault.ReadAll | crates/heyl-app/src/meta_vault.rs:79-94 | the loop reads every commit in order, or fails as the first that cannot be read |
| MetaVault.DocumentsMeaning | crates/heyl-app/src/meta_vault.rs:79-94 | a log reads if and only if each commit of it does, to their documents in order, and fails as the first that does not |
| MetaVault.Open | crates/heyl-app/src/meta_vault.rs:69-106 | the vault opens to the fold of every decrypted, decoded commit, guarded by the last; the first unreadable commit decides the failure |
| MetaVault.FoldedAppend | crates/heyl-app/src/meta_vault.rs:79-99 | one more readable commit is one more merge, for every reader |
| MetaVault.EditThenReopen | crates/heyl-app/src/meta_vault.rs:38-130 | through sealing, framing and decoding: edit, commit, open again gives exactly the edited document, or exactly the old one when the stamp was older |
| VaultRuns.NextRepresents | crates/heyl-app/src/meta_vault.rs:69-130 | one event on sealed blobs and commit ids is one step on contents; the guard by commit id is the guard by place in the log |
| VaultRuns.RunRepresents | crates/heyl-app/src/meta_vault.rs:38-130 | every run of many clients on the sealed log, drafts that do not encode included, is a run on contents |
| VaultRuns.FreshVault | crates/heyl-app/src/meta_vault.rs:38-107 | every readable vault that nobody has open yet is a start such runs are proved from |
| VaultRuns.SealedLogIsRegisters | crates/heyl-app/src/meta_vault.rs:38-130 | over every such run the log can be opened, and under each id it opens to that id's own register |
| Slots.NewSlot | crates/heyl-app/src/session/mod.rs:57-72 | every spelling of the default slot is the default slot, any other name keeps its name |
| Slots.SlotsApart | crates/heyl-ports/src/secret_store.rs:97-101 | different slots never share a keychain entry or an index name |
| Slots.Keychain.IndexAdd | crates/heyl-app/src/session/mod.rs:101-121 | appends the name to the names it can read, none if the read is refused, in at most one write |
| Slots.Keychain.IndexRemove | crates/heyl-app/src/session/mod.rs:101-140 | the retain loop drops that name from the names it can read, none if the read is refused, and writes the rest back |
| Slots.WithoutInOrder | crates/heyl-app/src/session/mod.rs:124-128 | leaving a name out keeps the others in their order, wherever it stands and however often |
| Slots.Keychain.Forget | crates/heyl-app/src/session/mod.rs:192-197 | deletes the three items in order, stopping at the first refusal with exactly that prefix done |
| Slots.Keychain.Create | crates/heyl-app/src/session/lifecycle.rs:55-158 | wherever it stops, exactly a prefix of key, id, token, index is written; it succeeds exactly when no token was seen, every answer came and all of it is written |
| Slots.Keychain.Use | crates/heyl-app/src/unlock.rs:86-114 | the only write is the refreshed token, carrying the session it was read for |
| Slots.Keychain.Remove | crates/heyl-app/src/session/lifecycle.rs:374-430 | wherever it stops, exactly a prefix of its plan is done; without `--force`, unless the slot was read, the entry tombstoned and the session deleted, it leaves every item and the index as they were but for a refreshed token; when it succeeds nothing of the slot is left |
| SlotRuns.SafePlan | crates/heyl-app/src/session/lifecycle.rs:121-135 | every prefix of a plan of safe writes keeps the slot invariant |
| SlotRuns.EventConsistent | crates/heyl-app/src/session/lifecycle.rs:55-158 | one command, crashed anywhere, keeps the invariant if and only if it stores no refreshed token beside another session's key, and is no create that missed an existing token and stopped between its key and its token |
| SlotRuns.RunConsistent | crates/heyl-app/src/session/lifecycle.rs:119-135 | over every run of create, use and remove on all slots, crashed anywhere and with any read refused, a slot with a token has the key and the id of the same session and the index no duplicates, all along, if and only if every event is such in its turn |
| SlotRuns.OrdinaryRunsConsistent | crates/heyl-app/src/session/lifecycle.rs:119-135 | so every run keeps it whose creates can read and whose refreshes go to the slot they were read from |
| SlotRuns.RefusedReadBreaksInvariant | crates/heyl-app/src/session/mod.rs:179-186 | on every slot, a second create that is refused the read of the token and cut off after one write breaks the invariant, unless it pairs to the very same session |
| SlotRuns.IndexAdded | crates/heyl-app/src/session/mod.rs:101-121 | the slot is listed, and the other slots stay listed if and only if the index could be read or there were none |
| SlotRuns.IndexRemoved | crates/heyl-app/src/session/mod.rs:101-128 | the slot is not listed, and the others stay listed under the same condition |
| SlotRuns.CreateSteps | crates/heyl-app/src/session/lifecycle.rs:55-158 | a create cut after each of its writes: key, id and token in this order, then the index, and only if the slot was registered and its policy written; nothing over a token it can see |
| SlotRuns.GentleRemoval | crates/heyl-app/src/session/lifecycle.rs:374-430 | a removal without `--force` of a session that could not be read, tombstoned and deleted, cut anywhere, keeps the slot's token and every other item and the index; the one write it can do is the refreshed token |
| SlotRuns.WholeRemoval | crates/heyl-app/src/session/lifecycle.rs:374-430 | the whole state after a removal that goes all the way, forced or with the session gone |
| SlotRuns.ClearSteps | crates/heyl-app/src/session/mod.rs:124-197 | a clearing cut after each of its writes: token, key, id, and then the index |
| SlotRuns.ListedUntilGone | crates/heyl-app/src/session/lifecycle.rs:423-424 | cut anywhere, a removal changes the index only once none of the slot's items is left |
| SlotRuns.RefreshToDefault | crates/heyl-app/src/unlock.rs:105-113 | as written, a refresh keeps the invariant if and only if the slot is the default one or the default slot holds the key and id of the very same session |
| SlotRuns.RefreshBreaksInvariant | crates/heyl-app/src/unlock.rs:105-113 | creating one named slot and using it once breaks the invariant as written, and not if the token went home |
| SlotRuns.RemoveForced | crates/heyl-app/src/session/lifecycle.rs:374-430 | from any state at all, whatever is refused and wherever a refreshed token goes, a completed `remove --force` leaves none of the slot's items and drops its name from the index it can read; it leaves every other slot's items as they were if and only if it stores no refreshed token in another slot, or just the one already there |
| SlotRuns.RemoveForcedLeavesToken | crates/heyl-app/src/session/lifecycle.rs:374-430 | as written, removing a named slot whose token was due leaves that session's token in the default slot |
| SlotRuns.RemoveReenablesCreate | crates/heyl-app/src/session/lifecycle.rs:55-158 | after it, from any state and whatever is refused, `create` completes and leaves an adoptable, listed slot |
| StrictSlot.Backend.Ensure | crates/heyl-app/src/unlock.rs:59-71 | an unlocked session is not asked about; a locked one is unlocked only by an approval |
| StrictSlot.UnlockedMeaning | crates/heyl-app/src/session/lifecycle.rs:312-348 | over every run, policy changes included, an unlock is served exactly when one from the start, or some fresh approval, has since been ended by no lapse and by no successful `get` that was strict at its time |
| StrictSlot.DeadlineMeaning | crates/heyl-app/src/unlock.rs:59-71 | over every run, the deadline served is that of the last fresh approval |
| StrictSlot.StrictMeaning | crates/heyl-app/src/session/lifecycle.rs:326-348 | over every run, a session is strict as it was last set |
| StrictSlot.Backend.Read | crates/heyl-cli/src/main.rs:389-392 | a `get` succeeds exactly when it finds its login on a session that was unlocked or is then approved, and `finish` runs only after that |
| StrictSlot.FreshApprovalBetween | crates/heyl-app/src/session/lifecycle.rs:312-348 | in every run, between a successful `get` that was strict at its time and finished, and any later successful one, lies a fresh approval |
| Polling.PollForUnlock | crates/heyl-app/src/session/lifecycle.rs:279-310 | ends as the first decisive answer or the limit says, after at most limit + 1 polls even where the 64-bit arithmetic saturates, and hints once if it goes on past 45 seconds and never otherwise |
| Polling.LimitMeaning | crates/heyl-app/src/session/lifecycle.rs:279-310 | the poll that gives up is the first by which the saturating clock shows the limit, and which that is for every 64-bit limit |
| Polling.EndingMeaning | crates/heyl-app/src/session/lifecycle.rs:279-310 | a wait gives up if and only if every answer up to that poll was locked, is granted a deadline if and only if one came by then, and asks just until its last answer |
| Corpus.RecordingApi.Keep | crates/heyl-grpc/src/corpus.rs:369-399 | after any run of keeps every record carries its request, the requests are the calls that could be rendered in order, and the replies are theirs; one that could not is an error and keeps nothing |
| Corpus.ReplayUndoesRecording | crates/heyl-grpc/src/corpus.rs:369-461 | replaying a recording in its order gives every call the reply it was recorded with |
| Corpus.RecordedApi.Take | crates/heyl-grpc/src/corpus.rs:443-461 | there is an answer if and only if an unused record has the method; it is the first unused one with this very request, else the first unused of the method, and it alone is used up |
| Corpus.TakenMeaning | crates/heyl-grpc/src/corpus.rs:433-461 | the same of the choice, in terms of the records and what is used alone |
| Corpus.FallbackInOrder | crates/heyl-grpc/src/corpus.rs:433-439 | over every run on records that hold no request: the n-th call of a method gets the n-th record of it, and none when there are not so many |
| Corpus.RecordedApi.Unused | crates/heyl-grpc/src/corpus.rs:424-431 | lists the methods of the unused records in order |
| Corpus.UnusedInOrder | crates/heyl-grpc/src/corpus.rs:416-431 | the unused records of two recordings are those of the first and then those of the second |
| Corpus.ReplayAnswers | crates/heyl-grpc/src/corpus.rs:433-461 | for the recorded calls in any order, the n-th call with a request gets the n-th record of that request |
| Corpus.NoRecordTwice | crates/heyl-grpc/src/corpus.rs:443-461 | no record answers two calls, whatever is called |
| Corpus.NothingUnused | crates/heyl-grpc/src/corpus.rs:416-431 | after all of them `unused` is empty |
| Corpus.ReplayInOrder | crates/heyl-grpc/src/corpus.rs:443-461 | the recorded order is answered record by record |
| Collapse.RunLeavesEnds | tools/heyl-fixtures/src/record.rs:394-404 | a maximal run of a declared method leaves all of itself up to two calls, and its two ends otherwise |
| Collapse.Turn | tools/heyl-fixtures/src/record.rs:406-419 | one turn of the buffer loop keeps the flushed calls equal to the survivors of the calls before the open run |
| Collapse.CollapseCalls | tools/heyl-fixtures/src/record.rs:383-422 | the loop leaves exactly the calls that are undeclared or at the end of a run, in order, and returns how many it dropped |
| Collapse.CollapseMeaning | tools/heyl-fixtures/src/record.rs:383-422 | the survivors stand at increasing places, and a place is missing if and only if its method ends in a declared one and both neighbours are calls of that very method |
| Collapse.NeighboursDiffer | tools/heyl-fixtures/src/record.rs:383-422 | no declared call is left between two calls of its own method |
| Collapse.CollapseTwice | tools/heyl-fixtures/src/record.rs:383-422 | collapsing again changes nothing |
| PollReplay.RecordingReplays | crates/heyl-app/src/session/lifecycle.rs:248-310 | a recorded wait that ended in a grant, replayed through the matcher, ends in the same deadline within any limit it met |
| PollReplay.RecordingTimesOut | crates/heyl-app/src/session/lifecycle.rs:248-310 | and gives up under any limit the wait did not meet |
| PollReplay.AskedForNothing | crates/heyl-app/src/session/lifecycle.rs:248-270 | a recording without the request fails there, even if it grants afterwards |
| PollReplay.CollapseRecording | tools/heyl-fixtures/src/record.rs:383-422 | collapsing it leaves the first refusal and the grant |
| PollReplay.CollapsedReplays | tools/heyl-fixtures/src/record.rs:375-379 | the collapsed recording replays to the same deadline as the full one within the same limit, from at most four records |
| PollReplay.CollapsedEnsure | crates/heyl-app/src/unlock.rs:59-71 | for `ensure`, which syncs again after the grant, the full recording replays and the collapsed one does if and only if the first poll was already granted |
| Diff.SameObjects | crates/heyl-cli/tests/harness/mod.rs:343-352 | objects are the same exactly when every key of either is in both with the same value, whatever the order |
| Diff.SameSymmetric | crates/heyl-cli/tests/harness/mod.rs:338-373 | that equality is symmetric |
| Diff.Walk | crates/heyl-cli/tests/harness/mod.rs:338-373 | the recursive walk appends exactly the lines its specification lists, in order |
| Diff.WalkFindsDifferences | crates/heyl-cli/tests/harness/mod.rs:338-373 | it reports nothing if and only if the two values are the same up to key order |
| Diff.ObjectLines | crates/heyl-cli/tests/harness/mod.rs:338-373 | which lines two objects report: every key of one side alone as missing or unexpected, and what the values under a shared key report, each under the key's own path |
| Diff.ArrayLines | crates/heyl-cli/tests/harness/mod.rs:338-373 | lists of two lengths report just both lengths; others what their items report, each under its own number |
| Diff.FieldsInOrder | crates/heyl-cli/tests/harness/mod.rs:343-352 | the fields are gone through in the order of the wanted object |
| Diff.DocumentsDiffer | crates/heyl-cli/tests/harness/mod.rs:297-336 | the report is empty if and only if the two lists agree item by item; a wrong count is the only line; trimming keeps twelve lines and a remainder and empties nothing |
| Diff.DocumentLines | crates/heyl-cli/tests/harness/mod.rs:297-336 | a lone document's lines start at the root, those of one of several at its number in brackets |
| Diff.TrimmedMeaning | crates/heyl-cli/tests/harness/mod.rs:297-336 | twelve lines and the number of the others |
| Errors.ClassifiedTwice | crates/heyl-grpc/src/corpus.rs:278-297 | recording and replaying a refusal gives a status and code that classify as the same refusal |
| Errors.StatusMeaning | crates/heyl-grpc/src/status.rs:81-149 | how every status is read: what is cut short, which code or status decides before which, and which text becomes the message and which the detail |
| Errors.SentIs | crates/heyl-grpc/src/server.rs:205-268 | the status, code and text that replay sends for each error that was recorded |
| Errors.TruncatedMeaning | crates/heyl-grpc/src/status.rs:81-84 | a message is cut short exactly when it holds one of the two texts anywhere |
| Errors.TrailersSplit | crates/heyl-grpc/src/server.rs:205-268 | whatever a message holds, the trailer block splits into exactly the lines written |
| Errors.ReadLine | vendor/tonic-web/src/call.rs:438-466 | the client's parser reads a trailer up to its first colon, trims the rest, and refuses it exactly when that is no header value |
| Errors.TrailerMeaning | vendor/tonic-web/src/call.rs:438-466 | every line: without a colon, with a bad name, or with a bad value it is refused as that, in this order |
| Errors.TrailersMeaning | vendor/tonic-web/src/call.rs:407-466 | a repeated name keeps its last value, and the first unreadable line is what is reported |
| Errors.TailDropped | vendor/tonic-web/src/call.rs:407-466 | what follows the last line break is dropped |
| Errors.ReceivedIs | vendor/tonic-web/src/call.rs:407-466 | the client receives the status and domain code that were sent and the message trimmed and decoded; it reports INTERNAL exactly for a text that is no header value, and UNKNOWN for one that does not decode |
| Errors.NoStatusMeaning | crates/heyl-grpc/src/status.rs:81-149 | a block without a status is read as a failure of the transport |
| Errors.RefusalSurvives | crates/heyl-grpc/src/status.rs:92-149 | every error a live status can raise comes back from recording and replay with its variant, code and status if and only if the text sent for it is a header value, decodes, and reads as cut short just when it was; or it is an error that such a text turns into anyway |
| Errors.OtherRefusalsSurvive | crates/heyl-grpc/src/status.rs:92-149 | so every error that is neither transport nor of status UNKNOWN survives whose text is a header value and decodes |
| Errors.TransportSurvives | crates/heyl-grpc/src/status.rs:81-130 | a truncated response is still one after both trips, where its text is a header value and decoding leaves it alone |
| Errors.MarkerFromColon | crates/heyl-grpc/src/server.rs:264-268 | an UNKNOWN error whose message has a colon in the right place comes back as a transport failure |
| Errors.ControlCharacterRefused | crates/heyl-grpc/src/server.rs:264-268 | a NOT_FOUND error with a control character in its message comes back as INTERNAL |
| Get.BeforeIsOrder | crates/heyl-app/src/get.rs:462-472 | the ranking order is antisymmetric and leaves only candidates tied on all four keys undecided |
| Get.RankIsLeast | crates/heyl-app/src/get.rs:462-472 | the answer is a candidate that none precedes, and there is one exactly when there is a candidate |
| Get.RankIsFirst | crates/heyl-app/src/get.rs:462-472 | among tied candidates the first gathered wins |
| Get.RankMeaning | crates/heyl-app/src/get.rs:462-472 | against every candidate: the answer is live if that is, archived rather than deleted if that is, then of no later tier, then last changed no earlier by `changeTime`, else `editTime`, else never, then of no greater id |
| Get.TierOrder | crates/heyl-app/src/get.rs:474-484 | private, then an organisation's personal, then team, then inbox vaults |
| Get.SearchAnswers | crates/heyl-app/src/get.rs:196-236 | in a search over every vault, no match as live as the answer lies in a vault of an earlier kind than the answer's |
| Get.LiveBeatsDeleted | crates/heyl-vault/src/login.rs:66-125 | a deleted login is never the answer while a live one matches |
| Get.CandidatesAre | crates/heyl-app/src/get.rs:216-236 | the candidates are the matching logins of exactly the login vaults that open |
| Get.MatchCount | crates/heyl-app/src/get.rs:216-236 | the number of matches is that of the matching entries of the login vaults that open, each counted once |
| Get.GatheredInOrder | crates/heyl-app/src/get.rs:216-232 | candidates are gathered vault by vault in their order |
| Get.NameMatches | crates/heyl-vault/src/login.rs:143-150 | a name matches exactly a headline, title or website that is the same in lower case |
| Reading.SearchedExactly | crates/heyl-app/src/get.rs:216-450 | and those are exactly the ones whose locks unwrap at both tiers and whose every blob unseals and decodes |
| Reading.OpenedMeaning | crates/heyl-app/src/get.rs:378-450 | a vault opens if and only if its lock opens and every commit unseals and decodes under the lock's secret, and then to the fold of those |
| Reading.HonestVaultIsRead | crates/heyl-app/src/get.rs:378-450 | every honestly locked and sealed vault opens to the fold of the documents that were sealed |
| Get.MatchVaultName | crates/heyl-app/src/get.rs:303-341 | the two loops find the first free name in tier order, and only then the first team's |
| Get.NameFinds | crates/heyl-app/src/get.rs:297-341 | a name finds a login vault that answers to it whenever there is one, and a team only when no free name is in the way |
| Get.IdFinds | crates/heyl-app/src/get.rs:283-292 | a number finds the login vault that has it whenever there is one; without a selector every login vault is searched |
| Get.Run | crates/heyl-app/src/get.rs:196-236 | for every selector the least candidate and the number of all of them; a named vault that is missing or will not open, and no match, each fail as themselves |
| Get.VaultOrderIrrelevant | crates/heyl-app/src/get.rs:268-283 | for a search over every vault, reordering the account's vaults changes the answer only between candidates tied on all four keys, and the count not at all |
| Get.SelectorIgnoresOrder | crates/heyl-app/src/get.rs:283-341 | for a named or numbered vault, no reordering changes which one is meant if and only if one vault alone, of the first tier that has any, answers to it |
| Keys.DeriveSecretFromSeed | crates/heyl-crypto/src/kdf.rs:27-56 | fills the caller's buffer with the cut hash of the salted preimage, or refuses a short context or odd length and leaves the buffer alone |
| Keys.ContextsLongEnough | crates/heyl-crypto/src/context.rs:37-69 | no typed context is ever too short |
| Keys.PrefixesApart | crates/heyl-crypto/src/context.rs:37-66 | two contexts with the same composed string are the same kind and purpose |
| Keys.PreimagesApart | crates/heyl-crypto/src/kdf.rs:27-56 | two derivations that share a preimage agree in kind and purpose, and in seed and secondary unless those collide under the inner hash |
| Keys.KeysSpelled | crates/heyl-crypto/src/context.rs:111-140 | the three keys of the chain as hashes of their literal strings and seeds, in their order |
| Keys.SealInto | crates/heyl-crypto/src/asymmetric.rs:61-77 | what the appends build opens, for whoever holds the private half, to the plaintext; it starts with the nonce and the ephemeral key, and its rest is a box of the plaintext for exactly those |
| Keys.OpenSeal | crates/heyl-crypto/src/asymmetric.rs:61-167 | what is sealed to a key's public half opens with the key |
| Keys.OpenRefuses | crates/heyl-crypto/src/asymmetric.rs:79-167 | under 72 bytes a blob is too short, and from there on it opens or does not authenticate |
| Keys.OpenedByAnother | crates/heyl-crypto/src/asymmetric.rs:150-167 | a second key that opens a blob would need one ciphertext valid under two shared keys |
| Keys.HonestVaultOpens | crates/heyl-app/src/get.rs:378-420 | every honestly sealed vault opens through authenticator, profile and vault lock to exactly the two secrets it was built from |
| Keys.FirstProfile | crates/heyl-app/src/get.rs:378-420 | the profile is the first with the lock's number |
| Keys.NothingToOpenBy | crates/heyl-app/src/get.rs:378-420 | exactly when a vault fails for want of a profile, and of a lock of our own |
| Keys.UnlockedLength | crates/heyl-domain/src/keys.rs:130-187 | what a lock gives has 32 bytes, and exactly another authenticator's lock is refused as that |
| Keys.WrongLength | crates/heyl-domain/src/keys.rs:288-324 | a sealed secret of any other length is refused for its length |
| Keys.StaleVaultRefused | crates/heyl-domain/src/keys.rs:136-187 | through the whole chain, a vault is refused as stale exactly when our profile lock's generation differs from the profile's, whatever the ciphertexts, or both seeds open and the vault lock's differs |
| Keys.TiersApart | crates/heyl-crypto/src/context.rs:114-200 | the two tiers never derive a vault key from the same preimage |
| Keys.TiersDoNotCross | crates/heyl-domain/src/keys.rs:288-324 | either tier opening the other's ciphertext takes two preimages cut to one key, or one ciphertext valid under two keys |
| Settings.SpellingParses | crates/heyl-app/src/session/settings.rs:269-304 | every spelling of the grammar is read as its whole minutes, or refused exactly when it overflows 64 bits, 32 bits, or is under a minute |
| Settings.AcceptedIsSpelled | crates/heyl-app/src/session/settings.rs:269-304 | nothing outside the grammar is read |
| Settings.AcceptedMinutes | crates/heyl-app/src/session/settings.rs:269-304 | an accepted string denotes its minutes rounded down: 60m <= seconds < 60m + 60 |
| Settings.RenderParses | crates/heyl-app/src/session/settings.rs:306-312 | what is printed for 1 to 2^32 - 1 minutes is read back as just that |
| Settings.TypedWindows | crates/heyl-app/src/session/settings.rs:269-304 | six windows as typed, and what each is read as |
| Text.PaddedOrder | crates/heyl-domain/src/time.rs:99-109 | zero padding makes text order the order of the numbers |

## Left out

Stated weaker than the code, or on narrower ground:

- Time.Parse: reads only the form `Display` writes in years 0 to 9999; signed years of six digits, offsets, other precisions and a leap second `:60` of RFC 3339 are the library's.
- Meta.Disambiguate: answers nothing where the `u32` counter of `disambiguate` would overflow; a release build that wraps round is not modelled.
- VaultRuns.RunRepresents: other clients' commits can be read; one that cannot makes every later `open` fail, as `MetaVault.Open` says.
- SlotRuns.RunConsistent: a command's reads of a slot's items are answered or refused together, and its read of the index apart from them.
- Errors.RefusalSurvives: statuses 1 to 16, which are the codes a client status can carry besides success.
- Keys.TiersDoNotCross: a reduction, since no hash or box of fixed size can be injective on all inputs.
- Get.Run: ends at the chosen candidate; picking a field and decrypting it are not modelled.
- PollReplay.CollapsedReplays: the unlock request is one call that succeeds, and every `Sync` sends the same request.

Not modelled at all:

- Reading a team's name out of its `groupMeta` vault, parsing a login's JSON fields, and the session entry a client publishes about itself, which is any JSON value here.
- `recovery.rs`, which writes no session id and may overwrite a key beside an old token: it would need another invariant.
- Two heyl processes on one slot at once; nothing in the code coordinates them.
- The byte framing of a gRPC-Web body, the length limit of a header name, streamed replies, retries and the transport.
- JSON numbers other than integers.
- The wording of diff lines (they are structured here), and redaction before comparing.
- Rust's `sort_by` and `sort_by_key` are a stable insertion sort, which fixes the same result.
- Ed25519 signing, Argon2, memory locking and zeroing; and which session a token is for, beyond what the keychain holds.
- The terminal, QR codes, argument parsing and exit codes.
