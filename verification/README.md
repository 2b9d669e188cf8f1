# Verification of the trading-data server's hard core

A Dafny model of the parts of the server whose correctness spans many calls:
the capped contract tables and labels, the bounded time-to-live cache, the
crash-safe file protocols, the exact parsers, token rotation with its reload
throttle, the daily and weekly schedulers, and the write-ahead log across
boots. `dafny verify dfyconfig.toml` checks all of it (Dafny 4.11).

Where the program works step by step the model does too: loops are methods
with invariants, objects are classes, and each method is proved equal to a
specification function about which the program's promises are then proved.
Interleavings, crashes and restarts are runs over labelled steps.

| file | models |
|---|---|
| `Decimal`, `Integers`, `Utf8`, `Bytes`, `Wrappers` | decimal numerals, `trim`, integer ranges, UTF-8 (section 3 of RFC 3629), small types |
| `LotSize` | the exact reading of a lot size, and the production parser beside it |
| `ContractLabel` | the contract label, its byte cap, and reading it back from the right |
| `CappedFold`, `ContractMap`, `ContractArtifact` | the capped owner table, the subscribed-first order, refusals, the two-pass label table |
| `StackedFrame` | the packet walk, the frame composer and the stacked disconnect |
| `ResponseCache` | the bounded cache against a plain history of puts |
| `FileSystem`, `DailyMarker`, `FeedStatePersist` | a small file system with crashes; the daily marker; concurrent writers of one file |
| `ReloadThrottle`, `TokenRotation` | the lock-free reload floor; the token swap and its two warnings |
| `DailyArchive`, `CalendarStaleness` | the two schedulers over whole runs |
| `BootWal`, `BootWalRuns`, `BootWalHistory`, `BootWalFiles` | one replay pass rename by rename; boots, confirms, folds and settling over whole runs; what the runs did to a segment, told by their events; the same runs on files, with renames that overwrite |

## What the proofs found

Some promises hold only under a condition. The code is modelled as it is; each
of these has its exact condition and a concrete counterexample.

- A contract label tells its contract from every other one if and only if its
  uncut text is at most 64 bytes (`LabelIsUniqueExactly`); a label that is cut
  is also that of the other leg (`CutLabelIsShared`). Even then the sign of a
  strike between -0.99 and -0.01 rupees is lost (`VisibleStrike`).
- The lot-size law of the fuzz target fails on some cells within its 256 KiB.
  The standard library's floating-point parser stops taking exponent digits at
  65536, so an exponent of 655,360 or more loses its last digits; behind enough
  leading zeros the rest can read as a lot size. The law holds exactly when that
  does not happen (`CheckCell`), always below 65,000 characters
  (`ShortCellsAreReadRight`); `LongExponentIsMisread` gives a cell of 70,010.
- `publish_from_legs_selected_first` counts a refused subscribed leg if and
  only if the leg is in a derivative segment or shares its id with one that is
  (`SelectedRefusalsAreCounted`, `CashLegGoesUncounted`).
- A marker write that answers `Durable` survives every later crash if and only
  if its folder was absent before the write or already durable in its parent
  (`WriteMarkerAndSweep`). A write whose parent sync failed leaves a folder for
  which the next write answers `Durable` all the same (`DurableCanOverclaim`).
- The sweep of task `x` takes a file of another task if and only if that task is
  `x-`, perhaps with whitespace behind it, and the date parser reads the rest,
  with its leading dash, as an old date (`SweepTakesOthersExactly`); it does for
  a parser that reads negative years (`DashedTasksAreSwept`).
- The source says that after a replay pass `replaying/` holds only what this
  boot read. A segment is left there unread exactly when it was given up on at
  the retry cap, or was staged before and its rename failed
  (`StagedUnreadExactly`); `GivenUpIsArchivedUnread` archives one.
- The source says that a skipped segment is archived only when the kept segment
  behind it was reached. It is archived without that exactly when the read
  stopped right behind it (`ArchivedBeforeItsFollower`, `StopBehindASkip`).
- The scheduler limits are about a clock that does not come back. For any clock,
  the weekly band pages exactly when the latest page was in another week
  (`WeeklyPageExactly`), so a second page of a week needs one of another week in
  between (`SecondPageNeedsAnotherWeek`, `ClockStepBackPagesAgain`); and a day of
  archive passes has six for each stretch of it that no other day interrupts
  (`InterruptionsRenewTheBudget`), which is reached (`ClockStepBackBreaksBound`).

## Model

| member | source | states |
|---|---|---|
| Decimal.TrimIsUnique | fuzz/fuzz_targets/instrument_master_csv.rs:28 | a text is blanks, a core with no blank at either end, and blanks, in one way only, and `trim` gives that core |
| Decimal.ReadIntegerExactly | fuzz/fuzz_targets/instrument_master_csv.rs:33-35 | a signed numeral is exactly a sign that may be missing and at least one digit, with that value |
| LotSize.ReadAfterWrite | fuzz/fuzz_targets/instrument_master_csv.rs:27-46 | splitting a text at its exponent mark and point gives back the numeral it was written from |
| LotSize.WriteAfterRead | fuzz/fuzz_targets/instrument_master_csv.rs:27-46 | every text that is read was written in one of the well-formed ways |
| LotSize.ExactLotUnique | fuzz/fuzz_targets/instrument_master_csv.rs:27-72 | the exact reading determines the lot: a text has one exact lot |
| LotSize.RefExactLot | fuzz/fuzz_targets/instrument_master_csv.rs:27-72 | the digit-shifting reader returns n > 0 if and only if the text, blanks around it aside, is a well-formed numeral whose rational value is n with n in 1..=u32::MAX, else 0; the early exits, the saturating point and the padding lose nothing |
| LotSize.SpellingsOfALot | crates/core/src/instrument/master_csv.rs:435-463 | the plain numeral, the numeral with a point and zeros, and a signed one scaled up and down again, each between any blanks, all have that lot |
| LotSize.ShiftPoint | fuzz/fuzz_targets/instrument_master_csv.rs:47-72 | the shifted digit string is read exactly, or clipped to 0 when it is not a whole number in range |
| LotSize.PadAndParse | fuzz/fuzz_targets/instrument_master_csv.rs:60-72 | dropping the zeros behind the point, or padding up to it, keeps the number, and the final parse clips it to the lot range |
| LotSize.WholeTextIsWhole | crates/core/src/instrument/master_csv.rs:472-499 | the text check accepts exactly the numerals that are whole, apart from exponents beyond i64 |
| LotSize.ParseLotSize | crates/core/src/instrument/master_csv.rs:435-463 | the production parser, floating point confirmed by the text, returns the exact lot of every text whose exponent is below 655,360 in size; and for cells of up to 256 KiB exactly when it does not misread a larger one |
| LotSize.EveryTextHasAFloat | crates/core/src/instrument/master_csv.rs:440-442 | every text has a conversion of the kind the parser is proved for |
| LotSize.CheckCell | fuzz/fuzz_targets/instrument_master_csv.rs:74-92 | the fuzz law on every cell of the target's size: production parser and exact reference agree if and only if no exponent is misread |
| LotSize.ShortCellsAreReadRight | fuzz/fuzz_targets/instrument_master_csv.rs:74-92 | no cell of up to 65,000 characters is misread, so the law holds there for every cell |
| LotSize.LongExponentIsMisread | crates/core/src/instrument/master_csv.rs:435-463 | `0.`, 69,999 zeros and `5e7000000` is answered 5 by the production parser and is no lot size |
| Utf8.EncodeExamples | crates/app/src/contract_underlying_map.rs:1839-1853 | an ASCII letter and the example characters of section 7 of RFC 3629 have the bytes given there |
| Utf8.EncodeInjective | crates/app/src/contract_underlying_map.rs:1839-1853 | two texts with the same bytes are the same text |
| Utf8.BoundaryIsPrefix | crates/app/src/contract_underlying_map.rs:1839-1853 | a byte position is a character boundary if and only if a whole number of characters ends there |
| ContractLabel.CapLabel | crates/app/src/contract_underlying_map.rs:1839-1853 | the byte walk cuts at most 64 bytes, always between characters, and equals the cut taken on characters |
| ContractLabel.CapIsTight | crates/app/src/contract_underlying_map.rs:1839-1853 | at most 64 bytes, idempotent, and a cut label keeps 57 to 60 bytes of whole characters plus the marker |
| ContractLabel.Render | crates/app/src/contract_underlying_map.rs:1886-1919 | the printed label is the UTF-8 of the capped label text |
| ContractLabel.ExpiryTextExactly | crates/app/src/contract_underlying_map.rs:1886-1902 | a plausible date from 1970 on prints as two-digit day, month name and year, any other number as its digits |
| ContractLabel.StrikeTextExactly | crates/app/src/contract_underlying_map.rs:1889-1907 | a strike prints its rupees, and its paise in two digits behind a point when there are any |
| ContractLabel.ReadAfterRender | crates/app/src/contract_underlying_map.rs:1886-1919 | reading from the right undoes rendering: underlying (dashes included), expiry, strike and leg come back |
| ContractLabel.RawLabelsEqual | crates/app/src/contract_underlying_map.rs:1886-1919 | uncut labels are equal if and only if the contracts are, up to the sign of a strike within a rupee below zero |
| ContractLabel.LabelsEqual | crates/app/src/contract_underlying_map.rs:1839-1919 | printed labels, one of them uncut, are equal if and only if the contracts are |
| ContractLabel.LabelIsUniqueExactly | crates/app/src/contract_underlying_map.rs:1839-1919 | for every contract: no other contract has its printed label if and only if the uncut text is at most 64 bytes |
| ContractLabel.CutLabelIsShared | crates/app/src/contract_underlying_map.rs:1839-1919 | every label that is cut is also the label of the same option with another leg |
| ContractLabel.LongUnderlyingHidesContract | crates/app/src/contract_underlying_map.rs:1839-1919 | with an underlying of 64 bytes or more every contract of it prints the same |
| CappedFold.CappedStep | crates/app/src/contract_underlying_map.rs:262-296 | one loop step (refuse a new key at the cap, else insert) is one step of the specification "last value of the first cap distinct keys" |
| CappedFold.FirstPartFits | crates/app/src/contract_underlying_map.rs:566-581 | all keys of the front part are in the capped table if and only if they alone fit |
| CappedFold.FoldIsLocal | crates/app/src/contract_underlying_map.rs:240-309 | a key's value in the uncapped table is its own last entry, whatever the others are |
| ContractMap.BuildSnapshot | crates/app/src/contract_underlying_map.rs:240-309 | the table is the capped fold of the usable legs, the refusals are exactly the other legs in order with their reasons, and the count is the table's size |
| ContractMap.SnapshotOwner | crates/app/src/contract_underlying_map.rs:240-309 | field by field: each key has the underlying id, lot size and family of the last leg with its contract id and segment whose ids and lot are positive |
| ContractMap.UncappedKeys | crates/app/src/contract_underlying_map.rs:240-309 | the uncapped table has exactly the keys of the usable legs |
| ContractMap.SnapshotSize | crates/app/src/contract_underlying_map.rs:281-296 | the table holds every usable key up to 25,000, then exactly 25,000 of them |
| ContractMap.RefusedExactly | crates/app/src/contract_underlying_map.rs:254-296 | a refusal carries its leg's contract id and the first thing wrong: contract id, underlying id, lot size, and the cap only when nothing is |
| ContractMap.EveryLegIsAccountedFor | crates/app/src/contract_underlying_map.rs:240-309 | refusals plus written legs equal the input length |
| ContractMap.CapacityRefusals | crates/app/src/contract_underlying_map.rs:281-296 | a capacity refusal is given if and only if a usable leg's key is not in the table |
| ContractMap.OrderIsPermutation | crates/app/src/contract_underlying_map.rs:566-581 | the reorder is a permutation with exactly the legs in front whose id and segment are subscribed |
| ContractMap.OrderIsStable | crates/app/src/contract_underlying_map.rs:566-581 | neither the subscribed legs nor the others change their order among themselves |
| ContractMap.OrderKeepsOwners | crates/app/src/contract_underlying_map.rs:566-581 | the reorder changes no owner of the uncapped table |
| ContractMap.SubscribedContractsAreMapped | crates/app/src/contract_underlying_map.rs:566-581 | every subscribed contract keeps its uncapped owner in the capped table if and only if the subscribed contracts alone fit the cap |
| ContractMap.FoundOwnerIsLastLeg | crates/app/src/contract_underlying_map.rs:757-759 | after a publish the lookup gives the underlying id, lot size and family of the contract's last usable leg |
| ContractMap.DemandIsCounted | crates/app/src/contract_underlying_map.rs:566-581 | the demand is the number of distinct subscribed contracts with a usable leg |
| ContractMap.SubscribedOwnersAreFound | crates/app/src/contract_underlying_map.rs:757-759 | after a selected-first publish the lookup of every subscribed contract with a usable leg gives the fields of its last one, when those contracts fit |
| ContractMap.SelectedRefusalsAreCounted | crates/app/src/contract_underlying_map.rs:532-539 | every refused leg of the selected prefix is counted if and only if each is attributable (derivative segment or shared id) |
| ContractMap.CashLegGoesUncounted | crates/app/src/contract_underlying_map.rs:532-539 | a refused subscribed cash leg is not counted |
| ContractMap.ContractUnderlyingMap.PublishFromLegsSelectedFirst | crates/app/src/contract_underlying_map.rs:665-742 | the published table is the snapshot of all legs, and the count is the number of refusals that name a subscribed contract |
| ContractArtifact.LegsFromArtifact | crates/app/src/contract_underlying_map.rs:354-435 | the scan yields exactly the legs and the refused rows of the artifact, in order |
| ContractArtifact.RowsAreIndependent | crates/app/src/contract_underlying_map.rs:354-435 | rows are taken one by one in file order, for legs and refusals alike |
| ContractArtifact.OneRow | crates/app/src/contract_underlying_map.rs:354-435 | an option row on NSE with an id and a lot, whose symbol has an id of its class's segment, makes the leg with those ids, that lot and its class's family; other option rows make a refusal, other rows nothing |
| ContractArtifact.OneRowRefused | crates/app/src/contract_underlying_map.rs:354-435 | the reason is the first thing wrong, in the order of the scan |
| ContractArtifact.ArtifactLegsAreUsable | crates/app/src/contract_underlying_map.rs:354-435 | every leg has the id and lot of an option row on NSE, the underlying id of the symbol it names, and the family of its class |
| ContractArtifact.ArtifactIsRefusedOnlyAtCapacity | crates/app/src/contract_underlying_map.rs:240-435 | the table refuses an artifact leg only at the cap |
| ContractArtifact.OptionRowsAreAccountedFor | crates/app/src/contract_underlying_map.rs:354-435 | each option row becomes one leg or one refusal, other rows neither |
| ContractArtifact.LabelPass | crates/app/src/contract_underlying_map.rs:1962-1990 | one pass extends the capped label table by its rows in file order |
| ContractArtifact.LabelsSelectedFirst | crates/app/src/contract_underlying_map.rs:1951-1992 | the label table is the capped fold of the two passes and stays within the cap |
| ContractArtifact.LabelsKeepLastRow | crates/app/src/contract_underlying_map.rs:1951-1992 | a label is made of the fields of the last option row on NSE with its id, whatever was selected |
| ContractArtifact.SubscribedContractsAreLabelled | crates/app/src/contract_underlying_map.rs:1951-1992 | every subscribed option contract of the file is labelled if and only if there are at most as many as the cap |
| ContractArtifact.SelectionDoesNotMatterWhenAllFit | crates/app/src/contract_underlying_map.rs:1951-1992 | with room for all keys the label table does not depend on the selection |
| ContractArtifact.MappedContractsAreLabelled | crates/app/src/contract_underlying_map.rs:1951-1992 | with room for all keys every contract the owner table can hold has a label |
| StackedFrame.MainFeedSizes | crates/core/src/parser/dispatcher.rs:343-368 | the packet length of each response code, and none for any other |
| StackedFrame.TableAgreesWithDispatcher | crates/core/src/parser/dispatcher.rs:157-368 | the length table and the dispatcher, two definitions with a size guard per packet parser, agree on every byte string, and a frame decodes exactly when the table calls its packet whole |
| StackedFrame.TableMustKnowIndexTickers | crates/core/src/parser/dispatcher.rs:343-368 | without code 1 in the table the two disagree on every index ticker |
| StackedFrame.Inspect | fuzz/fuzz_targets/main_feed_stacked_frame_oracle.rs:23-72 | for every table and dispatcher that agree, no assertion of the oracle's walk can fail, and it goes on exactly at a whole known packet |
| StackedFrame.Walk | fuzz/fuzz_targets/main_feed_stacked_frame_oracle.rs:23-72 | the loop computes the recursive walk and terminates, for every length table with lengths of at least 1 and every dispatcher that agrees with it |
| StackedFrame.WalkDistributes | fuzz/fuzz_targets/main_feed_stacked_frame_oracle.rs:23-72 | for a complete front, counts add up and the front's first disconnect wins |
| StackedFrame.WalkOfPackets | fuzz/fuzz_targets/main_feed_stacked_frame_oracle.rs:23-72 | walking concatenated packets finds all of them and the first disconnect |
| StackedFrame.FirstReasonExactly | crates/core/src/parser/dispatcher.rs:391-435 | the first disconnect's reason is the 16-bit number at offset 8 of the first packet of code 50, low byte first |
| StackedFrame.CompleteMeansPackets | fuzz/fuzz_targets/main_feed_stacked_frame_oracle.rs:23-72 | a walk is complete if and only if the frame is a concatenation of known packets |
| StackedFrame.PacketsAreUnique | fuzz/fuzz_targets/main_feed_stacked_frame_oracle.rs:23-72 | a frame splits into packets in one way only |
| StackedFrame.PrefixWalk | fuzz/fuzz_targets/main_feed_stacked_frame.rs:85-98 | every prefix walks to exactly the packets ending at or before the cut, complete if and only if the cut is 0 or an end offset |
| StackedFrame.Compose | fuzz/fuzz_targets/main_feed_stacked_frame.rs:54-76 | the composer's frame is the concatenation of at most 64 known packets, and the offsets are their ends |
| StackedFrame.ComposePacket | fuzz/fuzz_targets/main_feed_stacked_frame.rs:62-70 | a packet is its code, then the input bytes behind it, then zeros |
| StackedFrame.ComposedKeepsInput | fuzz/fuzz_targets/main_feed_stacked_frame.rs:54-76 | the composed frame is the input, with codes at the packet starts and zeros behind its end, and it covers the input unless the packets are used up |
| StackedFrame.ComposeThenWalk | fuzz/fuzz_targets/main_feed_stacked_frame.rs:78-98 | the walk undoes the composer on the whole frame and on every prefix |
| StackedFrame.StackedDisconnectReason | crates/core/src/parser/dispatcher.rs:391-435 | the bounded scan returns the first disconnect reason of a complete walk within its packet limit, else none |
| StackedFrame.StackedReasonExactly | crates/core/src/parser/dispatcher.rs:391-435 | there is a reason exactly when the frame is a row of at most that many known packets, and it is that of the first disconnect among them |
| StackedFrame.StackedDisconnectIsFound | fuzz/fuzz_targets/main_feed_stacked_frame.rs:100-119 | appending a disconnect to complete data yields the data's first reason, else the appended one |
| StackedFrame.ClassifyMainFeed | crates/core/src/websocket/connection.rs:1148-1211 | the fixed-offset shortcut for ten-byte frames classifies as the general scan does, and reads bytes 8 and 9 low byte first |
| StackedFrame.TenBytes | crates/core/src/websocket/connection.rs:1148-1211 | a ten-byte frame is one disconnect packet or holds none |
| ResponseCache.BoundedTtlCache.Get | crates/api/src/response_cache.rs:161-173 | answers the stored body if fresh and takes an expired one out, after any pending shed; no other key changes |
| ResponseCache.BoundedTtlCache.Put | crates/api/src/response_cache.rs:195-206 | sweeps at the cap, stores unless the cache is full of fresh entries of other keys |
| ResponseCache.PutDropsOnlyExpired | crates/api/src/response_cache.rs:195-206 | a put takes out only expired entries, only when the cache is full and its key is new, and leaves every other entry |
| ResponseCache.BoundedTtlCache.ShedIfSignalled | crates/api/src/response_cache.rs:211-218 | empties the cache exactly when the observed generation differs from the one seen last |
| ResponseCache.RunAgrees | crates/api/src/response_cache.rs:139-218 | in every run the cache stays within its cap and agrees with the plain history of puts |
| ResponseCache.RoomIsTold | crates/api/src/response_cache.rs:195-206 | the cache has room for a put exactly when, by the history alone, its key's latest put is fresh or fewer keys than the cap have a fresh one |
| ResponseCache.GetAnswersLikeHistory | crates/api/src/response_cache.rs:161-173 | under a monotone clock every get answers what the history answers: latest put of that exact key, younger than the time to live, not emptied since |
| ResponseCache.GetAfterPut | crates/api/src/response_cache.rs:195-206 | a put with room is what the next get returns; a skipped put never exposes an older body |
| ResponseCache.EachSignalEmptiesOnce | crates/api/src/response_cache.rs:211-218 | the map is cleared in exactly the calls that observe another generation, once for each change, and every other call finds it as the run left it |
| FileSystem.StepIsSafe | crates/app/src/daily_task_marker.rs:159-245 | every step of the protocol keeps: each final name, in each directory state a crash may restore, has a synced complete file |
| FileSystem.CrashIsSafe | crates/app/src/daily_task_marker.rs:159-206 | a crash at any moment keeps it |
| FileSystem.RunIsSafe | crates/app/src/daily_task_marker.rs:159-245 | so does any sequence of steps and crashes |
| FileSystem.DurableThroughRun | crates/app/src/daily_task_marker.rs:129-139 | a durable final name survives every run that does not remove it |
| FileSystem.DurableExactly | crates/app/src/daily_task_marker.rs:129-139 | a name is durable if and only if every crash leaves it |
| FileSystem.UnanchoredFolderCanVanish | crates/app/src/daily_task_marker.rs:129-139 | a folder not yet durable in its parent can lose everything in a crash |
| DailyMarker.SweepSparesOtherTasks | crates/app/src/daily_task_marker.rs:213-245 | a sweep never takes another task's marker or temp file, unless that task is this one with a dash and whitespace behind it |
| DailyMarker.SweepTakesOthersExactly | crates/app/src/daily_task_marker.rs:213-245 | exactly when it does take one: such a task, and a parser that reads what is left as an old date |
| DailyMarker.DashedTasksAreSwept | crates/app/src/daily_task_marker.rs:213-245 | the sweep of `x` takes the marker of `x-` with any whitespace behind it, for a parser that reads the negative year |
| DailyMarker.SweepTakesOldDates | crates/app/src/daily_task_marker.rs:213-245 | of its own task it takes exactly the dates before the cutoff |
| DailyMarker.NamesDay | crates/app/src/daily_task_marker.rs:107-123 | the reader says yes exactly when some whole line of the capped text is the day's line |
| DailyMarker.ReaderAcceptsContents | crates/app/src/daily_task_marker.rs:107-206 | the reader accepts what the writer writes |
| DailyMarker.ReaderIsExact | crates/app/src/daily_task_marker.rs:107-206 | on every reachable disk the reader says yes if and only if the marker is there, and then it is a complete synced file of that day |
| DailyMarker.MarkerOutlivesRun | crates/app/src/daily_task_marker.rs:129-245 | a durable marker is read after any run of steps and crashes that does not remove it |
| DailyMarker.WriteMarker | crates/app/src/daily_task_marker.rs:159-206 | one write with every call that can fail: when it succeeds, when it answers `Durable`, that `Durable` is true if and only if the folder was absent or anchored, and that no temp file is left unless its removal failed |
| DailyMarker.Folder.SweepOldMarkers | crates/app/src/daily_task_marker.rs:213-245 | removes every listed, removable and sweepable name, and leaves every other name, its file and its durability |
| DailyMarker.WriteMarkerAndSweep | crates/app/src/daily_task_marker.rs:159-245 | after the whole write the day's marker stands with its durability as stated; after a success every listed, removable marker of the task more than the kept number of days old is gone; and every other marker keeps its file |
| DailyMarker.RemovedOnlyWhenCutoffPassed | crates/app/src/daily_task_marker.rs:213-245 | a marker is removed only by a write of its own task whose cutoff has passed its date, or of a task it is dash-padded for |
| DailyMarker.AnyCrashLeavesTheTruth | crates/app/src/daily_task_marker.rs:159-245 | after a crash at any step of the writes of a folder the reader says yes exactly for complete, synced markers of that day |
| DailyMarker.MarkerLastsUntilSwept | crates/app/src/daily_task_marker.rs:159-245 | a durable marker is read after any sequence of writes and crashes until a write of its own task whose cutoff passes its date |
| DailyMarker.DurableCanOverclaim | crates/app/src/daily_task_marker.rs:129-139 | `Durable` answered for a folder whose parent sync failed earlier, and a crash that takes it |
| FeedStatePersist.TmpNamesDiffer | crates/api/src/feed_state_persist.rs:116-130 | temp names of different processes or clock readings differ, and none is the final name |
| FeedStatePersist.StartsWell | crates/api/src/feed_state_persist.rs:167-204 | an empty machine and one with a synced snapshot satisfy the invariant |
| FeedStatePersist.StepTouchesOwnNames | crates/api/src/feed_state_persist.rs:167-204 | no writer's step touches another's temp file |
| FeedStatePersist.NextKeepsInv | crates/api/src/feed_state_persist.rs:167-204 | every step, arrival and crash keeps the invariant of all writers together |
| FeedStatePersist.FinalPathIsNeverTorn | crates/api/src/feed_state_persist.rs:167-228 | under every interleaving with failures and crashes the final path is absent or one writer's whole synced snapshot; without a crash, the last one renamed |
| FeedStatePersist.RenamedComesFromWriters | crates/api/src/feed_state_persist.rs:167-204 | only snapshots of writers that arrived and succeeded are ever renamed |
| FeedStatePersist.SuccessIsVisible | crates/api/src/feed_state_persist.rs:167-228 | a write that returned success is what the reader loads |
| FeedStatePersist.LoneWriterSucceeds | crates/api/src/feed_state_persist.rs:167-204 | a writer whose remaining calls succeed with nothing in between returns success, its snapshot is loaded, and its temp file is gone |
| FeedStatePersist.FailedWriterCleansUp | crates/api/src/feed_state_persist.rs:167-204 | a writer whose call fails removes its temp file, returns an error and leaves the final path as it was |
| ReloadThrottle.AcceptedKeepsFloor | crates/api/src/middleware.rs:222-226 | a successful compare-and-swap keeps the floor however old its load and clock reading are |
| ReloadThrottle.NextKeepsInv | crates/api/src/middleware.rs:351-383 | every step of every thread keeps the invariant |
| ReloadThrottle.TriggersKeepTheFloor | crates/api/src/middleware.rs:351-383 | for every interleaving and any clock, accepted stamps are 60 s apart, never repeat, and no accepted trigger is lost |
| ReloadThrottle.WindowHoldsFewTriggers | crates/api/src/middleware.rs:222-226 | a window of W seconds holds at most W/60 + 1 accepted stamps |
| ReloadThrottle.DecideExactly | crates/api/src/middleware.rs:222-226 | a check stores its clock reading and goes on to notify if and only if the clock is not zero and the loaded stamp is still the current one and is zero or at least 60 s old |
| ReloadThrottle.LoneRequest | crates/api/src/middleware.rs:351-377 | a request that runs alone triggers exactly then, and otherwise changes nothing |
| ReloadThrottle.FirstRequestTriggers | crates/api/src/middleware.rs:351-377 | the first request after boot with a clock above zero stores its stamp and sets the permit, which a reload consumes |
| TokenRotation.ConstantTimeTokenEq | crates/api/src/middleware.rs:233-240 | the OR/XOR fold accepts a candidate if and only if it equals the token byte for byte |
| TokenRotation.GateExactly | crates/api/src/middleware.rs:158-166 | the gate accepts exactly 32 to 512 bytes from `!` to `~`, two of them different |
| TokenRotation.ApiAuthConfig.RotateBearerToken | crates/api/src/middleware.rs:328-341 | swaps exactly a different token of that shape in and reports which of the three cases it was |
| TokenRotation.ReloadLoop.Wake | crates/app/src/api_token_rotation.rs:104-217 | one wake of the loop: token, failure count, both latches and both warnings |
| TokenRotation.LiveTokenIsLastGood | crates/app/src/api_token_rotation.rs:104-217 | over any reads the live token is the last good one |
| TokenRotation.TokenIsBootOrGood | crates/api/src/middleware.rs:158-166 | the live token is the boot token or a fetched one that passed the shape gate |
| TokenRotation.FailureWarnedOncePerStreak | crates/app/src/api_token_rotation.rs:55-57 | the failure warning fires exactly at the third failed read in a row |
| TokenRotation.RejectionWarnedOncePerEpisode | crates/app/src/api_token_rotation.rs:104-217 | the rejection warning fires exactly at the first rejected read of an episode, which failed reads do not end |
| DailyArchive.VerdictMeaning | crates/app/src/daily_archive_boot.rs:185-266 | which passes latch the day and which give their attempt back, both directions |
| DailyArchive.VerdictReasons | crates/app/src/daily_archive_boot.rs:185-266 | the reason of an incomplete pass is the first thing amiss in the order of the tests |
| DailyArchive.ArchiveLoop.OnTick | crates/app/src/daily_archive_boot.rs:514-663 | one tick of the loop: what it does and the new ledger and latch |
| DailyArchive.TickKeepsAccounts | crates/app/src/daily_archive_boot.rs:290-371 | each tick keeps the account of attempts, refunds and the exhaustion log |
| DailyArchive.DayIsAccountedFor | crates/app/src/daily_archive_boot.rs:290-663 | over any run whose days stay together: attempts equal passes minus refunds (plus one once exhaustion is logged), at most six unrefunded passes, exhaustion logged once and only when spent, latched if and only if a pass was complete |
| DailyArchive.EveryDayIsBounded | crates/app/src/daily_archive_boot.rs:290-663 | the day's limits hold for every day of the run |
| DailyArchive.NoPassAfterComplete | crates/app/src/daily_archive_boot.rs:514-663 | after a complete pass no other runs that day, even if the marker write failed |
| DailyArchive.PassRunsExactly | crates/app/src/daily_archive_boot.rs:354-371 | a tick runs a pass exactly when the day has no marker, the window is open, no pass of the day was complete and fewer than six were not refunded; with six it logs that once |
| DailyArchive.EveryStretchIsAccountedFor | crates/app/src/daily_archive_boot.rs:290-346 | for any clock the ledger is exact about the stretch of a day since another day was written into it |
| DailyArchive.InterruptionsRenewTheBudget | crates/app/src/daily_archive_boot.rs:290-663 | for any clock a day has at most six unrefunded passes for each uninterrupted stretch of it |
| DailyArchive.ClockStepBackBreaksBound | crates/app/src/daily_archive_boot.rs:290-346 | a clock that comes back to a day gives it twelve unrefunded passes |
| CalendarStaleness.SameKeySameWeek | crates/app/src/calendar_staleness.rs:121-124 | the ISO year and week name a week: two days share the key if and only if they share the week (section 4.1.4 of ISO 8601:2004) |
| CalendarStaleness.ThursdayDecides | crates/app/src/calendar_staleness.rs:121-124 | a week belongs to the year of its Thursday and is numbered by the Thursdays before it (section 2.2.10 of ISO 8601:2004) |
| CalendarStaleness.ReadUndoesWrite | crates/app/src/calendar_staleness.rs:151-200 | reading undoes writing for every i32 year and week 1 to 53 |
| CalendarStaleness.ReadExactly | crates/app/src/calendar_staleness.rs:151-170 | the reader accepts exactly the prefix, an i32 year, `-W`, a week from 1 to 53 and newlines, within 64 bytes |
| CalendarStaleness.Watchdog.OnCheck | crates/app/src/calendar_staleness.rs:248-327 | one turn of the loop: page, warning, latches and week file |
| CalendarStaleness.CheckActsExactly | crates/app/src/calendar_staleness.rs:134-146 | by the days left: never with 60 or more, once a day with 14 or fewer or no calendar, in between when the week last paged is another; a page with the notifier up, else one warning a day |
| CalendarStaleness.LastPageIsRemembered | crates/app/src/calendar_staleness.rs:230-327 | with reads and writes successful, memory and file hold the week of the last page through restarts and power cuts |
| CalendarStaleness.WeeklyPageExactly | crates/app/src/calendar_staleness.rs:134-146 | for any clock, once a page was made a check with 15 to 59 days left pages exactly when the notifier is up, this process has not paged on the day, and the latest page was in another week |
| CalendarStaleness.SecondPageNeedsAnotherWeek | crates/app/src/calendar_staleness.rs:134-146 | for any clock, two pages of a week have a page of another week between them |
| CalendarStaleness.OncePerWeek | crates/app/src/calendar_staleness.rs:134-146 | the weekly band pages at most once in an ISO week over any number of boots |
| CalendarStaleness.MemoryIsHonest | crates/app/src/calendar_staleness.rs:151-200 | whatever fails, no week is ever named that was not paged |
| CalendarStaleness.NoWeekIsSkipped | crates/app/src/calendar_staleness.rs:230-327 | a check with fewer than 60 days left or no calendar, and the notifier up, leaves its week paged; with 14 or fewer, or no calendar, its very day |
| CalendarStaleness.OncePerDayPerProcess | crates/app/src/calendar_staleness.rs:134-146 | two pages on one day have a boot between them |
| CalendarStaleness.SecondPageNeedsAnotherDay | crates/app/src/calendar_staleness.rs:134-146 | for any clock, two pages of one process on one day have a page of another day between them |
| CalendarStaleness.ClockStepBackPagesAgain | crates/app/src/calendar_staleness.rs:134-146 | a clock that steps back across a Monday pages the earlier week twice |
| BootWal.Wal.SplitApplied | crates/storage/src/ws_frame_spill.rs:4589-4621 | kept segments and skipped ones, each listed one among either, each skip with the index of the kept one after it; the last is always kept |
| BootWal.KeptExactly | crates/storage/src/ws_frame_spill.rs:4589-4621 | a listed segment is set aside if and only if it is applied and a later one is listed, else it is kept |
| BootWal.LastIsKept | crates/storage/src/ws_frame_spill.rs:4589-4621 | the newest segment of a listing is kept, as the last one |
| BootWal.Wal.ReadSegments | crates/storage/src/ws_frame_spill.rs:4647-4752 | the read stops at the first budget or memory stop after one segment, counts failures per segment and gives up at the third |
| BootWal.ReadsAreInOrder | crates/storage/src/ws_frame_spill.rs:4559-4752 | a pass reads in capture order, each segment once, exactly the segments it reached and could read |
| BootWal.PassTreatsEach | crates/storage/src/ws_frame_spill.rs:4647-4752 | a read clears a segment's failure count, a failed read adds one, the third gives up, an unreached segment keeps its count |
| BootWal.SkippedEndsWhere | crates/storage/src/ws_frame_spill.rs:4760-4795 | a segment set aside ends in the archive if the read got past every kept segment before it, else live; a failed rename leaves it |
| BootWal.ArchivedBeforeItsFollower | crates/storage/src/ws_frame_spill.rs:4577-4581 | it is archived without the kept segment behind it being reached exactly when the read stopped right behind it |
| BootWal.StopBehindASkip | crates/storage/src/ws_frame_spill.rs:4577-4581 | three segments for which that happens |
| BootWal.KeptEndsWhere | crates/storage/src/ws_frame_spill.rs:4843-4972 | a kept segment ends staged if reached and not kept for a retry, else live; a failed rename leaves it; it is never archived |
| BootWal.Wal.ReplayPass | crates/storage/src/ws_frame_spill.rs:4515-4991 | the whole pass is its plan of renames applied in order, on files, no byte of any segment changes, and it archives only applied segments that are not the newest |
| BootWal.Wal.ConfirmReplayed | crates/storage/src/ws_frame_spill.rs:5372-5412 | exactly the listed staged segments whose rename succeeds are archived |
| BootWal.Wal.SettleBootReplayStaging | crates/app/src/boot_wal_confirm.rs:103-160 | archives staged segments if and only if the replay call returned a batch with neither refusal flag and no refold is coming; otherwise touches nothing; and says which of the four cases it was |
| BootWalRuns.StagedWasRead | crates/storage/src/ws_frame_spill.rs:4813-4978 | after a finished pass every staged segment was read by it, but for the three named exceptions |
| BootWalRuns.StagedUnreadExactly | crates/storage/src/ws_frame_spill.rs:4813-4978 | the exact condition under which a pass leaves a listed segment staged and unread |
| BootWalRuns.CleanPassDrains | crates/storage/src/ws_frame_spill.rs:4515-4991 | a pass with no stop and no failure reads and stages every segment or archives it as applied |
| BootWalRuns.NextKeepsInv | crates/app/src/boot_wal_confirm.rs:57-160 | boots, passes, crashes, confirms, folds, settling and promotion keep the invariant |
| BootWalRuns.ArchivedWasRead | crates/app/src/boot_wal_confirm.rs:103-160 | over any boots and crashes every archived segment was read, applied, or given up on |
| BootWalRuns.ArchivedWasFoldedFirst | crates/app/src/boot_wal_confirm.rs:103-160 | every archived segment was, since the last finished pass that read it, folded with its rows landed, or read with no refold pending, or it is one of the named exceptions since then |
| BootWalHistory.HistoryIsTheRuns | crates/app/src/boot_wal_confirm.rs:57-160 | what a world records of a segment is exactly what the passes and folds of its run did, since the last finished pass that read it |
| BootWalHistory.ArchivedWasReadInTheRun | crates/app/src/boot_wal_confirm.rs:103-160 | told by the run alone: some pass read an archived segment, or skipped it as applied with a later one listed, or gave up on it |
| BootWalHistory.ArchivedWasReleasedInTheRun | crates/app/src/boot_wal_confirm.rs:103-160 | and since the last finished pass that read it, its rows landed, or that pass had no refold pending, or one of the three exceptions came up |
| BootWalHistory.AnyPrefixMayBeAll | crates/storage/src/ws_frame_spill.rs:4515-4991 | a crash may cut a pass after any of its renames, and the process memory is gone |
| BootWalHistory.CleanBootArchives | crates/app/src/boot_wal_confirm.rs:103-160 | a boot with no fault and no refold pending archives every segment there is, whatever came before |
| BootWalHistory.CleanRefoldArchives | crates/app/src/boot_wal_confirm.rs:57-160 | with a refold pending the confirm archives nothing, and once all rows have landed settling and promoting archives every segment |
| BootWalFiles.NoSegmentIsLost | crates/app/src/boot_wal_confirm.rs:103-160 | after any run, on files and with renames that overwrite what they hit, each captured segment is in exactly one folder with its bytes, and nothing else is there |
| BootWalRuns.ArchivedIsFinal | crates/storage/src/ws_frame_spill.rs:5372-5412 | an archived segment is never moved again |
| BootWalRuns.GivenUpIsArchivedUnread | crates/storage/src/ws_frame_spill/replay_retry.rs:24-64 | three rounds of one process, each of which fails to read the segment, reads another and confirms, archive a segment nobody read |

## Left out

- `SingleSlotTtlCache`: one slot of the cache modelled here.
- `tally_refusals`, `subscribed_refusals`, `overlay_feeds`: a count, a filter and a field copy.
- The depth-feed walk and the other arms of `classify_frame`: the main feed is the stacked one.
- LotSize.ParseLotSize: binary64 rounding is not modelled; `FloatReads` states all that is assumed of the standard library's parser, which is not part of the repository (integers up to 2^53 exact, section 3.3 of IEEE 754-2019; exponent digits taken until 65536 is reached). Beyond 256 KiB only exponents below 655,360 in size are covered.
- ContractArtifact.LegsFromArtifact: Unicode upper-casing of symbols is a parameter.
- DailyMarker.WriteMarkerAndSweep: chrono's date parser is a parameter, limited to three numbers with dashes between them, whitespace in front of any and a sign in front of the first; the earliest date it can hold is a parameter too; the build text is at most 4000 characters, as the reader's cap needs; file modes are not modelled.
- FileSystem.CrashIsSafe: directory changes reach the disk in order (a journaled directory); a crash restores some earlier directory state and any unsynced content.
- FeedStatePersist.FinalPathIsNeverTorn: JSON is a whole snapshot or a torn file; two writes of one process within one clock tick are assumed not to overlap.
- ReloadThrottle.TriggersKeepTheFloor: the permit is a set of outstanding triggers consumed by a reload; a dropped waiter of the runtime's notify primitive is not modelled.
- TokenRotation.ConstantTimeTokenEq: equality is proved, timing is not.
- DailyArchive.DayIsAccountedFor: claims are per loop instance; a respawn starts a new ledger. The daily limits need the ticks of a day to stay together.
- CalendarStaleness.OncePerWeek: days are in order and all reads and writes of the week file succeed; the steps inside one write of that file are three outcomes (synced, renamed only, not renamed).
- CalendarStaleness.ReadUndoesWrite: a file is a string of bytes, so a byte outside ASCII is just a character no valid line has; the time limit of the start-up read is a read that fails.
- BootWalRuns.ArchivedWasRead: whether a segment is applied, stops the read or cannot be read is an input of the pass; the probes and lags that delay promotion only choose which settled segments are promoted. The writer's open segment is captured when it is closed. Attempt counts do not saturate at u32.
- Pruning of `archive/`, rescue tiers, metrics, log lines, alerts, HTTP routing, S3, SSM, QuestDB and the network.
