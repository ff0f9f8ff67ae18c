# Foundry (zksync fork): a verified model of its state machines and codecs

This Dafny project models the parts of the `foundry-zksync` workspace whose correctness spans several
functions or a whole run, and proves what they promise. Code that mutates state is modelled by classes
and loops that are proved equal to specification functions; the properties are then proved about those
functions, for every input, run or reachable state.

| files | what they model |
|---|---|
| `StateDiffModel`, `StateDiffStack`, `StateDiffTrace`, `StateDiffEffect`, `StateDiffTree` | the state-diff recorder: a stack of record lists, pushed by call/create hooks, appended to by SLOAD/SSTORE steps, popped, marked and merged when frames end, and finally folded into per-slot diffs |
| `GasSnapshots`, `ArbitraryStorage`, `Deals` | three smaller cheatcode machines: gas snapshots, arbitrary storage and its copies, deals and their rollback |
| `Rlp`, `JsonText`, `RlpText` | the RLP codec (Appendix B of the Ethereum Yellow Paper), the JSON reader, and the text form of items |
| `NodeService`, `LogDelivery`, `FilterRegistry` | anvil's block production loop, push and pull delivery of logs, lifetimes of polled filters |
| `NumberBases` | 256-bit numbers with a base: detection, parsing, printing |
| `JsonUpsert` | setting a value at a dotted path of a JSON document |
| `Options` | the option type the others share |

`dafny verify dfyconfig.toml` checks everything.

## Main results

**State diffs.** A run is any sequence of hook events (frames entered and left, storage reads and writes,
account queries, self-destructs) that starts with recording switched on somewhere inside a transaction.
The specification side knows nothing of stacks: it only looks at the events and their call depths.
`StackRefinesCallTree` says that after every event the flattened stack lists the reported events in
execution order, with the values they saw, each flagged reverted exactly when a frame around it (not the
root) has ended in a revert. `ReportIsExact` lifts this to the folded diffs, for every run, slot and number
of events and without assumptions: it says from the events what is reported and what storage holds, and so
exactly when the report is right. `TreeReport` does the same for recursive call trees with rollback, with
conditions read off the tree, and `RecordAndReport` for the object itself. In the modelled runs the report
can be wrong in three ways, each with its exact condition and an input: the frame that started the recording
writes the slot (`TreeReport`, `UnenteredWriteIsMissed`, `UnenteredWriteIsPrevious`), a root call reverts
(`RootCallReport`, `OlderRootRevertReport`, `RootRevertIsMissed`), or another frame older than the recording
reverts (`OlderRevertReport`, `OlderRevertIsMissed`). `CoveredReportIsRight` says it is right when none of
these touches the slot.

**RLP.** `DecodeIffEncoding`: a buffer decodes to an item exactly if it starts with that item's encoding.
Canonicity, the round trip with arbitrary trailing bytes and prefix-freeness follow. `TextRoundTrip`:
printing a decoded item and encoding the text again returns the consumed bytes exactly if the item is
nested less than 128 deep. The JSON reader that `to_rlp` uses refuses deeper arrays, and the text is then
taken for a hex string; `DeepItemIsRefused` gives inputs. `DocToRlp` says what `to_rlp` makes of every JSON
document of the modelled fragment, however it is spaced, and `HexTextToRlp` of every bare hex text: its bytes,
unless the digits happen to be a JSON number, when they are read in decimal. The `0x` prefix makes a difference
for exactly those texts (`PrefixMattersIff`, with inputs in `PrefixMatters`).

**Anvil.** `RunConserved`, `RunAnswers` and `NoStalledBacklog` hold whatever the mining task and the miner
answer inside the two nested polling loops. `PushPullAgree` is about what the polls return to the client, over
every interleaving of notifications and polls.
`SubPollAnswer` characterises the answer of a subscription poll: it can be pending with notifications left
unread, exactly if the first block it does not pass over is missing from storage.

**Numbers.** `ShowParsesBack` is an equivalence: printing with prefix and parsing with detection returns
the word unless the number is a decimal flagged negative whose word is a positive two's-complement number.
Such numbers arise from parsing `-x` with x above 2^255 (`ToBaseKeepsWord`, with an input in
`NegatedMaxChanges`). `FalsePrefixIff`: dropping a prefix whatever the base misreads a number exactly under
base sixteen when its digits start with `0b`. `DetectIff` says for every text which base is detected, and
`ToBaseIff` when a conversion succeeds and to what text.

**Arbitrary storage.** Runs mix marks, copies, reads and storage writes. A write never reaches the cached
values, so copies of one source can disagree (`WrittenSourceSplitsCopies`); `CopiesAgree` says exactly when
a read of one copy sees the value of another.

**JSON.** `LookupAfter` describes a successful update at every path of the document; `Upsert` leaves the
document as it was on every error, although its loop inserts objects while it walks.

## Where the code and its words differ

The model follows the code.

- `json.rs:667` says a key cannot be "just '$'"; the code inserts under the key `$` (`DollarIsAKey`,
  `EmptyKeyIff`).
- `evm.rs:1220` speaks of the gas used since the snapshot was started; `last_gas_used` is never reset, so a
  later snapshot in the same frame also counts from the last metered opcode of the earlier one
  (`SnapshotReading` says what is read, `ReadingIsGasUsed` exactly when that is the gas used,
  `LeftoverCounterIsRead` gives a run in which it is not).
- `evm.rs:1237` removes every record that shares the group or the name; this removes exactly the stopped
  record only because there is never a second one (`RetainExactly`, `AlwaysInStep`).

## Modelling choices

- The EVM is a storage map with one checkpoint per open frame. Depths are those the hooks see: entering a
  frame happens at the caller's depth, its end hook runs after the journal has closed it.
- The environment (ready or pending answers, clock, random values, database balances, whether an account
  loads) consists of parameters. A failed mining task panics in the source and is not modelled.
- Words and addresses are natural numbers where only equality matters; widths are explicit where they do
  matter (32-bit log index, 64-bit gas counters and probe, 64-bit RLP lengths, 256-bit two's complement).
- Gas is metered at opcodes after which the frame goes on executing; the opcode that ends a frame is not an
  event, as the source skips it.
- `Header` encoding and decoding, `U256::from_str_radix`, `u64::from_str_radix`, `hex::decode` and the JSON
  reader are library code; they have small definitions here. The RLP header follows Appendix B of the
  Ethereum Yellow Paper with its canonical-form checks. The JSON reader covers literals, numbers (kept as text:
  the workspace builds serde_json with arbitrary precision), strings without escapes and arrays, with
  serde_json's recursion limit; text with objects or escapes is answered with `OutsideModel`.

## Model

| member | source | states |
|---|---|---|
| StateDiffHooks.Cheatcodes.StartStateDiffRecording | foundry-zksync/crates/cheatcodes/src/evm.rs:865-873 | recording (re)starts with an empty stack |
| StateDiffHooks.Cheatcodes.EnterFrame | foundry-zksync/crates/cheatcodes/src/inspector.rs:1272-1323 | the call and create hooks push a list with one record at the caller's depth, only while recording |
| StateDiffHooks.Cheatcodes.LeaveFrame | foundry-zksync/crates/cheatcodes/src/inspector.rs:1661-1704 | the end hooks pop the top list unless at depth 0, mark it on revert, and merge it into the list below or push it back |
| StateDiffHooks.Cheatcodes.MarkAllReverted | foundry-zksync/crates/cheatcodes/src/inspector.rs:1668-1678 | the two nested loops flag every record and every storage access and leave all their other fields alone |
| StateDiffHooks.Cheatcodes.RecordOpcode | foundry-zksync/crates/cheatcodes/src/inspector.rs:2194-2364 | what SLOAD, SSTORE, the EXT opcodes and SELFDESTRUCT add to the stack |
| StateDiffHooks.Cheatcodes.Drive | foundry-zksync/crates/cheatcodes/src/inspector.rs:1426-1447 | a whole run of hooks produces the state of the specification run |
| StateDiffHooks.Cheatcodes.StopAndReturnStateDiff | foundry-zksync/crates/cheatcodes/src/evm.rs:1331-1340 | returns exactly the records of all lists, flattened in stack order, and keeps recording from scratch |
| StateDiffHooks.FlattenAt | foundry-zksync/crates/cheatcodes/src/evm.rs:1331-1340 | every record of every list stands in the flattened list, at its place in stack order |
| StateDiffHooks.Cheatcodes.GetRecordedStateDiffs | foundry-zksync/crates/cheatcodes/src/evm.rs:1396-1542 | one pass over stack, records and accesses computes the fold of the flattened log (storage part) |
| StateDiffHooks.Cheatcodes.FoldAccess | foundry-zksync/crates/cheatcodes/src/evm.rs:1460-1538 | a vacant slot entry takes both values, an occupied one only the new value; reverted accesses and reads are skipped |
| StateDiffHooks.FoldMeaning | foundry-zksync/crates/cheatcodes/src/evm.rs:1460-1538 | a slot is reported exactly if it has a surviving write, with the first previous and the last new value |
| StateDiffStack.AppendView | foundry-zksync/crates/cheatcodes/src/inspector.rs:2590-2636 | in all three cases the access becomes the last one in reported order and the records keep their other fields; a new record, added exactly after one that is not a resumption, resumes the context of the first |
| StateDiffStack.MergeView | foundry-zksync/crates/cheatcodes/src/inspector.rs:1666-1702 | popping, marking and merging only marks the suffix that the ended frame contributed |
| StateDiffStack.RefinesStep | foundry-zksync/crates/cheatcodes/src/inspector.rs:936-985 | every hook keeps the stack invariant: one list per open entered frame, one depth apart, over at most one merged list |
| StateDiffTrace.StackRefinesCallTree | foundry-zksync/crates/cheatcodes/src/inspector.rs:1996-2018 | after every event of every run, the flattened stack is the reported events in order with exact revert flags |
| StateDiffEffect.AccessesRecorded | foundry-zksync/crates/cheatcodes/src/inspector.rs:2252-2304 | field by field, in every run: the entry of a reported SLOAD or SSTORE names its account and slot and what the slot held then; a read repeats that value, a write has the value written; the flag is set exactly by a revert around it |
| StateDiffEffect.AccountsRecorded | foundry-zksync/crates/cheatcodes/src/inspector.rs:2194-2364 | the same for calls, creates, account queries and self-destructs: kind, accessor, account, depth and flag |
| StateDiffTrace.ReportsComplete | foundry-zksync/crates/cheatcodes/src/inspector.rs:2194-2304 | the reported events are each listed once, in execution order, and none is missing |
| StateDiffTrace.TopListDepth | foundry-zksync/crates/cheatcodes/src/inspector.rs:2596-2604 | while an entered frame runs, the top list's first record sits one depth below it, so no access is dropped |
| StateDiffEffect.ReportIsExact | foundry-zksync/crates/cheatcodes/src/evm.rs:1397-1541 | for every run, slot and number of events, with no assumption: the reported diff (held before the first surviving write, written by the last), the value in storage (last write not undone, or the base value), and that the report applied to the old storage is the current storage exactly if these agree |
| StateDiffEffect.StorageHolds | foundry-zksync/crates/cheatcodes/src/inspector.rs:2275-2304 | in every run storage holds the last write in force: the last one around which no frame has reverted, or else the value an older revert went back to |
| StateDiffEffect.CoveredReportIsRight | foundry-zksync/crates/cheatcodes/src/evm.rs:1397-1541 | when all writes of the slot are in entered frames, no root call reverts and older reverts leave the slot alone, the report is right, previous value included |
| StateDiffEffect.OlderRevertReport | foundry-zksync/crates/cheatcodes/src/inspector.rs:1664-1678 | when a frame older than the recording, other than the root, reverts, nothing is reported, and that is right exactly if the frame had left the slot as it was when recording began |
| StateDiffEffect.OlderRootRevertReport | foundry-zksync/crates/cheatcodes/src/inspector.rs:1664-1667 | when the root call inside which recording began reverts, the report stays as it was, and it is right exactly if the reported (or else the starting) value is the one the call started from |
| StateDiffEffect.OlderRevertIsMissed | foundry-zksync/crates/cheatcodes/src/inspector.rs:1664-1678 | an input for which it is not right |
| StateDiffEffect.ReportedIffSurvivingWrite | foundry-zksync/crates/cheatcodes/src/evm.rs:1460-1462 | in every run a slot is reported exactly if some write in an entered frame was not undone by a revert around it |
| StateDiffTree.TreeReport | foundry-zksync/crates/cheatcodes/src/evm.rs:1397-1541 | for every call tree and every slot: what is reported; that it gives the new storage exactly if the top frame has no late write to the slot or one with the reported value; that its previous value is the starting one exactly if the top frame has no early write or one with that value |
| StateDiffTree.ReportMatchesTree | foundry-zksync/crates/cheatcodes/src/evm.rs:1397-1541 | for every call tree and every slot the top frame does not itself write: the report is the value before and the value after rollback, present exactly if a write survives |
| StateDiffTree.RecordAndReport | foundry-zksync/crates/cheatcodes/src/evm.rs:1359-1542 | the recorder object, for all slots at once (start, run all hooks, fold): the diffs are those of the tree, and its effect on every slot the top frame does not write |
| StateDiffTree.RootCallReport | foundry-zksync/crates/cheatcodes/src/inspector.rs:1664-1667 | a root call is never marked; its report agrees with storage exactly if it succeeds or its body leaves the slot unchanged |
| StateDiffTree.RootRevertIsMissed | foundry-zksync/crates/cheatcodes/src/inspector.rs:1664-1667 | an input whose report is wrong after a root revert |
| StateDiffTree.UnenteredWriteIsMissed | foundry-zksync/crates/cheatcodes/src/inspector.rs:2275-2277 | a write by the frame that started recording, before any entry, is not reported |
| StateDiffTree.UnenteredWriteIsPrevious | foundry-zksync/crates/cheatcodes/src/inspector.rs:2596-2597 | a write by that frame before a reported one is reported as the previous value |
| GasSnapshots.GasMetering.StartSnapshot | foundry-zksync/crates/cheatcodes/src/evm.rs:1175-1200 | refuses while one is active, else pushes a record, sets the active name and turns recording on |
| GasSnapshots.GasMetering.StopSnapshot | foundry-zksync/crates/cheatcodes/src/evm.rs:1202-1251 | the new state and the outcome, including the panic without an active snapshot and the error for an unknown name |
| GasSnapshots.GasMetering.MeterOpcode | foundry-zksync/crates/cheatcodes/src/inspector.rs:2081-2100 | the saturating update of every record at the current depth and of the last counter |
| GasSnapshots.AlwaysInStep | foundry-zksync/crates/cheatcodes/src/evm.rs:1175-1251 | in every reachable state there is at most one record, present exactly while its snapshot is active and recording is on |
| GasSnapshots.StopIsExact | foundry-zksync/crates/cheatcodes/src/evm.rs:1207-1250 | in every reachable state: exactly when a stop succeeds, panics or fails; that it removes exactly its record, clears the active snapshot and writes the gas less 171 under its group and name, keeping everything written under others |
| GasSnapshots.RetainExactly | foundry-zksync/crates/cheatcodes/src/evm.rs:1233-1237 | on any list the retain is exact if and only if no record shares only the group or only the name |
| GasSnapshots.SnapshotReading | foundry-zksync/crates/cheatcodes/src/evm.rs:1175-1251 | what a snapshot reads over any events that do not end it: the capped sum of the rises of the gas counter at its depth, from the counter left behind, less the overhead; under which group and name it runs, and that these stop it |
| GasSnapshots.ReadingIsGasUsed | foundry-zksync/crates/cheatcodes/src/inspector.rs:2086-2096 | over a growing counter this is the gas between the first and the last opcode exactly if no smaller counter was left behind |
| GasSnapshots.LeftoverCounterIsRead | foundry-zksync/crates/cheatcodes/src/inspector.rs:2088-2096 | a run whose second snapshot reads gas spent before it started |
| ArbitraryStorage.Storage.MarkArbitrary | foundry-zksync/crates/cheatcodes/src/inspector.rs:299-307 | marking resets the value map and sets or clears the overwrite flag |
| ArbitraryStorage.Storage.CopyStorage | foundry-zksync/crates/cheatcodes/src/utils.rs:253-274 | copies storage and registers the copy only for a marked source; refuses a marked target |
| ArbitraryStorage.Storage.Save | foundry-zksync/crates/cheatcodes/src/inspector.rs:316-324 | caches the value and writes it to storage; the expect is its precondition |
| ArbitraryStorage.Storage.Copy | foundry-zksync/crates/cheatcodes/src/inspector.rs:326-350 | returns the cached value or caches the offered one, and writes source and target; the expects are its preconditions |
| ArbitraryStorage.Storage.BeforeSload | foundry-zksync/crates/cheatcodes/src/inspector.rs:2142-2174 | which slots are filled before an SLOAD, and that neither expect can fail |
| ArbitraryStorage.Storage.Load | foundry-zksync/crates/cheatcodes/src/evm.rs:236-271 | refuses precompiles and accounts that do not load; which slots a load fills, that it returns what storage then holds, and that neither expect can fail |
| ArbitraryStorage.SourcesStayMarked | foundry-zksync/crates/cheatcodes/src/inspector.rs:309-314 | in every reachable state each copy's source has a value map |
| ArbitraryStorage.MarkedRead | foundry-zksync/crates/cheatcodes/src/inspector.rs:2154-2164 | exactly when a read of a marked account is due, the overwrite flag included; a due read gets the offered value, which is cached and stored, and any other changes nothing |
| ArbitraryStorage.SloadSinceMark | foundry-zksync/crates/cheatcodes/src/inspector.rs:2142-2174 | in every run, since the account was last marked: an SLOAD gets the offered value exactly if the slot is a cold zero, or the account was marked to be overwritten and no read has filled the slot since |
| ArbitraryStorage.ReadFrame | foundry-zksync/crates/cheatcodes/src/inspector.rs:2154-2174 | a read touches its own slot and the same slot of the source behind it, and nothing else |
| ArbitraryStorage.CopyReadSource | foundry-zksync/crates/cheatcodes/src/inspector.rs:326-350 | the first read through a copy stores the offered value at the source too, a later one leaves the source alone |
| ArbitraryStorage.CopyEffect | foundry-zksync/crates/cheatcodes/src/utils.rs:253-274 | exactly when a copy is refused or without effect, what every slot holds after it, and when the target is registered |
| ArbitraryStorage.MarkEffect | foundry-zksync/crates/cheatcodes/src/inspector.rs:299-307 | marking forgets the cached values of that account only, sets or clears its flag only, and leaves storage and copies alone |
| ArbitraryStorage.WriteEffect | foundry-zksync/crates/cheatcodes/src/evm.rs:646-654 | a storage write changes its own slot and nothing else, the cached values included |
| ArbitraryStorage.StoredIff | foundry-zksync/crates/cheatcodes/src/inspector.rs:316-350 | in every run, storage writes included, from when a value is cached until the account is marked again: storage holds the cached value exactly if the last write to the slot wrote it or a read has filled the slot since |
| ArbitraryStorage.CopySettlesIff | foundry-zksync/crates/cheatcodes/src/utils.rs:262-269 | making an account a copy gives it the cached value of a slot exactly if the storage of the source holds that value |
| ArbitraryStorage.SettledStep | foundry-zksync/crates/cheatcodes/src/inspector.rs:326-350 | exactly which events leave a copy with the cached value of a slot: a read through it, a write or a copy of that value, or anything that does not touch the slot if it was there already |
| ArbitraryStorage.SettledIff | foundry-zksync/crates/cheatcodes/src/inspector.rs:326-350 | the same over any run, by the last event that touches the slot |
| ArbitraryStorage.CopiesAgree | foundry-zksync/crates/cheatcodes/src/inspector.rs:326-350 | over any run, storage writes included, while the source is neither marked again nor given a new value for the slot: a read of the slot in one copy sees the value settled in another exactly if the slot is due to be filled or the last event that touched it left the cached value there |
| ArbitraryStorage.WrittenSourceSplitsCopies | foundry-zksync/crates/cheatcodes/src/inspector.rs:298-351 | a run in which a write to the source makes two copies of it disagree |
| Deals.Cheatcodes.Deal | foundry-zksync/crates/cheatcodes/src/evm.rs:580-590 | fails without effect if the account does not load; else sets the balance and logs the old one |
| Deals.Cheatcodes.OnRevert | foundry-zksync/crates/cheatcodes/src/inspector.rs:704-725 | does nothing under an expected revert or below the top level; else empties the log and undoes it newest first |
| Deals.UndoRestores | foundry-zksync/crates/cheatcodes/src/inspector.rs:717-724 | whatever happened meanwhile, each dealt loaded account ends at the old balance of its earliest record, all others keep theirs |
| Deals.BalanceAfter | foundry-zksync/crates/cheatcodes/src/evm.rs:580-590 | after any deals an account has the balance of the last deal to it, unless it does not load; no other account is touched |
| Deals.RollbackIsComplete | foundry-zksync/crates/cheatcodes/src/inspector.rs:717-724 | after any sequence of deals, failing ones included, the rollback restores every account that was loaded before, and leaves an account that a deal loaded at its database balance |
| Rlp.DecodeItem | foundry-zksync/crates/cast/src/rlp_converter.rs:26-46 | the recursive decoder with its while loop computes the specified item, remainder or error |
| Rlp.DecodeEncode | foundry-zksync/crates/cast/src/rlp_converter.rs:17-46 | every item whose lengths fit is decoded back from its encoding plus any trailing bytes, leaving exactly those |
| Rlp.DecodeCanonical | foundry-zksync/crates/cast/src/rlp_converter.rs:26-46 | if decoding succeeds, the consumed bytes are the encoding of the result |
| Rlp.DecodeIffEncoding | foundry-zksync/crates/cast/src/rlp_converter.rs:17-46 | decoding succeeds with an item exactly if the buffer starts with its encoding |
| Rlp.EncodingPrefixFree | foundry-zksync/crates/cast/src/rlp_converter.rs:17-24 | no encoding is a prefix of the encoding of another item |
| Rlp.EncodeFormat | foundry-zksync/crates/cast/src/rlp_converter.rs:17-24 | the bytes of every encoding, as the standard gives them: single bytes, short and long strings, short and long lists over the concatenated elements |
| Rlp.TruncationIsTooShort | foundry-zksync/crates/cast/src/rlp_converter.rs:27-31 | every encoding cut off anywhere is refused as too short |
| Rlp.NotMinimal | foundry-zksync/crates/cast/src/rlp_converter.rs:27-28 | the three forms that are not minimal are refused, each with its own error, whatever follows |
| RlpText.Display | foundry-zksync/crates/cast/src/rlp_converter.rs:73-93 | the piecewise writer appends the specified text |
| RlpText.ShowText | foundry-zksync/crates/cast/src/rlp_converter.rs:73-93 | the text of an item: hex in quotes, or the elements in brackets with commas and nothing else between them |
| RlpText.HexDigitsIff | foundry-zksync/crates/cast/src/lib.rs:1531 | hex is accepted exactly if it is an even number of digits of either case |
| RlpText.HexValueIff | foundry-zksync/crates/cast/src/lib.rs:1531 | the hex digits of either case, and no other character, have their place as value |
| JsonText.ReadDoc | foundry-zksync/crates/cast/src/lib.rs:1556 | every document of the fragment, however it is spaced, is read from its text, exactly if the nesting budget covers it |
| JsonText.NumberRead | foundry-zksync/crates/cast/src/lib.rs:1556 | what is read as a number is one by the grammar of RFC 8259, and is what stood in front of the rest |
| JsonText.NumberWhole | foundry-zksync/crates/cast/src/lib.rs:1556 | every number of that grammar is read whole |
| RlpText.ReadShown | foundry-zksync/crates/cast/src/rlp_converter.rs:73-93 | the JSON reader gives a printed item back, with the text that follows, exactly if its nesting budget covers it |
| RlpText.MeaningIsItem | foundry-zksync/crates/cast/src/rlp_converter.rs:48-65 | converting the value of any document gives the item it stands for, or none: null, booleans, numbers, strings, lists |
| RlpText.ShowToRlp | foundry-zksync/crates/cast/src/lib.rs:1555-1560 | encoding a printed item: its encoding in hex, or an error from nesting depth 128 on |
| RlpText.DocToRlp | foundry-zksync/crates/cast/src/lib.rs:1555-1560 | for every document: the encoding of the item it stands for, in hex; an error exactly if it stands for none or is nested 128 deep |
| RlpText.HexTextToRlp | foundry-zksync/crates/cast/src/lib.rs:1555-1560 | for every hex text: with the prefix its bytes; without it too, unless it is a JSON number, which is read in decimal and fails with an exponent or from 2^256 on |
| RlpText.PrefixMattersIff | foundry-zksync/crates/cast/src/lib.rs:1555-1560 | the prefix of a hex text makes a difference exactly if the text is a JSON number |
| RlpText.PrefixMatters | foundry-zksync/crates/cast/src/lib.rs:1555-1560 | inputs for which it does |
| RlpText.BareStringToRlp | foundry-zksync/crates/cast/src/lib.rs:1556-1559 | every text that is not JSON: the encoding of its bytes, or an error exactly if it is not an even number of hex digits |
| RlpText.FromRlpIff | foundry-zksync/crates/cast/src/lib.rs:1530-1541 | exactly which texts are decoded and to what text, and which fail |
| RlpText.TextRoundTrip | foundry-zksync/crates/cast/src/lib.rs:1530-1560 | for every accepted input, decoding to text and encoding again returns the consumed bytes, exactly below nesting depth 128 |
| RlpText.DeepItemIsRefused | foundry-zksync/crates/cast/src/lib.rs:1555-1560 | decodable inputs for which the way back fails |
| NodeService.BlockProducer.Next | foundry-zksync/crates/anvil/src/service.rs:120-163 | spawning from the queue's front, polling the mining task, returning the backend with the outcome |
| NodeService.Service.DrainProducer | foundry-zksync/crates/anvil/src/service.rs:73-78 | the inner loop terminates on any answers and hands every outcome to the pool |
| NodeService.Service.PollService | foundry-zksync/crates/anvil/src/service.rs:67-87 | the nested loops compute the specified poll for any answers of task and miner |
| NodeService.RunConserved | foundry-zksync/crates/anvil/src/service.rs:67-163 | between polls of any run: handed-over batches are mined, in flight and queued in FIFO order; the backend is idle or mining; the pool saw each outcome once, in order |
| NodeService.RunAnswers | foundry-zksync/crates/anvil/src/service.rs:67-163 | over every run: the batches handed over are those the miner offered; the block numbers in the pool are the ready answers of the mining tasks polled, in order; the backend, idle or mining, is the one the service was built with |
| NodeService.PollAnswered | foundry-zksync/crates/anvil/src/service.rs:67-87 | in one poll the block numbers that reach the pool are the ready ones among the answers used up, in order |
| NodeService.PollCounts | foundry-zksync/crates/anvil/src/service.rs:67-87 | every poll of a mining task uses up one answer, and the miner is polled once for every batch and once more |
| NodeService.NoStalledBacklog | foundry-zksync/crates/anvil/src/service.rs:72-87 | when a poll returns, waiting batches imply a task that was just polled pending, and the miner was polled pending last |
| NodeService.DrainMinesAll | foundry-zksync/crates/anvil/src/service.rs:73-78 | with ready tasks the inner loop mines everything that waits |
| NodeService.PollMinesAll | foundry-zksync/crates/anvil/src/service.rs:67-87 | with ready tasks one poll mines the backlog and all newly offered batches, in order |
| LogDelivery.CollectLogs | foundry-zksync/crates/anvil/src/pubsub.rs:150-193 | the nested loops with a wrapping 32-bit index compute the filtered, numbered logs |
| LogDelivery.FilterLogsMeaning | foundry-zksync/crates/anvil/src/pubsub.rs:171-192 | the result is the very sequence obtained by numbering all logs of the block across its receipts and then filtering; indices increase while the 32-bit counter does not wrap |
| LogDelivery.FilteredLog | foundry-zksync/crates/anvil/src/pubsub.rs:152-188 | a log is in the result exactly if it passes all four tests and carries, field by field, the block, transaction and index of a place in the block |
| LogDelivery.LogsSubscription.Poll | foundry-zksync/crates/anvil/src/pubsub.rs:30-61 | the loop terminates and computes the specified answer and state |
| LogDelivery.LogsFilter.Poll | foundry-zksync/crates/anvil/src/filter.rs:165-175 | returns the historic logs once and then the logs of everything waiting |
| LogDelivery.SubPollAnswer | foundry-zksync/crates/anvil/src/pubsub.rs:31-60 | for an empty queue, exactly when the answer is closed, pending or the next log, and how far the receiver was read |
| LogDelivery.PendingMeansDrained | foundry-zksync/crates/anvil/src/pubsub.rs:45-59 | if storage holds every waiting block, pending implies an empty queue and an empty, open receiver |
| LogDelivery.MissingBlockStalls | foundry-zksync/crates/anvil/src/pubsub.rs:43-59 | a missing block in front makes the poll pending with all later notifications unread |
| LogDelivery.PushPullAgree | foundry-zksync/crates/anvil/src/filter.rs:163-176 | over every interleaving, about the logs returned to the client: those of the subscription, with its queue, are the logs of a prefix of the notifications, each once, in order; those of the filter are its historic logs and then the logs of a prefix; drained, they are equal up to the historic logs |
| LogDelivery.PulledIsDrained | foundry-zksync/crates/anvil/src/filter.rs:165-175 | after any run a poll of the filter leaves no historic log and no notification behind |
| LogDelivery.SubPollReturns | foundry-zksync/crates/anvil/src/pubsub.rs:31-40 | a poll with a waiting queue returns its first log and takes exactly that; every ready answer is counted once |
| FilterRegistry.Registry.AddFilter | foundry-zksync/crates/anvil/src/filter.rs:37-43 | registers the filter with deadline now plus keepalive |
| FilterRegistry.Registry.GetFilterChanges | foundry-zksync/crates/anvil/src/filter.rs:45-59 | pushes the deadline of a known filter ahead, leaves the map alone for an unknown one |
| FilterRegistry.Registry.UninstallFilter | foundry-zksync/crates/anvil/src/filter.rs:70-74 | removes that filter only |
| FilterRegistry.Registry.Evict | foundry-zksync/crates/anvil/src/filter.rs:87-98 | removes exactly the filters past their deadline |
| FilterRegistry.DeadlineIsLastTouch | foundry-zksync/crates/anvil/src/filter.rs:82-84 | in every run an active filter's deadline is its last add or poll plus keepalive |
| FilterRegistry.ActiveIff | foundry-zksync/crates/anvil/src/filter.rs:37-98 | in every run, whatever the clock does, the active filters are exactly those added and since then neither uninstalled nor evicted past their deadline |
| FilterRegistry.PresentUntilDeadline | foundry-zksync/crates/anvil/src/filter.rs:87-98 | a filter that is not uninstalled is present until keepalive after each touch |
| FilterRegistry.GoneByTwiceKeepalive | foundry-zksync/crates/anvil/src/service.rs:51-52 | with on-time ticks a filter last touched at t is gone by t plus twice the keepalive |
| FilterRegistry.TickAtDeadlineKeeps | foundry-zksync/crates/anvil/src/filter.rs:91-97 | the bound is tight: a tick exactly at the deadline keeps the filter |
| NumberBases.DetectPrinted | foundry-zksync/crates/cast/src/base.rs:112-156 | the base of every printed number is detected, also when the 64-bit probe overflows |
| NumberBases.DetectIff | foundry-zksync/crates/cast/src/base.rs:111-156 | for every text, exactly which base is detected: all signs, the prefix and what the probe accepts after it, decimal or else hexadecimal digits within 256 bits |
| NumberBases.ProbeIff | foundry-zksync/crates/cast/src/base.rs:122-141 | exactly what the 64-bit probe accepts: digits to the end after at most one plus sign, or so many that it overflows first |
| NumberBases.ParseIff | foundry-zksync/crates/cast/src/base.rs:402-408 | the radix parser succeeds exactly on numerals, underscores included, of 256-bit words, and gives their value |
| NumberBases.DigitValueIff | foundry-zksync/crates/cast/src/base.rs:402-408 | the digits and letters of either case, and no other character, have a value |
| NumberBases.ParseIntIff | foundry-zksync/crates/cast/src/base.rs:327-333 | what is parsed of every text: base, magnitude, two's complement after a minus sign |
| NumberBases.ParseUintIff | foundry-zksync/crates/cast/src/base.rs:335-341 | the same without signs |
| NumberBases.PrintedValue | foundry-zksync/crates/cast/src/base.rs:373-388 | what is printed: lower-case digits of the radix without leading zeros, with the number as value |
| NumberBases.UnprefixedHex | foundry-zksync/crates/cast/src/base.rs:143-154 | hexadecimal digits without prefix are detected, and converted to decimal, exactly if there is a letter among them |
| NumberBases.ShowParsesBack | foundry-zksync/crates/cast/src/base.rs:217-231 | printing with prefix and parsing with detection returns base and word, the word exactly unless the sign flag contradicts it |
| NumberBases.IntegerRoundTrip | foundry-zksync/crates/cast/src/base.rs:327-408 | every integer in [-2^255, 2^256) survives in each base, in decimal with its sign |
| NumberBases.FormatParses | foundry-zksync/crates/cast/src/base.rs:373-388 | the unprefixed text parses under its own base to the printed magnitude, zero included |
| NumberBases.FalsePrefixIff | foundry-zksync/crates/cast/src/base.rs:402-408 | for every text that is a number in the given base, dropping a prefix changes it exactly under base sixteen when it starts with 0b or 0B |
| NumberBases.FalsePrefix | foundry-zksync/crates/cast/src/base.rs:402-408 | an input: under base sixteen 0b1 is read as 0x1 |
| NumberBases.ToBaseKeepsWord | foundry-zksync/crates/cast/src/lib.rs:1590-1602 | converting between different bases keeps the word exactly unless the target is decimal and the input is a minus sign before a magnitude above 2^255 |
| NumberBases.ToBaseIff | foundry-zksync/crates/cast/src/lib.rs:1590-1602 | for every text and bases: when the conversion succeeds and to what text; to the same base the text comes back unchanged |
| NumberBases.NegatedMaxChanges | foundry-zksync/crates/cast/src/lib.rs:1590-1602 | an input whose word changes |
| JsonUpsert.Document.Upsert | foundry-zksync/crates/cheatcodes/src/json.rs:656-698 | walking and writing through the moving reference amounts to the functional update; says which value blocked it, and leaves the document unchanged on every error |
| JsonUpsert.InsertIsSet | foundry-zksync/crates/cheatcodes/src/json.rs:679-691 | inserting a member through a reference to an object is the update of the document one key further |
| JsonUpsert.SetSucceedsIff | foundry-zksync/crates/cheatcodes/src/json.rs:675-694 | an update succeeds exactly if every existing value on the way to the last key is an object |
| JsonUpsert.LookupAfter | foundry-zksync/crates/cheatcodes/src/json.rs:675-692 | after success: the new value at and below the path, objects above it, every other path as before |
| JsonUpsert.SetTwice | foundry-zksync/crates/cheatcodes/src/json.rs:686-691 | a second update at the same path wins |
| JsonUpsert.SetSame | foundry-zksync/crates/cheatcodes/src/json.rs:675-692 | putting back the value that is there changes nothing |
| JsonUpsert.UpdatesCommute | foundry-zksync/crates/cheatcodes/src/json.rs:656-698 | updates at incomparable paths commute, failures included, and do not affect each other's success |
| JsonUpsert.KeysNamePaths | foundry-zksync/crates/cheatcodes/src/json.rs:657-664 | rooted keys name every path; bare keys do exactly unless several segments start with a lone $ |
| JsonUpsert.RootedKeyPath | foundry-zksync/crates/cheatcodes/src/json.rs:658-664 | a rooted key names the path of its non-empty parts, in order |
| JsonUpsert.EmptyKeyIff | foundry-zksync/crates/cheatcodes/src/json.rs:666-668 | exactly which keys are rejected as empty |
| JsonUpsert.DollarIsAKey | foundry-zksync/crates/cheatcodes/src/json.rs:666-668 | a lone $ is accepted as a key |

## Left out

- StateDiffTree.TreeReport: trees have no SELFDESTRUCT, whose storage effect the recorder does not track; the event-sequence results include its record.
- StateDiffHooks.Cheatcodes.GetRecordedStateDiffs: the storage diffs only; balance and nonce diffs of the same pass are not modelled.
- Balance, nonce, code and call-data fields of records, labels and slot decoding: they do not affect the storage diffs.
- Hooks that return before recording or before merging (mocked calls, expected reverts, assume-no-revert, broadcast errors), calls to the cheatcode and console addresses, and the zksync strategy.
- Frames that end in a halt which is not a revert: the recorder does not mark them.
- Pranks, broadcasts, expected calls, emits and creates, memory-safety checks, paused gas metering.
- `as_int` decoding, JSON objects and string escapes in `to_rlp`.
- Parsing base names, upper-case hexadecimal printing and padding of numbers.
- The JSON reader applied to the value of an upsert, JSON-to-Solidity conversion, the TOML variant.
- The transaction pool, fee history, header and pending-transaction subscriptions, block and transaction filters.
- LogDelivery.CollectLogs: a block with fewer transactions than receipts, where the source panics on an index, is excluded by its precondition.
- Everything else in the workspace (RPC, command line, compilation, scripts, fuzzing, formatting): not modelled.
