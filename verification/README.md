# Verified model of the task registry, the key-value application and the bounty contract

Three components of this repository keep state, and each makes promises about all of its
runs. The Dafny modules here model them as the code runs them and prove those promises.
`dafny verify dfyconfig.toml` checks everything.

**Task registry (`mychain/x/taskreg`).** `Bytes` and `ProtoWire` hold the byte-level ground:
big-endian integers, lexicographic key order, and the Protocol Buffers primitives (sections
"Base 128 Varints", "Message Structure" and "Length-Delimited Records" of the Encoding
specification) with the limits of the Go wire library. `MessageCodec` is the field-by-field
decoder every message shares; `TaskCodec` instantiates it for `Task`, the three request
messages and `GenesisState`; `WireFormat` states the emitted bytes against the specification;
`TaskMessages` holds the same codecs as receiver objects with loops. `TaskRegistry` is the
abstract machine, a map and a counter; `TaskLife` reads a task's record off the messages alone;
`TaskKeeper` is the byte store and the simulation between it and the machine; `TaskGenesis` and `TaskQuery` cover import, export
and list windows; `TaskServer` holds the keeper, message server and query server as objects.

**Key-value application (`abci-kvstore`).** `KVTx` is the `key=value` format, `KVStore` the
durable map with its batch, metadata and hash operations, `KVApp` the application object.
`KVProtocol` is the two-transaction commit as a transition system with crashes anywhere and
redelivery from the reported height; `KVReplay` treats restarts after transactions have tampered
with the metadata.

**Bounty contract (`contracts/task-bounty`).** `BountyContract` has the 128-bit payout
arithmetic, the handlers and the contract object; `BountyRuns` puts it on a bank ledger where
a failing message reverts as a whole; `BountyLedger` says what each step does to every account,
`BountyHistory` what any run has stored, `BountySolvency` when the contract can pay, and
`BountyPaging` what a paging client sees.

The usual shape: a method or transition is proved equal to a specification function on *every*
input, and lemmas then relate that function to something independent (its inverse, a simpler
machine, an invariant, an exact condition).

## Findings

- `SkipField` passes field number 0, so even a properly closed unknown group makes a message
  undecodable, while the Encoding specification would skip it
  (`ProtoWire.ProperGroupIsRejected`, `MessageCodec.UnknownGroupFails`).
- `GenesisState.Validate` accepts a genesis whose counter is not above its ids; the first
  `CreateTask` then overwrites a task (`TaskGenesis.ValidGenesisCanLoseTask`).
  `TaskGenesis.ImportedTaskKeptIff` says, task by task, exactly when.
- `ListTasks` panics for offsets and limits that leave the signed 64-bit range; the exact range
  is `TaskQuery.InRange`; an offset of 2^63 is the first that fails (`TaskQuery.TopBitPanics`).
- A transaction may name the metadata keys. Without crashes this is harmless, but after a crash
  between the two transactions of a commit four things can go wrong, each with its exact
  condition on the blocks. The application can no longer start (`KVProtocol.HeightKeyWriteIsFatal`;
  `KVReplay.NeverFatalIff`). The reported height is wrong (`KVProtocol.RestartSafeIff`), or it or
  the hash is (`KVProtocol.RestartMetaIff`). Or the restart resumes past the block in hand
  (`KVReplay.NeverAheadIff`), so that blocks are missed if the engine takes up from there, as one
  can whose own block store already holds the later blocks (`KVReplay.AheadSkips`,
  `SkippedBlockWitness`). As long as no restart does that, the user data converges however far
  back restarts fall (`KVReplay.ReplayConverges`).
- docs/07-KVSTORE-GUIDE.md:156 says the database always reflects a valid consensus state, and
  lines 73, 107 and 170 say `Commit` returns the app hash into the block header. The code returns
  an empty response (abci-kvstore/app.go:105). After a crash inside a commit, queries see the next
  block's writes under the old height: `KVProtocol.StaleHeightWitness` is a run where this
  happens, and by `KVProtocol.VisibleStateIff` it cannot happen exactly for chains in which every
  block's last write to each user key repeats what the earlier blocks left there. The model
  follows the code.
- A bonus above 100 percent is not backed by the contract: the claim is paid out of surplus or out
  of other bounties' escrow, as docs/06-BOUNTY-CONTRACT-GUIDE.md:127 warns.
  `BountySolvency.BonusTakesOtherEscrow` is a run after which an unclaimed bounty cannot be paid.
  For all multipliers, `RunSurplus` is the exact ledger of balance less escrow, `CoveredIff` the
  exact condition for the escrow to be covered, and `EveryOrderPaysIff` the exact condition for
  all unclaimed bounties to be payable in every order, whoever collects the fees
  (`AllClaimsPayIff` for one order, exact when the collector is another address). A claim whose
  net share is zero depends on whether the bank accepts a zero send.

## Assumptions

- The wire library and the databases are modelled, not cited: ten-byte varints with a tenth byte
  of at most 1, field numbers 1 to 2^31 - 1, group depth 10000; byte-ordered iteration; atomic,
  durable, successful transactions; an empty stored value reads back as present.
- Strings and byte slices are byte sequences shorter than 2^64, so that their length fits the
  length prefix.
- The engine delivers blocks 1, 2, ... in order and after a restart redelivers every block above
  the reported height, which may lie anywhere up to the chain's end: a height ahead of the blocks
  in the database is taken as it is. An engine may instead refuse a height above its own block
  store; then a restart ahead fails, unless the engine was replaying from behind. SHA-256 is an
  arbitrary function.
- The contract's own address sends no messages and no coins except through its emitted sends.
  Bank balances are unbounded. Whether zero-coin sends succeed is the parameter `zeroOk`. Funds
  attached to a message move before its handler runs.

## Model

| member | source | states |
|---|---|---|
| ProtoWire.SizeVarintExact | mychain/x/taskreg/types/tx.pb.go:49-54 | the division-free size formula behind SizeVarint equals the emitted length for every uint64, at most 10 |
| ProtoWire.VarintRoundTrip | mychain/x/taskreg/types/tx.pb.go:33-40 | every uint64 is read back from its varint whatever bytes follow |
| ProtoWire.VarintMinimal | mychain/x/taskreg/types/types.pb.go:120-125 | any accepted varint, minimal or not, is at least as long as the one the encoder emits for its value |
| ProtoWire.SkipRejectsGroups | mychain/x/taskreg/types/tx.pb.go:56-62 | skipField can succeed only on wire types 0, 1, 2 and 5: a group opened under number 0 never closes, at any nesting |
| WireFormat.VarintEmits | mychain/x/taskreg/types/tx.pb.go:33-40 | the emitted bytes are seven-bit groups of the value, least significant first, continuation bits on all but the last, no superfluous group |
| WireFormat.VarintReadsIff | mychain/x/taskreg/types/types.pb.go:120-125 | exactly such groups of at most ten bytes with a tenth byte of at most 1 are read, each as the number they stand for |
| WireFormat.TagReadsIff | mychain/x/taskreg/types/types.pb.go:111-117 | a tag is read exactly for field numbers 1 to 2^31 - 1 |
| WireFormat.BytesReadIff | mychain/x/taskreg/types/types.pb.go:126-131 | exactly a length varint and that many bytes are read as a string |
| WireFormat.FieldForms | mychain/x/taskreg/types/tx.pb.go:24-40 | every emitted field as varints: 8 n and the value, or 8 n + 2, the length and the bytes; zero values left out |
| MessageCodec.DecodeConcat | mychain/x/taskreg/types/types.pb.go:111-170 | if a decodes, decoding a + b is decoding b on top of a's result, errors in b included; for every schema |
| MessageCodec.SkippedIffUnknownField | mychain/x/taskreg/types/types.pb.go:161-167 | the byte strings skipped as one whole field are exactly a tag with an unknown number and one value of wire type 0, 1, 2 or 5, non-minimal tags, lengths and varints included |
| MessageCodec.UnknownFieldSplice | mychain/x/taskreg/types/types.pb.go:161-167 | inserting any such field between fields changes nothing |
| MessageCodec.UnknownGroupFails | mychain/x/taskreg/types/types.pb.go:161-167 | any bytes read as a group start of an unknown number make the decode fail with the fields before it already assigned |
| MessageCodec.FieldAppended | mychain/x/taskreg/types/types.pb.go:111-170 | for every schema, one more whole known field is assigned on top of what the bytes before it decoded to |
| TaskCodec.TaskRoundTrip | mychain/x/taskreg/types/types.pb.go:67-79 | decoding an encoded task into a zero task gives it back, for every id, all strings and every int32 status |
| TaskCodec.TaskLastOneWins | mychain/x/taskreg/types/types.pb.go:111-170 | any bytes read as one further whole known field set exactly that field, whatever decodable bytes came before and whatever wire type the tag announces |
| TaskCodec.WireTypeIgnored | mychain/x/taskreg/types/types.pb.go:118-125 | a varint after a tag of any wire type is taken as the id |
| WireFormat.FieldReads | mychain/x/taskreg/types/types.pb.go:111-170 | for every schema and all bytes a field is read by its number alone, the wire type counting only for unknown numbers |
| WireFormat.TaskWalks | mychain/x/taskreg/types/types.pb.go:67-79 | a reader that knows no field walks the whole encoding of any task by tags and wire types alone |
| WireFormat.MessagesWalk | mychain/x/taskreg/types/tx.pb.go:80-86 | so it does those of the three request messages |
| WireFormat.GenesisWalks | mychain/x/taskreg/types/genesis.pb.go:41-53 | and that of a genesis |
| WireFormat.CreateLastOneWins | mychain/x/taskreg/types/tx.pb.go:110-148 | one more whole known field sets exactly creator, title or description by its number |
| WireFormat.AssignLastOneWins | mychain/x/taskreg/types/tx.pb.go:261-299 | likewise creator, task id, assignee |
| WireFormat.CompleteLastOneWins | mychain/x/taskreg/types/tx.pb.go:358-389 | likewise assignee, task id |
| WireFormat.GenesisLastOneWins | mychain/x/taskreg/types/genesis.pb.go:83-118 | likewise the counter, or one more task appended; a task that does not decode is not appended and fails the whole |
| WireFormat.StatusNumbers | mychain/x/taskreg/types/types.pb.go:74-77 | a status is written as itself modulo 2^64 and read modulo 2^32 |
| WireFormat.TaskBytes | mychain/x/taskreg/types/types.pb.go:67-79 | the encoding of a task with every field, byte by byte |
| WireFormat.MessageBytes | mychain/x/taskreg/types/tx.pb.go:80-86 | an encoding of each request message, byte by byte |
| WireFormat.GenesisBytes | mychain/x/taskreg/types/genesis.pb.go:41-53 | the encoding of a genesis with a task, byte by byte |
| TaskCodec.CreateRoundTrip | mychain/x/taskreg/types/tx.pb.go:80-148 | MsgCreateTask survives encoding |
| TaskCodec.AssignRoundTrip | mychain/x/taskreg/types/tx.pb.go:231-299 | MsgAssignTask survives encoding |
| TaskCodec.CompleteRoundTrip | mychain/x/taskreg/types/tx.pb.go:329-389 | MsgCompleteTask survives encoding |
| TaskCodec.GenesisCodecRoundTrip | mychain/x/taskreg/types/genesis.pb.go:41-118 | a genesis decodes to the same tasks in order and the same counter, all-zero tasks included |
| TaskCodec.TaskSizeExact | mychain/x/taskreg/types/types.pb.go:99-109 | Size is the length of the encoding |
| TaskCodec.GenesisSizeExact | mychain/x/taskreg/types/genesis.pb.go:73-81 | Size of a genesis is the length of its encoding, nested records included |
| TaskMessages.TaskRef.Size | mychain/x/taskreg/types/types.pb.go:99-109 | the accumulated n is the exact length Marshal produces |
| TaskMessages.TaskRef.Marshal | mychain/x/taskreg/types/types.pb.go:67-79 | the buffer grown step by step decodes back to the receiver |
| TaskMessages.TaskRef.Unmarshal | mychain/x/taskreg/types/types.pb.go:111-170 | the loop leaves the receiver and error of the recursive decoder on all inputs, partial assignments on failure included |
| TaskMessages.GenesisRef.Size | mychain/x/taskreg/types/genesis.pb.go:73-81 | the loop over tasks computes the encoded length |
| TaskMessages.GenesisRef.Unmarshal | mychain/x/taskreg/types/genesis.pb.go:83-118 | the nested loop agrees with the recursive decoder on all inputs |
| TaskMessages.CreateTaskRef.Unmarshal | mychain/x/taskreg/types/tx.pb.go:110-148 | agrees with the recursive decoder on all inputs |
| TaskMessages.AssignTaskRef.Unmarshal | mychain/x/taskreg/types/tx.pb.go:261-299 | agrees with the recursive decoder on all inputs |
| TaskMessages.CompleteTaskRef.Unmarshal | mychain/x/taskreg/types/tx.pb.go:358-389 | agrees with the recursive decoder on all inputs |
| TaskMessages.TaskRef.MarshalTo | mychain/x/taskreg/types/types.pb.go:81-88 | a buffer of exactly Size bytes holds the encoding, which decodes to the receiver; a longer one has it in front; a shorter one is cut silently though the full length is returned |
| TaskMessages.TaskRef.MarshalToSizedBuffer | mychain/x/taskreg/types/types.pb.go:90-97 | a buffer of exactly Size bytes holds the encoding; a longer one has it at the back; a shorter one panics unchanged |
| TaskRegistry.RunKeys | mychain/x/taskreg/keeper/msg_server.go:22-48 | after any run the ids are the old ones and exactly the wrapping window of ids handed out |
| TaskRegistry.FreshIff | mychain/x/taskreg/keeper/msg_server.go:26-37 | CreateTask never reuses a stored id in a run exactly when no stored id lies in that window and it does not lap itself |
| TaskRegistry.NoTaskLostIff | mychain/x/taskreg/keeper/msg_server.go:26-37 | the store grows by one task per create exactly under the same condition |
| TaskRegistry.NumberedIff | mychain/x/taskreg/keeper/msg_server.go:22-48 | from the default genesis the ids are 1..next-1 exactly while fewer than 2^64 - 1 tasks were created |
| TaskRegistry.RunEvolves | mychain/x/taskreg/keeper/msg_server.go:50-111 | over any run a task's identity is fixed, its status never moves back, its assignee changes only on leaving OPEN |
| TaskRegistry.CompletionHasCause | mychain/x/taskreg/keeper/msg_server.go:50-111 | a task that went from OPEN to COMPLETED was assigned by its creator and later completed by that assignee, in that order |
| TaskLife.CreateAnswers | mychain/x/taskreg/keeper/msg_server.go:22-48 | CreateTask always succeeds with the next id, stores an OPEN task nobody holds and advances the counter modulo 2^64 |
| TaskLife.AssignAnswers | mychain/x/taskreg/keeper/msg_server.go:50-80 | exactly when AssignTask gives each of its answers; success sets assignee and ASSIGNED, nothing else changes anything |
| TaskLife.CompleteAnswers | mychain/x/taskreg/keeper/msg_server.go:82-111 | exactly when CompleteTask gives each of its answers; success sets COMPLETED, nothing else changes anything |
| TaskLife.OpenLife | mychain/x/taskreg/keeper/msg_server.go:50-111 | over any run an OPEN task stays as it is until its creator's first assign, then belongs to that assignee, and is COMPLETED exactly when that one completes it later |
| TaskLife.DefaultLife | mychain/x/taskreg/keeper/msg_server.go:22-111 | from the default genesis, below 2^64 - 1 creates, task id is stored exactly when the run has its id-th create, and its record is the one the later messages tell |
| TaskLife.CompletedIff | mychain/x/taskreg/keeper/msg_server.go:22-111 | there a task is COMPLETED exactly when its create, its creator's first assign and a completion by that assignee occur in this order |
| TaskRegistry.DefaultEvolves | mychain/x/taskreg/keeper/msg_server.go:22-111 | from the default genesis, below 2^64 - 1 creates, every task ever stored stays with its identity, status only forward, assignee changed only on leaving OPEN |
| TaskRegistry.CreatedOverIff | mychain/x/taskreg/keeper/msg_server.go:26-37 | a run hands out an id exactly when it lies in the wrapping window |
| TaskRegistry.RunSlices | mychain/x/taskreg/keeper/msg_server.go:22-111 | the final record of a task not created over equals the result of only the messages naming it |
| TaskRegistry.AmendsCommute | mychain/x/taskreg/keeper/msg_server.go:50-111 | messages to different tasks commute, replies included |
| TaskRegistry.CreateCommutes | mychain/x/taskreg/keeper/msg_server.go:22-111 | CreateTask commutes with messages not naming the id it will use |
| TaskRegistry.StatusBalance | mychain/x/taskreg/keeper/msg_server.go:22-111 | in every run the sum of numeric statuses grows by the number of successful messages less the statuses of overwritten records |
| TaskRegistry.StatusAccounting | mychain/x/taskreg/keeper/msg_server.go:22-111 | so it counts the successful messages while no stored id lies in the window |
| TaskKeeper.KeyOrder | mychain/x/taskreg/types/keys.go:16-20 | task keys sort in the database exactly as their ids do |
| TaskKeeper.CountKeyApart | mychain/x/taskreg/types/keys.go:12-13 | the counter key does not carry the task prefix |
| TaskKeeper.StoredForm | mychain/x/taskreg/types/keys.go:11-20 | keys and values as bytes under their literal names |
| TaskKeeper.LookupIsAbs | mychain/x/taskreg/keeper/keeper.go:50-61 | on a well-formed store GetTask reads the abstract record, whose id is the one asked for, so it is written back where it was read |
| TaskKeeper.StepRefines | mychain/x/taskreg/keeper/msg_server.go:22-111 | each message on bytes keeps well-formedness, never panics, and does what the map machine does with the same reply |
| TaskKeeper.RunRefines | mychain/x/taskreg/keeper/keeper.go:43-77 | so does every run |
| TaskKeeper.ScanVisitsEach | mychain/x/taskreg/keeper/keeper.go:88-110 | on any store whose task entries decode, an unstopped scan visits the record of each prefixed key once, in key order |
| TaskKeeper.ScanIs | mychain/x/taskreg/keeper/keeper.go:79-111 | on any store and for any callback: the records of the first keys in order, up to and including the first the callback stops at, or a panic exactly at the first that does not decode |
| TaskKeeper.ScanListsTasks | mychain/x/taskreg/keeper/keeper.go:79-111 | on a well-formed store the scan is the registry's records, each once, by increasing id, and nothing else |
| TaskServer.Keeper.MakeKey | mychain/x/taskreg/types/keys.go:16-20 | the buffer filled byte by byte is the prefix and the big-endian id |
| TaskServer.Keeper.SetTask | mychain/x/taskreg/keeper/keeper.go:43-48 | the whole new store |
| TaskServer.Keeper.GetTask | mychain/x/taskreg/keeper/keeper.go:50-61 | missing, found or undecodable, on any store; the abstract record on a well-formed one |
| TaskServer.Keeper.GetNextTaskID | mychain/x/taskreg/keeper/keeper.go:63-70 | 1 when absent, a panic on short bytes, else the first eight bytes |
| TaskServer.Keeper.IterateTasks | mychain/x/taskreg/keeper/keeper.go:79-111 | on any store and for any callback, visits the sorted prefixed keys up to the first stop or undecodable record |
| TaskServer.MsgServer.CreateTask | mychain/x/taskreg/keeper/msg_server.go:22-48 | new store and reply on any store, counter wrap-around included |
| TaskServer.MsgServer.AssignTask | mychain/x/taskreg/keeper/msg_server.go:50-80 | new store and reply on any store, each error in the source's order |
| TaskServer.MsgServer.CompleteTask | mychain/x/taskreg/keeper/msg_server.go:82-111 | new store and reply on any store, each error in the source's order |
| TaskServer.Validate | mychain/x/taskreg/types/genesis.go:10-19 | accepts exactly the genesis states without duplicate ids |
| TaskServer.InitGenesis | mychain/x/taskreg/keeper/genesis.go:9-16 | the store after the loop and the counter write |
| TaskServer.ExportGenesis | mychain/x/taskreg/keeper/genesis.go:18-29 | on any store the scan's tasks and the counter, a panic exactly when a record or the counter is unreadable; never on a well-formed store |
| TaskGenesis.GenesisRoundTrip | mychain/x/taskreg/keeper/genesis.go:9-29 | import into an empty store then export keeps the counter, sorts by id, keeps the collection of tasks if Validate accepts, and their number only then |
| TaskGenesis.ImportKeepsLast | mychain/x/taskreg/keeper/genesis.go:9-16 | import does not validate: of several records with one id the last is stored |
| TaskGenesis.ExportImport | mychain/x/taskreg/keeper/genesis.go:9-29 | export of any well-formed store imported into an empty one stands for the same registry |
| TaskGenesis.ImportedTaskKeptIff | mychain/x/taskreg/types/genesis.go:10-19 | on stored bytes, an imported task is created over in a run exactly when its id is in the counter's window; otherwise it is still there, evolved legally, and in that case it has become a task the run created |
| TaskGenesis.ImportedCountIff | mychain/x/taskreg/types/genesis.go:10-19 | the number of tasks is the imported plus the created ones exactly when no imported id is in that window and it does not lap itself |
| TaskGenesis.ValidGenesisCanLoseTask | mychain/x/taskreg/types/genesis.go:10-19 | a genesis Validate accepts which, imported, loses its task to the first CreateTask |
| TaskGenesis.DefaultGenesisRun | mychain/x/taskreg/types/genesis.go:3-8 | from the default genesis, on bytes: well-formed for ever, numbering exact, statuses count the successes |
| TaskGenesis.DefaultTaskLife | mychain/x/taskreg/keeper/msg_server.go:22-111 | from the default genesis, on stored bytes: a task once stored stays and only evolves, its record is exactly what the messages tell, and it is COMPLETED exactly when created, first assigned and completed in this order |
| TaskQuery.Paginate | mychain/x/taskreg/keeper/grpc_query.go:56-71 | with Go's 64-bit conversions and wrap-around: panics exactly out of InRange, else returns the window and the total |
| TaskQuery.TopBitPanics | mychain/x/taskreg/keeper/grpc_query.go:56-71 | offset 2^63 - 1 is in range and 2^63 is not, and limit 2^63 - 1 is in range from offset 0 and not from offset 1 of a non-empty list |
| TaskQuery.IntNumbers | mychain/x/taskreg/keeper/grpc_query.go:59-67 | conversions and sums are the value modulo 2^64 in the signed range |
| TaskQuery.WindowIs | mychain/x/taskreg/keeper/grpc_query.go:56-71 | the window's length and its entries by position |
| TaskQuery.WindowsTile | mychain/x/taskreg/keeper/grpc_query.go:56-71 | consecutive windows of any limit of at least 1 concatenate to the full list |
| TaskQuery.FullWindowsStable | mychain/x/taskreg/keeper/msg_server.go:26-37 | while the counter exceeds every id, CreateTask leaves every full window unchanged |
| TaskServer.QueryServer.Task | mychain/x/taskreg/keeper/grpc_query.go:25-40 | nil request refused, unknown task reported, unreadable record a panic, else the record |
| TaskServer.QueryServer.ListTasks | mychain/x/taskreg/keeper/grpc_query.go:42-80 | nil request refused, else on any store the window of the scan, or a panic exactly for an unreadable record or bounds out of range |
| KVTx.ParsePrint | abci-kvstore/app.go:82-84 | parsing recovers a printed pair exactly when the key is non-empty and has no '=' |
| KVTx.PrintParse | abci-kvstore/app.go:118-121 | every valid transaction rejoins to itself |
| KVTx.ValidIffPrinted | abci-kvstore/app.go:118-121 | isValidTx accepts exactly the printed forms of such keys |
| KVTx.StagedKeysPrintable | abci-kvstore/app.go:75-86 | every staged pair is the parse of a transaction of the block |
| KVTx.StageConcat | abci-kvstore/app.go:70-90 | staging a list of transactions is staging its parts in order |
| KVTx.StageOne | abci-kvstore/app.go:74-87 | one transaction stages its pair if it is valid and nothing otherwise |
| KVTx.PrintForm | api-backend/client/kvstore.go:27 | the printed form has the character '=' between key and value |
| KVStore.LastWriteIs | abci-kvstore/state.go:62-77 | the last write to a key is the last pair with that key |
| KVStore.ApplyPairsAt | abci-kvstore/state.go:62-77 | after a batch each key holds the batch's last write to it, or what it held |
| KVStore.BatchIdempotent | abci-kvstore/state.go:62-77 | applying a batch twice is applying it once |
| KVStore.LoadSaved | abci-kvstore/state.go:79-126 | LoadMeta returns what SaveMeta stored, for every int64 height |
| KVStore.SaveMetaKeepsUser | abci-kvstore/state.go:79-93 | SaveMeta changes neither the user map nor the hash pre-image |
| KVStore.MetaForm | abci-kvstore/state.go:79-93 | the metadata as bytes under their literal names, the height in two's complement |
| KVStore.UserMapIs | abci-kvstore/state.go:138-142 | the user map is the whole database but for exactly the two metadata keys |
| KVStore.State.BatchSet | abci-kvstore/state.go:62-77 | the loop's whole new database |
| KVStore.State.LoadMeta | abci-kvstore/state.go:95-126 | the metadata, or the two ways loading is fatal |
| KVStore.State.Hash | abci-kvstore/state.go:128-151 | the digest of the sorted non-metadata keys each followed by its value |
| KVApp.NewKVStoreApp | abci-kvstore/app.go:20-31 | starts exactly when the metadata loads, with that height and hash and nothing staged |
| KVApp.KVStoreApp.FinalizeBlock | abci-kvstore/app.go:70-90 | stages exactly the parsed valid transactions in order, replacing what was staged, with aligned result codes |
| KVApp.KVStoreApp.Commit | abci-kvstore/app.go:92-106 | the batch, the hash of the result, the metadata, and an emptied stage |
| KVApp.KVStoreApp.Query | abci-kvstore/app.go:44-59 | the stored value or code 1 |
| KVProtocol.CleanUserMap | abci-kvstore/app.go:70-106 | after k blocks the user map is the in-order fold of their valid writes |
| KVProtocol.ChainContents | abci-kvstore/app.go:70-106 | after k blocks every key but the two metadata keys is in the database exactly when a valid transaction wrote it, with the last value written |
| KVProtocol.ChainHash | abci-kvstore/state.go:128-151 | the app hash after k blocks digests exactly those keys in increasing order, each followed by that value |
| KVProtocol.PartitionIndependence | abci-kvstore/app.go:70-106 | splitting the same transactions into blocks differently changes neither user map nor pre-image nor app hash |
| KVProtocol.CrashReplay | abci-kvstore/app.go:20-31 | in every reachable state with any crashes, restart succeeds at the last sealed height and redelivery ends exactly in the crash-free application |
| KVProtocol.RestartSafeIff | abci-kvstore/state.go:95-126 | restarts report the last sealed height in every reachable state exactly when each block is height-safe |
| KVProtocol.RestartMetaIff | abci-kvstore/state.go:62-126 | restarts report the last sealed height and its hash in every reachable state exactly when each block's last metadata writes repeat them |
| KVProtocol.HeightKeyWriteIsFatal | abci-kvstore/state.go:12-15 | a first-block transaction naming the height key is harmless without a crash and fatal with one |
| KVProtocol.VisibleState | abci-kvstore/app.go:44-59 | between blocks queries see no other user map than that of the reported height or, after a crash in a commit, of the next |
| KVProtocol.VisibleStateIff | abci-kvstore/app.go:44-106 | on height-safe chains they see that of the reported height in every reachable state exactly when each block's last write to every user key repeats what earlier blocks left |
| KVProtocol.StaleHeightWitness | abci-kvstore/app.go:92-106 | a run that ends between blocks at height 0 and serves the first block's value |
| KVReplay.NeverFatalIff | abci-kvstore/state.go:95-126 | the application can start again from every reachable state exactly when no block's last height write is too short to read and the first block writes a hash if it writes a height |
| KVReplay.NeverAheadIff | abci-kvstore/state.go:95-126 | in no reachable state does a restart resume past the block in hand exactly when no block leaves a readable height above its own, a first block without a hash counting only if a later block leaves height zero |
| KVReplay.ReplayConverges | abci-kvstore/app.go:20-31 | under that condition, in every reachable state redelivery from the height a restart loads gives the crash-free user map, which is there whenever all blocks are delivered |
| KVReplay.HeightSafeIsNeverAhead | abci-kvstore/state.go:12-15 | that condition is implied by height safety |
| KVReplay.AheadSkips | abci-kvstore/state.go:95-126 | if block index k leaves a readable height h of at least k + 2, a run after one crash counts all blocks as delivered and has the user map of the chain without the indices k + 1 to h - 1 |
| KVReplay.SkippedBlockWitness | abci-kvstore/state.go:12-15 | a chain and run where all blocks count as delivered and a committed key is missing |
| BountyContract.PayoutExact | contracts/task-bounty/src/contract.rs:108-115 | with a fee of at most 100 the arithmetic fails exactly when the first product exceeds 128 bits, and fee plus net is gross |
| BountyContract.TwoRoundings | contracts/task-bounty/src/contract.rs:108-115 | the two-step fee is the single-division fee or one less, with the exact condition |
| BountyContract.NetIsZeroIff | contracts/task-bounty/src/contract.rs:108-115 | the claimer's share is zero exactly when the product is below 100 or the fee is 100 |
| BountyContract.TaskBounty.Instantiate | contracts/task-bounty/src/contract.rs:19-42 | configuration or error, in the source's order |
| BountyContract.TaskBounty.ExecuteFundBounty | contracts/task-bounty/src/contract.rs:62-94 | storage and reply, each error in the source's order |
| BountyContract.TaskBounty.ExecuteClaimBounty | contracts/task-bounty/src/contract.rs:96-146 | storage and sends, each error in the source's order, nothing written on failure |
| BountyContract.TaskBounty.ExecuteUpdateFee | contracts/task-bounty/src/contract.rs:148-165 | storage and reply |
| BountyContract.TaskBounty.ExecuteAddBonus | contracts/task-bounty/src/contract.rs:167-186 | storage and reply |
| BountyContract.TaskBounty.ListBounties | contracts/task-bounty/src/contract.rs:193-204 | the first bounties past the cursor by increasing id, up to the effective limit, none skipped |
| BountyRuns.RunKeeps | contracts/task-bounty/src/contract.rs:62-186 | in every run records stay, funder, amount and denomination never change, claimed and claimer latch, the fee stays at most 100 |
| BountyRuns.PaidOnce | contracts/task-bounty/src/contract.rs:101-119 | in every run a bounty is paid exactly as often as its flag was raised, so at most once |
| BountyRuns.RunConserves | contracts/task-bounty/src/contract.rs:121-136 | no run creates or destroys coins of any denomination |
| BountyLedger.Refusals | contracts/task-bounty/src/contract.rs:62-186 | exactly when each message is answered with each error |
| BountyLedger.InstantiateAnswers | contracts/task-bounty/src/contract.rs:19-42 | exactly when instantiation succeeds or is refused, and the configuration it stores |
| BountyLedger.StepGoesIff | contracts/task-bounty/src/contract.rs:62-186 | exactly when each event goes through, attached funds included, and that otherwise nothing changes |
| BountyLedger.StepStores | contracts/task-bounty/src/contract.rs:62-186 | what an event that goes through leaves of the configuration and of every record |
| BountyLedger.StepBalance | contracts/task-bounty/src/contract.rs:108-136 | an event changes every account by exactly what its sender moves; a claim pays the claimer the net and the fee collector the fee out of the contract, and no one else |
| BountyLedger.RunBalance | contracts/task-bounty/src/contract.rs:96-146 | over every run an address other than the contract receives from it exactly the nets of its own claims, and all fees if it is the collector |
| BountyHistory.StorageHistory | contracts/task-bounty/src/contract.rs:19-186 | from instantiation over every run: admin and collector stay, the fee is the last the admin validly set; a bounty exists exactly when validly funded, and its record is the first funding, the admin's last bonus since (else 100) and the claim since |
| BountySolvency.EscrowChange | contracts/task-bounty/src/contract.rs:62-186 | funding locks exactly what it brings, a claim unlocks exactly what was locked for it, nothing else touches the escrow, for any multiplier |
| BountySolvency.RunSurplus | contracts/task-bounty/src/contract.rs:62-186 | over every run, with any multipliers, balance less escrow changes by exactly the transfers and unlocked funds received less what claims cost beyond their escrow, the contract as its own fee collector included |
| BountySolvency.CoveredIff | contracts/task-bounty/src/contract.rs:167-186 | from instantiation the escrow is covered after a run exactly when those costs do not exceed the starting balance plus that income in every denomination |
| BountySolvency.Solvent | contracts/task-bounty/src/contract.rs:62-186 | from instantiation, while every multiplier set is at most 100, the balance covers all unclaimed amounts and all possible claims, in every denomination |
| BountySolvency.ClaimSucceedsIff | contracts/task-bounty/src/contract.rs:96-146 | exactly when a claim message goes through, with no restriction on multipliers |
| BountySolvency.CoveredClaimSucceedsIff | contracts/task-bounty/src/contract.rs:96-146 | in a covered state only a 128-bit overflow or a refused zero send can stop the claim of an unclaimed bounty |
| BountySolvency.AllClaimsPayIff | contracts/task-bounty/src/contract.rs:96-146 | for each order of claiming all unclaimed bounties and any multipliers: all go through if none fails by its own arithmetic or a refused zero send and the balance reaches their total payout in every denomination; exactly then when the fee collector is another address |
| BountySolvency.EveryOrderPaysIff | contracts/task-bounty/src/contract.rs:96-146 | whoever collects the fees, every order goes through exactly when none fails by its own arithmetic or a refused zero send and, for each bounty, the balance covers what all claims cost the contract and the part of that bounty's fee it collects itself |
| BountySolvency.BonusTakesOtherEscrow | contracts/task-bounty/src/contract.rs:167-186 | a run in which a claim with a bonus of 200 percent empties the contract and another bounty's claim then fails |
| BountyPaging.PagingComplete | contracts/task-bounty/src/contract.rs:193-204 | a paging session with arbitrary runs between pages returns strictly increasing ids including every bounty present at its start |
| BountyPaging.ServedPage | contracts/task-bounty/src/contract.rs:193-204 | what ListBounties promises of its page on a well-formed contract is what such a session requires of each request |

## Left out

- TaskMessages.GenesisRef.Marshal: requires that each task's own encoding is shorter than 2^64 bytes, because a Go byte slice cannot be longer.
- TaskMessages.TaskRef.MarshalTo: the identical copies of this method and of MarshalToSizedBuffer on the other messages are not repeated.
- TaskMessages.TaskRef.Unmarshal: one turn of the loop is a method of its own, shared cases for the string and the varint fields; the other message types likewise.
- TaskServer.QueryServer.ListTasks: requires that the number of tasks fits a Go int.
- KVProtocol.CrashReplay: takes height-safe chains; RestartSafeIff shows that the reported height is wrong in some reachable state otherwise, and KVReplay.ReplayConverges keeps the user map, not the intermediate hashes, under a weaker hypothesis.
- KVReplay.ReplayConverges: its hypothesis is exact for no restart resuming too far ahead, by NeverAheadIff; whether the blocks that AheadSkips then misses change the user map depends on what they write.
- BountySolvency.AllClaimsPayIff: for a contract that collects its own fees the condition for a single order is only sufficient; EveryOrderPaysIff is exact for all orders together.
- KVStore.State.BatchSet: database errors, key-size limits and reserved key prefixes of the database, after which Commit only logs, are not modelled.
- BountyContract.TaskBounty.Instantiate: the contract-version record and attributes are not stored.
- Go int overflow of Size for messages near 2^63 bytes.
- MsgCreateTaskResponse and the query message codecs: they repeat the codecs above; two embed SDK pagination types that are not part of this model.
- Message ValidateBasic and signature checks: handlers are modelled for any message fields.
- JSON genesis, events, logging, gas, error texts.
- Everything under api-backend except the transaction format (api-backend/client/kvstore.go:27), and the wiring under mychain/app and mychain/cmd.
- PrepareProposal and ProcessProposal of the key-value application: pass-through.
- The Config and Bounty queries of the contract: plain lookups.
- Durability of a database transaction under operating-system failure: every finished transaction is taken as durable.
