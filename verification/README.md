# Injective core: verified model

A Dafny model of the parts of Injective's node and bridge orchestrator whose correctness is
hardest to see from the code. `dafny verify dfyconfig.toml` checks all of it.

## What is modelled

**The Peggo oracle.** One pass of the oracle loop reads Ethereum's bridge events in a window
of confirmed blocks and submits the next unclaimed ones to Injective. `Oracle` is that pass,
with its retries, its shrinking and growing window and its partly failed sends, against
networks where any call may fail. Each pass is proved to be a step of the state machine in
`OracleProtocol`. `OracleRuns` and `OracleProgress` speak about every run of that machine:
passes, restarts, claims that get recorded late, claims whose broadcast reported an error and
that are recorded all the same, and claims whose broadcast succeeded and that are never
recorded (a successful broadcast only means that the message passed its first check). What a
theorem needs of these it says as a condition, and the exact conditions are proved.
`EthLog` holds the facts about height windows of an event log.

Assumed of the environment: event nonces are 1, 2, 3, ... and block heights do not decrease
with the nonce; blocks that are twelve deep do not change, so the log is the one that ends up
confirmed; Injective accepts only the event right after the validator's last claim, and no later
event lies below the height stored with that claim. Heights are 64-bit: the sum of the recorded
height and the query range wraps as it does in Go, and what depends on it says so.

**The wire codec.** The generated marshalling code of `TxResult`, `ExtensionOptionsWeb3Tx`,
`TxResponseGenericMessage` and `TxResponseData`, which follows the Protocol Buffers encoding
guide (base-128 varints, message structure, last one wins, groups). `WireVarint`,
`WireMessages` and `WireEncoding` say what the bytes mean and prove the laws; `WireGrammar`
proves which byte strings are accepted, and `WireCanonical` that an encoding is the one
canonical form of its message; `WireMarshal`
fills arrays back to front through an index; `WireUnmarshal` runs the decode loops, with
wrapping 64-bit index arithmetic, on classes that hold the message. The bitwise or that
accumulates a varint is defined bit by bit, and proved to be a sum because the groups never
overlap. Byte strings of 2^63 bytes or more are excluded, as a Go slice cannot hold them.

**The relayer.** `ValsetSearch` is the backward search for the latest validator set on
Ethereum and `Valsets` the comparison of two validator sets by sorting both in place.

**The ante handler.** `AuthzLimiter` is the check of nested authz messages, `MultisigGas` the
gas of nested multisignatures, `Eip712` and `FeeAnte` the choice of the fee payer and the
signature checks of Web3 transactions, on top of the balances in `Bank`. Bech32, typed-data
encoding, hashing and curve arithmetic are function-valued parameters. Other decorators, the
fee checker and the fee-grant keeper are answers given with each request. That the writes of a
rejected transaction are discarded is assumed of the SDK, which runs the handler on a branch of
the store; the model restores the balances itself.

**The EVM indexer.** `IndexerService` is the service loop, `IndexCommands` the two commands
that fill the index offline, and `IndexHistory` what any history of them leaves behind,
sessions that skip or fail to index a block included. The store knows a height only by the
keys its Ethereum transactions leave.

**Command-line arguments.** `CliArgs` is the count of arguments a generated command declares,
`CliParser` the walk that hands the arguments out, and `CliDesk` that walk as a function, with
the exact condition under which every argument goes to one leaf.

**The 256-bit bound.** `WordBound` is the word-count shortcut in front of the bit-length test.

`Sorting`, `Strings`, `MachineWords` and `Options` are shared.

## Where the code and its documentation differ

- The comment on `CheckDisabledMsgs` speaks of a limit on the total number of messages; the
  code limits the depth of nesting (`WideExecAccepted`).
- `CheckDisabledMsgs` never looks up the type of MsgExec and MsgGrant themselves
  (`NoDisabledTypeInsideIff`).
- The help text of `index-eth-tx` says that two directions suffice to avoid gaps, and that the
  service starts so as to avoid them. The commands never leave one between the first and the
  last key; a service session that loses a height can, and nothing fills it later
  (`FailedBlockLeavesGap`, `RunGaplessIff`). The indexed heights as such form one interval only
  if every block carries an Ethereum transaction (`SingleIntervalIff`).
- The documentation of the commands promises the next unconsumed argument. An argument that the
  cursor gave out is given out again to a leaf mapped to it (`LateMappingDoubles`,
  `OneEachIff`).
- A claim that was broadcast successfully may never be included. The oracle then records a
  height above an unclaimed event, and goes back when it finds the gap (`LostClaimIsMissed`,
  `RunNeverSkipsIff`, `RecoversIff`).
- Claims of one batch are sent without waiting for the one before to be included, so a claim
  can be ahead of the chain's last one by more than one (`NextClaimSentEarly`,
  `RunSubmitsNextIff`).
- The windowed search never looks at block 0 when the head is block 0
  (`GenesisHeadIsNotSearched`, `FindLatestEvent`).
- Events in the confirmed block itself can stay unclaimed while no newer block is confirmed
  (`BlockAtConfirmedHeightMayWait`), exactly if the batch that reached it was cut to twenty
  (`SteadyRunClaimsAllIff`).

## Model

| member | source | states |
|---|---|---|
| OracleProtocol.StartEstablishes | peggo/orchestrator/orchestrator.go:87-95 | the start-up height lies at or below every unclaimed event, whether or not the last claim could be read |
| OracleProtocol.PassKeeps | peggo/orchestrator/oracle.go:92-167 | a pass from a state that skipped nothing never takes the missed-event branch, and keeps all unclaimed events at or above the recorded height if the successes it reports are recorded |
| OracleProtocol.PassKeepsIff | peggo/orchestrator/oracle.go:153-167 | every pass but a successful send keeps them ahead whatever is lost; a successful send does exactly if the batch's events in lower blocks than its last one are claimed |
| OracleProtocol.MissedIff | peggo/orchestrator/oracle.go:118-151 | from any state, a pass that scans ends in the missed-event branch exactly if the last claim it read lies below the events under its start and the window holds later ones |
| OracleProtocol.MissedRestores | peggo/orchestrator/oracle.go:141-151 | the missed-event branch is taken only if an event was skipped, and repairs the recorded height from any state |
| OracleProtocol.LostClaimIsMissed | peggo/orchestrator/cosmos/peggy/broadcast.go:39-42 | a broadcast that succeeds and is never included makes the next pass start above an unclaimed event, which it notices and repairs |
| OracleRuns.RunNeverSkips | peggo/orchestrator/oracle.go:56-168 | in every run, with restarts and late claims, whose reported successes are recorded by the end of their pass, no event is ever skipped and the missed-event branch is never taken |
| OracleRuns.RunNeverSkipsIff | peggo/orchestrator/oracle.go:56-168 | no event is skipped at any point of a run if and only if at the end of every successful send its batch is claimed, but for the events in the block of the last one |
| OracleRuns.RunSkipsOnlyAfterLoss | peggo/orchestrator/oracle.go:56-168 | in every run, lossy ones included, an event is skipped only after a reported success that was not recorded, and only until the next restart or missed-event pass |
| OracleRuns.RunClaimsWhatItPasses | peggo/orchestrator/oracle.go:56-168 | at any point of a run whose reported successes are recorded every event in a block below the recorded height has been claimed |
| OracleRuns.RunSendsInSequence | peggo/orchestrator/oracle.go:118-153 | over a whole run, whatever height was recorded and whatever was lost or landed late, the attempts follow one another on the chain and each sends the events right after the nonce it reloaded, up to its first failure |
| OracleRuns.SubmittedNextIff | peggo/orchestrator/oracle.go:291-310 | a claim is ahead of the chain by the number of the attempt's earlier claims that were not taken less the number of claims that landed since the reload, so it is the next one exactly if the two agree, and it is never ahead if reported successes are recorded at once |
| OracleRuns.AttemptNextIff | peggo/orchestrator/oracle.go:291-310 | every claim of an attempt is the chain's next one if and only if the chain records nothing up to the first send and one claim from each send to the next |
| OracleRuns.NextClaimSentEarly | peggo/orchestrator/cosmos/peggy/broadcast.go:39-42 | a broadcast returns before its claim is included, so the next one can be sent ahead of the chain, although all are recorded and nothing is skipped |
| OracleRuns.RunSubmitsNextIff | peggo/orchestrator/oracle.go:287-317 | over a whole run every claim carries the chain's last claimed nonce plus one if and only if exactly one claim is recorded from each send to the next; with successes recorded at once, if and only if nothing else is recorded during an attempt |
| OracleProgress.WindowEndBounds | peggo/orchestrator/oracle.go:100-104 | the window ends at or below the confirmed height, and above the recorded one if and only if the 64-bit sum does not wrap; then it covers the query range or all the blocks left |
| OracleProgress.PassKeepsRange | peggo/orchestrator/oracle.go:92-178 | the query range stays between 1 and 100 and the scanned end stays above the recorded and at or below the confirmed height |
| OracleProgress.PassProgresses | peggo/orchestrator/oracle.go:92-167 | with working networks and recorded successes each pass strictly decreases unclaimed events plus blocks left to scan |
| OracleProgress.SteadyRunClaims | peggo/orchestrator/oracle.go:92-167 | after at most that many passes at a confirmed height every event in a lower block is claimed |
| OracleProgress.CutLeavesUnclaimedIff | peggo/orchestrator/oracle.go:136-139 | a pass that sends up to the confirmed block leaves nothing unclaimed if and only if its batch was not cut to twenty |
| OracleProgress.SteadyRunClaimsAllIff | peggo/orchestrator/oracle.go:92-167 | from the pass that reaches the confirmed height on, every event up to and including the confirmed block is claimed if and only if that pass did not cut its batch |
| OracleProgress.SteadyRunReaches | peggo/orchestrator/oracle.go:92-167 | such a pass comes within as many passes as the measure says |
| OracleProgress.RecoversIff | peggo/orchestrator/oracle.go:141-151 | from any state, within as many working passes as there are blocks to scan, what was skipped is found if and only if an event at or above the recorded height is confirmed or the lost claims landed after all |
| OracleProgress.SteadyRunClaimsFromAnywhere | peggo/orchestrator/oracle.go:92-167 | and then, from any state, every event in a lower block is claimed in a bounded number of passes |
| OracleProgress.BlockAtConfirmedHeightMayWait | peggo/orchestrator/oracle.go:92-139 | with 21 events in the confirmed block one stays unclaimed and all further passes idle |
| EthLog.KindsPartitionWindow | peggo/orchestrator/oracle.go:188-243 | the four per-kind queries together return each event of the window exactly once |
| EthLog.WindowIsSlice | peggo/orchestrator/oracle.go:180-250 | a height window of the log is a contiguous run of nonces |
| EthLog.FilterThenSort | peggo/orchestrator/oracle.go:118-121 | collecting a window in any order, dropping claimed events and sorting by nonce gives the unclaimed slice of the log |
| Oracle.KeepNewer | peggo/orchestrator/oracle.go:354-362 | keeps exactly the events newer than the nonce, in order |
| Oracle.NextBatch | peggo/orchestrator/oracle.go:118-139 | from the scanned events in any order, the next unclaimed events of the window in log order, at most twenty |
| Oracle.Networks.Send | peggo/orchestrator/cosmos/peggy/broadcast.go:266-276 | whatever the broadcast reports, the chain takes the claim only if it is for the event right after the last one, and may not take it; earlier claims may land first |
| Oracle.EthOracle.constructor | peggo/orchestrator/orchestrator.go:87-95 | starts at the height of the last claim if that could be read and is not zero, else at the bridge's first block, with the default range |
| Oracle.EthOracle.ResetQueryRange | peggo/orchestrator/oracle.go:170-178 | doubles the range up to 100 blocks |
| Oracle.EthOracle.ScanOnce | peggo/orchestrator/oracle.go:188-243 | succeeds only with all events of the window; a failed deposit query shrinks the window to one block |
| Oracle.EthOracle.GetEthEvents | peggo/orchestrator/oracle.go:180-250 | whatever failures precede success, returns exactly the events of the blocks from start to the reported end, which lies above start and never past the end asked for; fails only if ten attempts did |
| Oracle.EthOracle.GetLatestEthHeight | peggo/orchestrator/oracle.go:252-271 | returns a head that Ethereum reported during the call, the first after at most nine failed attempts, and fails only if ten attempts did |
| Oracle.EthOracle.SendOnce | peggo/orchestrator/oracle.go:291-310 | sends the batch's events after the reloaded nonce one by one up to the first failure, while claims may land or get lost; success means that it got through the batch |
| Oracle.EthOracle.SendNewEventClaims | peggo/orchestrator/oracle.go:287-317 | the same over all retries, each of which reloads the last claim; fails only if ten attempts did |
| Oracle.EthOracle.RelayEvents | peggo/orchestrator/oracle.go:118-167 | the second half of a pass refines the protocol's relay relation; a missed event sets the recorded height back to the last claim's |
| Oracle.EthOracle.ObserveEthEvents | peggo/orchestrator/oracle.go:56-168 | one pass of the loop is one step of the state machine over the blocks up to twelve below the head read in this very pass, and its submissions are those of the step; it stays idle only outside the active set, after ten failed attempts at a call, or without a confirmed block above the recorded one |
| Oracle.Drive | peggo/orchestrator/oracle.go:30-43 | any number of passes, restarts and landing claims is a run of the state machine that starts with nothing skipped, and the network receives exactly the claims of the run |
| WireVarint.SovIsLength | injective-chain/types/indexer.pb.go:216-218 | the size formula equals the number of bytes written, for every value |
| WireVarint.PutVarintWellFormed | injective-chain/types/indexer.pb.go:175-185 | a 64-bit value is written as a well-formed varint of that value |
| WireCanonical.MinimalIff | injective-chain/types/indexer.pb.go:175-185 | of all spellings of a number the one written is the only one without padding |
| WireVarint.GetVarintAt | injective-chain/types/indexer.pb.go:227-241 | wherever a well-formed varint stands, also a padded one, it is read as its value and its length |
| MachineWords.BitOrDisjoint | injective-chain/types/indexer.pb.go:237 | the bitwise or of a number of at most n bits and one shifted by n is their sum |
| WireVarint.OrShiftedTruncates | injective-chain/types/indexer.pb.go:235-237 | or-ing shifted groups into a fixed-width integer gives the exact value modulo its width |
| WireVarint.ReadVarint | injective-chain/types/indexer.pb.go:227-241 | the byte loop reads the specified varint, truncated to the field's width, or fails as specified, on every byte string |
| WireMessages.DecodeConcat | injective-chain/types/indexer.pb.go:222-405 | decoding a concatenation is decoding the second part into the result of the first |
| WireEncoding.TxResultMerges | injective-chain/types/indexer.pb.go:222-405 | decoding an encoding into any message overwrites exactly the fields present |
| WireEncoding.TxResultRoundTrip | injective-chain/types/indexer.pb.go:112-405 | decoding an encoding into a fresh message is the identity, negative values included |
| WireEncoding.Web3TxRoundTrip | injective-chain/types/tx_ext.pb.go:99-312 | the same for ExtensionOptionsWeb3Tx |
| WireEncoding.GenericRoundTrip | injective-chain/types/tx_response.pb.go:168-391 | the same for a nested message |
| WireEncoding.DataAppends | injective-chain/types/tx_response.pb.go:392-475 | decoding an encoded list appends it in order to the messages already there |
| WireEncoding.DataConcatenates | injective-chain/types/tx_response.pb.go:168-475 | decoding the concatenation of two encodings yields the concatenated list |
| WireEncoding.FieldPasses | injective-chain/types/indexer.pb.go:406-483 | the skip loop moves over exactly the bytes of any well-formed field, groups nested to any depth included, wherever it stands and at any depth |
| WireEncoding.SkipReturnsLength | injective-chain/types/indexer.pb.go:406-483 | skipping returns exactly the field's length |
| WireEncoding.UnknownFieldIgnored | injective-chain/types/indexer.pb.go:385-398 | inserting any well-formed unknown field at a field boundary leaves the decoded message, or the rejection, unchanged |
| WireGrammar.EffectsDecode | injective-chain/types/indexer.pb.go:222-405 | a sequence of well-formed fields whose known ones have the right wire type is accepted, and the message is what storing the known fields in order leaves |
| WireGrammar.GroupRead | injective-chain/types/indexer.pb.go:406-483 | where the loop that only counts open groups comes to an end, the bytes it passed are the nested fields of the innermost group and the tag that closes it |
| WireGrammar.SkippedIsField | injective-chain/types/indexer.pb.go:406-483 | whatever is skipped as one field is a well-formed field, groups nested to any depth included |
| WireGrammar.AcceptedIff | injective-chain/types/indexer.pb.go:222-405 | for all four messages: a byte string decodes to a message if and only if it can be read as admissible fields that have this effect; so a wrong wire type, an illegal number, a cut field or a group left open is always rejected |
| WireCanonical.EncodingIsCanonical | injective-chain/types/indexer.pb.go:127-173 | the encoding of TxResult, ExtensionOptionsWeb3Tx or a nested message is a list of well-formed fields in strictly ascending order of their numbers, with shortest varints, values of the field's type, none of them zero, and true as 1 |
| WireCanonical.CanonicalUnique | injective-chain/types/indexer.pb.go:127-405 | any byte string of that form that decodes to a message is the encoding of that message |
| WireCanonical.DataIsCanonical | injective-chain/types/tx_response.pb.go:205-225 | the encoding of a list is one field 1 for every message, in order, with shortest varints around a canonical message |
| WireCanonical.DataUnique | injective-chain/types/tx_response.pb.go:205-475 | any byte string of that form that decodes to a list is the encoding of that list |
| WireCanonical.TxResultNumbers | injective-chain/types/indexer.pb.go:127-173 | each field of TxResult goes under its own tag, 0x08 to 0x38, and a zero message is empty |
| WireCanonical.OptionNumbers | injective-chain/types/tx_ext.pb.go:114-139 | the same for ExtensionOptionsWeb3Tx, with tags 0x08, 0x12 and 0x1a |
| WireCanonical.MessageNumbers | injective-chain/types/tx_response.pb.go:168-188 | the same for a nested message, with tags 0x0a and 0x12 |
| WireCanonical.ListNumbers | injective-chain/types/tx_response.pb.go:205-225 | the same for a list: tag 0x0a and a length in front of each message |
| WireMarshal.EncodeVarint | injective-chain/types/indexer.pb.go:175-185 | writes the varint so that it ends at the offset and leaves everything behind it alone |
| WireMarshal.SizeTxResult | injective-chain/types/indexer.pb.go:186-214 | the computed size is the length of the encoding |
| WireMarshal.SizeWeb3Tx | injective-chain/types/tx_ext.pb.go:152-170 | the computed size is the length of the encoding |
| WireMarshal.SizeData | injective-chain/types/tx_response.pb.go:255-268 | the computed size is the length of the encoding, nested sizes included |
| WireMarshal.MarshalTxResult | injective-chain/types/indexer.pb.go:127-173 | fills the end of the buffer with the encoding, back to front, and returns its length; which bytes these are say EncodingIsCanonical and TxResultNumbers |
| WireMarshal.MarshalWeb3Tx | injective-chain/types/tx_ext.pb.go:114-139 | the same for ExtensionOptionsWeb3Tx |
| WireMarshal.MarshalGeneric | injective-chain/types/tx_response.pb.go:168-188 | the same for a nested message |
| WireMarshal.MarshalData | injective-chain/types/tx_response.pb.go:205-225 | the same for the list, walked backwards with each message behind its own length |
| WireUnmarshal.SkipField | injective-chain/types/indexer.pb.go:406-483 | the skip loop terminates on every byte string, never reads out of bounds and returns what is specified |
| WireUnmarshal.TxResultMessage.Marshal | injective-chain/types/indexer.pb.go:112-120 | the fill of a buffer of the computed size ends at offset zero |
| WireUnmarshal.TxResultMessage.Unmarshal | injective-chain/types/indexer.pb.go:222-405 | on every byte string terminates with the specified message or error |
| WireUnmarshal.Web3TxMessage.Marshal | injective-chain/types/tx_ext.pb.go:99-107 | the fill of a buffer of the computed size ends at offset zero |
| WireUnmarshal.Web3TxMessage.Unmarshal | injective-chain/types/tx_ext.pb.go:178-312 | on every byte string terminates with the specified message or error |
| WireUnmarshal.GenericMessageMessage.Unmarshal | injective-chain/types/tx_response.pb.go:276-391 | on every byte string terminates with the specified message or error |
| WireUnmarshal.TxResponseDataMessage.Marshal | injective-chain/types/tx_response.pb.go:190-198 | the fill of a buffer of the computed size ends at offset zero |
| WireUnmarshal.TxResponseDataMessage.Unmarshal | injective-chain/types/tx_response.pb.go:392-475 | on every byte string terminates with the specified message or error, nested messages included |
| Strings.StringTotal | peggo/orchestrator/ethereum/util/peggy.go:29-32 | with StringIrreflexive and StringTransitive: the byte order of addresses is a strict total order |
| Strings.StringLessIff | peggo/orchestrator/ethereum/util/peggy.go:29-32 | a proper start of a string comes before it, and else the first difference decides |
| Valsets.SortedFormsAgree | peggo/orchestrator/relayer.go:467-475 | two member lists have the same sorted form exactly when they are rearrangements of each other |
| Valsets.SortMembers | peggo/orchestrator/relayer.go:467-475 | sorts the members in place: the greater power first, and members of equal power by address; nothing is lost or added |
| Valsets.CheckIfValsetsDiffer | peggo/orchestrator/relayer.go:423-462 | reports nothing exactly in the bootstrapping case or when nonces agree and the members are equal as multisets; members are only rearranged |
| Valsets.HasDuplicates | peggo/orchestrator/relayer.go:478-484 | says whether two members share an address |
| ValsetSearch.NewestOf | peggo/orchestrator/relayer.go:372-381 | the first event after sorting has the greatest nonce of the window |
| ValsetSearch.FindLatestEvent | peggo/orchestrator/relayer.go:353-401 | the windowed search terminates; it agrees with a scan of all blocks if and only if the head is positive or block 0 holds no event, and finds the greatest nonce if and only if no older window holds a greater one than the newest with an event |
| ValsetSearch.GenesisHeadIsNotSearched | peggo/orchestrator/relayer.go:353-355 | in every log with an event in block 0 the answer not found, which the search gives at head 0, is wrong for every head |
| ValsetSearch.OlderWindowMayHoldGreatestNonce | peggo/orchestrator/relayer.go:353-381 | a log where the search stops in a window whose nonces are not the greatest |
| ValsetSearch.FindLatestValset | peggo/orchestrator/relayer.go:334-402 | the set returned has the event's nonce and members, and the comparison is silent exactly when Injective's set matches it |
| AuthzLimiter.DisabledSet | injective-chain/app/ante/authz_limiter.go:24-33 | the set holds exactly the configured types |
| AuthzLimiter.AcceptedIff | injective-chain/app/ante/authz_limiter.go:46-78 | a forest of messages is accepted if and only if every payload unpacks, no exec is nested 50 deep, no grant at any depth names a disabled type, and no disabled message is executed inside an exec |
| AuthzLimiter.RejectedAt | injective-chain/app/ante/authz_limiter.go:46-78 | a rejection can be traced to one message that is not allowed |
| AuthzLimiter.InnerCheckIsStricter | injective-chain/wasmbinding/message_plugin.go:77-81 | acceptance with the inner flag set implies acceptance with it clear |
| AuthzLimiter.WideExecAccepted | injective-chain/app/ante/authz_limiter.go:42-49 | one exec may carry any number of messages: the limit is on depth |
| AuthzLimiter.NestingLimit | injective-chain/app/ante/authz_limiter.go:46-58 | n nested MsgExecs are accepted if and only if n is less than 50 |
| AuthzLimiter.NoDisabledTypeInsideIff | injective-chain/app/ante/authz_limiter.go:46-85 | no message of a disabled type is executed inside an accepted exec if and only if neither MsgExec nor MsgGrant is among the disabled types |
| MultisigGas.StepCost | injective-chain/app/ante/ante.go:261-286 | a set bit adds the cost of the leaves under its key and the signature at the bit's rank |
| MultisigGas.RankCounts | injective-chain/app/ante/ante.go:266-283 | the rank of a position is the number of set bits before it |
| MultisigGas.RanksAreConsecutive | injective-chain/app/ante/ante.go:266-283 | over the set bits, in order, the signature indices are 0, 1, 2, ... without gap or repetition |
| MultisigGas.SignaturesInOrder | injective-chain/app/ante/ante.go:266-283 | walking the bits pairs signature k with the key of the k-th set bit: well-formedness and the leaves charged for are the same as when read signature by signature |
| MultisigGas.LeavesAreKeys | injective-chain/app/ante/ante.go:226-258 | the signing leaves are single keys |
| MultisigGas.ConsumeSignatureGas | injective-chain/app/ante/ante.go:226-258 | succeeds if and only if the nested multisignature is well formed and the gas limit covers it, and then charges the sum over the signing leaf keys; a single key costs its parameter, or 21000 for an Ethereum key |
| MultisigGas.ConsumeMultisignatureGas | injective-chain/app/ante/ante.go:261-286 | succeeds if and only if there are keys and, in order, well-formed signatures for the set bits, and the gas limit covers their leaves |
| Bank.SendCoins | injective-chain/app/ante/fee.go:108-116 | succeeds exactly if nothing blocks it and every coin is there, then moves exactly the coins, changes no other balance and leaves none negative |
| Bank.LedgerConserves | injective-chain/app/ante/fee.go:108-130 | over any list of fee payments the holders' coins add up to the same total and the pool gains exactly what others paid |
| Eip712.CheckSignatures | injective-chain/app/ante/eip712.go:51-125 | accepts if and only if it is a recheck or every signer passes every check; what that means says PassesIff |
| Eip712.PassesIff | injective-chain/app/ante/eip712.go:75-260 | outside simulation a signer passes if and only if its account has a key and the signature's sequence number, the 65-byte signature verifies under that key for the typed data of this account, this chain and the options named, the option is for this chain, and a named delegate signed the same typed data |
| Eip712.AllPassMeansSigned | injective-chain/app/ante/eip712.go:75-190 | signatures that are accepted outside simulation are those of every signer |
| Eip712.VerifiedMeansDelegateSigned | injective-chain/app/ante/eip712.go:129-260 | a verified signer implies that the named delegate's signature was recovered from the same typed data, which names the delegate |
| FeeAnte.ConsentChecked | injective-chain/app/ante/eip712.go:160-180 | the fee decorator and the signature decorator, reading the option separately, agree on a payer who consented |
| FeeAnte.AnteHandler.DeductFees | injective-chain/app/ante/fee.go:108-130 | succeeds exactly if the fee is zero or valid and affordable, and moves it from the payer to the auction fee subaccount |
| FeeAnte.AnteHandler.DeductFee | injective-chain/app/ante/fee.go:36-103 | debits the delegate named by the first option, else the transaction's fee payer, with the fee that is due; the exact condition of success |
| FeeAnte.AnteHandler.CheckDeductFee | injective-chain/app/ante/fee.go:159-251 | debits the fee payer, or a fee granter whose grant allows it; the exact condition of success |
| FeeAnte.AnteHandler.Handle | injective-chain/app/ante/ante.go:132-218 | the exact condition of acceptance; given that the SDK discards the writes of a rejected transaction, such a one changes no balance although the fee is taken before signatures are checked; an accepted Web3 one that is neither simulated nor rechecked and has a signer debits its own fee payer or a delegate who signed for every signer; every signer of such a Web3 transaction signed it; the fee is the one the checker returned, or in simulation the one named |
| FeeAnte.AnteHandler.NormalAcceptedIff | injective-chain/app/ante/fee.go:159-251 | without options: accepted if and only if gas is given, the fee checker agreed, and the fee payer, or a granter whose grant allows it, has an account that covers the fee |
| FeeAnte.AnteHandler.Web3AcceptedIff | injective-chain/app/ante/eip712.go:51-260 | with a Web3 option and a signer, neither simulated nor rechecked: accepted if and only if the delegate, or without one the fee payer, covers the fee, every signer signed, and the delegate signed with each of them |
| FeeAnte.AnteHandler.HandleAll | injective-chain/app/ante/fee.go:36-251 | over any run of transactions coins are conserved and the auction fee subaccount gains exactly the fees others paid |
| IndexerService.StartHeight | injective-chain/server/indexer_service.go:84-100 | panics exactly on a gap that is not allowed, otherwise starts at 1 or above: at the later of last indexed and earliest block, or at the latest block if nothing is indexed |
| IndexerService.HandedAtMostOnce | injective-chain/server/indexer_service.go:117-138 | no height is handed over twice |
| IndexerService.NoGapMeansConsecutive | injective-chain/server/indexer_service.go:117-138 | without allowGap the heights handed over are consecutive from the start |
| IndexerService.EVMIndexerService.Begin | injective-chain/server/indexer_service.go:84-100 | establishes the start height while new headers arrive |
| IndexerService.EVMIndexerService.IndexHeight | injective-chain/server/indexer_service.go:118-137 | asks for the block and then its results; hands the height over exactly if both were found, passes over it exactly if one was not available and gaps are allowed, and stops the scan exactly on any other answer, with nothing changed; a height counts as missing only if the node said so |
| IndexerService.EVMIndexerService.Scan | injective-chain/server/indexer_service.go:112-141 | keeps the books; ends exactly at the first answer that stops it, or with every height up to the latest header handed over or passed over |
| IndexerService.EVMIndexerService.Serve | injective-chain/server/indexer_service.go:102-142 | over any interleaving of headers and fetch errors heights are handed over in strictly increasing order, and every height up to lastBlock was handed over or, only with allowGap, reported missing; without a failed fetch it catches up |
| IndexHistory.StepGaplessIff | cmd/injectived/cmd_indexer.go:80-108 | a command stopped anywhere leaves no gap between the first and the last key; a session leaves one exactly if it loses an unindexed height between two keys |
| IndexHistory.RunGaplessIff | injective-chain/server/indexer_service.go:117-138 | after any history of commands and sessions there is no gap if and only if every session was harmless: no step ever fills a gap |
| IndexHistory.FailedBlockLeavesGap | injective-chain/server/indexer_service.go:133-137 | a session that fails to index a block and goes on leaves a gap |
| IndexHistory.RunKeepsGapless | cmd/injectived/cmd_indexer.go:18-26 | after any history of commands and harmless sessions every height between the first and the last key is indexed and has all its keys |
| IndexHistory.BackwardThenForwardIndexesAll | cmd/injectived/cmd_indexer.go:80-108 | from any such state a full backward and a full forward command index every block of the chain |
| IndexHistory.FromEmptyIndex | cmd/injectived/cmd_indexer.go:80-108 | on an empty index a full backward command indexes the blocks below the latest one, and a full forward command all of them |
| IndexHistory.SingleIntervalIff | cmd/injectived/cmd_indexer.go:18-26 | the indexed heights are one interval after every history that loses nothing if and only if every block carries an Ethereum transaction |
| IndexHistory.UnkeyedBlockLeavesHole | cmd/injectived/cmd_indexer.go:81-94 | a block without one, indexed by an interrupted command, leads to a hole |
| IndexCommands.SessionIsServiceStep | injective-chain/server/indexer_service.go:84-141 | every service session, with or without allowGap and whatever it failed to index, is a possible step of the history up to the chain's height; it loses nothing without allowGap and failures |
| IndexCommands.KVIndexer.FirstIndexedBlock | injective-chain/server/indexer/kv_indexer.go:205-215 | the lowest height with a key, or -1 |
| IndexCommands.KVIndexer.LastIndexedBlock | injective-chain/server/indexer/kv_indexer.go:192-202 | the highest height with a key, or -1 |
| IndexCommands.KVIndexer.IndexBackward | cmd/injectived/cmd_indexer.go:81-94 | the loop, stopped anywhere, is a backward step of the history; without an error it reaches block 1 |
| IndexCommands.KVIndexer.IndexForward | cmd/injectived/cmd_indexer.go:95-108 | the loop, stopped anywhere, is a forward step of the history; without an error it reaches the head |
| CliArgs.ParseNumFields | cli/parsers.go:25-61 | the corrected field count is the sum over the tree of what each field needs |
| CliArgs.SenderNeedsNoArgument | cli/parsers.go:526-532 | a field without a value needs one argument, unless it has one of the six names that are filled in from the sender |
| CliArgs.WalksBalance | cli/parsers.go:25-61 | in a tidy message the fields counted are the leaves that will ask for an argument plus those a flag sets |
| CliArgs.DeclaredIsDemanded | cli/tx.go:15-20 | the declared number of arguments equals the number of leaves that ask for one after the sender is filled in |
| CliParser.ArgParser.GetPositional | cli/parsers.go:360-369 | gives out the next argument that is not blank, right of everything given out before, and never one an index mapping took |
| CliParser.ArgParser.GetMapped | cli/parsers.go:292-309 | takes the argument at the mapped index and blanks that one alone |
| CliParser.ArgParser.ParseLeaf | cli/parsers.go:269-289 | a leaf asks exactly if it is mapped or empty, and is served by its mapping or else by the cursor |
| CliParser.ArgParser.ParseField | cli/parsers.go:140-174 | a flag sets a field as a whole, structs and Any contents are walked |
| CliParser.ArgParser.ParseFields | cli/parsers.go:120-138 | the leaves that asked are exactly the wanted ones, in order, and the arguments, the cursor and the log are what serving them in turn leaves |
| CliDesk.OneEachIff | cli/parsers.go:241-369 | of as many clean arguments as leaves ask, with any index mappings, every one goes to exactly one leaf if and only if the cursor never passes an argument before the leaf mapped to it is served |
| CliDesk.OneEachUsesAll | cli/parsers.go:241-369 | one argument for each leaf means that no argument is dropped |
| CliDesk.LateMappingDoubles | cli/parsers.go:292-369 | a leaf served by the cursor before one mapped to the first argument: both get the first argument and the second is dropped |
| CliDesk.UnmappedInOrder | cli/parsers.go:360-369 | without mappings the k-th argument goes to the k-th leaf |
| CliParser.RunTx | cli/tx.go:14-44 | an accepted command was given exactly the declared arguments, as many as leaves asked in a tidy one; every argument goes to exactly one leaf if and only if the cursor never passes a mapped one |
| WordBound.OverflowsIff | injective-chain/types/int.go:62-74 | for every word size and limit the word-count shortcut agrees with the full test: rejected exactly if the magnitude exceeds 2^limit - 1 |
| WordBound.TopZeroWordIrrelevant | injective-chain/types/int.go:67-71 | a zero top word changes neither value nor verdict |
| WordBound.ConstructorsRespectBound | injective-chain/types/int.go:42-56 | both constructors keep values inside the bound; outside it one fails and the other gives the maximum |

## Left out

- Contexts, deadlines, logging, metrics and the pacing of loops: they do not change what is sent or stored.
- Application wiring, configuration, keyring commands, wasm query tables and the websocket registry.
- The signer and batch-creator loops of the orchestrator, and the relayer's price thresholds and offsets.
- The rest of the ante handler's decorators, and the EVM ante handler: they enter only as accepting or rejecting.
- Error texts: errors are told apart only where the code's behaviour depends on them.
- Nil and empty byte strings are not told apart in decoded messages.
- Reward fields of a validator set.
- Bank.IsValid: does not model the syntax of denominations, which the fee checks take from another package.
- Bank.SendCoins: locked coins and send restrictions appear only as a flag that blocks the transfer.
- Eip712.CheckSignatures: curve arithmetic, Bech32 and typed-data hashing are arbitrary functions, so no claim is made about forging signatures.
- FeeAnte.AnteHandler.HandleAll: covers what the ante handler does to balances, not the messages executed afterwards.
- IndexCommands.KVIndexer.IndexBlock: the keys and values themselves are reduced to whether a block leaves a key.
- CliParser.RunTx: does not model the parsing of a single value, nor the type names that decide which fields are leaves.
- Query commands, which hand out arguments in the same way but fill in no sender.
