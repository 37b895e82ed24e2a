# A verified model of the Cosmos SDK's state machine core

The project models five parts of the repository and proves what each is for:

1. **baseapp** — how a node turns ABCI calls into committed state: the transaction pipeline with its branches, gas
   meters and panic recovery, the default proposal handlers, and the life of a block from genesis on.
2. **types/abci.pb.go** — the generated Protocol Buffers code: back-to-front writers, size functions, parsers, skipping
   of unknown fields.
3. **math** — 18-digit decimals and scaled unsigned powers: rounding, quotients, powers, roots, text, sortable bytes.
4. **depinject** — the container that resolves a graph of providers.
5. **collections** — typed maps that share one key-value store: prefixes, schemas, ranges, composite keys, indexes.

Functions describe what each operation does; classes and methods with loops and in-place updates are proved to compute
those functions; lemmas state the properties. `dafny verify dfyconfig.toml` checks everything.

| part | files |
|---|---|
| shared | `Wrappers`, `Bits`, `ByteStrings` |
| baseapp | `Stores`, `Gas`, `Recovery`, `TxPipeline`, `Delivery`, `App`, `Agreement`, `Consensus`, `Genesis`, `Checking`, `BaseApp` |
| wire | `Wire`, `WireFields`, `WireGrammar`, `Messages`, `WireCode` |
| math | `Dec`, `Approx`, `DecPower`, `UintPow`, `DecSqrt`, `DecRoot`, `DecCode`, `DecText` |
| depinject | `Providers`, `Container` |
| collections | `KeyCodecs`, `Runes`, `StandardKeys`, `Schemas`, `Maps`, `Ranges`, `Walks`, `Independence`, `IndexedMaps` |

## How the parts are modelled

**baseapp.** A store is a map from byte strings to byte strings, a branch is an overlay of pending writes, and the
application hash is an arbitrary function of the store. Decoding, the ante, message and post handlers, the mempool and
the begin and end blockers are arbitrary functions of what the code hands them; a handler may return, fail or panic. Each
handler says how much gas it uses on the meter it is given. `TxPipeline` follows `runTx` stage by stage, `App` the ABCI
calls; `Consensus` puts them into a state machine whose legal call sequences are those of the ABCI++ specification
(section "CometBFT's expected behavior"), and `BaseApp` is the object with mutable fields.

**wire.** Bytes are integers below 256, and 64-bit wrap-around, sign tests and 32-bit tag truncation are explicit.

**math.** A decimal is its raw integer. Panics of the 315-bit and 256-bit range checks are `None`. Error bounds are over
the reals.

**depinject.** A type is an identifier, a provider an index into the graph with a function that may return an error.

**collections.** A codec is a record of functions that fill a buffer and read one, as the source's interface has it.

## What turned out different from what one might expect

- **First-block determinism needs gas meters per transaction.** Proposal contexts of the initial height are built on the
  finalize context and share its gas meter, so each round moves it. Two readings lead to the same charges exactly if the
  first block's transactions charge on their own meters on the states they are executed on
  (`Consensus.SameChargesIff`); then committed state is determined by the blocks (`Consensus.RunMatchesChain`), and it
  need not be otherwise (`Genesis.FirstBlockDependsOnRounds`).
- **An initial height below one loses genesis** in the first round of proposals (`Genesis.GenesisKeptIff`).
- **A post handler that fails breaks proposer/validator agreement**: the ante handler's writes of a transaction the
  proposer drops stay in its prepare state, and a dropped transaction leaves no trace exactly if there were none
  (`Agreement.StepView`, `Agreement.PostHandlerBreaksAgreement`).
- **String keys are copied rune by rune** in composite keys, so only strings without multi-byte runes come back, and
  different strings can share a key (`StandardKeys.StringPartialIff`, `StandardKeys.StringPairsCollide`). The encoder's error
  names the zero byte only.
- **A range that starts after a prefix of 0xFF bytes** starts over at the beginning of the store
  (`Ranges.PastEverythingStartsOver`).
- **A successful `IndexedMap.Set` can leave an index wrong**: exactly if a reference key does not come back from what the
  index writes for it, such as a string with a multi-byte rune (`IndexedMaps.SuccessIsConsistentIff`,
  `IndexedMaps.StringReferenceLost`).
- **A refused `IndexedMap.Set` leaves the indexes changed** unless the very first index refused a new key, or only the
  primary map refused and no reference changed (`IndexedMaps.StepIsConsistent`, `IndexedMaps.RefusedSetLosesReference`).
  The source relies on the caller to discard the branch.
- **`QuoRoundUp` is not always the ceiling** (`Dec.QuoRoundUpIsCeilingIff`), and **negative sortable decimals are in
  reverse order** (`DecText.SortableOrderIff`).
- **`LegacyNewDecFromStr` reads more than its comment documents**: a second sign, and a sign without whole digits, so that
  "--1" is one and "+" is zero (`DecText.DocumentedIff`, `DecText.SignsRead`).
- **Group end tags are not matched by number** when unknown fields are skipped (`WireGrammar.ParseAcceptsIff`).
- `ApproxRoot`'s comment speaks of 100 iterations; the code allows 300. For square roots it never needs more than 228
  (`DecSqrt.SqrtConverges`).

## Model

| member | source | states |
|---|---|---|
| Recovery.RecoveryNeverSilent | baseapp/recovery.go:26-80 | for any handlers added and any panic value, recovery ends in an error: out-of-gas first, then the most recently added handler that answers, then the default |
| Recovery.ChainAnswers | baseapp/recovery.go:26-48 | a chain of any length gives the answer of its latest handler that has one, and the default's if none has |
| Recovery.AddHandlersAppend | baseapp/baseapp.go:538-542 | a handler added later is asked before all the earlier ones |
| Delivery.RunMsgsIsDirect | baseapp/baseapp.go:939-999 | running messages on a branch succeeds exactly when running them in place on the store would, and leaves the same store and gas |
| Delivery.ValidIff | baseapp/baseapp.go:596-618 | basic validation passes exactly if there are messages and each is valid; otherwise the first invalid one is named |
| Delivery.RunMsgsFailsAt | baseapp/baseapp.go:947-992 | when messages fail, the error is that of the first one that fails in place, under its own index, after all before it have gone well |
| Delivery.ExecIsDirect | baseapp/baseapp.go:888-932 | messages and post handler together, on one branch, amount to running them in place, or fail together |
| Delivery.AnteStageIsDirect | baseapp/baseapp.go:825-876 | up to the mempool a transaction keeps the ante handler's writes exactly when the handler passes, and nothing otherwise |
| Delivery.SettleReportsError | baseapp/baseapp.go:792-823 | an exit through a panic or an error never ends without an error, and which: a panic of the deferred block charge comes first, then the transaction's own panic, then its error |
| Delivery.CompleteIsAtomic | baseapp/baseapp.go:914-932 | the message branch is written exactly if charging the block meter does not panic |
| Delivery.FinishIsAtomic | baseapp/baseapp.go:878-932 | from the mempool on, a delivered transaction has all of its body's effects and no error, or none of them and an error |
| Delivery.DeliverAtomic | baseapp/baseapp.go:778-932 | three-way atomicity for every combination of success, error and panic: the state is unchanged, or has the ante writes only, or is what running the whole transaction in place leaves; the last exactly if no error is returned |
| Delivery.FinishCharges | baseapp/baseapp.go:792-823 | whichever way the rest of a transaction goes, the block meter moves by the gas used, and only in finalize mode |
| Delivery.ChargedExactlyOnce | baseapp/baseapp.go:787-823 | a transaction past the entry check charges the block meter exactly once on every exit path; other modes never charge; a transaction without error charged without a panic |
| Delivery.ExhaustedBlockIsFrozen | baseapp/baseapp.go:787-790 | once the block is out of gas, no list of further transactions changes the store, the meter or the mempool |
| Delivery.GasReported | baseapp/baseapp.go:792-799 | on every path a transaction reports as wanted the limit of the meter its ante handler left and as used what its meter reads, which after success is what running it in place would use |
| Delivery.ExhaustedIff | baseapp/baseapp.go:787-790 | a limited block meter is out of gas exactly if the charges so far reach its limit |
| Delivery.UnlimitedReads | store/types/gas.go:181-189 | an unlimited block meter reads the charges, starting again from zero with a charge that overflows 64 bits |
| Delivery.TurnedAwayIff | baseapp/baseapp.go:787-790 | a delivered transaction ends in the error of an exhausted block exactly if the block was out of gas when it came |
| Delivery.MeterReadsTotal | baseapp/abci.go:657-685 | while the block is not out of gas its meter reads the sum of all charges so far |
| Delivery.CommittedGasWithinLimit | baseapp/baseapp.go:914-923 | up to and including any transaction that committed its messages, the block's charges total at most the block limit |
| App.RunTxIn | baseapp/baseapp.go:641-679 | a transaction in one mode disturbs no other mode's state; the finalize meter moves only when the proposal state shares it |
| App.PrepareLoop | baseapp/abci_utils.go:180-236 | building a proposal leaves committed, finalize and check state alone |
| App.PrepareProposalCall | baseapp/abci.go:379-440 | the same for the whole call, whatever the height |
| App.ProcessLoop | baseapp/abci_utils.go:238-249 | judging a proposal leaves committed and check state and the finalize writes alone |
| App.ProcessProposalCall | baseapp/abci.go:451-515 | the same for the whole call; after the first block the finalize state is reset |
| App.DeliverLoop | baseapp/abci.go:680-690 | delivering keeps the finalize state in existence and touches nothing else that a commit depends on |
| Agreement.NothingAfterAnte | baseapp/baseapp.go:888-932 | in the proposal modes nothing is flushed after the ante handler's writes, and the transaction succeeds exactly if it passed and neither reading its messages nor the post handler fails |
| Agreement.ProposalTxIsAnte | baseapp/baseapp.go:1038-1069 | a proposal-mode transaction writes exactly what its passing ante handler writes, also when it fails afterwards, and succeeds exactly if nothing fails |
| Agreement.ProposalView | baseapp/baseapp.go:641-679 | a proposal state shows a verified transaction's writes on top of what it showed before |
| Agreement.StepView | baseapp/abci_utils.go:196-232 | what verifying a transaction does to a proposal state; a dropped transaction leaves no trace exactly if its ante handler did not pass or had nothing to write |
| Agreement.StepVerifies | baseapp/abci_utils.go:196-232 | where proposer and validator judge alike, the gas meter does not matter to the verdict, and a cleanly dropped transaction leaves no trace |
| Agreement.PrepareLoopSelects | baseapp/abci_utils.go:193-234 | the selected transactions verify one after another on the starting state alone, although others ran and were dropped in between, and fit the byte budget |
| Agreement.CutFits | baseapp/abci_utils.go:217-226 | what is selected fits the byte budget, and with the next transaction that verifies it would not |
| Agreement.PrepareLoopIsExact | baseapp/abci_utils.go:200-231 | the proposer's loop selects exactly the pending transactions that verify one after another, in order and up to the first that no longer fits; those before it that do not verify are removed from the mempool, and nothing is proposed if a removal fails |
| Agreement.ProcessLoopAccepts | baseapp/abci_utils.go:238-249 | a validator accepts exactly the lists whose transactions verify one after another |
| Agreement.AllPassAgrees | baseapp/abci_utils.go:180-249 | handlers that judge alike for proposer and validator judge whole lists alike |
| Agreement.StartView | baseapp/abci.go:954-964 | both proposal states start from the last commit, and from genesis at the initial height |
| Agreement.ValidatorAcceptsProposal | baseapp/abci_utils.go:180-249 | any proposal built from any mempool is accepted by every validator with the same committed state, and totals at most the byte limit, for handlers that judge alike and drop only transactions that had nothing to write; post handlers are allowed |
| Agreement.ValidatorAcceptsIff | baseapp/abci_utils.go:249-262 | a validator accepts exactly the proposals of a positive height whose transactions decode and verify one after another on the last commit, or on genesis |
| Agreement.ProposalIsExact | baseapp/abci_utils.go:181-234 | from the last commit or genesis, the proposal and the mempool it leaves are what the verdicts on the pending transactions say; without a mempool the request's transactions are returned |
| Agreement.MempoolAfterProposal | baseapp/abci_utils.go:208-215 | after a proposal the mempool lacks exactly the transactions before the cut that did not verify |
| Agreement.PostHandlerBreaksAgreement | baseapp/abci_utils.go:193-234 | a concrete application that judges alike but drops a transaction with ante writes, and rejects its own proposal |
| Consensus.DeliverLoopFlattens | baseapp/abci.go:680-690 | delivering transactions through branches of the finalize state is executing them in place on what it shows |
| Consensus.FinalizeExecutesBlock | baseapp/abci.go:623-706 | a finalized block is begin block, the decodable transactions in order and end block executed in place, and the hash returned is that of the resulting store |
| Consensus.OnlyNextHeight | baseapp/baseapp.go:567-594 | a block is executed exactly if it has the next height, and any other leaves the application as it was |
| Consensus.UnlimitedBlockGas | baseapp/baseapp.go:632-638 | if the maximum block gas is not positive, a transaction commits exactly if it runs through in place, its mempool entry goes and the 64-bit count of charges does not overflow |
| Consensus.LimitedBlockGas | baseapp/baseapp.go:632-638 | with a positive maximum, a transaction after charges that reach it changes nothing; before that it commits exactly if it runs through, its mempool entry goes and its gas fits |
| Consensus.TurnedAwayAtMaximum | baseapp/baseapp.go:787-790 | a transaction is turned away for lack of block gas exactly if there is a positive maximum and the charges before it reach it |
| Consensus.CommittedWithinMaximum | baseapp/baseapp.go:801-813 | the charges up to and including a transaction that commits total at most the maximum block gas |
| Consensus.MsgsIgnoreBase | baseapp/baseapp.go:939-999 | with a meter of its own, running messages does not depend on the context's meter |
| Consensus.ExecIgnoresBase | baseapp/baseapp.go:888-932 | the same for messages and post handler |
| Consensus.FinishIgnores | baseapp/baseapp.go:878-932 | the same up to the end of the transaction, and for the mempool |
| Consensus.DeliverIgnores | baseapp/baseapp.go:708-744 | a delivered transaction's effect depends on the store and the block meter, and on the finalize meter only if it does not charge on its own on this store |
| Consensus.BlockIgnores | baseapp/abci.go:623-706 | a block's result does not depend on the node's mempool, nor on the finalize meter if its transactions charge on their own on the states actually reached |
| Consensus.FinalGasShift | baseapp/baseapp.go:792-823 | a transaction ends with its own meter exactly if it brought one; otherwise what it ends with follows the finalize meter |
| Consensus.ChargeIsCapped | baseapp/baseapp.go:806-813 | a transaction with a limited meter of its own charges the block what it used, and never more than it asked for |
| Consensus.SameChargeIff | baseapp/baseapp.go:792-823 | for handlers that add to the reading, two different readings of the finalize meter lead to the same charge exactly if the transaction charges on its own |
| Consensus.SameChargesIff | baseapp/abci.go:675-685 | the same for whole blocks: all charges agree exactly if every transaction charges on its own on the state it is executed on |
| Consensus.QuietStep | baseapp/abci.go:338-571 | CheckTx, recheck, simulation, proposals and vote extensions leave everything a commit depends on in place, genesis included |
| Consensus.FinalizeStep | baseapp/abci.go:623-706 | finalizing a block on a node does what the block alone determines |
| Consensus.StepMatches | baseapp/abci.go:379-797 | every legal call keeps the node in step with the chain that sees blocks only |
| Consensus.StepKeepsInv | baseapp/abci.go:379-797 | every legal call keeps the node's invariant, with no assumption on the application |
| Consensus.RunMatchesChain | baseapp/abci.go:379-797 | for every legal interleaving, what is committed, at which heights and under which hashes equals the fold of the blocks alone over genesis |
| Consensus.NodesAgree | baseapp/abci.go:623-797 | two nodes that saw the same blocks committed the same, whatever else each was asked |
| Consensus.ProposalAccepted | baseapp/abci.go:379-515 | whatever one node proposes at a height, every other node in step with the same chain accepts |
| Consensus.ProposalAcceptedAfterRuns | baseapp/abci.go:379-797 | over whole runs: nodes that saw the same blocks accept each other's proposals, whatever else each was asked |
| Genesis.StepNumbered | baseapp/baseapp.go:567-594 | each call keeps the commits numbered without gaps |
| Genesis.RunNumbered | baseapp/baseapp.go:567-594 | so does every run |
| Genesis.InitNumbered | baseapp/abci.go:45-66 | genesis sets the numbering to start at the initial height |
| Genesis.HeightsContiguous | baseapp/baseapp.go:567-594 | from an unborn node, the committed heights of every run are the initial height and its successors, none twice and none skipped |
| Genesis.InitialHeightFixed | baseapp/abci.go:45-66 | the initial height never changes after genesis |
| Genesis.GenesisSurvives | baseapp/abci.go:473-482 | any number of rounds, checks and vote extensions before the first block leave the genesis writes in place, add none of their own, and see them |
| Genesis.GenesisKeptIff | baseapp/abci.go:473-482 | the first judged proposal keeps the genesis writes exactly if the initial height is at least one, or there were none |
| Genesis.RoundsAddUp | baseapp/abci.go:404-414 | each round at the initial height adds its two reads of the parameters to the finalize state's meter; rounds at other heights leave it alone |
| Genesis.RoundTxAddsUp | baseapp/baseapp.go:640-663 | so does each transaction verified in such a round |
| Genesis.RoundUsesFinalizeMeter | baseapp/abci.go:954-964 | a round at the initial height moves the finalize state's gas meter |
| Genesis.FirstBlockDependsOnRounds | baseapp/abci.go:954-964 | a concrete application that commits different states for the same first block, with and without a preceding round |
| Checking.CheckIsAnte | baseapp/baseapp.go:835-882 | checking keeps what the ante handler writes exactly if it passes, hands new transactions to the mempool and rechecked ones not, and says exactly when there is no error |
| Checking.NewTxIsChecked | baseapp/abci.go:338-366 | after checking a new transaction the check state shows the ante handler's result exactly if that passes; then the mempool is given the transaction, which is accepted exactly if the mempool takes it and the rest goes well |
| Checking.OldTxIsRechecked | baseapp/abci.go:344-345 | the same for a recheck, with the mempool left alone |
| Checking.FinishSimulates | baseapp/baseapp.go:888-932 | past the mempool a simulated transaction succeeds exactly if its messages and post handler do in place |
| Checking.SimulationIsDirect | baseapp/test_helpers.go:26-30 | a simulation succeeds exactly if running the transaction in place on the check state does, reports that gas, and leaves the state's writes and the mempool as they were |
| Checking.CheckRestarts | baseapp/abci.go:747-753 | after a commit the check state shows exactly the committed state, under the header of the block |
| BaseApp.ValidateBasicTxMsgs | baseapp/baseapp.go:597-613 | returns the error of the first message that fails its own validation, or an error if there is no message |
| BaseApp.ExecuteMsgs | baseapp/baseapp.go:939-999 | the message loop computes `RunMsgs`, leaving early in the modes that do not execute |
| BaseApp.ExecuteBody | baseapp/baseapp.go:888-932 | messages and post handler compute `ExecStage` |
| BaseApp.ExecuteAnte | baseapp/baseapp.go:825-876 | decoding, validation and ante handler compute `AnteStage` |
| BaseApp.ExecuteTx | baseapp/baseapp.go:778-932 | the whole of `runTx`, with its deferred charge and recovery, computes `RunTx` |
| BaseApp.BaseApp.Save | baseapp/baseapp.go:665-679 | a transaction's branches go to the state of its mode and nowhere else |
| BaseApp.BaseApp.RunTransaction | baseapp/baseapp.go:778-932 | the object after a transaction is `RunTxIn` of the object before |
| BaseApp.BaseApp.InitializeChain | baseapp/abci.go:40-137 | the object after genesis is `InitChain` of the object before; a foreign chain id is refused |
| BaseApp.BaseApp.CheckTransaction | baseapp/abci.go:338-372 | checks and rechecks touch the check state only |
| BaseApp.BaseApp.SimulateTransaction | baseapp/test_helpers.go:26-30 | the object after simulating a transaction, and the answer, are those of `SimulateTx` |
| BaseApp.BaseApp.OpenProposal | baseapp/abci.go:392-415 | a round's context starts on the right base, with the block meter of the consensus parameters |
| BaseApp.BaseApp.SelectTxs | baseapp/abci_utils.go:193-234 | the loop over the mempool computes `PrepareLoop` |
| BaseApp.BaseApp.PrepareProposal | baseapp/abci.go:379-440 | the call computes `PrepareProposalCall`; a panic gives an empty proposal |
| BaseApp.BaseApp.VerifyTxs | baseapp/abci_utils.go:238-249 | the loop over a proposal computes `ProcessLoop` |
| BaseApp.BaseApp.ProcessProposal | baseapp/abci.go:451-515 | the call computes `ProcessProposalCall` |
| BaseApp.BaseApp.DeliverTxs | baseapp/abci.go:675-685 | the loop over the raw transactions computes `DeliverLoop`, passing over those that do not decode |
| BaseApp.BaseApp.OpenBlock | baseapp/abci.go:644-673 | the finalize state exists afterwards, with the block's header and block meter, and begin block has run on it |
| BaseApp.BaseApp.CloseBlock | baseapp/abci.go:691-706 | end block has run and the finalize state is in the working store |
| BaseApp.BaseApp.FinalizeBlockOf | baseapp/abci.go:623-706 | the call computes `FinalizeBlock`; a wrong height is refused |
| Wire.SovIsEncodedLength | types/abci.pb.go:1693-1695 | the size computed from the bit length is the number of bytes the encoder writes |
| Wire.VarintIsShort | types/abci.pb.go:1406-1416 | no 64-bit value takes more than ten bytes |
| Wire.VarintAtEncoded | types/abci.pb.go:2369-2400 | the decoding loop, from any point of it, reads back an encoded value |
| Wire.VarintRoundTrip | types/abci.pb.go:1406-1416 | every 64-bit value written as a varint is read back, wherever it stands and whatever follows |
| WireFields.SkipField | types/abci.pb.go:3582-3659 | skipping passes over exactly one well-formed field of any wire type, nested groups included |
| WireFields.SkipFields | types/abci.pb.go:3582-3659 | inside a group, skipping passes over any sequence of well-formed fields |
| WireFields.ParseFieldApplies | types/abci.pb.go:2485-2598 | parsing one field, known or not, has exactly that field's effect and advances by its length |
| WireFields.ParseApplies | types/abci.pb.go:2369-2686 | parsing any sequence of well-formed fields, in any order and repeated at will, is applying them one after another |
| WireFields.UnknownFieldsIgnored | types/abci.pb.go:2469-2482 | unknown fields between known ones have no effect |
| WireFields.UnknownBytesIgnored | types/abci.pb.go:2469-2482 | on the bytes: a message parses to the same result, or the same error, as without its unknown fields |
| WireGrammar.VarintIff | types/abci.pb.go:2604-2618 | the varint loop accepts exactly one to ten bytes with the high bit on all but the last, as their value modulo 2^64 |
| WireGrammar.LengthErrors | types/abci.pb.go:2533-2543 | a length is refused as invalid exactly if the end it announces is not a signed 64-bit position, and as cut short exactly if that lies behind the data |
| WireGrammar.SkippedIsField | types/abci.pb.go:3582-3659 | whatever the skipping loop takes inside the data is a writing of one field, groups included |
| WireGrammar.WrittenIsSkipped | types/abci.pb.go:3582-3659 | every writing of a field is skipped as a whole |
| WireGrammar.ParseIsWritten | types/abci.pb.go:2599-2686 | data that parses is a writing of fields with positive numbers, and the result is what they make of the message |
| WireGrammar.WrittenAllParsed | types/abci.pb.go:2599-2686 | every writing of such fields parses to what they make of the message, errors included |
| WireGrammar.ParseAcceptsIff | types/abci.pb.go:2599-2686 | the parser accepts exactly the writings of fields with positive numbers that the message can take, with exactly that result |
| Messages.GasInfoSizeExact | types/abci.pb.go:1051-1082 | the advertised size is the length of the encoding |
| Messages.AttributeSizeExact | types/abci.pb.go:1014-1049 | the advertised size is the length of the encoding |
| Messages.StringEventSizeExact | types/abci.pb.go:970-1012 | the advertised size is the length of the encoding, repeated nested messages included |
| Messages.GasInfoRoundTrip | types/abci.pb.go:2600-2686 | every message parses back from its encoding |
| Messages.AttributeRoundTrip | types/abci.pb.go:2485-2598 | every message parses back from its encoding |
| Messages.AttributesApply | types/abci.pb.go:2369-2482 | the nested messages are appended in order |
| Messages.StringEventRoundTrip | types/abci.pb.go:2369-2482 | every message parses back from its encoding, with all its nested messages in order |
| WireCode.EncodeVarint | types/abci.pb.go:1406-1416 | writes the varint just below the offset, exactly its size, and changes nothing else |
| WireCode.MarshalGasInfoTo | types/abci.pb.go:1064-1082 | fills exactly the advertised size below `end` with the encoding, and changes nothing else |
| WireCode.MarshalAttributeTo | types/abci.pb.go:1027-1049 | the same for attributes |
| WireCode.MarshalAttributesTo | types/abci.pb.go:990-1004 | the loop from the last nested message to the first leaves them in the right order, lengths in front |
| WireCode.MarshalStringEventTo | types/abci.pb.go:983-1012 | the same for events with nested attributes |
| WireCode.MarshalStringEvent | types/abci.pb.go:970-981 | a buffer of the advertised size is filled completely |
| WireCode.MarshalGasInfo | types/abci.pb.go:1051-1062 | a buffer of the advertised size is filled completely |
| WireCode.DecodeVarint | types/abci.pb.go:2373-2390 | the shifting loop computes `Varint`, with its overflow and end-of-input errors |
| WireCode.SkipAbci | types/abci.pb.go:3582-3659 | the skipping loop computes `SkipFrom` and terminates |
| WireCode.Unmarshal | types/abci.pb.go:2369-2686 | the parsing loop computes `Parse` and terminates |
| Dec.InRangeIff | math/dec.go:26-32 | a raw value is in range exactly if it has at most 315 bits |
| Dec.ChopRoundIsNearestEven | math/dec.go:610-640 | rounding is to the nearest integer, to the even one on a tie, and that determines it |
| Dec.ChopRoundExact | math/dec.go:610-640 | exact multiples are not changed by rounding |
| Dec.DoubleTruncation | math/dec.go:374-384 | two truncating divisions in a row are one |
| Dec.QuoTruncateExact | math/dec.go:374-384 | `QuoTruncate` is the exact truncated quotient, for all signs, and panics exactly when that is out of range |
| Dec.QuoDecError | math/dec.go:356-366 | `Quo` is within half a unit plus 10^-18 of a unit of the exact quotient |
| Dec.QuotientsOrdered | math/dec.go:353-402 | for positive quotients, truncated <= rounded <= rounded up <= truncated plus one unit |
| Dec.QuotientSigns | math/dec.go:353-402 | how each of the three behaves under a change of sign of either operand |
| Dec.QuoRoundUpIsCeilingIff | math/dec.go:392-402 | for all signs, `QuoRoundUp` is the exact ceiling exactly if the quotient is negative, or the scaled quotient is not a whole number of units, or the division is exact |
| Dec.QuoRoundUpMissesCeiling | math/dec.go:392-402 | a concrete quotient rounded up to zero whose ceiling is one unit |
| Dec.CeilingIsLeast | math/dec.go:387-391 | what the ceiling is: the least integer whose product with the divisor reaches the dividend |
| DecPower.MulStands | math/dec.go:294-303 | a rounded product of approximate powers is an approximate power, the errors adding up to half a unit per product |
| DecPower.PowLoopStands | math/dec.go:491-508 | every state of the square-and-multiply loop approximates the power it stands for |
| DecPower.PowerError | math/dec.go:491-508 | for 0 <= d <= 1 and n >= 1 the power never overflows, stays in [0, 1] and is within (n-1)/2 units of the exact real power |
| UintPow.ComputeRelativePow | math/uint.go:243-275 | the loop computes `RelativePow`, panics included |
| UintPow.ScaledMulIff | math/uint.go:265-270 | one product of the loop panics exactly if the scale is zero or the product with half the scale added has more than 256 bits, and is otherwise their quotient |
| UintPow.RelLoopStands | math/uint.go:261-273 | every state of the loop approximates the scaled power it stands for |
| UintPow.RelativePowError | math/uint.go:243-275 | for 0 < x <= b < 2^128 it never overflows, stays at most b, and is within (n-1)/2 of b*(x/b)^n; exact for n = 0 |
| UintPow.RelativePowUnitScale | math/uint.go:243-275 | for b = 1 it is the exact integer power, and panics exactly when that does not fit 256 bits |
| DecSqrt.QuotientNear | math/dec.go:356-366 | the doubly rounded quotient is less than one unit from the exact one |
| DecSqrt.SqrtStep | math/dec.go:459-480 | one Newton step never overflows, lands at or above the integer root, at least halves the distance, and if it moves by at most one unit has arrived |
| DecSqrt.KeepsSchedule | math/dec.go:459-480 | after k steps the distance to the root is within the schedule of repeated halvings |
| DecSqrt.LoopConverges | math/dec.go:459-483 | from any point on schedule the loop ends because the correction is at most one unit |
| DecSqrt.GuessStaysPositive | math/dec.go:459-480 | a positive guess stays positive at every iteration |
| DecSqrt.SqrtConverges | math/dec.go:430-483 | for every d > 0 other than 1 the root is found without overflow and before the iteration limit, and the result r satisfies \|r*r - d*10^18\| <= 2r + 3 on the raw integers |
| DecRoot.StepIsNewton | math/dec.go:459-482 | for any root, one step is Newton's step for the equation guess times power equals the decimal, up to less than one unit |
| DecRoot.StepFailsIff | math/dec.go:459-482 | a step fails exactly if its power, quotient, difference or new guess is out of range; it never divides by zero |
| DecRoot.RootSolves | math/dec.go:459-483 | for any root, when the last correction is at most one unit, the result is within one unit of a guess that solves the equation up to twice the root in units of the power |
| DecRoot.RootEdges | math/dec.go:441-454 | roots are odd; the first root and the roots of zero and one are exact; the zeroth root is one with the decimal's sign |
| DecCode.LegacyDec.ChopPrecisionAndRound | math/dec.go:610-640 | rounds the raw value in place to `ChopRound` of it |
| DecCode.LegacyDec.ChopPrecisionAndRoundUp | math/dec.go:642-662 | rounds the raw value up in place, negative ones toward zero |
| DecCode.LegacyDec.MulMut | math/dec.go:294-303 | the receiver becomes the rounded product, its argument untouched unless it is the receiver |
| DecCode.LegacyDec.QuoMut | math/dec.go:356-366 | the receiver becomes the rounded quotient; panics on zero and overflow |
| DecCode.LegacyDec.QuoTruncateMut | math/dec.go:374-384 | the receiver becomes the truncated quotient |
| DecCode.LegacyDec.QuoRoundupMut | math/dec.go:392-402 | the receiver becomes the quotient rounded up |
| DecCode.LegacyDec.PowerMut | math/dec.go:491-508 | the in-place loop computes `Power` of the receiver |
| DecCode.ImproveGuess | math/dec.go:459-480 | the body of the Newton loop, updating guess and correction in place, computes `NewtonStep` |
| DecCode.FindRoot | math/dec.go:430-483 | the loop computes `ApproxRoot`, its special cases and panics turned into errors included |
| DecText.PrintParseRoundTrip | math/dec.go:153-200 | every decimal of at most 315 bits, of either sign, parses back from its printed form |
| DecText.ParsePrinted | math/dec.go:153-200 | the printed form of every magnitude parses, whatever its number of digits |
| DecText.ParseReads | math/dec.go:153-200 | every numeral with whole digits and at most eighteen decimals is read as the number it writes, or refused as out of range, with or without signs |
| DecText.ParseAcceptsIff | math/dec.go:153-200 | no other text is read or found out of range |
| DecText.ParseErrors | math/dec.go:165-182 | two points, nothing on one side of the point, and more than eighteen decimals are each refused with their own error |
| DecText.WholeErrors | math/dec.go:161-163 | a text without a point is refused as empty exactly if nothing but a minus sign is there, and otherwise only for its characters or its size |
| DecText.DocumentedIff | math/dec.go:138-151 | a text that is read has the documented form exactly if no second sign stands in it |
| DecText.SignsRead | math/dec.go:153-200 | two texts outside the documented form that are read |
| DecText.PrintMagnitude | math/dec.go:529-579 | the buffer filled from digits, point and zeros is the printed magnitude |
| DecText.MaxSortableIsReciprocal | math/dec.go:734-743 | the bound of sortable decimals is the reciprocal of the smallest decimal |
| DecText.PaddedText | math/dec.go:752-770 | every magnitude below the bound is eighteen digits, a point and eighteen digits |
| DecText.PaddedOrdered | math/dec.go:752-770 | padded texts are in the order of the magnitudes |
| DecText.NegativesReversed | math/dec.go:752-770 | two negative decimals above the minimum are in reverse order |
| DecText.SortableOrderIff | math/dec.go:734-770 | for a < b in bounds, a's bytes are below b's exactly if b is not negative or a is the minimum |
| Providers.ChainsDescend | depinject/container.go:58-95 | a chain of dependencies that starts in a calling order only goes down in it, so it never comes back to where it was |
| Providers.OrderedIsResolvable | depinject/container.go:58-95 | what stands in a calling order has no chain into a missing input or a cycle, and stands there with all it reaches |
| Container.ValuesUnique | depinject/simple.go:33-63 | the values do not depend on the order of resolution: any two records agree on every provider they share |
| Container.ErrorsAreBlockedChains | depinject/container.go:58-95 | an error that is no provider's own comes with a chain of dependencies ending in a missing input or in itself |
| Container.ErrorsAreUnresolvable | depinject/container.go:376-426 | a request that ends so could not have been resolved |
| Container.OrderCall | depinject/container.go:69-86 | a provider called once its inputs are on record extends the calling order |
| Container.RecordCall | depinject/simple.go:33-44 | recording a call keeps every record justified by the values its inputs resolve to |
| Container.NotNeeded | depinject/container.go:362-374 | what has no outputs is needed by nobody else |
| Container.SameInputs | depinject/simple.go:33-63 | the values a provider is given do not depend on the order of resolution |
| Container.FailureUnsettles | depinject/container.go:480-494 | when a provider or invoker returns an error, no assignment of results to providers gets everything through |
| Container.Container.constructor | depinject/container.go:47-56 | an empty container resolves nothing and is valid |
| Container.Container.Supply | depinject/container.go:341-360 | a supplied value becomes its type's only source, or is refused because there is one |
| Container.Container.AddNode | depinject/container.go:208-290 | a provider is registered exactly if its output types are different and none has a source; then every type still has exactly one |
| Container.Container.AddInvoker | depinject/container.go:362-374 | invokers are accepted exactly if they have no outputs |
| Container.Container.Call | depinject/container.go:58-95 | terminates; on success the provider got the values its inputs resolve to and the caller stack is as before; on failure the stack tells why; only what the provider needs was called |
| Container.Container.ResolveInputs | depinject/container.go:74-82 | the values of all inputs in order, each as resolved at that moment and still valid at the end |
| Container.Container.ResolveValues | depinject/simple.go:33-44 | each provider is called at most once, and after everything it depends on |
| Container.Container.Resolve | depinject/container.go:376-426 | an input gets the supplied value, the zero value if optional and unprovided, or the right output of its provider |
| Container.Container.CallInvokers | depinject/container.go:488-496 | all invokers are called with the values their inputs resolve to and none returns an error, or one of them could not be resolved or it, or a provider it needs, failed |
| Container.Container.Build | depinject/container.go:428-499 | building succeeds exactly if nothing reachable lacks a required input or lies on a cycle and no reachable provider and no invoker returns an error on the values its inputs resolve to; it then has called exactly the reachable providers, once each and after their inputs, and returns what the types resolve to |
| ByteStrings.PrefixIsRange | collections/iter.go:329-352 | a key starts with p exactly if it is not below p and is below the end of the prefix, 0xFF carries and the missing end included |
| ByteStrings.NextKeyIsNext | collections/iter.go:322-324 | nothing lies between a key and the key with a zero byte appended |
| ByteStrings.NextBytesPrefixKey | collections/iter.go:329-352 | the shrinking-buffer loop finds the end of the prefix |
| ByteStrings.LessUnderPrefix | collections/iter.go:135-165 | a common prefix does not matter to the order |
| Schemas.OwnWrite | collections/map.go:204-216 | a write under one prefix shows there and under no prefix apart from it |
| Schemas.SchemaBuilder.AddCollection | collections/schema.go:87-108 | the builder's error is set exactly if what was ever added has a repeated prefix or name, or a bad name |
| Schemas.SchemaBuilder.Build | collections/schema.go:46-85 | a schema is built exactly if no prefix ever added is a prefix of another and names are good and distinct; it holds just what was added |
| Schemas.SharedIsIndependent | collections/schema.go:46-108 | over any run of writes and deletes on one store, each collection of a schema is what it would be with a store to itself |
| Maps.KeysDiffer | collections/map.go:204-216 | different keys are stored in different places |
| Maps.ContentsAreOwn | collections/map.go:75-107 | what a map holds depends on its own part of the store only |
| Maps.SetContents | collections/map.go:56-70 | setting a key is a map update of the contents |
| Maps.RemoveContents | collections/map.go:111-118 | removing a key is a map removal from the contents |
| Maps.Set | collections/map.go:56-70 | the contents are updated at the key, collections under other prefixes notice nothing, and an encoding error changes nothing |
| Maps.Get | collections/map.go:75-95 | returns the value the contents have at the key; not found exactly if nothing is stored there |
| Maps.Has | collections/map.go:99-107 | tells whether the key is in the map's own part of the store |
| Maps.Remove | collections/map.go:111-118 | the key leaves the contents, other collections notice nothing, a missing key is no error |
| Maps.OtherContentsUnchanged | collections/map.go:56-118 | an operation of one map leaves the contents of every map under a prefix apart unchanged |
| Maps.StaysInside | collections/map.go:56-118 | whatever the key and value, a map writes under its own prefix only |
| Maps.CleanHolds | collections/map.go:75-107 | where everything stored is an entry, something is at a key's place exactly if the contents have the key |
| Maps.SetBecomes | collections/map.go:56-70 | setting keeps a collection one where everything stored is an entry, updates its contents and touches nothing else |
| Maps.RemoveBecomes | collections/map.go:111-118 | so does removing |
| Maps.GetReads | collections/map.go:75-107 | reading such a collection is reading its contents |
| Independence.MapsAreIndependent | collections/schema.go:46-108 | over any run of typed operations on the maps of a built schema, refused ones included, each map holds and iterates over what it would with a store to itself and its own operations only |
| Independence.TogetherIsPlain | collections/map.go:56-118 | and with keys and values that can be stored, its contents are those of a mathematical map under its own operations |
| Ranges.StartMeans | collections/iter.go:304-319 | the bytes of a start bound admit exactly the keys at, after, or past all with the prefix of the bounding key |
| Ranges.EndMeans | collections/iter.go:304-319 | the bytes of an end bound admit exactly the keys before, up to, or up to all with the prefix of the bounding key |
| Ranges.BoundsAreExact | collections/iter.go:135-165 | what the store is asked for is the range of the collection and nothing of any other |
| Ranges.IterateIsExact | collections/iter.go:135-196 | an iteration goes through exactly the collection's keys in the range, in order and once each, and reports an invalid iterator exactly if there are none |
| Ranges.IterateIsOwn | collections/iter.go:135-196 | an iteration depends on its own part of the store only |
| Ranges.PastEverythingStartsOver | collections/iter.go:148-153 | the excluded case: an empty range whose missing start reads as the beginning of the store, right exactly if the store has no key below the end |
| Ranges.ForeignKeyFound | collections/iter.go:148-153 | a concrete such range, empty by its meaning, whose iteration hands out a key of another collection |
| Ranges.KeyComesBack | collections/iter.go:217-230 | an iterator hands out the key that was stored |
| Ranges.Keys | collections/iter.go:248-260 | all keys of an iteration are decoded in order, or there is one that does not decode |
| Ranges.PrefixedPairRangeIsExact | collections/pair.go:227-232 | the range of a first part holds exactly the stored pairs with that first part |
| Ranges.PrefixedPairsFound | collections/pair.go:227-232 | iterating over it finds a pair exactly if it is stored and has that first part |
| Walks.EntryComesBack | collections/iter.go:263-275 | an iterator on a stored entry hands out its key and value |
| Walks.RangeOfContents | collections/iter.go:135-196 | the entries an iteration goes through are exactly the contents within the range, with their values, in the order of the keys |
| Walks.WalkOver | collections/map.go:137-149 | the loop shows the visitor the entries one after another until it stops or refuses |
| Walks.Walk | collections/map.go:130-151 | walking shows the visitor the collection's contents in the range, in order, until it stops; an empty range is an error |
| KeyCodecs.PairWrites | collections/pair.go:66-83 | a pair is written as its parts one after the other, in exactly the space of both |
| KeyCodecs.PairDecodes | collections/pair.go:85-99 | a pair is read back part by part, whatever follows |
| KeyCodecs.PairIsWhole | collections/pair.go:66-110 | a pair round-trips in exactly its advertised size if its first part can be followed by others and its second can stand alone |
| KeyCodecs.PairIsPartial | collections/pair.go:138-182 | a pair can be followed by others if both its parts can, so pairs nest to any depth |
| KeyCodecs.PairPrefixWrites | collections/pair.go:44-46 | a pair with its first part alone is written as that part |
| KeyCodecs.PairPrefixMatches | collections/pair.go:227-232 | a stored pair starts with those bytes exactly if its first part is the given one |
| KeyCodecs.DelimitedPrefix | collections/pair.go:138-171 | a self-delimiting key is nobody else's prefix |
| StandardKeys.RawIsWhole | collections/codec/string.go:18-38 | any string or byte string can stand alone |
| Runes.RuneWidthIff | collections/codec/string.go:40-50 | ranging over a string takes several bytes together exactly where a code point is written in several bytes of UTF-8 |
| StandardKeys.DecodeStringIff | collections/codec/string.go:52-60 | a string before other parts is what stands before the first zero byte, and without one decoding fails |
| StandardKeys.StringPartialIff | collections/codec/string.go:40-60 | a string can be followed by other parts of a key exactly if it has no zero byte and no rune of more than one byte |
| StandardKeys.StringPairWholeIff | collections/codec/string.go:40-60 | followed by an integer, a string comes back under the same condition exactly |
| StandardKeys.StringPairsCollide | collections/codec/string.go:40-50 | two different pairs of string and integer that are written the same |
| StandardKeys.StringsCollide | collections/codec/string.go:40-50 | two different one-rune strings that are written the same |
| StandardKeys.EncodeStringNonTerminal | collections/codec/string.go:40-50 | the loop over the string's runes writes what `EncodeString` says |
| StandardKeys.BytesPartialIff | collections/codec/bytes.go:48-79 | a byte string can be followed by other parts exactly if its length fits in a byte |
| StandardKeys.UintIsStorable | collections/codec/uint.go:14-48 | integers of 2, 4 or 8 bytes can stand alone and can be followed by others |
| StandardKeys.UintKeysSorted | collections/codec/uint.go:14-17 | integer keys are stored in the order of the integers |
| IndexedMaps.FitsByParts | collections/indexes/multi.go:23-35 | an index can keep a reference if the primary key can stand alone, and the reference key can too (unique) or can be followed by others |
| IndexedMaps.DropAgrees | collections/indexes/multi.go:69-75 | dropping a value's reference leaves the stored index the image of the map without that value, and of the old map no longer |
| IndexedMaps.AddAgrees | collections/indexes/unique.go:51-62 | a reference for a new key is stored exactly if the value is acceptable; the stored index is then the image of the map with it |
| IndexedMaps.ReferenceAgrees | collections/indexes/unique.go:34-63 | a stored index takes a value exactly if it is acceptable, and is then the image of the map to come; refusing, it is the image of the map as it was exactly if there was no old value; nothing outside its prefix changes |
| IndexedMaps.UnreferenceAgrees | collections/indexes/multi.go:61-75 | a stored index drops a value exactly if there is one, and is then the image of the map without it |
| IndexedMaps.ReferenceAllAgrees | collections/indexed_map.go:113-121 | all indexes take a value exactly if each finds it acceptable, each reading the old value from the untouched primary map; after a refusal they agree with the map only if the first refused a new key |
| IndexedMaps.UnreferenceAllAgrees | collections/indexed_map.go:123-131 | all indexes drop a value that is there |
| IndexedMaps.StepIsConsistent | collections/indexed_map.go:76-93 | in one store, an operation succeeds exactly if every index accepts and the primary map can encode the value; it does to the primary map what it would without indexes and leaves every stored index its image; refused, by an index or by the primary map after the indexes have moved on, exactly if harmless |
| IndexedMaps.RunIsConsistent | collections/indexed_map.go:76-153 | over every sequence of successful operations with keys that can be stored, what each index has stored is the image of what the primary map has stored, and that is what it would be without indexes |
| IndexedMaps.SuccessIsConsistentIff | collections/indexed_map.go:76-82 | a successful update leaves every index the image of the map exactly if all of the value's references come back from what the index writes for them |
| IndexedMaps.StringReferenceLost | collections/indexes/multi.go:55-59 | a concrete string reference whose update succeeds and leaves the index wrong, sharing its place with another string |
| IndexedMaps.RefusedSetLosesReference | collections/indexes/unique.go:34-63 | a concrete refused update after which the old value's reference is gone |
| IndexedMaps.EmptyIsConsistent | collections/indexed_map.go:45-57 | with nothing stored every index is the image of the map |
| IndexedMaps.MatchExactFinds | collections/indexes/multi.go:93-95 | looking up a reference key finds exactly the primary keys whose values have it |
| IndexedMaps.AddReference | collections/indexes/unique.go:34-63 | the code of both kinds of index on a shared store computes `Reference` |
| IndexedMaps.SetIndexed | collections/indexed_map.go:76-82 | the loop over the indexes, then the primary write, on one store, is one `Step` |
| IndexedMaps.RemoveIndexed | collections/indexed_map.go:87-93 | the loop over the indexes, then the primary removal, on one store, is one `Step` |

## Left out

- baseapp: store internals. Branches are overlays that read the live parent; read caches, pruning and proofs are not modelled.
- baseapp: the 64-bit overflow of the context's own gas meter, which is an unbounded number here. Block meters do overflow.
- baseapp: the check state's reference to the block gas meter, the pre-commit and prepare-check-state hooks, snapshots, streaming, halting, queries, events and telemetry.
- baseapp: a failing chain initializer, the comparison of its validators, and the panic on a block gas limit below -1.
- baseapp: event creation and response packing are part of a message's outcome; recovery handlers that panic themselves are not modelled.
- baseapp: VerifyVoteExtension, the check that vote extensions are enabled, ValidateVoteExtensions and GetBlockRetentionHeight.
- baseapp: the sum of a proposal's transaction sizes is unbounded, not a 64-bit integer.
- BaseApp.BaseApp.InitializeChain: a failing chain initializer and the comparison of its validators with the request's are not modelled.
- Consensus.RunMatchesChain: requires that the first block's transactions charge on their own. That is exact for the charges; a different charge need not show in the state, so for the state the condition is sufficient, and shown to be needed by an example.
- Agreement.MempoolAfterProposal: for mempools whose removal takes out the transaction asked for and no other; `Agreement.ProposalIsExact` needs no such thing.
- Consensus.TurnedAwayAtMaximum: for recovery handlers that do not themselves answer with the error of an exhausted block; `Consensus.LimitedBlockGas` needs no such thing.
- Agreement.ValidatorAcceptsProposal: for applications with a mempool; the mempool-less path returns the request's transactions unverified.
- types/abci.pb.go: the other messages; they are built from the same parts. Slices are shorter than 2^63 bytes, as in Go.
- DecRoot.RootSolves: for roots other than the square root, that corrections become small within 300 iterations is not proved.
- math: JSON, YAML and binary forms are not modelled.
- depinject: module-scoped providers, one-per-module and many-per-container types, interface bindings, struct arguments, graph rendering. Invokers are given places in the same list as providers.
- collections: IterateRaw, JSON and genesis import and export, key sets and sequences as wrappers of maps, the list of collections in name order. The store's own errors, and its refusal of empty keys, are not modelled.
- Maps.Set: the effect on the contents is stated for keys that can stand alone and values that come back from their bytes; for other keys only what is stored, and that collections elsewhere notice nothing.
- Maps.Remove: the effect on the contents is stated for keys that can stand alone.
- Walks.Walk: the visitor's effects are what it gathers; it does not write to the store it walks over. For the ranges of `Ranges.PastEverythingStartsOver` nothing is stated.
- IndexedMaps.RunIsConsistent: all indexes of a map have one type of reference keys here. For operations with references that cannot be stored, `IndexedMaps.SuccessIsConsistentIff` says when they do harm.
- Independence.MapsAreIndependent: the maps have one type of keys and one of values; `Schemas.SharedIsIndependent` is about bytes and needs no types.
