# GhostChain protocol kernel, verified

A Dafny model of the parts of GhostChain that decide something: the protocol kernel
under `core/` (world state, mempool, consensus, virtual machine, base fee, native token,
bridge) and four small algorithms outside it (the chiplet's fault detector, the market
forecaster, the event logger's canonical JSON and the agents' policy guard). Each file is
one component, and `dafny verify dfyconfig.toml` checks them all.

Code that changes state in place is modelled by classes and loops, each method proved
against a function on values; what the component promises is then proved of that function
for all inputs, all runs or all reachable states. Files ending in `Spec`, and `Float64`, `Stake` and
`LeastSquares`, hold such functions where they deserve a file of their own.

## What is proved

What an operation does is stated in the terms of its callers, not only through the functions
the methods are tied to: opcodes in bytes, texts in characters, accounts by what the queries
answer, tasks and transactions by their fields.

- **Memory test** (`MarchTest`). A bank of any size and contents carries at most one
  physical defect: a stuck bit, a transition it cannot make, or an inversion, idempotent or
  state coupling between two bits. The six march passes report a fault exactly when the
  defect is not *masked*, and the address is the defective word's. The comment in the
  source claims that all coupling faults are detected; the masked family shows the limit:
  aggressor and victim in one word, and a disturbance that forces the victim to the value
  the aggressor just took. The passes write solid words, so no read can tell.
- **CRC-32C** (`Crc32c`). The table-driven checksum is the polynomial division of section
  12.1 of RFC 3720. It tells apart any two equal-length buffers that differ inside a window
  of 32 bits, and any two that differ in an odd number of bits.
- **World state** (`StateSpec`, `StateDB`). Accounts, balances and storage are heap objects,
  snapshots are deep copies. Snapshot, any run of writes, nested snapshots and reverts above
  it, then revert: every query answers as before. Each object carries the ghost number of
  the layer it was made for, and no two layers share a number; that is the absence of aliasing.
  The set of modified accounts is emptied by a revert, not restored. Code is kept outside
  snapshots, so the theorem needs a hash that separates the codes; without that it fails
  (`CollisionSurvivesRevert`).
- **Mempool** (`TxHeap`, `Mempool`). Heap and hash index hold the same transactions, each
  once, in heap order for the current base fee, in every run. Block selection returns the
  best transactions, best first, and leaves the pool alone.
- **Consensus** (`Float64`, `Stake`, `Consensus`). Stakes are summed in 64-bit words, and the
  quotient of two words is compared with two thirds in double precision; rounding is defined
  as IEEE 754 does. Read exactly, the comparison is the two-thirds rule for every set of
  voters exactly when the active stake fits in a word. As the program rounds it, it is that
  rule for every set of voters up to a stake of 2^53, and beyond that unless the votes are
  within one part in 2^50 of two thirds; both kinds of wrong decision exist
  (`Float64.RoundingDecides`). Two quorums share strictly more than a third of the stake up to
  2^53, and a third but for one part in 2^50 up to 2^64, so two finalized headers that differ
  in anything hashed need that much double voting. The header hash covers seven of the eleven
  fields; receipt root, gas limit, gas used and base fee are not bound by a certificate.
- **Virtual machine** (`GvmSpec`, `Gvm`, `GvmPrograms`). The byte-level loop always ends, and computes a
  fold over decoded instructions. Concatenated code runs in sequence. Gas and stack
  depth are static: what a run spends, and whether it comes to an instruction with too few
  operands, depends on the code alone, and extra gas changes nothing but what remains. Opcodes the
  interpreter does not implement are skipped free of charge and a push on a full stack is
  dropped, as in the source; a Go panic (arithmetic or a return on too few operands, or a
  slice out of range) is an ending of its own.
- **Forecaster** (`LeastSquares`, `MarketPredictor`). Over the reals the fitted line is the
  only one with the least squared error; the zero-denominator branch and the clamp of the
  coefficient of determination never act; a linear history is continued exactly, up to the
  clamp of each forecast at zero.
- **Canonical JSON** (`CanonicalJson`, `CanonicalText`). Two values have the same text exactly when they are
  equal up to key order at every depth, shown by a parser that inverts the printer before
  any following text.
- **Policy guard** (`PolicyGuard`). With a clock that never goes back, fewer than twice the
  maximum of tasks of one type pass in any interval as long as a window; one short of twice
  the maximum can be reached; other types do not matter.
- **Base fee** (`BaseFee`). For every positive fee and target the exact inputs on which the
  program is the rule it is meant to be: for a target below 2^63, when the excess over it is
  below 2^63 too (or just 2^63 with nothing rounded); for larger targets, which read as
  negative, in three regions (`Exact`). More than 2^63 below such a target the fee can fall to
  0 and below; `StaysPositive` says exactly when. The rule is monotone in gas and fee, stays
  at 1 or more, moves by at most an eighth a block, and empty blocks bring any fee to 1; so do
  runs of the program with a target below 2^63.
- **Token** (`Token`). Distributing a fee credits validator and treasury without debiting
  anyone, so the balances outgrow the supply by exactly the fees distributed. In every run
  from genesis the supply stays within its cap exactly when no negative share is burnt,
  balances stay at zero or above exactly when no negative share is credited, and the supply
  stays at zero or above exactly when no fee can be distributed at all: with any distribution
  that adds up, distributing a fee and burning what it credited leaves a negative supply.
- **Bridge** (`Bridge`). The preimage of a message identifier is injective although the
  amount is decimal text of any length. Before the nonce wraps no initiation overwrites a
  message. In every run, of any length and with any hash, a proven message was initiated and
  then proven with its proof hash, and a finalized one was finalized after that; an initiated
  one has no proof.

SHA-256 and the HMAC are function parameters, assumed to separate only the inputs that
occur. The clock is a parameter, and each locked method is one atomic step.

## Model

| member | source | states |
|---|---|---|
| `MarchTest.Store` | ghost-brain-core/reliability/fault_detector.cpp:92-96 | a write changes its word, and disturbs at most the victim bit (the defect model the test is run against) |
| `MarchTest.DefectsDo` | ghost-brain-core/reliability/fault_detector.cpp:92-96 | what each kind of defect does to the victim bit when a word is written (the defect model the test is run against) |
| `MarchTest.Bank.Write` | ghost-brain-core/reliability/fault_detector.cpp:103-104 | one assignment to a memory word leaves the whole bank as the defect model says |
| `MarchTest.MarchCTest` | ghost-brain-core/reliability/fault_detector.cpp:92-130 | makes the right diagnosis for every bank and initial contents: a fault exactly for an unmasked defect, at 8 times the victim's word, from the first pass that misreads it, of kind stuck-at-1 from passes 1 and 5, stuck-at-0 from passes 2 and 4 and transition from pass 3; kind and pass named for stuck-at and transition defects |
| `MarchTest.Blame` | ghost-brain-core/reliability/fault_detector.cpp:97-128 | what a failing read reports, with the kind of its pass, is the diagnosis |
| `MarchTest.Completeness` | ghost-brain-core/reliability/fault_detector.cpp:76-90 | a defect whose victim reads right in all five reading passes is masked |
| `MarchTest.MaskedPasses` | ghost-brain-core/reliability/fault_detector.cpp:76-90 | a masked coupling gets past every read, so the claim that coupling faults are detected has this exact exception |
| `MarchTest.Misread` | ghost-brain-core/reliability/fault_detector.cpp:105-128 | a failing read is at the victim of an unmasked defect; which pass it is for stuck-at and transition defects |
| `MarchTest.StoreClearing` | ghost-brain-core/reliability/fault_detector.cpp:103-104 | the first pass clears all but the victim bit, whatever the bank held |
| `MarchTest.Advance` | ghost-brain-core/reliability/fault_detector.cpp:105-124 | a good read and the write after it keep the closed-form description of the bank |
| `MarchTest.ReachedStep` | ghost-brain-core/reliability/fault_detector.cpp:105-124 | the closed form of the victim bit follows each write, in both directions |
| `Crc32c.MakeTableEntry` | ghost-brain-core/reliability/fault_detector.cpp:50-55 | the loop makes eight register steps |
| `Crc32c.Table.Get` | ghost-brain-core/reliability/fault_detector.cpp:57-65 | the table, filled on first use, holds eight register steps of every byte |
| `Crc32c.ComputeCrc` | ghost-brain-core/reliability/fault_detector.cpp:67-74 | one lookup a byte computes the bit-serial checksum of the buffer |
| `Crc32c.LookupFeedsByte` | ghost-brain-core/reliability/fault_detector.cpp:70-72 | shift, exclusive-or and lookup equal feeding eight bits |
| `Crc32c.PolyIsGenerator` | ghost-brain-core/reliability/fault_detector.cpp:52 | the source's reflected constant is the generator polynomial without its leading term |
| `Crc32c.CrcIsReference` | ghost-brain-core/reliability/fault_detector.cpp:67-74 | the checksum is the long division of section 12.1 of RFC 3720, for every byte string |
| `Crc32c.ShiftLinear` | ghost-brain-core/reliability/fault_detector.cpp:52 | the register step is linear over exclusive-or |
| `Crc32c.ShiftInjective` | ghost-brain-core/reliability/fault_detector.cpp:52 | only zero steps to zero |
| `Crc32c.SerialLinear` | ghost-brain-core/reliability/fault_detector.cpp:67-74 | two runs differ as a run on the difference does |
| `Crc32c.BurstDetected` | ghost-brain-core/reliability/fault_detector.cpp:198-214 | equal-length buffers that differ only inside 32 consecutive bits have different checksums |
| `Crc32c.OddErrorDetected` | ghost-brain-core/reliability/fault_detector.cpp:198-214 | so have buffers that differ in an odd number of bits |
| `Crc32c.VerifyDmaCrc` | ghost-brain-core/reliability/fault_detector.cpp:198-214 | rejects a buffer exactly when its checksum is not the expected one |
| `StateSpec.RevertRestores` | core/state/state.go:182-224 | after snapshot, any operations that keep it, and revert, every account, slot and code reads as at the snapshot and earlier snapshots are intact |
| `StateSpec.SavedLayersStay` | core/state/state.go:182-224 | no run disturbs a saved layer but a revert to it or below it |
| `StateSpec.RunKeepsCoded` | core/state/state.go:136-155 | in every run stored code sits under its own hash and every account's code hash is stored or empty |
| `StateSpec.CollisionSurvivesRevert` | core/state/state.go:136-155 | with a colliding hash a revert leaves another code behind, since code is not part of a snapshot |
| `StateSpec.TransferMoves` | core/state/state.go:94-114 | a transfer moves the amount, also to oneself, or changes no account's value |
| `StateSpec.StorageAfterWrite` | core/state/state.go:159-178 | a storage write changes one slot of one contract; every other slot, account, code and snapshot reads as before |
| `StateSpec.AccountAfterSetBalance` | core/state/state.go:77-83 | the balance is the amount; the rest of the account, and every other, as before |
| `StateSpec.AccountAfterAddBalance` | core/state/state.go:85-92 | the balance grows by the amount; the rest as before |
| `StateSpec.AccountAfterSubBalance` | core/state/state.go:94-105 | the balance falls by an amount it covers, and no answer changes otherwise |
| `StateSpec.AccountAfterIncrement` | core/state/state.go:126-132 | the nonce counts, from 2^64 - 1 to 0; the rest as before |
| `StateSpec.CodeAfterSet` | core/state/state.go:136-155 | the code is answered at once, and elsewhere only where the same hash is used |
| `StateSpec.QuietOperations` | core/state/state.go:182-224 | a snapshot changes no answer, an unknown revert nothing; nothing exists at first |
| `StateSpec.StorageIsLastWrite` | core/state/state.go:159-178 | in every run without reverts a slot holds the last value written to it, or what it held at first |
| `StateSpec.NonceCounts` | core/state/state.go:116-132 | in such a run a nonce counts its increments, in 64 bits |
| `StateDB.StateDB.GetAccount` | core/state/state.go:62-75 | answers with fresh objects that hold the account's values, or a zero account |
| `StateDB.StateDB.SetBalance` | core/state/state.go:77-83 | the effect on every layer is the operation on values; no saved layer changes |
| `StateDB.StateDB.AddBalance` | core/state/state.go:85-92 | likewise, mutating the balance in place |
| `StateDB.StateDB.SubBalance` | core/state/state.go:94-105 | likewise; refused exactly when the balance is too small |
| `StateDB.StateDB.Transfer` | core/state/state.go:107-114 | likewise; refused exactly when the balance is too small |
| `StateDB.StateDB.GetNonce` | core/state/state.go:116-124 | the account's nonce, or zero |
| `StateDB.StateDB.IncrementNonce` | core/state/state.go:126-132 | the nonce grows by one in 64 bits |
| `StateDB.StateDB.SetCode` | core/state/state.go:136-144 | stores the code under its hash and points the account at it |
| `StateDB.StateDB.GetCode` | core/state/state.go:146-155 | the code under the account's code hash |
| `StateDB.StateDB.GetStorage` | core/state/state.go:159-167 | the slot's value, or zeros |
| `StateDB.StateDB.SetStorage` | core/state/state.go:169-178 | the slot holds the value, every other slot of every contract what it held |
| `StateDB.StateDB.EnsureAccount` | core/state/state.go:257-262 | the account exists afterwards, empty if it is new |
| `StateDB.StateDB.CopyAccounts` | core/state/state.go:187-195 | every account is copied into new objects with the same values |
| `StateDB.StateDB.CopyStorage` | core/state/state.go:196-203 | every storage is copied slot by slot into new objects |
| `StateDB.StateDB.Snapshot` | core/state/state.go:182-207 | saves the live values in objects of their own; the identifier is the next index |
| `StateDB.StateDB.RevertToSnapshot` | core/state/state.go:209-224 | restores a saved layer and drops the later ones; refused for an unknown identifier |
| `StateDB.StateDB.Speculate` | core/state/state.go:182-224 | on the heap: snapshot, any run that keeps it, revert, and no query can tell the difference |
| `TxHeap.Transaction.EffectiveTip` | core/mempool/mempool.go:36-43 | the largest tip within both the priority fee and what the maximum fee leaves |
| `TxHeap.Heap.Swap` | core/mempool/mempool.go:61 | exchanges two transactions |
| `TxHeap.Heap.Push` | core/mempool/mempool.go:63-65 | appends |
| `TxHeap.Heap.Pop` | core/mempool/mempool.go:67-73 | takes the last |
| `TxHeap.Heap.HeapPush` | core/mempool/mempool.go:115 | sifting up keeps the heap order, with exactly one transaction more |
| `TxHeap.Heap.HeapPop` | core/mempool/mempool.go:157 | takes out a transaction whose tip no other exceeds, and keeps the heap order |
| `TxHeap.Heap.Init` | core/mempool/mempool.go:142 | heapify permutes and establishes the heap order |
| `TxHeap.RootBeatsAll` | core/mempool/mempool.go:54-59 | the root of a heap has the best tip |
| `Mempool.Mempool.Add` | core/mempool/mempool.go:98-119 | which error wins for every transaction; otherwise exactly one entry more, and heap and index agree |
| `Mempool.Mempool.ValidateIs` | core/mempool/mempool.go:202-219 | what a transaction must have, in numbers, and which lack is reported first |
| `Mempool.Mempool.Get` | core/mempool/mempool.go:121-127 | finds a transaction exactly when the heap holds one with the hash |
| `Mempool.Mempool.Size` | core/mempool/mempool.go:163-168 | the heap's length is the index's size |
| `Mempool.Mempool.Remove` | core/mempool/mempool.go:129-143 | exactly that hash is gone, from heap and index |
| `Mempool.Mempool.Purge` | core/mempool/mempool.go:179-200 | exactly the transactions received at the cutoff or before are gone, and counted |
| `Mempool.Mempool.UpdateBaseFee` | core/mempool/mempool.go:170-177 | the heap order holds for the new fee; the index is unchanged |
| `Mempool.Mempool.SelectForBlock` | core/mempool/mempool.go:145-161 | min(limit, size) distinct pool transactions, best first, none left out that beats one chosen; the pool is unchanged |
| `Mempool.Mempool.Replay` | core/mempool/mempool.go:98-200 | in every run heap and index hold the same transactions, within the size limit |
| `Mempool.SizesAgree` | core/mempool/mempool.go:163-168 | heap and index have the same size |
| `Float64.AboveTwoThirds` | core/consensus/consensus.go:199 | the rounded quotient of two rounded words exceeds the rounded constant exactly when 2^54 (3a - 2b) is at least b, for the rounded words a and b |
| `Float64.RoundMonotone` | core/consensus/consensus.go:199 | rounding to doubles keeps order |
| `Float64.RoundError` | core/consensus/consensus.go:199 | rounding moves a number of at least 1 by at most one part in 2^53 |
| `Float64.RoundExact` | core/consensus/consensus.go:199 | integers up to 2^53 are doubles |
| `Float64.ExactComparison` | core/consensus/consensus.go:199 | up to a total of 2^53 the comparison of doubles is three times the votes exceeding twice the total |
| `Float64.ComparisonMargin` | core/consensus/consensus.go:199 | for any total it decides so unless the votes are within one part in 2^50 of two thirds |
| `Float64.RoundingDecides` | core/consensus/consensus.go:199 | votes above two thirds that are refused, and votes below that are accepted |
| `Stake.ExactIffNoOverflow` | core/consensus/consensus.go:177-197 | with the comparison read exactly, the wrapped sums give the two-thirds rule for every set of voters exactly when the active stake is below 2^64 |
| `Stake.OverflowIsWrong` | core/consensus/consensus.go:177-197 | for any larger stake, a set of voters for which the wrapped sums are on the wrong side of two thirds |
| `Stake.VerdictIsExact` | core/consensus/consensus.go:177-200 | up to an active stake of 2^53 the program decides the two-thirds rule, for every set of voters |
| `Stake.VerdictMargin` | core/consensus/consensus.go:177-200 | below 2^64 it does unless the votes are within one part in 2^50 of two thirds |
| `Stake.QuorumsOverlap` | core/consensus/consensus.go:177-200 | two quorums share a third of the active stake but for one part in 2^50, and strictly more up to 2^53 |
| `Stake.QuorumGrows` | core/consensus/consensus.go:177-200 | more voters never lose a quorum |
| `Stake.UnanimousQuorum` | core/consensus/consensus.go:177-200 | all active validators together always have a quorum, if they have any stake |
| `Stake.SumOfPermuted` | core/consensus/consensus.go:91-106 | the order of the active validators does not change what a group holds |
| `Consensus.ValidatorSet.Add` | core/consensus/consensus.go:46-62 | inserts or replaces at the address; addresses stay unique and the total is the sum of the stakes, in 64 bits |
| `Consensus.ValidatorSet.Remove` | core/consensus/consensus.go:64-76 | takes out exactly that address; total and uniqueness are kept |
| `Consensus.ValidatorSet.ActiveValidators` | core/consensus/consensus.go:78-96 | the active validators, each as often as in the set, best stake first |
| `Consensus.ActiveIsOutOfJail` | core/consensus/consensus.go:85-89 | active is whoever is not jailed, or was jailed until a time before now, and nobody else |
| `Consensus.JailedDoesNotCount` | core/consensus/consensus.go:98-200 | a validator in jail might as well not be in the set: no stake sum and no verdict depends on it |
| `Consensus.FreeCounts` | core/consensus/consensus.go:98-200 | a validator out of jail counts with its stake, and its vote with it |
| `Consensus.ValidatorSet.TotalActiveStake` | core/consensus/consensus.go:98-106 | the 64-bit sum of their stakes |
| `Consensus.VoteSet.Add` | core/consensus/consensus.go:164-175 | records the vote exactly when height, round and type match |
| `Consensus.VoteSet.VotedStake` | core/consensus/consensus.go:187-197 | the nested loop computes the stake of the active validators whose recorded vote is for the block |
| `Consensus.VoteSet.HasQuorum` | core/consensus/consensus.go:177-200 | the verdict on those voters: wrapped sums, compared as doubles |
| `Consensus.VoterCounted` | core/consensus/consensus.go:190-195 | with unique addresses a vote adds exactly its validator's stake, once |
| `Consensus.Finalize` | core/consensus/consensus.go:272-291 | finalizes exactly on a quorum for the header's hash; the certificate is the votes for it, each once, with the time |
| `Consensus.PreimageExact` | core/consensus/consensus.go:219-230 | two headers hash the same bytes exactly when they agree on seven of their eleven fields |
| `Consensus.PreimageLayout` | core/consensus/consensus.go:219-230 | where each of the seven fields stands among the 140 hashed bytes |
| `Consensus.OneQuorumPerSet` | core/consensus/consensus.go:143-200 | one vote set never has a quorum for two blocks |
| `Consensus.AllVotesDecide` | core/consensus/consensus.go:177-200 | a block that all active validators last voted for has a quorum |
| `Consensus.OtherVotesDoNotCount` | core/consensus/consensus.go:164-197 | only the validators whose last vote is for the block are counted, and a vote replaces the one before |
| `Consensus.ConflictingFinality` | core/consensus/consensus.go:272-291 | two finalized headers that differ in what is hashed: a third of the active stake (strictly more up to 2^53) voted for both, in different vote sets |
| `Consensus.QuorumStays` | core/consensus/consensus.go:164-200 | a quorum stays while nobody changes its vote |
| `GvmSpec.RunConcat` | core/gvm/gvm.go:243-398 | running p then q is running q from where p leaves stack and gas |
| `GvmSpec.DecodeConcat` | core/gvm/gvm.go:378-392 | code that does not end inside a push decodes independently of what follows |
| `GvmSpec.CodeConcat` | core/gvm/gvm.go:243-398 | the same for bytes |
| `GvmSpec.GasIsStatic` | core/gvm/gvm.go:252-398 | out of gas exactly below the summed price up to the first halting instruction; otherwise exactly that price is spent |
| `GvmSpec.PanicIsStatic` | core/gvm/gvm.go:267-361 | code that comes to too few operands, by depth alone, panics exactly when it is paid for up to there; other code panics at most in the slice it ends with |
| `GvmSpec.ExtraGasRemains` | core/gvm/gvm.go:252-398 | extra gas changes only what remains |
| `Gvm.Stack.Push` | core/gvm/gvm.go:147-154 | one number more on top, unless 1024 are there |
| `Gvm.Stack.Pop` | core/gvm/gvm.go:156-162 | the top number is gone, or nothing is there |
| `Gvm.Memory.Ensure` | core/gvm/gvm.go:176-183 | grows with zeros to the end of the range, computed in 64 bits |
| `Gvm.Memory.Get` | core/gvm/gvm.go:190-193 | the slice, or a panic exactly when the range is not one |
| `Gvm.GVM.Arithmetic` | core/gvm/gvm.go:267-301 | the two topmost numbers a and b are replaced by a + b, a - b, a * b or the quotient of a by b (0 for a zero divisor), or a panic with fewer |
| `Gvm.GVM.Dispatch` | core/gvm/gvm.go:263-376 | one case of the switch does what the decoded instruction says |
| `Gvm.GVM.Execute` | core/gvm/gvm.go:243-398 | the loop ends, with the report of the fold over the decoded code |
| `Gvm.RunPush` | core/gvm/gvm.go:378-391 | a push costs, then fails at the end of the code, then pushes its bytes and skips them |
| `Gvm.ExecutionGas` | core/gvm/gvm.go:213-220 | for callers: out-of-gas exactly below the static price; otherwise gas used is that price and used plus remaining is what was offered |
| `Gvm.ExecutionPanics` | core/gvm/gvm.go:244-398 | for callers: which executions panic, by code and gas |
| `Gvm.ExecutionExtraGas` | core/gvm/gvm.go:244-398 | for callers: a richer context gets the same result and the difference back |
| `GvmPrograms.AddComputes` | core/gvm/gvm.go:267-273 | byte 01 leaves the sum, for its price |
| `GvmPrograms.SubComputes` | core/gvm/gvm.go:275-281 | byte 03 leaves the top number less the one below |
| `GvmPrograms.MulComputes` | core/gvm/gvm.go:283-289 | byte 02 leaves the product |
| `GvmPrograms.DivComputes` | core/gvm/gvm.go:291-301 | byte 04 leaves the quotient whose remainder is never negative, or 0 for a zero divisor |
| `GvmPrograms.ArithmeticNeedsTwo` | core/gvm/gvm.go:267-301 | with fewer than two numbers these panic once they are paid for |
| `GvmPrograms.CallerComputes` | core/gvm/gvm.go:309-314 | byte 33 pushes the caller's twenty bytes as a number |
| `GvmPrograms.CallValueComputes` | core/gvm/gvm.go:316-320 | byte 34 pushes the value sent |
| `GvmPrograms.ChainIdComputes` | core/gvm/gvm.go:303-307 | byte 46 pushes the chain number |
| `GvmPrograms.PopComputes` | core/gvm/gvm.go:322-326 | byte 50 takes the top number, if there is one |
| `GvmPrograms.ExtensionsCompute` | core/gvm/gvm.go:328-376 | bytes e0 and e2 push 1, byte 5b only costs |
| `GvmPrograms.PushComputes` | core/gvm/gvm.go:378-391 | bytes 60 to 7f push the number the next 1 to 32 bytes spell |
| `GvmPrograms.FullStackDrops` | core/gvm/gvm.go:147-154 | on 1024 numbers a push is paid for and dropped |
| `GvmPrograms.TruncatedEnds` | core/gvm/gvm.go:385-387 | a push whose bytes are missing ends the run |
| `GvmPrograms.StopEnds` | core/gvm/gvm.go:264-265 | byte 00 ends the run with the gas left |
| `GvmPrograms.ReturnEnds` | core/gvm/gvm.go:333-361 | bytes f3 and fd hand back as many zeros as the size asks for |
| `GvmPrograms.UnknownSkips` | core/gvm/gvm.go:378-394 | every other byte is skipped for nothing |
| `GvmPrograms.PricesAreLimits` | core/gvm/gvm.go:252-376 | the price of each opcode: with less gas, and only then, out of gas |
| `GvmPrograms.EndingsReport` | core/gvm/gvm.go:213-220 | what a caller is told of each ending |
| `GvmPrograms.ExecConcat` | core/gvm/gvm.go:243-398 | code after whole code goes on where that left the machine |
| `GvmPrograms.SubtractAndReturn` | core/gvm/gvm.go:243-398 | a whole program of five instructions, as its caller sees it |
| `LeastSquares.DenominatorIs` | economic-ai/prediction/market_predictor.ts:162-163 | the denominator is n²(n²-1)/12, positive for n of 2 and more |
| `LeastSquares.NormalEquations` | economic-ai/prediction/market_predictor.ts:163-164 | the residuals of the line sum to zero, plain and weighted by time |
| `LeastSquares.FitIsBest` | economic-ai/prediction/market_predictor.ts:145-148 | the line has the least squared error, and no other line has it |
| `LeastSquares.FitExplains` | economic-ai/prediction/market_predictor.ts:166-176 | the residual sum is at most the total, so the clamp never acts |
| `LeastSquares.FitRecovers` | economic-ai/prediction/market_predictor.ts:153-164 | a history on a line gives back that line |
| `LeastSquares.MeanBalances` | economic-ai/prediction/market_predictor.ts:168 | the mean leaves deviations that sum to zero |
| `MarketPredictor.OlsForecast` | economic-ai/prediction/market_predictor.ts:149-194 | the loops compute the best line, its continuation clamped at zero, the band, the trend and the coefficient of determination |
| `MarketPredictor.LinearIsExact` | economic-ai/prediction/market_predictor.ts:178-182 | a linear history is continued exactly up to the clamp, with no band and a perfect fit |
| `MarketPredictor.DeterminationInRange` | economic-ai/prediction/market_predictor.ts:42 | the coefficient of determination lies in [0, 1], and no root of a negative number is taken |
| `MarketPredictor.ForecastIs` | economic-ai/prediction/market_predictor.ts:175-182 | each forecast is the line at its time, or 0 where that is negative; the band is the root of the residual sum over n - 2 |
| `MarketPredictor.DeterminationIs` | economic-ai/prediction/market_predictor.ts:176 | the coefficient is the part of the squared distance to the mean that the line explains |
| `MarketPredictor.TrendIsSign` | economic-ai/prediction/market_predictor.ts:184-185 | the trend is the sign of the slope, unless that is below 10^-12 either way |
| `MarketPredictor.SteadyTrends` | economic-ai/prediction/market_predictor.ts:178-185 | steady growth is rising, steady decline falling, and no forecast is negative |
| `MarketPredictor.ShortHistory` | economic-ai/prediction/market_predictor.ts:196-204 | fewer than two values are continued flat |
| `MarketPredictor.PressureIs` | economic-ai/prediction/market_predictor.ts:206-214 | deflationary exactly when burning rises, inflationary exactly when demand rises and burning does not |
| `MarketPredictor.ConfidenceGrows` | economic-ai/prediction/market_predictor.ts:118 | the confidence is the share of the warm-up seen, 1 from its end on |
| `MarketPredictor.MetricsRead` | economic-ai/prediction/market_predictor.ts:121-123 | each metric is forecast from its own field |
| `MarketPredictor.WindowIsLast` | economic-ai/prediction/market_predictor.ts:92-93 | the history is the end of all observations |
| `MarketPredictor.Predictor.constructor` | economic-ai/prediction/market_predictor.ts:80-86 | a horizon of at least 1, a history of at most 500 and a warm-up of at most the history |
| `MarketPredictor.Predictor.Observe` | economic-ai/prediction/market_predictor.ts:90-102 | a negative observation is refused; otherwise the history is the last of all accepted ones, and the prediction is made from it |
| `MarketPredictor.Predictor.Predict` | economic-ai/prediction/market_predictor.ts:116-141 | one forecast a metric over the history, the pressure they imply, and the share of the warm-up seen |
| `CanonicalJson.SameText` | ghost-brain-core/integration/ai_event_logger.ts:73-86 | two values have the same canonical text exactly when they are equal up to key order at every depth |
| `CanonicalJson.ParseOfPrint` | ghost-brain-core/integration/ai_event_logger.ts:73-86 | a parser reads the text back as the value with sorted keys and leaves what follows |
| `CanonicalJson.CanonicalIsEquivalent` | ghost-brain-core/integration/ai_event_logger.ts:78-83 | the value read back is the value printed, up to key order |
| `CanonicalJson.ParseOfEscape` | ghost-brain-core/integration/ai_event_logger.ts:81-85 | a quoted string, with its escapes and surrogates, reads back as itself whatever follows |
| `CanonicalJson.EquivalentPrint` | ghost-brain-core/integration/ai_event_logger.ts:78-83 | reordering keys at any depth does not change the text |
| `CanonicalJson.SortSorts` | ghost-brain-core/integration/ai_event_logger.ts:78 | distinct keys come out strictly increasing by code units |
| `CanonicalJson.OneSortedList` | ghost-brain-core/integration/ai_event_logger.ts:78 | any way of sorting the keys gives the same list |
| `CanonicalJson.SignaturesSeparate` | ghost-brain-core/integration/ai_event_logger.ts:62-71 | with a configured key and a separating code, equal signatures are equal events up to key order; without a key all are equal |
| `CanonicalText.WordsAre` | ghost-brain-core/integration/ai_event_logger.ts:73-86 | the texts of null, true, false and of an empty array and object, letter by letter |
| `CanonicalText.ScalarsAre` | ghost-brain-core/integration/ai_event_logger.ts:85 | a number as it is, a string escaped between quotes |
| `CanonicalText.ArrayText` | ghost-brain-core/integration/ai_event_logger.ts:74-76 | an array is its items in their order, between brackets, with commas |
| `CanonicalText.ObjectText` | ghost-brain-core/integration/ai_event_logger.ts:77-84 | an object is its pairs between braces, with colons and commas, in increasing order of the keys' code units |
| `CanonicalText.LessIsPrecedes` | ghost-brain-core/integration/ai_event_logger.ts:78 | the order of keys: a beginning comes first, otherwise the first differing unit decides |
| `CanonicalText.ShortEscapes` | ghost-brain-core/integration/ai_event_logger.ts:81-85 | the seven escapes of one letter |
| `CanonicalText.OtherEscapes` | ghost-brain-core/integration/ai_event_logger.ts:81-85 | other control characters and lone surrogates in four hexadecimal digits, the rest as they are |
| `CanonicalText.StringText` | ghost-brain-core/integration/ai_event_logger.ts:81-85 | a string unit by unit, surrogate pairs as they are |
| `CanonicalText.SignatureIs` | ghost-brain-core/integration/ai_event_logger.ts:62-71 | the code of the canonical text, or 68 zeros with no key of 64 digits |
| `PolicyGuard.AnyInterval` | ai-orchestrator/safety/policy_guard.ts:166-180 | in every run each window holds at most the maximum for a type, and any interval as long as a window fewer than twice the maximum |
| `PolicyGuard.BoundIsReached` | ai-orchestrator/safety/policy_guard.ts:166-180 | for every type a run lets one short of twice the maximum through one interval |
| `PolicyGuard.GrantsBounded` | ai-orchestrator/safety/policy_guard.ts:166-180 | from any bucket, what the rest of a run can still grant |
| `PolicyGuard.TypesIndependent` | ai-orchestrator/safety/policy_guard.ts:168-172 | what a type is granted depends on the tasks of that type alone |
| `PolicyGuard.PolicyGuard.RateCheck` | ai-orchestrator/safety/policy_guard.ts:166-180 | opens a new bucket or counts in place, refused tasks too; refuses exactly above the maximum, with the count |
| `PolicyGuard.PolicyGuard.Emit` | ai-orchestrator/safety/policy_guard.ts:184-207 | appends the decision with its reason, time, chain and token, dropping the oldest entry of a full log |
| `PolicyGuard.PolicyGuard.Decide` | ai-orchestrator/safety/policy_guard.ts:99-110 | the layers in order, with the reason of the first that stops the task; such a task does not count towards the limit |
| `PolicyGuard.PolicyGuard.Check` | ai-orchestrator/safety/policy_guard.ts:98-110 | the verdict after the whole history of requests, which the log records entry by entry; forbidden tasks are denied, sensitive ones held, and any other stopped only by the limiter |
| `PolicyGuard.ForbiddenIsDenied` | ai-orchestrator/safety/policy_guard.ts:128-144 | slashing or ejecting validators, executing proposals, halting and changing chain parameters are denied in every state and not counted |
| `PolicyGuard.DenialReasons` | ai-orchestrator/safety/policy_guard.ts:131-141 | which prohibition is named |
| `PolicyGuard.SensitiveIsHeld` | ai-orchestrator/safety/policy_guard.ts:148-162 | critical and security tasks, bridge configuration and disbursements wait for a human in every state, and are not counted |
| `PolicyGuard.OthersAreLimited` | ai-orchestrator/safety/policy_guard.ts:166-180 | any other task is denied exactly as the 51st or later of a window not more than five minutes old |
| `PolicyGuard.OthersAreCounted` | ai-orchestrator/safety/policy_guard.ts:170-176 | what the limiter remembers of a task, refused or not |
| `PolicyGuard.NeverAllowed` | ai-orchestrator/safety/policy_guard.ts:98-110 | in no run is a forbidden or sensitive task allowed, and the log says whose task it was, of what type and when |
| `PolicyGuard.RecentIsLast` | ai-orchestrator/safety/policy_guard.ts:201-202 | the log keeps the last 2000 entries in order |
| `BaseFee.AdjustBaseFee` | core/gas-engine/gas.go:68-103 | the steps on big integers and 64-bit words compute the word-level function |
| `BaseFee.WordsAreExact` | core/gas-engine/gas.go:75-102 | for every positive fee and target and any gas, exactly the inputs on which that function is the intended rule |
| `BaseFee.StaysPositive` | core/gas-engine/gas.go:91-99 | the fee stays at 1 or more, except more than 2^63 below a target of 2^63 or more: there exactly if what is dropped is less than the fee |
| `BaseFee.NearTarget` | core/gas-engine/gas.go:75-102 | for a target of 2^63 or more, at a distance below 2^63: the rule exactly while fee times distance is below 2^64 minus the target |
| `BaseFee.EdgeTarget` | core/gas-engine/gas.go:75-102 | exactly 2^63 below such a target: the rule exactly when both quotients give the same step, in closed form |
| `BaseFee.FarTarget` | core/gas-engine/gas.go:75-102 | further below: the rule exactly when the step is 1, or the block is empty and nothing is rounded |
| `BaseFee.AdjustedFar` | core/gas-engine/gas.go:75-102 | further below, what the program returns: a fee dropped without a floor |
| `BaseFee.RuleIs` | core/gas-engine/gas.go:68-99 | the intended next fee in integers: an eighth of the fee in proportion to the distance, rounded down but at least 1, and a fee of 1 or more |
| `BaseFee.RuleMonotone` | core/gas-engine/gas.go:68-69 | more gas or a higher fee never lowers the next fee |
| `BaseFee.OneBlock` | core/gas-engine/gas.go:82-84 | one block moves the fee by at most an eighth, above 8 |
| `BaseFee.FeeBounds` | core/gas-engine/gas.go:70-103 | over n blocks, 7^n and 9^n over 8^n bound the change |
| `BaseFee.EmptyBlocks` | core/gas-engine/gas.go:86-99 | empty blocks bring any fee to exactly 1 within as many blocks as the fee |
| `BaseFee.ProgramFollowsRule` | core/gas-engine/gas.go:70-103 | runs of the program are runs of the rule, for a target below 2^63 and excesses below 2^63 |
| `BaseFee.ProgramMonotone` | core/gas-engine/gas.go:70-103 | so the program is monotone in gas and fee there |
| `BaseFee.ProgramBounds` | core/gas-engine/gas.go:70-103 | and moves within the n-block bounds, never below 1 |
| `BaseFee.ProgramReachesOne` | core/gas-engine/gas.go:70-103 | and comes to exactly 1 over empty blocks |
| `Token.RunDrift` | core/token/gst.go:93-182 | in every run the balances outgrow the supply by exactly the fees distributed |
| `Token.MoveConserves` | core/token/gst.go:107-108 | a transfer conserves the sum, changes two balances, and does nothing from an account to itself |
| `Token.AfterTransfer` | core/token/gst.go:93-110 | every balance after a transfer, and when and why it is refused |
| `Token.AfterMint` | core/token/gst.go:112-133 | the recipient, and nobody else, is credited; only by the authority, a positive amount, within a billion tokens |
| `Token.AfterBurn` | core/token/gst.go:135-152 | every balance and the supply after a burn, and when and why it is refused |
| `Token.AfterDistribute` | core/token/gst.go:154-182 | the rounded shares go to the validator and the treasury address, the rest off the supply |
| `Token.NothingDistributed` | core/token/gst.go:155-163 | no fee, and one that cannot be split, change nothing; only the latter is an error |
| `Token.SplitIsExact` | core/token/gst.go:160-171 | the parts add up to the fee and the burn exceeds its share by less than 2 |
| `Token.CapIffBurnNotNegative` | core/token/gst.go:57-67 | the supply stays within the cap in every run from genesis exactly when a valid distribution burns no negative share |
| `Token.EveryRun` | core/token/gst.go:56-182 | from genesis: within the cap, and the drift is the fees |
| `Token.SupplyNonNegativeIff` | core/token/gst.go:56-182 | the supply stays at zero or above in every run from genesis exactly when the shares do not add up, so that no fee is ever distributed |
| `Token.BalancesNonNegativeIff` | core/token/gst.go:56-182 | balances stay at zero or above in every run from genesis exactly when the shares do not add up or neither credited share is negative |
| `Token.RunNonNegative` | core/token/gst.go:93-182 | and from any ledger without negative balances |
| `Token.GSTRuntime.AllocGenesis` | core/token/gst.go:56-74 | refused exactly above the cap; non-negative allocations on a new runtime make a genesis |
| `Token.GSTRuntime.BalanceOf` | core/token/gst.go:76-84 | the balance, or zero |
| `Token.GSTRuntime.SetBalance` | core/token/gst.go:191-197 | a zero balance is not kept |
| `Token.GSTRuntime.Transfer` | core/token/gst.go:93-110 | the first check that fails, or the move; nothing else changes |
| `Token.GSTRuntime.Mint` | core/token/gst.go:112-133 | the first check that fails, or balance and supply grow by the amount |
| `Token.GSTRuntime.Burn` | core/token/gst.go:135-152 | the first check that fails, or balance and supply shrink by the amount |
| `Token.GSTRuntime.DistributeFees` | core/token/gst.go:154-182 | credits validator and treasury and shrinks the supply by the burn; refused for shares that do not add up |
| `Bridge.PreimageInjective` | core/bridge/bridge.go:111-134 | the hashed bytes determine sender, recipient, amount, chains and nonce |
| `Bridge.PreimageLayout` | core/bridge/bridge.go:111-134 | where each argument stands among the hashed bytes |
| `Bridge.DecimalIs` | core/bridge/bridge.go:116 | the amount's text is its decimal notation |
| `Bridge.BigEndianByte` | core/bridge/bridge.go:117-128 | byte k of a word is the word divided by the power of 256 that belongs there |
| `Bridge.InitiationIs` | core/bridge/bridge.go:149-185 | accepted is a positive amount on any route but the two between layers 1 and 3, stored under the hash of the next nonce |
| `Bridge.FillBuffer` | core/bridge/bridge.go:117-120 | the shifting loop writes the word most significant byte first |
| `Bridge.GenerateMessageID` | core/bridge/bridge.go:111-134 | the hash of that preimage |
| `Bridge.EveryRun` | core/bridge/bridge.go:149-222 | in every run of fewer than 2^64 initiations the messages are exactly the initiated ones, and as many as the nonce says |
| `Bridge.EveryMessage` | core/bridge/bridge.go:149-222 | in every run from the empty store: an initiated message has no proof; a proven one was initiated and then proven with its proof; a finalized one was finalized after that |
| `Bridge.MoveExplained` | core/bridge/bridge.go:187-222 | one call moves a message only if that call is a proof of an initiated one or the finalizing of a proven one |
| `Bridge.ChangeForward` | core/bridge/bridge.go:187-222 | a proof or a finalizing changes its message as the lifecycle says and no other |
| `Bridge.RunForward` | core/bridge/bridge.go:149-222 | in runs of fewer than 2^64 initiations no message goes back, changes its arguments or its proof once set |
| `Bridge.DistinctIds` | core/bridge/bridge.go:167-168 | no two initiations share an identifier |
| `Bridge.NonceWraps` | core/bridge/bridge.go:167 | at 2^64 - 1 the nonce starts again from 0 |
| `Bridge.MessageStore.Initiate` | core/bridge/bridge.go:149-185 | accepted exactly for a lawful route and a positive amount; the store gains the new message under its identifier |
| `Bridge.MessageStore.Prove` | core/bridge/bridge.go:187-203 | accepted exactly for an initiated message, which alone changes |
| `Bridge.MessageStore.Finalize` | core/bridge/bridge.go:205-222 | accepted exactly for a proven message, which alone changes |
| `Bridge.MessageStore.Pending` | core/bridge/bridge.go:232-244 | exactly the messages that are not finalized, each once |
| `Bridge.MessageStore.Replay` | core/bridge/bridge.go:149-222 | any run on the objects is the run on values |

## Left out

- HTTP, RPC, relays, reports to GhostBrain, file writes, timers, locks and goroutines: I/O around the cores. Each locked method is one step, so the gap between the two steps of `StateDB.Transfer`, and between validation and insertion in the mempool, is not modelled.
- MarchTest.MarchCTest: the fault's module name is its bank number and its detail text is the number of the failing pass; at most one defect at a time; the bank's bytes fit in the address space (`words * 8 <= 2^64`), as any array does.
- The link bit-error-rate simulation and the systolic known-answer test (fixed inputs), and `ecc_controller.cpp`, whose check masks do not form the code its header describes.
- `StateRoot` (it hashes in map order), `IsContract`, and code slices being stored without a copy, so that a caller who later changes the slice changes the stored code.
- StateDB.StateDB.SetBalance: the amounts passed in are not the state's own balance objects; callers cannot obtain those, since `GetAccount` copies.
- Mempool.Mempool.Add: a nil priority fee (a Go panic in the tip) and a caller that changes a transaction's fees after adding it; `New` keeping the caller's base-fee object in the heap until the first update; the unused `nonces` map.
- Mempool.Mempool.SelectForBlock: a negative limit, on which allocation panics.
- Consensus.ValidatorSet.ActiveValidators: validators of equal stake may come in another order than the library's unstable sort gives; nothing proved depends on it. All clock reads of one call are one time.
- `Jail`, `ProposeBlock` and `SlashDoubleSign`; signatures on votes and transactions.
- GvmSpec.GasIsStatic: says nothing of a run that panics, which `PanicIsStatic` does; the slice of a return or revert panics by the numbers on the stack, not by the code.
- Gvm.Memory.Get: a range larger than the host can allocate; the unused storage, input, logs and `Peek`, and a nil call value.
- MarketPredictor.OlsForecast: real arithmetic instead of floating point; the square root is a parameter.
- CanonicalJson.SameText: values outside JSON (undefined, functions, NaN, infinities) and -0; a number is carried as its printed text, so that printing of numbers is not modelled.
- The logger's queue and file.
- PolicyGuard.PolicyGuard.Check: the wording of the reasons; the two clock reads of one check are one; `recentDenials` and `recentLog`, which only list the log.
- BaseFee.WordsAreExact: fees of zero or less, which no run from a positive fee with a target below 2^63 reaches.
- `Estimate`, `TotalCost` and the other helpers of the gas engine: simple sums.
- Token.GSTRuntime.DistributeFees: the sum of the three shares is exact, not wrapped at 64 bits. Balances are values: the source stores a new big integer for every balance it sets and changes only its own supply object in place.
- Token.EveryRun: `AllocGenesis` is called once, on a new runtime.
- Bridge.MessageStore.Initiate: the failed status, which no code sets; neither payload nor direction is part of the identifier.
- The economic modules other than the forecaster, the task scheduler, the user interface, deployment scripts and Cosmos wiring.
