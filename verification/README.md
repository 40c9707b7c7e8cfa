# A verified model of ilxd

ilxd is the full node of the illium network, a chain of blocks that spend notes
hidden behind commitments. This project models the parts of the node on which
the safety of the chain rests, and proves what they promise:

- the **TXO accumulator**, a Merkle Mountain Range that keeps inclusion proofs up
  to date while it grows (`Hashes`, `Merkle`, `MountainRange`, `Inclusion`,
  `Accumulators`), and its flush and recovery protocol (`AccumulatorDBs`);
- the **standard circuit** that a spender's witness must satisfy (`Circuit`);
- the **chain state machine**: validity of a block, connecting it, the cached
  nullifier set, the txo roots, treasury and supply (`Ledger`, `Blockchains`). Two
  independent references say what these mean in terms of the blocks alone: which
  block may follow a history (`Rules`), and where each output stands
  (`ChainOutputs`); `Epochs` bounds the supply by the epochs passed;
- the theorems that join these three (`Spends`, `Solvency`, `Spendable`): in every
  history of valid blocks whose transactions have witnesses, each spend opens the
  output with the index it claims, created in an earlier block, and has the value
  with which it was created; no output is spent twice; what is unspent never
  exceeds what was paid in; and every note can be spent;
- **Avalanche voting**: vote records over shift registers, the choice between the
  blocks at a height, and the engine's handlers (`VoteBits`, `Votes`,
  `BlockChoices`, `Engine`);
- **Xthinner block compression**, a printer and a parser that meet over two
  different mempools (`Bitmaps`, `Txids`, `PrefixStack`, `PrefixLookup`, `Xthinner`);
- the **mempool's conflict indexes** (`Mempools`), how admission relates to what a
  block may hold (`Admission`), and the **fork-point search** of the sync manager
  (`ForkPoint`).

Code that changes state step by step is modelled by methods and classes with the
source's loops and fields; each is proved against a function or a relation on
values, and the lemmas are about those. Ghost fields record histories (what was
inserted, which votes were recorded, which blocks were connected).
`dafny verify dfyconfig.toml` checks everything.

## How things are represented

- Hashes and commitments are free constructors of one datatype
  (`Hash = Raw | Lurk | Node`): different inputs have different hashes, and a Lurk
  commitment is never a Merkle node. The block IDs of `ForkPoint` and the
  transaction IDs of `Mempools` are free in the same way.
- A `uint64` flag word is the set of positions of its one bits, and shifting drops
  what leaves the word. Amounts and counters wrap where the source's types wrap
  (`Wrap64`, `% 0x1_0000`, `% 256`).
- Shift registers are `bv16`, and block and transaction IDs in `VoteBits` and
  `Txids` are 32 `bv8`s.
- Ranging over a Go map visits its keys in an arbitrary order.
- Calls that the source makes under a lock, or on its one handler goroutine, are
  atomic steps. A database transaction sees its own writes and commits as a whole.
- What comes from outside (the clock, the validator set, signatures, checkpoints,
  an epoch's coinbase and its treasury share, whether a commit fails) is an input
  of each step.

## Assumptions

- Hash and commitment functions are injective.
- `ValidateSnark` accepts everything (zk/snarks.go:36-38), so "every transaction
  but a stake has a witness that satisfies the standard circuit" is a hypothesis
  of the theorems in `Spends`, `Solvency` and `Spendable`; so is that script commitments are canonical, as
  32-byte ones are.
- Disk reads and writes do not fail, except for a crash.
- The treasury's share of a coinbase is no more than the coinbase.

## Where the code does not do what it promises

Each is stated as a lemma or a run that shows the failure, beside the exact
condition under which the promise holds.

- An inclusion proof can be forged if an inserted element is itself the hash of an
  indexed leaf (`Inclusion.ForgedProof`); no steps, of whatever number, forge one if
  and only if no element hides a foreign leaf (`Inclusion.SoundIffGenuine`). Note
  commitments hide none.
- A script commitment that is not canonical (one longer than 32 bytes, or a shorter
  one that does not print as the bytes it is padded to) gives its note a second
  nullifier (`Circuit.SecondNullifier`), because the script hash pads or truncates
  it and the nullifier does not. With canonical ones a note has one nullifier for
  each index (`Circuit.NullifierIsOfIndex`).
- A node that crashes between the commit of its first outputs and the first write of
  a flush restarts with an empty accumulator (`AccumulatorDBs.LostGenesis`), and so
  does one on a pruned disk, which takes itself for new
  (`AccumulatorDBs.LostToPruning`). A restart loses the chain if and only if its first
  block was pruned, or no flush ever began and there are outputs
  (`AccumulatorDBs.Node.StartUp`); every other run is sound
  (`AccumulatorDBs.Node.Run`). The pruning option is never passed on
  (blockchain/chain.go:76-89), so only the first of these happens today.
- `CompareBits` agrees with all bits finalized so far if and only if fewer than 256
  have been (`Votes.ComparesAllFixed`): the last one sets the position back to zero
  (`Votes.LastBitWraps`), and a run of votes gets there (`Votes.LastBitIsReached`).
- The Xthinner decoder's documentation says that a missing transaction is listed for
  re-request. One with a prefix of all ones that no other has is passed over silently
  (`Xthinner.MissedSilently`). Apart from the collision that the documentation does
  admit (`Xthinner.Misplaced`), a place is re-requested if and only if several of the
  receiver's transactions have its prefix, or none has and the prefix is not all ones
  (`Xthinner.Relay`, `Xthinner.OneDelivery`).
- A place in flight is never freed if the answer comes late or has the wrong length,
  or if the request's random number comes up again, and it stays taken for good if
  the answer names another request. A height without a finalized block is polled if
  and only if its outstanding and its leaked places are fewer than the votes it needs
  (`Engine.ConsensusEngine.LeaksStarve`). One that has leaked as many is starved for
  good: no handler changes that, and a run gets there (`Engine.Starve`).
- Every caller of the consensus engine is promised a final status. Where a block has
  finalized, those that wait for ever are exactly the callers of blocks that were
  added afterwards (`Engine.ConsensusEngine.WaitsForEver`); a run with one is
  `Engine.Latecomer`.
- The mempool's nullifier index refuses only what conflicts with the pool if and only
  if it has no stale entry (`Mempools.IndexIsExact`). A removal leaves one exactly
  if it takes out a conflicting transaction with a nullifier of its own
  (`Mempools.RemovedNoStale`), as in `Mempools.StaleEntryRefuses`.
- The mempool's treasury check subtracts in 64 bits, and is right if and only if the
  pooled withdrawals already fit the balance (`Mempools.TreasuryCheckIsRight`). A run
  in which the balance falls overdraws it (`Mempools.Overdraw`).

## Model

| member | source | states |
|---|---|---|
| Hashes.ClimbConcat | zk/circuits/standard/standardcircuit.go:214-223 | folding a proof made of two parts is folding the second from where the first ends |
| Hashes.StepsOfJoin | blockchain/accumulator.go:209-211 | a proof's own flags joined with the shifted flags of the peak tree stand for the joined steps, as long as the 64-bit word holds them |
| Merkle.MerklePathClimbs | blockchain/merkle.go:125-180 | the siblings of any position climb to the root of the duplicate-last tree |
| Merkle.StoreIsUnique | blockchain/merkle.go:85-123 | an array whose cells are combined pairwise from its bottom row is the tree level by level, each padded with nil |
| Merkle.StoreEndsInRoot | blockchain/merkle.go:85-123 | the last cell of the array is the tree's root |
| Merkle.NextPowerOfTwo | blockchain/merkle.go:46-55 | the least power of two that is not below n; zero for zero |
| Merkle.BuildMerkleTreeStore | blockchain/merkle.go:85-123 | the array built in place is the level-by-level tree of the leaves |
| Merkle.ScanRow | blockchain/merkle.go:141-167 | one row of the scan finds the hash once, records its sibling and moves to its parent |
| Merkle.MerkleInclusionProof | blockchain/merkle.go:127-180 | for leaves that are distinct and none a parent, one hash a level and the right flags: the path of the leaf |
| Merkle.ParentsSeparated | blockchain/merkle.go:141-167 | distinct leaves, none a parent, make every level like that, so the scan never matches by accident |
| MountainRange.PeaksSeparated | blockchain/accumulator.go:209-210 | the peaks of any accumulator are leaves that the scan can tell apart |
| MountainRange.PathPrefixClimbs | blockchain/accumulator.go:200-214 | the siblings met on the lowest levels fold a leaf to its ancestor |
| MountainRange.PathSurvivesAppend | blockchain/accumulator.go:96-171 | a proof that is complete before an insertion is the start of the leaf's proof after it |
| MountainRange.LevelsGrow | blockchain/accumulator.go:96-171 | an insertion adds at most one hash at the end of each level and changes none |
| Inclusion.ValidateInclusionProof | zk/circuits/standard/standardcircuit.go:210-226 | accepts exactly when hashes and flags climb from the indexed commitment to the root |
| Inclusion.Soundness | zk/circuits/standard/standardcircuit.go:210-226 | for arbitrary hashes and flags, an accepted proof is for an element that was inserted, at the index where it was inserted |
| Inclusion.SoundIffGenuine | zk/circuits/standard/standardcircuit.go:210-226 | no steps, of whatever number, prove what was not inserted if and only if no inserted element hides a hash shaped like a foreign leaf |
| Inclusion.ForgedProof | zk/circuits/standard/standardcircuit.go:210-226 | with such an element, a proof of a commitment that was never inserted is accepted |
| Inclusion.OpaqueIsGenuine | types/note.go:24-46 | elements that are not hash nodes, as note commitments are, hide no leaf |
| Inclusion.PathToRoot | blockchain/accumulator.go:189-232 | the path of any element to its peak, followed by the peak's path, folds to the accumulator's root |
| Inclusion.PathFitsWord | blockchain/accumulator.go:209-211 | below 2^58 elements a whole proof fits the 64-bit flag word |
| Accumulators.AdvanceKeepsMidway | blockchain/accumulator.go:129-166 | the merge at one height and the left-or-right patch after it keep every tracked proof on its leaf's path to the carried tree or to its untouched peak |
| Accumulators.MidwayEnds | blockchain/accumulator.go:129-171 | when no peak is left to merge with, every tracked proof is complete again |
| Accumulators.SlotsAfterCarry | blockchain/accumulator.go:129-171 | the slots are again the peaks, nil where the count of elements has no bit |
| Accumulators.MergeFits | blockchain/accumulator.go:129-166 | a merge never leaves the slots, the guard on the number of peaks is always true, and the flag word is wide enough |
| Accumulators.TrackedProofIsUnique | blockchain/accumulator.go:250-275 | two accumulators fed the same elements hold the same proof of a leaf, whatever they protected and dropped |
| Accumulators.Accumulator.MaybeResizeAndSet | blockchain/accumulator.go:330-335 | grows the slots by two when the position is the last, and sets it |
| Accumulators.Accumulator.Insert | blockchain/accumulator.go:96-171 | the slots are the peaks of all elements and every tracked proof leads its leaf to its peak; exactly the protected leaf is added |
| Accumulators.Accumulator.Root | blockchain/accumulator.go:176-179 | the duplicate-last Merkle root of the peaks, for any non-empty accumulator |
| Accumulators.Accumulator.GetProof | blockchain/accumulator.go:189-232 | a proof is returned exactly for the tracked elements, and the circuit accepts it against the current root |
| Accumulators.Accumulator.DropProof | blockchain/accumulator.go:235-247 | forgets this proof and lookup and nothing else |
| Accumulators.Accumulator.MergeProofs | blockchain/accumulator.go:250-275 | takes over what is missing; valid when the other accumulator was fed the same elements |
| Accumulators.Accumulator.Clone | blockchain/accumulator.go:284-328 | a new accumulator with the same contents |
| Circuit.StandardCircuit | zk/circuits/standard/standardcircuit.go:72-205 | accepts exactly the witnesses whose inputs are proved, whose outputs are the public ones, and which balance without overflow |
| Circuit.ValueConservation | zk/circuits/standard/standardcircuit.go:178-205 | over unbounded integers and every asset, what comes out is at most what went in plus coinbase or minted amount |
| Circuit.BalancedIff | zk/circuits/standard/standardcircuit.go:178-205 | the balance check is one inequality for each asset, fee and coinbase for the native one and the minted amount for the minted one, over sums that fit 64 bits |
| Circuit.CommitmentBinds | types/note.go:24-46 | notes with one commitment agree in script hash, amount, asset, salt and state |
| Circuit.ScriptHashBinds | types/locking_script.go:63-81 | one script hash means one script commitment, as far as its first 32 bytes go, and the same parameters |
| Circuit.NullifierBinds | types/nullifier.go:70-82 | one nullifier means one index, one salt, and one script as it is printed with its parameters |
| Circuit.NullifierIsOfIndex | types/nullifier.go:70-82 | inputs that open one commitment have one nullifier if and only if they claim one index |
| Circuit.ThirtyTwoBytesAreCanonical | types/nullifier.go:70-82 | 32-byte script commitments print as the bytes they are hashed from, longer ones never do |
| Circuit.SecondNullifier | zk/circuits/standard/standardcircuit.go:87-131 | without that condition the same note at the same index has a second nullifier |
| Ledger.NoNullifierTwice | blockchain/validate.go:231-283 | over every valid history no nullifier occurs twice among all spends |
| Ledger.BannedIsNeverSpent | blockchain/chain.go:330-341 | a nullifier that a block bans is spent by no later block |
| Ledger.Money | blockchain/chain.go:248-302 | supply is genesis coins plus epoch coinbases, each split into treasury credit and reward; the treasury is credits less withdrawals and never goes below zero |
| Ledger.MoneyOfBlock | blockchain/io.go:446-475 | one block moves the recorded amounts by what it mints, credits and withdraws, with no wrap while the totals fit |
| Ledger.RootOnDisk | blockchain/chain.go:265-269 | every recorded root is the root of all outputs up to the end of some block |
| Ledger.NullifiersOnDisk | blockchain/chain.go:335-341 | the nullifiers on disk are exactly the spent and the banned ones |
| ChainOutputs.OutputStands | blockchain/chain.go:248-269 | in every history, output j of transaction t of block k, unless it is a stake, stands in the accumulator at the index counted from the outputs before it |
| ChainOutputs.NothingElseStands | blockchain/chain.go:248-269 | every index of the accumulator is that of some such output |
| ChainOutputs.EveryOutputIsProvable | blockchain/chain.go:265-269 | once a block is connected a root is on disk, and stays there, that accepts hashes and flags for each of its outputs; they fit the flag word below 2^58 outputs |
| Rules.NullifiersMean | blockchain/chain.go:330-341 | a nullifier is on disk if and only if some transaction of some block shows it or some block bans it |
| Rules.RootsMean | blockchain/chain.go:265-269 | a root is on disk if and only if it is that of all outputs up to some block that has outputs |
| Rules.TxRule | blockchain/validate.go:170-300 | the checks of one transaction hold if and only if a block may hold it by the blocks before: coins that may be claimed, roots after earlier blocks, nullifiers neither shown nor banned, 25 weeks before a restake |
| Rules.BlockRule | blockchain/validate.go:71-350 | a block is valid and connects if and only if it may follow by the blocks before it: linked header, rising IDs, one coinbase a validator, no nullifier shown twice or staked and shown, or the genesis rules |
| Rules.TxRootIs | blockchain/merkle.go:29-41 | the header's root is that of these two lists of IDs if and only if they are those of the transactions without and with witness, for lists of their length |
| Epochs.Linked | blockchain/validate.go:71-112 | in a valid history each header names the one before it, heights go up by one and times rise, and none is more than ten seconds ahead of the clock |
| Epochs.MintsInNewEpoch | blockchain/chain.go:271-302 | a block after genesis mints its coinbase and credits the treasury if it is in a later epoch, counted by truncating division, and does neither otherwise |
| Epochs.EpochMintsOnce | blockchain/chain.go:271-302 | of two blocks that mint, the later one is in a later epoch |
| Epochs.MintingsBounded | blockchain/chain.go:271-302 | no more blocks have minted than epochs have passed since genesis, one more on the test network |
| Epochs.SupplyBounded | blockchain/chain.go:248-302 | the supply is at most the genesis coins and the greatest coinbase times the number of mintings |
| Spends.SpentNoteExists | zk/circuits/standard/standardcircuit.go:87-108 | the note an input opens is the output with the index it claims, created by an earlier block |
| Spends.SpendNullifiersDiffer | blockchain/validate.go:231-283 | two different spends of a valid history show different nullifiers |
| Spends.NoCounterfeitNoDoubleSpend | blockchain/chain.go:206-375 | in every valid, witnessed history each spend opens exactly the output at its index in a strictly earlier block, and no two spends claim one index |
| Solvency.SpendOpensItsNote | zk/circuits/standard/standardcircuit.go:87-131 | the amount, asset, salt and state an input claims are those of the output note in the witness of the transaction that created it |
| Solvency.SpentAndUnspent | zk/circuits/standard/standardcircuit.go:87-131 | inputs that open distinct notes, together with the notes that none opens, have the value of all notes |
| Solvency.Solvent | zk/circuits/standard/standardcircuit.go:178-205 | over every valid, witnessed history and for every asset, notes that no spend has claimed and fees come to no more than coinbases, treasury payments and mints paid in |
| Solvency.NativeSolvent | blockchain/chain.go:248-302 | unspent native coins, fees and the treasury balance come to no more than coinbases claimed and epochs credited |
| Spendable.EveryNoteIsSpendable | zk/circuits/standard/standardcircuit.go:72-205 | for every note on the chain there is a root on disk and a witness with which the circuit accepts a transaction that spends it and shows its nullifier |
| Spendable.PaymentIsProvable | zk/circuits/standard/standardcircuit.go:146-205 | coins that a coinbase claims or the treasury pays can be put into a note |
| Spendable.MintIsProvable | zk/circuits/standard/standardcircuit.go:178-205 | with the witness of a transfer, a mint that adds a note of new tokens is accepted as well |
| Blockchains.NullifierSet.NullifierExists | blockchain/nullifierset.go:41-65 | the answer is the disk's, and cached answers go on agreeing with the disk |
| Blockchains.NullifierSet.LimitCache | blockchain/nullifierset.go:95-117 | only drops entries, and makes room for as many as asked |
| Blockchains.NullifierSet.AddNullifiers | blockchain/nullifierset.go:68-83 | the transaction gains the nullifiers and the cache forgets exactly these |
| Blockchains.TxoRootSet.UpdateCache | blockchain/txorootset.go:77-99 | a full cache loses the root cached longest ago and gains the new one; it outgrows its limit exactly if it is full, the root is new and nothing in it is older than now |
| Blockchains.Blockchain.ValidateBlock | blockchain/validate.go:147-350 | accepts exactly the blocks that satisfy the rules |
| Blockchains.Blockchain.CheckBlock | blockchain/validate.go:71-112 | passes exactly the valid blocks that extend the tip and are not known |
| Blockchains.Blockchain.ConnectBlock | blockchain/chain.go:206-375 | connects exactly those; memory and disk are again what the longer history determines, and a refused block changes nothing |
| Blockchains.Blockchain.StageBlock | blockchain/chain.go:228-302 | block, root, supply and treasury are staged as the history's next state has them |
| AccumulatorDBs.EntriesOf | blockchain/io.go:106-146 | the list that a map is written as reads back as that map |
| AccumulatorDBs.SerializeAccumulator | blockchain/io.go:106-146 | what is written stands for the accumulator's slots, proofs and lookups |
| AccumulatorDBs.DeserializeAccumulator | blockchain/io.go:148-180 | what is read back is a valid accumulator of the same elements with the same parts |
| AccumulatorDBs.Disk.CommitBlock | blockchain/chain.go:343-358 | the last flush never is ahead of the tip |
| AccumulatorDBs.AccumulatorDB.FlushToDisk | blockchain/accumulatordb.go:169-197 | three writes, after each of which the disk is sound; it completes if it may take all three, and what is on disk after any crash is stated |
| AccumulatorDBs.AccumulatorDB.Commit | blockchain/accumulatordb.go:131-167 | memory is replaced exactly if the flush did not crash, and is unchanged otherwise; the disk stays sound |
| AccumulatorDBs.AccumulatorDB.Init | blockchain/accumulatordb.go:41-118 | starts exactly if nothing was ever flushed, or the last flush is complete and at the tip, or no block after it was pruned and the new flush does not crash; then it has the accumulator of all outputs up to the tip, or an empty one if nothing was flushed; with a complete flush, no pruned block after it and three steps left it always starts, flushed at the tip |
| AccumulatorDBs.AccumulatorDB.RollForward | blockchain/accumulatordb.go:65-100 | walking back to the last flush and inserting forward gives the accumulator at the tip; it fails exactly if a block after the last flush was pruned |
| AccumulatorDBs.Node.ConnectBlock | blockchain/chain.go:228-358 | a copy of the accumulator gets the block's outputs and is committed after the block; whatever the crash, a running node has the accumulator of its chain, and what is then on disk is stated |
| AccumulatorDBs.Node.Stop | blockchain/chain.go:164-178 | closing flushes the accumulator in memory; what is then on disk is stated for any crash |
| AccumulatorDBs.Node.StartUp | blockchain/chain.go:91-113 | an initialised disk comes up exactly if Init can, with the accumulator at the tip, and always after a complete flush when three steps are left; the chain is lost exactly if its first block was pruned, or no flush ever began although there are outputs |
| AccumulatorDBs.Node.Run | blockchain/accumulatordb.go:41-197 | over every run of blocks, flushes, prunings, crashes and restarts, a running node has the accumulator of exactly the outputs of its chain; once a flush has begun, and unless blocks are pruned, no restart loses anything, no block is taken back, and a restart with three steps left brings the node up exactly if no flush was interrupted |
| AccumulatorDBs.BehindLastFlush | blockchain/accumulatordb.go:60-103 | a run of a flushed block, one that is not, a crash and a restart that ends with the outputs of both |
| AccumulatorDBs.LostGenesis | blockchain/accumulatordb.go:41-60 | a run in which a crash before the first flush loses the chain's outputs |
| AccumulatorDBs.LostToPruning | blockchain/chain.go:714-722 | a run with a complete flush at the tip in which pruning the first block loses the chain's outputs |
| AccumulatorDBs.NeverFlushed | blockchain/accumulatordb.go:41-60 | the chain has no outputs, so that an empty accumulator is right, if and only if none of its blocks has |
| VoteBits.CountBits16 | consensus/vote.go:438-443 | clearing the lowest one bit until none is left counts the one bits |
| VoteBits.NegateMinusOneIsNot | consensus/vote.go:300-306 | `-votes-1` is bitwise not |
| VoteBits.SetBitSets | consensus/vote.go:488-499 | setting a bit of an ID sets that one, counted from the most significant, and no other |
| VoteBits.CompareBits | consensus/vote.go:465-486 | true exactly when the two IDs agree on the bits up to and including the position |
| Votes.WindowShift | consensus/vote.go:365-375 | the two shift registers are the last sixteen votes, unknown ones being zero in both |
| Votes.RecordBlockVote | consensus/vote.go:365-394 | the method is the step function that the bounds are about |
| Votes.RoundMeans | consensus/vote.go:365-394 | of the last sixteen votes, more than twelve no leave a block unpreferred with score zero, more than twelve yes leave it preferred, one higher if it was already, and otherwise nothing changes; a flip and a finalization are reported exactly when they happen |
| Votes.RecordKeepsInv | consensus/vote.go:365-394 | thirteen times the score plus the weight still to be used never exceeds sixteen times the yes votes; the score grows by at most one a vote |
| Votes.FinalizationNeedsVotes | consensus/vote.go:365-400 | over every history with flips, resets and unknown votes, finalizing takes at least 130 yes votes and 172 votes |
| Votes.YesRound | consensus/vote.go:365-394 | of yes votes in a row the 172nd finalizes a preferred block and no earlier one does |
| Votes.NeverBoth | consensus/vote.go:290-327 | one and zero are never both conclusive |
| Votes.BitVoteKeepsInv | consensus/vote.go:290-327 | a finalized bit had at least 130 votes for its value while it was active, and no other bit changes |
| Votes.BitRoundMeans | consensus/vote.go:290-327 | a vote for a block is one for the bit in its ID and the zero ID none; of the last sixteen, more than twelve for a value prefer it, raise its score if it was preferred, or fix it at the 160th, and otherwise nothing changes |
| Votes.CompareWithFinalized | consensus/vote.go:336-341 | holds exactly for IDs that agree with the finalized bits below the active one |
| Votes.LastBitWraps | consensus/vote.go:290-327 | after the 256th bit the position is zero and every ID agrees |
| Votes.ComparesAllFixed | consensus/vote.go:336-341 | over every run of votes and settings of the active bit, CompareBits agrees with all bits finalized so far if and only if fewer than 256 have been |
| Votes.LastBitIsReached | consensus/vote.go:290-327 | a run of 173 votes for each bit finalizes all 256, so the position does wrap |
| BlockChoices.BlockChoice.FinalNeedsVotes | consensus/vote.go:99-107 | a finalized block had its 130 and 172 votes recorded, it is the only one, and no counter comes near overflow |
| BlockChoices.BlockChoice.AddNewBlock | consensus/vote.go:133-158 | a new block starts at score zero, preferred exactly if none was, it is acceptable and it agrees with the bits; no other record changes |
| BlockChoices.BlockChoice.RecordVote | consensus/vote.go:160-271 | each block gets one vote, at most one block finalizes, exactly if its record does, scores rise by at most one, fixed bits stay fixed, a block that can be preferred is; records, bits and preference after the vote are those that recording and choosing anew give |
| BlockChoices.VoteMeans | consensus/vote.go:166-200 | a vote is one for its block and one against every other, and the zero ID is neither |
| BlockChoices.FlipDropsPreference | consensus/vote.go:224-262 | a flipped bit drops the one preferred block and its votes; afterwards only an acceptable block that agrees with the fixed bits and has the new value is preferred, and one is if there is any |
| BlockChoices.FixKeepsAgreement | consensus/vote.go:205-268 | a fixed bit keeps a preferred block that agrees with all fixed bits; otherwise one that does is preferred, if any, and sets the preference for the next bit |
| BlockChoices.NewPreference | consensus/vote.go:246-268 | with no block preferred, an acceptable one that agrees with the fixed bits is preferred, if any, and sets the preference for the active bit |
| BlockChoices.FinalizeAlone | consensus/vote.go:160-271 | a run in which the least number of votes that can finalize a block, 172, does |
| BlockChoices.BlockChoice.VotesNeededToFinalize | consensus/vote.go:113-122 | the least number of rounds that any block still needs |
| BlockChoices.NeededIsLowerBound | consensus/vote.go:113-122 | no continuation with fewer votes, with blocks added in between, finalizes a block |
| Engine.ConsensusEngine.HandleNewBlock | consensus/engine.go:197-217 | a block that is new at its height is added with no score and its caller waits; a known one changes nothing; finalized blocks stay finalized, places in flight and leaked ones stay as they are, starved heights stay starved, and a caller is late exactly if its height has finalized |
| Engine.ConsensusEngine.HandleRegisterVotes | consensus/engine.go:355-432 | for answers of any length, every vote whose height has not finalized is counted there, and if it finalizes a block all callers waiting at the height are told; only heights that were asked change, and none if the answer is dropped; finalized blocks stay finalized, statuses sent stay as they are, places in flight are freed, or leaked exactly when the answer is dropped, and starved heights stay starved |
| Engine.CountedMeans | consensus/engine.go:384-405 | a counted vote enters each record as one for its block, against it or, for a block the engine does not have, as neither, unless the record starts afresh |
| Engine.ConsensusEngine.HandleRequestExpiration | consensus/engine.go:308-322 | every place of the request is freed and the books balance |
| Engine.ConsensusEngine.RegisterVote | consensus/engine.go:384-431 | unless a block has finalized or the vote has the wrong length, every block gets the vote, unknown blocks counting as unknown, and if one finalizes all callers waiting at the height are told |
| Engine.ConsensusEngine.FireCallbacks | consensus/engine.go:408-430 | every waiting caller at the height is sent Finalized for the winner and Rejected for all others |
| Engine.ConsensusEngine.Send | consensus/engine.go:402-430 | each block is sent at most one status; Rejected only if another block at its height has finalized |
| Engine.ConsensusEngine.OneOutcome | consensus/engine.go:402-430 | of the statuses sent at one height at most one is Finalized, and exactly the finalized block has it |
| Engine.ConsensusEngine.PollLoop | consensus/engine.go:434-476 | asks exactly about the heights that want more votes, once each, with at most 160 requests in flight; only a replaced request leaks, and starved heights stay starved |
| Engine.ConsensusEngine.LeaksStarve | consensus/engine.go:451-461 | a height with no finalized block is asked about if and only if its outstanding and leaked places are fewer than the votes it needs |
| Engine.Starve | consensus/engine.go:366-375 | a run of one block and 160 late answers after which its height is starved |
| Engine.ConsensusEngine.WaitsForEver | consensus/engine.go:384-430 | where a block has finalized, the callers that still wait are exactly those of blocks added afterwards |
| Engine.Latecomer | consensus/engine.go:197-217 | a run of 172 answered polls that finalizes a block, after which the caller of another block waits for ever |
| Txids.CompareIDs | types/id.go:19-31 | the byte loop computes the lexicographic order |
| Txids.CutKeepsOrder | mempool/xthinner.go:183-185 | cutting two IDs to one length keeps their order |
| Txids.BetweenHasPrefix | mempool/xthinner.go:86-99 | an ID between two with a common prefix has it as well |
| Txids.SortTxids | mempool/sort.go:35-54 | the same IDs, as often as before, in order; strictly if none repeats |
| Bitmaps.EncodeBitmap | mempool/xthinner.go:214-228 | the bitmap holds the flags, then zeros up to a whole byte |
| Bitmaps.DecodeBitmap | mempool/xthinner.go:230-242 | reads exactly the bits a bitmap holds |
| PrefixStack.ReadEmitted | mempool/xthinner.go:60-99 | the pops and pushes printed for a prefix read back as that prefix, whatever follows |
| PrefixStack.PrintedReplays | mempool/xthinner.go:166-182 | a printed message replays to its prefixes, and its padding is not read |
| PrefixLookup.OutcomesMean | mempool/xthinner.go:183-208 | with a cursor that never goes back, every prefix of a sorted block is found, requested or passed over as a search of the whole list would |
| PrefixLookup.OneMeaning | mempool/xthinner.go:186-208 | that search has one outcome at most |
| Xthinner.PushStage | mempool/xthinner.go:76-99 | the prefix is one that neither neighbour has, and one byte less would not do |
| Xthinner.NeighboursDecide | mempool/xthinner.go:86-99 | in a sorted list the two neighbours decide whether a prefix is unique |
| Xthinner.EncodeXthinner | mempool/xthinner.go:36-112 | fails exactly for a transaction that is not in the pool; otherwise the message replays to prefixes each of which names its transaction in the whole pool and is no longer than needed |
| Xthinner.DecodeXthinner | mempool/xthinner.go:133-212 | replays any message, and places and re-requests exactly as the look-ups say |
| Xthinner.LastSent | mempool/xthinner.go:186-208 | of the prefilled transactions with one ID the last one sent is placed, whatever the pool has |
| Xthinner.Relay | mempool/xthinner.go:36-212 | after encoding and decoding, every place is re-requested exactly if several of the receiver's transactions have the prefix or none has and it is not all ones, and holds the transaction that alone has it otherwise, which is the right one if the receiver has it; between equal pools the block is complete |
| Xthinner.OneDelivery | mempool/xthinner.go:183-209 | these rules leave no choice: the list and the prefix determine what is placed and what is re-requested |
| Xthinner.EqualPools | mempool/xthinner.go:183-209 | with the sender's own pool no transaction is re-requested |
| Xthinner.MissedSilently | mempool/xthinner.go:118-123 | a missing transaction with an all-ones prefix is neither found nor re-requested |
| Xthinner.Misplaced | mempool/xthinner.go:118-123 | a missing transaction whose prefix one other has is replaced by that one and not re-requested |
| Mempools.NoConflicts | mempool/mempool.go:230-376 | no two pooled transactions spend one nullifier, and no validator has two pooled coinbases |
| Mempools.AdmittedInv | mempool/mempool.go:230-376 | admission keeps every pooled transaction the owner of its nullifiers, and the coinbase and treasury indexes exact |
| Mempools.RemoveAllIs | mempool/mempool.go:189-228 | removal takes out the transactions and whatever conflicts with them, nothing else, and keeps the indexes exact |
| Mempools.TreasuryCheckIsRight | mempool/mempool.go:348-361 | the check admits exactly the withdrawals that fit if and only if the pooled ones fit already; otherwise none fits and it still admits positive ones unless the 64-bit difference is zero |
| Mempools.Overdraw | mempool/mempool.go:348-361 | a run in which the balance falls to 5 while a withdrawal of 10 waits, and one of 100 is then admitted |
| Mempools.IndexIsExact | mempool/mempool.go:268-283 | of the transactions that pass the sanity checks, the nullifier index refuses only those that conflict with the pool if and only if no entry is stale |
| Mempools.RemovedNoStale | mempool/mempool.go:189-228 | a removal leaves a stale entry exactly if it takes out a conflicting transaction that has a nullifier of its own |
| Mempools.AdmittedNoStale | mempool/mempool.go:230-376 | admission leaves no stale entry where none was |
| Mempools.StaleEntryRefuses | mempool/mempool.go:189-228 | an index entry left by a removed transaction refuses a transaction that conflicts with nothing |
| Mempools.Mempool.ValidateTransaction | mempool/mempool.go:230-376 | admits exactly the admissible transactions, says why not otherwise, and changes nothing then |
| Mempools.Mempool.RemoveBlockTransactions | mempool/mempool.go:189-228 | after a block nothing in the pool is in it or conflicts with it |
| Mempools.Mempool.Expire | mempool/mempool.go:89-102 | exactly the expired transactions go |
| Admission.AdmittedIfAllowed | mempool/mempool.go:230-376 | a sane transaction other than a treasury one is admitted, by the chain's own view, if and only if a block made now may hold it and the pool has no conflict with it and no larger minimum stake |
| Admission.AllowedLater | mempool/mempool.go:230-376 | so what is admitted is allowed in the next block, whenever that is made |
| Admission.TreasuryAdmitted | mempool/mempool.go:348-361 | while the pooled withdrawals fit the balance, a treasury payment is admitted if and only if it is new, on the whitelist and fits as well |
| Admission.PoolAfter | mempool/mempool.go:244-376 | an admission adds the transaction with its expiry, takes out the older coinbase of its validator and nothing else, and claims its nullifiers |
| ForkPoint.SharedBelow | sync/sync_manager.go:655-723 | hash-linked chains that share a block have it at one height and share all below it |
| ForkPoint.EqualMeansCommon | sync/sync_manager.go:682-716 | equal answers below a height where answers differ come from a block that all peers have, also when chains end early |
| ForkPoint.FailuresAre | sync/sync_manager.go:682-706 | a query fails at every height for the same peers, those that cannot be reached or whose chain does not reach the start, and for no honest one |
| ForkPoint.FindForkPoint | sync/sync_manager.go:655-723 | terminates for any peers and fails exactly if some peer fails to answer; for hash-linked chains that agree at the current height and differ at the target it returns the last common block and its height |

## Left out

- Validator set, stakes' weights and rewards (blockchain/validatorset.go): floating-point yield curves; what the chain asks of it is an input of each block.
- Coin emission (blockchain/chain.go:733-751): floating point; an epoch's coinbase and treasury credit are inputs with the credit at most the coinbase.
- Connecting blocks without validation (`BFNoValidation`) and `ReindexChainState`: they trust blocks that were validated before.
- Accumulator checkpoints, the index manager and notifications; pruning is a step of its own in `AccumulatorDBs`, of any depth and at any time, though the source never enables it, and `Blockchains` keeps all blocks.
- AccumulatorDBs.Node.Run: ends where a restart has lost the outputs, as nothing is promised from there on.
- Encodings of transactions, public keys and peer IDs, locktimes and field sizes: one flag of each transaction says whether these checks pass.
- Errors of the database other than a failing commit, and of the Lurk commitment function.
- Pointers inside maps: vote records and inclusion proofs are values that the maps hold, so a record reached through an old pointer is not modelled.
- Engine: the six-hour eviction of a height, answering queries of other peers, bans and peer selection; properties hold for the lifetime of a height.
- Mempool: fees and the proof and signature checks before a transaction reaches the handler.
- "At most one preferred block" in `BlockChoice` is not an invariant of the code and is not claimed.
- Accumulators.Accumulator.GetProof: acceptance excepts a joined path of more than 64 hashes, which takes at least 2^58 elements, because the flag word then loses bits.
- Accumulators.Accumulator.Root: requires an element, because the source panics on an empty accumulator.
- Xthinner.EncodeXthinner: requires that the zero ID is not sent after another ID, because the search would then stop at the end marker of the list and the source panics.
- Xthinner.DecodeXthinner: a message that makes the source panic gives None.
- Ledger.Money: the recorded supply and treasury are exact as long as the total supply fits 64 bits.
- "A block of the whole pool is valid" is not claimed: the pool may hold a stake of a nullifier together with a transaction that spends it.
- Epochs.MintingsBounded: the genesis time and the length of an epoch are the same for all blocks, as the source's parameters are.
- ForkPoint.FindForkPoint: the peers' chains stay as they are during the search, and their answers arrive in any order.
