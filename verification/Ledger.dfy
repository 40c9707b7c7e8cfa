/**
 Blocks, what the node keeps on disk about them, when a block is valid, and what
 follows for every history of valid blocks.  Validator bookkeeping, signatures
 and proofs come from outside the modelled files, so what the chain asks of them
 is an input of each block (`Env`).
 */
module Ledger {
  import opened Prelude
  import opened Hashes
  import opened Merkle
  import opened MountainRange

  type Amount = n: nat | n <= MAX_UINT64

  type Positive = n: int | n > 0 witness 1

  // ---------- Blocks ----------

  datatype Body =
    | Coinbase(validator: nat, newCoins: Amount)
    | Stake(staker: nat, nullifier: Hash, stakeRoot: Hash, amount: Amount)
    | Standard(nullifiers: seq<Hash>, txoRoot: Hash, fee: Amount)
    | Mint(nullifiers: seq<Hash>, txoRoot: Hash, fee: Amount, assetID: Option<Hash>, newTokens: Amount)
    | Treasury(withdrawal: Amount)

  /** `wellFormed` is the outcome of the sanity checks that are not modelled (sizes, keys, locktimes). */
  datatype Transaction = Transaction(id: nat, uid: Hash, wid: Hash, body: Body, outs: seq<Hash>, wellFormed: bool)
  {
    function Outputs(): (outputs: seq<Hash>)
    {
      if body.Stake? then [] else outs
    }

    function Nullifiers(): (ns: seq<Hash>)
    {
      if body.Standard? || body.Mint? then body.nullifiers else []
    }

    /** CheckTransactionSanity. */
    predicate Sane()
    {
      && wellFormed
      && (body.Standard? || body.Mint? ==> body.nullifiers != [])
      && (!body.Stake? ==> outs != [])
    }
  }

  datatype Header = Header(id: nat, height: nat, parent: nat, timestamp: int, txRoot: Hash)

  datatype Block = Block(header: Header, txs: seq<Transaction>)

  datatype Validator = Validator(unclaimedCoins: Amount, stakes: map<Hash, int>)

  /** What a block meets that is not part of it and not part of the modelled state. */
  datatype Env = Env(now: int, validators: map<nat, Validator>, producerExists: bool, checkpointsAgree: bool,
                     headerSigned: bool, producerKey: bool, proofsAndSignaturesValid: bool,
                     genesisTime: int, epochLength: Positive, regtest: bool,
                     coinbase: Amount, treasuryCredit: Amount, banned: seq<Hash>)
  {
    /** The treasury's share of a coinbase is part of it. */
    predicate Valid()
    {
      treasuryCredit <= coinbase
    }
  }

  datatype Disk = Disk(blocks: seq<Block>, nullifiers: set<Hash>, roots: set<Hash>, treasury: Amount, supply: Amount)

  const EMPTY_DISK := Disk([], {}, {}, 0, 0)

  // ---------- Reading blocks ----------

  function TxOutputs(txs: seq<Transaction>): (outputs: seq<Hash>)
  {
    if txs == [] then [] else TxOutputs(txs[..|txs| - 1]) + txs[|txs| - 1].Outputs()
  }

  function TxNullifiers(txs: seq<Transaction>): (ns: seq<Hash>)
  {
    if txs == [] then [] else TxNullifiers(txs[..|txs| - 1]) + txs[|txs| - 1].Nullifiers()
  }

  function Withdrawn(txs: seq<Transaction>): (amount: nat)
  {
    if txs == [] then 0
    else Withdrawn(txs[..|txs| - 1]) + if txs[|txs| - 1].body.Treasury? then txs[|txs| - 1].body.withdrawal else 0
  }

  /** The staked total as the source keeps it, in 64 bits. */
  function Staked(txs: seq<Transaction>): (amount: Amount)
  {
    if txs == [] then 0
    else Wrap64(Staked(txs[..|txs| - 1]) + if txs[|txs| - 1].body.Stake? then txs[|txs| - 1].body.amount else 0)
  }

  function TransactionsMerkleRoot(txs: seq<Transaction>): (root: Hash)
    requires txs != []
  {
    Node(MerkleRoot(seq(|txs|, i requires 0 <= i < |txs| => txs[i].uid)),
         MerkleRoot(seq(|txs|, i requires 0 <= i < |txs| => txs[i].wid)))
  }

  function SetOf(s: seq<Hash>): (elements: set<Hash>)
  {
    set n | n in s
  }

  predicate NoDuplicates(s: seq<Hash>)
  {
    forall i, j :: 0 <= i < j < |s| ==> s[i] != s[j]
  }

  // ---------- Validity ----------

  const MAX_BLOCK_FUTURE_TIME := 10
  const RESTAKE_DELAY := (26 - 1) * 7 * 24 * 3600

  /** checkBlockContext. */
  predicate Connects(header: Header, tip: Header, env: Env)
  {
    && header.height == tip.height + 1
    && header.parent == tip.id
    && header.timestamp > tip.timestamp
    && header.timestamp <= env.now + MAX_BLOCK_FUTURE_TIME
    && env.producerExists
    && env.checkpointsAgree
  }

  predicate RestakeTooEarly(staker: nat, nullifier: Hash, time: int, env: Env)
  {
    && staker in env.validators && nullifier in env.validators[staker].stakes
    && env.validators[staker].stakes[nullifier] + RESTAKE_DELAY > time
  }

  /** What one transaction must satisfy against the state before the block. */
  predicate TxAllowed(tx: Transaction, d: Disk, time: int, env: Env, genesis: bool)
  {
    tx.Sane() &&
    match tx.body
    case Coinbase(v, coins) =>
      genesis || (v in env.validators && coins == env.validators[v].unclaimedCoins && coins != 0)
    case Stake(v, n, root, _) =>
      genesis || (root in d.roots && n !in d.nullifiers && !RestakeTooEarly(v, n, time, env))
    case Treasury(_) => !genesis
    case _ => !genesis && tx.body.txoRoot in d.roots && forall n :: n in tx.body.nullifiers ==> n !in d.nullifiers
  }

  /** Strictly increasing IDs, all above the zero ID. */
  predicate SortedByID(txs: seq<Transaction>)
  {
    (forall i :: 0 <= i < |txs| ==> 0 < txs[i].id) && (forall i, j :: 0 <= i < j < |txs| ==> txs[i].id < txs[j].id)
  }

  predicate CoinbasesDiffer(txs: seq<Transaction>)
  {
    forall i, j :: 0 <= i < j < |txs| && txs[i].body.Coinbase? && txs[j].body.Coinbase?
      ==> txs[i].body.validator != txs[j].body.validator
  }

  /** What the transactions of a block must satisfy together. */
  ghost predicate TxsValid(txs: seq<Transaction>, d: Disk, time: int, env: Env, genesis: bool)
  {
    && (!genesis ==> SortedByID(txs) && CoinbasesDiffer(txs))
    && (forall i :: 0 <= i < |txs| ==> TxAllowed(txs[i], d, time, env, genesis))
    && NoDuplicates(TxNullifiers(txs))
    && Withdrawn(txs) <= d.treasury
  }

  predicate NoStakeSpent(txs: seq<Transaction>)
  {
    forall i :: 0 <= i < |txs| && txs[i].body.Stake? ==> txs[i].body.nullifier !in TxNullifiers(txs)
  }

  /** The rules for the genesis block alone. */
  predicate GenesisValid(txs: seq<Transaction>)
  {
    && |txs| >= 2 && txs[0].body.Coinbase? && txs[0].outs != []
    && (forall i :: 0 <= i < |txs| && txs[i].body.Stake? ==> txs[i].body.stakeRoot == RootOf(txs[0].outs))
    && Staked(txs) <= txs[0].body.newCoins
  }

  /** validateBlock. */
  ghost predicate ValidBlock(blk: Block, d: Disk, env: Env, genesis: bool, fastAdd: bool)
  {
    && (genesis || (env.producerKey && (fastAdd || env.headerSigned)))
    && blk.txs != []
    && TransactionsMerkleRoot(blk.txs) == blk.header.txRoot
    && TxsValid(blk.txs, d, blk.header.timestamp, env, genesis)
    && NoStakeSpent(blk.txs)
    && (genesis ==> GenesisValid(blk.txs))
    && (fastAdd || env.proofsAndSignaturesValid)
  }

  // ---------- Connecting a block ----------

  /** Go's division, which truncates toward zero. */
  function GoDiv(a: int, b: Positive): (q: int)
  {
    if a >= 0 then a / b else -(-a / b)
  }

  /** A block that is the first of a later epoch than the tip. */
  predicate StartsEpoch(tip: Header, header: Header, env: Env)
  {
    var prevTime := if env.regtest && tip.height == 0 then env.now else tip.timestamp;
    GoDiv(header.timestamp - env.genesisTime, env.epochLength) > GoDiv(prevTime - env.genesisTime, env.epochLength)
  }

  datatype Applied = Applied(blk: Block, env: Env, fastAdd: bool)

  /** Coins that a block adds to the supply: the genesis coins, or the coinbase of an epoch it starts. */
  function NewSupply(blocks: seq<Block>, a: Applied): (coins: Amount)
  {
    if blocks == [] then
      if a.blk.txs != [] && a.blk.txs[0].body.Coinbase? then a.blk.txs[0].body.newCoins else 0
    else if StartsEpoch(blocks[|blocks| - 1].header, a.blk.header, a.env) then a.env.coinbase
    else 0
  }

  function Credit(blocks: seq<Block>, a: Applied): (coins: Amount)
  {
    if blocks != [] && StartsEpoch(blocks[|blocks| - 1].header, a.blk.header, a.env) then a.env.treasuryCredit else 0
  }

  /** What the validators get of a block's new coins. */
  function Reward(blocks: seq<Block>, a: Applied): (coins: int)
  {
    if blocks != [] then NewSupply(blocks, a) - Credit(blocks, a) else 0
  }

  /** The disk after a block, when the accumulator held `outs` before it. */
  function Connect(d: Disk, outs: seq<Hash>, a: Applied): (d': Disk)
  {
    var created := TxOutputs(a.blk.txs);
    Disk(d.blocks + [a.blk],
         d.nullifiers + SetOf(TxNullifiers(a.blk.txs)) + SetOf(a.env.banned),
         if created == [] then d.roots else d.roots + {RootOf(outs + created)},
         Wrap64(d.treasury - Withdrawn(a.blk.txs) + Credit(d.blocks, a)),
         Wrap64(d.supply + NewSupply(d.blocks, a)))
  }

  // ---------- Histories ----------

  /** All outputs of a history, in the order in which the accumulator gets them. */
  function Outputs(h: seq<Applied>): (outs: seq<Hash>)
  {
    if h == [] then [] else Outputs(h[..|h| - 1]) + TxOutputs(h[|h| - 1].blk.txs)
  }

  function DiskOf(h: seq<Applied>): (d: Disk)
  {
    if h == [] then EMPTY_DISK
    else Connect(DiskOf(h[..|h| - 1]), Outputs(h[..|h| - 1]), h[|h| - 1])
  }

  /** Every block was valid against the disk that the blocks before it left. */
  ghost predicate ValidHistory(h: seq<Applied>)
  {
    h != [] ==>
      && ValidHistory(h[..|h| - 1])
      && ValidNext(h[..|h| - 1], h[|h| - 1])
  }

  ghost predicate ValidNext(h: seq<Applied>, a: Applied)
  {
    && a.env.Valid()
    && ValidBlock(a.blk, DiskOf(h), a.env, h == [], a.fastAdd)
    && (h != [] ==> Connects(a.blk.header, h[|h| - 1].blk.header, a.env))
  }

  lemma {:induction false} ValidPrefix(h: seq<Applied>, k: nat)
    requires ValidHistory(h) && k <= |h|
    ensures ValidHistory(h[..k])
    ensures k < |h| ==> ValidNext(h[..k], h[k])
    decreases |h|
  {
    hide ValidNext;
    if k < |h| {
      assert h[..|h| - 1][..k] == h[..k];
      ValidPrefix(h[..|h| - 1], k);
    } else {
      assert h[..k] == h;
    }
  }

  lemma {:induction false} OutputsGrow(h: seq<Applied>, k: nat)
    requires k <= |h|
    ensures Outputs(h[..k]) <= Outputs(h)
    decreases |h|
  {
    if k < |h| {
      assert h[..|h| - 1][..k] == h[..k];
      OutputsGrow(h[..|h| - 1], k);
    } else {
      assert h[..k] == h;
    }
  }

  // ---------- Money ----------

  function TotalSupply(h: seq<Applied>): (coins: nat)
  {
    if h == [] then 0 else TotalSupply(h[..|h| - 1]) + NewSupply(DiskOf(h[..|h| - 1]).blocks, h[|h| - 1])
  }

  function TotalCredit(h: seq<Applied>): (coins: nat)
  {
    if h == [] then 0 else TotalCredit(h[..|h| - 1]) + Credit(DiskOf(h[..|h| - 1]).blocks, h[|h| - 1])
  }

  function TotalReward(h: seq<Applied>): (coins: int)
  {
    if h == [] then 0 else TotalReward(h[..|h| - 1]) + Reward(DiskOf(h[..|h| - 1]).blocks, h[|h| - 1])
  }

  function TotalWithdrawn(h: seq<Applied>): (coins: nat)
  {
    if h == [] then 0 else TotalWithdrawn(h[..|h| - 1]) + Withdrawn(h[|h| - 1].blk.txs)
  }

  function GenesisCoins(h: seq<Applied>): (coins: nat)
  {
    if h != [] && h[0].blk.txs != [] && h[0].blk.txs[0].body.Coinbase? then h[0].blk.txs[0].body.newCoins else 0
  }

  lemma {:induction false} BlocksOfDisk(h: seq<Applied>)
    ensures |DiskOf(h).blocks| == |h|
    ensures forall k :: 0 <= k < |h| ==> DiskOf(h).blocks[k] == h[k].blk
  {
    hide DiskOf;
    LastBlock(h);
    if h != [] {
      BlocksOfDisk(h[..|h| - 1]);
    }
  }

  lemma LastBlock(h: seq<Applied>)
    ensures DiskOf(h).blocks == if h == [] then [] else DiskOf(h[..|h| - 1]).blocks + [h[|h| - 1].blk]
  {
    hide Outputs, NewSupply, Credit;
  }

  /**
   As long as the total supply fits 64 bits, the recorded supply is the genesis
   coins plus every epoch's coinbase, and the treasury balance is what was
   credited less what was withdrawn, which never was more than was there.
   */
  lemma {:induction false} Money(h: seq<Applied>)
    requires ValidHistory(h)
    ensures TotalSupply(h) == GenesisCoins(h) + TotalCredit(h) + TotalReward(h)
    ensures TotalSupply(h) <= MAX_UINT64 ==>
      && DiskOf(h).supply == TotalSupply(h)
      && TotalWithdrawn(h) <= TotalCredit(h)
      && DiskOf(h).treasury == TotalCredit(h) - TotalWithdrawn(h)
    ensures TotalCredit(h) <= TotalSupply(h)
  {
    if h != [] {
      var init, last := h[..|h| - 1], h[|h| - 1];
      Money(init);
      BlocksOfDisk(init);
      assert ValidNext(init, last) && Withdrawn(last.blk.txs) <= DiskOf(init).treasury;
      MoneyOfBlock(DiskOf(init), Outputs(init), last, init == []);
      assert init == [] ==> h[0] == last;
      assert init != [] ==> init[0] == h[0];
    }
  }

  /** One block moves the recorded amounts by what it mints, credits and withdraws. */
  lemma MoneyOfBlock(d: Disk, outs: seq<Hash>, a: Applied, genesis: bool)
    requires a.env.Valid() && Withdrawn(a.blk.txs) <= d.treasury
    requires genesis <==> d.blocks == []
    ensures Credit(d.blocks, a) <= NewSupply(d.blocks, a)
    ensures !genesis ==> NewSupply(d.blocks, a) == Credit(d.blocks, a) + Reward(d.blocks, a)
    ensures genesis ==> Credit(d.blocks, a) == 0 == Reward(d.blocks, a)
    ensures d.supply + NewSupply(d.blocks, a) <= MAX_UINT64 ==>
      Connect(d, outs, a).supply == d.supply + NewSupply(d.blocks, a)
    ensures d.treasury + Credit(d.blocks, a) <= MAX_UINT64 ==>
      Connect(d, outs, a).treasury == d.treasury - Withdrawn(a.blk.txs) + Credit(d.blocks, a)
  {
    hide StartsEpoch, Withdrawn, TxOutputs, RootOf;
  }

  // ---------- Nullifiers ----------

  /** Every nullifier that a history's transactions spend, in order. */
  function AllNullifiers(h: seq<Applied>): (ns: seq<Hash>)
  {
    if h == [] then [] else AllNullifiers(h[..|h| - 1]) + TxNullifiers(h[|h| - 1].blk.txs)
  }

  function AllBanned(h: seq<Applied>): (ns: set<Hash>)
  {
    if h == [] then {} else AllBanned(h[..|h| - 1]) + SetOf(h[|h| - 1].env.banned)
  }

  /** A disk nullifier is a spent or a banned one. */
  lemma {:induction false} NullifiersOnDisk(h: seq<Applied>)
    ensures DiskOf(h).nullifiers == SetOf(AllNullifiers(h)) + AllBanned(h)
  {
    if h != [] {
      NullifiersOnDisk(h[..|h| - 1]);
    }
  }

  lemma {:induction false} BlockNullifiersAreFresh(txs: seq<Transaction>, d: Disk, time: int, env: Env, genesis: bool)
    requires forall i :: 0 <= i < |txs| ==> TxAllowed(txs[i], d, time, env, genesis)
    ensures forall n :: n in TxNullifiers(txs) ==> n !in d.nullifiers
  {
    if txs != [] {
      BlockNullifiersAreFresh(txs[..|txs| - 1], d, time, env, genesis);
      assert TxAllowed(txs[|txs| - 1], d, time, env, genesis);
    }
  }

  /** No nullifier is spent twice in a history. */
  lemma {:induction false} NoNullifierTwice(h: seq<Applied>)
    requires ValidHistory(h)
    ensures NoDuplicates(AllNullifiers(h))
  {
    if h != [] {
      var init, last := h[..|h| - 1], h[|h| - 1];
      NoNullifierTwice(init);
      FreshNullifiers(init, last);
      JoinNoDuplicates(AllNullifiers(init), TxNullifiers(last.blk.txs));
    }
  }

  /** The nullifiers of the next block are pairwise different, and neither spent nor banned before. */
  lemma FreshNullifiers(h: seq<Applied>, a: Applied)
    requires ValidNext(h, a)
    ensures NoDuplicates(TxNullifiers(a.blk.txs))
    ensures forall n :: n in TxNullifiers(a.blk.txs) ==> n !in AllNullifiers(h) && n !in AllBanned(h)
  {
    NullifiersOnDisk(h);
    BlockNullifiersAreFresh(a.blk.txs, DiskOf(h), a.blk.header.timestamp, a.env, h == []);
  }

  lemma JoinNoDuplicates(s: seq<Hash>, t: seq<Hash>)
    requires NoDuplicates(s) && NoDuplicates(t) && forall n :: n in t ==> n !in s
    ensures NoDuplicates(s + t)
  {
    var joined := s + t;
    forall i, j | 0 <= i < j < |joined| ensures joined[i] != joined[j] {
      if i < |s| <= j {
        assert joined[i] in s && joined[j] in t;
      }
    }
  }

  /** A nullifier that a block banned is not spent by any later block. */
  lemma BannedIsNeverSpent(h: seq<Applied>, k: nat, m: nat, n: Hash)
    requires ValidHistory(h) && k < m < |h| && n in h[k].env.banned
    ensures n !in TxNullifiers(h[m].blk.txs)
  {
    ValidPrefix(h, m);
    BannedBefore(h[..m], k, n);
    FreshNullifiers(h[..m], h[m]);
  }

  lemma {:induction false} BannedBefore(h: seq<Applied>, k: nat, n: Hash)
    requires k < |h| && n in h[k].env.banned
    ensures n in AllBanned(h)
    decreases |h|
  {
    if k < |h| - 1 {
      BannedBefore(h[..|h| - 1], k, n);
    }
  }

  // ---------- Roots ----------

  /** Every root on disk is the root of all outputs up to the end of some block. */
  lemma {:induction false} RootOnDisk(h: seq<Applied>, root: Hash) returns (k: nat)
    requires root in DiskOf(h).roots
    ensures k <= |h| && Outputs(h[..k]) != [] && root == RootOf(Outputs(h[..k]))
  {
    var init, last := h[..|h| - 1], h[|h| - 1];
    var created := TxOutputs(last.blk.txs);
    if root in DiskOf(init).roots {
      k := RootOnDisk(init, root);
      assert h[..k] == init[..k];
    } else {
      k := |h|;
      assert h[..k] == h;
      assert Outputs(h) == Outputs(init) + created;
    }
  }
}
