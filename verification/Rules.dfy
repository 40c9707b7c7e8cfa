/**
 Which blocks may follow a history, in terms of the blocks before and of nothing
 that the node keeps: the reference that the node's own rules are compared with.
 */
module Rules {
  import opened Prelude
  import opened Hashes
  import opened Merkle
  import opened MountainRange
  import opened Ledger
  import opened Spends
  import opened ChainOutputs

  // ---------- What the disk means ----------

  predicate Shows(tx: Transaction, n: Hash)
  {
    (tx.body.Standard? || tx.body.Mint?) && n in tx.body.nullifiers
  }

  predicate SpentIn(h: seq<Applied>, n: Hash)
  {
    exists k, t :: 0 <= k < |h| && 0 <= t < |h[k].blk.txs| && Shows(h[k].blk.txs[t], n)
  }

  predicate BannedIn(h: seq<Applied>, n: Hash)
  {
    exists k :: 0 <= k < |h| && n in h[k].env.banned
  }

  /** The root of all outputs up to the end of some block that has outputs. */
  ghost predicate RootAfter(h: seq<Applied>, root: Hash)
  {
    exists k: nat :: RootAt(h, k, root)
  }

  predicate RootAt(h: seq<Applied>, k: nat, root: Hash)
  {
    k < |h| && CreatedIn(h[k].blk.txs) > 0 && Outputs(h[..k + 1]) != [] && RootOf(Outputs(h[..k + 1])) == root
  }

  lemma {:induction false} ShownIn(txs: seq<Transaction>, n: Hash)
    ensures n in TxNullifiers(txs) <==> exists t :: 0 <= t < |txs| && Shows(txs[t], n)
  {
    if txs != [] {
      ShownIn(txs[..|txs| - 1], n);
    }
  }

  lemma {:induction false} NullifiersMean(h: seq<Applied>, n: Hash)
    ensures n in DiskOf(h).nullifiers <==> SpentIn(h, n) || BannedIn(h, n)
  {
    if h != [] {
      var init, last := h[..|h| - 1], h[|h| - 1];
      NullifiersMean(init, n);
      ShownIn(last.blk.txs, n);
      assert DiskOf(h).nullifiers
        == DiskOf(init).nullifiers + SetOf(TxNullifiers(last.blk.txs)) + SetOf(last.env.banned);
      hide DiskOf, TxNullifiers, SpentIn, BannedIn;
      SeenInLast(h, n);
    }
  }

  lemma SeenInLast(h: seq<Applied>, n: Hash)
    requires h != []
    ensures var init, last := h[..|h| - 1], h[|h| - 1];
      && (SpentIn(h, n) <==> SpentIn(init, n) || exists t :: 0 <= t < |last.blk.txs| && Shows(last.blk.txs[t], n))
      && (BannedIn(h, n) <==> BannedIn(init, n) || n in last.env.banned)
  {
    hide Shows;
    var init, last := h[..|h| - 1], h[|h| - 1];
    assert h == init + [last];
    if t :| 0 <= t < |last.blk.txs| && Shows(last.blk.txs[t], n) {
      assert Shows(h[|h| - 1].blk.txs[t], n);
    }
    if SpentIn(init, n) {
      var k, t :| 0 <= k < |init| && 0 <= t < |init[k].blk.txs| && Shows(init[k].blk.txs[t], n);
      assert Shows(h[k].blk.txs[t], n);
    }
    if SpentIn(h, n) {
      var k, t :| 0 <= k < |h| && 0 <= t < |h[k].blk.txs| && Shows(h[k].blk.txs[t], n);
      assert k < |init| ==> Shows(init[k].blk.txs[t], n);
    }
    if BannedIn(init, n) {
      var k :| 0 <= k < |init| && n in init[k].env.banned;
      assert n in h[k].env.banned;
    }
    if BannedIn(h, n) {
      var k :| 0 <= k < |h| && n in h[k].env.banned;
      assert k < |init| ==> n in init[k].env.banned;
    }
  }

  lemma {:induction false} RootsMean(h: seq<Applied>, root: Hash)
    ensures root in DiskOf(h).roots <==> RootAfter(h, root)
  {
    if h != [] {
      var init, last := h[..|h| - 1], h[|h| - 1];
      RootsMean(init, root);
      OutputsCounted(last.blk.txs);
      assert DiskOf(h).roots == DiskOf(init).roots +
        if CreatedIn(last.blk.txs) == 0 then {} else {RootOf(Outputs(h))};
      hide DiskOf, Outputs, CreatedIn, TxOutputs, RootOf, RootAfter;
      RootAfterLast(h, root);
    }
  }

  lemma RootAfterLast(h: seq<Applied>, root: Hash)
    requires h != []
    ensures RootAfter(h, root) <==> RootAfter(h[..|h| - 1], root) || RootAt(h, |h| - 1, root)
    ensures RootAt(h, |h| - 1, root) <==>
      CreatedIn(h[|h| - 1].blk.txs) > 0 && Outputs(h) != [] && RootOf(Outputs(h)) == root
  {
    hide RootAt;
    LastRoot(h, root);
    var init := h[..|h| - 1];
    if k: nat :| RootAt(init, k, root) {
      OnlyInside(init, k, root);
      SameRootAt(h, k, root);
    }
    if k: nat :| RootAt(h, k, root) {
      OnlyInside(h, k, root);
      if k < |init| {
        SameRootAt(h, k, root);
      }
    }
  }

  lemma LastRoot(h: seq<Applied>, root: Hash)
    requires h != []
    ensures RootAt(h, |h| - 1, root) <==>
      CreatedIn(h[|h| - 1].blk.txs) > 0 && Outputs(h) != [] && RootOf(Outputs(h)) == root
  {
    hide Outputs, CreatedIn, RootOf;
    assert h[..|h| - 1 + 1] == h;
  }

  lemma SameRootAt(h: seq<Applied>, k: nat, root: Hash)
    requires k < |h| - 1
    ensures RootAt(h[..|h| - 1], k, root) <==> RootAt(h, k, root)
  {
    hide Outputs, CreatedIn, RootOf;
    assert h[..|h| - 1][k] == h[k] && h[..|h| - 1][..k + 1] == h[..k + 1];
  }

  lemma OnlyInside(h: seq<Applied>, k: nat, root: Hash)
    requires RootAt(h, k, root)
    ensures k < |h|
  {
  }

  // ---------- One transaction ----------

  predicate Unseen(h: seq<Applied>, n: Hash)
  {
    !SpentIn(h, n) && !BannedIn(h, n)
  }

  /**
   A transaction that a block at this time may hold after this history.  A
   coinbase takes exactly what its validator may claim; a stake of a note that is
   staked already waits until 25 weeks have passed; treasury payments, transfers
   and mints have no place in the genesis block.
   */
  ghost predicate MayHold(h: seq<Applied>, tx: Transaction, time: int, env: Env)
  {
    tx.wellFormed &&
    match tx.body
    case Coinbase(v, coins) =>
      tx.outs != [] && (h == [] || (v in env.validators && coins > 0 && coins == env.validators[v].unclaimedCoins))
    case Stake(v, n, root, _) =>
      h == [] ||
      (&& RootAfter(h, root) && Unseen(h, n)
       && (v in env.validators && n in env.validators[v].stakes ==>
             time >= env.validators[v].stakes[n] + 25 * 7 * 24 * 3600))
    case Treasury(_) => tx.outs != [] && h != []
    case Standard(ns, root, _) =>
      tx.outs != [] && h != [] && ns != [] && RootAfter(h, root) && forall n :: n in ns ==> Unseen(h, n)
    case Mint(ns, root, _, _, _) =>
      tx.outs != [] && h != [] && ns != [] && RootAfter(h, root) && forall n :: n in ns ==> Unseen(h, n)
  }

  lemma TxRule(h: seq<Applied>, tx: Transaction, time: int, env: Env)
    ensures TxAllowed(tx, DiskOf(h), time, env, h == []) <==> MayHold(h, tx, time, env)
  {
    forall n ensures n in DiskOf(h).nullifiers <==> !Unseen(h, n) {
      NullifiersMean(h, n);
    }
    forall root ensures root in DiskOf(h).roots <==> RootAfter(h, root) {
      RootsMean(h, root);
    }
    hide DiskOf, Unseen, RootAfter;
  }

  // ---------- The transactions of a block ----------

  /** No nullifier is shown twice, whether by two transactions or by one. */
  ghost predicate ShownOnce(txs: seq<Transaction>)
  {
    forall t: nat, i: nat, u: nat, j: nat :: IsShown(txs, t, i) && IsShown(txs, u, j) && (t != u || i != j) ==>
      txs[t].body.nullifiers[i] != txs[u].body.nullifiers[j]
  }

  predicate IsShown(txs: seq<Transaction>, t: nat, i: nat)
  {
    && t < |txs| && (txs[t].body.Standard? || txs[t].body.Mint?)
    && i < |txs[t].body.nullifiers|
  }

  lemma {:induction false} CameFrom(txs: seq<Transaction>, p: nat) returns (t: nat, i: nat)
    requires p < |TxNullifiers(txs)|
    ensures IsShown(txs, t, i) && TxNullifiers(txs)[p] == txs[t].body.nullifiers[i]
    ensures p == |TxNullifiers(txs[..t])| + i
    decreases |txs|
  {
    var init := txs[..|txs| - 1];
    if p < |TxNullifiers(init)| {
      t, i := CameFrom(init, p);
      assert init[..t] == txs[..t];
    } else {
      t, i := |txs| - 1, p - |TxNullifiers(init)|;
    }
  }

  lemma ShownDiffer(txs: seq<Transaction>, t: nat, i: nat, u: nat, j: nat)
    requires NoDuplicates(TxNullifiers(txs)) && IsShown(txs, t, i) && IsShown(txs, u, j) && (t != u || i != j)
    ensures txs[t].body.nullifiers[i] != txs[u].body.nullifiers[j]
  {
    hide TxNullifiers, NoDuplicates;
    if t < u || (t == u && i < j) {
      BlockNullifiersDiffer(txs, t, i, u, j);
    } else {
      BlockNullifiersDiffer(txs, u, j, t, i);
    }
  }

  lemma ShownOnceIs(txs: seq<Transaction>)
    ensures NoDuplicates(TxNullifiers(txs)) <==> ShownOnce(txs)
  {
    var ns := TxNullifiers(txs);
    hide TxNullifiers;
    if NoDuplicates(ns) {
      forall t: nat, i: nat, u: nat, j: nat | IsShown(txs, t, i) && IsShown(txs, u, j) && (t != u || i != j)
        ensures txs[t].body.nullifiers[i] != txs[u].body.nullifiers[j]
      {
        ShownDiffer(txs, t, i, u, j);
      }
    }
    if ShownOnce(txs) {
      forall p, q | 0 <= p < q < |ns| ensures ns[p] != ns[q] {
        var t, i := CameFrom(txs, p);
        var u, j := CameFrom(txs, q);
        assert t != u || i != j;
      }
    }
  }

  /** What a block's stakes come to. */
  function StakeSum(txs: seq<Transaction>): (amount: nat)
  {
    if txs == [] then 0
    else (if txs[0].body.Stake? then txs[0].body.amount else 0) + StakeSum(txs[1..])
  }

  lemma {:induction false} StakeSumSnoc(txs: seq<Transaction>, tx: Transaction)
    ensures StakeSum(txs + [tx]) == StakeSum(txs) + if tx.body.Stake? then tx.body.amount else 0
  {
    if txs == [] {
      assert txs + [tx] == [tx];
    } else {
      StakeSumSnoc(txs[1..], tx);
      assert (txs + [tx])[1..] == txs[1..] + [tx];
    }
  }

  /** The source adds stakes in 64 bits. */
  lemma {:induction false} StakedIs(txs: seq<Transaction>)
    ensures Staked(txs) == Wrap64(StakeSum(txs))
  {
    if txs != [] {
      var init, last := txs[..|txs| - 1], txs[|txs| - 1];
      StakedIs(init);
      assert init + [last] == txs;
      StakeSumSnoc(init, last);
      WrapTwice(StakeSum(init), if last.body.Stake? then last.body.amount else 0);
    }
  }

  lemma WrapTwice(a: nat, b: nat)
    ensures Wrap64(Wrap64(a) + b) == Wrap64(a + b)
  {
  }

  // ---------- A block ----------

  /** The rules that only the genesis block must meet. */
  predicate MayBegin(txs: seq<Transaction>)
  {
    && |txs| >= 2 && txs[0].body.Coinbase? && txs[0].outs != []
    && Wrap64(StakeSum(txs)) <= txs[0].body.newCoins
    && forall t :: 0 <= t < |txs| && txs[t].body.Stake? ==> txs[t].body.stakeRoot == RootOf(txs[0].outs)
  }

  /** The rules that every later block must meet: it extends the tip, and its transactions stand in order. */
  predicate MayExtend(h: seq<Applied>, a: Applied)
    requires h != []
  {
    var header, tip, txs := a.blk.header, h[|h| - 1].blk.header, a.blk.txs;
    && header.parent == tip.id && header.height == tip.height + 1
    && tip.timestamp < header.timestamp <= a.env.now + 10
    && a.env.producerExists && a.env.producerKey && a.env.checkpointsAgree && (a.env.headerSigned || a.fastAdd)
    && (forall t :: 0 <= t < |txs| ==> txs[t].id > 0)
    && (forall t, u :: 0 <= t < u < |txs| ==>
          && txs[t].id < txs[u].id
          && (txs[t].body.Coinbase? && txs[u].body.Coinbase? ==> txs[t].body.validator != txs[u].body.validator))
  }

  /** A block that may follow a history. */
  ghost predicate MayFollow(h: seq<Applied>, a: Applied)
  {
    var txs := a.blk.txs;
    && a.env.treasuryCredit <= a.env.coinbase
    && txs != [] && TransactionsMerkleRoot(txs) == a.blk.header.txRoot
    && (a.env.proofsAndSignaturesValid || a.fastAdd)
    && (forall t :: 0 <= t < |txs| ==> MayHold(h, txs[t], a.blk.header.timestamp, a.env))
    && ShownOnce(txs) && Withdrawn(txs) <= DiskOf(h).treasury
    && (forall t, u :: 0 <= t < |txs| && 0 <= u < |txs| && txs[t].body.Stake? ==>
          !Shows(txs[u], txs[t].body.nullifier))
    && if h == [] then MayBegin(txs) else MayExtend(h, a)
  }

  lemma StakeNotShown(txs: seq<Transaction>)
    ensures NoStakeSpent(txs) <==>
      forall t, u :: 0 <= t < |txs| && 0 <= u < |txs| && txs[t].body.Stake? ==> !Shows(txs[u], txs[t].body.nullifier)
  {
    forall t | 0 <= t < |txs| && txs[t].body.Stake?
      ensures txs[t].body.nullifier in TxNullifiers(txs) <==>
        exists u :: 0 <= u < |txs| && Shows(txs[u], txs[t].body.nullifier)
    {
      ShownIn(txs, txs[t].body.nullifier);
    }
    hide Shows, TxNullifiers;
  }

  lemma GenesisRule(txs: seq<Transaction>)
    ensures GenesisValid(txs) <==> MayBegin(txs)
  {
    StakedIs(txs);
    hide Staked, StakeSum;
  }

  lemma ExtendRule(h: seq<Applied>, a: Applied)
    requires h != []
    ensures MayExtend(h, a) <==>
      && Connects(a.blk.header, h[|h| - 1].blk.header, a.env) && SortedByID(a.blk.txs) && CoinbasesDiffer(a.blk.txs)
      && a.env.producerKey && (a.fastAdd || a.env.headerSigned)
  {
  }

  lemma TxsRule(h: seq<Applied>, txs: seq<Transaction>, time: int, env: Env)
    ensures TxsValid(txs, DiskOf(h), time, env, h == []) <==>
      && (h != [] ==> SortedByID(txs) && CoinbasesDiffer(txs))
      && (forall t :: 0 <= t < |txs| ==> MayHold(h, txs[t], time, env))
      && ShownOnce(txs) && Withdrawn(txs) <= DiskOf(h).treasury
  {
    forall t | 0 <= t < |txs|
      ensures TxAllowed(txs[t], DiskOf(h), time, env, h == []) <==> MayHold(h, txs[t], time, env)
    {
      TxRule(h, txs[t], time, env);
    }
    ShownOnceIs(txs);
    hide TxAllowed, MayHold, DiskOf, ShownOnce, NoDuplicates, SortedByID, CoinbasesDiffer, Withdrawn;
  }

  /** The node's rules are exactly these. */
  lemma BlockRule(h: seq<Applied>, a: Applied)
    ensures ValidNext(h, a) <==> MayFollow(h, a)
  {
    TxsRule(h, a.blk.txs, a.blk.header.timestamp, a.env);
    StakeNotShown(a.blk.txs);
    GenesisRule(a.blk.txs);
    if h != [] {
      ExtendRule(h, a);
    }
    hide TxsValid, MayHold, DiskOf, NoStakeSpent, Shows, ShownOnce, GenesisValid, MayBegin, MayExtend;
    hide Connects, SortedByID, CoinbasesDiffer, Withdrawn, TransactionsMerkleRoot;
  }

  // ---------- What the header's root stands for ----------

  lemma {:induction false} MerkleRootBinds(a: seq<Hash>, b: seq<Hash>)
    requires a != [] && |a| == |b| && MerkleRoot(a) == MerkleRoot(b)
    ensures a == b
    decreases |a|
  {
    if |a| > 1 {
      MerkleRootBinds(Parents(a), Parents(b));
      forall i | 0 <= i < |a| ensures a[i] == b[i] {
        assert Parents(a)[i / 2] == Parents(b)[i / 2];
      }
    }
  }

  /** The root commits to the IDs without witnesses on the left, to those of the witnesses on the right. */
  lemma TxRootIs(txs: seq<Transaction>, uids: seq<Hash>, wids: seq<Hash>)
    requires txs != [] && |uids| == |txs| == |wids|
    ensures TransactionsMerkleRoot(txs) == Node(MerkleRoot(uids), MerkleRoot(wids)) <==>
      forall i :: 0 <= i < |txs| ==> uids[i] == txs[i].uid && wids[i] == txs[i].wid
  {
    var us := seq(|txs|, i requires 0 <= i < |txs| => txs[i].uid);
    var ws := seq(|txs|, i requires 0 <= i < |txs| => txs[i].wid);
    assert TransactionsMerkleRoot(txs) == Node(MerkleRoot(us), MerkleRoot(ws));
    hide MerkleRoot;
    if MerkleRoot(us) == MerkleRoot(uids) && MerkleRoot(ws) == MerkleRoot(wids) {
      MerkleRootBinds(us, uids);
      MerkleRootBinds(ws, wids);
    }
    if forall i :: 0 <= i < |txs| ==> uids[i] == txs[i].uid && wids[i] == txs[i].wid {
      assert us == uids && ws == wids;
    }
  }
}
