/**
 Where the outputs of a chain stand in the accumulator, counted from the
 transactions themselves, and that each of them can be proved to be there.
 */
module ChainOutputs {
  import opened Hashes
  import opened Merkle
  import opened MountainRange
  import opened Inclusion
  import opened Ledger

  // ---------- Counting ----------

  /** A stake creates nothing, every other transaction its outputs. */
  function Creates(tx: Transaction): (n: nat)
  {
    match tx.body
    case Stake(_, _, _, _) => 0
    case _ => |tx.outs|
  }

  function CreatedIn(txs: seq<Transaction>): (n: nat)
  {
    if txs == [] then 0 else CreatedIn(txs[..|txs| - 1]) + Creates(txs[|txs| - 1])
  }

  function CreatedBy(h: seq<Applied>): (n: nat)
  {
    if h == [] then 0 else CreatedBy(h[..|h| - 1]) + CreatedIn(h[|h| - 1].blk.txs)
  }

  /** How many outputs come before those of transaction `t` of block `k`. */
  function FirstIndex(h: seq<Applied>, k: nat, t: nat): (i: nat)
    requires k < |h| && t <= |h[k].blk.txs|
  {
    CreatedBy(h[..k]) + CreatedIn(h[k].blk.txs[..t])
  }

  lemma {:induction false} OutputsCounted(txs: seq<Transaction>)
    ensures |TxOutputs(txs)| == CreatedIn(txs)
  {
    if txs != [] {
      OutputsCounted(txs[..|txs| - 1]);
    }
  }

  lemma {:induction false} AllCounted(h: seq<Applied>)
    ensures |Outputs(h)| == CreatedBy(h)
  {
    if h != [] {
      AllCounted(h[..|h| - 1]);
      OutputsCounted(h[|h| - 1].blk.txs);
    }
  }

  // ---------- Where outputs stand ----------

  lemma {:induction false} StandsInBlock(txs: seq<Transaction>, t: nat, j: nat)
    requires t < |txs| && !txs[t].body.Stake? && j < |txs[t].outs|
    ensures CreatedIn(txs[..t]) + j < |TxOutputs(txs)| && TxOutputs(txs)[CreatedIn(txs[..t]) + j] == txs[t].outs[j]
    decreases |txs|
  {
    var init := txs[..|txs| - 1];
    OutputsCounted(init);
    if t < |txs| - 1 {
      assert init[..t] == txs[..t];
      StandsInBlock(init, t, j);
    }
  }

  /** Output `j` of transaction `t` of block `k` stands at the index counted from all outputs before it. */
  lemma OutputStands(h: seq<Applied>, k: nat, t: nat, j: nat)
    requires k < |h| && t < |h[k].blk.txs| && !h[k].blk.txs[t].body.Stake? && j < |h[k].blk.txs[t].outs|
    ensures FirstIndex(h, k, t) + j < |Outputs(h)|
    ensures Outputs(h)[FirstIndex(h, k, t) + j] == h[k].blk.txs[t].outs[j]
  {
    hide TxOutputs, CreatedIn, CreatedBy;
    AllCounted(h[..k]);
    StandsInBlock(h[k].blk.txs, t, j);
    OutputsUpTo(h, k);
    hide Outputs;
    OutputsGrow(h, k + 1);
  }

  lemma OutputsUpTo(h: seq<Applied>, k: nat)
    requires k < |h|
    ensures Outputs(h[..k + 1]) == Outputs(h[..k]) + TxOutputs(h[k].blk.txs)
  {
    assert h[..k + 1][..k] == h[..k];
  }

  lemma {:induction false} FromBlock(txs: seq<Transaction>, i: nat) returns (t: nat, j: nat)
    requires i < |TxOutputs(txs)|
    ensures t < |txs| && !txs[t].body.Stake? && j < |txs[t].outs| && i == CreatedIn(txs[..t]) + j
    decreases |txs|
  {
    var init := txs[..|txs| - 1];
    OutputsCounted(init);
    if i < |TxOutputs(init)| {
      t, j := FromBlock(init, i);
      assert init[..t] == txs[..t];
    } else {
      t, j := |txs| - 1, i - |TxOutputs(init)|;
    }
  }

  /** Nothing else stands in the accumulator: every index is that of some output. */
  lemma {:induction false} NothingElseStands(h: seq<Applied>, i: nat) returns (k: nat, t: nat, j: nat)
    requires i < |Outputs(h)|
    ensures k < |h| && t < |h[k].blk.txs| && !h[k].blk.txs[t].body.Stake? && j < |h[k].blk.txs[t].outs|
    ensures i == FirstIndex(h, k, t) + j && Outputs(h)[i] == h[k].blk.txs[t].outs[j]
    decreases |h|
  {
    var init := h[..|h| - 1];
    AllCounted(init);
    if i < |Outputs(init)| {
      k, t, j := NothingElseStands(init, i);
      assert init[..k] == h[..k];
    } else {
      k := |h| - 1;
      t, j := FromBlock(h[k].blk.txs, i - |Outputs(init)|);
    }
    OutputStands(h, k, t, j);
  }

  // ---------- Every output can be proved ----------

  lemma {:induction false} RootsStay(h: seq<Applied>, k: nat)
    requires k <= |h|
    ensures DiskOf(h[..k]).roots <= DiskOf(h).roots
    decreases |h|
  {
    if k < |h| {
      assert h[..|h| - 1][..k] == h[..k];
      RootsStay(h[..|h| - 1], k);
    } else {
      assert h[..k] == h;
    }
  }

  /** The hashes and flags that steps stand for. */
  lemma Encoded(steps: seq<Step>) returns (hashes: seq<Hash>, flags: Word)
    ensures StepsOf(hashes, flags) == steps && forall b :: b in flags ==> b < |hashes|
  {
    hashes := seq(|steps|, i requires 0 <= i < |steps| => steps[i].sibling);
    flags := set i | 0 <= i < |steps| && steps[i].onRight;
  }

  /**
   Completeness for the chain.  As soon as a block is connected, a root is on
   disk, and stays there, that accepts a proof of each of its outputs at its index.
   Below 2^58 outputs the proof fits the 64-bit flag word.
   */
  lemma EveryOutputIsProvable(h: seq<Applied>, k: nat, t: nat, j: nat)
      returns (root: Hash, hashes: seq<Hash>, flags: Word)
    requires k < |h| && t < |h[k].blk.txs| && !h[k].blk.txs[t].body.Stake? && j < |h[k].blk.txs[t].outs|
    ensures root in DiskOf(h[..k + 1]).roots && root in DiskOf(h).roots
    ensures Accepts(h[k].blk.txs[t].outs[j], FirstIndex(h, k, t) + j, hashes, flags, root)
    ensures CreatedBy(h[..k + 1]) < Pow2(58) ==> |hashes| <= WORD_BITS && forall b :: b in flags ==> b < WORD_BITS
  {
    hide DiskOf, Outputs, FirstIndex, CreatedBy, Pow2, Accepts, RootOf, TxOutputs;
    var i, elems := FirstIndex(h, k, t) + j, Outputs(h[..k + 1]);
    OutputStandsBy(h, k, t, j);
    RootRecorded(h, k);
    AllCounted(h[..k + 1]);
    RootsStay(h, k + 1);
    root, hashes, flags := ProofOf(elems, i);
  }

  lemma OutputStandsBy(h: seq<Applied>, k: nat, t: nat, j: nat)
    requires k < |h| && t < |h[k].blk.txs| && !h[k].blk.txs[t].body.Stake? && j < |h[k].blk.txs[t].outs|
    ensures FirstIndex(h, k, t) + j < |Outputs(h[..k + 1])|
    ensures Outputs(h[..k + 1])[FirstIndex(h, k, t) + j] == h[k].blk.txs[t].outs[j]
    ensures TxOutputs(h[k].blk.txs) != []
  {
    hide TxOutputs, CreatedIn, CreatedBy, Outputs;
    OutputStands(h[..k + 1], k, t, j);
    StandsInBlock(h[k].blk.txs, t, j);
    assert h[..k + 1][..k] == h[..k] && h[..k + 1][k] == h[k];
  }

  /** A block with outputs records the root of all outputs up to its end. */
  lemma RootRecorded(h: seq<Applied>, k: nat)
    requires k < |h| && TxOutputs(h[k].blk.txs) != []
    ensures Outputs(h[..k + 1]) != [] && RootOf(Outputs(h[..k + 1])) in DiskOf(h[..k + 1]).roots
  {
    hide TxOutputs, RootOf;
    OutputsUpTo(h, k);
    assert h[..k + 1][..k] == h[..k] && h[..k + 1][k] == h[k];
  }

  /** Every element of an accumulator has hashes and flags that its root accepts. */
  lemma ProofOf(elems: seq<Hash>, i: nat) returns (root: Hash, hashes: seq<Hash>, flags: Word)
    requires i < |elems|
    ensures root == RootOf(elems) && Accepts(elems[i], i, hashes, flags, root)
    ensures |elems| < Pow2(58) ==> |hashes| <= WORD_BITS && forall b :: b in flags ==> b < WORD_BITS
  {
    root := RootOf(elems);
    hide RootOf, Level, Peaks, MerklePath, Pow2;
    var path := PathExists(Leaves(elems), i, []);
    var pos := PathToRoot(elems, i, path);
    hashes, flags := Encoded(path + MerklePath(Peaks(elems), pos));
    if |elems| < Pow2(58) {
      PathFitsWord(elems, i, path, pos);
    }
  }
}
