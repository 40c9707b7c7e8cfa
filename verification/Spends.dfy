/**
 What every history of valid blocks guarantees about spending, once each
 transaction that the node checks against the standard circuit has a witness.
 */
module Spends {
  import opened Prelude
  import opened Hashes
  import opened MountainRange
  import opened Inclusion
  import opened Circuit
  import opened Ledger

  /** The public parameters that the proof validator derives from a transaction. */
  function PublicOf(tx: Transaction): (pub: PublicParams)
    requires !tx.body.Stake?
  {
    match tx.body
    case Coinbase(_, coins) => PublicParams(None, tx.outs, [], 0, coins, None, 0)
    case Treasury(amount) => PublicParams(None, tx.outs, [], 0, amount, None, 0)
    case Standard(ns, root, fee) => PublicParams(Some(root), tx.outs, ns, fee, 0, None, 0)
    case Mint(ns, root, fee, asset, tokens) => PublicParams(Some(root), tx.outs, ns, fee, 0, asset, tokens)
  }

  /** A choice of private parameters for transaction `t` of block `k`. */
  type Witness = (nat, nat) -> PrivateParams

  /**
   Every transaction but a stake has a witness that satisfies the circuit, and
   the script commitments in it are canonical, as 32-byte ones are.
   */
  ghost predicate Witnessed(h: seq<Applied>, w: Witness)
  {
    forall k, t :: 0 <= k < |h| && 0 <= t < |h[k].blk.txs| && !h[k].blk.txs[t].body.Stake? ==>
      && Satisfies(w(k, t), PublicOf(h[k].blk.txs[t]))
      && forall i :: 0 <= i < |w(k, t).inputs| ==> Canonical(w(k, t).inputs[i].scriptCommitment)
  }

  /** An input of a transaction of a block. */
  datatype Spend = Spend(block: nat, tx: nat, input: nat)

  predicate IsSpend(h: seq<Applied>, w: Witness, s: Spend)
  {
    && s.block < |h| && s.tx < |h[s.block].blk.txs| && !h[s.block].blk.txs[s.tx].body.Stake?
    && s.input < |w(s.block, s.tx).inputs|
  }

  function InputOf(h: seq<Applied>, w: Witness, s: Spend): (input: PrivateInput)
    requires IsSpend(h, w, s)
  {
    w(s.block, s.tx).inputs[s.input]
  }

  // ---------- Outputs are note commitments ----------

  lemma {:induction false} TxOutputsAreNotes(h: seq<Applied>, w: Witness, k: nat, t: nat)
    requires Witnessed(h, w) && k < |h| && t <= |h[k].blk.txs|
    ensures forall e :: e in TxOutputs(h[k].blk.txs[..t]) ==> e.Lurk?
  {
    if t > 0 {
      TxOutputsAreNotes(h, w, k, t - 1);
      var txs, tx := h[k].blk.txs[..t], h[k].blk.txs[t - 1];
      assert txs[..|txs| - 1] == h[k].blk.txs[..t - 1];
      if !tx.body.Stake? {
        var priv, pub := w(k, t - 1), PublicOf(tx);
        assert Satisfies(priv, pub);
        forall e | e in tx.outs ensures e.Lurk? {
          var i :| 0 <= i < |tx.outs| && tx.outs[i] == e;
          assert OutputProved(priv, pub, i);
        }
      }
    }
  }

  lemma {:induction false} OutputsAreNotes(h: seq<Applied>, w: Witness, m: nat)
    requires Witnessed(h, w) && m <= |h|
    ensures forall e :: e in Outputs(h[..m]) ==> e.Lurk?
  {
    if m > 0 {
      OutputsAreNotes(h, w, m - 1);
      assert h[..m][..m - 1] == h[..m - 1];
      TxOutputsAreNotes(h, w, m - 1, |h[m - 1].blk.txs|);
      assert h[m - 1].blk.txs[..|h[m - 1].blk.txs|] == h[m - 1].blk.txs;
    }
  }

  // ---------- What is spent exists ----------

  /** Only standard and mint transactions have inputs, and the root they show is on disk before their block. */
  lemma SpendRootOnDisk(h: seq<Applied>, w: Witness, s: Spend)
    requires ValidHistory(h) && Witnessed(h, w) && IsSpend(h, w, s)
    ensures var tx := h[s.block].blk.txs[s.tx];
      (tx.body.Standard? || tx.body.Mint?) && tx.body.txoRoot in DiskOf(h[..s.block]).roots
  {
    hide DiskOf, ValidHistory, SortedByID, CoinbasesDiffer, TxNullifiers, Withdrawn, GenesisValid;
    hide NoStakeSpent, TransactionsMerkleRoot;
    var blk, tx, priv := h[s.block].blk, h[s.block].blk.txs[s.tx], w(s.block, s.tx);
    assert InputProved(priv, PublicOf(tx), s.input);
    ValidPrefix(h, s.block);
    assert TxAllowed(blk.txs[s.tx], DiskOf(h[..s.block]), blk.header.timestamp, h[s.block].env, h[..s.block] == []);
  }

  lemma SpendAccepted(h: seq<Applied>, w: Witness, s: Spend)
    requires Witnessed(h, w) && IsSpend(h, w, s)
    requires h[s.block].blk.txs[s.tx].body.Standard? || h[s.block].blk.txs[s.tx].body.Mint?
    ensures var input := InputOf(h, w, s);
      && input.Commitment().Some?
      && Accepts(input.Commitment().value, input.commitmentIndex, input.hashes, input.flags,
                 h[s.block].blk.txs[s.tx].body.txoRoot)
  {
    assert InputProved(w(s.block, s.tx), PublicOf(h[s.block].blk.txs[s.tx]), s.input);
  }

  /**
   The note an input opens is the output with the index it claims, and that
   output was created by an earlier block.
   */
  lemma SpentNoteExists(h: seq<Applied>, w: Witness, s: Spend)
    requires ValidHistory(h) && Witnessed(h, w) && IsSpend(h, w, s)
    ensures var input, earlier := InputOf(h, w, s), Outputs(h[..s.block]);
      input.commitmentIndex < |earlier| && input.Commitment() == Some(earlier[input.commitmentIndex])
  {
    hide DiskOf, ValidHistory, Witnessed, RootOf, Accepts, Genuine;
    var input, before := InputOf(h, w, s), h[..s.block];
    SpendRootOnDisk(h, w, s);
    SpendAccepted(h, w, s);
    var k := RootOnDisk(before, h[s.block].blk.txs[s.tx].body.txoRoot);
    assert before[..k] == h[..k];
    OutputsAreNotes(h, w, k);
    OpaqueIsGenuine(Outputs(h[..k]));
    Soundness(Outputs(h[..k]), input.Commitment().value, input.commitmentIndex, input.hashes, input.flags);
    OutputsGrow(before, k);
  }

  // ---------- Nothing is spent twice ----------

  /** Where transaction `t`'s nullifiers start among those of its block. */
  lemma {:induction false} NullifierPosition(txs: seq<Transaction>, t: nat, i: nat)
    requires t < |txs| && i < |txs[t].Nullifiers()|
    ensures var p := |TxNullifiers(txs[..t])| + i;
      p < |TxNullifiers(txs[..t + 1])| && p < |TxNullifiers(txs)| && TxNullifiers(txs)[p] == txs[t].Nullifiers()[i]
    decreases |txs|
  {
    hide Transaction.Nullifiers;
    if t == |txs| - 1 {
      LastNullifiers(txs);
    } else {
      var init := txs[..|txs| - 1];
      NullifierPosition(init, t, i);
      assert init[..t] == txs[..t] && init[..t + 1] == txs[..t + 1];
      LastNullifiers(txs);
    }
  }

  lemma LastNullifiers(txs: seq<Transaction>)
    requires txs != []
    ensures TxNullifiers(txs) == TxNullifiers(txs[..|txs| - 1]) + txs[|txs| - 1].Nullifiers()
    ensures txs[..|txs|] == txs
  {
  }

  lemma {:induction false} NullifierCountGrows(txs: seq<Transaction>, t: nat, u: nat)
    requires t <= u <= |txs|
    ensures |TxNullifiers(txs[..t])| <= |TxNullifiers(txs[..u])|
    decreases u
  {
    if t < u {
      NullifierCountGrows(txs, t, u - 1);
      assert txs[..u][..u - 1] == txs[..u - 1];
    }
  }

  /** Two nullifiers of one valid block are different. */
  lemma BlockNullifiersDiffer(txs: seq<Transaction>, t: nat, i: nat, u: nat, j: nat)
    requires NoDuplicates(TxNullifiers(txs))
    requires t < |txs| && i < |txs[t].Nullifiers()| && u < |txs| && j < |txs[u].Nullifiers()|
    requires t < u || (t == u && i < j)
    ensures txs[t].Nullifiers()[i] != txs[u].Nullifiers()[j]
  {
    NullifierPosition(txs, t, i);
    NullifierPosition(txs, u, j);
    if t < u {
      NullifierCountGrows(txs, t + 1, u);
    }
  }

  lemma {:induction false} EarlierNullifier(h: seq<Applied>, k: nat, n: Hash)
    requires k < |h| && n in TxNullifiers(h[k].blk.txs)
    ensures n in AllNullifiers(h)
    decreases |h|
  {
    if k < |h| - 1 {
      EarlierNullifier(h[..|h| - 1], k, n);
    }
  }

  predicate Precedes(a: Spend, b: Spend)
  {
    a.block < b.block || (a.block == b.block && (a.tx < b.tx || (a.tx == b.tx && a.input < b.input)))
  }

  /** The nullifier of a spend is the one its transaction shows in the same place. */
  lemma SpendNullifier(h: seq<Applied>, w: Witness, s: Spend)
    requires Witnessed(h, w) && IsSpend(h, w, s)
    ensures var tx := h[s.block].blk.txs[s.tx];
      s.input < |tx.Nullifiers()| && InputOf(h, w, s).Nullifier() == Some(tx.Nullifiers()[s.input])
  {
    assert InputProved(w(s.block, s.tx), PublicOf(h[s.block].blk.txs[s.tx]), s.input);
  }

  lemma SpendNullifiersDiffer(h: seq<Applied>, w: Witness, a: Spend, b: Spend)
    requires ValidHistory(h) && Witnessed(h, w) && IsSpend(h, w, a) && IsSpend(h, w, b) && Precedes(a, b)
    ensures InputOf(h, w, a).Nullifier() != InputOf(h, w, b).Nullifier()
  {
    SpendNullifier(h, w, a);
    SpendNullifier(h, w, b);
    ValidPrefix(h, b.block);
    FreshNullifiers(h[..b.block], h[b.block]);
    var as_, bs := h[a.block].blk.txs, h[b.block].blk.txs;
    if a.block < b.block {
      NullifierPosition(as_, a.tx, a.input);
      NullifierPosition(bs, b.tx, b.input);
      EarlierNullifier(h[..b.block], a.block, as_[a.tx].Nullifiers()[a.input]);
    } else {
      BlockNullifiersDiffer(bs, a.tx, a.input, b.tx, b.input);
    }
  }

  /**
   The safety of the chain.  In every history of valid, witnessed blocks, each
   spend opens exactly the output with the index it claims, created in a
   strictly earlier block, and no two spends claim the same index.
   */
  lemma NoCounterfeitNoDoubleSpend(h: seq<Applied>, w: Witness)
    requires ValidHistory(h) && Witnessed(h, w)
    ensures forall s :: IsSpend(h, w, s) ==>
      && InputOf(h, w, s).commitmentIndex < |Outputs(h[..s.block])|
      && InputOf(h, w, s).Commitment() == Some(Outputs(h[..s.block])[InputOf(h, w, s).commitmentIndex])
    ensures forall a, b :: IsSpend(h, w, a) && IsSpend(h, w, b) && a != b ==>
      InputOf(h, w, a).commitmentIndex != InputOf(h, w, b).commitmentIndex
  {
    forall s | IsSpend(h, w, s)
      ensures InputOf(h, w, s).commitmentIndex < |Outputs(h[..s.block])|
      ensures InputOf(h, w, s).Commitment() == Some(Outputs(h[..s.block])[InputOf(h, w, s).commitmentIndex])
    {
      SpentNoteExists(h, w, s);
    }
    forall a, b | IsSpend(h, w, a) && IsSpend(h, w, b) && a != b
      ensures InputOf(h, w, a).commitmentIndex != InputOf(h, w, b).commitmentIndex
    {
      if Precedes(a, b) {
        IndexesDiffer(h, w, a, b);
      } else {
        IndexesDiffer(h, w, b, a);
      }
    }
  }

  lemma IndexesDiffer(h: seq<Applied>, w: Witness, a: Spend, b: Spend)
    requires ValidHistory(h) && Witnessed(h, w) && IsSpend(h, w, a) && IsSpend(h, w, b) && Precedes(a, b)
    ensures InputOf(h, w, a).commitmentIndex != InputOf(h, w, b).commitmentIndex
  {
    var x, y := InputOf(h, w, a), InputOf(h, w, b);
    SpentNoteExists(h, w, a);
    SpentNoteExists(h, w, b);
    SpendNullifiersDiffer(h, w, a, b);
    OutputsGrow(h, a.block);
    OutputsGrow(h, b.block);
    if x.commitmentIndex == y.commitmentIndex {
      assert x.Commitment() == y.Commitment();
      NullifierIsOfIndex(x, y);
    }
  }
}
