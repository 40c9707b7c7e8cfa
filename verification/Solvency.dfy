/**
 Value over a whole history: what was created and not spent is no more than
 what was minted, for every asset.
 */
module Solvency {
  import opened Prelude
  import opened Hashes
  import opened Circuit
  import opened Ledger
  import opened Spends
  import opened ChainOutputs

  // ---------- All spends and all notes of a history ----------

  function TxSpends(k: nat, t: nat, n: nat): (spends: seq<Spend>)
    ensures |spends| == n
  {
    seq(n, i requires 0 <= i < n => Spend(k, t, i))
  }

  /** The spends of the first `n` transactions of block `k`, in order. */
  function BlockSpends(txs: seq<Transaction>, w: Witness, k: nat, n: nat): (spends: seq<Spend>)
    requires n <= |txs|
  {
    if n == 0 then []
    else BlockSpends(txs, w, k, n - 1) + if txs[n - 1].body.Stake? then [] else TxSpends(k, n - 1, |w(k, n - 1).inputs|)
  }

  function AllSpends(h: seq<Applied>, w: Witness): (spends: seq<Spend>)
  {
    if h == [] then []
    else
      var k := |h| - 1;
      AllSpends(h[..k], w) + BlockSpends(h[k].blk.txs, w, k, |h[k].blk.txs|)
  }

  /** The input notes of these transactions, as their witnesses open them. */
  function BlockInputs(txs: seq<Transaction>, w: Witness, k: nat, n: nat): (notes: seq<SpendNote>)
    requires n <= |txs|
  {
    if n == 0 then []
    else BlockInputs(txs, w, k, n - 1) + if txs[n - 1].body.Stake? then [] else InputNotes(w(k, n - 1).inputs)
  }

  function AllInputs(h: seq<Applied>, w: Witness): (notes: seq<SpendNote>)
  {
    if h == [] then []
    else
      var k := |h| - 1;
      AllInputs(h[..k], w) + BlockInputs(h[k].blk.txs, w, k, |h[k].blk.txs|)
  }

  /** The notes that these transactions create, as their witnesses open them. */
  function BlockNotes(txs: seq<Transaction>, w: Witness, k: nat, n: nat): (notes: seq<SpendNote>)
    requires n <= |txs|
  {
    if n == 0 then []
    else BlockNotes(txs, w, k, n - 1) + if txs[n - 1].body.Stake? then [] else w(k, n - 1).outputs
  }

  function AllNotes(h: seq<Applied>, w: Witness): (notes: seq<SpendNote>)
  {
    if h == [] then []
    else
      var k := |h| - 1;
      AllNotes(h[..k], w) + BlockNotes(h[k].blk.txs, w, k, |h[k].blk.txs|)
  }

  // ---------- Notes are outputs ----------

  ghost predicate Opens(notes: seq<SpendNote>, outputs: seq<Hash>)
  {
    |notes| == |outputs| && forall i :: 0 <= i < |notes| ==> notes[i].Commitment() == Some(outputs[i])
  }

  lemma OpensConcat(a: seq<SpendNote>, b: seq<SpendNote>, x: seq<Hash>, y: seq<Hash>)
    requires Opens(a, x) && Opens(b, y)
    ensures Opens(a + b, x + y)
  {
  }

  lemma TxNotesOpen(h: seq<Applied>, w: Witness, k: nat, t: nat)
    requires Witnessed(h, w) && k < |h| && t < |h[k].blk.txs| && !h[k].blk.txs[t].body.Stake?
    ensures Opens(w(k, t).outputs, h[k].blk.txs[t].outs)
  {
    var priv, pub := w(k, t), PublicOf(h[k].blk.txs[t]);
    assert Satisfies(priv, pub);
    forall i | 0 <= i < |priv.outputs| ensures priv.outputs[i].Commitment() == Some(pub.outputs[i]) {
      assert OutputProved(priv, pub, i);
    }
  }

  lemma {:induction false} BlockNotesOpen(h: seq<Applied>, w: Witness, k: nat, n: nat)
    requires Witnessed(h, w) && k < |h| && n <= |h[k].blk.txs|
    ensures Opens(BlockNotes(h[k].blk.txs, w, k, n), TxOutputs(h[k].blk.txs[..n]))
  {
    hide Witnessed, Opens;
    if n == 0 {
      NothingOpens();
    } else {
      var txs := h[k].blk.txs;
      BlockNotesOpen(h, w, k, n - 1);
      assert txs[..n][..n - 1] == txs[..n - 1];
      if txs[n - 1].body.Stake? {
        NothingOpens();
        OpensConcat(BlockNotes(txs, w, k, n - 1), [], TxOutputs(txs[..n - 1]), []);
      } else {
        TxNotesOpen(h, w, k, n - 1);
        OpensConcat(BlockNotes(txs, w, k, n - 1), w(k, n - 1).outputs, TxOutputs(txs[..n - 1]), txs[n - 1].outs);
      }
    }
  }

  lemma NothingOpens()
    ensures Opens([], [])
  {
  }

  lemma WitnessedPrefix(h: seq<Applied>, w: Witness, m: nat)
    requires Witnessed(h, w) && m <= |h|
    ensures Witnessed(h[..m], w)
  {
  }

  /** The notes that witnesses open are, in order, the outputs in the accumulator. */
  lemma {:induction false} NotesOpen(h: seq<Applied>, w: Witness)
    requires Witnessed(h, w)
    ensures Opens(AllNotes(h, w), Outputs(h))
  {
    hide Witnessed, Opens;
    if h == [] {
      NothingOpens();
    } else {
      var k := |h| - 1;
      WitnessedPrefix(h, w, k);
      NotesOpen(h[..k], w);
      BlockNotesOpen(h, w, k, |h[k].blk.txs|);
      assert h[k].blk.txs[..|h[k].blk.txs|] == h[k].blk.txs;
      OpensConcat(AllNotes(h[..k], w), BlockNotes(h[k].blk.txs, w, k, |h[k].blk.txs|), Outputs(h[..k]),
                  TxOutputs(h[k].blk.txs));
    }
  }

  // ---------- Spends in order ----------

  /** The spends are spends of the history, each before all later ones, and the notes are theirs. */
  ghost predicate InOrder(h: seq<Applied>, w: Witness, spends: seq<Spend>, notes: seq<SpendNote>)
  {
    && |spends| == |notes|
    && (forall p :: 0 <= p < |spends| ==> IsSpend(h, w, spends[p]) && InputOf(h, w, spends[p]).note == notes[p])
    && forall p, q :: 0 <= p < q < |spends| ==> Precedes(spends[p], spends[q])
  }

  /** All the spends come before transaction `t` of block `k`. */
  ghost predicate AllBefore(spends: seq<Spend>, k: nat, t: nat)
  {
    forall p :: 0 <= p < |spends| ==> spends[p].block < k || (spends[p].block == k && spends[p].tx < t)
  }

  lemma NothingInOrder(h: seq<Applied>, w: Witness)
    ensures InOrder(h, w, [], []) && AllBefore([], 0, 0)
  {
  }

  lemma TxInOrder(h: seq<Applied>, w: Witness, k: nat, t: nat, spends: seq<Spend>, notes: seq<SpendNote>)
    requires k < |h| && t < |h[k].blk.txs| && InOrder(h, w, spends, notes) && AllBefore(spends, k, t)
    ensures var stake, inputs := h[k].blk.txs[t].body.Stake?, w(k, t).inputs;
      var more, them := if stake then [] else TxSpends(k, t, |inputs|), if stake then [] else InputNotes(inputs);
      InOrder(h, w, spends + more, notes + them) && AllBefore(spends + more, k, t + 1)
  {
  }

  lemma OneMoreTx(txs: seq<Transaction>, w: Witness, k: nat, n: nat)
    requires 0 < n <= |txs|
    ensures var stake, inputs := txs[n - 1].body.Stake?, w(k, n - 1).inputs;
      && BlockSpends(txs, w, k, n) ==
           BlockSpends(txs, w, k, n - 1) + (if stake then [] else TxSpends(k, n - 1, |inputs|))
      && BlockInputs(txs, w, k, n) == BlockInputs(txs, w, k, n - 1) + (if stake then [] else InputNotes(inputs))
  {
    hide TxSpends, InputNotes;
  }

  lemma {:induction false} BlockInOrder(h: seq<Applied>, w: Witness, k: nat, n: nat, spends: seq<Spend>,
                                        notes: seq<SpendNote>)
    requires k < |h| && n <= |h[k].blk.txs| && InOrder(h, w, spends, notes) && AllBefore(spends, k, 0)
    ensures var txs := h[k].blk.txs;
      && InOrder(h, w, spends + BlockSpends(txs, w, k, n), notes + BlockInputs(txs, w, k, n))
      && AllBefore(spends + BlockSpends(txs, w, k, n), k, n)
  {
    hide InOrder, AllBefore, TxSpends, InputNotes;
    var txs := h[k].blk.txs;
    if n == 0 {
      assert spends + [] == spends && notes + [] == notes;
    } else {
      OneMoreTx(txs, w, k, n);
      hide BlockSpends, BlockInputs;
      BlockInOrder(h, w, k, n - 1, spends, notes);
      var before, them := BlockSpends(txs, w, k, n - 1), BlockInputs(txs, w, k, n - 1);
      TxInOrder(h, w, k, n - 1, spends + before, notes + them);
      var stake, inputs := txs[n - 1].body.Stake?, w(k, n - 1).inputs;
      var more := if stake then [] else TxSpends(k, n - 1, |inputs|);
      var their := if stake then [] else InputNotes(inputs);
      assert spends + before + more == spends + (before + more) && notes + them + their == notes + (them + their);
    }
  }

  lemma NextBlock(spends: seq<Spend>, k: nat, t: nat)
    requires AllBefore(spends, k, t)
    ensures AllBefore(spends, k + 1, 0)
  {
  }

  lemma InOrderLonger(h: seq<Applied>, w: Witness, m: nat, spends: seq<Spend>, notes: seq<SpendNote>)
    requires m <= |h| && InOrder(h[..m], w, spends, notes)
    ensures InOrder(h, w, spends, notes)
  {
  }

  lemma {:induction false} SpendsInOrder(h: seq<Applied>, w: Witness)
    ensures InOrder(h, w, AllSpends(h, w), AllInputs(h, w)) && AllBefore(AllSpends(h, w), |h|, 0)
  {
    hide InOrder, AllBefore;
    if h == [] {
      NothingInOrder(h, w);
    } else {
      var k := |h| - 1;
      SpendsInOrder(h[..k], w);
      InOrderLonger(h, w, k, AllSpends(h[..k], w), AllInputs(h[..k], w));
      BlockInOrder(h, w, k, |h[k].blk.txs|, AllSpends(h[..k], w), AllInputs(h[..k], w));
      NextBlock(AllSpends(h, w), k, |h[k].blk.txs|);
    }
  }

  /** No spend is left out. */
  lemma {:induction false} EverySpendIsListed(h: seq<Applied>, w: Witness, s: Spend)
    requires IsSpend(h, w, s)
    ensures s in AllSpends(h, w)
    decreases |h|
  {
    var k := |h| - 1;
    if s.block < k {
      EverySpendIsListed(h[..k], w, s);
    } else {
      ListedInBlock(h[k].blk.txs, w, k, |h[k].blk.txs|, s);
    }
  }

  lemma {:induction false} ListedInBlock(txs: seq<Transaction>, w: Witness, k: nat, n: nat, s: Spend)
    requires n <= |txs| && s.block == k && s.tx < n && !txs[s.tx].body.Stake? && s.input < |w(k, s.tx).inputs|
    ensures s in BlockSpends(txs, w, k, n)
  {
    if s.tx < n - 1 {
      ListedInBlock(txs, w, k, n - 1, s);
    } else {
      assert TxSpends(k, n - 1, |w(k, n - 1).inputs|)[s.input] == s;
    }
  }

  // ---------- What is spent opens what was created ----------

  /**
   Each spend has the amount, the asset and the salt of the note that the
   witness of the creating transaction, in a strictly earlier block, has at its index.
   */
  lemma SpendOpensItsNote(h: seq<Applied>, w: Witness, s: Spend) returns (k: nat, t: nat, j: nat)
    requires ValidHistory(h) && Witnessed(h, w) && IsSpend(h, w, s)
    ensures k < s.block && t < |h[k].blk.txs| && !h[k].blk.txs[t].body.Stake? && j < |w(k, t).outputs|
    ensures FirstIndex(h, k, t) + j == InputOf(h, w, s).commitmentIndex
    ensures var spent, made := InputOf(h, w, s).note, w(k, t).outputs[j];
      && spent.amount == made.amount && spent.assetID == made.assetID && spent.salt == made.salt
  {
    hide ValidHistory, Witnessed, FirstIndex, Opens;
    SpentNoteExists(h, w, s);
    var before, i := h[..s.block], InputOf(h, w, s).commitmentIndex;
    k, t, j := NothingElseStands(before, i);
    SameFirstIndex(h, s.block, k, t);
    TxNotesOpen(h, w, k, t);
    OpensAt(w(k, t).outputs, h[k].blk.txs[t].outs, j);
    SameNote(InputOf(h, w, s), w(k, t).outputs[j]);
  }

  lemma SameFirstIndex(h: seq<Applied>, m: nat, k: nat, t: nat)
    requires k < m <= |h| && t <= |h[k].blk.txs|
    ensures FirstIndex(h[..m], k, t) == FirstIndex(h, k, t)
  {
    assert h[..m][..k] == h[..k];
  }

  lemma OpensAt(notes: seq<SpendNote>, outputs: seq<Hash>, j: nat)
    requires Opens(notes, outputs) && j < |outputs|
    ensures j < |notes| && notes[j].Commitment() == Some(outputs[j])
  {
  }

  lemma SameNote(input: PrivateInput, made: SpendNote)
    requires input.Commitment().Some? && input.Commitment() == made.Commitment()
    ensures input.note.amount == made.amount && input.note.assetID == made.assetID && input.note.salt == made.salt
  {
    var sh := ScriptHash(input.scriptCommitment, input.scriptParams);
    CommitmentBinds(input.note.(scriptHash := sh.value), made);
  }

  // ---------- Value ----------

  lemma {:induction false} TotalConcat(s: seq<SpendNote>, t: seq<SpendNote>, asset: Hash)
    ensures Total(s + t, asset) == Total(s, asset) + Total(t, asset)
  {
    if t == [] {
      assert s + t == s;
    } else {
      TotalConcat(s, t[..|t| - 1], asset);
      assert (s + t)[..|s + t| - 1] == s + t[..|t| - 1];
    }
  }

  /** What a transaction brings into being: coins of a coinbase or of the treasury, or minted tokens. */
  function PaidIn(tx: Transaction, asset: Hash): (amount: nat)
  {
    match tx.body
    case Coinbase(_, coins) => if asset == DEFAULT_ASSET_ID then coins else 0
    case Treasury(coins) => if asset == DEFAULT_ASSET_ID then coins else 0
    case Mint(_, _, _, id, tokens) => if asset != DEFAULT_ASSET_ID && id == Some(asset) then tokens else 0
    case _ => 0
  }

  function FeeOf(tx: Transaction, asset: Hash): (amount: nat)
  {
    match tx.body
    case Standard(_, _, fee) => if asset == DEFAULT_ASSET_ID then fee else 0
    case Mint(_, _, fee, _, _) => if asset == DEFAULT_ASSET_ID then fee else 0
    case _ => 0
  }

  function PaidInBy(txs: seq<Transaction>, asset: Hash): (amount: nat)
  {
    if txs == [] then 0 else PaidInBy(txs[..|txs| - 1], asset) + PaidIn(txs[|txs| - 1], asset)
  }

  function FeesOf(txs: seq<Transaction>, asset: Hash): (amount: nat)
  {
    if txs == [] then 0 else FeesOf(txs[..|txs| - 1], asset) + FeeOf(txs[|txs| - 1], asset)
  }

  function AllPaidIn(h: seq<Applied>, asset: Hash): (amount: nat)
  {
    if h == [] then 0 else AllPaidIn(h[..|h| - 1], asset) + PaidInBy(h[|h| - 1].blk.txs, asset)
  }

  function AllFees(h: seq<Applied>, asset: Hash): (amount: nat)
  {
    if h == [] then 0 else AllFees(h[..|h| - 1], asset) + FeesOf(h[|h| - 1].blk.txs, asset)
  }

  lemma TxConserves(h: seq<Applied>, w: Witness, k: nat, t: nat, asset: Hash)
    requires Witnessed(h, w) && k < |h| && t < |h[k].blk.txs| && !h[k].blk.txs[t].body.Stake?
    ensures var tx := h[k].blk.txs[t];
      Total(w(k, t).outputs, asset) + FeeOf(tx, asset) <= Total(InputNotes(w(k, t).inputs), asset) + PaidIn(tx, asset)
  {
    ValueConservation(w(k, t), PublicOf(h[k].blk.txs[t]), asset);
  }

  lemma {:induction false} BlockConserves(h: seq<Applied>, w: Witness, k: nat, n: nat, asset: Hash)
    requires Witnessed(h, w) && k < |h| && n <= |h[k].blk.txs|
    ensures var txs := h[k].blk.txs;
      Total(BlockNotes(txs, w, k, n), asset) + FeesOf(txs[..n], asset) <=
      Total(BlockInputs(txs, w, k, n), asset) + PaidInBy(txs[..n], asset)
  {
    hide Witnessed, Total, InputNotes;
    NoTotal(asset);
    if n > 0 {
      var txs, tx := h[k].blk.txs, h[k].blk.txs[n - 1];
      BlockConserves(h, w, k, n - 1, asset);
      assert txs[..n][..n - 1] == txs[..n - 1];
      if tx.body.Stake? {
        TotalConcat(BlockNotes(txs, w, k, n - 1), [], asset);
        TotalConcat(BlockInputs(txs, w, k, n - 1), [], asset);
      } else {
        TxConserves(h, w, k, n - 1, asset);
        TotalConcat(BlockNotes(txs, w, k, n - 1), w(k, n - 1).outputs, asset);
        TotalConcat(BlockInputs(txs, w, k, n - 1), InputNotes(w(k, n - 1).inputs), asset);
      }
    }
  }

  lemma NoTotal(asset: Hash)
    ensures Total([], asset) == 0
  {
  }

  lemma {:induction false} AllConserves(h: seq<Applied>, w: Witness, asset: Hash)
    requires Witnessed(h, w)
    ensures Total(AllNotes(h, w), asset) + AllFees(h, asset) <= Total(AllInputs(h, w), asset) + AllPaidIn(h, asset)
  {
    hide Witnessed, Total, BlockNotes, BlockInputs;
    NoTotal(asset);
    if h != [] {
      var k := |h| - 1;
      var txs := h[k].blk.txs;
      WitnessedPrefix(h, w, k);
      AllConserves(h[..k], w, asset);
      BlockConserves(h, w, k, |txs|, asset);
      assert txs[..|txs|] == txs;
      TotalConcat(AllNotes(h[..k], w), BlockNotes(txs, w, k, |txs|), asset);
      TotalConcat(AllInputs(h[..k], w), BlockInputs(txs, w, k, |txs|), asset);
    }
  }

  // ---------- Spent and unspent ----------

  /** The amount of one asset in the notes whose index is not among the spent ones. */
  function Unspent(notes: seq<SpendNote>, spent: set<nat>, asset: Hash): (amount: nat)
  {
    if notes == [] then 0
    else
      var i := |notes| - 1;
      Unspent(notes[..i], spent, asset) + if i in spent then 0 else Part(notes[i], asset)
  }

  lemma {:induction false} SpendOne(notes: seq<SpendNote>, spent: set<nat>, x: nat, asset: Hash)
    requires x < |notes| && x !in spent
    ensures Unspent(notes, spent + {x}, asset) + Part(notes[x], asset) == Unspent(notes, spent, asset)
  {
    var i := |notes| - 1;
    if x < i {
      SpendOne(notes[..i], spent, x, asset);
    } else {
      SpendBeyond(notes[..i], spent, x, asset);
    }
  }

  lemma {:induction false} SpendBeyond(notes: seq<SpendNote>, spent: set<nat>, x: nat, asset: Hash)
    requires |notes| <= x
    ensures Unspent(notes, spent + {x}, asset) == Unspent(notes, spent, asset)
  {
    if notes != [] {
      SpendBeyond(notes[..|notes| - 1], spent, x, asset);
    }
  }

  lemma {:induction false} NothingSpent(notes: seq<SpendNote>, asset: Hash)
    ensures Unspent(notes, {}, asset) == Total(notes, asset)
  {
    if notes != [] {
      NothingSpent(notes[..|notes| - 1], asset);
    }
  }

  function SetOfIndexes(indexes: seq<nat>): (s: set<nat>)
  {
    set i | i in indexes
  }

  /** The spent notes open distinct notes that were made. */
  ghost predicate OpensDistinct(indexes: seq<nat>, spent: seq<SpendNote>, notes: seq<SpendNote>)
  {
    && |indexes| == |spent|
    && (forall p, q :: 0 <= p < q < |indexes| ==> indexes[p] != indexes[q])
    && forall p :: 0 <= p < |indexes| ==>
         && indexes[p] < |notes|
         && spent[p].amount == notes[indexes[p]].amount && spent[p].assetID == notes[indexes[p]].assetID
  }

  lemma LastIndex(indexes: seq<nat>)
    requires indexes != []
    ensures var n := |indexes| - 1; SetOfIndexes(indexes) == SetOfIndexes(indexes[..n]) + {indexes[n]}
    ensures var n := |indexes| - 1;
      (forall p :: 0 <= p < n ==> indexes[p] != indexes[n]) ==> indexes[n] !in SetOfIndexes(indexes[..n])
  {
    assert indexes == indexes[..|indexes| - 1] + [indexes[|indexes| - 1]];
  }

  /** What is spent and what is not make up all there is. */
  lemma {:induction false} SpentAndUnspent(indexes: seq<nat>, spent: seq<SpendNote>, notes: seq<SpendNote>, asset: Hash)
    requires OpensDistinct(indexes, spent, notes)
    ensures Total(spent, asset) + Unspent(notes, SetOfIndexes(indexes), asset) == Total(notes, asset)
    decreases |indexes|
  {
    hide Unspent;
    if indexes == [] {
      assert SetOfIndexes(indexes) == {};
      NothingSpent(notes, asset);
    } else {
      var n := |indexes| - 1;
      SpentAndUnspent(indexes[..n], spent[..n], notes, asset);
      LastIndex(indexes);
      hide SetOfIndexes;
      SpendOne(notes, SetOfIndexes(indexes[..n]), indexes[n], asset);
    }
  }

  /** The indexes that all spends of a history claim. */
  function IndexesOf(h: seq<Applied>, w: Witness, spends: seq<Spend>): (indexes: seq<nat>)
    requires forall p :: 0 <= p < |spends| ==> IsSpend(h, w, spends[p])
    ensures |indexes| == |spends|
  {
    seq(|spends|, p requires 0 <= p < |spends| => InputOf(h, w, spends[p]).commitmentIndex)
  }

  /** The note that a spend opens, with its value, and the index it claims. */
  lemma SpendOpensValue(h: seq<Applied>, w: Witness, s: Spend)
    requires ValidHistory(h) && Witnessed(h, w) && IsSpend(h, w, s)
    ensures var input, notes := InputOf(h, w, s), AllNotes(h, w);
      && input.commitmentIndex < |notes|
      && input.note.amount == notes[input.commitmentIndex].amount
      && input.note.assetID == notes[input.commitmentIndex].assetID
  {
    hide ValidHistory, Witnessed, AllNotes, Opens, Outputs;
    NotesOpen(h, w);
    SpentNoteExists(h, w, s);
    OutputsGrow(h, s.block);
    OpensAt(AllNotes(h, w), Outputs(h), InputOf(h, w, s).commitmentIndex);
    SameNote(InputOf(h, w, s), AllNotes(h, w)[InputOf(h, w, s).commitmentIndex]);
  }

  lemma SpendsOpenDistinct(h: seq<Applied>, w: Witness)
    requires ValidHistory(h) && Witnessed(h, w)
    ensures forall s :: s in AllSpends(h, w) ==> IsSpend(h, w, s)
    ensures OpensDistinct(IndexesOf(h, w, AllSpends(h, w)), AllInputs(h, w), AllNotes(h, w))
  {
    hide ValidHistory, Witnessed, AllSpends, AllInputs, AllNotes, IsSpend, InputOf;
    var spends, notes := AllSpends(h, w), AllNotes(h, w);
    SpendsInOrder(h, w);
    var indexes := IndexesOf(h, w, spends);
    forall p | 0 <= p < |spends|
      ensures indexes[p] < |notes|
      ensures AllInputs(h, w)[p].amount == notes[indexes[p]].amount
      ensures AllInputs(h, w)[p].assetID == notes[indexes[p]].assetID
    {
      SpendOpensValue(h, w, spends[p]);
    }
    forall p, q | 0 <= p < q < |spends| ensures indexes[p] != indexes[q] {
      IndexesDiffer(h, w, spends[p], spends[q]);
    }
  }

  /**
   Solvency.  In every history of valid, witnessed blocks and for every asset,
   the notes that no spend has claimed, together with the fees, are worth no more
   than what coinbases, treasury payments and mints brought into being.
   */
  lemma Solvent(h: seq<Applied>, w: Witness, asset: Hash)
    requires ValidHistory(h) && Witnessed(h, w)
    ensures forall s :: s in AllSpends(h, w) ==> IsSpend(h, w, s)
    ensures var spent := SetOfIndexes(IndexesOf(h, w, AllSpends(h, w)));
      Unspent(AllNotes(h, w), spent, asset) + AllFees(h, asset) <= AllPaidIn(h, asset)
  {
    SpendsOpenDistinct(h, w);
    AllConserves(h, w, asset);
    SpentAndUnspent(IndexesOf(h, w, AllSpends(h, w)), AllInputs(h, w), AllNotes(h, w), asset);
  }

  /** What coinbases claim. */
  function CoinsClaimed(txs: seq<Transaction>): (amount: nat)
  {
    if txs == [] then 0
    else CoinsClaimed(txs[..|txs| - 1]) + if txs[|txs| - 1].body.Coinbase? then txs[|txs| - 1].body.newCoins else 0
  }

  function AllCoinsClaimed(h: seq<Applied>): (amount: nat)
  {
    if h == [] then 0 else AllCoinsClaimed(h[..|h| - 1]) + CoinsClaimed(h[|h| - 1].blk.txs)
  }

  lemma {:induction false} NativePaidInBy(txs: seq<Transaction>)
    ensures PaidInBy(txs, DEFAULT_ASSET_ID) == CoinsClaimed(txs) + Withdrawn(txs)
  {
    if txs != [] {
      NativePaidInBy(txs[..|txs| - 1]);
    }
  }

  /** Native coins come from coinbases and from what is withdrawn of the treasury. */
  lemma {:induction false} NativePaidIn(h: seq<Applied>)
    ensures AllPaidIn(h, DEFAULT_ASSET_ID) == AllCoinsClaimed(h) + TotalWithdrawn(h)
  {
    hide CoinsClaimed, Withdrawn, PaidInBy;
    if h != [] {
      NativePaidIn(h[..|h| - 1]);
      NativePaidInBy(h[|h| - 1].blk.txs);
    }
  }

  /**
   So, as long as the supply fits 64 bits, the native coins that are unspent, in
   the treasury or paid as fees are no more than coinbases claimed and epochs credited.
   */
  lemma NativeSolvent(h: seq<Applied>, w: Witness)
    requires ValidHistory(h) && Witnessed(h, w) && TotalSupply(h) <= MAX_UINT64
    ensures forall s :: s in AllSpends(h, w) ==> IsSpend(h, w, s)
    ensures var spent := SetOfIndexes(IndexesOf(h, w, AllSpends(h, w)));
      Unspent(AllNotes(h, w), spent, DEFAULT_ASSET_ID) + AllFees(h, DEFAULT_ASSET_ID) + DiskOf(h).treasury
        <= AllCoinsClaimed(h) + TotalCredit(h)
  {
    hide ValidHistory, Witnessed, DiskOf, TotalSupply;
    Solvent(h, w, DEFAULT_ASSET_ID);
    NativePaidIn(h);
    Money(h);
  }
}
