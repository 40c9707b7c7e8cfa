/** Every note on the chain can be spent by whoever knows its script: the circuit accepts an honest witness. */
module Spendable {
  import opened Prelude
  import opened Hashes
  import opened MountainRange
  import opened Inclusion
  import opened Circuit
  import opened Ledger
  import opened Spends
  import opened ChainOutputs
  import opened Solvency

  /** The witness that spends one note into another. */
  function Honest(made: SpendNote, index: nat, hashes: seq<Hash>, flags: Word,
                  script: Slice, params: seq<Slice>, out: SpendNote): (priv: PrivateParams)
  {
    PrivateParams([PrivateInput(made, index, hashes, flags, script, params)], [out])
  }

  lemma OneTotal(note: SpendNote, asset: Hash)
    ensures Total([note], asset) == if note.assetID == asset then note.amount else 0
  {
    assert [note][..0] == [];
  }

  /** The out note takes no more than the fee leaves of the same asset. */
  predicate Affordable(made: SpendNote, out: SpendNote, fee: nat)
  {
    && made.amount <= MAX_UINT64 && out.assetID == made.assetID
    && if made.assetID == DEFAULT_ASSET_ID then out.amount + fee <= made.amount
       else fee == 0 && out.amount <= made.amount
  }

  lemma HonestBalances(made: SpendNote, out: SpendNote, fee: nat, pub: PublicParams)
    requires Affordable(made, out, fee) && pub.fee == fee && pub.coinbase == 0 && pub.mintID == None
    ensures Balanced([made], [out], pub)
  {
    forall asset ensures Total([made], asset) == Part(made, asset) && Total([out], asset) == Part(out, asset) {
      OneTotal(made, asset);
      OneTotal(out, asset);
    }
    hide Total;
  }

  /**
   The note that transaction `t` of block `k` created can be spent, as far as the
   circuit is concerned: some root on disk and some witness make it accept, and
   the nullifier it shows is that of the note at its index.
   */
  lemma EveryNoteIsSpendable(h: seq<Applied>, w: Witness, k: nat, t: nat, j: nat,
                             script: Slice, params: seq<Slice>, out: SpendNote, fee: nat)
      returns (root: Hash, n: Hash, priv: PrivateParams)
    requires Witnessed(h, w) && k < |h| && t < |h[k].blk.txs| && !h[k].blk.txs[t].body.Stake? && j < |w(k, t).outputs|
    requires ScriptHash(script, params) == Some(w(k, t).outputs[j].scriptHash)
    requires out.Commitment().Some? && Affordable(w(k, t).outputs[j], out, fee)
    ensures root in DiskOf(h).roots
    ensures CalculateNullifier(FirstIndex(h, k, t) + j, w(k, t).outputs[j].salt, script, params) == Some(n)
    ensures priv.inputs != [] && priv.inputs[0].note == w(k, t).outputs[j]
    ensures Satisfies(priv, PublicParams(Some(root), [out.Commitment().value], [n], fee, 0, None, 0))
    ensures forall tx: Transaction :: tx.body == Standard([n], root, fee) && tx.outs == [out.Commitment().value] ==>
      Satisfies(priv, PublicOf(tx))
  {
    hide Witnessed, DiskOf, FirstIndex, Satisfies, Affordable, Accepts, ScriptHash, CalculateNullifier, ListExpr;
    hide SpendNote.Commitment, WithProof;
    var hashes, flags;
    root, hashes, flags := NoteIsProvable(h, w, k, t, j);
    WithProofIs(w(k, t).outputs[j], FirstIndex(h, k, t) + j, root, hashes, flags);
    n, priv := HonestSpend(w(k, t).outputs[j], FirstIndex(h, k, t) + j, root, hashes, flags, script, params, out, fee);
  }

  ghost predicate WithProof(note: SpendNote, index: nat, root: Hash, hashes: seq<Hash>, flags: Word)
  {
    note.Commitment().Some? && Accepts(note.Commitment().value, index, hashes, flags, root)
  }

  lemma WithProofIs(note: SpendNote, index: nat, root: Hash, hashes: seq<Hash>, flags: Word)
    requires WithProof(note, index, root, hashes, flags)
    ensures note.Commitment().Some? && Accepts(note.Commitment().value, index, hashes, flags, root)
  {
  }

  lemma NoteIsProvable(h: seq<Applied>, w: Witness, k: nat, t: nat, j: nat)
      returns (root: Hash, hashes: seq<Hash>, flags: Word)
    requires Witnessed(h, w) && k < |h| && t < |h[k].blk.txs| && !h[k].blk.txs[t].body.Stake? && j < |w(k, t).outputs|
    ensures root in DiskOf(h).roots
    ensures WithProof(w(k, t).outputs[j], FirstIndex(h, k, t) + j, root, hashes, flags)
  {
    hide Witnessed, DiskOf, FirstIndex, Opens, Accepts, SpendNote.Commitment;
    TxNotesOpen(h, w, k, t);
    OpensSize(w(k, t).outputs[j], w(k, t).outputs, h[k].blk.txs[t].outs, j);
    root, hashes, flags := EveryOutputIsProvable(h, k, t, j);
  }

  lemma HonestSpend(made: SpendNote, index: nat, root: Hash, hashes: seq<Hash>, flags: Word,
                    script: Slice, params: seq<Slice>, out: SpendNote, fee: nat) returns (n: Hash, priv: PrivateParams)
    requires made.Commitment().Some? && Accepts(made.Commitment().value, index, hashes, flags, root)
    requires ScriptHash(script, params) == Some(made.scriptHash)
    requires out.Commitment().Some? && Affordable(made, out, fee)
    ensures CalculateNullifier(index, made.salt, script, params) == Some(n)
    ensures priv.inputs != [] && priv.inputs[0].note == made
    ensures Satisfies(priv, PublicParams(Some(root), [out.Commitment().value], [n], fee, 0, None, 0))
  {
    NullifierExists(index, made.salt, script, params);
    hide Satisfies, Affordable, Accepts, ScriptHash, CalculateNullifier, SpendNote.Commitment, Balanced;
    n := CalculateNullifier(index, made.salt, script, params).value;
    priv := Honest(made, index, hashes, flags, script, params, out);
    var pub := PublicParams(Some(root), [out.Commitment().value], [n], fee, 0, None, 0);
    HonestBalances(made, out, fee, pub);
    HonestIsAccepted(priv, pub, made);
  }

  lemma NullifierExists(index: nat, salt: Hash, script: Slice, params: seq<Slice>)
    requires ScriptHash(script, params).Some?
    ensures CalculateNullifier(index, salt, script, params).Some?
  {
  }

  lemma OpensSize(made: SpendNote, notes: seq<SpendNote>, outputs: seq<Hash>, j: nat)
    requires Opens(notes, outputs) && j < |notes| && notes[j] == made
    ensures j < |outputs| && made.Commitment() == Some(outputs[j])
  {
  }

  lemma HonestIsAccepted(priv: PrivateParams, pub: PublicParams, made: SpendNote)
    requires |priv.inputs| == 1 == |priv.outputs| == |pub.outputs| == |pub.nullifiers| && pub.txoRoot.Some?
    requires var input := priv.inputs[0];
      && input.note == made && ScriptHash(input.scriptCommitment, input.scriptParams) == Some(made.scriptHash)
      && made.Commitment().Some? && input.Nullifier() == Some(pub.nullifiers[0])
      && Accepts(made.Commitment().value, input.commitmentIndex, input.hashes, input.flags, pub.txoRoot.value)
    requires priv.outputs[0].Commitment() == Some(pub.outputs[0]) && Balanced([made], priv.outputs, pub)
    ensures Satisfies(priv, pub)
  {
    hide Balanced, Accepts;
    var input := priv.inputs[0];
    assert made.(scriptHash := made.scriptHash) == made;
    assert InputNotes(priv.inputs) == [made];
    assert InputProved(priv, pub, 0) && OutputProved(priv, pub, 0);
  }

  // ---------- Other transactions ----------

  /** Coins that a coinbase claims, or the treasury pays, can be put into a note. */
  lemma PaymentIsProvable(tx: Transaction, out: SpendNote)
    requires tx.body.Coinbase? || tx.body.Treasury?
    requires out.assetID == DEFAULT_ASSET_ID && out.Commitment().Some? && tx.outs == [out.Commitment().value]
    requires out.amount <= if tx.body.Coinbase? then tx.body.newCoins else tx.body.withdrawal
    ensures Satisfies(PrivateParams([], [out]), PublicOf(tx))
  {
    var priv, pub := PrivateParams([], [out]), PublicOf(tx);
    forall asset ensures Total([], asset) == 0 && Total([out], asset) == Part(out, asset) {
      OneTotal(out, asset);
    }
    assert InputNotes(priv.inputs) == [];
    hide Total, SpendNote.Commitment;
    assert OutputProved(priv, pub, 0);
  }

  /** What a transfer does, a mint can do too, and put new tokens into one more note. */
  lemma MintIsProvable(tx: Transaction, mint: Transaction, priv: PrivateParams, token: SpendNote, tokens: Amount)
    requires tx.body.Standard? && Satisfies(priv, PublicOf(tx))
    requires token.assetID != DEFAULT_ASSET_ID && token.amount <= tokens && token.Commitment().Some?
    requires Total(InputNotes(priv.inputs), token.assetID) + tokens <= MAX_UINT64
    requires mint.body == Mint(tx.body.nullifiers, tx.body.txoRoot, tx.body.fee, Some(token.assetID), tokens)
    requires mint.outs == tx.outs + [token.Commitment().value]
    ensures Satisfies(priv.(outputs := priv.outputs + [token]), PublicOf(mint))
  {
    var more, pub := priv.(outputs := priv.outputs + [token]), PublicOf(mint);
    ValueConservation(priv, PublicOf(tx), token.assetID);
    forall asset ensures Total(more.outputs, asset) == Total(priv.outputs, asset) + Part(token, asset) {
      assert more.outputs[..|more.outputs| - 1] == priv.outputs;
    }
    hide Total, SpendNote.Commitment, Accepts;
    forall i | 0 <= i < |more.inputs| ensures InputProved(more, pub, i) {
      assert InputProved(priv, PublicOf(tx), i);
    }
    forall i | 0 <= i < |more.outputs| ensures OutputProved(more, pub, i) {
      assert i < |priv.outputs| ==> OutputProved(priv, PublicOf(tx), i);
    }
    MintBalances(InputNotes(priv.inputs), priv.outputs, PublicOf(tx), token, pub);
  }

  lemma MintBalances(ins: seq<SpendNote>, outs: seq<SpendNote>, before: PublicParams, token: SpendNote,
                     pub: PublicParams)
    requires Balanced(ins, outs, before) && before.mintID == None && token.assetID != DEFAULT_ASSET_ID
    requires pub.fee == before.fee && pub.coinbase == before.coinbase && pub.mintID == Some(token.assetID)
    requires token.amount <= pub.mintAmount && Total(ins, token.assetID) + pub.mintAmount <= MAX_UINT64
    requires forall asset :: Total(outs + [token], asset) == Total(outs, asset) + Part(token, asset)
    requires Total(outs, token.assetID) <= Total(ins, token.assetID)
    ensures Balanced(ins, outs + [token], pub)
  {
    hide Total;
    var more := outs + [token];
    forall i | 0 <= i < |more| && more[i].assetID != DEFAULT_ASSET_ID
      ensures AssetBalanced(ins, more, pub, more[i].assetID)
    {
      assert i < |outs| ==> more[i] == outs[i] && AssetBalanced(ins, outs, before, outs[i].assetID);
    }
  }
}
