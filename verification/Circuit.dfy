/**
 The standard transaction circuit (zk/circuits/standard/standardcircuit.go):
 what a private witness must satisfy, that satisfying it conserves value, and
 how nullifiers tell output indexes apart.
 */
module Circuit {
  import opened Prelude
  import opened Hashes
  import opened Inclusion

  // ---------- Commitments and nullifiers ----------

  /**
   A byte slice as it is printed into a Lurk expression: exactly 32 bytes, fewer
   (only the number they spell matters), or more (the first 32 and the rest).
   */
  datatype Slice = Exact(word: Hash) | Short(number: nat, padded: Hash) | Long(first: Hash, rest: seq<nat>)

  /** NewID: the first 32 bytes, zero-padded on the right. */
  function NewID(s: Slice): (id: Hash)
  {
    match s
    case Exact(w) => w
    case Short(_, padded) => padded
    case Long(first, _) => first
  }

  function Number(s: Slice): (e: Expr)
  {
    match s
    case Exact(w) => Atom(w)
    case Short(n, _) => Atom(Raw(n))
    case Long(first, rest) => Cons(Atom(first), Digits(rest))
  }

  function Digits(bytes: seq<nat>): (e: Expr)
  {
    if bytes == [] then Nil else Cons(Atom(Raw(bytes[0])), Digits(bytes[1..]))
  }

  /** buildLurkExpression: a list of the parameters, refused when one exceeds 32 bytes. */
  function ListExpr(params: seq<Slice>): (e: Option<Expr>)
  {
    if params == [] then Some(Nil)
    else if params[0].Long? then None
    else match ListExpr(params[1..])
      case None => None
      case Some(rest) => Some(Cons(Number(params[0]), rest))
  }

  /** The hash of a locking script. */
  function ScriptHash(scriptCommitment: Slice, params: seq<Slice>): (h: Option<Hash>)
  {
    match ListExpr(params)
    case None => None
    case Some(list) => Some(Lurk(Cons(Atom(NewID(scriptCommitment)), list)))
  }

  datatype SpendNote = SpendNote(scriptHash: Hash, amount: nat, assetID: Hash, salt: Hash, state: seq<Slice>)
  {
    function Commitment(): (h: Option<Hash>)
    {
      match ListExpr(state)
      case None => None
      case Some(stateExpr) =>
        Some(Lurk(Cons(Atom(scriptHash), Cons(Atom(Raw(amount)),
                  Cons(Atom(assetID), Cons(Atom(salt), Cons(stateExpr, Nil)))))))
    }
  }

  function CalculateNullifier(index: nat, salt: Hash, scriptCommitment: Slice, params: seq<Slice>): (n: Option<Hash>)
  {
    match ListExpr(params)
    case None => None
    case Some(list) =>
      Some(Lurk(Cons(Atom(Raw(index)), Cons(Atom(salt), Cons(Number(scriptCommitment), Cons(list, Nil))))))
  }

  // ---------- What commitments bind ----------

  /** A list is refused exactly if one of its parameters exceeds 32 bytes. */
  lemma {:induction false} ListIsRefused(params: seq<Slice>)
    ensures ListExpr(params) == None <==> exists i :: 0 <= i < |params| && params[i].Long?
  {
    if params != [] {
      ListIsRefused(params[1..]);
      if i :| 0 <= i < |params[1..]| && params[1..][i].Long? {
        assert params[i + 1].Long?;
      }
    }
  }

  /** A list binds the number of its parameters and each one. */
  lemma {:induction false} ListBinds(p: seq<Slice>, q: seq<Slice>)
    requires ListExpr(p).Some? && ListExpr(p) == ListExpr(q)
    ensures |p| == |q| && forall i :: 0 <= i < |p| ==> Number(p[i]) == Number(q[i])
  {
    if p != [] && q != [] {
      ListBinds(p[1..], q[1..]);
      forall i | 0 <= i < |p| ensures Number(p[i]) == Number(q[i]) {
        assert i > 0 ==> p[i] == p[1..][i - 1] && q[i] == q[1..][i - 1];
      }
    }
  }

  /** A note's commitment binds all that is in the note. */
  lemma CommitmentBinds(a: SpendNote, b: SpendNote)
    requires a.Commitment().Some? && a.Commitment() == b.Commitment()
    ensures a.scriptHash == b.scriptHash && a.amount == b.amount && a.assetID == b.assetID && a.salt == b.salt
    ensures |a.state| == |b.state| && forall i :: 0 <= i < |a.state| ==> Number(a.state[i]) == Number(b.state[i])
  {
    ListBinds(a.state, b.state);
  }

  /** A script hash binds the script commitment's first 32 bytes and the parameters. */
  lemma ScriptHashBinds(c: Slice, p: seq<Slice>, d: Slice, q: seq<Slice>)
    requires ScriptHash(c, p).Some? && ScriptHash(c, p) == ScriptHash(d, q)
    ensures NewID(c) == NewID(d) && |p| == |q| && forall i :: 0 <= i < |p| ==> Number(p[i]) == Number(q[i])
  {
    ListBinds(p, q);
  }

  /** A nullifier binds the index, the salt and the script with its parameters. */
  lemma NullifierBinds(i: nat, salt: Hash, c: Slice, p: seq<Slice>, j: nat, other: Hash, d: Slice, q: seq<Slice>)
    requires CalculateNullifier(i, salt, c, p).Some?
    requires CalculateNullifier(i, salt, c, p) == CalculateNullifier(j, other, d, q)
    ensures i == j && salt == other && Number(c) == Number(d)
    ensures |p| == |q| && forall n :: 0 <= n < |p| ==> Number(p[n]) == Number(q[n])
  {
    ListBinds(p, q);
  }

  // ---------- Parameters ----------

  datatype PrivateInput = PrivateInput(note: SpendNote, commitmentIndex: nat, hashes: seq<Hash>, flags: Word,
                                       scriptCommitment: Slice, scriptParams: seq<Slice>)
  {
    /** The note as the circuit sees it: with the script hash it computed itself. */
    function Commitment(): (h: Option<Hash>)
    {
      match ScriptHash(scriptCommitment, scriptParams)
      case None => None
      case Some(sh) => note.(scriptHash := sh).Commitment()
    }

    function Nullifier(): (n: Option<Hash>)
    {
      CalculateNullifier(commitmentIndex, note.salt, scriptCommitment, scriptParams)
    }
  }

  datatype PrivateParams = PrivateParams(inputs: seq<PrivateInput>, outputs: seq<SpendNote>)

  /** The mint asset is None when the source's byte slice is not 32 bytes long. */
  datatype PublicParams = PublicParams(txoRoot: Option<Hash>, outputs: seq<Hash>, nullifiers: seq<Hash>,
                                       fee: nat, coinbase: nat, mintID: Option<Hash>, mintAmount: nat)

  const DEFAULT_ASSET_ID := Raw(0)

  // ---------- What the circuit accepts ----------

  /** The input's note is in the set with the public root, and its nullifier is the public one. */
  predicate InputProved(priv: PrivateParams, pub: PublicParams, i: nat)
    requires i < |priv.inputs|
  {
    var input := priv.inputs[i];
    && input.Commitment().Some?
    && pub.txoRoot.Some?
    && Accepts(input.Commitment().value, input.commitmentIndex, input.hashes, input.flags, pub.txoRoot.value)
    && i < |pub.nullifiers|
    && input.Nullifier() == Some(pub.nullifiers[i])
  }

  predicate OutputProved(priv: PrivateParams, pub: PublicParams, i: nat)
    requires i < |priv.outputs|
  {
    i < |pub.outputs| && priv.outputs[i].Commitment() == Some(pub.outputs[i])
  }

  /** The amount of one asset in the notes. */
  function Total(notes: seq<SpendNote>, asset: Hash): (sum: nat)
  {
    if notes == [] then 0
    else Total(notes[..|notes| - 1], asset) + Part(notes[|notes| - 1], asset)
  }

  function Part(note: SpendNote, asset: Hash): (amount: nat)
  {
    if note.assetID == asset then note.amount else 0
  }

  function InputNotes(inputs: seq<PrivateInput>): (notes: seq<SpendNote>)
    ensures |notes| == |inputs|
  {
    seq(|inputs|, i requires 0 <= i < |inputs| => inputs[i].note)
  }

  function Minted(pub: PublicParams, asset: Hash): (amount: nat)
  {
    if pub.mintID == Some(asset) then pub.mintAmount else 0
  }

  /** No total overflows, and nothing comes out that did not go in. */
  ghost predicate Balanced(ins: seq<SpendNote>, outs: seq<SpendNote>, pub: PublicParams)
  {
    && (forall a :: Total(ins, a) <= MAX_UINT64)
    && (forall a :: Total(outs, a) <= MAX_UINT64)
    && Total(outs, DEFAULT_ASSET_ID) + pub.fee <= MAX_UINT64
    && Total(ins, DEFAULT_ASSET_ID) + pub.coinbase <= MAX_UINT64
    && Total(outs, DEFAULT_ASSET_ID) + pub.fee <= Total(ins, DEFAULT_ASSET_ID) + pub.coinbase
    && forall i :: 0 <= i < |outs| && outs[i].assetID != DEFAULT_ASSET_ID ==>
         AssetBalanced(ins, outs, pub, outs[i].assetID)
  }

  predicate AssetBalanced(ins: seq<SpendNote>, outs: seq<SpendNote>, pub: PublicParams, asset: Hash)
  {
    Total(ins, asset) + Minted(pub, asset) <= MAX_UINT64 && Total(outs, asset) <= Total(ins, asset) + Minted(pub, asset)
  }

  ghost predicate Satisfies(priv: PrivateParams, pub: PublicParams)
  {
    && (forall i :: 0 <= i < |priv.inputs| ==> InputProved(priv, pub, i))
    && |priv.outputs| == |pub.outputs|
    && (forall i :: 0 <= i < |priv.outputs| ==> OutputProved(priv, pub, i))
    && Balanced(InputNotes(priv.inputs), priv.outputs, pub)
  }

  /** What is mentioned in the sums: the native asset and whatever is paid out. */
  predicate Counted(outs: seq<SpendNote>, asset: Hash)
  {
    asset == DEFAULT_ASSET_ID || exists i :: 0 <= i < |outs| && outs[i].assetID == asset
  }

  function Going(outs: seq<SpendNote>, pub: PublicParams, asset: Hash): (amount: nat)
  {
    Total(outs, asset) + if asset == DEFAULT_ASSET_ID then pub.fee else 0
  }

  function Coming(ins: seq<SpendNote>, pub: PublicParams, asset: Hash): (amount: nat)
  {
    Total(ins, asset) +
    if asset == DEFAULT_ASSET_ID then pub.coinbase else if pub.mintID == Some(asset) then pub.mintAmount else 0
  }

  /** The check is one inequality for every asset, over sums that fit 64 bits. */
  lemma BalancedIff(ins: seq<SpendNote>, outs: seq<SpendNote>, pub: PublicParams)
    ensures Balanced(ins, outs, pub) <==>
      forall a ::
        && Going(outs, pub, a) <= Coming(ins, pub, a)
        && Total(ins, a) <= MAX_UINT64 && Total(outs, a) <= MAX_UINT64
        && (Counted(outs, a) ==> Going(outs, pub, a) <= MAX_UINT64 && Coming(ins, pub, a) <= MAX_UINT64)
  {
    forall a ensures Total(outs, a) > 0 ==> Counted(outs, a) {
      AbsentAsset(outs, a);
    }
    hide Total;
    if Balanced(ins, outs, pub) {
      forall a | Counted(outs, a) && a != DEFAULT_ASSET_ID ensures AssetBalanced(ins, outs, pub, a) {
      }
    }
    if (forall a ::
          && Going(outs, pub, a) <= Coming(ins, pub, a)
          && Total(ins, a) <= MAX_UINT64 && Total(outs, a) <= MAX_UINT64
          && (Counted(outs, a) ==> Going(outs, pub, a) <= MAX_UINT64 && Coming(ins, pub, a) <= MAX_UINT64)) {
      forall i | 0 <= i < |outs| && outs[i].assetID != DEFAULT_ASSET_ID
        ensures AssetBalanced(ins, outs, pub, outs[i].assetID)
      {
        assert Counted(outs, outs[i].assetID);
      }
      assert Counted(outs, DEFAULT_ASSET_ID);
    }
  }

  /** Value conservation, over unbounded integers and for every asset. */
  lemma ValueConservation(priv: PrivateParams, pub: PublicParams, asset: Hash)
    requires Satisfies(priv, pub)
    ensures asset == DEFAULT_ASSET_ID ==>
      Total(priv.outputs, asset) + pub.fee <= Total(InputNotes(priv.inputs), asset) + pub.coinbase
    ensures asset != DEFAULT_ASSET_ID ==>
      Total(priv.outputs, asset) <= Total(InputNotes(priv.inputs), asset) + Minted(pub, asset)
  {
    AbsentAsset(priv.outputs, asset);
  }

  lemma {:induction false} AbsentAsset(notes: seq<SpendNote>, asset: Hash)
    ensures Total(notes, asset) > 0 ==> exists i :: 0 <= i < |notes| && notes[i].assetID == asset
  {
    if notes != [] {
      var rest := notes[..|notes| - 1];
      AbsentAsset(rest, asset);
      if Total(rest, asset) > 0 {
        var i :| 0 <= i < |rest| && rest[i].assetID == asset;
        assert notes[i].assetID == asset;
      } else if Total(notes, asset) > 0 {
        assert notes[|notes| - 1].assetID == asset;
      }
    }
  }

  // ---------- The circuit ----------

  function AddUint64(a: nat, b: nat): (r: Option<nat>)
    requires a <= MAX_UINT64 && b <= MAX_UINT64
    ensures r == if a + b <= MAX_UINT64 then Some(a + b) else None
  {
    if b > 0 && a > MAX_UINT64 - b then None else Some(a + b)
  }

  lemma {:induction false} TotalPrefix(notes: seq<SpendNote>, i: nat, asset: Hash)
    requires i <= |notes|
    ensures Total(notes[..i], asset) <= Total(notes, asset)
    decreases |notes|
  {
    if i < |notes| {
      TotalPrefix(notes[..|notes| - 1], i, asset);
      assert notes[..|notes| - 1][..i] == notes[..i];
    } else {
      assert notes[..i] == notes;
    }
  }

  /** Adding one note to the totals kept so far: the native total, and a map for the other assets. */
  method AddNote(notes: seq<SpendNote>, i: nat, native: nat, assets: map<Hash, nat>)
      returns (ok: bool, native': nat, assets': map<Hash, nat>)
    requires i < |notes| && notes[i].amount <= MAX_UINT64
    requires TotalsOf(notes[..i], native, assets)
    ensures ok ==> TotalsOf(notes[..i + 1], native', assets')
    ensures !ok ==> exists a :: Total(notes, a) > MAX_UINT64
  {
    native', assets' := native, assets;
    var note := notes[i];
    assert notes[..i + 1][..i] == notes[..i];
    TotalPrefix(notes, i + 1, note.assetID);
    if note.assetID == DEFAULT_ASSET_ID {
      var sum := AddUint64(native, note.amount);
      if sum == None {
        return false, native, assets;
      }
      native' := sum.value;
    } else {
      var sofar := if note.assetID in assets then assets[note.assetID] else 0;
      var sum := AddUint64(sofar, note.amount);
      if sum == None {
        return false, native, assets;
      }
      assets' := assets[note.assetID := sum.value];
    }
    forall a ensures Total(notes[..i + 1], a) == Total(notes[..i], a) + Part(note, a) {
    }
    ok := true;
  }

  /** The totals that the loops keep; assets that were not seen are not in the map. */
  ghost predicate TotalsOf(notes: seq<SpendNote>, native: nat, assets: map<Hash, nat>)
  {
    && native == Total(notes, DEFAULT_ASSET_ID)
    && (forall a :: Total(notes, a) <= MAX_UINT64)
    && (forall a :: a in assets <==> a != DEFAULT_ASSET_ID && exists i :: 0 <= i < |notes| && notes[i].assetID == a)
    && (forall a :: a in assets ==> assets[a] == Total(notes, a))
    && (forall a :: a != DEFAULT_ASSET_ID && a !in assets ==> Total(notes, a) == 0)
  }

  lemma NoTotals(notes: seq<SpendNote>)
    ensures TotalsOf(notes[..0], 0, map[])
  {
  }

  /** The private and public amounts are uint64 values. */
  predicate Uint64Params(priv: PrivateParams, pub: PublicParams)
  {
    && (forall i :: 0 <= i < |priv.inputs| ==> priv.inputs[i].note.amount <= MAX_UINT64)
    && (forall i :: 0 <= i < |priv.outputs| ==> priv.outputs[i].amount <= MAX_UINT64)
    && pub.fee <= MAX_UINT64 && pub.coinbase <= MAX_UINT64 && pub.mintAmount <= MAX_UINT64
  }

  /**
   The circuit accepts exactly the witnesses that satisfy it.  With more inputs
   than nullifiers the source panics, which accepts nothing either.
   */
  method StandardCircuit(priv: PrivateParams, pub: PublicParams) returns (ok: bool)
    requires Uint64Params(priv, pub)
    ensures ok <==> Satisfies(priv, pub)
  {
    ghost var ins := InputNotes(priv.inputs);
    var inVal: nat, assetIns: map<Hash, nat> := 0, map[];
    NoTotals(ins);
    for i := 0 to |priv.inputs|
      invariant forall k :: 0 <= k < i ==> InputProved(priv, pub, k)
      invariant TotalsOf(ins[..i], inVal, assetIns)
    {
      var input := priv.inputs[i];
      var outputCommitment := input.Commitment();
      if outputCommitment == None || pub.txoRoot == None {
        assert !InputProved(priv, pub, i);
        return false;
      }
      var included := ValidateInclusionProof(outputCommitment.value, input.commitmentIndex, input.hashes, input.flags,
                                             pub.txoRoot.value);
      if !included || i >= |pub.nullifiers| || input.Nullifier() != Some(pub.nullifiers[i]) {
        assert !InputProved(priv, pub, i);
        return false;
      }
      var added;
      added, inVal, assetIns := AddNote(InputNotes(priv.inputs), i, inVal, assetIns);
      if !added {
        return false;
      }
    }
    assert ins[..|priv.inputs|] == ins;

    var outVal: nat, assetOuts: map<Hash, nat> := 0, map[];
    NoTotals(priv.outputs);
    if |priv.outputs| != |pub.outputs| {
      return false;
    }
    for i := 0 to |priv.outputs|
      invariant forall k :: 0 <= k < i ==> OutputProved(priv, pub, k)
      invariant TotalsOf(priv.outputs[..i], outVal, assetOuts)
    {
      if priv.outputs[i].Commitment() != Some(pub.outputs[i]) {
        assert !OutputProved(priv, pub, i);
        return false;
      }
      var added;
      added, outVal, assetOuts := AddNote(priv.outputs, i, outVal, assetOuts);
      if !added {
        return false;
      }
    }
    assert priv.outputs[..|priv.outputs|] == priv.outputs;

    var totalOut, totalIn := AddUint64(outVal, pub.fee), AddUint64(inVal, pub.coinbase);
    if totalOut == None || totalIn == None || totalOut.value > totalIn.value {
      return false;
    }
    ok := CheckAssets(ins, priv.outputs, assetIns, assetOuts, pub);
  }

  /** The last loop: every asset that was paid out, in any order. */
  method CheckAssets(ghost ins: seq<SpendNote>, ghost outs: seq<SpendNote>,
                     assetIns: map<Hash, nat>, assetOuts: map<Hash, nat>, pub: PublicParams) returns (ok: bool)
    requires TotalsOf(ins, Total(ins, DEFAULT_ASSET_ID), assetIns)
    requires TotalsOf(outs, Total(outs, DEFAULT_ASSET_ID), assetOuts)
    requires pub.mintAmount <= MAX_UINT64
    ensures ok <==>
      forall i :: 0 <= i < |outs| && outs[i].assetID != DEFAULT_ASSET_ID ==>
        AssetBalanced(ins, outs, pub, outs[i].assetID)
  {
    var assets := assetOuts.Keys;
    while assets != {}
      invariant assets <= assetOuts.Keys
      invariant forall a :: a in assetOuts && a !in assets ==> AssetBalanced(ins, outs, pub, a)
      decreases assets
    {
      var assetID :| assetID in assets;
      assets := assets - {assetID};
      var inVal := if assetID in assetIns then assetIns[assetID] else 0;
      assert inVal == Total(ins, assetID);
      if pub.mintID == Some(assetID) {
        var sum := AddUint64(inVal, pub.mintAmount);
        if sum == None {
          assert !AssetBalanced(ins, outs, pub, assetID);
          return false;
        }
        inVal := sum.value;
      }
      if assetOuts[assetID] > inVal {
        assert !AssetBalanced(ins, outs, pub, assetID);
        return false;
      }
    }
    ok := true;
  }

  // ---------- Nullifiers and indexes ----------

  /** Printing the whole script commitment prints the 32 bytes that its script hash is made from. */
  predicate Canonical(scriptCommitment: Slice)
  {
    Number(scriptCommitment) == Atom(NewID(scriptCommitment))
  }

  /** Script commitments of exactly 32 bytes are canonical, longer ones never are. */
  lemma ThirtyTwoBytesAreCanonical(s: Slice)
    ensures s.Exact? ==> Canonical(s)
    ensures s.Long? ==> !Canonical(s)
  {
  }

  /**
   Two inputs that open the same commitment have the same nullifier exactly when
   they claim the same index, provided their script commitments are canonical.
   */
  lemma NullifierIsOfIndex(a: PrivateInput, b: PrivateInput)
    requires a.Commitment().Some? && a.Commitment() == b.Commitment()
    requires Canonical(a.scriptCommitment) && Canonical(b.scriptCommitment)
    ensures a.Nullifier().Some? && b.Nullifier().Some?
    ensures a.Nullifier() == b.Nullifier() <==> a.commitmentIndex == b.commitmentIndex
  {
  }

  /**
   The condition is exact: whenever a script commitment is not canonical, the
   same note at the same index has a second nullifier.
   */
  lemma SecondNullifier(a: PrivateInput)
    requires !Canonical(a.scriptCommitment) && a.Commitment().Some?
    ensures var b := a.(scriptCommitment := Exact(NewID(a.scriptCommitment)));
      && Canonical(b.scriptCommitment)
      && b.Commitment() == a.Commitment()
      && a.Nullifier().Some? && b.Nullifier().Some? && a.Nullifier() != b.Nullifier()
  {
  }
}
