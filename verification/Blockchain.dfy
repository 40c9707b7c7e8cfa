/**
 The chain state machine: the nullifier set and the txo root set with their
 caches, block validation, and connecting a block.  Calls are atomic, as they
 are under the source's lock; a database transaction is a copy of the disk that
 is written back whole when it commits.
 */
module Blockchains {
  import opened Prelude
  import opened Hashes
  import opened MountainRange
  import opened Accumulators
  import opened Ledger

  class Datastore {
    var d: Disk

    constructor ()
      ensures d == EMPTY_DISK
    {
      d := EMPTY_DISK;
    }
  }

  // ---------- blockchain/nullifierset.go ----------

  class NullifierSet {
    const ds: Datastore
    const maxEntries: nat
    var cachedEntries: map<Hash, bool>

    /** A cached answer is what the disk would answer. */
    ghost predicate Agrees()
      reads this, ds
    {
      && |cachedEntries| <= maxEntries
      && forall n :: n in cachedEntries ==> cachedEntries[n] == (n in ds.d.nullifiers)
    }

    constructor (ds: Datastore, maxEntries: nat)
      ensures this.ds == ds && this.maxEntries == maxEntries && Agrees()
    {
      this.ds, this.maxEntries, cachedEntries := ds, maxEntries, map[];
    }

    /** Looks in the cache first, and caches what it had to read from disk. */
    method NullifierExists(nullifier: Hash) returns (found: bool)
      requires Agrees()
      modifies this
      ensures Agrees() && found == (nullifier in ds.d.nullifiers)
    {
      if nullifier in cachedEntries {
        return cachedEntries[nullifier];
      }
      found := nullifier in ds.d.nullifiers;
      if maxEntries <= 0 {
        return;
      }
      LimitCache(1);
      cachedEntries := cachedEntries[nullifier := found];
    }

    /** Makes room by dropping entries, whichever the map yields first. */
    method LimitCache(newEntries: nat)
      requires newEntries > 0
      modifies this
      ensures cachedEntries.Keys <= old(cachedEntries.Keys)
      ensures forall n :: n in cachedEntries ==> cachedEntries[n] == old(cachedEntries)[n]
      ensures |old(cachedEntries)| <= maxEntries && newEntries <= maxEntries ==>
        |cachedEntries| + newEntries <= maxEntries
    {
      var i := 0;
      if |cachedEntries| + newEntries > maxEntries {
        while |cachedEntries| > 0
          invariant i < newEntries
          invariant |cachedEntries| + i == |old(cachedEntries)|
          invariant cachedEntries.Keys <= old(cachedEntries.Keys)
          invariant forall n :: n in cachedEntries ==> cachedEntries[n] == old(cachedEntries)[n]
          decreases |cachedEntries|
        {
          assert |cachedEntries.Keys| == |cachedEntries|;
          var nullifier :| nullifier in cachedEntries.Keys;
          ghost var before := cachedEntries;
          cachedEntries := cachedEntries - {nullifier};
          assert cachedEntries.Keys == before.Keys - {nullifier};
          assert |cachedEntries.Keys| == |cachedEntries|;
          i := i + 1;
          if i >= newEntries {
            break;
          }
        }
      }
    }

    /** Forgets the cached answers for the nullifiers and adds them to the transaction. */
    method AddNullifiers(dbtx: Disk, nullifiers: seq<Hash>) returns (dbtx': Disk)
      modifies this
      ensures cachedEntries == old(cachedEntries) - SetOf(nullifiers)
      ensures dbtx' == dbtx.(nullifiers := dbtx.nullifiers + SetOf(nullifiers))
    {
      dbtx' := dbtx;
      for i := 0 to |nullifiers|
        invariant cachedEntries == old(cachedEntries) - SetOf(nullifiers[..i])
        invariant dbtx' == dbtx.(nullifiers := dbtx.nullifiers + SetOf(nullifiers[..i]))
      {
        assert SetOf(nullifiers[..i + 1]) == SetOf(nullifiers[..i]) + {nullifiers[i]};
        cachedEntries := cachedEntries - {nullifiers[i]};
        dbtx' := dbtx'.(nullifiers := dbtx'.nullifiers + {nullifiers[i]});
      }
      assert nullifiers[..|nullifiers|] == nullifiers;
    }
  }

  lemma SmallerMap(before: map<Hash, bool>, after: map<Hash, bool>, ns: set<Hash>)
    requires after == before - ns
    ensures |after| <= |before|
  {
    SizeOfSubset(after.Keys, before.Keys);
    assert |after.Keys| == |after| && |before.Keys| == |before|;
  }

  // ---------- blockchain/txorootset.go ----------

  class TxoRootSet {
    const ds: Datastore
    const maxEntries: nat
    var cache: map<Hash, int>

    /** Every cached root is on disk. */
    ghost predicate Agrees()
      reads this, ds
    {
      forall r :: r in cache ==> r in ds.d.roots
    }

    constructor (ds: Datastore, maxEntries: nat)
      ensures this.ds == ds && this.maxEntries == maxEntries && Agrees()
    {
      this.ds, this.maxEntries, cache := ds, maxEntries, map[];
    }

    method RootExists(txoRoot: Hash) returns (found: bool)
      requires Agrees()
      ensures found == (txoRoot in ds.d.roots)
    {
      if txoRoot in cache {
        return true;
      }
      found := txoRoot in ds.d.roots;
    }

    /**
     Caches a root, after evicting the one cached longest ago if the cache is
     full; with no entry older than `now` the source evicts the zero ID.
     */
    method UpdateCache(txoRoot: Hash, now: int)
      requires Agrees() && txoRoot in ds.d.roots
      modifies this
      ensures Agrees()
      ensures maxEntries == 0 ==> cache == old(cache)
      ensures maxEntries > 0 && |old(cache)| < maxEntries ==> cache == old(cache)[txoRoot := now]
      ensures maxEntries > 0 && |old(cache)| >= maxEntries ==>
        exists e :: IsOldest(old(cache), now, e) && cache == (old(cache) - {e})[txoRoot := now]
      ensures maxEntries > 0 && |old(cache)| <= maxEntries ==>
        (|cache| > maxEntries <==>
           && |old(cache)| == maxEntries && txoRoot !in old(cache)
           && NothingOlder(old(cache), now) && Raw(0) !in old(cache))
    {
      if maxEntries <= 0 {
        return;
      }
      ghost var before := cache;
      SizeAfter(before, Raw(0), txoRoot, now, false);
      if |cache| + 1 > maxEntries {
        var toEvict := Oldest(now);
        cache := cache - {toEvict};
        SizeAfter(before, toEvict, txoRoot, now, true);
      }
      cache := cache[txoRoot := now];
    }

    /** The loop of UpdateCache. */
    method Oldest(now: int) returns (toEvict: Hash)
      ensures IsOldest(cache, now, toEvict)
    {
      var earliest := now;
      toEvict := Raw(0);
      var entries := cache.Keys;
      while entries != {}
        invariant entries <= cache.Keys
        invariant forall e :: e in cache && e !in entries ==> earliest <= cache[e]
        invariant if earliest == now then toEvict == Raw(0)
                  else earliest < now && toEvict in cache && cache[toEvict] == earliest
        decreases entries
      {
        var entry :| entry in entries;
        entries := entries - {entry};
        if cache[entry] < earliest {
          earliest, toEvict := cache[entry], entry;
        }
      }
    }
  }

  predicate NothingOlder(cache: map<Hash, int>, now: int)
  {
    forall e :: e in cache ==> now <= cache[e]
  }

  /** The entry cached longest ago, or the zero ID if none was cached before now. */
  predicate IsOldest(cache: map<Hash, int>, now: int, e: Hash)
  {
    if NothingOlder(cache, now) then e == Raw(0)
    else e in cache && cache[e] < now && forall other :: other in cache ==> cache[e] <= cache[other]
  }

  lemma SizeAfter(cache: map<Hash, int>, e: Hash, root: Hash, now: int, evict: bool)
    ensures var left := if evict then cache - {e} else cache;
      |left[root := now]| == |cache| - (if evict && e in cache then 1 else 0) + (if root in left then 0 else 1)
  {
    var left := if evict then cache - {e} else cache;
    assert left.Keys == if evict then cache.Keys - {e} else cache.Keys;
    assert left[root := now].Keys == left.Keys + {root};
    assert |left[root := now].Keys| == |left[root := now]| && |left.Keys| == |left| && |cache.Keys| == |cache|;
  }

  // ---------- Checking the transactions of a block ----------

  function LastID(txs: seq<Transaction>): (id: nat)
  {
    if txs == [] then 0 else txs[|txs| - 1].id
  }

  lemma TxsValidStep(txs: seq<Transaction>, i: nat, d: Disk, time: int, env: Env, genesis: bool)
    requires i < |txs|
    ensures TxNullifiers(txs[..i + 1]) == TxNullifiers(txs[..i]) + txs[i].Nullifiers()
    ensures Withdrawn(txs[..i + 1]) == Withdrawn(txs[..i]) + if txs[i].body.Treasury? then txs[i].body.withdrawal else 0
    ensures TxsValid(txs[..i + 1], d, time, env, genesis) <==>
      && TxsValid(txs[..i], d, time, env, genesis)
      && (!genesis ==> LastID(txs[..i]) < txs[i].id)
      && (!genesis && txs[i].body.Coinbase? ==> txs[i].body.validator !in Claimants(txs[..i]))
      && TxAllowed(txs[i], d, time, env, genesis)
      && NoDuplicates(TxNullifiers(txs[..i]) + txs[i].Nullifiers())
      && Withdrawn(txs[..i + 1]) <= d.treasury
    ensures TxsValid(txs[..i], d, time, env, genesis) ==> NoDuplicates(TxNullifiers(txs[..i]))
  {
    var more, less := txs[..i + 1], txs[..i];
    assert more == less + [txs[i]];
    assert more[..i] == less && more[i] == txs[i];
    SortedStep(less, txs[i]);
    CoinbasesStep(less, txs[i]);
    if NoDuplicates(TxNullifiers(less) + txs[i].Nullifiers()) {
      PrefixNoDuplicates(TxNullifiers(less), txs[i].Nullifiers());
    }
    AllowedStep(less, txs[i], d, time, env, genesis);
  }

  lemma SortedStep(txs: seq<Transaction>, tx: Transaction)
    ensures SortedByID(txs + [tx]) <==> SortedByID(txs) && LastID(txs) < tx.id
  {
    var more := txs + [tx];
    if SortedByID(more) {
      assert forall i :: 0 <= i < |txs| ==> txs[i] == more[i];
      assert more[|txs|] == tx;
    }
  }

  lemma CoinbasesStep(txs: seq<Transaction>, tx: Transaction)
    ensures CoinbasesDiffer(txs + [tx]) <==>
      CoinbasesDiffer(txs) && (tx.body.Coinbase? ==> tx.body.validator !in Claimants(txs))
  {
    var more := txs + [tx];
    ClaimantsOf(txs);
    if CoinbasesDiffer(more) {
      assert forall i :: 0 <= i < |txs| ==> txs[i] == more[i];
      assert more[|txs|] == tx;
    }
  }

  lemma AllowedStep(txs: seq<Transaction>, tx: Transaction, d: Disk, time: int, env: Env, genesis: bool)
    ensures (forall k :: 0 <= k < |txs| + 1 ==> TxAllowed((txs + [tx])[k], d, time, env, genesis)) <==>
      (forall k :: 0 <= k < |txs| ==> TxAllowed(txs[k], d, time, env, genesis)) && TxAllowed(tx, d, time, env, genesis)
  {
    var more := txs + [tx];
    assert forall k :: 0 <= k < |txs| ==> more[k] == txs[k];
    assert more[|txs|] == tx;
  }

  lemma PrefixNoDuplicates(s: seq<Hash>, t: seq<Hash>)
    requires NoDuplicates(s + t)
    ensures NoDuplicates(s)
  {
    forall i, j | 0 <= i < j < |s| ensures s[i] != s[j] {
      assert (s + t)[i] != (s + t)[j];
    }
  }

  /** The validators with a coinbase among the transactions. */
  function Claimants(txs: seq<Transaction>): (vs: set<nat>)
  {
    if txs == [] then {}
    else Claimants(txs[..|txs| - 1]) + if txs[|txs| - 1].body.Coinbase? then {txs[|txs| - 1].body.validator} else {}
  }

  lemma {:induction false} ClaimantsOf(txs: seq<Transaction>)
    ensures forall v :: v in Claimants(txs) <==>
      exists k :: 0 <= k < |txs| && txs[k].body.Coinbase? && txs[k].body.validator == v
  {
    if txs != [] {
      ClaimantsOf(txs[..|txs| - 1]);
    }
  }

  lemma {:induction false} TxsValidPrefix(txs: seq<Transaction>, i: nat, d: Disk, time: int, env: Env, genesis: bool)
    requires i <= |txs| && TxsValid(txs, d, time, env, genesis)
    ensures TxsValid(txs[..i], d, time, env, genesis)
    decreases |txs| - i
  {
    if i < |txs| {
      TxsValidPrefix(txs, i + 1, d, time, env, genesis);
      TxsValidStep(txs, i, d, time, env, genesis);
    } else {
      assert txs[..i] == txs;
    }
  }

  // ---------- blockchain/validate.go and blockchain/chain.go ----------

  class Blockchain {
    const ds: Datastore
    const nullifierSet: NullifierSet
    const txoRootSet: TxoRootSet
    var accumulator: Accumulator
    var tip: Option<Header>
    ghost var history: seq<Applied>  // the blocks connected so far and what they met

    /** Everything the node keeps is what the history of valid blocks says it is. */
    ghost predicate Valid()
      reads this, ds, nullifierSet, txoRootSet, accumulator
    {
      && ValidHistory(history)
      && ds.d == DiskOf(history)
      && nullifierSet.ds == ds && nullifierSet.Agrees()
      && txoRootSet.ds == ds && txoRootSet.Agrees()
      && accumulator.Valid() && accumulator.elems == Outputs(history)
      && tip == if history == [] then None else Some(history[|history| - 1].blk.header)
    }

    constructor (maxNullifiers: nat, maxTxoRoots: nat)
      ensures Valid() && history == []
      ensures fresh(ds) && fresh(nullifierSet) && fresh(txoRootSet) && fresh(accumulator)
    {
      var store := new Datastore();
      ds := store;
      nullifierSet := new NullifierSet(store, maxNullifiers);
      txoRootSet := new TxoRootSet(store, maxTxoRoots);
      accumulator := new Accumulator();
      tip, history := None, [];
    }

    /** What the mempool asks. */
    method NullifierExists(n: Hash) returns (found: bool)
      requires Valid()
      modifies nullifierSet
      ensures Valid() && found == (n in DiskOf(history).nullifiers)
    {
      found := nullifierSet.NullifierExists(n);
    }

    method TxoRootExists(root: Hash) returns (found: bool)
      requires Valid()
      ensures found == (root in DiskOf(history).roots)
    {
      found := txoRootSet.RootExists(root);
    }

    /** The nullifier checks shared by standard and mint transactions. */
    method CheckNullifiers(nullifiers: seq<Hash>, blockNullifiers: set<Hash>) returns (ok: bool, seen: set<Hash>)
      requires nullifierSet.ds == ds && nullifierSet.Agrees()
      modifies nullifierSet
      ensures nullifierSet.Agrees()
      ensures ok <==> && NoDuplicates(nullifiers)
                      && forall n :: n in nullifiers ==> n !in blockNullifiers && n !in ds.d.nullifiers
      ensures ok ==> seen == blockNullifiers + SetOf(nullifiers)
    {
      seen := blockNullifiers;
      for i := 0 to |nullifiers|
        invariant nullifierSet.Agrees()
        invariant NoDuplicates(nullifiers[..i])
        invariant forall n :: n in nullifiers[..i] ==> n !in blockNullifiers && n !in ds.d.nullifiers
        invariant seen == blockNullifiers + SetOf(nullifiers[..i])
      {
        var nullifier := nullifiers[i];
        if nullifier in seen {
          return false, seen;
        }
        var exists_ := nullifierSet.NullifierExists(nullifier);
        if exists_ {
          return false, seen;
        }
        assert nullifiers[..i + 1] == nullifiers[..i] + [nullifier];
        seen := seen + {nullifier};
      }
      assert nullifiers[..|nullifiers|] == nullifiers;
      ok := true;
    }

    /** The checks of one transaction inside the loop of validateBlock. */
    method ValidateTx(tx: Transaction, time: int, env: Env, genesis: bool, blockNullifiers: set<Hash>)
        returns (ok: bool, seen: set<Hash>)
      requires nullifierSet.ds == ds && nullifierSet.Agrees() && txoRootSet.ds == ds && txoRootSet.Agrees()
      modifies nullifierSet
      ensures nullifierSet.Agrees()
      ensures ok <==> && TxAllowed(tx, ds.d, time, env, genesis)
                      && NoDuplicates(tx.Nullifiers()) && forall n :: n in tx.Nullifiers() ==> n !in blockNullifiers
      ensures ok ==> seen == blockNullifiers + SetOf(tx.Nullifiers())
    {
      ok, seen := false, blockNullifiers;
      if !tx.Sane() {
        return;
      }
      match tx.body {
        case Coinbase(validatorID, newCoins) =>
          if !genesis {
            if validatorID !in env.validators || newCoins != env.validators[validatorID].unclaimedCoins
               || newCoins == 0 {
              return;
            }
          }
          ok := true;
        case Stake(staker, nullifier, stakeRoot, _) =>
          if !genesis {
            var rootFound := txoRootSet.RootExists(stakeRoot);
            if !rootFound {
              return;
            }
            var spent := nullifierSet.NullifierExists(nullifier);
            if spent || RestakeTooEarly(staker, nullifier, time, env) {
              return;
            }
          }
          ok := true;
        case Treasury(_) =>
          ok := !genesis;
        case _ =>
          if genesis {
            return;
          }
          ok, seen := CheckNullifiers(tx.body.nullifiers, blockNullifiers);
          if !ok {
            return;
          }
          ok := txoRootSet.RootExists(tx.body.txoRoot);
      }
    }

    /** The block is on disk already. */
    ghost predicate Known(id: nat)
      reads ds
    {
      exists b :: b in ds.d.blocks && b.header.id == id
    }

    /** validateBlock: accepts exactly the valid blocks. */
    method ValidateBlock(blk: Block, env: Env, genesis: bool, fastAdd: bool) returns (ok: bool)
      requires nullifierSet.ds == ds && nullifierSet.Agrees() && txoRootSet.ds == ds && txoRootSet.Agrees()
      requires blk.txs != [] && blk.txs[0].body.Coinbase? ==> |blk.txs[0].outs| <= MAX_UINT64
      modifies nullifierSet
      ensures nullifierSet.Agrees()
      ensures ok <==> ValidBlock(blk, ds.d, env, genesis, fastAdd)
    {
      hide TxAllowed, SortedByID, CoinbasesDiffer, TxNullifiers, Withdrawn, NoStakeSpent, GenesisValid;
      hide TransactionsMerkleRoot, TxsValid;
      if !genesis && (!env.producerKey || (!fastAdd && !env.headerSigned)) {
        return false;
      }
      if blk.txs == [] || TransactionsMerkleRoot(blk.txs) != blk.header.txRoot {
        return false;
      }
      var blockNullifiers;
      ok, blockNullifiers := ValidateTxs(blk.txs, blk.header.timestamp, env, genesis);
      if !ok {
        return;
      }
      ok := CheckStakes(blk.txs, blockNullifiers);
      if !ok {
        return;
      }
      if genesis {
        ok := CheckGenesis(blk.txs);
        if !ok {
          return;
        }
      }
      ok := fastAdd || env.proofsAndSignaturesValid;
    }

    /** The loop of validateBlock over the transactions. */
    method ValidateTxs(txs: seq<Transaction>, time: int, env: Env, genesis: bool)
        returns (ok: bool, blockNullifiers: set<Hash>)
      requires nullifierSet.ds == ds && nullifierSet.Agrees() && txoRootSet.ds == ds && txoRootSet.Agrees()
      modifies nullifierSet
      ensures nullifierSet.Agrees()
      ensures ok <==> TxsValid(txs, ds.d, time, env, genesis)
      ensures ok ==> blockNullifiers == SetOf(TxNullifiers(txs))
    {
      hide TxAllowed, TxsValid;
      blockNullifiers := {};
      var blockCoinbases: set<nat>, lastTxid, treasuryBalance: Option<nat> := {}, 0, None;
      NoTxsValid(ds.d, time, env, genesis);
      assert txs[..0] == [];
      for i := 0 to |txs|
        invariant nullifierSet.Agrees()
        invariant TxsValid(txs[..i], ds.d, time, env, genesis)
        invariant blockNullifiers == SetOf(TxNullifiers(txs[..i]))
        invariant !genesis ==> lastTxid == LastID(txs[..i]) && blockCoinbases == Claimants(txs[..i])
        invariant Withdrawn(txs[..i]) <= ds.d.treasury
        invariant if treasuryBalance == None then Withdrawn(txs[..i]) == 0
                  else treasuryBalance.value == ds.d.treasury - Withdrawn(txs[..i])
      {
        var tx := txs[i];
        ok := false;
        assert txs[..i + 1][..i] == txs[..i] && txs[..i + 1][i] == tx;
        TxsValidStep(txs, i, ds.d, time, env, genesis);
        SetOfConcat(TxNullifiers(txs[..i]), tx.Nullifiers());
        JoinDuplicates(TxNullifiers(txs[..i]), tx.Nullifiers());
        if TxsValid(txs, ds.d, time, env, genesis) {
          TxsValidPrefix(txs, i + 1, ds.d, time, env, genesis);
        }
        if !genesis {
          if lastTxid >= tx.id {
            return;
          }
          lastTxid := tx.id;
          if tx.body.Coinbase? {
            if tx.body.validator in blockCoinbases {
              return;
            }
            blockCoinbases := blockCoinbases + {tx.body.validator};
          }
        }
        var allowed;
        allowed, blockNullifiers := ValidateTx(tx, time, env, genesis, blockNullifiers);
        if !allowed {
          return;
        }
        if tx.body.Treasury? {
          if treasuryBalance == None {
            treasuryBalance := Some(ds.d.treasury);
          }
          if tx.body.withdrawal > treasuryBalance.value {
            return;
          }
          treasuryBalance := Some(treasuryBalance.value - tx.body.withdrawal);
        }
      }
      assert txs[..|txs|] == txs;
      ok := true;
    }

    /**
     ConnectBlock.  A block is connected exactly when it connects to the tip, is
     not known yet, is valid, and neither the validator set nor the database
     refuses it; otherwise nothing that the history determines changes.  The
     genesis block is the one connected to an empty chain.
     */
    method ConnectBlock(blk: Block, env: Env, fastAdd: bool, noDupCheck: bool, validatorsRefuse: bool,
                        commitFails: bool)
        returns (ok: bool)
      requires Valid() && env.Valid()
      requires |Outputs(history)| + |TxOutputs(blk.txs)| <= MAX_UINT64
      modifies this, ds, nullifierSet, txoRootSet
      ensures Valid()
      ensures ok <==> old(ValidNext(history, Applied(blk, env, fastAdd))) && (noDupCheck || !old(Known(blk.header.id)))
                      && !validatorsRefuse && !commitFails
      ensures history == old(history) + if ok then [Applied(blk, env, fastAdd)] else []
      ensures !ok ==> unchanged(ds) && unchanged(txoRootSet) && unchanged(this)
    {
      hide ValidHistory, DiskOf, Outputs, TxOutputs, ValidNext, SlotsHold, AllTrack, LookupsTracked;
      ok := CheckBlock(blk, env, fastAdd, noDupCheck);
      if ok {
        ok := ApplyBlock(blk, env, fastAdd, validatorsRefuse, commitFails);
      }
    }

    /** The checks that ConnectBlock makes before it changes anything. */
    method CheckBlock(blk: Block, env: Env, fastAdd: bool, noDupCheck: bool) returns (ok: bool)
      requires Valid() && env.Valid() && |TxOutputs(blk.txs)| <= MAX_UINT64
      modifies nullifierSet
      ensures Valid()
      ensures ok <==> ValidNext(history, Applied(blk, env, fastAdd)) && (noDupCheck || !Known(blk.header.id))
    {
      hide ValidHistory, DiskOf, Outputs, TxOutputs, ValidBlock, Connects, SlotsHold, AllTrack, LookupsTracked;
      var genesis := tip == None;
      if !genesis {
        if !Connects(blk.header, tip.value, env) {
          return false;
        }
      }
      if !noDupCheck {
        var duplicate := exists b :: b in ds.d.blocks && b.header.id == blk.header.id;
        if duplicate {
          return false;
        }
      }
      if blk.txs != [] {
        FirstOutputsCounted(blk.txs);
      }
      ok := ValidateBlock(blk, env, genesis, fastAdd);
    }

    /** The part of ConnectBlock that stages, commits and updates memory. */
    method ApplyBlock(blk: Block, env: Env, fastAdd: bool, validatorsRefuse: bool, commitFails: bool) returns (ok: bool)
      requires Valid() && ValidNext(history, Applied(blk, env, fastAdd))
      requires |Outputs(history)| + |TxOutputs(blk.txs)| <= MAX_UINT64
      modifies this, ds, nullifierSet, txoRootSet
      ensures Valid()
      ensures ok <==> !validatorsRefuse && !commitFails
      ensures history == old(history) + if ok then [Applied(blk, env, fastAdd)] else []
      ensures !ok ==> unchanged(ds) && unchanged(txoRootSet) && unchanged(this)
    {
      hide ValidHistory, DiskOf, Outputs, TxOutputs, TxNullifiers, ValidNext, RootOf, SlotsHold, AllTrack;
      hide LookupsTracked;
      hide SetOf, NewSupply, Credit, Wrap64, Withdrawn, StartsEpoch;
      ghost var a := Applied(blk, env, fastAdd);
      NextFacts(history, a);
      HistoryExtends(history, a);
      DiskExtends(history, a);

      var acc := accumulator.Clone();
      var dbtx, created := StageBlock(blk, env, fastAdd, acc);
      if validatorsRefuse {
        return false;
      }
      dbtx := StageNullifiers(dbtx, blk, env);
      if commitFails {
        return false;
      }
      CommitBlock(dbtx, env.now, a, acc, created);
      ok := true;
    }

    /** Adds the spent and the banned nullifiers to the transaction. */
    method StageNullifiers(dbtx: Disk, blk: Block, env: Env) returns (dbtx': Disk)
      requires Valid() && dbtx.nullifiers == ds.d.nullifiers
      modifies nullifierSet
      ensures Valid()
      ensures dbtx' == dbtx.(nullifiers := ds.d.nullifiers + SetOf(TxNullifiers(blk.txs)) + SetOf(env.banned))
      ensures forall n :: n in nullifierSet.cachedEntries ==> nullifierSet.cachedEntries[n] == (n in dbtx'.nullifiers)
    {
      hide ValidHistory, DiskOf, Outputs, TxNullifiers, SlotsHold, AllTrack, LookupsTracked;
      var spent := TxNullifiers(blk.txs) + env.banned;
      SmallerMap(nullifierSet.cachedEntries, nullifierSet.cachedEntries - SetOf(spent), SetOf(spent));
      SetOfConcat(TxNullifiers(blk.txs), env.banned);
      dbtx' := nullifierSet.AddNullifiers(dbtx, spent);
    }

    /** The database commit and, after it, the updates of memory. */
    method CommitBlock(dbtx: Disk, now: int, ghost a: Applied, acc: Accumulator, created: bool)
      requires Valid() && ValidHistory(history + [a])
      requires dbtx == DiskOf(history + [a])
      requires forall n :: n in nullifierSet.cachedEntries ==> nullifierSet.cachedEntries[n] == (n in dbtx.nullifiers)
      requires acc.Valid() && acc.elems == Outputs(history + [a])
      requires dbtx.blocks == ds.d.blocks + [a.blk] && ds.d.roots <= dbtx.roots
      requires created ==> acc.elems != [] && RootOf(acc.elems) in dbtx.roots
      modifies this, ds, txoRootSet
      ensures Valid() && history == old(history) + [a]
    {
      hide ValidHistory, DiskOf, Outputs, RootOf, SlotsHold, AllTrack, LookupsTracked, SetOf;
      ds.d := dbtx;
      assert txoRootSet.Agrees() && nullifierSet.Agrees();
      if created {
        var root := acc.Root();
        txoRootSet.UpdateCache(root, now);
      }
      tip := Some(dbtx.blocks[|dbtx.blocks| - 1].header);
      accumulator := acc;
      history := history + [a];
    }

    /**
     The part of ConnectBlock that stages the block, its outputs, the root after
     them and the money it moves, all but the nullifiers, in a transaction.
     */
    method StageBlock(blk: Block, env: Env, ghost fastAdd: bool, acc: Accumulator) returns (dbtx: Disk, created: bool)
      requires acc.Valid() && |acc.elems| + |TxOutputs(blk.txs)| <= MAX_UINT64
      requires tip == None <==> ds.d.blocks == []
      requires tip != None ==> tip.value == ds.d.blocks[|ds.d.blocks| - 1].header
      requires tip == None ==> blk.txs != [] && blk.txs[0].body.Coinbase?
      requires Withdrawn(blk.txs) <= ds.d.treasury
      modifies acc
      ensures acc.Valid() && acc.elems == old(acc.elems) + TxOutputs(blk.txs)
      ensures created <==> TxOutputs(blk.txs) != []
      ensures dbtx == Connect(ds.d, old(acc.elems), Applied(blk, env, fastAdd)).(nullifiers := ds.d.nullifiers)
    {
      hide TxOutputs, StartsEpoch, Withdrawn, RootOf, SlotsHold, AllTrack, LookupsTracked, Wrap64;
      dbtx := ds.d.(blocks := ds.d.blocks + [blk]);
      var withdrawal;
      withdrawal, created := InsertOutputs(acc, blk.txs);
      DebitThenCredit(ds.d.treasury, withdrawal,
                      if tip != None && StartsEpoch(tip.value, blk.header, env) then env.treasuryCredit else 0);
      NoChange(ds.d.treasury, ds.d.supply);
      if withdrawal > 0 {
        dbtx := dbtx.(treasury := Wrap64(dbtx.treasury - withdrawal));
      }
      if created {
        var root := acc.Root();
        dbtx := dbtx.(roots := dbtx.roots + {root});
      }
      if tip == None {
        dbtx := dbtx.(supply := Wrap64(dbtx.supply + blk.txs[0].body.newCoins));
      } else if StartsEpoch(tip.value, blk.header, env) {
        dbtx := dbtx.(supply := Wrap64(dbtx.supply + env.coinbase));
        dbtx := dbtx.(treasury := Wrap64(dbtx.treasury + env.treasuryCredit));
      }
    }

    method CheckStakes(txs: seq<Transaction>, blockNullifiers: set<Hash>) returns (ok: bool)
      requires blockNullifiers == SetOf(TxNullifiers(txs))
      ensures ok <==> NoStakeSpent(txs)
    {
      for i := 0 to |txs|
        invariant forall k :: 0 <= k < i && txs[k].body.Stake? ==> txs[k].body.nullifier !in TxNullifiers(txs)
      {
        if txs[i].body.Stake? && txs[i].body.nullifier in blockNullifiers {
          return false;
        }
      }
      ok := true;
    }

    method CheckGenesis(txs: seq<Transaction>) returns (ok: bool)
      requires txs != [] && txs[0].body.Coinbase? ==> |txs[0].outs| <= MAX_UINT64
      ensures ok <==> GenesisValid(txs)
    {
      hide Staked;
      if |txs| < 2 || !txs[0].body.Coinbase? || txs[0].outs == [] {
        return false;
      }
      var acc := new Accumulator();
      acc.InsertAll(txs[0].outs);
      assert [] + txs[0].outs == txs[0].outs;
      var txoRoot := acc.Root();
      ok := CheckGenesisStakes(txs, txoRoot, txs[0].body.newCoins);
    }

    method CheckGenesisStakes(txs: seq<Transaction>, txoRoot: Hash, newCoins: Amount) returns (ok: bool)
      ensures ok <==> && (forall i :: 0 <= i < |txs| && txs[i].body.Stake? ==> txs[i].body.stakeRoot == txoRoot)
                      && Staked(txs) <= newCoins
    {
      var totalStaked: Amount := 0;
      for i := 0 to |txs|
        invariant forall k :: 0 <= k < i && txs[k].body.Stake? ==> txs[k].body.stakeRoot == txoRoot
        invariant totalStaked == Staked(txs[..i])
      {
        assert txs[..i + 1][..i] == txs[..i];
        if txs[i].body.Stake? {
          if txs[i].body.stakeRoot != txoRoot {
            return false;
          }
          totalStaked := Wrap64(totalStaked + txs[i].body.amount);
        }
      }
      assert txs[..|txs|] == txs;
      ok := totalStaked <= newCoins;
    }
  }

  lemma SetOfConcat(s: seq<Hash>, t: seq<Hash>)
    ensures SetOf(s + t) == SetOf(s) + SetOf(t)
  {
  }

  lemma HistoryExtends(h: seq<Applied>, a: Applied)
    requires ValidHistory(h) && ValidNext(h, a)
    ensures ValidHistory(h + [a])
  {
    hide ValidNext;
    assert (h + [a])[..|h|] == h && (h + [a])[|h|] == a;
  }

  lemma DiskExtends(h: seq<Applied>, a: Applied)
    ensures DiskOf(h + [a]) == Connect(DiskOf(h), Outputs(h), a)
    ensures Outputs(h + [a]) == Outputs(h) + TxOutputs(a.blk.txs)
  {
    hide Connect, TxOutputs;
    assert (h + [a])[..|h|] == h && (h + [a])[|h|] == a;
  }

  lemma NextFacts(h: seq<Applied>, a: Applied)
    requires ValidNext(h, a)
    ensures h == [] ==> a.blk.txs != [] && a.blk.txs[0].body.Coinbase?
    ensures Withdrawn(a.blk.txs) <= DiskOf(h).treasury
    ensures |DiskOf(h).blocks| == |h| && (h != [] ==> DiskOf(h).blocks[|h| - 1].header == h[|h| - 1].blk.header)
  {
    BlocksOfDisk(h);
    hide DiskOf, TxAllowed, SortedByID, CoinbasesDiffer, NoStakeSpent, TransactionsMerkleRoot;
  }

  /** How the disk of a connected block is reached, debit before credit, each in 64 bits. */
  lemma DebitThenCredit(balance: nat, debit: nat, credit: nat)
    requires debit <= balance <= MAX_UINT64
    ensures Wrap64(Wrap64(balance - debit) + credit) == Wrap64(balance - debit + credit)
  {
  }

  lemma NoChange(treasury: Amount, supply: Amount)
    ensures Wrap64(treasury) == treasury && Wrap64(supply) == supply
  {
  }

  lemma NoTxsValid(d: Disk, time: int, env: Env, genesis: bool)
    ensures TxsValid([], d, time, env, genesis)
  {
  }

  lemma JoinDuplicates(s: seq<Hash>, t: seq<Hash>)
    ensures NoDuplicates(s + t) <==> NoDuplicates(s) && NoDuplicates(t) && forall n :: n in t ==> n !in SetOf(s)
  {
    if NoDuplicates(s + t) {
      PrefixNoDuplicates(s, t);
      forall i, j | 0 <= i < j < |t| ensures t[i] != t[j] {
        assert (s + t)[|s| + i] != (s + t)[|s| + j];
      }
      forall n | n in t ensures n !in SetOf(s) {
        var j :| 0 <= j < |t| && t[j] == n;
        forall i | 0 <= i < |s| ensures s[i] != n {
          assert (s + t)[i] != (s + t)[|s| + j];
        }
      }
    }
    if NoDuplicates(s) && NoDuplicates(t) && forall n :: n in t ==> n !in SetOf(s) {
      JoinNoDuplicates(s, t);
    }
  }

  lemma {:induction false} FirstOutputsCounted(txs: seq<Transaction>)
    requires txs != []
    ensures |txs[0].Outputs()| <= |TxOutputs(txs)|
  {
    if |txs| > 1 {
      FirstOutputsCounted(txs[..|txs| - 1]);
    }
  }

  /** The loop of ConnectBlock over the transactions; the withdrawals are summed in 64 bits. */
  method InsertOutputs(acc: Accumulator, txs: seq<Transaction>) returns (withdrawal: Amount, created: bool)
    requires acc.Valid() && |acc.elems| + |TxOutputs(txs)| <= MAX_UINT64
    modifies acc
    ensures acc.Valid() && acc.elems == old(acc.elems) + TxOutputs(txs)
    ensures Withdrawn(txs) <= MAX_UINT64 ==> withdrawal == Withdrawn(txs)
    ensures created <==> TxOutputs(txs) != []
  {
    hide SlotsHold, AllTrack, LookupsTracked, Withdrawn, TxOutputs, Wrap64;
    NoOutputs();
    withdrawal, created := 0, false;
    assert txs[..0] == [];
    for i := 0 to |txs|
      invariant acc.Valid() && acc.elems == old(acc.elems) + TxOutputs(txs[..i])
      invariant Withdrawn(txs[..i]) <= MAX_UINT64 ==> withdrawal == Withdrawn(txs[..i])
      invariant created <==> TxOutputs(txs[..i]) != []
    {
      OutputsStep(txs, i);
      acc.InsertAll(txs[i].Outputs());
      created := created || txs[i].Outputs() != [];
      if txs[i].body.Treasury? {
        withdrawal := Wrap64(withdrawal + txs[i].body.withdrawal);
      }
    }
    assert txs[..|txs|] == txs;
  }

  lemma NoOutputs()
    ensures TxOutputs([]) == [] && Withdrawn([]) == 0
  {
  }

  lemma OutputsStep(txs: seq<Transaction>, i: nat)
    requires i < |txs|
    ensures TxOutputs(txs[..i + 1]) == TxOutputs(txs[..i]) + txs[i].Outputs()
    ensures |TxOutputs(txs[..i + 1])| <= |TxOutputs(txs)|
    ensures Withdrawn(txs[..i + 1]) == Withdrawn(txs[..i]) + if txs[i].body.Treasury? then txs[i].body.withdrawal else 0
  {
    assert txs[..i + 1][..i] == txs[..i] && txs[..i + 1][i] == txs[i];
    OutputsOfPrefix(txs, i + 1);
  }

  lemma {:induction false} OutputsOfPrefix(txs: seq<Transaction>, i: nat)
    requires i <= |txs|
    ensures |TxOutputs(txs[..i])| <= |TxOutputs(txs)|
    decreases |txs|
  {
    if i < |txs| {
      OutputsOfPrefix(txs[..|txs| - 1], i);
      assert txs[..|txs| - 1][..i] == txs[..i];
    } else {
      assert txs[..i] == txs;
    }
  }
}
