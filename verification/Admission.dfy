/** How what the mempool admits relates to what the next block may hold. */
module Admission {
  import opened Hashes
  import opened Ledger
  import opened Rules
  import opened Mempools

  /** The chain's own view after a history. */
  function ViewOf(h: seq<Applied>, validators: map<nat, Validator>): (view: View)
  {
    View(DiskOf(h).treasury, DiskOf(h).roots, DiskOf(h).nullifiers, validators)
  }

  /** What the pool asks on top: no conflict with what it holds, and a stake that is not too small. */
  ghost predicate NewToPool(tx: Transaction, s: State, minStake: Amount)
  {
    && IDOf(tx) !in s.pool
    && match tx.body
       case Coinbase(v, coins) =>
         v in s.coinbases && s.coinbases[v].body.Coinbase? ==> coins > s.coinbases[v].body.newCoins
       case Stake(_, n, _, amount) => amount >= minStake && n !in s.nullifiers
       case Standard(ns, _, _) => forall n :: n in ns ==> n !in s.nullifiers
       case Mint(ns, _, _, _, _) => forall n :: n in ns ==> n !in s.nullifiers
       case Treasury(_) => true
  }

  /**
   A sane transaction other than a treasury one is admitted exactly if a block
   that is made now may hold it and the pool has nothing against it.
   */
  lemma AdmittedIfAllowed(h: seq<Applied>, tx: Transaction, s: State, now: int, env: Env, minStake: Amount,
                          whitelist: set<TxID>)
    requires h != [] && tx.Sane() && !tx.body.Treasury?
    ensures Admissible(tx, s, ViewOf(h, env.validators), now, minStake, whitelist) <==>
      MayHold(h, tx, now, env) && NewToPool(tx, s, minStake)
  {
    forall n ensures n in DiskOf(h).nullifiers <==> !Unseen(h, n) {
      NullifiersMean(h, n);
    }
    forall root ensures root in DiskOf(h).roots <==> RootAfter(h, root) {
      RootsMean(h, root);
    }
    hide DiskOf, Unseen, RootAfter, FitsRoom;
  }

  /** So whatever is admitted is allowed in the next block, whenever that is made. */
  lemma AllowedLater(h: seq<Applied>, tx: Transaction, s: State, now: int, time: int, env: Env, minStake: Amount,
                     whitelist: set<TxID>)
    requires h != [] && tx.Sane() && !tx.body.Treasury? && now <= time
    requires Admissible(tx, s, ViewOf(h, env.validators), now, minStake, whitelist)
    ensures TxAllowed(tx, DiskOf(h), time, env, false)
  {
    hide DiskOf, FitsRoom;
  }

  /**
   While the pooled withdrawals fit the balance, a treasury payment is admitted
   exactly if it is new, on the whitelist and fits as well.
   */
  lemma TreasuryAdmitted(h: seq<Applied>, tx: Transaction, s: State, now: int, env: Env, minStake: Amount,
                         whitelist: set<TxID>)
    requires tx.body.Treasury? && Total(s.treasuryDebits) <= DiskOf(h).treasury
    ensures Admissible(tx, s, ViewOf(h, env.validators), now, minStake, whitelist) <==>
      && IDOf(tx) !in s.pool && IDOf(tx) in whitelist
      && Total(s.treasuryDebits) + tx.body.withdrawal <= DiskOf(h).treasury
  {
    TreasuryCheckIsRight(DiskOf(h).treasury, s.treasuryDebits);
    hide DiskOf, Total;
  }

  /** Nothing is refused without a reason: what an error says rules the transaction out. */
  lemma ReasonsHold(e: Error, tx: Transaction, s: State, view: View, now: int, minStake: Amount, whitelist: set<TxID>)
    requires Reason(e, tx, s, view, now, minStake, whitelist)
    ensures !Admissible(tx, s, view, now, minStake, whitelist)
  {
    hide FitsRoom;
  }

  /**
   The pool after an admission: the new transaction, what was there before, and
   of coinbases only the new one of its validator.
   */
  lemma PoolAfter(s: State, tx: Transaction, expiration: int)
    requires Inv(s)
    ensures var pool, before := Admitted(s, tx, expiration).pool, s.pool;
      && IDOf(tx) in pool && pool[IDOf(tx)] == Entry(tx, expiration)
      && (forall id :: id in pool && id.tx != tx ==> id in before && pool[id] == before[id])
      && (forall id :: id in before && id.tx != tx ==>
            (id !in pool <==>
              tx.body.Coinbase? && id.tx.body.Coinbase? && id.tx.body.validator == tx.body.validator))
    ensures forall n :: n in Admitted(s, tx, expiration).nullifiers <==>
      n in s.nullifiers || ((tx.body.Standard? || tx.body.Mint?) && n in tx.body.nullifiers)
  {
    hide Keyed, Owned, Indexed, DebitsMatch, Claimed;
  }
}
