/** The mempool's indexes (mempool/mempool.go); its handlers run one at a time. */
module Mempools {
  import opened Prelude
  import opened Hashes
  import opened Ledger

  /**
   The hash of a whole transaction, a free constructor as all hashes here; its `id`
   is the same hash as a number, for sorting.
   */
  datatype TxID = IDOf(tx: Transaction)

  datatype Entry = Entry(tx: Transaction, expiration: int)

  /** The chain as the mempool sees it. */
  datatype View = View(treasury: Amount, roots: set<Hash>, nullifiers: set<Hash>, validators: map<nat, Validator>)

  datatype Error = DuplicateTx | InvalidTx | DuplicateCoinbase
      | DoubleSpend | MinStake | RestakeTooSoon | NotWhitelisted

  datatype State = State(pool: map<TxID, Entry>, nullifiers: map<Hash, TxID>,
                           treasuryDebits: map<TxID, Amount>, coinbases: map<nat, Transaction>)

  /** A standard or mint transaction with that nullifier. */
  predicate Spends(tx: Transaction, n: Hash)
  {
    n in tx.Nullifiers()
  }

  lemma SpendsIs(tx: Transaction, n: Hash)
    ensures Spends(tx, n) <==> n in tx.Nullifiers()
  {
  }

  const NO_TXS := State(map[], map[], map[], map[])

  // ---------- The invariant ----------

  ghost predicate Keyed(s: State)
  {
    forall id :: id in s.pool ==> s.pool[id].tx == id.tx
  }

  /** Every pooled standard or mint transaction owns all its nullifiers' entries. */
  ghost predicate Owned(s: State)
  {
    forall id, n :: id in s.pool && Spends(id.tx, n) ==> n in s.nullifiers && s.nullifiers[n] == id
  }

  /** An entry, stale or not, is for a transaction with that nullifier. */
  ghost predicate Indexed(s: State)
  {
    forall n :: n in s.nullifiers ==> Spends(s.nullifiers[n].tx, n)
  }

  /** The coinbase index is exactly the pooled coinbases. */
  ghost predicate CoinbasesMatch(s: State)
  {
    && (forall v :: v in s.coinbases ==>
           s.coinbases[v].body.Coinbase? && s.coinbases[v].body.validator == v && IDOf(s.coinbases[v]) in s.pool)
    && (forall id :: id in s.pool && id.tx.body.Coinbase? ==>
           id.tx.body.validator in s.coinbases && s.coinbases[id.tx.body.validator] == id.tx)
  }

  /** The debits are exactly the pooled treasury transactions. */
  ghost predicate DebitsMatch(s: State)
  {
    && (forall id :: id in s.treasuryDebits <==> id in s.pool && id.tx.body.Treasury?)
    && (forall id :: id in s.treasuryDebits ==> s.treasuryDebits[id] == id.tx.body.withdrawal)
  }

  ghost predicate Inv(s: State)
  {
    Keyed(s) && Owned(s) && Indexed(s) && CoinbasesMatch(s) && DebitsMatch(s)
  }

  predicate Conflict(a: Transaction, b: Transaction)
  {
    exists n :: n in a.Nullifiers() && Spends(b, n)
  }

  lemma OwnedAt(s: State, id: TxID, n: Hash)
    requires Owned(s) && id in s.pool && n in id.tx.Nullifiers()
    ensures n in s.nullifiers && s.nullifiers[n] == id
  {
    assert Spends(id.tx, n);
  }

  /** No two pooled transactions spend one nullifier, and no validator has two coinbases. */
  lemma NoConflicts(s: State, a: TxID, b: TxID)
    requires Inv(s) && a in s.pool && b in s.pool && a != b
    ensures !Conflict(a.tx, b.tx)
    ensures a.tx.body.Coinbase? && b.tx.body.Coinbase? ==> a.tx.body.validator != b.tx.body.validator
  {
    hide Spends, Transaction.Nullifiers;
    if Conflict(a.tx, b.tx) {
      var n :| n in a.tx.Nullifiers() && Spends(b.tx, n);
      SpendsIs(b.tx, n);
      OwnedAt(s, a, n);
      OwnedAt(s, b, n);
    }
  }

  // ---------- Removal ----------

  function DropNullifier(s: State, n: Hash): (r: State)
  {
    if n in s.nullifiers then s.(nullifiers := s.nullifiers - {n}, pool := s.pool - {s.nullifiers[n]}) else s
  }

  function DropNullifiers(s: State, ns: seq<Hash>): (r: State)
  {
    if ns == [] then s else DropNullifier(DropNullifiers(s, ns[..|ns| - 1]), ns[|ns| - 1])
  }

  function RemoveOne(s: State, tx: Transaction): (r: State)
  {
    var s1 := s.(pool := s.pool - {IDOf(tx)});
    match tx.body
    case Coinbase(v, _) => if v in s.coinbases && s.coinbases[v] == tx then s1.(coinbases := s.coinbases - {v}) else s1
    case Treasury(_) => s1.(treasuryDebits := s.treasuryDebits - {IDOf(tx)})
    case Stake(_, _, _, _) => s1
    case _ => DropNullifiers(s1, tx.Nullifiers())
  }

  function RemoveAll(s: State, txs: seq<Transaction>): (r: State)
  {
    if txs == [] then s else RemoveOne(RemoveAll(s, txs[..|txs| - 1]), txs[|txs| - 1])
  }

  /** `s` is the state before without the nullifiers and whatever spends one of them. */
  ghost predicate Dropped(before: State, s: State, ns: seq<Hash>)
  {
    && s.coinbases == before.coinbases && s.treasuryDebits == before.treasuryDebits
    && (forall n :: n in s.nullifiers <==> n in before.nullifiers && n !in ns)
    && (forall n :: n in s.nullifiers ==> s.nullifiers[n] == before.nullifiers[n])
    && (forall id :: id in s.pool <==> id in before.pool && forall n :: n in ns ==> !Spends(id.tx, n))
    && (forall id :: id in s.pool ==> s.pool[id] == before.pool[id])
  }

  lemma DropStep(before: State, s: State, ns: seq<Hash>, n: Hash)
    requires Owned(before) && Indexed(before) && Dropped(before, s, ns)
    ensures Dropped(before, DropNullifier(s, n), ns + [n])
  {
    hide Spends;
    var r := DropNullifier(s, n);
    forall id ensures id in r.pool <==> id in before.pool && forall m :: m in ns + [n] ==> !Spends(id.tx, m) {
      if id in s.pool && n in s.nullifiers && Spends(id.tx, n) {
        assert before.nullifiers[n] == id;
      }
      assert id in r.pool <==> id in s.pool && !Spends(id.tx, n) by {
        if n in s.nullifiers {
          assert Spends(before.nullifiers[n].tx, n);
        }
      }
    }
  }

  lemma {:induction false} DropsAreDropped(s: State, ns: seq<Hash>)
    requires Owned(s) && Indexed(s)
    ensures Dropped(s, DropNullifiers(s, ns), ns)
  {
    hide Spends, Owned, Indexed;
    if ns != [] {
      var rest, n := ns[..|ns| - 1], ns[|ns| - 1];
      DropsAreDropped(s, rest);
      hide Dropped;
      DropStep(s, DropNullifiers(s, rest), rest, n);
      assert rest + [n] == ns;
    }
  }

  lemma NullifierKinds(tx: Transaction, n: Hash)
    requires Spends(tx, n)
    ensures tx.body.Standard? || tx.body.Mint?
  {
  }

  /** The pool without a transaction and whatever conflicts with it. */
  ghost predicate Without(before: State, after: State, tx: Transaction)
  {
    && (forall id :: id in after.pool <==> id in before.pool && id.tx != tx && !Conflict(id.tx, tx))
    && (forall id :: id in after.pool ==> after.pool[id] == before.pool[id])
  }

  lemma ConflictIs(a: Transaction, b: Transaction)
    ensures Conflict(a, b) <==> exists n :: n in b.Nullifiers() && Spends(a, n)
    ensures Conflict(a, b) ==> b.body.Standard? || b.body.Mint?
  {
  }

  /** Taking out what is no spender. */
  lemma RemoveOther(s: State, tx: Transaction)
    requires Inv(s) && !tx.body.Standard? && !tx.body.Mint?
    ensures Inv(RemoveOne(s, tx)) && Without(s, RemoveOne(s, tx), tx)
  {
    var r := RemoveOne(s, tx);
    OtherPool(s, tx);
    OtherCoinbases(s, tx);
    OtherDebits(s, tx);
    hide RemoveOne, CoinbasesMatch, DebitsMatch, Without, Keyed, Owned, Indexed;
    SmallerPool(s, r, tx);
    OnlyItself(s, r, tx);
  }

  lemma OtherPool(s: State, tx: Transaction)
    requires !tx.body.Standard? && !tx.body.Mint?
    ensures RemoveOne(s, tx).pool == s.pool - {IDOf(tx)} && RemoveOne(s, tx).nullifiers == s.nullifiers
    ensures RemoveOne(s, tx).treasuryDebits ==
      if tx.body.Treasury? then s.treasuryDebits - {IDOf(tx)} else s.treasuryDebits
  {
    hide DropNullifiers;
  }

  lemma SmallerPool(s: State, r: State, tx: Transaction)
    requires Keyed(s) && Owned(s) && Indexed(s) && r.pool == s.pool - {IDOf(tx)} && r.nullifiers == s.nullifiers
    ensures Keyed(r) && Owned(r) && Indexed(r)
  {
    hide Spends;
  }

  lemma OnlyItself(s: State, r: State, tx: Transaction)
    requires r.pool == s.pool - {IDOf(tx)} && !tx.body.Standard? && !tx.body.Mint?
    ensures Without(s, r, tx)
  {
    hide Conflict;
    forall id ensures id in r.pool <==> id in s.pool && id.tx != tx && !Conflict(id.tx, tx) {
      ConflictIs(id.tx, tx);
    }
  }

  lemma OtherCoinbases(s: State, tx: Transaction)
    requires CoinbasesMatch(s) && !tx.body.Standard? && !tx.body.Mint?
    ensures CoinbasesMatch(RemoveOne(s, tx))
  {
    hide DropNullifiers;
  }

  lemma OtherDebits(s: State, tx: Transaction)
    requires DebitsMatch(s) && !tx.body.Standard? && !tx.body.Mint?
    ensures DebitsMatch(RemoveOne(s, tx))
  {
    OtherPool(s, tx);
    hide RemoveOne;
  }

  lemma RemoveSpender(s: State, tx: Transaction)
    requires Inv(s) && (tx.body.Standard? || tx.body.Mint?)
    ensures Inv(RemoveOne(s, tx)) && Without(s, RemoveOne(s, tx), tx)
  {
    DropsAreDropped(s.(pool := s.pool - {IDOf(tx)}), tx.Nullifiers());
    WhatIsDropped(s, tx, RemoveOne(s, tx));
  }

  lemma WhatIsDropped(s: State, tx: Transaction, r: State)
    requires Inv(s) && (tx.body.Standard? || tx.body.Mint?)
    requires Dropped(s.(pool := s.pool - {IDOf(tx)}), r, tx.Nullifiers())
    ensures Inv(r) && Without(s, r, tx)
  {
    hide Spends, Transaction.Nullifiers, Conflict;
    forall id ensures id in r.pool <==> id in s.pool && id.tx != tx && !Conflict(id.tx, tx) {
      ConflictIs(id.tx, tx);
    }
    IndexesAfter(s, tx, r);
  }

  /** Coinbases and treasury transactions have no nullifiers, so they stay. */
  lemma IndexesAfter(s: State, tx: Transaction, r: State)
    requires Inv(s) && (tx.body.Standard? || tx.body.Mint?)
    requires Dropped(s.(pool := s.pool - {IDOf(tx)}), r, tx.Nullifiers())
    ensures CoinbasesMatch(r) && DebitsMatch(r)
  {
    hide Spends, Transaction.Nullifiers, Owned, Indexed, Keyed;
    forall id | id in s.pool && (id.tx.body.Coinbase? || id.tx.body.Treasury?) ensures id in r.pool {
      forall n | Spends(id.tx, n) ensures false {
        NullifierKinds(id.tx, n);
      }
    }
  }

  /** Removing a transaction removes it, whatever conflicts with it, and nothing else. */
  lemma RemoveOneIs(s: State, tx: Transaction)
    requires Inv(s)
    ensures Inv(RemoveOne(s, tx)) && Without(s, RemoveOne(s, tx), tx)
  {
    hide Inv, Without;
    if tx.body.Standard? || tx.body.Mint? {
      RemoveSpender(s, tx);
    } else {
      RemoveOther(s, tx);
    }
  }

  /** Gone from the pool if it is one of these or conflicts with one. */
  ghost predicate Hit(id: TxID, txs: seq<Transaction>)
  {
    exists k :: 0 <= k < |txs| && (id.tx == txs[k] || Conflict(id.tx, txs[k]))
  }

  /** What stays in the pool: all that is neither removed nor spends a removed transaction's nullifier. */
  ghost predicate Remaining(before: State, after: State, txs: seq<Transaction>)
  {
    && (forall id :: id in after.pool <==> id in before.pool && !Hit(id, txs))
    && (forall id :: id in after.pool ==> after.pool[id] == before.pool[id])
  }

  lemma HitByLast(id: TxID, txs: seq<Transaction>, tx: Transaction)
    ensures Hit(id, txs + [tx]) <==> Hit(id, txs) || id.tx == tx || Conflict(id.tx, tx)
  {
    hide Conflict;
    if Hit(id, txs) {
      var k :| 0 <= k < |txs| && (id.tx == txs[k] || Conflict(id.tx, txs[k]));
      assert (txs + [tx])[k] == txs[k];
    }
    assert (txs + [tx])[|txs|] == tx;
  }

  lemma RemainingStep(before: State, s: State, after: State, txs: seq<Transaction>, tx: Transaction)
    requires Remaining(before, s, txs) && Without(s, after, tx)
    ensures Remaining(before, after, txs + [tx])
  {
    hide Conflict, Hit;
    forall id ensures id in after.pool <==> id in before.pool && !Hit(id, txs + [tx]) {
      HitByLast(id, txs, tx);
    }
  }

  lemma {:induction false} RemoveAllIs(s: State, txs: seq<Transaction>)
    requires Inv(s)
    ensures Inv(RemoveAll(s, txs)) && Remaining(s, RemoveAll(s, txs), txs)
  {
    hide Inv, RemoveOne, Conflict, Without;
    if txs != [] {
      var rest, tx := txs[..|txs| - 1], txs[|txs| - 1];
      RemoveAllIs(s, rest);
      hide Remaining;
      RemoveOneIs(RemoveAll(s, rest), tx);
      RemainingStep(s, RemoveAll(s, rest), RemoveAll(s, txs), rest, tx);
      assert rest + [tx] == txs;
    }
  }

  // ---------- Admission ----------

  ghost function Total(debits: map<TxID, Amount>): (sum: nat)
    decreases |debits|
  {
    if debits == map[] then 0
    else
      var k :| k in debits;
      debits[k] + Total(debits - {k})
  }

  lemma {:induction false} TotalWithout(debits: map<TxID, Amount>, k: TxID)
    requires k in debits
    ensures Total(debits) == debits[k] + Total(debits - {k})
    decreases |debits|
  {
    var j :| j in debits && Total(debits) == debits[j] + Total(debits - {j});
    if j != k {
      TotalWithout(debits - {j}, k);
      TotalWithout(debits - {k}, j);
      assert debits - {j} - {k} == debits - {k} - {j};
    }
  }

  /** What is left of the treasury, in 64 bits. */
  ghost function Room(balance: Amount, debits: map<TxID, Amount>): (room: Amount)
  {
    Wrap64(balance - Wrap64(Total(debits)))
  }

  ghost predicate FitsRoom(amount: Amount, balance: Amount, debits: map<TxID, Amount>)
  {
    amount <= Room(balance, debits)
  }

  ghost predicate FitsBalance(amount: Amount, balance: Amount, debits: map<TxID, Amount>)
  {
    Total(debits) + amount <= balance
  }

  /**
   The treasury check admits exactly the withdrawals that fit if, and only if,
   the pooled ones fit already.  If they do not, then it goes on admitting
   positive amounts, none of which fits, unless the 64-bit difference is zero.
   */
  lemma TreasuryCheckIsRight(balance: Amount, debits: map<TxID, Amount>)
    ensures (forall amount :: FitsRoom(amount, balance, debits) <==> FitsBalance(amount, balance, debits)) <==>
      Total(debits) <= balance
    ensures Total(debits) > balance ==> forall amount :: !FitsBalance(amount, balance, debits)
    ensures Total(debits) > balance ==>
      ((exists amount :: amount > 0 && FitsRoom(amount, balance, debits)) <==> Wrap64(Total(debits)) != balance)
  {
    if Total(debits) <= balance {
      assert Room(balance, debits) == balance - Total(debits);
    } else {
      assert FitsRoom(0, balance, debits) && !FitsBalance(0, balance, debits);
      NoRoom(balance, Wrap64(Total(debits)));
      assert FitsRoom(Room(balance, debits), balance, debits);
    }
  }

  lemma NoRoom(balance: Amount, taken: Amount)
    ensures Wrap64(balance - taken) == 0 <==> balance == taken
  {
  }

  predicate Unspent(ns: seq<Hash>, s: State, view: View)
  {
    forall n :: n in ns ==> n !in s.nullifiers && n !in view.nullifiers
  }

  predicate RestakesTooSoon(staker: nat, n: Hash, view: View, now: int)
  {
    && staker in view.validators && n in view.validators[staker].stakes
    && view.validators[staker].stakes[n] + RESTAKE_DELAY > now
  }

  /** When a transaction is admitted. */
  ghost predicate Admissible(tx: Transaction, s: State, view: View, now: int, minStake: Amount, whitelist: set<TxID>)
  {
    IDOf(tx) !in s.pool &&
    match tx.body
    case Coinbase(v, coins) =>
      && v in view.validators && coins == view.validators[v].unclaimedCoins && coins != 0
      && (v in s.coinbases && s.coinbases[v].body.Coinbase? ==> coins > s.coinbases[v].body.newCoins)
    case Stake(staker, n, root, amount) =>
      && amount >= minStake && n !in s.nullifiers && n !in view.nullifiers && root in view.roots
      && !RestakesTooSoon(staker, n, view, now)
    case Treasury(amount) => IDOf(tx) in whitelist && FitsRoom(amount, view.treasury, s.treasuryDebits)
    case _ => Unspent(tx.Nullifiers(), s, view) && tx.body.txoRoot in view.roots
  }

  /** What an error says about the transaction. */
  ghost predicate Reason(e: Error, tx: Transaction, s: State, view: View, now: int, minStake: Amount,
                         whitelist: set<TxID>)
  {
    match e
    case DuplicateTx => IDOf(tx) in s.pool
    case DoubleSpend =>
      if tx.body.Stake? then tx.body.nullifier in s.nullifiers || tx.body.nullifier in view.nullifiers
      else !Unspent(tx.Nullifiers(), s, view)
    case MinStake => tx.body.Stake? && tx.body.amount < minStake
    case RestakeTooSoon => tx.body.Stake? && RestakesTooSoon(tx.body.staker, tx.body.nullifier, view, now)
    case NotWhitelisted => tx.body.Treasury? && IDOf(tx) !in whitelist
    case DuplicateCoinbase =>
      && tx.body.Coinbase? && tx.body.validator in s.coinbases
      && var other := s.coinbases[tx.body.validator]; other.body.Coinbase? && tx.body.newCoins <= other.body.newCoins
    case InvalidTx =>
      match tx.body
      case Coinbase(v, coins) => v in view.validators ==> coins != view.validators[v].unclaimedCoins || coins == 0
      case Stake(_, _, root, _) => root !in view.roots
      case Treasury(amount) => !FitsRoom(amount, view.treasury, s.treasuryDebits)
      case _ => tx.body.txoRoot !in view.roots
  }

  function Claimed(nullifiers: map<Hash, TxID>, ns: seq<Hash>, id: TxID): (r: map<Hash, TxID>)
    ensures r.Keys == nullifiers.Keys + (set n | n in ns)
    ensures forall n :: n in r ==> r[n] == if n in ns then id else nullifiers[n]
  {
    if ns == [] then nullifiers
    else
      assert ns == ns[..|ns| - 1] + [ns[|ns| - 1]];
      Claimed(nullifiers, ns[..|ns| - 1], id)[ns[|ns| - 1] := id]
  }

  /** An older coinbase of the validator gives way. */
  function WithoutOlder(s: State, tx: Transaction): (r: map<TxID, Entry>)
  {
    if tx.body.Coinbase? && tx.body.validator in s.coinbases then s.pool - {IDOf(s.coinbases[tx.body.validator])}
    else s.pool
  }

  function PoolWith(s: State, tx: Transaction, expiration: int): (r: map<TxID, Entry>)
  {
    WithoutOlder(s, tx)[IDOf(tx) := Entry(tx, expiration)]
  }

  function DebitsWith(s: State, tx: Transaction): (r: map<TxID, Amount>)
  {
    if tx.body.Treasury? then s.treasuryDebits[IDOf(tx) := tx.body.withdrawal] else s.treasuryDebits
  }

  function CoinbasesWith(s: State, tx: Transaction): (r: map<nat, Transaction>)
  {
    if tx.body.Coinbase? then s.coinbases[tx.body.validator := tx] else s.coinbases
  }

  /** The state with one more transaction. */
  function Admitted(s: State, tx: Transaction, expiration: int): (r: State)
  {
    State(PoolWith(s, tx, expiration), Claimed(s.nullifiers, tx.Nullifiers(), IDOf(tx)),
          DebitsWith(s, tx), CoinbasesWith(s, tx))
  }

  lemma AdmittedCoinbases(s: State, tx: Transaction, expiration: int)
    requires CoinbasesMatch(s) && IDOf(tx) !in s.pool
    ensures CoinbasesMatch(Admitted(s, tx, expiration))
  {
    hide Claimed, Transaction.Nullifiers, DebitsWith;
  }

  lemma AdmittedDebits(s: State, tx: Transaction, expiration: int)
    requires DebitsMatch(s) && CoinbasesMatch(s) && IDOf(tx) !in s.pool
    ensures DebitsMatch(Admitted(s, tx, expiration))
  {
    hide Claimed, Transaction.Nullifiers, CoinbasesWith;
  }

  lemma ClaimedOwned(s: State, tx: Transaction, nullifiers: map<Hash, TxID>, r: State)
    requires Owned(s) && Indexed(s)
    requires forall n :: n in nullifiers <==> n in s.nullifiers || Spends(tx, n)
    requires forall n :: n in nullifiers ==> nullifiers[n] == if Spends(tx, n) then IDOf(tx) else s.nullifiers[n]
    requires forall n :: Spends(tx, n) ==> n !in s.nullifiers
    requires r.nullifiers == nullifiers && forall id :: id in r.pool ==> id in s.pool || id == IDOf(tx)
    ensures Owned(r) && Indexed(r)
  {
    hide Spends;
  }

  lemma AdmittedKeyed(s: State, tx: Transaction, expiration: int)
    requires Keyed(s)
    ensures Keyed(Admitted(s, tx, expiration))
    ensures forall id :: id in PoolWith(s, tx, expiration) ==> id in s.pool || id == IDOf(tx)
  {
  }

  /** Admission keeps the invariant. */
  lemma AdmittedInv(s: State, tx: Transaction, expiration: int)
    requires Inv(s) && IDOf(tx) !in s.pool && forall n :: n in tx.Nullifiers() ==> n !in s.nullifiers
    ensures Inv(Admitted(s, tx, expiration))
  {
    var r := Admitted(s, tx, expiration);
    AdmittedCoinbases(s, tx, expiration);
    AdmittedDebits(s, tx, expiration);
    forall n ensures Spends(tx, n) <==> n in tx.Nullifiers() {
    }
    AdmittedKeyed(s, tx, expiration);
    hide CoinbasesMatch, DebitsMatch, Owned, Indexed, Keyed, Spends, Claimed, PoolWith, DebitsWith;
    hide CoinbasesWith, Transaction.Nullifiers;
    ClaimedOwned(s, tx, r.nullifiers, r);
  }

  /** Expired transactions take nothing else with them, since nothing in the pool conflicts. */
  lemma ExpiryIsExact(s: State, expired: seq<Transaction>, id: TxID)
    requires Inv(s) && id in s.pool && forall k :: 0 <= k < |expired| ==> IDOf(expired[k]) in s.pool
    ensures Hit(id, expired) <==> exists k :: 0 <= k < |expired| && expired[k] == id.tx
  {
    hide Inv, Conflict;
    if Hit(id, expired) {
      var k :| 0 <= k < |expired| && (id.tx == expired[k] || Conflict(id.tx, expired[k]));
      if id.tx != expired[k] {
        NoConflicts(s, id, IDOf(expired[k]));
        assert false;
      }
    }
  }

  // ---------- Stale entries ----------

  /** Every entry of the nullifier index belongs to a pooled transaction. */
  ghost predicate NoStale(s: State)
  {
    forall n :: n in s.nullifiers ==> s.nullifiers[n] in s.pool
  }

  /** The nullifier index refuses a standard or mint transaction that passed the sanity checks. */
  predicate IndexRefuses(tx: Transaction, s: State)
  {
    tx.Sane() && (tx.body.Standard? || tx.body.Mint?) && exists n :: n in tx.Nullifiers() && n in s.nullifiers
  }

  ghost predicate ConflictsWithPool(tx: Transaction, s: State)
  {
    exists id :: id in s.pool && Conflict(tx, id.tx)
  }

  /** The index refuses only what conflicts with the pool if, and only if, it has no stale entry. */
  lemma IndexIsExact(s: State)
    requires Inv(s)
    ensures (forall tx :: IndexRefuses(tx, s) ==> ConflictsWithPool(tx, s)) <==> NoStale(s)
  {
    if NoStale(s) {
      forall tx | IndexRefuses(tx, s) ensures ConflictsWithPool(tx, s) {
        var n :| n in tx.Nullifiers() && n in s.nullifiers;
        assert Spends(s.nullifiers[n].tx, n);
        assert Conflict(tx, s.nullifiers[n].tx);
      }
    }
    if forall tx :: IndexRefuses(tx, s) ==> ConflictsWithPool(tx, s) {
      forall n | n in s.nullifiers ensures s.nullifiers[n] in s.pool {
        OnlyOwnerConflicts(s, n);
      }
    }
  }

  /** A transaction whose one nullifier is `n` conflicts with nothing in the pool but the entry's owner. */
  lemma OnlyOwnerConflicts(s: State, n: Hash)
    requires Owned(s) && n in s.nullifiers
    requires forall tx :: IndexRefuses(tx, s) ==> ConflictsWithPool(tx, s)
    ensures s.nullifiers[n] in s.pool
  {
    var tx := Transaction(0, n, n, Standard([n], n, 0), [n], true);
    assert tx.Nullifiers() == [n];
    assert IndexRefuses(tx, s);
    var id :| id in s.pool && Conflict(tx, id.tx);
    assert Spends(id.tx, n);
  }

  /** Admission leaves no stale entry behind where none was. */
  lemma AdmittedNoStale(s: State, tx: Transaction, expiration: int)
    requires Inv(s) && NoStale(s)
    ensures NoStale(Admitted(s, tx, expiration))
  {
    var r := Admitted(s, tx, expiration);
    forall n | n in r.nullifiers ensures r.nullifiers[n] in r.pool {
      if n !in tx.Nullifiers() {
        assert Spends(s.nullifiers[n].tx, n);
      }
    }
  }

  /** Removal leaves a stale entry exactly if it takes out a conflicting transaction that has a nullifier of its own. */
  lemma RemovedNoStale(s: State, tx: Transaction)
    requires Inv(s) && NoStale(s)
    ensures NoStale(RemoveOne(s, tx)) <==>
      forall id, n :: id in s.pool && Conflict(id.tx, tx) && Spends(id.tx, n) ==> n in tx.Nullifiers()
  {
    RemoveOneIs(s, tx);
    RemovedEntries(s, tx);
    StaleAfter(s, RemoveOne(s, tx), tx);
  }

  lemma StaleAfter(s: State, r: State, tx: Transaction)
    requires Owned(s) && Indexed(s) && NoStale(s) && Without(s, r, tx)
    requires forall n :: n in r.nullifiers <==> n in s.nullifiers && n !in tx.Nullifiers()
    requires forall n :: n in r.nullifiers ==> r.nullifiers[n] == s.nullifiers[n]
    ensures NoStale(r) <==>
      forall id, n :: id in s.pool && Conflict(id.tx, tx) && Spends(id.tx, n) ==> n in tx.Nullifiers()
  {
    ConflictIs(tx, tx);
    SpendsAll(tx);
    hide Conflict, Spends, Transaction.Nullifiers;
    if forall id, n :: id in s.pool && Conflict(id.tx, tx) && Spends(id.tx, n) ==> n in tx.Nullifiers() {
      forall n | n in r.nullifiers ensures r.nullifiers[n] in r.pool {
        assert Spends(s.nullifiers[n].tx, n);
      }
    }
    if NoStale(r) {
      forall id, n | id in s.pool && Conflict(id.tx, tx) && Spends(id.tx, n) ensures n in tx.Nullifiers() {
        assert s.nullifiers[n] == id && id !in r.pool;
      }
    }
  }

  lemma SpendsAll(tx: Transaction)
    ensures forall n :: Spends(tx, n) <==> n in tx.Nullifiers()
  {
  }

  /** The entries that are left: all but those of the transaction's nullifiers. */
  lemma RemovedEntries(s: State, tx: Transaction)
    requires Inv(s)
    ensures forall n :: n in RemoveOne(s, tx).nullifiers <==> n in s.nullifiers && n !in tx.Nullifiers()
    ensures forall n :: n in RemoveOne(s, tx).nullifiers ==> RemoveOne(s, tx).nullifiers[n] == s.nullifiers[n]
  {
    if tx.body.Standard? || tx.body.Mint? {
      DropsAreDropped(s.(pool := s.pool - {IDOf(tx)}), tx.Nullifiers());
    } else {
      OtherPool(s, tx);
    }
  }

  /** A stale entry keeps out a transaction that conflicts with nothing in the pool. */
  lemma StaleEntryRefuses(a: Transaction, b: Transaction, c: Transaction, n: Hash, m: Hash, view: View, now: int,
                          minStake: Amount, whitelist: set<TxID>)
    requires a.body.Standard? && a.body.nullifiers == [n, m] && n != m
    requires b.body.Standard? && b.body.nullifiers == [n] && c.body.Standard? && c.body.nullifiers == [m]
    ensures var s := RemoveOne(Admitted(NO_TXS, a, now), b);
      s.pool == map[] && !Admissible(c, s, view, now, minStake, whitelist)
  {
    var s0 := Admitted(NO_TXS, a, now);
    assert a.Nullifiers()[..1] == [n] && b.Nullifiers()[..0] == [];
    var s1 := s0.(pool := s0.pool - {IDOf(b)});
    assert DropNullifiers(s1, []) == s1;
    assert n in a.Nullifiers() && m in a.Nullifiers() && m in c.Nullifiers();
    assert s0.nullifiers[n] == IDOf(a) && m in s0.nullifiers;
    assert DropNullifiers(s1, [n]) == DropNullifier(s1, n);
  }

  class Mempool {
    const minStake: Amount
    const whitelist: set<TxID>
    const ttl: int
    var pool: map<TxID, Entry>
    var nullifiers: map<Hash, TxID>
    var treasuryDebits: map<TxID, Amount>
    var coinbases: map<nat, Transaction>

    function Contents(): (s: State)
      reads this
    {
      State(pool, nullifiers, treasuryDebits, coinbases)
    }

    constructor (minStake: Amount, whitelist: set<TxID>, ttl: int)
      ensures Inv(Contents()) && Contents() == NO_TXS
      ensures this.minStake == minStake && this.whitelist == whitelist && this.ttl == ttl
    {
      this.minStake, this.whitelist, this.ttl := minStake, whitelist, ttl;
      pool, nullifiers, treasuryDebits, coinbases := map[], map[], map[], map[];
    }

    /** Looks for each nullifier in the pool and in the chain. */
    method CheckNullifiers(ns: seq<Hash>, view: View) returns (unspent: bool)
      ensures unspent <==> Unspent(ns, Contents(), view)
    {
      for i := 0 to |ns|
        invariant forall k :: 0 <= k < i ==> ns[k] !in nullifiers && ns[k] !in view.nullifiers
      {
        if ns[i] in nullifiers || ns[i] in view.nullifiers {
          return false;
        }
      }
      unspent := true;
    }

    method ClaimNullifiers(ns: seq<Hash>, id: TxID)
      modifies this`nullifiers
      ensures nullifiers == Claimed(old(nullifiers), ns, id)
    {
      for i := 0 to |ns|
        invariant nullifiers == Claimed(old(nullifiers), ns[..i], id)
      {
        assert ns[..i + 1][..i] == ns[..i];
        nullifiers := nullifiers[ns[i] := id];
      }
      assert ns[..|ns|] == ns;
    }

    /** The sum of the pooled debits, in 64 bits. */
    method InPoolBalance() returns (sum: Amount)
      ensures sum == Wrap64(Total(treasuryDebits))
    {
      NoneTaken(Total(treasuryDebits));
      hide Wrap64, Total;
      sum := 0;
      var left := treasuryDebits;
      while left != map[]
        invariant sum == Wrap64(Total(treasuryDebits) - Total(left))
        decreases |left|
      {
        var id :| id in left;
        TotalWithout(left, id);
        WrapAdds(Total(treasuryDebits) - Total(left), left[id]);
        sum := Wrap64(sum + left[id]);
        left := left - {id};
      }
    }

    method AdmitCoinbase(tx: Transaction, view: View, ghost now: int) returns (err: Option<Error>)
      requires Inv(Contents()) && tx.body.Coinbase? && IDOf(tx) !in pool
      modifies this`pool, this`coinbases
      ensures err == None <==> old(Admissible(tx, Contents(), view, now, minStake, whitelist))
      ensures err.Some? ==>
        Contents() == old(Contents()) && Reason(err.value, tx, Contents(), view, now, minStake, whitelist)
      ensures err == None ==> coinbases == old(CoinbasesWith(Contents(), tx))
      ensures err == None ==> pool == old(WithoutOlder(Contents(), tx))
    {
      hide Keyed, Owned, Indexed, DebitsMatch;
      var v, coins := tx.body.validator, tx.body.newCoins;
      if v !in view.validators || coins != view.validators[v].unclaimedCoins || coins == 0 {
        return Some(InvalidTx);
      }
      if v in coinbases {
        var prev := coinbases[v];
        if coins <= prev.body.newCoins {
          return Some(DuplicateCoinbase);
        }
        pool := pool - {IDOf(prev)};
      }
      coinbases := coinbases[v := tx];
      err := None;
    }

    method CheckStake(tx: Transaction, view: View, now: int) returns (err: Option<Error>)
      requires tx.body.Stake? && IDOf(tx) !in pool
      ensures err == None <==> Admissible(tx, Contents(), view, now, minStake, whitelist)
      ensures err.Some? ==> Reason(err.value, tx, Contents(), view, now, minStake, whitelist)
    {
      var n := tx.body.nullifier;
      if tx.body.amount < minStake {
        return Some(MinStake);
      }
      if n in nullifiers {
        return Some(DoubleSpend);
      }
      if RestakesTooSoon(tx.body.staker, n, view, now) {
        return Some(RestakeTooSoon);
      }
      if n in view.nullifiers {
        return Some(DoubleSpend);
      }
      err := if tx.body.stakeRoot in view.roots then None else Some(InvalidTx);
    }

    method AdmitTreasury(tx: Transaction, view: View, ghost now: int) returns (err: Option<Error>)
      requires tx.body.Treasury? && IDOf(tx) !in pool
      modifies this`treasuryDebits
      ensures err == None <==> old(Admissible(tx, Contents(), view, now, minStake, whitelist))
      ensures err.Some? ==>
        Contents() == old(Contents()) && Reason(err.value, tx, Contents(), view, now, minStake, whitelist)
      ensures err == None ==> treasuryDebits == old(DebitsWith(Contents(), tx))
    {
      if IDOf(tx) !in whitelist {
        return Some(NotWhitelisted);
      }
      var inPool := InPoolBalance();
      if tx.body.withdrawal > Wrap64(view.treasury - inPool) {
        return Some(InvalidTx);
      }
      treasuryDebits := treasuryDebits[IDOf(tx) := tx.body.withdrawal];
      err := None;
    }

    /** A standard or mint transaction: nothing is claimed before everything was checked. */
    method AdmitSpender(tx: Transaction, view: View, ghost now: int) returns (err: Option<Error>)
      requires (tx.body.Standard? || tx.body.Mint?) && IDOf(tx) !in pool
      modifies this`nullifiers
      ensures err == None <==> old(Admissible(tx, Contents(), view, now, minStake, whitelist))
      ensures err.Some? ==>
        Contents() == old(Contents()) && Reason(err.value, tx, Contents(), view, now, minStake, whitelist)
      ensures err == None ==> nullifiers == Claimed(old(nullifiers), tx.Nullifiers(), IDOf(tx))
    {
      hide Claimed;
      var unspent := CheckNullifiers(tx.body.nullifiers, view);
      if !unspent {
        return Some(DoubleSpend);
      }
      if tx.body.txoRoot !in view.roots {
        return Some(InvalidTx);
      }
      ClaimNullifiers(tx.body.nullifiers, IDOf(tx));
      err := None;
    }

    /** validateTransaction. */
    method ValidateTransaction(tx: Transaction, view: View, now: int) returns (err: Option<Error>)
      requires Inv(Contents())
      modifies this
      ensures Inv(Contents())
      ensures err == None <==> old(Admissible(tx, Contents(), view, now, minStake, whitelist))
      ensures err.Some? ==>
        Contents() == old(Contents()) && Reason(err.value, tx, Contents(), view, now, minStake, whitelist)
      ensures err == None ==> Contents() == Admitted(old(Contents()), tx, now + ttl)
    {
      hide Inv, Claimed, Admissible, Reason, Unspent, WithoutOlder, CoinbasesWith, DebitsWith, Transaction.Nullifiers;
      ghost var before := Contents();
      var id := IDOf(tx);
      if id in pool {
        IsDuplicate(tx, before, view, now, minStake, whitelist);
        return Some(DuplicateTx);
      }
      match tx.body {
        case Coinbase(_, _) =>
          err := AdmitCoinbase(tx, view, now);
        case Stake(_, _, _, _) =>
          err := CheckStake(tx, view, now);
        case Treasury(_) =>
          err := AdmitTreasury(tx, view, now);
        case _ =>
          err := AdmitSpender(tx, view, now);
      }
      if err != None {
        assert Contents() == before;
        return;
      }
      AdmissibleIsFresh(tx, before, view, now, minStake, whitelist);
      AdmittedInv(before, tx, now + ttl);
      pool := pool[id := Entry(tx, now + ttl)];
      NothingElse(before, tx);
      assert Contents() == Admitted(before, tx, now + ttl);
    }

    /** removeBlockTransactions. */
    method RemoveBlockTransactions(txs: seq<Transaction>)
      requires Inv(Contents())
      modifies this`pool, this`nullifiers, this`treasuryDebits, this`coinbases
      ensures Inv(Contents()) && Contents() == RemoveAll(old(Contents()), txs)
      ensures Remaining(old(Contents()), Contents(), txs)
    {
      hide Inv, Remaining;
      ghost var before := Contents();
      for i := 0 to |txs|
        invariant Contents() == RemoveAll(before, txs[..i])
      {
        assert txs[..i + 1][..i] == txs[..i];
        RemoveTransaction(txs[i]);
      }
      assert txs[..|txs|] == txs;
      RemoveAllIs(before, txs);
    }

    method RemoveTransaction(tx: Transaction)
      modifies this`pool, this`nullifiers, this`treasuryDebits, this`coinbases
      ensures Contents() == RemoveOne(old(Contents()), tx)
    {
      pool := pool - {IDOf(tx)};
      match tx.body {
        case Coinbase(v, _) =>
          if v in coinbases && coinbases[v] == tx {
            coinbases := coinbases - {v};
          }
        case Treasury(_) =>
          treasuryDebits := treasuryDebits - {IDOf(tx)};
        case Stake(_, _, _, _) =>
        case _ =>
          ReleaseNullifiers(tx.body.nullifiers);
      }
    }

    /** Drops the entry of each nullifier, and the pooled transaction that owns it. */
    method ReleaseNullifiers(ns: seq<Hash>)
      modifies this`pool, this`nullifiers
      ensures Contents() == DropNullifiers(old(Contents()), ns)
    {
      for i := 0 to |ns|
        invariant Contents() == DropNullifiers(old(Contents()), ns[..i])
      {
        assert ns[..i + 1][..i] == ns[..i];
        if ns[i] in nullifiers {
          var poolID := nullifiers[ns[i]];
          nullifiers := nullifiers - {ns[i]};
          pool := pool - {poolID};
        }
      }
      assert ns[..|ns|] == ns;
    }

    /** The hourly pass of validationHandler: exactly the expired transactions go. */
    method Expire(now: int)
      requires Inv(Contents())
      modifies this`pool, this`nullifiers, this`treasuryDebits, this`coinbases
      ensures Inv(Contents())
      ensures forall id :: id in pool <==> id in old(pool) && now <= old(pool)[id].expiration
      ensures forall id :: id in pool ==> pool[id] == old(pool)[id]
    {
      hide Inv, Conflict;
      ghost var before := Contents();
      var toDelete: seq<Transaction> := [];
      var ids := pool.Keys;
      while ids != {}
        invariant ids <= pool.Keys && Contents() == before
        invariant forall k :: 0 <= k < |toDelete| ==>
          IDOf(toDelete[k]) in pool && pool[IDOf(toDelete[k])].expiration < now
        invariant forall id :: id in pool && id !in ids && pool[id].expiration < now ==> id.tx in toDelete
        decreases ids
      {
        var id :| id in ids;
        ids := ids - {id};
        if pool[id].expiration < now {
          PooledIs(Contents(), id);
          toDelete := toDelete + [pool[id].tx];
        }
      }
      RemoveBlockTransactions(toDelete);
      forall id | id in before.pool ensures Hit(id, toDelete) <==> before.pool[id].expiration < now {
        ExpiryIsExact(before, toDelete, id);
      }
    }
  }

  /** A run that overdraws the treasury: the balance falls while a withdrawal waits, and then any amount is admitted. */
  method Overdraw(a: Transaction, b: Transaction) returns (m: Mempool)
    requires a.body == Treasury(10) && b.body == Treasury(100)
    ensures fresh(m) && Inv(m.Contents()) && IDOf(a) in m.pool && IDOf(b) in m.pool
    ensures Total(m.treasuryDebits) == 110 && !FitsBalance(0, 5, m.treasuryDebits)
  {
    hide Inv, Admissible, Reason, Admitted, FitsBalance, Total;
    m := new Mempool(0, {IDOf(a), IDOf(b)}, 60);
    FirstWithdrawal(a, {IDOf(a), IDOf(b)});
    var err := m.ValidateTransaction(a, View(10, {}, {}, map[]), 0);
    SecondWithdrawal(a, b, {IDOf(a), IDOf(b)});
    err := m.ValidateTransaction(b, View(5, {}, {}, map[]), 0);
  }

  lemma FirstWithdrawal(a: Transaction, whitelist: set<TxID>)
    requires a.body == Treasury(10) && IDOf(a) in whitelist
    ensures Admissible(a, NO_TXS, View(10, {}, {}, map[]), 0, 0, whitelist)
  {
    assert FitsRoom(10, 10, map[]);
  }

  lemma SecondWithdrawal(a: Transaction, b: Transaction, whitelist: set<TxID>)
    requires a.body == Treasury(10) && b.body == Treasury(100) && IDOf(b) in whitelist
    ensures var s := Admitted(NO_TXS, a, 60);
      Admissible(b, s, View(5, {}, {}, map[]), 0, 0, whitelist)
    ensures var t := Admitted(Admitted(NO_TXS, a, 60), b, 60);
      IDOf(a) in t.pool && IDOf(b) in t.pool && Total(t.treasuryDebits) == 110 && !FitsBalance(0, 5, t.treasuryDebits)
  {
    hide Claimed;
    var debits := map[IDOf(a) := 10 as Amount];
    TotalOf(IDOf(a), 10, map[]);
    TotalOf(IDOf(b), 100, debits);
    assert FitsRoom(100, 5, debits);
    assert Admitted(NO_TXS, a, 60).treasuryDebits == debits;
  }

  lemma TotalOf(id: TxID, amount: Amount, debits: map<TxID, Amount>)
    requires id !in debits
    ensures Total(debits[id := amount]) == amount + Total(debits)
  {
    TotalWithout(debits[id := amount], id);
    assert debits[id := amount] - {id} == debits;
  }

  lemma PooledIs(s: State, id: TxID)
    requires Inv(s) && id in s.pool
    ensures s.pool[id].tx == id.tx
  {
  }

  lemma AdmissibleIsFresh(tx: Transaction, s: State, view: View, now: int, minStake: Amount, whitelist: set<TxID>)
    requires Admissible(tx, s, view, now, minStake, whitelist)
    ensures IDOf(tx) !in s.pool && forall n :: n in tx.Nullifiers() ==> n !in s.nullifiers
  {
  }

  /** A transaction touches the indexes of its own kind only. */
  lemma NothingElse(s: State, tx: Transaction)
    ensures !tx.body.Coinbase? ==> WithoutOlder(s, tx) == s.pool && CoinbasesWith(s, tx) == s.coinbases
    ensures !tx.body.Treasury? ==> DebitsWith(s, tx) == s.treasuryDebits
    ensures !tx.body.Standard? && !tx.body.Mint? ==> Claimed(s.nullifiers, tx.Nullifiers(), IDOf(tx)) == s.nullifiers
  {
  }

  lemma IsDuplicate(tx: Transaction, s: State, view: View, now: int, minStake: Amount, whitelist: set<TxID>)
    requires IDOf(tx) in s.pool
    ensures !Admissible(tx, s, view, now, minStake, whitelist)
    ensures Reason(DuplicateTx, tx, s, view, now, minStake, whitelist)
  {
  }

  lemma NoneTaken(total: nat)
    ensures Wrap64(total - total) == 0 && Total(map[]) == 0
  {
  }

  lemma WrapAdds(x: int, y: int)
    ensures Wrap64(Wrap64(x) + y) == Wrap64(x + y)
  {
  }
}
