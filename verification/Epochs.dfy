/**
 The headers of a valid history form one chain, and an epoch of it mints once.
 */
module Epochs {
  import opened Ledger

  /** Each block names its predecessor; heights go up by one, and the times rise. */
  lemma {:induction false} Linked(h: seq<Applied>, i: nat, j: nat)
    requires ValidHistory(h) && i < j < |h|
    ensures h[j].blk.header.parent == h[j - 1].blk.header.id
    ensures h[j].blk.header.height == h[i].blk.header.height + (j - i)
    ensures h[j].blk.header.timestamp > h[i].blk.header.timestamp
    ensures h[j].blk.header.timestamp <= h[j].env.now + 10
    decreases j
  {
    hide ValidBlock;
    ValidPrefix(h, j);
    assert h[..j][|h[..j]| - 1] == h[j - 1];
    hide ValidHistory;
    if i < j - 1 {
      Linked(h, i, j - 1);
    }
  }

  /** The epochs have been counted from one time and in one length. */
  predicate SameClock(h: seq<Applied>, start: int, length: Positive)
  {
    forall k :: 0 <= k < |h| ==> h[k].env.genesisTime == start && h[k].env.epochLength == length
  }

  /** The epoch of a time; the one around the start is twice as long, as division truncates toward zero. */
  function Epoch(time: int, start: int, length: Positive): (e: int)
  {
    GoDiv(time - start, length)
  }

  lemma EpochIs(time: int, start: int, length: Positive)
    ensures time >= start ==> Epoch(time, start, length) * length <= time - start
    ensures time >= start ==> time - start < (Epoch(time, start, length) + 1) * length
    ensures time < start ==> (Epoch(time, start, length) - 1) * length < time - start
    ensures time < start ==> time - start <= Epoch(time, start, length) * length <= 0
  {
  }

  lemma EpochsRise(t: int, u: int, start: int, length: Positive)
    requires t <= u
    ensures Epoch(t, start, length) <= Epoch(u, start, length)
  {
    var a, b := t - start, u - start;
    if 0 <= a {
      QuotientsRise(a, b, length);
    } else if b < 0 {
      QuotientsRise(-b, -a, length);
    } else {
      QuotientsRise(0, -a, length);
      QuotientsRise(0, b, length);
    }
  }

  lemma QuotientsRise(a: nat, b: nat, n: Positive)
    requires a <= b
    ensures 0 <= a / n <= b / n
  {
    var p, q := a / n, b / n;
    assert a == p * n + a % n && b == q * n + b % n;
    if p > q {
      Times(q + 1, p, n);
    }
  }

  lemma Times(a: nat, b: nat, n: nat)
    requires a <= b
    ensures a * n <= b * n
  {
  }

  /** What block `k` adds to the supply. */
  function Minted(h: seq<Applied>, k: nat): (coins: nat)
    requires k < |h|
  {
    NewSupply(DiskOf(h[..k]).blocks, h[k])
  }

  /** The time that a block's epoch is compared with. */
  function TimeBefore(h: seq<Applied>, k: nat): (time: int)
    requires 0 < k < |h|
  {
    if h[k].env.regtest && h[k - 1].blk.header.height == 0 then h[k].env.now else h[k - 1].blk.header.timestamp
  }

  /**
   A block after genesis mints its coinbase, and credits the treasury with its
   share, if it is in a later epoch, and does neither otherwise.
   */
  lemma MintsInNewEpoch(h: seq<Applied>, k: nat, start: int, length: Positive)
    requires SameClock(h, start, length) && 0 < k < |h|
    ensures Minted(h, k) ==
      if Epoch(h[k].blk.header.timestamp, start, length) > Epoch(TimeBefore(h, k), start, length)
      then h[k].env.coinbase else 0
    ensures Credit(DiskOf(h[..k]).blocks, h[k]) ==
      if Epoch(h[k].blk.header.timestamp, start, length) > Epoch(TimeBefore(h, k), start, length)
      then h[k].env.treasuryCredit else 0
  {
    BlocksOfDisk(h[..k]);
    hide DiskOf, GoDiv;
  }

  /** No epoch mints twice. */
  lemma EpochMintsOnce(h: seq<Applied>, i: nat, j: nat, start: int, length: Positive)
    requires ValidHistory(h) && SameClock(h, start, length) && 0 < i < j < |h|
    requires Minted(h, i) > 0 && Minted(h, j) > 0
    ensures Epoch(h[i].blk.header.timestamp, start, length) < Epoch(h[j].blk.header.timestamp, start, length)
  {
    hide ValidHistory, Epoch, Minted, SameClock, DiskOf, Credit;
    MintsInNewEpoch(h, j, start, length);
    Linked(h, 0, j - 1);
    if i < j - 1 {
      Linked(h, i, j - 1);
    }
    EpochsRise(h[i].blk.header.timestamp, h[j - 1].blk.header.timestamp, start, length);
  }

  /** On the test network the first block may be in the epoch of the genesis block. */
  function Extra(h: seq<Applied>): (n: nat)
  {
    if |h| > 1 && h[1].env.regtest then 1 else 0
  }

  /** How many blocks after genesis have minted. */
  function Mintings(h: seq<Applied>): (n: nat)
  {
    if |h| <= 1 then 0 else Mintings(h[..|h| - 1]) + if Minted(h, |h| - 1) > 0 then 1 else 0
  }

  lemma SameBefore(h: seq<Applied>, n: nat)
    requires 0 < n == |h| - 1
    ensures n > 1 ==> Extra(h[..n]) == Extra(h)
    ensures h[..n][|h[..n]| - 1] == h[n - 1] && h[..n][0] == h[0]
  {
  }

  /** No more blocks have minted than epochs have passed. */
  lemma {:induction false} MintingsBounded(h: seq<Applied>, start: int, length: Positive)
    requires ValidHistory(h) && SameClock(h, start, length) && h != []
    ensures Mintings(h) <=
      Epoch(h[|h| - 1].blk.header.timestamp, start, length) - Epoch(h[0].blk.header.timestamp, start, length) + Extra(h)
  {
    hide ValidNext, Minted, Epoch;
    if |h| > 1 {
      var n := |h| - 1;
      MintingsBounded(h[..n], start, length);
      SameBefore(h, n);
      hide ValidHistory;
      MintsInNewEpoch(h, n, start, length);
      Linked(h, n - 1, n);
      EpochsRise(h[n - 1].blk.header.timestamp, h[n].blk.header.timestamp, start, length);
      if n > 1 {
        Linked(h, 0, n - 1);
      }
    }
  }

  /** So the supply is at most the genesis coins and one coinbase for each epoch. */
  lemma {:induction false} SupplyBounded(h: seq<Applied>, coinbase: nat)
    requires forall k :: 0 <= k < |h| ==> h[k].env.coinbase <= coinbase
    ensures TotalSupply(h) <= GenesisCoins(h) + coinbase * Mintings(h)
  {
    hide TotalSupply, Minted, GenesisCoins, NewSupply, DiskOf;
    SupplyStep(h);
    if h != [] {
      var n := |h| - 1;
      SupplyBounded(h[..n], coinbase);
      MintedAtMost(h, n, coinbase);
      if n > 0 {
        OneMoreTime(coinbase, Mintings(h[..n]));
      }
    }
  }

  lemma SupplyStep(h: seq<Applied>)
    ensures h == [] ==> TotalSupply(h) == 0 == GenesisCoins(h)
    ensures h != [] ==> TotalSupply(h) == TotalSupply(h[..|h| - 1]) + Minted(h, |h| - 1)
    ensures |h| > 1 ==> GenesisCoins(h) == GenesisCoins(h[..|h| - 1])
    ensures |h| == 1 ==> TotalSupply(h[..|h| - 1]) == 0
  {
    hide NewSupply, DiskOf;
  }

  lemma OneMoreTime(a: nat, n: nat)
    ensures a * (n + 1) == a * n + a
  {
  }

  lemma MintedAtMost(h: seq<Applied>, k: nat, coinbase: nat)
    requires k < |h| && h[k].env.coinbase <= coinbase
    ensures k > 0 ==> Minted(h, k) <= coinbase
    ensures k == 0 ==> Minted(h, k) == GenesisCoins(h)
  {
    BlocksOfDisk(h[..k]);
    hide StartsEpoch;
  }
}
