/**
 Xthinner block compression (mempool/xthinner.go).  The sender prints, for each
 transaction of a block, a prefix of its ID that no other transaction of its
 pool has, as pops from and pushes to a stack of bytes; the receiver replays
 the stack and looks each prefix up in its own sorted list of IDs.
 */
module Xthinner {
  import opened Prelude
  import opened VoteBits
  import opened Txids
  import opened Bitmaps
  import opened PrefixStack
  import opened PrefixLookup

  // ---------- The encoder ----------

  /** The longest common prefix. */
  function Common(a: Bytes, b: Bytes): (c: Bytes)
    ensures HasPrefix(a, c) && HasPrefix(b, c)
    ensures |c| < |a| && |c| < |b| ==> a[|c|] != b[|c|]
  {
    if a == [] || b == [] || a[0] != b[0] then [] else [a[0]] + Common(a[1..], b[1..])
  }

  lemma {:induction false} CommonIs(a: Bytes, b: Bytes, k: nat)
    requires k <= |a| && k <= |b| && a[..k] == b[..k] && (k == |a| || k == |b| || a[k] != b[k])
    ensures Common(a, b) == a[..k]
  {
    if k > 0 {
      assert a[..k][0] == a[0] && b[..k][0] == b[0];
      assert a[..k][1..] == a[1..][..k - 1] && b[..k][1..] == b[1..][..k - 1];
      CommonIs(a[1..], b[1..], k - 1);
    }
  }

  /** The prefix starts this ID and no other of the pool. */
  ghost predicate Names(pool: set<ID>, id: ID, prefix: Bytes)
  {
    id in pool && |prefix| <= 32 && forall x :: x in pool ==> (HasPrefix(x, prefix) <==> x == id)
  }

  /**
   One byte more than the stack offers, unless some other ID, or the zero ID that
   ends the list, has the prefix but for its last byte.
   */
  ghost predicate NoLongerThanNeeded(pool: set<ID>, stack: Bytes, id: ID, prefix: Bytes)
  {
    || |prefix| == |Common(Trim(stack), id)| + 1
    || (|prefix| > 0 && exists x :: x in pool + {ZERO_ID} && x != id && HasPrefix(x, prefix[..|prefix| - 1]))
  }

  /** The neighbours of an ID in a sorted list decide whether a prefix is its own. */
  lemma NeighboursDecide(list: seq<ID>, t: nat, prefix: Bytes)
    requires Sorted(list) && t < |list| && HasPrefix(list[t], prefix)
    requires t > 0 ==> !HasPrefix(list[t - 1], prefix)
    requires t + 1 < |list| ==> !HasPrefix(list[t + 1], prefix)
    ensures OnlyAt(list, t, prefix)
  {
    hide Compare, HasPrefix;
    forall j | 0 <= j < |list| && j != t ensures !HasPrefix(list[j], prefix) {
      if HasPrefix(list[j], prefix) {
        if j < t - 1 {
          BetweenHasPrefix(list[j], list[t - 1], list[t], prefix);
        } else if j > t + 1 {
          BetweenHasPrefix(list[t], list[t + 1], list[j], prefix);
        }
        assert false;
      }
    }
  }

  /** Pops the bytes that are not the ID's. */
  method PopStage(stack: Bytes, txid: ID) returns (kept: Bytes, pops: seq<bool>)
    requires |stack| <= 32
    ensures kept == Common(Trim(stack), txid)
    ensures pops == Ones(|Trim(stack)| - |kept|) + [false]
  {
    kept, pops := stack, [];
    if |kept| > 0 {
      kept := kept[..|kept| - 1];
    }
    var i := 0;
    while i < |kept|
      invariant 0 <= i <= |kept| && kept == Trim(stack) && pops == []
      invariant kept[..i] == txid[..i]
    {
      if kept[i] != txid[i] {
        var l := |kept| - i;
        for j := 0 to l
          invariant kept == Trim(stack)[..|Trim(stack)| - j] && pops == Ones(j)
        {
          kept := kept[..|kept| - 1];
          pops := pops + [true];
        }
        break;
      }
      i := i + 1;
    }
    CommonIs(Trim(stack), txid, |kept|);
    pops := pops + [false];
  }

  /** Moves the cursor round the list to the ID. */
  method Seek(list: seq<ID>, start: nat, txid: ID, ghost at: nat) returns (pos: nat)
    requires at < |list| && list[at] == txid && start < |list|
    ensures pos < |list| && list[pos] == txid
    ensures list[start] == txid ==> pos == start
  {
    pos := start;
    while list[pos] != txid
      invariant pos < |list| && (list[start] == txid ==> pos == start)
      decreases if pos <= at then at - pos else |list| - pos + at
    {
      if pos + 1 == |list| {
        pos := 0;
      } else {
        pos := pos + 1;
      }
    }
  }

  /** Pushes a byte of the ID, and more while a neighbour has the same prefix. */
  method PushStage(kept: Bytes, txid: ID, prev: ID, next: ID, several: bool)
      returns (stack: Bytes, pushes: seq<bool>, pushbytes: Bytes)
    requires |kept| < 32 && HasPrefix(txid, kept)
    requires several ==> prev != txid && next != txid
    ensures |kept| < |stack| <= 32 && HasPrefix(txid, stack)
    ensures several ==> !HasPrefix(prev, stack) && !HasPrefix(next, stack)
    ensures |stack| > |kept| + 1 ==>
      several && (HasPrefix(prev, stack[..|stack| - 1]) || HasPrefix(next, stack[..|stack| - 1]))
    ensures pushes == Ones(|stack| - |kept| - 1) + [false] && pushbytes == stack[|kept|..]
  {
    stack := kept + [txid[|kept|]];
    pushbytes := [txid[|kept|]];
    pushes := [];
    while (stack == prev[..|stack|] || stack == next[..|stack|]) && several
      invariant |kept| < |stack| <= 32 && stack == txid[..|stack|]
      invariant |stack| > |kept| + 1 ==>
        several && (HasPrefix(prev, stack[..|stack| - 1]) || HasPrefix(next, stack[..|stack| - 1]))
      invariant pushes == Ones(|stack| - |kept| - 1) && pushbytes == stack[|kept|..]
      decreases 32 - |stack|
    {
      pushes := pushes + [true];
      assert (stack + [txid[|stack|]])[|kept|..] == stack[|kept|..] + [txid[|stack|]];
      stack := stack + [txid[|stack|]];
      pushbytes := pushbytes + [stack[|stack| - 1]];
    }
    pushes := pushes + [false];
  }

  /** The sender's list: its pool in order, and the zero ID at the end. */
  ghost predicate IsList(pool: set<ID>, list: seq<ID>)
  {
    && |list| > 0 && list[|list| - 1] == ZERO_ID
    && StrictlySorted(list[..|list| - 1])
    && forall x :: x in list[..|list| - 1] <==> x in pool
  }

  lemma ZeroIsFirst(pool: set<ID>, list: seq<ID>)
    requires IsList(pool, list) && ZERO_ID in pool
    ensures |list| > 1 && list[0] == ZERO_ID
  {
    hide Compare;
    var k :| 0 <= k < |list[..|list| - 1]| && list[..|list| - 1][k] == ZERO_ID;
    if k > 0 {
      assert Compare(list[..|list| - 1][0], ZERO_ID) < 0;
      ZeroIsLeast(list[0], ZERO_ID);
      Antisymmetric(list[0], ZERO_ID);
    }
  }

  /** A prefix that neither neighbour on the round list has names its ID. */
  lemma NeighboursName(pool: set<ID>, list: seq<ID>, pos: nat, prefix: Bytes)
    requires IsList(pool, list) && pos < |list| - 1 && HasPrefix(list[pos], prefix) && |prefix| <= 32
    requires |list| > 2 && pos > 0 ==> !HasPrefix(list[pos - 1], prefix)
    requires |list| > 2 && pos + 1 < |list| - 1 ==> !HasPrefix(list[pos + 1], prefix)
    ensures Names(pool, list[pos], prefix)
  {
    hide Compare, HasPrefix;
    var own := list[..|list| - 1];
    NeighboursDecide(own, pos, prefix);
    assert own[pos] in own;
    forall x | x in pool ensures HasPrefix(x, prefix) <==> x == list[pos] {
      var k :| 0 <= k < |own| && own[k] == x;
      assert HasPrefix(own[k], prefix) <==> k == pos;
      assert own[k] == own[pos] ==> k == pos by {
        if k < pos {
          assert Compare(own[k], own[pos]) < 0;
        } else if pos < k {
          assert Compare(own[pos], own[k]) < 0;
        }
      }
    }
  }

  /** A member of the pool stands in its part of the list. */
  lemma InList(pool: set<ID>, list: seq<ID>, id: ID) returns (at: nat)
    requires IsList(pool, list) && id in pool
    ensures at < |list| - 1 && list[at] == id
  {
    at :| 0 <= at < |list| - 1 && list[..|list| - 1][at] == id;
  }

  /** One pass through the encoder's loop. */
  method EncodeOne(ghost pool: set<ID>, list: seq<ID>, stack: Bytes, start: nat, txid: ID)
      returns (prefix: Bytes, pops: seq<bool>, pushes: seq<bool>, pushbytes: Bytes, mempoolPos: nat)
    requires IsList(pool, list) && txid in pool && |stack| <= 32 && start < |list|
    requires txid == ZERO_ID ==> start == 0
    ensures mempoolPos < |list|
    ensures Names(pool, txid, prefix) && NoLongerThanNeeded(pool, stack, txid, prefix)
    ensures HasPrefix(txid, prefix) && |Common(Trim(stack), txid)| < |prefix|
    ensures Stream(pops, pushes, pushbytes) == Emitted(stack, |Common(Trim(stack), txid)|, prefix)
  {
    hide Compare, IsList, Names, HasPrefix, Common, Trim, ZERO_ID, NoLongerThanNeeded;
    ghost var at := InList(pool, list, txid);
    var kept;
    kept, pops := PopStage(stack, txid);
    if txid == ZERO_ID {
      ZeroIsFirst(pool, list);
    }
    mempoolPos := Seek(list, start, txid, at);
    SoughtIsOwn(pool, list, txid, mempoolPos);
    var r := mempoolPos;
    if r == 0 {
      r := |list| - 1;
    }
    var prev, next := list[r - 1], list[mempoolPos + 1];
    NeighboursDiffer(pool, list, mempoolPos);
    CommonIsPrefix(stack, txid);
    prefix, pushes, pushbytes := PushStage(kept, txid, prev, next, |list| > 2);
    NeighboursName(pool, list, mempoolPos, prefix);
    NeededBy(pool, stack, txid, prefix, prev, next);
    mempoolPos := mempoolPos + 1;
  }

  lemma SoughtIsOwn(pool: set<ID>, list: seq<ID>, id: ID, pos: nat)
    requires IsList(pool, list) && id in pool && pos < |list| && list[pos] == id && (id == ZERO_ID ==> pos == 0)
    ensures pos < |list| - 1
  {
    hide StrictlySorted;
    if id == ZERO_ID {
      ZeroIsFirst(pool, list);
    }
  }

  lemma CommonIsPrefix(stack: Bytes, id: ID)
    requires |stack| <= 32
    ensures HasPrefix(id, Common(Trim(stack), id)) && |Common(Trim(stack), id)| < 32
    ensures |Common(Trim(stack), id)| <= |Trim(stack)|
  {
  }

  lemma NeededBy(pool: set<ID>, stack: Bytes, id: ID, prefix: Bytes, prev: ID, next: ID)
    requires prev in pool && next in pool + {ZERO_ID} && |Common(Trim(stack), id)| < |prefix|
    requires |prefix| > |Common(Trim(stack), id)| + 1 ==>
      prev != id && next != id && (HasPrefix(prev, prefix[..|prefix| - 1]) || HasPrefix(next, prefix[..|prefix| - 1]))
    ensures NoLongerThanNeeded(pool, stack, id, prefix)
  {
    hide Common, Trim, HasPrefix;
  }

  /** With more than one transaction in the pool, the neighbours on the round list are other IDs. */
  lemma NeighboursDiffer(pool: set<ID>, list: seq<ID>, pos: nat)
    requires IsList(pool, list) && pos < |list| - 1
    ensures var prev, next := list[if pos == 0 then |list| - 2 else pos - 1], list[pos + 1];
      && prev in pool && next in pool + {ZERO_ID}
      && (|list| > 2 ==> prev != list[pos] && next != list[pos])
  {
    hide Compare, ZERO_ID, StrictlySorted;
    var own := list[..|list| - 1];
    OwnAt(pool, list, if pos == 0 then |list| - 2 else pos - 1);
    if pos + 1 < |own| {
      OwnAt(pool, list, pos + 1);
    }
    if |list| > 2 {
      if pos > 0 {
        OrderOf(own, pos - 1, pos);
      } else {
        OrderOf(own, 0, |own| - 1);
      }
      if pos + 1 < |own| {
        OrderOf(own, pos, pos + 1);
      } else if list[pos] == ZERO_ID {
        OrderOf(own, 0, pos);
        ZeroIsFirst(pool, list);
      }
    }
  }

  lemma OwnAt(pool: set<ID>, list: seq<ID>, k: nat)
    requires IsList(pool, list) && k < |list| - 1
    ensures list[k] in pool
  {
    assert list[..|list| - 1][k] in list[..|list| - 1];
  }

  lemma OrderOf(s: seq<ID>, i: nat, j: nat)
    requires StrictlySorted(s) && i < j < |s|
    ensures s[i] != s[j]
  {
  }

  /**
   EncodeXthinner.  The zero ID, which ends the list, can only be sent first;
   anywhere else the search would stop at the end of the list.
   */
  method EncodeXthinner(pool: set<ID>, blkIds: seq<ID>) returns (msg: Option<Message>, ghost prefixes: seq<Bytes>)
    requires forall i :: 0 < i < |blkIds| ==> blkIds[i] != ZERO_ID
    ensures msg == None <==> exists i :: 0 <= i < |blkIds| && blkIds[i] !in pool
    ensures msg.Some? ==>
      && msg.value.txCount == |blkIds| && Replay(|blkIds|, [], msg.value.Contents()) == Some(prefixes)
      && NamedBy(pool, blkIds, prefixes)
  {
    hide Compare, Names, NamedBy, Replay, BitsOf, Printed, Emitted, NoLongerThanNeeded, IsList, Common, Trim;
    hide HasPrefix, ZERO_ID, Padding;
    var mempoolTxs := SenderList(pool);
    var stack, pops, pushes, pushbytes := [], [], [], [];
    var mempoolPos: nat := 0;
    prefixes := [];
    NothingPrinted();
    NothingNamed(pool);
    for i := 0 to |blkIds|
      invariant IsList(pool, mempoolTxs) && mempoolPos < |mempoolTxs| && (i == 0 ==> mempoolPos == 0)
      invariant |prefixes| == i && stack == Top(prefixes) && |stack| <= 32
      invariant Printed(Stream(pops, pushes, pushbytes), prefixes)
      invariant (forall j :: 0 <= j < i ==> blkIds[j] in pool) && NamedBy(pool, blkIds[..i], prefixes)
    {
      if blkIds[i] !in pool {
        return None, [];
      }
      var prefix, newPops, newPushes, newBytes;
      prefix, newPops, newPushes, newBytes, mempoolPos := EncodeOne(pool, mempoolTxs, stack, mempoolPos, blkIds[i]);
      NamesFits(pool, blkIds[i], prefix);
      OneMorePrinted(blkIds[i], prefixes, Stream(pops, pushes, pushbytes), prefix);
      OneMoreNamed(pool, blkIds, i, prefixes, prefix);
      prefixes := prefixes + [prefix];
      stack, pops, pushes, pushbytes := prefix, pops + newPops, pushes + newPushes, pushbytes + newBytes;
    }
    assert blkIds[..|blkIds|] == blkIds;
    var popMap := EncodeBitmap(pops);
    var pushMap := EncodeBitmap(pushes);
    PrintedReplays(Stream(pops, pushes, pushbytes), prefixes,
                   Stream(Zeros(Padding(|pops|)), Zeros(Padding(|pushes|)), []));
    assert pushbytes + [] == pushbytes;
    msg := Some(Message(|blkIds|, popMap, pushMap, pushbytes));
  }

  method SenderList(pool: set<ID>) returns (list: seq<ID>)
    ensures IsList(pool, list) && |list| > 0
  {
    hide StrictlySorted, Sorted;
    var s := SortTxids(pool, []);
    list := s + [ZERO_ID];
    assert list[..|list| - 1] == s;
    assert forall x :: x in s <==> x in multiset(s);
  }

  /** Each prefix names its transaction in the sender's pool, and is no longer than it has to be. */
  ghost predicate NamedBy(pool: set<ID>, ids: seq<ID>, prefixes: seq<Bytes>)
  {
    && |prefixes| == |ids|
    && forall i :: 0 <= i < |ids| ==>
         Names(pool, ids[i], prefixes[i]) && NoLongerThanNeeded(pool, Top(prefixes[..i]), ids[i], prefixes[i])
  }

  lemma NothingNamed(pool: set<ID>)
    ensures NamedBy(pool, [], [])
  {
  }

  lemma OneMoreNamed(pool: set<ID>, blkIds: seq<ID>, i: nat, prefixes: seq<Bytes>, prefix: Bytes)
    requires i < |blkIds| && NamedBy(pool, blkIds[..i], prefixes)
    requires Names(pool, blkIds[i], prefix) && NoLongerThanNeeded(pool, Top(prefixes), blkIds[i], prefix)
    ensures NamedBy(pool, blkIds[..i + 1], prefixes + [prefix])
  {
    hide Names, NoLongerThanNeeded, Top;
    assert (prefixes + [prefix])[..i] == prefixes;
    forall j | 0 <= j < i ensures (prefixes + [prefix])[..j] == prefixes[..j] {
    }
  }

  lemma OneMorePrinted(id: ID, prefixes: seq<Bytes>, m: Stream, prefix: Bytes)
    requires Printed(m, prefixes) && HasPrefix(id, prefix) && |Common(Trim(Top(prefixes)), id)| < |prefix| <= 32
    ensures Printed(Joined(m, Emitted(Top(prefixes), |Common(Trim(Top(prefixes)), id)|, prefix)), prefixes + [prefix])
  {
    hide Printed, Emitted, Common, Trim, Top;
    var keep := |Common(Trim(Top(prefixes)), id)|;
    assert Trim(Top(prefixes))[..keep] == id[..keep] == prefix[..keep];
    PrintOne(m, prefixes, keep, prefix);
  }

  lemma NamesFits(pool: set<ID>, id: ID, prefix: Bytes)
    requires Names(pool, id, prefix)
    ensures |prefix| <= 32 && HasPrefix(id, prefix)
  {
  }

  // ---------- The decoder ----------

  datatype Decoded<T> = Decoded(transactions: seq<Option<T>>, rerequests: seq<nat>)

  lemma RunAtLeast(bits: seq<bool>, n: nat)
    requires n <= |bits| && forall j :: 0 <= j < n ==> bits[j]
    ensures n <= Run(bits)
  {
  }

  /** Drops the top and reads the pops; false where the original would run off the stack or the bits. */
  method ReadPops(stack: Bytes, pops: seq<bool>, popi: nat) returns (ok: bool, left: Bytes, next: nat)
    requires popi <= |pops|
    ensures var base, p := Trim(stack), Run(pops[popi..]);
      && (ok <==> p < |pops| - popi && p <= |base|)
      && (ok ==> left == base[..|base| - p] && next == popi + p + 1)
  {
    left, next := Trim(stack), popi;
    ghost var rest := pops[popi..];
    if next == |pops| {
      return false, left, next;
    }
    var pop := pops[next];
    next := next + 1;
    while pop
      invariant popi < next <= |pops| && pop == pops[next - 1] && next - 1 - popi <= |Trim(stack)|
      invariant forall j :: 0 <= j < next - 1 - popi ==> rest[j]
      invariant left == Trim(stack)[..|Trim(stack)| - (next - 1 - popi)]
      decreases |pops| - next + (if pop then 1 else 0)
    {
      RunAtLeast(rest, next - popi);
      if left == [] || next == |pops| {
        return false, left, next;
      }
      left := left[..|left| - 1];
      pop := pops[next];
      next := next + 1;
    }
    RunIs(rest, next - 1 - popi);
    ok := true;
  }

  /** Reads a byte, and one more for every push. */
  method ReadPushes(base: Bytes, pushes: seq<bool>, pushi: nat, bytes: Bytes, bytei: nat)
      returns (ok: bool, stack: Bytes, nextPush: nat, nextByte: nat)
    requires pushi <= |pushes| && bytei <= |bytes|
    ensures var q := Run(pushes[pushi..]);
      && (ok <==> q < |pushes| - pushi && q + 1 <= |bytes| - bytei)
      && (ok ==> stack == base + bytes[bytei..][..q + 1] && nextPush == pushi + q + 1 && nextByte == bytei + q + 1)
  {
    stack, nextPush, nextByte := base, pushi, bytei;
    ghost var rest := pushes[pushi..];
    if nextByte == |bytes| || nextPush == |pushes| {
      return false, stack, nextPush, nextByte;
    }
    stack := stack + [bytes[nextByte]];
    nextByte := nextByte + 1;
    var push := pushes[nextPush];
    nextPush := nextPush + 1;
    while push
      invariant pushi < nextPush <= |pushes| && push == pushes[nextPush - 1]
      invariant nextByte - bytei == nextPush - pushi && nextByte <= |bytes|
      invariant forall j :: 0 <= j < nextPush - 1 - pushi ==> rest[j]
      invariant stack == base + bytes[bytei..nextByte]
      decreases |pushes| - nextPush + (if push then 1 else 0)
    {
      RunAtLeast(rest, nextPush - pushi);
      if nextByte == |bytes| || nextPush == |pushes| {
        return false, stack, nextPush, nextByte;
      }
      stack := stack + [bytes[nextByte]];
      nextByte := nextByte + 1;
      push := pushes[nextPush];
      nextPush := nextPush + 1;
    }
    RunIs(rest, nextPush - 1 - pushi);
    assert bytes[bytei..nextByte] == bytes[bytei..][..nextByte - bytei];
    ok := true;
  }

  /** Moves the cursor to where the prefix must be; it never goes back. */
  method Advance(mempoolTxs: seq<ID>, cursor: nat, stack: Bytes) returns (c: nat)
    requires cursor < |mempoolTxs| && |stack| <= 32
    ensures c == Stop(mempoolTxs[..|mempoolTxs| - 1], cursor, stack)
  {
    ghost var list := mempoolTxs[..|mempoolTxs| - 1];
    c := cursor;
    while c < |mempoolTxs| - 1 && Compare(stack, mempoolTxs[c][..|stack|]) > 0
      invariant c <= |list| && Stop(list, cursor, stack) == Stop(list, c, stack)
      decreases |mempoolTxs| - c
    {
      c := c + 1;
    }
  }

  function TxOf<T>(pool: map<ID, T>, prefilled: map<ID, T>, id: ID): (tx: Option<T>)
  {
    if id in prefilled then Some(prefilled[id]) else if id in pool then Some(pool[id]) else None
  }

  function Placed<T>(pool: map<ID, T>, prefilled: map<ID, T>, o: Outcome): (tx: Option<T>)
  {
    if o.Found? then TxOf(pool, prefilled, o.id) else None
  }

  /** The places whose transactions are asked for again. */
  function Requests(outcomes: seq<Outcome>): (r: seq<nat>)
  {
    if outcomes == [] then []
    else Requests(outcomes[..|outcomes| - 1]) + if outcomes[|outcomes| - 1] == Requested then [|outcomes| - 1] else []
  }

  lemma {:induction false} RequestsAre(outcomes: seq<Outcome>, i: nat)
    ensures i in Requests(outcomes) <==> i < |outcomes| && outcomes[i] == Requested
  {
    if outcomes != [] {
      RequestsAre(outcomes[..|outcomes| - 1], i);
    }
  }

  function PrefilledMap<T>(txs: seq<(ID, T)>): (m: map<ID, T>)
    ensures forall id :: id in m <==> exists k :: 0 <= k < |txs| && txs[k].0 == id
  {
    if txs == [] then map[]
    else
      var last := txs[|txs| - 1];
      PrefilledMap(txs[..|txs| - 1])[last.0 := last.1]
  }

  /** A placed transaction is the one last sent with its ID, or else the pool's own. */
  lemma {:induction false} LastSent<T>(pool: map<ID, T>, txs: seq<(ID, T)>, k: nat)
    requires k < |txs| && forall j :: k < j < |txs| ==> txs[j].0 != txs[k].0
    ensures TxOf(pool, PrefilledMap(txs), txs[k].0) == Some(txs[k].1)
    decreases |txs|
  {
    if k < |txs| - 1 {
      LastSent(pool, txs[..|txs| - 1], k);
    }
  }

  lemma NotSent<T>(pool: map<ID, T>, txs: seq<(ID, T)>, id: ID)
    requires id in pool && forall k :: 0 <= k < |txs| ==> txs[k].0 != id
    ensures TxOf(pool, PrefilledMap(txs), id) == Some(pool[id])
  {
    var m := PrefilledMap(txs);
    hide PrefilledMap;
  }

  /** The prefilled transactions that the pool lacks, as often as they were sent. */
  function Extra<T>(pool: set<ID>, txs: seq<(ID, T)>): (ids: seq<ID>)
    ensures forall id :: id in ids <==> id !in pool && exists k :: 0 <= k < |txs| && txs[k].0 == id
  {
    if txs == [] then []
    else
      var last := txs[|txs| - 1];
      Extra(pool, txs[..|txs| - 1]) + if last.0 in pool then [] else [last.0]
  }

  /** The receiver's list: its pool and the prefilled transactions in order. */
  ghost predicate IsReceiverList<T>(pool: map<ID, T>, prefilled: seq<(ID, T)>, list: seq<ID>)
  {
    Sorted(list) && multiset(list) == multiset(pool.Keys) + multiset(Extra(pool.Keys, prefilled))
  }

  method ReceiverList<T>(pool: map<ID, T>, prefilled: seq<(ID, T)>) returns (list: seq<ID>, byID: map<ID, T>)
    ensures IsReceiverList(pool, prefilled, list) && Sorted(list) && byID == PrefilledMap(prefilled)
  {
    hide Sorted, StrictlySorted, Compare;
    var extra := [];
    byID := map[];
    for i := 0 to |prefilled|
      invariant byID == PrefilledMap(prefilled[..i]) && extra == Extra(pool.Keys, prefilled[..i])
    {
      var (id, tx) := prefilled[i];
      assert prefilled[..i + 1][..i] == prefilled[..i];
      if id !in pool {
        extra := extra + [id];
      }
      byID := byID[id := tx];
    }
    assert prefilled[..|prefilled|] == prefilled;
    list := SortTxids(pool.Keys, extra);
  }

  lemma InReceiverList<T>(pool: map<ID, T>, prefilled: seq<(ID, T)>, list: seq<ID>, id: ID)
    requires IsReceiverList(pool, prefilled, list)
    ensures id in list <==> id in pool || id in PrefilledMap(prefilled)
  {
    assert id in list <==> id in multiset(list);
    assert id in Extra(pool.Keys, prefilled) <==> id in multiset(Extra(pool.Keys, prefilled));
  }

  /** The cursor only comes to the end of the list if the top ID is not in it. */
  lemma EndMeansNoTop(list: seq<ID>, cursor: nat, prefix: Bytes)
    requires Sorted(list) && cursor <= |list| && |prefix| <= 32 && (cursor == |list| ==> ALL_ONES !in list)
    ensures Stop(list, cursor, prefix) == |list| ==> ALL_ONES !in list
  {
    hide Compare, Stop, ALL_ONES;
    if cursor < |list| && Stop(list, cursor, prefix) == |list| && ALL_ONES in list {
      var j :| 0 <= j < |list| && list[j] == ALL_ONES;
      TopIsLast(list, j);
      BelowTop(prefix);
      assert false;
    }
  }

  lemma TopIsLast(list: seq<ID>, j: nat)
    requires Sorted(list) && j < |list| && list[j] == ALL_ONES
    ensures list[|list| - 1] == ALL_ONES
  {
    hide Compare;
    OnesAreGreatest(list[|list| - 1], ALL_ONES);
    Antisymmetric(list[|list| - 1], ALL_ONES);
  }

  lemma TopIsOnes()
    ensures forall i :: 0 <= i < 32 ==> ALL_ONES[i] == 0xff
  {
  }

  lemma BelowTop(prefix: Bytes)
    requires |prefix| <= 32
    ensures Compare(prefix, ALL_ONES[..|prefix|]) <= 0
  {
    TopIsOnes();
    hide Compare, ALL_ONES;
    OnesAreGreatest(prefix, ALL_ONES[..|prefix|]);
  }

  /** Looks the prefix up with the cursor where it stands. */
  method LookUp<T>(pool: map<ID, T>, prefilled: map<ID, T>, mempoolTxs: seq<ID>, cursor: nat, stack: Bytes)
      returns (c: nat, tx: Option<T>, again: bool)
    requires |mempoolTxs| > 0 && mempoolTxs[|mempoolTxs| - 1] == ALL_ONES && cursor < |mempoolTxs| && |stack| <= 32
    requires Sorted(mempoolTxs[..|mempoolTxs| - 1])
    requires forall id :: id in mempoolTxs[..|mempoolTxs| - 1] <==> id in pool || id in prefilled
    requires cursor == |mempoolTxs| - 1 ==> ALL_ONES !in mempoolTxs[..|mempoolTxs| - 1]
    ensures c < |mempoolTxs| && c == Stop(mempoolTxs[..|mempoolTxs| - 1], cursor, stack)
    ensures c == |mempoolTxs| - 1 ==> ALL_ONES !in mempoolTxs[..|mempoolTxs| - 1]
    ensures var o := OutcomeAt(mempoolTxs[..|mempoolTxs| - 1], c, stack);
      tx == Placed(pool, prefilled, o) && (again <==> o == Requested)
  {
    hide Compare, Sorted, ALL_ONES, Stop;
    ghost var list := mempoolTxs[..|mempoolTxs| - 1];
    EndMeansNoTop(list, cursor, stack);
    c := Advance(mempoolTxs, cursor, stack);
    tx, again := None, false;
    if Compare(stack, mempoolTxs[c][..|stack|]) != 0 {
      again := true;
    } else if c + 2 < |mempoolTxs| && mempoolTxs[c + 1][..|stack|] == stack {
      again := true;
    } else if mempoolTxs[c] in prefilled {
      tx := Some(prefilled[mempoolTxs[c]]);
    } else if mempoolTxs[c] in pool {
      tx := Some(pool[mempoolTxs[c]]);
    }
  }

  /** What is left of the message at three read positions. */
  function Left(m: Stream, popi: nat, pushi: nat, pushbi: nat): (rest: Stream)
    requires popi <= |m.pops| && pushi <= |m.pushes| && pushbi <= |m.bytes|
  {
    Stream(m.pops[popi..], m.pushes[pushi..], m.bytes[pushbi..])
  }

  /** Reads the next prefix. */
  method ReadNext(m: Stream, stack: Bytes, popi: nat, pushi: nat, pushbi: nat)
      returns (ok: bool, prefix: Bytes, popi': nat, pushi': nat, pushbi': nat)
    requires popi <= |m.pops| && pushi <= |m.pushes| && pushbi <= |m.bytes|
    ensures ok ==> popi' <= |m.pops| && pushi' <= |m.pushes| && pushbi' <= |m.bytes| && |prefix| <= 32
    ensures ReadPrefix(stack, Left(m, popi, pushi, pushbi)) ==
      if ok then Some((prefix, Left(m, popi', pushi', pushbi'))) else None
  {
    hide Trim, Run;
    ok, prefix, popi' := ReadPops(stack, m.pops, popi);
    pushi', pushbi' := pushi, pushbi;
    if !ok {
      return;
    }
    ok, prefix, pushi', pushbi' := ReadPushes(prefix, m.pushes, pushi, m.bytes, pushbi);
    ok := ok && |prefix| <= 32;
  }

  /** Where the cursor is after these prefixes. */
  function CursorFrom(list: seq<ID>, cursor: nat, prefixes: seq<Bytes>): (c: nat)
    requires cursor <= |list| && NoneTooLong(prefixes)
    ensures c <= |list|
    decreases |prefixes|
  {
    if prefixes == [] then cursor else CursorFrom(list, Stop(list, cursor, prefixes[0]), prefixes[1..])
  }

  lemma {:induction false} OneMoreOutcome(list: seq<ID>, cursor: nat, prefixes: seq<Bytes>, prefix: Bytes)
    requires cursor <= |list| && NoneTooLong(prefixes) && |prefix| <= 32
    ensures NoneTooLong(prefixes + [prefix])
    ensures var c := CursorFrom(list, cursor, prefixes);
      && CursorFrom(list, cursor, prefixes + [prefix]) == Stop(list, c, prefix)
      && Outcomes(list, cursor, prefixes + [prefix]) ==
           Outcomes(list, cursor, prefixes) + [OutcomeAt(list, Stop(list, c, prefix), prefix)]
    decreases |prefixes|
  {
    hide OutcomeAt, Stop;
    if prefixes != [] {
      assert (prefixes + [prefix])[1..] == prefixes[1..] + [prefix];
      OneMoreOutcome(list, Stop(list, cursor, prefixes[0]), prefixes[1..], prefix);
    }
  }

  /** DecodeXthinner; None where the message runs out or its stack operations make no sense. */
  method DecodeXthinner<T>(pool: map<ID, T>, prefilledTxs: seq<(ID, T)>, blk: Message)
      returns (r: Option<Decoded<T>>, ghost list: seq<ID>)
    ensures r == None <==> Replay(blk.txCount, [], blk.Contents()) == None
    ensures r.Some? ==> |r.value.transactions| == blk.txCount
    ensures IsReceiverList(pool, prefilledTxs, list)
    ensures match Replay(blk.txCount, [], blk.Contents())
      case None => r == None
      case Some(prefixes) =>
        NoneTooLong(prefixes)
        && r == Some(DecodedFrom(pool, PrefilledMap(prefilledTxs), Outcomes(list, 0, prefixes)))
  {
    hide Compare, Sorted, ALL_ONES, Stop, Extra, PrefilledMap, BitsOf, ReadPrefix, OutcomeAt, Left, Replay;
    hide Outcomes, IsReceiverList;
    var pops := DecodeBitmap(blk.pops);
    var pushes := DecodeBitmap(blk.pushes);
    var m := Stream(pops, pushes, blk.pushBytes);
    var mempoolTxs, prefilled := ReceiverList(pool, prefilledTxs);
    list := mempoolTxs;
    NothingDecoded(pool, prefilled, list);
    mempoolTxs := mempoolTxs + [ALL_ONES];
    assert mempoolTxs[..|mempoolTxs| - 1] == list;
    forall id ensures id in list <==> id in pool || id in prefilled {
      InReceiverList(pool, prefilledTxs, list, id);
    }
    var popi: nat, pushi: nat, pushbi: nat, cursor: nat := 0, 0, 0, 0;
    var stack: Bytes, rerequests: seq<nat> := [], [];
    var transactions: seq<Option<T>> := [];
    ghost var done: seq<Bytes> := [];
    WholeLeft(m, blk.txCount);
    for pos := 0 to blk.txCount
      invariant popi <= |pops| && pushi <= |pushes| && pushbi <= |blk.pushBytes| && |stack| <= 32
      invariant cursor <= |list| && (cursor == |list| ==> ALL_ONES !in list)
      invariant |done| == pos && NoneTooLong(done) && cursor == CursorFrom(list, 0, done)
      invariant Decoded(transactions, rerequests) == DecodedFrom(pool, prefilled, Outcomes(list, 0, done))
      invariant Replay(blk.txCount, [], m) == Then(done, Replay(blk.txCount - pos, stack, Left(m, popi, pushi, pushbi)))
    {
      ghost var before := Left(m, popi, pushi, pushbi);
      var ok, prefix;
      ok, prefix, popi, pushi, pushbi := ReadNext(m, stack, popi, pushi, pushbi);
      if !ok {
        NoPrefix(stack, before, blk.txCount - pos);
        return None, list;
      }
      StepReplay(done, blk.txCount - pos, stack, before, prefix, Left(m, popi, pushi, pushbi));
      OneMoreOutcome(list, 0, done, prefix);
      OneMoreDecoded(pool, prefilled, Outcomes(list, 0, done), OutcomeAt(list, Stop(list, cursor, prefix), prefix));
      stack := prefix;
      var tx, again;
      cursor, tx, again := LookUp(pool, prefilled, mempoolTxs, cursor, stack);
      transactions := transactions + [tx];
      if again {
        rerequests := rerequests + [pos];
      }
      done := done + [prefix];
    }
    AllReplayed(done, stack, Left(m, popi, pushi, pushbi));
    r := Some(Decoded(transactions, rerequests));
  }

  lemma NothingDecoded<T>(pool: map<ID, T>, prefilled: map<ID, T>, list: seq<ID>)
    ensures DecodedFrom(pool, prefilled, Outcomes(list, 0, [])) == Decoded([], [])
  {
  }

  lemma AllReplayed(done: seq<Bytes>, stack: Bytes, rest: Stream)
    ensures Then(done, Replay(0, stack, rest)) == Some(done)
  {
    assert done + [] == done;
  }

  lemma WholeLeft(m: Stream, count: nat)
    ensures Left(m, 0, 0, 0) == m
    ensures Replay(count, [], m) == Then([], Replay(count, [], m))
  {
    var r := Replay(count, [], m);
    assert r.Some? ==> [] + r.value == r.value;
  }

  lemma NoPrefix(stack: Bytes, m: Stream, count: nat)
    requires count > 0 && ReadPrefix(stack, m) == None
    ensures Replay(count, stack, m) == None
  {
  }

  lemma StepReplay(done: seq<Bytes>, count: nat, stack: Bytes, m: Stream, prefix: Bytes, rest: Stream)
    requires count > 0 && ReadPrefix(stack, m) == Some((prefix, rest))
    ensures Then(done, Replay(count, stack, m)) == Then(done + [prefix], Replay(count - 1, prefix, rest))
  {
    hide ReadPrefix;
    ReplayOne(stack, m, prefix, rest, count - 1);
    var r := Replay(count - 1, prefix, rest);
    assert r.Some? ==> done + ([prefix] + r.value) == done + [prefix] + r.value;
  }

  function DecodedFrom<T>(pool: map<ID, T>, prefilled: map<ID, T>, o: seq<Outcome>): (d: Decoded<T>)
  {
    Decoded(seq(|o|, i requires 0 <= i < |o| => Placed(pool, prefilled, o[i])), Requests(o))
  }

  lemma OneMoreDecoded<T>(pool: map<ID, T>, prefilled: map<ID, T>, o: seq<Outcome>, last: Outcome)
    ensures var d, e := DecodedFrom(pool, prefilled, o), DecodedFrom(pool, prefilled, o + [last]);
      && e.transactions == d.transactions + [Placed(pool, prefilled, last)]
      && e.rerequests == d.rerequests + if last == Requested then [|o|] else []
  {
    assert (o + [last])[..|o|] == o;
  }

  // ---------- The round trip ----------

  /**
   The prefixes that name a sorted block's transactions in the sender's pool start no
   other transaction of the block.
   */
  lemma NamesArePrefixes(sender: set<ID>, ids: seq<ID>, prefixes: seq<Bytes>)
    requires StrictlySorted(ids) && NamedBy(sender, ids, prefixes)
    ensures PrefixesOf(ids, prefixes)
  {
    hide Compare, HasPrefix, NoLongerThanNeeded;
    forall i | 0 <= i < |ids| ensures |prefixes[i]| <= 32 {
      assert Names(sender, ids[i], prefixes[i]);
    }
    forall i, j | 0 <= i < |ids| && 0 <= j < |ids| ensures HasPrefix(ids[j], prefixes[i]) <==> i == j {
      assert Names(sender, ids[i], prefixes[i]) && Names(sender, ids[j], prefixes[j]);
      if i < j {
        OrderOf(ids, i, j);
      } else if j < i {
        OrderOf(ids, j, i);
      }
    }
  }

  ghost predicate SeveralHave(list: seq<ID>, prefix: Bytes)
  {
    exists i, j :: 0 <= i < j < |list| && HasPrefix(list[i], prefix) && HasPrefix(list[j], prefix)
  }

  /**
   What the receiver makes of one transaction of the block: it is asked for
   again exactly if several of the receiver's transactions have its prefix, or
   none has and the prefix is not all ones; and if exactly one has, that one is
   placed.  For a transaction that the receiver has this is the right one.
   */
  ghost predicate Delivered<T>(receiver: map<ID, T>, prefilled: map<ID, T>, list: seq<ID>, id: ID, prefix: Bytes,
                               tx: Option<T>, again: bool)
  {
    && (again <==> SeveralHave(list, prefix) || (NoneHas(list, prefix) && !HasPrefix(ALL_ONES, prefix)))
    && (again || NoneHas(list, prefix) ==> tx == None)
    && (forall i :: OnlyAt(list, i, prefix) ==> tx == TxOf(receiver, prefilled, list[i]))
    && (id in list ==> (again <==> SeveralHave(list, prefix)) && (again || tx == TxOf(receiver, prefilled, id)))
  }

  lemma DeliveredBy<T>(receiver: map<ID, T>, prefilled: map<ID, T>, list: seq<ID>, sender: set<ID>, id: ID,
                       prefix: Bytes, o: Outcome)
    requires Names(sender, id, prefix) && Means(list, prefix, o)
    ensures Delivered(receiver, prefilled, list, id, prefix, Placed(receiver, prefilled, o), o == Requested)
  {
    HasSomeCount(list, prefix);
    hide HasPrefix, ALL_ONES, TxOf;
    assert HasPrefix(id, prefix);
    if id in list {
      var k :| 0 <= k < |list| && list[k] == id;
      assert !NoneHas(list, prefix);
    }
  }

  /** None of the list has the prefix, exactly one place has it, or several have. */
  lemma HasSomeCount(list: seq<ID>, prefix: Bytes)
    ensures NoneHas(list, prefix) || SeveralHave(list, prefix) || exists i :: OnlyAt(list, i, prefix)
    ensures NoneHas(list, prefix) || SeveralHave(list, prefix) ==> forall i :: !OnlyAt(list, i, prefix)
    ensures !(NoneHas(list, prefix) && SeveralHave(list, prefix))
  {
    hide HasPrefix;
    forall i | OnlyAt(list, i, prefix) ensures !NoneHas(list, prefix) && !SeveralHave(list, prefix) {
      assert HasPrefix(list[i], prefix);
    }
    if !NoneHas(list, prefix) && !SeveralHave(list, prefix) {
      var k :| 0 <= k < |list| && HasPrefix(list[k], prefix);
      forall j | 0 <= j < |list| && j != k ensures !HasPrefix(list[j], prefix) {
        assert j < k || k < j;
      }
      assert OnlyAt(list, k, prefix);
    }
  }

  /** That says everything: the list and the prefix determine what is delivered. */
  lemma OneDelivery<T>(receiver: map<ID, T>, prefilled: map<ID, T>, list: seq<ID>, id: ID, prefix: Bytes,
                       tx: Option<T>, again: bool, tx': Option<T>, again': bool)
    requires Delivered(receiver, prefilled, list, id, prefix, tx, again)
    requires Delivered(receiver, prefilled, list, id, prefix, tx', again')
    ensures again == again' && tx == tx'
  {
    HasSomeCount(list, prefix);
    hide HasPrefix, ALL_ONES, TxOf;
  }

  /**
   Encoding and decoding again, for a sorted block and any receiver.  Between
   equal pools nothing is asked for and every place holds its transaction.
   */
  method Relay<T>(sender: map<ID, T>, receiver: map<ID, T>, prefilled: seq<(ID, T)>, blkIds: seq<ID>)
      returns (msg: Option<Message>, r: Option<Decoded<T>>, ghost prefixes: seq<Bytes>, ghost list: seq<ID>)
    requires StrictlySorted(blkIds)
    ensures msg.None? <==> exists i :: 0 <= i < |blkIds| && blkIds[i] !in sender
    ensures msg.Some? ==>
      && NamedBy(sender.Keys, blkIds, prefixes) && IsReceiverList(receiver, prefilled, list)
      && r.Some? && |r.value.transactions| == |blkIds|
      && forall i :: 0 <= i < |blkIds| ==>
           Delivered(receiver, PrefilledMap(prefilled), list, blkIds[i], prefixes[i],
                     r.value.transactions[i], i in r.value.rerequests)
    ensures msg.Some? && sender == receiver && prefilled == [] ==>
      && r.value.rerequests == []
      && forall i :: 0 <= i < |blkIds| ==> blkIds[i] in sender && r.value.transactions[i] == Some(sender[blkIds[i]])
  {
    hide Compare, HasPrefix, NamedBy, Names, Delivered, IsReceiverList, Outcomes, Replay, BitsOf;
    hide PrefilledMap, Means, ALL_ONES;
    ZeroOnlyFirst(blkIds);
    r, list := None, [];
    msg, prefixes := EncodeXthinner(sender.Keys, blkIds);
    if msg.None? {
      return;
    }
    r, list := DecodeXthinner(receiver, prefilled, msg.value);
    AllDelivered(receiver, PrefilledMap(prefilled), prefilled, list, sender.Keys, blkIds, prefixes);
    if sender == receiver && prefilled == [] {
      Memberless(r.value.rerequests);
      forall i | 0 <= i < |blkIds|
        ensures i !in r.value.rerequests && r.value.transactions[i] == Some(sender[blkIds[i]]) {
        NamedEach(sender.Keys, blkIds, prefixes, i);
        EqualPools(sender, list, blkIds[i], prefixes[i], r.value.transactions[i], i in r.value.rerequests);
      }
    }
  }

  lemma Memberless(s: seq<nat>)
    ensures s == [] || s[0] in s
  {
  }

  lemma NamedEach(pool: set<ID>, ids: seq<ID>, prefixes: seq<Bytes>, i: nat)
    requires NamedBy(pool, ids, prefixes) && i < |ids|
    ensures Names(pool, ids[i], prefixes[i]) && ids[i] in pool
  {
  }

  lemma ZeroOnlyFirst(ids: seq<ID>)
    requires StrictlySorted(ids)
    ensures forall i :: 0 < i < |ids| ==> ids[i] != ZERO_ID
  {
    hide Compare, ZERO_ID;
    forall i | 0 < i < |ids| ensures ids[i] != ZERO_ID {
      if ids[i] == ZERO_ID {
        assert Compare(ids[0], ids[i]) < 0;
        ZeroLeast(ids[0]);
        Antisymmetric(ids[0], ZERO_ID);
        assert false;
      }
    }
  }

  lemma ZeroLeast(id: ID)
    ensures Compare(ZERO_ID, id) <= 0
  {
    hide Compare;
    ZeroIsLeast(id, ZERO_ID);
  }

  lemma AllDelivered<T>(receiver: map<ID, T>, byID: map<ID, T>, prefilled: seq<(ID, T)>, list: seq<ID>,
                        sender: set<ID>, ids: seq<ID>, prefixes: seq<Bytes>)
    requires StrictlySorted(ids) && NamedBy(sender, ids, prefixes) && IsReceiverList(receiver, prefilled, list)
    ensures NoneTooLong(prefixes)
    ensures var d := DecodedFrom(receiver, byID, Outcomes(list, 0, prefixes));
      && |d.transactions| == |ids| && (forall i :: i in d.rerequests ==> i < |ids|)
      && forall i :: 0 <= i < |ids| ==>
           Delivered(receiver, byID, list, ids[i], prefixes[i], d.transactions[i], i in d.rerequests)
  {
    NamesArePrefixes(sender, ids, prefixes);
    OutcomesMean(list, 0, ids, prefixes);
    hide Compare, HasPrefix, Delivered, Outcomes, Names, NoLongerThanNeeded, Means, Placed;
    var o := Outcomes(list, 0, prefixes);
    forall i | 0 <= i < |ids|
      ensures Delivered(receiver, byID, list, ids[i], prefixes[i],
                        Placed(receiver, byID, o[i]), i in Requests(o)) {
      RequestsAre(o, i);
      DeliveredBy(receiver, byID, list, sender, ids[i], prefixes[i], o[i]);
    }
    forall i: nat | i in Requests(o) ensures i < |ids| {
      RequestsAre(o, i);
    }
  }

  /** Between equal pools nothing is asked for again: every place holds its transaction. */
  lemma EqualPools<T>(pool: map<ID, T>, list: seq<ID>, id: ID, prefix: Bytes, tx: Option<T>, again: bool)
    requires Names(pool.Keys, id, prefix) && IsReceiverList(pool, [], list)
    requires Delivered(pool, map[], list, id, prefix, tx, again)
    ensures !again && tx == Some(pool[id])
  {
    hide Sorted, HasPrefix, Compare;
    InReceiverList(pool, [], list, id);
    if again {
      var i, j :| 0 <= i < j < |list| && HasPrefix(list[i], prefix) && HasPrefix(list[j], prefix);
      InReceiverList(pool, [], list, list[i]);
      InReceiverList(pool, [], list, list[j]);
      assert list[i] == id && list[j] == id;
      Twice(list, i, j);
    }
  }

  lemma Twice(s: seq<ID>, i: nat, j: nat)
    requires i < j < |s| && s[i] == s[j]
    ensures multiset(s)[s[i]] >= 2
  {
    assert s == s[..j] + s[j..];
    assert s[..j][i] in multiset(s[..j]) && s[j..][0] in multiset(s[j..]);
  }

  /** A transaction the receiver lacks, with a prefix of all ones, is neither found nor asked for again. */
  lemma MissedSilently(id: ID)
    requires id[0] == 0xff
    ensures Names({id}, id, [0xff]) && IsReceiverList<nat>(map[], [], [])
    ensures DecodedFrom<nat>(map[], map[], Outcomes([], 0, [[0xff]])) == Decoded([None], [])
  {
    assert [[0xff as bv8]][1..] == [];
    var o := Outcomes([], 0, [[0xff]]);
    assert o == [Blank];
    assert Requests(o[..0]) == [];
  }

  /** A transaction the receiver lacks, whose prefix one other of its transactions has, is taken to be that one. */
  lemma Misplaced(id: ID, other: ID, tx: nat)
    requires id[0] == other[0] == 0x12 && id != other
    ensures Names({id}, id, [0x12]) && IsReceiverList(map[other := tx], [], [other])
    ensures DecodedFrom(map[other := tx], map[], Outcomes([other], 0, [[0x12]])) == Decoded([Some(tx)], [])
  {
    assert [[0x12 as bv8]][1..] == [];
    assert other[..1] == [0x12];
    var o := Outcomes([other], 0, [[0x12]]);
    assert o == [Found(other)];
    assert Requests(o[..0]) == [];
    assert multiset([other]) == multiset{other};
  }
}
