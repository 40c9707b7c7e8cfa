/**
 The TXO accumulator (blockchain/accumulator.go): a Merkle Mountain Range that
 keeps inclusion proofs for the elements it was asked to protect up to date
 while later elements are inserted.
 */
module Accumulators {
  import opened Prelude
  import opened Hashes
  import opened Merkle
  import opened MountainRange
  import opened Inclusion

  datatype InclusionProof = InclusionProof(id: Hash, hashes: seq<Hash>, flags: Word, index: nat, last: Option<Hash>)
  {
    function Steps(): (steps: seq<Step>)
    {
      StepsOf(hashes, flags)
    }
  }

  /** A nil slice copied into 32 bytes: all zeros. */
  function Bytes(b: Option<Hash>): (h: Hash)
  {
    match b
    case None => Raw(0)
    case Some(h) => h
  }

  // ---------- What the fields stand for ----------

  /** Slot `k` holds the peak of height `k`, or nil when there is none. */
  ghost predicate SlotsHold(slots: seq<Option<Hash>>, elems: seq<Hash>)
  {
    |slots| >= 1 && Level(Leaves(elems), |slots|) == [] &&
    forall k :: 0 <= k < |slots| ==> slots[k] == PeakAt(Leaves(elems), k)
  }

  /** The parts of a tracked proof that hold before, during and after an insertion. */
  ghost predicate WellFormed(key: Hash, p: InclusionProof)
  {
    && key == Leaf(p.index, p.id)
    && (forall b :: b in p.flags ==> b < |p.hashes|)
    && p.last == if p.hashes == [] then None else Some(Climb(key, p.Steps()))
  }

  /** The proof leads the element with its index to the peak above it. */
  ghost predicate Tracks(elems: seq<Hash>, key: Hash, p: InclusionProof)
  {
    && WellFormed(key, p)
    && p.index < |elems| && p.id == elems[p.index]
    && IsPath(Leaves(elems), p.index, p.Steps())
  }

  ghost predicate AllTrack(elems: seq<Hash>, proofs: map<Hash, InclusionProof>)
  {
    forall key :: key in proofs ==> Tracks(elems, key, proofs[key])
  }

  /** Every looked-up index is the index of a tracked proof of that element. */
  ghost predicate LookupsTracked(lookupMap: map<Hash, nat>, proofs: map<Hash, InclusionProof>)
  {
    forall data :: data in lookupMap ==> Leaf(lookupMap[data], data) in proofs
  }

  // ---------- One insertion ----------

  /**
   The state of a tracked proof when insertion has merged the peaks below height
   `h`.  Leaves of a higher peak still have their old path.  The others have
   their path up to the carried tree, and one step further if that tree is about
   to be merged with a peak of its own height.
   */
  ghost predicate Midway(elems: seq<Hash>, data: Hash, h: nat, key: Hash, p: InclusionProof)
  {
    var leaves, grown := Leaves(elems), Leaves(elems + [data]);
    var peak := if IsPeak(leaves, h) then 1 else 0;
    && WellFormed(key, p)
    && p.index <= |elems| && p.id == (elems + [data])[p.index]
    && PathPrefix(grown, p.index, p.Steps())
    && ((|p.hashes| > h && p.index < |elems| && UnderPeak(leaves, |p.hashes|, p.index))
        || (|p.hashes| == h + peak && |Level(leaves, h)| - peak <= Ancestor(p.index, h) <= |Level(leaves, h)|))
  }

  /** The update that the inner loop makes to one proof after the merge at height `h` produced `n`. */
  function Advanced(p: InclusionProof, n: Hash, above: Option<Hash>, h: nat, accLen: nat): (q: InclusionProof)
  {
    var l := |p.hashes|;
    if l > 0 && h + 1 >= l && h + 1 <= accLen then
      if p.last != Some(n) then
        p.(hashes := p.hashes + [n], last := Some(Node(Bytes(p.last), n)), flags := p.flags + OneBit(l))
      else if above == None then p
      else p.(hashes := p.hashes + [above.value], last := Some(Node(above.value, Bytes(p.last))))
    else p
  }

  lemma GrownLeaves(elems: seq<Hash>, data: Hash)
    ensures Leaves(elems + [data]) == Leaves(elems) + [Leaf(|elems|, data)]
  {
  }

  /** Appending one sibling to a proof appends one step. */
  lemma ExtendProof(key: Hash, p: InclusionProof, sibling: Hash, onRight: bool)
    requires WellFormed(key, p) && |p.hashes| < WORD_BITS
    ensures var flags := if onRight then p.flags + OneBit(|p.hashes|) else p.flags;
      && StepsOf(p.hashes + [sibling], flags) == p.Steps() + [Step(sibling, onRight)]
      && Climb(key, StepsOf(p.hashes + [sibling], flags)) == Apply(Climb(key, p.Steps()), Step(sibling, onRight))
  {
    var flags := if onRight then p.flags + OneBit(|p.hashes|) else p.flags;
    assert StepsOf(p.hashes + [sibling], flags) == p.Steps() + [Step(sibling, onRight)];
    ClimbSnoc(key, p.Steps(), Step(sibling, onRight));
  }

  lemma ExtendPrefix(leaves: seq<Hash>, i: nat, steps: seq<Step>)
    requires PathPrefix(leaves, i, steps)
    requires Ancestor(i, |steps|) < |Level(leaves, |steps|)| && !UnderPeak(leaves, |steps|, i)
    ensures PathPrefix(leaves, i, steps + [PathStep(leaves, |steps|, i)])
  {
  }

  /** The carried hash moves up one level when it is merged with the peak it meets. */
  lemma CarryUp(elems: seq<Hash>, data: Hash, h: nat, carry: Hash)
    requires IsPeak(Leaves(elems), h)
    requires Level(Leaves(elems + [data]), h) == Level(Leaves(elems), h) + [carry]
    ensures var n := Node(PeakAt(Leaves(elems), h).value, carry);
      Level(Leaves(elems + [data]), h + 1) == Level(Leaves(elems), h + 1) + [n]
  {
    NextOfAppend(Level(Leaves(elems), h), carry);
  }

  /** A proof of length `h + 1` belongs to the carried tree or to the peak of that height. */
  lemma CarriedOrPeak(elems: seq<Hash>, data: Hash, h: nat, key: Hash, p: InclusionProof)
    requires Midway(elems, data, h, key, p) && |p.hashes| == h + 1
    ensures Ancestor(p.index, h + 1) == |Level(Leaves(elems), h + 1)|
         || (p.index < |elems| && UnderPeak(Leaves(elems), h + 1, p.index))
  {
    var below, a := |Level(Leaves(elems), h)|, Ancestor(p.index, h);
    assert Ancestor(p.index, h + 1) == a / 2 && |Level(Leaves(elems), h + 1)| == below / 2;
    assert below % 2 == 1 && below - 1 <= a <= below ==> a / 2 == below / 2;
  }

  /** `last` is the ancestor that the proof has reached, so it tells the two kinds of leaf apart. */
  lemma LastIsAncestor(elems: seq<Hash>, data: Hash, h: nat, n: Hash, key: Hash, p: InclusionProof)
    requires WellFormed(key, p) && |p.hashes| == h + 1
    requires p.index <= |elems| && p.id == (elems + [data])[p.index]
    requires PathPrefix(Leaves(elems + [data]), p.index, p.Steps())
    requires Level(Leaves(elems + [data]), h + 1) == Level(Leaves(elems), h + 1) + [n]
    ensures p.last == Some(n) <==> Ancestor(p.index, h + 1) == |Level(Leaves(elems), h + 1)|
  {
    hide Level, Ancestor;
    var grown, steps := Leaves(elems + [data]), p.Steps();
    var level, a, up := Level(grown, h + 1), Ancestor(p.index, h + 1), |Level(Leaves(elems), h + 1)|;
    assert |steps| == h + 1 && grown[p.index] == key;
    assert a < |level| && p.last == Some(level[a]) by {
      PathPrefixClimbs(grown, p.index, steps);
    }
    assert level[up] == n;
    LevelDistinct(elems + [data], h + 1);
  }

  /** One more sibling of the leaf's path keeps a proof well-formed and on its path. */
  lemma TakeStep(elems: seq<Hash>, key: Hash, p: InclusionProof, s: Step)
    requires WellFormed(key, p) && p.index < |elems| && p.id == elems[p.index] && p.hashes != []
    requires |p.hashes| < WORD_BITS && PathPrefix(Leaves(elems), p.index, p.Steps())
    requires Ancestor(p.index, |p.hashes|) < |Level(Leaves(elems), |p.hashes|)|
    requires !UnderPeak(Leaves(elems), |p.hashes|, p.index) && s == PathStep(Leaves(elems), |p.hashes|, p.index)
    ensures var q := Taken(p, s);
      WellFormed(key, q) && PathPrefix(Leaves(elems), p.index, q.Steps())
  {
    ExtendProof(key, p, s.sibling, s.onRight);
    ExtendPrefix(Leaves(elems), p.index, p.Steps());
  }

  function Taken(p: InclusionProof, s: Step): (q: InclusionProof)
  {
    p.(hashes := p.hashes + [s.sibling],
       last := Some(Apply(Bytes(p.last), s)),
       flags := if s.onRight then p.flags + OneBit(|p.hashes|) else p.flags)
  }

  /** A leaf of the peak that is merged next gets the carried tree as its right sibling. */
  lemma AdvanceRight(elems: seq<Hash>, data: Hash, h: nat, n: Hash, key: Hash, p: InclusionProof)
    requires Midway(elems, data, h, key, p) && |p.hashes| == h + 1 < WORD_BITS
    requires Level(Leaves(elems + [data]), h + 1) == Level(Leaves(elems), h + 1) + [n]
    requires p.index < |elems| && UnderPeak(Leaves(elems), h + 1, p.index)
    ensures Midway(elems, data, h + 1, key, Taken(p, Step(n, true)))
  {
    hide Level, Ancestor;
    var grown := Leaves(elems + [data]);
    var a := Ancestor(p.index, h + 1);
    assert a % 2 == 0 && |Level(grown, h + 1)| == a + 2 && Level(grown, h + 1)[a + 1] == n;
    TakeStep(elems + [data], key, p, Step(n, true));
  }

  /** A leaf of the carried tree gets the peak of its height, if there is one, as its left sibling. */
  lemma AdvanceLeft(elems: seq<Hash>, data: Hash, h: nat, n: Hash, peak: Hash, key: Hash, p: InclusionProof)
    requires Midway(elems, data, h, key, p) && |p.hashes| == h + 1 < WORD_BITS
    requires Level(Leaves(elems + [data]), h + 1) == Level(Leaves(elems), h + 1) + [n]
    requires PeakAt(Leaves(elems), h + 1) == Some(peak)
    requires Ancestor(p.index, h + 1) == |Level(Leaves(elems), h + 1)|
    ensures Midway(elems, data, h + 1, key, Taken(p, Step(peak, false)))
  {
    hide Level, Ancestor;
    var grown := Leaves(elems + [data]);
    var a := Ancestor(p.index, h + 1);
    assert a % 2 == 1 && |Level(grown, h + 1)| == a + 1 && Level(grown, h + 1)[a - 1] == peak;
    TakeStep(elems + [data], key, p, Step(peak, false));
  }

  /** The merge at height `h` and the update after it take every proof to the next height. */
  lemma AdvanceKeepsMidway(elems: seq<Hash>, data: Hash, h: nat, n: Hash, accLen: nat, key: Hash, p: InclusionProof)
    requires Midway(elems, data, h, key, p) && IsPeak(Leaves(elems), h) && h + 1 <= accLen
    requires Level(Leaves(elems + [data]), h + 1) == Level(Leaves(elems), h + 1) + [n]
    requires h + 1 < WORD_BITS
    ensures Midway(elems, data, h + 1, key, Advanced(p, n, PeakAt(Leaves(elems), h + 1), h, accLen))
  {
    var leaves := Leaves(elems);
    if |p.hashes| <= h + 1 {
      CarriedOrPeak(elems, data, h, key, p);
      LastIsAncestor(elems, data, h, n, key, p);
      if p.last != Some(n) {
        AdvanceRight(elems, data, h, n, key, p);
      } else if IsPeak(leaves, h + 1) {
        AdvanceLeft(elems, data, h, n, PeakAt(leaves, h + 1).value, key, p);
      }
    }
  }

  /** When no peak of the carried tree's height is left, every proof is complete. */
  lemma MidwayEnds(elems: seq<Hash>, data: Hash, h: nat, carry: Hash, key: Hash, p: InclusionProof)
    requires Midway(elems, data, h, key, p) && !IsPeak(Leaves(elems), h)
    requires Level(Leaves(elems + [data]), h) == Level(Leaves(elems), h) + [carry]
    ensures Tracks(elems + [data], key, p)
  {
    var leaves := Leaves(elems);
    GrownLeaves(elems, data);
    if |p.hashes| > h {
      LevelsAboveCarry(leaves, Leaf(|elems|, data), h, |p.hashes|, carry);
    }
  }

  /** The slots after the carried hash came to rest at height `h`. */
  lemma SlotsAfterCarry(elems: seq<Hash>, data: Hash, h: nat, carry: Hash, slots: seq<Option<Hash>>, len0: nat)
    requires |slots| >= h + 2 && |slots| >= len0 && Level(Leaves(elems), len0) == []
    requires forall k :: 0 <= k < h ==> IsPeak(Leaves(elems), k) && slots[k] == None
    requires !IsPeak(Leaves(elems), h) && slots[h] == Some(carry)
    requires forall k :: h < k < |slots| ==> slots[k] == PeakAt(Leaves(elems), k)
    requires Level(Leaves(elems + [data]), h) == Level(Leaves(elems), h) + [carry]
    ensures SlotsHold(slots, elems + [data])
  {
    var leaves, grown, x := Leaves(elems), Leaves(elems + [data]), Leaf(|elems|, data);
    GrownLeaves(elems, data);
    forall k | 0 <= k < |slots| ensures slots[k] == PeakAt(grown, k) {
      if k < h {
        CarryLowLevels(elems, data, k, h);
      } else if k > h {
        LevelsAboveCarry(leaves, x, h, k, carry);
      }
    }
    LevelsAboveCarry(leaves, x, h, |slots|, carry);
    LevelsStayEmpty(leaves, len0);
  }

  /** Below the carried tree every level gained one hash and so became even. */
  lemma {:induction false} CarryLowLevels(elems: seq<Hash>, data: Hash, k: nat, h: nat)
    requires k < h && forall j :: 0 <= j < h ==> IsPeak(Leaves(elems), j)
    ensures |Level(Leaves(elems + [data]), k)| == |Level(Leaves(elems), k)| + 1
  {
    GrownLeaves(elems, data);
    if k > 0 {
      CarryLowLevels(elems, data, k - 1, h);
      assert IsPeak(Leaves(elems), k - 1);
    }
  }

  lemma Pow2Byte(k: nat)
    ensures Pow2(k + 8) == 256 * Pow2(k)
  {
    assert Pow2(k + 2) == 4 * Pow2(k);
    assert Pow2(k + 4) == 4 * Pow2(k + 2);
    assert Pow2(k + 6) == 4 * Pow2(k + 4);
    assert Pow2(k + 8) == 4 * Pow2(k + 6);
  }

  lemma WordRange()
    ensures Pow2(WORD_BITS) == MAX_UINT64 + 1
  {
    assert Pow2(0) == 1;
    var k := 0;
    while k < WORD_BITS
      invariant k in {0, 8, 16, 24, 32, 40, 48, 56, 64}
      invariant k == 8 ==> Pow2(k) == 0x100
      invariant k == 0 ==> Pow2(k) == 1
      invariant k == 16 ==> Pow2(k) == 0x1_0000
      invariant k == 24 ==> Pow2(k) == 0x100_0000
      invariant k == 32 ==> Pow2(k) == 0x1_0000_0000
      invariant k == 40 ==> Pow2(k) == 0x100_0000_0000
      invariant k == 48 ==> Pow2(k) == 0x1_0000_0000_0000
      invariant k == 56 ==> Pow2(k) == 0x100_0000_0000_0000
      invariant k == 64 ==> Pow2(k) == 0x1_0000_0000_0000_0000
    {
      Pow2Byte(k);
      k := k + 8;
    }
  }

  /** A merge stays within the flag word, within the slots, and within the guard on the number of peaks. */
  lemma MergeFits(elems: seq<Hash>, data: Hash, h: nat, carry: Hash, slots: seq<Option<Hash>>)
    requires SlotsHold(slots, elems) && |elems| < MAX_UINT64
    requires forall k :: 0 <= k <= h ==> IsPeak(Leaves(elems), k)
    requires Level(Leaves(elems + [data]), h) == Level(Leaves(elems), h) + [carry]
    ensures h < |slots| && h + 1 <= CountNonNil(slots) && h + 1 < WORD_BITS
    ensures Level(Leaves(elems + [data]), h + 1)
         == Level(Leaves(elems), h + 1) + [Node(PeakAt(Leaves(elems), h).value, carry)]
  {
    hide Level, Pow2, Leaves, CountNonNil;
    CarryUp(elems, data, h, carry);
    var leaves := Leaves(elems);
    assert IsPeak(leaves, h);
    LevelsStayEmpty(leaves, |slots|);
    assert forall k :: 0 <= k < h + 1 ==> slots[k] != None by {
      forall k | 0 <= k < h + 1 ensures slots[k] != None {
        assert IsPeak(leaves, k) && slots[k] == PeakAt(leaves, k);
      }
    }
    CountAtLeast(slots, h + 1);
    WordRange();
    HeightBound(Leaves(elems + [data]), h + 1, WORD_BITS);
  }

  /** The slots while a tree `carry` of height `h` is looking for its place. */
  ghost predicate Carrying(elems: seq<Hash>, data: Hash, h: nat, carry: Hash, slots: seq<Option<Hash>>)
  {
    && (forall k :: 0 <= k < h && k < |slots| ==> slots[k] == None)
    && (forall k :: 0 <= k < h ==> IsPeak(Leaves(elems), k))
    && (forall k :: h <= k < |slots| ==> slots[k] == PeakAt(Leaves(elems), k))
    && Level(Leaves(elems + [data]), h) == Level(Leaves(elems), h) + [carry]
  }

  lemma FirstCarry(elems: seq<Hash>, data: Hash, slots: seq<Option<Hash>>)
    requires SlotsHold(slots, elems)
    ensures slots != [] && Carrying(elems, data, 0, Leaf(|elems|, data), slots)
  {
    GrownLeaves(elems, data);
  }

  /** Merging the carried tree with the peak in slot `h` carries it to height `h + 1`. */
  lemma CarryingMerge(elems: seq<Hash>, data: Hash, h: nat, carry: Hash, slots: seq<Option<Hash>>,
                      slots0: seq<Option<Hash>>)
    requires Carrying(elems, data, h, carry, slots) && h < |slots| && slots[h] != None
    requires SlotsHold(slots0, elems) && |slots0| <= |slots| && |elems| < MAX_UINT64
    ensures IsPeak(Leaves(elems), h)
    ensures h < |slots0| && h + 1 <= CountNonNil(slots0) && h + 1 < WORD_BITS
    ensures Level(Leaves(elems + [data]), h + 1) == Level(Leaves(elems), h + 1) + [Node(slots[h].value, carry)]
    ensures PeakAt(Leaves(elems), h + 1) == if h + 1 < |slots| then slots[h + 1] else None
    ensures Carrying(elems, data, h + 1, Node(slots[h].value, carry), Resized(slots, h)[h := None])
  {
    hide Level, Pow2, Leaves, CountNonNil;
    var leaves := Leaves(elems);
    assert slots[h] == PeakAt(leaves, h);
    MergeFits(elems, data, h, carry, slots0);
    LevelsStayEmpty(leaves, |slots0|);
  }

  /** Setting an empty slot to the carried tree finishes the insertion. */
  lemma CarryingEnds(elems: seq<Hash>, data: Hash, h: nat, carry: Hash, slots: seq<Option<Hash>>,
                     slots0: seq<Option<Hash>>)
    requires Carrying(elems, data, h, carry, slots) && h < |slots| && slots[h] == None
    requires SlotsHold(slots0, elems) && |slots0| <= |slots|
    ensures !IsPeak(Leaves(elems), h)
    ensures Level(Leaves(elems + [data]), h) == Level(Leaves(elems), h) + [carry]
    ensures SlotsHold(Resized(slots, h)[h := Some(carry)], elems + [data])
  {
    hide Level, Leaves;
    var leaves, bigger := Leaves(elems), Resized(slots, h)[h := Some(carry)];
    LevelsStayEmpty(leaves, |slots0|);
    assert slots[h] == PeakAt(leaves, h);
    forall k | h < k < |bigger| ensures bigger[k] == PeakAt(leaves, k) {
      assert k < |slots| ==> slots[k] == PeakAt(leaves, k);
    }
    SlotsAfterCarry(elems, data, h, carry, bigger, |slots0|);
  }

  function Resized(slots: seq<Option<Hash>>, pos: nat): (r: seq<Option<Hash>>)
    ensures |r| >= |slots|
  {
    if pos + 2 > |slots| then slots + [None, None] else slots
  }

  lemma KeysAreLeaves(elems: seq<Hash>, data: Hash, proofs: map<Hash, InclusionProof>)
    requires AllTrack(elems, proofs)
    ensures Raw(0) !in proofs && Leaf(|elems|, data) !in proofs
  {
    assert forall key :: key in proofs ==>
      key == Leaf(proofs[key].index, proofs[key].id) && proofs[key].index < |elems|;
  }

  /** A tracked leaf in slot 0 has no sibling yet and gets the new leaf on its right. */
  lemma StartFirst(elems: seq<Hash>, data: Hash, key: Hash, p: InclusionProof)
    requires Tracks(elems, key, p) && PeakAt(Leaves(elems), 0) == Some(key)
    ensures p.hashes == [] && p.flags == {}
    ensures Midway(elems, data, 0, key, p.(hashes := [Leaf(|elems|, data)],
      last := Some(Node(key, Leaf(|elems|, data))), flags := OneBit(0)))
  {
    FirstIsLast(elems, key, p);
    FirstGetsSibling(elems, data, key, p);
  }

  lemma FirstIsLast(elems: seq<Hash>, key: Hash, p: InclusionProof)
    requires Tracks(elems, key, p) && PeakAt(Leaves(elems), 0) == Some(key)
    ensures p.hashes == [] && p.flags == {} && p.index == |elems| - 1
    ensures |elems| % 2 == 1
  {
    hide PathPrefix, StepsOf;
    var leaves := Leaves(elems);
    assert key == leaves[|elems| - 1] && p.index == |elems| - 1;
    assert UnderPeak(leaves, 0, p.index);
    if |p.hashes| > 0 {
      NothingAbovePeak(leaves, 0, |p.hashes|, p.index);
    }
  }

  lemma FirstGetsSibling(elems: seq<Hash>, data: Hash, key: Hash, p: InclusionProof)
    requires WellFormed(key, p) && p.hashes == [] && p.flags == {} && |elems| % 2 == 1
    requires p.index == |elems| - 1 && p.id == elems[p.index]
    ensures Midway(elems, data, 0, key, p.(hashes := [Leaf(|elems|, data)],
      last := Some(Node(key, Leaf(|elems|, data))), flags := OneBit(0)))
  {
    var grown, n := Leaves(elems + [data]), Leaf(|elems|, data);
    GrownLeaves(elems, data);
    ExtendProof(key, p, n, true);
    assert p.Steps() == [];
    assert PathStep(grown, 0, p.index) == Step(n, true);
    assert [] + [n] == [n] && p.flags + OneBit(0) == OneBit(0);
    assert p.Steps() + [Step(n, true)] == [Step(n, true)];
  }

  /** Every other tracked leaf starts with its old path. */
  lemma StartOther(elems: seq<Hash>, data: Hash, key: Hash, p: InclusionProof)
    requires Tracks(elems, key, p) && PeakAt(Leaves(elems), 0) != Some(key)
    ensures Midway(elems, data, 0, key, p)
  {
    var leaves := Leaves(elems);
    GrownLeaves(elems, data);
    assert leaves[p.index] == key;
    PathSurvivesAppend(leaves, Leaf(|elems|, data), p.index, p.Steps());
    assert |p.hashes| > 0;
  }

  /** The new leaf gets slot 0, if there is one, on its left. */
  lemma StartNew(elems: seq<Hash>, data: Hash, n: Hash, slot: Option<Hash>, p: InclusionProof)
    requires slot == PeakAt(Leaves(elems), 0) && n == Leaf(|elems|, data)
    requires p.index == |elems| && p.id == data && p.flags == {}
    requires slot == None ==> p.hashes == [] && p.last == None
    requires slot != None ==> p.hashes == [slot.value] && p.last == Some(Node(slot.value, n))
    ensures Midway(elems, data, 0, n, p)
  {
    var leaves, grown := Leaves(elems), Leaves(elems + [data]);
    GrownLeaves(elems, data);
    if slot != None {
      assert p.Steps() == [] + [Step(slot.value, false)];
      ClimbSnoc(n, [], Step(slot.value, false));
      assert PathStep(grown, 0, |elems|) == Step(slot.value, false);
    }
  }

  function CountNonNil(slots: seq<Option<Hash>>): (n: nat)
  {
    if slots == [] then 0
    else CountNonNil(slots[..|slots| - 1]) + if slots[|slots| - 1] != None then 1 else 0
  }

  lemma {:induction false} CountAtLeast(slots: seq<Option<Hash>>, h: nat)
    requires h <= |slots| && forall k :: 0 <= k < h ==> slots[k] != None
    ensures CountNonNil(slots) >= h
  {
    if slots != [] {
      CountAtLeast(slots[..|slots| - 1], if h == |slots| then h - 1 else h);
    }
  }

  // ---------- Peaks as a list ----------

  function NonNil(slots: seq<Option<Hash>>): (ids: seq<Hash>)
  {
    if slots == [] then []
    else NonNil(slots[..|slots| - 1]) + match slots[|slots| - 1] case None => [] case Some(h) => [h]
  }

  function Reversed(ids: seq<Hash>): (r: seq<Hash>)
    ensures |r| == |ids|
    ensures forall k :: 0 <= k < |ids| ==> r[k] == ids[|ids| - 1 - k]
  {
    if ids == [] then [] else [ids[|ids| - 1]] + Reversed(ids[..|ids| - 1])
  }

  lemma {:induction false} SlotsReversed(slots: seq<Option<Hash>>, leaves: seq<Hash>)
    requires forall k :: 0 <= k < |slots| ==> slots[k] == PeakAt(leaves, k)
    ensures Reversed(NonNil(slots)) == PeaksBelow(leaves, |slots|)
  {
    if slots != [] {
      var rest := slots[..|slots| - 1];
      SlotsReversed(rest, leaves);
      match slots[|slots| - 1] {
        case None =>
          assert NonNil(slots) == NonNil(rest);
        case Some(h) =>
          assert NonNil(slots)[..|NonNil(rest)|] == NonNil(rest);
      }
    }
  }

  lemma SlotsArePeaks(slots: seq<Option<Hash>>, elems: seq<Hash>)
    requires SlotsHold(slots, elems)
    ensures Reversed(NonNil(slots)) == Peaks(elems)
  {
    SlotsReversed(slots, Leaves(elems));
    PeaksUpTo(Leaves(elems), |slots|);
  }

  method ByteSliceToIDs(slots: seq<Option<Hash>>) returns (ids: seq<Hash>)
    ensures ids == NonNil(slots)
  {
    ids := [];
    for i := 0 to |slots|
      invariant ids == NonNil(slots[..i])
    {
      assert slots[..i + 1][..i] == slots[..i];
      if slots[i] != None {
        ids := ids + [slots[i].value];
      }
    }
    assert slots[..|slots|] == slots;
  }

  method ReverseIDs(ids: array<Hash>)
    modifies ids
    ensures ids[..] == Reversed(old(ids[..]))
  {
    var i, j := 0, ids.Length - 1;
    while i < j
      invariant 0 <= i && i + j == ids.Length - 1 && i <= j + 1
      invariant forall k :: 0 <= k < ids.Length ==>
        ids[k] == if i <= k <= j then old(ids[k]) else old(ids[ids.Length - 1 - k])
    {
      ids[i], ids[j] := ids[j], ids[i];
      i, j := i + 1, j - 1;
    }
  }

  /** The hash that a leaf's stored proof climbs to. */
  method FoldProof(leaf: Hash, proof: InclusionProof) returns (n: Hash)
    ensures n == Climb(leaf, proof.Steps())
  {
    n := leaf;
    ghost var steps := proof.Steps();
    for i := 0 to |proof.hashes|
      invariant n == Climb(leaf, steps[..i])
    {
      assert steps[..i + 1][..i] == steps[..i];
      if i in proof.flags {
        n := Node(n, proof.hashes[i]);
      } else {
        n := Node(proof.hashes[i], n);
      }
    }
    assert steps[..|proof.hashes|] == steps;
  }

  lemma TrackedFields(elems: seq<Hash>, key: Hash, p: InclusionProof)
    requires Tracks(elems, key, p)
    ensures key == Leaf(p.index, p.id) && p.index < |elems| && p.id == elems[p.index]
    ensures IsPath(Leaves(elems), p.index, p.Steps()) && forall b :: b in p.flags ==> b < |p.hashes|
  {
  }

  /** Copies the entries of `theirs` whose keys are not in `mine`. */
  method CopyMissing<V>(mine: map<Hash, V>, theirs: map<Hash, V>) returns (merged: map<Hash, V>)
    ensures merged == theirs + mine
  {
    merged := mine;
    var keys := theirs.Keys;
    while keys != {}
      invariant keys <= theirs.Keys
      invariant forall k :: k in merged <==> k in mine || (k in theirs && k !in keys)
      invariant forall k :: k in merged ==> merged[k] == if k in mine then mine[k] else theirs[k]
      decreases keys
    {
      var k :| k in keys;
      keys := keys - {k};
      if k in merged {
        continue;
      }
      merged := merged[k := theirs[k]];
    }
    assert merged.Keys == (theirs + mine).Keys;
  }

  // ---------- The accumulator ----------

  class Accumulator {
    var slots: seq<Option<Hash>>  // the source's `acc`
    var nElements: nat
    var proofs: map<Hash, InclusionProof>
    var lookupMap: map<Hash, nat>
    ghost var elems: seq<Hash>  // everything ever inserted

    ghost predicate Valid()
      reads this
    {
      && SlotsHold(slots, elems)
      && nElements == |elems| <= MAX_UINT64
      && AllTrack(elems, proofs)
      && LookupsTracked(lookupMap, proofs)
    }

    constructor ()
      ensures Valid() && elems == [] && proofs == map[] && lookupMap == map[]
    {
      slots, nElements, proofs, lookupMap, elems := [None], 0, map[], map[], [];
    }

    method MaybeResizeAndSet(pos: nat, h: Option<Hash>)
      requires pos < |slots|
      modifies this`slots
      ensures slots == Resized(old(slots), pos)[pos := h]
    {
      if pos + 2 > |slots| {
        slots := slots + [None, None];
      }
      slots := slots[pos := h];
    }

    method Len() returns (l: nat)
      ensures l == CountNonNil(slots)
    {
      l := 0;
      for i := 0 to |slots|
        invariant l == CountNonNil(slots[..i])
      {
        assert slots[..i + 1][..i] == slots[..i];
        if slots[i] != None {
          l := l + 1;
        }
      }
      assert slots[..|slots|] == slots;
    }

    /** The inner loop of Insert: visits every tracked proof once, in any order. */
    method UpdateProofs(n: Hash, h: nat, accLen: nat)
      modifies this`proofs
      ensures var above := if h + 1 < |slots| then slots[h + 1] else None;
        proofs == map key | key in old(proofs) :: Advanced(old(proofs)[key], n, above, h, accLen)
    {
      ghost var before, above := proofs, if h + 1 < |slots| then slots[h + 1] else None;
      var keys := proofs.Keys;
      while keys != {}
        invariant keys <= before.Keys == proofs.Keys
        invariant forall key :: key in before ==>
          proofs[key] == if key in keys then before[key] else Advanced(before[key], n, above, h, accLen)
        decreases keys
      {
        var key :| key in keys;
        keys := keys - {key};
        var proof := proofs[key];
        var h2, l := h + 1, |proof.hashes|;
        if l > 0 && h2 >= l && h2 <= accLen {
          if proof.last != Some(n) {  // right
            proof := proof.(hashes := proof.hashes + [n]);
            proof := proof.(last := Some(Node(Bytes(proof.last), n)));
            proof := proof.(flags := proof.flags + OneBit(|proof.hashes| - 1));
          } else {  // left
            if |slots| - 1 < h + 1 || slots[h + 1] == None {
              continue;
            }
            proof := proof.(hashes := proof.hashes + [slots[h + 1].value]);
            proof := proof.(last := Some(Node(slots[h + 1].value, Bytes(proof.last))));
          }
          proofs := proofs[key := proof];
        }
      }
    }

    /**
     The start of Insert.  If slot 0 holds a tracked leaf, the new leaf is its
     sibling; if the new leaf is to be tracked, slot 0, if any, is its sibling.
     */
    method StartProofs(n: Hash, data: Hash, protect: bool, ghost before: seq<Hash>)
      requires SlotsHold(slots, before) && AllTrack(before, proofs)
      requires n == Leaf(|before|, data) && nElements == |before| + 1
      modifies this`proofs, this`lookupMap
      ensures forall key :: key in proofs ==> Midway(before, data, 0, key, proofs[key])
      ensures proofs.Keys == old(proofs.Keys) + if protect then {n} else {}
      ensures lookupMap == if protect then old(lookupMap)[data := |before|] else old(lookupMap)
    {
      hide Level, Midway, Tracks, PathPrefix, Leaves;
      assert slots[0] == PeakAt(Leaves(before), 0);
      forall key | key in proofs && slots[0] != Some(key)
        ensures Midway(before, data, 0, key, proofs[key])
      {
        StartOther(before, data, key, proofs[key]);
      }
      KeysAreLeaves(before, data, proofs);
      var first := Bytes(slots[0]);
      if first in proofs {
        var proof := proofs[first];
        StartFirst(before, data, first, proof);
        assert proof.hashes + [n] == [n];
        proof := proof.(hashes := proof.hashes + [n], last := Some(Node(first, n)), flags := OneBit(0));
        proofs := proofs[first := proof];
      }
      if protect {
        var ip := InclusionProof(data, [], {}, nElements - 1, None);
        lookupMap := lookupMap[data := ip.index];
        if slots[0] != None {
          ip := ip.(hashes := ip.hashes + [slots[0].value], last := Some(Node(slots[0].value, n)));
        }
        StartNew(before, data, n, slots[0], ip);
        proofs := proofs[n := ip];
      }
    }

    /**
     Inserts an element and, when asked to, starts tracking its proof.  The
     bound is the width of the element counter.
     */
    method Insert(data: Hash, protect: bool)
      requires Valid() && nElements < MAX_UINT64
      modifies this
      ensures Valid() && elems == old(elems) + [data]
      ensures proofs.Keys == old(proofs.Keys) + if protect then {Leaf(|old(elems)|, data)} else {}
      ensures lookupMap == if protect then old(lookupMap)[data := |old(elems)|] else old(lookupMap)
    {
      hide Level, Midway, Tracks, Pow2, Leaves, CountNonNil, Carrying, SlotsHold;
      ghost var before, leaves, grown := elems, Leaves(elems), Leaves(elems + [data]);
      ghost var slots0, keys := slots, proofs.Keys + if protect then {Leaf(|elems|, data)} else {};
      var n := Leaf(nElements, data);
      nElements := nElements + 1;
      elems := elems + [data];

      StartProofs(n, data, protect, before);
      var accLen := Len();
      FirstCarry(before, data, slots);
      var h := 0;
      var r := slots[h];
      while r != None
        invariant |slots| >= h + 1 && |slots| >= |slots0| && r == slots[h]
        invariant Carrying(before, data, h, n, slots)
        invariant forall key :: key in proofs ==> Midway(before, data, h, key, proofs[key])
        invariant proofs.Keys == keys && elems == before + [data] && nElements == |elems|
        invariant lookupMap == if protect then old(lookupMap)[data := |before|] else old(lookupMap)
        invariant h <= |slots0|
        decreases |slots0| - h
      {
        CarryingMerge(before, data, h, n, slots, slots0);
        ghost var proofs0, above := proofs, if h + 1 < |slots| then slots[h + 1] else None;
        n := Node(r.value, n);
        UpdateProofs(n, h, accLen);
        forall key | key in proofs ensures Midway(before, data, h + 1, key, proofs[key]) {
          AdvanceKeepsMidway(before, data, h, n, accLen, key, proofs0[key]);
        }
        MaybeResizeAndSet(h, None);
        h := h + 1;
        r := slots[h];
      }
      CarryingEnds(before, data, h, n, slots, slots0);
      MaybeResizeAndSet(h, Some(n));
      forall key | key in proofs ensures Tracks(elems, key, proofs[key]) {
        MidwayEnds(before, data, h, n, key, proofs[key]);
      }
    }

    /** The loops that insert the outputs of a transaction or a block, unprotected. */
    method InsertAll(outs: seq<Hash>)
      requires Valid() && |elems| + |outs| <= MAX_UINT64
      modifies this
      ensures Valid() && elems == old(elems) + outs
    {
      hide SlotsHold, AllTrack, LookupsTracked;
      for i := 0 to |outs|
        invariant Valid() && elems == old(elems) + outs[..i]
      {
        Insert(outs[i], false);
        assert outs[..i + 1] == outs[..i] + [outs[i]];
      }
      assert outs[..|outs|] == outs;
    }

    /** byteSliceToIDs and reverseIDs: the peaks, the one of the largest tree first. */
    method PeakIDs() returns (ids: seq<Hash>)
      requires SlotsHold(slots, elems)
      ensures ids == Peaks(elems)
    {
      var present := ByteSliceToIDs(slots);
      var buffer := new Hash[|present|](i requires 0 <= i < |present| => present[i]);
      assert buffer[..] == present;
      ReverseIDs(buffer);
      SlotsArePeaks(slots, elems);
      ids := buffer[..];
    }

    /** On an empty accumulator the source panics. */
    method Root() returns (root: Hash)
      requires Valid() && elems != []
      ensures root == RootOf(elems)
    {
      var ids := PeakIDs();
      RootDefined(elems);
      var merkles := BuildMerkleTreeStore(ids);
      StoreEndsInRoot(ids, NextPowerOfTwo(|ids|));
      root := merkles[|merkles| - 1].value;
    }

    /**
     Completeness.  A proof is returned exactly for the elements that are being
     tracked, and it is accepted against the current root.  Only a path too long
     for its 64-bit flag word is excepted, which takes 2^58 elements.
     */
    method GetProof(data: Hash) returns (r: Option<InclusionProof>)
      requires Valid()
      ensures r.Some? <==> data in lookupMap
      ensures r.Some? ==> var p := r.value;
        && p.id == data && p.index == lookupMap[data] < |elems| && elems[p.index] == data
        && (|p.hashes| <= WORD_BITS ==> Accepts(data, p.index, p.hashes, p.flags, RootOf(elems)))
        && (|elems| < Pow2(58) ==> |p.hashes| <= WORD_BITS)
    {
      hide Level, Pow2, Leaves, Peaks, PathPrefix, WellFormed;
      if data !in lookupMap {
        return None;
      }
      var idx := lookupMap[data];
      var n := Leaf(idx, data);
      if n !in proofs {
        return None;
      }
      var proof := proofs[n];
      assert Tracks(elems, n, proof);
      ghost var steps := proof.Steps();
      TrackedFields(elems, n, proof);
      n := FoldProof(n, proof);

      var ids := PeakIDs();
      ghost var pos := PathToRoot(elems, idx, steps);
      var merkles := BuildMerkleTreeStore(ids);
      var extraHashes, extraBits := MerkleInclusionProof(merkles, n, ids, pos);
      PeaksSeparated(elems);
      WordRange();
      PeakTreeDepth(elems);
      MerklePathLength(ids, pos);
      assert StepsOf(extraHashes, extraBits) == MerklePath(ids, pos);
      var flags := proof.flags + ShiftLeft(extraBits, |proof.hashes|);
      r := Some(InclusionProof(data, proof.hashes + extraHashes, flags, proof.index, None));
      if |proof.hashes| + |extraHashes| <= WORD_BITS {
        StepsOfJoin(proof.hashes, proof.flags, extraHashes, extraBits);
      }
      if |elems| < Pow2(58) {
        PathFitsWord(elems, idx, steps, pos);
      }
    }

    method DropProof(data: Hash)
      requires Valid()
      modifies this`proofs, this`lookupMap
      ensures Valid() && data !in lookupMap
      ensures lookupMap == old(lookupMap) - {data}
      ensures proofs == if data in old(lookupMap) then old(proofs) - {Leaf(old(lookupMap)[data], data)} else old(proofs)
    {
      hide Level, Tracks, SlotsHold, Pow2, Leaves;
      if data !in lookupMap {
        assert lookupMap == lookupMap - {data};
        return;
      }
      var n := Leaf(lookupMap[data], data);
      lookupMap := lookupMap - {data};
      proofs := proofs - {n};
    }

    /**
     Takes over the proofs and lookups that this accumulator lacks.  They are
     proofs for this accumulator when the other was fed the same elements.
     */
    method MergeProofs(other: Accumulator)
      requires Valid() && other.Valid()
      modifies this`proofs, this`lookupMap
      ensures proofs == old(other.proofs) + old(proofs) && lookupMap == old(other.lookupMap) + old(lookupMap)
      ensures elems == other.elems ==> Valid()
    {
      hide Level, Tracks, SlotsHold, Pow2, Leaves;
      var theirProofs, theirLookups := other.proofs, other.lookupMap;
      proofs := CopyMissing(proofs, theirProofs);
      lookupMap := CopyMissing(lookupMap, theirLookups);
    }

    constructor Copy(other: Accumulator)
      requires other.Valid()
      ensures Valid() && elems == other.elems && slots == other.slots
      ensures proofs == other.proofs && lookupMap == other.lookupMap
    {
      slots, nElements, proofs, lookupMap := other.slots, other.nElements, other.proofs, other.lookupMap;
      elems := other.elems;
    }

    /** NewAccumulatorFromData and DeserializeAccumulator: the parts as they were stored. */
    constructor FromParts(slots: seq<Option<Hash>>, nElements: nat, proofs: map<Hash, InclusionProof>,
                          lookupMap: map<Hash, nat>, ghost elems: seq<Hash>)
      requires SlotsHold(slots, elems) && nElements == |elems| <= MAX_UINT64
      requires AllTrack(elems, proofs) && LookupsTracked(lookupMap, proofs)
      ensures Valid() && this.elems == elems && this.slots == slots
      ensures this.proofs == proofs && this.lookupMap == lookupMap
    {
      this.slots, this.nElements, this.proofs, this.lookupMap, this.elems := slots, nElements, proofs, lookupMap, elems;
    }

    /** A copy that later changes to either accumulator do not reach. */
    method Clone() returns (copy: Accumulator)
      requires Valid()
      ensures fresh(copy) && copy.Valid() && copy.elems == elems && copy.slots == slots
      ensures copy.proofs == proofs && copy.lookupMap == lookupMap
    {
      copy := new Accumulator.Copy(this);
    }
  }

  // ---------- Proofs do not depend on how they were kept ----------

  /** A leaf has one path, so two accumulators fed the same elements keep the same proof of it. */
  lemma TrackedProofIsUnique(elems: seq<Hash>, key: Hash, p: InclusionProof, q: InclusionProof)
    requires Tracks(elems, key, p) && Tracks(elems, key, q)
    ensures p == q
  {
    var leaves, i := Leaves(elems), p.index;
    assert UnderPeak(leaves, |p.hashes|, i) && UnderPeak(leaves, |q.hashes|, i);
    assert |p.hashes| == |q.hashes|;
    var s, t := p.Steps(), q.Steps();
    forall k | 0 <= k < |s| ensures s[k] == t[k] {
      assert s[k] == PathStep(leaves, k, i);
    }
    forall k | 0 <= k < |p.hashes| ensures p.hashes[k] == q.hashes[k] && (k in p.flags <==> k in q.flags) {
      assert s[k] == t[k];
    }
    assert p.hashes == q.hashes;
    assert p.flags == q.flags;
  }
}
