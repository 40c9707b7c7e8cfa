/**
 The checker of inclusion proofs (ValidateInclusionProof of the standard
 circuit), and what it accepts against the root of an accumulator.
 */
module Inclusion {
  import opened Hashes
  import opened Merkle
  import opened MountainRange

  /** The hashes and flags climb from the indexed commitment to the root. */
  predicate Accepts(commitment: Hash, index: nat, hashes: seq<Hash>, flags: Word, root: Hash)
  {
    Climb(Leaf(index, commitment), StepsOf(hashes, flags)) == root
  }

  method ValidateInclusionProof(commitment: Hash, index: nat, hashes: seq<Hash>, flags: Word, root: Hash)
      returns (ok: bool)
    ensures ok == Accepts(commitment, index, hashes, flags, root)
  {
    var h := Leaf(index, commitment);
    ghost var steps := StepsOf(hashes, flags);
    for i := 0 to |hashes|
      invariant h == Climb(Leaf(index, commitment), steps[..i])
    {
      assert steps[..i + 1][..i] == steps[..i];
      if i in flags {
        h := Node(h, hashes[i]);
      } else {
        h := Node(hashes[i], h);
      }
    }
    assert steps[..|hashes|] == steps;
    ok := h == root;
  }

  // ---------- Soundness ----------

  /**
   No element hides a hash that looks like a leaf, unless that leaf is one of
   the accumulator's own.  Note commitments hide none, being Lurk commitments.
   */
  ghost predicate Genuine(elems: seq<Hash>)
  {
    forall e, i: nat, d :: e in elems && Below(Leaf(i, d), e) ==> i < |elems| && elems[i] == d
  }

  /** Every hash of the row is a hashed pair. */
  predicate AllNodes(row: seq<Hash>)
  {
    forall j :: 0 <= j < |row| ==> row[j].Node?
  }

  /** A leaf below a pair of hashed pairs is below one of the two. */
  lemma LeafBelowPair(i: nat, d: Hash, l: Hash, r: Hash)
    requires l.Node? && Below(Leaf(i, d), Node(l, r))
    ensures Below(Leaf(i, d), l) || Below(Leaf(i, d), r)
  {
  }

  lemma {:induction false} LeafBelowRoot(i: nat, d: Hash, row: seq<Hash>) returns (j: nat)
    requires row != [] && AllNodes(row) && Below(Leaf(i, d), MerkleRoot(row))
    ensures j < |row| && Below(Leaf(i, d), row[j])
    decreases |row|
  {
    if |row| == 1 {
      j := 0;
    } else {
      var up := LeafBelowRoot(i, d, Parents(row));
      var l, r := Parents(row)[up].left, Parents(row)[up].right;
      LeafBelowPair(i, d, l, r);
      j := if Below(Leaf(i, d), l) || 2 * up + 1 == |row| then 2 * up else 2 * up + 1;
    }
  }

  lemma {:induction false} LevelsAreNodes(elems: seq<Hash>, k: nat)
    ensures AllNodes(Level(Leaves(elems), k))
  {
    if k > 0 {
      LevelsAreNodes(elems, k - 1);
    }
  }

  lemma {:induction false} LeafBelowLevel(i: nat, d: Hash, elems: seq<Hash>, k: nat, a: nat) returns (j: nat)
    requires a < |Level(Leaves(elems), k)| && Below(Leaf(i, d), Level(Leaves(elems), k)[a])
    ensures j < |elems| && Below(Leaf(i, d), Leaf(j, elems[j]))
    decreases k
  {
    if k == 0 {
      j := a;
    } else {
      LevelsAreNodes(elems, k - 1);
      var below := Level(Leaves(elems), k - 1);
      LeafBelowPair(i, d, below[2 * a], below[2 * a + 1]);
      if Below(Leaf(i, d), below[2 * a]) {
        j := LeafBelowLevel(i, d, elems, k - 1, 2 * a);
      } else {
        j := LeafBelowLevel(i, d, elems, k - 1, 2 * a + 1);
      }
    }
  }

  lemma PeaksAreNodes(elems: seq<Hash>)
    ensures AllNodes(Peaks(elems))
  {
    forall a | 0 <= a < |Peaks(elems)| ensures Peaks(elems)[a].Node? {
      var k := HeightOfPeak(Leaves(elems), |elems|, a);
      LevelsAreNodes(elems, k);
    }
  }

  /** A leaf below the root is an inserted leaf, or is hidden inside an element. */
  lemma LeafBelowRange(i: nat, d: Hash, elems: seq<Hash>) returns (j: nat)
    requires elems != [] && Below(Leaf(i, d), RootOf(elems))
    ensures j < |elems| && (Leaf(i, d) == Leaf(j, elems[j]) || Below(Leaf(i, d), elems[j]))
  {
    RootDefined(elems);
    PeaksAreNodes(elems);
    var a := LeafBelowRoot(i, d, Peaks(elems));
    var k := HeightOfPeak(Leaves(elems), |elems|, a);
    j := LeafBelowLevel(i, d, elems, k, |Level(Leaves(elems), k)| - 1);
  }

  /**
   Soundness.  Whatever hashes and flags are offered, an accepted proof is for
   an element that was inserted, at the index it was inserted at.
   */
  lemma Soundness(elems: seq<Hash>, commitment: Hash, index: nat, hashes: seq<Hash>, flags: Word)
    requires elems != [] && Genuine(elems)
    requires Accepts(commitment, index, hashes, flags, RootOf(elems))
    ensures index < |elems| && elems[index] == commitment
  {
    ClimbIsAbove(Leaf(index, commitment), StepsOf(hashes, flags));
    var j := LeafBelowRange(index, commitment, elems);
    assert elems[j] in elems;
  }

  lemma {:induction false} BelowTransitive(a: Hash, b: Hash, c: Hash)
    requires Below(a, b) && Below(b, c)
    ensures Below(a, c)
  {
    if b != c {
      BelowTransitive(a, b, if Below(b, c.left) then c.left else c.right);
    }
  }

  /** Commitments that are not hashed pairs are genuine. */
  lemma OpaqueIsGenuine(elems: seq<Hash>)
    requires forall e :: e in elems ==> !e.Node?
    ensures Genuine(elems)
  {
  }

  /** Without that condition the law fails: an element that is itself the hash of an indexed leaf. */
  lemma ForgedProof(x: Hash)
    ensures var elems := [Leaf(7, x)];
      RootOf(elems) == Leaf(0, Leaf(7, x)) && Accepts(x, 7, [Raw(0)], {}, RootOf(elems))
  {
    var elems := [Leaf(7, x)];
    assert Leaves(elems) == [Leaf(0, Leaf(7, x))];
    assert Level(Leaves(elems), 0) == Leaves(elems) && IsPeak(Leaves(elems), 0);
    assert PeaksBelow(Leaves(elems), 0) == [];
    assert PeaksBelow(Leaves(elems), 1) == [Leaf(0, Leaf(7, x))];
    assert Peaks(elems) == [Leaf(0, Leaf(7, x))];
    var steps := StepsOf([Raw(0)], {});
    assert steps == [] + [Step(Raw(0), false)];
    ClimbSnoc(Leaf(7, x), [], Step(Raw(0), false));
  }

  /** Some steps, any number of them, climb from the leaf to the root. */
  ghost predicate Provable(elems: seq<Hash>, index: nat, commitment: Hash)
    requires elems != []
  {
    exists steps :: Climb(Leaf(index, commitment), steps) == RootOf(elems)
  }

  /**
   The condition is exact: if it fails, some commitment that was never inserted
   at that index has steps that climb to the root.  These may be any number; in
   a 64-bit flag word only the first 64 siblings can be marked as being on the right.
   */
  lemma SoundIffGenuine(elems: seq<Hash>)
    requires elems != []
    ensures Genuine(elems)
      <==> forall i: nat, d :: Provable(elems, i, d) ==> i < |elems| && elems[i] == d
  {
    if Genuine(elems) {
      forall i: nat, d | Provable(elems, i, d) ensures i < |elems| && elems[i] == d {
        var steps :| Climb(Leaf(i, d), steps) == RootOf(elems);
        ClimbIsAbove(Leaf(i, d), steps);
        var j := LeafBelowRange(i, d, elems);
        assert elems[j] in elems;
      }
    }
    if forall i: nat, d :: Provable(elems, i, d) ==> i < |elems| && elems[i] == d {
      forall e, i: nat, d | e in elems && Below(Leaf(i, d), e) ensures i < |elems| && elems[i] == d {
        var j :| 0 <= j < |elems| && elems[j] == e;
        ElementBelowRoot(elems, j);
        assert Below(e, Leaf(j, e));
        BelowTransitive(e, Leaf(j, e), RootOf(elems));
        BelowTransitive(Leaf(i, d), e, RootOf(elems));
        var steps := StepsFromBelow(Leaf(i, d), RootOf(elems));
        assert Provable(elems, i, d);
      }
    }
  }

  // ---------- Every element has a path ----------

  /** Every element has a path to its peak, found by climbing until a lone last hash is reached. */
  lemma {:induction false} PathExists(leaves: seq<Hash>, i: nat, steps: seq<Step>) returns (path: seq<Step>)
    requires PathPrefix(leaves, i, steps)
    ensures IsPath(leaves, i, path)
    decreases |leaves| - |steps|
  {
    PathPrefixClimbs(leaves, i, steps);
    LevelsEnd(leaves, |steps|);
    if UnderPeak(leaves, |steps|, i) {
      path := steps;
    } else {
      path := PathExists(leaves, i, steps + [PathStep(leaves, |steps|, i)]);
    }
  }

  /** A path followed by the peak's own path climbs to the root. */
  lemma PathToRoot(elems: seq<Hash>, i: nat, steps: seq<Step>) returns (pos: nat)
    requires IsPath(Leaves(elems), i, steps)
    ensures pos < |Peaks(elems)|
    ensures Peaks(elems)[pos] == Climb(Leaf(i, elems[i]), steps)
    ensures elems != []
    ensures Climb(Leaf(i, elems[i]), steps + MerklePath(Peaks(elems), pos)) == RootOf(elems)
  {
    var leaves, k := Leaves(elems), |steps|;
    PathPrefixClimbs(leaves, i, steps);
    LevelsEnd(leaves, k);
    PeakIsListed(leaves, k, |elems|);
    pos :| 0 <= pos < |Peaks(elems)| && Peaks(elems)[pos] == PeakAt(leaves, k).value;
    MerklePathClimbs(Peaks(elems), pos);
    ClimbConcat(Leaf(i, elems[i]), steps, MerklePath(Peaks(elems), pos));
  }

  lemma ElementBelowRoot(elems: seq<Hash>, i: nat)
    requires i < |elems|
    ensures Below(Leaf(i, elems[i]), RootOf(elems))
  {
    var steps := PathExists(Leaves(elems), i, []);
    var pos := PathToRoot(elems, i, steps);
    ClimbIsAbove(Leaf(i, elems[i]), steps + MerklePath(Peaks(elems), pos));
  }

  // ---------- How long paths are ----------

  lemma {:induction false} FewPeaks(leaves: seq<Hash>, k: nat)
    ensures |PeaksBelow(leaves, k)| <= k
  {
    if k > 0 {
      FewPeaks(leaves, k - 1);
    }
  }

  lemma SixtyFour()
    ensures Pow2(6) == 64
  {
  }

  /** There are at most 64 peaks, so at most 6 levels above them. */
  lemma PeakTreeDepth(elems: seq<Hash>)
    requires |elems| < Pow2(WORD_BITS)
    ensures Depth(|Peaks(elems)|) <= 6
  {
    hide Level, PeaksBelow, Leaves, Pow2;
    var leaves := Leaves(elems);
    if Level(leaves, WORD_BITS) != [] {
      HeightBound(leaves, WORD_BITS, WORD_BITS);
    }
    PeaksUpTo(leaves, WORD_BITS);
    FewPeaks(leaves, WORD_BITS);
    SixtyFour();
    DepthBound(|Peaks(elems)|, 6);
  }

  /** Below 2^58 elements a whole path fits the 64-bit flag word. */
  lemma PathFitsWord(elems: seq<Hash>, i: nat, steps: seq<Step>, pos: nat)
    requires IsPath(Leaves(elems), i, steps) && pos < |Peaks(elems)| && |elems| < Pow2(58)
    ensures |steps| + |MerklePath(Peaks(elems), pos)| <= WORD_BITS
  {
    HeightBound(Leaves(elems), |steps|, 58);
    Pow2Monotone(58, WORD_BITS);
    PeakTreeDepth(elems);
    MerklePathLength(Peaks(elems), pos);
  }
}
