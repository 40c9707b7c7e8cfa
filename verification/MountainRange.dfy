/**
 What a Merkle Mountain Range of a list of elements is, independently of how
 the accumulator computes it: the levels of its trees, its peaks, its root, and
 what makes a path of siblings the path of an element to its peak.
 */
module MountainRange {
  import opened Prelude
  import opened Hashes
  import opened Merkle

  // ---------- Levels ----------

  function Leaves(elems: seq<Hash>): (leaves: seq<Hash>)
    ensures |leaves| == |elems|
  {
    seq(|elems|, i requires 0 <= i < |elems| => Leaf(i, elems[i]))
  }

  /** The level above; a lone last hash has no parent. */
  function Next(level: seq<Hash>): (up: seq<Hash>)
    ensures |up| == |level| / 2
  {
    seq(|level| / 2, j requires 0 <= j < |level| / 2 => Node(level[2 * j], level[2 * j + 1]))
  }

  function Level(leaves: seq<Hash>, k: nat): (level: seq<Hash>)
  {
    if k == 0 then leaves else Next(Level(leaves, k - 1))
  }

  /** The position, at level `k`, of the ancestor of leaf `i`. */
  function Ancestor(i: nat, k: nat): (a: nat)
  {
    if k == 0 then i else Ancestor(i, k - 1) / 2
  }

  /** Level `k` has a lone last hash, which is then a peak. */
  predicate IsPeak(leaves: seq<Hash>, k: nat)
  {
    |Level(leaves, k)| % 2 == 1
  }

  function PeakAt(leaves: seq<Hash>, k: nat): (peak: Option<Hash>)
  {
    var level := Level(leaves, k);
    if IsPeak(leaves, k) then Some(level[|level| - 1]) else None
  }

  /** The peaks, the one of the largest tree first. */
  function PeaksBelow(leaves: seq<Hash>, k: nat): (peaks: seq<Hash>)
  {
    if k == 0 then []
    else (if IsPeak(leaves, k - 1) then [PeakAt(leaves, k - 1).value] else []) + PeaksBelow(leaves, k - 1)
  }

  function Peaks(elems: seq<Hash>): (peaks: seq<Hash>)
  {
    PeaksBelow(Leaves(elems), |elems|)
  }

  /** A level has at most one hash for every 2^k leaves. */
  lemma {:induction false} LevelBound(leaves: seq<Hash>, k: nat)
    ensures |Level(leaves, k)| * Pow2(k) <= |leaves|
  {
    if k > 0 {
      LevelBound(leaves, k - 1);
      HalveAndDouble(|Level(leaves, k - 1)|, Pow2(k - 1));
    }
  }

  lemma HalveAndDouble(n: nat, p: nat)
    ensures (n / 2) * (2 * p) <= n * p
  {
    var half := n / 2;
    assert half * (2 * p) == (half + half) * p;
    assert n * p == (half + half) * p + (n - (half + half)) * p;
  }

  lemma {:induction false} LevelsEnd(leaves: seq<Hash>, k: nat)
    ensures |Level(leaves, k)| + k <= |leaves| || Level(leaves, k) == []
  {
    if k > 0 {
      LevelsEnd(leaves, k - 1);
    }
  }

  lemma {:induction false} Pow2Monotone(j: nat, k: nat)
    requires j <= k
    ensures j < k ==> 2 * Pow2(j) <= Pow2(k)
    ensures Pow2(j) <= Pow2(k)
    decreases k
  {
    if j < k {
      Pow2Monotone(j, k - 1);
    }
  }

  /** A tree of height `k` is only there when its leaves are. */
  lemma HeightBound(leaves: seq<Hash>, k: nat, bits: nat)
    requires Level(leaves, k) != [] && |leaves| < Pow2(bits)
    ensures k < bits
  {
    LevelBound(leaves, k);
    AtLeastOnce(|Level(leaves, k)|, Pow2(k));
    if bits <= k {
      Pow2Monotone(bits, k);
    }
  }

  lemma AtLeastOnce(n: nat, p: nat)
    requires n > 0
    ensures p <= n * p
  {
    assert n * p == (n - 1) * p + p;
  }

  lemma {:induction false} PeaksBeyond(leaves: seq<Hash>, k: nat, m: nat)
    requires k <= m && (forall j :: k <= j < m ==> !IsPeak(leaves, j))
    ensures PeaksBelow(leaves, m) == PeaksBelow(leaves, k)
    decreases m
  {
    if k < m {
      PeaksBeyond(leaves, k, m - 1);
    }
  }

  /** Levels from some height on are empty, so peaks may be collected up to any such height. */
  lemma PeaksUpTo(leaves: seq<Hash>, k: nat)
    requires Level(leaves, k) == []
    ensures PeaksBelow(leaves, k) == PeaksBelow(leaves, |leaves|)
  {
    LevelsStayEmpty(leaves, k);
    LevelsEnd(leaves, |leaves|);
    LevelsStayEmpty(leaves, |leaves|);
    if k <= |leaves| {
      PeaksBeyond(leaves, k, |leaves|);
    } else {
      PeaksBeyond(leaves, |leaves|, k);
    }
  }

  lemma LevelsStayEmpty(leaves: seq<Hash>, k: nat)
    requires Level(leaves, k) == []
    ensures forall j :: k <= j ==> Level(leaves, j) == []
  {
    forall j | k <= j ensures Level(leaves, j) == [] {
      var m := k;
      while m < j
        invariant k <= m <= j && Level(leaves, m) == []
      {
        m := m + 1;
      }
    }
  }

  // ---------- Where leaves are ----------

  /** The leaf furthest left below position `j` of level `k`. */
  function FirstLeaf(j: nat, k: nat): (i: nat)
    decreases k
  {
    if k == 0 then j else FirstLeaf(2 * j, k - 1)
  }

  lemma {:induction false} AncestorOfFirstLeaf(j: nat, k: nat)
    ensures Ancestor(FirstLeaf(j, k), k) == j
    decreases k
  {
    if k > 0 {
      AncestorOfFirstLeaf(2 * j, k - 1);
    }
  }

  lemma {:induction false} FirstOfLevel(elems: seq<Hash>, j: nat, k: nat)
    requires j < |Level(Leaves(elems), k)|
    ensures First(Level(Leaves(elems), k)[j]) == FirstLeaf(j, k)
    decreases k
  {
    if k > 0 {
      FirstOfLevel(elems, 2 * j, k - 1);
    }
  }

  /** Leaf `i` is below the peak of level `k`. */
  predicate UnderPeak(leaves: seq<Hash>, k: nat, i: nat)
  {
    IsPeak(leaves, k) && Ancestor(i, k) == |Level(leaves, k)| - 1
  }

  /** Above its peak a leaf has no ancestors. */
  lemma {:induction false} NothingAbovePeak(leaves: seq<Hash>, k: nat, m: nat, i: nat)
    requires UnderPeak(leaves, k, i) && k < m
    ensures Ancestor(i, m) >= |Level(leaves, m)|
    decreases m
  {
    if k < m - 1 {
      NothingAbovePeak(leaves, k, m - 1, i);
    }
  }

  lemma {:induction false} HeightOfPeak(leaves: seq<Hash>, k: nat, a: nat) returns (j: nat)
    requires a < |PeaksBelow(leaves, k)|
    ensures j < k && IsPeak(leaves, j) && PeaksBelow(leaves, k)[a] == PeakAt(leaves, j).value
    decreases k
  {
    if IsPeak(leaves, k - 1) {
      if a == 0 {
        j := k - 1;
      } else {
        j := HeightOfPeak(leaves, k - 1, a - 1);
      }
    } else {
      j := HeightOfPeak(leaves, k - 1, a);
    }
  }

  lemma {:induction false} PeakFirsts(elems: seq<Hash>, k: nat)
    ensures forall a, b :: 0 <= a < b < |PeaksBelow(Leaves(elems), k)| ==>
      First(PeaksBelow(Leaves(elems), k)[a]) != First(PeaksBelow(Leaves(elems), k)[b])
  {
    var leaves := Leaves(elems);
    if k > 0 {
      PeakFirsts(elems, k - 1);
      var rest := PeaksBelow(leaves, k - 1);
      if IsPeak(leaves, k - 1) {
        forall b | 0 <= b < |rest| ensures First(rest[b]) != First(PeakAt(leaves, k - 1).value) {
          var j := HeightOfPeak(leaves, k - 1, b);
          PeakFirstsDiffer(elems, j, k - 1);
        }
      }
    }
  }

  /** The peaks satisfy what the scan of the peak tree needs. */
  lemma PeaksSeparated(elems: seq<Hash>)
    ensures Separated(Peaks(elems))
  {
    PeakFirsts(elems, |elems|);
    FirstsSeparate(Peaks(elems));
  }

  lemma PeakFirstsDiffer(elems: seq<Hash>, j: nat, k: nat)
    requires j < k && IsPeak(Leaves(elems), j) && IsPeak(Leaves(elems), k)
    ensures First(PeakAt(Leaves(elems), j).value) != First(PeakAt(Leaves(elems), k).value)
  {
    var leaves := Leaves(elems);
    var a, b := |Level(leaves, j)| - 1, |Level(leaves, k)| - 1;
    FirstOfLevel(elems, a, j);
    FirstOfLevel(elems, b, k);
    AncestorOfFirstLeaf(a, j);
    AncestorOfFirstLeaf(b, k);
    assert UnderPeak(leaves, j, FirstLeaf(a, j));
    NothingAbovePeak(leaves, j, k, FirstLeaf(a, j));
  }

  /** The hashes of a level are pairwise different. */
  lemma {:induction false} LevelDistinct(elems: seq<Hash>, k: nat)
    ensures forall a, b :: 0 <= a < b < |Level(Leaves(elems), k)| ==>
      Level(Leaves(elems), k)[a] != Level(Leaves(elems), k)[b]
  {
    if k > 0 {
      LevelDistinct(elems, k - 1);
      var below, level := Level(Leaves(elems), k - 1), Level(Leaves(elems), k);
      forall a, b | 0 <= a < b < |level| ensures level[a] != level[b] {
        assert level[a].left == below[2 * a] && level[b].left == below[2 * b];
      }
    }
  }

  // ---------- The root ----------

  lemma {:induction false} PeaksNonEmpty(leaves: seq<Hash>, k: nat, m: nat)
    requires Level(leaves, k) != [] && k <= m && Level(leaves, m) == []
    ensures PeaksBelow(leaves, m) != []
    decreases m - k
  {
    if |Level(leaves, k)| == 1 {
      PeakIsListed(leaves, k, m);
    } else if k + 1 < m {
      PeaksNonEmpty(leaves, k + 1, m);
    }
  }

  lemma {:induction false} PeakIsListed(leaves: seq<Hash>, k: nat, m: nat)
    requires k < m && IsPeak(leaves, k)
    ensures PeakAt(leaves, k).value in PeaksBelow(leaves, m)
    decreases m
  {
    if k < m - 1 {
      PeakIsListed(leaves, k, m - 1);
    }
  }

  lemma RootDefined(elems: seq<Hash>)
    requires elems != []
    ensures Peaks(elems) != []
  {
    LevelsEnd(Leaves(elems), |elems|);
    PeaksNonEmpty(Leaves(elems), 0, |elems|);
  }

  /** The root of the whole range: the duplicate-last Merkle root of its peaks. */
  function RootOf(elems: seq<Hash>): (root: Hash)
    requires elems != []
  {
    RootDefined(elems);
    MerkleRoot(Peaks(elems))
  }

  // ---------- Paths ----------

  /** The sibling that leaf `i` meets at level `k`, strictly below its peak. */
  function PathStep(leaves: seq<Hash>, k: nat, i: nat): (s: Step)
    requires Ancestor(i, k) < |Level(leaves, k)| && !UnderPeak(leaves, k, i)
  {
    var level, a := Level(leaves, k), Ancestor(i, k);
    if a % 2 == 0 then Step(level[a + 1], true) else Step(level[a - 1], false)
  }

  /** The steps are the siblings that leaf `i` meets at the lowest levels. */
  ghost predicate PathPrefix(leaves: seq<Hash>, i: nat, steps: seq<Step>)
  {
    i < |leaves| &&
    forall k :: 0 <= k < |steps| ==>
      Ancestor(i, k) < |Level(leaves, k)| && !UnderPeak(leaves, k, i) && steps[k] == PathStep(leaves, k, i)
  }

  /** The steps lead leaf `i` all the way to its peak. */
  ghost predicate IsPath(leaves: seq<Hash>, i: nat, steps: seq<Step>)
  {
    PathPrefix(leaves, i, steps) && UnderPeak(leaves, |steps|, i)
  }

  lemma StepToParent(leaves: seq<Hash>, k: nat, i: nat)
    requires Ancestor(i, k) < |Level(leaves, k)| && !UnderPeak(leaves, k, i)
    ensures Ancestor(i, k + 1) < |Level(leaves, k + 1)|
    ensures Level(leaves, k + 1)[Ancestor(i, k + 1)] == Apply(Level(leaves, k)[Ancestor(i, k)], PathStep(leaves, k, i))
  {
    var level, a := Level(leaves, k), Ancestor(i, k);
    assert a + 1 == |level| ==> |level| % 2 == 0;
    assert a / 2 < |level| / 2;
    assert Next(level)[a / 2] == Node(level[2 * (a / 2)], level[2 * (a / 2) + 1]);
    if a % 2 == 0 {
      assert 2 * (a / 2) == a;
    } else {
      assert 2 * (a / 2) == a - 1;
    }
  }

  /** The siblings met on the lowest levels climb from the leaf to its ancestor. */
  lemma {:induction false} PathPrefixClimbs(leaves: seq<Hash>, i: nat, steps: seq<Step>)
    requires PathPrefix(leaves, i, steps)
    ensures Ancestor(i, |steps|) < |Level(leaves, |steps|)|
    ensures Climb(leaves[i], steps) == Level(leaves, |steps|)[Ancestor(i, |steps|)]
    decreases |steps|
  {
    if steps != [] {
      var k := |steps| - 1;
      var below := steps[..k];
      assert PathPrefix(leaves, i, below);
      PathPrefixClimbs(leaves, i, below);
      StepToParent(leaves, k, i);
    }
  }

  // ---------- Appending a leaf ----------

  lemma NextOfAppend(level: seq<Hash>, h: Hash)
    ensures Next(level + [h]) ==
      if |level| % 2 == 1 then Next(level) + [Node(level[|level| - 1], h)] else Next(level)
  {
  }

  /** Appending a leaf leaves every level as it was, but for at most one hash at its end. */
  lemma {:induction false} LevelsGrow(leaves: seq<Hash>, h: Hash, k: nat)
    ensures Level(leaves, k) <= Level(leaves + [h], k)
    ensures |Level(leaves + [h], k)| <= |Level(leaves, k)| + 1
  {
    if k > 0 {
      LevelsGrow(leaves, h, k - 1);
      var old_, new_ := Level(leaves, k - 1), Level(leaves + [h], k - 1);
      if |old_| < |new_| {
        assert new_ == old_ + [new_[|old_|]];
        NextOfAppend(old_, new_[|old_|]);
      } else {
        assert new_ == old_;
      }
    }
  }

  /** Above the first level of even length nothing changes. */
  lemma {:induction false} LevelsAboveCarry(leaves: seq<Hash>, h: Hash, k: nat, m: nat, carry: Hash)
    requires Level(leaves + [h], k) == Level(leaves, k) + [carry] && !IsPeak(leaves, k) && k < m
    ensures Level(leaves + [h], m) == Level(leaves, m)
    decreases m
  {
    if m == k + 1 {
      NextOfAppend(Level(leaves, k), carry);
    } else {
      LevelsAboveCarry(leaves, h, k, m - 1, carry);
    }
  }

  /** A finished path is still the start of the leaf's path after an append. */
  lemma PathSurvivesAppend(leaves: seq<Hash>, h: Hash, i: nat, steps: seq<Step>)
    requires PathPrefix(leaves, i, steps)
    ensures PathPrefix(leaves + [h], i, steps)
  {
    forall k | 0 <= k < |steps|
      ensures Ancestor(i, k) < |Level(leaves + [h], k)| && !UnderPeak(leaves + [h], k, i)
        && steps[k] == PathStep(leaves + [h], k, i)
    {
      StepSurvivesAppend(leaves, h, k, i);
    }
  }

  lemma StepSurvivesAppend(leaves: seq<Hash>, h: Hash, k: nat, i: nat)
    requires Ancestor(i, k) < |Level(leaves, k)| && !UnderPeak(leaves, k, i)
    ensures Ancestor(i, k) < |Level(leaves + [h], k)| && !UnderPeak(leaves + [h], k, i)
    ensures PathStep(leaves + [h], k, i) == PathStep(leaves, k, i)
  {
    hide Level, Ancestor;
    LevelsGrow(leaves, h, k);
  }
}
