/**
 The array-backed Merkle tree (blockchain/merkle.go): how it is laid out, what
 its root is, and that the inclusion proofs read from it climb to that root.
 */
module Merkle {
  import opened Prelude
  import opened Hashes

  // ---------- The tree, level by level ----------

  /** The level above: neighbours are hashed in pairs, a lone last hash with itself. */
  function Parents(level: seq<Hash>): (up: seq<Hash>)
    ensures |up| == (|level| + 1) / 2
  {
    seq((|level| + 1) / 2, j requires 0 <= j < (|level| + 1) / 2 =>
      Node(level[2 * j], if 2 * j + 1 < |level| then level[2 * j + 1] else level[2 * j]))
  }

  function MerkleRoot(level: seq<Hash>): (root: Hash)
    requires level != []
    decreases |level|
  {
    if |level| == 1 then level[0] else MerkleRoot(Parents(level))
  }

  /** The sibling of position `pos` in its level. */
  function SiblingStep(level: seq<Hash>, pos: nat): (s: Step)
    requires pos < |level|
  {
    if pos % 2 == 1 then Step(level[pos - 1], false)
    else if pos + 1 < |level| then Step(level[pos + 1], true)
    else Step(level[pos], true)
  }

  /** The siblings met on the way from position `pos` to the root. */
  function MerklePath(level: seq<Hash>, pos: nat): (steps: seq<Step>)
    requires pos < |level|
    decreases |level|
  {
    if |level| == 1 then []
    else [SiblingStep(level, pos)] + MerklePath(Parents(level), pos / 2)
  }

  /** The number of levels above a level of `n` hashes. */
  function Depth(n: nat): (d: nat)
  {
    if n <= 1 then 0 else 1 + Depth((n + 1) / 2)
  }

  lemma {:induction false} MerklePathLength(level: seq<Hash>, pos: nat)
    requires pos < |level|
    ensures |MerklePath(level, pos)| == Depth(|level|)
    decreases |level|
  {
    if |level| > 1 {
      MerklePathLength(Parents(level), pos / 2);
    }
  }

  /** The path of every position climbs to the root. */
  lemma {:induction false} MerklePathClimbs(level: seq<Hash>, pos: nat)
    requires pos < |level|
    ensures Climb(level[pos], MerklePath(level, pos)) == MerkleRoot(level)
    decreases |level|
  {
    if |level| > 1 {
      var s := SiblingStep(level, pos);
      ClimbConcat(level[pos], [s], MerklePath(Parents(level), pos / 2));
      ClimbSnoc(level[pos], [], s);
      assert [] + [s] == [s];
      assert Climb(level[pos], [s]) == Parents(level)[pos / 2];
      MerklePathClimbs(Parents(level), pos / 2);
    }
  }

  /** No two hashes of the level are equal, and none of them is a parent of the level. */
  ghost predicate Separated(level: seq<Hash>)
  {
    (forall a, b :: 0 <= a < b < |level| ==> level[a] != level[b]) &&
    (forall a, b :: 0 <= a < |Parents(level)| && 0 <= b < |level| ==> Parents(level)[a] != level[b])
  }

  lemma ParentsSeparated(level: seq<Hash>)
    requires Separated(level)
    ensures Separated(Parents(level))
  {
    var up := Parents(level);
    forall a, b | 0 <= a < b < |up| ensures up[a] != up[b] {
      assert up[a].left == level[2 * a] && up[b].left == level[2 * b];
    }
    forall a, b | 0 <= a < |Parents(up)| && 0 <= b < |up| ensures Parents(up)[a] != up[b] {
      assert Parents(up)[a].left == up[2 * a] && up[b].left == level[2 * b];
    }
  }

  // ---------- The linear array ----------

  predicate IsPowerOfTwo(n: nat)
  {
    n == 1 || (n > 0 && n % 2 == 0 && IsPowerOfTwo(n / 2))
  }

  function Pow2(k: nat): (p: nat)
    ensures p > 0 && IsPowerOfTwo(p)
  {
    if k == 0 then 1 else 2 * Pow2(k - 1)
  }

  function Log2(n: nat): (k: nat)
    requires n > 0
    ensures Pow2(k) <= n < 2 * Pow2(k)
  {
    if n == 1 then 0 else 1 + Log2(n / 2)
  }

  /** nextPowerOfTwo; the test `n & (n-1) == 0` also lets zero through. */
  function NextPowerOfTwo(n: nat): (p: nat)
    ensures n == 0 ==> p == 0
    ensures n > 0 ==> IsPowerOfTwo(p) && n <= p < 2 * n
  {
    if n == 0 || IsPowerOfTwo(n) then n
    else
      NotPowerOfTwo(n, Log2(n));
      Pow2(Log2(n) + 1)
  }

  lemma NotPowerOfTwo(n: nat, k: nat)
    requires !IsPowerOfTwo(n)
    ensures n != Pow2(k)
  {
  }

  function Padded(level: seq<Hash>, width: nat): (cells: seq<Option<Hash>>)
    ensures |cells| == width
  {
    seq(width, i => if 0 <= i < |level| then Some(level[i]) else None)
  }

  /** The levels one after another, each padded with nil to its width. */
  function Store(level: seq<Hash>, width: nat): (cells: seq<Option<Hash>>)
    requires IsPowerOfTwo(width)
    ensures |cells| == 2 * width - 1
    decreases width
  {
    if width == 1 then Padded(level, 1)
    else Padded(level, width) + Store(Parents(level), width / 2)
  }

  /** A level fills more than half of its width and no more than all of it. */
  predicate Fills(level: seq<Hash>, width: nat)
  {
    |level| <= width < 2 * |level|
  }

  /** The last cell of the array is the root. */
  lemma {:induction false} StoreEndsInRoot(level: seq<Hash>, width: nat)
    requires IsPowerOfTwo(width) && Fills(level, width)
    ensures Store(level, width)[2 * width - 2] == Some(MerkleRoot(level))
    decreases width
  {
    if width > 1 {
      StoreEndsInRoot(Parents(level), width / 2);
    }
  }

  /** How a cell is computed from the two cells below it. */
  function Combine(left: Option<Hash>, right: Option<Hash>): (up: Option<Hash>)
  {
    match (left, right)
    case (None, _) => None
    case (Some(l), None) => Some(Node(l, l))
    case (Some(l), Some(r)) => Some(Node(l, r))
  }

  lemma CombinePadded(level: seq<Hash>, width: nat, j: nat)
    requires |level| <= width && width % 2 == 0 && j < width / 2
    ensures Combine(Padded(level, width)[2 * j], Padded(level, width)[2 * j + 1])
         == Padded(Parents(level), width / 2)[j]
  {
  }

  /** An array whose cells are combined pairwise from its bottom row is the store of that row. */
  lemma {:induction false} StoreIsUnique(cells: seq<Option<Hash>>, level: seq<Hash>, width: nat)
    requires IsPowerOfTwo(width) && |level| <= width && |cells| == 2 * width - 1
    requires cells[..width] == Padded(level, width)
    requires forall j :: 0 <= j < width - 1 ==> cells[width + j] == Combine(cells[2 * j], cells[2 * j + 1])
    ensures cells == Store(level, width)
    decreases width
  {
    if width == 1 {
      assert cells == cells[..1];
    } else {
      var up, half := cells[width..], width / 2;
      forall j | 0 <= j < half
        ensures up[j] == Padded(Parents(level), half)[j]
      {
        CombinePadded(level, width, j);
        assert cells[2 * j] == cells[..width][2 * j];
        assert cells[2 * j + 1] == cells[..width][2 * j + 1];
      }
      assert up[..half] == Padded(Parents(level), half);
      forall j | 0 <= j < half - 1
        ensures up[half + j] == Combine(up[2 * j], up[2 * j + 1])
      {
        assert cells[width + (half + j)] == Combine(cells[2 * (half + j)], cells[2 * (half + j) + 1]);
      }
      StoreIsUnique(up, Parents(level), half);
      assert cells == cells[..width] + up;
    }
  }

  /** An empty slice makes the source ask for an array of length -1, so it must not be empty. */
  method BuildMerkleTreeStore(data: seq<Hash>) returns (store: seq<Option<Hash>>)
    requires data != []
    ensures store == Store(data, NextPowerOfTwo(|data|))
  {
    var nextPoT := NextPowerOfTwo(|data|);
    var arraySize := nextPoT * 2 - 1;
    var merkles := new Option<Hash>[arraySize](_ => None);
    for i := 0 to |data|
      invariant forall k :: 0 <= k < i ==> merkles[k] == Some(data[k])
      invariant forall k :: i <= k < arraySize ==> merkles[k] == None
    {
      merkles[i] := Some(data[i]);
    }
    HashRows(merkles, nextPoT);
    store := merkles[..];
    assert store[..nextPoT] == Padded(data, nextPoT);
    StoreIsUnique(store, data, nextPoT);
  }

  /** Fills every row above the bottom one, two cells below giving one cell above. */
  method HashRows(merkles: array<Option<Hash>>, nextPoT: nat)
    requires nextPoT > 0 && merkles.Length == 2 * nextPoT - 1
    modifies merkles
    ensures forall k :: 0 <= k < nextPoT ==> merkles[k] == old(merkles[k])
    ensures forall j :: 0 <= j < nextPoT - 1 ==> merkles[nextPoT + j] == Combine(merkles[2 * j], merkles[2 * j + 1])
  {
    var offset, i := nextPoT, 0;
    ghost var done := 0;
    while i < merkles.Length - 1
      invariant 0 <= done <= nextPoT - 1 && i == 2 * done && offset == nextPoT + done
      invariant forall k :: 0 <= k < nextPoT ==> merkles[k] == old(merkles[k])
      invariant forall j :: 0 <= j < done ==> merkles[nextPoT + j] == Combine(merkles[2 * j], merkles[2 * j + 1])
    {
      if merkles[i] == None {
        merkles[offset] := None;
      } else if merkles[i + 1] == None {
        merkles[offset] := Some(Node(merkles[i].value, merkles[i].value));
      } else {
        merkles[offset] := Some(Node(merkles[i].value, merkles[i + 1].value));
      }
      assert merkles[nextPoT + done] == Combine(merkles[2 * done], merkles[2 * done + 1]);
      offset := offset + 1;
      i := i + 2;
      done := done + 1;
    }
  }

  const PROOF_WORD_BITS := 32

  /** The scan of a row matches the hash's own cell, and its parent matches none. */
  lemma MatchesOnce(row: seq<Hash>, p: nat)
    requires Separated(row) && p < |row|
    ensures forall k :: 0 <= k < |row| ==> (row[k] == row[p] <==> k == p) && row[k] != Parents(row)[p / 2]
  {
    hide Parents;
    assert p / 2 < |Parents(row)|;
  }

  lemma OneMoreStep(hashes: seq<Hash>, flags: Word, sibling: Hash, onRight: bool)
    requires (forall b :: b in flags ==> b < |hashes|) && |hashes| < PROOF_WORD_BITS
    ensures var more := if onRight then flags + {|hashes|} else flags;
      StepsOf(hashes + [sibling], more) == StepsOf(hashes, flags) + [Step(sibling, onRight)]
            && forall b :: b in more ==> b < |hashes| + 1
  {
  }

  /**
   One row of the scan below: look for `compare` among the cells of the row,
   record its sibling and go on with its parent.
   */
  method ScanRow(store: seq<Option<Hash>>, start: nat, nElements: nat, compare0: Hash,
                 hashes0: seq<Hash>, flags0: Word, ghost row: seq<Hash>, ghost p: nat)
      returns (compare: Hash, hashes: seq<Hash>, flags: Word)
    requires start % 2 == 0 && nElements % 2 == 0 && start + nElements <= |store|
    requires store[start..start + nElements] == Padded(row, nElements)
    ensures Separated(row) && p < |row| <= nElements && compare0 == row[p] && |hashes0| < PROOF_WORD_BITS
        && (forall b :: b in flags0 ==> b < |hashes0|)
        ==> && compare == Parents(row)[p / 2]
            && StepsOf(hashes, flags) == StepsOf(hashes0, flags0) + [SiblingStep(row, p)]
            && forall b :: b in flags ==> b < |hashes|
  {
    ghost var good := Separated(row) && p < |row| <= nElements && compare0 == row[p]
                      && |hashes0| < PROOF_WORD_BITS && forall b :: b in flags0 ==> b < |hashes0|;
    hide StepsOf, Separated, SiblingStep, Parents, Padded, CellStep;
    compare, hashes, flags := compare0, hashes0, flags0;
    if good {
      MatchesOnce(row, p);
      CellIsSibling(store, start, nElements, row, p);
    }
    var i := start;
    while i < start + nElements
      invariant start <= i <= start + nElements
      invariant good && i - start <= p ==> compare == compare0 && hashes == hashes0 && flags == flags0
      invariant good && i - start > p ==>
        && compare == Parents(row)[p / 2]
        && StepsOf(hashes, flags) == StepsOf(hashes0, flags0) + [SiblingStep(row, p)]
        && forall b :: b in flags ==> b < |hashes|
    {
      RowCells(store, start, nElements, row, i - start);
      if store[i] == Some(compare) {
        compare, hashes, flags := TakeSibling(store, i, hashes, flags);
      }
      i := i + 1;
    }
  }

  lemma RowCells(store: seq<Option<Hash>>, start: nat, width: nat, row: seq<Hash>, k: nat)
    requires start + width <= |store| && store[start..start + width] == Padded(row, width) && k < width
    ensures store[start + k] == if k < |row| then Some(row[k]) else None
    ensures k > 0 ==> store[start + k - 1] == if k - 1 < |row| then Some(row[k - 1]) else None
    ensures k + 1 < width ==> store[start + k + 1] == if k + 1 < |row| then Some(row[k + 1]) else None
  {
    assert store[start + k] == store[start..start + width][k];
    assert k > 0 ==> store[start + k - 1] == store[start..start + width][k - 1];
    assert k + 1 < width ==> store[start + k + 1] == store[start..start + width][k + 1];
  }

  /** The sibling of a cell: its neighbour, or itself where that is nil. */
  function CellStep(store: seq<Option<Hash>>, i: nat): (s: Step)
    requires i < |store| && store[i].Some? && (if i % 2 == 0 then i + 1 < |store| else store[i - 1].Some?)
  {
    if i % 2 == 1 then Step(store[i - 1].value, false)
    else Step(if store[i + 1] == None then store[i].value else store[i + 1].value, true)
  }

  lemma CellIsSibling(store: seq<Option<Hash>>, start: nat, width: nat, row: seq<Hash>, p: nat)
    requires start % 2 == 0 && width % 2 == 0 && start + width <= |store|
    requires store[start..start + width] == Padded(row, width)
    requires p < |row| <= width
    ensures store[start + p] == Some(row[p])
    ensures (if p % 2 == 0 then start + p + 1 < |store| else store[start + p - 1].Some?)
    ensures CellStep(store, start + p) == SiblingStep(row, p)
    ensures Apply(row[p], SiblingStep(row, p)) == Parents(row)[p / 2]
  {
    RowCells(store, start, width, row, p);
  }

  /** What happens when the cell matches: its sibling is recorded, and the search goes on with its parent. */
  method TakeSibling(store: seq<Option<Hash>>, i: nat, hashes0: seq<Hash>, flags0: Word)
      returns (compare: Hash, hashes: seq<Hash>, flags: Word)
    requires i < |store| && store[i].Some? && (if i % 2 == 0 then i + 1 < |store| else store[i - 1].Some?)
    ensures compare == Apply(store[i].value, CellStep(store, i))
    ensures (forall b :: b in flags0 ==> b < |hashes0|) && |hashes0| < PROOF_WORD_BITS ==>
      StepsOf(hashes, flags) == StepsOf(hashes0, flags0) + [CellStep(store, i)]
            && forall b :: b in flags ==> b < |hashes|
  {
    var s := CellStep(store, i);
    if (forall b :: b in flags0 ==> b < |hashes0|) && |hashes0| < PROOF_WORD_BITS {
      OneMoreStep(hashes0, flags0, s.sibling, s.onRight);
    }
    hashes, flags := hashes0, flags0;
    if i % 2 == 0 {
      var x := store[i + 1];
      var sibling := if x == None then store[i].value else x.value;
      flags := flags + if |hashes| < PROOF_WORD_BITS then {|hashes|} else {};
      hashes := hashes + [sibling];
      compare := Node(store[i].value, sibling);
    } else {
      hashes := hashes + [store[i - 1].value];
      compare := Node(store[i - 1].value, store[i].value);
    }
  }

  /**
   Scans the rows of the array for the hash, stepping up a row at a time.  For
   leaves that are pairwise different and none of which is a parent, the result
   is the path of the leaf: one hash a row, and a flag for each sibling on the right.
   */
  method MerkleInclusionProof(store: seq<Option<Hash>>, txid: Hash, ghost leaves: seq<Hash>, ghost pos: nat)
      returns (hashes: seq<Hash>, flags: Word)
    requires leaves != [] && store == Store(leaves, NextPowerOfTwo(|leaves|))
    ensures Separated(leaves) && pos < |leaves| && leaves[pos] == txid && Depth(|leaves|) <= PROOF_WORD_BITS
        ==> StepsOf(hashes, flags) == MerklePath(leaves, pos) && forall b :: b in flags ==> b < |hashes|
  {
    hide Separated, Store, MerklePath, Depth, NextPowerOfTwo, AtRow, Joins, SiblingStep;
    ghost var good := Separated(leaves) && pos < |leaves| && leaves[pos] == txid && Depth(|leaves|) <= PROOF_WORD_BITS;
    ghost var row, p: nat := leaves, pos;
    var nElements := (|store| + 1) / 2;
    var start: nat, compare := 0, txid;
    hashes, flags := [], {};
    FirstRow(store, leaves, pos);
    if |store| == 1 {
      return;
    }
    while true
      invariant nElements >= 2 && AtRow(store, start, nElements, row)
      invariant good ==> Separated(row) && p < |row| && compare == row[p]
      invariant good ==> Joins(StepsOf(hashes, flags), row, p, MerklePath(leaves, pos))
      invariant good ==> forall b :: b in flags ==> b < |hashes|
      decreases nElements
    {
      NextRow(store, start, nElements, row);
      if good {
        StepUp(StepsOf(hashes, flags), row, p, MerklePath(leaves, pos));
      }
      compare, hashes, flags := ScanRow(store, start, nElements, compare, hashes, flags, row, p);
      row, p := Parents(row), p / 2;
      start := start + nElements;
      nElements := nElements / 2;
      if start + nElements >= |store| {
        if good {
          JoinsAtRoot(StepsOf(hashes, flags), row, p, MerklePath(leaves, pos));
        }
        return;
      }
    }
  }

  /** A row of the array, wide enough for its hashes, and the rows above it up to the end. */
  ghost predicate AtRow(store: seq<Option<Hash>>, start: nat, width: nat, row: seq<Hash>)
  {
    && IsPowerOfTwo(width) && Fills(row, width)
    && start % 2 == 0 && start + 2 * width - 1 == |store|
    && store[start..] == Store(row, width)
  }

  lemma FirstRow(store: seq<Option<Hash>>, leaves: seq<Hash>, pos: nat)
    requires leaves != [] && store == Store(leaves, NextPowerOfTwo(|leaves|))
    ensures AtRow(store, 0, (|store| + 1) / 2, leaves) && |store| >= 1 && (|store| == 1 ==> |leaves| == 1)
    ensures |leaves| == 1 && pos < |leaves| ==> StepsOf([], {}) == MerklePath(leaves, pos)
    ensures pos < |leaves| ==>
      Joins(StepsOf([], {}), leaves, pos, MerklePath(leaves, pos)) && |MerklePath(leaves, pos)| == Depth(|leaves|)
  {
    hide Store, MerklePath, Depth, IsPowerOfTwo, NextPowerOfTwo;
    assert store[0..] == store;
    HalfOfStore(|store|, NextPowerOfTwo(|leaves|));
    if pos < |leaves| {
      FirstPath(leaves, pos);
    }
  }

  lemma HalfOfStore(cells: nat, width: nat)
    requires cells == 2 * width - 1
    ensures (cells + 1) / 2 == width
  {
  }

  lemma FirstPath(leaves: seq<Hash>, pos: nat)
    requires pos < |leaves|
    ensures |leaves| == 1 ==> StepsOf([], {}) == MerklePath(leaves, pos)
    ensures Joins(StepsOf([], {}), leaves, pos, MerklePath(leaves, pos)) && |MerklePath(leaves, pos)| == Depth(|leaves|)
  {
    MerklePathLength(leaves, pos);
    assert StepsOf([], {}) + MerklePath(leaves, pos) == MerklePath(leaves, pos);
  }

  /** The steps taken so far and the path still ahead make up the whole path. */
  ghost predicate Joins(done: seq<Step>, row: seq<Hash>, p: nat, path: seq<Step>)
  {
    p < |row| && done + MerklePath(row, p) == path
  }

  lemma NextRow(store: seq<Option<Hash>>, start: nat, width: nat, row: seq<Hash>)
    requires width >= 2 && AtRow(store, start, width, row)
    ensures start % 2 == 0 && width % 2 == 0 && start + width <= |store| && |row| > 1 && |row| <= width
    ensures store[start..start + width] == Padded(row, width)
    ensures AtRow(store, start + width, width / 2, Parents(row))
    ensures start + width + width / 2 >= |store| <==> width == 2
    ensures width == 2 ==> |Parents(row)| == 1
  {
    assert store[start..start + width] == store[start..][..width];
    assert store[start + width..] == store[start..][width..];
  }

  /** At the root nothing is left of the path. */
  lemma JoinsAtRoot(done: seq<Step>, row: seq<Hash>, p: nat, path: seq<Step>)
    requires Joins(done, row, p, path) && |row| == 1
    ensures done == path
  {
    assert done + [] == done;
  }

  lemma StepUp(done: seq<Step>, row: seq<Hash>, p: nat, path: seq<Step>)
    requires |row| > 1 && Joins(done, row, p, path) && Separated(row)
    ensures Joins(done + [SiblingStep(row, p)], Parents(row), p / 2, path)
    ensures Separated(Parents(row)) && |done| < |path|
  {
    ParentsSeparated(row);
    assert (done + [SiblingStep(row, p)]) + MerklePath(Parents(row), p / 2) == done + MerklePath(row, p);
  }

  // ---------- When leaves are separated ----------

  /** The value at the far left of a hash. */
  function First(h: Hash): (v: int)
  {
    match h
    case Raw(v) => v
    case Lurk(_) => -1
    case Node(l, _) => First(l)
  }

  function Size(h: Hash): (n: nat)
  {
    if h.Node? then 1 + Size(h.left) + Size(h.right) else 0
  }

  /** Different far-left values are enough: they tell leaves apart and keep parents out. */
  lemma FirstsSeparate(level: seq<Hash>)
    requires forall a, b :: 0 <= a < b < |level| ==> First(level[a]) != First(level[b])
    ensures Separated(level)
  {
    forall a, b | 0 <= a < |Parents(level)| && 0 <= b < |level| ensures Parents(level)[a] != level[b] {
      var parent := Parents(level)[a];
      assert parent.left == level[2 * a];
      assert First(parent) == First(level[2 * a]);
      assert Size(parent) > Size(level[2 * a]);
    }
  }

  lemma {:induction false} DepthBound(n: nat, k: nat)
    requires n <= Pow2(k)
    ensures Depth(n) <= k
    decreases k
  {
    if n > 1 {
      DepthBound((n + 1) / 2, k - 1);
    }
  }
}
