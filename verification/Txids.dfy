/**
 Transaction IDs, their order (types/id.go) and the lists of them that the
 mempool keeps sorted (mempool/sort.go).
 */
module Txids {
  import opened VoteBits

  type Bytes = seq<bv8>

  /** 1, 0 or -1; the first byte that differs decides. */
  function Compare(a: Bytes, b: Bytes): (c: int)
    requires |a| == |b|
    ensures c == 0 <==> a == b
    ensures -1 <= c <= 1
  {
    if a == [] then 0
    else if a[0] > b[0] then 1
    else if a[0] < b[0] then -1
    else
      var c := Compare(a[1..], b[1..]);
      assert c == 0 ==> a == [b[0]] + b[1..];
      c
  }

  predicate HasPrefix(id: Bytes, prefix: Bytes)
  {
    prefix <= id
  }

  /** The method that looks byte by byte. */
  method CompareIDs(id: ID, target: ID) returns (c: int)
    ensures c == Compare(id, target)
  {
    for i := 0 to 32
      invariant Compare(id, target) == Compare(id[i..], target[i..])
    {
      var a, b := id[i], target[i];
      if a > b {
        return 1;
      }
      if a < b {
        return -1;
      }
      assert id[i..][1..] == id[i + 1..] && target[i..][1..] == target[i + 1..];
    }
    c := 0;
  }

  lemma {:induction false} Antisymmetric(a: Bytes, b: Bytes)
    requires |a| == |b|
    ensures Compare(a, b) == -Compare(b, a)
  {
    if a != [] && a[0] == b[0] {
      Antisymmetric(a[1..], b[1..]);
    }
  }

  lemma {:induction false} TransitiveOrder(a: Bytes, b: Bytes, c: Bytes)
    requires |a| == |b| == |c| && Compare(a, b) <= 0 && Compare(b, c) <= 0
    ensures Compare(a, c) <= 0
    ensures Compare(a, b) < 0 || Compare(b, c) < 0 ==> Compare(a, c) < 0
  {
    if a != [] && a[0] == b[0] && b[0] == c[0] {
      TransitiveOrder(a[1..], b[1..], c[1..]);
    }
  }

  /** Cutting two IDs to one length keeps their order, though not strictly. */
  lemma {:induction false} CutKeepsOrder(a: Bytes, b: Bytes, k: nat)
    requires |a| == |b| && k <= |a| && Compare(a, b) <= 0
    ensures Compare(a[..k], b[..k]) <= 0
  {
    if k != 0 && a[0] == b[0] {
      CutKeepsOrder(a[1..], b[1..], k - 1);
      assert a[..k][1..] == a[1..][..k - 1] && b[..k][1..] == b[1..][..k - 1];
    }
  }

  lemma {:induction false} ZeroIsLeast(a: Bytes, zero: Bytes)
    requires |a| == |zero| && forall i :: 0 <= i < |zero| ==> zero[i] == 0
    ensures Compare(zero, a) <= 0
  {
    if a != [] && a[0] == 0 {
      ZeroIsLeast(a[1..], zero[1..]);
    }
  }

  lemma {:induction false} OnesAreGreatest(a: Bytes, ones: Bytes)
    requires |a| == |ones| && forall i :: 0 <= i < |ones| ==> ones[i] == 0xff
    ensures Compare(a, ones) <= 0
  {
    if a != [] && a[0] == 0xff {
      OnesAreGreatest(a[1..], ones[1..]);
    }
  }

  ghost predicate Sorted(s: seq<ID>)
  {
    forall i, j :: 0 <= i < j < |s| ==> Compare(s[i], s[j]) <= 0
  }

  ghost predicate StrictlySorted(s: seq<ID>)
  {
    forall i, j :: 0 <= i < j < |s| ==> Compare(s[i], s[j]) < 0
  }

  /** An ID that lies between two with a common prefix has it as well. */
  lemma BetweenHasPrefix(a: ID, b: ID, c: ID, prefix: Bytes)
    requires Compare(a, b) <= 0 && Compare(b, c) <= 0
    requires HasPrefix(a, prefix) && HasPrefix(c, prefix)
    ensures HasPrefix(b, prefix)
  {
    hide Compare;
    var k := |prefix|;
    assert a[..k] == prefix && c[..k] == prefix;
    CutKeepsOrder(a, b, k);
    CutKeepsOrder(b, c, k);
    Antisymmetric(b[..k], prefix);
  }

  /** Puts an ID at its place in a sorted list. */
  function InsertSorted(s: seq<ID>, x: ID): (r: seq<ID>)
    ensures multiset(r) == multiset(s) + multiset{x}
  {
    if s == [] || Compare(x, s[0]) <= 0 then [x] + s
    else
      assert s == [s[0]] + s[1..];
      [s[0]] + InsertSorted(s[1..], x)
  }

  lemma Prepend(x: ID, s: seq<ID>)
    ensures Sorted(s) && (forall y :: y in s ==> Compare(x, y) <= 0) ==> Sorted([x] + s)
    ensures StrictlySorted(s) && (forall y :: y in s ==> Compare(x, y) < 0) ==> StrictlySorted([x] + s)
  {
    hide Compare;
  }

  lemma InInserted(s: seq<ID>, x: ID, y: ID)
    ensures y in InsertSorted(s, x) <==> y == x || y in s
  {
    hide InsertSorted;
    assert y in InsertSorted(s, x) <==> y in multiset(InsertSorted(s, x));
    assert y in s <==> y in multiset(s);
  }

  lemma FirstIsLeast(s: seq<ID>, y: ID)
    requires s != [] && Sorted(s) && y in s
    ensures Compare(s[0], y) <= 0
    ensures StrictlySorted(s) && y in s[1..] ==> Compare(s[0], y) < 0
  {
    hide Compare;
    var k :| 0 <= k < |s| && s[k] == y;
    if y in s[1..] {
      var m :| 0 <= m < |s| - 1 && s[1..][m] == y;
      assert s[m + 1] == y;
    }
  }

  lemma Tail(s: seq<ID>)
    requires s != []
    ensures Sorted(s) ==> Sorted(s[1..])
    ensures StrictlySorted(s) ==> StrictlySorted(s[1..])
  {
    hide Compare;
  }

  lemma {:induction false} InsertKeepsSorted(s: seq<ID>, x: ID)
    requires Sorted(s)
    ensures Sorted(InsertSorted(s, x))
    ensures StrictlySorted(s) && x !in s ==> StrictlySorted(InsertSorted(s, x))
  {
    hide Compare, Sorted, StrictlySorted;
    if s == [] {
      Prepend(x, s);
    } else if Compare(x, s[0]) <= 0 {
      forall y | y in s ensures Compare(x, y) <= 0 && (x !in s ==> Compare(x, y) < 0) {
        FirstIsLeast(s, y);
        TransitiveOrder(x, s[0], y);
      }
      Prepend(x, s);
    } else {
      Tail(s);
      InsertKeepsSorted(s[1..], x);
      Antisymmetric(x, s[0]);
      forall y | y in InsertSorted(s[1..], x)
        ensures Compare(s[0], y) <= 0 && (StrictlySorted(s) ==> Compare(s[0], y) < 0) {
        InInserted(s[1..], x, y);
        if y != x {
          FirstIsLeast(s, y);
        }
      }
      Prepend(s[0], InsertSorted(s[1..], x));
    }
  }

  lemma EmptyIsSorted()
    ensures Sorted([]) && StrictlySorted([])
  {
  }

  /** The IDs in order. */
  method SortTxids(ids: set<ID>, more: seq<ID>) returns (s: seq<ID>)
    ensures Sorted(s) && multiset(s) == multiset(ids) + multiset(more)
    ensures more == [] ==> StrictlySorted(s)
  {
    hide Sorted, StrictlySorted, InsertSorted;
    EmptyIsSorted();
    s := [];
    var todo := ids;
    while todo != {}
      invariant todo <= ids && multiset(s) == multiset(ids - todo)
      invariant Sorted(s) && StrictlySorted(s)
      decreases todo
    {
      var x :| x in todo;
      assert x !in multiset(s);
      InsertKeepsSorted(s, x);
      s := InsertSorted(s, x);
      todo := todo - {x};
      assert ids - todo == ids - (todo + {x}) + {x};
    }
    assert ids - todo == ids;
    for i := 0 to |more|
      invariant Sorted(s) && multiset(s) == multiset(ids) + multiset(more[..i])
      invariant more == [] ==> StrictlySorted(s)
    {
      InsertKeepsSorted(s, more[i]);
      s := InsertSorted(s, more[i]);
      assert more[..i + 1] == more[..i] + [more[i]];
    }
    assert more[..|more|] == more;
  }
}
