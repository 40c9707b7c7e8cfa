/**
 The byte strings the node hashes and compares, and the words it keeps flags in.

 A 32-byte string is one of three things: a value that no modelled hash
 produced (`Raw`, read as a big-endian integer), a Lurk commitment of an
 expression (`Lurk`), or the hash of two 32-byte strings (`Node`).  Both
 hashes are free constructors, which is what "collision resistant" means here.
 An index padded to 32 bytes is `Raw(index)`.
 */
module Hashes {

  datatype Expr = Nil | Atom(hash: Hash) | Cons(head: Expr, tail: Expr)

  datatype Hash = Raw(value: nat) | Lurk(expr: Expr) | Node(left: Hash, right: Hash)

  /** An unsigned machine word, as the set of positions of its one bits. */
  type Word = set<nat>

  const WORD_BITS := 64
  const MAX_UINT64: nat := 0xFFFF_FFFF_FFFF_FFFF

  /** The value of an integer expression in 64-bit unsigned arithmetic. */
  function Wrap64(x: int): (r: nat)
    ensures r <= MAX_UINT64
    ensures 0 <= x <= MAX_UINT64 ==> r == x
  {
    x % 0x1_0000_0000_0000_0000
  }

  /** `1 << k` in a 64-bit word: shifting past the word gives zero. */
  function OneBit(k: nat): (w: Word)
  {
    if k < WORD_BITS then {k} else {}
  }

  /** `w << amount` in a 64-bit word. */
  function ShiftLeft(w: Word, amount: nat): (r: Word)
  {
    set k | k in w && k + amount < WORD_BITS :: k + amount
  }

  /** HashWithIndex on 32-byte data. */
  function Leaf(index: nat, data: Hash): (h: Hash)
  {
    Node(Raw(index), data)
  }

  /** One level of an inclusion proof: the sibling, and whether it is on the right. */
  datatype Step = Step(sibling: Hash, onRight: bool)

  function Apply(h: Hash, s: Step): (r: Hash)
  {
    if s.onRight then Node(h, s.sibling) else Node(s.sibling, h)
  }

  /** The hash reached from `h` by taking the steps in order. */
  function Climb(h: Hash, steps: seq<Step>): (r: Hash)
  {
    if steps == [] then h
    else Apply(Climb(h, steps[..|steps| - 1]), steps[|steps| - 1])
  }

  /** The steps that a list of hashes and a flag word stand for. */
  function StepsOf(hashes: seq<Hash>, flags: Word): (steps: seq<Step>)
    ensures |steps| == |hashes|
  {
    seq(|hashes|, i requires 0 <= i < |hashes| => Step(hashes[i], i in flags))
  }

  lemma ClimbSnoc(h: Hash, steps: seq<Step>, s: Step)
    ensures Climb(h, steps + [s]) == Apply(Climb(h, steps), s)
  {
    assert (steps + [s])[..|steps|] == steps;
  }

  lemma {:induction false} ClimbConcat(h: Hash, a: seq<Step>, b: seq<Step>)
    ensures Climb(h, a + b) == Climb(Climb(h, a), b)
  {
    if b == [] {
      assert a + b == a;
    } else {
      var b' := b[..|b| - 1];
      assert a + b == (a + b') + [b[|b| - 1]];
      assert b == b' + [b[|b| - 1]];
      ClimbConcat(h, a, b');
      ClimbSnoc(h, a + b', b[|b| - 1]);
    }
  }

  /** Joining two proofs under one flag word joins their steps, as long as the word holds them. */
  lemma StepsOfJoin(h1: seq<Hash>, f1: Word, h2: seq<Hash>, f2: Word)
    requires forall i :: i in f1 ==> i < |h1|
    requires |h1| + |h2| <= WORD_BITS
    ensures StepsOf(h1 + h2, f1 + ShiftLeft(f2, |h1|)) == StepsOf(h1, f1) + StepsOf(h2, f2)
  {
    var f := f1 + ShiftLeft(f2, |h1|);
    var a, b := StepsOf(h1 + h2, f), StepsOf(h1, f1) + StepsOf(h2, f2);
    forall i | 0 <= i < |a| ensures a[i] == b[i] {
      if i < |h1| {
        assert i in f <==> i in f1;
      } else {
        var k := i - |h1|;
        assert i in ShiftLeft(f2, |h1|) <==> k in f2;
      }
    }
  }

  /** `h` can be reached from `t` by going down through hashed pairs. */
  predicate Below(h: Hash, t: Hash)
  {
    h == t || (t.Node? && (Below(h, t.left) || Below(h, t.right)))
  }

  lemma {:induction false} ClimbIsAbove(h: Hash, steps: seq<Step>)
    ensures Below(h, Climb(h, steps))
  {
    if steps != [] {
      ClimbIsAbove(h, steps[..|steps| - 1]);
    }
  }

  /** Whatever lies below a hash can be proved to: there are steps that climb to it. */
  lemma {:induction false} StepsFromBelow(h: Hash, t: Hash) returns (steps: seq<Step>)
    requires Below(h, t)
    ensures Climb(h, steps) == t
  {
    if h == t {
      steps := [];
    } else {
      var left := Below(h, t.left);
      var below := StepsFromBelow(h, if left then t.left else t.right);
      var s := if left then Step(t.right, true) else Step(t.left, false);
      ClimbSnoc(h, below, s);
      steps := below + [s];
    }
  }
}
