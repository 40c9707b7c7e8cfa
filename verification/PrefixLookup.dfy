/**
 Looking a block's prefixes up in a sorted list of IDs with a cursor that never
 goes back (mempool/xthinner.go:183-208), against a search of the whole list.
 */
module PrefixLookup {
  import opened VoteBits
  import opened Txids

  /** What is decided about a position: an ID, a request for it, or neither. */
  datatype Outcome = Found(id: ID) | Requested | Blank

  /** The cursor stops at the first ID, from where it stood, whose start is not below the prefix. */
  function Stop(list: seq<ID>, cursor: nat, prefix: Bytes): (c: nat)
    requires cursor <= |list| && |prefix| <= 32
    ensures cursor <= c <= |list|
    ensures forall j :: cursor <= j < c ==> Compare(prefix, list[j][..|prefix|]) > 0
    ensures c < |list| ==> Compare(prefix, list[c][..|prefix|]) <= 0
    decreases |list| - cursor
  {
    if cursor < |list| && Compare(prefix, list[cursor][..|prefix|]) > 0 then Stop(list, cursor + 1, prefix) else cursor
  }

  /** The outcome with the cursor at `c`; the list ends in the top ID, which is none of them. */
  function OutcomeAt(list: seq<ID>, c: nat, prefix: Bytes): (o: Outcome)
    requires c <= |list| && |prefix| <= 32
  {
    if !HasPrefix(if c < |list| then list[c] else ALL_ONES, prefix) then Requested
    else if c + 1 < |list| && HasPrefix(list[c + 1], prefix) then Requested
    else if c < |list| then Found(list[c])
    else Blank
  }

  predicate NoneTooLong(prefixes: seq<Bytes>)
  {
    forall i :: 0 <= i < |prefixes| ==> |prefixes[i]| <= 32
  }

  function Outcomes(list: seq<ID>, cursor: nat, prefixes: seq<Bytes>): (o: seq<Outcome>)
    requires cursor <= |list| && NoneTooLong(prefixes)
    ensures |o| == |prefixes|
    decreases |prefixes|
  {
    if prefixes == [] then []
    else
      var c := Stop(list, cursor, prefixes[0]);
      [OutcomeAt(list, c, prefixes[0])] + Outcomes(list, c, prefixes[1..])
  }

  /** `i` is the only place with the prefix. */
  ghost predicate OnlyAt(list: seq<ID>, i: int, prefix: Bytes)
  {
    0 <= i < |list| && forall j :: 0 <= j < |list| ==> (HasPrefix(list[j], prefix) <==> j == i)
  }

  ghost predicate NoneHas(list: seq<ID>, prefix: Bytes)
  {
    forall j :: 0 <= j < |list| ==> !HasPrefix(list[j], prefix)
  }

  /**
   What the outcome means, without a cursor: the ID found is the only one with
   the prefix; one is requested when none has it or several do; and when none
   has a prefix that is all ones, nothing is found and nothing is requested.
   */
  ghost predicate Means(list: seq<ID>, prefix: Bytes, o: Outcome)
  {
    match o
    case Found(id) => exists i :: OnlyAt(list, i, prefix) && list[i] == id
    case Requested => if NoneHas(list, prefix) then !HasPrefix(ALL_ONES, prefix)
                      else forall i :: !OnlyAt(list, i, prefix)
    case Blank => NoneHas(list, prefix) && HasPrefix(ALL_ONES, prefix)
  }

  /** The prefixes of a sorted block: each starts its own ID and no other of the block. */
  ghost predicate PrefixesOf(ids: seq<ID>, prefixes: seq<Bytes>)
  {
    && |prefixes| == |ids| && NoneTooLong(prefixes)
    && forall i, j :: 0 <= i < |ids| && 0 <= j < |ids| ==> (HasPrefix(ids[j], prefixes[i]) <==> i == j)
  }

  /** No ID that the cursor has passed has the prefix. */
  ghost predicate Passed(list: seq<ID>, cursor: nat, prefix: Bytes)
    requires cursor <= |list|
  {
    forall j :: 0 <= j < cursor ==> !HasPrefix(list[j], prefix)
  }

  lemma BelowHasNot(id: ID, prefix: Bytes)
    requires |prefix| <= 32 && HasPrefix(id, prefix)
    ensures id[..|prefix|] == prefix && Compare(prefix, id[..|prefix|]) == 0
  {
  }

  lemma FirstAbove(a: ID, b: ID, prefix: Bytes)
    requires |prefix| <= 32 && Compare(a, b) <= 0 && Compare(prefix, a[..|prefix|]) <= 0 && HasPrefix(b, prefix)
    ensures HasPrefix(a, prefix)
  {
    hide Compare;
    var k := |prefix|;
    CutKeepsOrder(a, b, k);
    BelowHasNot(b, prefix);
    Antisymmetric(a[..k], prefix);
  }

  lemma NothingAboveTop(id: ID, prefix: Bytes)
    requires |prefix| <= 32 && HasPrefix(ALL_ONES, prefix) && Compare(prefix, id[..|prefix|]) <= 0
    ensures HasPrefix(id, prefix)
  {
    hide Compare, HasPrefix;
    OnesAreGreatest(id, ALL_ONES);
    FirstAbove(id, ALL_ONES, prefix);
  }

  /** What the cursor skips for one prefix lies below that ID, so it cannot have the prefix of a later one. */
  lemma SkipsNone(list: seq<ID>, cursor: nat, id: ID, prefix: Bytes, later: ID, laterPrefix: Bytes)
    requires cursor <= |list| && HasPrefix(id, prefix) && |prefix| <= 32 && |laterPrefix| <= 32
    requires Compare(id, later) <= 0 && HasPrefix(later, laterPrefix)
    requires HasPrefix(id, laterPrefix) ==> id == later && prefix == laterPrefix
    requires Passed(list, cursor, laterPrefix)
    ensures Passed(list, Stop(list, cursor, prefix), laterPrefix)
  {
    hide Compare, Stop;
    forall j | cursor <= j < Stop(list, cursor, prefix) ensures !HasPrefix(list[j], laterPrefix) {
      if HasPrefix(list[j], laterPrefix) {
        BelowHasNot(id, prefix);
        if Compare(id, list[j]) <= 0 {
          CutKeepsOrder(id, list[j], |prefix|);
          assert false;
        }
        Antisymmetric(id, list[j]);
        BetweenHasPrefix(list[j], id, later, laterPrefix);
        BelowHasNot(list[j], prefix);
      }
    }
  }

  /** A search of the whole list has one meaning at most. */
  lemma OneMeaning(list: seq<ID>, prefix: Bytes, a: Outcome, b: Outcome)
    requires Means(list, prefix, a) && Means(list, prefix, b)
    ensures a == b
  {
  }

  lemma TwoHaveIt(list: seq<ID>, prefix: Bytes, c: nat)
    requires c + 1 < |list| && HasPrefix(list[c], prefix) && HasPrefix(list[c + 1], prefix)
    ensures Means(list, prefix, Requested)
  {
  }

  lemma OneHasIt(list: seq<ID>, prefix: Bytes, c: nat)
    requires Sorted(list) && c < |list| && Passed(list, c, prefix) && HasPrefix(list[c], prefix)
    requires c + 1 < |list| ==> !HasPrefix(list[c + 1], prefix)
    ensures OnlyAt(list, c, prefix)
  {
    hide Compare, HasPrefix;
    forall j | c < j < |list| ensures !HasPrefix(list[j], prefix) {
      if HasPrefix(list[j], prefix) {
        if j > c + 1 {
          BetweenHasPrefix(list[c], list[c + 1], list[j], prefix);
        }
        assert false;
      }
    }
  }

  lemma NoneHasIt(list: seq<ID>, prefix: Bytes, c: nat)
    requires Sorted(list) && c < |list| && Passed(list, c, prefix) && !HasPrefix(list[c], prefix)
    requires |prefix| <= 32 && Compare(prefix, list[c][..|prefix|]) <= 0
    ensures NoneHas(list, prefix)
  {
    hide Compare, HasPrefix, Sorted;
    forall j | c < j < |list| ensures !HasPrefix(list[j], prefix) {
      InOrder(list, c, j);
      if HasPrefix(list[j], prefix) {
        FirstAbove(list[c], list[j], prefix);
      }
    }
  }

  lemma InOrder(list: seq<ID>, i: nat, j: nat)
    requires Sorted(list) && i < j < |list|
    ensures Compare(list[i], list[j]) <= 0
  {
    hide Compare;
  }

  /** Where the cursor stops, the outcome is what it should be. */
  lemma StopIsRight(list: seq<ID>, c: nat, prefix: Bytes)
    requires Sorted(list) && c <= |list| && |prefix| <= 32 && Passed(list, c, prefix)
    requires c < |list| ==> Compare(prefix, list[c][..|prefix|]) <= 0
    ensures Means(list, prefix, OutcomeAt(list, c, prefix))
  {
    hide Compare, HasPrefix, Sorted, ALL_ONES;
    if c == |list| {
      assert NoneHas(list, prefix);
    } else if !HasPrefix(list[c], prefix) {
      NoneHasIt(list, prefix, c);
      if HasPrefix(ALL_ONES, prefix) {
        NothingAboveTop(list[c], prefix);
      }
    } else if c + 1 < |list| && HasPrefix(list[c + 1], prefix) {
      TwoHaveIt(list, prefix, c);
    } else {
      OneHasIt(list, prefix, c);
    }
  }

  /** For the prefixes of a sorted block, whatever the list: the cursor finds what a search of the whole list would. */
  lemma {:induction false} OutcomesMean(list: seq<ID>, cursor: nat, ids: seq<ID>, prefixes: seq<Bytes>)
    requires Sorted(list) && cursor <= |list| && StrictlySorted(ids) && PrefixesOf(ids, prefixes)
    requires forall i :: 0 <= i < |ids| ==> Passed(list, cursor, prefixes[i])
    ensures forall i :: 0 <= i < |ids| ==> Means(list, prefixes[i], Outcomes(list, cursor, prefixes)[i])
    decreases |prefixes|
  {
    hide Compare, Means, Passed, OutcomeAt, Stop;
    if ids != [] {
      var c := Stop(list, cursor, prefixes[0]);
      forall i | 0 <= i < |ids| ensures Passed(list, c, prefixes[i]) {
        SkipsNone(list, cursor, ids[0], prefixes[0], ids[i], prefixes[i]);
      }
      StopIsRight(list, c, prefixes[0]);
      OutcomesMean(list, c, ids[1..], prefixes[1..]);
      forall i | 0 <= i < |ids| ensures Means(list, prefixes[i], Outcomes(list, cursor, prefixes)[i]) {
        if i > 0 {
          assert Outcomes(list, cursor, prefixes)[i] == Outcomes(list, c, prefixes[1..])[i - 1];
          assert prefixes[i] == prefixes[1..][i - 1];
        }
      }
    }
  }
}
