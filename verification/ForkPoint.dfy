/**
 Where the chains of several peers part (findForkPoint of sync/sync_manager.go).
 The peers' chains do not change during the search.
 */
module ForkPoint {
  import opened Prelude

  /** A block ID is the hash of a header, which holds the height and the parent's ID. */
  datatype BlockID = Genesis(rest: nat) | Child(parent: BlockID, height: nat, rest: nat)

  datatype Peer = Peer(reachable: bool, chain: seq<BlockID>)

  datatype Result = Failed | Fork(id: BlockID, height: nat)

  /** Every header is the child of the one below it. */
  ghost predicate IsChain(chain: seq<BlockID>)
  {
    && |chain| > 0 && chain[0].Genesis?
    && forall i :: 0 < i < |chain| ==> chain[i].Child? && chain[i].parent == chain[i - 1] && chain[i].height == i
  }

  /** A block that two chains share has one height in them, and everything below it is shared too. */
  lemma {:induction false} SharedBelow(a: seq<BlockID>, b: seq<BlockID>, i: nat, j: nat)
    requires IsChain(a) && IsChain(b) && i < |a| && j < |b| && a[i] == b[j]
    ensures i == j && a[..i + 1] == b[..i + 1]
  {
    if i > 0 {
      SharedBelow(a, b, i - 1, j - 1);
    }
  }

  /**
   A peer's answer: its block at the height, or its best block if the chain ends
   before, unless that is below the start.
   */
  function Answer(p: Peer, startHeight: nat, getHeight: nat): (r: Option<BlockID>)
  {
    if !p.reachable then None
    else if getHeight < |p.chain| then Some(p.chain[getHeight])
    else if |p.chain| == 0 || |p.chain| - 1 < startHeight then None
    else Some(p.chain[|p.chain| - 1])
  }

  ghost predicate IsAnswer(peers: seq<Peer>, startHeight: nat, getHeight: nat, id: BlockID)
  {
    exists i :: 0 <= i < |peers| && Answer(peers[i], startHeight, getHeight) == Some(id)
  }

  /** The different answers at a height, none of them a failure. */
  ghost predicate AnswersAt(peers: seq<Peer>, startHeight: nat, getHeight: nat, ids: set<BlockID>)
  {
    && (forall i :: 0 <= i < |peers| ==>
          Answer(peers[i], startHeight, getHeight).Some? && Answer(peers[i], startHeight, getHeight).value in ids)
    && (forall id :: id in ids ==> IsAnswer(peers, startHeight, getHeight, id))
  }

  /** Every peer has the same block at the height. */
  ghost predicate CommonAt(peers: seq<Peer>, h: nat, id: BlockID)
  {
    forall i :: 0 <= i < |peers| ==> h < |peers[i].chain| && peers[i].chain[h] == id
  }

  /** The last height at which all peers have the same block. */
  ghost predicate IsForkPoint(peers: seq<Peer>, h: nat, id: BlockID)
  {
    CommonAt(peers, h, id) && forall k, other :: k > h ==> !CommonAt(peers, k, other)
  }

  /** Two peers answer differently. */
  ghost predicate Differ(peers: seq<Peer>, startHeight: nat, getHeight: nat)
  {
    exists i, j :: 0 <= i < j < |peers| &&
      Answer(peers[i], startHeight, getHeight) != Answer(peers[j], startHeight, getHeight)
  }

  /** Reachable peers with hash-linked chains that reach the start. */
  ghost predicate Honest(peers: seq<Peer>, startHeight: nat)
  {
    forall i :: 0 <= i < |peers| ==> peers[i].reachable && IsChain(peers[i].chain) && startHeight < |peers[i].chain|
  }

  /**
   If all answers at a height are equal although they are not at a higher one,
   no chain has ended yet, so the answer is the common block at that height.
   */
  lemma EqualMeansCommon(peers: seq<Peer>, start: nat, mid: nat, to: nat, id: BlockID)
    requires Honest(peers, start) && start <= mid <= to && Differ(peers, start, to)
    requires forall i :: 0 <= i < |peers| ==> Answer(peers[i], start, mid) == Some(id)
    ensures CommonAt(peers, mid, id)
  {
    forall i | 0 <= i < |peers| ensures mid < |peers[i].chain| {
      if |peers[i].chain| <= mid {
        forall j | 0 <= j < |peers| ensures Answer(peers[j], start, to) == Answer(peers[i], start, to) {
          EndedTogether(peers[i], peers[j], start, mid, id);
        }
        assert false;
      }
    }
  }

  /** A peer with the same answer as one whose chain has ended has a chain that ends there too. */
  lemma EndedTogether(p: Peer, q: Peer, start: nat, mid: nat, id: BlockID)
    requires p.reachable && IsChain(p.chain) && start < |p.chain| <= mid
    requires q.reachable && IsChain(q.chain) && start < |q.chain|
    requires Answer(p, start, mid) == Some(id) == Answer(q, start, mid)
    ensures |p.chain| == |q.chain| && p.chain[|p.chain| - 1] == q.chain[|q.chain| - 1] == id
  {
    SharedBelow(p.chain, q.chain, |p.chain| - 1, if mid < |q.chain| then mid else |q.chain| - 1);
  }

  /** Above a height where answers differ the peers have no block in common. */
  lemma NoneCommonAbove(peers: seq<Peer>, start: nat, to: nat, k: nat, id: BlockID)
    requires Honest(peers, start) && Differ(peers, start, to) && to <= k
    ensures !CommonAt(peers, k, id)
  {
    if CommonAt(peers, k, id) {
      var i, j :| 0 <= i < j < |peers| && Answer(peers[i], start, to) != Answer(peers[j], start, to);
      SharedBelow(peers[i].chain, peers[j].chain, k, k);
    }
  }

  lemma Parts(peers: seq<Peer>, start: nat, mid: nat, high: nat, id: BlockID)
    requires Honest(peers, start) && start <= mid < high <= mid + 1 && Differ(peers, start, high)
    requires forall i :: 0 <= i < |peers| ==> Answer(peers[i], start, mid) == Some(id)
    ensures IsForkPoint(peers, mid, id)
  {
    hide Answer, Honest, Differ, CommonAt;
    EqualMeansCommon(peers, start, mid, high, id);
    forall k, other | k > mid ensures !CommonAt(peers, k, other) {
      NoneCommonAbove(peers, start, high, k, other);
    }
  }

  /** A peer that cannot be reached, or whose chain does not reach the start. */
  ghost predicate SomeFails(peers: seq<Peer>, start: nat)
  {
    exists i :: 0 <= i < |peers| && (!peers[i].reachable || |peers[i].chain| <= start)
  }

  /** A query fails for the same peers at every height from the start on, and never for honest ones. */
  lemma FailuresAre(peers: seq<Peer>, start: nat, h: nat)
    requires start <= h
    ensures SomeFails(peers, start) <==> exists i :: 0 <= i < |peers| && Answer(peers[i], start, h) == None
    ensures SomeFails(peers, start) ==> !Honest(peers, start)
  {
  }

  lemma NoneFails(peers: seq<Peer>, start: nat, h: nat, ids: set<BlockID>)
    requires AnswersAt(peers, start, h, ids)
    ensures forall i :: 0 <= i < |peers| ==> Answer(peers[i], start, h) != None
  {
  }

  lemma SomebodyAnswers(peers: seq<Peer>, start: nat, h: nat)
    requires Differ(peers, start, h)
    ensures peers != []
  {
  }

  /** Asks every peer and collects the different answers; None as soon as one fails. */
  method AskAll(peers: seq<Peer>, startHeight: nat, getHeight: nat) returns (ids: Option<set<BlockID>>)
    ensures match ids
      case Some(s) => AnswersAt(peers, startHeight, getHeight, s)
      case None => exists i :: 0 <= i < |peers| && Answer(peers[i], startHeight, getHeight) == None
  {
    var s := {};
    for i := 0 to |peers|
      invariant AnswersAt(peers[..i], startHeight, getHeight, s)
    {
      var answer := Answer(peers[i], startHeight, getHeight);
      if answer == None {
        return None;
      }
      ghost var was := s;
      s := s + {answer.value};
      forall id | id in s ensures IsAnswer(peers[..i + 1], startHeight, getHeight, id) {
        if id in was {
          var j :| 0 <= j < i && Answer(peers[..i][j], startHeight, getHeight) == Some(id);
          assert peers[..i + 1][j] == peers[..i][j];
        } else {
          assert peers[..i + 1][i] == peers[i];
        }
      }
    }
    assert peers[..|peers|] == peers;
    ids := Some(s);
  }

  /**
   findForkPoint.  A height that differs has been found above every height that
   is common, so halving the distance ends at the last common block.  It fails
   exactly if some peer fails to answer, which honest peers never do.
   */
  method FindForkPoint(currentHeight: nat, toHeight: nat, peers: seq<Peer>) returns (r: Result)
    requires currentHeight <= toHeight
    ensures r == Failed <==> SomeFails(peers, currentHeight)
    ensures r == Failed ==> !Honest(peers, currentHeight)
    ensures Honest(peers, currentHeight) && !Differ(peers, currentHeight, currentHeight)
            && Differ(peers, currentHeight, toHeight) ==>
      r.Fork? && currentHeight <= r.height < toHeight && IsForkPoint(peers, r.height, r.id)
  {
    var startHeight := currentHeight;
    var low, high := currentHeight, toHeight;
    var midPoint := low + (high - low) / 2;
    var prevMid := midPoint;
    var midID := Genesis(0);
    hide Honest, Differ, AnswersAt, Answer, IsForkPoint, SomeFails;
    ghost var hopeful := Honest(peers, currentHeight) && !Differ(peers, currentHeight, currentHeight)
      && Differ(peers, currentHeight, toHeight);
    while true
      invariant startHeight == currentHeight <= low <= high <= toHeight
      invariant prevMid == midPoint == low + (high - low) / 2
      invariant hopeful ==> Differ(peers, startHeight, high) && !Differ(peers, startHeight, low) && low < high
      decreases high - low
    {
      var answers := AskAll(peers, startHeight, midPoint);
      if answers == None {
        FailuresAre(peers, startHeight, midPoint);
        return Failed;
      }
      ghost var asked := midPoint;
      if hopeful {
        SomebodyAnswers(peers, startHeight, high);
      }
      if |answers.value| > 1 {
        TwoAnswers(peers, startHeight, midPoint, answers.value);
        high := midPoint;
        midPoint := low + (midPoint - low) / 2;
      } else {
        OneAnswer(peers, startHeight, midPoint, answers.value);
        low := midPoint;
        midPoint := midPoint + (high - midPoint) / 2;
        if answers.value != {} {
          midID :| midID in answers.value;
        }
      }
      if prevMid == midPoint {
        NoneFails(peers, startHeight, asked, answers.value);
        FailuresAre(peers, startHeight, asked);
        if hopeful {
          Parts(peers, startHeight, midPoint, high, midID);
        }
        return Fork(midID, midPoint);
      }
      prevMid := midPoint;
    }
  }

  lemma TwoAnswers(peers: seq<Peer>, start: nat, h: nat, ids: set<BlockID>)
    requires AnswersAt(peers, start, h, ids) && |ids| > 1
    ensures Differ(peers, start, h)
  {
    var a :| a in ids;
    assert |ids - {a}| > 0;
    var b :| b in ids - {a};
    var i :| 0 <= i < |peers| && Answer(peers[i], start, h) == Some(a);
    var j :| 0 <= j < |peers| && Answer(peers[j], start, h) == Some(b);
    assert i < j || j < i;
  }

  lemma OneAnswer(peers: seq<Peer>, start: nat, h: nat, ids: set<BlockID>)
    requires AnswersAt(peers, start, h, ids) && |ids| <= 1
    ensures !Differ(peers, start, h)
    ensures forall i, id :: 0 <= i < |peers| && id in ids ==> Answer(peers[i], start, h) == Some(id)
    ensures ids == {} ==> peers == []
  {
    forall a, b | a in ids && b in ids ensures a == b {
      if a != b {
        assert {a, b} <= ids;
        SizeOfSubset({a, b}, ids);
      }
    }
    if peers != [] {
      assert Answer(peers[0], start, h).value in ids;
    }
  }
}
