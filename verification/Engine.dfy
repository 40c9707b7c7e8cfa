/**
 The consensus engine's event handlers (consensus/engine.go).  They run one at a
 time on one goroutine, so each is one step.  Heights are never given up here:
 the six-hour eviction is not part of this model.
 */
module Engine {
  import opened Prelude
  import opened VoteBits
  import opened Votes
  import opened BlockChoices

  datatype Status = StatusRejected | StatusFinalized

  /** The records of the blocks at each height. */
  type Choices = map<nat, map<ID, BlockVoteRecord>>

  predicate FinalAt(choices: Choices, h: nat, id: ID)
  {
    h in choices && FinalIn(choices[h], id)
  }

  /** Every block is known at exactly one height. */
  ghost predicate HeightsKnown(choices: Choices, heightOf: map<ID, nat>)
  {
    && (forall h, id :: h in choices && id in choices[h] ==> id in heightOf && heightOf[id] == h)
    && (forall id :: id in heightOf ==> heightOf[id] in choices && id in choices[heightOf[id]])
  }

  /** The status sent for a block is the outcome at its height. */
  ghost predicate Justified(choices: Choices, heightOf: map<ID, nat>, id: ID, status: Status)
  {
    id in heightOf &&
    match status
    case StatusFinalized => FinalAt(choices, heightOf[id], id)
    case StatusRejected => exists other :: other != id && FinalAt(choices, heightOf[id], other)
  }

  ghost predicate AllJustified(choices: Choices, heightOf: map<ID, nat>, sent: map<ID, Status>)
  {
    forall id :: id in sent ==> Justified(choices, heightOf, id, sent[id])
  }

  /** What no later step takes back. */
  ghost predicate FinalStays(before: Choices, after: Choices)
  {
    forall h, id :: FinalAt(before, h, id) ==> FinalAt(after, h, id)
  }

  ghost predicate MapGrows<K, V>(before: map<K, V>, after: map<K, V>)
  {
    forall k :: k in before ==> k in after && after[k] == before[k]
  }

  lemma JustifiedStays(c0: Choices, c1: Choices, h0: map<ID, nat>, h1: map<ID, nat>, sent: map<ID, Status>)
    requires AllJustified(c0, h0, sent) && FinalStays(c0, c1) && MapGrows(h0, h1)
    ensures AllJustified(c1, h1, sent)
  {
    forall id | id in sent ensures Justified(c1, h1, id, sent[id]) {
      assert Justified(c0, h0, id, sent[id]);
      if sent[id] == StatusRejected {
        var other :| other != id && FinalAt(c0, h0[id], other);
        assert FinalAt(c1, h1[id], other);
      }
    }
  }

  /** One more block, with no score yet, and nothing else. */
  ghost predicate OneMoreIn(before: map<ID, BlockVoteRecord>, after: map<ID, BlockVoteRecord>, id: ID, acceptable: bool)
  {
    && id !in before && after.Keys == before.Keys + {id}
    && (forall other :: other in before ==> after[other] == before[other])
    && after[id].acceptable == acceptable && Score(after[id].confidence) == 0
  }

  function VotesAt(choices: Choices, height: nat): (votes: map<ID, BlockVoteRecord>)
  {
    if height in choices then choices[height] else map[]
  }

  ghost predicate NewAt(before: Choices, after: Choices, height: nat, id: ID, acceptable: bool)
  {
    && height in after && after == before[height := after[height]]
    && OneMoreIn(VotesAt(before, height), after[height], id, acceptable)
  }

  lemma NewAtHeight(before: Choices, votes: map<ID, BlockVoteRecord>, height: nat, id: ID, acceptable: bool)
    requires OneMoreIn(VotesAt(before, height), votes, id, acceptable)
    ensures NewAt(before, before[height := votes], height, id, acceptable)
    ensures before[height := map[]][height := votes] == before[height := votes]
  {
    hide OneMoreIn;
  }

  /** Every waiting caller of one of the blocks has been sent the outcome. */
  ghost predicate Told(ids: set<ID>, finalized: ID, waiting: map<ID, bool>, sent: map<ID, Status>)
  {
    forall id :: id in ids && Waits(waiting, id) ==>
      id in sent && sent[id] == if id == finalized then StatusFinalized else StatusRejected
  }

  predicate Waits(callbacks: map<ID, bool>, id: ID)
  {
    id in callbacks && callbacks[id]
  }

  ghost predicate SomeFinal(choices: Choices, h: nat)
  {
    exists id :: FinalAt(choices, h, id)
  }

  lemma NoneFinalAt(choices: Choices, h: nat)
    ensures h in choices ==> (SomeFinal(choices, h) <==> exists id :: FinalIn(choices[h], id))
    ensures h !in choices ==> !SomeFinal(choices, h)
  {
    hide FinalIn;
    if id :| h in choices && FinalIn(choices[h], id) {
      assert FinalAt(choices, h, id);
    }
  }

  /** `late` are exactly the blocks whose caller waits although a block at their height has finalized. */
  ghost predicate WaitersLate(choices: Choices, heightOf: map<ID, nat>, callbacks: map<ID, bool>, late: set<ID>)
  {
    forall id :: id in late <==> Waits(callbacks, id) && id in heightOf && SomeFinal(choices, heightOf[id])
  }

  lemma KnownHeight(choices: Choices, heightOf: map<ID, nat>, height: nat, id: ID)
    requires HeightsKnown(choices, heightOf) && height in choices && id in choices[height]
    ensures heightOf[id := height] == heightOf
  {
  }

  /** A height with no block yet changes nothing. */
  lemma SameWaiters(c0: Choices, c1: Choices, heightOf: map<ID, nat>, callbacks: map<ID, bool>, late: set<ID>,
                    height: nat)
    requires WaitersLate(c0, heightOf, callbacks, late)
    requires c1 == if height in c0 then c0 else c0[height := map[]]
    ensures WaitersLate(c1, heightOf, callbacks, late)
  {
    forall h ensures SomeFinal(c1, h) <==> SomeFinal(c0, h) {
      NoneFinalAt(c0, h);
      NoneFinalAt(c1, h);
    }
    hide SomeFinal;
  }

  lemma NewWaiter(c0: Choices, c1: Choices, heightOf: map<ID, nat>, callbacks: map<ID, bool>, late: set<ID>,
                  height: nat, id: ID, acceptable: bool, waits: bool)
    requires WaitersLate(c0, heightOf, callbacks, late) && NewAt(c0, c1, height, id, acceptable)
    requires id !in heightOf && callbacks.Keys <= heightOf.Keys
    ensures WaitersLate(c1, heightOf[id := height], callbacks[id := waits],
                        late + if waits && SomeFinal(c0, height) then {id} else {})
  {
    NewHasNoFinal(VotesAt(c0, height), c1[height], id, acceptable);
    forall h ensures SomeFinal(c1, h) <==> SomeFinal(c0, h) {
      NoneFinalAt(c0, h);
      NoneFinalAt(c1, h);
    }
    hide SomeFinal, NewAt;
  }

  /** A vote finalizes nothing, or it finalizes and nobody at its height waits any more. */
  lemma VoteKeepsLate(c0: Choices, c1: Choices, heightOf: map<ID, nat>, w0: map<ID, bool>, w1: map<ID, bool>,
                      late: set<ID>, height: nat)
    requires WaitersLate(c0, heightOf, w0, late) && HeightsKnown(c1, heightOf)
    requires height in c0 && height in c1 && c1 == c0[height := c1[height]]
    requires if (exists id :: FinalIn(c0[height], id)) <==> (exists id :: FinalIn(c1[height], id)) then w1 == w0
             else (forall id :: !FinalIn(c0[height], id))
                  && forall id :: Waits(w1, id) <==> Waits(w0, id) && id !in c1[height]
    ensures WaitersLate(c1, heightOf, w1, late)
  {
    hide FinalIn;
    forall h ensures h != height ==> (SomeFinal(c1, h) <==> SomeFinal(c0, h)) {
      NoneFinalAt(c0, h);
      NoneFinalAt(c1, h);
    }
    NoneFinalAt(c0, height);
    NoneFinalAt(c1, height);
    hide SomeFinal;
  }

  // ---------- What an answer does ----------

  /** The state of one choice, without its requests in flight. */
  datatype ChoiceState = ChoiceState(votes: map<ID, BlockVoteRecord>, bits: BitVoteRecord, total: nat,
                                     tallies: map<ID, Tally>)

  /**
   One vote of an answer: nothing if a block has finalized or the vote has the
   wrong length, otherwise one more vote in all.  A vote for a block that is not
   known here counts as unknown.
   */
  ghost predicate Counts(vote: Option<ID>, s0: ChoiceState, s1: ChoiceState)
  {
    if vote == None || exists id :: FinalIn(s0.votes, id) then s1 == s0
    else
      var counted := if vote.value in s0.votes then vote.value else ZERO_ID;
      && s1.total == s0.total + 1
      && TotalsGrow(counted, s0.tallies, s1.tallies, forall id :: !FinalIn(s1.votes, id))
      && VoteEffect(counted, s0.votes, s0.bits, s1.votes, s1.bits)
  }

  /** If the vote finalized a block, then every caller that waited here has been told. */
  ghost predicate Tells(s0: ChoiceState, s1: ChoiceState, waiting: map<ID, bool>, sent: map<ID, Status>)
  {
    (forall id :: !FinalIn(s0.votes, id)) ==>
      forall id :: FinalIn(s1.votes, id) ==> Told(s1.votes.Keys, id, waiting, sent)
  }

  /** The first `n` votes of an answer have been counted, each at its height. */
  ghost predicate AnswerCounted(n: nat, heights: seq<nat>, votes: seq<Option<ID>>, s0: map<nat, ChoiceState>,
                                s1: map<nat, ChoiceState>, waiting: map<ID, bool>, sent: map<ID, Status>)
    requires n <= |heights| == |votes|
  {
    && s1.Keys == s0.Keys
    && forall i :: 0 <= i < n && heights[i] in s0 ==>
         && Counts(votes[i], s0[heights[i]], s1[heights[i]])
         && Tells(s0[heights[i]], s1[heights[i]], waiting, sent)
  }

  /** The heights of the other votes are as they were, and who waits there. */
  ghost predicate AnswerOpen(n: nat, heights: seq<nat>, s0: map<nat, ChoiceState>, s1: map<nat, ChoiceState>,
                             w0: map<ID, bool>, w1: map<ID, bool>)
    requires n <= |heights|
  {
    && s1.Keys == s0.Keys
    && forall i :: n <= i < |heights| && heights[i] in s0 ==>
         s1[heights[i]] == s0[heights[i]] && SameWaiting(s0[heights[i]].votes, w0, w1)
  }

  ghost predicate SameWaiting(votes: map<ID, BlockVoteRecord>, w0: map<ID, bool>, w1: map<ID, bool>)
  {
    forall id :: id in votes ==> (Waits(w1, id) <==> Waits(w0, id))
  }

  predicate Distinct(heights: seq<nat>)
  {
    forall i, j :: 0 <= i < j < |heights| ==> heights[i] != heights[j]
  }

  /** No query asks about a height twice. */
  ghost predicate QueriesDistinct(queries: map<nat, seq<nat>>)
  {
    forall key :: key in queries ==> Distinct(queries[key])
  }

  lemma AnswerStarts(heights: seq<nat>, votes: seq<Option<ID>>, s: map<nat, ChoiceState>, w: map<ID, bool>,
                     sent: map<ID, Status>)
    requires |votes| == |heights|
    ensures AnswerCounted(0, heights, votes, s, s, w, sent) && AnswerOpen(0, heights, s, s, w, w)
  {
  }

  /**
   While no block has finalized, a record takes the vote as one for its block,
   against it or, if the block voted for is not known, as neither, unless the
   preferred block is chosen anew and its record starts afresh.
   */
  lemma CountedMeans(vote: ID, s0: ChoiceState, s1: ChoiceState, id: ID, t: Tally)
    requires Counts(Some(vote), s0, s1) && id in s0.votes && BlockInv(s0.votes[id], t) && ZERO_ID !in s0.votes
    requires forall other :: !FinalIn(s0.votes, other) && !FinalIn(s1.votes, other)
    ensures id in s1.votes && s1.votes[id].acceptable == s0.votes[id].acceptable
    ensures (s1.votes[id].votes == 0 == s1.votes[id].consider) ||
      Window(s1.votes[id].votes, s1.votes[id].consider,
             t.log + [if vote !in s0.votes then Unknown else if vote == id then Yes else No])
  {
    hide Recorded, BitRecorded, Window, BlockInv, Count, VoteEffect, TotalsGrow, Reselected, FinalIn, VoteOn;
    var counted := if vote in s0.votes then vote else ZERO_ID;
    NotFinal(s0.votes, id);
    CountsReselects(vote, counted, s0, s1);
    VoteMeans(counted, s0.votes, id, t);
    RecordedAcceptable(counted, s0.votes, id);
    hide RecordedAll, Counts;
    ReselectedRecord(RecordedAll(counted, s0.votes), BitRecorded(s0.bits, counted).0, BitRecorded(s0.bits, counted).1,
                     s1.votes, s1.bits, id);
  }

  lemma NotFinal(votes: map<ID, BlockVoteRecord>, id: ID)
    requires forall other :: !FinalIn(votes, other)
    ensures !FinalIn(votes, id)
  {
  }

  lemma CountsReselects(vote: ID, counted: ID, s0: ChoiceState, s1: ChoiceState)
    requires Counts(Some(vote), s0, s1) && counted == if vote in s0.votes then vote else ZERO_ID
    requires forall other :: !FinalIn(s0.votes, other) && !FinalIn(s1.votes, other)
    ensures s0.bits.activeBit < 256
    ensures Reselected(RecordedAll(counted, s0.votes), BitRecorded(s0.bits, counted).0,
                       BitRecorded(s0.bits, counted).1, s1.votes, s1.bits)
  {
    hide Recorded, BitRecorded, TotalsGrow, Reselected, FinalIn, RecordedAll;
  }

  lemma RecordedAcceptable(vote: ID, votes: map<ID, BlockVoteRecord>, id: ID)
    requires id in votes
    ensures RecordedAll(vote, votes)[id].acceptable == votes[id].acceptable
  {
  }

  lemma NoneCounts(s: ChoiceState)
    ensures Counts(None, s, s)
  {
  }

  lemma ToldStays(s0: ChoiceState, s1: ChoiceState, w0: map<ID, bool>, w1: map<ID, bool>, sent: map<ID, Status>,
                  later: map<ID, Status>)
    requires Tells(s0, s1, w1, sent) && SameWaiting(s1.votes, w0, w1) && MapGrows(sent, later)
    ensures Tells(s0, s1, w0, later)
  {
    hide FinalIn;
  }

  /** One more vote, whose height is none of the others. */
  lemma AnswerStep(i: nat, heights: seq<nat>, votes: seq<Option<ID>>, heightOf: map<ID, nat>,
                   s0: map<nat, ChoiceState>, s: map<nat, ChoiceState>, s1: map<nat, ChoiceState>,
                   w0: map<ID, bool>, w: map<ID, bool>, w1: map<ID, bool>,
                   before: map<ID, Status>, sent: map<ID, Status>)
    requires i < |heights| == |votes| && Distinct(heights) && heights[i] in s0
    requires AnswerCounted(i, heights, votes, s0, s, w0, before) && AnswerOpen(i, heights, s0, s, w0, w)
    requires s1.Keys == s.Keys && s1 == s[heights[i] := s1[heights[i]]]
    requires Counts(votes[i], s[heights[i]], s1[heights[i]]) && Tells(s[heights[i]], s1[heights[i]], w, sent)
    requires s1[heights[i]].votes.Keys == s[heights[i]].votes.Keys && MapGrows(before, sent)
    requires forall id :: id !in s[heights[i]].votes ==> (Waits(w1, id) <==> Waits(w, id))
    requires forall h, id :: h in s0 && id in s0[h].votes ==> id in heightOf && heightOf[id] == h
    ensures AnswerCounted(i + 1, heights, votes, s0, s1, w0, sent) && AnswerOpen(i + 1, heights, s0, s1, w0, w1)
  {
    hide Counts, Tells, MapGrows;
    SentStays(sent);
    ToldStays(s[heights[i]], s1[heights[i]], w0, w, sent, sent);
    forall j | 0 <= j < i + 1 && heights[j] in s0
      ensures Counts(votes[j], s0[heights[j]], s1[heights[j]]) && Tells(s0[heights[j]], s1[heights[j]], w0, sent)
    {
      if j < i {
        ToldStays(s0[heights[j]], s1[heights[j]], w0, w0, before, sent);
      }
    }
    forall j | i + 1 <= j < |heights| && heights[j] in s0
      ensures s1[heights[j]] == s0[heights[j]] && SameWaiting(s0[heights[j]].votes, w0, w1)
    {
      assert heights[i] != heights[j] && s[heights[i]] == s0[heights[i]] && s[heights[j]] == s0[heights[j]];
      forall id | id in s0[heights[j]].votes ensures Waits(w1, id) <==> Waits(w0, id) {
        assert heightOf[id] == heights[j] && id !in s[heights[i]].votes;
      }
    }
  }

  // ---------- Places that leak ----------

  /** No answer is on its way for the height, and it has leaked as many places as it needs votes. */
  ghost predicate Starved(choices: Choices, queries: map<nat, seq<nat>>, leaked: multiset<nat>, h: nat)
  {
    h in choices && Outstanding(queries)[h] == 0 && leaked[h] >= Needed(ScoresOf(choices[h]))
  }

  /** A starved height stays so. */
  ghost predicate StarvedStay(c0: Choices, q0: map<nat, seq<nat>>, l0: multiset<nat>, c1: Choices, q1: map<nat,
                              seq<nat>>, l1: multiset<nat>)
  {
    forall h :: Starved(c0, q0, l0, h) ==> Starved(c1, q1, l1, h)
  }

  lemma StarvedStaysHere(choices: Choices, queries: map<nat, seq<nat>>, leaked: multiset<nat>)
    ensures StarvedStay(choices, queries, leaked, choices, queries, leaked)
  {
  }

  /** A block with no score does not change what the front-runner needs. */
  lemma NewBlockStarves(c0: Choices, c1: Choices, queries: map<nat, seq<nat>>, leaked: multiset<nat>, height: nat,
                        id: ID, acceptable: bool)
    requires NewAt(c0, c1, height, id, acceptable)
    ensures StarvedStay(c0, queries, leaked, c1, queries, leaked)
  {
    hide Outstanding;
    if height in c0 {
      NewBlockNeeds(c0[height], c1[height], id, acceptable);
    }
    hide Needed, ScoresOf;
  }

  lemma NewBlockNeeds(before: map<ID, BlockVoteRecord>, after: map<ID, BlockVoteRecord>, id: ID, acceptable: bool)
    requires OneMoreIn(before, after, id, acceptable)
    ensures Needed(ScoresOf(after)) == Needed(ScoresOf(before))
  {
    var s, t, n := ScoresOf(before), ScoresOf(after), Needed(ScoresOf(before));
    assert forall other :: other in s ==> t[other] == s[other];
    assert IsNeeded(t, n);
    NeededUnique(t, n);
  }

  /** Taking a query off the list asks no starved height, and its heights are the only choices that may change. */
  lemma FewerQueriesStarve(c0: Choices, c1: Choices, queries: map<nat, seq<nat>>, key: nat, l0: multiset<nat>,
                           l1: multiset<nat>)
    requires c1.Keys == c0.Keys && l0 <= l1
    requires forall h :: h in c1 && !(key in queries && h in queries[key]) ==> c1[h] == c0[h]
    ensures StarvedStay(c0, queries, l0, c1, queries - {key}, l1)
  {
    if key in queries {
      OutstandingWithout(queries, key);
    } else {
      assert queries - {key} == queries;
    }
    hide Outstanding, Needed, ScoresOf;
    forall h | Starved(c0, queries, l0, h) ensures Starved(c1, queries - {key}, l1, h) {
      if key in queries {
        assert h !in multiset(queries[key]);
      }
    }
  }

  /** A poll asks about no starved height. */
  lemma AskedStarve(choices: Choices, inflight: map<nat, int>, queries: map<nat, seq<nat>>, key: nat,
                    heights: seq<nat>, leaked: multiset<nat>)
    requires AsksWanting(heights, {}, choices, inflight)
    requires forall h :: Starved(choices, queries, leaked, h) ==> !WantsAt(choices, inflight, h)
    ensures StarvedStay(choices, queries, leaked, choices, queries[key := heights],
                        leaked + if key in queries then multiset(queries[key]) else multiset{})
  {
    PutQuery(queries, key, heights, leaked);
    hide Outstanding, Needed, ScoresOf, WantsAt;
    var replaced := if key in queries then multiset(queries[key]) else multiset{};
    forall h | Starved(choices, queries, leaked, h)
      ensures Starved(choices, queries[key := heights], leaked + replaced, h) {
      assert multiset(heights)[h] == 0;
      assert (Outstanding(queries[key := heights]) + (leaked + replaced))[h]
        == (Outstanding(queries) + leaked + multiset(heights))[h];
    }
  }

  lemma FinalStaysHere(c: Choices)
    ensures FinalStays(c, c)
  {
  }

  /** A new block at a height keeps everything that is known and sent. */
  lemma BlockAdded(c0: Choices, c1: Choices, heightOf: map<ID, nat>, sent: map<ID, Status>, height: nat, id: ID,
                   acceptable: bool)
    requires HeightsKnown(c0, heightOf) && AllJustified(c0, heightOf, sent)
    requires id in heightOf ==> heightOf[id] == height
    requires NewAt(c0, c1, height, id, acceptable)
    ensures id !in heightOf && id !in sent && HeightsKnown(c1, heightOf[id := height])
    ensures FinalStays(c0, c1) && AllJustified(c1, heightOf[id := height], sent)
  {
    NewHasNoFinal(VotesAt(c0, height), c1[height], id, acceptable);
    hide FinalIn;
    JustifiedStays(c0, c1, heightOf, heightOf[id := height], sent);
  }

  lemma NewHasNoFinal(before: map<ID, BlockVoteRecord>, after: map<ID, BlockVoteRecord>, id: ID, acceptable: bool)
    requires OneMoreIn(before, after, id, acceptable)
    ensures forall other :: FinalIn(after, other) <==> FinalIn(before, other)
  {
  }

  ghost function StateOf(bc: BlockChoice): (s: ChoiceState)
    reads bc
  {
    ChoiceState(bc.blockVotes, bc.bitRecord, bc.totalVotes, bc.tallies)
  }

  class ConsensusEngine {
    var blocks: map<nat, BlockChoice>
    var queries: map<nat, seq<nat>>   // the heights asked about in each outstanding request
    var callbacks: map<ID, bool>      // blocks whose caller waits; false for a nil channel
    ghost var heightOf: map<ID, nat>  // every block the engine was given
    ghost var sent: map<ID, Status>   // every status sent
    ghost var choices: Choices        // the records of each choice
    ghost var inflight: map<nat, int> // the requests in flight of each choice
    ghost var leaked: multiset<nat>   // heights whose place in flight is never freed
    ghost var late: set<ID>           // blocks with a caller that came after their height had finalized

    ghost predicate ObjectsValid()
      reads this`blocks, this`choices, this`inflight, blocks.Values
    {
      && choices.Keys == inflight.Keys == blocks.Keys
      && forall h :: h in blocks ==>
           && blocks[h].height == h && blocks[h].Valid()
           && blocks[h].blockVotes == choices[h] && blocks[h].inflightRequests == inflight[h]
    }

    /** All but the accounts of requests in flight. */
    ghost predicate Core()
      reads this, blocks.Values
    {
      && ObjectsValid()
      && HeightsKnown(choices, heightOf)
      && callbacks.Keys <= heightOf.Keys && callbacks.Keys !! sent.Keys
      && AllJustified(choices, heightOf, sent)
    }

    /**
     Every status sent is justified, each place in flight belongs to an
     outstanding query or has leaked, and only latecomers wait where a block
     has finalized.
     */
    ghost predicate Valid()
      reads this, blocks.Values
    {
      && Core() && Accounted(inflight, Outstanding(queries) + leaked)
      && WaitersLate(choices, heightOf, callbacks, late) && QueriesDistinct(queries)
    }

    /** The state of every choice. */
    ghost function States(): (s: map<nat, ChoiceState>)
      reads this`blocks, blocks.Values
    {
      map h | h in blocks :: StateOf(blocks[h])
    }

    constructor ()
      ensures Valid() && blocks == map[] && queries == map[] && callbacks == map[] && sent == map[]
      ensures heightOf == map[] && choices == map[] && inflight == map[] && leaked == multiset{} && late == {}
    {
      blocks, queries, callbacks := map[], map[], map[];
      heightOf, sent, choices, inflight, leaked, late := map[], map[], map[], map[], multiset{}, {};
    }

    /** A block ID is the hash of a header that holds its height, so an ID has one height. */
    method HandleNewBlock(blockID: ID, height: nat, isAcceptable: bool, hasCallback: bool)
      requires Valid() && (blockID in heightOf ==> heightOf[blockID] == height)
      modifies this, blocks.Values
      ensures Valid() && FinalStays(old(choices), choices) && sent == old(sent) && queries == old(queries)
      ensures if old(height in choices && blockID in choices[height])
              then choices == old(choices) && callbacks == old(callbacks)
              else && NewAt(old(choices), choices, height, blockID, isAcceptable)
                   && callbacks == old(callbacks)[blockID := hasCallback]
      ensures leaked == old(leaked)
      ensures inflight == if height in old(inflight) then old(inflight) else old(inflight)[height := 0]
      ensures StarvedStay(old(choices), old(queries), old(leaked), choices, queries, leaked)
      ensures late == old(late) +
        if old(!(height in choices && blockID in choices[height]) && hasCallback && SomeFinal(choices, height))
        then {blockID} else {}
      ensures heightOf == old(heightOf)[blockID := height]
      ensures forall bc :: bc in blocks.Values ==> bc in old(blocks.Values) || fresh(bc)
      ensures height in blocks && (height !in old(blocks) ==>
        FirstIn(blocks[height].blockVotes, blocks[height].bitRecord, blockID, isAcceptable))
    {
      hide FirstIn;
      hide FinalIn, HeightsKnown, AllJustified, FinalStays, ObjectsValid, BlockChoice.Valid, Accounted;
      hide Outstanding, NewAt, StarvedStay;
      hide WaitersLate, SomeFinal;
      ghost var c0 := choices;
      var bc := ChoiceAt(height);
      NewHeightAccounted(old(inflight), Outstanding(queries) + leaked, height);
      if blockID in bc.blockVotes {
        FinalStaysHere(choices);
        StarvedStaysHere(choices, queries, leaked);
        SameWaiters(c0, choices, heightOf, callbacks, late, height);
        KnownHeight(c0, heightOf, height, blockID);
      } else {
        AddWaiting(bc, blockID, isAcceptable, hasCallback, c0);
      }
    }

    /** A block that is new at its height, with the caller that waits for it. */
    method AddWaiting(bc: BlockChoice, blockID: ID, isAcceptable: bool, hasCallback: bool, ghost before: Choices)
      requires ObjectsValid() && bc.height in blocks && blocks[bc.height] == bc && blockID !in bc.blockVotes
      requires choices == if bc.height in before then before else before[bc.height := map[]]
      requires HeightsKnown(before, heightOf) && AllJustified(before, heightOf, sent)
      requires callbacks.Keys <= heightOf.Keys && callbacks.Keys !! sent.Keys
      requires blockID in heightOf ==> heightOf[blockID] == bc.height
      requires WaitersLate(before, heightOf, callbacks, late)
      modifies bc, this`choices, this`heightOf, this`callbacks, this`late
      ensures Core() && FinalStays(before, choices) && WaitersLate(choices, heightOf, callbacks, late)
      ensures NewAt(before, choices, bc.height, blockID, isAcceptable)
      ensures callbacks == old(callbacks)[blockID := hasCallback] && heightOf == old(heightOf)[blockID := bc.height]
      ensures late == old(late) + if hasCallback && SomeFinal(before, bc.height) then {blockID} else {}
      ensures StarvedStay(before, queries, leaked, choices, queries, leaked)
      ensures old(bc.blockVotes == map[] && bc.bitRecord == NEW_BIT_RECORD) ==>
        FirstIn(bc.blockVotes, bc.bitRecord, blockID, isAcceptable)
    {
      hide HeightsKnown, AllJustified, FinalStays, ObjectsValid, NewAt, StarvedStay, WaitersLate, SomeFinal;
      hide FirstIn;
      ghost var h0, w0 := heightOf, callbacks;
      AddKnown(bc, blockID, isAcceptable, hasCallback, before);
      NewBlockStarves(before, choices, queries, leaked, bc.height, blockID, isAcceptable);
      NewWaiter(before, choices, h0, w0, late, bc.height, blockID, isAcceptable, hasCallback);
      late := late + if hasCallback && SomeFinal(before, bc.height) then {blockID} else {};
    }

    /** A block that is new at its height; `before` are the choices before this height was made. */
    method AddKnown(bc: BlockChoice, blockID: ID, isAcceptable: bool, hasCallback: bool, ghost before: Choices)
      requires ObjectsValid() && bc.height in blocks && blocks[bc.height] == bc && blockID !in bc.blockVotes
      requires choices == if bc.height in before then before else before[bc.height := map[]]
      requires HeightsKnown(before, heightOf) && AllJustified(before, heightOf, sent)
      requires callbacks.Keys <= heightOf.Keys && callbacks.Keys !! sent.Keys
      requires blockID in heightOf ==> heightOf[blockID] == bc.height
      modifies bc, this`choices, this`heightOf, this`callbacks
      ensures Core() && FinalStays(before, choices)
      ensures NewAt(before, choices, bc.height, blockID, isAcceptable)
      ensures callbacks == old(callbacks)[blockID := hasCallback]
      ensures blockID !in old(heightOf) && heightOf == old(heightOf)[blockID := bc.height]
      ensures old(bc.blockVotes == map[] && bc.bitRecord == NEW_BIT_RECORD) ==>
        FirstIn(bc.blockVotes, bc.bitRecord, blockID, isAcceptable)
    {
      hide FinalIn, HeightsKnown, AllJustified, FinalStays, ObjectsValid, BlockChoice.Valid, NewAt, OneMoreIn;
      hide FirstIn;
      ChoiceIs(bc.height);
      AddTo(bc, blockID, isAcceptable);
      NewAtHeight(before, bc.blockVotes, bc.height, blockID, isAcceptable);
      BlockAdded(before, choices, heightOf, sent, bc.height, blockID, isAcceptable);
      heightOf := heightOf[blockID := bc.height];
      callbacks := callbacks[blockID := hasCallback];
    }

    /** The choice at a height, made if need be. */
    method ChoiceAt(height: nat) returns (bc: BlockChoice)
      requires ObjectsValid()
      modifies this`blocks, this`choices, this`inflight
      ensures ObjectsValid() && height in blocks && blocks[height] == bc && bc.height == height
      ensures height in choices && bc.blockVotes == choices[height]
      ensures if height in old(blocks) then blocks == old(blocks) else fresh(bc) && blocks == old(blocks)[height := bc]
      ensures height !in old(blocks) ==> bc.blockVotes == map[] && bc.bitRecord == NEW_BIT_RECORD
      ensures choices == if height in old(choices) then old(choices) else old(choices)[height := map[]]
      ensures inflight == if height in old(inflight) then old(inflight) else old(inflight)[height := 0]
    {
      hide BlockChoice.Valid;
      if height !in blocks {
        bc := new BlockChoice(height);
        blocks := blocks[height := bc];
        choices, inflight := choices[height := map[]], inflight[height := 0];
      } else {
        bc := blocks[height];
      }
    }

    /** AddNewBlock on one of the choices. */
    method AddTo(bc: BlockChoice, blockID: ID, isAcceptable: bool)
      requires ObjectsValid() && bc.height in blocks && blocks[bc.height] == bc && blockID !in bc.blockVotes
      modifies bc, this`choices
      ensures ObjectsValid() && choices == old(choices)[bc.height := bc.blockVotes]
      ensures OneMoreIn(old(bc.blockVotes), bc.blockVotes, blockID, isAcceptable)
      ensures old(bc.blockVotes == map[] && bc.bitRecord == NEW_BIT_RECORD) ==>
        FirstIn(bc.blockVotes, bc.bitRecord, blockID, isAcceptable)
    {
      hide FirstIn;
      hide BlockChoice.Valid, FinalIn, ScoresStep, ScoresOf, SameBits, GetBit, SetActiveBit, BlockChoice.SomePreferred;
      bc.AddNewBlock(blockID, isAcceptable);
      choices := choices[bc.height := bc.blockVotes];
    }

    /** A request that will get no answer frees its place at every height it asked about. */
    method HandleRequestExpiration(key: nat)
      requires Valid()
      modifies this`queries, this`inflight, blocks.Values`inflightRequests
      ensures Valid() && queries == old(queries) - {key}
      ensures StarvedStay(choices, old(queries), leaked, choices, queries, leaked)
    {
      hide FinalIn, HeightsKnown, AllJustified, ObjectsValid, BlockChoice.Valid, Outstanding, Accounted, StarvedStay;
      FewerQueriesStarve(choices, choices, queries, key, leaked, leaked);
      if key !in queries {
        assert queries - {key} == queries;
        return;
      }
      var heights := queries[key];
      TakeQuery(queries, key, leaked);
      queries := queries - {key};
      ghost var others := Outstanding(queries) + leaked;
      for i := 0 to |heights|
        invariant Core() && queries == old(queries) - {key} && leaked == old(leaked)
        invariant Accounted(inflight, others + multiset(heights[i..]))
      {
        OneFewer(inflight, others, heights, i);
        HeightsAre();
        if heights[i] in blocks {
          ChoiceIs(heights[i]);
          Adjust(blocks[heights[i]], -1);
        }
      }
    }

    /** One request more or less in flight. */
    method Adjust(bc: BlockChoice, change: int)
      requires ObjectsValid() && bc.height in blocks && blocks[bc.height] == bc
      requires change <= 0 || bc.inflightRequests + change <= MAX_INFLIGHT_POLL
      modifies bc`inflightRequests, this`inflight
      ensures ObjectsValid() && bc.height in old(inflight)
      ensures inflight == old(inflight)[bc.height := old(inflight)[bc.height] + change]
    {
      hide BlockChoice.Valid;
      AddInFlight(bc, change);
      inflight := inflight[bc.height := inflight[bc.height] + change];
    }

    /**
     handleRegisterVotes.  A vote is None when it has the wrong length.  An
     answer to an unknown or expired request, or of the wrong length, changes no
     choice; a vote for a block the engine does not have counts as unknown.  An
     answer to a known request that is dropped leaks its places in flight.
     */
    method HandleRegisterVotes(key: nat, expired: bool, votes: seq<Option<ID>>)
      requires Valid()
      modifies this, blocks.Values
      ensures Valid() && queries == old(queries) - {key}
      ensures leaked == old(leaked) +
        if key in old(queries) && (expired || |votes| != |old(queries)[key]|) then multiset(old(queries)[key])
        else multiset{}
      ensures blocks == old(blocks) && heightOf == old(heightOf)
      ensures !(key in old(queries) && !expired && |votes| == |old(queries)[key]|) ==>
        choices == old(choices) && callbacks == old(callbacks) && sent == old(sent)
      ensures choices.Keys == old(choices).Keys && late == old(late)
      ensures forall h :: h in choices && !(key in old(queries) && h in old(queries)[key]) ==>
        choices[h] == old(choices)[h]
      ensures FinalStays(old(choices), choices) && MapGrows(old(sent), sent)
      ensures StarvedStay(old(choices), old(queries), old(leaked), choices, queries, leaked)
      ensures key in old(queries) && !expired && |votes| == |old(queries)[key]| ==>
        AnswerCounted(|votes|, old(queries)[key], votes, old(States()), States(), old(callbacks), sent)
    {
      hide FinalIn, HeightsKnown, AllJustified, FinalStays, MapGrows, ObjectsValid, BlockChoice.Valid;
      hide Outstanding, Accounted, StarvedStay, AnswerCounted, Distinct, ConsensusEngine.States;
      FinalStaysHere(choices);
      SentStays(sent);
      if key !in queries {
        assert queries - {key} == queries;
        StarvedStaysHere(choices, queries, leaked);
        return;
      }
      var heights := queries[key];
      TakeQuery(queries, key, leaked);
      queries := queries - {key};
      if expired || |votes| != |heights| {
        leaked := leaked + multiset(heights);
        FewerQueriesStarve(choices, choices, old(queries), key, old(leaked), leaked);
        return;
      }
      ghost var others := Outstanding(queries) + leaked;
      RegisterAll(heights, votes, others);
      FewerQueriesStarve(old(choices), choices, old(queries), key, leaked, leaked);
    }

    /** The loop over the votes of a response, which is about the heights that were asked. */
    method RegisterAll(heights: seq<nat>, votes: seq<Option<ID>>, ghost others: multiset<nat>)
      requires Core() && |votes| == |heights| && Distinct(heights)
      requires Accounted(inflight, others + multiset(heights[0..]))
      requires WaitersLate(choices, heightOf, callbacks, late)
      modifies this`choices, this`callbacks, this`sent, this`inflight, blocks.Values
      ensures Core() && Accounted(inflight, others + multiset(heights[|heights|..]))
      ensures WaitersLate(choices, heightOf, callbacks, late)
      ensures FinalStays(old(choices), choices) && MapGrows(old(sent), sent)
      ensures choices.Keys == old(choices).Keys
      ensures forall h :: h in choices && h !in heights ==> choices[h] == old(choices)[h]
      ensures AnswerCounted(|votes|, heights, votes, old(States()), States(), old(callbacks), sent)
    {
      hide FinalIn, HeightsKnown, AllJustified, FinalStays, MapGrows, ObjectsValid, BlockChoice.Valid;
      hide Outstanding, Accounted, AnswerCounted, AnswerOpen, Counts, Tells, Distinct, ConsensusEngine.States;
      hide WaitersLate;
      FinalStaysHere(choices);
      SentStays(sent);
      AnswerStarts(heights, votes, States(), callbacks, sent);
      StatesKnown();
      for i := 0 to |heights|
        invariant Core() && Accounted(inflight, others + multiset(heights[i..]))
        invariant WaitersLate(choices, heightOf, callbacks, late)
        invariant FinalStays(old(choices), choices) && MapGrows(old(sent), sent)
        invariant choices.Keys == old(choices).Keys
        invariant forall h :: h in choices && h !in heights ==> choices[h] == old(choices)[h]
        invariant AnswerCounted(i, heights, votes, old(States()), States(), old(callbacks), sent)
        invariant AnswerOpen(i, heights, old(States()), States(), old(callbacks), callbacks)
      {
        OneFewer(inflight, others, heights, i);
        HeightsAre();
        StatesKnown();
        ghost var c1, s1, w1, states := choices, sent, callbacks, States();
        if heights[i] in blocks {
          ChoiceIs(heights[i]);
          RegisterAt(blocks[heights[i]], votes[i]);
          Transitive(old(choices), c1, choices, old(sent), s1, sent);
          AnswerStep(i, heights, votes, heightOf, old(States()), states, States(), old(callbacks), w1, callbacks,
                     s1, sent);
        }
      }
    }

    /** Every block has one height, also by the states. */
    lemma StatesKnown()
      requires ObjectsValid() && HeightsKnown(choices, heightOf)
      ensures States().Keys == blocks.Keys && forall h :: h in blocks ==> States()[h] == StateOf(blocks[h])
      ensures forall h, id :: h in States() && id in States()[h].votes ==> id in heightOf && heightOf[id] == h
    {
    }

    /** One vote of a response; the other choices stay as they are. */
    method RegisterAt(bc: BlockChoice, vote: Option<ID>)
      requires Core() && bc.height in blocks && blocks[bc.height] == bc
      requires WaitersLate(choices, heightOf, callbacks, late)
      modifies this`choices, this`callbacks, this`sent, this`inflight, bc
      ensures Core() && bc.height in old(inflight) && WaitersLate(choices, heightOf, callbacks, late)
      ensures inflight == old(inflight)[bc.height := old(inflight)[bc.height] - 1]
      ensures choices.Keys == old(choices).Keys && forall h :: h in choices && h != bc.height ==>
        choices[h] == old(choices)[h]
      ensures FinalStays(old(choices), choices) && MapGrows(old(sent), sent)
      ensures bc.blockVotes.Keys == old(bc.blockVotes).Keys
      ensures States() == old(States())[bc.height := StateOf(bc)]
      ensures Counts(vote, old(StateOf(bc)), StateOf(bc)) && Tells(old(StateOf(bc)), StateOf(bc), old(callbacks), sent)
      ensures forall id :: id !in bc.blockVotes ==> (Waits(callbacks, id) <==> Waits(old(callbacks), id))
    {
      hide ConsensusEngine.Core, WaitersLate, FinalStays, MapGrows, Counts, Tells, BlockChoice.Valid;
      OtherChoices(bc);
      RegisterVote(bc, vote);
    }

    lemma OtherChoices(bc: BlockChoice)
      requires Core()
      ensures forall h :: h in blocks && h != bc.height ==> blocks[h] != bc
    {
    }

    /** One vote of a response. */
    method RegisterVote(bc: BlockChoice, vote: Option<ID>)
      requires Core() && bc.height in blocks && blocks[bc.height] == bc
      requires WaitersLate(choices, heightOf, callbacks, late)
      modifies this`choices, this`callbacks, this`sent, this`inflight, bc
      ensures Core() && bc.height in old(inflight) && WaitersLate(choices, heightOf, callbacks, late)
      ensures inflight == old(inflight)[bc.height := old(inflight)[bc.height] - 1]
      ensures choices.Keys == old(choices).Keys && forall h :: h in choices && h != bc.height ==>
        choices[h] == old(choices)[h]
      ensures FinalStays(old(choices), choices) && MapGrows(old(sent), sent)
      ensures bc.blockVotes.Keys == old(bc.blockVotes).Keys
      ensures Counts(vote, old(StateOf(bc)), StateOf(bc)) && Tells(old(StateOf(bc)), StateOf(bc), old(callbacks), sent)
      ensures forall id :: id !in bc.blockVotes ==> (Waits(callbacks, id) <==> Waits(old(callbacks), id))
    {
      hide FinalIn, HeightsKnown, AllJustified, FinalStays, MapGrows, ObjectsValid, BlockChoice.Valid;
      hide Outstanding, TotalsGrow, Told, VoteEffect, Counts;
      FinalStaysHere(choices);
      SentStays(sent);
      ChoiceIs(bc.height);
      Adjust(bc, -1);
      if vote == None {
        NoneCounts(StateOf(bc));
        return;
      }
      ghost var c0, w0 := choices, callbacks;
      var finalized := VoteAt(bc, vote.value);
      Voted(c0, choices, heightOf, sent, bc.height);
      if finalized.Some? {
        ChoiceIs(bc.height);
        OnlyOneFinal(bc, finalized.value);
        FireCallbacks(bc, finalized.value);
      }
      VoteKeepsLate(c0, choices, heightOf, w0, callbacks, late, bc.height);
    }

    /** RecordVote, unless a block has finalized. */
    method VoteAt(bc: BlockChoice, vote: ID) returns (finalized: Option<ID>)
      requires ObjectsValid() && bc.height in blocks && blocks[bc.height] == bc
      modifies this`choices, bc
      ensures ObjectsValid() && choices == old(choices)[bc.height := bc.blockVotes]
      ensures bc.blockVotes.Keys == old(bc.blockVotes).Keys
      ensures forall id :: FinalIn(old(bc.blockVotes), id) ==> FinalIn(bc.blockVotes, id)
      ensures finalized.Some? ==> FinalIn(bc.blockVotes, finalized.value)
      ensures old(!bc.NoneFinal()) ==> finalized == None
      ensures old(bc.NoneFinal()) ==> (finalized == None <==> bc.NoneFinal())
      ensures Counts(Some(vote), old(StateOf(bc)), StateOf(bc))
    {
      hide FinalIn, BlockChoice.Valid, Counts;
      finalized := CountVote(bc, vote);
      choices := choices[bc.height := bc.blockVotes];
    }

    /** The finalized block's caller is told so, and the callers of all others at its height that they lost. */
    method FireCallbacks(bc: BlockChoice, finalizedID: ID)
      requires Core() && bc.height in blocks && blocks[bc.height] == bc && FinalIn(bc.blockVotes, finalizedID)
      modifies this`callbacks, this`sent
      ensures Core() && MapGrows(old(sent), sent)
      ensures Told(bc.blockVotes.Keys, finalizedID, old(callbacks), sent)
      ensures forall id :: Waits(callbacks, id) <==> Waits(old(callbacks), id) && id !in bc.blockVotes
    {
      hide FinalIn, HeightsKnown, AllJustified, MapGrows, ObjectsValid, BlockChoice.Valid, Told;
      SentStays(sent);
      ChoiceIs(bc.height);
      FinalIsHere(bc.blockVotes, finalizedID);
      NobodyTold(finalizedID, callbacks, sent);
      Send(bc.height, finalizedID, StatusFinalized, finalizedID);
      ToldOneMore({}, finalizedID, old(callbacks), old(sent), sent, finalizedID);
      ghost var told := {finalizedID};
      assert {} + {finalizedID} == told;
      var ids := bc.blockVotes.Keys;
      while ids != {}
        invariant ids <= choices[bc.height].Keys && told == {finalizedID} + (bc.blockVotes.Keys - ids)
        invariant Core() && MapGrows(old(sent), sent)
        invariant Told(told, finalizedID, old(callbacks), sent)
        invariant forall id :: Waits(callbacks, id) <==> Waits(old(callbacks), id) && id !in told
        invariant forall id :: id in ids && id != finalizedID ==> (id in callbacks <==> id in old(callbacks))
        invariant forall id :: id in ids && id != finalizedID && id in callbacks ==> callbacks[id] == old(callbacks)[id]
        decreases ids
      {
        var id :| id in ids;
        ids := ids - {id};
        ghost var s1 := sent;
        if id != finalizedID {
          Send(bc.height, id, StatusRejected, finalizedID);
          SentTransitive(old(sent), s1, sent);
          ToldOneMore(told, finalizedID, old(callbacks), s1, sent, id);
        }
        assert id == finalizedID ==> told + {id} == told;
        told := told + {id};
      }
      assert told == bc.blockVotes.Keys;
    }

    lemma HeightsAre()
      requires ObjectsValid()
      ensures inflight.Keys == blocks.Keys
    {
    }

    lemma ChoiceIs(height: nat)
      requires ObjectsValid() && height in blocks
      ensures blocks[height].height == height && blocks[height].Valid()
      ensures height in choices && blocks[height].blockVotes == choices[height]
      ensures height in inflight && blocks[height].inflightRequests == inflight[height]
    {
    }

    /** The statuses sent at one height have one winner, and no loser has finalized. */
    lemma OneOutcome(id: ID, other: ID)
      requires Valid() && id in sent && other in sent && heightOf[id] == heightOf[other]
      ensures sent[id] == StatusFinalized && sent[other] == StatusFinalized ==> id == other
      ensures sent[id] == StatusFinalized <==> FinalAt(choices, heightOf[id], id)
    {
      assert Justified(choices, heightOf, id, sent[id]) && Justified(choices, heightOf, other, sent[other]);
      assert blocks[heightOf[id]].Valid();
    }

    /** Sends a status once, if somebody waits for it. */
    method Send(height: nat, id: ID, status: Status, ghost finalizedID: ID)
      requires Core() && height in choices && id in choices[height] && FinalIn(choices[height], finalizedID)
      requires status == if id == finalizedID then StatusFinalized else StatusRejected
      modifies this`callbacks, this`sent
      ensures Core() && MapGrows(old(sent), sent)
      ensures if old(id in callbacks && callbacks[id])
              then id !in old(sent) && callbacks == old(callbacks) - {id} && sent == old(sent)[id := status]
              else callbacks == old(callbacks) && sent == old(sent)
    {
      hide FinalIn, ObjectsValid, BlockChoice.Valid;
      if id in callbacks && callbacks[id] {
        callbacks := callbacks - {id};
        assert id !in sent;
        assert heightOf[id] == height && FinalAt(choices, height, finalizedID);
        assert Justified(choices, heightOf, id, status);
        sent := sent[id := status];
      }
    }

    /**
     pollLoop, once it has picked a peer: one request asks about exactly the
     heights that want more votes.  A request that is replaced because its random
     number came up again leaks its places in flight.
     */
    method PollLoop(requestID: nat) returns (heights: seq<nat>)
      requires Valid()
      modifies this`queries, this`inflight, this`leaked, blocks.Values`inflightRequests
      ensures Valid()
      ensures forall h :: h in blocks ==> 0 <= blocks[h].inflightRequests <= MAX_INFLIGHT_POLL
      ensures AsksWanting(heights, {}, choices, old(inflight))
      ensures queries == if heights == [] then old(queries) else old(queries)[requestID := heights]
      ensures leaked == old(leaked) +
        if heights != [] && requestID in old(queries) then multiset(old(queries)[requestID]) else multiset{}
      ensures StarvedStay(choices, old(queries), old(leaked), choices, queries, leaked)
    {
      hide FinalIn, HeightsKnown, AllJustified, ObjectsValid, BlockChoice.Valid, Outstanding, Accounted;
      hide WantsAt, AsksWanting, Starved;
      HeightsAre();
      forall h ensures Starved(choices, queries, leaked, h) ==> !WantsAt(choices, inflight, h) {
        LeaksStarve(h);
      }
      heights := AskAll();
      InflightBounded(Outstanding(queries) + leaked + multiset(heights));
      if heights == [] {
        assert Outstanding(queries) + leaked + multiset(heights) == Outstanding(queries) + leaked;
        return;
      }
      AsksDistinct(heights, choices, old(inflight));
      PutQuery(queries, requestID, heights, leaked);
      AskedStarve(choices, old(inflight), queries, requestID, heights, leaked);
      leaked := leaked + if requestID in queries then multiset(queries[requestID]) else multiset{};
      queries := queries[requestID := heights];
    }

    /** The loop of pollLoop: the heights that want more votes, each with one more request in flight. */
    method AskAll() returns (heights: seq<nat>)
      requires Valid()
      modifies this`inflight, blocks.Values`inflightRequests
      ensures Core() && Accounted(inflight, Outstanding(queries) + leaked + multiset(heights))
      ensures inflight.Keys == old(inflight).Keys
      ensures AsksWanting(heights, {}, choices, old(inflight))
    {
      hide FinalIn, HeightsKnown, AllJustified, ObjectsValid, BlockChoice.Valid, Outstanding, Accounted;
      hide WantsAt, AsksWanting;
      heights := [];
      var todo := blocks.Keys;
      HeightsAre();
      NoHeights(inflight, Outstanding(queries) + leaked);
      AsksNone(choices, inflight);
      while todo != {}
        invariant todo <= blocks.Keys && Core() && inflight.Keys == blocks.Keys
        invariant Accounted(inflight, Outstanding(queries) + leaked + multiset(heights))
        invariant forall h :: h in todo ==> inflight[h] == old(inflight)[h]
        invariant AsksWanting(heights, todo, choices, old(inflight))
        decreases todo
      {
        ghost var todo0 := todo;
        var height :| height in todo;
        todo := todo - {height};
        ChoiceIs(height);
        assert todo + {height} == todo0;
        OneMorePlace(inflight, Outstanding(queries) + leaked, heights, height);
        AsksOneMore(heights, todo, choices, old(inflight), inflight, height);
        var asked := Ask(blocks[height]);
        if asked {
          heights := heights + [height];
        }
      }
    }

    /**
     A height is asked about exactly if the places it has leaked and those of
     its outstanding requests are fewer than it needs votes.  `StarvedStay` says of
     every handler that a height which has leaked as many, with no request
     outstanding, never recovers.
     */
    lemma LeaksStarve(height: nat)
      requires Valid()
      ensures height in choices && !SomeFinal(choices, height) ==>
        (WantsAt(choices, inflight, height) <==>
          Outstanding(queries)[height] + leaked[height] < Needed(ScoresOf(choices[height])))
      ensures Starved(choices, queries, leaked, height) ==> !WantsAt(choices, inflight, height)
    {
      hide FinalIn, HeightsKnown, AllJustified, Outstanding, ScoresOf, Needed, BlockChoice.Valid, WaitersLate;
      NoneFinalAt(choices, height);
    }

    /**
     Where a block has finalized, the callers that still wait, and wait for ever,
     are exactly those of blocks that were added afterwards.
     */
    lemma WaitsForEver(id: ID)
      requires Valid() && id in heightOf && SomeFinal(choices, heightOf[id])
      ensures Waits(callbacks, id) <==> id in late
    {
      hide ObjectsValid, HeightsKnown, AllJustified, Outstanding, Accounted, SomeFinal;
    }

    lemma InflightBounded(places: multiset<nat>)
      requires ObjectsValid() && Accounted(inflight, places)
      ensures forall h :: h in blocks ==> 0 <= blocks[h].inflightRequests <= MAX_INFLIGHT_POLL
    {
      hide BlockInv, BitInv, AtMostOneFinal;
    }

    /**
     Takes one more request in flight, unless the height has finalized or as many
     votes as it needs are on their way.
     */
    method Ask(record: BlockChoice) returns (asked: bool)
      requires ObjectsValid() && record.height in blocks && blocks[record.height] == record
      modifies record`inflightRequests, this`inflight
      ensures ObjectsValid() && record.height in choices && record.height in old(inflight)
      ensures asked <==> WantsAt(choices, old(inflight), record.height)
      ensures inflight == if asked then old(inflight)[record.height := old(inflight)[record.height] + 1]
                          else old(inflight)
    {
      hide ObjectsValid, Wants, BlockChoice.Valid;
      ChoiceIs(record.height);
      asked := HasRoom(record);
      if asked {
        Adjust(record, 1);
      }
    }

    method HasRoom(record: BlockChoice) returns (room: bool)
      requires record.Valid()
      ensures room <==> Wants(record.blockVotes, record.inflightRequests)
      ensures room ==> record.inflightRequests + 1 <= MAX_INFLIGHT_POLL
    {
      hide BlockInv, BitInv, AtMostOneFinal, ScoresOf, Needed;
      var done := record.HasFinalized();
      if done {
        return false;
      }
      var needed := record.VotesNeededToFinalize();
      room := record.inflightRequests + 1 <= needed;
    }
  }

  // ---------- A run that starves a height ----------

  /** No block has finalized, and none has a counted round behind it. */
  ghost predicate NeedsAll(votes: map<ID, BlockVoteRecord>)
  {
    (forall id :: !FinalIn(votes, id)) && Needed(ScoresOf(votes)) == MAX_INFLIGHT_POLL
  }

  lemma FirstBlockNeedsAll(votes: map<ID, BlockVoteRecord>, id: ID, acceptable: bool)
    requires OneMoreIn(map[], votes, id, acceptable)
    ensures NeedsAll(votes)
  {
    NewBlockNeeds(map[], votes, id, acceptable);
    NewHasNoFinal(map[], votes, id, acceptable);
    assert IsNeeded(ScoresOf(map[]), MAX_INFLIGHT_POLL);
    NeededUnique(ScoresOf(map[]), MAX_INFLIGHT_POLL);
  }

  lemma FirstBlockIsThere(votes: map<ID, BlockVoteRecord>, id: ID)
    requires OneMoreIn(map[], votes, id, true)
    ensures id in votes
  {
  }

  lemma NothingOutstanding(queries: map<nat, seq<nat>>)
    ensures queries == map[] ==> Outstanding(queries) == multiset{}
  {
  }

  lemma AsksForIt(heights: seq<nat>, choices: Choices, inflight: map<nat, int>, h: nat)
    requires AsksWanting(heights, {}, choices, inflight) && WantsAt(choices, inflight, h)
    ensures heights != [] && multiset(heights)[h] == 1
  {
    hide WantsAt;
    assert multiset(heights)[h] == 1;
  }

  /** One poll whose answer comes too late. */
  method LeakOne(e: ConsensusEngine, height: nat)
    requires e.Valid() && e.queries == map[] && height in e.choices && NeedsAll(e.choices[height])
    requires e.leaked[height] < MAX_INFLIGHT_POLL
    modifies e, e.blocks.Values
    ensures e.Valid() && e.queries == map[] && e.choices == old(e.choices) && e.blocks == old(e.blocks)
    ensures e.leaked[height] == old(e.leaked)[height] + 1
  {
    hide ConsensusEngine.Valid, Outstanding, WantsAt, AsksWanting, StarvedStay, FinalStays, MapGrows, Needed;
    hide ScoresOf, FinalIn;
    NothingOutstanding(e.queries);
    NoneFinalAt(e.choices, height);
    e.LeaksStarve(height);
    ghost var inflight := e.inflight;
    var heights := e.PollLoop(0);
    AsksForIt(heights, e.choices, inflight, height);
    e.HandleRegisterVotes(0, true, []);
    assert e.queries == map[];
  }

  /** One block and 160 late answers, and its height is never asked about again. */
  method Starve(blockID: ID, height: nat) returns (e: ConsensusEngine)
    ensures fresh(e) && e.Valid() && height in e.choices && blockID in e.choices[height]
    ensures Starved(e.choices, e.queries, e.leaked, height) && !SomeFinal(e.choices, height)
  {
    hide ConsensusEngine.Valid, Outstanding, StarvedStay, FinalStays, OneMoreIn, Needed, ScoresOf, FinalIn;
    e := new ConsensusEngine();
    e.HandleNewBlock(blockID, height, true, true);
    FirstBlockNeedsAll(e.choices[height], blockID, true);
    FirstBlockIsThere(e.choices[height], blockID);
    for n := 0 to MAX_INFLIGHT_POLL
      invariant fresh(e) && fresh(e.blocks.Values) && e.Valid() && e.queries == map[]
      invariant height in e.choices && blockID in e.choices[height]
      invariant NeedsAll(e.choices[height]) && e.leaked[height] == n
    {
      LeakOne(e, height);
    }
    NothingOutstanding(e.queries);
    NoneFinalAt(e.choices, height);
  }

  // ---------- A run with a latecomer ----------

  lemma NoneFinalNeedsSome(votes: map<ID, BlockVoteRecord>)
    requires forall id :: !FinalIn(votes, id)
    ensures Needed(ScoresOf(votes)) > 0
  {
    var n := Needed(ScoresOf(votes));
    if n <= 0 {
      var id :| id in ScoresOf(votes) && n == FINALIZATION_SCORE - ScoresOf(votes)[id];
      assert FinalIn(votes, id);
    }
  }

  /** With one height there is only that one to ask about. */
  lemma AsksOnly(heights: seq<nat>, choices: Choices, inflight: map<nat, int>, h: nat)
    requires AsksWanting(heights, {}, choices, inflight) && WantsAt(choices, inflight, h) && choices.Keys == {h}
    ensures heights == [h]
  {
    hide Wants;
    forall k | k in multiset(heights) ensures k == h {
      assert multiset(heights)[k] > 0;
    }
    assert forall i :: 0 <= i < |heights| ==> heights[i] in multiset(heights);
    CountOfSame(heights, h);
  }

  lemma {:induction false} CountOfSame(heights: seq<nat>, h: nat)
    requires forall i :: 0 <= i < |heights| ==> heights[i] == h
    ensures multiset(heights)[h] == |heights|
  {
    if heights != [] {
      CountOfSame(heights[1..], h);
      assert heights == [h] + heights[1..];
    }
  }

  /** The engine of a run of `n` answered polls about one block. */
  ghost predicate OneBlockRun(e: ConsensusEngine, id: ID, height: nat, n: nat)
    reads e, e.blocks.Values
  {
    && e.queries == map[] && e.leaked == multiset{} && e.blocks.Keys == {height}
    && var bc := e.blocks[height];
       if n < 172 then bc.NoneFinal() && AloneAfter(bc.blockVotes, bc.bitRecord, id, n) else FinalIn(bc.blockVotes, id)
  }

  method PollOnce(e: ConsensusEngine, id: ID, height: nat, n: nat)
    requires e.Valid() && OneBlockRun(e, id, height, n) && n < 172 && id != ZERO_ID && !GetBit(id, 0)
    modifies e, e.blocks.Values
    ensures e.Valid() && OneBlockRun(e, id, height, n + 1)
    ensures e.blocks == old(e.blocks) && e.heightOf == old(e.heightOf)
  {
    hide ConsensusEngine.Core, Outstanding, WantsAt, AsksWanting, StarvedStay, FinalStays, MapGrows, Needed, ScoresOf;
    hide FinalIn, AloneAfter, VoteEffect, GetBit, WaitersLate, Accounted, BlockChoice.Valid;
    ghost var bc, inflight := e.blocks[height], e.inflight;
    OneHeight(e, height);
    NothingOutstanding(e.queries);
    NoneFinalNeedsSome(bc.blockVotes);
    e.LeaksStarve(height);
    var heights := e.PollLoop(0);
    AsksOnly(heights, e.choices, inflight, height);
    ghost var v0, b0, s0, w0 := bc.blockVotes, bc.bitRecord, e.States(), e.callbacks;
    e.HandleRegisterVotes(0, false, [Some(id)]);
    AloneIsKnown(v0, b0, id, n);
    FirstCounts(e, height, Some(id), s0, w0);
    AloneStep(v0, b0, bc.blockVotes, bc.bitRecord, id, n);
    assert e.queries == map[];
  }

  lemma FirstCounts(e: ConsensusEngine, height: nat, vote: Option<ID>, s0: map<nat, ChoiceState>, w0: map<ID, bool>)
    requires AnswerCounted(1, [height], [vote], s0, e.States(), w0, e.sent) && height in e.blocks && height in s0
    ensures Counts(vote, s0[height], StateOf(e.blocks[height]))
  {
    hide Counts, Tells;
    assert [height][0] == height && [vote][0] == vote;
  }

  lemma OneHeight(e: ConsensusEngine, height: nat)
    requires e.Valid() && e.blocks.Keys == {height}
    ensures e.choices.Keys == {height} && e.choices[height] == e.blocks[height].blockVotes
    ensures SomeFinal(e.choices, height) <==> !e.blocks[height].NoneFinal()
  {
    NoneFinalAt(e.choices, height);
    hide FinalIn, BlockChoice.Valid;
  }

  lemma AloneIsKnown(votes: map<ID, BlockVoteRecord>, bits: BitVoteRecord, id: ID, n: nat)
    requires AloneAfter(votes, bits, id, n)
    ensures id in votes
  {
  }

  /** A block finalizes, and the caller of one that is added afterwards waits for ever. */
  method Latecomer(id: ID, other: ID, height: nat) returns (e: ConsensusEngine)
    requires id != ZERO_ID && !GetBit(id, 0) && other != id
    ensures fresh(e) && e.Valid() && SomeFinal(e.choices, height) && other in e.late && Waits(e.callbacks, other)
  {
    hide ConsensusEngine.Core, Outstanding, StarvedStay, FinalStays, FinalIn, AloneAfter, GetBit, Accounted;
    hide FirstIn, OneMoreIn;
    e := new ConsensusEngine();
    e.HandleNewBlock(id, height, true, true);
    FirstRun(e, id, height);
    for n := 0 to 172
      invariant fresh(e) && fresh(e.blocks.Values) && e.Valid() && OneBlockRun(e, id, height, n)
      invariant e.heightOf == map[id := height]
    {
      PollOnce(e, id, height, n);
    }
    OneHeight(e, height);
    NotThere(e, other, height);
    e.HandleNewBlock(other, height, true, true);
  }

  lemma FirstRun(e: ConsensusEngine, id: ID, height: nat)
    requires e.Valid() && e.queries == map[] && e.leaked == multiset{} && NewAt(map[], e.choices, height, id, true)
    requires height in e.blocks && FirstIn(e.blocks[height].blockVotes, e.blocks[height].bitRecord, id, true)
    requires !GetBit(id, 0)
    ensures OneBlockRun(e, id, height, 0)
  {
    AloneAtFirst(e.blocks[height].blockVotes, e.blocks[height].bitRecord, id);
    hide FinalIn, BlockChoice.Valid, AloneAfter, OneMoreIn, FirstIn, GetBit;
  }

  lemma NotThere(e: ConsensusEngine, other: ID, height: nat)
    requires e.Valid() && other !in e.heightOf && height in e.choices
    ensures other !in e.choices[height]
  {
  }

  /** Nothing if a block has finalized at the height, otherwise RecordVote. */
  method CountVote(bc: BlockChoice, vote: ID) returns (finalized: Option<ID>)
    requires bc.Valid()
    modifies bc
    ensures bc.Valid() && bc.inflightRequests == old(bc.inflightRequests)
    ensures bc.blockVotes.Keys == old(bc.blockVotes).Keys
    ensures forall id :: FinalIn(old(bc.blockVotes), id) ==> FinalIn(bc.blockVotes, id)
    ensures finalized.Some? ==> FinalIn(bc.blockVotes, finalized.value)
    ensures old(!bc.NoneFinal()) ==> finalized == None
    ensures old(bc.NoneFinal()) ==> (finalized == None <==> bc.NoneFinal())
    ensures Counts(Some(vote), old(StateOf(bc)), StateOf(bc))
  {
    hide FinalIn, BlockChoice.Valid, ScoresStep, AtMostOneHigher, TotalsGrow, SameBits, ScoresOf;
    hide BlockChoice.SomePreferred, BlockChoice.Eligible, GetBit, VoteEffect;
    var done := bc.HasFinalized();
    if done {
      return None;
    }
    var counted := if vote in bc.blockVotes then vote else ZERO_ID;
    finalized := bc.RecordVote(counted);
  }

  /** The heights that the outstanding queries ask about, as often as they do. */
  ghost function Outstanding(queries: map<nat, seq<nat>>): (heights: multiset<nat>)
    decreases |queries|
  {
    if queries == map[] then multiset{}
    else
      var key :| key in queries;
      multiset(queries[key]) + Outstanding(queries - {key})
  }

  lemma {:induction false} OutstandingWithout(queries: map<nat, seq<nat>>, key: nat)
    requires key in queries
    ensures Outstanding(queries) == multiset(queries[key]) + Outstanding(queries - {key})
    decreases |queries|
  {
    var other :| other in queries && Outstanding(queries) == multiset(queries[other]) + Outstanding(queries - {other});
    if other != key {
      OutstandingWithout(queries - {other}, key);
      OutstandingWithout(queries - {key}, other);
      assert queries - {other} - {key} == queries - {key} - {other};
    }
  }

  /** No block has finalized, and it takes more votes than are on their way. */
  ghost predicate Wants(votes: map<ID, BlockVoteRecord>, inflight: int)
  {
    (forall id :: !FinalIn(votes, id)) && inflight + 1 <= Needed(ScoresOf(votes))
  }

  ghost predicate WantsAt(choices: Choices, inflight: map<nat, int>, h: nat)
  {
    h in choices && h in inflight && Wants(choices[h], inflight[h])
  }

  /** Exactly the wanting heights that are not still to be looked at are asked about, each once. */
  ghost predicate AsksWanting(heights: seq<nat>, todo: set<nat>, choices: Choices, inflight: map<nat, int>)
  {
    forall h :: multiset(heights)[h] == if h !in todo && WantsAt(choices, inflight, h) then 1 else 0
  }

  /** A poll asks about no height twice. */
  lemma AsksDistinct(heights: seq<nat>, choices: Choices, inflight: map<nat, int>)
    requires AsksWanting(heights, {}, choices, inflight)
    ensures Distinct(heights)
  {
    forall i, j | 0 <= i < j < |heights| ensures heights[i] != heights[j] {
      assert heights == heights[..i] + [heights[i]] + heights[i + 1..];
      assert heights[j] == heights[i + 1..][j - i - 1];
      assert multiset(heights)[heights[i]] <= 1;
    }
  }

  lemma AsksNone(choices: Choices, inflight: map<nat, int>)
    ensures AsksWanting([], inflight.Keys, choices, inflight)
  {
    hide Wants;
  }

  lemma AsksOneMore(heights: seq<nat>, todo: set<nat>, choices: Choices, before: map<nat, int>, inflight: map<nat,
                    int>, h: nat)
    requires AsksWanting(heights, todo + {h}, choices, before) && h !in todo
    requires h in before && h in inflight && inflight[h] == before[h]
    ensures AsksWanting(if WantsAt(choices, inflight, h) then heights + [h] else heights, todo, choices, before)
  {
    hide Wants;
    assert WantsAt(choices, inflight, h) <==> WantsAt(choices, before, h);
  }

  lemma NoHeights(inflight: map<nat, int>, places: multiset<nat>)
    requires Accounted(inflight, places)
    ensures Accounted(inflight, places + multiset([]))
  {
    assert places + multiset([]) == places;
  }

  lemma OneMorePlace(inflight: map<nat, int>, places: multiset<nat>, heights: seq<nat>, height: nat)
    requires Accounted(inflight, places + multiset(heights)) && height in inflight
    ensures Accounted(inflight[height := inflight[height] + 1], places + multiset(heights + [height]))
  {
  }

  /** `places` are all the places in flight that are taken, height by height. */
  ghost predicate Accounted(inflight: map<nat, int>, places: multiset<nat>)
  {
    && (forall h :: h in places ==> h in inflight)
    && (forall h :: h in inflight ==> inflight[h] == places[h])
  }

  lemma NewHeightAccounted(inflight: map<nat, int>, places: multiset<nat>, height: nat)
    requires Accounted(inflight, places)
    ensures height !in inflight ==> Accounted(inflight[height := 0], places)
  {
  }

  /** A query's own places, apart from all others. */
  lemma TakeQuery(queries: map<nat, seq<nat>>, key: nat, leaked: multiset<nat>)
    requires key in queries
    ensures var heights, others := queries[key], Outstanding(queries - {key}) + leaked;
      && Outstanding(queries) + leaked == others + multiset(heights[0..])
      && Outstanding(queries - {key}) + (leaked + multiset(heights)) == others + multiset(heights[0..])
      && others + multiset(heights[|heights|..]) == others
  {
    OutstandingWithout(queries, key);
    hide Outstanding;
    assert queries[key][0..] == queries[key];
  }

  lemma PutQuery(queries: map<nat, seq<nat>>, key: nat, heights: seq<nat>, leaked: multiset<nat>)
    ensures Outstanding(queries[key := heights])
             + (leaked + if key in queries then multiset(queries[key]) else multiset{})
         == Outstanding(queries) + leaked + multiset(heights)
  {
    OutstandingWithout(queries[key := heights], key);
    assert queries[key := heights] - {key} == queries - {key};
    if key in queries {
      OutstandingWithout(queries, key);
    } else {
      assert queries - {key} == queries;
    }
  }

  method AddInFlight(bc: BlockChoice, change: int)
    requires bc.Valid() && (change <= 0 || bc.inflightRequests + change <= MAX_INFLIGHT_POLL)
    modifies bc`inflightRequests
    ensures bc.Valid() && bc.inflightRequests == old(bc.inflightRequests) + change
  {
    hide BlockInv, BitInv, AtMostOneFinal;
    bc.inflightRequests := bc.inflightRequests + change;
  }

  /** The next of a query's heights frees its place. */
  lemma OneFewer(inflight: map<nat, int>, others: multiset<nat>, heights: seq<nat>, i: nat)
    requires i < |heights| && Accounted(inflight, others + multiset(heights[i..]))
    ensures heights[i] in inflight
    ensures Accounted(inflight[heights[i] := inflight[heights[i]] - 1], others + multiset(heights[i + 1..]))
  {
    assert heights[i..] == [heights[i]] + heights[i + 1..];
    assert heights[i] in others + multiset(heights[i..]);
  }

  lemma SentStays(sent: map<ID, Status>)
    ensures MapGrows(sent, sent)
  {
  }

  lemma NobodyTold(finalized: ID, waiting: map<ID, bool>, sent: map<ID, Status>)
    ensures Told({}, finalized, waiting, sent)
  {
  }

  lemma ToldOneMore(ids: set<ID>, finalized: ID, waiting: map<ID, bool>, before: map<ID, Status>, sent: map<ID,
                    Status>, id: ID)
    requires Told(ids, finalized, waiting, before) && MapGrows(before, sent)
    requires id in waiting && waiting[id] ==>
      id in sent && sent[id] == if id == finalized then StatusFinalized else StatusRejected
    ensures Told(ids + {id}, finalized, waiting, sent)
  {
  }

  lemma FinalIsHere(votes: map<ID, BlockVoteRecord>, id: ID)
    requires FinalIn(votes, id)
    ensures id in votes
  {
  }

  lemma OnlyOneFinal(bc: BlockChoice, id: ID)
    requires bc.Valid() && FinalIn(bc.blockVotes, id)
    ensures forall other :: FinalIn(bc.blockVotes, other) ==> other == id
  {
    hide BlockInv, BitInv, FinalIn;
  }

  lemma SentTransitive(s0: map<ID, Status>, s1: map<ID, Status>, s2: map<ID, Status>)
    requires MapGrows(s0, s1) && MapGrows(s1, s2)
    ensures MapGrows(s0, s2)
  {
  }

  lemma Transitive(c0: Choices, c1: Choices, c2: Choices, s0: map<ID, Status>, s1: map<ID, Status>, s2: map<ID, Status>)
    requires FinalStays(c0, c1) && FinalStays(c1, c2) && MapGrows(s0, s1) && MapGrows(s1, s2)
    ensures FinalStays(c0, c2) && MapGrows(s0, s2)
  {
  }

  /** A vote at one height keeps everything that is known and sent. */
  lemma Voted(c0: Choices, c1: Choices, heightOf: map<ID, nat>, sent: map<ID, Status>, height: nat)
    requires HeightsKnown(c0, heightOf) && AllJustified(c0, heightOf, sent)
    requires height in c0 && c1.Keys == c0.Keys && c1[height].Keys == c0[height].Keys
    requires forall h :: h in c0 && h != height ==> c1[h] == c0[h]
    requires forall id :: FinalIn(c0[height], id) ==> FinalIn(c1[height], id)
    ensures HeightsKnown(c1, heightOf) && FinalStays(c0, c1) && AllJustified(c1, heightOf, sent)
  {
    hide FinalIn;
    JustifiedStays(c0, c1, heightOf, heightOf, sent);
  }
}
