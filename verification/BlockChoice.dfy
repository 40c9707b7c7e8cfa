/**
 The choice between the blocks at one height (BlockChoice of consensus/vote.go).
 Ranging over a map visits its keys in an arbitrary order.
 */
module BlockChoices {
  import opened Prelude
  import opened VoteBits
  import opened Votes

  const MAX_INFLIGHT_POLL := FINALIZATION_SCORE

  predicate FinalIn(votes: map<ID, BlockVoteRecord>, id: ID)
  {
    id in votes && votes[id].HasFinalized()
  }

  ghost predicate AtMostOneFinal(votes: map<ID, BlockVoteRecord>)
  {
    forall a, b :: FinalIn(votes, a) && FinalIn(votes, b) ==> a == b
  }

  /** How many counted rounds each block has behind it. */
  ghost function ScoresOf(votes: map<ID, BlockVoteRecord>): (s: map<ID, nat>)
  {
    map id | id in votes :: Score(votes[id].confidence)
  }

  /** An acceptable block that agrees with the finalized bits. */
  predicate AgreesIn(votes: map<ID, BlockVoteRecord>, bits: BitVoteRecord, id: ID)
    requires bits.activeBit < 256
  {
    id in votes && votes[id].acceptable && SameBits(bits.finalizedBits, id, bits.activeBit)
  }

  /** One that agrees with the preference for the active bit as well. */
  predicate EligibleIn(votes: map<ID, BlockVoteRecord>, bits: BitVoteRecord, id: ID)
    requires bits.activeBit < 256
  {
    AgreesIn(votes, bits, id) && GetBit(id, bits.activeBit) == bits.IsOnePreferred()
  }

  class BlockChoice {
    const height: nat
    var bitRecord: BitVoteRecord
    var blockVotes: map<ID, BlockVoteRecord>
    var inflightRequests: int
    var totalVotes: nat
    ghost var tallies: map<ID, Tally>  // every vote recorded for each block
    ghost var bitTally: BitTally

    predicate IsFinal(id: ID)
      reads this
    {
      FinalIn(blockVotes, id)
    }

    /** Every record is in order, and at most one block has finalized. */
    ghost predicate Valid()
      reads this
    {
      && tallies.Keys == blockVotes.Keys
      && (forall id :: id in blockVotes ==> BlockInv(blockVotes[id], tallies[id]) && tallies[id].total <= totalVotes)
      && BitInv(bitRecord, bitTally)
      && AtMostOneFinal(blockVotes)
      && inflightRequests <= MAX_INFLIGHT_POLL
    }

    ghost predicate NoneFinal()
      reads this
    {
      forall id :: !FinalIn(blockVotes, id)
    }

    ghost predicate SomePreferred()
      reads this
    {
      PrefersSome(blockVotes)
    }

    /** An acceptable block that agrees with the finalized bits and with the preference for the active one. */
    predicate Eligible(id: ID)
      requires bitRecord.activeBit < 256
      reads this
    {
      EligibleIn(blockVotes, bitRecord, id)
    }

    /** An acceptable block that agrees with the finalized bits. */
    predicate Agrees(id: ID)
      requires bitRecord.activeBit < 256
      reads this
    {
      AgreesIn(blockVotes, bitRecord, id)
    }

    /**
     A block that has finalized here had 130 votes recorded for it, and 172 in all;
     its counter is far from overflow.
     */
    lemma FinalNeedsVotes(id: ID)
      requires Valid() && IsFinal(id)
      ensures tallies[id].yes >= 130 && 172 <= tallies[id].total <= totalVotes
      ensures forall other :: IsFinal(other) ==> other == id
      ensures forall other :: other in blockVotes ==> blockVotes[other].confidence < 2 * FINALIZATION_SCORE + 2
    {
      hide BitInv;
      FinalizedBound(blockVotes[id], tallies[id]);
    }

    constructor (height: nat)
      ensures this.height == height && Valid() && blockVotes == map[] && inflightRequests == 0 && totalVotes == 0
      ensures bitRecord == NEW_BIT_RECORD
    {
      this.height := height;
      bitRecord, blockVotes, inflightRequests, totalVotes := NEW_BIT_RECORD, map[], 0, 0;
      tallies, bitTally := map[], NO_BIT_VOTES;
      new;
      FreshBitRecord(NEW_BIT_RECORD);
    }

    method GetPreference() returns (preference: ID)
      ensures (preference in blockVotes && blockVotes[preference].IsPreferred())
              || (preference == ZERO_ID && !SomePreferred())
    {
      var ids := blockVotes.Keys;
      while ids != {}
        invariant ids <= blockVotes.Keys
        invariant forall id :: id in blockVotes && id !in ids ==> !blockVotes[id].IsPreferred()
        decreases ids
      {
        var id :| id in ids;
        if blockVotes[id].IsPreferred() {
          return id;
        }
        ids := ids - {id};
      }
      preference := ZERO_ID;
    }

    method HasFinalized() returns (finalized: bool)
      requires Valid()
      ensures finalized <==> !NoneFinal()
    {
      hide BlockInv, BitInv;
      var ids := blockVotes.Keys;
      while ids != {}
        invariant ids <= blockVotes.Keys
        invariant forall id :: id in blockVotes && id !in ids ==> !IsFinal(id)
        decreases ids
      {
        var id :| id in ids;
        assert BlockInv(blockVotes[id], tallies[id]);
        FinalIsPreferred(blockVotes[id], tallies[id]);
        if blockVotes[id].HasFinalized() && blockVotes[id].IsPreferred() {
          assert IsFinal(id);
          return true;
        }
        ids := ids - {id};
      }
      finalized := false;
    }

    /**
     The number is no more than any block still needs, and it is what some block
     needs unless all need the maximum.
     */
    method VotesNeededToFinalize() returns (max: int)
      requires Valid()
      ensures max == Needed(ScoresOf(blockVotes)) && max <= MAX_INFLIGHT_POLL
    {
      hide BlockInv, BitInv;
      ghost var scores := ScoresOf(blockVotes);
      max := MAX_INFLIGHT_POLL;
      var ids := blockVotes.Keys;
      while ids != {}
        invariant ids <= blockVotes.Keys
        invariant max <= MAX_INFLIGHT_POLL
        invariant forall id :: id in scores && id !in ids ==> max <= FINALIZATION_SCORE - scores[id]
        invariant max < MAX_INFLIGHT_POLL ==> exists id :: id in scores && max == FINALIZATION_SCORE - scores[id]
        decreases ids
      {
        var id :| id in ids;
        ids := ids - {id};
        var confidence := Score(blockVotes[id].confidence);
        assert scores[id] == confidence;
        if MAX_INFLIGHT_POLL - confidence < max {
          max := FINALIZATION_SCORE - confidence;
        }
      }
      NeededUnique(scores, max);
    }

    method AddNewBlock(blockID: ID, isAcceptable: bool)
      requires Valid()
      modifies this`blockVotes, this`bitRecord, this`tallies
      ensures Valid()
      ensures blockID in blockVotes
      ensures blockVotes ==
        old(blockVotes)[blockID := BlockVoteRecord(isAcceptable, 0, 0, blockVotes[blockID].confidence)]
      ensures tallies == old(tallies)[blockID := NO_VOTES] && Score(blockVotes[blockID].confidence) == 0
      ensures ScoresStep(ScoresOf(old(blockVotes)), ScoresOf(blockVotes), false)
      ensures forall id :: FinalIn(blockVotes, id) ==> FinalIn(old(blockVotes), id)
      ensures blockID !in old(blockVotes) ==> forall id :: FinalIn(old(blockVotes), id) ==> FinalIn(blockVotes, id)
      ensures blockVotes[blockID].IsPreferred() <==>
        !old(SomePreferred()) && isAcceptable && SameBits(bitRecord.finalizedBits, blockID, bitRecord.activeBit)
      ensures old(bitRecord).activeBit < 256
      ensures bitRecord == if blockVotes[blockID].IsPreferred() && Score(old(bitRecord).confidence) == 0
                           then SetActiveBit(old(bitRecord), GetBit(blockID, old(bitRecord).activeBit))
                           else old(bitRecord)
      ensures old(blockVotes == map[] && bitRecord == NEW_BIT_RECORD) ==>
        FirstIn(blockVotes, bitRecord, blockID, isAcceptable)
    {
      hide BlockInv, BitInv, SameBits, GetBit;
      ZeroAgrees(bitRecord.finalizedBits, blockID);
      var havePreferred := HavePreferred();
      var preferred := false;
      BitInRange(bitRecord, bitTally);
      if !havePreferred && isAcceptable {
        var agrees := CompareWithFinalized(bitRecord, blockID);
        if agrees {
          preferred := true;
          if Score(bitRecord.confidence) == 0 {
            SetActiveKeepsInv(bitRecord, bitTally, GetBit(blockID, bitRecord.activeBit));
            bitRecord := SetActiveBit(bitRecord, GetBit(blockID, bitRecord.activeBit));
          }
        }
      }
      FreshRecord(isAcceptable, preferred);
      ghost var before := blockVotes;
      PutRecord(blockID, BlockVoteRecord(isAcceptable, 0, 0, OneOrZero(preferred)), NO_VOTES);
      AddedStep(before, blockVotes, blockID);
    }

    /** Stores a record that has not finalized, and its tally. */
    method PutRecord(id: ID, rec: BlockVoteRecord, ghost t: Tally)
      requires Valid() && BlockInv(rec, t) && t.total <= totalVotes && !rec.HasFinalized()
      modifies this`blockVotes, this`tallies
      ensures Valid()
      ensures blockVotes == old(blockVotes)[id := rec] && tallies == old(tallies)[id := t]
    {
      hide BlockInv, BitInv;
      ghost var before := blockVotes;
      blockVotes := blockVotes[id := rec];
      tallies := tallies[id := t];
      assert forall other :: FinalIn(blockVotes, other) ==> FinalIn(before, other);
    }

    /** The first loop of AddNewBlock. */
    method HavePreferred() returns (havePreferred: bool)
      ensures havePreferred == SomePreferred()
    {
      var ids := blockVotes.Keys;
      while ids != {}
        invariant ids <= blockVotes.Keys
        invariant forall id :: id in blockVotes && id !in ids ==> !blockVotes[id].IsPreferred()
        decreases ids
      {
        var id :| id in ids;
        ids := ids - {id};
        if blockVotes[id].IsPreferred() {
          return true;
        }
      }
      havePreferred := false;
    }

    /**
     The first steps of RecordVote: the record voted for, then all the others,
     until one finalizes.  `recorded` are the blocks that got their vote.
     */
    method RecordBlockVotes(voteID: ID) returns (finalized: Option<ID>, ghost recorded: set<ID>)
      requires Valid() && NoneFinal()
      modifies this`blockVotes, this`tallies, this`totalVotes
      ensures Valid() && totalVotes == old(totalVotes) + 1
      ensures if finalized == None then NoneFinal() && recorded == blockVotes.Keys else IsFinal(finalized.value)
      ensures VotesRecorded(voteID, recorded, old(blockVotes), old(tallies), blockVotes, tallies)
    {
      hide BlockInv, BitInv, Recorded, VotesRecorded, AtMostOneFinal, Tally.Add;
      ghost var before, talliesBefore := blockVotes, tallies;
      totalVotes := totalVotes + 1;
      recorded, finalized := {}, None;
      NothingRecorded(voteID, blockVotes, tallies);
      if voteID in blockVotes {
        RecordOneMore(voteID, {}, voteID, before, talliesBefore, blockVotes, tallies);
        var result := RecordOne(voteID, voteID);
        recorded := {} + {voteID};
        if result == Finalized {
          return Some(voteID), recorded;
        }
      }
      var ids := blockVotes.Keys - {voteID};
      while ids != {}
        invariant ids <= before.Keys && recorded !! ids && recorded + ids == before.Keys
        invariant Valid() && NoneFinal() && totalVotes == old(totalVotes) + 1
        invariant blockVotes.Keys == before.Keys
        invariant VotesRecorded(voteID, recorded, before, talliesBefore, blockVotes, tallies)
        decreases ids
      {
        var id :| id in ids;
        ids := ids - {id};
        RecordOneMore(voteID, recorded, id, before, talliesBefore, blockVotes, tallies);
        var result := RecordOne(id, voteID);
        recorded := recorded + {id};
        if result == Finalized {
          return Some(id), recorded;
        }
      }
    }

    /** Records the vote on one block. */
    method RecordOne(id: ID, voteID: ID) returns (result: Result)
      requires Valid() && NoneFinal() && id in blockVotes && tallies[id].total < totalVotes
      modifies this`blockVotes, this`tallies
      ensures Valid()
      ensures blockVotes == old(blockVotes)[id := Recorded(old(blockVotes)[id], VoteOn(voteID, id)).0]
      ensures tallies == old(tallies)[id := old(tallies)[id].Add(VoteOn(voteID, id))]
      ensures if result == Finalized then IsFinal(id) else NoneFinal()
    {
      hide BlockInv, BitInv, Recorded;
      ghost var before, t := blockVotes, tallies[id];
      var record := blockVotes[id];
      assert !FinalIn(blockVotes, id);
      RecordKeepsInv(record, t, VoteOn(voteID, id));
      record, result := RecordBlockVote(record, VoteOn(voteID, id));
      blockVotes := blockVotes[id := record];
      tallies := tallies[id := t.Add(VoteOn(voteID, id))];
      assert forall other :: FinalIn(blockVotes, other) ==> other == id || FinalIn(before, other);
    }

    /** An acceptable block that agrees with the finalized bits and, when asked, with the active one. */
    method Select(matchActiveBit: bool) returns (id: Option<ID>)
      requires bitRecord.activeBit < 256
      ensures IsChosen(blockVotes, bitRecord, matchActiveBit, id)
      ensures id == None ==> forall other :: !Eligible(other)
    {
      hide SameBits, GetBit;
      var ids := blockVotes.Keys;
      while ids != {}
        invariant ids <= blockVotes.Keys
        invariant forall other :: other !in ids ==>
          !EligibleIn(blockVotes, bitRecord, other) && (!matchActiveBit ==> !AgreesIn(blockVotes, bitRecord, other))
        decreases ids
      {
        var other :| other in ids;
        ids := ids - {other};
        if blockVotes[other].acceptable {
          var agrees := CompareWithFinalized(bitRecord, other);
          if agrees && (!matchActiveBit || GetBit(other, bitRecord.activeBit) == bitRecord.IsOnePreferred()) {
            return Some(other);
          }
        }
      }
      id := None;
    }

    method Reset(id: ID, yes: bool)
      requires Valid() && id in blockVotes
      modifies this`blockVotes, this`tallies
      ensures Valid() && (old(NoneFinal()) ==> NoneFinal())
      ensures blockVotes == old(blockVotes)[id := ResetRecord(old(blockVotes)[id], yes)]
      ensures tallies == old(tallies)[id := old(tallies)[id].(log := [])]
      ensures SameBlocks(old(blockVotes), blockVotes) && NoHigher(old(blockVotes), blockVotes)
      ensures SameTotals(old(tallies), tallies)
    {
      hide BlockInv, BitInv;
      ghost var before := blockVotes;
      ResetKeepsInv(blockVotes[id], tallies[id], yes);
      PutRecord(id, ResetRecord(blockVotes[id], yes), tallies[id].(log := []));
      assert forall other :: FinalIn(blockVotes, other) ==> FinalIn(before, other);
    }

    /**
     The last part of RecordVote: after a bit flipped or was fixed, or when no
     block is preferred, choose the preferred block anew.
     */
    method Reselect(result: Result)
      requires Valid() && NoneFinal()
      modifies this`blockVotes, this`tallies, this`bitRecord
      ensures Valid() && NoneFinal() && SameTotals(old(tallies), tallies)
      ensures SameBlocks(old(blockVotes), blockVotes) && NoHigher(old(blockVotes), blockVotes)
      ensures bitRecord.(confidence := 0) == old(bitRecord).(confidence := 0)
      ensures SomePreferred() || forall id :: !Eligible(id)
      ensures Reselected(old(blockVotes), old(bitRecord), result, blockVotes, bitRecord)
    {
      hide BlockInv, BitInv, SameBits, AtMostOneFinal, SameBlocks, NoHigher, SameTotals, IsChosen, Dropped;
      hide IsPreference;
      hide BlockChoice.SomePreferred, BlockChoice.Eligible, BlockChoice.Agrees;
      BitInRange(bitRecord, bitTally);
      ghost var v0, t0, b0 := blockVotes, tallies, bitRecord;
      var newPreferred, reselect;
      ghost var current;
      newPreferred, reselect, current := ChooseNew(result);
      if newPreferred.Some? {
        ghost var v1, t1 := blockVotes, tallies;
        Prefer(newPreferred.value, result == Finalized || reselect);
        StaysTransitive(v0, v1, blockVotes, t0, t1, tallies);
      }
      assert Replaces(v0, b0, result, current, newPreferred, blockVotes, bitRecord);
    }

    /** Prefers a block, and with `follow` also the value that the active bit has in it. */
    method Prefer(id: ID, follow: bool)
      requires Valid() && NoneFinal() && id in blockVotes
      modifies this`blockVotes, this`tallies, this`bitRecord
      ensures Valid() && NoneFinal() && SameTotals(old(tallies), tallies)
      ensures SameBlocks(old(blockVotes), blockVotes) && NoHigher(old(blockVotes), blockVotes)
      ensures bitRecord.(confidence := 0) == old(bitRecord).(confidence := 0) && SomePreferred()
      ensures blockVotes == old(blockVotes)[id := ResetRecord(old(blockVotes)[id], true)]
      ensures old(bitRecord).activeBit < 256
      ensures bitRecord == if follow then SetActiveBit(old(bitRecord), GetBit(id, old(bitRecord).activeBit))
                           else old(bitRecord)
    {
      hide BlockInv, BitInv, SameBits, GetBit, AtMostOneFinal, SameBlocks, NoHigher, SameTotals;
      BitInRange(bitRecord, bitTally);
      Reset(id, true);
      assert blockVotes[id].IsPreferred();
      if follow {
        SetActiveKeepsInv(bitRecord, bitTally, GetBit(id, bitRecord.activeBit));
        bitRecord := SetActiveBit(bitRecord, GetBit(id, bitRecord.activeBit));
      }
    }

    /** Which block to prefer from now on, if the preference changes; a bit flip drops the present one first. */
    method ChooseNew(result: Result) returns (newPreferred: Option<ID>, reselect: bool, ghost current: ID)
      requires Valid() && NoneFinal()
      modifies this`blockVotes, this`tallies
      ensures Valid() && NoneFinal() && SameTotals(old(tallies), tallies)
      ensures SameBlocks(old(blockVotes), blockVotes) && NoHigher(old(blockVotes), blockVotes)
      ensures newPreferred.Some? ==> newPreferred.value in blockVotes && (reselect <==> result == NoChange)
      ensures newPreferred.Some? || SomePreferred() || forall id :: !Eligible(id)
      ensures IsPreference(old(blockVotes), current) && blockVotes == Dropped(old(blockVotes), result, current)
      ensures if Keeps(bitRecord, result, current) then newPreferred == None
              else IsChosen(old(blockVotes), bitRecord, result == Flipped, newPreferred)
    {
      hide BlockInv, BitInv, SameBits, GetBit, AtMostOneFinal;
      hide SameBlocks, NoHigher, SameTotals;
      BitInRange(bitRecord, bitTally);
      StaysReflexive(blockVotes, tallies);
      newPreferred, reselect := None, false;
      var preference := GetPreference();
      current := preference;
      if result == NoChange {
        if preference == ZERO_ID {
          newPreferred := Select(false);
          reselect := newPreferred.Some?;
        }
      } else if result == Finalized {
        if preference != ZERO_ID {
          var agrees := CompareWithFinalized(bitRecord, preference);
          if agrees {
            return;
          }
        }
        newPreferred := Select(false);
      } else {
        if preference != ZERO_ID {
          Reset(preference, false);
        }
        DroppedAgrees(old(blockVotes), bitRecord, preference);
        newPreferred := Select(true);
      }
    }

    /** The vote on the active bit. */
    method VoteOnBits(voteID: ID) returns (result: Result)
      requires Valid()
      modifies this`bitRecord, this`bitTally
      ensures Valid() && old(bitRecord).activeBit < 256 && (bitRecord, result) == BitRecorded(old(bitRecord), voteID)
      ensures old(bitRecord).activeBit < 255 ==>
        && bitRecord.activeBit in {old(bitRecord).activeBit, old(bitRecord).activeBit + 1}
        && SameBits(bitRecord.finalizedBits, old(bitRecord).finalizedBits, old(bitRecord).activeBit)
    {
      hide BlockInv, BitInv, SameBits, SameElsewhere, GetBit, AtMostOneFinal, BitRecorded;
      BitInRange(bitRecord, bitTally);
      BitVoteKeepsInv(bitRecord, bitTally, voteID);
      SameElsewhereKeepsPrefix(BitRecorded(bitRecord, voteID).0.finalizedBits, bitRecord.finalizedBits,
                               bitRecord.activeBit);
      ghost var vote := bitRecord.BitOf(voteID);
      bitRecord, result := RecordBitVote(bitRecord, voteID);
      bitTally := if result == Finalized then NO_BIT_VOTES else bitTally.Add(vote);
    }

    /**
     RecordVote, which the engine calls only while no block has finalized.  A
     finalizing vote ends it at once.  Otherwise every block got exactly one
     vote, the bits fixed so far are still fixed, and a block is preferred if an
     acceptable one agrees with the bits.
     */
    method RecordVote(voteID: ID) returns (finalized: Option<ID>)
      requires Valid() && NoneFinal()
      modifies this`blockVotes, this`tallies, this`totalVotes, this`bitRecord, this`bitTally
      ensures Valid() && totalVotes == old(totalVotes) + 1
      ensures SameBlocks(old(blockVotes), blockVotes) && AtMostOneHigher(old(blockVotes), blockVotes)
      ensures ScoresStep(ScoresOf(old(blockVotes)), ScoresOf(blockVotes), true)
      ensures if finalized == None then NoneFinal() else IsFinal(finalized.value)
      ensures TotalsGrow(voteID, old(tallies), tallies, finalized == None)
      ensures finalized == None ==> SomePreferred() || forall id :: !Eligible(id)
      ensures old(bitRecord).activeBit < 255 ==>
        && bitRecord.activeBit in {old(bitRecord).activeBit, old(bitRecord).activeBit + 1}
        && SameBits(bitRecord.finalizedBits, old(bitRecord).finalizedBits, old(bitRecord).activeBit)
      ensures old(bitRecord).activeBit < 256
      ensures VoteEffect(voteID, old(blockVotes), old(bitRecord), blockVotes, bitRecord)
    {
      hide RecordedAll, FinalIn, ScoresStep, ScoresOf, BlockChoice.Eligible, Reselected, SomeRecorded;
      hide BlockInv, BitInv, VotesRecorded, BitRecorded, GetBit, SameBits, AtMostOneFinal, SameBlocks;
      hide AtMostOneHigher, NoHigher, TotalsGrow, SameTotals;
      ghost var before, talliesBefore := blockVotes, tallies;
      ghost var recorded;
      finalized, recorded := RecordBlockVotes(voteID);
      WhatWasRecorded(voteID, recorded, before, talliesBefore, blockVotes, tallies);
      BitInRange(bitRecord, bitTally);
      SameElsewhereKeepsPrefix(bitRecord.finalizedBits, bitRecord.finalizedBits, bitRecord.activeBit);
      BitInRange(bitRecord, bitTally);
      if finalized.Some? {
        FinalizedByVote(voteID, recorded, before, talliesBefore, blockVotes, tallies, finalized.value);
        RecordedIsSome(voteID, recorded, before, talliesBefore, blockVotes, tallies);
        VotedStep(before, blockVotes);
        SameKeys(before, blockVotes);
        return;
      }
      ghost var voted := tallies;
      AllRecorded(voteID, before, talliesBefore, blockVotes, tallies);
      var result := VoteOnBits(voteID);
      ghost var middle := blockVotes;
      Reselect(result);
      RecordThenReselect(voteID, before, middle, blockVotes, talliesBefore, voted, tallies);
      VotedStep(before, blockVotes);
      SameKeys(before, blockVotes);
    }
  }

  /** The records after each block got its vote. */
  function RecordedAll(voteID: ID, votes: map<ID, BlockVoteRecord>): (r: map<ID, BlockVoteRecord>)
    ensures r.Keys == votes.Keys
  {
    map id | id in votes :: Recorded(votes[id], VoteOn(voteID, id)).0
  }

  /** The present preference; any one of them if there are several. */
  ghost predicate IsPreference(votes: map<ID, BlockVoteRecord>, current: ID)
  {
    (current in votes && votes[current].IsPreferred()) || (current == ZERO_ID && !PrefersSome(votes))
  }

  /** The present preference stays; a flipped bit never keeps it, a fixed bit keeps it if it agrees. */
  predicate Keeps(bits: BitVoteRecord, result: Result, current: ID)
    requires bits.activeBit < 256
  {
    match result
    case NoChange => current != ZERO_ID
    case Finalized => current != ZERO_ID && SameBits(bits.finalizedBits, current, bits.activeBit)
    case Flipped => false
  }

  /** Any block that agrees, and with `match` the active bit too; none only if there is none. */
  ghost predicate IsChosen(votes: map<ID, BlockVoteRecord>, bits: BitVoteRecord, matchActiveBit: bool,
                           chosen: Option<ID>)
    requires bits.activeBit < 256
  {
    match chosen
    case Some(id) => AgreesIn(votes, bits, id) && (matchActiveBit ==> EligibleIn(votes, bits, id))
    case None => forall id :: !EligibleIn(votes, bits, id) && (!matchActiveBit ==> !AgreesIn(votes, bits, id))
  }

  /** A flipped bit drops the present preference. */
  function Dropped(votes: map<ID, BlockVoteRecord>, result: Result, current: ID): (r: map<ID, BlockVoteRecord>)
    ensures r.Keys == votes.Keys
  {
    if result == Flipped && current != ZERO_ID && current in votes
    then votes[current := ResetRecord(votes[current], false)]
    else votes
  }

  lemma DroppedAgrees(votes: map<ID, BlockVoteRecord>, bits: BitVoteRecord, current: ID)
    requires bits.activeBit < 256
    ensures forall id :: AgreesIn(Dropped(votes, Flipped, current), bits, id) <==> AgreesIn(votes, bits, id)
    ensures forall id :: EligibleIn(Dropped(votes, Flipped, current), bits, id) <==> EligibleIn(votes, bits, id)
  {
    hide GetBit, SameBits;
  }

  ghost predicate Replaces(v0: map<ID, BlockVoteRecord>, b0: BitVoteRecord, result: Result, current: ID,
                           chosen: Option<ID>, v1: map<ID, BlockVoteRecord>, b1: BitVoteRecord)
    requires b0.activeBit < 256
  {
    var dropped := Dropped(v0, result, current);
    && IsPreference(v0, current)
    && (if Keeps(b0, result, current) then chosen == None else IsChosen(v0, b0, result == Flipped, chosen))
    && match chosen
       case None => v1 == dropped && b1 == b0
       case Some(id) =>
         && id in dropped && v1 == dropped[id := ResetRecord(dropped[id], true)]
         && b1 == if result == Flipped then b0 else SetActiveBit(b0, GetBit(id, b0.activeBit))
  }

  /** How the preferred block is chosen anew once a vote is recorded on the blocks and on the active bit. */
  ghost predicate Reselected(v0: map<ID, BlockVoteRecord>, b0: BitVoteRecord, result: Result,
                             v1: map<ID, BlockVoteRecord>, b1: BitVoteRecord)
  {
    b0.activeBit < 256 && exists current, chosen :: Replaces(v0, b0, result, current, chosen, v1, b1)
  }

  /** An acceptable block that agrees with the fixed bits is preferred and its active bit too, if there is one. */
  ghost predicate PreferenceFound(v0: map<ID, BlockVoteRecord>, b0: BitVoteRecord, v1: map<ID, BlockVoteRecord>,
                                  b1: BitVoteRecord)
    requires b0.activeBit < 256
  {
    || (&& v1 == v0 && b1 == b0
        && forall id :: id in v0 && v0[id].acceptable ==> !SameBits(b0.finalizedBits, id, b0.activeBit))
    || exists id ::
         && id in v0 && v0[id].acceptable && SameBits(b0.finalizedBits, id, b0.activeBit)
         && v1 == v0[id := BlockVoteRecord(true, 0, 0, 1)]
         && b1 == b0.(confidence := if GetBit(id, b0.activeBit) then 1 else 0)
  }

  lemma ChosenIsFound(v0: map<ID, BlockVoteRecord>, b0: BitVoteRecord, chosen: Option<ID>, v1: map<ID, BlockVoteRecord>,
                      b1: BitVoteRecord)
    requires b0.activeBit < 256 && IsChosen(v0, b0, false, chosen)
    requires match chosen
      case None => v1 == v0 && b1 == b0
      case Some(id) =>
        && id in v0 && v1 == v0[id := ResetRecord(v0[id], true)]
        && b1 == SetActiveBit(b0, GetBit(id, b0.activeBit))
    ensures PreferenceFound(v0, b0, v1, b1)
  {
    hide GetBit, SameBits;
    match chosen {
      case None =>
        forall id | id in v0 && v0[id].acceptable ensures !SameBits(b0.finalizedBits, id, b0.activeBit) {
          assert !AgreesIn(v0, b0, id);
        }
      case Some(id) =>
        assert AgreesIn(v0, b0, id) && v1 == v0[id := BlockVoteRecord(true, 0, 0, 1)];
    }
  }

  lemma ResetMeans()
    ensures forall rec, yes :: ResetRecord(rec, yes).IsPreferred() == yes
    ensures forall rec, yes :: var r := ResetRecord(rec, yes);
      r.acceptable == rec.acceptable && r.votes == 0 == r.consider && Score(r.confidence) == 0
  {
  }

  /**
   A flipped bit drops the one preferred block, whatever its votes.  From then
   on only a block is preferred whose ID has the newly preferred bit.
   */
  lemma FlipDropsPreference(v0: map<ID, BlockVoteRecord>, b0: BitVoteRecord, id: ID, v1: map<ID, BlockVoteRecord>,
                            b1: BitVoteRecord)
    requires Reselected(v0, b0, Flipped, v1, b1) && id != ZERO_ID
    requires forall other :: other in v0 ==> (v0[other].IsPreferred() <==> other == id)
    ensures b1 == b0 && v1.Keys == v0.Keys
    ensures id in v0 ==> v1[id].votes == 0 == v1[id].consider && Score(v1[id].confidence) == 0
    ensures forall other :: other in v1 && v1[other].IsPreferred() ==>
      && v1[other].acceptable && SameBits(b1.finalizedBits, other, b1.activeBit)
      && GetBit(other, b1.activeBit) == b1.IsOnePreferred()
    ensures forall a, b :: a in v1 && b in v1 && v1[a].IsPreferred() && v1[b].IsPreferred() ==> a == b
    ensures PrefersSome(v1) <==> exists other :: EligibleIn(v0, b0, other)
  {
    ResetMeans();
    hide GetBit, SameBits, ResetRecord, Preferred, Score;
    var current, chosen :| Replaces(v0, b0, Flipped, current, chosen, v1, b1);
    assert if id in v0 then current == id && PrefersSome(v0) else !PrefersSome(v0);
    if chosen.Some? {
      assert v1[chosen.value].IsPreferred();
    }
  }

  /**
   A fixed bit keeps the preferred block if it agrees with all fixed bits.  If
   not, one that does is preferred and sets the preference for the next bit.
   */
  lemma FixKeepsAgreement(v0: map<ID, BlockVoteRecord>, b0: BitVoteRecord, id: ID, v1: map<ID, BlockVoteRecord>,
                          b1: BitVoteRecord)
    requires Reselected(v0, b0, Finalized, v1, b1) && id != ZERO_ID && id in v0
    requires forall other :: other in v0 ==> (v0[other].IsPreferred() <==> other == id)
    ensures if SameBits(b0.finalizedBits, id, b0.activeBit) then v1 == v0 && b1 == b0
            else PreferenceFound(v0, b0, v1, b1)
  {
    hide GetBit, SameBits;
    var current, chosen :| Replaces(v0, b0, Finalized, current, chosen, v1, b1);
    assert current == id;
    if !SameBits(b0.finalizedBits, id, b0.activeBit) {
      ChosenIsFound(v0, b0, chosen, v1, b1);
    }
  }

  /** With no preference, a block that agrees with the fixed bits is preferred and sets the active one. */
  lemma NewPreference(v0: map<ID, BlockVoteRecord>, b0: BitVoteRecord, result: Result, v1: map<ID, BlockVoteRecord>,
                      b1: BitVoteRecord)
    requires Reselected(v0, b0, result, v1, b1) && result != Flipped && !PrefersSome(v0)
    ensures PreferenceFound(v0, b0, v1, b1)
  {
    hide GetBit, SameBits, PreferenceFound;
    var current, chosen :| Replaces(v0, b0, result, current, chosen, v1, b1);
    assert current == ZERO_ID;
    ChosenIsFound(v0, b0, chosen, v1, b1);
  }

  /** A record stays as it is or starts afresh. */
  lemma ReselectedRecord(v0: map<ID, BlockVoteRecord>, b0: BitVoteRecord, result: Result, v1: map<ID, BlockVoteRecord>,
                         b1: BitVoteRecord, id: ID)
    requires Reselected(v0, b0, result, v1, b1) && id in v0
    ensures id in v1
    ensures v1[id] == v0[id] || v1[id] == ResetRecord(v0[id], true) || v1[id] == ResetRecord(v0[id], false)
  {
    hide GetBit, SameBits, IsChosen, IsPreference;
  }

  /** A round that decides nothing about the bit leaves a preference alone. */
  lemma QuietStays(v0: map<ID, BlockVoteRecord>, b0: BitVoteRecord, v1: map<ID, BlockVoteRecord>, b1: BitVoteRecord)
    requires Reselected(v0, b0, NoChange, v1, b1) && ZERO_ID !in v0 && PrefersSome(v0)
    ensures v1 == v0 && b1 == b0
  {
    hide GetBit, SameBits;
  }

  /**
   What a vote does while no block has finalized.  One finalizes exactly if the
   record of one does, and then no bit gets the vote.  Otherwise every block and
   the active bit got it, and the preferred block was chosen anew.
   */
  ghost predicate VoteEffect(voteID: ID, v0: map<ID, BlockVoteRecord>, b0: BitVoteRecord,
                             v1: map<ID, BlockVoteRecord>, b1: BitVoteRecord)
  {
    && b0.activeBit < 256 && v1.Keys == v0.Keys
    && if exists id :: FinalIn(RecordedAll(voteID, v0), id)
       then (exists id :: FinalIn(v1, id)) && b1 == b0 && SomeRecorded(voteID, v0, v1)
       else && (forall id :: !FinalIn(v1, id))
            && Reselected(RecordedAll(voteID, v0), BitRecorded(b0, voteID).0, BitRecorded(b0, voteID).1, v1, b1)
  }

  /** Each record got its vote or is as it was. */
  ghost predicate SomeRecorded(voteID: ID, v0: map<ID, BlockVoteRecord>, v1: map<ID, BlockVoteRecord>)
  {
    v1.Keys == v0.Keys && forall id :: id in v1 ==> v1[id] == v0[id] || v1[id] == RecordedAll(voteID, v0)[id]
  }

  ghost predicate PrefersSome(votes: map<ID, BlockVoteRecord>)
  {
    exists id :: id in votes && votes[id].IsPreferred()
  }

  /** A block that has finalized got its vote. */
  lemma FinalizedByVote(voteID: ID, recorded: set<ID>, before: map<ID, BlockVoteRecord>, t0: map<ID, Tally>,
                        after: map<ID, BlockVoteRecord>, t1: map<ID, Tally>, id: ID)
    requires VotesRecorded(voteID, recorded, before, t0, after, t1)
    requires FinalIn(after, id) && forall other :: !FinalIn(before, other)
    ensures FinalIn(RecordedAll(voteID, before), id)
  {
    hide Recorded, VoteOn;
    assert !FinalIn(before, id);
  }

  lemma RecordedIsSome(voteID: ID, recorded: set<ID>, before: map<ID, BlockVoteRecord>, t0: map<ID, Tally>,
                       after: map<ID, BlockVoteRecord>, t1: map<ID, Tally>)
    requires VotesRecorded(voteID, recorded, before, t0, after, t1)
    ensures SomeRecorded(voteID, before, after)
  {
    hide Recorded, VoteOn;
  }

  lemma AllRecorded(voteID: ID, before: map<ID, BlockVoteRecord>, t0: map<ID, Tally>,
                    after: map<ID, BlockVoteRecord>, t1: map<ID, Tally>)
    requires VotesRecorded(voteID, after.Keys, before, t0, after, t1)
    ensures after == RecordedAll(voteID, before)
  {
    hide Recorded, VoteOn;
  }

  /** The same blocks, each as acceptable as before. */
  ghost predicate SameBlocks(before: map<ID, BlockVoteRecord>, after: map<ID, BlockVoteRecord>)
  {
    && after.Keys == before.Keys
    && forall id :: id in after ==> after[id].acceptable == before[id].acceptable
  }

  ghost predicate SameTotals(before: map<ID, Tally>, after: map<ID, Tally>)
  {
    after.Keys == before.Keys &&
    forall id :: id in after ==> after[id].yes == before[id].yes && after[id].total == before[id].total
  }

  /** No score went up. */
  ghost predicate NoHigher(before: map<ID, BlockVoteRecord>, after: map<ID, BlockVoteRecord>)
  {
    after.Keys == before.Keys &&
    forall id :: id in after ==> Score(after[id].confidence) <= Score(before[id].confidence)
  }

  lemma SameKeys(before: map<ID, BlockVoteRecord>, after: map<ID, BlockVoteRecord>)
    requires SameBlocks(before, after)
    ensures after.Keys == before.Keys
  {
  }

  lemma StaysReflexive(v: map<ID, BlockVoteRecord>, t: map<ID, Tally>)
    ensures SameBlocks(v, v) && NoHigher(v, v) && SameTotals(t, t)
  {
  }

  lemma StaysTransitive(v0: map<ID, BlockVoteRecord>, v1: map<ID, BlockVoteRecord>, v2: map<ID, BlockVoteRecord>,
                        t0: map<ID, Tally>, t1: map<ID, Tally>, t2: map<ID, Tally>)
    requires SameBlocks(v0, v1) && NoHigher(v0, v1) && SameTotals(t0, t1)
    requires SameBlocks(v1, v2) && NoHigher(v1, v2) && SameTotals(t1, t2)
    ensures SameBlocks(v0, v2) && NoHigher(v0, v2) && SameTotals(t0, t2)
  {
  }

  /** No score went up by more than one. */
  ghost predicate AtMostOneHigher(before: map<ID, BlockVoteRecord>, after: map<ID, BlockVoteRecord>)
  {
    after.Keys == before.Keys &&
    forall id :: id in after ==> Score(after[id].confidence) <= Score(before[id].confidence) + 1
  }

  /** Every block got at most one vote, and a yes only if it was voted for; `all` says that every block got its vote. */
  ghost predicate TotalsGrow(voteID: ID, before: map<ID, Tally>, after: map<ID, Tally>, all: bool)
  {
    after.Keys == before.Keys &&
    forall id :: id in after ==>
      var yes := if id == voteID != ZERO_ID then 1 else 0;
      && before[id].total <= after[id].total <= before[id].total + 1
      && before[id].yes <= after[id].yes <= before[id].yes + yes
      && (all ==> after[id].total == before[id].total + 1 && after[id].yes == before[id].yes + yes)
  }

  lemma WhatWasRecorded(voteID: ID, recorded: set<ID>, before: map<ID, BlockVoteRecord>, talliesBefore: map<ID, Tally>,
                        after: map<ID, BlockVoteRecord>, talliesAfter: map<ID, Tally>)
    requires VotesRecorded(voteID, recorded, before, talliesBefore, after, talliesAfter)
    requires forall id :: id in before ==> BlockInv(before[id], talliesBefore[id]) && !FinalIn(before, id)
    ensures SameBlocks(before, after) && AtMostOneHigher(before, after)
    ensures TotalsGrow(voteID, talliesBefore, talliesAfter, false)
    ensures recorded == after.Keys ==> TotalsGrow(voteID, talliesBefore, talliesAfter, true)
  {
    hide BlockInv;
    forall id | id in after
      ensures after[id].acceptable == before[id].acceptable
      ensures Score(after[id].confidence) <= Score(before[id].confidence) + 1
    {
      assert !FinalIn(before, id);
      RecordKeepsInv(before[id], talliesBefore[id], VoteOn(voteID, id));
    }
  }

  /** What recording and then choosing anew do together. */
  lemma RecordThenReselect(voteID: ID, before: map<ID, BlockVoteRecord>, middle: map<ID, BlockVoteRecord>,
                           after: map<ID, BlockVoteRecord>,
                           t0: map<ID, Tally>, t1: map<ID, Tally>, t2: map<ID, Tally>)
    requires SameBlocks(before, middle) && AtMostOneHigher(before, middle) && TotalsGrow(voteID, t0, t1, true)
    requires SameBlocks(middle, after) && NoHigher(middle, after) && SameTotals(t1, t2)
    ensures SameBlocks(before, after) && AtMostOneHigher(before, after) && TotalsGrow(voteID, t0, t2, true)
  {
    hide VoteOn;
  }

  lemma SameElsewhereKeepsPrefix(a: ID, b: ID, pos: nat)
    requires pos < 256
    ensures SameElsewhere(a, b, pos) ==> SameBits(a, b, pos)
    ensures a == b ==> SameBits(a, b, pos)
  {
    hide GetBit;
  }

  /** What a vote for `voteID` says about block `id`; the zero ID says nothing. */
  function VoteOn(voteID: ID, id: ID): (v: Vote)
  {
    if voteID == ZERO_ID then Unknown else if id == voteID then Yes else No
  }

  /** A vote is one for its block and one against every other, and the zero ID is neither. */
  lemma VoteMeans(voteID: ID, votes: map<ID, BlockVoteRecord>, id: ID, t: Tally)
    requires id in votes && BlockInv(votes[id], t) && !FinalIn(votes, id)
    ensures
      var log := t.log + [if voteID == ZERO_ID then Unknown else if voteID == id then Yes else No];
      var (rec, rec') := (votes[id], RecordedAll(voteID, votes)[id]);
      && Window(rec'.votes, rec'.consider, log)
      && (Count(log, No, 16) > 12 ==> !rec'.IsPreferred() && Score(rec'.confidence) == 0)
      && (Count(log, Yes, 16) > 12 ==>
            rec'.IsPreferred() && Score(rec'.confidence) == if rec.IsPreferred() then Score(rec.confidence) + 1 else 0)
      && (Count(log, No, 16) <= 12 && Count(log, Yes, 16) <= 12 ==> rec'.confidence == rec.confidence)
  {
    RoundMeans(votes[id], t, VoteOn(voteID, id));
    hide Recorded, Window, Count;
  }

  /** The blocks in `recorded` got exactly their vote, the others nothing. */
  ghost predicate VotesRecorded(voteID: ID, recorded: set<ID>,
                                before: map<ID, BlockVoteRecord>, talliesBefore: map<ID, Tally>,
                                after: map<ID, BlockVoteRecord>, talliesAfter: map<ID, Tally>)
  {
    && after.Keys == before.Keys == talliesBefore.Keys == talliesAfter.Keys
    && recorded <= after.Keys
    && forall id :: id in after ==>
         if id in recorded then
           after[id] == Recorded(before[id], VoteOn(voteID, id)).0
           && talliesAfter[id] == talliesBefore[id].Add(VoteOn(voteID, id))
         else after[id] == before[id] && talliesAfter[id] == talliesBefore[id]
  }

  lemma NothingRecorded(voteID: ID, votes: map<ID, BlockVoteRecord>, tallies: map<ID, Tally>)
    requires votes.Keys == tallies.Keys
    ensures VotesRecorded(voteID, {}, votes, tallies, votes, tallies)
  {
  }

  lemma RecordOneMore(voteID: ID, recorded: set<ID>, id: ID, before: map<ID, BlockVoteRecord>, talliesBefore: map<ID,
                      Tally>,
                      votes: map<ID, BlockVoteRecord>, tallies: map<ID, Tally>)
    requires VotesRecorded(voteID, recorded, before, talliesBefore, votes, tallies) && id in votes && id !in recorded
    ensures votes[id] == before[id] && tallies[id] == talliesBefore[id]
    ensures VotesRecorded(voteID, recorded + {id}, before, talliesBefore,
                          votes[id := Recorded(votes[id], VoteOn(voteID, id)).0],
                          tallies[id := tallies[id].Add(VoteOn(voteID, id))])
  {
    hide Recorded, Tally.Add, VoteOn;
  }

  lemma FinalIsPreferred(rec: BlockVoteRecord, t: Tally)
    requires BlockInv(rec, t)
    ensures rec.HasFinalized() ==> rec.IsPreferred()
  {
  }

  // ---------- A run that finalizes a block ----------

  /** The state of a choice that has just got its first block. */
  ghost predicate FirstIn(votes: map<ID, BlockVoteRecord>, bits: BitVoteRecord, id: ID, acceptable: bool)
  {
    && votes == map[id := BlockVoteRecord(acceptable, 0, 0, OneOrZero(acceptable))]
    && bits == if acceptable then SetActiveBit(NEW_BIT_RECORD, GetBit(id, 0)) else NEW_BIT_RECORD
  }

  /** The only block after `n` votes for it; the first bit of its ID is zero. */
  ghost predicate AloneAfter(votes: map<ID, BlockVoteRecord>, bits: BitVoteRecord, id: ID, n: nat)
  {
    && votes.Keys == {id} && YesRecord(votes[id], n)
    && bits.activeBit == 0 && NoRecord(bits, n)
  }

  /** One more vote: quiet until the 172nd, which finalizes the block. */
  lemma AloneStep(v0: map<ID, BlockVoteRecord>, b0: BitVoteRecord, v1: map<ID, BlockVoteRecord>, b1: BitVoteRecord,
                  id: ID, n: nat)
    requires AloneAfter(v0, b0, id, n) && n < 172 && id != ZERO_ID && !GetBit(id, 0) && VoteEffect(id, v0, b0, v1, b1)
    ensures if n == 171 then FinalIn(v1, id)
            else (forall other :: !FinalIn(v1, other)) && AloneAfter(v1, b1, id, n + 1)
  {
    hide Recorded, BitRecorded, YesRecord, NoRecord, GetBit;
    YesRound(v0[id], n);
    var next := RecordedAll(id, v0);
    assert next.Keys == {id} && next[id] == Recorded(v0[id], Yes).0;
    if n < 171 {
      NoRound(b0, id, n);
      assert PrefersSome(next);
      QuietStays(next, BitRecorded(b0, id).0, v1, b1);
    } else {
      assert FinalIn(next, id);
    }
  }

  lemma AloneAtFirst(votes: map<ID, BlockVoteRecord>, bits: BitVoteRecord, id: ID)
    requires FirstIn(votes, bits, id, true) && !GetBit(id, 0)
    ensures AloneAfter(votes, bits, id, 0)
    ensures forall other :: !FinalIn(votes, other)
  {
    hide GetBit;
    assert Repeat(Yes, 0) == [] && Repeat(No, 0) == [];
    EmptyWindow();
  }

  lemma ZeroAgrees(a: ID, b: ID)
    ensures SameBits(a, b, 0)
  {
  }

  /** A new block and 172 votes for it: the least number that can finalize a block does. */
  method FinalizeAlone(id: ID, height: nat) returns (bc: BlockChoice)
    requires id != ZERO_ID && !GetBit(id, 0)
    ensures fresh(bc) && bc.Valid() && bc.IsFinal(id) && bc.totalVotes == 172
  {
    hide BlockInv, BitInv, GetBit, SameBits, Recorded, BitRecorded, ScoresStep, TotalsGrow, AtMostOneHigher;
    hide RecordedAll, AloneAfter, FinalIn, ScoresOf, SetActiveBit, AtMostOneFinal, FirstIn;
    bc := new BlockChoice(height);
    bc.AddNewBlock(id, true);
    AloneAtFirst(bc.blockVotes, bc.bitRecord, id);
    for n := 0 to 172
      invariant fresh(bc) && bc.Valid() && bc.totalVotes == n
      invariant if n < 172 then bc.NoneFinal() && AloneAfter(bc.blockVotes, bc.bitRecord, id, n) else bc.IsFinal(id)
    {
      VoteForAlone(bc, id, n);
    }
  }

  method VoteForAlone(bc: BlockChoice, id: ID, n: nat)
    requires bc.Valid() && bc.NoneFinal() && bc.totalVotes == n && AloneAfter(bc.blockVotes, bc.bitRecord, id, n)
    requires n < 172 && id != ZERO_ID && !GetBit(id, 0)
    modifies bc
    ensures bc.Valid() && bc.totalVotes == n + 1
    ensures if n < 171 then bc.NoneFinal() && AloneAfter(bc.blockVotes, bc.bitRecord, id, n + 1) else bc.IsFinal(id)
  {
    hide BlockChoice.Valid, GetBit, SameBits, Recorded, BitRecorded, ScoresStep, TotalsGrow, AtMostOneHigher;
    hide RecordedAll, YesRecord, NoRecord, FinalIn, ScoresOf, AloneAfter, VoteEffect;
    ghost var v0, b0 := bc.blockVotes, bc.bitRecord;
    var finalized := bc.RecordVote(id);
    AloneStep(v0, b0, bc.blockVotes, bc.bitRecord, id, n);
  }

  // ---------- How many more votes it takes ----------

  predicate IsNeeded(scores: map<ID, nat>, n: int)
  {
    && n <= FINALIZATION_SCORE
    && (forall id :: id in scores ==> n <= FINALIZATION_SCORE - scores[id])
    && (n < FINALIZATION_SCORE ==> exists id :: id in scores && n == FINALIZATION_SCORE - scores[id])
  }

  /** What the front-runner still needs, or the maximum if there is no block. */
  ghost function Needed(scores: map<ID, nat>): (n: int)
    ensures IsNeeded(scores, n)
  {
    NeededExists(scores);
    var n :| IsNeeded(scores, n);
    n
  }

  lemma {:induction false} NeededExists(scores: map<ID, nat>)
    ensures exists n :: IsNeeded(scores, n)
    decreases |scores|
  {
    if scores == map[] {
      assert IsNeeded(scores, FINALIZATION_SCORE);
    } else {
      var id :| id in scores;
      var rest := scores - {id};
      assert rest.Keys == scores.Keys - {id};
      assert |rest.Keys| == |rest| && |scores.Keys| == |scores|;
      assert forall other :: other in scores ==> other == id || (other in rest && rest[other] == scores[other]);
      NeededExists(rest);
      var n :| IsNeeded(rest, n);
      var mine := FINALIZATION_SCORE - scores[id];
      if mine < n {
        assert IsNeeded(scores, mine);
      } else {
        if n < FINALIZATION_SCORE {
          var other :| other in rest && n == FINALIZATION_SCORE - rest[other];
          assert other in scores && n == FINALIZATION_SCORE - scores[other];
        }
        assert IsNeeded(scores, n);
      }
    }
  }

  lemma NeededUnique(scores: map<ID, nat>, n: int)
    requires IsNeeded(scores, n)
    ensures n == Needed(scores)
  {
  }

  /** A step of a choice: a vote takes each score up by at most one, a new block starts at zero. */
  predicate ScoresStep(before: map<ID, nat>, after: map<ID, nat>, vote: bool)
  {
    forall id :: id in after ==>
      if id in before then after[id] <= before[id] + OneOrZero(vote) else after[id] == 0
  }

  lemma VotedStep(before: map<ID, BlockVoteRecord>, after: map<ID, BlockVoteRecord>)
    requires AtMostOneHigher(before, after)
    ensures ScoresStep(ScoresOf(before), ScoresOf(after), true)
  {
  }

  lemma AddedStep(before: map<ID, BlockVoteRecord>, after: map<ID, BlockVoteRecord>, id: ID)
    requires after.Keys == before.Keys + {id} && Score(after[id].confidence) == 0
    requires forall other :: other in before && other != id ==> after[other] == before[other]
    ensures ScoresStep(ScoresOf(before), ScoresOf(after), false)
    ensures forall other :: FinalIn(after, other) ==> FinalIn(before, other)
  {
    assert forall other :: other in after ==> other == id || after[other] == before[other];
  }

  function VotesIn(steps: seq<bool>): (n: nat)
  {
    if steps == [] then 0 else VotesIn(steps[..|steps| - 1]) + OneOrZero(steps[|steps| - 1])
  }

  ghost predicate ScoresRun(run: seq<map<ID, nat>>, steps: seq<bool>)
  {
    && |run| == |steps| + 1
    && forall k :: 0 <= k < |steps| ==> ScoresStep(run[k], run[k + 1], steps[k])
  }

  lemma {:induction false} ScoresAlongRun(run: seq<map<ID, nat>>, steps: seq<bool>, id: ID)
    requires ScoresRun(run, steps) && id in run[|steps|]
    ensures run[|steps|][id] <= (if id in run[0] then run[0][id] else 0) + VotesIn(steps)
    decreases |steps|
  {
    if steps != [] {
      var n := |steps| - 1;
      assert ScoresStep(run[n], run[n + 1], steps[n]);
      assert ScoresRun(run[..n + 1], steps[..n]) by {
        forall k | 0 <= k < n ensures ScoresStep(run[..n + 1][k], run[..n + 1][k + 1], steps[..n][k]) {
          assert ScoresStep(run[k], run[k + 1], steps[k]);
        }
      }
      if id in run[n] {
        ScoresAlongRun(run[..n + 1], steps[..n], id);
      }
    }
  }

  /** No run with fewer votes than needed finalizes a block, however blocks are added in between. */
  lemma NeededIsLowerBound(run: seq<map<ID, nat>>, steps: seq<bool>)
    requires ScoresRun(run, steps) && VotesIn(steps) < Needed(run[0])
    ensures forall id :: id in run[|steps|] ==> run[|steps|][id] < FINALIZATION_SCORE
  {
    forall id | id in run[|steps|] ensures run[|steps|][id] < FINALIZATION_SCORE {
      ScoresAlongRun(run, steps, id);
    }
  }
}
