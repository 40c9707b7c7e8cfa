/**
 Vote records (consensus/vote.go): what the two 16-bit shift registers of a
 record hold, and how many votes it takes to finalize a block or a bit.
 */
module Votes {
  import opened VoteBits

  const FINALIZATION_SCORE := 160

  datatype Vote = No | Yes | Unknown

  datatype Result = NoChange | Flipped | Finalized

  // ---------- The last sixteen votes ----------

  /** The vote of the given age in a log whose last vote is the newest. */
  predicate Is(log: seq<Vote>, age: nat, v: Vote)
  {
    age < |log| && log[|log| - 1 - age] == v
  }

  /** How many of the newest `k` votes are `v`. */
  function Count(log: seq<Vote>, v: Vote, k: nat): (n: nat)
  {
    if k == 0 then 0 else Count(log, v, k - 1) + if Is(log, k - 1, v) then 1 else 0
  }

  /** How many more rounds the newest `k` votes for `v` will take part in, after the current one. */
  function Weight(log: seq<Vote>, v: Vote, k: nat): (n: nat)
    requires k <= 16
  {
    if k == 0 then 0 else Weight(log, v, k - 1) + if Is(log, k - 1, v) then 16 - k else 0
  }

  /** The registers hold the last sixteen votes; an unknown vote is a zero in both. */
  ghost predicate Window(votes: bv16, consider: bv16, log: seq<Vote>)
  {
    forall p :: 0 <= p < 16 ==>
      Bit16(votes, p) == Is(log, p, Yes) && Bit16(consider, p) == (Is(log, p, Yes) || Is(log, p, No))
  }

  lemma WindowShift(votes: bv16, consider: bv16, log: seq<Vote>, v: Vote)
    requires Window(votes, consider, log)
    ensures Window(Shifted(votes, v == Yes), Shifted(consider, v != Unknown), log + [v])
  {
    hide Bit16, Shifted, Is;
    forall p | 0 <= p < 16
      ensures Bit16(Shifted(votes, v == Yes), p) == Is(log + [v], p, Yes)
      ensures Bit16(Shifted(consider, v != Unknown), p) == (Is(log + [v], p, Yes) || Is(log + [v], p, No))
    {
      ShiftIn(votes, v == Yes, p);
      ShiftIn(consider, v != Unknown, p);
      OneOlder(log, v, p, Yes);
      OneOlder(log, v, p, No);
    }
  }

  lemma OneOlder(log: seq<Vote>, v: Vote, p: nat, w: Vote)
    ensures Is(log + [v], p, w) <==> if p == 0 then v == w else Is(log, p - 1, w)
  {
  }

  lemma EmptyWindow()
    ensures Window(0, 0, [])
  {
    forall p | 0 <= p < 16 ensures !Bit16(0, p) {
    }
  }

  /** Counting register bits is counting votes. */
  lemma {:induction false} WindowCounts(votes: bv16, consider: bv16, log: seq<Vote>, k: nat)
    requires Window(votes, consider, log) && k <= 16
    ensures OnesBelow(Both(votes, consider), k) == Count(log, Yes, k)
    ensures OnesBelow(NotBut(votes, consider), k) == Count(log, No, k)
  {
    hide Bit16, Both, NotBut;
    if k > 0 {
      WindowCounts(votes, consider, log, k - 1);
      NotAndAnd(votes, consider, k - 1);
    }
  }

  /** What one more vote does to the count and the weight of the votes for `v`. */
  lemma {:induction false} VoteShifts(log: seq<Vote>, vote: Vote, v: Vote, k: nat)
    requires k <= 15
    ensures Count(log + [vote], v, k + 1) == Count(log, v, k) + if vote == v then 1 else 0
    ensures Weight(log + [vote], v, k + 1) + Count(log, v, k) == Weight(log, v, k) + if vote == v then 15 else 0
  {
    if k > 0 {
      VoteShifts(log, vote, v, k - 1);
      assert Is(log + [vote], k, v) == Is(log, k - 1, v);
    } else {
      assert Count(log + [vote], v, 0) == 0 && Weight(log + [vote], v, 0) == 0;
      assert Is(log + [vote], 0, v) == (vote == v);
    }
  }

  /** A vote pays sixteen rounds in advance; each round uses up one payment for every vote it counts. */
  lemma WeightOfVote(log: seq<Vote>, vote: Vote, v: Vote)
    ensures Weight(log + [vote], v, 16) + Count(log + [vote], v, 16) == Weight(log, v, 16) + if vote == v then 16 else 0
  {
    VoteShifts(log, vote, v, 15);
    assert Weight(log, v, 16) == Weight(log, v, 15);
  }

  lemma {:induction false} CountBound(log: seq<Vote>, k: nat)
    ensures Count(log, Yes, k) + Count(log, No, k) <= k
    ensures Count(log, Yes, k) <= |log| && Count(log, No, k) <= |log|
    ensures k <= |log| ==> Count(log, Yes, k) <= k && Count(log, No, k) <= k
  {
    if k > 0 {
      CountBound(log, k - 1);
    }
  }

  // ---------- Judging a round ----------

  predicate Preferred(confidence: nat)
  {
    confidence % 2 == 1
  }

  function Score(confidence: nat): (rounds: nat)
  {
    confidence / 2
  }

  function OneOrZero(b: bool): (n: nat)
  {
    if b then 1 else 0
  }

  // ---------- Block records ----------

  datatype BlockVoteRecord = BlockVoteRecord(acceptable: bool, votes: bv16, consider: bv16, confidence: nat)
  {
    predicate IsPreferred()
    {
      Preferred(confidence)
    }

    predicate HasFinalized()
    {
      Score(confidence) >= FINALIZATION_SCORE
    }
  }

  /** The confidence after a round; the counter is a uint16. */
  function Judged(confidence: nat, yes: bool, no: bool): (r: (nat, Result))
  {
    if !yes && !no then (confidence, NoChange)
    else if Preferred(confidence) == yes then
      if Preferred(confidence) then
        var more := (confidence + 2) % 0x1_0000;
        (more, if Score(more) >= FINALIZATION_SCORE then Finalized else NoChange)
      else (confidence, NoChange)
    else (OneOrZero(yes), Flipped)
  }

  /** BlockVoteRecord.RecordVote. */
  function Recorded(rec: BlockVoteRecord, vote: Vote): (r: (BlockVoteRecord, Result))
  {
    var votes, consider := Shifted(rec.votes, vote == Yes), Shifted(rec.consider, vote != Unknown);
    var (confidence, result) := Judged(rec.confidence, OnesBelow(Both(votes, consider), 16) > 12,
                                       OnesBelow(NotBut(votes, consider), 16) > 12);
    (BlockVoteRecord(rec.acceptable, votes, consider, confidence), result)
  }

  method RecordBlockVote(rec: BlockVoteRecord, vote: Vote) returns (rec': BlockVoteRecord, result: Result)
    ensures (rec', result) == Recorded(rec, vote)
  {
    hide Shifted, Both, NotBut, OnesBelow;
    var votes, consider := Shifted(rec.votes, vote == Yes), Shifted(rec.consider, vote != Unknown);
    rec' := rec.(votes := votes, consider := consider);
    var ones := CountBits16(Both(votes, consider));
    var yes := ones > 12;
    if !yes {
      var zeros := CountBits16(NotBut(votes, consider));
      if !(zeros > 12) {
        assert OnesBelow(NotBut(votes, consider), 16) <= 12;
        return rec', NoChange;
      }
    }
    if rec'.IsPreferred() == yes {
      if rec'.IsPreferred() {
        rec' := rec'.(confidence := (rec'.confidence + 2) % 0x1_0000);
        if rec'.HasFinalized() {
          return rec', Finalized;
        }
      }
      return rec', NoChange;
    }
    rec' := rec'.(confidence := OneOrZero(yes));
    result := Flipped;
  }

  function ResetRecord(rec: BlockVoteRecord, yes: bool): (r: BlockVoteRecord)
  {
    BlockVoteRecord(rec.acceptable, 0, 0, OneOrZero(yes))
  }

  /** The votes since the last reset, and how many were recorded ever. */
  datatype Tally = Tally(log: seq<Vote>, yes: nat, total: nat)
  {
    function Add(v: Vote): (t: Tally)
    {
      Tally(log + [v], yes + OneOrZero(v == Yes), total + 1)
    }
  }

  const NO_VOTES := Tally([], 0, 0)

  /** Every counted round used thirteen votes, and every vote is used in at most sixteen rounds. */
  ghost predicate BlockInv(rec: BlockVoteRecord, t: Tally)
  {
    var score := Score(rec.confidence);
    && Window(rec.votes, rec.consider, t.log)
    && (rec.confidence > 1 ==> Preferred(rec.confidence))
    && score <= FINALIZATION_SCORE
    && |t.log| <= t.total
    && 13 * score + Weight(t.log, Yes, 16) <= 16 * t.yes
    && (score > 0 ==> score + 12 <= t.total)
  }

  lemma FreshRecord(acceptable: bool, preferred: bool)
    ensures BlockInv(BlockVoteRecord(acceptable, 0, 0, OneOrZero(preferred)), NO_VOTES)
  {
    EmptyWindow();
    EmptyWeight(16);
  }

  lemma {:induction false} EmptyWeight(k: nat)
    requires k <= 16
    ensures Weight([], Yes, k) == 0 == Weight([], No, k)
  {
    if k > 0 {
      EmptyWeight(k - 1);
    }
  }

  /** The numbers of one round: `w` and `w'` weigh the yes votes before and after it, `ones` counts them. */
  lemma RoundArithmetic(confidence: nat, ones: nat, no: bool, w: nat, w': nat, yesVotes: nat, isYes: bool, total: nat)
    requires confidence > 1 ==> Preferred(confidence)
    requires Score(confidence) < FINALIZATION_SCORE && 13 * Score(confidence) + w <= 16 * yesVotes
    requires Score(confidence) > 0 ==> Score(confidence) + 12 <= total
    requires w' + ones == w + 16 * OneOrZero(isYes) && ones <= total + 1
    ensures var (c, result) := Judged(confidence, ones > 12, no);
      && (c > 1 ==> Preferred(c))
      && Score(c) <= Score(confidence) + 1
      && (Score(c) >= FINALIZATION_SCORE <==> result == Finalized)
      && 13 * Score(c) + w' <= 16 * (yesVotes + OneOrZero(isYes))
      && (Score(c) > 0 ==> Score(c) + 12 <= total + 1)
  {
  }

  lemma RecordKeepsInv(rec: BlockVoteRecord, t: Tally, vote: Vote)
    requires BlockInv(rec, t) && !rec.HasFinalized()
    ensures BlockInv(Recorded(rec, vote).0, t.Add(vote))
    ensures Recorded(rec, vote).0.HasFinalized() <==> Recorded(rec, vote).1 == Finalized
    ensures Score(Recorded(rec, vote).0.confidence) <= Score(rec.confidence) + 1
  {
    hide Window, OnesBelow, Shifted, Both, NotBut, Weight, Count, Judged;
    var votes, consider := Shifted(rec.votes, vote == Yes), Shifted(rec.consider, vote != Unknown);
    var log := t.log + [vote];
    WindowShift(rec.votes, rec.consider, t.log, vote);
    WindowCounts(votes, consider, log, 16);
    WeightOfVote(t.log, vote, Yes);
    CountBound(log, 16);
    RoundArithmetic(rec.confidence, Count(log, Yes, 16), Count(log, No, 16) > 12,
                    Weight(t.log, Yes, 16), Weight(log, Yes, 16), t.yes, vote == Yes, t.total);
  }

  /**
   What a round decides, by the last sixteen votes alone.  More than twelve
   against leave the block unpreferred and without a score, more than twelve for
   it prefer it or add one to its score, and nothing else changes anything.
   */
  lemma RoundMeans(rec: BlockVoteRecord, t: Tally, vote: Vote)
    requires BlockInv(rec, t) && !rec.HasFinalized()
    ensures var (log, rec', result) := (t.log + [vote], Recorded(rec, vote).0, Recorded(rec, vote).1);
      && rec'.acceptable == rec.acceptable && Window(rec'.votes, rec'.consider, log)
      && (Count(log, No, 16) > 12 ==> !Preferred(rec'.confidence) && Score(rec'.confidence) == 0)
      && (Count(log, Yes, 16) > 12 ==>
            && Preferred(rec'.confidence)
            && Score(rec'.confidence) == if Preferred(rec.confidence) then Score(rec.confidence) + 1 else 0)
      && (Count(log, No, 16) <= 12 && Count(log, Yes, 16) <= 12 ==> rec'.confidence == rec.confidence)
      && (result == Flipped <==> Preferred(rec'.confidence) != Preferred(rec.confidence))
      && (result == Finalized <==> Score(rec'.confidence) >= 160)
  {
    hide Window, OnesBelow, Shifted, Both, NotBut, Weight, Count, Judged;
    var votes, consider := Shifted(rec.votes, vote == Yes), Shifted(rec.consider, vote != Unknown);
    var log := t.log + [vote];
    WindowShift(rec.votes, rec.consider, t.log, vote);
    WindowCounts(votes, consider, log, 16);
    NeverBoth(log);
    JudgedMeans(rec.confidence, Count(log, Yes, 16) > 12, Count(log, No, 16) > 12);
  }

  lemma JudgedMeans(confidence: nat, yes: bool, no: bool)
    requires (confidence > 1 ==> Preferred(confidence)) && Score(confidence) < FINALIZATION_SCORE && !(yes && no)
    ensures var (c, result) := Judged(confidence, yes, no);
      && (no ==> !Preferred(c) && Score(c) == 0)
      && (yes ==> Preferred(c) && Score(c) == if Preferred(confidence) then Score(confidence) + 1 else 0)
      && (!yes && !no ==> c == confidence)
      && (result == Flipped <==> Preferred(c) != Preferred(confidence))
      && (result == Finalized <==> Score(c) >= 160)
  {
  }

  lemma ResetKeepsInv(rec: BlockVoteRecord, t: Tally, yes: bool)
    requires BlockInv(rec, t)
    ensures BlockInv(ResetRecord(rec, yes), t.(log := []))
  {
    EmptyWindow();
    EmptyWeight(16);
  }

  /** The bound that the score stands for. */
  lemma FinalizedBound(rec: BlockVoteRecord, t: Tally)
    requires BlockInv(rec, t) && rec.HasFinalized()
    ensures t.yes >= 130 && t.total >= 172
  {
  }

  // ---------- Histories of a block record ----------

  datatype Event = Cast(vote: Vote) | ResetTo(yes: bool)

  function After(rec: BlockVoteRecord, events: seq<Event>): (r: BlockVoteRecord)
  {
    if events == [] then rec
    else
      var before := After(rec, events[..|events| - 1]);
      match events[|events| - 1]
      case Cast(v) => Recorded(before, v).0
      case ResetTo(yes) => ResetRecord(before, yes)
  }

  function Votes(events: seq<Event>): (n: nat)
  {
    if events == [] then 0
    else Votes(events[..|events| - 1]) + if events[|events| - 1].Cast? then 1 else 0
  }

  function YesVotes(events: seq<Event>): (n: nat)
  {
    if events == [] then 0
    else YesVotes(events[..|events| - 1]) + if events[|events| - 1] == Cast(Yes) then 1 else 0
  }

  /** Voting on a record stops once it has finalized. */
  ghost predicate StopsWhenFinal(rec: BlockVoteRecord, events: seq<Event>)
  {
    forall k :: 0 <= k < |events| ==> !After(rec, events[..k]).HasFinalized()
  }

  lemma {:induction false} HistoryInv(acceptable: bool, preferred: bool, events: seq<Event>) returns (t: Tally)
    requires StopsWhenFinal(BlockVoteRecord(acceptable, 0, 0, OneOrZero(preferred)), events)
    ensures BlockInv(After(BlockVoteRecord(acceptable, 0, 0, OneOrZero(preferred)), events), t)
    ensures t.yes == YesVotes(events) && t.total == Votes(events)
    decreases |events|
  {
    var rec := BlockVoteRecord(acceptable, 0, 0, OneOrZero(preferred));
    if events == [] {
      FreshRecord(acceptable, preferred);
      t := NO_VOTES;
    } else {
      var init := events[..|events| - 1];
      forall k | 0 <= k < |init| ensures !After(rec, init[..k]).HasFinalized() {
        assert init[..k] == events[..k];
      }
      var u := HistoryInv(acceptable, preferred, init);
      hide BlockInv, Recorded;
      match events[|events| - 1] {
        case Cast(v) =>
          RecordKeepsInv(After(rec, init), u, v);
          t := u.Add(v);
        case ResetTo(yes) =>
          ResetKeepsInv(After(rec, init), u, yes);
          t := u.(log := []);
      }
    }
  }

  /**
   Over every history of votes, flips, resets and unknown votes, a block that
   finalizes has had at least 130 yes votes and at least 172 votes in all.
   */
  lemma FinalizationNeedsVotes(acceptable: bool, preferred: bool, events: seq<Event>)
    requires var rec := BlockVoteRecord(acceptable, 0, 0, OneOrZero(preferred));
      StopsWhenFinal(rec, events) && After(rec, events).HasFinalized()
    ensures YesVotes(events) >= 130 && Votes(events) >= 172
  {
    var t := HistoryInv(acceptable, preferred, events);
    FinalizedBound(After(BlockVoteRecord(acceptable, 0, 0, OneOrZero(preferred)), events), t);
  }

  // ---------- The bound is reached ----------

  function Repeat<T>(x: T, n: nat): (s: seq<T>)
    ensures |s| == n && forall k :: 0 <= k < n ==> s[k] == x
  {
    seq(n, _ => x)
  }

  lemma {:induction false} CountOfRepeat(v: Vote, w: Vote, n: nat, k: nat)
    ensures Count(Repeat(v, n), w, k) == if v != w then 0 else if k <= n then k else n
  {
    if k > 0 {
      CountOfRepeat(v, w, n, k - 1);
    }
  }

  /** How many of the first `n` rounds are counted, if all votes are the same. */
  function Counted(n: nat): (rounds: nat)
  {
    if n <= 12 then 0 else n - 12
  }

  /** The record of a preferred block after `n` yes votes and nothing else. */
  ghost predicate YesRecord(rec: BlockVoteRecord, n: nat)
  {
    Window(rec.votes, rec.consider, Repeat(Yes, n)) && rec.confidence == 2 * Counted(n) + 1
  }

  /** The 172nd yes vote in a row finalizes a block, and no earlier one does. */
  lemma YesRound(rec: BlockVoteRecord, n: nat)
    requires YesRecord(rec, n) && n < 172
    ensures YesRecord(Recorded(rec, Yes).0, n + 1) && Recorded(rec, Yes).0.IsPreferred()
    ensures Recorded(rec, Yes).0.HasFinalized() <==> n == 171
  {
    hide Window, OnesBelow, Shifted, Both, NotBut, Count;
    var votes, consider := Shifted(rec.votes, true), Shifted(rec.consider, true);
    WindowShift(rec.votes, rec.consider, Repeat(Yes, n), Yes);
    assert Repeat(Yes, n) + [Yes] == Repeat(Yes, n + 1);
    WindowCounts(votes, consider, Repeat(Yes, n + 1), 16);
    CountOfRepeat(Yes, Yes, n + 1, 16);
    CountOfRepeat(Yes, No, n + 1, 16);
  }

  // ---------- Bit records ----------

  /** Works on the bits of the block ID one after another; `activeBit` is a uint8. */
  datatype BitVoteRecord = BitVoteRecord(activeBit: nat, finalizedBits: ID,
                                           votes: bv16, consider: bv16, confidence: nat)
  {
    predicate IsOnePreferred()
    {
      Preferred(confidence)
    }

    /** What a vote for a block says about the active bit. */
    function BitOf(voteID: ID): (v: Vote)
      requires activeBit < 256
    {
      if voteID == ZERO_ID then Unknown else if GetBit(voteID, activeBit) then Yes else No
    }
  }

  const NEW_BIT_RECORD := BitVoteRecord(0, ZERO_ID, 0, 0, 0)

  /** BitVoteRecord.RecordVote. */
  function BitRecorded(rec: BitVoteRecord, voteID: ID): (r: (BitVoteRecord, Result))
    requires rec.activeBit < 256
  {
    var v := rec.BitOf(voteID);
    var next := rec.(votes := Shifted(rec.votes, v == Yes), consider := Shifted(rec.consider, v != Unknown));
    BitJudged(next, OnesBelow(Both(next.votes, next.consider), 16) > 12,
              OnesBelow(NotBut(next.votes, next.consider), 16) > 12)
  }

  function BitJudged(rec: BitVoteRecord, one: bool, zero: bool): (r: (BitVoteRecord, Result))
    requires rec.activeBit < 256
  {
    if !one && !zero then (rec, NoChange)
    else if rec.IsOnePreferred() == one then
      var more := rec.(confidence := (rec.confidence + 2) % 0x1_0000);
      if Score(more.confidence) >= FINALIZATION_SCORE then
        (BitVoteRecord((rec.activeBit + 1) % 256,
                       SetBit(rec.finalizedBits, rec.activeBit, rec.IsOnePreferred()), 0, 0, 0), Finalized)
      else (more, NoChange)
    else (rec.(confidence := OneOrZero(one)), Flipped)
  }

  method RecordBitVote(rec: BitVoteRecord, voteID: ID) returns (rec': BitVoteRecord, result: Result)
    requires rec.activeBit < 256
    ensures (rec', result) == BitRecorded(rec, voteID)
  {
    hide Shifted, Both, NotBut, OnesBelow, BitVoteRecord.BitOf, BitJudged;
    var v := rec.BitOf(voteID);
    var votes, consider := Shifted(rec.votes, v == Yes), Shifted(rec.consider, v != Unknown);
    var ones := CountBits16(Both(votes, consider));
    var one, zero := ones > 12, true;
    if !one {
      var zeros := CountBits16(NotBut(votes, consider));
      zero := zeros > 12;
    }
    ZeroOnlyIfNotOne(rec.(votes := votes, consider := consider), one, zero,
                     OnesBelow(NotBut(votes, consider), 16) > 12);
    rec', result := JudgeBit(rec.(votes := votes, consider := consider), one, zero);
  }

  lemma ZeroOnlyIfNotOne(rec: BitVoteRecord, one: bool, zero: bool, zero': bool)
    requires rec.activeBit < 256 && (!one ==> zero == zero')
    ensures BitJudged(rec, one, zero) == BitJudged(rec, one, zero')
  {
  }

  /** The rest of RecordVote; the source looks at zero only when one is not conclusive. */
  method JudgeBit(rec: BitVoteRecord, one: bool, zero: bool) returns (rec': BitVoteRecord, result: Result)
    requires rec.activeBit < 256
    ensures (rec', result) == BitJudged(rec, one, zero)
  {
    hide SetBit;
    rec' := rec;
    if !one && !zero {
      return rec', NoChange;
    }
    if rec'.IsOnePreferred() == one {
      rec' := rec'.(confidence := (rec'.confidence + 2) % 0x1_0000);
      if Score(rec'.confidence) >= FINALIZATION_SCORE {
        rec' := rec'.(finalizedBits := SetBit(rec'.finalizedBits, rec'.activeBit, rec.IsOnePreferred()));
        rec' := rec'.(activeBit := (rec'.activeBit + 1) % 256, votes := 0, confidence := 0, consider := 0);
        return rec', Finalized;
      }
      return rec', NoChange;
    }
    rec' := rec'.(confidence := OneOrZero(one));
    result := Flipped;
  }

  function SetActiveBit(rec: BitVoteRecord, yes: bool): (r: BitVoteRecord)
  {
    rec.(confidence := OneOrZero(yes))
  }

  /** CompareBits: the ID agrees with every bit finalized so far. */
  method CompareWithFinalized(rec: BitVoteRecord, id: ID) returns (same: bool)
    requires rec.activeBit < 256
    ensures same == SameBits(rec.finalizedBits, id, rec.activeBit)
  {
    if rec.activeBit == 0 {
      return true;
    }
    same := CompareBits(rec.finalizedBits, id, rec.activeBit - 1);
  }

  /** The votes on the active bit since it became active. */
  datatype BitTally = BitTally(log: seq<Vote>, ones: nat, zeros: nat)
  {
    function For(value: bool): (n: nat)
    {
      if value then ones else zeros
    }

    function Add(v: Vote): (t: BitTally)
    {
      BitTally(log + [v], ones + OneOrZero(v == Yes), zeros + OneOrZero(v == No))
    }
  }

  const NO_BIT_VOTES := BitTally([], 0, 0)

  function VoteFor(value: bool): (v: Vote)
  {
    if value then Yes else No
  }

  /** As for blocks, for either value; only rounds for the preferred value are in the score. */
  ghost predicate BitInv(rec: BitVoteRecord, t: BitTally)
  {
    var pref := rec.IsOnePreferred();
    && rec.activeBit < 256
    && Window(rec.votes, rec.consider, t.log)
    && Score(rec.confidence) < FINALIZATION_SCORE
    && 13 * Score(rec.confidence) + Weight(t.log, VoteFor(pref), 16) <= 16 * t.For(pref)
    && Weight(t.log, VoteFor(!pref), 16) <= 16 * t.For(!pref)
  }

  lemma FreshBitRecord(rec: BitVoteRecord)
    requires rec.activeBit < 256 && rec.votes == 0 && rec.consider == 0 && rec.confidence == 0
    ensures BitInv(rec, NO_BIT_VOTES)
  {
    EmptyWindow();
    EmptyWeight(16);
  }

  lemma SetActiveKeepsInv(rec: BitVoteRecord, t: BitTally, yes: bool)
    requires BitInv(rec, t)
    ensures BitInv(SetActiveBit(rec, yes), t)
  {
  }

  /** One and zero are never both conclusive. */
  lemma NeverBoth(log: seq<Vote>)
    ensures !(Count(log, Yes, 16) > 12 && Count(log, No, 16) > 12)
  {
    CountBound(log, 16);
  }

  predicate SameElsewhere(a: ID, b: ID, pos: nat)
  {
    forall k :: 0 <= k < 256 && k != pos ==> GetBit(a, k) == GetBit(b, k)
  }

  lemma SetBitElsewhere(id: ID, pos: nat, value: bool)
    requires pos < 256
    ensures SameElsewhere(SetBit(id, pos, value), id, pos) && GetBit(SetBit(id, pos, value), pos) == value
  {
    hide GetBit, SetBit;
    forall k | 0 <= k < 256
      ensures GetBit(SetBit(id, pos, value), k) == if k == pos then value else GetBit(id, k)
    {
      SetBitSets(id, pos, value, k);
    }
  }

  /** A round that counts for neither value changes no score. */
  lemma BitRoundOpen(rec: BitVoteRecord, t: BitTally, next: BitVoteRecord, v: Vote)
    requires BitInv(rec, t) && next == rec.(votes := next.votes, consider := next.consider)
    requires Window(next.votes, next.consider, t.log + [v])
    ensures BitInv(next, t.Add(v))
  {
    hide Window, Weight, Count;
    WeightOfVote(t.log, v, Yes);
    WeightOfVote(t.log, v, No);
  }

  /** A round that counts for the preferred value raises its score and, at the last one, fixes it. */
  lemma BitRoundMore(rec: BitVoteRecord, t: BitTally, next: BitVoteRecord, v: Vote)
    requires BitInv(rec, t) && next == rec.(votes := next.votes, consider := next.consider)
    requires Window(next.votes, next.consider, t.log + [v])
    requires Count(t.log + [v], VoteFor(rec.IsOnePreferred()), 16) > 12
    ensures var more := next.(confidence := (next.confidence + 2) % 0x1_0000);
      && more.IsOnePreferred() == rec.IsOnePreferred()
      && (Score(more.confidence) < FINALIZATION_SCORE ==> BitInv(more, t.Add(v)))
      && (Score(more.confidence) >= FINALIZATION_SCORE ==> t.Add(v).For(rec.IsOnePreferred()) >= 130)
  {
    MoreConfidence(rec.confidence);
    hide Window, Weight, Count, Preferred, Score;
    WeightOfVote(t.log, v, Yes);
    WeightOfVote(t.log, v, No);
  }

  lemma MoreConfidence(confidence: nat)
    requires Score(confidence) < FINALIZATION_SCORE
    ensures var more := (confidence + 2) % 0x1_0000;
      Score(more) == Score(confidence) + 1 && Preferred(more) == Preferred(confidence)
  {
  }

  /** A round that counts for the other value turns the preference round, with no score. */
  lemma BitRoundFlip(rec: BitVoteRecord, t: BitTally, next: BitVoteRecord, v: Vote)
    requires BitInv(rec, t) && next == rec.(votes := next.votes, consider := next.consider)
    requires Window(next.votes, next.consider, t.log + [v])
    ensures BitInv(next.(confidence := OneOrZero(!rec.IsOnePreferred())), t.Add(v))
  {
    hide Window, Weight, Count;
    WeightOfVote(t.log, v, Yes);
    WeightOfVote(t.log, v, No);
  }

  /** One round for the active bit, as numbers; `one` and `zero` are not both conclusive. */
  lemma BitRound(rec: BitVoteRecord, t: BitTally, next: BitVoteRecord, v: Vote)
    requires BitInv(rec, t) && next == rec.(votes := next.votes, consider := next.consider)
    requires Window(next.votes, next.consider, t.log + [v])
    ensures var log := t.log + [v];
      var (rec', result) := BitJudged(next, Count(log, Yes, 16) > 12, Count(log, No, 16) > 12);
      && (result != Finalized ==>
            BitInv(rec', t.Add(v)) && rec'.activeBit == rec.activeBit && rec'.finalizedBits == rec.finalizedBits)
      && (result == Finalized ==>
            && rec' == BitVoteRecord((rec.activeBit + 1) % 256,
                                     SetBit(rec.finalizedBits, rec.activeBit, rec.IsOnePreferred()), 0, 0, 0)
            && t.Add(v).For(rec.IsOnePreferred()) >= 130)
  {
    hide Window, Weight, Count, SetBit, BitInv, Score;
    var log := t.log + [v];
    var one, zero := Count(log, Yes, 16) > 12, Count(log, No, 16) > 12;
    BitInRange(rec, t);
    NeverBoth(log);
    if !one && !zero {
      BitRoundOpen(rec, t, next, v);
    } else if rec.IsOnePreferred() == one {
      BitRoundMore(rec, t, next, v);
    } else {
      BitRoundFlip(rec, t, next, v);
    }
  }

  lemma BitInRange(rec: BitVoteRecord, t: BitTally)
    requires BitInv(rec, t)
    ensures rec.activeBit < 256
  {
  }

  /**
   A vote keeps the invariant.  If it finalizes the active bit, then the value
   it fixed got at least 130 votes while the bit was active; no bit fixed
   earlier changes, and no bit but the active one does.
   */
  lemma BitVoteKeepsInv(rec: BitVoteRecord, t: BitTally, voteID: ID)
    requires BitInv(rec, t)
    ensures var (rec', result) := BitRecorded(rec, voteID);
      && (result != Finalized ==>
            && BitInv(rec', t.Add(rec.BitOf(voteID)))
            && rec'.activeBit == rec.activeBit && rec'.finalizedBits == rec.finalizedBits)
      && (result == Finalized ==>
            && BitInv(rec', NO_BIT_VOTES)
            && rec'.activeBit == (rec.activeBit + 1) % 256
            && t.Add(rec.BitOf(voteID)).For(GetBit(rec'.finalizedBits, rec.activeBit)) >= 130
            && SameElsewhere(rec'.finalizedBits, rec.finalizedBits, rec.activeBit))
  {
    hide Window, OnesBelow, Shifted, Both, NotBut, Weight, Count, GetBit, SetBit, SameElsewhere;
    hide BitVoteRecord.BitOf, BitJudged;
    var v := rec.BitOf(voteID);
    var votes, consider := Shifted(rec.votes, v == Yes), Shifted(rec.consider, v != Unknown);
    WindowShift(rec.votes, rec.consider, t.log, v);
    WindowCounts(votes, consider, t.log + [v], 16);
    BitRound(rec, t, rec.(votes := votes, consider := consider), v);
    SetBitElsewhere(rec.finalizedBits, rec.activeBit, rec.IsOnePreferred());
    FreshBitRecord(BitVoteRecord((rec.activeBit + 1) % 256,
                                 SetBit(rec.finalizedBits, rec.activeBit, rec.IsOnePreferred()), 0, 0, 0));
  }

  /**
   What a round decides about the active bit, by the last sixteen votes alone;
   a vote for a block is a vote for the bit in its ID, and the zero ID is none.
   More than twelve for a value make it the preferred one or add one to its
   score, and fix it at the 160th; nothing else changes anything.
   */
  lemma BitRoundMeans(rec: BitVoteRecord, t: BitTally, voteID: ID, value: bool)
    requires BitInv(rec, t)
    ensures rec.activeBit < 256
    ensures
      var v := if voteID == ZERO_ID then Unknown else if GetBit(voteID, rec.activeBit) then Yes else No;
      var (log, rec', result) := (t.log + [v], BitRecorded(rec, voteID).0, BitRecorded(rec, voteID).1);
      && (result != Finalized ==>
            && rec'.activeBit == rec.activeBit && rec'.finalizedBits == rec.finalizedBits
            && Window(rec'.votes, rec'.consider, log))
      && (Count(log, No, 16) <= 12 && Count(log, Yes, 16) <= 12 ==>
            result == NoChange && rec'.confidence == rec.confidence)
      && (Count(log, if value then Yes else No, 16) > 12 ==>
            if Preferred(rec.confidence) != value then
              result == Flipped && Preferred(rec'.confidence) == value && Score(rec'.confidence) == 0
            else if Score(rec.confidence) < 159 then
              && result == NoChange
              && Preferred(rec'.confidence) == value && Score(rec'.confidence) == Score(rec.confidence) + 1
            else
              && result == Finalized
              && GetBit(rec'.finalizedBits, rec.activeBit) == value
              && SameElsewhere(rec'.finalizedBits, rec.finalizedBits, rec.activeBit)
              && rec'.activeBit == (rec.activeBit + 1) % 256
              && rec'.votes == 0 == rec'.consider && rec'.confidence == 0)
  {
    hide Window, OnesBelow, Shifted, Both, NotBut, Weight, Count, GetBit, SetBit, SameElsewhere, BitJudged;
    var v := rec.BitOf(voteID);
    var votes, consider := Shifted(rec.votes, v == Yes), Shifted(rec.consider, v != Unknown);
    var log := t.log + [v];
    WindowShift(rec.votes, rec.consider, t.log, v);
    WindowCounts(votes, consider, log, 16);
    NeverBoth(log);
    SetBitElsewhere(rec.finalizedBits, rec.activeBit, value);
    BitJudgedMeans(rec.(votes := votes, consider := consider), Count(log, Yes, 16) > 12,
                   Count(log, No, 16) > 12, value);
  }

  lemma BitJudgedMeans(rec: BitVoteRecord, one: bool, zero: bool, value: bool)
    requires rec.activeBit < 256 && Score(rec.confidence) < FINALIZATION_SCORE && !(one && zero)
    ensures var (rec', result) := BitJudged(rec, one, zero);
      && (result != Finalized ==> rec' == rec.(confidence := rec'.confidence))
      && (!one && !zero ==> result == NoChange && rec' == rec)
      && ((if value then one else zero) ==>
            if Preferred(rec.confidence) != value then
              result == Flipped && Preferred(rec'.confidence) == value && Score(rec'.confidence) == 0
            else if Score(rec.confidence) < 159 then
              && result == NoChange
              && Preferred(rec'.confidence) == value && Score(rec'.confidence) == Score(rec.confidence) + 1
            else
              && result == Finalized
              && rec' == BitVoteRecord((rec.activeBit + 1) % 256,
                                       SetBit(rec.finalizedBits, rec.activeBit, value), 0, 0, 0))
  {
    hide SetBit;
  }

  // ---------- Runs of votes on the bits ----------

  /** A vote, or SetActiveBit, which the choice of a block interleaves with votes. */
  datatype BitEvent = VoteOnBit(id: ID) | SetBitTo(yes: bool)

  /** The record after these events, and how many bits they have finalized. */
  function BitRun(events: seq<BitEvent>): (r: (BitVoteRecord, nat))
    ensures r.0.activeBit < 256
  {
    if events == [] then (NEW_BIT_RECORD, 0) else BitStep(BitRun(events[..|events| - 1]), events[|events| - 1])
  }

  function BitStep(before: (BitVoteRecord, nat), event: BitEvent): (r: (BitVoteRecord, nat))
    requires before.0.activeBit < 256
    ensures r.0.activeBit < 256
  {
    match event
    case VoteOnBit(voteID) =>
      var (rec, result) := BitRecorded(before.0, voteID);
      BitPosition(before.0, voteID);
      (rec, before.1 + OneOrZero(result == Finalized))
    case SetBitTo(yes) => (SetActiveBit(before.0, yes), before.1)
  }

  function Wrapped(n: nat): (r: nat)
  {
    n % 256
  }

  lemma {:induction false} BitRunPosition(events: seq<BitEvent>)
    ensures BitRun(events).0.activeBit == Wrapped(BitRun(events).1)
  {
    hide BitStep, Wrapped;
    if events == [] {
      WrapsAt(0);
    } else {
      BitRunPosition(events[..|events| - 1]);
      BitStepPosition(BitRun(events[..|events| - 1]), events[|events| - 1]);
    }
  }

  lemma BitStepPosition(before: (BitVoteRecord, nat), event: BitEvent)
    requires before.0.activeBit == Wrapped(before.1) < 256
    ensures BitStep(before, event).0.activeBit == Wrapped(BitStep(before, event).1)
  {
    if event.VoteOnBit? {
      BitPosition(before.0, event.id);
    }
    NextPosition(before.1);
    hide BitRecorded, Wrapped;
  }

  lemma WrapsAt(n: nat)
    ensures n < 256 ==> Wrapped(n) == n
    ensures Wrapped(n) < 256
  {
  }

  lemma NextPosition(fixed: nat)
    ensures Wrapped(fixed + 1) == (Wrapped(fixed) + 1) % 256
  {
  }

  lemma BitPosition(rec: BitVoteRecord, voteID: ID)
    requires rec.activeBit < 256
    ensures var (rec', result) := BitRecorded(rec, voteID);
      rec'.activeBit == if result == Finalized then (rec.activeBit + 1) % 256 else rec.activeBit
  {
    hide OnesBelow, Shifted, Both, NotBut, GetBit, SetBit;
  }

  lemma {:induction false} BitRunInv(events: seq<BitEvent>) returns (t: BitTally)
    ensures BitInv(BitRun(events).0, t)
  {
    if events == [] {
      FreshBitRecord(NEW_BIT_RECORD);
      t := NO_BIT_VOTES;
    } else {
      hide BitInv, BitRecorded, SetActiveBit;
      var rec := BitRun(events[..|events| - 1]).0;
      t := BitRunInv(events[..|events| - 1]);
      match events[|events| - 1] {
        case VoteOnBit(voteID) =>
          BitVoteKeepsInv(rec, t, voteID);
          t := if BitRecorded(rec, voteID).1 == Finalized then NO_BIT_VOTES else t.Add(rec.BitOf(voteID));
        case SetBitTo(yes) =>
          SetActiveKeepsInv(rec, t, yes);
      }
    }
  }

  /**
   CompareBits agrees with all bits finalized so far if, and only if, fewer than
   256 have been: the last one sets the position back to zero.
   */
  lemma ComparesAllFixed(events: seq<BitEvent>)
    ensures var (rec, fixed) := BitRun(events);
      var all := if fixed < 256 then fixed else 256;
      fixed < 256 <==>
        forall id :: SameBits(rec.finalizedBits, id, rec.activeBit) <==> SameBits(rec.finalizedBits, id, all)
  {
    var (rec, fixed) := BitRun(events);
    BitRunPosition(events);
    WrapsAt(fixed);
    hide BitRun, GetBit, Wrapped;
    if fixed >= 256 {
      var pos, bits := rec.activeBit, rec.finalizedBits;
      var other := SetBit(bits, pos, !GetBit(bits, pos));
      forall k | 0 <= k < 256 ensures GetBit(other, k) == if k == pos then !GetBit(bits, pos) else GetBit(bits, k) {
        SetBitSets(bits, pos, !GetBit(bits, pos), k);
      }
      assert SameBits(bits, other, pos) && !SameBits(bits, other, 256);
    }
  }

  lemma AllOnesIsYes(rec: BitVoteRecord)
    requires rec.activeBit < 256
    ensures rec.BitOf(ALL_ONES) == Yes
  {
    assert ALL_ONES[0] != ZERO_ID[0];
    assert ALL_ONES[rec.activeBit / 8] == 0xff;
    AllBitsOfByte(rec.activeBit % 8);
  }

  lemma AllBitsOfByte(b: nat)
    requires b < 8
    ensures ByteBit(0xff, b)
  {
  }

  /** The record of a bit preferred to be zero after `n` votes for zero and nothing else. */
  ghost predicate NoRecord(rec: BitVoteRecord, n: nat)
  {
    Window(rec.votes, rec.consider, Repeat(No, n)) && rec.confidence == 2 * Counted(n)
  }

  lemma NoRound(rec: BitVoteRecord, id: ID, n: nat)
    requires NoRecord(rec, n) && rec.activeBit == 0 && n < 171 && id != ZERO_ID && !GetBit(id, 0)
    ensures var (rec', result) := BitRecorded(rec, id);
      result == NoChange && rec'.activeBit == 0 && NoRecord(rec', n + 1)
  {
    hide Window, OnesBelow, Shifted, Both, NotBut, Count, GetBit, ZERO_ID;
    var votes, consider := Shifted(rec.votes, false), Shifted(rec.consider, true);
    WindowShift(rec.votes, rec.consider, Repeat(No, n), No);
    assert Repeat(No, n) + [No] == Repeat(No, n + 1);
    WindowCounts(votes, consider, Repeat(No, n + 1), 16);
    CountOfRepeat(No, Yes, n + 1, 16);
    CountOfRepeat(No, No, n + 1, 16);
  }

  /**
   The confidence after `n` yes votes for one bit: the thirteenth turns the
   preference round, each later one counts.
   */
  function YesConfidence(n: nat): (c: nat)
  {
    if n <= 12 then 0 else 2 * (n - 13) + 1
  }

  lemma OneMoreYes(rec: BitVoteRecord, n: nat)
    requires rec.activeBit < 256 && Window(rec.votes, rec.consider, Repeat(Yes, n)) && n < 173
    requires rec.confidence == YesConfidence(n)
    ensures var (rec', result) := BitRecorded(rec, ALL_ONES);
      if n < 172 then
        && result != Finalized && rec'.activeBit == rec.activeBit
        && Window(rec'.votes, rec'.consider, Repeat(Yes, n + 1)) && rec'.confidence == YesConfidence(n + 1)
      else
        && result == Finalized && rec'.activeBit == (rec.activeBit + 1) % 256
        && rec'.votes == 0 && rec'.consider == 0 && rec'.confidence == 0
  {
    hide Window, OnesBelow, Shifted, Both, NotBut, Count, BitVoteRecord.BitOf, BitJudged, YesConfidence, ALL_ONES;
    var votes, consider := Shifted(rec.votes, true), Shifted(rec.consider, true);
    AllOnesIsYes(rec);
    WindowShift(rec.votes, rec.consider, Repeat(Yes, n), Yes);
    assert Repeat(Yes, n) + [Yes] == Repeat(Yes, n + 1);
    WindowCounts(votes, consider, Repeat(Yes, n + 1), 16);
    CountOfRepeat(Yes, Yes, n + 1, 16);
    CountOfRepeat(Yes, No, n + 1, 16);
    JudgedYes(rec.(votes := votes, consider := consider), n);
  }

  lemma JudgedYes(rec: BitVoteRecord, n: nat)
    requires rec.activeBit < 256 && n < 173 && rec.confidence == YesConfidence(n)
    ensures BitJudged(rec, n >= 12, false) ==
      if n < 172 then (rec.(confidence := YesConfidence(n + 1)), BitJudged(rec, n >= 12, false).1)
      else (BitVoteRecord((rec.activeBit + 1) % 256,
                          SetBit(rec.finalizedBits, rec.activeBit, true), 0, 0, 0), Finalized)
    ensures n < 172 ==> BitJudged(rec, n >= 12, false).1 != Finalized
  {
    hide SetBit;
  }

  /** Voting for one block finalizes a bit with every 173 votes. */
  lemma {:induction false} AllYesRun(b: nat, n: nat)
    requires n < 173
    ensures var (rec, fixed) := BitRun(Repeat(VoteOnBit(ALL_ONES), 173 * b + n));
      fixed == b && Window(rec.votes, rec.consider, Repeat(Yes, n)) && rec.confidence == YesConfidence(n)
    decreases b, n
  {
    hide Window, BitRecorded, ALL_ONES;
    if b == 0 && n == 0 {
      EmptyWindow();
      assert Repeat(Yes, 0) == [];
    } else {
      var bb, nn := if n > 0 then b else b - 1, if n > 0 then n - 1 else 172;
      AllYesRun(bb, nn);
      var votes := Repeat(VoteOnBit(ALL_ONES), 173 * b + n);
      assert votes[..|votes| - 1] == Repeat(VoteOnBit(ALL_ONES), 173 * bb + nn);
      OneMoreYes(BitRun(votes[..|votes| - 1]).0, nn);
      if n == 0 {
        EmptyWindow();
        assert Repeat(Yes, 0) == [];
      }
    }
  }

  /** So a run reaches the last bit and finalizes it. */
  lemma LastBitIsReached() returns (t: BitTally)
    ensures var (rec, fixed) := BitRun(Repeat(VoteOnBit(ALL_ONES), 173 * 255 + 172));
      fixed == 255 == rec.activeBit && BitInv(rec, t) && BitRecorded(rec, ALL_ONES).1 == Finalized
    ensures BitRun(Repeat(VoteOnBit(ALL_ONES), 173 * 256)).1 == 256
  {
    hide Window, BitRecorded, BitInv, ALL_ONES;
    var votes := Repeat(VoteOnBit(ALL_ONES), 173 * 255 + 172);
    t := BitRunInv(votes);
    AllYesRun(255, 172);
    BitRunPosition(votes);
    OneMoreYes(BitRun(votes).0, 172);
    AllYesRun(256, 0);
  }

  /** At the 256th bit the position wraps around, and from then on every ID agrees with the finalized bits. */
  lemma LastBitWraps(rec: BitVoteRecord, t: BitTally, voteID: ID, id: ID)
    requires BitInv(rec, t) && rec.activeBit == 255 && BitRecorded(rec, voteID).1 == Finalized
    ensures var rec' := BitRecorded(rec, voteID).0;
      rec'.activeBit == 0 && SameBits(rec'.finalizedBits, id, rec'.activeBit)
  {
    hide BitInv, BitRecorded, GetBit;
    BitVoteKeepsInv(rec, t, voteID);
  }
}
