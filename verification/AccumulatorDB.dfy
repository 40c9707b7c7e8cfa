/**
 Keeping the accumulator on disk (blockchain/accumulatordb.go and the
 accumulator's serialisation in blockchain/io.go) as a crash-recovery protocol.

 Each write to disk is one step.  A method that writes is given the number of
 steps it may take before the node crashes; a method that crashed returns None,
 and from then on only what is on disk exists.
 */
module AccumulatorDBs {
  import opened Prelude
  import opened Hashes
  import opened Accumulators

  // ---------- Serialisation ----------

  datatype Entry<V> = Entry(key: Hash, value: V)

  /** What is stored: maps become lists, in whatever order they are read. */
  datatype DBAccumulator = DBAccumulator(slots: seq<Option<Hash>>, nElements: nat,
                                         proofs: seq<Entry<InclusionProof>>, lookups: seq<Entry<nat>>)

  /** The map that a list of entries is read back as; a later entry replaces an earlier one. */
  function MapOf<V>(entries: seq<Entry<V>>): (m: map<Hash, V>)
  {
    if entries == [] then map[]
    else MapOf(entries[..|entries| - 1])[entries[|entries| - 1].key := entries[|entries| - 1].value]
  }

  lemma MapOfSnoc<V>(entries: seq<Entry<V>>, e: Entry<V>)
    ensures MapOf(entries + [e]) == MapOf(entries)[e.key := e.value]
  {
    assert (entries + [e])[..|entries|] == entries;
  }

  lemma OneKeyLess<V>(m: map<Hash, V>, keys: set<Hash>, key: Hash)
    requires keys <= m.Keys && key in keys
    ensures (m - keys)[key := m[key]] == m - (keys - {key})
  {
  }

  method EntriesOf<V>(m: map<Hash, V>) returns (entries: seq<Entry<V>>)
    ensures MapOf(entries) == m
  {
    entries := [];
    assert MapOf(entries) == m - m.Keys;
    hide MapOf;
    var keys := m.Keys;
    while keys != {}
      invariant keys <= m.Keys
      invariant MapOf(entries) == m - keys
      decreases keys
    {
      var key :| key in keys;
      MapOfSnoc(entries, Entry(key, m[key]));
      OneKeyLess(m, keys, key);
      keys := keys - {key};
      entries := entries + [Entry(key, m[key])];
    }
  }

  method ReadEntries<V>(entries: seq<Entry<V>>) returns (m: map<Hash, V>)
    ensures m == MapOf(entries)
  {
    m := map[];
    for i := 0 to |entries|
      invariant m == MapOf(entries[..i])
    {
      assert entries[..i + 1][..i] == entries[..i];
      m := m[entries[i].key := entries[i].value];
    }
    assert entries[..|entries|] == entries;
  }

  /** The stored accumulator is an accumulator of the elements. */
  ghost predicate Holds(db: DBAccumulator, elems: seq<Hash>)
  {
    && SlotsHold(db.slots, elems) && db.nElements == |elems| <= MAX_UINT64
    && AllTrack(elems, MapOf(db.proofs)) && LookupsTracked(MapOf(db.lookups), MapOf(db.proofs))
  }

  method SerializeAccumulator(acc: Accumulator) returns (db: DBAccumulator)
    requires acc.Valid()
    ensures Holds(db, acc.elems)
    ensures db.slots == acc.slots && MapOf(db.proofs) == acc.proofs && MapOf(db.lookups) == acc.lookupMap
  {
    var proofs := EntriesOf(acc.proofs);
    var lookups := EntriesOf(acc.lookupMap);
    db := DBAccumulator(acc.slots, acc.nElements, proofs, lookups);
  }

  method DeserializeAccumulator(db: DBAccumulator, ghost elems: seq<Hash>) returns (acc: Accumulator)
    requires Holds(db, elems)
    ensures fresh(acc) && acc.Valid() && acc.elems == elems
    ensures acc.slots == db.slots && acc.proofs == MapOf(db.proofs) && acc.lookupMap == MapOf(db.lookups)
  {
    var proofs := ReadEntries(db.proofs);
    var lookups := ReadEntries(db.lookups);
    acc := new Accumulator.FromParts(db.slots, db.nElements, proofs, lookups, elems);
  }

  // ---------- The disk ----------

  datatype Consistency = Empty | Consistent | FlushOngoing

  /** All outputs of the first `n` blocks. */
  function OutputsOf(chain: seq<seq<Hash>>, n: nat): (outs: seq<Hash>)
    requires n <= |chain|
  {
    if n == 0 then [] else OutputsOf(chain, n - 1) + chain[n - 1]
  }

  lemma {:induction false} OutputsOfLonger(chain: seq<seq<Hash>>, outs: seq<Hash>, n: nat)
    requires n <= |chain|
    ensures OutputsOf(chain + [outs], n) == OutputsOf(chain, n)
  {
    if n > 0 {
      OutputsOfLonger(chain, outs, n - 1);
    }
  }

  lemma {:induction false} OutputsOfMonotone(chain: seq<seq<Hash>>, m: nat, n: nat)
    requires m <= n <= |chain|
    ensures |OutputsOf(chain, m)| <= |OutputsOf(chain, n)|
    decreases n
  {
    if m < n {
      OutputsOfMonotone(chain, m, n - 1);
    }
  }

  class Disk {
    var status: Consistency
    var saved: Option<DBAccumulator>
    var lastFlush: Option<nat>
    var chain: seq<seq<Hash>>  // the outputs of each connected block, by height
    var pruned: nat            // blocks below this height have been deleted

    /** The last flush is not ahead of the chain, and a consistent status means what it says. */
    ghost predicate Sound()
      reads this
    {
      && (lastFlush.Some? ==> lastFlush.value < |chain|)
      && (status == Empty ==> saved == None && lastFlush == None)
      && (status == Consistent ==> saved.Some? && lastFlush.Some?
                                   && Holds(saved.value, OutputsOf(chain, lastFlush.value + 1)))
    }

    constructor ()
      ensures Sound() && status == Empty && chain == [] && pruned == 0
    {
      status, saved, lastFlush, chain, pruned := Empty, None, None, [], 0;
    }

    /** All outputs of the chain. */
    function AllOutputs(): (outs: seq<Hash>)
      reads this`chain
    {
      OutputsOf(chain, |chain|)
    }

    /** The datastore commit of ConnectBlock, which comes before the accumulator's own commit. */
    method CommitBlock(outs: seq<Hash>)
      requires Sound()
      modifies this`chain
      ensures Sound() && chain == old(chain) + [outs] && AllOutputs() == old(AllOutputs()) + outs
    {
      OutputsOfLonger(chain, outs, |chain|);
      hide Holds;
      if lastFlush.Some? {
        OutputsOfLonger(chain, outs, lastFlush.value + 1);
      }
      chain := chain + [outs];
    }

    /** The last flush is complete but behind the tip, and every block after it is there. */
    predicate NeedsBlocks()
      reads this
    {
      status == Consistent && lastFlush.Some? && lastFlush.value + 1 != |chain| && pruned <= lastFlush.value + 1
    }

    /**
     Init comes up: it has nothing to load, it is at the tip, or it has all the
     blocks after the last flush and the steps for another flush.
     */
    predicate CanStart(steps: nat)
      reads this
    {
      match status
      case Empty => true
      case FlushOngoing => false
      case Consistent => lastFlush.Some? && (lastFlush.value + 1 == |chain| || (NeedsBlocks() && steps >= FLUSH_STEPS))
    }

    /** Deletes the blocks below a height. */
    method Prune(below: nat)
      requires Sound() && below <= |chain|
      modifies this`pruned
      ensures Sound() && pruned == if below > old(pruned) then below else old(pruned)
    {
      hide Holds, OutputsOf;
      if below > pruned {
        pruned := below;
      }
    }
  }

  datatype FlushMode = FlushRequired | FlushPeriodic | FlushNop

  const FLUSH_STEPS := 3

  predicate Flushes(mode: FlushMode, due: bool)
  {
    mode == FlushRequired || (mode == FlushPeriodic && due)
  }

  /** The steps that are left after a flush, if it does not crash. */
  function AfterFlush(mode: FlushMode, due: bool, steps: nat): (left: Option<nat>)
  {
    if !Flushes(mode, due) then Some(steps)
    else if steps >= FLUSH_STEPS then Some(steps - FLUSH_STEPS)
    else None
  }

  // ---------- The database ----------

  class AccumulatorDB {
    const ds: Disk
    var acc: Accumulator

    constructor (ds: Disk)
      ensures this.ds == ds && fresh(acc) && acc.Valid() && acc.elems == []
    {
      this.ds := ds;
      acc := new Accumulator();
    }

    /**
     flushToDisk: mark the flush as ongoing, write the accumulator and its
     height in one transaction, mark it as consistent.  The disk is sound after
     every one of these three writes.
     */
    method FlushToDisk(flushed: Accumulator, height: nat, steps: nat) returns (left: Option<nat>)
      requires ds.Sound() && flushed.Valid()
      requires height < |ds.chain| && flushed.elems == OutputsOf(ds.chain, height + 1)
      modifies ds`status, ds`saved, ds`lastFlush
      ensures ds.Sound()
      ensures left == if steps >= FLUSH_STEPS then Some(steps - FLUSH_STEPS) else None
      ensures ds.status == if steps == 0 then old(ds.status) else if left == None then FlushOngoing else Consistent
      ensures ds.lastFlush == if steps < 2 then old(ds.lastFlush) else Some(height)
      ensures steps < 2 ==> ds.saved == old(ds.saved)
    {
      hide Holds, SlotsHold, AllTrack, LookupsTracked, OutputsOf;
      if steps < 1 {
        return None;
      }
      ds.status := FlushOngoing;
      if steps < 2 {
        return None;
      }
      var db := SerializeAccumulator(flushed);
      ds.saved, ds.lastFlush := Some(db), Some(height);
      if steps < 3 {
        return None;
      }
      ds.status := Consistent;
      left := Some(steps - 3);
    }

    /** flush: a periodic flush happens when one is due. */
    method Flush(mode: FlushMode, due: bool, flushed: Accumulator, height: nat, steps: nat) returns (left: Option<nat>)
      requires ds.Sound() && flushed.Valid()
      requires height < |ds.chain| && flushed.elems == OutputsOf(ds.chain, height + 1)
      modifies ds`status, ds`saved, ds`lastFlush
      ensures ds.Sound()
      ensures left == AfterFlush(mode, due, steps)
      ensures ds.status == if !Flushes(mode, due) || steps == 0 then old(ds.status)
                           else if left == None then FlushOngoing else Consistent
      ensures ds.lastFlush == if Flushes(mode, due) && steps >= 2 then Some(height) else old(ds.lastFlush)
      ensures mode == FlushNop || (mode == FlushPeriodic && !due) ==> left == Some(steps) && unchanged(ds)
      ensures (mode == FlushRequired || (mode == FlushPeriodic && due)) && steps >= 3 ==>
        left == Some(steps - 3) && ds.status == Consistent && ds.lastFlush == Some(height)
    {
      hide Holds, OutputsOf;
      match mode {
        case FlushRequired =>
          left := FlushToDisk(flushed, height, steps);
        case FlushPeriodic =>
          if due {
            left := FlushToDisk(flushed, height, steps);
          } else {
            left := Some(steps);
          }
        case FlushNop =>
          left := Some(steps);
      }
    }

    /** Commit: flush first, then replace the accumulator in memory. */
    method Commit(accumulator: Accumulator, height: nat, mode: FlushMode, due: bool, steps: nat)
        returns (left: Option<nat>)
      requires ds.Sound() && accumulator.Valid()
      requires height < |ds.chain| && accumulator.elems == OutputsOf(ds.chain, height + 1)
      modifies this, ds`status, ds`saved, ds`lastFlush
      ensures ds.Sound()
      ensures left == AfterFlush(mode, due, steps)
      ensures ds.status == if !Flushes(mode, due) || steps == 0 then old(ds.status)
                           else if left == None then FlushOngoing else Consistent
      ensures ds.lastFlush == if Flushes(mode, due) && steps >= 2 then Some(height) else old(ds.lastFlush)
      ensures acc == if left.Some? then accumulator else old(acc)
      ensures mode == FlushNop || (mode == FlushPeriodic && !due) ==> left == Some(steps) && unchanged(ds)
      ensures (mode == FlushRequired || (mode == FlushPeriodic && due)) && steps >= 3 ==>
        left == Some(steps - 3) && ds.status == Consistent && ds.lastFlush == Some(height)
    {
      hide Holds, OutputsOf;
      left := Flush(mode, due, accumulator, height, steps);
      if left.Some? {
        acc := accumulator;
      }
    }

    /**
     Init, run on a fresh AccumulatorDB after a restart.  It refuses to start
     when a flush was interrupted or a block it needs was pruned.  If it starts,
     then the accumulator is the one that inserting every output of the chain
     gives, except that a disk which never began a flush yields an empty one.
     */
    method Init(steps: nat) returns (started: bool, left: Option<nat>)
      requires ds.Sound() && |ds.AllOutputs()| <= MAX_UINT64
      requires acc.Valid() && acc.elems == []
      modifies this, ds`status, ds`saved, ds`lastFlush
      ensures ds.Sound() && (acc == old(acc) || fresh(acc))
      ensures ds.status == if !old(ds.NeedsBlocks()) || steps == 0 then old(ds.status)
                           else if left == None then FlushOngoing else Consistent
      ensures ds.lastFlush == if old(ds.NeedsBlocks()) && steps >= 2 then Some(|ds.chain| - 1) else old(ds.lastFlush)
      ensures started <==> old(ds.CanStart(steps))
      ensures started ==> acc.Valid() && acc.elems == if old(ds.status) == Empty then [] else ds.AllOutputs()
      ensures left == None <==> old(ds.CanStart(FLUSH_STEPS) && !ds.CanStart(steps))
      ensures old(ds.status == Consistent && ds.pruned <= ds.lastFlush.value + 1) && steps >= 3 ==>
        started && acc.elems == ds.AllOutputs() && ds.status == Consistent && ds.lastFlush == Some(|ds.chain| - 1)
      ensures old(ds.status == Consistent && ds.lastFlush == Some(|ds.chain| - 1)) ==> started && unchanged(ds)
    {
      hide Holds;
      started, left := false, Some(steps);
      match ds.status {
        case Empty =>
          started := true;
        case FlushOngoing =>
          return;
        case Consistent =>
          var tip, last := |ds.chain| - 1, ds.lastFlush.value;
          acc := DeserializeAccumulator(ds.saved.value, OutputsOf(ds.chain, last + 1));
          if last == tip {
            started := true;
          } else if last < tip {
            var applied := RollForward(tip, last);
            if !applied {
              return;
            }
            left := Flush(FlushRequired, true, acc, tip, steps);
            started := left.Some?;
          }
      }
    }

    /** Walks back to the first block after the last flush, then inserts block by block up to the tip. */
    method RollForward(tip: nat, last: nat) returns (applied: bool)
      requires last < tip < |ds.chain| && |OutputsOf(ds.chain, |ds.chain|)| <= MAX_UINT64
      requires acc.Valid() && acc.elems == OutputsOf(ds.chain, last + 1)
      modifies acc
      ensures acc.Valid()
      ensures applied ==> acc.elems == OutputsOf(ds.chain, tip + 1)
      ensures applied <==> ds.pruned <= last + 1
    {
      hide SlotsHold, AllTrack, LookupsTracked;
      var node := tip;
      while node != last + 1
        invariant last + 1 <= node <= tip && (node < tip ==> ds.pruned <= node)
        decreases node
      {
        if node - 1 < ds.pruned {
          return false;
        }
        node := node - 1;
      }
      while true
        invariant last + 1 <= node <= tip && (node > last + 1 ==> ds.pruned <= last + 1)
        invariant acc.Valid() && acc.elems == OutputsOf(ds.chain, node)
        decreases tip - node
      {
        if node < ds.pruned {
          return false;
        }
        OutputsOfMonotone(ds.chain, node + 1, |ds.chain|);
        acc.InsertAll(ds.chain[node]);
        if node == tip {
          break;
        }
        node := node + 1;
      }
      applied := true;
    }
  }

  // ---------- Runs with crashes ----------

  /** What can happen to a node; a step budget that runs out is a crash. */
  datatype Event =
    | Block(outs: seq<Hash>, mode: FlushMode, due: bool, steps: nat)
    | Close(mode: FlushMode, due: bool, steps: nat)
    | Prune(below: nat)
    | Crash
    | Restart(steps: nat)

  class Node {
    const ds: Disk
    var db: AccumulatorDB
    var running: bool

    /** The disk is sound, and a running node has the accumulator of all outputs up to the tip. */
    ghost predicate Valid()
      reads this, ds, db, db.acc
    {
      && db.ds == ds && ds.Sound()
      && (running ==> db.acc.Valid() && db.acc.elems == ds.AllOutputs())
    }

    constructor ()
      ensures Valid() && running && ds.chain == [] && ds.status == Empty && ds.pruned == 0
      ensures fresh(ds) && fresh(db) && fresh(db.acc)
    {
      var disk := new Disk();
      ds := disk;
      db := new AccumulatorDB(disk);
      running := true;
    }

    /**
     The part of ConnectBlock that concerns the accumulator: insert the outputs
     into a copy, commit the block, which is one step, and then the copy.
     */
    method ConnectBlock(outs: seq<Hash>, mode: FlushMode, due: bool, steps: nat)
      requires Valid() && running && |ds.AllOutputs()| + |outs| <= MAX_UINT64
      modifies this`running, db, ds
      ensures Valid() && db == old(db)
      ensures ds.chain == if steps < 1 then old(ds.chain) else old(ds.chain) + [outs]
      ensures ds.AllOutputs() == if steps < 1 then old(ds.AllOutputs()) else old(ds.AllOutputs()) + outs
      ensures running <==> steps >= 1 && AfterFlush(mode, due, steps - 1).Some?
      ensures ds.pruned == old(ds.pruned)
      ensures ds.status == if !Flushes(mode, due) || steps <= 1 then old(ds.status)
                           else if running then Consistent else FlushOngoing
      ensures ds.lastFlush == if Flushes(mode, due) && steps >= 3 then Some(|old(ds.chain)|) else old(ds.lastFlush)
      ensures fresh(db.acc) || db.acc == old(db.acc)
    {
      hide SlotsHold, AllTrack, LookupsTracked, Holds, OutputsOf;
      var acc := db.acc.Clone();
      acc.InsertAll(outs);
      if steps < 1 {
        running := false;
        return;
      }
      ds.CommitBlock(outs);
      var left := db.Commit(acc, |ds.chain| - 1, mode, due, steps - 1);
      running := left.Some?;
    }

    /** Close flushes the accumulator in memory. */
    method Stop(mode: FlushMode, due: bool, steps: nat)
      requires Valid() && running && ds.chain != []
      modifies this`running, ds
      ensures Valid() && !running && ds.chain == old(ds.chain) && ds.pruned == old(ds.pruned)
      ensures ds.status == if !Flushes(mode, due) || steps == 0 then old(ds.status)
                           else if steps < FLUSH_STEPS then FlushOngoing else Consistent
      ensures ds.lastFlush == if Flushes(mode, due) && steps >= 2 then Some(|ds.chain| - 1) else old(ds.lastFlush)
    {
      hide SlotsHold, AllTrack, LookupsTracked, Holds, OutputsOf;
      var left := db.Flush(mode, due, db.acc, |ds.chain| - 1, steps);
      running := false;
    }

    /** isInitialized: the block at height 0 is there. */
    predicate Initialized()
      reads this, ds
    {
      ds.chain != [] && ds.pruned == 0
    }

    /**
     NewBlockchain on the disk as it is.  If the first block is there, then so are
     all others, and Init decides.  If it is not, then the node begins anew with an
     empty accumulator and will connect the genesis block again.  `lost` says that
     the chain on disk has outputs or blocks that the node then does not have.
     */
    method StartUp(steps: nat) returns (lost: bool)
      requires Valid() && |ds.AllOutputs()| <= MAX_UINT64
      modifies this, ds
      ensures ds.Sound() && ds.chain == old(ds.chain) && ds.pruned == old(ds.pruned)
      ensures fresh(db) && fresh(db.acc) && db.ds == ds
      ensures running <==> old(!Initialized() || ds.CanStart(steps))
      ensures lost <==> old(ds.pruned > 0 || (ds.status == Empty && ds.AllOutputs() != []))
      ensures ds.AllOutputs() != [] <==> exists k :: 0 <= k < |ds.chain| && ds.chain[k] != []
      ensures if lost then running && db.acc.Valid() && db.acc.elems == [] else Valid()
      ensures ds.status == if !old(Initialized() && ds.NeedsBlocks()) || steps == 0 then old(ds.status)
                           else if steps < FLUSH_STEPS then FlushOngoing else Consistent
      ensures ds.lastFlush == if old(Initialized() && ds.NeedsBlocks()) && steps >= 2 then Some(|ds.chain| - 1)
                              else old(ds.lastFlush)
      ensures old(ds.status) == Consistent && ds.pruned == 0 && steps >= 3 ==>
        running && db.acc.elems == ds.AllOutputs() && ds.status == Consistent && ds.lastFlush == Some(|ds.chain| - 1)
      ensures ds.chain != [] && ds.pruned == 0 && old(ds.status) == FlushOngoing ==> !running
    {
      hide SlotsHold, AllTrack, LookupsTracked, Holds, OutputsOf;
      NeverFlushed(ds.chain);
      lost := ds.pruned > 0 || (ds.status == Empty && ds.AllOutputs() != []);
      db := new AccumulatorDB(ds);
      if Initialized() {
        var left;
        running, left := db.Init(steps);
      } else {
        NothingYet(ds.chain);
        running := true;
      }
    }

    /**
     Crash recovery over runs.  Whatever blocks, flushes, prunings, crashes and
     restarts there are, a node that is running has the accumulator of exactly
     the outputs of its chain.  A run is cut short only where a restart loses the
     outputs, which takes a pruned disk or one on which no flush ever began.  A
     restart that may take three steps brings the node up unless a flush was
     interrupted, and no block is ever taken back.
     */
    method Run(events: seq<Event>) returns (done: nat, lost: bool)
      requires Valid() && |ds.AllOutputs()| + OutputsIn(events) <= MAX_UINT64
      modifies this, ds, db, db.acc
      ensures done <= |events| && (lost || done == |events|)
      ensures lost ==> done < |events| && events[done].Restart?
                       && (ds.pruned > 0 || (ds.status == Empty && ds.AllOutputs() != []))
      ensures !lost ==> Valid()
      ensures old(ds.status) != Empty && old(ds.pruned) == 0 && NeverPrunes(events) ==> !lost && ds.pruned == 0
      ensures old(ds.status) != Empty ==> ds.status != Empty
      ensures old(ds.chain) <= ds.chain
      ensures !lost && EndsInRestart(events) && ds.chain != [] && ds.pruned == 0 ==>
        (running <==> ds.status != FlushOngoing) && (running ==> db.acc.elems == ds.AllOutputs())
    {
      hide SlotsHold, AllTrack, LookupsTracked, Holds, OutputsOf;
      done, lost := 0, false;
      while done < |events|
        invariant done <= |events| && Valid() && !lost
        invariant |ds.AllOutputs()| + OutputsIn(events[done..]) <= MAX_UINT64
        invariant old(ds.status) != Empty ==> ds.status != Empty
        invariant old(ds.pruned) == 0 && NeverPrunes(events) ==> ds.pruned == 0
        invariant db == old(db) || fresh(db)
        invariant old(ds.chain) <= ds.chain
        invariant done > 0 && EndsInRestart(events[..done]) && ds.chain != [] && ds.pruned == 0 ==>
          (running <==> ds.status != FlushOngoing)
      {
        assert events[..done + 1][done] == events[done];
        assert events[done..][1..] == events[done + 1..];
        match events[done] {
          case Block(outs, mode, due, steps) =>
            if running {
              ConnectBlock(outs, mode, due, steps);
            }
          case Close(mode, due, steps) =>
            if running && ds.chain != [] {
              Stop(mode, due, steps);
            }
          case Prune(below) =>
            if below <= |ds.chain| {
              ds.Prune(below);
            }
          case Crash =>
            running := false;
          case Restart(steps) =>
            lost := StartUp(steps);
            if lost {
              return;
            }
        }
        done := done + 1;
      }
      assert events[..|events|] == events;
    }
  }

  lemma NothingYet(chain: seq<seq<Hash>>)
    ensures chain == [] ==> OutputsOf(chain, |chain|) == []
  {
  }

  /** The last event is a restart with steps enough for a flush. */
  predicate EndsInRestart(events: seq<Event>)
  {
    events != [] && events[|events| - 1].Restart? && events[|events| - 1].steps >= 3
  }

  predicate NeverPrunes(events: seq<Event>)
  {
    forall k :: 0 <= k < |events| ==> !events[k].Prune?
  }

  /** The outputs of all blocks that a script has. */
  function OutputsIn(events: seq<Event>): (n: nat)
  {
    if events == [] then 0 else (if events[0].Block? then |events[0].outs| else 0) + OutputsIn(events[1..])
  }

  /** A chain has no outputs if and only if none of its blocks has. */
  lemma NeverFlushed(chain: seq<seq<Hash>>)
    ensures OutputsOf(chain, |chain|) == [] <==> forall k :: 0 <= k < |chain| ==> chain[k] == []
  {
    NoOutputs(chain, |chain|);
  }

  /**
   Without the first flush the law fails: a node that crashes between the commit
   of its first block and the first write of a flush comes up without its outputs.
   */
  method LostGenesis(x: Hash) returns (node: Node)
    ensures node.running && node.db.acc.Valid() && node.db.acc.elems == [] && node.ds.AllOutputs() == [x]
  {
    node := new Node();
    assert node.ds.AllOutputs() == [];
    node.ConnectBlock([x], FlushPeriodic, true, 1);
    assert node.ds.AllOutputs() == [] + [x] == [x];
    var lost := node.StartUp(0);
  }

  /** A block that is flushed, one that is not, and a crash. */
  method CrashBehindFlush(x: Hash, y: Hash) returns (node: Node)
    ensures fresh(node) && fresh(node.ds) && node.Valid() && !node.running
    ensures node.ds.chain == [[x], [y]] && node.ds.pruned == 0
    ensures node.ds.status == Consistent && node.ds.lastFlush == Some(0)
  {
    hide Disk.Sound, Accumulator.Valid, OutputsOf;
    node := new Node();
    NothingYet(node.ds.chain);
    node.ConnectBlock([x], FlushPeriodic, true, 4);
    node.ConnectBlock([y], FlushPeriodic, false, 1);
    node.running := false;
  }

  lemma TwoBlocks(x: Hash, y: Hash)
    ensures OutputsOf([[x], [y]], 2) == [x, y]
  {
    assert OutputsOf([[x], [y]], 1) == [] + [x] == [x];
    assert [x] + [y] == [x, y];
  }

  /** A node that crashes behind its last flush comes up again with all outputs. */
  method BehindLastFlush(x: Hash, y: Hash) returns (node: Node)
    ensures node.running && node.db.acc.Valid() && node.db.acc.elems == [x, y] && node.ds.AllOutputs() == [x, y]
    ensures node.ds.status == Consistent && node.ds.lastFlush == Some(1)
  {
    hide Disk.Sound, Accumulator.Valid, OutputsOf;
    node := CrashBehindFlush(x, y);
    TwoBlocks(x, y);
    var lost := node.StartUp(3);
  }

  /** On a pruned disk it fails as well, although the flush was complete and at the tip. */
  method LostToPruning(x: Hash) returns (node: Node)
    ensures node.running && node.db.acc.Valid() && node.db.acc.elems == [] && node.ds.AllOutputs() == [x]
    ensures node.ds.status == Consistent && node.ds.lastFlush == Some(|node.ds.chain| - 1)
  {
    node := new Node();
    assert node.ds.AllOutputs() == [];
    node.ConnectBlock([x], FlushPeriodic, true, 1 + FLUSH_STEPS);
    assert node.ds.AllOutputs() == [] + [x] == [x];
    node.ds.Prune(1);
    var lost := node.StartUp(0);
  }

  lemma {:induction false} NoOutputs(chain: seq<seq<Hash>>, n: nat)
    requires n <= |chain|
    ensures OutputsOf(chain, n) == [] <==> forall k :: 0 <= k < n ==> chain[k] == []
  {
    if n > 0 {
      NoOutputs(chain, n - 1);
    }
  }
}
