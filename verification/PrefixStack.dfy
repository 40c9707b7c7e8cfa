/**
 The stack language that Xthinner messages are written in (mempool/xthinner.go):
 prefixes printed as pops from and pushes to a stack of bytes, and read back.
 */
module PrefixStack {
  import opened Prelude
  import opened Txids
  import opened Bitmaps

  /** What is left to be read of a message. */
  datatype Stream = Stream(pops: seq<bool>, pushes: seq<bool>, bytes: Bytes)

  datatype Message = Message(txCount: nat, pops: seq<bv8>, pushes: seq<bv8>, pushBytes: Bytes)
  {
    function Contents(): (s: Stream)
    {
      Stream(BitsOf(pops), BitsOf(pushes), pushBytes)
    }
  }

  /** Every transaction starts by dropping the top of the stack, if there is one. */
  function Trim(stack: Bytes): (r: Bytes)
  {
    if stack == [] then [] else stack[..|stack| - 1]
  }

  function Ones(n: nat): (bits: seq<bool>)
    ensures |bits| == n && forall j :: 0 <= j < n ==> bits[j]
  {
    seq(n, _ => true)
  }

  /** How many bits are set before the first that is not. */
  function Run(bits: seq<bool>): (n: nat)
    ensures n <= |bits| && (forall j :: 0 <= j < n ==> bits[j]) && (n < |bits| ==> !bits[n])
  {
    if bits == [] || !bits[0] then 0 else 1 + Run(bits[1..])
  }

  lemma RunIs(bits: seq<bool>, n: nat)
    requires n < |bits| && (forall j :: 0 <= j < n ==> bits[j]) && !bits[n]
    ensures Run(bits) == n
  {
  }

  /** Reads one prefix: None where the message ends too soon, pops an empty stack or pushes more than an ID. */
  function ReadPrefix(stack: Bytes, m: Stream): (r: Option<(Bytes, Stream)>)
    ensures r.Some? ==> 0 < |r.value.0| <= 32
  {
    var base, p, q := Trim(stack), Run(m.pops), Run(m.pushes);
    if p == |m.pops| || q == |m.pushes| || p > |base| || q + 1 > |m.bytes| || |base| - p + q + 1 > 32 then None
    else Some((base[..|base| - p] + m.bytes[..q + 1], Stream(m.pops[p + 1..], m.pushes[q + 1..], m.bytes[q + 1..])))
  }

  /** The prefixes a message stands for. */
  function Replay(count: nat, stack: Bytes, m: Stream): (r: Option<seq<Bytes>>)
    ensures r.Some? ==> |r.value| == count && forall i :: 0 <= i < count ==> 0 < |r.value[i]| <= 32
  {
    if count == 0 then Some([])
    else
      match ReadPrefix(stack, m)
      case None => None
      case Some((prefix, rest)) =>
        match Replay(count - 1, prefix, rest)
        case None => None
        case Some(more) => Some([prefix] + more)
  }

  /** What is printed for a prefix that shares `keep` bytes with the trimmed stack. */
  function Emitted(stack: Bytes, keep: nat, prefix: Bytes): (m: Stream)
    requires keep <= |Trim(stack)| && keep < |prefix|
  {
    Stream(Ones(|Trim(stack)| - keep) + [false], Ones(|prefix| - keep - 1) + [false], prefix[keep..])
  }

  function Joined(a: Stream, b: Stream): (m: Stream)
  {
    Stream(a.pops + b.pops, a.pushes + b.pushes, a.bytes + b.bytes)
  }

  const NOTHING := Stream([], [], [])

  /** What was printed is read back, whatever follows it. */
  lemma ReadEmitted(stack: Bytes, keep: nat, prefix: Bytes, rest: Stream)
    requires keep <= |Trim(stack)| && keep < |prefix| <= 32 && Trim(stack)[..keep] == prefix[..keep]
    ensures ReadPrefix(stack, Joined(Emitted(stack, keep, prefix), rest)) == Some((prefix, rest))
  {
    var m := Joined(Emitted(stack, keep, prefix), rest);
    var p, q := |Trim(stack)| - keep, |prefix| - keep - 1;
    RunIs(m.pops, p);
    RunIs(m.pushes, q);
    assert m.bytes[..q + 1] == prefix[keep..];
    assert prefix[..keep] + prefix[keep..] == prefix;
    assert m.pops[p + 1..] == rest.pops && m.pushes[q + 1..] == rest.pushes && m.bytes[q + 1..] == rest.bytes;
  }

  /** The stack after these prefixes. */
  function Top(prefixes: seq<Bytes>): (stack: Bytes)
  {
    if prefixes == [] then [] else prefixes[|prefixes| - 1]
  }

  function Then(prefixes: seq<Bytes>, more: Option<seq<Bytes>>): (r: Option<seq<Bytes>>)
  {
    match more
    case None => None
    case Some(m) => Some(prefixes + m)
  }

  ghost predicate PrintedBefore(m: Stream, prefixes: seq<Bytes>, rest: Stream, count: nat)
  {
    Replay(|prefixes| + count, [], Joined(m, rest)) == Then(prefixes, Replay(count, Top(prefixes), rest))
  }

  /** Whatever follows it, the message starts with these prefixes. */
  ghost predicate Printed(m: Stream, prefixes: seq<Bytes>)
  {
    forall rest: Stream, count: nat :: PrintedBefore(m, prefixes, rest, count)
  }

  lemma NothingPrinted()
    ensures Printed(NOTHING, [])
  {
    hide Replay;
    forall rest: Stream, count: nat ensures PrintedBefore(NOTHING, [], rest, count) {
      assert Joined(NOTHING, rest) == rest;
      var r := Replay(count, [], rest);
      assert r.Some? ==> [] + r.value == r.value;
    }
  }

  /** One more prefix printed. */
  lemma PrintOne(m: Stream, prefixes: seq<Bytes>, keep: nat, prefix: Bytes)
    requires Printed(m, prefixes)
    requires keep <= |Trim(Top(prefixes))| && keep < |prefix| <= 32 && Trim(Top(prefixes))[..keep] == prefix[..keep]
    ensures Printed(Joined(m, Emitted(Top(prefixes), keep, prefix)), prefixes + [prefix])
  {
    var e := Emitted(Top(prefixes), keep, prefix);
    forall rest: Stream, count: nat ensures PrintedBefore(Joined(m, e), prefixes + [prefix], rest, count) {
      ReadEmitted(Top(prefixes), keep, prefix, rest);
      PrintOneBefore(m, prefixes, prefix, e, rest, count);
    }
  }

  lemma PrintOneBefore(m: Stream, prefixes: seq<Bytes>, prefix: Bytes, e: Stream, rest: Stream, count: nat)
    requires Printed(m, prefixes) && ReadPrefix(Top(prefixes), Joined(e, rest)) == Some((prefix, rest))
    ensures PrintedBefore(Joined(m, e), prefixes + [prefix], rest, count)
  {
    hide ReadPrefix;
    ReplayOne(Top(prefixes), Joined(e, rest), prefix, rest, count);
    hide Replay;
    assert PrintedBefore(m, prefixes, Joined(e, rest), count + 1);
    assert Joined(Joined(m, e), rest) == Joined(m, Joined(e, rest));
    assert |prefixes + [prefix]| + count == |prefixes| + (count + 1);
    var r := Replay(count, prefix, rest);
    assert r.Some? ==> prefixes + ([prefix] + r.value) == prefixes + [prefix] + r.value;
  }

  lemma ReplayOne(stack: Bytes, m: Stream, prefix: Bytes, rest: Stream, count: nat)
    requires ReadPrefix(stack, m) == Some((prefix, rest))
    ensures Replay(count + 1, stack, m) == Then([prefix], Replay(count, prefix, rest))
  {
    hide ReadPrefix;
  }

  /** A printed message replays to its prefixes; the zeros that fill its last bytes are not read. */
  lemma PrintedReplays(m: Stream, prefixes: seq<Bytes>, rest: Stream)
    requires Printed(m, prefixes)
    ensures Replay(|prefixes|, [], Joined(m, rest)) == Some(prefixes)
  {
    assert PrintedBefore(m, prefixes, rest, 0);
    assert prefixes + [] == prefixes;
  }
}
