/** Write batches (write_batch.cc): a byte string with a sequence number, a count and the operations, built in place
    and read back. */
module WriteBatches {
  import opened Wrappers
  import opened Coding

  datatype Op = Put(key: Bytes, value: Bytes) | Delete(key: Bytes)

  const HEADER: nat := 12
  const TYPE_DELETION: byte := 0
  const TYPE_VALUE: byte := 1

  /** Sizes are stored in 32 bits. */
  predicate Storable(op: Op) {
    |op.key| < U32 && (op.Put? ==> |op.value| < U32)
  }

  predicate AllStorable(ops: seq<Op>) {
    forall k | 0 <= k < |ops| :: Storable(ops[k])
  }

  function EncodeOp(op: Op): (r: Bytes)
    ensures |r| > 0
  {
    match op
    case Put(key, value) => [TYPE_VALUE] + LengthPrefixed(key) + LengthPrefixed(value)
    case Delete(key) => [TYPE_DELETION] + LengthPrefixed(key)
  }

  function EncodeOps(ops: seq<Op>): Bytes {
    if ops == [] then [] else EncodeOp(ops[0]) + EncodeOps(ops[1..])
  }

  /** The whole representation. */
  function Encode(sequence: u64, ops: seq<Op>): Bytes {
    var count: u32 := |ops| % U32;
    EncodeFixed64(sequence) + EncodeFixed32(count) + EncodeOps(ops)
  }

  // ----- reading -----

  datatype Outcome = Good | TooSmall | BadPut | BadDelete | UnknownTag | WrongCount

  /** The operations handed to the handler, and how the loop ends. */
  function DecodeOps(input: Bytes): (seq<Op>, Outcome)
    decreases |input|
  {
    if input == [] then ([], Good)
    else if input[0] == TYPE_VALUE then
      var key := GetLengthPrefixed(input[1..]);
      if key.None? then ([], BadPut)
      else
        var value := GetLengthPrefixed(key.value.1);
        if value.None? then ([], BadPut)
        else
          var rest := DecodeOps(value.value.1);
          ([Put(key.value.0, value.value.0)] + rest.0, rest.1)
    else if input[0] == TYPE_DELETION then
      var key := GetLengthPrefixed(input[1..]);
      if key.None? then ([], BadDelete)
      else
        var rest := DecodeOps(key.value.1);
        ([Delete(key.value.0)] + rest.0, rest.1)
    else ([], UnknownTag)
  }

  lemma OneOpRoundTrip(op: Op, rest: Bytes)
    requires Storable(op)
    ensures DecodeOps(EncodeOp(op) + rest) == ([op] + DecodeOps(rest).0, DecodeOps(rest).1)
  {
    hide LengthPrefixed, GetLengthPrefixed;
    var input := EncodeOp(op) + rest;
    match op {
      case Put(key, value) =>
        assert input[1..] == LengthPrefixed(key) + (LengthPrefixed(value) + rest);
        LengthPrefixedRoundTrip(key, LengthPrefixed(value) + rest);
        LengthPrefixedRoundTrip(value, rest);
      case Delete(key) =>
        assert input[1..] == LengthPrefixed(key) + rest;
        LengthPrefixedRoundTrip(key, rest);
    }
  }

  /** An operation that is cut off, or a tag that does not exist, ends the iteration with its error, after the
      operations before it. */
  lemma {:induction false} FaultAfter(ops: seq<Op>, fault: Bytes, outcome: Outcome)
    requires AllStorable(ops) && DecodeOps(fault) == ([], outcome)
    ensures DecodeOps(EncodeOps(ops) + fault) == (ops, outcome)
  {
    hide DecodeOps, EncodeOp;
    if ops == [] {
      assert [] + fault == fault;
    } else {
      assert EncodeOps(ops) + fault == EncodeOp(ops[0]) + (EncodeOps(ops[1..]) + fault);
      FaultAfter(ops[1..], fault, outcome);
      OneOpRoundTrip(ops[0], EncodeOps(ops[1..]) + fault);
      assert [ops[0]] + ops[1..] == ops;
    }
  }

  /** Reading back gives exactly the operations written. */
  lemma OpsRoundTrip(ops: seq<Op>)
    requires AllStorable(ops)
    ensures DecodeOps(EncodeOps(ops)) == (ops, Good)
  {
    hide EncodeOps, AllStorable;
    FaultAfter(ops, [], Good);
    assert EncodeOps(ops) + [] == EncodeOps(ops);
  }

  lemma CutKey(op: Op, n: nat)
    requires Storable(op) && 0 < n <= |LengthPrefixed(op.key)|
    ensures n <= |EncodeOp(op)|
    ensures DecodeOps(EncodeOp(op)[..n]) == ([], if op.Put? then BadPut else BadDelete)
  {
    hide LengthPrefixed, GetLengthPrefixed;
    CutPrefixed(op.key, n - 1);
    assert EncodeOp(op)[..n][1..] == LengthPrefixed(op.key)[..n - 1];
  }

  lemma CutValue(op: Op, n: nat)
    requires Storable(op) && op.Put? && n < |LengthPrefixed(op.value)|
    ensures 1 + |LengthPrefixed(op.key)| + n <= |EncodeOp(op)|
    ensures DecodeOps(EncodeOp(op)[..1 + |LengthPrefixed(op.key)| + n]) == ([], BadPut)
  {
    hide LengthPrefixed, GetLengthPrefixed;
    var value := LengthPrefixed(op.value)[..n];
    CutPrefixed(op.value, n);
    LengthPrefixedRoundTrip(op.key, value);
    assert EncodeOp(op)[..1 + |LengthPrefixed(op.key)| + n][1..] == LengthPrefixed(op.key) + value;
  }

  lemma CutOffIsReported(ops: seq<Op>, op: Op, n: nat)
    requires AllStorable(ops) && Storable(op) && 0 < n < |EncodeOp(op)|
    ensures DecodeOps(EncodeOps(ops) + EncodeOp(op)[..n]) == (ops, if op.Put? then BadPut else BadDelete)
  {
    hide EncodeOps, LengthPrefixed, DecodeOps, AllStorable;
    if n <= |LengthPrefixed(op.key)| {
      CutKey(op, n);
    } else {
      CutValue(op, n - 1 - |LengthPrefixed(op.key)|);
    }
    FaultAfter(ops, EncodeOp(op)[..n], if op.Put? then BadPut else BadDelete);
  }

  lemma JunkIsReported(ops: seq<Op>, tag: byte, rest: Bytes)
    requires AllStorable(ops) && tag > 1
    ensures DecodeOps(EncodeOps(ops) + ([tag] + rest)) == (ops, UnknownTag)
  {
    FaultAfter(ops, [tag] + rest, UnknownTag);
  }

  lemma {:induction false} EncodeAppend(a: seq<Op>, b: seq<Op>)
    ensures EncodeOps(a + b) == EncodeOps(a) + EncodeOps(b)
  {
    if a == [] {
      assert a + b == b;
    } else {
      assert (a + b)[1..] == a[1..] + b;
      EncodeAppend(a[1..], b);
      assert EncodeOp(a[0]) + (EncodeOps(a[1..]) + EncodeOps(b)) == EncodeOp(a[0]) + EncodeOps(a[1..]) + EncodeOps(b);
    }
  }

  /** Different lists of operations have different representations. */
  lemma EncodeInjective(a: seq<Op>, b: seq<Op>)
    requires AllStorable(a) && AllStorable(b) && EncodeOps(a) == EncodeOps(b)
    ensures a == b
  {
    OpsRoundTrip(a);
    OpsRoundTrip(b);
  }

  // ----- the batch -----

  class WriteBatch {
    var rep: Bytes
    ghost var sequence: u64
    ghost var ops: seq<Op>

    ghost predicate Valid()
      reads this
    {
      rep == Encode(sequence, ops) && AllStorable(ops) && |ops| < U32
    }

    constructor ()
      ensures Valid() && ops == []
    {
      sequence, ops := 0, [];
      rep := EncodeFixed64(0) + EncodeFixed32(0);
      new;
      assert rep == Encode(0, []);
    }

    method Clear()
      modifies this
      ensures Valid() && ops == []
    {
      rep := EncodeFixed64(0) + EncodeFixed32(0);
      sequence, ops := 0, [];
      assert rep == Encode(0, []);
    }

    method Count() returns (n: nat)
      requires Valid()
      ensures n == |ops|
    {
      hide Encode, EncodeOps, EncodeFixed32, EncodeFixed64, DecodeFixed32, DecodeFixed64, AllStorable;
      Fields(sequence, ops);
      n := DecodeFixed32(rep[8..]);
    }

    method Sequence() returns (n: nat)
      requires Valid()
      ensures n == sequence
    {
      Fields(sequence, ops);
      n := DecodeFixed64(rep);
    }

    /** EncodeFixed32 over bytes 8 to 11. */
    method SetCount(n: u32)
      requires |rep| >= HEADER
      modifies this`rep
      ensures rep == old(rep[..8]) + EncodeFixed32(n) + old(rep[HEADER..])
    {
      rep := rep[..8] + EncodeFixed32(n) + rep[HEADER..];
    }

    method SetSequence(n: u64)
      requires Valid()
      modifies this`rep, this`sequence
      ensures Valid() && sequence == n
    {
      hide Encode, EncodeOps, EncodeFixed64, EncodeFixed32;
      Fields(sequence, ops);
      Fields(n, ops);
      rep := EncodeFixed64(n) + rep[8..];
      sequence := n;
    }

    method Put(key: Bytes, value: Bytes)
      requires Valid() && |key| < U32 && |value| < U32 && |ops| + 1 < U32
      modifies this
      ensures Valid() && sequence == old(sequence) && ops == old(ops) + [Op.Put(key, value)]
    {
      hide Encode, EncodeOps, EncodeFixed64, EncodeFixed32, LengthPrefixed;
      Fields(sequence, ops);
      var count := Count();
      SetCount(count + 1);
      ghost var front := rep;
      rep := rep + [TYPE_VALUE];
      rep := rep + LengthPrefixed(key);
      rep := rep + LengthPrefixed(value);
      Grown(sequence, ops, [Op.Put(key, value)]);
      OneOp(Op.Put(key, value));
      assert rep == front + EncodeOp(Op.Put(key, value));
      ops := ops + [Op.Put(key, value)];
    }

    method Delete(key: Bytes)
      requires Valid() && |key| < U32 && |ops| + 1 < U32
      modifies this
      ensures Valid() && sequence == old(sequence) && ops == old(ops) + [Op.Delete(key)]
    {
      hide Encode, EncodeOps, EncodeFixed64, EncodeFixed32, LengthPrefixed;
      Fields(sequence, ops);
      var count := Count();
      SetCount(count + 1);
      ghost var front := rep;
      rep := rep + [TYPE_DELETION];
      rep := rep + LengthPrefixed(key);
      Grown(sequence, ops, [Op.Delete(key)]);
      OneOp(Op.Delete(key));
      assert rep == front + EncodeOp(Op.Delete(key));
      ops := ops + [Op.Delete(key)];
    }

    method Append(src: WriteBatch)
      requires Valid() && src.Valid() && |ops| + |src.ops| < U32
      modifies this
      ensures Valid() && sequence == old(sequence) && ops == old(ops) + old(src.ops)
    {
      hide Encode, EncodeOps, EncodeFixed64, EncodeFixed32;
      Fields(sequence, ops);
      Fields(src.sequence, src.ops);
      ghost var more := src.ops;
      var tail := src.rep[HEADER..];
      var count := Count();
      var extra := src.Count();
      SetCount(count + extra);
      rep := rep + tail;
      Grown(sequence, ops, more);
      ops := ops + more;
    }

    /** What the handler is given, and the status. A valid batch gives back its operations. */
    method Iterate() returns (handled: seq<Op>, status: Outcome)
      ensures Valid() ==> handled == ops && status == Good
      ensures |rep| >= HEADER ==> handled == DecodeOps(rep[HEADER..]).0
      ensures |rep| >= HEADER && DecodeOps(rep[HEADER..]).1 != Good ==> status == DecodeOps(rep[HEADER..]).1
      ensures |rep| >= HEADER && DecodeOps(rep[HEADER..]).1 == Good ==>
                status == if DecodeFixed32(rep[8..]) == |handled| then Good else WrongCount
      ensures |rep| < HEADER ==> handled == [] && status == TooSmall
    {
      hide Encode, EncodeOps, EncodeOp, GetLengthPrefixed, LengthPrefixed, DecodeFixed32, DecodeFixed64, AllStorable;
      if |rep| < HEADER {
        assert Valid() ==> |rep| >= HEADER by {
          Fields(sequence, ops);
        }
        return [], TooSmall;
      }
      var input := rep[HEADER..];
      handled := [];
      var found := 0;
      status := Good;
      ghost var goal := DecodeOps(input);
      assert [] + goal.0 == goal.0;
      while input != []
        invariant found == |handled| && status == Good
        invariant goal.0 == handled + DecodeOps(input).0 && goal.1 == DecodeOps(input).1
        decreases |input|
      {
        var tag := input[0];
        ghost var rest := DecodeOps(input);
        if tag == TYPE_VALUE {
          var key := GetLengthPrefixed(input[1..]);
          var value := if key.Some? then GetLengthPrefixed(key.value.1) else None;
          if value.None? {
            status := BadPut;
            break;
          }
          Regroup(handled, [Op.Put(key.value.0, value.value.0)], DecodeOps(value.value.1).0);
          handled, input := handled + [Op.Put(key.value.0, value.value.0)], value.value.1;
        } else if tag == TYPE_DELETION {
          var key := GetLengthPrefixed(input[1..]);
          if key.None? {
            status := BadDelete;
            break;
          }
          Regroup(handled, [Op.Delete(key.value.0)], DecodeOps(key.value.1).0);
          handled, input := handled + [Op.Delete(key.value.0)], key.value.1;
        } else {
          status := UnknownTag;
          break;
        }
        found := found + 1;
      }
      if status == Good && found != DecodeFixed32(rep[8..]) {
        status := WrongCount;
      }
      ValidIterates(rep, sequence, ops);
    }
  }

  lemma Regroup(a: seq<Op>, b: seq<Op>, c: seq<Op>)
    ensures a + (b + c) == a + b + c
  {
  }

  lemma Fields(sequence: u64, ops: seq<Op>)
    ensures var rep := Encode(sequence, ops);
            && |rep| >= HEADER && DecodeFixed64(rep) == sequence && DecodeFixed32(rep[8..]) == |ops| % U32
            && rep[HEADER..] == EncodeOps(ops) && rep[..8] == EncodeFixed64(sequence)
            && rep[8..] == EncodeFixed32(|ops| % U32) + EncodeOps(ops)
            && rep == EncodeFixed64(sequence) + rep[8..]
  {
    var count: u32 := |ops| % U32;
    var rep := Encode(sequence, ops);
    var front, middle, back := EncodeFixed64(sequence), EncodeFixed32(count), EncodeOps(ops);
    Fixed64RoundTrip(sequence, middle + back);
    Fixed32RoundTrip(count);
    hide EncodeOps, EncodeFixed32, EncodeFixed64, DecodeFixed32, DecodeFixed64;
    ThreeParts(front, middle, back);
    Fixed32Prefix(rep[8..]);
  }

  lemma ThreeParts(a: Bytes, b: Bytes, c: Bytes)
    requires |a| == 8 && |b| == 4
    ensures a + b + c == a + (b + c) && (a + b + c)[8..] == b + c && (a + b + c)[8..][..4] == b
    ensures (a + b + c)[12..] == c && (a + b + c)[..8] == a
  {
  }

  /** Rewriting the count and appending the new operations' bytes. */
  lemma Grown(sequence: u64, ops: seq<Op>, more: seq<Op>)
    requires |ops| + |more| < U32
    ensures Encode(sequence, ops + more) ==
              EncodeFixed64(sequence) + EncodeFixed32(|ops| + |more|) + EncodeOps(ops) + EncodeOps(more)
  {
    EncodeAppend(ops, more);
    hide EncodeOps, EncodeFixed32, EncodeFixed64;
    var count: u32 := |ops| + |more|;
    var front := EncodeFixed64(sequence) + EncodeFixed32(count);
    assert front + (EncodeOps(ops) + EncodeOps(more)) == front + EncodeOps(ops) + EncodeOps(more);
  }

  lemma OneOp(op: Op)
    ensures EncodeOps([op]) == EncodeOp(op)
  {
    assert [op][1..] == [];
    assert EncodeOp(op) + [] == EncodeOp(op);
  }

  lemma ValidIterates(rep: Bytes, sequence: u64, ops: seq<Op>)
    requires |rep| >= HEADER
    ensures rep == Encode(sequence, ops) && AllStorable(ops) && |ops| < U32 ==>
              DecodeOps(rep[HEADER..]) == (ops, Good) && DecodeFixed32(rep[8..]) == |ops|
  {
    hide Encode, EncodeOps, DecodeOps, DecodeFixed32;
    if rep == Encode(sequence, ops) && AllStorable(ops) {
      Fields(sequence, ops);
      OpsRoundTrip(ops);
    }
  }

  /** A batch written out: sequence number 1, two operations, "a" set to "b" and "c" deleted. */
  lemma KnownBatch()
    ensures Encode(1, [Put([97], [98]), Delete([99])]) ==
              [1, 0, 0, 0, 0, 0, 0, 0, 2, 0, 0, 0, 1, 1, 97, 1, 98, 0, 1, 99]
  {
    var ops := [Put([97], [98]), Delete([99])];
    assert ops[1..] == [Delete([99])];
    OneOp(ops[1]);
    assert EncodeOp(ops[0]) == [1, 1, 97, 1, 98] && EncodeOp(ops[1]) == [0, 1, 99];
    assert EncodeFixed64(1) == [1, 0, 0, 0, 0, 0, 0, 0] && EncodeFixed32(2) == [2, 0, 0, 0];
  }
}
