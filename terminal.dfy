/** The editor's conversation with the terminal, recorded as a trace of
    operations: what it writes, and which keys it reads. */
module Terminal {
  import opened Keys
  import opened Navigation

  /** One terminal operation. PrintLine(t) stands for printing t followed by
      a carriage return and a newline. */
  datatype Op =
    | CursorHide
    | CursorShow
    | CursorPosition(position: Position)
    | ClearScreen
    | ClearCurrentLine
    | PrintLine(text: string)
    | Flush
    | ReadKey(key: Key)

  /** How many times op occurs in ops. */
  function Occurrences(ops: seq<Op>, op: Op): nat
    decreases |ops|
  {
    if ops == [] then 0 else (if ops[0] == op then 1 else 0) + Occurrences(ops[1..], op)
  }

  /** The keys read in ops, in order. */
  function KeysRead(ops: seq<Op>): seq<Key>
    decreases |ops|
  {
    if ops == [] then [] else (if ops[0].ReadKey? then [ops[0].key] else []) + KeysRead(ops[1..])
  }

  lemma {:induction false} OccurrencesConcat(a: seq<Op>, b: seq<Op>, op: Op)
    ensures Occurrences(a + b, op) == Occurrences(a, op) + Occurrences(b, op)
    decreases |a|
  {
    if a != [] {
      assert (a + b)[1..] == a[1..] + b;
      OccurrencesConcat(a[1..], b, op);
    } else {
      assert a + b == b;
    }
  }

  lemma OccurrencesPair(a: Op, b: Op, op: Op)
    ensures Occurrences([a, b], op) == (if a == op then 1 else 0) + (if b == op then 1 else 0)
  {
    assert [a, b][1..] == [b];
    assert [b][1..] == [];
    assert Occurrences([b], op) == (if b == op then 1 else 0) + Occurrences([], op);
  }

  /** op does not occur in ops exactly when it is counted zero times. */
  lemma {:induction false} OccurrencesZero(ops: seq<Op>, op: Op)
    ensures Occurrences(ops, op) == 0 <==> op !in ops
    decreases |ops|
  {
    if ops != [] {
      assert ops == [ops[0]] + ops[1..];
      OccurrencesZero(ops[1..], op);
    }
  }

  lemma {:induction false} KeysReadConcat(a: seq<Op>, b: seq<Op>)
    ensures KeysRead(a + b) == KeysRead(a) + KeysRead(b)
    decreases |a|
  {
    if a != [] {
      assert (a + b)[1..] == a[1..] + b;
      KeysReadConcat(a[1..], b);
    } else {
      assert a + b == b;
    }
  }

  /** A trace reads no key exactly when none of its operations is a read. */
  lemma {:induction false} KeysReadNone(ops: seq<Op>)
    ensures KeysRead(ops) == [] <==> forall i :: 0 <= i < |ops| ==> !ops[i].ReadKey?
    decreases |ops|
  {
    if ops != [] {
      assert forall i :: 0 <= i < |ops[1..]| ==> ops[1..][i] == ops[i + 1];
      KeysReadNone(ops[1..]);
    }
  }

  /** The keys read by a silent frame, a read of k and then more. */
  lemma KeysReadAfterFrame(frame: seq<Op>, k: Key, rest: seq<Op>)
    requires KeysRead(frame) == []
    ensures KeysRead(frame + [ReadKey(k)] + rest) == [k] + KeysRead(rest)
  {
    KeysReadConcat(frame, [ReadKey(k)]);
    KeysReadConcat(frame + [ReadKey(k)], rest);
    assert KeysRead([ReadKey(k)]) == [k] by {
      assert [ReadKey(k)][1..] == [];
    }
  }

  /** Every read in ops comes right after a flush. */
  predicate ReadsFollowFlush(ops: seq<Op>) {
    forall i :: 0 <= i < |ops| && ops[i].ReadKey? ==> 0 < i && ops[i - 1] == Flush
  }

  /** No read in ops comes after a clearing of the whole screen. */
  predicate NoReadAfterClear(ops: seq<Op>) {
    forall i, j :: 0 <= i < j < |ops| && ops[i] == ClearScreen ==> !ops[j].ReadKey?
  }

  /** A frame that reads nothing and ends in a flush, then a read, then a
      trace whose reads all follow a flush: all reads follow a flush. */
  lemma ReadsFollowFlushStep(frame: seq<Op>, k: Key, rest: seq<Op>)
    requires KeysRead(frame) == [] && frame != [] && frame[|frame| - 1] == Flush
    requires ReadsFollowFlush(rest)
    ensures ReadsFollowFlush(frame + [ReadKey(k)] + rest)
  {
    KeysReadNone(frame);
    var ops := frame + [ReadKey(k)] + rest;
    forall i | 0 <= i < |ops| && ops[i].ReadKey?
      ensures 0 < i && ops[i - 1] == Flush
    {
      if i == |frame| {
        assert ops[i - 1] == frame[|frame| - 1];
      } else if |frame| < i {
        var i' := i - |frame| - 1;
        assert ops[i] == rest[i'] && ops[i - 1] == rest[i' - 1];
      }
    }
  }

  /** A frame that does not clear the screen, then a read, then a trace with
      no read after a clear: no read after a clear. */
  lemma NoReadAfterClearStep(frame: seq<Op>, k: Key, rest: seq<Op>)
    requires ClearScreen !in frame
    requires NoReadAfterClear(rest)
    ensures NoReadAfterClear(frame + [ReadKey(k)] + rest)
  {
    var ops := frame + [ReadKey(k)] + rest;
    forall i, j | 0 <= i < j < |ops| && ops[i] == ClearScreen
      ensures !ops[j].ReadKey?
    {
      if |frame| < i {
        var i', j' := i - |frame| - 1, j - |frame| - 1;
        assert ops[i] == rest[i'] && ops[j] == rest[j'];
      }
    }
  }

  /** The count of an operation other than a read in a frame, a read, and
      then more. */
  lemma OccurrencesAfterFrame(frame: seq<Op>, k: Key, rest: seq<Op>, op: Op)
    requires !op.ReadKey?
    ensures Occurrences(frame + [ReadKey(k)] + rest, op) == Occurrences(frame, op) + Occurrences(rest, op)
  {
    OccurrencesConcat(frame, [ReadKey(k)], op);
    OccurrencesConcat(frame + [ReadKey(k)], rest, op);
    assert Occurrences([ReadKey(k)], op) == 0 by {
      assert [ReadKey(k)][1..] == [];
    }
  }

  /** The last n operations of a trace are those of any longer trace that
      ends with it. */
  lemma SuffixAfterFrame(front: seq<Op>, rest: seq<Op>, n: nat)
    requires n <= |rest|
    ensures (front + rest)[|front + rest| - n..] == rest[|rest| - n..]
  {
  }
}
