/** The editor's main loop as a function of its inputs: each iteration
    refreshes the screen, stops if the quit flag is up, and otherwise reads
    one key and interprets it. */
module Session {
  import opened Keys
  import opened Navigation
  import opened Terminal
  import opened Screen

  /** How the loop ends: after the farewell screen, or because reading a key
      failed (the key stream ran out). */
  datatype Outcome = Quit | ReadFailed

  /** What a run leaves behind: the terminal trace, the editor's last state
      and how the loop ended. */
  datatype Transcript = Transcript(trace: seq<Op>, final: EditorState, outcome: Outcome)

  /** A run whose trace is preceded by further operations. */
  function Prepend(ops: seq<Op>, t: Transcript): Transcript {
    t.(trace := ops + t.trace)
  }

  /** No key but the last of read is control-q. */
  predicate QuitOnlyLast(read: seq<Key>) {
    forall i :: 0 <= i < |read| - 1 ==> read[i] != QuitKey
  }

  /** The last key of read is control-q. */
  predicate LastIsQuit(read: seq<Key>) {
    0 < |read| && read[|read| - 1] == QuitKey
  }

  /** The trace ends with the farewell screen. */
  predicate EndsWithFarewell(trace: seq<Op>) {
    |Farewell| <= |trace| && trace[|trace| - |Farewell|..] == Farewell
  }

  /** Every terminal size the loop may meet has at least one row. */
  predicate Drawable(sizes: seq<Size>) {
    forall i :: 0 <= i < |sizes| ==> 1 <= sizes[i].height
  }

  /** The loop, run from state st. keys are the keys the terminal will
      deliver, in order; sizes[i] is the terminal's size during iteration i. */
  function Run<R>(st: EditorState, doc: Document<R>, version: string, sizes: seq<Size>, keys: seq<Key>): Transcript
    requires |sizes| == |keys| + 1 && Drawable(sizes)
    decreases |keys|
  {
    var frame := Refresh(st, doc, version, sizes[0]);
    if st.shouldQuit then Transcript(frame, st, Quit)
    else if keys == [] then Transcript(frame, st, ReadFailed)
    else
      assert Drawable(sizes[1..]) by {
        assert forall i :: 0 <= i < |sizes[1..]| ==> sizes[1..][i] == sizes[i + 1];
      }
      var rest := Run(Interpret(st, keys[0], sizes[0]), doc, version, sizes[1..], keys[1..]);
      Transcript(frame + [ReadKey(keys[0])] + rest.trace, rest.final, rest.outcome)
  }

  /** Control-q ends the loop at once: the next refresh paints the farewell
      and no further key is read. */
  lemma QuitKeyEndsRun<R>(st: EditorState, doc: Document<R>, version: string, sizes: seq<Size>, keys: seq<Key>)
    requires |sizes| == |keys| + 1 && Drawable(sizes)
    requires !st.shouldQuit && keys != [] && keys[0] == QuitKey
    ensures Run(st, doc, version, sizes, keys) == Transcript(
      Refresh(st, doc, version, sizes[0]) + [ReadKey(QuitKey)] + Farewell,
      st.(shouldQuit := true),
      Quit)
  {
    DrawableTail(sizes);
  }

  /** Once the flag is up, the loop paints the farewell and stops. */
  lemma RunWhenQuitting<R>(st: EditorState, doc: Document<R>, version: string, sizes: seq<Size>, keys: seq<Key>)
    requires |sizes| == |keys| + 1 && Drawable(sizes) && st.shouldQuit
    ensures Run(st, doc, version, sizes, keys) == Transcript(Farewell, st, Quit)
  {
  }

  /** One iteration of the loop at position i of the inputs, for a state
      that is not quitting and a key that is there to be read. */
  lemma RunAdvance<R>(st: EditorState, doc: Document<R>, version: string, sizes: seq<Size>, keys: seq<Key>, i: nat)
    requires |sizes| == |keys| + 1 && i < |keys| && Drawable(sizes[i..]) && !st.shouldQuit
    ensures Drawable(sizes[i + 1..])
    ensures Run(st, doc, version, sizes[i..], keys[i..]) == Prepend(
      Refresh(st, doc, version, sizes[i]) + [ReadKey(keys[i])],
      Run(Interpret(st, keys[i], sizes[i]), doc, version, sizes[i + 1..], keys[i + 1..]))
  {
    assert sizes[i..][1..] == sizes[i + 1..] && keys[i..][1..] == keys[i + 1..];
    DrawableTail(sizes[i..]);
  }

  /** The last iteration of the loop at position i of the inputs: the flag
      is up, or there is no key left to read. */
  lemma RunStops<R>(st: EditorState, doc: Document<R>, version: string, sizes: seq<Size>, keys: seq<Key>, i: nat)
    requires |sizes| == |keys| + 1 && i <= |keys| && Drawable(sizes[i..])
    requires st.shouldQuit || i == |keys|
    ensures Run(st, doc, version, sizes[i..], keys[i..]) ==
      Transcript(Refresh(st, doc, version, sizes[i]), st, if st.shouldQuit then Quit else ReadFailed)
  {
    assert sizes[i..][0] == sizes[i];
  }

  /** The loop's invariant at iteration i, in state st, with trace written
      so far: the run from the first state on all the inputs is that trace
      followed by the run from st on the inputs left. */
  predicate Resumes<R>(initial: EditorState, st: EditorState, doc: Document<R>, version: string,
                       sizes: seq<Size>, keys: seq<Key>, i: nat, trace: seq<Op>)
    requires |sizes| == |keys| + 1 && Drawable(sizes) && i <= |keys|
  {
    Drawable(sizes[i..]) &&
    Run(initial, doc, version, sizes, keys) == Prepend(trace, Run(st, doc, version, sizes[i..], keys[i..]))
  }

  /** The invariant holds before the first iteration. */
  lemma LoopStarts<R>(initial: EditorState, doc: Document<R>, version: string, sizes: seq<Size>, keys: seq<Key>)
    requires |sizes| == |keys| + 1 && Drawable(sizes)
    ensures Resumes(initial, initial, doc, version, sizes, keys, 0, [])
  {
    assert sizes[0..] == sizes && keys[0..] == keys;
    var t := Run(initial, doc, version, sizes, keys);
    assert [] + t.trace == t.trace;
  }

  /** The invariant carried over one iteration that reads keys[i]. */
  lemma LoopAdvance<R>(initial: EditorState, st: EditorState, doc: Document<R>, version: string,
                       sizes: seq<Size>, keys: seq<Key>, i: nat, trace: seq<Op>)
    requires |sizes| == |keys| + 1 && Drawable(sizes) && i < |keys|
    requires Resumes(initial, st, doc, version, sizes, keys, i, trace) && !st.shouldQuit
    ensures Resumes(initial, Interpret(st, keys[i], sizes[i]), doc, version, sizes, keys, i + 1,
                    trace + (Refresh(st, doc, version, sizes[i]) + [ReadKey(keys[i])]))
  {
    RunAdvance(st, doc, version, sizes, keys, i);
    PrependTwice(trace, Refresh(st, doc, version, sizes[i]) + [ReadKey(keys[i])],
      Run(Interpret(st, keys[i], sizes[i]), doc, version, sizes[i + 1..], keys[i + 1..]));
  }

  /** The invariant at the last iteration gives the whole run. */
  lemma LoopStops<R>(initial: EditorState, st: EditorState, doc: Document<R>, version: string,
                     sizes: seq<Size>, keys: seq<Key>, i: nat, trace: seq<Op>)
    requires |sizes| == |keys| + 1 && Drawable(sizes) && i <= |keys|
    requires Resumes(initial, st, doc, version, sizes, keys, i, trace) && (st.shouldQuit || i == |keys|)
    ensures Run(initial, doc, version, sizes, keys)
      == Transcript(trace + Refresh(st, doc, version, sizes[i]), st, if st.shouldQuit then Quit else ReadFailed)
  {
    RunStops(st, doc, version, sizes, keys, i);
  }

  lemma PrependTwice(a: seq<Op>, b: seq<Op>, t: Transcript)
    ensures Prepend(a, Prepend(b, t)) == Prepend(a + b, t)
  {
    assert a + (b + t.trace) == (a + b) + t.trace;
  }

  lemma DrawableTail(sizes: seq<Size>)
    requires Drawable(sizes) && sizes != []
    ensures Drawable(sizes[1..])
  {
    assert forall i :: 0 <= i < |sizes[1..]| ==> sizes[1..][i] == sizes[i + 1];
  }

  /** The loop ends with the farewell exactly when the flag was up already or
      control-q is among the keys; the flag is up at the end exactly then. */
  lemma {:induction false} RunOutcome<R>(st: EditorState, doc: Document<R>, version: string, sizes: seq<Size>, keys: seq<Key>)
    requires |sizes| == |keys| + 1 && Drawable(sizes)
    ensures var t := Run(st, doc, version, sizes, keys);
      (t.outcome == Quit <==> st.shouldQuit || QuitKey in keys) &&
      (t.final.shouldQuit <==> t.outcome == Quit)
    decreases |keys|
  {
    if !st.shouldQuit && keys != [] {
      DrawableTail(sizes);
      RunOutcome(Interpret(st, keys[0], sizes[0]), doc, version, sizes[1..], keys[1..]);
      assert keys == [keys[0]] + keys[1..];
    }
  }

  /** The keys read are a prefix of the keys delivered; when reading fails,
      every key was read; and a loop that starts with the flag up reads
      nothing. */
  lemma {:induction false} RunReadsPrefix<R>(st: EditorState, doc: Document<R>, version: string, sizes: seq<Size>, keys: seq<Key>)
    requires |sizes| == |keys| + 1 && Drawable(sizes)
    ensures var t := Run(st, doc, version, sizes, keys);
      var read := KeysRead(t.trace);
      read <= keys &&
      (t.outcome == ReadFailed ==> read == keys) &&
      (st.shouldQuit ==> read == [])
    decreases |keys|
  {
    RefreshReadsNoKey(st, doc, version, sizes[0]);
    if !st.shouldQuit && keys != [] {
      DrawableTail(sizes);
      var st' := Interpret(st, keys[0], sizes[0]);
      var rest := Run(st', doc, version, sizes[1..], keys[1..]);
      RunReadsPrefix(st', doc, version, sizes[1..], keys[1..]);
      KeysReadAfterFrame(Refresh(st, doc, version, sizes[0]), keys[0], rest.trace);
      PrefixStep(keys, KeysRead(rest.trace));
    }
  }

  /** No key but the last one read is control-q. */
  lemma {:induction false} RunReadsUntilQuit<R>(st: EditorState, doc: Document<R>, version: string, sizes: seq<Size>, keys: seq<Key>)
    requires |sizes| == |keys| + 1 && Drawable(sizes)
    ensures var read := KeysRead(Run(st, doc, version, sizes, keys).trace);
      forall i :: 0 <= i < |read| - 1 ==> read[i] != QuitKey
    decreases |keys|
  {
    RefreshReadsNoKey(st, doc, version, sizes[0]);
    if !st.shouldQuit && keys != [] {
      DrawableTail(sizes);
      var st' := Interpret(st, keys[0], sizes[0]);
      var rest := Run(st', doc, version, sizes[1..], keys[1..]);
      RunReadsUntilQuit(st', doc, version, sizes[1..], keys[1..]);
      RunAdvance(st, doc, version, sizes, keys, 0);
      KeysReadAfterFrame(Refresh(st, doc, version, sizes[0]), keys[0], rest.trace);
      if keys[0] == QuitKey {
        RunWhenQuitting(st', doc, version, sizes[1..], keys[1..]);
        KeysReadNone(Farewell);
      }
      QuitOnlyLastStep(keys[0], KeysRead(rest.trace));
    }
  }

  /** When the loop quits on a key rather than on a flag that was up from
      the start, the last key read is control-q. */
  lemma {:induction false} RunQuitsOnQuitKey<R>(st: EditorState, doc: Document<R>, version: string, sizes: seq<Size>, keys: seq<Key>)
    requires |sizes| == |keys| + 1 && Drawable(sizes)
    ensures var t := Run(st, doc, version, sizes, keys);
      var read := KeysRead(t.trace);
      t.outcome == Quit && !st.shouldQuit ==> 0 < |read| && read[|read| - 1] == QuitKey
    decreases |keys|
  {
    RefreshReadsNoKey(st, doc, version, sizes[0]);
    if !st.shouldQuit && keys != [] {
      DrawableTail(sizes);
      var st' := Interpret(st, keys[0], sizes[0]);
      var rest := Run(st', doc, version, sizes[1..], keys[1..]);
      RunQuitsOnQuitKey(st', doc, version, sizes[1..], keys[1..]);
      RunAdvance(st, doc, version, sizes, keys, 0);
      KeysReadAfterFrame(Refresh(st, doc, version, sizes[0]), keys[0], rest.trace);
      if keys[0] == QuitKey {
        RunWhenQuitting(st', doc, version, sizes[1..], keys[1..]);
        KeysReadNone(Farewell);
      }
      LastIsQuitStep(keys[0], KeysRead(rest.trace), keys[0] == QuitKey, rest.outcome == Quit && !st'.shouldQuit);
    }
  }

  /** Reading k and then a prefix of the remaining keys reads a prefix of
      all the keys. */
  lemma PrefixStep(keys: seq<Key>, read: seq<Key>)
    requires keys != [] && read <= keys[1..]
    ensures [keys[0]] + read <= keys
    ensures read == keys[1..] ==> [keys[0]] + read == keys
  {
    assert keys == [keys[0]] + keys[1..];
  }

  /** Reading k and then keys that end with control-q, or reading control-q
      and nothing after it: the last key read is control-q. */
  lemma LastIsQuitStep(k: Key, read: seq<Key>, quitting: bool, quitsLater: bool)
    requires quitting ==> k == QuitKey && read == []
    requires quitsLater ==> LastIsQuit(read)
    ensures quitting || quitsLater ==> LastIsQuit([k] + read)
  {
    if quitsLater {
      assert ([k] + read)[|[k] + read| - 1] == read[|read| - 1];
    }
  }

  /** Reading k and then keys among which only the last may be control-q:
      when k is not control-q or nothing follows it, only the last of all
      may be control-q. */
  lemma QuitOnlyLastStep(k: Key, read: seq<Key>)
    requires k == QuitKey ==> read == []
    requires forall i :: 0 <= i < |read| - 1 ==> read[i] != QuitKey
    ensures var all := [k] + read;
      forall i :: 0 <= i < |all| - 1 ==> all[i] != QuitKey
  {
    var all := [k] + read;
    forall i | 0 <= i < |all| - 1
      ensures all[i] != QuitKey
    {
      if 0 < i {
        assert all[i] == read[i - 1];
      }
    }
  }

  /** Every iteration refreshes once: the number of flushes is one more than
      the number of keys read. */
  lemma {:induction false} RunRefreshesOncePerIteration<R>(st: EditorState, doc: Document<R>, version: string, sizes: seq<Size>, keys: seq<Key>)
    requires |sizes| == |keys| + 1 && Drawable(sizes)
    ensures var trace := Run(st, doc, version, sizes, keys).trace;
      Occurrences(trace, Flush) == |KeysRead(trace)| + 1
    decreases |keys|
  {
    var frame := Refresh(st, doc, version, sizes[0]);
    RefreshCounts(st, doc, version, sizes[0]);
    RefreshReadsNoKey(st, doc, version, sizes[0]);
    if !st.shouldQuit && keys != [] {
      DrawableTail(sizes);
      var st' := Interpret(st, keys[0], sizes[0]);
      var rest := Run(st', doc, version, sizes[1..], keys[1..]).trace;
      RunRefreshesOncePerIteration(st', doc, version, sizes[1..], keys[1..]);
      OccurrencesAfterFrame(frame, keys[0], rest, Flush);
      KeysReadAfterFrame(frame, keys[0], rest);
    }
  }

  /** The whole screen is cleared exactly once if the loop quits and never
      otherwise, and a quitting loop ends with the farewell screen. */
  lemma {:induction false} RunFarewellOnce<R>(st: EditorState, doc: Document<R>, version: string, sizes: seq<Size>, keys: seq<Key>)
    requires |sizes| == |keys| + 1 && Drawable(sizes)
    ensures var t := Run(st, doc, version, sizes, keys);
      Occurrences(t.trace, ClearScreen) == (if t.outcome == Quit then 1 else 0) &&
      (t.outcome == Quit ==> |Farewell| <= |t.trace| && t.trace[|t.trace| - |Farewell|..] == Farewell)
    decreases |keys|
  {
    var frame := Refresh(st, doc, version, sizes[0]);
    RefreshCounts(st, doc, version, sizes[0]);
    if !st.shouldQuit && keys != [] {
      DrawableTail(sizes);
      var st' := Interpret(st, keys[0], sizes[0]);
      var rest := Run(st', doc, version, sizes[1..], keys[1..]);
      RunFarewellOnce(st', doc, version, sizes[1..], keys[1..]);
      OccurrencesAfterFrame(frame, keys[0], rest.trace, ClearScreen);
      if rest.outcome == Quit {
        SuffixAfterFrame(frame + [ReadKey(keys[0])], rest.trace, |Farewell|);
      }
    }
  }

  /** Every key read comes right after a flush, that is right after a
      complete refresh. */
  lemma {:induction false} RunRefreshesBeforeEveryRead<R>(st: EditorState, doc: Document<R>, version: string, sizes: seq<Size>, keys: seq<Key>)
    requires |sizes| == |keys| + 1 && Drawable(sizes)
    ensures ReadsFollowFlush(Run(st, doc, version, sizes, keys).trace)
    decreases |keys|
  {
    var frame := Refresh(st, doc, version, sizes[0]);
    RefreshReadsNoKey(st, doc, version, sizes[0]);
    KeysReadNone(frame);
    if !st.shouldQuit && keys != [] {
      DrawableTail(sizes);
      var st' := Interpret(st, keys[0], sizes[0]);
      RunRefreshesBeforeEveryRead(st', doc, version, sizes[1..], keys[1..]);
      ReadsFollowFlushStep(frame, keys[0], Run(st', doc, version, sizes[1..], keys[1..]).trace);
    }
  }

  /** After the farewell screen has been cleared, no key is read. */
  lemma {:induction false} RunNoReadAfterFarewell<R>(st: EditorState, doc: Document<R>, version: string, sizes: seq<Size>, keys: seq<Key>)
    requires |sizes| == |keys| + 1 && Drawable(sizes)
    ensures NoReadAfterClear(Run(st, doc, version, sizes, keys).trace)
    decreases |keys|
  {
    var frame := Refresh(st, doc, version, sizes[0]);
    RefreshReadsNoKey(st, doc, version, sizes[0]);
    KeysReadNone(frame);
    if !st.shouldQuit && keys != [] {
      DrawableTail(sizes);
      RefreshCounts(st, doc, version, sizes[0]);
      OccurrencesZero(frame, ClearScreen);
      var st' := Interpret(st, keys[0], sizes[0]);
      RunNoReadAfterFarewell(st', doc, version, sizes[1..], keys[1..]);
      NoReadAfterClearStep(frame, keys[0], Run(st', doc, version, sizes[1..], keys[1..]).trace);
    }
  }

  /** The final cursor is where the keys read, taken one by one, move it,
      the i-th key against the terminal's size during iteration i. */
  lemma {:induction false} RunMovesAlongReadKeys<R>(st: EditorState, doc: Document<R>, version: string, sizes: seq<Size>, keys: seq<Key>)
    requires |sizes| == |keys| + 1 && Drawable(sizes)
    ensures var t := Run(st, doc, version, sizes, keys);
      |KeysRead(t.trace)| <= |sizes| &&
      t.final.cursor == MovedAlongSized(st.cursor, KeysRead(t.trace), sizes)
    decreases |keys|
  {
    var t := Run(st, doc, version, sizes, keys);
    var frame := Refresh(st, doc, version, sizes[0]);
    RefreshReadsNoKey(st, doc, version, sizes[0]);
    RunReadsPrefix(st, doc, version, sizes, keys);
    if !st.shouldQuit && keys != [] {
      DrawableTail(sizes);
      var st' := Interpret(st, keys[0], sizes[0]);
      var rest := Run(st', doc, version, sizes[1..], keys[1..]);
      RunMovesAlongReadKeys(st', doc, version, sizes[1..], keys[1..]);
      KeysReadAfterFrame(frame, keys[0], rest.trace);
      var read := KeysRead(t.trace);
      assert read == [keys[0]] + KeysRead(rest.trace);
      assert read[1..] == KeysRead(rest.trace);
      assert st'.cursor == Moved(st.cursor, keys[0], sizes[0]);
    }
  }

  /** On a terminal whose size does not change, the final cursor is where
      the keys read move it on that one size. */
  lemma RunMovesAlongFixedSize<R>(st: EditorState, doc: Document<R>, version: string, size: Size, sizes: seq<Size>, keys: seq<Key>)
    requires |sizes| == |keys| + 1 && Drawable(sizes)
    requires forall i :: 0 <= i < |sizes| ==> sizes[i] == size
    ensures var t := Run(st, doc, version, sizes, keys);
      t.final.cursor == MovedAlong(st.cursor, KeysRead(t.trace), size)
  {
    var t := Run(st, doc, version, sizes, keys);
    RunMovesAlongReadKeys(st, doc, version, sizes, keys);
    MovedAlongOneSize(st.cursor, KeysRead(t.trace), sizes, size);
  }

  /** On a terminal whose size does not change, a cursor that starts inside
      the bounds is inside them when the loop ends. */
  lemma RunKeepsCursorInBounds<R>(st: EditorState, doc: Document<R>, version: string, size: Size, sizes: seq<Size>, keys: seq<Key>)
    requires |sizes| == |keys| + 1 && Drawable(sizes)
    requires forall i :: 0 <= i < |sizes| ==> sizes[i] == size
    requires InBounds(st.cursor, size)
    ensures InBounds(Run(st, doc, version, sizes, keys).final.cursor, size)
  {
    var t := Run(st, doc, version, sizes, keys);
    RunMovesAlongFixedSize(st, doc, version, size, sizes, keys);
    MovesStayInBounds(st.cursor, KeysRead(t.trace), size);
  }

  /** What every run guarantees of its transcript t, when it starts from
      st and is given keys: it ends with the farewell exactly when the flag
      was up or control-q is among the keys, and the final flag says so; each
      read follows a flush and none follows a clear of the screen; the screen
      is cleared once when the loop quits and never otherwise, and a quitting
      trace ends with the farewell; there is one flush per key read and one
      more; the keys read are a prefix of keys, all of them when reading
      failed and none when the flag was up at the start; only the last key
      read may be control-q, and it is control-q when the loop quits on a
      key; the final cursor is where the keys read move it, each against the
      size of its own iteration. */
  predicate Guaranteed(st: EditorState, sizes: seq<Size>, keys: seq<Key>, t: Transcript) {
    var read := KeysRead(t.trace);
    KeysGuaranteed(st, keys, t) && TraceGuaranteed(t) &&
    |read| <= |sizes| && t.final.cursor == MovedAlongSized(st.cursor, read, sizes)
  }

  /** The guarantees about how the loop ends and which keys it reads. */
  predicate KeysGuaranteed(st: EditorState, keys: seq<Key>, t: Transcript) {
    var read := KeysRead(t.trace);
    (t.outcome == Quit <==> st.shouldQuit || QuitKey in keys) &&
    (t.final.shouldQuit <==> t.outcome == Quit) &&
    read <= keys &&
    (t.outcome == ReadFailed ==> read == keys) &&
    (st.shouldQuit ==> read == []) &&
    QuitOnlyLast(read) &&
    (t.outcome == Quit && !st.shouldQuit ==> LastIsQuit(read))
  }

  /** The guarantees about the order and number of terminal operations. */
  predicate TraceGuaranteed(t: Transcript) {
    ReadsFollowFlush(t.trace) && NoReadAfterClear(t.trace) &&
    Occurrences(t.trace, ClearScreen) == (if t.outcome == Quit then 1 else 0) &&
    Occurrences(t.trace, Flush) == |KeysRead(t.trace)| + 1 &&
    (t.outcome == Quit ==> EndsWithFarewell(t.trace))
  }

  /** Every run keeps the guarantees about its ending and its reads. */
  lemma RunKeysGuaranteed<R>(st: EditorState, doc: Document<R>, version: string, sizes: seq<Size>, keys: seq<Key>)
    requires |sizes| == |keys| + 1 && Drawable(sizes)
    ensures KeysGuaranteed(st, keys, Run(st, doc, version, sizes, keys))
  {
    RunOutcome(st, doc, version, sizes, keys);
    RunReadsPrefix(st, doc, version, sizes, keys);
    RunReadsUntilQuit(st, doc, version, sizes, keys);
    RunQuitsOnQuitKey(st, doc, version, sizes, keys);
  }

  /** Every run keeps the guarantees about its terminal operations. */
  lemma RunTraceGuaranteed<R>(st: EditorState, doc: Document<R>, version: string, sizes: seq<Size>, keys: seq<Key>)
    requires |sizes| == |keys| + 1 && Drawable(sizes)
    ensures TraceGuaranteed(Run(st, doc, version, sizes, keys))
  {
    RunFarewellOnce(st, doc, version, sizes, keys);
    RunRefreshesOncePerIteration(st, doc, version, sizes, keys);
    RunRefreshesBeforeEveryRead(st, doc, version, sizes, keys);
    RunNoReadAfterFarewell(st, doc, version, sizes, keys);
  }

  /** Every run keeps the guarantees above. */
  lemma RunGuarantees<R>(st: EditorState, doc: Document<R>, version: string, sizes: seq<Size>, keys: seq<Key>,
                         trace: seq<Op>, final: EditorState, outcome: Outcome)
    requires |sizes| == |keys| + 1 && Drawable(sizes)
    requires Run(st, doc, version, sizes, keys) == Transcript(trace, final, outcome)
    ensures Guaranteed(st, sizes, keys, Transcript(trace, final, outcome))
  {
    RunKeysGuaranteed(st, doc, version, sizes, keys);
    RunTraceGuaranteed(st, doc, version, sizes, keys);
    RunMovesAlongReadKeys(st, doc, version, sizes, keys);
  }
}
