/** One refresh of the screen: which text each terminal row shows, the
    welcome banner, and the order of the operations a refresh performs. */
module Screen {
  import opened Navigation
  import opened Terminal

  datatype Option<T> = None | Some(value: T)

  /** What the editor sees of the document it shows: the line stored at an
      index, if any, whether the document is empty, and the rendering of a
      line between two columns. All three are left uninterpreted. */
  datatype Document<!R> = Document(
    row: nat -> Option<R>,
    isEmpty: bool,
    render: (R, nat, nat) -> string)

  /** The farewell screen painted by the last refresh. */
  const Farewell: seq<Op> :=
    [CursorHide, CursorPosition(Origin), ClearScreen, PrintLine("Goodbye."), CursorShow, Flush]

  function Min(a: nat, b: nat): nat {
    if a <= b then a else b
  }

  /** The banner text, for the package version the editor was built as. */
  function WelcomeMessage(version: string): (m: string)
    ensures |m| == 16 + |version| && m[16..] == version
  {
    "TyPP -- version " + version
  }

  function Spaces(n: nat): (s: string)
    ensures |s| == n
    ensures forall i :: 0 <= i < n ==> s[i] == ' '
  {
    if n == 0 then "" else Spaces(n - 1) + " "
  }

  /** The number of spaces between the ~ marker and the message: half the
      room the message leaves, less one for the marker, never negative. */
  function Padding(width: nat, length: nat): (pad: nat)
    ensures 2 * pad <= SaturatingSub(width, length)
    // Whenever there is any padding, the marker, the padding and the
    // message fit in the width together.
    ensures 0 < pad ==> 1 + pad + length <= width
  {
    SaturatingSub(SaturatingSub(width, length) / 2, 1)
  }

  /** The first n characters of s, or all of s when it is shorter. */
  function Truncate(s: string, n: nat): (t: string)
    ensures |t| == Min(|s|, n)
    ensures forall i :: 0 <= i < |t| ==> t[i] == s[i]
  {
    if |s| <= n then s else s[..n]
  }

  /** The welcome line for a terminal of the given width: a ~ marker, the
      padding and the message, cut off at the width. */
  function WelcomeLine(width: nat, message: string): (line: string)
    ensures |line| <= width
    ensures |line| == Min(width, 1 + Padding(width, |message|) + |message|)
    ensures 1 <= width ==> line[0] == '~'
  {
    var padded := "~" + Spaces(Padding(width, |message|)) + message;
    Truncate(padded, width)
  }

  /** The padding is spaces, the message follows it as far as the width
      allows, and a message narrower than the terminal is shown whole and
      centred: the columns left of it and right of it differ by at most one. */
  lemma WelcomeLayout(width: nat, message: string)
    ensures var line := WelcomeLine(width, message);
      var pad := Padding(width, |message|);
      (forall i :: 1 <= i <= pad && i < |line| ==> line[i] == ' ') &&
      (forall i :: 0 <= i < |message| && 1 + pad + i < width ==> line[1 + pad + i] == message[i]) &&
      (|message| < width ==>
        var left := 1 + pad;
        var right := width - |line|;
        |line| == left + |message| && left <= right + 1 && right <= left + 1)
  {
    var pad := Padding(width, |message|);
    var padded := "~" + Spaces(pad) + message;
    var line := WelcomeLine(width, message);
    assert forall i :: 0 <= i < |line| ==> line[i] == padded[i];
    assert forall i :: 0 <= i < |message| ==> padded[1 + pad + i] == message[i];
  }

  lemma EightSpaces()
    ensures Spaces(8) == "        "
  {
    var spaces := Spaces(8);
    assert forall i | 0 <= i < 8 :: spaces[i] == "        "[i];
  }

  /** The banner for width 40 and version 1.0.0: eight spaces of padding. */
  lemma WelcomeAtWidthForty()
    ensures WelcomeLine(40, WelcomeMessage("1.0.0")) == "~        TyPP -- version 1.0.0"
  {
    var message := WelcomeMessage("1.0.0");
    assert |message| == 21;
    assert Padding(40, 21) == 8;
    var padded := "~" + Spaces(8) + message;
    assert WelcomeLine(40, message) == Truncate(padded, 40);
    assert |padded| == 30;
    BannerText();
  }

  lemma BannerText()
    ensures "~" + Spaces(8) + WelcomeMessage("1.0.0") == "~        TyPP -- version 1.0.0"
  {
    EightSpaces();
  }

  /** What one terminal row shows. */
  datatype RowKind = DocumentRow | Banner | Filler

  /** A row shows the document's line when there is one; otherwise the
      banner, if the document is empty and this is row height / 3; otherwise
      the ~ filler. */
  function Classify<R>(doc: Document<R>, size: Size, r: nat): RowKind {
    if doc.row(r).Some? then DocumentRow
    else if doc.isEmpty && r == size.height / 3 then Banner
    else Filler
  }

  /** The text printed on terminal row r. */
  function RowText<R>(doc: Document<R>, version: string, size: Size, r: nat): string {
    match Classify(doc, size, r)
    case DocumentRow => doc.render(doc.row(r).value, 0, size.width)
    case Banner => WelcomeLine(size.width, WelcomeMessage(version))
    case Filler => "~"
  }

  /** A row with a stored line shows that line rendered over the columns
      from 0 to the width; a row without one shows the banner or ~, and the
      banner only on row height / 3 of an empty document. */
  lemma RowTextCases<R>(doc: Document<R>, version: string, size: Size, r: nat)
    ensures doc.row(r).Some? ==> RowText(doc, version, size, r) == doc.render(doc.row(r).value, 0, size.width)
    ensures doc.row(r).None? ==>
      RowText(doc, version, size, r) == (if doc.isEmpty && r == size.height / 3
        then WelcomeLine(size.width, WelcomeMessage(version)) else "~")
  {
  }

  /** The operations that draw the first n rows: each row's line is cleared
      and then its text printed. */
  function DrawnRows<R>(doc: Document<R>, version: string, size: Size, n: nat): (ops: seq<Op>)
    ensures |ops| == 2 * n
  {
    if n == 0 then []
    else DrawnRows(doc, version, size, n - 1) + [ClearCurrentLine, PrintLine(RowText(doc, version, size, n - 1))]
  }

  /** Row r is drawn by operations 2r and 2r + 1: a clear of the line, then
      the row's text. */
  lemma {:induction false} DrawnRowsLayout<R>(doc: Document<R>, version: string, size: Size, n: nat)
    ensures var ops := DrawnRows(doc, version, size, n);
      forall i :: 0 <= i < |ops| ==>
        ops[i] == if i % 2 == 0 then ClearCurrentLine else PrintLine(RowText(doc, version, size, i / 2))
  {
    if 0 < n {
      DrawnRowsLayout(doc, version, size, n - 1);
      var front := DrawnRows(doc, version, size, n - 1);
      var ops := DrawnRows(doc, version, size, n);
      forall i | 0 <= i < |ops|
        ensures ops[i] == if i % 2 == 0 then ClearCurrentLine else PrintLine(RowText(doc, version, size, i / 2))
      {
        if i < |front| {
          assert ops[i] == front[i];
        }
      }
    }
  }

  /** One refresh: hide the cursor and go to the origin; then either clear
      the screen and say goodbye, or draw all rows but the last and put the
      cursor at its logical position; then show the cursor and flush. */
  function Refresh<R>(st: EditorState, doc: Document<R>, version: string, size: Size): (ops: seq<Op>)
    requires st.shouldQuit || 1 <= size.height
    ensures 4 <= |ops| && ops[0] == CursorHide && ops[1] == CursorPosition(Origin)
    ensures ops[|ops| - 2] == CursorShow && ops[|ops| - 1] == Flush
    ensures st.shouldQuit ==> ops == Farewell
  {
    [CursorHide, CursorPosition(Origin)]
    + (if st.shouldQuit then [ClearScreen, PrintLine("Goodbye.")]
       else DrawnRows(doc, version, size, size.height - 1) + [CursorPosition(st.cursor)])
    + [CursorShow, Flush]
  }

  /** A refresh that is not the last draws every row but the bottom one
      between its head and its tail, then puts the cursor at its logical
      position. */
  lemma RefreshLayout<R>(st: EditorState, doc: Document<R>, version: string, size: Size)
    requires !st.shouldQuit && 1 <= size.height
    ensures var ops := Refresh(st, doc, version, size);
      |ops| == 2 * size.height + 3 &&
      ops[2..|ops| - 3] == DrawnRows(doc, version, size, size.height - 1) &&
      ops[|ops| - 3] == CursorPosition(st.cursor)
  {
    var ops := Refresh(st, doc, version, size);
    var rows := DrawnRows(doc, version, size, size.height - 1);
    assert ops == [CursorHide, CursorPosition(Origin)] + rows + [CursorPosition(st.cursor), CursorShow, Flush];
    assert ops[2..|ops| - 3] == rows;
  }

  /** A non-empty document never shows the banner. */
  lemma NonEmptyNeverShowsBanner<R>(doc: Document<R>, size: Size, r: nat)
    requires !doc.isEmpty
    ensures Classify(doc, size, r) != Banner
  {
  }

  /** The banner is shown on at most one row. */
  lemma BannerAtMostOnce<R>(doc: Document<R>, size: Size, r1: nat, r2: nat)
    requires Classify(doc, size, r1) == Banner && Classify(doc, size, r2) == Banner
    ensures r1 == r2
  {
  }

  /** On an empty document with nothing stored at row height / 3, a terminal
      at least two rows high draws the banner on that row. */
  lemma EmptyDocumentShowsBanner<R>(doc: Document<R>, version: string, size: Size)
    requires doc.isEmpty && doc.row(size.height / 3).None? && 2 <= size.height
    ensures var ops := DrawnRows(doc, version, size, size.height - 1);
      2 * (size.height / 3) + 1 < |ops| &&
      ops[2 * (size.height / 3) + 1] == PrintLine(WelcomeLine(size.width, WelcomeMessage(version)))
  {
    var ops := DrawnRows(doc, version, size, size.height - 1);
    var i := 2 * (size.height / 3) + 1;
    DrawnRowsLayout(doc, version, size, size.height - 1);
    assert i < |ops|;
    assert i % 2 == 1 && i / 2 == size.height / 3;
  }

  /** Drawing rows clears lines and prints text and does nothing else. */
  lemma DrawnRowsOnlyLines<R>(doc: Document<R>, version: string, size: Size, n: nat)
    ensures var ops := DrawnRows(doc, version, size, n);
      Flush !in ops && ClearScreen !in ops && forall i :: 0 <= i < |ops| ==> !ops[i].ReadKey?
  {
    var ops := DrawnRows(doc, version, size, n);
    DrawnRowsLayout(doc, version, size, n);
    forall i | 0 <= i < |ops| ensures ops[i].ClearCurrentLine? || ops[i].PrintLine? {
    }
  }

  /** The farewell flushes once and clears the screen once. */
  lemma FarewellCounts()
    ensures Occurrences(Farewell, Flush) == 1 && Occurrences(Farewell, ClearScreen) == 1
  {
    var head := [CursorHide, CursorPosition(Origin)];
    var middle := [ClearScreen, PrintLine("Goodbye.")];
    var tail := [CursorShow, Flush];
    assert Farewell == head + middle + tail;
    forall op | op == Flush || op == ClearScreen
      ensures Occurrences(Farewell, op) == 1
    {
      OccurrencesPair(CursorHide, CursorPosition(Origin), op);
      OccurrencesPair(ClearScreen, PrintLine("Goodbye."), op);
      OccurrencesPair(CursorShow, Flush, op);
      OccurrencesConcat(head, middle, op);
      OccurrencesConcat(head + middle, tail, op);
    }
  }

  /** A frame that draws rows which neither flush nor clear the screen
      flushes once and clears the screen never. */
  lemma DrawingFrameCounts(rows: seq<Op>, cursor: Position)
    requires Flush !in rows && ClearScreen !in rows
    ensures var ops := [CursorHide, CursorPosition(Origin)] + rows + [CursorPosition(cursor), CursorShow, Flush];
      Occurrences(ops, Flush) == 1 && Occurrences(ops, ClearScreen) == 0
  {
    var head := [CursorHide, CursorPosition(Origin)];
    var tail := [CursorPosition(cursor), CursorShow, Flush];
    OccurrencesZero(rows, Flush);
    OccurrencesZero(rows, ClearScreen);
    OccurrencesZero(head, Flush);
    OccurrencesZero(head, ClearScreen);
    OccurrencesZero(tail, ClearScreen);
    assert tail == [CursorPosition(cursor)] + [CursorShow, Flush];
    OccurrencesZero([CursorPosition(cursor)], Flush);
    OccurrencesPair(CursorShow, Flush, Flush);
    OccurrencesConcat([CursorPosition(cursor)], [CursorShow, Flush], Flush);
    OccurrencesConcat(head, rows, Flush);
    OccurrencesConcat(head, rows, ClearScreen);
    OccurrencesConcat(head + rows, tail, Flush);
    OccurrencesConcat(head + rows, tail, ClearScreen);
  }

  /** Each refresh flushes exactly once, and clears the whole screen
      exactly when it paints the farewell. */
  lemma RefreshCounts<R>(st: EditorState, doc: Document<R>, version: string, size: Size)
    requires st.shouldQuit || 1 <= size.height
    ensures var ops := Refresh(st, doc, version, size);
      Occurrences(ops, Flush) == 1 &&
      Occurrences(ops, ClearScreen) == (if st.shouldQuit then 1 else 0)
  {
    if st.shouldQuit {
      FarewellCounts();
    } else {
      var rows := DrawnRows(doc, version, size, size.height - 1);
      DrawnRowsOnlyLines(doc, version, size, size.height - 1);
      assert Refresh(st, doc, version, size)
        == [CursorHide, CursorPosition(Origin)] + rows + [CursorPosition(st.cursor), CursorShow, Flush];
      DrawingFrameCounts(rows, st.cursor);
    }
  }

  /** A refresh reads no key. */
  lemma RefreshReadsNoKey<R>(st: EditorState, doc: Document<R>, version: string, size: Size)
    requires st.shouldQuit || 1 <= size.height
    ensures KeysRead(Refresh(st, doc, version, size)) == []
  {
    var ops := Refresh(st, doc, version, size);
    if !st.shouldQuit {
      var rows := DrawnRows(doc, version, size, size.height - 1);
      DrawnRowsOnlyLines(doc, version, size, size.height - 1);
      assert ops == [CursorHide, CursorPosition(Origin)] + rows + [CursorPosition(st.cursor), CursorShow, Flush];
    }
    assert forall i :: 0 <= i < |ops| ==> !ops[i].ReadKey?;
    KeysReadNone(ops);
  }
}
