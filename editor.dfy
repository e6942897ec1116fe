/** The editor object: its quit flag and cursor, which its methods update in
    place, and the main loop that drives refreshes and key handling. */
module Editor {
  import opened Keys
  import opened Navigation
  import opened Terminal
  import opened Screen
  import Session

  class Editor<R> {
    var shouldQuit: bool
    var cursorPosition: Position
    /** The document shown; it stays the same for the editor's lifetime. */
    const document: Document<R>
    /** The package version shown in the welcome banner. */
    const version: string

    function State(): EditorState
      reads this
    {
      EditorState(shouldQuit, cursorPosition)
    }

    /** A fresh editor for a document that has already been opened: not
        quitting, cursor at the origin. */
    constructor (document: Document<R>, version: string)
      ensures State() == Initial
      ensures this.document == document && this.version == version
    {
      this.document := document;
      this.version := version;
      shouldQuit := false;
      cursorPosition := Origin;
    }

    /** Moves the cursor for one movement key, against the terminal's size
        as it is now. */
    method MoveCursor(key: Key, size: Size)
      modifies this`cursorPosition
      ensures cursorPosition == Moved(old(cursorPosition), key, size)
    {
      var x, y := cursorPosition.x, cursorPosition.y;
      var height := SaturatingSub(size.height, 1);
      var width := SaturatingSub(size.width, 1);
      match key {
        case Char('k') => y := SaturatingSub(y, 1);
        case Char('j') =>
          if y < height {
            y := y + 1;
          }
        case Char('h') => x := SaturatingSub(x, 1);
        case Char('l') =>
          if x < width {
            x := x + 1;
          }
        case Char('H') => y := 0;
        case Char('L') => y := height;
        case Char('M') => y := height / 2;
        case Char('0') => x := 0;
        case Char('$') => x := width;
        case _ =>
      }
      cursorPosition := Position(x, y);
    }

    /** Handles one key that has been read: control-q raises the quit flag,
        the movement keys move the cursor, every other key is ignored. */
    method ProcessKeypress(key: Key, size: Size)
      modifies this
      ensures State() == Interpret(old(State()), key, size)
    {
      match key {
        case Ctrl('q') => shouldQuit := true;
        case Char('k') | Char('j') | Char('h') | Char('l') | Char('H')
          | Char('L') | Char('M') | Char('0') | Char('$') =>
          MoveCursor(key, size);
        case _ =>
      }
    }

    /** Repaints the screen: the farewell when quitting, otherwise the rows
        and the cursor at its logical position. */
    method RefreshScreen(size: Size) returns (ops: seq<Op>)
      requires shouldQuit || 1 <= size.height
      ensures ops == Refresh(State(), document, version, size)
    {
      ops := [CursorHide, CursorPosition(Origin)];
      if shouldQuit {
        ops := ops + [ClearScreen, PrintLine("Goodbye.")];
      } else {
        var rows := DrawRows(size);
        ops := ops + rows + [CursorPosition(cursorPosition)];
      }
      ops := ops + [CursorShow, Flush];
    }

    /** Draws every row of the terminal but the last: the document's line,
        the welcome banner or the ~ filler. */
    method DrawRows(size: Size) returns (ops: seq<Op>)
      requires 1 <= size.height
      ensures ops == DrawnRows(document, version, size, size.height - 1)
    {
      var height := size.height;
      ops := [];
      for terminalRow := 0 to height - 1
        invariant ops == DrawnRows(document, version, size, terminalRow)
      {
        ops := ops + [ClearCurrentLine];
        var line: string;
        match document.row(terminalRow) {
          case Some(row) =>
            line := document.render(row, 0, size.width);
          case None =>
            if document.isEmpty && terminalRow == height / 3 {
              line := WelcomeLine(size.width, WelcomeMessage(version));
            } else {
              line := "~";
            }
        }
        ops := ops + [PrintLine(line)];
      }
    }

    /** The main loop. keys are the keys the terminal delivers, in order;
        sizes[i] is the terminal's size during iteration i. When the keys run
        out, reading fails and the loop ends. */
    method Run(sizes: seq<Size>, keys: seq<Key>) returns (trace: seq<Op>, outcome: Session.Outcome)
      requires |sizes| == |keys| + 1 && Session.Drawable(sizes)
      modifies this
      ensures Session.Run(old(State()), document, version, sizes, keys)
        == Session.Transcript(trace, State(), outcome)
      ensures Session.Guaranteed(old(State()), sizes, keys, Session.Transcript(trace, State(), outcome))
    {
      ghost var initial := State();
      trace := [];
      var i := 0;
      Session.LoopStarts(initial, document, version, sizes, keys);
      while true
        invariant 0 <= i <= |keys|
        invariant Session.Resumes(initial, State(), document, version, sizes, keys, i, trace)
        decreases |keys| - i
      {
        ghost var st := State();
        var frame := RefreshScreen(sizes[i]);
        if shouldQuit || i == |keys| {
          // Either the farewell has been painted, or reading the next key
          // fails because the keys have run out.
          Session.LoopStops(initial, st, document, version, sizes, keys, i, trace);
          trace := trace + frame;
          outcome := if shouldQuit then Session.Quit else Session.ReadFailed;
          break;
        }
        var key := keys[i];
        Session.LoopAdvance(initial, st, document, version, sizes, keys, i, trace);
        trace := trace + (frame + [ReadKey(key)]);
        ProcessKeypress(key, sizes[i]);
        i := i + 1;
      }
      Session.RunGuarantees(initial, document, version, sizes, keys, trace, State(), outcome);
    }
  }
}
