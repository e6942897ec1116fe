/** Cursor movement: the position the editor owns, the terminal size it is
    clamped against, and the effect of one key on the editor's state. */
module Navigation {
  import opened Keys

  /** An unsigned 16-bit integer: the terminal reports its size in these. */
  type u16 = n: int | 0 <= n < 0x1_0000

  /** The terminal's size in columns and rows. */
  datatype Size = Size(width: u16, height: u16)

  /** The logical cursor: column x and row y, counted from the top left. */
  datatype Position = Position(x: nat, y: nat)

  const Origin: Position := Position(0, 0)

  /** The state the editor keeps across iterations of its loop. */
  datatype EditorState = EditorState(shouldQuit: bool, cursor: Position)

  /** The editor's state right after construction. */
  const Initial: EditorState := EditorState(false, Origin)

  /** Unsigned subtraction that stops at zero instead of wrapping. */
  function SaturatingSub(a: nat, b: nat): (r: nat)
    ensures r <= a
    ensures b <= a ==> r + b == a
    ensures a <= b ==> r == 0
  {
    if b <= a then a - b else 0
  }

  /** The last row the cursor may be moved to: the height minus one, or 0. */
  function LastRow(size: Size): nat {
    SaturatingSub(size.height, 1)
  }

  /** The last column the cursor may be moved to: the width minus one, or 0. */
  function LastColumn(size: Size): nat {
    SaturatingSub(size.width, 1)
  }

  predicate InBounds(p: Position, size: Size) {
    p.x <= LastColumn(size) && p.y <= LastRow(size)
  }

  /** Where one movement key takes the cursor, given the terminal's size at
      the moment the key is handled. Every other key leaves it where it is.
      The increment of j and l cannot reach the top of the machine word,
      because it only happens below a bound that is smaller than 2^16. */
  function Moved(p: Position, key: Key, size: Size): (q: Position)
    // Axis independence.
    ensures IsVertical(key) ==> q.x == p.x
    ensures IsHorizontal(key) ==> q.y == p.y
    ensures !IsMovement(key) ==> q == p
    // A cursor inside the bounds stays inside.
    ensures p.y <= LastRow(size) ==> q.y <= LastRow(size)
    ensures p.x <= LastColumn(size) ==> q.x <= LastColumn(size)
  {
    var height := LastRow(size);
    var width := LastColumn(size);
    match key
    case Char('k') => p.(y := SaturatingSub(p.y, 1))
    case Char('j') => if p.y < height then p.(y := p.y + 1) else p
    case Char('h') => p.(x := SaturatingSub(p.x, 1))
    case Char('l') => if p.x < width then p.(x := p.x + 1) else p
    case Char('H') => p.(y := 0)
    case Char('L') => p.(y := height)
    case Char('M') => p.(y := height / 2)
    case Char('0') => p.(x := 0)
    case Char('$') => p.(x := width)
    case _ => p
  }

  /** k and h step back by one and stop at zero; j and l step forward only
      while strictly below the last row or column. */
  lemma StepKeys(p: Position, size: Size)
    ensures var q := Moved(p, Char('k'), size); q.y <= p.y && (0 < p.y ==> q.y + 1 == p.y)
    ensures var q := Moved(p, Char('h'), size); q.x <= p.x && (0 < p.x ==> q.x + 1 == p.x)
    ensures Moved(p, Char('j'), size).y == if p.y < LastRow(size) then p.y + 1 else p.y
    ensures Moved(p, Char('l'), size).x == if p.x < LastColumn(size) then p.x + 1 else p.x
  {
  }

  /** The jumps ignore the old coordinate and always land inside the bounds:
      H on the top row, L on the last, M halfway down to the last, 0 on the
      first column and $ on the last. */
  lemma JumpKeys(p: Position, size: Size)
    ensures Moved(p, Char('H'), size).y == 0
    ensures Moved(p, Char('L'), size).y == LastRow(size)
    ensures var y := Moved(p, Char('M'), size).y; y == LastRow(size) / 2 && y <= LastRow(size)
    ensures Moved(p, Char('0'), size).x == 0
    ensures Moved(p, Char('$'), size).x == LastColumn(size)
  {
  }

  /** A jump lands on the same row (H, L, M) or the same column (0, $)
      wherever the cursor was before. */
  lemma JumpsIgnoreOldCoordinate(p: Position, p': Position, key: Key, size: Size)
    requires IsJump(key)
    ensures IsVertical(key) ==> Moved(p, key, size).y == Moved(p', key, size).y
    ensures IsHorizontal(key) ==> Moved(p, key, size).x == Moved(p', key, size).x
  {
    assert key == Char('H') || key == Char('L') || key == Char('M') || key == Char('0') || key == Char('$');
  }

  /** The effect of one key on the editor's state: control-q raises the quit
      flag, a movement key moves the cursor, anything else is ignored. */
  function Interpret(st: EditorState, key: Key, size: Size): (st': EditorState)
    ensures key == QuitKey ==> st'.shouldQuit && st'.cursor == st.cursor
    ensures IsMovement(key) ==> st' == st.(cursor := Moved(st.cursor, key, size))
    ensures key != QuitKey && !IsMovement(key) ==> st' == st
    // Only control-q raises the quit flag, and nothing lowers it again.
    ensures st'.shouldQuit <==> st.shouldQuit || key == QuitKey
  {
    if key == QuitKey then st.(shouldQuit := true)
    else if IsMovement(key) then st.(cursor := Moved(st.cursor, key, size))
    else st
  }

  /** The cursor after a whole sequence of keys on a terminal of one size. */
  function MovedAlong(p: Position, keys: seq<Key>, size: Size): Position
    decreases |keys|
  {
    if keys == [] then p else MovedAlong(Moved(p, keys[0], size), keys[1..], size)
  }

  /** The cursor after a sequence of keys, the i-th key handled while the
      terminal has size sizes[i]. */
  function MovedAlongSized(p: Position, keys: seq<Key>, sizes: seq<Size>): Position
    requires |keys| <= |sizes|
    decreases |keys|
  {
    if keys == [] then p else MovedAlongSized(Moved(p, keys[0], sizes[0]), keys[1..], sizes[1..])
  }

  /** When every size is the same, moving against the sizes one by one is
      moving against that one size. */
  lemma {:induction false} MovedAlongOneSize(p: Position, keys: seq<Key>, sizes: seq<Size>, size: Size)
    requires |keys| <= |sizes|
    requires forall i :: 0 <= i < |sizes| ==> sizes[i] == size
    ensures MovedAlongSized(p, keys, sizes) == MovedAlong(p, keys, size)
    decreases |keys|
  {
    if keys != [] {
      assert sizes[0] == size;
      assert forall i :: 0 <= i < |sizes[1..]| ==> sizes[1..][i] == sizes[i + 1];
      MovedAlongOneSize(Moved(p, keys[0], size), keys[1..], sizes[1..], size);
    }
  }

  /** However many keys are pressed, a cursor inside the bounds stays there. */
  lemma {:induction false} MovesStayInBounds(p: Position, keys: seq<Key>, size: Size)
    requires InBounds(p, size)
    ensures InBounds(MovedAlong(p, keys, size), size)
    decreases |keys|
  {
    if keys != [] {
      MovesStayInBounds(Moved(p, keys[0], size), keys[1..], size);
    }
  }

  /** A run of horizontal keys never changes the row, and a run of vertical
      keys never changes the column. */
  lemma {:induction false} AxesStayIndependent(p: Position, keys: seq<Key>, size: Size)
    ensures (forall i :: 0 <= i < |keys| ==> IsHorizontal(keys[i])) ==> MovedAlong(p, keys, size).y == p.y
    ensures (forall i :: 0 <= i < |keys| ==> IsVertical(keys[i])) ==> MovedAlong(p, keys, size).x == p.x
    decreases |keys|
  {
    if keys != [] {
      AxesStayIndependent(Moved(p, keys[0], size), keys[1..], size);
      assert forall i :: 0 <= i < |keys[1..]| ==> keys[1..][i] == keys[i + 1];
    }
  }

  /** Pressing k any number of times at the top row keeps the cursor there. */
  lemma {:induction false} UpStaysAtTop(p: Position, keys: seq<Key>, size: Size)
    requires p.y == 0
    requires forall i :: 0 <= i < |keys| ==> keys[i] == Char('k')
    ensures MovedAlong(p, keys, size) == p
    decreases |keys|
  {
    if keys != [] {
      UpStaysAtTop(Moved(p, keys[0], size), keys[1..], size);
    }
  }

  /** H followed by any number of k leaves the cursor on the top row. */
  lemma TopThenUp(p: Position, ups: seq<Key>, size: Size)
    requires forall i :: 0 <= i < |ups| ==> ups[i] == Char('k')
    ensures MovedAlong(p, [Char('H')] + ups, size).y == 0
  {
    var top := Moved(p, Char('H'), size);
    assert ([Char('H')] + ups)[1..] == ups;
    UpStaysAtTop(top, ups, size);
  }

  /** M on a terminal 20 rows high lands on row 9, and on one 21 rows high
      on row 10: the halving applies to the last row, not to the height. */
  lemma MiddleRows(p: Position)
    ensures Moved(p, Char('M'), Size(80, 20)).y == 9
    ensures Moved(p, Char('M'), Size(80, 21)).y == 10
  {
  }

  /** When the terminal shrinks, nothing pulls the cursor back: a cursor
      that is now below the last row stays there on j. */
  lemma ShrinkLeavesCursorOutside()
    ensures !InBounds(Moved(Position(0, 10), Char('j'), Size(80, 5)), Size(80, 5))
  {
  }
}
