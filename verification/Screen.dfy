/** One 80 by 25 text screen as a value: cells, cursor, and the operations of lib.c on them. */
module Screen {
  import opened Machine

  const COLS := 80
  const ROWS := 25
  const CELLS := 2000      // ROWS * COLS
  const PAGE := 2048       // a 4 KB video page holds two bytes per cell
  const ATTRIB: byte := 7

  datatype Cell = Cell(ch: byte, attr: byte)

  const BLANK := Cell(SPACE, ATTRIB)

  datatype Screen = Screen(cells: seq<Cell>, x: int, y: int)

  /** The cursor may wait behind the last column, but not on the last row. */
  ghost predicate Ok(s: Screen) {
    && |s.cells| == PAGE
    && 0 <= s.x <= COLS && 0 <= s.y < ROWS
    && (s.x == COLS ==> s.y < ROWS - 1)
  }

  predicate IsNewline(c: byte) {
    c == NEWLINE || c == RETURN
  }

  /** One row up, the last row blank, the bytes behind the screen untouched; rows come from `src`. */
  ghost function ScrollFrom(dst: seq<Cell>, src: seq<Cell>): (r: seq<Cell>)
    requires |dst| == |src| == PAGE
    ensures |r| == PAGE
  {
    seq(PAGE, i requires 0 <= i < PAGE =>
      if i < CELLS - COLS then src[i + COLS] else if i < CELLS then BLANK else dst[i])
  }

  /** The postponed line wrap. */
  ghost function Wrap(s: Screen): Screen {
    if s.x == COLS && s.y < ROWS - 1 then Screen(s.cells, 0, s.y + 1) else s
  }

  /** The character written at the cursor. */
  ghost function Typed(s: Screen, c: byte): seq<Cell>
    requires Ok(s)
  {
    var w := Wrap(s);
    if IsNewline(c) then w.cells else w.cells[COLS * w.y + w.x := Cell(c, ATTRIB)]
  }

  /** The output of this character scrolls the screen. */
  ghost predicate Scrolls(s: Screen, c: byte) {
    var w := Wrap(s);
    w.y == ROWS - 1 && (IsNewline(c) || w.x == COLS - 1)
  }

  /** Output of one character, scrolling in the rows of `src(typed)`. */
  ghost function PutVia(s: Screen, c: byte, src: Option<seq<Cell>>): (r: Screen)
    requires Ok(s) && (src.Some? ==> |src.value| == PAGE)
    ensures Ok(r)
  {
    var w := Wrap(s);
    var cells := Typed(s, c);
    if Scrolls(s, c) then
      Screen(ScrollFrom(cells, if src == None then cells else src.value), 0, ROWS - 1)
    else if IsNewline(c) then Screen(cells, 0, w.y + 1)
    else Screen(cells, w.x + 1, w.y)
  }

  ghost function Put(s: Screen, c: byte): (r: Screen)
    requires Ok(s)
    ensures Ok(r)
  {
    PutVia(s, c, None)
  }

  /** Backspace: from column 0 it goes to column 78 of the row above. */
  ghost function Back(s: Screen): (r: Screen)
    requires Ok(s)
    ensures Ok(r)
  {
    if s.x == 0 && s.y == 0 then s else
    var x := if s.x == 0 then COLS - 2 else s.x - 1;
    var y := if s.x == 0 then s.y - 1 else s.y;
    Screen(s.cells[COLS * y + x := BLANK], x, y)
  }

  ghost function Cleared(s: Screen): (r: Screen)
    requires Ok(s)
    ensures Ok(r)
  {
    Screen(seq(PAGE, i requires 0 <= i < PAGE => if i < CELLS then BLANK else s.cells[i]), 0, 0)
  }

  /** The cursor movement of the Enter key; the last row does not scroll. */
  ghost function Entered(s: Screen): (r: Screen)
    requires Ok(s)
    ensures Ok(r)
  {
    Screen(s.cells, 0, if s.y == ROWS - 1 then s.y else s.y + 1)
  }

  ghost function PutAll(s: Screen, text: seq<byte>): (r: Screen)
    requires Ok(s)
    ensures Ok(r)
    decreases |text|
  {
    if text == [] then s else PutAll(Put(s, text[0]), text[1..])
  }

  /** A scroll that takes its rows from another buffer does the right thing exactly when it
      does not happen or that buffer holds the same rows. */
  lemma ForeignScroll(s: Screen, c: byte, other: seq<Cell>)
    requires Ok(s) && |other| == PAGE
    ensures PutVia(s, c, Some(other)) == Put(s, c) <==>
            (!Scrolls(s, c) || other[COLS..CELLS] == Typed(s, c)[COLS..CELLS])
  {
    if Scrolls(s, c) {
      var own := Typed(s, c);
      var a, b := ScrollFrom(own, other), ScrollFrom(own, own);
      assert forall i :: 0 <= i < CELLS - COLS ==> a[i] == other[COLS..CELLS][i] && b[i] == own[COLS..CELLS][i];
      if other[COLS..CELLS] == own[COLS..CELLS] {
        assert a == b;
      }
    }
  }

  ghost predicate AllBlank(cells: seq<Cell>)
    requires |cells| == PAGE
  {
    forall i :: 0 <= i < CELLS ==> cells[i] == BLANK
  }

  /** A scroll changes nothing exactly on a blank screen. */
  lemma ScrollKeepsIff(cells: seq<Cell>)
    requires |cells| == PAGE
    ensures ScrollFrom(cells, cells) == cells <==> AllBlank(cells)
  {
    if ScrollFrom(cells, cells) == cells {
      var i := CELLS;
      while i > 0
        invariant 0 <= i <= CELLS && forall k :: i <= k < CELLS ==> cells[k] == BLANK
      {
        i := i - 1;
        assert cells[i] == ScrollFrom(cells, cells)[i];
      }
    }
  }

  /** The Enter key, whose newline is printed after the cursor has moved, does what the newline
      alone does if and only if the row is full or the last one, or the cursor stands in the row
      before the last of a blank screen. */
  lemma EnterIsNewlineIff(s: Screen)
    requires Ok(s)
    ensures Put(Entered(s), NEWLINE) == Put(s, NEWLINE) <==>
            s.x == COLS || s.y == ROWS - 1 || (s.y == ROWS - 2 && AllBlank(s.cells))
  {
    ScrollKeepsIff(s.cells);
    hide AllBlank;
  }

  /** It is not on a cleared screen: the cursor moves down twice. */
  lemma EnterMovesTwice(s: Screen)
    requires Ok(s)
    ensures Put(Entered(Cleared(s)), NEWLINE).y == 2 && Put(Cleared(s), NEWLINE).y == 1
  {
  }

  /** A character is written at 80 * y + x with attribute 7, and a blank is a space with it. */
  lemma CellWritten(s: Screen, c: byte)
    requires Ok(s) && c != 10 && c != 13 && s.x < 80 && (s.y < 24 || s.x < 79)
    ensures Put(s, c) == Screen(s.cells[80 * s.y + s.x := Cell(c, 7)], s.x + 1, s.y)
    ensures forall i :: 0 <= i < 2000 ==> Cleared(s).cells[i] == Cell(32, 7)
    ensures forall i :: 2000 <= i < 2048 ==> Cleared(s).cells[i] == s.cells[i]
  {
  }

  /** Backspace on a cleared screen changes nothing, however many characters are pending. */
  lemma BackAfterClear(s: Screen)
    requires Ok(s)
    ensures Back(Cleared(s)) == Cleared(s)
    ensures s.x == 0 && s.y == 0 ==> Back(s) == s
  {
  }
}
