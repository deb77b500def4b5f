/** Video memory and the terminal structures, updated in place (lib.c, terminal.c). */
module Console {
  import opened Machine
  import opened Screen
  import K = KeySpec
  import T = Terminals

  // The fields of a terminal structure: its saved cursor, and its key buffer.
  datatype Cursor = Cursor(x: int, y: int)
  datatype Keys = Keys(buf: seq<byte>, idx: int, enterFlag: int)

  class Console {
    // 0xB8000 to 0xBBFFF: the visible page, then the saved page of each terminal
    const vram: array<Cell>
    const cursor: array<Cursor>
    const keys: array<Keys>
    var screenX: int
    var screenY: int
    var curTerm: nat
    var background: int

    ghost function Page(k: nat): (p: seq<Cell>)
      requires k < 4 && vram.Length == 4 * PAGE
      reads vram
      ensures |p| == PAGE
    {
      vram[k * PAGE..(k + 1) * PAGE]
    }

    ghost predicate Shape() {
      vram.Length == 4 * PAGE && cursor.Length == T.TERM_NUM && keys.Length == T.TERM_NUM
    }

    ghost function Visible(): Screen
      requires Shape()
      reads this, vram
    {
      Screen(Page(0), screenX, screenY)
    }

    ghost function Saved(i: nat): Screen
      requires Shape() && i < T.TERM_NUM
      reads vram, cursor
    {
      Screen(Page(i + 1), cursor[i].x, cursor[i].y)
    }

    ghost function Terminals(): T.Terminals
      requires Shape()
      reads this, vram, cursor
    {
      T.Terminals(curTerm, Visible(), [Saved(0), Saved(1), Saved(2)])
    }

    ghost predicate Valid()
      reads this, vram, cursor
    {
      Shape() && T.Valid(Terminals())
    }

    /** The terminals after a run of events. */
    ghost function After(es: seq<T.Event>): (r: T.Terminals)
      requires Valid() && forall e <- es :: T.Proper(e)
      reads this, vram, cursor
    {
      T.Run(Terminals(), es)
    }

    /** Only the visible screen has changed. */
    twostate lemma VisibleChanged(op: T.Op)
      requires old(Valid()) && curTerm == old(curTerm)
      requires Visible() == T.Apply(old(Visible()), op)
      requires (forall i :: 1 <= i < 4 ==> Page(i) == old(Page(i))) && unchanged(cursor)
      ensures Valid() && Terminals() == T.Step(old(Terminals()), T.Visible(op))
    {
      assert forall i :: 0 <= i < T.TERM_NUM ==> Saved(i) == old(Saved(i)) == old(Terminals()).saved[i];
    }

    /** Writes to one page leave the other pages as they were. */
    twostate lemma OtherPages(page: nat)
      requires vram.Length == 4 * PAGE && page < 4
      requires forall k :: 0 <= k < page * PAGE || (page + 1) * PAGE <= k < vram.Length ==> vram[k] == old(vram[k])
      ensures forall i :: 0 <= i < 4 && i != page ==> Page(i) == old(Page(i))
    {
    }

    /** The scrolling loops, in place on page `dst`, with rows from page `src`
        (scroll_up with dst == src, scroll_up_switch otherwise). */
    method ScrollPage(dst: nat, src: nat)
      requires vram.Length == 4 * PAGE && dst < 4 && src < 4
      modifies vram
      ensures Page(dst) == ScrollFrom(old(Page(dst)), old(Page(src)))
      ensures forall i :: 0 <= i < 4 && i != dst ==> Page(i) == old(Page(i))
    {
      ghost var was, from := Page(dst), Page(src);
      ghost var d := dst * PAGE;
      MoveRowsUp(dst * PAGE, src * PAGE);
      BlankLastRow(dst * PAGE);
      OtherPages(dst);
      forall i | 0 <= i < PAGE
        ensures Page(dst)[i] == ScrollFrom(was, from)[i]
      {
        assert Page(dst)[i] == vram[d + i] && was[i] == old(vram[d + i]);
        assert i < CELLS - COLS ==> from[i + COLS] == old(vram[src * PAGE + i + COLS]) == vram[d + i];
      }
    }

    method MoveRowsUp(d: nat, s: nat)
      requires d + PAGE <= vram.Length && s + PAGE <= vram.Length && (s == d || s + PAGE <= d || d + PAGE <= s)
      modifies vram
      ensures forall k :: d <= k < d + (CELLS - COLS) ==> vram[k] == old(vram[k - d + s + COLS])
      ensures forall k :: 0 <= k < d || d + (CELLS - COLS) <= k < vram.Length ==> vram[k] == old(vram[k])
    {
      for i := 0 to CELLS - COLS
        invariant forall k :: d <= k < d + i ==> vram[k] == old(vram[k - d + s + COLS])
        invariant forall k :: 0 <= k < d || d + i <= k < vram.Length ==> vram[k] == old(vram[k])
      {
        vram[d + i] := vram[s + i + COLS];
      }
    }

    method BlankLastRow(d: nat)
      requires d + PAGE <= vram.Length
      modifies vram
      ensures forall k :: 0 <= k < vram.Length ==>
                vram[k] == if d + (CELLS - COLS) <= k < d + CELLS then BLANK else old(vram[k])
    {
      for i := CELLS - COLS to CELLS
        invariant forall k :: 0 <= k < vram.Length ==>
                    vram[k] == if d + (CELLS - COLS) <= k < d + i then BLANK else old(vram[k])
      {
        vram[d + i] := BLANK;
      }
    }

    method WriteCell(page: nat, offset: nat, cell: Cell)
      requires vram.Length == 4 * PAGE && page < 4 && offset < CELLS
      modifies vram
      ensures Page(page) == old(Page(page))[offset := cell]
      ensures forall i :: 0 <= i < 4 && i != page ==> Page(i) == old(Page(i))
    {
      vram[page * PAGE + offset] := cell;
      OtherPages(page);
    }

    method UpdateCursor(x: int, y: int)
      modifies `screenX, `screenY
      ensures screenX == x && screenY == y
    {
      screenX, screenY := x, y;
    }

    /** Output on the visible screen (putc_switch). */
    method PutcSwitch(c: byte)
      requires Valid()
      modifies vram, `screenX, `screenY
      ensures Valid() && Terminals() == T.Step(old(Terminals()), T.Visible(T.PutChar(c)))
    {
      hide ScrollFrom, Page;
      if screenX == COLS && screenY < ROWS - 1 {
        screenX := 0;
        screenY := screenY + 1;
      }
      if c == NEWLINE || c == RETURN {
        if screenY == ROWS - 1 {
          screenX := 0;
          screenY := ROWS - 1;
          ScrollPage(0, 0);
        } else {
          screenY := screenY + 1;
          screenX := 0;
        }
      } else {
        WriteCell(0, COLS * screenY + screenX, Cell(c, ATTRIB));
        screenX := screenX + 1;
        if screenX == COLS && screenY == ROWS - 1 {
          ScrollPage(0, 0);
          screenX := 0;
          screenY := ROWS - 1;
        }
      }
      UpdateCursor(screenX, screenY);
      VisibleChanged(T.PutChar(c));
    }

    /** Erase the character before the cursor (backspace). */
    method Backspace()
      requires Valid()
      modifies vram, `screenX, `screenY
      ensures Valid() && Terminals() == T.Step(old(Terminals()), T.Visible(T.Backspace))
    {
      if screenX == 0 && screenY == 0 {
        return;
      } else if screenX == 0 && screenY > 0 {
        screenX := COLS - 2;
        screenY := screenY - 1;
      } else if screenX > 0 {
        screenX := screenX - 1;
      }
      WriteCell(0, COLS * screenY + screenX, BLANK);
      UpdateCursor(screenX, screenY);
      VisibleChanged(T.Backspace);
    }

    /** Blank the visible screen (clear). */
    method Clear()
      requires Valid()
      modifies vram, `screenX, `screenY
      ensures Valid() && Terminals() == T.Step(old(Terminals()), T.Visible(T.Clear))
    {
      for i := 0 to ROWS * COLS
        invariant forall k :: 0 <= k < i ==> vram[k] == BLANK
        invariant forall k :: i <= k < vram.Length ==> vram[k] == old(vram[k])
      {
        vram[i] := BLANK;
      }
      screenX := 0;
      screenY := 0;
      UpdateCursor(0, 0);
      assert Page(0) == Cleared(old(Visible())).cells;
      OtherPages(0);
      VisibleChanged(T.Clear);
    }

    /** The cursor movement of the Enter key (enter). */
    method Enter()
      requires Valid()
      modifies `screenX, `screenY
      ensures Valid() && Terminals() == T.Step(old(Terminals()), T.Visible(T.Enter))
    {
      if screenY == ROWS - 1 {
        screenX := 0;
        screenY := ROWS - 1;
        UpdateCursor(0, screenY);
      } else {
        UpdateCursor(0, screenY + 1);
      }
    }

    /** Output of the running program: on the visible screen, or into its terminal's saved page
        (putc, scroll_up_switch). */
    method Putc(c: byte)
      requires Valid() && 0 <= background < T.TERM_NUM
      modifies vram, cursor, `screenX, `screenY
      ensures Valid() && Terminals() == T.Step(old(Terminals()), T.Output(background, c))
    {
      if curTerm == background {
        PutcSwitch(c);
        return;
      }
      assert Ok(Terminals().saved[background]) && |Terminals().saved[curTerm].cells| == PAGE;
      PutcBackground(background, c);
      assert Terminals().saved == old(Terminals()).saved[background := Saved(background)];
    }

    method PutcBackground(b: nat, c: byte)
      requires Shape() && curTerm < T.TERM_NUM && b < T.TERM_NUM && b != curTerm && Ok(Saved(b))
      modifies vram, cursor
      ensures Saved(b) == PutVia(old(Saved(b)), c, Some(old(Page(curTerm + 1))))
      ensures Page(0) == old(Page(0)) && forall i :: 0 <= i < T.TERM_NUM && i != b ==> Saved(i) == old(Saved(i))
    {
      hide ScrollFrom, Page;
      ghost var s := Saved(b);
      var x, y := cursor[b].x, cursor[b].y;
      if x == COLS && y < ROWS - 1 {
        x := 0;
        y := y + 1;
      }
      if c == NEWLINE || c == RETURN {
        if y == ROWS - 1 {
          x := 0;
          y := ROWS - 1;
          ScrollPage(b + 1, curTerm + 1);
        } else {
          y := y + 1;
          x := 0;
        }
      } else {
        WriteCell(b + 1, COLS * y + x, Cell(c, ATTRIB));
        assert Page(b + 1) == Typed(s, c);
        x := x + 1;
        if x == COLS && y == ROWS - 1 {
          ScrollPage(b + 1, curTerm + 1);
          x := 0;
          y := ROWS - 1;
        }
      }
      assert Screen(Page(b + 1), x, y) == PutVia(s, c, Some(old(Page(curTerm + 1))));
      cursor[b] := Cursor(x, y);
    }

    method CopyPage(dst: nat, src: nat)
      requires vram.Length == 4 * PAGE && dst < 4 && src < 4 && dst != src
      modifies vram
      ensures Page(dst) == old(Page(src)) && forall i :: 0 <= i < 4 && i != dst ==> Page(i) == old(Page(i))
    {
      for i := 0 to PAGE
        invariant forall k :: dst * PAGE <= k < dst * PAGE + i ==> vram[k] == old(vram[k - dst * PAGE + src * PAGE])
        invariant forall k :: 0 <= k < dst * PAGE || dst * PAGE + i <= k < vram.Length ==> vram[k] == old(vram[k])
      {
        vram[dst * PAGE + i] := vram[src * PAGE + i];
      }
      OtherPages(dst);
    }

    /** Remember the visible screen and its cursor (terminal_save). */
    method TerminalSave(i: nat)
      requires Shape() && i < T.TERM_NUM
      modifies vram, cursor, `curTerm
      ensures curTerm == i && Visible() == Saved(i) == old(Visible())
      ensures forall j :: 0 <= j < T.TERM_NUM && j != i ==> Saved(j) == old(Saved(j))
    {
      curTerm := i;
      cursor[i] := Cursor(screenX, screenY);
      CopyPage(i + 1, 0);
    }

    /** Show a remembered screen (terminal_load). */
    method TerminalLoad(i: nat)
      requires Shape() && i < T.TERM_NUM
      modifies vram, `screenX, `screenY, `curTerm
      ensures curTerm == i && Visible() == Saved(i)
      ensures forall j :: 0 <= j < T.TERM_NUM ==> Saved(j) == old(Saved(j))
    {
      curTerm := i;
      UpdateCursor(cursor[i].x, cursor[i].y);
      CopyPage(0, i + 1);
    }

    /** Make terminal `next` the visible one (terminal_switch); callers pass the visible one as `prev`. */
    method TerminalSwitch(prev: nat, next: nat)
      requires Valid() && prev == curTerm && next < T.TERM_NUM
      modifies vram, cursor, `screenX, `screenY, `curTerm
      ensures Valid() && Terminals() == T.Step(old(Terminals()), T.Switch(next))
    {
      ghost var m := Terminals();
      TerminalSave(prev);
      assert Terminals().saved == m.saved[prev := m.shown];
      assert Ok(Terminals().saved[next]) by { assert Ok(m.saved[next]); }
      TerminalLoad(next);
      assert Terminals().saved == m.saved[prev := m.shown];
    }

    /** Write a buffer character by character (terminal_write). */
    method TerminalWrite(text: seq<byte>) returns (n: nat)
      requires Valid() && 0 <= background < T.TERM_NUM
      modifies vram, cursor, `screenX, `screenY
      ensures n == |text|
      ensures Valid() && Terminals() == T.Run(old(Terminals()), Outputs(background, text))
    {
      for i := 0 to |text|
        invariant Valid()
        invariant T.Run(Terminals(), Outputs(background, text[i..])) ==
                  T.Run(old(Terminals()), Outputs(background, text))
      {
        assert Outputs(background, text[i..])[1..] == Outputs(background, text[i + 1..]);
        Putc(text[i]);
      }
      n := |text|;
    }

    /** The terminal structures at start (terminal_start); video memory holds whatever it held. */
    constructor ()
      ensures Valid() && curTerm == 0 && fresh(vram) && fresh(cursor) && fresh(keys)
      ensures forall i :: 0 <= i < T.TERM_NUM ==>
                cursor[i] == Cursor(0, 0) && keys[i] == Keys(seq(K.BUF_SIZE, _ => NUL), 0, 0)
    {
      vram := new Cell[4 * PAGE];
      cursor := new Cursor[T.TERM_NUM](_ => Cursor(0, 0));
      keys := new Keys[T.TERM_NUM](_ => Keys(seq(K.BUF_SIZE, _ => NUL), 0, 0));
      screenX, screenY, curTerm, background := 0, 0, 0, -1;
    }
  }

  function Outputs(t: nat, text: seq<byte>): (es: seq<T.Event>)
    requires t < T.TERM_NUM
    ensures forall e <- es :: T.Proper(e)
  {
    seq(|text|, i requires 0 <= i < |text| => T.Output(t, text[i]))
  }
}
