/** Two text frames, the blinkers that alternate between them, and what the screen then shows. */
module Frames {
  import opened Machine
  import opened BlinkSpec
  import opened BlinkTiming
  import opened Blink
  import opened BlinkLaws
  import opened TextLines

  const OFFSET := 40
  const COLUMNS := 80
  const HALF: uint16 := 15

  /** The character of a text at a row and column; short lines and missing rows read as spaces. */
  function CharAt(s: seq<byte>, r: nat, c: nat): byte
    decreases |s|
  {
    if s == [] then SPACE
    else if s[0] == NEWLINE then (if r == 0 then SPACE else CharAt(s[1..], r - 1, c))
    else if r > 0 then CharAt(s[1..], r, c)
    else if c == 0 then s[0]
    else CharAt(s[1..], 0, c - 1)
  }

  predicate Filled(f0: seq<byte>, f1: seq<byte>, r: nat, c: nat) {
    CharAt(f0, r, c) != SPACE || CharAt(f1, r, c) != SPACE
  }

  function CellOf(r: nat, c: nat): nat {
    r * COLUMNS + c + OFFSET
  }

  /** The frame position has a cell of its own on the screen: it lies within 80 columns, so that no
      other row reaches the cell, and the cell is one of the 2000. */
  predicate OnGrid(r: nat, c: nat) {
    c < COLUMNS && CellOf(r, c) < POOL_SIZE
  }

  /** Every character other than a space has a cell of its own. */
  ghost predicate Fits(f0: seq<byte>, f1: seq<byte>) {
    forall r: nat, c: nat :: Filled(f0, f1, r, c) ==> OnGrid(r, c)
  }

  /** Reading order. */
  predicate Before(r: nat, c: nat, row: nat, col: nat) {
    r < row || (r == row && c < col)
  }

  // --------------------------------------------------------------- reading the two frames

  /** What add_frames knows of one file: the unread bytes, the last character, end of file. */
  datatype Reader = Reader(rest: seq<byte>, c: byte, eof: bool)

  function Next(rd: Reader): Reader {
    if rd.c == NEWLINE then rd
    else if rd.rest == [] then Reader([], NEWLINE, true)
    else Reader(rd.rest[1..], rd.rest[0], rd.eof)
  }

  /** The character a reader contributes to the current cell. */
  function Shown(rd: Reader): byte {
    if rd.c == NEWLINE then SPACE else rd.c
  }

  /** What a reader foresees `dr` rows down, at column `dc` there (counted from here if dr == 0). */
  function Foreseen(rd: Reader, dr: nat, dc: nat): byte {
    if dr == 0 then (if rd.c == NEWLINE then SPACE else CharAt(rd.rest, 0, dc))
    else if rd.eof then SPACE
    else if rd.c == NEWLINE then CharAt(rd.rest, dr - 1, dc)
    else CharAt(rd.rest, dr, dc)
  }

  /** Before column `col` of row `row` is read, the reader holds the rest of the frame. */
  ghost predicate Tracks(f: seq<byte>, rd: Reader, row: nat, col: nat) {
    && (rd.eof ==> rd.c == NEWLINE)
    && forall r: nat, c: nat :: r > row || (r == row && c >= col) ==>
         CharAt(f, r, c) == Foreseen(rd, r - row, if r == row then c - col else c)
  }

  lemma ForeseenStep(rd: Reader, dr: nat, dc: nat)
    requires rd.eof ==> rd.c == NEWLINE
    ensures dr > 0 ==> Foreseen(Next(rd), dr, dc) == Foreseen(rd, dr, dc)
    ensures Foreseen(Next(rd), 0, dc) == Foreseen(rd, 0, dc + 1)
    ensures Shown(Next(rd)) == Foreseen(rd, 0, 0)
  {
  }

  lemma ReadStep(f: seq<byte>, rd: Reader, row: nat, col: nat)
    requires Tracks(f, rd, row, col)
    ensures Shown(Next(rd)) == CharAt(f, row, col)
    ensures Tracks(f, Next(rd), row, col + 1)
  {
    hide CharAt, Foreseen, Shown;
    ForeseenStep(rd, 0, 0);
    forall r: nat, c: nat | r > row || (r == row && c >= col + 1)
      ensures CharAt(f, r, c) == Foreseen(Next(rd), r - row, if r == row then c - (col + 1) else c)
    {
      ForeseenStep(rd, r - row, if r == row then c - (col + 1) else c);
    }
  }

  /** Both lines have ended: the rest of the row is blank and the readers move to the next row. */
  lemma RowStep(f: seq<byte>, rd: Reader, row: nat, col: nat, c: byte)
    requires Tracks(f, rd, row, col) && rd.c == NEWLINE
    requires c == if rd.eof then NEWLINE else 48
    ensures Tracks(f, rd.(c := c), row + 1, 0)
    ensures forall k: nat :: k >= col ==> CharAt(f, row, k) == SPACE
  {
    var rd' := rd.(c := c);
    forall r: nat, k: nat | r > row + 1 || (r == row + 1 && k >= 0)
      ensures CharAt(f, r, k) == Foreseen(rd', r - (row + 1), if r == row + 1 then k - 0 else k)
    {
      assert CharAt(f, r, k) == Foreseen(rd, r - row, k);
    }
  }

  // -------------------------------------------------------------- the list after reading

  function RowOf(loc: nat): nat
    requires loc >= OFFSET
  {
    (loc - OFFSET) / COLUMNS
  }

  function ColOf(loc: nat): nat
    requires loc >= OFFSET
  {
    (loc - OFFSET) % COLUMNS
  }

  lemma CellDecodes(r: nat, c: nat)
    requires c < COLUMNS
    ensures RowOf(CellOf(r, c)) == r && ColOf(CellOf(r, c)) == c
  {
  }

  /** The blinker add_frames makes for a cell, as it stands when just added. */
  function FrameSlot(f0: seq<byte>, f1: seq<byte>, r: nat, c: nat): (n: Slot)
    requires OnGrid(r, c)
  {
    Slot(CellOf(r, c), CharAt(f0, r, c), CharAt(f1, r, c), HALF, HALF, HALF, 1, 0)
  }

  /** A node made for a filled cell. */
  ghost predicate InFrame(n: Slot, f0: seq<byte>, f1: seq<byte>) {
    && n.location >= OFFSET
    && var r, c := RowOf(n.location), ColOf(n.location);
       OnGrid(r, c) && Filled(f0, f1, r, c) && n == FrameSlot(f0, f1, r, c)
  }

  /** A node made for a filled cell before (row, col). */
  ghost predicate FrameNode(n: Slot, f0: seq<byte>, f1: seq<byte>, row: nat, col: nat) {
    InFrame(n, f0, f1) && Before(RowOf(n.location), ColOf(n.location), row, col)
  }

  ghost predicate Decreasing(ns: seq<Slot>) {
    forall j, k :: 0 <= j < k < |ns| ==> ns[j].location > ns[k].location
  }

  ghost predicate HasNode(ns: seq<Slot>, loc: nat) {
    exists k :: 0 <= k < |ns| && ns[k].location == loc
  }

  /** The list holds exactly the filled cells before (row, col), the last one read first. */
  ghost predicate Drawn(ns: seq<Slot>, f0: seq<byte>, f1: seq<byte>, row: nat, col: nat) {
    && (forall k :: 0 <= k < |ns| ==> FrameNode(ns[k], f0, f1, row, col))
    && Decreasing(ns)
    && (forall r: nat, c: nat :: Before(r, c, row, col) && Filled(f0, f1, r, c) ==> HasNode(ns, CellOf(r, c)))
  }

  lemma DrawnEmptyCell(ns: seq<Slot>, f0: seq<byte>, f1: seq<byte>, row: nat, col: nat)
    requires Drawn(ns, f0, f1, row, col) && !Filled(f0, f1, row, col)
    ensures Drawn(ns, f0, f1, row, col + 1)
  {
    forall k | 0 <= k < |ns|
      ensures FrameNode(ns[k], f0, f1, row, col + 1)
    {
      assert FrameNode(ns[k], f0, f1, row, col);
    }
  }

  lemma DrawnFilledCell(ns: seq<Slot>, f0: seq<byte>, f1: seq<byte>, row: nat, col: nat)
    requires Drawn(ns, f0, f1, row, col) && Filled(f0, f1, row, col) && Fits(f0, f1)
    ensures OnGrid(row, col)
    ensures Drawn([FrameSlot(f0, f1, row, col)] + ns, f0, f1, row, col + 1)
    ensures forall k :: 0 <= k < |ns| ==> ns[k].location < CellOf(row, col)
  {
    var n := FrameSlot(f0, f1, row, col);
    var ns' := [n] + ns;
    CellDecodes(row, col);
    forall k | 0 <= k < |ns|
      ensures FrameNode(ns[k], f0, f1, row, col + 1) && ns[k].location < CellOf(row, col)
    {
      assert FrameNode(ns[k], f0, f1, row, col);
    }
    assert ns'[0] == n && forall k :: 0 < k < |ns'| ==> ns'[k] == ns[k - 1];
    forall r: nat, c: nat | Before(r, c, row, col + 1) && Filled(f0, f1, r, c)
      ensures HasNode(ns', CellOf(r, c))
    {
      if Before(r, c, row, col) {
        assert HasNode(ns, CellOf(r, c));
        var k :| 0 <= k < |ns| && ns[k].location == CellOf(r, c);
        assert ns'[k + 1].location == CellOf(r, c);
      }
    }
  }

  lemma DrawnRow(ns: seq<Slot>, f0: seq<byte>, f1: seq<byte>, row: nat, col: nat)
    requires Drawn(ns, f0, f1, row, col) && forall k: nat :: k >= col ==> !Filled(f0, f1, row, k)
    ensures Drawn(ns, f0, f1, row + 1, 0)
  {
    forall k | 0 <= k < |ns|
      ensures FrameNode(ns[k], f0, f1, row + 1, 0)
    {
      assert FrameNode(ns[k], f0, f1, row, col);
    }
  }

  /** There is always room in the pool for the next cell of frames that fit. */
  lemma {:induction false} RoomInPool(ns: seq<Slot>, k: nat)
    requires Decreasing(ns) && k < |ns| && OnScreen(ns)
    ensures ns[0].location >= ns[k].location + k
    decreases k
  {
    if k > 0 {
      RoomInPool(ns, k - 1);
    }
  }

  // --------------------------------------------------------------------- what is displayed

  function Current(n: Slot): byte {
    if n.status == 1 then n.onChar else n.offChar
  }

  /** The redraw at the end of a sync shows the character the second blinker stands at if and only
      if the copied status is off or its two characters are the same. */
  lemma RedrawIsRightIff(v: seq<byte>, s: State, first: int, second: int)
    requires Valid(s) && |v| == VMEM_SIZE && FindAt(s, first) < |s.order| && FindAt(s, second) < |s.order|
    ensures var i, j, r := FindAt(s, first), FindAt(s, second), Sync(s, first, second);
            Redrawn(v, s, j)[2 * Node(r, j).location] == Current(Node(r, j)) <==>
            Node(s, i).status == 0 || Node(s, j).onChar == Node(s, j).offChar
  {
    var i, j, r := FindAt(s, first), FindAt(s, second), Sync(s, first, second);
    assert NodeOk(s, i) && NodeOk(s, j) && NodeOk(r, j);
    assert Node(r, j) == Timed(Node(s, j), Node(s, i));
  }

  /** An input at which it is wrong: a blinker with two characters, synchronised with itself right
      after it was added. */
  lemma RedrawGoesWrong(v: seq<byte>, s: State, b: Slot)
    requires Valid(s) && |v| == VMEM_SIZE && b.location != 0 && AddSucceeds(s, b) && b.onChar != b.offChar
    ensures var a := Add(s, b); var r := Sync(a, b.location, b.location);
            && FindAt(a, b.location) == 0 < |a.order| == |r.order|
            && Redrawn(v, a, 0)[2 * Node(r, 0).location] != Current(Node(r, 0))
  {
    AddThenRemove(s, b);
    RedrawIsRightIff(v, Add(s, b), b.location, b.location);
  }

  ghost predicate NoCell(ns: seq<Slot>, i: nat) {
    forall k :: 0 <= k < |ns| ==> 2 * ns[k].location != i
  }

  /** Every node's cell shows its current character; every other byte is as in `v0`. */
  ghost predicate Displays(v: seq<byte>, v0: seq<byte>, ns: seq<Slot>) {
    && |v| == |v0| == VMEM_SIZE && OnScreen(ns)
    && (forall k :: 0 <= k < |ns| ==> v[2 * ns[k].location] == Current(ns[k]))
    && (forall i: nat :: i < VMEM_SIZE && NoCell(ns, i) ==> v[i] == v0[i])
  }

  lemma AddDisplays(v: seq<byte>, v0: seq<byte>, ns: seq<Slot>, n: Slot)
    requires Displays(v, v0, ns) && 0 < n.location < POOL_SIZE && n.status == 1
    requires forall k :: 0 <= k < |ns| ==> ns[k].location < n.location
    ensures Displays(Poke(v, n.location, n.onChar), v0, [n] + ns)
  {
    var v', ns' := Poke(v, n.location, n.onChar), [n] + ns;
    assert ns'[0] == n && forall k :: 0 < k < |ns'| ==> ns'[k] == ns[k - 1];
    forall i: nat | i < VMEM_SIZE && NoCell(ns', i)
      ensures v'[i] == v0[i]
    {
      assert 2 * ns'[0].location != i;
      assert forall k :: 0 <= k < |ns| ==> ns[k] == ns'[k + 1];
      assert NoCell(ns, i);
    }
  }

  ghost function TickedNodes(ns: seq<Slot>, t: nat): (r: seq<Slot>)
    ensures |r| == |ns|
  {
    seq(|ns|, k requires 0 <= k < |ns| => Ticks(ns[k], t))
  }

  lemma {:induction false} TicksKeepPlace(n: Slot, t: nat)
    ensures var m := Ticks(n, t); m.location == n.location && m.onChar == n.onChar && m.offChar == n.offChar
    ensures n.status <= 1 ==> Ticks(n, t).status <= 1
  {
    if t > 0 {
      TicksKeepPlace(n, t - 1);
    }
  }

  lemma TickCurrent(n: Slot)
    requires n.status <= 1
    ensures Current(TickSlot(n)) == if TickChar(n) == None then Current(n) else TickChar(n).value
  {
  }

  /** While the tick's walk is at node `k`, the nodes before it show their new character. */
  ghost predicate HalfPainted(v: seq<byte>, v0: seq<byte>, ns: seq<Slot>, k: nat) {
    && |v| == |v0| == VMEM_SIZE && OnScreen(ns)
    && (forall j :: 0 <= j < |ns| ==> v[2 * ns[j].location] == Current(if j < k then TickSlot(ns[j]) else ns[j]))
    && (forall i: nat :: i < VMEM_SIZE && NoCell(ns, i) ==> v[i] == v0[i])
  }

  lemma {:induction false} PaintedDisplays(v: seq<byte>, v0: seq<byte>, ns: seq<Slot>, k: nat)
    requires HalfPainted(v, v0, ns, k) && k <= |ns| && Decreasing(ns)
    requires forall j :: 0 <= j < |ns| ==> ns[j].status <= 1
    ensures HalfPainted(Painted(v, ns, k), v0, ns, |ns|)
    decreases |ns| - k
  {
    if k < |ns| {
      var n := ns[k];
      var v' := PaintOne(v, n);
      TickCurrent(n);
      forall i: nat | i < VMEM_SIZE && NoCell(ns, i)
        ensures v'[i] == v0[i]
      {
        assert 2 * ns[k].location != i;
      }
      assert HalfPainted(v', v0, ns, k + 1);
      PaintedDisplays(v', v0, ns, k + 1);
    }
  }

  lemma TickDisplays(v: seq<byte>, v0: seq<byte>, ns: seq<Slot>)
    requires Displays(v, v0, ns) && Decreasing(ns) && forall j :: 0 <= j < |ns| ==> ns[j].status <= 1
    ensures Displays(Painted(v, ns, 0), v0, ListStep(ns, TickAll))
  {
    PaintedDisplays(v, v0, ns, 0);
    var ns' := ListStep(ns, TickAll);
    forall i: nat | i < VMEM_SIZE && NoCell(ns', i)
      ensures NoCell(ns, i)
    {
      forall k | 0 <= k < |ns|
        ensures 2 * ns[k].location != i
      {
        assert 2 * ns'[k].location != i;
      }
    }
  }

  // ---------------------------------------------------------------- the whole animation

  /** Byte `i` of video memory `t` ticks after both frames were added. */
  ghost function Expected(v0: seq<byte>, f0: seq<byte>, f1: seq<byte>, t: nat, i: nat): byte
    requires i < |v0|
  {
    if i % 2 == 0 && i / 2 >= OFFSET && Filled(f0, f1, RowOf(i / 2), ColOf(i / 2)) then
      CharAt(if t % 30 < 15 then f0 else f1, RowOf(i / 2), ColOf(i / 2))
    else v0[i]
  }

  /** All cells of both frames have their blinker. */
  ghost predicate AllDrawn(ns: seq<Slot>, f0: seq<byte>, f1: seq<byte>) {
    && (forall k :: 0 <= k < |ns| ==> InFrame(ns[k], f0, f1))
    && Decreasing(ns)
    && (forall r: nat, c: nat :: Filled(f0, f1, r, c) ==> HasNode(ns, CellOf(r, c)))
  }

  lemma DrawnAll(ns: seq<Slot>, f0: seq<byte>, f1: seq<byte>, row: nat)
    requires Drawn(ns, f0, f1, row, 0)
    requires forall r: nat, c: nat :: r >= row ==> !Filled(f0, f1, r, c)
    ensures AllDrawn(ns, f0, f1)
  {
    forall k | 0 <= k < |ns|
      ensures InFrame(ns[k], f0, f1)
    {
      assert FrameNode(ns[k], f0, f1, row, 0);
    }
  }

  /** A frame blinker shows frame 0 for the first half of every 30 ticks, then frame 1. */
  lemma FrameSlotCurrent(f0: seq<byte>, f1: seq<byte>, r: nat, c: nat, t: nat)
    requires OnGrid(r, c)
    ensures var n := Ticks(FrameSlot(f0, f1, r, c), t);
            n.location == CellOf(r, c) && Current(n) == CharAt(if t % 30 < 15 then f0 else f1, r, c)
  {
    var b := FrameSlot(f0, f1, r, c);
    assert b == Started(b, 0);
    OnByPhase(b, t);
    TicksKeepPlace(b, t);
  }

  /** Frames fully drawn and ticked `t` times: video memory is known byte by byte. */
  lemma AnimationIsExpected(v: seq<byte>, v0: seq<byte>, ns: seq<Slot>, f0: seq<byte>, f1: seq<byte>, t: nat, i: nat)
    requires AllDrawn(ns, f0, f1) && Displays(v, v0, TickedNodes(ns, t)) && i < VMEM_SIZE
    ensures v[i] == Expected(v0, f0, f1, t, i)
  {
    var ticked := TickedNodes(ns, t);
    forall k | 0 <= k < |ns|
      ensures ticked[k].location == ns[k].location
    {
      TicksKeepPlace(ns[k], t);
    }
    if k :| 0 <= k < |ns| && 2 * ns[k].location == i {
      assert InFrame(ns[k], f0, f1);
      FrameSlotCurrent(f0, f1, RowOf(i / 2), ColOf(i / 2), t);
      assert v[2 * ticked[k].location] == Current(ticked[k]);
    } else {
      assert NoCell(ticked, i);
      if i % 2 == 0 && i / 2 >= OFFSET {
        var r, c := RowOf(i / 2), ColOf(i / 2);
        assert CellOf(r, c) == i / 2;
        assert !HasNode(ns, i / 2);
      }
    }
  }

  /** In numbers: the character at row r and column c of a frame is byte 2 * (80 * r + c + 40) of
      video memory, frame 0 for 15 ticks of every 30, and the attribute byte behind it stays. */
  lemma WhereCharactersAppear(v0: seq<byte>, f0: seq<byte>, f1: seq<byte>, t: nat, r: nat, c: nat)
    requires |v0| == 4096 && c < 80 && 80 * r + c + 40 < 2000
    ensures var i := 2 * (80 * r + c + 40);
            && Expected(v0, f0, f1, t, i)
               == (if Filled(f0, f1, r, c) then CharAt(if t % 30 < 15 then f0 else f1, r, c) else v0[i])
            && Expected(v0, f0, f1, t, i + 1) == v0[i + 1]
  {
    Division(r, c, 80);
  }

  /** A frame's character at a row and column is that character of that line, a space where the
      line is shorter or the frame has no such line. */
  lemma {:induction false} CharAtIsLine(s: seq<byte>, r: nat, c: nat)
    ensures CharAt(s, r, c) == if r < |Lines(s)| && c < |Lines(s)[r]| then Lines(s)[r][c] else SPACE
    decreases |s|, r
  {
    if s == [] {
      NoLines();
    } else {
      LinesStep(s);
      FirstLineAt(s, c);
      if r > 0 {
        BelowFirstLine(s, r, c);
        CharAtIsLine(AfterLine(s), r - 1, c);
      }
      hide Lines, LineEnd, AfterLine, CharAt;
      assert r > 0 && r < |Lines(s)| ==> Lines(s)[r] == Lines(s)[1..][r - 1];
    }
  }

  lemma NoLines()
    ensures Lines([]) == [] && forall r: nat, c: nat :: CharAt([], r, c) == SPACE
  {
  }

  lemma FirstLineAt(s: seq<byte>, c: nat)
    ensures CharAt(s, 0, c) == if c < LineEnd(s) then s[..LineEnd(s)][c] else SPACE
  {
    InFirstLine(s, 0, c);
    assert s[0..] == s;
  }

  lemma {:induction false} InFirstLine(s: seq<byte>, k: nat, c: nat)
    requires k <= LineEnd(s)
    ensures CharAt(s[k..], 0, c) == if k + c < LineEnd(s) then s[k + c] else SPACE
    decreases c
  {
    if k < LineEnd(s) {
      assert s[k] == s[..LineEnd(s)][k] && s[k..][0] == s[k] && s[k..][1..] == s[k + 1..];
      if c > 0 {
        InFirstLine(s, k + 1, c - 1);
      }
    } else if k < |s| {
      assert s[k..][0] == NEWLINE;
    }
  }

  lemma {:induction false} BelowFirstLine(s: seq<byte>, r: nat, c: nat)
    requires r > 0
    ensures CharAt(s, r, c) == CharAt(AfterLine(s), r - 1, c)
    decreases |s|
  {
    if s != [] && s[0] != NEWLINE {
      BelowFirstLine(s[1..], r, c);
      assert LineEnd(s) == LineEnd(s[1..]) + 1;
      assert AfterLine(s) == AfterLine(s[1..]);
    } else if s != [] {
      assert LineEnd(s) == 0;
    }
  }
}
