/** The animation program: read two frames, add their blinkers, and tick (fish.c). */
module Fish {
  import opened Machine
  import opened CString
  import opened FileSystem
  import opened Descriptors
  import opened BlinkSpec
  import opened BlinkLaws
  import opened Blink
  import opened Frames

  /** The descriptor still delivers what the reader has not read. */
  ghost predicate Feeds(img: Image, d: Descriptor, rd: Reader) {
    && d.ops == FileOps && (rd.eof ==> rd.c == NEWLINE)
    && (!rd.eof ==> OpenFile(img, d) && Unread(img, d) == rd.rest)
  }

  /** Read one character of a frame unless its line has ended. */
  method ReadNext(img: Image, pcb: Pcb, fd: nat, c: array<byte>, eof: int, ghost rd: Reader) returns (eof': int)
    requires pcb.Valid() && fd < TABLE_SIZE && img.Valid() && c.Length == 1
    requires Feeds(img, pcb.fdt[fd], rd) && c[0] == rd.c && eof == (if rd.eof then 1 else 0)
    modifies c, pcb.fdt
    ensures Feeds(img, pcb.fdt[fd], Next(rd)) && c[0] == Next(rd).c && eof' == (if Next(rd).eof then 1 else 0)
    ensures pcb.fdt[..] == old(pcb.fdt[..])[fd := pcb.fdt[fd]]
  {
    hide Image.Content, Image.Valid;
    eof' := eof;
    if c[0] != NEWLINE {
      ghost var d := pcb.fdt[fd];
      ReadAdvances(img, d, 1);
      ghost var s := NextBytes(img, d, 1);
      var numBytes := pcb.Read(img, fd, c, 0, 1);
      if numBytes == 0 {
        c[0] := NEWLINE;
        eof' := 1;
      } else {
        assert c[0] == s[0];
      }
    }
  }

  /** What the display and the list look like when every cell before (row, col) has been read. */
  ghost predicate DrawnTo(b: Blink, v0: seq<byte>, f0: seq<byte>, f1: seq<byte>, row: nat, col: nat)
    reads b, b.pool, b.vmem
  {
    b.Ok() && Drawn(Nodes(b.Value()), f0, f1, row, col) && Displays(b.vmem[..], v0, Nodes(b.Value()))
  }

  /** The body of the column loop: add a blinker for the cell unless both characters are blank. */
  method AddCell(b: Blink, row: nat, col: nat, c0: byte, c1: byte, scratch: Slot,
                 ghost v0: seq<byte>, ghost f0: seq<byte>, ghost f1: seq<byte>)
    requires DrawnTo(b, v0, f0, f1, row, col) && Fits(f0, f1)
    requires (if c0 == NEWLINE then SPACE else c0) == CharAt(f0, row, col)
    requires (if c1 == NEWLINE then SPACE else c1) == CharAt(f1, row, col)
    modifies b, b.pool, b.vmem
    ensures DrawnTo(b, v0, f0, f1, row, col + 1)
  {
    ghost var s := b.Value();
    if (c0 != SPACE && c0 != NEWLINE) || (c1 != SPACE && c1 != NEWLINE) {
      DrawnFilledCell(Nodes(s), f0, f1, row, col);
      var blinkStruct := scratch.(onLength := 15, offLength := 15);
      blinkStruct := blinkStruct.(onChar := if c0 == NEWLINE then SPACE else c0);
      blinkStruct := blinkStruct.(offChar := if c1 == NEWLINE then SPACE else c1);
      blinkStruct := blinkStruct.(location := row * 80 + col + OFFSET);
      if Nodes(s) != [] {
        RoomInPool(Nodes(s), |Nodes(s)| - 1);
      }
      PoolFullIffListLong(s);
      AddRefines(s, blinkStruct);
      AddDisplays(b.vmem[..], v0, Nodes(s), FrameSlot(f0, f1, row, col));
      var r := b.IoctlAdd(blinkStruct);
      assert Started(blinkStruct, 0) == FrameSlot(f0, f1, row, col);
    } else {
      DrawnEmptyCell(Nodes(s), f0, f1, row, col);
    }
  }

  lemma SkipCell(b: Blink, v0: seq<byte>, f0: seq<byte>, f1: seq<byte>, row: nat, col: nat)
    requires DrawnTo(b, v0, f0, f1, row, col) && CharAt(f0, row, col) == CharAt(f1, row, col) == SPACE
    ensures DrawnTo(b, v0, f0, f1, row, col + 1)
  {
    DrawnEmptyCell(Nodes(b.Value()), f0, f1, row, col);
  }

  /** Bytes and ends of file the two readers still have to meet. */
  ghost function Left(rd0: Reader, rd1: Reader): nat {
    |rd0.rest| + |rd1.rest| + (if rd0.eof then 0 else 1) + (if rd1.eof then 0 else 1)
  }

  /** Both readers, their descriptors and their character variables agree. */
  ghost predicate Reading(img: Image, pcb: Pcb, fd0: nat, fd1: nat, c0: array<byte>, c1: array<byte>,
                          eof0: int, eof1: int, rd0: Reader, rd1: Reader)
    reads pcb, pcb.fdt, c0, c1
  {
    && img.Valid() && pcb.Valid() && fd0 < TABLE_SIZE && fd1 < TABLE_SIZE && fd0 != fd1
    && c0.Length == 1 && c1.Length == 1 && c0 != c1
    && Feeds(img, pcb.fdt[fd0], rd0) && Feeds(img, pcb.fdt[fd1], rd1)
    && c0[0] == rd0.c && c1[0] == rd1.c
    && eof0 == (if rd0.eof then 1 else 0) && eof1 == (if rd1.eof then 1 else 0)
  }

  lemma LeftShrinks(rd0: Reader, rd1: Reader)
    requires (rd0.eof ==> rd0.c == NEWLINE) && (rd1.eof ==> rd1.c == NEWLINE)
    ensures Left(Next(rd0), Next(rd1)) <= Left(rd0, rd1)
    ensures rd0.c != NEWLINE || rd1.c != NEWLINE ==> Left(Next(rd0), Next(rd1)) < Left(rd0, rd1)
  {
  }

  /** One step of both readers. */
  method ReadBoth(img: Image, pcb: Pcb, fd0: nat, fd1: nat, c0: array<byte>, c1: array<byte>, eof0In: int, eof1In: int,
                  ghost rd0: Reader, ghost rd1: Reader) returns (eof0: int, eof1: int)
    requires Reading(img, pcb, fd0, fd1, c0, c1, eof0In, eof1In, rd0, rd1)
    modifies pcb.fdt, c0, c1
    ensures TableKept(pcb, old(pcb.fdt[..]), fd0, fd1)
    ensures Reading(img, pcb, fd0, fd1, c0, c1, eof0, eof1, Next(rd0), Next(rd1))
    ensures Left(Next(rd0), Next(rd1)) <= Left(rd0, rd1)
    ensures rd0.c != NEWLINE || rd1.c != NEWLINE ==> Left(Next(rd0), Next(rd1)) < Left(rd0, rd1)
  {
    hide Next, Image.Content, Image.Valid;
    LeftShrinks(rd0, rd1);
    eof0 := ReadNext(img, pcb, fd0, c0, eof0In, rd0);
    eof1 := ReadNext(img, pcb, fd1, c1, eof1In, rd1);
  }

  /** The body of the column loop: a character of each frame, and a blinker for the cell unless both
      lines have ended. */
  method AddColumn(img: Image, pcb: Pcb, b: Blink, fd0: nat, fd1: nat, c0: array<byte>, c1: array<byte>,
                   eof0In: int, eof1In: int, row: nat, col: nat, scratch: Slot,
                   ghost v0: seq<byte>, ghost f0: seq<byte>, ghost f1: seq<byte>, ghost rd0: Reader, ghost rd1: Reader)
      returns (eof0: int, eof1: int, ended: bool)
    requires Reading(img, pcb, fd0, fd1, c0, c1, eof0In, eof1In, rd0, rd1) && b.vmem != c0 && b.vmem != c1
    requires Tracks(f0, rd0, row, col) && Tracks(f1, rd1, row, col) && Fits(f0, f1) && DrawnTo(b, v0, f0, f1, row, col)
    modifies pcb.fdt, c0, c1, b, b.pool, b.vmem
    ensures Reading(img, pcb, fd0, fd1, c0, c1, eof0, eof1, Next(rd0), Next(rd1))
    ensures TableKept(pcb, old(pcb.fdt[..]), fd0, fd1)
    ensures Tracks(f0, Next(rd0), row, col + 1) && Tracks(f1, Next(rd1), row, col + 1)
    ensures DrawnTo(b, v0, f0, f1, row, col + 1) && (ended <==> Next(rd0).c == NEWLINE && Next(rd1).c == NEWLINE)
    ensures Left(Next(rd0), Next(rd1)) <= Left(rd0, rd1)
    ensures rd0.c != NEWLINE || rd1.c != NEWLINE ==> Left(Next(rd0), Next(rd1)) < Left(rd0, rd1)
  {
    hide Tracks, Drawn, Displays, Feeds, Filled, Left, DrawnTo, TableKept, Image.Content, Image.Valid;
    eof0, eof1 := ReadBoth(img, pcb, fd0, fd1, c0, c1, eof0In, eof1In, rd0, rd1);
    ReadStep(f0, rd0, row, col);
    ReadStep(f1, rd1, row, col);
    ended := c0[0] == NEWLINE && c1[0] == NEWLINE;
    if ended {
      SkipCell(b, v0, f0, f1, row, col);
    } else {
      AddCell(b, row, col, c0[0], c1[0], scratch, v0, f0, f1);
    }
  }

  /** The column loop: one row of both frames, up to the column where both lines have ended. */
  method AddRow(img: Image, pcb: Pcb, b: Blink, fd0: nat, fd1: nat, c0: array<byte>, c1: array<byte>,
                eof0In: int, eof1In: int, row: nat, scratch: Slot,
                ghost v0: seq<byte>, ghost f0: seq<byte>, ghost f1: seq<byte>, ghost rd0In: Reader, ghost rd1In: Reader)
      returns (eof0: int, eof1: int, ghost rd0: Reader, ghost rd1: Reader, ghost end: nat)
    requires Reading(img, pcb, fd0, fd1, c0, c1, eof0In, eof1In, rd0In, rd1In) && b.vmem != c0 && b.vmem != c1
    requires Tracks(f0, rd0In, row, 0) && Tracks(f1, rd1In, row, 0) && Fits(f0, f1)
    requires DrawnTo(b, v0, f0, f1, row, 0)
    modifies pcb.fdt, c0, c1, b, b.pool, b.vmem
    ensures TableKept(pcb, old(pcb.fdt[..]), fd0, fd1)
    ensures Reading(img, pcb, fd0, fd1, c0, c1, eof0, eof1, rd0, rd1)
    ensures rd0.c == NEWLINE && rd1.c == NEWLINE
    ensures Tracks(f0, rd0, row, end) && Tracks(f1, rd1, row, end) && DrawnTo(b, v0, f0, f1, row, end)
    ensures Left(rd0, rd1) <= Left(rd0In, rd1In)
    ensures rd0In.c != NEWLINE || rd1In.c != NEWLINE ==> Left(rd0, rd1) < Left(rd0In, rd1In)
  {
    ghost var table := pcb.fdt[..];
    KeptSoFar(pcb, fd0, fd1);
    hide Reading, Tracks, Left, DrawnTo, OthersKept, TableKept, Fits, Next;
    var col := 0;
    eof0, eof1, rd0, rd1 := eof0In, eof1In, rd0In, rd1In;
    while true
      invariant TableKept(pcb, table, fd0, fd1)
      invariant Reading(img, pcb, fd0, fd1, c0, c1, eof0, eof1, rd0, rd1)
      invariant Tracks(f0, rd0, row, col) && Tracks(f1, rd1, row, col) && DrawnTo(b, v0, f0, f1, row, col)
      invariant Left(rd0, rd1) <= Left(rd0In, rd1In)
      invariant (rd0, rd1) == (rd0In, rd1In) || Left(rd0, rd1) < Left(rd0In, rd1In)
      invariant (rd0, rd1) == (rd0In, rd1In) || rd0.c != NEWLINE || rd1.c != NEWLINE
      decreases Left(rd0, rd1)
    {
      ghost var before := pcb.fdt[..];
      KeptBefore(pcb, table, fd0, fd1);
      var ended;
      eof0, eof1, ended :=
        AddColumn(img, pcb, b, fd0, fd1, c0, c1, eof0, eof1, row, col, scratch, v0, f0, f1, rd0, rd1);
      KeptTwice(pcb, table, before, fd0, fd1);
      rd0, rd1 := Next(rd0), Next(rd1);
      if ended {
        end := col + 1;
        break;
      }
      col := col + 1;
    }
  }

  /** The reader at the start of the next row. */
  ghost function Reset(rd: Reader): Reader {
    rd.(c := if rd.eof then NEWLINE else 48)
  }

  /** After a row: leave a finished file's character at newline and close it, or make ready to
      read on.  A finished file is closed again after every later row, which fails harmlessly. */
  method EndRow(img: Image, pcb: Pcb, fd: nat, c: array<byte>, eof: int, ghost rd: Reader)
    requires pcb.Valid() && 2 <= fd < TABLE_SIZE && img.Valid() && c.Length == 1
    requires Feeds(img, pcb.fdt[fd], rd) && eof == (if rd.eof then 1 else 0)
    modifies c, pcb.fdt
    ensures Feeds(img, pcb.fdt[fd], Reset(rd)) && c[0] == Reset(rd).c && (rd.eof ==> pcb.fdt[fd].flags == 0)
    ensures pcb.fdt[..] == old(pcb.fdt[..])[fd := pcb.fdt[fd]]
  {
    if eof != 0 {
      c[0] := NEWLINE;
      var r := pcb.Close(fd);
    } else {
      c[0] := 48;
    }
  }

  /** A reader that has reached the end of its frame sees only blanks from here on. */
  lemma NothingAhead(f0: seq<byte>, f1: seq<byte>, rd0: Reader, rd1: Reader, row: nat)
    requires Tracks(f0, rd0, row, 0) && Tracks(f1, rd1, row, 0) && rd0.eof && rd1.eof
    ensures forall r: nat, c: nat :: r >= row ==> !Filled(f0, f1, r, c)
  {
  }

  lemma NextRow(b: Blink, v0: seq<byte>, f0: seq<byte>, f1: seq<byte>, rd0: Reader, rd1: Reader, row: nat, end: nat)
    requires Tracks(f0, rd0, row, end) && Tracks(f1, rd1, row, end) && rd0.c == NEWLINE && rd1.c == NEWLINE
    requires DrawnTo(b, v0, f0, f1, row, end)
    ensures Tracks(f0, Reset(rd0), row + 1, 0) && Tracks(f1, Reset(rd1), row + 1, 0)
    ensures DrawnTo(b, v0, f0, f1, row + 1, 0)
  {
    RowStep(f0, rd0, row, end, Reset(rd0).c);
    RowStep(f1, rd1, row, end, Reset(rd1).c);
    DrawnRow(Nodes(b.Value()), f0, f1, row, end);
  }

  /** The body of the row loop: one row of both frames, and both readers made ready for the next. */
  method AddRowAndReset(img: Image, pcb: Pcb, b: Blink, fd0: nat, fd1: nat, c0: array<byte>, c1: array<byte>,
                        eof0In: int, eof1In: int, row: nat, scratch: Slot,
                        ghost v0: seq<byte>, ghost f0: seq<byte>, ghost f1: seq<byte>,
                        ghost rd0In: Reader, ghost rd1In: Reader)
      returns (eof0: int, eof1: int, ghost rd0: Reader, ghost rd1: Reader)
    requires Reading(img, pcb, fd0, fd1, c0, c1, eof0In, eof1In, rd0In, rd1In) && b.vmem != c0 && b.vmem != c1
    requires fd0 >= 2 && fd1 >= 2 && Fits(f0, f1)
    requires Tracks(f0, rd0In, row, 0) && Tracks(f1, rd1In, row, 0) && DrawnTo(b, v0, f0, f1, row, 0)
    requires rd0In == Reset(rd0In) && rd1In == Reset(rd1In) && (!rd0In.eof || !rd1In.eof)
    modifies pcb.fdt, c0, c1, b, b.pool, b.vmem
    ensures TableKept(pcb, old(pcb.fdt[..]), fd0, fd1)
    ensures (eof0 != 0 ==> pcb.fdt[fd0].flags == 0) && (eof1 != 0 ==> pcb.fdt[fd1].flags == 0)
    ensures Reading(img, pcb, fd0, fd1, c0, c1, eof0, eof1, rd0, rd1)
    ensures Tracks(f0, rd0, row + 1, 0) && Tracks(f1, rd1, row + 1, 0) && DrawnTo(b, v0, f0, f1, row + 1, 0)
    ensures rd0 == Reset(rd0) && rd1 == Reset(rd1) && Left(rd0, rd1) < Left(rd0In, rd1In)
  {
    hide Tracks, Drawn, Displays, Filled, Image.Content, Image.Valid;
    ghost var end;
    eof0, eof1, rd0, rd1, end :=
      AddRow(img, pcb, b, fd0, fd1, c0, c1, eof0In, eof1In, row, scratch, v0, f0, f1, rd0In, rd1In);
    EndRow(img, pcb, fd0, c0, eof0, rd0);
    EndRow(img, pcb, fd1, c1, eof1, rd1);
    NextRow(b, v0, f0, f1, rd0, rd1, row, end);
    rd0, rd1 := Reset(rd0), Reset(rd1);
  }

  /** The row loop of add_frames, on two files open at their start. */
  method AddRows(img: Image, pcb: Pcb, b: Blink, fd0: nat, fd1: nat, c0: array<byte>, c1: array<byte>, scratch: Slot,
                 ghost v0: seq<byte>, ghost f0: seq<byte>, ghost f1: seq<byte>)
    requires Reading(img, pcb, fd0, fd1, c0, c1, 0, 0, Reader(f0, 48, false), Reader(f1, 48, false))
    requires b.vmem != c0 && b.vmem != c1 && fd0 >= 2 && fd1 >= 2 && Fits(f0, f1)
    requires b.Ok() && b.order == [] && b.vmem[..] == v0
    modifies pcb.fdt, c0, c1, b, b.pool, b.vmem
    ensures TableKept(pcb, old(pcb.fdt[..]), fd0, fd1) && pcb.fdt[fd0].flags == pcb.fdt[fd1].flags == 0
    ensures b.Ok() && AllDrawn(Nodes(b.Value()), f0, f1) && Displays(b.vmem[..], v0, Nodes(b.Value()))
  {
    ghost var rd0, rd1 := Reader(f0, 48, false), Reader(f1, 48, false);
    var row, eof0, eof1 := 0, 0, 0;
    NothingDrawnYet(b, v0, f0, f1);
    ghost var table := pcb.fdt[..];
    KeptSoFar(pcb, fd0, fd1);
    hide Tracks, Drawn, Displays, Filled, Feeds, OthersKept, TableKept, Image.Content, Image.Valid;
    while eof0 == 0 || eof1 == 0
      invariant TableKept(pcb, table, fd0, fd1)
      invariant (eof0 != 0 ==> pcb.fdt[fd0].flags == 0) && (eof1 != 0 ==> pcb.fdt[fd1].flags == 0)
      invariant Reading(img, pcb, fd0, fd1, c0, c1, eof0, eof1, rd0, rd1)
      invariant rd0 == Reset(rd0) && rd1 == Reset(rd1)
      invariant Tracks(f0, rd0, row, 0) && Tracks(f1, rd1, row, 0) && DrawnTo(b, v0, f0, f1, row, 0)
      decreases Left(rd0, rd1)
    {
      ghost var before := pcb.fdt[..];
      KeptBefore(pcb, table, fd0, fd1);
      eof0, eof1, rd0, rd1 :=
        AddRowAndReset(img, pcb, b, fd0, fd1, c0, c1, eof0, eof1, row, scratch, v0, f0, f1, rd0, rd1);
      KeptTwice(pcb, table, before, fd0, fd1);
      row := row + 1;
    }
    NothingAhead(f0, f1, rd0, rd1, row);
    DrawnAll(Nodes(b.Value()), f0, f1, row);
  }

  lemma NothingDrawnYet(b: Blink, v0: seq<byte>, f0: seq<byte>, f1: seq<byte>)
    requires b.Ok() && b.order == [] && b.vmem[..] == v0
    ensures Tracks(f0, Reader(f0, 48, false), 0, 0) && Tracks(f1, Reader(f1, 48, false), 0, 0)
    ensures DrawnTo(b, v0, f0, f1, 0, 0)
  {
  }

  /** If the directory has the name, it is a regular file with this content. */
  ghost predicate IsFrame(img: Image, name: seq<byte>, f: seq<byte>)
    requires img.Valid()
  {
    var r := Find(img.dentries, name);
    r.Some? ==> r.value.fileType == 2 && r.value.inodeIndex < |img.inodes| && img.Content(r.value.inodeIndex) == f
  }

  /** Both files exist and two descriptors are free. */
  ghost predicate CanOpenBoth(img: Image, fdt: seq<Descriptor>, name0: seq<byte>, name1: seq<byte>)
    requires |fdt| == TABLE_SIZE
  {
    && Find(img.dentries, name0).Some? && Find(img.dentries, name1).Some?
    && FreeSlot(fdt, 2) < TABLE_SIZE && FreeSlot(fdt, FreeSlot(fdt, 2) + 1) < TABLE_SIZE
  }

  /** The two descriptors the frames were read through are free again, the others as they were. */
  ghost predicate FramesClosed(was: seq<Descriptor>, now: seq<Descriptor>)
    requires |was| == TABLE_SIZE && FreeSlot(was, 2) < TABLE_SIZE
  {
    var fd0 := FreeSlot(was, 2);
    var fd1 := FreeSlot(was, fd0 + 1);
    && OthersKept(was, now, fd0, fd1) && fd1 < TABLE_SIZE && now[fd0].flags == now[fd1].flags == 0
  }

  /** Open one frame file. */
  method OpenFrame(img: Image, pcb: Pcb, name: seq<byte>, ghost f: seq<byte>) returns (fd: int)
    requires img.Valid() && pcb.Valid() && NoNul(name) && IsFrame(img, name, f)
    modifies pcb.fdt
    ensures var r, slot := Find(img.dentries, name), FreeSlot(old(pcb.fdt[..]), 2);
            if r == None || slot == TABLE_SIZE then
              fd == -1 && pcb.fdt[..] == old(pcb.fdt[..])
            else
              && fd == slot && pcb.fdt[..] == old(pcb.fdt[..])[slot := pcb.fdt[slot]]
              && pcb.fdt[slot].flags == 1 && Feeds(img, pcb.fdt[slot], Reader(f, 48, false))
  {
    TextOfString(name, [NUL]);
    OpenedIsFresh(img, name);
    fd := pcb.Open(img, name + [NUL]);
  }

  /** Open both frame files and add their blinkers (add_frames); it halts the program, having
      drawn nothing, exactly when one of them cannot be opened. */
  method AddFrames(img: Image, pcb: Pcb, b: Blink, name0: seq<byte>, name1: seq<byte>, scratch: Slot,
                   ghost f0: seq<byte>, ghost f1: seq<byte>) returns (halted: bool)
    requires img.Valid() && pcb.Valid() && NoNul(name0) && NoNul(name1) && Fits(f0, f1)
    requires IsFrame(img, name0, f0) && IsFrame(img, name1, f1)
    requires b.Ok() && b.order == []
    modifies pcb.fdt, b, b.pool, b.vmem
    ensures halted <==> !CanOpenBoth(img, old(pcb.fdt[..]), name0, name1)
    ensures b.Ok()
    ensures !halted ==> FramesClosed(old(pcb.fdt[..]), pcb.fdt[..])
    ensures halted ==> b.vmem[..] == old(b.vmem[..]) && b.order == []
    ensures !halted ==> AllDrawn(Nodes(b.Value()), f0, f1) && Displays(b.vmem[..], old(b.vmem[..]), Nodes(b.Value()))
  {
    hide AllDrawn, Displays, Image.Content, Image.Valid, Fits, FreeSlot, Find;
    ghost var table := pcb.fdt[..];
    var fd0 := OpenFrame(img, pcb, name0, f0);
    if fd0 < 0 {
      return true;
    }
    NextFreeSlot(table, 2, pcb.fdt[fd0]);
    var fd1 := OpenFrame(img, pcb, name1, f1);
    if fd1 < 0 {
      return true;
    }
    var c0, c1 := new byte[1], new byte[1];
    c0[0], c1[0] := 48, 48;
    AddRows(img, pcb, b, fd0, fd1, c0, c1, scratch, b.vmem[..], f0, f1);
    return false;
  }

  /** The first part of main: add both frames, then let the clock tick.  Every byte of video
      memory is known after any number of ticks. */
  method Animate(img: Image, pcb: Pcb, b: Blink, name0: seq<byte>, name1: seq<byte>, scratch: Slot, t: nat,
                 ghost f0: seq<byte>, ghost f1: seq<byte>) returns (halted: bool)
    requires img.Valid() && pcb.Valid() && NoNul(name0) && NoNul(name1) && Fits(f0, f1)
    requires IsFrame(img, name0, f0) && IsFrame(img, name1, f1)
    requires b.Ok() && b.order == []
    modifies pcb.fdt, b, b.pool, b.vmem
    ensures halted <==> !CanOpenBoth(img, old(pcb.fdt[..]), name0, name1)
    ensures !halted ==> FramesClosed(old(pcb.fdt[..]), pcb.fdt[..])
    ensures halted ==> b.vmem[..] == old(b.vmem[..])
    ensures !halted ==> forall i: nat :: i < VMEM_SIZE ==> b.vmem[i] == Expected(old(b.vmem[..]), f0, f1, t, i)
  {
    hide Image.Content, Image.Valid, Fits, IsFrame, CanOpenBoth;
    ghost var v0 := b.vmem[..];
    halted := AddFrames(img, pcb, b, name0, name1, scratch, f0, f1);
    if halted {
      return;
    }
    ghost var ns, table := Nodes(b.Value()), pcb.fdt[..];
    hide FramesClosed;
    for i := 0 to t
      invariant pcb.fdt[..] == table && b.Ok()
      invariant Nodes(b.Value()) == TickedNodes(ns, i) && Displays(b.vmem[..], v0, TickedNodes(ns, i))
    {
      TickRefines(b.Value());
      TickedOnce(b.vmem[..], v0, ns, f0, f1, i);
      b.Tasklet();
    }
    forall i: nat | i < VMEM_SIZE
      ensures b.vmem[i] == Expected(v0, f0, f1, t, i)
    {
      AnimationIsExpected(b.vmem[..], v0, ns, f0, f1, t, i);
    }
  }

  lemma TickedOnce(v: seq<byte>, v0: seq<byte>, ns: seq<Slot>, f0: seq<byte>, f1: seq<byte>, t: nat)
    requires AllDrawn(ns, f0, f1) && Displays(v, v0, TickedNodes(ns, t))
    ensures ListStep(TickedNodes(ns, t), TickAll) == TickedNodes(ns, t + 1)
    ensures Displays(Painted(v, TickedNodes(ns, t), 0), v0, TickedNodes(ns, t + 1))
  {
    TickedInPlace(ns, f0, f1, t);
    NextNodes(ns, t);
    hide AllDrawn, TickedNodes;
    TickDisplays(v, v0, TickedNodes(ns, t));
  }

  lemma TickedInPlace(ns: seq<Slot>, f0: seq<byte>, f1: seq<byte>, t: nat)
    requires AllDrawn(ns, f0, f1)
    ensures Decreasing(TickedNodes(ns, t)) && forall k :: 0 <= k < |ns| ==> TickedNodes(ns, t)[k].status <= 1
  {
    forall k | 0 <= k < |ns|
      ensures TickedNodes(ns, t)[k].location == ns[k].location && TickedNodes(ns, t)[k].status <= 1
    {
      assert InFrame(ns[k], f0, f1);
      TicksKeepPlace(ns[k], t);
    }
  }

  lemma NextNodes(ns: seq<Slot>, t: nat)
    ensures ListStep(TickedNodes(ns, t), TickAll) == TickedNodes(ns, t + 1) && |TickedNodes(ns, t)| == |ns|
  {
  }
}
