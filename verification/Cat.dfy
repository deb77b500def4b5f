/** The program that copies a file to standard output (ece391cat.c). */
module Cat {
  import opened Machine
  import opened CString
  import opened FileSystem
  import opened Counts
  import opened Descriptors
  import opened Screen
  import opened Log
  import opened Console
  import opened Output
  import T = Terminals

  /** The names that reads of the directory deliver from entry `k` on, one behind the other: up to
      the end, or to an entry without a name. */
  ghost function Names(img: Image, k: nat): seq<byte>
    requires img.Valid()
    decreases |img.dentries| - k
  {
    if k >= |img.dentries| || NameCount(img.dentries[k]) == 0 then []
    else img.dentries[k].fname[..NameCount(img.dentries[k])] + Names(img, k + 1)
  }

  /** A descriptor of a file, the directory or the clock. */
  ghost predicate Readable(img: Image, d: Descriptor) {
    && img.Valid() && d.flags != 0 && d.ops in {FileOps, DirOps, RtcOps}
    && (d.ops == FileOps ==> OpenFile(img, d))
  }

  /** Everything that reads of the descriptor will deliver. */
  ghost function Remaining(img: Image, d: Descriptor): seq<byte>
    requires Readable(img, d)
  {
    if d.ops == FileOps then Unread(img, d)
    else if d.ops == DirOps then Names(img, d.position)
    else []
  }

  ghost function Steps(img: Image, d: Descriptor): nat
    requires Readable(img, d)
  {
    if d.ops == FileOps then |Unread(img, d)|
    else if d.ops == DirOps then Max(0, |img.dentries| - d.position)
    else 0
  }

  /** What cat prints for a directory entry it opens. */
  ghost function Shown(img: Image, d: Dentry): seq<byte>
    requires img.Valid()
  {
    if d.fileType == 2 && d.inodeIndex < |img.inodes| then img.Content(d.inodeIndex)
    else if d.fileType == 1 then Names(img, 0)
    else []
  }

  /** What cat has to print, and its exit status. */
  ghost function Expected(img: Image, argument: seq<byte>, table: seq<Descriptor>): (r: (int, seq<byte>))
    requires img.Valid() && |table| == TABLE_SIZE
  {
    if argument == [] then (3, Ascii("could not read arguments\n")) else FileOrMessage(img, argument, table)
  }

  ghost function FileOrMessage(img: Image, name: seq<byte>, table: seq<Descriptor>): (r: (int, seq<byte>))
    requires img.Valid() && |table| == TABLE_SIZE
  {
    var f := Find(img.dentries, name);
    if f == None || FreeSlot(table, 2) == TABLE_SIZE then (2, Ascii("file not found\n")) else (0, Shown(img, f.value))
  }

  /** The program's standard output goes to the terminal that the scheduler runs it for. */
  ghost predicate Connected(pcb: Pcb, console: Console)
    reads pcb.fdt, console, console.vram, console.cursor
  {
    && pcb.Valid() && pcb.fdt[1].ops == StdoutOps && pcb.fdt[1].flags != 0
    && console.Valid() && 0 <= console.background < T.TERM_NUM
  }

  /** The argument, copied into the buffer if there is one. */
  method ReadArgument(pcb: Pcb, buf: array<byte>) returns (r: int)
    requires pcb.Valid() && NUL in pcb.argument[..] && buf.Length == 1024 && buf != pcb.argument
    modifies buf
    ensures r == 0 <==> Text(pcb.argument[..]) != []
    ensures r == 0 ==> NUL in buf[..] && Text(buf[..]) == Text(old(pcb.argument[..]))
  {
    hide Text;
    ghost var argument, was := Text(pcb.argument[..]), buf[..];
    ArgumentText(pcb.argument[..]);
    r := pcb.GetArgs(buf, 1024);
    if r == 0 {
      WrittenString(was, argument);
    }
  }

  /** Print the file named by the argument: the whole file, byte for byte, and then stop.  A
      directory shows of every name as many bytes as are not NUL, the clock nothing. */
  method Cat(img: Image, pcb: Pcb, console: Console, buf: array<byte>) returns (status: int)
    requires img.Valid() && Connected(pcb, console)
    requires NUL in pcb.argument[..] && buf.Length == 1024 && buf != pcb.argument
    modifies buf, pcb.fdt, console.vram, console.cursor, console`screenX, console`screenY
    ensures var (code, out) := Expected(img, Text(old(pcb.argument[..])), old(pcb.fdt[..]));
            status == code && Prints(console, out)
    ensures TableKept(pcb, old(pcb.fdt[..]), FreeSlot(old(pcb.fdt[..]), 2), FreeSlot(old(pcb.fdt[..]), 2))
  {
    KeptSoFar(pcb, FreeSlot(pcb.fdt[..], 2), FreeSlot(pcb.fdt[..], 2));
    hide Image.Content, Image.Valid, Written, Text, FileOrMessage, Console.Valid, Console.Terminals;
    hide TableKept, OthersKept, FreeSlot;
    var r := ReadArgument(pcb, buf);
    if r != 0 {
      var _ := Write(pcb, console, 1, Ascii("could not read arguments\n"));
      return 3;
    }
    status := PrintFile(img, pcb, console, buf);
  }

  /** The exit statuses: 3 without an argument, 2 if nothing of that name can be opened, else 0 and
      whatever the entry holds. */
  lemma ExitStatus(img: Image, argument: seq<byte>, table: seq<Descriptor>)
    requires img.Valid() && |table| == TABLE_SIZE
    ensures var (code, out), f := Expected(img, argument, table), Find(img.dentries, argument);
            && code in {0, 2, 3} && (code == 3 <==> argument == [])
            && (code == 2 <==> argument != [] && (f == None || FreeSlot(table, 2) == 8))
            && (code == 0 ==> f.Some? && out == Shown(img, f.value))
  {
  }

  lemma ArgumentText(mem: seq<byte>)
    ensures NoNul(Text(mem)) && |Text(mem)| <= |mem|
  {
  }

  /** Open the file named in the buffer: everything it holds is left to read. */
  method OpenArgument(img: Image, pcb: Pcb, buf: array<byte>) returns (fd: int)
    requires img.Valid() && pcb.Valid() && NUL in buf[..]
    modifies pcb.fdt
    ensures var f, slot := Find(img.dentries, Text(buf[..])), FreeSlot(old(pcb.fdt[..]), 2);
            if f == None || slot == TABLE_SIZE then fd == -1 && pcb.fdt[..] == old(pcb.fdt[..])
            else
              && fd == slot && pcb.fdt[..] == old(pcb.fdt[..])[slot := pcb.fdt[slot]]
              && Readable(img, pcb.fdt[slot]) && Remaining(img, pcb.fdt[slot]) == Shown(img, f.value)
    ensures pcb.fdt[1] == old(pcb.fdt[1])
    ensures TableKept(pcb, old(pcb.fdt[..]), FreeSlot(old(pcb.fdt[..]), 2), FreeSlot(old(pcb.fdt[..]), 2))
  {
    OpenedShows(img, Text(buf[..]));
    hide Image.Content, Image.Valid, Text, Remaining, Readable, Shown, Find;
    fd := pcb.Open(img, buf[..]);
  }

  /** cat behind its first test: the name is in the buffer. */
  method PrintFile(img: Image, pcb: Pcb, console: Console, buf: array<byte>) returns (status: int)
    requires img.Valid() && Connected(pcb, console) && buf.Length == 1024 && NUL in buf[..]
    modifies buf, pcb.fdt, console.vram, console.cursor, console`screenX, console`screenY
    ensures var (code, out) := FileOrMessage(img, Text(old(buf[..])), old(pcb.fdt[..]));
            status == code && Prints(console, out)
    ensures TableKept(pcb, old(pcb.fdt[..]), FreeSlot(old(pcb.fdt[..]), 2), FreeSlot(old(pcb.fdt[..]), 2))
  {
    hide Image.Content, Image.Valid, Written, Text, Console.Valid, Console.Terminals, Remaining, Readable, Shown, Find;
    hide TableKept, OthersKept, FreeSlot;
    ghost var table := pcb.fdt[..];
    var fd := OpenArgument(img, pcb, buf);
    if fd == -1 {
      var _ := Write(pcb, console, 1, Ascii("file not found\n"));
      return 2;
    }
    ghost var before := pcb.fdt[..];
    KeptBefore(pcb, table, fd, fd);
    CopyOut(img, pcb, console, fd, buf);
    KeptTwice(pcb, table, before, fd, fd);
    status := 0;
  }

  lemma OpenedShows(img: Image, name: seq<byte>)
    requires img.Valid()
    ensures var f := Find(img.dentries, name);
            f.Some? ==> Readable(img, Opened(f.value)) && Remaining(img, Opened(f.value)) == Shown(img, f.value)
  {
    OpenedIsFresh(img, name);
    FindIsMember(img.dentries, name);
  }

  /** One round of cat's loop: what was read is written, and what remains is written later. */
  method CopyPart(img: Image, pcb: Pcb, console: Console, fd: nat, buf: array<byte>) returns (more: bool)
    requires Connected(pcb, console) && 2 <= fd < TABLE_SIZE && Readable(img, pcb.fdt[fd]) && buf.Length == 1024
    modifies buf, pcb.fdt, console.vram, console.cursor, console`screenX, console`screenY
    ensures Connected(pcb, console) && pcb.fdt[..] == old(pcb.fdt[..])[fd := pcb.fdt[fd]]
    ensures more ==>
              && Readable(img, pcb.fdt[fd]) && Steps(img, pcb.fdt[fd]) < old(Steps(img, pcb.fdt[fd]))
              && Written(old(console.Terminals()), console.background, old(Remaining(img, pcb.fdt[fd])))
                 == Written(console.Terminals(), console.background, Remaining(img, pcb.fdt[fd]))
    ensures !more ==>
              Written(old(console.Terminals()), console.background, old(Remaining(img, pcb.fdt[fd])))
              == console.Terminals()
  {
    ghost var before, t := console.Terminals(), console.background;
    hide Image.Content, Image.Valid, Written, Readable, Remaining, Steps, Console.Valid, Console.Terminals;
    var cnt := ReadNext(img, pcb, fd, buf);
    if cnt == 0 {
      WritingInParts(before, t, [], []);
      return false;
    }
    WritingInParts(before, t, buf[..cnt], Remaining(img, pcb.fdt[fd]));
    var written := Write(pcb, console, 1, buf[..cnt]);
    more := true;
  }

  /** The read and write loop of cat, from the descriptor's position to the end.  Neither the read
      nor the write can fail, so their messages are never printed. */
  method CopyOut(img: Image, pcb: Pcb, console: Console, fd: nat, buf: array<byte>)
    requires Connected(pcb, console) && 2 <= fd < TABLE_SIZE && Readable(img, pcb.fdt[fd]) && buf.Length == 1024
    modifies buf, pcb.fdt, console.vram, console.cursor, console`screenX, console`screenY
    ensures Prints(console, Remaining(img, old(pcb.fdt[fd])))
    ensures Connected(pcb, console) && TableKept(pcb, old(pcb.fdt[..]), fd, fd)
  {
    ghost var table, t := pcb.fdt[..], console.background;
    ghost var all := Written(console.Terminals(), t, Remaining(img, pcb.fdt[fd]));
    KeptSoFar(pcb, fd, fd);
    hide Image.Content, Image.Valid, Written, Readable, Remaining, Steps, OthersKept, TableKept;
    var more := true;
    while more
      invariant Connected(pcb, console) && TableKept(pcb, table, fd, fd) && (more ==> Readable(img, pcb.fdt[fd]))
      invariant more ==> all == Written(console.Terminals(), t, Remaining(img, pcb.fdt[fd]))
      invariant !more ==> all == console.Terminals()
      decreases more, if more then Steps(img, pcb.fdt[fd]) else 0
    {
      ghost var before := pcb.fdt[..];
      KeptBefore(pcb, table, fd, fd);
      more := CopyPart(img, pcb, console, fd, buf);
      KeptToo(pcb, table, before, fd);
    }
  }

  /** One read of cat: the next bytes of what remains, and none exactly when nothing does. */
  method ReadNext(img: Image, pcb: Pcb, fd: nat, buf: array<byte>) returns (cnt: nat)
    requires pcb.Valid() && 2 <= fd < TABLE_SIZE && Readable(img, pcb.fdt[fd]) && buf.Length == 1024
    modifies buf, pcb.fdt
    ensures pcb.fdt[..] == old(pcb.fdt[..])[fd := pcb.fdt[fd]] && cnt <= 1024
    ensures cnt == 0 ==> Remaining(img, old(pcb.fdt[fd])) == []
    ensures cnt != 0 ==>
              && Readable(img, pcb.fdt[fd])
              && Remaining(img, old(pcb.fdt[fd])) == buf[..cnt] + Remaining(img, pcb.fdt[fd])
              && Steps(img, pcb.fdt[fd]) < Steps(img, old(pcb.fdt[fd]))
  {
    ghost var d := pcb.fdt[fd];
    if d.ops == FileOps {
      ReadAdvances(img, d, 1024);
    }
    hide Image.Content, Image.Valid, NextBytes, Unread;
    cnt := pcb.Read(img, fd, buf, 0, 1024);
    if d.ops == FileOps {
      assert buf[..cnt] == NextBytes(img, d, 1024);
    } else if cnt != 0 {
      assert buf[..cnt] == img.dentries[d.position].fname[..cnt];
    }
  }

  /** A regular file printed on the cleared, visible terminal: the screen shows its last 25 rows,
      and the other terminals are untouched. */
  lemma CatShowsTheFile(img: Image, argument: seq<byte>, table: seq<Descriptor>, m: T.Terminals, s: Screen)
    requires img.Valid() && |table| == TABLE_SIZE && T.Valid(m) && Ok(s) && m.shown == Cleared(s)
    requires Find(img.dentries, argument).Some? && argument != [] && FreeSlot(table, 2) < TABLE_SIZE
    requires Find(img.dentries, argument).value.fileType == 2
    ensures Find(img.dentries, argument).value.inodeIndex < |img.inodes|
    ensures var content := img.Content(Find(img.dentries, argument).value.inodeIndex);
            var r := Written(m, m.cur, Expected(img, argument, table).1);
            && Shows(r.shown, AppendAll(EMPTY, content)) && AllRows(AppendAll(EMPTY, content)) == Wrapped(content)
            && forall i :: 0 <= i < T.TERM_NUM && i != m.cur ==> T.Logical(r, i) == T.Logical(m, i)
  {
    FindIsMember(img.dentries, argument);
    var content := Expected(img, argument, table).1;
    OutputShows(m, m.cur, s, content);
    OutputIsOwn(m, m.cur, content, m.cur);
    LogIsWrappedText(content);
  }
}
