/** Starting and ending programs: execute, halt, and the descriptor calls of a running program
    (system_call.c). */
module Process {
  import opened Machine
  import opened Counts
  import opened CString
  import opened FileSystem
  import opened Descriptors
  import opened Command
  import S = ProcessSpec
  import P = Paging

  const ELF: seq<byte> := [0x7f, 0x45, 0x4c, 0x46]

  const SHELL: seq<byte> := Ascii("shell") + [NUL]

  /** How execute ends: no free slot (it returns 0), no such executable (-1), or in the new program. */
  datatype Outcome = TooMany | Refused | Started(pid: nat)

  /** Number and argument of a process. */
  datatype Block = Block(pid: int, argument: seq<byte>)

  ghost predicate DistinctBlocks(pcbs: seq<Pcb>) {
    && |pcbs| == S.SLOTS && (forall p :: 0 <= p < S.SLOTS ==> pcbs[p].Valid())
    && (forall p, q :: 0 <= p < q < S.SLOTS ==>
          pcbs[p] != pcbs[q] && pcbs[p].fdt != pcbs[q].fdt && pcbs[p].argument != pcbs[q].argument)
  }

  class Kernel {
    const img: Image
    const procs: array<int>
    const pcbs: seq<Pcb>
    const paging: P.Paging

    ghost predicate Valid()
      reads procs
    {
      && img.Valid() && paging.Valid()
      && procs.Length == S.SLOTS && (forall p :: 0 <= p < S.SLOTS ==> procs[p] in {0, 1})
      && DistinctBlocks(pcbs)
    }

    ghost function Tables(): set<array<Descriptor>> {
      set p <- pcbs :: p.fdt
    }

    ghost function Arguments(): set<array<byte>> {
      set p <- pcbs :: p.argument
    }

    /** The slots and descriptor tables are those of `s`. */
    ghost predicate Is(s: S.Processes)
      reads procs, Tables()
    {
      && Valid() && S.Shape(s)
      && forall p :: 0 <= p < S.SLOTS ==> s.busy[p] == (procs[p] == 1) && s.tables[p] == pcbs[p].fdt[..]
    }

    /** What the six process blocks hold besides their descriptors: number and argument. */
    ghost function Blocks(): (bs: seq<Block>)
      requires |pcbs| == S.SLOTS
      reads pcbs, Arguments()
      ensures |bs| == S.SLOTS
    {
      [BlockOf(0), BlockOf(1), BlockOf(2), BlockOf(3), BlockOf(4), BlockOf(5)]
    }

    ghost function BlockOf(q: nat): Block
      requires q < |pcbs| == S.SLOTS
      reads pcbs, Arguments()
    {
      Block(pcbs[q].pid, pcbs[q].argument[..])
    }

    /** The argument of slot `q` is this text. */
    ghost predicate Holds(q: nat, text: seq<byte>)
      requires q < |pcbs| == S.SLOTS
      reads pcbs, Arguments()
    {
      NUL in pcbs[q].argument[..] && Text(pcbs[q].argument[..]) == text
    }

    /** Only the block of slot `p` has changed. */
    twostate lemma OneBlock(p: nat)
      requires p < |pcbs| == S.SLOTS
      requires forall q :: 0 <= q < S.SLOTS && q != p ==> BlockOf(q) == old(BlockOf(q))
      ensures Blocks() == old(Blocks())[p := BlockOf(p)]
    {
      assert forall q :: 0 <= q < S.SLOTS ==> Blocks()[q] == BlockOf(q) && old(Blocks())[q] == old(BlockOf(q));
    }

    twostate lemma SameBlocks()
      requires |pcbs| == S.SLOTS && unchanged(pcbs) && unchanged(Arguments())
      ensures Blocks() == old(Blocks())
    {
    }

    /** The six process blocks lie at fixed places in zeroed memory; no process exists yet. */
    constructor (img: Image, paging: P.Paging, pcbs: seq<Pcb>)
      requires img.Valid() && paging.Valid() && DistinctBlocks(pcbs)
      requires forall p :: 0 <= p < S.SLOTS ==> pcbs[p].fdt[..] == S.INITIAL.tables[p]
      ensures Valid() && this.img == img && this.paging == paging && this.pcbs == pcbs && Is(S.INITIAL)
    {
      this.img := img;
      this.paging := paging;
      this.pcbs := pcbs;
      procs := new int[S.SLOTS](_ => 0);
    }

    /** The slot search of execute. */
    method FindSlot(ghost s: S.Processes) returns (p: nat)
      requires Is(s)
      ensures p == S.FreeFrom(s.busy, 0)
    {
      p := 0;
      while p < 6
        invariant p <= S.SLOTS && S.FreeFrom(s.busy, 0) == S.FreeFrom(s.busy, p)
      {
        if procs[p] != 1 {
          break;
        }
        p := p + 1;
      }
    }

    /** Store the argument string, if the command had one, in the process block. */
    method StoreArgument(pcb: Pcb, command: seq<byte>, spaced: bool, start: nat, ghost text: seq<byte>)
      requires start <= |text| && pcb.Valid() && |SkipSpaces(text[start..])| < COMMAND_MAX && |text| < |command|
      requires command[..|text|] == text && NUL !in text && command[|text|] == NUL
      requires (spaced <==> start < |text|)
      modifies pcb.argument
      ensures NUL in pcb.argument[..] && Text(pcb.argument[..]) == SkipSpaces(text[start..])
    {
      hide Text;
      if !spaced {
        pcb.argument[0] := NUL;
        assert text[start..] == [];
        TextUnique(pcb.argument[..], 0);
        return;
      }
      var i := start;
      assert forall k :: 0 <= k < |text| ==> command[k] == text[k] != NUL;
      while command[i] == SPACE
        invariant start <= i <= |text| && SkipSpaces(text[i..]) == SkipSpaces(text[start..])
        decreases |text| - i
      {
        assert text[i..][1..] == text[i + 1..];
        i := i + 1;
      }
      ghost var from := i;
      assert SkipSpaces(text[from..]) == text[from..];
      var argIndex := 0;
      while command[i] != NUL
        invariant from <= i <= |text| && argIndex == i - from
        invariant forall k :: 0 <= k < argIndex ==> pcb.argument[k] == text[from + k]
        decreases |text| - i
      {
        pcb.argument[argIndex] := command[i];
        argIndex := argIndex + 1;
        i := i + 1;
      }
      pcb.argument[argIndex] := NUL;
      assert pcb.argument[..][..argIndex] == text[from..];
      TextUnique(pcb.argument[..], argIndex);
    }

    /** The answer of the magic number test.  The header buffer is not cleared first, so a file
        shorter than the magic number passes if the stack happens to hold the rest of it. */
    ghost predicate HasMagic(content: seq<byte>, ok: bool) {
      && (|content| >= 4 ==> (ok <==> content[..4] == ELF))
      && (|content| < 4 && ok ==> content == ELF[..|content|])
    }

    /** In bytes: 0x7f and the letters E, L and F. */
    lemma MagicBytes(content: seq<byte>, ok: bool)
      requires HasMagic(content, ok) && |content| >= 4
      ensures ok <==> content[0] == 127 && content[1] == 69 && content[2] == 76 && content[3] == 70
    {
      assert content[..4] == [content[0], content[1], content[2], content[3]];
    }

    /** The magic number test. */
    method IsExecutable(inode: uint32) returns (ok: bool)
      requires img.Valid() && inode < |img.inodes|
      ensures HasMagic(img.Content(inode), ok)
    {
      var header := new byte[40];
      var n := ReadData(img, inode, 0, header, 0, 40);
      var check := header[..4];
      var diff := StrncmpKernel(check, ELF, 4);
      ok := diff == 0;
      ComparedAll(check);
      hide Image.Content, Image.Valid, Text;
      ghost var m := Min(4, |img.Content(inode)|);
      assert check[..m] == img.Content(inode)[..m];
    }

    lemma ComparedAll(check: seq<byte>)
      requires |check| == 4
      ensures Take(Text(check), 4) == Take(Text(ELF), 4) <==> check == ELF
    {
      TextUnique(ELF, 4);
      if check == ELF {
        TextUnique(check, 4);
      }
      assert Take(Text(check), 4) == ELF ==> check == ELF;
    }

    /** A command execute can parse: a first word of fewer than 32 characters that ends among the
        first 128, and fewer than 128 characters of argument. */
    ghost predicate GoodCommand(command: seq<byte>) {
      var text := Text(command);
      && NUL in command && ProgramName(text) != [] && |ProgramName(text)| < NAME_MAX
      && NameEnd(text) < COMMAND_MAX && |Argument(text)| < COMMAND_MAX
    }

    /** The directory entry the command names. */
    ghost function Program(command: seq<byte>): Option<Dentry> {
      Find(img.dentries, ProgramName(Text(command)))
    }

    /** stdin and stdout of a new program (set_up_io_file). */
    method SetUpIo(pcb: Pcb)
      requires pcb.Valid()
      modifies pcb.fdt
      ensures pcb.fdt[..] == old(pcb.fdt[..])[0 := S.STDIN][1 := S.STDOUT]
    {
      pcb.fdt[0] := Descriptor(OpsFor(3), 0, 0, 1);
      pcb.fdt[1] := Descriptor(OpsFor(4), 0, 0, 1);
    }

    /** Take slot `p` for a program that was found to be executable. */
    method Begin(p: nat, ghost s: S.Processes)
      requires Is(s) && p < S.SLOTS && p == S.FreeFrom(s.busy, 0)
      modifies procs, pcbs, pcbs[p].fdt, paging.dir
      ensures Is(S.Start(s)) && pcbs[p].pid == p && Blocks() == old(Blocks())[p := Block(p, old(BlockOf(p)).argument)]
      ensures paging.Value() == P.SetUp(old(paging.Value()), p)
    {
      hide Image.Valid, P.SetUp, Blocks;
      procs[p] := 1;
      paging.PagingSetUp(p);
      pcbs[p].pid := p;
      SetUpIo(pcbs[p]);
      OneBlock(p);
    }

    /** Find and check the program a name buffer holds. */
    method LookUp(exe: seq<byte>, ghost name: seq<byte>) returns (r: Option<Dentry>, ok: bool)
      requires img.Valid() && NUL in exe && Text(exe) == name
      ensures r == Find(img.dentries, name) && (r == None ==> !ok)
      ensures r.Some? ==>
                && r.value.inodeIndex < |img.inodes|
                && HasMagic(img.Content(r.value.inodeIndex), ok)
    {
      r := ReadDentryByName(img, exe);
      FindIsMember(img.dentries, name);
      ok := false;
      if r.Some? {
        ok := IsExecutable(r.value.inodeIndex);
      }
    }

    /** The program the command names starts if it passes the magic number test. */
    ghost predicate MayStart(command: seq<byte>, started: bool)
      requires img.Valid()
    {
      var d := Program(command);
      if d == None then !started else
      && d.value.inodeIndex < |img.inodes|
      && HasMagic(img.Content(d.value.inodeIndex), started)
    }

    /** Start a program (execute): with no free slot nothing happens; otherwise the named program
        starts in the first free slot, with the rest of the command as its argument, or is refused,
        as a null pointer is. */
    method Execute(command: Option<seq<byte>>, ghost s: S.Processes) returns (r: Outcome)
      requires Is(s) && (S.FreeFrom(s.busy, 0) < S.SLOTS && command.Some? ==> GoodCommand(command.value))
      modifies procs, pcbs, Tables(), Arguments(), paging.dir
      ensures Is(S.Step(img, s, S.Execute(r.Started?)))
      ensures r == TooMany <==> S.FreeFrom(s.busy, 0) == S.SLOTS
      ensures r != TooMany ==> if command == None then r == Refused else MayStart(command.value, r.Started?)
      ensures r.Started? ==>
                && r.pid == S.FreeFrom(s.busy, 0) < S.SLOTS && pcbs[r.pid].pid == r.pid
                && paging.Value() == P.SetUp(old(paging.Value()), r.pid)
      ensures var f := S.FreeFrom(s.busy, 0);
              if r == TooMany || command == None then Blocks() == old(Blocks())
              else Blocks() == old(Blocks())[f := BlockOf(f)] && Holds(f, Argument(Text(command.value)))
      ensures !r.Started? ==> paging.Value() == old(paging.Value())
    {
      hide Image.Content, Image.Valid, S.FreeFrom, SkipSpaces, FirstWord, Text, Find, Blocks;
      var p := FindSlot(s);
      if p == 6 {
        return TooMany;
      }
      if command == None {
        return Refused;
      }
      var ok := Prepare(pcbs[p], command.value);
      OneBlock(p);
      if !ok {
        return Refused;
      }
      Begin(p, s);
      return Started(p);
    }

    /** The part of execute between the slot search and the point of no return: parse the command,
        store the argument, find and check the program. */
    method Prepare(pcb: Pcb, command: seq<byte>) returns (ok: bool)
      requires img.Valid() && pcb.Valid() && GoodCommand(command)
      modifies pcb.argument
      ensures MayStart(command, ok)
      ensures NUL in pcb.argument[..] && Text(pcb.argument[..]) == Argument(Text(command))
    {
      ghost var text := Text(command);
      TextStops(command);
      var exe, spaced, i := ParseName(command, text);
      StoreArgument(pcb, command, spaced, i, text);
      NameIsText(exe, ProgramName(text));
      var d;
      d, ok := LookUp(exe, ProgramName(text));
    }

    lemma NameIsText(exe: seq<byte>, name: seq<byte>)
      requires |name| < |exe| && exe[..|name|] == name && exe[|name|] == NUL && NUL !in name
      ensures NUL in exe && Text(exe) == name
    {
      TextUnique(exe, |name|);
    }

    /** Open a file for process `p` (open). */
    method Open(p: nat, filename: seq<byte>, ghost s: S.Processes) returns (fd: int)
      requires Is(s) && p < S.SLOTS && s.busy[p] && NUL in filename
      modifies pcbs[p].fdt
      ensures Is(S.Step(img, s, S.Open(p, Text(filename))))
      ensures var slot := FreeSlot(s.tables[p], 2);
              fd == if Find(img.dentries, Text(filename)) == None || slot == TABLE_SIZE then -1 else slot
    {
      hide Text;
      fd := pcbs[p].Open(img, filename);
      assert Is(S.OpenNamed(img, s, p, Text(filename)));
    }

    /** Read a file, the directory or the clock for process `p` (read).  That positions are in
        place holds in every run. */
    method Read(p: nat, fd: int, buf: array<byte>, nbytes: int32, ghost s: S.Processes) returns (n: int)
      requires Is(s) && S.FilesInPlace(img, s) && p < S.SLOTS && s.busy[p]
      requires 0 <= fd < TABLE_SIZE && s.tables[p][fd].flags != 0 ==> s.tables[p][fd].ops != StdinOps
      requires 0 <= fd < TABLE_SIZE && s.tables[p][fd].flags != 0 && s.tables[p][fd].ops == DirOps ==>
                 NAME_SIZE <= buf.Length
      requires nbytes <= buf.Length
      modifies buf, pcbs[p].fdt
      ensures Is(S.Step(img, s, S.Read(p, fd, nbytes)))
      ensures 0 <= fd < TABLE_SIZE && s.tables[p][fd].flags != 0 && s.tables[p][fd].ops == FileOps && nbytes > 0 ==>
                && OpenFile(img, s.tables[p][fd])
                && n == |NextBytes(img, s.tables[p][fd], nbytes)| <= buf.Length
                && buf[..] == Overwritten(old(buf[..]), 0, NextBytes(img, s.tables[p][fd], nbytes))
      ensures 0 <= fd < TABLE_SIZE && s.tables[p][fd].flags != 0 && s.tables[p][fd].ops == DirOps && fd >= 2 ==>
                var at := s.tables[p][fd].position;
                if at >= |img.dentries| then n == 0 && buf[..] == old(buf[..])
                else
                  var d := img.dentries[at];
                  && |d.fname| == NAME_SIZE && n == NameCount(d)
                  && buf[..] == Overwritten(old(buf[..]), 0, d.fname)
      ensures !(0 <= fd < TABLE_SIZE) || s.tables[p][fd].flags == 0 || s.tables[p][fd].ops !in {FileOps, DirOps}
              || (s.tables[p][fd].ops == FileOps && nbytes <= 0) || (s.tables[p][fd].ops == DirOps && fd < 2) ==>
                && n == (if 0 <= fd < TABLE_SIZE && s.tables[p][fd].flags != 0 && s.tables[p][fd].ops == RtcOps then 0
                         else -1)
                && buf[..] == old(buf[..])
    {
      hide Image.Content, Image.Valid, NextBytes, Unread;
      if 0 <= fd < TABLE_SIZE {
        ghost var d := s.tables[p][fd];
        assert S.InPlace(img, d);
        if OpenFile(img, d) {
          ReadAdvances(img, d, Max(nbytes, 0));
        }
        FewEntries();
        n := pcbs[p].Read(img, fd, buf, 0, nbytes);
        assert pcbs[p].fdt[fd].position == d.position + S.Moves(img, d, fd, nbytes);
        assert Is(S.Advance(img, s, p, fd, nbytes));
      } else {
        n := pcbs[p].Read(img, fd, buf, 0, nbytes);
      }
    }

    lemma FewEntries()
      requires img.Valid()
      ensures |img.dentries| < 0x1_0000_0000
    {
    }

    /** Close a descriptor of process `p` (close). */
    method Close(p: nat, fd: int, ghost s: S.Processes) returns (r: int)
      requires Is(s) && p < S.SLOTS && s.busy[p]
      modifies pcbs[p].fdt
      ensures Is(S.Step(img, s, S.Close(p, fd)))
      ensures r == if 2 <= fd < TABLE_SIZE && s.tables[p][fd].flags != 0 && s.tables[p][fd].ops != NoOps then 0 else -1
    {
      r := pcbs[p].Close(fd);
    }

    /** Close everything a program left open. */
    method CloseAll(pcb: Pcb)
      requires pcb.Valid()
      modifies pcb.fdt
      ensures pcb.fdt[..] == S.Closed(old(pcb.fdt[..]))
    {
      pcb.fdt[0] := pcb.fdt[0].(flags := 0);
      pcb.fdt[1] := pcb.fdt[1].(flags := 0);
      ghost var t := S.Closed(old(pcb.fdt[..]));
      for fd := 2 to 8
        invariant forall k :: 0 <= k < fd ==> pcb.fdt[k] == t[k]
        invariant forall k :: fd <= k < 8 ==> pcb.fdt[k] == old(pcb.fdt[k])
      {
        if pcb.fdt[fd].flags != 0 {
          var r := pcb.Close(fd);
        }
      }
    }

    /** The shell is on disk and executable. */
    ghost predicate HasShell()
      requires img.Valid()
    {
      var d := Find(img.dentries, Ascii("shell"));
      && d.Some? && d.value.inodeIndex < |img.inodes|
      && |img.Content(d.value.inodeIndex)| >= 4 && img.Content(d.value.inodeIndex)[..4] == ELF
    }

    /** Process `p`'s argument is zeroed; the block of slot `f` that a new shell gets, if `p` is a base
        shell, holds an empty argument; all others are as they were. */
    twostate predicate BlocksAfterHalt(p: nat, f: nat)
      requires |pcbs| == S.SLOTS && p < S.SLOTS && f < S.SLOTS
      reads pcbs, Arguments()
    {
      var cleared := old(Blocks())[p := Block(old(pcbs[p].pid), seq(128, _ => NUL))];
      if p >= S.BASE_SHELLS then Blocks() == cleared
      else Blocks() == cleared[f := BlockOf(f)] && Holds(f, [])
    }

    /** End process `p` (real_halt).  A base shell is followed by a new shell, if there is one on
        disk; what the kernel does to return to another program's parent changes no slot and no
        descriptor. */
    method RealHalt(p: nat, ghost s: S.Processes) returns (next: Option<nat>)
      requires Is(s) && p < S.SLOTS && s.busy[p]
      modifies procs, pcbs, Tables(), Arguments(), paging.dir
      ensures p >= S.BASE_SHELLS || HasShell() ==> Is(S.Halt(s, p))
      ensures p >= S.BASE_SHELLS || next == None ==> Is(S.Release(s, p))
      ensures next == None || (p < S.BASE_SHELLS && next == Some(S.FreeFrom(S.Release(s, p).busy, 0)))
      ensures p < S.BASE_SHELLS ==> MayStart(SHELL, next.Some?) && (HasShell() ==> next.Some?)
      ensures BlocksAfterHalt(p, S.FreeFrom(S.Release(s, p).busy, 0))
      ensures next.Some? ==>
                pcbs[next.value].pid == next.value && paging.Value() == P.SetUp(old(paging.Value()), next.value)
    {
      hide Image.Valid, Image.Content, S.Closed, S.FreeFrom, S.Start, HasShell, MayStart, Blocks;
      ReleaseSlot(p, s);
      ClearArgument(pcbs[p]);
      OneBlock(p);
      next := None;
      if p <= 2 {
        next := StartShell(S.Release(s, p));
      }
    }

    method ReleaseSlot(p: nat, ghost s: S.Processes)
      requires Is(s) && p < S.SLOTS
      modifies procs, pcbs[p].fdt
      ensures Is(S.Release(s, p))
    {
      procs[p] := 0;
      CloseAll(pcbs[p]);
    }

    method ClearArgument(pcb: Pcb)
      requires pcb.Valid()
      modifies pcb.argument
      ensures pcb.argument[..] == seq(128, _ => NUL)
    {
      for i := 0 to 128
        invariant forall k :: 0 <= k < i ==> pcb.argument[k] == NUL
      {
        pcb.argument[i] := NUL;
      }
    }

    method StartShell(ghost s: S.Processes) returns (next: Option<nat>)
      requires Is(s) && S.FreeFrom(s.busy, 0) < S.SLOTS
      modifies procs, pcbs, Tables(), Arguments(), paging.dir
      ensures MayStart(SHELL, next.Some?) && (HasShell() ==> next.Some?)
      ensures Is(if next.Some? then S.Start(s) else s)
      ensures next == None || next == Some(S.FreeFrom(s.busy, 0))
      ensures var f := S.FreeFrom(s.busy, 0); Blocks() == old(Blocks())[f := BlockOf(f)] && Holds(f, [])
      ensures next.Some? ==>
                pcbs[next.value].pid == next.value && paging.Value() == P.SetUp(old(paging.Value()), next.value)
    {
      ShellIsGood();
      hide Image.Valid, Image.Content, Blocks, S.FreeFrom, S.Start, GoodCommand, ProgramName, Argument;
      hide HasShell, MayStart, Text;
      var r := Execute(Some(SHELL), s);
      ShellStarts(r.Started?);
      next := if r.Started? then Some(r.pid) else None;
    }

    lemma ShellStarts(started: bool)
      requires img.Valid() && MayStart(SHELL, started)
      ensures HasShell() ==> started
    {
      ShellIsGood();
    }

    lemma ShellIsGood()
      ensures GoodCommand(SHELL) && ProgramName(Text(SHELL)) == Ascii("shell") && Argument(Text(SHELL)) == []
    {
      var shell := Ascii("shell");
      TextOfString(shell, [NUL]);
      CommandSplits(0, shell, 0, []);
      assert Spaces(0) + (shell + (Spaces(0) + [])) == shell;
    }
  }
}
