/** Per-process descriptor tables and the file operations behind them (files.c, system_call.c). */
module Descriptors {
  import opened Machine
  import opened CString
  import opened FileSystem
  import opened Counts

  const TABLE_SIZE := 8

  datatype Ops = NoOps | RtcOps | DirOps | FileOps | StdinOps | StdoutOps

  datatype Descriptor = Descriptor(ops: Ops, inode: uint32, position: uint32, flags: uint32)

  /** The jump table for a file type (find_table_point). */
  function OpsFor(fileType: uint32): Ops {
    match fileType
    case 0 => RtcOps
    case 1 => DirOps
    case 2 => FileOps
    case 3 => StdinOps
    case 4 => StdoutOps
    case _ => NoOps
  }

  /** An open regular file whose position lies within the file. */
  ghost predicate OpenFile(img: Image, d: Descriptor) {
    && img.Valid() && d.flags != 0 && d.ops == FileOps
    && d.inode < |img.inodes| && d.position <= img.inodes[d.inode].length
  }

  /** What the next read of `n` bytes from the descriptor returns. */
  ghost function NextBytes(img: Image, d: Descriptor, n: nat): seq<byte>
    requires OpenFile(img, d)
  {
    Slice(img.Content(d.inode), d.position, n)
  }

  /** What the descriptor has not delivered yet. */
  ghost function Unread(img: Image, d: Descriptor): seq<byte>
    requires OpenFile(img, d)
  {
    img.Content(d.inode)[d.position..]
  }

  /** The lowest free slot among 2..7, or 8. */
  ghost function FreeSlot(fdt: seq<Descriptor>, from: nat): (r: nat)
    requires |fdt| == TABLE_SIZE && 2 <= from <= TABLE_SIZE
    ensures from <= r <= TABLE_SIZE && (r < TABLE_SIZE ==> fdt[r].flags == 0)
    ensures forall i :: from <= i < r ==> fdt[i].flags != 0
    decreases TABLE_SIZE - from
  {
    if from == TABLE_SIZE || fdt[from].flags == 0 then from else FreeSlot(fdt, from + 1)
  }

  /** Filling the first free descriptor makes the next one first. */
  lemma {:induction false} NextFreeSlot(fdt: seq<Descriptor>, from: nat, d: Descriptor)
    requires |fdt| == TABLE_SIZE && 2 <= from <= TABLE_SIZE && d.flags != 0
    requires FreeSlot(fdt, from) < TABLE_SIZE
    ensures FreeSlot(fdt[FreeSlot(fdt, from) := d], from) == FreeSlot(fdt, FreeSlot(fdt, from) + 1)
    decreases TABLE_SIZE - from
  {
    if fdt[from].flags == 0 {
      SameAbove(fdt, fdt[from := d], from + 1);
    } else {
      NextFreeSlot(fdt, from + 1, d);
    }
  }

  lemma {:induction false} SameAbove(a: seq<Descriptor>, b: seq<Descriptor>, from: nat)
    requires |a| == |b| == TABLE_SIZE && 2 <= from <= TABLE_SIZE && a[from..] == b[from..]
    ensures FreeSlot(a, from) == FreeSlot(b, from)
    decreases TABLE_SIZE - from
  {
    if from < TABLE_SIZE {
      assert a[from] == a[from..][0] == b[from];
      assert a[from + 1..] == a[from..][1..] == b[from + 1..];
      SameAbove(a, b, from + 1);
    }
  }

  ghost function Opened(d: Dentry): Descriptor {
    Descriptor(OpsFor(d.fileType), if d.fileType == 2 then d.inodeIndex else 0, 0, 1)
  }

  /** What dir_read returns for an entry: how many of its 32 name bytes are not NUL. */
  ghost function NameCount(d: Dentry): (n: nat)
    requires |d.fname| == NAME_SIZE
    ensures n <= NAME_SIZE
  {
    CountAtMost(d.fname);
    |d.fname| - multiset(d.fname)[NUL]
  }

  lemma {:induction false} CountAtMost(s: seq<byte>)
    ensures multiset(s)[NUL] <= |s|
  {
    if s != [] {
      CountAtMost(s[1..]);
      assert s == [s[0]] + s[1..];
    }
  }

  lemma {:induction false} AllNulIff(s: seq<byte>)
    ensures multiset(s)[NUL] == |s| <==> forall i :: 0 <= i < |s| ==> s[i] == NUL
  {
    if s != [] {
      var t := s[1..];
      assert s == [s[0]] + t && forall i :: 0 <= i < |t| ==> t[i] == s[i + 1];
      AllNulIff(t);
      CountAtMost(t);
    }
  }

  /** No byte other than NUL behind the first NUL. */
  ghost predicate ZeroPadded(d: Dentry) {
    forall i :: |Name(d)| <= i < |d.fname| ==> d.fname[i] == NUL
  }

  /** The count is the length of the name if and only if the name is padded with zeros. */
  lemma NameCountIff(d: Dentry)
    requires |d.fname| == NAME_SIZE
    ensures NameCount(d) == |Name(d)| <==> ZeroPadded(d)
  {
    var n := |Name(d)|;
    var rest := d.fname[n..];
    assert d.fname == Name(d) + rest;
    assert multiset(d.fname) == multiset(Name(d)) + multiset(rest);
    assert multiset(Name(d))[NUL] == 0;
    AllNulIff(rest);
    assert forall i :: n <= i < NAME_SIZE ==> d.fname[i] == rest[i - n];
    assert forall i :: 0 <= i < |rest| ==> rest[i] == d.fname[n + i];
  }

  /** The name "a" with a stray "b" behind its terminator counts as two. */
  lemma NameCountFails()
    ensures var d := Dentry([97, NUL, 98] + seq(29, _ => NUL), 2, 0); |Name(d)| == 1 && NameCount(d) == 2
  {
    var d := Dentry([97, NUL, 98] + seq(29, _ => NUL), 2, 0);
    TextUnique(d.fname, 1);
    var zeros: seq<byte> := seq(29, _ => NUL);
    AllNulIff(zeros);
    assert multiset(d.fname) == multiset([97, NUL, 98]) + multiset(zeros);
  }

  class Pcb {
    var pid: int
    const fdt: array<Descriptor>
    const argument: array<byte>

    /** Process memory starts zeroed. */
    constructor ()
      ensures Valid() && fresh(fdt) && fresh(argument)
      ensures forall i :: 0 <= i < TABLE_SIZE ==> fdt[i] == Descriptor(NoOps, 0, 0, 0)
    {
      pid := 0;
      fdt := new Descriptor[TABLE_SIZE](_ => Descriptor(NoOps, 0, 0, 0));
      argument := new byte[128](_ => NUL);
    }

    predicate Valid() {
      fdt.Length == TABLE_SIZE && argument.Length == 128
    }

    /** Read from an open file and advance its position (file_read). */
    method FileRead(img: Image, fd: nat, buf: array?<byte>, base: nat, nbytes: int32) returns (n: int)
      requires Valid() && fd < TABLE_SIZE && OpenFile(img, fdt[fd])
      requires buf != null && nbytes > 0 ==> base + |NextBytes(img, fdt[fd], nbytes)| <= buf.Length
      modifies buf, fdt
      ensures buf == null || nbytes <= 0 ==> n == -1 && unchanged(fdt) && (buf != null ==> unchanged(buf))
      ensures buf != null && nbytes > 0 ==>
                var s := NextBytes(img, old(fdt[fd]), nbytes);
                && n == |s|
                && fdt[..] == old(fdt[..])[fd := old(fdt[fd]).(position := old(fdt[fd]).position + n)]
                && (forall k :: base <= k < base + n ==> buf[k] == s[k - base])
                && (forall k :: 0 <= k < base || base + n <= k < buf.Length ==> buf[k] == old(buf[k]))
    {
      if buf == null || nbytes <= 0 {
        return -1;
      }
      var d := fdt[fd];
      n := ReadData(img, d.inode, d.position, buf, base, nbytes);
      fdt[fd] := d.(position := d.position + n);
    }

    /** The next directory entry's 32 name bytes are in the buffer and their number without NULs
        is the result; at the end of the directory nothing happens. */
    twostate predicate DeliversEntry(img: Image, fd: nat, buf: array<byte>, base: nat, n: int)
      requires Valid() && img.Valid() && fd < TABLE_SIZE && base + NAME_SIZE <= buf.Length
      reads fdt, buf
    {
      var at := old(fdt[fd]).position;
      if at >= |img.dentries| then n == 0 && unchanged(fdt, buf) else
      var d := img.dentries[at];
      && |d.fname| == NAME_SIZE && n == NameCount(d)
      && (forall k :: base <= k < base + NAME_SIZE ==> buf[k] == d.fname[k - base])
      && buf[..] == Overwritten(old(buf[..]), base, d.fname)
      && fdt[..] == old(fdt[..])[fd := old(fdt[fd]).(position := at + 1)]
    }

    /** Read the next directory entry's 32 name bytes (dir_read).  The count is ignored. */
    method DirRead(img: Image, fd: int, buf: array?<byte>, base: nat, nbytes: int32) returns (n: int)
      requires Valid() && img.Valid()
      requires buf != null ==> base + NAME_SIZE <= buf.Length
      modifies buf, fdt
      ensures buf == null || !(2 <= fd < TABLE_SIZE) ==> n == -1 && unchanged(fdt) && (buf != null ==> unchanged(buf))
      ensures buf != null && 2 <= fd < TABLE_SIZE ==> DeliversEntry(img, fd, buf, base, n)
    {
      if buf == null {
        return -1;
      }
      if fd < 2 || fd > 7 {
        return -1;
      }
      var offset := fdt[fd].position;
      if offset >= |img.dentries| {
        return 0;
      }
      var d := img.dentries[offset];
      assert d in img.dentries;
      for i := 0 to 32
        invariant fdt[..] == old(fdt[..])
        invariant forall k :: base <= k < base + i ==> buf[k] == d.fname[k - base]
        invariant forall k :: 0 <= k < base || base + i <= k < buf.Length ==> buf[k] == old(buf[k])
      {
        buf[base + i] := d.fname[i];
      }
      fdt[fd] := fdt[fd].(position := offset + 1);
      n := CountNonZero(d.fname);
      assert buf[..] == Overwritten(old(buf[..]), base, d.fname);
    }

    /** Open a file by name in the lowest free descriptor (open). */
    method Open(img: Image, filename: seq<byte>) returns (fd: int)
      requires Valid() && img.Valid() && NUL in filename
      modifies fdt
      ensures var r := Find(img.dentries, Text(filename)); var slot := FreeSlot(old(fdt[..]), 2);
              if r == None || slot == TABLE_SIZE then
                fd == -1 && fdt[..] == old(fdt[..])
              else
                fd == slot && fdt[..] == old(fdt[..])[slot := Opened(r.value)]
    {
      var r := ReadDentryByName(img, filename);
      if r == None {
        return -1;
      }
      var index := 2;
      while index < 8
        invariant 2 <= index <= 8 && FreeSlot(fdt[..], 2) == FreeSlot(fdt[..], index)
        invariant fdt[..] == old(fdt[..])
      {
        if fdt[index].flags == 0 {
          fdt[index] := Descriptor(OpsFor(r.value.fileType), 0, 0, fdt[index].flags);
          if r.value.fileType == 2 {
            fdt[index] := fdt[index].(inode := r.value.inodeIndex);
          } else {
            fdt[index] := fdt[index].(inode := 0);
          }
          fdt[index] := fdt[index].(position := 0);
          fdt[index] := fdt[index].(flags := 1);
          return index;
        }
        index := index + 1;
      }
      return -1;
    }

    /** Close a descriptor (close); the three close operations return 0. */
    method Close(fd: int) returns (r: int)
      requires Valid()
      modifies fdt
      ensures if 2 <= fd < TABLE_SIZE && old(fdt[fd]).flags != 0 && old(fdt[fd]).ops != NoOps then
                r == 0 && fdt[..] == old(fdt[..])[fd := old(fdt[fd]).(flags := 0)]
              else
                r == -1 && fdt[..] == old(fdt[..])
    {
      if fd < 2 || fd >= 8 {
        return -1;
      }
      if fdt[fd].flags == 0 {
        return -1;
      }
      if fdt[fd].ops == NoOps {
        return -1;
      }
      fdt[fd] := fdt[fd].(flags := 0);
      return 0;
    }

    /** Copy the stored argument string, terminator included, if there is one (getargs).  The count
        is tested, and then ignored. */
    method GetArgs(buf: array?<byte>, nbytes: int32) returns (r: int)
      requires Valid() && NUL in argument[..]
      requires buf != null && nbytes > 0 ==> |Text(argument[..])| < buf.Length && buf != argument
      modifies buf
      ensures if buf == null || nbytes <= 0 || Text(argument[..]) == [] then
                r == -1 && (buf != null ==> unchanged(buf))
              else
                r == 0 && buf[..] == Overwritten(old(buf[..]), 0, Text(argument[..]) + [NUL])
    {
      if buf == null || nbytes <= 0 {
        return -1;
      }
      if argument[0] == NUL {
        return -1;
      }
      ghost var text := Text(argument[..]);
      TextStops(argument[..]);
      hide Text;
      var i := 0;
      while argument[i] != NUL
        invariant 0 <= i <= |text| && argument[|text|] == NUL
        invariant forall k :: 0 <= k < |text| ==> argument[k] == text[k] != NUL
        invariant forall k :: 0 <= k < i ==> buf[k] == text[k]
        invariant forall k :: i <= k < buf.Length ==> buf[k] == old(buf[k])
        decreases |text| - i
      {
        buf[i] := argument[i];
        i := i + 1;
      }
      buf[i] := NUL;
      return 0;
    }

    /** The read system call on anything but the keyboard (read).  The clock's read waits for its
        next interrupt and delivers nothing. */
    method Read(img: Image, fd: int, buf: array<byte>, base: nat, nbytes: int32) returns (n: int)
      requires Valid() && img.Valid()
      requires 0 <= fd < TABLE_SIZE && fdt[fd].flags != 0 && fdt[fd].ops == FileOps ==>
                 OpenFile(img, fdt[fd]) && (nbytes > 0 ==> base + |NextBytes(img, fdt[fd], nbytes)| <= buf.Length)
      requires 0 <= fd < TABLE_SIZE && fdt[fd].flags != 0 ==> fdt[fd].ops != StdinOps
      requires 0 <= fd < TABLE_SIZE && fdt[fd].flags != 0 && fdt[fd].ops == DirOps ==> base + NAME_SIZE <= buf.Length
      modifies buf, fdt
      ensures !(0 <= fd < TABLE_SIZE) || old(fdt[fd]).flags == 0 || old(fdt[fd]).ops in {NoOps, StdoutOps} ==>
                n == -1 && unchanged(buf, fdt)
      ensures 0 <= fd < TABLE_SIZE && old(fdt[fd]).flags != 0 && old(fdt[fd]).ops == RtcOps ==>
                n == 0 && unchanged(buf, fdt)
      ensures 0 <= fd < TABLE_SIZE && old(fdt[fd]).flags != 0 && old(fdt[fd]).ops == DirOps ==>
                if fd < 2 then n == -1 && unchanged(buf, fdt) else DeliversEntry(img, fd, buf, base, n)
      ensures 0 <= fd < TABLE_SIZE && old(fdt[fd]).flags != 0 && old(fdt[fd]).ops == FileOps ==>
                if nbytes <= 0 then n == -1 && unchanged(buf, fdt) else
                var s := NextBytes(img, old(fdt[fd]), nbytes);
                && n == |s|
                && fdt[..] == old(fdt[..])[fd := old(fdt[fd]).(position := old(fdt[fd]).position + n)]
                && (forall k :: base <= k < base + n ==> buf[k] == s[k - base])
                && (forall k :: 0 <= k < base || base + n <= k < buf.Length ==> buf[k] == old(buf[k]))
    {
      if fd < 0 || fd >= 8 {
        return -1;
      }
      if fdt[fd].flags == 0 {
        return -1;
      }
      if fdt[fd].ops == NoOps {
        return -1;
      }
      match fdt[fd].ops
      case FileOps => n := FileRead(img, fd, buf, base, nbytes);
      case DirOps => n := DirRead(img, fd, buf, base, nbytes);
      case RtcOps => n := 0;
      case StdoutOps => n := -1;
    }
  }

  /** The counting loop of dir_read. */
  method CountNonZero(s: seq<byte>) returns (n: nat)
    ensures n == |s| - multiset(s)[NUL]
  {
    n := 0;
    for i := 0 to |s|
      invariant n == i - multiset(s[..i])[NUL]
    {
      assert s[..i + 1] == s[..i] + [s[i]];
      if s[i] != NUL {
        n := n + 1;
      }
    }
    assert s[..|s|] == s;
  }

  /** A just opened regular file is an open file with everything left to read. */
  lemma OpenedIsFresh(img: Image, name: seq<byte>)
    requires img.Valid()
    ensures Find(img.dentries, name).Some? && Find(img.dentries, name).value.fileType == 2 ==>
              var d := Opened(Find(img.dentries, name).value);
              OpenFile(img, d) && Unread(img, d) == img.Content(d.inode)
  {
    FindIsMember(img.dentries, name);
  }

  lemma {:induction false} FindIsMember(entries: seq<Dentry>, name: seq<byte>)
    ensures Find(entries, name).Some? ==>
              Find(entries, name).value in entries && Name(Find(entries, name).value) == name
  {
    if entries != [] {
      FindIsMember(entries[1..], name);
    }
  }

  /** One read takes the next bytes off the front of what is unread, and the position never
      passes the length; a read comes up short only at the end of the file. */
  lemma ReadAdvances(img: Image, d: Descriptor, n: nat)
    requires OpenFile(img, d)
    ensures var s := NextBytes(img, d, n); var d' := d.(position := d.position + |s|);
            && OpenFile(img, d') && Unread(img, d) == s + Unread(img, d')
            && |s| <= n && (|s| < n ==> Unread(img, d') == [])
  {
  }

  // -------------------------------------------------------------------------- what stays the same

  /** No descriptor but these two has changed. */
  ghost predicate OthersKept(was: seq<Descriptor>, now: seq<Descriptor>, fd0: nat, fd1: nat) {
    |was| == |now| && forall fd :: 0 <= fd < |was| && fd != fd0 && fd != fd1 ==> now[fd] == was[fd]
  }

  /** The same of a process's table. */
  ghost predicate TableKept(pcb: Pcb, was: seq<Descriptor>, fd0: nat, fd1: nat)
    reads pcb.fdt
  {
    OthersKept(was, pcb.fdt[..], fd0, fd1)
  }

  lemma KeptTwice(pcb: Pcb, a: seq<Descriptor>, b: seq<Descriptor>, fd0: nat, fd1: nat)
    requires OthersKept(a, b, fd0, fd1) && TableKept(pcb, b, fd0, fd1)
    ensures TableKept(pcb, a, fd0, fd1)
  {
  }

  lemma KeptToo(pcb: Pcb, a: seq<Descriptor>, b: seq<Descriptor>, fd: nat)
    requires OthersKept(a, b, fd, fd) && fd < |b| == pcb.fdt.Length && pcb.fdt[..] == b[fd := pcb.fdt[fd]]
    ensures TableKept(pcb, a, fd, fd)
  {
  }

  lemma KeptSoFar(pcb: Pcb, fd0: nat, fd1: nat)
    ensures TableKept(pcb, pcb.fdt[..], fd0, fd1)
  {
  }

  lemma KeptBefore(pcb: Pcb, was: seq<Descriptor>, fd0: nat, fd1: nat)
    requires TableKept(pcb, was, fd0, fd1)
    ensures OthersKept(was, pcb.fdt[..], fd0, fd1)
  {
  }
}
