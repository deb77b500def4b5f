/** What the calls do to the process that makes them, and that they leave the others alone
    (system_call.c). */
module ProcessLaws {
  import opened Machine
  import opened FileSystem
  import opened Descriptors
  import opened ProcessSpec

  // ------------------------------------------------------------------------ the calls one by one

  /** A program takes the first free one of six slots, with descriptor 0 for input and 1 for output;
      with all six in use none starts. */
  lemma StartTakes(s: Processes)
    requires Valid(s)
    ensures |s.busy| == 6 && ((forall p :: 0 <= p < 6 ==> s.busy[p]) <==> FreeFrom(s.busy, 0) == 6)
    ensures FreeFrom(s.busy, 0) == 6 ==> Start(s) == s
    ensures FreeFrom(s.busy, 0) < 6 ==>
              var f, r := FreeFrom(s.busy, 0), Start(s); var t := r.tables[f];
              && r.busy == s.busy[f := true] && r.tables == s.tables[f := t] && |t| == 8
              && t[0].ops == StdinOps && t[0].flags == 1 && t[1].ops == StdoutOps && t[1].flags == 1
              && forall fd :: 2 <= fd < 8 ==> t[fd].flags == 0
  {
  }

  /** A process that ends, and is no base shell, frees its slot and all its descriptors. */
  lemma ExitFrees(s: Processes, p: nat)
    requires Valid(s) && BASE_SHELLS <= p < SLOTS && s.busy[p]
    ensures var r := Halt(s, p);
            && r.busy == s.busy[p := false] && r.tables == s.tables[p := r.tables[p]]
            && NoneOpen(r.tables[p]) && FreeFrom(r.busy, 0) <= p
  {
    ReleaseKeepsValid(s, p);
    assert !Halt(s, p).busy[p];
  }

  /** An open file or directory is at its start, and reads as what its entry says. */
  lemma OpenMeans(img: Image, s: Processes, p: nat, name: seq<byte>)
    requires img.Valid() && Valid(s) && p < SLOTS && s.busy[p]
    requires Find(img.dentries, name).Some? && FreeSlot(s.tables[p], 2) < TABLE_SIZE
    ensures var r, fd, e := OpenNamed(img, s, p, name), FreeSlot(s.tables[p], 2), Find(img.dentries, name).value;
            var d := r.tables[p][fd];
            && r == s.(tables := s.tables[p := s.tables[p][fd := d]])
            && d.flags == 1 && d.position == 0 && d.inode == (if e.fileType == 2 then e.inodeIndex else 0)
            && d.ops == (if e.fileType == 0 then RtcOps else if e.fileType == 1 then DirOps else FileOps)
            && (e.fileType == 2 ==> OpenFile(img, d) && Unread(img, d) == img.Content(e.inodeIndex))
  {
    FindIsMember(img.dentries, name);
  }

  /** A read moves the descriptor exactly behind the bytes, or the entry, it delivers. */
  lemma ReadMeans(img: Image, s: Processes, p: nat, fd: nat, nbytes: nat)
    requires img.Valid() && Shape(s) && p < SLOTS && 2 <= fd < TABLE_SIZE && s.tables[p][fd].flags != 0
    ensures var r, d := Advance(img, s, p, fd, nbytes), s.tables[p][fd]; var d' := r.tables[p][fd];
            && r == s.(tables := s.tables[p := s.tables[p][fd := d']])
            && (OpenFile(img, d) ==>
                  && OpenFile(img, d')
                  && Unread(img, d) == NextBytes(img, d, nbytes) + Unread(img, d'))
            && (d.ops == DirOps ==> d'.position == if d.position < |img.dentries| then d.position + 1 else d.position)
            && (d.ops == RtcOps ==> d' == d)
  {
    var d := s.tables[p][fd];
    assert |img.dentries| < 0x1_0000_0000;
    if OpenFile(img, d) {
      ReadAdvances(img, d, nbytes);
    }
  }

  /** Closing gives back exactly this descriptor, and never standard input or output. */
  lemma CloseMeans(s: Processes, p: nat, fd: int)
    requires Valid(s) && p < SLOTS && s.busy[p]
    ensures var r := CloseFile(s, p, fd);
            && r.busy == s.busy && (forall q :: 0 <= q < SLOTS && q != p ==> r.tables[q] == s.tables[q])
            && (forall k :: 0 <= k < TABLE_SIZE && k != fd ==> r.tables[p][k] == s.tables[p][k])
            && (2 <= fd < TABLE_SIZE ==> r.tables[p][fd].flags == 0)
            && r.tables[p][0] == STDIN && r.tables[p][1] == STDOUT
  {
    assert Usable(s.tables[p]);
  }

  /** Opening and closing again leaves every descriptor as it was but the one used, which is free. */
  lemma OpenThenClose(img: Image, s: Processes, p: nat, name: seq<byte>)
    requires img.Valid() && Valid(s) && p < SLOTS && s.busy[p]
    requires Find(img.dentries, name).Some? && FreeSlot(s.tables[p], 2) < TABLE_SIZE
    ensures var fd := FreeSlot(s.tables[p], 2); var r := CloseFile(OpenNamed(img, s, p, name), p, fd);
            && r == s.(tables := s.tables[p := s.tables[p][fd := r.tables[p][fd]]])
            && r.tables[p][fd].flags == 0 && s.tables[p][fd].flags == 0 && FreeSlot(r.tables[p], 2) == fd
  {
    var fd := FreeSlot(s.tables[p], 2);
    OpenMeans(img, s, p, name);
    OpenKeepsValid(img, s, p, name);
    CloseMeans(OpenNamed(img, s, p, name), p, fd);
    var r := CloseFile(OpenNamed(img, s, p, name), p, fd);
    assert r.tables[p] == s.tables[p][fd := r.tables[p][fd]];
    assert r.tables[p][fd].flags == 0;
    assert forall k :: 2 <= k < fd ==> r.tables[p][k] == s.tables[p][k] && s.tables[p][k].flags != 0;
  }

  // ------------------------------------------------------------------------------ the others

  /** The event is a call of process `q`, or starts a program in its slot. */
  ghost predicate Touches(s: Processes, e: Event, q: nat)
    requires Shape(s) && Possible(s, e)
  {
    match e
    case Execute(found) => found && q == FreeFrom(s.busy, 0)
    case Open(p, _) => p == q
    case Read(p, _, _) => p == q
    case Close(p, _) => p == q
    case Exit(p) => p == q || (p < BASE_SHELLS && q == FreeFrom(Release(s, p).busy, 0))
  }

  /** A call changes nothing of any other process. */
  lemma StepKeepsOthers(img: Image, s: Processes, e: Event, q: nat)
    requires Shape(s) && Possible(s, e) && q < SLOTS && !Touches(s, e, q)
    ensures Step(img, s, e).busy[q] == s.busy[q] && Step(img, s, e).tables[q] == s.tables[q]
  {
    hide Moves, Closed, Opened, Find;
  }

  ghost predicate TouchesAny(img: Image, s: Processes, es: seq<Event>, q: nat)
    requires Shape(s) && PossibleRun(img, s, es)
    decreases |es|
  {
    es != [] && (Touches(s, es[0], q) || TouchesAny(img, Step(img, s, es[0]), es[1..], q))
  }

  /** Nor does any run of calls of other processes: descriptors are private. */
  lemma {:induction false} RunKeepsOthers(img: Image, s: Processes, es: seq<Event>, q: nat)
    requires Shape(s) && PossibleRun(img, s, es) && q < SLOTS && !TouchesAny(img, s, es, q)
    ensures Run(img, s, es).busy[q] == s.busy[q] && Run(img, s, es).tables[q] == s.tables[q]
    decreases |es|
  {
    if es != [] {
      StepKeepsOthers(img, s, es[0], q);
      RunKeepsOthers(img, Step(img, s, es[0]), es[1..], q);
    }
  }

  /** A running program keeps its slot until it ends: no start takes a slot that is in use. */
  lemma StartsElsewhere(s: Processes, found: bool, q: nat)
    requires Shape(s) && q < SLOTS && s.busy[q]
    ensures !Touches(s, Execute(found), q)
    ensures forall p :: 0 <= p < BASE_SHELLS && p != q ==> Possible(s, Exit(p)) ==> !Touches(s, Exit(p), q)
  {
    forall p | 0 <= p < BASE_SHELLS && p != q && Possible(s, Exit(p))
      ensures !Touches(s, Exit(p), q)
    {
      assert Release(s, p).busy[q];
    }
  }
}
