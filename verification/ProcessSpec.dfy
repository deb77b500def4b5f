/** Process slots and descriptor tables as a state machine (system_call.c). */
module ProcessSpec {
  import opened Machine
  import opened FileSystem
  import opened Descriptors

  const SLOTS := 6
  const BASE_SHELLS := 3

  datatype Processes = Processes(busy: seq<bool>, tables: seq<seq<Descriptor>>)

  ghost predicate Shape(s: Processes) {
    |s.busy| == SLOTS && |s.tables| == SLOTS && forall p :: 0 <= p < SLOTS ==> |s.tables[p]| == TABLE_SIZE
  }

  ghost predicate NoneOpen(t: seq<Descriptor>) {
    forall fd :: 0 <= fd < |t| ==> t[fd].flags == 0
  }

  /** Open descriptors have an operation table. */
  ghost predicate Usable(t: seq<Descriptor>) {
    forall fd :: 0 <= fd < |t| ==> t[fd].flags != 0 ==> t[fd].ops != NoOps
  }

  /** A free slot has no open descriptor; a busy one has stdin and stdout open. */
  ghost predicate Valid(s: Processes) {
    && Shape(s)
    && forall p :: 0 <= p < SLOTS ==>
         && Usable(s.tables[p])
         && (!s.busy[p] ==> NoneOpen(s.tables[p]))
         && (s.busy[p] ==> s.tables[p][0] == STDIN && s.tables[p][1] == STDOUT)
  }

  const STDIN := Descriptor(StdinOps, 0, 0, 1)
  const STDOUT := Descriptor(StdoutOps, 0, 0, 1)

  /** The first free slot, or 6. */
  ghost function FreeFrom(busy: seq<bool>, p: nat): (r: nat)
    requires |busy| == SLOTS && p <= SLOTS
    ensures p <= r <= SLOTS && (r < SLOTS ==> !busy[r]) && forall q :: p <= q < r ==> busy[q]
    decreases SLOTS - p
  {
    if p == SLOTS || !busy[p] then p else FreeFrom(busy, p + 1)
  }

  /** A program starts in the first free slot: the slot is taken, stdin and stdout are set up. */
  ghost function Start(s: Processes): (r: Processes)
    requires Shape(s)
    ensures Shape(r)
  {
    var p := FreeFrom(s.busy, 0);
    if p == SLOTS then s
    else Processes(s.busy[p := true], s.tables[p := s.tables[p][0 := STDIN][1 := STDOUT]])
  }

  /** The directory entry of that name, if there is one, is opened in the lowest free descriptor. */
  ghost function OpenNamed(img: Image, s: Processes, p: nat, name: seq<byte>): (r: Processes)
    requires Shape(s) && p < SLOTS
    ensures Shape(r)
  {
    var d, slot := Find(img.dentries, name), FreeSlot(s.tables[p], 2);
    if d == None || slot == TABLE_SIZE then s
    else s.(tables := s.tables[p := s.tables[p][slot := Opened(d.value)]])
  }

  /** How far a read that asks for `nbytes` moves a descriptor: by the bytes there are, or to the
      next directory entry.  The directory read refuses descriptors 0 and 1. */
  ghost function Moves(img: Image, d: Descriptor, fd: nat, nbytes: int): (n: nat)
    ensures n > 0 ==> d.flags != 0 && d.ops in {FileOps, DirOps}
    ensures d.position + n < 0x1_0000_0000
  {
    if OpenFile(img, d) then |NextBytes(img, d, Max(nbytes, 0))|
    else if d.flags != 0 && d.ops == DirOps && fd >= 2
         && d.position < |img.dentries| && d.position + 1 < 0x1_0000_0000 then 1
    else 0
  }

  /** A read moves the position of an open file or directory. */
  ghost function Advance(img: Image, s: Processes, p: nat, fd: int, nbytes: int): (r: Processes)
    requires Shape(s) && p < SLOTS
    ensures Shape(r)
  {
    if !(0 <= fd < TABLE_SIZE) then s else
    var d := s.tables[p][fd];
    s.(tables := s.tables[p := s.tables[p][fd := d.(position := d.position + Moves(img, d, fd, nbytes))]])
  }

  ghost function CloseFile(s: Processes, p: nat, fd: int): (r: Processes)
    requires Shape(s) && p < SLOTS
    ensures Shape(r)
  {
    if 2 <= fd < TABLE_SIZE && s.tables[p][fd].flags != 0 && s.tables[p][fd].ops != NoOps then
      s.(tables := s.tables[p := s.tables[p][fd := s.tables[p][fd].(flags := 0)]])
    else s
  }

  /** What halting leaves of a descriptor table. */
  ghost function Closed(t: seq<Descriptor>): seq<Descriptor> {
    seq(|t|, fd requires 0 <= fd < |t| => if fd < 2 || t[fd].ops != NoOps then t[fd].(flags := 0) else t[fd])
  }

  ghost function Release(s: Processes, p: nat): (r: Processes)
    requires Shape(s) && p < SLOTS
    ensures Shape(r)
  {
    Processes(s.busy[p := false], s.tables[p := Closed(s.tables[p])])
  }

  /** Halting frees the slot; in the slot of a base shell a new shell is started at once. */
  ghost function Halt(s: Processes, p: nat): (r: Processes)
    requires Shape(s) && p < SLOTS
    ensures Shape(r)
  {
    if p < BASE_SHELLS then Start(Release(s, p)) else Release(s, p)
  }

  /** The calls with their arguments; `Execute(false)` is an attempt that finds no such executable. */
  datatype Event =
    | Execute(found: bool)
    | Open(p: nat, name: seq<byte>)
    | Read(p: nat, fd: int, nbytes: int)
    | Close(p: nat, fd: int)
    | Exit(p: nat)

  /** Only a running process makes system calls. */
  ghost predicate Possible(s: Processes, e: Event)
    requires Shape(s)
  {
    match e
    case Execute(_) => true
    case Open(p, _) => p < SLOTS && s.busy[p]
    case Read(p, _, _) => p < SLOTS && s.busy[p]
    case Close(p, _) => p < SLOTS && s.busy[p]
    case Exit(p) => p < SLOTS && s.busy[p]
  }

  ghost function Step(img: Image, s: Processes, e: Event): (r: Processes)
    requires Shape(s) && Possible(s, e)
    ensures Shape(r)
  {
    match e
    case Execute(found) => if found then Start(s) else s
    case Open(p, name) => OpenNamed(img, s, p, name)
    case Read(p, fd, nbytes) => Advance(img, s, p, fd, nbytes)
    case Close(p, fd) => CloseFile(s, p, fd)
    case Exit(p) => Halt(s, p)
  }

  ghost predicate PossibleRun(img: Image, s: Processes, es: seq<Event>)
    requires Shape(s)
    decreases |es|
  {
    es == [] || (Possible(s, es[0]) && PossibleRun(img, Step(img, s, es[0]), es[1..]))
  }

  ghost function Run(img: Image, s: Processes, es: seq<Event>): (r: Processes)
    requires Shape(s) && PossibleRun(img, s, es)
    ensures Shape(r)
    decreases |es|
  {
    if es == [] then s else Run(img, Step(img, s, es[0]), es[1..])
  }

  lemma StartKeepsValid(s: Processes)
    requires Valid(s)
    ensures Valid(Start(s))
  {
    var p := FreeFrom(s.busy, 0);
    if p < SLOTS {
      assert Usable(s.tables[p][0 := STDIN][1 := STDOUT]);
    }
  }

  lemma ReleaseKeepsValid(s: Processes, p: nat)
    requires Valid(s) && p < SLOTS && s.busy[p]
    ensures Valid(Release(s, p)) && NoneOpen(Release(s, p).tables[p])
  {
    var t := Closed(s.tables[p]);
    assert forall fd :: 0 <= fd < TABLE_SIZE ==> t[fd].flags == 0;
  }

  lemma OpenKeepsValid(img: Image, s: Processes, p: nat, name: seq<byte>)
    requires img.Valid() && Valid(s) && p < SLOTS && s.busy[p]
    ensures Valid(OpenNamed(img, s, p, name))
  {
    FindIsMember(img.dentries, name);
  }

  lemma AdvanceKeepsValid(img: Image, s: Processes, p: nat, fd: int, nbytes: int)
    requires Valid(s) && p < SLOTS && s.busy[p]
    ensures Valid(Advance(img, s, p, fd, nbytes))
  {
  }

  lemma StepKeepsValid(img: Image, s: Processes, e: Event)
    requires img.Valid() && Valid(s) && Possible(s, e)
    ensures Valid(Step(img, s, e))
  {
    assert Shape(s);
    hide Valid, Image.Valid;
    match e
    case Execute(found) => StartKeepsValid(s);
    case Open(p, name) => OpenKeepsValid(img, s, p, name);
    case Read(p, fd, nbytes) => AdvanceKeepsValid(img, s, p, fd, nbytes);
    case Close(p, fd) => CloseKeepsValid(s, p, fd);
    case Exit(p) =>
      ReleaseKeepsValid(s, p);
      StartKeepsValid(Release(s, p));
  }

  lemma CloseKeepsValid(s: Processes, p: nat, fd: int)
    requires Valid(s) && p < SLOTS && s.busy[p]
    ensures Valid(CloseFile(s, p, fd))
  {
  }

  const INITIAL := Processes(
    seq(SLOTS, _ => false),
    seq(SLOTS, _ => seq(TABLE_SIZE, _ => Descriptor(NoOps, 0, 0, 0))))

  /** In every run a free slot has no open descriptor. */
  lemma {:induction false} RunKeepsValid(img: Image, s: Processes, es: seq<Event>)
    requires img.Valid() && Valid(s) && PossibleRun(img, s, es)
    ensures Valid(Run(img, s, es))
    decreases |es|
  {
    if es != [] {
      StepKeepsValid(img, s, es[0]);
      RunKeepsValid(img, Step(img, s, es[0]), es[1..]);
    }
  }

  /** So a program that starts after any run from zeroed memory has exactly stdin and stdout open. */
  lemma ProgramStartsClean(img: Image, es: seq<Event>)
    requires img.Valid() && PossibleRun(img, INITIAL, es)
    ensures var s := Run(img, INITIAL, es); var p := FreeFrom(s.busy, 0);
            p < SLOTS ==>
              var t := Start(s).tables[p];
              && t[0] == STDIN && t[1] == STDOUT
              && forall fd :: 0 <= fd < TABLE_SIZE ==> (t[fd].flags != 0 <==> fd < 2)
  {
    assert Valid(INITIAL);
    RunKeepsValid(img, INITIAL, es);
  }

  // ------------------------------------------------------------------------ open files in a run

  /** A descriptor that reads a file stands inside it, one that reads the directory at an entry or
      at the end. */
  ghost predicate InPlace(img: Image, d: Descriptor) {
    d.flags != 0 ==>
      && (d.ops == FileOps ==> OpenFile(img, d))
      && (d.ops == DirOps ==> d.position <= |img.dentries|)
  }

  ghost predicate FilesInPlace(img: Image, s: Processes)
    requires Shape(s)
  {
    forall p, fd :: 0 <= p < SLOTS && 0 <= fd < TABLE_SIZE ==> InPlace(img, s.tables[p][fd])
  }

  /** A read leaves a descriptor in place, however many bytes it asks for. */
  lemma MoveKeepsPlace(img: Image, d: Descriptor, fd: nat, nbytes: int)
    requires InPlace(img, d)
    ensures InPlace(img, d.(position := d.position + Moves(img, d, fd, nbytes)))
  {
    if OpenFile(img, d) {
      ReadAdvances(img, d, Max(nbytes, 0));
    }
  }

  lemma OpenKeepsPlace(img: Image, s: Processes, p: nat, name: seq<byte>)
    requires img.Valid() && Shape(s) && p < SLOTS && FilesInPlace(img, s)
    ensures FilesInPlace(img, OpenNamed(img, s, p, name))
  {
    OpenedIsFresh(img, name);
    FindIsMember(img.dentries, name);
    assert Find(img.dentries, name).Some? ==> InPlace(img, Opened(Find(img.dentries, name).value));
    hide InPlace;
  }

  lemma AdvanceKeepsPlace(img: Image, s: Processes, p: nat, fd: int, nbytes: int)
    requires Shape(s) && p < SLOTS && FilesInPlace(img, s)
    ensures FilesInPlace(img, Advance(img, s, p, fd, nbytes))
  {
    hide InPlace, Moves;
    if 0 <= fd < TABLE_SIZE {
      MoveKeepsPlace(img, s.tables[p][fd], fd, nbytes);
    }
  }

  lemma StepKeepsPlace(img: Image, s: Processes, e: Event)
    requires img.Valid() && Shape(s) && Possible(s, e) && FilesInPlace(img, s)
    ensures FilesInPlace(img, Step(img, s, e))
  {
    hide Image.Valid, OpenFile, FreeSlot, FreeFrom;
    match e
    case Execute(_) =>
    case Open(p, name) => OpenKeepsPlace(img, s, p, name);
    case Read(p, fd, nbytes) => AdvanceKeepsPlace(img, s, p, fd, nbytes);
    case Close(_, _) =>
    case Exit(_) =>
  }

  /** Every run keeps open files and directories in place. */
  lemma {:induction false} RunKeepsPlace(img: Image, s: Processes, es: seq<Event>)
    requires img.Valid() && Shape(s) && PossibleRun(img, s, es) && FilesInPlace(img, s)
    ensures FilesInPlace(img, Run(img, s, es))
    decreases |es|
  {
    if es != [] {
      StepKeepsPlace(img, s, es[0]);
      RunKeepsPlace(img, Step(img, s, es[0]), es[1..]);
    }
  }

  /** In every run from zeroed memory, whatever is opened and however much is asked for, no open
      file or directory is ever positioned behind its end. */
  lemma PositionsStayInside(img: Image, es: seq<Event>)
    requires img.Valid() && PossibleRun(img, INITIAL, es)
    ensures FilesInPlace(img, Run(img, INITIAL, es))
  {
    RunKeepsPlace(img, INITIAL, es);
  }

  // -------------------------------------------------------------------- the three base shells

  ghost predicate BaseBusy(s: Processes)
    requires Shape(s)
  {
    s.busy[0] && s.busy[1] && s.busy[2]
  }

  /** A base shell that halts restarts in its own slot, with a fresh table. */
  lemma ShellRestarts(s: Processes, p: nat)
    requires Valid(s) && BaseBusy(s) && p < BASE_SHELLS
    ensures var r := Halt(s, p);
            && r.busy == s.busy
            && (forall q :: 0 <= q < SLOTS && q != p ==> r.tables[q] == s.tables[q])
            && (forall fd :: 0 <= fd < TABLE_SIZE ==> (r.tables[p][fd].flags != 0 <==> fd < 2))
  {
    ReleaseKeepsValid(s, p);
    assert FreeFrom(Release(s, p).busy, 0) == p by {
      var q := FreeFrom(Release(s, p).busy, 0);
      assert q <= p;
    }
    assert s.busy[p := false][p := true] == s.busy;
  }

  /** Once slots 0 to 2 hold base shells they stay occupied, and other programs get slots 3 to 5. */
  lemma {:induction false} BaseShellsStay(img: Image, s: Processes, es: seq<Event>)
    requires img.Valid() && Valid(s) && BaseBusy(s) && PossibleRun(img, s, es)
    ensures BaseBusy(Run(img, s, es)) && FreeFrom(Run(img, s, es).busy, 0) >= BASE_SHELLS
    decreases |es|
  {
    if es != [] {
      StepKeepsValid(img, s, es[0]);
      if es[0].Exit? && es[0].p < BASE_SHELLS {
        ShellRestarts(s, es[0].p);
      }
      BaseShellsStay(img, Step(img, s, es[0]), es[1..]);
    }
  }
}
