/** The two-level page tables and the address translation they define (paging.c).
    Translation follows 32-bit paging, section 4.3 of the Intel SDM Volume 3A, with access rights
    as in section 4.6: write protection of supervisor accesses is never turned on. */
module Paging {
  import opened Machine

  const ENTRIES := 1024
  const MB4 := 0x40_0000
  const KB4 := 0x1000
  const SPACE_4GB := 0x1_0000_0000
  const VIDEO := 0xB8                 // frame of the text screen
  const PROGRAM_DIR := 32             // 128 MB / 4 MB
  const VIDMAP_DIR := 33              // 132 MB / 4 MB

  /** The fields of an entry that translation looks at; `addr` is bits 31 to 12. */
  datatype Entry = Entry(present: bool, rw: bool, us: bool, size: bool, addr: nat)

  /** One of the six process slots. */
  type Pid = p: nat | p < 6

  const ABSENT := Entry(false, false, false, false, 0)

  /** The directory and the two tables, and the frames the tables lie in. */
  datatype Tables = Tables(dir: seq<Entry>, low: seq<Entry>, vm: seq<Entry>, lowFrame: nat, vmFrame: nat)

  ghost predicate Shape(t: Tables) {
    |t.dir| == ENTRIES && |t.low| == ENTRIES && |t.vm| == ENTRIES && t.lowFrame != t.vmFrame
  }

  predicate Allowed(e: Entry, user: bool, write: bool) {
    e.present && (user ==> e.us && (write ==> e.rw))
  }

  /** The physical address an access goes to, or None for a page fault. */
  ghost function Walk(t: Tables, va: nat, user: bool, write: bool): Option<nat>
    requires Shape(t) && va < SPACE_4GB
  {
    var pde := t.dir[va / MB4];
    if !Allowed(pde, user, write) then None
    else if pde.size then Some(pde.addr / 1024 * MB4 + va % MB4)
    else if pde.addr == t.lowFrame then WalkTable(t.low, va, user, write)
    else if pde.addr == t.vmFrame then WalkTable(t.vm, va, user, write)
    else None
  }

  ghost function WalkTable(table: seq<Entry>, va: nat, user: bool, write: bool): Option<nat>
    requires |table| == ENTRIES
  {
    var pte := table[va / KB4 % ENTRIES];
    if !Allowed(pte, user, write) then None else Some(pte.addr * KB4 + va % KB4)
  }

  // ------------------------------------------------------------------ the steps on the tables

  ghost function Init(lowFrame: nat, vmFrame: nat): (t: Tables)
    requires lowFrame != vmFrame
    ensures Shape(t)
  {
    Tables(
      seq(ENTRIES, i requires 0 <= i < ENTRIES =>
        if i == 0 then Entry(true, true, false, false, lowFrame)
        else if i == 1 then Entry(true, true, false, true, 0x400)
        else if i == VIDMAP_DIR then Entry(false, true, true, false, vmFrame)
        else Entry(false, false, false, true, 0)),
      seq(ENTRIES, i requires 0 <= i < ENTRIES =>
        if VIDEO <= i < VIDEO + 4 then Entry(true, true, false, false, i) else ABSENT),
      seq(ENTRIES, i requires 0 <= i < ENTRIES => ABSENT),
      lowFrame, vmFrame)
  }

  ghost function SetUp(t: Tables, p: Pid): (r: Tables)
    requires Shape(t)
    ensures Shape(r)
  {
    t.(dir := t.dir[PROGRAM_DIR := Entry(true, true, true, true, 0x800 + 0x400 * p)])
  }

  ghost function MapVideo(t: Tables): (r: Tables)
    requires Shape(t)
    ensures Shape(r)
  {
    t.(dir := t.dir[VIDMAP_DIR := t.dir[VIDMAP_DIR].(present := true)],
       vm := t.vm[VIDEO := t.vm[VIDEO].(present := true, rw := true, us := true, addr := VIDEO)])
  }

  datatype Step = ProgramPage(p: Pid) | VideoPage

  ghost function Run(t: Tables, es: seq<Step>): (r: Tables)
    requires Shape(t)
    ensures Shape(r)
    decreases |es|
  {
    if es == [] then t
    else Run(match es[0] case ProgramPage(p) => SetUp(t, p) case VideoPage => MapVideo(t), es[1..])
  }

  // ------------------------------------------------------- what the tables mean after any run

  /** The process whose page was set up last. */
  function CurrentAfter(cur: Option<Pid>, es: seq<Step>): Option<Pid>
    decreases |es|
  {
    if es == [] then cur else CurrentAfter(if es[0].ProgramPage? then Some(es[0].p) else cur, es[1..])
  }

  /** User accesses: the 4 MB program page at 128 MB, and one video page at 132 MB + 0xB8000. */
  function UserMap(cur: Option<Pid>, mapped: bool, va: nat): Option<nat> {
    if cur.Some? && 32 * MB4 <= va < 33 * MB4 then Some(2 * MB4 + cur.value * MB4 + (va - 32 * MB4))
    else if mapped && 33 * MB4 + VIDEO * KB4 <= va < 33 * MB4 + VIDEO * KB4 + KB4 then
      Some(VIDEO * KB4 + (va - (33 * MB4 + VIDEO * KB4)))
    else None
  }

  /** Kernel accesses: besides those, the four video pages and the kernel's 4 MB, where they are. */
  function KernelMap(va: nat): Option<nat> {
    if VIDEO * KB4 <= va < (VIDEO + 4) * KB4 || MB4 <= va < 2 * MB4 then Some(va) else None
  }

  /** The tables in closed form: what was set up last, and whether the video page was ever mapped. */
  ghost predicate Means(t: Tables, cur: Option<Pid>, mapped: bool) {
    && Shape(t)
    && var t0 := Init(t.lowFrame, t.vmFrame);
       var t1 := if mapped then MapVideo(t0) else t0;
       t == if cur.Some? then SetUp(t1, cur.value) else t1
  }

  lemma {:induction false} RunKeepsFrames(t: Tables, es: seq<Step>)
    requires Shape(t)
    ensures Run(t, es).lowFrame == t.lowFrame && Run(t, es).vmFrame == t.vmFrame
    decreases |es|
  {
    if es != [] {
      RunKeepsFrames(match es[0] case ProgramPage(p) => SetUp(t, p) case VideoPage => MapVideo(t), es[1..]);
    }
  }

  lemma {:induction false} RunMeans(t: Tables, es: seq<Step>, cur: Option<Pid>, mapped: bool)
    requires Means(t, cur, mapped)
    ensures Means(Run(t, es), CurrentAfter(cur, es), mapped || VideoPage in es)
    decreases |es|
  {
    if es != [] {
      assert es == [es[0]] + es[1..];
      match es[0]
      case ProgramPage(p) =>
        var start := Init(t.lowFrame, t.vmFrame);
        assert SetUp(t, p).dir == SetUp(if mapped then MapVideo(start) else start, p).dir;
        RunMeans(SetUp(t, p), es[1..], Some(p), mapped);
      case VideoPage =>
        MapVideoMeans(t, cur, mapped);
        RunMeans(MapVideo(t), es[1..], cur, true);
    }
  }

  lemma MapVideoMeans(t: Tables, cur: Option<Pid>, mapped: bool)
    requires Means(t, cur, mapped)
    ensures Means(MapVideo(t), cur, true)
  {
    var t0 := Init(t.lowFrame, t.vmFrame);
    var r := if cur.Some? then SetUp(MapVideo(t0), cur.value) else MapVideo(t0);
    assert MapVideo(t).vm == r.vm;
    assert MapVideo(t).dir == r.dir;
  }

  /** Every user translation in closed form; reading and writing are alike. */
  lemma UserTranslation(t: Tables, cur: Option<Pid>, mapped: bool, va: nat, write: bool)
    requires Means(t, cur, mapped) && va < SPACE_4GB
    ensures Walk(t, va, true, write) == UserMap(cur, mapped, va)
  {
  }

  lemma LowTable(lowFrame: nat, vmFrame: nat, va: nat, write: bool)
    requires lowFrame != vmFrame && va < MB4
    ensures WalkTable(Init(lowFrame, vmFrame).low, va, false, write) == KernelMap(va)
  {
    assert va / KB4 < ENTRIES;
  }

  /** Every kernel translation in closed form. */
  lemma KernelTranslation(t: Tables, cur: Option<Pid>, mapped: bool, va: nat, write: bool)
    requires Means(t, cur, mapped) && va < SPACE_4GB
    ensures Walk(t, va, false, write) == if va < 2 * MB4 then KernelMap(va) else UserMap(cur, mapped, va)
  {
    if va < MB4 {
      LowTable(t.lowFrame, t.vmFrame, va, write);
    } else if va / MB4 == VIDMAP_DIR {
      UserTranslation(t, cur, mapped, va, write);
    }
  }

  /** After initialisation and any sequence of set-ups, every translation is known: it depends
      only on the last program page set up and on whether the video page was ever mapped. */
  lemma AddressSpace(lowFrame: nat, vmFrame: nat, es: seq<Step>, va: nat, write: bool)
    requires lowFrame != vmFrame && va < SPACE_4GB
    ensures var t := Run(Init(lowFrame, vmFrame), es); var cur := CurrentAfter(None, es); var mapped := VideoPage in es;
            && Walk(t, va, true, write) == UserMap(cur, mapped, va)
            && Walk(t, va, false, write) == (if va < 2 * MB4 then KernelMap(va) else UserMap(cur, mapped, va))
  {
    var t := Init(lowFrame, vmFrame);
    RunMeans(t, es, None, false);
    RunKeepsFrames(t, es);
    UserTranslation(Run(t, es), CurrentAfter(None, es), VideoPage in es, va, write);
    KernelTranslation(Run(t, es), CurrentAfter(None, es), VideoPage in es, va, write);
  }

  /** The physical frame of a process. */
  predicate InFrame(p: Pid, pa: nat) {
    2 * MB4 + p * MB4 <= pa < 2 * MB4 + (p + 1) * MB4
  }

  predicate OnVideoPage(pa: nat) {
    VIDEO * KB4 <= pa < VIDEO * KB4 + KB4
  }

  /** A user access reaches the current process's own frame or the video page, never the kernel. */
  lemma UserStaysInOwnFrame(lowFrame: nat, vmFrame: nat, es: seq<Step>, va: nat, write: bool)
    requires lowFrame != vmFrame && va < SPACE_4GB
    ensures var r := Walk(Run(Init(lowFrame, vmFrame), es), va, true, write); var cur := CurrentAfter(None, es);
            r.Some? ==>
              && (OnVideoPage(r.value) || (cur.Some? && InFrame(cur.value, r.value)))
              && !(MB4 <= r.value < 2 * MB4)
  {
    AddressSpace(lowFrame, vmFrame, es, va, write);
  }

  /** Programs of different processes share no memory but the video page. */
  lemma FramesAreDisjoint(lowFrame: nat, vmFrame: nat, es1: seq<Step>, es2: seq<Step>, va1: nat, va2: nat,
                          w1: bool, w2: bool)
    requires lowFrame != vmFrame && va1 < SPACE_4GB && va2 < SPACE_4GB
    requires CurrentAfter(None, es1) != CurrentAfter(None, es2)
    ensures var r1 := Walk(Run(Init(lowFrame, vmFrame), es1), va1, true, w1);
            var r2 := Walk(Run(Init(lowFrame, vmFrame), es2), va2, true, w2);
            r1.Some? && r1 == r2 ==> OnVideoPage(r1.value)
  {
    AddressSpace(lowFrame, vmFrame, es1, va1, w1);
    AddressSpace(lowFrame, vmFrame, es2, va2, w2);
  }

  /** In numbers: the program page at 128 MB lies in the process's own 4 MB from 8 MB on. */
  lemma ProgramAddress(lowFrame: nat, vmFrame: nat, es: seq<Step>, p: Pid, offset: nat, write: bool)
    requires lowFrame != vmFrame && CurrentAfter(None, es) == Some(p) && offset < 0x40_0000
    ensures Walk(Run(Init(lowFrame, vmFrame), es), 0x800_0000 + offset, true, write)
            == Some(0x80_0000 + 0x40_0000 * p + offset)
  {
    AddressSpace(lowFrame, vmFrame, es, 0x800_0000 + offset, write);
    hide Run, Walk, Init, CurrentAfter;
  }

  /** The kernel's 4 MB stay at 4 MB, and no program reaches them there. */
  lemma KernelAddress(lowFrame: nat, vmFrame: nat, es: seq<Step>, offset: nat, write: bool)
    requires lowFrame != vmFrame && offset < 0x40_0000
    ensures var t := Run(Init(lowFrame, vmFrame), es);
            && Walk(t, 0x40_0000 + offset, false, write) == Some(0x40_0000 + offset)
            && Walk(t, 0x40_0000 + offset, true, write) == None
  {
    AddressSpace(lowFrame, vmFrame, es, 0x40_0000 + offset, write);
    hide Run, Walk, Init, CurrentAfter;
  }

  /** The text screen lies at 0xB8000 for the kernel, and for programs at 132 MB + 0xB8000 once the
      video page was mapped. */
  lemma VideoAddress(lowFrame: nat, vmFrame: nat, es: seq<Step>, offset: nat, write: bool)
    requires lowFrame != vmFrame && offset < 0x1000
    ensures var t := Run(Init(lowFrame, vmFrame), es);
            && Walk(t, 0xB_8000 + offset, false, write) == Some(0xB_8000 + offset)
            && Walk(t, 0x84B_8000 + offset, true, write) == if VideoPage in es then Some(0xB_8000 + offset) else None
  {
    AddressSpace(lowFrame, vmFrame, es, 0xB_8000 + offset, write);
    AddressSpace(lowFrame, vmFrame, es, 0x84B_8000 + offset, write);
    hide Run, Walk, Init, CurrentAfter;
  }

  /** No set-up changes where the kernel's own addresses go. */
  lemma KernelUnchanged(lowFrame: nat, vmFrame: nat, es: seq<Step>, va: nat, write: bool)
    requires lowFrame != vmFrame && va < 2 * MB4
    ensures Walk(Run(Init(lowFrame, vmFrame), es), va, false, write) == Walk(Init(lowFrame, vmFrame), va, false, write)
  {
    AddressSpace(lowFrame, vmFrame, es, va, write);
    AddressSpace(lowFrame, vmFrame, [], va, write);
  }

  // ---------------------------------------------------------------------------- the code

  class Paging {
    const dir: array<Entry>
    const low: array<Entry>
    const vm: array<Entry>
    const lowFrame: nat
    const vmFrame: nat

    ghost predicate Valid() {
      && dir.Length == ENTRIES && low.Length == ENTRIES && vm.Length == ENTRIES
      && dir != low && dir != vm && low != vm && lowFrame != vmFrame
    }

    ghost function Value(): (t: Tables)
      requires Valid()
      reads dir, low, vm
      ensures Shape(t)
    {
      Tables(dir[..], low[..], vm[..], lowFrame, vmFrame)
    }

    /** Three page-aligned arrays in kernel memory, holding anything. */
    constructor (lowFrame: nat, vmFrame: nat)
      requires lowFrame != vmFrame
      ensures Valid() && this.lowFrame == lowFrame && this.vmFrame == vmFrame
      ensures fresh(dir) && fresh(low) && fresh(vm)
    {
      dir := new Entry[ENTRIES];
      low := new Entry[ENTRIES];
      vm := new Entry[ENTRIES];
      this.lowFrame := lowFrame;
      this.vmFrame := vmFrame;
    }

    /** paging_init. */
    method PagingInit()
      requires Valid()
      modifies dir, low, vm
      ensures Value() == Init(lowFrame, vmFrame)
    {
      for i := 0 to 1024
        invariant forall k :: 0 <= k < i ==> low[k] == ABSENT
      {
        low[i] := ABSENT;
      }
      low[VIDEO] := Entry(true, true, false, false, VIDEO);
      low[VIDEO + 1] := Entry(true, true, false, false, VIDEO + 1);
      low[VIDEO + 2] := Entry(true, true, false, false, VIDEO + 2);
      low[VIDEO + 3] := Entry(true, true, false, false, VIDEO + 3);
      InitDirectory();
      for i := 0 to 1024
        invariant dir[..] == Init(lowFrame, vmFrame).dir
        invariant forall k :: 0 <= k < 1024 ==> low[k] == Init(lowFrame, vmFrame).low[k]
        invariant forall k :: 0 <= k < i ==> vm[k] == ABSENT
      {
        vm[i] := ABSENT;
      }
    }

    method InitDirectory()
      requires Valid()
      modifies dir
      ensures dir[..] == Init(lowFrame, vmFrame).dir
    {
      dir[0] := Entry(true, true, false, false, lowFrame);
      dir[1] := Entry(true, true, false, true, 0x400);
      for i := 2 to 1024
        invariant dir[0] == Entry(true, true, false, false, lowFrame) && dir[1] == Entry(true, true, false, true, 0x400)
        invariant forall k :: 2 <= k < i ==> dir[k] == Entry(false, false, false, true, 0)
      {
        dir[i] := Entry(false, false, false, true, 0);
      }
      dir[VIDMAP_DIR] := Entry(false, true, true, false, vmFrame);
    }

    /** paging_set_up. */
    method PagingSetUp(p: Pid)
      requires Valid()
      modifies dir
      ensures Value() == SetUp(old(Value()), p)
    {
      dir[PROGRAM_DIR] := Entry(true, true, true, true, 0x00800 + 0x00400 * p);
    }

    /** vidmap_paging_set_up; the result is the user address of the video page. */
    method VidmapSetUp() returns (va: nat)
      requires Valid()
      modifies dir, vm
      ensures Value() == MapVideo(old(Value())) && va == 33 * MB4 + VIDEO * KB4
    {
      dir[VIDMAP_DIR] := dir[VIDMAP_DIR].(present := true);
      vm[VIDEO] := vm[VIDEO].(present := true, rw := true, us := true, addr := VIDEO);
      return 0x8400000 + 0xb8000;
    }

    /** The vidmap system call: a pointer outside the program page is refused. */
    method Vidmap(pid: Pid, screenStart: nat) returns (r: int, va: nat)
      requires Valid()
      modifies dir, vm
      ensures if 32 * MB4 <= screenStart < 33 * MB4 then
                r == 0 && va == 33 * MB4 + VIDEO * KB4
                && Value() == Run(old(Value()), [ProgramPage(pid), VideoPage])
              else
                r == -1 && Value() == old(Value())
    {
      if screenStart == 0 {
        return -1, 0;
      }
      if screenStart >= 0x8000000 && screenStart < 0x8400000 {
        ghost var t := Value();
        PagingSetUp(pid);
        va := VidmapSetUp();
        assert Run(t, [ProgramPage(pid), VideoPage]) == Run(SetUp(t, pid), [VideoPage]);
        assert Run(SetUp(t, pid), [VideoPage]) == Run(MapVideo(SetUp(t, pid)), []);
        return 0, va;
      } else {
        return -1, 0;
      }
    }
  }
}
