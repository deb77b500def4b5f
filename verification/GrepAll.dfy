/** The whole line search program: its argument, the directory walk, every file (main in
    ece391grep.c). */
module GrepAll {
  import opened Machine
  import opened CString
  import opened FileSystem
  import opened Counts
  import opened Descriptors
  import opened TextLines
  import opened Stream
  import opened Grep

  const DOT: byte := 46

  const NO_ARGUMENT := Ascii("could not read argument\n")
  const NO_DIRECTORY := Ascii("directory open failed\n")
  const NO_FILE := Ascii("file open failed\n")

  /** The first entry with this entry's name, which is the one that opening the name finds. */
  ghost function Entry(img: Image, d: Dentry): (e: Dentry)
    requires img.Valid() && d in img.dentries
    ensures e in img.dentries && Name(e) == Name(d)
  {
    FindIsFirst(img.dentries, Name(d));
    FindIsMember(img.dentries, Name(d));
    Find(img.dentries, Name(d)).value
  }

  /** What one directory entry makes the program print: nothing if its name starts with a dot.
      `edge` is what its search found behind its uninitialised buffer. */
  ghost function EntryReport(img: Image, d: Dentry, s: seq<byte>, edge: bool): seq<byte>
    requires img.Valid() && d in img.dentries
  {
    if d.fname[0] == DOT then [] else
    Report(Name(d), SearchedLines([], TextOf(img, Entry(img, d)), edge), s)
  }

  /** The walk ends at entry `k`: the directory does, or an entry without a name, or no descriptor
      is left for a file. */
  ghost predicate Ends(img: Image, k: nat, room: bool)
    requires img.Valid() && k <= |img.dentries|
  {
    k == |img.dentries| || NameCount(img.dentries[k]) == 0 || (img.dentries[k].fname[0] != DOT && !room)
  }

  /** Where the walk from entry `k` on ends. */
  ghost function End(img: Image, k: nat, room: bool): (n: nat)
    requires img.Valid() && k <= |img.dentries|
    ensures k <= n <= |img.dentries| && Ends(img, n, room)
    decreases |img.dentries| - k
  {
    if Ends(img, k, room) then k else End(img, k + 1, room)
  }

  /** The parts of the output, one for each of the first entries, in directory order. */
  ghost function Parts(img: Image, s: seq<byte>, edges: seq<bool>): seq<byte>
    requires img.Valid() && |edges| <= |img.dentries|
  {
    if edges == [] then [] else
    var k := |edges| - 1;
    Parts(img, s, edges[..k]) + EntryReport(img, img.dentries[k], s, edges[k])
  }

  /** Exit status and output of the walk: a part for every entry before its end, and the message if
      a file could not be opened there. */
  ghost function Outcome(img: Image, s: seq<byte>, room: bool, edges: seq<bool>): (r: (int, seq<byte>))
    requires img.Valid() && |edges| == End(img, 0, room)
  {
    var n := |edges|;
    if n == |img.dentries| || NameCount(img.dentries[n]) == 0 then (0, Parts(img, s, edges))
    else (3, Parts(img, s, edges) + NO_FILE)
  }

  /** Every entry not hidden by a dot leads to a regular file or the clock. */
  ghost predicate AllSearchable(img: Image)
    requires img.Valid()
  {
    forall d <- img.dentries :: d.fname[0] != DOT ==> Searchable(img, Entry(img, d))
  }

  // --------------------------------------------------------------- descriptors between files

  ghost predicate SameOpen(a: seq<Descriptor>, b: seq<Descriptor>) {
    |a| == |b| && forall fd :: 0 <= fd < |a| ==> (a[fd].flags == 0 <==> b[fd].flags == 0)
  }

  lemma {:induction false} SameFreeSlot(a: seq<Descriptor>, b: seq<Descriptor>, from: nat)
    requires SameOpen(a, b) && |a| == TABLE_SIZE && 2 <= from <= TABLE_SIZE
    ensures FreeSlot(a, from) == FreeSlot(b, from)
    decreases TABLE_SIZE - from
  {
    if from < TABLE_SIZE {
      SameFreeSlot(a, b, from + 1);
    }
  }

  // ------------------------------------------------------------------------- the name buffer

  lemma NameCountAtLeast(d: Dentry)
    requires |d.fname| == NAME_SIZE
    ensures |Name(d)| <= NameCount(d)
  {
    var n := |Name(d)|;
    assert d.fname == d.fname[..n] + d.fname[n..];
    assert multiset(d.fname) == multiset(d.fname[..n]) + multiset(d.fname[n..]);
    assert multiset(d.fname[..n])[NUL] == 0;
    assert multiset(d.fname[n..])[NUL] <= |multiset(d.fname[n..])| by {
      CountAtMost(d.fname[n..]);
    }
  }

  /** Cutting the name buffer at the count leaves the name. */
  lemma NameInBuffer(buf: seq<byte>, d: Dentry)
    requires |buf| == NAME_SIZE + 1 && |d.fname| == NAME_SIZE && buf[NameCount(d)] == NUL
    requires forall k :: 0 <= k < NAME_SIZE && k != NameCount(d) ==> buf[k] == d.fname[k]
    ensures NUL in buf && Text(buf) == Name(d)
  {
    var n := |Name(d)|;
    NameCountAtLeast(d);
    assert Name(d) == d.fname[..n];
    assert buf[n] == NUL;
    assert buf[..n] == Name(d);
    TextUnique(buf, n);
  }

  // -------------------------------------------------------------------------------- the walk

  /** The descriptor reads the directory and stands at entry `k`. */
  ghost predicate AtEntry(pcb: Pcb, fd: nat, k: nat)
    reads pcb.fdt
  {
    && pcb.Valid() && 2 <= fd < TABLE_SIZE
    && pcb.fdt[fd].ops == DirOps && pcb.fdt[fd].flags != 0 && pcb.fdt[fd].position == k
  }

  /** Search the file an entry names; the name is in the buffer. */
  method SearchEntry(img: Image, pcb: Pcb, fd: nat, buf: array<byte>, s: seq<byte>, ghost d: Dentry)
      returns (status: int, out: seq<byte>, ghost edge: bool)
    requires img.Valid() && NoNul(s) && d in img.dentries && Searchable(img, Entry(img, d))
    requires pcb.Valid() && fd < TABLE_SIZE && pcb.fdt[fd].flags != 0 && NUL in buf[..] && Text(buf[..]) == Name(d)
    modifies pcb.fdt
    ensures SameOpen(old(pcb.fdt[..]), pcb.fdt[..]) && pcb.fdt[fd] == old(pcb.fdt[fd])
    ensures var room := FreeSlot(old(pcb.fdt[..]), 2) < TABLE_SIZE;
            && (status == 0 <==> room)
            && out == if room then Report(Name(d), SearchedLines([], TextOf(img, Entry(img, d)), edge), s) else NO_FILE
  {
    FindIsFirst(img.dentries, Name(d));
    hide Searchable, Report, Text, TextOf, Image.Valid, FreeSlot, SearchedLines;
    status, out, edge := DoOneFile(img, pcb, s, Text(buf[..]));
  }

  /** One round of the loop in main: the count read, and what the entry's file made of it. */
  method NextEntry(img: Image, pcb: Pcb, fd: nat, buf: array<byte>, s: seq<byte>, ghost k: nat)
      returns (cnt: int, status: int, out: seq<byte>, ghost edge: bool)
    requires img.Valid() && AllSearchable(img) && NoNul(s) && AtEntry(pcb, fd, k) && k <= |img.dentries|
    requires buf.Length == NAME_SIZE + 1
    modifies buf, pcb.fdt
    ensures SameOpen(old(pcb.fdt[..]), pcb.fdt[..])
    ensures cnt == 0 <==> k == |img.dentries| || NameCount(img.dentries[k]) == 0
    ensures cnt != 0 ==>
              && AtEntry(pcb, fd, k + 1)
              && (status != 0 <==> Ends(img, k, FreeSlot(old(pcb.fdt[..]), 2) < TABLE_SIZE))
              && out == if status != 0 then NO_FILE else EntryReport(img, img.dentries[k], s, edge)
  {
    hide Report, Image.Valid, TextOf, FreeSlot, Searchable, Entry, SearchedLines;
    status, out, edge := 0, [], false;
    cnt := pcb.Read(img, fd, buf, 0, 32);
    if cnt == 0 {
      return;
    }
    ghost var d := img.dentries[k];
    assert d in img.dentries;
    if buf[0] == DOT {
      return;
    }
    buf[cnt] := NUL;
    NameInBuffer(buf[..], d);
    SameFreeSlot(old(pcb.fdt[..]), pcb.fdt[..], 2);
    status, out, edge := SearchEntry(img, pcb, fd, buf, s, d);
  }

  lemma OneMorePart(img: Image, s: seq<byte>, edges: seq<bool>, edge: bool)
    requires img.Valid() && |edges| < |img.dentries|
    ensures Parts(img, s, edges + [edge]) == Parts(img, s, edges) + EntryReport(img, img.dentries[|edges|], s, edge)
  {
    assert (edges + [edge])[..|edges|] == edges;
  }

  /** The loop in main, on the directory opened at its start. */
  method SearchAll(img: Image, pcb: Pcb, fd: nat, buf: array<byte>, s: seq<byte>)
      returns (status: int, out: seq<byte>, ghost edges: seq<bool>)
    requires img.Valid() && AllSearchable(img) && NoNul(s) && AtEntry(pcb, fd, 0)
    requires buf.Length == NAME_SIZE + 1
    modifies buf, pcb.fdt
    ensures var room := FreeSlot(old(pcb.fdt[..]), 2) < TABLE_SIZE;
            |edges| == End(img, 0, room) && (status, out) == Outcome(img, s, room, edges)
    ensures SameOpen(old(pcb.fdt[..]), pcb.fdt[..])
  {
    hide Image.Valid, AllSearchable, EntryReport, FreeSlot, Parts;
    out, edges := [], [];
    ghost var room := FreeSlot(pcb.fdt[..], 2) < TABLE_SIZE;
    NoParts(img, s);
    while true
      invariant |edges| <= |img.dentries| && AtEntry(pcb, fd, |edges|) && SameOpen(old(pcb.fdt[..]), pcb.fdt[..])
      invariant End(img, 0, room) == End(img, |edges|, room) && out == Parts(img, s, edges)
      decreases |img.dentries| - |edges|
    {
      SameFreeSlot(old(pcb.fdt[..]), pcb.fdt[..], 2);
      var cnt, failed, printed;
      ghost var edge;
      cnt, failed, printed, edge := NextEntry(img, pcb, fd, buf, s, |edges|);
      if cnt == 0 {
        return 0, out, edges;
      }
      if failed != 0 {
        return 3, out + printed, edges;
      }
      OneMorePart(img, s, edges, edge);
      out := out + printed;
      edges := edges + [edge];
    }
  }

  lemma NoParts(img: Image, s: seq<byte>)
    requires img.Valid()
    ensures Parts(img, s, []) == []
  {
  }

  /** The program: its exit status and everything it prints. */
  method SearchFiles(img: Image, pcb: Pcb, search: array<byte>, buf: array<byte>)
      returns (status: int, out: seq<byte>, ghost edges: seq<bool>)
    requires img.Valid() && AllSearchable(img) && pcb.Valid() && NUL in pcb.argument[..]
    requires Find(img.dentries, Ascii(".")).Some? ==> Find(img.dentries, Ascii(".")).value.fileType == 1
    requires search.Length == BUFSIZE && buf.Length == NAME_SIZE + 1 && search != buf
    requires pcb.argument != search && pcb.argument != buf
    modifies search, buf, pcb.fdt
    ensures var s := Text(old(pcb.argument[..])); var slot := FreeSlot(old(pcb.fdt[..]), 2);
            if s == [] then status == 3 && out == NO_ARGUMENT
            else if Find(img.dentries, Ascii(".")) == None || slot == TABLE_SIZE then status == 2 && out == NO_DIRECTORY
            else
              var room := FreeSlot(old(pcb.fdt[..]), slot + 1) < TABLE_SIZE;
              |edges| == End(img, 0, room) && (status, out) == Outcome(img, s, room, edges)
    ensures forall fd :: 0 <= fd < TABLE_SIZE && fd != FreeSlot(old(pcb.fdt[..]), 2) ==>
              (pcb.fdt[fd].flags == 0 <==> old(pcb.fdt[fd].flags) == 0)
  {
    hide Image.Valid, AllSearchable, Outcome, End;
    edges := [];
    ghost var argument, was := Text(pcb.argument[..]), search[..];
    var r := pcb.GetArgs(search, BUFSIZE);
    if r != 0 {
      return 3, NO_ARGUMENT, edges;
    }
    WrittenString(was, argument);
    assert Ascii(".") == [DOT];
    TextOfString([DOT], [NUL]);
    var fd := pcb.Open(img, [DOT] + [NUL]);
    if fd == -1 {
      return 2, NO_DIRECTORY, edges;
    }
    NextFreeSlot(old(pcb.fdt[..]), 2, pcb.fdt[fd]);
    status, out, edges := SearchAll(img, pcb, fd, buf, Text(search[..]));
  }

  // ---------------------------------------------------------------------------- what it means

  /** The report on the pieces of every file with a name that does not start with a dot. */
  ghost function Reports(img: Image, n: nat, s: seq<byte>): seq<byte>
    requires img.Valid() && n <= |img.dentries|
  {
    if n == 0 then [] else
    var d := img.dentries[n - 1];
    Reports(img, n - 1, s) + if d.fname[0] == DOT then [] else Report(Name(d), Pieces(TextOf(img, Entry(img, d))), s)
  }

  /** The matching lines of every such file, in directory order. */
  ghost function Matches(img: Image, n: nat, s: seq<byte>): seq<byte>
    requires img.Valid() && n <= |img.dentries|
  {
    if n == 0 then [] else
    var d := img.dentries[n - 1];
    Matches(img, n - 1, s)
    + if d.fname[0] == DOT then [] else Rows(Name(d), Matching(Lines(TextOf(img, Entry(img, d))), s))
  }

  /** Entries whose name starts with a dot, and no others, are passed over. */
  lemma HiddenByDot(img: Image, d: Dentry, s: seq<byte>, edge: bool)
    requires img.Valid() && d in img.dentries
    ensures EntryReport(img, d, s, edge) ==
            if d.fname[0] == 46 then [] else Report(Name(d), SearchedLines([], TextOf(img, Entry(img, d)), edge), s)
  {
  }

  /** The walk succeeds exactly when it reaches the end of the directory or an entry without a name;
      otherwise it stops with status 3 at the first file for which no descriptor is left. */
  lemma ExitStatus(img: Image, s: seq<byte>, room: bool, edges: seq<bool>)
    requires img.Valid() && |edges| == End(img, 0, room)
    ensures var n, (status, out) := |edges|, Outcome(img, s, room, edges);
            && (status == 0 <==> n == |img.dentries| || NameCount(img.dentries[n]) == 0)
            && (status == 0 || (status == 3 && !room && img.dentries[n].fname[0] != 46))
            && out == Parts(img, s, edges) + if status == 0 then [] else Ascii("file open failed\n")
  {
    assert Parts(img, s, edges) + [] == Parts(img, s, edges);
  }

  ghost predicate PartUndisturbed(img: Image, k: nat, edges: seq<bool>)
    requires img.Valid() && k < |edges| <= |img.dentries|
  {
    img.dentries[k].fname[0] != DOT ==> Undisturbed([], TextOf(img, Entry(img, img.dentries[k])), edges[k])
  }

  /** A part is exactly the report on its file, whatever the other files hold, if the file has no
      NUL bytes and no stale newline lies behind a first window that it fills and runs past. */
  lemma PartIsReport(img: Image, d: Dentry, s: seq<byte>, edge: bool)
    requires img.Valid() && d in img.dentries && d.fname[0] != DOT
    requires NoNul(TextOf(img, Entry(img, d))) && (edge ==> |TextOf(img, Entry(img, d))| <= BUFSIZE)
    ensures EntryReport(img, d, s, edge) == Report(Name(d), Pieces(TextOf(img, Entry(img, d))), s)
  {
    var text := TextOf(img, Entry(img, d));
    NoNulIsUndisturbed([], text, edge);
    SearchesPiecesIff(text, edge);
  }

  /** If no file is disturbed, the parts are the reports on all files. */
  lemma {:induction false} PartsAreReports(img: Image, s: seq<byte>, edges: seq<bool>)
    requires img.Valid() && |edges| <= |img.dentries|
    requires forall k :: 0 <= k < |edges| ==> PartUndisturbed(img, k, edges)
    ensures Parts(img, s, edges) == Reports(img, |edges|, s)
  {
    hide Report, TextOf, Entry, Undisturbed, Pieces, SearchedLines;
    if edges != [] {
      var k := |edges| - 1;
      var d := img.dentries[k];
      assert PartUndisturbed(img, k, edges);
      forall j | 0 <= j < k
        ensures PartUndisturbed(img, j, edges[..k])
      {
        assert PartUndisturbed(img, j, edges);
      }
      PartsAreReports(img, s, edges[..k]);
      if d.fname[0] != DOT {
        SearchesPiecesIff(TextOf(img, Entry(img, d)), edges[k]);
      }
    }
  }

  /** And if no line longer than the buffer matches, they are the matching lines of all files. */
  lemma {:induction false} ReportsAreMatches(img: Image, n: nat, s: seq<byte>)
    requires img.Valid() && n <= |img.dentries|
    requires forall d <- img.dentries :: d.fname[0] != DOT ==> LongLinesMiss(TextOf(img, Entry(img, d)), s)
    ensures Reports(img, n, s) == Matches(img, n, s)
  {
    hide Report, Rows, Matching, Lines, Pieces, LongLinesMiss, Entry, TextOf;
    if n > 0 {
      var d := img.dentries[n - 1];
      ReportsAreMatches(img, n - 1, s);
      if d.fname[0] != DOT {
        LongLinesMissing(Name(d), TextOf(img, Entry(img, d)), s);
      }
    }
  }

  lemma LongLinesMissing(fname: seq<byte>, text: seq<byte>, s: seq<byte>)
    requires LongLinesMiss(text, s)
    ensures Report(fname, Pieces(text), s) == Rows(fname, Matching(Lines(text), s))
  {
    PiecesMatchIffLongLinesMiss(text, s);
  }
}
