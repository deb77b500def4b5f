/** The line search program (ece391grep.c): one shared buffer, carried-over partial lines. */
module Grep {
  import opened Machine
  import opened CString
  import opened FileSystem
  import opened Descriptors
  import opened TextLines
  import opened Stream

  /** A string that ends in a buffer ends at the same place for any reader of the buffer. */
  lemma TextInside(mem: seq<byte>, n: nat)
    requires n < |mem| && mem[n] == NUL
    ensures NUL in mem && |Text(mem)| <= n && Text(mem) == Text(mem[..n])
  {
    var m := |Text(mem)|;
    assert forall k :: 0 <= k < m ==> mem[k] == Text(mem)[k] != NUL;
    assert mem[..n][..m] == mem[..m];
    TextUnique(mem[..n], m);
  }

  lemma PrintedText(mem: seq<byte>, at: nat, end: nat)
    requires at <= end < |mem| && mem[end] == NUL
    ensures Text(mem[at..]) == Text(mem[at..end])
  {
    TextInside(mem[at..], end - at);
    assert mem[at..][..end - at] == mem[at..end];
  }

  /** The comparison against a terminated line succeeds exactly where the pattern stands in it. */
  lemma ComparisonFinds(mem: seq<byte>, n: nat, s: seq<byte>)
    requires n < |mem| && mem[n] == NUL && NoNul(s)
    ensures Take(Text(mem), |s|) == s <==> |s| <= n && mem[..|s|] == s
  {
    TextInside(mem, n);
    var m := |Text(mem)|;
    assert m <= n && Text(mem) == mem[..m];
    if |s| <= n && mem[..|s|] == s {
      AtLeast(mem, |s|);
    }
    hide Text;
    assert |s| <= m ==> mem[..m][..|s|] == mem[..|s|];
  }

  /** Search one NUL-terminated line held in data[lineStart..lineEnd] and print it if it matches,
      up to its first NUL. */
  method SearchLine(data: array<byte>, lineStart: nat, lineEnd: nat, s: seq<byte>, fname: seq<byte>)
      returns (out: seq<byte>)
    requires lineStart <= lineEnd < data.Length && data[lineEnd] == NUL && NoNul(s)
    ensures var line := data[lineStart..lineEnd]; out == if Hit(line, s) then Row(fname, line) else []
  {
    hide Text, OccursAt;
    ghost var line := data[lineStart..lineEnd];
    var check := lineStart;
    while check < lineEnd
      invariant lineStart <= check <= lineEnd
      invariant forall i: nat :: i < check - lineStart ==> !OccursAt(line, s, i)
    {
      var found := MatchesHere(data, check, lineEnd, s, line, check - lineStart);
      if found {
        PrintedText(data[..], lineStart, lineEnd);
        assert data[..][lineStart..lineEnd] == line;
        return fname + [58] + Text(data[..][lineStart..]) + [NEWLINE];
      }
      check := check + 1;
    }
    NotBehind(line, s);
    return [];
  }

  /** No pattern stands at the end of a line. */
  lemma NotBehind(line: seq<byte>, s: seq<byte>)
    ensures forall i: nat :: i >= |line| ==> !OccursAt(line, s, i)
  {
  }

  /** The test at one position: first characters agree and the comparison finds no difference. */
  method MatchesHere(data: array<byte>, check: nat, lineEnd: nat, s: seq<byte>, ghost line: seq<byte>, ghost i: nat)
      returns (found: bool)
    requires check < lineEnd < data.Length && data[lineEnd] == NUL
    requires i <= |line| && data[check..lineEnd] == line[i..] && NoNul(s)
    ensures found <==> OccursAt(line, s, i)
  {
    var mem := s + [NUL];
    ghost var ahead := data[..][check..];
    ComparisonFinds(ahead, lineEnd - check, s);
    TextOfString(s, [NUL]);
    assert ahead[..lineEnd - check] == line[i..];
    hide Text;
    OccursMeans(line, s, i, ahead, lineEnd - check);
    assert data[check] == line[i..][0] == line[i];
    if mem[0] != data[check] {
      return false;
    }
    var diff := StrncmpUser(data[..][check..], mem, |s|);
    return diff == 0;
  }

  lemma OccursMeans(line: seq<byte>, s: seq<byte>, i: nat, mem: seq<byte>, n: nat)
    requires i < |line| && n <= |mem| && mem[..n] == line[i..]
    ensures s == [] ==> (OccursAt(line, s, i) <==> line[i] == NUL)
    ensures s != [] ==> (OccursAt(line, s, i) <==> |s| <= n && mem[..|s|] == s)
    ensures s != [] && OccursAt(line, s, i) ==> line[i] == s[0]
  {
    assert |s| <= n ==> mem[..|s|] == line[i..][..|s|] == line[i..i + |s|];
  }

  // --------------------------------------------------------------------------- one full buffer

  lemma ReportConcat(fname: seq<byte>, a: seq<seq<byte>>, b: seq<seq<byte>>, s: seq<byte>)
    ensures Report(fname, a + b, s) == Report(fname, a, s) + Report(fname, b, s)
  {
    MatchingConcat(a, b, s);
    RowsConcat(fname, Matching(a, s), Matching(b, s));
  }

  lemma {:induction false} RowsConcat(fname: seq<byte>, a: seq<seq<byte>>, b: seq<seq<byte>>)
    ensures Rows(fname, a + b) == Rows(fname, a) + Rows(fname, b)
  {
    if a == [] {
      assert a + b == b;
    } else {
      assert (a + b)[1..] == a[1..] + b && (a + b)[0] == a[0];
      RowsConcat(fname, a[1..], b);
      Associative(Row(fname, a[0]), Rows(fname, a[1..]), Rows(fname, b));
    }
  }

  /** The lines of a window up to a line end or the end of the window. */
  lemma LinesExtend(w: seq<byte>, start: nat, end: nat)
    requires start <= end <= |w| && (start > 0 ==> w[start - 1] == NEWLINE)
    requires forall k :: start <= k < end ==> w[k] != NEWLINE
    requires end < |w| ==> w[end] == NEWLINE
    ensures Lines(w[..Min(end + 1, |w|)]) ==
            Lines(w[..start]) + (if start == |w| then [] else [w[start..end]])
  {
    hide Lines, LineEnd, AfterLine;
    var m := Min(end + 1, |w|);
    var a, b := w[..start], w[start..m];
    SliceJoin(w, start, m);
    LinesConcat(a, b);
    NoLines();
    if b != [] {
      SliceOfSlice(w, start, end, m);
      OneLineOf(b, end - start);
    }
  }

  lemma SliceJoin(w: seq<byte>, a: nat, b: nat)
    requires a <= b <= |w|
    ensures w[..b] == w[..a] + w[a..b]
  {
  }

  lemma SliceOfSlice(w: seq<byte>, a: nat, b: nat, c: nat)
    requires a <= b <= c <= |w|
    ensures w[a..c][..b - a] == w[a..b] && forall k :: 0 <= k < c - a ==> w[a..c][k] == w[a + k]
  {
  }

  lemma OneLineOf(b: seq<byte>, n: nat)
    requires b != [] && n <= |b| <= n + 1 && (forall k :: 0 <= k < n ==> b[k] != NEWLINE)
    requires n < |b| ==> b[n] == NEWLINE
    ensures Lines(b) == [b[..n]]
  {
    LineEndIs(b, n);
    assert AfterLine(b) == [];
    NoLines();
  }

  /** Terminate the line at `lineEnd`, search it, and append what it prints. */
  method SearchPiece(data: array<byte>, lineStart: nat, lineEnd: nat, s: seq<byte>, fname: seq<byte>,
                     before: seq<byte>, ghost w: seq<byte>, ghost start: seq<byte>)
      returns (out: seq<byte>)
    requires lineStart <= lineEnd <= |w| < data.Length && NoNul(s)
    requires forall k :: lineStart <= k < lineEnd ==> data[k] == w[k] && w[k] != NEWLINE
    requires (lineStart > 0 ==> w[lineStart - 1] == NEWLINE) && (lineEnd < |w| ==> w[lineEnd] == NEWLINE)
    requires before == start + Report(fname, Lines(w[..lineStart]), s)
    modifies data
    ensures forall k :: 0 <= k < data.Length ==> data[k] == if k == lineEnd then NUL else old(data[k])
    ensures out == start + Report(fname, Lines(w[..Min(lineEnd + 1, |w|)]), s)
  {
    hide Lines, Hit;
    ghost var line := w[lineStart..lineEnd];
    data[lineEnd] := NUL;
    assert data[lineStart..lineEnd] == line;
    var row := SearchLine(data, lineStart, lineEnd, s, fname);
    LinesExtend(w, lineStart, lineEnd);
    LineReport(fname, Lines(w[..lineStart]), line, s, lineStart == |w|);
    hide Report;
    Associative(start, Report(fname, Lines(w[..lineStart]), s), row);
    out := before + row;
  }

  lemma LineReport(fname: seq<byte>, lines: seq<seq<byte>>, line: seq<byte>, s: seq<byte>, none: bool)
    requires none ==> line == []
    ensures Report(fname, lines + (if none then [] else [line]), s) ==
            Report(fname, lines, s) + (if Hit(line, s) then Row(fname, line) else [])
  {
    if none {
      assert lines + [] == lines && !Hit([], s);
      assert Report(fname, lines, s) + [] == Report(fname, lines, s);
    } else {
      ReportConcat(fname, lines, [line], s);
      ReportStep(fname, line, [], s);
      assert [line] + [] == [line];
    }
  }

  /** Move the partial line that starts at `lineStart` to the front of the buffer.  The copy stops
      at the line's first NUL: what stood at the front behind it stays. */
  method CarryDown(data: array<byte>, lineStart: nat, lineEnd: nat, ghost w: seq<byte>)
    requires 0 < lineStart == LastStart(w) < lineEnd == |w| < data.Length
    requires forall k :: 0 <= k < |w| ==> data[k] == if k < lineStart then Terminated(w[k]) else w[k]
    modifies data
    ensures data[..lineEnd - lineStart] == Front(w, lineStart)
    ensures forall k :: 0 <= k < |w| ==> data[k] != NEWLINE
    ensures data[lineEnd] == NUL && forall k :: lineEnd < k < data.Length ==> data[k] == old(data[k])
  {
    data[lineEnd] := NUL;
    ghost var n := |Text(w[lineStart..])|;
    PartialText(w, lineStart);
    ghost var was := data[..];
    hide Text, LastStart, Front;
    StrcpyDown(data, 0, lineStart, n);
    FrontCopied(w, lineStart, was, data[..]);
  }

  lemma PartialText(w: seq<byte>, q: nat)
    requires q <= |w|
    ensures var n := |Text(w[q..])|; q + n <= |w| && (q + n < |w| ==> w[q + n] == NUL)
    ensures forall k :: q <= k < q + |Text(w[q..])| ==> w[k] != NUL
  {
    var p := w[q..];
    assert forall k :: 0 <= k < |Text(p)| ==> w[q + k] == p[k] == Text(p)[k];
    assert forall k :: q <= k < q + |Text(p)| ==> w[k] == p[k - q];
  }

  /** The copy of a string down to the front of a searched window. */
  lemma FrontCopied(w: seq<byte>, q: nat, was: seq<byte>, now: seq<byte>)
    requires 0 < q == LastStart(w) < |w| < |was| == |now| && was[|w|] == NUL
    requires forall k :: 0 <= k < |w| ==> was[k] == if k < q then Terminated(w[k]) else w[k]
    requires var n := |Text(w[q..])|;
             && q + n <= |w| && (forall k :: 0 <= k <= n && q + k < |was| ==> now[k] == was[q + k])
             && (forall k :: n < k < |was| ==> now[k] == was[k])
    ensures now[..|w| - q] == Front(w, q)
    ensures forall k :: 0 <= k < |w| ==> now[k] != NEWLINE
  {
    hide Text;
    var n, front := |Text(w[q..])|, Front(w, q);
    forall k | 0 <= k < |w| - q
      ensures now[k] == front[k]
    {
      assert k <= n ==> now[k] == was[q + k] == w[q + k];
      assert k > n ==> now[k] == was[k] == Terminated(w[k]);
    }
    NoneLeft(w, q, was, now, n);
  }

  lemma NoneLeft(w: seq<byte>, q: nat, was: seq<byte>, now: seq<byte>, n: nat)
    requires 0 < q == LastStart(w) < |w| < |was| == |now| && was[|w|] == NUL && q + n <= |w|
    requires forall k :: 0 <= k < |w| ==> was[k] == if k < q then Terminated(w[k]) else w[k]
    requires forall k {:trigger now[k]} :: 0 <= k < |w| ==>
               now[k] == if k <= n then was[q + k] else was[k]
    ensures forall k :: 0 <= k < |w| ==> now[k] != NEWLINE
  {
    assert forall k {:trigger was[k]} :: 0 <= k <= |w| ==> was[k] != NEWLINE;
    forall k | 0 <= k < |w|
      ensures now[k] != NEWLINE
    {
      assert now[k] == was[if k <= n then q + k else k];
    }
  }

  /** The scan for the end of the current line; it stops at `last` without reading a newline there. */
  method FindLineEnd(data: array<byte>, lineStart: nat, last: nat) returns (lineEnd: nat)
    requires lineStart <= last < data.Length
    ensures lineStart <= lineEnd <= last && (lineEnd < last ==> data[lineEnd] == NEWLINE)
    ensures forall k :: lineStart <= k < lineEnd ==> data[k] != NEWLINE
  {
    lineEnd := lineStart;
    while lineEnd < last && data[lineEnd] != NEWLINE
      invariant lineStart <= lineEnd <= last
      invariant forall k :: lineStart <= k < lineEnd ==> data[k] != NEWLINE
    {
      lineEnd := lineEnd + 1;
    }
  }

  /** The byte behind a full buffer after the search: written unless the last line ended before. */
  ghost predicate Behind(w: seq<byte>, was: byte, now: byte) {
    now == if LastStart(w) == |w| then was else NUL
  }

  /** Process the buffer after one read: search every complete line, keep a partial last line for
      the next read.  At the end of the file everything is searched. */
  method ScanBuffer(data: array<byte>, filled: nat, cnt: nat, s: seq<byte>, fname: seq<byte>, before: seq<byte>)
      returns (last: nat, out: seq<byte>)
    requires data.Length == BUFSIZE + 1 && filled <= BUFSIZE && NoNul(s) && (cnt != 0 ==> filled > 0)
    modifies data
    ensures var w := old(data[..filled]);
            var edge := cnt == 0 || old(data[filled]) == NEWLINE;
            && last == |Kept(w, edge)| <= filled && data[..last] == Kept(w, edge)
            && out == before + Report(fname, Lines(Searched(w, edge)), s)
            && (cnt != 0 ==> Behind(w, old(data[filled]), data[filled]))
    ensures forall k :: 0 <= k < filled ==> data[k] != NEWLINE
  {
    hide Lines, Report, LastStart, Front;
    ghost var w := data[..filled];
    ghost var edge := cnt == 0 || data[filled] == NEWLINE;
    out := before;
    last := filled;
    var lineStart := 0;
    NothingSearched(before, w, fname, s);
    while true
      invariant last == filled && 0 <= lineStart && (lineStart < filled || lineStart == 0)
      invariant lineStart > 0 ==> w[lineStart - 1] == NEWLINE
      invariant forall k {:trigger data[k]} :: 0 <= k < filled ==>
                  data[k] == if k < lineStart then Terminated(w[k]) else w[k]
      invariant forall k :: filled <= k < data.Length ==> data[k] == old(data[k])
      invariant out == before + Report(fname, Lines(w[..lineStart]), s)
      decreases filled - lineStart
    {
      var lineEnd := FindLineEnd(data, lineStart, last);
      assert forall k {:trigger w[k]} :: lineStart <= k < lineEnd ==> w[k] == data[k] != NEWLINE;
      if data[lineEnd] != NEWLINE && cnt != 0 && lineStart != 0 {
        LastStartIs(w, lineStart);
        CarryDown(data, lineStart, lineEnd, w);
        last := last - lineStart;
        break;
      }
      out := SearchPiece(data, lineStart, lineEnd, s, fname, out, w, before);
      if lineEnd == filled {
        LastStartIs(w, lineStart);
      } else if lineEnd + 1 == filled {
        LastStartIs(w, filled);
      }
      lineStart := lineEnd + 1;
      if lineStart >= last {
        assert w[..filled] == w;
        last := 0;
        break;
      }
    }
  }

  lemma NothingSearched(before: seq<byte>, w: seq<byte>, fname: seq<byte>, s: seq<byte>)
    ensures before == before + Report(fname, Lines(w[..0]), s)
  {
    NoLines();
  }

  // ----------------------------------------------------------------------------- the whole file

  /** The descriptor is an open file with the given content; the clock delivers nothing. */
  ghost predicate Delivers(img: Image, d: Descriptor, content: seq<byte>) {
    && img.Valid() && d.flags != 0
    && if d.ops == RtcOps then content == [] && d.position == 0 else OpenFile(img, d) && img.Content(d.inode) == content
  }

  /** Between reads, with the file read up to `position`: `last` bytes are carried, and `edge` says
      whether the byte behind the next window is a newline. */
  ghost predicate Ready(data: array<byte>, last: nat, content: seq<byte>, position: nat, edge: bool)
    reads data
  {
    && data.Length == BUFSIZE + 1 && last < BUFSIZE && position <= |content|
    && (position < |content| ==> (edge <==> data[Min(last + |content| - position, BUFSIZE)] == NEWLINE))
  }

  /** Read behind the carried bytes. */
  method Refill(img: Image, pcb: Pcb, fd: nat, data: array<byte>, carried: nat, ghost content: seq<byte>)
      returns (cnt: nat)
    requires pcb.Valid() && fd < TABLE_SIZE && Delivers(img, pcb.fdt[fd], content)
    requires data.Length == BUFSIZE + 1 && carried < BUFSIZE && pcb.fdt[fd].position <= |content|
    modifies data, pcb.fdt
    ensures var rest := content[old(pcb.fdt[fd]).position..];
            && cnt == Min(BUFSIZE - carried, |rest|) && carried + cnt <= BUFSIZE
            && data[..carried + cnt] == old(data[..carried]) + rest[..cnt]
    ensures forall k :: carried + cnt <= k < data.Length ==> data[k] == old(data[k])
    ensures Delivers(img, pcb.fdt[fd], content)
    ensures pcb.fdt[..] ==
            old(pcb.fdt[..])[fd := old(pcb.fdt[fd]).(position := old(pcb.fdt[fd]).position + cnt)]
  {
    hide Image.Content, Image.Valid, NextBytes;
    ghost var d, front := pcb.fdt[fd], data[..carried];
    ghost var rest := content[d.position..];
    if d.ops != RtcOps {
      BytesAhead(img, d, content, BUFSIZE - carried);
    }
    cnt := pcb.Read(img, fd, data, carried, BUFSIZE - carried);
    SeqOfParts(data[..], front, rest[..cnt]);
  }

  lemma BytesAhead(img: Image, d: Descriptor, content: seq<byte>, n: nat)
    requires Delivers(img, d, content) && d.ops != RtcOps
    ensures d.position <= |content|
    ensures var rest := content[d.position..]; NextBytes(img, d, n) == rest[..Min(n, |rest|)]
    ensures OpenFile(img, d.(position := d.position + |NextBytes(img, d, n)|))
  {
  }

  lemma SeqOfParts(buf: seq<byte>, front: seq<byte>, more: seq<byte>)
    requires |front| + |more| <= |buf|
    requires forall k :: 0 <= k < |front| ==> buf[k] == front[k]
    requires forall k :: |front| <= k < |front| + |more| ==> buf[k] == more[k - |front|]
    ensures buf[..|front| + |more|] == front + more
  {
  }

  /** Everything still to be printed: `front` is in the buffer, `rest` is to be read. */
  ghost function Pending(front: seq<byte>, rest: seq<byte>, edge: bool, fname: seq<byte>, s: seq<byte>): seq<byte>
    requires |front| < BUFSIZE
  {
    Report(fname, SearchedLines(front, rest, edge), s)
  }

  /** The same, read off the buffer between two reads. */
  ghost function Left(data: array<byte>, last: nat, content: seq<byte>, position: nat, edge: bool,
                      fname: seq<byte>, s: seq<byte>): seq<byte>
    requires Ready(data, last, content, position, edge)
    reads data
  {
    Pending(data[..last], content[position..], edge, fname, s)
  }

  lemma PendingStep(front: seq<byte>, rest: seq<byte>, edge: bool, fname: seq<byte>, s: seq<byte>)
    requires |front| < BUFSIZE && rest != []
    ensures var n := Room(front, rest);
            var w, t := front + rest[..n], rest[n..];
            && n > 0 && |w| <= BUFSIZE && (|w| < BUFSIZE ==> t == []) && |Kept(w, edge)| < BUFSIZE
            && Pending(front, rest, edge, fname, s) ==
               Report(fname, Lines(Searched(w, edge)), s) + Pending(Kept(w, edge), t, EdgeAfter(w, t, edge), fname, s)
  {
    hide SearchedLines, Lines, Report;
    StreamUnfolds(front, rest, edge);
    var n := Room(front, rest);
    var w, t := front + rest[..n], rest[n..];
    ReportConcat(fname, Lines(Searched(w, edge)), SearchedLines(Kept(w, edge), t, EdgeAfter(w, t, edge)), s);
  }

  lemma PendingEnds(front: seq<byte>, edge: bool, fname: seq<byte>, s: seq<byte>)
    requires |front| < BUFSIZE
    ensures Pending(front, [], edge, fname, s) == Report(fname, Lines(Searched(front, true)), s)
    ensures Kept(front, true) == []
  {
  }

  /** The byte behind the next window, seen from what one search left in the buffer. */
  lemma NextEdge(w: seq<byte>, t: seq<byte>, edge: bool, was: byte, data: seq<byte>, last: nat)
    requires |data| == BUFSIZE + 1 && |w| == BUFSIZE && (edge <==> was == NEWLINE) && last == |Kept(w, edge)|
    requires (forall k :: 0 <= k < BUFSIZE ==> data[k] != NEWLINE) && Behind(w, was, data[BUFSIZE])
    ensures EdgeAfter(w, t, edge) <==> data[Min(last + |t|, BUFSIZE)] == NEWLINE
  {
    hide LastStart;
  }

  /** Only the position of one descriptor has changed. */
  ghost predicate Moved(was: seq<Descriptor>, now: seq<Descriptor>, fd: nat) {
    fd < |was| == |now| && now == was[fd := was[fd].(position := now[fd].position)]
  }

  lemma MovedTwice(a: seq<Descriptor>, b: seq<Descriptor>, c: seq<Descriptor>, fd: nat)
    requires Moved(a, b, fd) && Moved(b, c, fd)
    ensures Moved(a, c, fd)
  {
  }

  lemma MovedMeans(was: seq<Descriptor>, now: seq<Descriptor>, fd: nat)
    requires Moved(was, now, fd)
    ensures |was| == |now| && fd < |was| && now == was[fd := now[fd]]
    ensures now[fd].ops == was[fd].ops && now[fd].flags == was[fd].flags
  {
  }

  /** One round of the read loop of do_one_file: read, then process the buffer. */
  method Round(img: Image, pcb: Pcb, fd: nat, data: array<byte>, carried: nat, s: seq<byte>, fname: seq<byte>,
               before: seq<byte>, ghost content: seq<byte>, ghost edge: bool)
      returns (cnt: nat, last: nat, out: seq<byte>, ghost next: bool)
    requires pcb.Valid() && fd < TABLE_SIZE && Delivers(img, pcb.fdt[fd], content) && NoNul(s)
    requires Ready(data, carried, content, pcb.fdt[fd].position, edge)
    modifies data, pcb.fdt
    ensures pcb.fdt[fd].position == old(pcb.fdt[fd]).position + cnt && Moved(old(pcb.fdt[..]), pcb.fdt[..], fd)
    ensures Delivers(img, pcb.fdt[fd], content)
    ensures Ready(data, last, content, pcb.fdt[fd].position, next)
    ensures out + (if cnt == 0 then [] else Left(data, last, content, pcb.fdt[fd].position, next, fname, s)) ==
            before + old(Left(data, carried, content, pcb.fdt[fd].position, edge, fname, s))
  {
    hide Pending, Report, Lines, Kept, Searched, EdgeAfter, Delivers;
    ghost var front, rest := data[..carried], content[pcb.fdt[fd].position..];
    cnt := Refill(img, pcb, fd, data, carried, content);
    ghost var w, t, was := data[..carried + cnt], rest[cnt..], data[carried + cnt];
    last, out := ScanBuffer(data, carried + cnt, cnt, s, fname, before);
    assert content[pcb.fdt[fd].position..] == t;
    if cnt == 0 {
      assert rest == [] && w == front;
      PendingEnds(front, edge, fname, s);
      next := false;
      assert out + [] == out;
    } else {
      PendingStep(front, rest, edge, fname, s);
      next := EdgeAfter(w, t, edge);
      if t != [] {
        NextEdge(w, t, edge, was, data[..], last);
      }
      Associative(before, Report(fname, Lines(Searched(w, edge)), s), Pending(data[..last], t, next, fname, s));
    }
  }

  /** The read loop of do_one_file, on an open file read from its start.  The buffer holds
      anything; `edge` tells what lay behind the first window. */
  method SearchOpenFile(img: Image, pcb: Pcb, fd: nat, data: array<byte>, s: seq<byte>, fname: seq<byte>,
                        ghost content: seq<byte>) returns (out: seq<byte>, ghost edge: bool)
    requires pcb.Valid() && fd < TABLE_SIZE && Delivers(img, pcb.fdt[fd], content) && pcb.fdt[fd].position == 0
    requires NoNul(s) && data.Length == BUFSIZE + 1
    modifies data, pcb.fdt
    ensures edge == (old(data[Min(|content|, BUFSIZE)]) == NEWLINE)
    ensures out == Report(fname, SearchedLines([], content, edge), s)
    ensures pcb.fdt[..] == old(pcb.fdt[..])[fd := pcb.fdt[fd]] && pcb.fdt[fd].flags != 0
    ensures pcb.fdt[fd].ops == old(pcb.fdt[fd]).ops
  {
    edge := data[Min(|content|, BUFSIZE)] == NEWLINE;
    assert pcb.fdt[fd].flags != 0;
    AtStart(data, content, edge, fname, s);
    ghost var table := pcb.fdt[..];
    assert Moved(table, table, fd);
    hide Left, Ready, Delivers, Report, SearchedLines, NoNul, Moved;
    ghost var next, all := edge, Left(data, 0, content, 0, edge, fname, s);
    var last: nat := 0;
    out := [];
    assert [] + all == all;
    while true
      invariant Delivers(img, pcb.fdt[fd], content) && Ready(data, last, content, pcb.fdt[fd].position, next)
      invariant Moved(table, pcb.fdt[..], fd)
      invariant out + Left(data, last, content, pcb.fdt[fd].position, next, fname, s) == all
      decreases |content| - pcb.fdt[fd].position
    {
      ghost var before := pcb.fdt[..];
      var cnt;
      cnt, last, out, next := Round(img, pcb, fd, data, last, s, fname, out, content, next);
      MovedTwice(table, before, pcb.fdt[..], fd);
      InsideFile(data, last, content, pcb.fdt[fd].position, next);
      if cnt == 0 {
        assert out + [] == out;
        break;
      }
    }
    MovedMeans(table, pcb.fdt[..], fd);
  }

  lemma InsideFile(data: array<byte>, last: nat, content: seq<byte>, position: nat, edge: bool)
    requires Ready(data, last, content, position, edge)
    ensures position <= |content|
  {
  }

  lemma AtStart(data: array<byte>, content: seq<byte>, edge: bool, fname: seq<byte>, s: seq<byte>)
    requires data.Length == BUFSIZE + 1 && edge == (data[Min(|content|, BUFSIZE)] == NEWLINE)
    ensures Ready(data, 0, content, 0, edge)
    ensures Left(data, 0, content, 0, edge, fname, s) == Report(fname, SearchedLines([], content, edge), s)
  {
    assert content[0..] == content && data[..0] == [];
  }

  /** A regular file or the clock, which reads as an empty file. */
  ghost predicate Searchable(img: Image, d: Dentry) {
    d.fileType == 0 || (d.fileType == 2 && d.inodeIndex < |img.inodes|)
  }

  ghost function TextOf(img: Image, d: Dentry): seq<byte>
    requires img.Valid()
  {
    if d.fileType == 2 && d.inodeIndex < |img.inodes| then img.Content(d.inodeIndex) else []
  }

  /** Open a file by name. */
  method OpenText(img: Image, pcb: Pcb, fname: seq<byte>) returns (fd: int, ghost content: seq<byte>)
    requires pcb.Valid() && img.Valid() && NoNul(fname)
    requires Find(img.dentries, fname).Some? ==> Searchable(img, Find(img.dentries, fname).value)
    modifies pcb.fdt
    ensures var r := Find(img.dentries, fname); var slot := FreeSlot(old(pcb.fdt[..]), 2);
            if r == None || slot == TABLE_SIZE then
              fd == -1 && pcb.fdt[..] == old(pcb.fdt[..])
            else
              && fd == slot && pcb.fdt[..] == old(pcb.fdt[..])[fd := pcb.fdt[fd]]
              && Delivers(img, pcb.fdt[fd], content) && pcb.fdt[fd].position == 0
              && pcb.fdt[fd].ops != NoOps && content == TextOf(img, r.value)
  {
    TextOfString(fname, [NUL]);
    OpenedIsFresh(img, fname);
    fd := pcb.Open(img, fname + [NUL]);
    FindIsMember(img.dentries, fname);
    content := if fd == -1 then [] else TextOf(img, Find(img.dentries, fname).value);
  }

  /** do_one_file after a successful open. */
  method SearchAndClose(img: Image, pcb: Pcb, fd: nat, data: array<byte>, s: seq<byte>, fname: seq<byte>,
                        ghost content: seq<byte>) returns (status: int, out: seq<byte>, ghost edge: bool)
    requires pcb.Valid() && 2 <= fd < TABLE_SIZE && pcb.fdt[fd].ops != NoOps
    requires Delivers(img, pcb.fdt[fd], content) && pcb.fdt[fd].position == 0
    requires NoNul(s) && data.Length == BUFSIZE + 1
    modifies data, pcb.fdt
    ensures status == 0 && out == Report(fname, SearchedLines([], content, edge), s)
    ensures pcb.fdt[..] == old(pcb.fdt[..])[fd := pcb.fdt[fd]] && pcb.fdt[fd].flags == 0
  {
    hide Image.Content, Image.Valid, Report, SearchedLines;
    out, edge := SearchOpenFile(img, pcb, fd, data, s, fname, content);
    var r := pcb.Close(fd);
    assert r == 0;
    status := 0;
  }

  /** Search one file (do_one_file).  The buffer is a local array that is never initialised; all
      that matters of what it holds is whether the byte behind the first window is a newline, and
      `edge` tells.  Neither the read nor the close can fail once the file is open, so their
      messages are never printed. */
  method DoOneFile(img: Image, pcb: Pcb, s: seq<byte>, fname: seq<byte>)
      returns (status: int, out: seq<byte>, ghost edge: bool)
    requires pcb.Valid() && img.Valid() && NoNul(s) && NoNul(fname)
    requires Find(img.dentries, fname).Some? ==> Searchable(img, Find(img.dentries, fname).value)
    modifies pcb.fdt
    ensures var r := Find(img.dentries, fname); var slot := FreeSlot(old(pcb.fdt[..]), 2);
            if r == None || slot == TABLE_SIZE then
              status == -1 && out == Ascii("file open failed\n") && pcb.fdt[..] == old(pcb.fdt[..])
            else
              && status == 0
              && out == Report(fname, SearchedLines([], TextOf(img, r.value), edge), s)
              && pcb.fdt[..] == old(pcb.fdt[..])[slot := pcb.fdt[slot]] && pcb.fdt[slot].flags == 0
  {
    hide Image.Content, Image.Valid, Report, SearchedLines, TextOf;
    var data := new byte[BUFSIZE + 1];
    edge := false;
    var fd;
    ghost var content;
    fd, content := OpenText(img, pcb, fname);
    if fd == -1 {
      return -1, Ascii("file open failed\n"), edge;
    }
    status, out, edge := SearchAndClose(img, pcb, fd, data, s, fname, content);
  }

  // ------------------------------------------------------------------------------ what it means

  /** The search sees exactly the pieces of the file if and only if no carried line is disturbed
      and no stale newline cuts one. */
  lemma SearchesPiecesIff(content: seq<byte>, edge: bool)
    ensures SearchedLines([], content, edge) == Pieces(content) <==> Undisturbed([], content, edge)
  {
    StreamIsPiecesIff([], content, edge);
    assert [] + content == content;
  }

  /** For a file without NUL bytes what is printed is the matching lines, each once and in file
      order, exactly when no line longer than the buffer matches.  (A stale newline counts only
      behind a file longer than the buffer.) */
  lemma PrintsMatchingLines(fname: seq<byte>, content: seq<byte>, s: seq<byte>, edge: bool)
    requires NoNul(content) && NEWLINE !in fname && (edge ==> |content| <= BUFSIZE)
    ensures Report(fname, SearchedLines([], content, edge), s) == Rows(fname, Matching(Lines(content), s)) <==>
            LongLinesMiss(content, s)
  {
    NoNulIsUndisturbed([], content, edge);
    SearchesPiecesIff(content, edge);
    PrintedIffLongLinesMiss(fname, content, s);
  }
}
