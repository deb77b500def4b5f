/** Lines of a text, the pieces a 1024-byte buffer sees of them, and what a search reports. */
module TextLines {
  import opened Machine
  import opened CString

  const BUFSIZE := 1024

  /** Index of the first newline, or the length. */
  function LineEnd(s: seq<byte>): (e: nat)
    ensures e <= |s| && NEWLINE !in s[..e]
    ensures e < |s| ==> s[e] == NEWLINE
  {
    if s == [] || s[0] == NEWLINE then 0 else
    var e := LineEnd(s[1..]);
    assert s[..e + 1] == [s[0]] + s[1..][..e];
    e + 1
  }

  lemma LineEndIs(s: seq<byte>, e: nat)
    requires e <= |s| && (forall k :: 0 <= k < e ==> s[k] != NEWLINE)
    requires e < |s| ==> s[e] == NEWLINE
    ensures LineEnd(s) == e
  {
    var d := LineEnd(s);
    assert forall k :: 0 <= k < d ==> s[..d][k] != NEWLINE;
  }

  lemma LineEndAtLeast(s: seq<byte>, e: nat)
    requires e <= |s| && (forall k :: 0 <= k < e ==> s[k] != NEWLINE)
    ensures LineEnd(s) >= e
  {
  }

  /** What follows the first line and its newline. */
  function AfterLine(s: seq<byte>): (r: seq<byte>)
    ensures s != [] ==> |r| < |s|
  {
    var e := LineEnd(s);
    if e < |s| then s[e + 1..] else []
  }

  /** The lines of a text; a final newline does not start another line. */
  function Lines(s: seq<byte>): seq<seq<byte>>
    decreases |s|
  {
    if s == [] then [] else [s[..LineEnd(s)]] + Lines(AfterLine(s))
  }

  /** The lines again, but a line of 1024 bytes or more is cut after every 1024. */
  function Pieces(s: seq<byte>): seq<seq<byte>>
    decreases |s|
  {
    if s == [] then []
    else if LineEnd(s) < BUFSIZE then [s[..LineEnd(s)]] + Pieces(AfterLine(s))
    else [s[..BUFSIZE]] + Pieces(s[BUFSIZE..])
  }

  /** The pattern stands at position `i`.  The test compares first characters first, so the empty
      pattern stands exactly at the NUL bytes. */
  ghost predicate OccursAt(line: seq<byte>, pat: seq<byte>, i: nat) {
    if pat == [] then i < |line| && line[i] == NUL else i + |pat| <= |line| && line[i..i + |pat|] == pat
  }

  /** The line contains the pattern. */
  ghost predicate Hit(line: seq<byte>, pat: seq<byte>) {
    exists i: nat :: OccursAt(line, pat, i)
  }

  /** A line contains a pattern if and only if it is something, the pattern, and something more. */
  lemma HitMeans(line: seq<byte>, pat: seq<byte>)
    requires pat != []
    ensures Hit(line, pat) <==> exists a, b :: line == a + pat + b
  {
    if Hit(line, pat) {
      var i: nat :| OccursAt(line, pat, i);
      assert line == line[..i] + pat + line[i + |pat|..];
    }
    if a, b :| line == a + pat + b {
      assert line[|a|..|a| + |pat|] == pat;
      assert OccursAt(line, pat, |a|);
    }
  }

  /** And the empty one if and only if it has a NUL byte. */
  lemma EmptyHitMeans(line: seq<byte>)
    ensures Hit(line, []) <==> NUL in line
  {
    if NUL in line {
      var i: nat :| i < |line| && line[i] == NUL;
      assert OccursAt(line, [], i);
    }
  }

  /** The lines that contain the pattern, in order. */
  ghost function Matching(lines: seq<seq<byte>>, pat: seq<byte>): seq<seq<byte>> {
    if lines == [] then []
    else (if Hit(lines[0], pat) then [lines[0]] else []) + Matching(lines[1..], pat)
  }

  /** One printed row: file name, colon, the line up to its first NUL, newline. */
  function Row(fname: seq<byte>, line: seq<byte>): seq<byte> {
    fname + [58] + Text(line) + [NEWLINE]
  }

  function Rows(fname: seq<byte>, lines: seq<seq<byte>>): seq<byte> {
    if lines == [] then [] else Row(fname, lines[0]) + Rows(fname, lines[1..])
  }

  /** Everything a search of the given lines prints. */
  ghost function Report(fname: seq<byte>, lines: seq<seq<byte>>, pat: seq<byte>): seq<byte> {
    Rows(fname, Matching(lines, pat))
  }

  /** The lines put together again, each with its newline. */
  function Unlines(lines: seq<seq<byte>>): seq<byte> {
    if lines == [] then [] else lines[0] + [NEWLINE] + Unlines(lines[1..])
  }

  lemma {:induction false} LinesHaveNoNewline(s: seq<byte>)
    ensures forall line <- Lines(s) :: NEWLINE !in line
    decreases |s|
  {
    if s != [] {
      LinesHaveNoNewline(AfterLine(s));
    }
  }

  lemma LinesStep(s: seq<byte>)
    requires s != []
    ensures Lines(s) != [] && Lines(s)[0] == s[..LineEnd(s)] && Lines(s)[1..] == Lines(AfterLine(s))
  {
    hide LineEnd, AfterLine;
    assert LineEnd(s) <= |s|;
    assert Lines(s) == [s[..LineEnd(s)]] + Lines(AfterLine(s));
  }

  lemma CutAt(s: seq<byte>, e: nat)
    requires e < |s| && s[e] == NEWLINE
    ensures s == s[..e] + [NEWLINE] + s[e + 1..]
  {
  }

  lemma LastOf(s: seq<byte>)
    requires s != [] && NEWLINE !in s[..|s|]
    ensures s[..|s|] == s && s[|s| - 1] != NEWLINE
  {
    assert s[..|s|] == s && s[|s| - 1] in s;
  }

  /** A text is its first line, the newline, and what follows. */
  lemma FirstAndRest(s: seq<byte>)
    requires s != []
    ensures LineEnd(s) < |s| ==> s == s[..LineEnd(s)] + [NEWLINE] + AfterLine(s)
    ensures LineEnd(s) == |s| ==> s[..LineEnd(s)] == s && AfterLine(s) == [] && s[|s| - 1] != NEWLINE
  {
    hide LineEnd;
    if LineEnd(s) < |s| {
      CutAt(s, LineEnd(s));
    } else {
      LastOf(s);
    }
  }

  /** The lines make up the text, whose last line may lack its newline. */
  lemma {:induction false} LinesMakeText(s: seq<byte>)
    ensures Unlines(Lines(s)) == if s == [] || s[|s| - 1] == NEWLINE then s else s + [NEWLINE]
    decreases |s|
  {
    if s != [] {
      var line, rest := s[..LineEnd(s)], AfterLine(s);
      LinesStep(s);
      FirstAndRest(s);
      LinesMakeText(rest);
      hide Lines, LineEnd, AfterLine;
      if line != s {
        assert s == line + [NEWLINE] + rest && (rest != [] ==> rest[|rest| - 1] == s[|s| - 1]);
        Associative(line + [NEWLINE], rest, [NEWLINE]);
      } else {
        assert rest == [] && Unlines([]) == [] && s + [NEWLINE] + [] == s + [NEWLINE];
      }
    }
  }

  /** Every line that contains the pattern is kept as often as it stands there, no other is. */
  lemma {:induction false} MatchingCounts(lines: seq<seq<byte>>, pat: seq<byte>, line: seq<byte>)
    ensures multiset(Matching(lines, pat))[line] == if Hit(line, pat) then multiset(lines)[line] else 0
  {
    if lines != [] {
      assert lines == [lines[0]] + lines[1..];
      MatchingCounts(lines[1..], pat, line);
    }
  }

  lemma ReportStep(fname: seq<byte>, line: seq<byte>, lines: seq<seq<byte>>, pat: seq<byte>)
    ensures Report(fname, [line] + lines, pat) ==
            (if Hit(line, pat) then Row(fname, line) else []) + Report(fname, lines, pat)
  {
    assert ([line] + lines)[1..] == lines;
    var m := Matching([line] + lines, pat);
    if Hit(line, pat) {
      assert m == [line] + Matching(lines, pat) && m[1..] == Matching(lines, pat);
    } else {
      assert m == Matching(lines, pat);
    }
  }

  lemma {:induction false} MatchingConcat(a: seq<seq<byte>>, b: seq<seq<byte>>, pat: seq<byte>)
    ensures Matching(a + b, pat) == Matching(a, pat) + Matching(b, pat)
  {
    if a == [] {
      assert a + b == b;
    } else {
      assert (a + b)[1..] == a[1..] + b && (a + b)[0] == a[0];
      MatchingConcat(a[1..], b, pat);
      Associative(if Hit(a[0], pat) then [a[0]] else [], Matching(a[1..], pat), Matching(b, pat));
    }
  }

  // ------------------------------------------------- when cutting long lines is harmless

  /** The pieces of one line. */
  function Cut(line: seq<byte>): seq<seq<byte>> {
    if |line| < BUFSIZE then [line] else [line[..BUFSIZE]] + Cut(line[BUFSIZE..])
  }

  /** The pieces of a text are the cut lines, up to empty pieces that match nothing. */
  lemma {:induction false} PiecesAreCutLines(s: seq<byte>, pat: seq<byte>)
    requires s != []
    ensures Matching(Pieces(s), pat) == Matching(Cut(s[..LineEnd(s)]), pat) + Matching(Pieces(AfterLine(s)), pat)
    decreases |s|, 0
  {
    var e := LineEnd(s);
    var line := s[..e];
    if e < BUFSIZE {
      MatchingConcat([line], Pieces(AfterLine(s)), pat);
    } else {
      var rest := s[BUFSIZE..];
      LineEndIs(rest, e - BUFSIZE);
      var head := [s[..BUFSIZE]];
      var tail := line[BUFSIZE..];
      assert Cut(line) == head + Cut(tail) && tail == rest[..e - BUFSIZE] by {
        assert line[..BUFSIZE] == s[..BUFSIZE];
      }
      MatchingConcat(head, Cut(tail), pat);
      MatchingConcat(head, Pieces(rest), pat);
      RestOfLine(rest, pat);
      assert AfterLine(rest) == AfterLine(s);
      hide Matching, Pieces, Cut, LineEnd;
      Associative(Matching(head, pat), Matching(Cut(tail), pat), Matching(Pieces(AfterLine(s)), pat));
    }
  }

  lemma {:induction false} RestOfLine(rest: seq<byte>, pat: seq<byte>)
    ensures Matching(Pieces(rest), pat) ==
            Matching(Cut(rest[..LineEnd(rest)]), pat) + Matching(Pieces(AfterLine(rest)), pat)
    decreases |rest|, 1
  {
    if rest == [] {
      assert Cut(rest[..LineEnd(rest)]) == [[]];
      assert !Hit([], pat);
    } else {
      PiecesAreCutLines(rest, pat);
    }
  }

  lemma HitInside(line: seq<byte>, pat: seq<byte>, from: nat, to: nat)
    requires from <= to <= |line| && Hit(line[from..to], pat)
    ensures Hit(line, pat)
  {
    var i: nat :| OccursAt(line[from..to], pat, i);
    var part := line[from..to];
    if pat == [] {
      assert OccursAt(line, pat, from + i);
      return;
    }
    assert forall k :: 0 <= k < |pat| ==> pat[k] == part[i..i + |pat|][k] == part[i + k] == line[from + i + k];
    assert line[from + i..from + i + |pat|] == pat;
    assert OccursAt(line, pat, from + i);
  }

  /** A line without the pattern has no piece with it. */
  lemma {:induction false} NoHitNoPiece(line: seq<byte>, pat: seq<byte>)
    requires !Hit(line, pat)
    ensures Matching(Cut(line), pat) == []
    decreases |line|
  {
    if |line| >= BUFSIZE {
      if Hit(line[..BUFSIZE], pat) {
        HitInside(line, pat, 0, BUFSIZE);
      }
      if Hit(line[BUFSIZE..], pat) {
        assert line[BUFSIZE..|line|] == line[BUFSIZE..];
        HitInside(line, pat, BUFSIZE, |line|);
      }
      NoHitNoPiece(line[BUFSIZE..], pat);
    }
  }

  /** No printed piece is longer than the buffer. */
  lemma {:induction false} PiecesAreShort(s: seq<byte>, pat: seq<byte>)
    ensures forall p <- Matching(Pieces(s), pat) :: |p| <= BUFSIZE
    decreases |s|
  {
    if s != [] {
      PiecesAreShort(if LineEnd(s) < BUFSIZE then AfterLine(s) else s[BUFSIZE..], pat);
    }
  }

  lemma {:induction false} MatchingHas(lines: seq<seq<byte>>, pat: seq<byte>, line: seq<byte>)
    requires line in lines && Hit(line, pat)
    ensures line in Matching(lines, pat)
  {
    if line != lines[0] {
      assert lines == [lines[0]] + lines[1..];
      MatchingHas(lines[1..], pat, line);
    }
  }

  ghost predicate LongLinesMiss(s: seq<byte>, pat: seq<byte>) {
    forall line <- Lines(s) :: |line| > BUFSIZE ==> !Hit(line, pat)
  }

  lemma CuttingOneLine(line: seq<byte>, pat: seq<byte>)
    requires |line| > BUFSIZE ==> !Hit(line, pat)
    ensures Matching(Cut(line), pat) == Matching([line], pat)
  {
    if !Hit(line, pat) {
      NoHitNoPiece(line, pat);
    } else if |line| == BUFSIZE {
      assert line[..BUFSIZE] == line && Cut(line[BUFSIZE..]) == [[]];
      assert Cut(line) == [line] + [[]] && !Hit([], pat);
      MatchingConcat([line], [[]], pat);
    }
  }

  lemma {:induction false} CuttingIsHarmless(s: seq<byte>, pat: seq<byte>)
    requires LongLinesMiss(s, pat)
    ensures Matching(Pieces(s), pat) == Matching(Lines(s), pat)
    decreases |s|
  {
    if s != [] {
      var line := s[..LineEnd(s)];
      var rest := AfterLine(s);
      assert Lines(s) == [line] + Lines(rest);
      assert forall l <- Lines(rest) :: l in Lines(s);
      CuttingIsHarmless(rest, pat);
      PiecesAreCutLines(s, pat);
      hide Matching, Pieces, Cut, LineEnd;
      CuttingOneLine(line, pat);
      MatchingConcat([line], Lines(rest), pat);
    }
  }

  /** Searching the buffer-sized pieces finds exactly the matching lines if and only if no
      line longer than the buffer contains the pattern. */
  lemma {:induction false} PiecesMatchIffLongLinesMiss(s: seq<byte>, pat: seq<byte>)
    ensures Matching(Pieces(s), pat) == Matching(Lines(s), pat) <==> LongLinesMiss(s, pat)
  {
    if LongLinesMiss(s, pat) {
      CuttingIsHarmless(s, pat);
    } else {
      var line :| line in Lines(s) && |line| > BUFSIZE && Hit(line, pat);
      MatchingHas(Lines(s), pat, line);
      PiecesAreShort(s, pat);
    }
  }

  /** A single line of n times "a" is found, searched for "a", if and only if n is at most 1024. */
  lemma LongLineIff(n: nat)
    ensures var s, pat := seq(n, _ => 97), [97];
            Matching(Pieces(s), pat) == Matching(Lines(s), pat) <==> n <= 1024
  {
    var s: seq<byte> := seq(n, _ => 97);
    PiecesMatchIffLongLinesMiss(s, [97]);
    if n > 0 {
      LineEndIs(s, n);
      assert s[..n] == s && AfterLine(s) == [];
      assert Lines([]) == [];
      assert Lines(s) == [s];
      assert s[0..1] == [97] && OccursAt(s, [97], 0);
    }
  }

  /** So it fails for a line of 1025. */
  lemma LongLineFails()
    ensures var s, pat := seq(1025, _ => 97), [97]; Matching(Pieces(s), pat) != Matching(Lines(s), pat)
  {
    LongLineIff(1025);
  }

  // --------------------------------------------------------------- from matches to printed bytes

  /** A row can be read back: no newline, and nothing behind a NUL is lost. */
  ghost predicate Printable(line: seq<byte>) {
    NEWLINE !in line && NUL !in line
  }

  ghost predicate AllPrintable(lines: seq<seq<byte>>) {
    forall line <- lines :: Printable(line)
  }

  lemma {:induction false} LinesArePrintable(s: seq<byte>)
    requires NUL !in s
    ensures AllPrintable(Lines(s))
    decreases |s|
  {
    if s != [] {
      assert forall k :: 0 <= k < |AfterLine(s)| ==> AfterLine(s)[k] in s;
      LinesArePrintable(AfterLine(s));
      assert Printable(s[..LineEnd(s)]);
    }
  }

  lemma {:induction false} PiecesArePrintable(s: seq<byte>)
    requires NUL !in s
    ensures AllPrintable(Pieces(s))
    decreases |s|
  {
    if s != [] {
      var n := if LineEnd(s) < BUFSIZE then LineEnd(s) else BUFSIZE;
      var rest := if LineEnd(s) < BUFSIZE then AfterLine(s) else s[BUFSIZE..];
      assert forall k :: 0 <= k < n ==> s[k] == s[..LineEnd(s)][k];
      assert Printable(s[..n]);
      PiecesArePrintable(rest);
    }
  }

  lemma {:induction false} MatchingIsPart(lines: seq<seq<byte>>, pat: seq<byte>)
    requires AllPrintable(lines)
    ensures AllPrintable(Matching(lines, pat))
  {
    if lines != [] {
      assert Printable(lines[0]);
      MatchingIsPart(lines[1..], pat);
    }
  }

  /** The first row ends at the first newline. */
  lemma FirstRow(fname: seq<byte>, lines: seq<seq<byte>>)
    requires NEWLINE !in fname && lines != [] && Printable(lines[0])
    ensures LineEnd(Rows(fname, lines)) == |fname| + 1 + |lines[0]|
    ensures Rows(fname, lines)[..|fname| + 1 + |lines[0]|] == fname + [58] + lines[0]
    ensures Rows(fname, lines)[|fname| + 2 + |lines[0]|..] == Rows(fname, lines[1..])
  {
    var line, e := lines[0], |fname| + 1 + |lines[0]|;
    TextUnique(line, |line|);
    assert line[..|line|] == line;
    hide Text;
    var all := Rows(fname, lines);
    var start := fname + [58] + line;
    assert all == start + [NEWLINE] + Rows(fname, lines[1..]);
    assert all[..e] == start && all[e] == NEWLINE && all[e + 1..] == Rows(fname, lines[1..]);
    assert forall k :: 0 <= k < e ==> all[k] == start[k] != NEWLINE;
    LineEndIs(all, e);
  }

  /** The printed bytes determine the lines they show. */
  lemma {:induction false} RowsDetermineLines(fname: seq<byte>, a: seq<seq<byte>>, b: seq<seq<byte>>)
    requires NEWLINE !in fname && AllPrintable(a) && AllPrintable(b) && Rows(fname, a) == Rows(fname, b)
    ensures a == b
  {
    if a == [] || b == [] {
      assert |Rows(fname, a)| == |Rows(fname, b)|;
    } else {
      assert Printable(a[0]) && Printable(b[0]);
      FirstRow(fname, a);
      FirstRow(fname, b);
      var n := |fname| + 1;
      assert a[0] == (fname + [58] + a[0])[n..] && b[0] == (fname + [58] + b[0])[n..];
      assert a == [a[0]] + a[1..] && b == [b[0]] + b[1..];
      RowsDetermineLines(fname, a[1..], b[1..]);
    }
  }

  /** What is printed is the matching lines exactly when no line longer than the buffer matches. */
  lemma {:induction false} PrintedIffLongLinesMiss(fname: seq<byte>, s: seq<byte>, pat: seq<byte>)
    requires NEWLINE !in fname && NUL !in s
    ensures Report(fname, Pieces(s), pat) == Rows(fname, Matching(Lines(s), pat)) <==> LongLinesMiss(s, pat)
  {
    PiecesMatchIffLongLinesMiss(s, pat);
    hide LongLinesMiss;
    if Report(fname, Pieces(s), pat) == Rows(fname, Matching(Lines(s), pat)) {
      LinesArePrintable(s);
      PiecesArePrintable(s);
      MatchingIsPart(Lines(s), pat);
      MatchingIsPart(Pieces(s), pat);
      RowsDetermineLines(fname, Matching(Pieces(s), pat), Matching(Lines(s), pat));
    }
  }
}
