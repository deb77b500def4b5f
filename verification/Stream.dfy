/** What the line search makes of any file, read through one 1024-byte buffer (ece391grep.c).  A
    partial line is carried to the front of the buffer by a string copy, which stops at a NUL. */
module Stream {
  import opened Machine
  import opened CString
  import opened TextLines

  /** Where the last, unfinished line of a window starts. */
  function LastStart(w: seq<byte>): (q: nat)
    ensures q <= |w| && (q > 0 ==> w[q - 1] == NEWLINE)
    ensures forall k :: q <= k < |w| ==> w[k] != NEWLINE
  {
    if w == [] || w[|w| - 1] == NEWLINE then |w| else LastStart(w[..|w| - 1])
  }

  /** A byte of the window after the search: newlines have become terminators. */
  function Terminated(b: byte): byte {
    if b == NEWLINE then NUL else b
  }

  /** What the string copy leaves at the front of the buffer for the partial line from `q` on: the
      line up to its first NUL, and from there on whatever stood at the front before. */
  function Front(w: seq<byte>, q: nat): (f: seq<byte>)
    requires q <= |w|
    ensures |f| == |w| - q
  {
    var n := |Text(w[q..])|;
    seq(|w| - q, k requires 0 <= k < |w| - q => if k <= n then w[q + k] else Terminated(w[k]))
  }

  /** The partial line is kept for the next read.  `edge` says that the byte behind the window
      happens to be a newline: then the partial line passes for a complete one. */
  predicate Carries(w: seq<byte>, edge: bool) {
    0 < LastStart(w) < |w| && !edge
  }

  /** The part of the window that is searched now. */
  function Searched(w: seq<byte>, edge: bool): seq<byte> {
    if Carries(w, edge) then w[..LastStart(w)] else w
  }

  /** What is kept at the front of the buffer. */
  function Kept(w: seq<byte>, edge: bool): (f: seq<byte>)
    ensures |f| < Max(1, |w|)
  {
    if Carries(w, edge) then Front(w, LastStart(w)) else []
  }

  /** How many bytes the next read delivers behind `front`. */
  function Room(front: seq<byte>, rest: seq<byte>): (n: nat)
    requires |front| <= BUFSIZE
    ensures n <= |rest| && |front| + n <= BUFSIZE
  {
    Min(BUFSIZE - |front|, |rest|)
  }

  /** The byte behind the next window is still a newline: nothing was written there, and the next
      window reaches as far. */
  predicate EdgeAfter(w: seq<byte>, rest: seq<byte>, edge: bool) {
    edge && LastStart(w) == |w| && |rest| >= BUFSIZE
  }

  /** The lines that are searched, in order: `front` is in the buffer, `rest` is yet to be read. */
  function SearchedLines(front: seq<byte>, rest: seq<byte>, edge: bool): seq<seq<byte>>
    requires |front| < BUFSIZE
    decreases |rest|
  {
    if rest == [] then Lines(front) else
    var n := Room(front, rest);
    var w := front + rest[..n];
    Lines(Searched(w, edge)) + SearchedLines(Kept(w, edge), rest[n..], EdgeAfter(w, rest[n..], edge))
  }

  // ------------------------------------------------------------------------ lines and pieces

  lemma LastStartIs(w: seq<byte>, q: nat)
    requires q <= |w| && (q > 0 ==> w[q - 1] == NEWLINE) && forall k :: q <= k < |w| ==> w[k] != NEWLINE
    ensures LastStart(w) == q
  {
  }

  /** The bytes end with a complete line. */
  predicate Complete(s: seq<byte>) {
    s == [] || s[|s| - 1] == NEWLINE
  }

  lemma EndOfFirst(s: seq<byte>)
    ensures LineEnd(s) <= |s| && forall k :: 0 <= k < LineEnd(s) ==> s[k] != NEWLINE
    ensures LineEnd(s) < |s| ==> s[LineEnd(s)] == NEWLINE && AfterLine(s) == s[LineEnd(s) + 1..]
  {
    assert forall k :: 0 <= k < LineEnd(s) ==> s[k] == s[..LineEnd(s)][k];
  }

  lemma FirstLine(s: seq<byte>, t: seq<byte>)
    requires s != [] && Complete(s)
    ensures LineEnd(s + t) == LineEnd(s) < |s|
    ensures (s + t)[..LineEnd(s)] == s[..LineEnd(s)]
    ensures AfterLine(s + t) == AfterLine(s) + t && Complete(AfterLine(s))
  {
    hide LineEnd, AfterLine;
    var e := LineEnd(s);
    EndOfFirst(s);
    assert s[|s| - 1] == NEWLINE;
    LineEndIs(s + t, e);
    EndOfFirst(s + t);
    DropInFirst(s, t, e + 1);
  }

  lemma DropInFirst(s: seq<byte>, t: seq<byte>, n: nat)
    requires n <= |s|
    ensures (s + t)[n..] == s[n..] + t
  {
  }

  lemma FirstOfLines(s: seq<byte>)
    requires s != []
    ensures Lines(s) == [s[..LineEnd(s)]] + Lines(AfterLine(s)) && |AfterLine(s)| < |s|
    ensures LineEnd(s) < BUFSIZE ==> Pieces(s) == [s[..LineEnd(s)]] + Pieces(AfterLine(s))
  {
  }

  lemma NoLines()
    ensures Lines([]) == [] && Pieces([]) == []
  {
  }

  lemma {:induction false} LinesConcat(s: seq<byte>, t: seq<byte>)
    requires Complete(s)
    ensures Lines(s + t) == Lines(s) + Lines(t)
    decreases |s|
  {
    hide Lines, LineEnd, AfterLine;
    NoLines();
    if s == [] {
      assert s + t == t;
    } else {
      FirstLine(s, t);
      FirstOfLines(s);
      FirstOfLines(s + t);
      LinesConcat(AfterLine(s), t);
    }
  }

  /** Lines that fit the buffer are pieces. */
  lemma {:induction false} PiecesOfLines(s: seq<byte>, t: seq<byte>)
    requires Complete(s) && |s| <= BUFSIZE
    ensures Pieces(s + t) == Lines(s) + Pieces(t)
    decreases |s|
  {
    hide Lines, Pieces, LineEnd, AfterLine;
    NoLines();
    if s == [] {
      assert s + t == t;
    } else {
      FirstLine(s, t);
      FirstOfLines(s);
      FirstOfLines(s + t);
      PiecesOfLines(AfterLine(s), t);
    }
  }

  lemma {:induction false} ShortPieces(s: seq<byte>)
    requires |s| < BUFSIZE
    ensures Pieces(s) == Lines(s)
    decreases |s|
  {
    if s != [] {
      ShortPieces(AfterLine(s));
    }
  }

  /** A full window without a newline is one piece. */
  lemma LongPiece(w: seq<byte>, t: seq<byte>)
    requires |w| == BUFSIZE && LastStart(w) == 0
    ensures Lines(w) == [w] && Pieces(w + t) == [w] + Pieces(t)
  {
    LineEndIs(w, BUFSIZE);
    assert w[..BUFSIZE] == w && AfterLine(w) == [];
    assert Lines([]) == [];
    LineEndAtLeast(w + t, BUFSIZE);
    assert (w + t)[..BUFSIZE] == w && (w + t)[BUFSIZE..] == t;
  }

  // ----------------------------------------------------------- when nothing gets disturbed

  /** Every carried partial line arrives as it was, and no stale newline cuts a line in two. */
  predicate Undisturbed(front: seq<byte>, rest: seq<byte>, edge: bool)
    requires |front| < BUFSIZE
    decreases |rest|
  {
    rest == [] ||
    var n := Room(front, rest);
    var w := front + rest[..n];
    var q := LastStart(w);
    && (Carries(w, edge) ==> Front(w, q) == w[q..])
    && (0 < q < |w| && edge ==> rest[n..] == [])
    && Undisturbed(Kept(w, edge), rest[n..], EdgeAfter(w, rest[n..], edge))
  }

  /** Byte `k` of the partial line equals the byte that the search left at the front. */
  ghost predicate Repeats(w: seq<byte>, q: nat, k: nat)
    requires q + k < |w|
  {
    Terminated(w[k]) == w[q + k]
  }

  /** Which carried lines arrive as they were: those without a NUL, and those whose bytes behind
      the first NUL happen to equal what stood at the front of the buffer. */
  lemma FrontIsPartialIff(w: seq<byte>, q: nat)
    requires q <= |w|
    ensures Front(w, q) == w[q..] <==> forall k :: |Text(w[q..])| < k < |w| - q ==> Repeats(w, q, k)
  {
    hide Text;
    var n, front, p := |Text(w[q..])|, Front(w, q), w[q..];
    assert forall k :: 0 <= k < |p| ==> front[k] == if k <= n then p[k] else Terminated(w[k]);
    if front == p {
      forall k | n < k < |p|
        ensures Repeats(w, q, k)
      {
        assert front[k] == p[k];
      }
    } else {
      var k :| 0 <= k < |p| && front[k] != p[k];
      assert k > n && !Repeats(w, q, k);
    }
  }

  lemma FrontOfText(w: seq<byte>, q: nat)
    requires q <= |w| && NUL !in w[q..]
    ensures Front(w, q) == w[q..]
  {
    var p := w[q..];
    assert p[..|p|] == p;
    TextUnique(p, |p|);
  }

  /** Neither the partial line nor the front of the buffer has a newline. */
  lemma KeptHasNoNewline(w: seq<byte>, edge: bool)
    ensures NEWLINE !in Kept(w, edge)
  {
  }

  lemma CancelHead<T>(head: seq<T>, a: seq<T>, b: seq<T>)
    ensures head + a == head + b <==> a == b
  {
    assert (head + a)[|head|..] == a && (head + b)[|head|..] == b;
  }

  /** A window split at its last line start. */
  lemma WindowPieces(w: seq<byte>, t: seq<byte>)
    requires |w| <= BUFSIZE
    ensures var q := LastStart(w);
            && Pieces(w + t) == Lines(w[..q]) + Pieces(w[q..] + t)
            && Lines(w) == Lines(w[..q]) + Lines(w[q..])
  {
    var q := LastStart(w);
    var a, b := w[..q], w[q..];
    assert w == a + b && w + t == a + (b + t) && Complete(a);
    PiecesOfLines(a, b + t);
    LinesConcat(a, b);
  }

  lemma OneLine(p: seq<byte>)
    requires NEWLINE !in p
    ensures Lines(p) == if p == [] then [] else [p]
  {
    LineEndIs(p, |p|);
    assert p[..|p|] == p && AfterLine(p) == [];
    NoLines();
  }

  /** The first line end behind a text without newline. */
  lemma EndBehind(p: seq<byte>, t: seq<byte>)
    requires NEWLINE !in p
    ensures LineEnd(p + t) == |p| + LineEnd(t) && AfterLine(p + t) == AfterLine(t)
  {
    var s, d := p + t, LineEnd(t);
    assert d < |t| ==> t[d] == NEWLINE;
    assert NEWLINE !in t[..d];
    forall k | 0 <= k < |p| + d
      ensures s[k] != NEWLINE
    {
      assert s[k] == if k < |p| then p[k] else t[..d][k - |p|];
    }
    LineEndIs(s, |p| + d);
    assert d < |t| ==> s[|p| + d + 1..] == t[d + 1..];
  }

  lemma PiecesStep(s: seq<byte>)
    requires s != []
    ensures LineEnd(s) < BUFSIZE ==> Pieces(s) == [s[..LineEnd(s)]] + Pieces(AfterLine(s))
    ensures LineEnd(s) >= BUFSIZE ==> Pieces(s) == [s[..BUFSIZE]] + Pieces(s[BUFSIZE..])
  {
  }

  /** What the first piece of `p + t` leaves when `p` is short and has no newline. */
  function Behind(p: nat, t: seq<byte>): seq<byte>
    requires p < BUFSIZE
  {
    if p + LineEnd(t) < BUFSIZE then AfterLine(t) else t[BUFSIZE - p..]
  }

  lemma BehindIs(p: nat, t: seq<byte>)
    requires p < BUFSIZE
    ensures LineEnd(t) <= |t|
    ensures Behind(p, t) == if p + LineEnd(t) < BUFSIZE then AfterLine(t) else t[BUFSIZE - p..]
  {
  }

  lemma FirstPiece(p: seq<byte>, t: seq<byte>)
    requires |p| < BUFSIZE && NEWLINE !in p && p + t != []
    ensures var n := Min(BUFSIZE, |p| + LineEnd(t));
            n <= |p + t| && Pieces(p + t) == [(p + t)[..n]] + Pieces(Behind(|p|, t))
  {
    hide Pieces, AfterLine, Behind;
    EndBehind(p, t);
    PiecesStep(p + t);
    hide LineEnd;
    NextPiece(p, t);
  }

  /** Where the second piece starts. */
  lemma NextPiece(p: seq<byte>, t: seq<byte>)
    requires |p| < BUFSIZE && NEWLINE !in p
    ensures Behind(|p|, t) == if LineEnd(p + t) < BUFSIZE then AfterLine(p + t) else (p + t)[BUFSIZE..]
  {
    hide LineEnd, AfterLine, Behind;
    BehindIs(|p|, t);
    EndBehind(p, t);
    if LineEnd(p + t) >= BUFSIZE {
      DropFirst(p, t, BUFSIZE);
    }
  }

  lemma DropFirst(p: seq<byte>, t: seq<byte>, n: nat)
    requires |p| <= n <= |p| + |t|
    ensures (p + t)[n..] == t[n - |p|..]
  {
  }

  /** The number of pieces does not depend on what the characters are. */
  lemma SameCount(a: seq<byte>, b: seq<byte>, t: seq<byte>)
    requires |a| == |b| < BUFSIZE && NEWLINE !in a && NEWLINE !in b
    ensures |Pieces(a + t)| == |Pieces(b + t)|
  {
    if a + t == [] {
      assert b + t == a + t;
    } else {
      FirstPiece(a, t);
      FirstPiece(b, t);
      hide Pieces, Behind, LineEnd;
    }
  }

  // ----------------------------------------------------------------------- the exact condition

  lemma StreamUnfolds(front: seq<byte>, rest: seq<byte>, edge: bool)
    requires |front| < BUFSIZE && rest != []
    ensures var n := Room(front, rest);
            var w, t := front + rest[..n], rest[n..];
            && n > 0 && front + rest == w + t && |w| <= BUFSIZE && (|w| < BUFSIZE ==> t == [])
            && SearchedLines(front, rest, edge)
                 == Lines(Searched(w, edge)) + SearchedLines(Kept(w, edge), t, EdgeAfter(w, t, edge))
  {
    hide Lines, LastStart;
    var n := Room(front, rest);
    Associative(front, rest[..n], rest[n..]);
    assert rest[..n] + rest[n..] == rest;
  }

  /** What is searched from the last line start of a window on. */
  function SearchedTail(w: seq<byte>, t: seq<byte>, edge: bool): seq<seq<byte>>
    requires |w| <= BUFSIZE
  {
    (if Carries(w, edge) then [] else Lines(w[LastStart(w)..])) + SearchedLines(Kept(w, edge), t, EdgeAfter(w, t, edge))
  }

  /** The pieces from there on. */
  function PiecesTail(w: seq<byte>, t: seq<byte>): seq<seq<byte>> {
    Pieces(w[LastStart(w)..] + t)
  }

  /** The step of `SearchedLines`, split like the window. */
  lemma StreamStep(front: seq<byte>, rest: seq<byte>, edge: bool)
    requires |front| < BUFSIZE && rest != []
    ensures var n := Room(front, rest);
            var w, t := front + rest[..n], rest[n..];
            var head := Lines(w[..LastStart(w)]);
            && |w| <= BUFSIZE
            && Pieces(front + rest) == head + PiecesTail(w, t)
            && SearchedLines(front, rest, edge) == head + SearchedTail(w, t, edge)
  {
    hide SearchedLines, Lines, Pieces, LastStart, Kept, EdgeAfter;
    StreamUnfolds(front, rest, edge);
    var n := Room(front, rest);
    var w, t := front + rest[..n], rest[n..];
    var q := LastStart(w);
    var s := SearchedLines(Kept(w, edge), t, EdgeAfter(w, t, edge));
    WindowPieces(w, t);
    Associative(Lines(w[..q]), Lines(w[q..]), s);
    assert [] + s == s;
  }

  /** A window's first newline lies behind what was carried. */
  lemma SearchedStartsWith(front: seq<byte>, more: seq<byte>, edge: bool)
    requires front != [] && NEWLINE !in front
    ensures front <= Searched(front + more, edge)
  {
    var w := front + more;
    var q := LastStart(w);
    assert forall k :: 0 <= k < |front| ==> w[k] == front[k] != NEWLINE;
    assert q > |front| ==> w[..q][..|front|] == front;
  }

  lemma FirstOfSearched(front: seq<byte>, x: seq<byte>)
    requires front != [] && NEWLINE !in front && front <= x
    ensures Lines(x) != [] && front <= Lines(x)[0]
  {
    hide Lines, LineEnd, AfterLine;
    var more := x[|front|..];
    assert x == front + more;
    EndBehind(front, more);
    FirstOfLines(x);
    EndsInside(x);
    PrefixOfTake(front, x, LineEnd(x));
  }

  lemma EndsInside(x: seq<byte>)
    ensures LineEnd(x) <= |x|
  {
  }

  lemma PrefixOfTake(front: seq<byte>, x: seq<byte>, e: nat)
    requires front <= x && |front| <= e <= |x|
    ensures front <= x[..e]
  {
  }

  /** The first line searched starts with what is at the front of the buffer. */
  lemma StartsWithFront(front: seq<byte>, rest: seq<byte>, edge: bool)
    requires 0 < |front| < BUFSIZE && NEWLINE !in front
    ensures SearchedLines(front, rest, edge) != [] && front <= SearchedLines(front, rest, edge)[0]
  {
    if rest == [] {
      OneLine(front);
    } else {
      hide SearchedLines, Lines, Searched, Kept, EdgeAfter;
      StreamUnfolds(front, rest, edge);
      var more := rest[..Room(front, rest)];
      SearchedStartsWith(front, more, edge);
      FirstOfSearched(front, Searched(front + more, edge));
    }
  }

  lemma KeptBounds(w: seq<byte>, edge: bool)
    requires |w| <= BUFSIZE
    ensures |Kept(w, edge)| < BUFSIZE && NEWLINE !in Kept(w, edge) && NEWLINE !in w[LastStart(w)..]
    ensures Carries(w, edge) ==> Kept(w, edge) == Front(w, LastStart(w)) && |Kept(w, edge)| == |w[LastStart(w)..]| > 0
    ensures !Carries(w, edge) ==> Kept(w, edge) == [] && (LastStart(w) == 0 || LastStart(w) == |w| || edge)
    ensures LastStart(w) < |w| ==> w[LastStart(w)..] != []
  {
    KeptHasNoNewline(w, edge);
    assert forall k :: LastStart(w) <= k < |w| ==> w[k] == w[LastStart(w)..][k - LastStart(w)];
  }

  /** A window whose unfinished line is searched as it stands, with the piece it is part of. */
  lemma WholePiece(w: seq<byte>, t: seq<byte>)
    requires |w| <= BUFSIZE && (|w| < BUFSIZE ==> t == [])
    requires LastStart(w) == 0 || LastStart(w) == |w| || t == []
    ensures var p := w[LastStart(w)..]; Pieces(p + t) == Lines(p) + Pieces(t)
  {
    var p := w[LastStart(w)..];
    KeptBounds(w, false);
    OneLine(p);
    NoLines();
    if LastStart(w) == |w| {
      assert p + t == t;
    } else if |p| == BUFSIZE {
      assert p == w;
      LongPiece(w, t);
    } else {
      assert t == [] && p + t == p;
      ShortPieces(p);
    }
  }

  /** Without a stale newline the search sees as many lines as the file has pieces. */
  lemma {:induction false} StreamCount(front: seq<byte>, rest: seq<byte>)
    requires |front| < BUFSIZE && NEWLINE !in front
    ensures |SearchedLines(front, rest, false)| == |Pieces(front + rest)|
    decreases |rest|
  {
    hide SearchedLines, Lines, Pieces, LastStart, Kept, EdgeAfter, Carries, Front;
    if rest == [] {
      StreamEnds(front, false);
      assert front + rest == front;
    } else {
      StreamUnfolds(front, rest, false);
      StreamStep(front, rest, false);
      var n := Room(front, rest);
      var w, t := front + rest[..n], rest[n..];
      var p, kept := w[LastStart(w)..], Kept(w, false);
      KeptBounds(w, false);
      NoEdgeAfter(w, t);
      StreamCount(kept, t);
      if Carries(w, false) {
        SameCount(kept, p, t);
      } else {
        WholePiece(w, t);
        assert kept + t == t;
      }
    }
  }

  lemma NoEdgeAfter(w: seq<byte>, t: seq<byte>)
    ensures !EdgeAfter(w, t, false)
    ensures forall edge :: LastStart(w) < |w| ==> !EdgeAfter(w, t, edge)
  {
  }

  lemma StreamEnds(front: seq<byte>, edge: bool)
    requires |front| < BUFSIZE && NEWLINE !in front
    ensures SearchedLines(front, [], edge) == Pieces(front)
  {
    ShortPieces(front);
  }

  /** A line cut off before its end shows in what is searched. */
  lemma CutDiffers(p: seq<byte>, t: seq<byte>)
    requires 0 < |p| < BUFSIZE && NEWLINE !in p && t != []
    ensures [p] + SearchedLines([], t, false) != Pieces(p + t)
  {
    hide SearchedLines, Pieces, LineEnd, AfterLine, Behind;
    BehindIs(|p|, t);
    FirstPiece(p, t);
    var n := Min(BUFSIZE, |p| + LineEnd(t));
    if n > |p| {
      assert |Pieces(p + t)[0]| == n;
    } else {
      StreamCount([], t);
      PiecesStep(t);
      assert [] + t == t;
    }
  }

  lemma FirstsDiffer(a: seq<seq<byte>>, b: seq<seq<byte>>, x: seq<byte>, y: seq<byte>)
    requires a != [] && b != [] && x <= a[0] && y <= b[0] && |x| == |y| && x != y
    ensures a != b
  {
  }

  /** So does a carried line that arrived changed. */
  lemma CarryDiffers(kept: seq<byte>, p: seq<byte>, t: seq<byte>, edge: bool)
    requires 0 < |kept| == |p| < BUFSIZE && NEWLINE !in kept && NEWLINE !in p && kept != p
    ensures SearchedLines(kept, t, edge) != Pieces(p + t)
  {
    hide SearchedLines, Pieces, LineEnd;
    StartsWithFront(kept, t, edge);
    FirstPiece(p, t);
    var n := Min(BUFSIZE, |p| + LineEnd(t));
    assert p <= (p + t)[..n];
    FirstsDiffer(SearchedLines(kept, t, edge), Pieces(p + t), kept, p);
  }

  /** What `Undisturbed` asks of one window. */
  predicate WindowIntact(w: seq<byte>, t: seq<byte>, edge: bool) {
    && (Carries(w, edge) ==> Front(w, LastStart(w)) == w[LastStart(w)..])
    && (0 < LastStart(w) < |w| && edge ==> t == [])
  }

  lemma UndisturbedUnfolds(front: seq<byte>, rest: seq<byte>, edge: bool)
    requires |front| < BUFSIZE && rest != []
    ensures var n := Room(front, rest);
            var w, t := front + rest[..n], rest[n..];
            |Kept(w, edge)| < BUFSIZE
            && (Undisturbed(front, rest, edge) <==>
                WindowIntact(w, t, edge) && Undisturbed(Kept(w, edge), t, EdgeAfter(w, t, edge)))
  {
  }

  lemma NothingDisturbs(front: seq<byte>, edge: bool)
    requires |front| < BUFSIZE && NEWLINE !in front
    ensures SearchedLines(front, [], edge) == Pieces(front) && front + [] == front && Undisturbed(front, [], edge)
  {
    StreamEnds(front, edge);
  }

  /** The search sees exactly the pieces of the file if and only if nothing gets disturbed. */
  lemma {:induction false} StreamIsPiecesIff(front: seq<byte>, rest: seq<byte>, edge: bool)
    requires |front| < BUFSIZE && NEWLINE !in front
    ensures SearchedLines(front, rest, edge) == Pieces(front + rest) <==> Undisturbed(front, rest, edge)
    decreases |rest|
  {
    hide SearchedLines, Lines, Pieces, LastStart, Kept, EdgeAfter, Carries, Front, Undisturbed, WindowIntact;
    hide SearchedTail, PiecesTail;
    if rest == [] {
      NothingDisturbs(front, edge);
    } else {
      StreamUnfolds(front, rest, edge);
      StreamStep(front, rest, edge);
      UndisturbedUnfolds(front, rest, edge);
      var n := Room(front, rest);
      var w, t := front + rest[..n], rest[n..];
      KeptHasNoNewline(w, edge);
      StreamIsPiecesIff(Kept(w, edge), t, EdgeAfter(w, t, edge));
      WindowStep(w, t, edge);
      CancelHead(Lines(w[..LastStart(w)]), SearchedTail(w, t, edge), PiecesTail(w, t));
    }
  }

  /** One window, given the claim for what follows it. */
  lemma WindowStep(w: seq<byte>, t: seq<byte>, edge: bool)
    requires |w| <= BUFSIZE && (|w| < BUFSIZE ==> t == []) && |Kept(w, edge)| < BUFSIZE
    requires var kept, e := Kept(w, edge), EdgeAfter(w, t, edge);
             SearchedLines(kept, t, e) == Pieces(kept + t) <==> Undisturbed(kept, t, e)
    ensures SearchedTail(w, t, edge) == PiecesTail(w, t) <==>
            WindowIntact(w, t, edge) && Undisturbed(Kept(w, edge), t, EdgeAfter(w, t, edge))
  {
    var q := LastStart(w);
    var kept, e, p := Kept(w, edge), EdgeAfter(w, t, edge), w[q..];
    var s := SearchedLines(kept, t, e);
    KeptBounds(w, edge);
    NoEdgeAfter(w, t);
    assert WindowIntact(w, t, edge) <==>
           (Carries(w, edge) ==> kept == p) && (0 < q < |w| && edge ==> t == []);
    assert Carries(w, edge) ==> !edge;
    assert SearchedTail(w, t, edge) == (if Carries(w, edge) then [] else Lines(p)) + s;
    hide SearchedLines, Lines, Pieces, LastStart, Kept, EdgeAfter, Carries, Front, Undisturbed;
    hide WindowIntact, SearchedTail;
    if Carries(w, edge) {
      assert [] + s == s;
      if kept != p {
        CarryDiffers(kept, p, t, e);
      }
    } else {
      assert kept + t == t;
      if q == 0 || q == |w| || t == [] {
        WholePiece(w, t);
        CancelHead(Lines(p), s, Pieces(t));
      } else {
        OneLine(p);
        CutDiffers(p, t);
      }
    }
  }

  /** A file without NUL bytes is undisturbed, unless a stale newline lies behind a full window. */
  lemma {:induction false} NoNulIsUndisturbed(front: seq<byte>, rest: seq<byte>, edge: bool)
    requires |front| < BUFSIZE && NUL !in front && NUL !in rest && (edge ==> |front| + |rest| <= BUFSIZE)
    ensures Undisturbed(front, rest, edge)
    decreases |rest|
  {
    if rest != [] {
      UndisturbedUnfolds(front, rest, edge);
      var n := Room(front, rest);
      var w, t := front + rest[..n], rest[n..];
      FrontOfText(w, LastStart(w));
      hide LastStart, Front, Undisturbed;
      assert NUL !in Kept(w, edge);
      assert edge ==> t == [];
      NoNulIsUndisturbed(Kept(w, edge), t, EdgeAfter(w, t, edge));
    }
  }

  /** A file that is disturbed: the NUL of its last, unfinished line stops the copy, and the "b"
      behind it is replaced by the terminator of the line before. */
  lemma StaleBytesExample()
    ensures var file := [97, NEWLINE, NUL, 98];
            && !Undisturbed([], file, false)
            && SearchedLines([], file, false) == [[97], [NUL, NUL]] && Pieces(file) == [[97], [NUL, 98]]
  {
    var file: seq<byte> := [97, NEWLINE, NUL, 98];
    assert [] + file[..4] == file && file[4..] == [];
    LastStartIs(file, 2);
    var p: seq<byte> := [NUL, 98];
    assert file[2..] == p && Text(p) == [];
    assert Front(file, 2) == [NUL, NUL];
    LineEndIs(file, 1);
    assert file[..1] == [97] && AfterLine(file) == p && file[..2] == [97, NEWLINE];
    LineEndIs([97, NEWLINE], 1);
    assert [97, NEWLINE][..1] == [97] && AfterLine([97, NEWLINE]) == [];
    OneLine(p);
    OneLine([NUL, NUL]);
    ShortPieces(file);
    NoLines();
    FirstOfLines(file);
    FirstOfLines([97, NEWLINE]);
  }

  /** A stale newline behind the first full window cuts every line that runs across its end. */
  lemma EdgeCuts(file: seq<byte>)
    requires |file| > BUFSIZE && 0 < LastStart(file[..BUFSIZE]) < BUFSIZE
    ensures !Undisturbed([], file, true)
  {
    assert [] + file[..BUFSIZE] == file[..BUFSIZE];
  }
}
