/** The text screen as a window on the end of an ever-growing log of 80-column rows. */
module Log {
  import opened Machine
  import opened Screen

  /** Complete rows, and the row being written, which is always short of 80 columns. */
  datatype Log = Log(rows: seq<seq<byte>>, last: seq<byte>)

  const EMPTY := Log([], [])

  ghost predicate WellFormed(log: Log) {
    |log.last| < COLS
  }

  ghost function Append(log: Log, c: byte): Log {
    if IsNewline(c) then Log(log.rows + [log.last], [])
    else if |log.last| + 1 == COLS then Log(log.rows + [log.last + [c]], [])
    else Log(log.rows, log.last + [c])
  }

  ghost function AppendAll(log: Log, text: seq<byte>): Log
    decreases |text|
  {
    if text == [] then log else AppendAll(Append(log, text[0]), text[1..])
  }

  ghost function AllRows(log: Log): seq<seq<byte>> {
    log.rows + [log.last]
  }

  /** Index of the log row shown at the top of the screen. */
  ghost function Top(log: Log): nat {
    Max(0, |AllRows(log)| - ROWS)
  }

  /** The cell at a screen position: the log character there, or a blank. */
  ghost function CellAt(log: Log, r: nat, c: nat): Cell {
    var rows := AllRows(log);
    if Top(log) + r < |rows| && c < |rows[Top(log) + r]| then Cell(rows[Top(log) + r][c], ATTRIB) else BLANK
  }

  /** The screen shows the last 25 rows, with the cursor at the end of the log, where column 80
      of a row counts as column 0 of the next. */
  ghost predicate Shows(s: Screen, log: Log) {
    && Ok(s) && WellFormed(log)
    && (forall r: nat, c: nat :: r < ROWS && c < COLS ==> s.cells[COLS * r + c] == CellAt(log, r, c))
    && var y := |log.rows| - Top(log);
       (s.x == |log.last| && s.y == y) || (s.x == COLS && log.last == [] && s.y + 1 == y)
  }

  lemma PutShows(s: Screen, log: Log, c: byte)
    requires Shows(s, log)
    ensures Shows(Put(s, c), Append(log, c))
  {
    var w := Wrap(s);
    assert Shows(w, log) && w.x == |log.last|;
    var s', log' := Put(s, c), Append(log, c);
    assert Top(log') == Top(log) + (if Scrolls(s, c) then 1 else 0);
    forall r: nat, k: nat | r < ROWS && k < COLS
      ensures s'.cells[COLS * r + k] == CellAt(log', r, k)
    {
      var up := if Scrolls(s, c) then 1 else 0;
      if r + up < ROWS {
        assert s'.cells[COLS * r + k] == Typed(s, c)[COLS * (r + up) + k];
        TypedShows(w, log, c, r + up, k);
      }
    }
  }

  /** Before any scroll, the written character is already in place. */
  lemma TypedShows(w: Screen, log: Log, c: byte, r: nat, k: nat)
    requires Shows(w, log) && w.x == |log.last| && r < ROWS && k < COLS
    ensures var log' := Append(log, c); var rows := AllRows(log');
            Typed(w, c)[COLS * r + k] ==
            if Top(log) + r < |rows| && k < |rows[Top(log) + r]| then Cell(rows[Top(log) + r][k], ATTRIB) else BLANK
  {
    assert w.cells[COLS * r + k] == CellAt(log, r, k);
    assert COLS * r + k == COLS * w.y + w.x <==> r == w.y && k == w.x;
  }

  lemma {:induction false} PutAllShows(s: Screen, log: Log, text: seq<byte>)
    requires Shows(s, log)
    ensures Shows(PutAll(s, text), AppendAll(log, text))
    decreases |text|
  {
    if text != [] {
      PutShows(s, log, text[0]);
      PutAllShows(Put(s, text[0]), Append(log, text[0]), text[1..]);
    }
  }

  /** After clear and any output, the screen is the window on the log of that output. */
  lemma ScreenIsWindowOnLog(s: Screen, text: seq<byte>)
    requires Ok(s)
    ensures Shows(PutAll(Cleared(s), text), AppendAll(EMPTY, text))
  {
    PutAllShows(Cleared(s), EMPTY, text);
  }

  // ------------------------------------------------------------------------ backspace and enter

  /** What backspace has to meet on a screen that shows a character `c` behind a log: the character
      did not move the window, and the column where backspace lands is the one the log ends in. */
  ghost predicate Erases(s: Screen, log: Log, c: byte) {
    && Top(Append(log, c)) == Top(log)
    && if IsNewline(c) then |log.last| == (if s.x == 0 then COLS - 2 else COLS - 1) else s.x > 0
  }

  /** The cell that backspace blanks, and those it leaves. */
  lemma BackCells(s: Screen, log: Log, c: byte)
    requires WellFormed(log) && Shows(s, Append(log, c)) && Erases(s, log, c)
    ensures Back(s).x == |log.last| && Back(s).y == |log.rows| - Top(log)
    ensures forall r: nat, k: nat :: r < ROWS && k < COLS ==> Back(s).cells[COLS * r + k] == CellAt(log, r, k)
  {
    var b, log' := Back(s), Append(log, c);
    forall r: nat, k: nat | r < ROWS && k < COLS
      ensures b.cells[COLS * r + k] == CellAt(log, r, k)
    {
      assert s.cells[COLS * r + k] == CellAt(log', r, k);
      assert COLS * r + k == COLS * b.y + b.x <==> r == b.y && k == b.x;
    }
  }

  /** On every screen that shows a character behind a log, backspace leads back to the log if and
      only if `Erases` holds: a full row whose wrap has already happened, a newline behind any row
      but one of 78 characters, and a character that scrolled are not taken back. */
  lemma BackRestoresIff(s: Screen, log: Log, c: byte)
    requires WellFormed(log) && Shows(s, Append(log, c))
    ensures Shows(Back(s), log) <==> Erases(s, log, c)
  {
    if Erases(s, log, c) {
      BackCells(s, log, c);
    }
  }

  /** Straight after its output: unless it scrolled the screen or was a newline. */
  lemma EraseRestores(s: Screen, log: Log, c: byte)
    requires Shows(s, log)
    ensures Shows(Back(Put(s, c)), log) <==> !Scrolls(s, c) && (IsNewline(c) ==> |log.last| == COLS - 2)
  {
    PutShows(s, log, c);
    BackRestoresIff(Put(s, c), log, c);
    assert Top(Append(log, c)) == Top(log) + (if Scrolls(s, c) then 1 else 0);
  }

  /** The second of two backspaces fails on the last character of a row: behind 79 characters it
      blanks the one before and leaves the character where it was. */
  lemma SecondBackspaceFails(s: Screen, log: Log, a: byte, c: byte)
    requires Shows(s, log) && |log.last| == COLS - 1 && s.y < ROWS - 1 && !IsNewline(a) && !IsNewline(c)
    ensures var t := Back(Put(Put(s, a), c));
            && Shows(t, Append(log, a)) && t.x == 0 && !Scrolls(s, a)
            && !Shows(Back(t), log) && Back(t).x == COLS - 2
            && Back(t).cells[COLS * s.y + COLS - 1] == Cell(a, ATTRIB)
  {
    var log' := Append(log, a);
    PutShows(s, log, a);
    EraseRestores(Put(s, a), log', c);
    BackRestoresIff(Back(Put(Put(s, a), c)), log, a);
  }

  lemma {:induction false} ShortRow(log: Log, text: seq<byte>)
    requires |log.last| + |text| < COLS && forall i :: 0 <= i < |text| ==> !IsNewline(text[i])
    ensures AppendAll(log, text) == Log(log.rows, log.last + text)
    decreases |text|
  {
    if text == [] {
      assert log.last + text == log.last;
    } else {
      ShortRow(Append(log, text[0]), text[1..]);
      assert log.last + [text[0]] + text[1..] == log.last + text;
    }
  }

  /** Such an input: 81 times "a" on a cleared screen, and two backspaces. */
  lemma EraseFails(s: Screen)
    requires Ok(s)
    ensures var log := AppendAll(EMPTY, seq(COLS - 1, _ => 97));
            var t := Back(Put(Put(PutAll(Cleared(s), seq(COLS - 1, _ => 97)), 97), 97));
            Shows(t, Append(log, 97)) && !Shows(Back(t), log)
  {
    var row: seq<byte> := seq(COLS - 1, _ => 97);
    ScreenIsWindowOnLog(s, row);
    ShortRow(EMPTY, row);
    assert AppendAll(EMPTY, row) == Log([], row) by {
      assert [] + row == row;
    }
    SecondBackspaceFails(PutAll(Cleared(s), row), Log([], row), 97, 97);
  }

  /** The Enter key moves the cursor and then prints a newline: that is one line break where the
      row is full or the last of the screen, and two line breaks everywhere else. */
  lemma EnterShows(s: Screen, log: Log)
    requires Shows(s, log)
    ensures var one := Append(log, NEWLINE);
            Shows(Put(Entered(s), NEWLINE), if s.x == COLS || s.y == ROWS - 1 then one else Append(one, NEWLINE))
  {
    var one := Append(log, NEWLINE);
    PutShows(s, log, NEWLINE);
    if s.y == ROWS - 1 {
      assert Put(Entered(s), NEWLINE) == Put(s, NEWLINE);
    } else if s.x == COLS {
      assert Entered(s) == Wrap(s);
      PutShows(Entered(s), log, NEWLINE);
    } else {
      assert Entered(s) == Put(s, NEWLINE);
      PutShows(Entered(s), one, NEWLINE);
    }
  }

  /** Before its newline is printed, the Enter key has broken the line by itself where the row is
      neither full nor the last; in the last row it only goes back to column 0. */
  lemma EnterMoves(s: Screen, log: Log)
    requires Shows(s, log)
    ensures s.x < COLS && s.y < ROWS - 1 ==> Shows(Entered(s), Append(log, NEWLINE))
    ensures Entered(s).cells == s.cells && Entered(s).x == 0 && Entered(s).y == Min(s.y + 1, 24)
  {
    if s.x < COLS && s.y < ROWS - 1 {
      PutShows(s, log, NEWLINE);
      assert Entered(s) == Put(s, NEWLINE);
    }
  }

  // ------------------------------------------------------- the log, read off the whole text

  /** How many characters the first row takes: up to the first newline, at most 80. */
  ghost function RowLength(text: seq<byte>): (k: nat)
    ensures k <= |text| && k <= COLS && (forall i :: 0 <= i < k ==> !IsNewline(text[i]))
    ensures k < |text| && k < COLS ==> IsNewline(text[k])
  {
    RowLengthFrom(text, 0)
  }

  ghost function RowLengthFrom(text: seq<byte>, i: nat): (k: nat)
    requires i <= |text| && i <= COLS && (forall j :: 0 <= j < i ==> !IsNewline(text[j]))
    ensures i <= k <= |text| && k <= COLS && (forall j :: 0 <= j < k ==> !IsNewline(text[j]))
    ensures k < |text| && k < COLS ==> IsNewline(text[k])
    decreases |text| - i
  {
    if i == |text| || i == COLS || IsNewline(text[i]) then i else RowLengthFrom(text, i + 1)
  }

  lemma {:induction false} RowLengthFromIs(text: seq<byte>, i: nat, k: nat)
    requires i <= k <= |text| && k <= COLS && (forall j :: 0 <= j < k ==> !IsNewline(text[j]))
    requires k == COLS || k == |text| || IsNewline(text[k])
    ensures RowLengthFrom(text, i) == k
    decreases k - i
  {
    if i < k {
      RowLengthFromIs(text, i + 1, k);
    }
  }

  lemma RowLengthIs(text: seq<byte>, k: nat)
    requires k <= |text| && k <= COLS && (forall i :: 0 <= i < k ==> !IsNewline(text[i]))
    requires k == COLS || k == |text| || IsNewline(text[k])
    ensures RowLength(text) == k
  {
    RowLengthFromIs(text, 0, k);
  }

  /** The text cut into rows: at newlines, and after every 80 characters without one. */
  ghost function Wrapped(text: seq<byte>): seq<seq<byte>>
    decreases |text|
  {
    var k := RowLength(text);
    if k == COLS then [text[..k]] + Wrapped(text[k..])
    else if k < |text| then [text[..k]] + Wrapped(text[k + 1..])
    else [text]
  }

  /** A row ends at a newline, and at its 80th character. */
  lemma WrappedStep(last: seq<byte>, c: byte, rest: seq<byte>)
    requires |last| < COLS && forall i :: 0 <= i < |last| ==> !IsNewline(last[i])
    ensures IsNewline(c) ==> Wrapped(last + ([c] + rest)) == [last] + Wrapped(rest)
    ensures !IsNewline(c) && |last| + 1 == COLS ==> Wrapped(last + ([c] + rest)) == [last + [c]] + Wrapped(rest)
  {
    var whole := last + ([c] + rest);
    if IsNewline(c) {
      RowLengthIs(whole, |last|);
      assert whole[..|last|] == last && whole[|last| + 1..] == rest;
    } else if |last| + 1 == COLS {
      RowLengthIs(whole, COLS);
      assert whole[..COLS] == last + [c] && whole[COLS..] == rest;
    }
  }

  lemma {:induction false} AppendedRows(log: Log, text: seq<byte>)
    requires WellFormed(log) && forall i :: 0 <= i < |log.last| ==> !IsNewline(log.last[i])
    ensures AllRows(AppendAll(log, text)) == log.rows + Wrapped(log.last + text)
    decreases |text|
  {
    if text == [] {
      RowLengthIs(log.last, |log.last|);
      assert log.last + text == log.last;
    } else {
      var c, rest := text[0], text[1..];
      assert text == [c] + rest;
      var log' := Append(log, c);
      assert AppendAll(log, text) == AppendAll(log', rest);
      AppendedRows(log', rest);
      hide Wrapped, AppendAll;
      WrappedStep(log.last, c, rest);
      if log'.last == [] {
        assert log'.last + rest == rest;
        Associative(log.rows, log'.rows[|log.rows|..], Wrapped(rest));
      } else {
        assert log'.last + rest == log.last + text;
      }
    }
  }

  /** The rows of the log are the wrapped text. */
  lemma LogIsWrappedText(text: seq<byte>)
    ensures AllRows(AppendAll(EMPTY, text)) == Wrapped(text)
  {
    AppendedRows(EMPTY, text);
    assert [] + text == text;
  }

  /** A row takes 80 characters: n of them without a newline wrap after every 80. */
  lemma WrapsAtEighty(text: seq<byte>)
    requires |text| > 80 && forall i :: 0 <= i < |text| ==> !IsNewline(text[i])
    ensures Wrapped(text) == [text[..80]] + Wrapped(text[80..]) && IsNewline(10) && IsNewline(13) && !IsNewline(32)
  {
    RowLengthIs(text, 80);
  }

  lemma {:induction false} NewlineRows(log: Log, n: nat)
    requires log.last == []
    ensures var r := AppendAll(log, seq(n, _ => NEWLINE)); r.last == [] && |r.rows| == |log.rows| + n
    decreases n
  {
    if n > 0 {
      var text := seq(n, _ => NEWLINE);
      assert text[0] == NEWLINE && text[1..] == seq(n - 1, _ => NEWLINE);
      NewlineRows(Append(log, NEWLINE), n - 1);
    }
  }

  /** The screen has 25 rows: n newlines on a cleared screen go down n rows, but not below row 24. */
  lemma ShowsLastRows(s: Screen, n: nat)
    requires Ok(s)
    ensures var r := PutAll(Cleared(s), seq(n, _ => NEWLINE));
            r.y == Min(n, 24) && Top(AppendAll(EMPTY, seq(n, _ => NEWLINE))) == Max(0, n - 24) && r.x == 0
  {
    var text: seq<byte> := seq(n, _ => NEWLINE);
    ScreenIsWindowOnLog(s, text);
    NewlineRows(EMPTY, n);
    NewlinesAtZero(Cleared(s), n);
  }

  lemma {:induction false} NewlinesAtZero(s: Screen, n: nat)
    requires Ok(s) && s.x == 0
    ensures PutAll(s, seq(n, _ => NEWLINE)).x == 0
    decreases n
  {
    if n > 0 {
      var text := seq(n, _ => NEWLINE);
      assert text[0] == NEWLINE && text[1..] == seq(n - 1, _ => NEWLINE);
      NewlinesAtZero(Put(s, NEWLINE), n - 1);
    }
  }
}
