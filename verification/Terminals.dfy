/** The three virtual terminals as a state machine over screens (terminal.c, putc in lib.c). */
module Terminals {
  import opened Machine
  import opened Screen
  import opened Log

  const TERM_NUM := 3

  /** The visible screen, and the three saved screens; the one saved for the visible terminal is stale. */
  datatype Terminals = Terminals(cur: nat, shown: Screen, saved: seq<Screen>)

  ghost predicate Valid(m: Terminals) {
    && m.cur < TERM_NUM && |m.saved| == TERM_NUM && Ok(m.shown)
    && forall i :: 0 <= i < TERM_NUM ==> Ok(m.saved[i])
  }

  /** What terminal `i` would show if it were visible. */
  ghost function Logical(m: Terminals, i: nat): Screen
    requires Valid(m) && i < TERM_NUM
  {
    if i == m.cur then m.shown else m.saved[i]
  }

  datatype Op = PutChar(c: byte) | Backspace | Clear | Enter

  ghost function Apply(s: Screen, op: Op): (r: Screen)
    requires Ok(s)
    ensures Ok(r)
  {
    match op
    case PutChar(c) => Put(s, c)
    case Backspace => Back(s)
    case Clear => Cleared(s)
    case Enter => Entered(s)
  }

  ghost function Replay(s: Screen, ops: seq<Op>): (r: Screen)
    requires Ok(s)
    ensures Ok(r)
    decreases |ops|
  {
    if ops == [] then s else Replay(Apply(s, ops[0]), ops[1..])
  }

  /** An operation on the visible terminal, output by terminal `t`'s program, or a switch. */
  datatype Event = Visible(op: Op) | Output(t: nat, c: byte) | Switch(t: nat)

  predicate Proper(e: Event) {
    match e
    case Visible(_) => true
    case Output(t, _) => t < TERM_NUM
    case Switch(t) => t < TERM_NUM
  }

  /** One event.  A background scroll takes its rows from the saved screen of the visible terminal. */
  ghost function Step(m: Terminals, e: Event): (r: Terminals)
    requires Valid(m) && Proper(e)
    ensures Valid(r)
  {
    match e
    case Visible(op) => m.(shown := Apply(m.shown, op))
    case Output(t, c) =>
      if t == m.cur then m.(shown := Put(m.shown, c))
      else m.(saved := m.saved[t := PutVia(m.saved[t], c, Some(m.saved[m.cur].cells))])
    case Switch(t) =>
      var saved := m.saved[m.cur := m.shown];
      Terminals(t, saved[t], saved)
  }

  /** The operations of one event that belong to terminal `i`. */
  function Own(cur: nat, e: Event, i: nat): seq<Op> {
    match e
    case Visible(op) => if i == cur then [op] else []
    case Output(t, c) => if i == t then [PutChar(c)] else []
    case Switch(_) => []
  }

  function CurAfter(cur: nat, e: Event): nat {
    if e.Switch? then e.t else cur
  }

  /** The event scrolls a terminal that is not visible. */
  ghost predicate ScrollsBackground(m: Terminals, e: Event)
    requires Valid(m) && Proper(e)
  {
    e.Output? && e.t != m.cur && Scrolls(m.saved[e.t], e.c)
  }

  ghost function Run(m: Terminals, es: seq<Event>): (r: Terminals)
    requires Valid(m) && forall e <- es :: Proper(e)
    ensures Valid(r)
    decreases |es|
  {
    if es == [] then m else Run(Step(m, es[0]), es[1..])
  }

  lemma {:induction false} RunConcat(m: Terminals, a: seq<Event>, b: seq<Event>)
    requires Valid(m) && (forall e <- a :: Proper(e)) && (forall e <- b :: Proper(e))
    ensures (forall e <- a + b :: Proper(e)) && Run(m, a + b) == Run(Run(m, a), b)
    decreases |a|
  {
    if a == [] {
      assert a + b == b;
    } else {
      assert (a + b)[1..] == a[1..] + b;
      RunConcat(Step(m, a[0]), a[1..], b);
    }
  }

  lemma RunOne(m: Terminals, e: Event)
    requires Valid(m) && Proper(e)
    ensures Run(m, [e]) == Step(m, e)
  {
    assert Run(m, [e]) == Run(Step(m, e), []);
  }

  ghost predicate NoBackgroundScroll(m: Terminals, es: seq<Event>)
    requires Valid(m) && forall e <- es :: Proper(e)
    decreases |es|
  {
    es == [] || (!ScrollsBackground(m, es[0]) && NoBackgroundScroll(Step(m, es[0]), es[1..]))
  }

  ghost function OwnAll(cur: nat, es: seq<Event>, i: nat): seq<Op>
    decreases |es|
  {
    if es == [] then [] else Own(cur, es[0], i) + OwnAll(CurAfter(cur, es[0]), es[1..], i)
  }

  lemma StepIsIndependent(m: Terminals, e: Event, i: nat)
    requires Valid(m) && Proper(e) && i < TERM_NUM && !ScrollsBackground(m, e)
    ensures Logical(Step(m, e), i) == Replay(Logical(m, i), Own(m.cur, e, i))
  {
    match e
    case Visible(op) =>
      assert Replay(m.shown, [op]) == Replay(Apply(m.shown, op), []);
    case Output(t, c) =>
      assert Replay(Logical(m, t), [PutChar(c)]) == Replay(Put(Logical(m, t), c), []);
    case Switch(t) =>
  }

  /** What a background output does to its terminal is right if and only if it does not scroll,
      or the stale screen it copies from happens to hold the same rows. */
  lemma BackgroundOutput(m: Terminals, t: nat, c: byte)
    requires Valid(m) && t < TERM_NUM && t != m.cur
    ensures Logical(Step(m, Output(t, c)), t) == Put(Logical(m, t), c) <==>
            (!Scrolls(m.saved[t], c) || m.saved[m.cur].cells[COLS..CELLS] == Typed(m.saved[t], c)[COLS..CELLS])
  {
    ForeignScroll(m.saved[t], c, m.saved[m.cur].cells);
  }

  /** Terminals for which it is wrong: the visible one is blank, the other is filled and has its
      cursor in the last row.  A newline scrolls blank rows into it. */
  lemma BackgroundFails()
    ensures var blank := Screen(seq(PAGE, _ => BLANK), 0, 0);
            var filled := Screen(seq(PAGE, _ => Cell(97, ATTRIB)), 0, ROWS - 1);
            var m := Terminals(0, blank, [blank, filled, blank]);
            Valid(m) && Logical(Step(m, Output(1, NEWLINE)), 1) != Put(filled, NEWLINE)
  {
    var blank := Screen(seq(PAGE, _ => BLANK), 0, 0);
    var filled := Screen(seq(PAGE, _ => Cell(97, ATTRIB)), 0, ROWS - 1);
    var m := Terminals(0, blank, [blank, filled, blank]);
    BackgroundOutput(m, 1, NEWLINE);
    assert blank.cells[COLS..CELLS][0] != Typed(filled, NEWLINE)[COLS..CELLS][0];
  }

  lemma {:induction false} ReplayConcat(s: Screen, a: seq<Op>, b: seq<Op>)
    requires Ok(s)
    ensures Replay(s, a + b) == Replay(Replay(s, a), b)
    decreases |a|
  {
    if a == [] {
      assert a + b == b;
    } else {
      assert (a + b)[1..] == a[1..] + b;
      ReplayConcat(Apply(s, a[0]), a[1..], b);
    }
  }

  /** In every run without background scrolling, each terminal's screen is the replay of its own
      operations alone on one screen. */
  lemma {:induction false} TerminalsAreIndependent(m: Terminals, es: seq<Event>, i: nat)
    requires Valid(m) && (forall e <- es :: Proper(e)) && i < TERM_NUM && NoBackgroundScroll(m, es)
    ensures Logical(Run(m, es), i) == Replay(Logical(m, i), OwnAll(m.cur, es, i))
    decreases |es|
  {
    if es != [] {
      var own := Own(m.cur, es[0], i);
      StepIsIndependent(m, es[0], i);
      TerminalsAreIndependent(Step(m, es[0]), es[1..], i);
      ReplayConcat(Logical(m, i), own, OwnAll(CurAfter(m.cur, es[0]), es[1..], i));
    }
  }

  /** Switching a terminal to itself changes no screen and leaves it visible. */
  lemma SwitchToSelf(m: Terminals)
    requires Valid(m)
    ensures var r := Step(m, Switch(m.cur));
            r.shown == m.shown && r.cur == m.cur && forall i :: 0 <= i < TERM_NUM ==> Logical(r, i) == Logical(m, i)
  {
  }

  function Puts(text: seq<byte>): seq<Op> {
    seq(|text|, i requires 0 <= i < |text| => PutChar(text[i]))
  }

  lemma {:induction false} ReplayPuts(s: Screen, text: seq<byte>)
    requires Ok(s)
    ensures Replay(s, Puts(text)) == PutAll(s, text)
    decreases |text|
  {
    if text != [] {
      assert Puts(text)[1..] == Puts(text[1..]);
      ReplayPuts(Put(s, text[0]), text[1..]);
    }
  }

  /** A terminal that was cleared and then only written to shows the end of its own output,
      whatever the other two terminals did meanwhile and however often the user switched. */
  lemma {:induction false} EachTerminalShowsItsOwnLog(m: Terminals, es: seq<Event>, i: nat, text: seq<byte>)
    requires Valid(m) && (forall e <- es :: Proper(e)) && i < TERM_NUM && NoBackgroundScroll(m, es)
    requires OwnAll(m.cur, es, i) == [Clear] + Puts(text)
    ensures Shows(Logical(Run(m, es), i), AppendAll(EMPTY, text))
  {
    var s := Logical(m, i);
    TerminalsAreIndependent(m, es, i);
    assert ([Clear] + Puts(text))[1..] == Puts(text);
    assert Replay(s, [Clear] + Puts(text)) == Replay(Cleared(s), Puts(text));
    ReplayPuts(Cleared(s), text);
    ScreenIsWindowOnLog(s, text);
  }
}
