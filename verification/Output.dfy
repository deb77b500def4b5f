/** Writing to a descriptor: only standard output goes anywhere (system_call.c, files.c). */
module Output {
  import opened Machine
  import opened Screen
  import opened Log
  import opened Descriptors
  import opened Console
  import T = Terminals

  /** The terminals after terminal `t`'s program has written a text. */
  ghost function Written(m: T.Terminals, t: nat, text: seq<byte>): (r: T.Terminals)
    requires T.Valid(m) && t < T.TERM_NUM
    ensures T.Valid(r)
  {
    T.Run(m, Outputs(t, text))
  }

  /** The running program's terminal has received this text, and nothing else has happened to the
      screens. */
  twostate predicate Prints(console: Console, text: seq<byte>)
    reads console, console.vram, console.cursor
  {
    && old(console.Valid()) && console.Valid() && 0 <= old(console.background) < T.TERM_NUM
    && console.Terminals() == Written(old(console.Terminals()), old(console.background), text)
  }

  /** The write system call on anything but the clock (write): text for standard output goes to the
      terminal of the running program, files and directories are read-only, standard input
      refuses. */
  method Write(pcb: Pcb, console: Console, fd: int, text: seq<byte>) returns (n: int)
    requires pcb.Valid() && console.Valid() && 0 <= console.background < T.TERM_NUM
    requires 0 <= fd < TABLE_SIZE && pcb.fdt[fd].flags != 0 ==> pcb.fdt[fd].ops != RtcOps
    modifies console.vram, console.cursor, console`screenX, console`screenY
    ensures var open := 0 <= fd < TABLE_SIZE && pcb.fdt[fd].flags != 0 && pcb.fdt[fd].ops == StdoutOps;
            n == (if open then |text| else -1) && Prints(console, if open then text else [])
  {
    if fd < 0 || fd >= 8 {
      return -1;
    }
    if pcb.fdt[fd].flags == 0 {
      return -1;
    }
    if pcb.fdt[fd].ops == NoOps {
      return -1;
    }
    match pcb.fdt[fd].ops
    case FileOps => n := -1;
    case DirOps => n := -1;
    case StdinOps => n := -1;
    case StdoutOps => n := console.TerminalWrite(text);
  }

  /** Writing in parts is writing at once. */
  lemma WritingInParts(m: T.Terminals, t: nat, a: seq<byte>, b: seq<byte>)
    requires T.Valid(m) && t < T.TERM_NUM
    ensures Written(m, t, a + b) == Written(Written(m, t, a), t, b)
    ensures Written(m, t, []) == m
  {
    assert Outputs(t, a + b) == Outputs(t, a) + Outputs(t, b);
    T.RunConcat(m, Outputs(t, a), Outputs(t, b));
  }

  /** The first character of a text and the rest of it. */
  lemma OutputUnfolds(m: T.Terminals, t: nat, text: seq<byte>, i: nat)
    requires T.Valid(m) && t < T.TERM_NUM && i < T.TERM_NUM && text != []
    ensures var m', rest := T.Step(m, T.Output(t, text[0])), Outputs(t, text[1..]);
            && T.Valid(m') && m'.cur == m.cur && Written(m, t, text) == Written(m', t, text[1..])
            && T.OwnAll(m.cur, Outputs(t, text), i)
                 == (if i == t then [T.PutChar(text[0])] else []) + T.OwnAll(m.cur, rest, i)
            && (t == m.cur && T.NoBackgroundScroll(m', rest) ==> T.NoBackgroundScroll(m, Outputs(t, text)))
  {
    var es := Outputs(t, text);
    assert es[0] == T.Output(t, text[0]) && es[1..] == Outputs(t, text[1..]);
    hide Outputs;
  }

  lemma {:induction false} OutputIsOwn(m: T.Terminals, t: nat, text: seq<byte>, i: nat)
    requires T.Valid(m) && t < T.TERM_NUM && i < T.TERM_NUM
    ensures T.OwnAll(m.cur, Outputs(t, text), i) == if i == t then T.Puts(text) else []
    ensures Written(m, t, text).cur == m.cur
    ensures t == m.cur ==> T.NoBackgroundScroll(m, Outputs(t, text))
    decreases |text|
  {
    if text != [] {
      OutputUnfolds(m, t, text, i);
      hide Written, Outputs, T.Step, T.Valid, T.OwnAll, T.NoBackgroundScroll;
      OutputIsOwn(T.Step(m, T.Output(t, text[0])), t, text[1..], i);
      assert T.Puts(text) == [T.PutChar(text[0])] + T.Puts(text[1..]);
    }
  }

  /** A program that writes to its own cleared terminal without scrolling it in the background
      leaves there the last 25 rows of what it wrote, and the other terminals as they were. */
  lemma OutputShows(m: T.Terminals, t: nat, s: Screen, text: seq<byte>)
    requires T.Valid(m) && t < T.TERM_NUM && Ok(s) && T.Logical(m, t) == Cleared(s)
    requires t == m.cur || T.NoBackgroundScroll(m, Outputs(t, text))
    ensures var r := Written(m, t, text);
            && Shows(T.Logical(r, t), AppendAll(EMPTY, text))
            && forall i :: 0 <= i < T.TERM_NUM && i != t ==> T.Logical(r, i) == T.Logical(m, i)
  {
    var es := Outputs(t, text);
    forall i | 0 <= i < T.TERM_NUM
      ensures T.Logical(T.Run(m, es), i) == if i == t then PutAll(Cleared(s), text) else T.Logical(m, i)
    {
      OutputIsOwn(m, t, text, i);
      T.TerminalsAreIndependent(m, es, i);
      if i == t {
        T.ReplayPuts(Cleared(s), text);
      }
    }
    ScreenIsWindowOnLog(s, text);
  }
}
