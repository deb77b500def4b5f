/** The keyboard interrupt's bottom half and the terminal's line read (keyboard.c, terminal.c). */
module Keyboard {
  import opened Machine
  import opened Console
  import opened Counts
  import T = Terminals
  import K = KeySpec

  class Keyboard {
    const console: Console
    var leftShift: bool
    var rightShift: bool
    var caps: bool
    var alt: bool
    var ctrl: bool
    // the driver's own counter: tested before every character, never changed
    var bufIdx: int

    ghost function Modifiers(): K.Modifiers
      reads this
    {
      K.Modifiers(leftShift, rightShift, caps, alt, ctrl)
    }

    ghost predicate GoodKeys()
      reads console, console.keys
    {
      && console.keys.Length == T.TERM_NUM
      && (forall i :: 0 <= i < T.TERM_NUM ==>
            && |console.keys[i].buf| == K.BUF_SIZE
            && 0 <= console.keys[i].idx <= K.BUF_SIZE && console.keys[i].enterFlag in {0, 1})
    }

    ghost predicate Valid()
      reads this, console, console.vram, console.cursor, console.keys
    {
      console.Valid() && GoodKeys() && bufIdx == 0
    }

    /** Terminal `i`'s pending line. */
    ghost function Line(i: nat): K.Line
      requires GoodKeys() && i < T.TERM_NUM
      reads console, console.keys
    {
      K.Line(console.keys[i].buf[..console.keys[i].idx], console.keys[i].enterFlag == 1)
    }

    ghost function Lines(): (lines: seq<K.Line>)
      requires GoodKeys()
      reads console, console.keys
      ensures |lines| == T.TERM_NUM && forall i :: 0 <= i < T.TERM_NUM ==> lines[i] == Line(i)
    {
      [Line(0), Line(1), Line(2)]
    }

    ghost function State(): K.Keyboard
      requires GoodKeys()
      reads this, console, console.keys
    {
      K.Keyboard(Modifiers(), console.curTerm, Lines())
    }

    /** keyboard_init, on a console just set up. */
    constructor (console: Console)
      requires console.Valid()
      requires forall i :: 0 <= i < T.TERM_NUM ==> console.keys[i] == Keys(seq(K.BUF_SIZE, _ => NUL), 0, 0)
      ensures Valid() && this.console == console && Modifiers() == K.Modifiers(false, false, false, false, false)
      ensures forall i :: 0 <= i < T.TERM_NUM ==> Line(i) == K.Line([], false)
    {
      this.console := console;
      leftShift, rightShift, caps, alt, ctrl, bufIdx := false, false, false, false, false, 0;
    }

    /** The first tests of check_mode: shift, caps lock, alt and control keys. */
    method PressModifier(code: byte) returns (found: bool)
      modifies this
      ensures Modifiers() == K.Modify(old(Modifiers()), code) && found == K.IsModifier(code) && bufIdx == old(bufIdx)
    {
      found := true;
      if code == 0x36 {
        rightShift := true;
      } else if code == 0x2A {
        leftShift := true;
      } else if code == 0xAA {
        leftShift := false;
      } else if code == 0xB6 {
        rightShift := false;
      } else if code == 0x3A {
        caps := !caps;
      } else if code == 0x38 {
        alt := true;
      } else if code == 0xB8 {
        alt := false;
      } else if code == 0x1D {
        ctrl := true;
      } else if code == 0x9D {
        ctrl := false;
      } else {
        found := false;
      }
    }

    /** One edit of the visible terminal's line; the others keep theirs. */
    twostate predicate LineEdited(cur: nat, e: K.Edit)
      requires old(GoodKeys()) && GoodKeys() && cur < T.TERM_NUM
      reads console, console.keys
    {
      Lines() == old(Lines())[cur := K.Edited(old(Lines())[cur], e)]
    }

    /** These bytes are stored behind the pending characters, and nothing else in the buffer changes. */
    twostate predicate StoredAt(cur: nat, s: seq<byte>)
      requires old(GoodKeys()) && GoodKeys() && cur < T.TERM_NUM
      reads console, console.keys
    {
      var k := old(console.keys[cur]);
      k.idx + |s| <= K.BUF_SIZE && console.keys[cur].buf == Overwritten(k.buf, k.idx, s)
    }

    method PressEnter()
      requires Valid() && console.keys[console.curTerm].idx < K.BUF_SIZE
      modifies console, console.keys
      ensures Valid() && console.curTerm == old(console.curTerm) && LineEdited(console.curTerm, K.Submit)
      ensures console.keys[console.curTerm].idx == old(console.keys[console.curTerm].idx)
      ensures StoredAt(console.curTerm, [NEWLINE])
      ensures console.background == old(console.background)
      ensures console.Terminals() == T.Step(old(console.Terminals()), T.Visible(T.Enter))
    {
      var cur := console.curTerm;
      var k := console.keys[cur];
      console.keys[cur] := k.(buf := k.buf[k.idx := NEWLINE]);
      console.Enter();
      console.keys[cur] := console.keys[cur].(enterFlag := 1);
    }

    method PressBackspace()
      requires Valid() && console.keys[console.curTerm].idx < K.BUF_SIZE
      modifies console, console.vram, console.keys
      ensures Valid() && console.curTerm == old(console.curTerm) && LineEdited(console.curTerm, K.Pop)
      ensures StoredAt(console.curTerm, if old(Line(console.curTerm)).text == [] then [] else [SPACE])
      ensures console.background == old(console.background)
      ensures console.Terminals() ==
              if old(Line(console.curTerm)).text == [] then old(console.Terminals())
              else T.Step(old(console.Terminals()), T.Visible(T.Backspace))
    {
      var cur := console.curTerm;
      var k := console.keys[cur];
      if k.idx > 0 {
        console.keys[cur] := k.(buf := k.buf[k.idx := SPACE], idx := k.idx - 1);
        console.Backspace();
        assert k.buf[k.idx := SPACE][..k.idx - 1] == k.buf[..k.idx][..k.idx - 1];
        assert Line(cur) == K.Edited(old(Line(cur)), K.Pop);
      }
    }

    /** Type one character: into the line, and onto the screen. */
    method Type(c: byte)
      requires Valid() && console.keys[console.curTerm].idx < K.BUF_SIZE
      modifies console, console.vram, console.keys
      ensures Valid() && console.curTerm == old(console.curTerm) && LineEdited(console.curTerm, K.Push(c))
      ensures StoredAt(console.curTerm, [c])
      ensures console.background == old(console.background)
      ensures console.Terminals() == T.Step(old(console.Terminals()), T.Visible(T.PutChar(c)))
    {
      var cur := console.curTerm;
      var k := console.keys[cur];
      console.keys[cur] := k.(buf := k.buf[k.idx := c], idx := k.idx + 1);
      console.PutcSwitch(c);
      assert k.buf[k.idx := c][..k.idx + 1] == k.buf[..k.idx] + [c];
      assert Line(cur) == K.Edited(old(Line(cur)), K.Push(c));
    }

    /** Everything a key does before its character is typed (check_mode); the result says whether
        the key may type one. */
    method CheckMode(code: byte) returns (flag: bool)
      requires Valid() && (K.CheckEdits(code) != [] ==> console.keys[console.curTerm].idx < K.BUF_SIZE)
      modifies this, console, console.vram, console.cursor, console.keys
      ensures Valid() && State() == K.Checked(old(State()), code) && console.background == old(console.background)
      ensures flag <==> !K.IsModifier(code) && code != K.BACKSPACE && K.SwitchTo(old(Modifiers()), code) == None
      ensures flag ==> console.keys[console.curTerm].idx == old(console.keys[console.curTerm].idx)
      ensures console.Terminals() ==
              old(console.After(K.CheckEvents(Modifiers(), Line(console.curTerm).text != [], code)))
    {
      NoEdits(console.Terminals());
      hide K.Edited, K.EditedAll, K.Table, K.Typed, K.TypeEdits, T.Step, T.Run;
      var found := PressModifier(code);
      if found {
        flag := false;
      } else if code == 0x1C {
        K.OneEdit(Line(console.curTerm), K.Submit);
        PressEnter();
        T.RunOne(old(console.Terminals()), T.Visible(T.Enter));
        flag := true;
      } else if code == 0x0E {
        K.OneEdit(Line(console.curTerm), K.Pop);
        PressBackspace();
        T.RunOne(old(console.Terminals()), T.Visible(T.Backspace));
        flag := false;
      } else if alt && code in {K.F1, K.F2, K.F3} {
        var next := if code == K.F1 then 0 else if code == K.F2 then 1 else 2;
        console.TerminalSwitch(console.curTerm, next);
        T.RunOne(old(console.Terminals()), T.Switch(next));
        flag := false;
      } else {
        flag := true;
      }
    }

    lemma NoEdits(m: T.Terminals)
      requires T.Valid(m)
      ensures forall l :: K.EditedAll(l, []) == l
      ensures T.Run(m, []) == m
    {
    }

    /** The character of a key, or the screen clear of control and L, after check_mode; `m` is the
        modifier state from before the key. */
    method TypeKey(code: byte, flag: bool, ghost m: K.Modifiers)
      requires Valid() && Modifiers() == K.Modify(m, code)
      requires flag <==> !K.IsModifier(code) && code != K.BACKSPACE && K.SwitchTo(m, code) == None
      requires K.TypeEdits(m, code) != [] ==> console.keys[console.curTerm].idx < K.BUF_SIZE
      modifies console, console.vram, console.keys
      ensures Valid() && State() == K.Entered(old(State()), m, code) && console.background == old(console.background)
      ensures console.Terminals() == old(console.After(K.TypeEvents(m, code)))
    {
      K.TypingTests(m, code);
      K.EnteredIs(State(), m, code);
      NoEdits(console.Terminals());
      hide K.Table, K.Typed, K.TypeEdits, K.TypeEvents, K.Entered, K.Edited, K.Modify, K.SwitchTo, T.Run, T.Step;
      if code as int >= K.SCAN_SIZE || code == NUL {
        return;
      }
      if ctrl && !leftShift && !rightShift && !caps && code == 0x26 {
        console.Clear();
        T.RunOne(old(console.Terminals()), T.Visible(T.Clear));
        return;
      }
      if bufIdx < K.BUF_SIZE - 1 {
        if flag {
          var input := K.Table(leftShift || rightShift, caps)[code];
          if input != NUL {
            Type(input);
            T.RunOne(old(console.Terminals()), T.Visible(T.PutChar(input)));
          }
        }
      }
    }

    /** One keyboard interrupt (show_pressed_key). */
    method ShowPressedKey(code: byte)
      requires Valid() && (K.Edits(Modifiers(), code) != [] ==> console.keys[console.curTerm].idx < K.BUF_SIZE)
      modifies this, console, console.vram, console.cursor, console.keys
      ensures Valid() && State() == K.Step(old(State()), K.Key(code))
      ensures console.background == old(console.background)
      ensures console.Terminals() ==
              old(console.After(K.ScreenEvents(Modifiers(), Line(console.curTerm).text != [], code)))
    {
      ghost var k, screens, pending := State(), console.Terminals(), Line(console.curTerm).text != [];
      assert T.Valid(screens) && K.Valid(k);
      K.WhenTyped(k.mods, k.cur, code);
      K.StepInTwo(k, code);
      hide K.Modify, K.Step, K.Checked, K.Entered, K.TypeEdits, K.CheckEdits, K.CheckEvents, K.TypeEvents, T.Run;
      var flag := CheckMode(code);
      assert Modifiers() == State().mods == K.Modify(k.mods, code) by {
        CheckedMods(k, code);
      }
      TypeKey(code, flag, k.mods);
      BothEvents(screens, k.mods, pending, code);
    }

    lemma CheckedMods(k: K.Keyboard, code: byte)
      requires K.Valid(k)
      ensures K.Checked(k, code).mods == K.Modify(k.mods, code)
    {
    }

    lemma BothEvents(screens: T.Terminals, m: K.Modifiers, pending: bool, code: byte)
      requires T.Valid(screens)
      ensures T.Run(T.Run(screens, K.CheckEvents(m, pending, code)), K.TypeEvents(m, code)) ==
              T.Run(screens, K.ScreenEvents(m, pending, code))
    {
      hide K.CheckEvents, K.TypeEvents;
      T.RunConcat(screens, K.CheckEvents(m, pending, code), K.TypeEvents(m, code));
    }

    /** Deliver the visible terminal's line once Enter was pressed (terminal_read).  The count is
        ignored, so the buffer must hold the whole line. */
    method TerminalRead(buf: array?<byte>, nbytes: int32) returns (n: int)
      requires Valid() && (buf != null ==> console.keys[console.curTerm].enterFlag == 1)
      requires buf != null ==> console.keys[console.curTerm].idx <= buf.Length
      modifies console.keys, buf
      ensures Valid()
      ensures buf == null ==> n == -1 && State() == old(State())
      ensures buf != null ==>
                && State() == K.Step(old(State()), K.Read)
                && Line(console.curTerm) == K.Line([], false)
                && n == |old(Line(console.curTerm)).text| <= buf.Length
                && buf[..] == Overwritten(old(buf[..]), 0, old(Line(console.curTerm)).text)
    {
      if buf == null {
        return -1;
      }
      var cur := console.curTerm;
      var k := console.keys[cur];
      ghost var line := Line(cur).text;
      n := 0;
      while n < k.idx
        invariant 0 <= n <= k.idx && unchanged(console.keys)
        invariant forall j :: 0 <= j < n ==> buf[j] == line[j]
        invariant forall j :: n <= j < buf.Length ==> buf[j] == old(buf[j])
      {
        buf[n] := k.buf[n];
        n := n + 1;
      }
      OverwrittenIs(old(buf[..]), buf[..], 0, line);
      hide Overwritten;
      var i := 0;
      var cleared := k.buf;
      while i < k.idx
        invariant 0 <= i <= k.idx && |cleared| == K.BUF_SIZE
      {
        cleared := cleared[i := SPACE];
        i := i + 1;
      }
      console.keys[cur] := Keys(cleared, 0, 0);
      assert forall j :: 0 <= j < T.TERM_NUM ==> Line(j) == if j == cur then K.Line([], false) else old(Line(j));
    }
  }
}
