/** Modifier state and line editing as functions of the key history (keyboard.c). */
module KeySpec {
  import opened Machine
  import S = Screen
  import T = Terminals

  const SCAN_SIZE := 92
  const BUF_SIZE := 128

  // Scan codes the driver treats specially; a released key's code has the high bit set.
  const LEFT_DOWN: byte := 0x2A
  const LEFT_UP: byte := 0xAA
  const RIGHT_DOWN: byte := 0x36
  const RIGHT_UP: byte := 0xB6
  const CAPS: byte := 0x3A
  const ALT_DOWN: byte := 0x38
  const ALT_UP: byte := 0xB8
  const CTRL_DOWN: byte := 0x1D
  const CTRL_UP: byte := 0x9D
  const ENTER: byte := 0x1C
  const BACKSPACE: byte := 0x0E
  const F1: byte := 0x3B
  const F2: byte := 0x3C
  const F3: byte := 0x3D
  const KEY_L: byte := 0x26

  /** One row of the scan code table: digits, two letter rows with their punctuation, the last row. */
  function TableRow(digits: string, upper: string, middle: string, lower: string): seq<byte> {
    [NUL, NUL] + Ascii(digits) + [NUL, SPACE] + Ascii(upper) + [NEWLINE, NUL] + Ascii(middle) + [NUL] +
    Ascii(lower) + [NUL, NUL, NUL, SPACE] + seq(34, _ => NUL)
  }

  function Table(shift: bool, caps: bool): (row: seq<byte>)
    ensures |row| == SCAN_SIZE && row[ENTER] == NEWLINE
  {
    if !shift && !caps then TableRow("1234567890-=", "qwertyuiop[]", "asdfghjkl;'`", "\\zxcvbnm,./")
    else if shift && !caps then TableRow("!@#$%^&*()_+", "QWERTYUIOP{}", "ASDFGHJKL:\"~", "|ZXCVBNM<>?")
    else if !shift then TableRow("1234567890-=", "QWERTYUIOP[]", "ASDFGHJKL;'`", "\\ZXCVBNM,./")
    else TableRow("!@#$%^&*()_+", "qwertyuiop{}", "asdfghjkl:\"~", "|zxcvbnm<>?")
  }

  datatype Modifiers = Modifiers(left: bool, right: bool, caps: bool, alt: bool, ctrl: bool)

  function Modify(m: Modifiers, code: byte): Modifiers {
    if code == RIGHT_DOWN then m.(right := true)
    else if code == LEFT_DOWN then m.(left := true)
    else if code == LEFT_UP then m.(left := false)
    else if code == RIGHT_UP then m.(right := false)
    else if code == CAPS then m.(caps := !m.caps)
    else if code == ALT_DOWN then m.(alt := true)
    else if code == ALT_UP then m.(alt := false)
    else if code == CTRL_DOWN then m.(ctrl := true)
    else if code == CTRL_UP then m.(ctrl := false)
    else m
  }

  predicate IsModifier(code: byte) {
    code in {RIGHT_DOWN, LEFT_DOWN, LEFT_UP, RIGHT_UP, CAPS, ALT_DOWN, ALT_UP, CTRL_DOWN, CTRL_UP}
  }

  /** The terminal the key switches to. */
  function SwitchTo(m: Modifiers, code: byte): Option<nat> {
    if m.alt && code == F1 then Some(0)
    else if m.alt && code == F2 then Some(1)
    else if m.alt && code == F3 then Some(2)
    else None
  }

  /** Control and L alone clear the screen. */
  predicate ClearsScreen(m: Modifiers, code: byte) {
    m.ctrl && !m.left && !m.right && !m.caps && code == KEY_L
  }

  /** The character a key types, NUL for none. */
  function Typed(m: Modifiers, code: byte): byte {
    if code as int >= SCAN_SIZE || code == NUL || IsModifier(code) || code == BACKSPACE || SwitchTo(m, code).Some?
       || ClearsScreen(m, code) then NUL
    else Table(m.left || m.right, m.caps)[code]
  }

  // ------------------------------------------------------------------- one line of input

  datatype Line = Line(text: seq<byte>, entered: bool)

  datatype Edit = Push(c: byte) | Pop | Submit | Take

  function Edited(l: Line, e: Edit): Line {
    match e
    case Push(c) => l.(text := l.text + [c])
    case Pop => if l.text == [] then l else l.(text := l.text[..|l.text| - 1])
    case Submit => l.(entered := true)
    case Take => Line([], false)
  }

  function EditedAll(l: Line, es: seq<Edit>): Line
    decreases |es|
  {
    if es == [] then l else EditedAll(Edited(l, es[0]), es[1..])
  }

  lemma OneEdit(l: Line, e: Edit)
    ensures EditedAll(l, [e]) == Edited(l, e) && EditedAll(l, []) == l
  {
    assert EditedAll(Edited(l, e), [e][1..]) == Edited(l, e);
  }

  /** The edit made before the character is typed. */
  function CheckEdits(code: byte): seq<Edit> {
    if code == ENTER then [Submit] else if code == BACKSPACE then [Pop] else []
  }

  function TypeEdits(m: Modifiers, code: byte): seq<Edit> {
    if Typed(m, code) != NUL then [Push(Typed(m, code))] else []
  }

  /** The edits of one key press on the visible terminal's line. */
  function Edits(m: Modifiers, code: byte): seq<Edit> {
    CheckEdits(code) + TypeEdits(m, code)
  }

  /** The screen event before the character is typed; `pending` says there is one to erase. */
  function CheckEvents(m: Modifiers, pending: bool, code: byte): (es: seq<T.Event>)
    ensures forall e <- es :: T.Proper(e)
  {
    if code == ENTER then [T.Visible(T.Enter)]
    else if code == BACKSPACE && pending then [T.Visible(T.Backspace)]
    else if SwitchTo(m, code).Some? then [T.Switch(SwitchTo(m, code).value)]
    else []
  }

  function TypeEvents(m: Modifiers, code: byte): (es: seq<T.Event>)
    ensures forall e <- es :: T.Proper(e)
  {
    if ClearsScreen(m, code) then [T.Visible(T.Clear)]
    else if Typed(m, code) != NUL then [T.Visible(T.PutChar(Typed(m, code)))]
    else []
  }

  /** What one key press does to the screens. */
  function ScreenEvents(m: Modifiers, pending: bool, code: byte): (es: seq<T.Event>)
    ensures forall e <- es :: T.Proper(e)
  {
    CheckEvents(m, pending, code) + TypeEvents(m, code)
  }

  // ---------------------------------------------------------------- the whole keyboard state

  datatype Keyboard = Keyboard(mods: Modifiers, cur: nat, lines: seq<Line>)

  /** A key press, or the visible terminal's program reading its line. */
  datatype Input = Key(code: byte) | Read

  function CurAfter(m: Modifiers, cur: nat, code: byte): nat {
    SwitchTo(m, code).GetOr(cur)
  }

  function Step(k: Keyboard, e: Input): Keyboard
    requires k.cur < |k.lines|
  {
    match e
    case Key(code) =>
      Keyboard(Modify(k.mods, code), CurAfter(k.mods, k.cur, code),
               k.lines[k.cur := EditedAll(k.lines[k.cur], Edits(k.mods, code))])
    case Read => k.(lines := k.lines[k.cur := Edited(k.lines[k.cur], Take)])
  }

  ghost predicate Valid(k: Keyboard) {
    k.cur < T.TERM_NUM && |k.lines| == T.TERM_NUM
  }

  /** The part of a key press that comes before its character is typed. */
  function Checked(k: Keyboard, code: byte): Keyboard
    requires k.cur < |k.lines|
  {
    Keyboard(Modify(k.mods, code), CurAfter(k.mods, k.cur, code),
             k.lines[k.cur := EditedAll(k.lines[k.cur], CheckEdits(code))])
  }

  /** The character of a key pressed under modifiers `m`. */
  function Entered(k: Keyboard, m: Modifiers, code: byte): Keyboard
    requires k.cur < |k.lines|
  {
    k.(lines := k.lines[k.cur := EditedAll(k.lines[k.cur], TypeEdits(m, code))])
  }

  lemma NoEdits(l: Line)
    ensures EditedAll(l, []) == l
  {
  }

  /** A key that types a character is no modifier and no backspace, and it switches no terminal. */
  lemma WhenTyped(m: Modifiers, cur: nat, code: byte)
    ensures CurAfter(m, cur, code) != cur ==> TypeEdits(m, code) == [] && CheckEdits(code) == []
    ensures TypeEdits(m, code) != [] ==> !IsModifier(code) && code != BACKSPACE && SwitchTo(m, code) == None
    ensures CheckEdits(code) != [] || TypeEdits(m, code) != [] ==> Edits(m, code) != []
  {
  }

  lemma EnteredIs(k: Keyboard, m: Modifiers, code: byte)
    requires k.cur < |k.lines|
    ensures TypeEdits(m, code) == [] ==> Entered(k, m, code) == k
    ensures forall c :: TypeEdits(m, code) == [Push(c)] ==>
              Entered(k, m, code) == k.(lines := k.lines[k.cur := Edited(k.lines[k.cur], Push(c))])
  {
    NoEdits(k.lines[k.cur]);
    forall c | TypeEdits(m, code) == [Push(c)]
      ensures Entered(k, m, code) == k.(lines := k.lines[k.cur := Edited(k.lines[k.cur], Push(c))])
    {
      OneEdit(k.lines[k.cur], Push(c));
    }
  }

  /** The tests of the driver in terms of the modifiers after the key, and what they mean for the
      modifiers before it. */
  lemma TypingTests(m: Modifiers, code: byte)
    ensures var now, flag := Modify(m, code), !IsModifier(code) && code != BACKSPACE && SwitchTo(m, code) == None;
            if code as int >= SCAN_SIZE || code == NUL then TypeEdits(m, code) == [] && TypeEvents(m, code) == []
            else if now.ctrl && !now.left && !now.right && !now.caps && code == KEY_L then
              TypeEdits(m, code) == [] && TypeEvents(m, code) == [T.Visible(T.Clear)]
            else if flag && Table(now.left || now.right, now.caps)[code] != NUL then
              var input := Table(now.left || now.right, now.caps)[code];
              TypeEdits(m, code) == [Push(input)] && TypeEvents(m, code) == [T.Visible(T.PutChar(input))]
            else TypeEdits(m, code) == [] && TypeEvents(m, code) == []
  {
    hide Table;
  }

  /** The two parts make one step: the edits of a key come to the line that was visible before it. */
  lemma StepInTwo(k: Keyboard, code: byte)
    requires Valid(k)
    ensures Valid(Checked(k, code)) && Step(k, Key(code)) == Entered(Checked(k, code), k.mods, code)
  {
    WhenTyped(k.mods, k.cur, code);
    EditedConcat(k.lines[k.cur], CheckEdits(code), TypeEdits(k.mods, code));
    NoEdits(k.lines[k.cur]);
    if CurAfter(k.mods, k.cur, code) != k.cur {
      NoEdits(k.lines[CurAfter(k.mods, k.cur, code)]);
    }
  }

  ghost function Run(k: Keyboard, es: seq<Input>): (r: Keyboard)
    requires Valid(k)
    ensures Valid(r)
    decreases |es|
  {
    if es == [] then k else Run(Step(k, es[0]), es[1..])
  }

  /** The edits that fall to terminal `i` in a run: those made while it was visible. */
  ghost function OwnEdits(m: Modifiers, cur: nat, es: seq<Input>, i: nat): seq<Edit>
    decreases |es|
  {
    if es == [] then [] else
    match es[0]
    case Read => (if i == cur then [Take] else []) + OwnEdits(m, cur, es[1..], i)
    case Key(code) =>
      (if i == cur then Edits(m, code) else []) + OwnEdits(Modify(m, code), CurAfter(m, cur, code), es[1..], i)
  }

  lemma {:induction false} EditedConcat(l: Line, a: seq<Edit>, b: seq<Edit>)
    ensures EditedAll(l, a + b) == EditedAll(EditedAll(l, a), b)
    decreases |a|
  {
    if a == [] {
      assert a + b == b;
    } else {
      assert (a + b)[1..] == a[1..] + b;
      EditedConcat(Edited(l, a[0]), a[1..], b);
    }
  }

  /** In every run of keys, switches and reads, each terminal's line is the fold of the edits made
      while that terminal was visible. */
  lemma {:induction false} LinesAreFolds(k: Keyboard, es: seq<Input>, i: nat)
    requires Valid(k) && i < T.TERM_NUM
    ensures Run(k, es).lines[i] == EditedAll(k.lines[i], OwnEdits(k.mods, k.cur, es, i))
    decreases |es|
  {
    if es != [] {
      var k' := Step(k, es[0]);
      var own := StepEdits(k, es[0], i);
      StepIsFold(k, es[0], i);
      assert OwnEdits(k.mods, k.cur, es, i) == own + OwnEdits(k'.mods, k'.cur, es[1..], i);
      hide OwnEdits, Step, EditedAll, StepEdits;
      LinesAreFolds(k', es[1..], i);
      EditedConcat(k.lines[i], own, OwnEdits(k'.mods, k'.cur, es[1..], i));
    }
  }

  ghost function StepEdits(k: Keyboard, e: Input, i: nat): seq<Edit> {
    if i != k.cur then [] else if e == Read then [Take] else Edits(k.mods, e.code)
  }

  lemma StepIsFold(k: Keyboard, e: Input, i: nat)
    requires Valid(k) && i < T.TERM_NUM
    ensures Step(k, e).lines[i] == EditedAll(k.lines[i], StepEdits(k, e, i))
  {
    hide Edits, Modify, CurAfter;
    assert EditedAll(k.lines[i], [Take]) == EditedAll(Edited(k.lines[i], Take), []);
  }

  // ------------------------------------------------------------ modifiers from the key history

  ghost function HeldNow(e: Input, down: byte, up: byte, held: bool): bool {
    if e == Key(down) then true else if e == Key(up) then false else held
  }

  /** A key's state after a run: down after its press, up after its release, else as before. */
  ghost function HeldAfter(es: seq<Input>, down: byte, up: byte, held: bool): bool
    decreases |es|
  {
    if es == [] then held else HeldAfter(es[1..], down, up, HeldNow(es[0], down, up, held))
  }

  ghost predicate NoRelease(es: seq<Input>, up: byte, from: nat) {
    forall l :: from <= l < |es| ==> es[l] != Key(up)
  }

  /** Held means: pressed at some point, or held before, with no release since. */
  lemma {:induction false} HeldMeans(es: seq<Input>, down: byte, up: byte, held: bool)
    requires down != up
    ensures HeldAfter(es, down, up, held) <==>
            (held && NoRelease(es, up, 0)) || exists j :: 0 <= j < |es| && es[j] == Key(down) && NoRelease(es, up, j)
    decreases |es|
  {
    if es != [] {
      var rest := es[1..];
      HeldMeans(rest, down, up, HeldNow(es[0], down, up, held));
      assert forall l :: 0 < l < |es| ==> es[l] == rest[l - 1];
      assert NoRelease(es, up, 0) <==> es[0] != Key(up) && NoRelease(rest, up, 0);
      if j :| 0 <= j < |rest| && rest[j] == Key(down) && NoRelease(rest, up, j) {
        assert es[j + 1] == Key(down) && NoRelease(es, up, j + 1);
      }
      if j :| 0 <= j < |es| && es[j] == Key(down) && NoRelease(es, up, j) {
        if j > 0 {
          assert rest[j - 1] == Key(down) && NoRelease(rest, up, j - 1);
        } else {
          assert NoRelease(es, up, 0);
        }
      }
    }
  }

  ghost function CapsPresses(es: seq<Input>): nat
    decreases |es|
  {
    if es == [] then 0 else (if es[0] == Key(CAPS) then 1 else 0) + CapsPresses(es[1..])
  }

  ghost function ModsNow(m: Modifiers, e: Input): Modifiers {
    if e == Read then m else Modify(m, e.code)
  }

  ghost function ModsAfter(m: Modifiers, es: seq<Input>): Modifiers
    decreases |es|
  {
    if es == [] then m else ModsAfter(ModsNow(m, es[0]), es[1..])
  }

  lemma {:induction false} ModsOfRun(k: Keyboard, es: seq<Input>)
    requires Valid(k)
    ensures Run(k, es).mods == ModsAfter(k.mods, es)
    decreases |es|
  {
    if es != [] {
      ModsOfRun(Step(k, es[0]), es[1..]);
    }
  }

  lemma OneKeyShifts(m: Modifiers, e: Input)
    ensures var m' := ModsNow(m, e);
            && m'.left == HeldNow(e, LEFT_DOWN, LEFT_UP, m.left)
            && m'.right == HeldNow(e, RIGHT_DOWN, RIGHT_UP, m.right)
  {
  }

  lemma OneKeyCaps(m: Modifiers, e: Input)
    ensures ModsNow(m, e).caps == (m.caps != (e == Key(CAPS)))
  {
  }

  lemma OneKeyOthers(m: Modifiers, e: Input)
    ensures var m' := ModsNow(m, e);
            && m'.alt == HeldNow(e, ALT_DOWN, ALT_UP, m.alt)
            && m'.ctrl == HeldNow(e, CTRL_DOWN, CTRL_UP, m.ctrl)
  {
  }

  lemma {:induction false} ModsAreHeld(m: Modifiers, es: seq<Input>)
    ensures var m' := ModsAfter(m, es);
            && m'.left == HeldAfter(es, LEFT_DOWN, LEFT_UP, m.left)
            && m'.right == HeldAfter(es, RIGHT_DOWN, RIGHT_UP, m.right)
            && m'.alt == HeldAfter(es, ALT_DOWN, ALT_UP, m.alt)
            && m'.ctrl == HeldAfter(es, CTRL_DOWN, CTRL_UP, m.ctrl)
            && m'.caps == (m.caps != (CapsPresses(es) % 2 == 1))
    decreases |es|
  {
    if es != [] {
      OneKeyShifts(m, es[0]);
      OneKeyCaps(m, es[0]);
      OneKeyOthers(m, es[0]);
      hide HeldNow, ModsNow;
      ModsAreHeld(ModsNow(m, es[0]), es[1..]);
    }
  }

  /** Each modifier depends only on its own press and release in the key history; caps lock on
      the parity of its presses. */
  lemma {:induction false} ModifiersFromHistory(k: Keyboard, es: seq<Input>)
    requires Valid(k)
    ensures var m := Run(k, es).mods;
            && m.left == HeldAfter(es, LEFT_DOWN, LEFT_UP, k.mods.left)
            && m.right == HeldAfter(es, RIGHT_DOWN, RIGHT_UP, k.mods.right)
            && m.alt == HeldAfter(es, ALT_DOWN, ALT_UP, k.mods.alt)
            && m.ctrl == HeldAfter(es, CTRL_DOWN, CTRL_UP, k.mods.ctrl)
            && m.caps == (k.mods.caps != (CapsPresses(es) % 2 == 1))
  {
    ModsOfRun(k, es);
    ModsAreHeld(k.mods, es);
  }

  // ------------------------------------------------------------------- the end of the line buffer

  /** The positions of the line buffer a key stores at when `pending` characters are in it: Enter
      its newline, backspace a space, and a typed character itself. */
  function Stores(m: Modifiers, pending: nat, code: byte): seq<nat> {
    (if code == ENTER || (code == BACKSPACE && pending > 0) then [pending] else []) +
    (if Typed(m, code) != NUL then [pending] else [])
  }

  ghost predicate StaysInside(m: Modifiers, pending: nat, code: byte) {
    forall at <- Stores(m, pending, code) :: at < BUF_SIZE
  }

  /** The overflow guard tests a counter that stays 0, so every key passes it.  A key that does
      stores inside the buffer if and only if it edits nothing or fewer than 128 are pending. */
  lemma GuardIff(m: Modifiers, pending: nat, code: byte)
    ensures StaysInside(m, pending, code) <==> Edits(m, code) == [] || pending < 128
  {
    hide Typed;
    var stores := Stores(m, pending, code);
    if Edits(m, code) != [] && pending >= BUF_SIZE {
      assert stores[0] == pending && stores[0] in stores && pending >= BUF_SIZE;
      assert !StaysInside(m, pending, code);
    }
  }

  const NO_MODIFIERS := Modifiers(false, false, false, false, false)

  const INITIAL := Keyboard(NO_MODIFIERS, 0, seq(T.TERM_NUM, _ => Line([], false)))

  // the scan code of the letter A
  const KEY_A: byte := 0x1E

  lemma LetterTyped()
    ensures Modify(NO_MODIFIERS, KEY_A) == NO_MODIFIERS && SwitchTo(NO_MODIFIERS, KEY_A) == None
    ensures Typed(NO_MODIFIERS, KEY_A) == 97 && Edits(NO_MODIFIERS, KEY_A) == [Push(97)]
  {
    assert Ascii("asdfghjkl;'`")[0] == 97;
  }

  /** Pressing a letter again and again fills the line, whatever the guard. */
  lemma {:induction false} LettersFill(k: Keyboard, n: nat)
    requires Valid(k) && k.mods == NO_MODIFIERS
    ensures var r := Run(k, seq(n, _ => Key(KEY_A)));
            && r.mods == NO_MODIFIERS && r.cur == k.cur && |r.lines[k.cur].text| == |k.lines[k.cur].text| + n
    decreases n
  {
    if n > 0 {
      var es := seq(n, _ => Key(KEY_A));
      assert es[0] == Key(KEY_A) && es[1..] == seq(n - 1, _ => Key(KEY_A));
      LetterTyped();
      OneEdit(k.lines[k.cur], Push(97));
      hide Typed, EditedAll, Edits;
      LettersFill(Step(k, es[0]), n - 1);
    }
  }

  /** The failing state is reached: after 128 letters the next one is stored behind the buffer. */
  lemma GuardFails()
    ensures var k := Run(INITIAL, seq(128, _ => Key(KEY_A)));
            !StaysInside(k.mods, |k.lines[k.cur].text|, KEY_A)
  {
    LettersFill(INITIAL, BUF_SIZE);
    LetterTyped();
    GuardIff(NO_MODIFIERS, BUF_SIZE, KEY_A);
  }

  // ------------------------------------------------------------------------------ the Enter key

  /** On the visible screen Enter is the cursor movement and then the output of a newline. */
  lemma EnterEvents(m: T.Terminals, mods: Modifiers, pending: bool)
    requires T.Valid(m)
    ensures var r := T.Run(m, ScreenEvents(mods, pending, ENTER));
            r == m.(shown := S.Put(S.Entered(m.shown), NEWLINE))
  {
    assert Table(mods.left || mods.right, mods.caps)[ENTER] == NEWLINE;
    var es := ScreenEvents(mods, pending, ENTER);
    assert es == [T.Visible(T.Enter)] + [T.Visible(T.PutChar(NEWLINE))];
    T.RunConcat(m, [T.Visible(T.Enter)], [T.Visible(T.PutChar(NEWLINE))]);
    T.RunOne(m, T.Visible(T.Enter));
    T.RunOne(T.Step(m, T.Visible(T.Enter)), T.Visible(T.PutChar(NEWLINE)));
  }
}
