/** What the keys do: the scan code table under shift and caps lock, the line and the screen after
    each key, the terminal keys, and reading a line (keyboard.c, terminal.c). */
module KeyLaws {
  import opened Machine
  import opened KeySpec
  import S = Screen
  import T = Terminals

  // ------------------------------------------------------------------------ the scan code table

  /** Where the four groups of characters stand in a row, and what stands between them. */
  ghost predicate Arranged(row: seq<byte>, digits: string, upper: string, middle: string, lower: string) {
    && |row| == 92
    && row[0x02..0x0E] == Ascii(digits) && row[0x10..0x1C] == Ascii(upper)
    && row[0x1E..0x2A] == Ascii(middle) && row[0x2B..0x36] == Ascii(lower)
    && row[0x0F] == 32 && row[0x39] == 32 && row[0x1C] == 10
    && (forall k :: 0 <= k < 92 && k in {0x00, 0x01, 0x0E, 0x1D, 0x2A, 0x36, 0x37, 0x38} ==> row[k] == 0)
    && (forall k :: 0x3A <= k < 92 ==> row[k] == 0)
  }

  lemma RowIsArranged(digits: string, upper: string, middle: string, lower: string)
    requires |digits| == |upper| == |middle| == 12 && |lower| == 11
    ensures Arranged(TableRow(digits, upper, middle, lower), digits, upper, middle, lower)
  {
  }

  /** The four rows: plain, shift, caps lock, and both. */
  lemma TableRows()
    ensures Arranged(Table(false, false), "1234567890-=", "qwertyuiop[]", "asdfghjkl;'`", "\\zxcvbnm,./")
    ensures Arranged(Table(true, false), "!@#$%^&*()_+", "QWERTYUIOP{}", "ASDFGHJKL:\"~", "|ZXCVBNM<>?")
    ensures Arranged(Table(false, true), "1234567890-=", "QWERTYUIOP[]", "ASDFGHJKL;'`", "\\ZXCVBNM,./")
    ensures Arranged(Table(true, true), "!@#$%^&*()_+", "qwertyuiop{}", "asdfghjkl:\"~", "|zxcvbnm<>?")
  {
    RowIsArranged("1234567890-=", "qwertyuiop[]", "asdfghjkl;'`", "\\zxcvbnm,./");
    RowIsArranged("!@#$%^&*()_+", "QWERTYUIOP{}", "ASDFGHJKL:\"~", "|ZXCVBNM<>?");
    RowIsArranged("1234567890-=", "QWERTYUIOP[]", "ASDFGHJKL;'`", "\\ZXCVBNM,./");
    RowIsArranged("!@#$%^&*()_+", "qwertyuiop{}", "asdfghjkl:\"~", "|zxcvbnm<>?");
    hide Arranged, TableRow;
  }

  predicate IsLetter(c: byte) {
    97 <= c <= 122
  }

  /** One key in the four rows: shift and caps lock each make a letter a capital and cancel each
      other, and caps lock leaves everything else alone. */
  predicate CasesOf(plain: int, shifted: int, capped: int, both: int) {
    if 97 <= plain <= 122 then shifted == plain - 32 && capped == shifted && both == plain
    else capped == plain && both == shifted
  }

  predicate SameKey(plain: byte, shifted: byte, capped: byte, both: byte) {
    CasesOf(plain as int, shifted as int, capped as int, both as int)
  }

  ghost predicate CaseAt(plain: string, shifted: string, capped: string, both: string, i: nat)
    requires i < |plain| == |shifted| == |capped| == |both|
  {
    && plain[i] < 128 as char && shifted[i] < 128 as char && capped[i] < 128 as char && both[i] < 128 as char
    && CasesOf(plain[i] as int, shifted[i] as int, capped[i] as int, both[i] as int)
  }

  ghost predicate AllCases(plain: string, shifted: string, capped: string, both: string) {
    && |plain| == |shifted| == |capped| == |both|
    && forall i: nat :: i < |plain| ==> CaseAt(plain, shifted, capped, both, i)
  }

  lemma OneCase(a: string, b: string, c: string, d: string)
    requires |a| == |b| == |c| == |d| == 1 && CaseAt(a, b, c, d, 0)
    ensures AllCases(a, b, c, d)
  {
  }

  lemma MoreCases(a: string, b: string, c: string, d: string, a': string, b': string, c': string, d': string)
    requires AllCases(a, b, c, d) && AllCases(a', b', c', d')
    ensures AllCases(a + a', b + b', c + c', d + d')
  {
    forall i: nat | i < |a + a'|
      ensures CaseAt(a + a', b + b', c + c', d + d', i)
    {
      assert if i < |a| then CaseAt(a, b, c, d, i) else CaseAt(a', b', c', d', i - |a|);
    }
  }

  lemma UpperCases()
    ensures AllCases("qwertyuiop[]", "QWERTYUIOP{}", "QWERTYUIOP[]", "qwertyuiop{}")
  {
    assert AllCases("qwert", "QWERT", "QWERT", "qwert");
    assert AllCases("yuiop", "YUIOP", "YUIOP", "yuiop");
    assert AllCases("[]", "{}", "[]", "{}");
    hide AllCases;
    MoreCases("qwert", "QWERT", "QWERT", "qwert", "yuiop", "YUIOP", "YUIOP", "yuiop");
    MoreCases("qwertyuiop", "QWERTYUIOP", "QWERTYUIOP", "qwertyuiop", "[]", "{}", "[]", "{}");
    assert "qwert" + "yuiop" == "qwertyuiop" && "qwertyuiop" + "[]" == "qwertyuiop[]";
    assert "QWERT" + "YUIOP" == "QWERTYUIOP" && "QWERTYUIOP" + "{}" == "QWERTYUIOP{}";
    assert "QWERTYUIOP" + "[]" == "QWERTYUIOP[]" && "qwertyuiop" + "{}" == "qwertyuiop{}";
  }

  lemma MiddleCases()
    ensures AllCases("asdfghjkl;'`", "ASDFGHJKL:\"~", "ASDFGHJKL;'`", "asdfghjkl:\"~")
  {
  }

  lemma LowerCases()
    ensures AllCases("\\zxcvbnm,./", "|ZXCVBNM<>?", "\\ZXCVBNM,./", "|zxcvbnm<>?")
  {
  }

  lemma DigitCases()
    ensures AllCases("1234567890-=", "!@#$%^&*()_+", "1234567890-=", "!@#$%^&*()_+")
  {
  }

  lemma KeyCases(code: nat)
    requires code < 92
    ensures SameKey(Table(false, false)[code], Table(true, false)[code],
                    Table(false, true)[code], Table(true, true)[code])
  {
    TableRows();
    var a, b, c, d := Table(false, false), Table(true, false), Table(false, true), Table(true, true);
    hide Table, TableRow, Ascii, AllCases;
    if 0x02 <= code < 0x0E {
      DigitCases();
      InGroup(code, 0x02, 0x0E, a, b, c, d, "1234567890-=", "!@#$%^&*()_+", "1234567890-=", "!@#$%^&*()_+");
    } else if 0x10 <= code < 0x1C {
      UpperCases();
      InGroup(code, 0x10, 0x1C, a, b, c, d, "qwertyuiop[]", "QWERTYUIOP{}", "QWERTYUIOP[]", "qwertyuiop{}");
    } else if 0x1E <= code < 0x2A {
      MiddleCases();
      InGroup(code, 0x1E, 0x2A, a, b, c, d, "asdfghjkl;'`", "ASDFGHJKL:\"~", "ASDFGHJKL;'`", "asdfghjkl:\"~");
    } else if 0x2B <= code < 0x36 {
      LowerCases();
      InGroup(code, 0x2B, 0x36, a, b, c, d, "\\zxcvbnm,./", "|ZXCVBNM<>?", "\\ZXCVBNM,./", "|zxcvbnm<>?");
    }
  }

  lemma InGroup(code: nat, from: nat, to: nat, a: seq<byte>, b: seq<byte>, c: seq<byte>, d: seq<byte>,
                plain: string, shifted: string, capped: string, both: string)
    requires from <= code < to <= 92 && |a| == |b| == |c| == |d| == 92
    requires a[from..to] == Ascii(plain) && b[from..to] == Ascii(shifted)
    requires c[from..to] == Ascii(capped) && d[from..to] == Ascii(both)
    requires AllCases(plain, shifted, capped, both)
    ensures SameKey(a[code], b[code], c[code], d[code])
  {
    var i := code - from;
    assert a[from..to][i] == a[code] && b[from..to][i] == b[code];
    assert c[from..to][i] == c[code] && d[from..to][i] == d[code];
    assert CaseAt(plain, shifted, capped, both, i);
  }

  /** The table in terms of its plain and its shifted row: shift and caps lock cancel each other on
      letters, and caps lock changes nothing else. */
  lemma TableMeans(shift: bool, caps: bool, code: nat)
    requires code < 92
    ensures var plain := Table(false, false)[code];
            Table(shift, caps)[code] as int ==
            if IsLetter(plain) then (if shift != caps then plain as int - 32 else plain as int)
            else Table(shift, false)[code] as int
  {
    KeyCases(code);
    hide Table;
  }

  // ------------------------------------------------------------------------------ typing a key

  /** The character a key should type: NUL if it is none of the typing keys. */
  function Character(shift: bool, caps: bool, code: nat): byte
    requires code < 92
  {
    var plain := Table(false, false)[code];
    if IsLetter(plain) then (if shift != caps then plain - 32 else plain) else Table(shift, false)[code]
  }

  /** A key that is neither Enter nor backspace, a modifier, a terminal key or the screen clear
      types its character into line and screen, and nothing if it has none. */
  lemma KeyTypes(m: Modifiers, pending: bool, code: byte)
    requires code as int < 92 && code != 0x1C && code != 0x0E && !IsModifier(code)
    requires !(m.alt && code in {0x3B, 0x3C, 0x3D}) && !(m.ctrl && !m.left && !m.right && !m.caps && code == 0x26)
    ensures var c := Character(m.left || m.right, m.caps, code as int);
            && Edits(m, code) == (if c != NUL then [Push(c)] else [])
            && ScreenEvents(m, pending, code) == (if c != NUL then [T.Visible(T.PutChar(c))] else [])
  {
    TableMeans(m.left || m.right, m.caps, code as int);
    TableRows();
    hide Table;
  }

  /** Codes from 92 on, those of released keys among them, type nothing. */
  lemma OtherCodes(m: Modifiers, pending: bool, code: byte)
    requires code >= 92
    ensures Edits(m, code) == [] && ScreenEvents(m, pending, code) == []
  {
  }

  /** The modifier keys by their scan codes: left and right shift, alt and control are held from
      press to release, caps lock changes with every press, and nothing else is a modifier. */
  lemma ModifierKeys(m: Modifiers, code: byte)
    ensures Modify(m, 0x2A) == m.(left := true) && Modify(m, 0xAA) == m.(left := false)
    ensures Modify(m, 0x36) == m.(right := true) && Modify(m, 0xB6) == m.(right := false)
    ensures Modify(m, 0x38) == m.(alt := true) && Modify(m, 0xB8) == m.(alt := false)
    ensures Modify(m, 0x1D) == m.(ctrl := true) && Modify(m, 0x9D) == m.(ctrl := false)
    ensures Modify(m, 0x3A) == m.(caps := !m.caps)
    ensures code !in {0x2A, 0xAA, 0x36, 0xB6, 0x38, 0xB8, 0x1D, 0x9D, 0x3A} ==> Modify(m, code) == m
  {
  }

  /** Some keys of the plain and the shifted row. */
  lemma SomeCharacters()
    ensures Table(false, false)[0x02] == 49 && Table(true, false)[0x02] == 33 && Table(false, false)[0x1E] == 97
  {
    TableRows();
    var plain, shifted := Table(false, false), Table(true, false);
    assert plain[0x02] == plain[0x02..0x0E][0] && shifted[0x02] == shifted[0x02..0x0E][0];
    assert plain[0x1E] == plain[0x1E..0x2A][0];
    hide Table, TableRow;
  }

  /** Shift and the key of "1" type "!", and caps lock and that key "1". */
  lemma ShiftedDigit()
    ensures Run(INITIAL, [Key(0x2A), Key(0x02)]).lines[0].text == [33]
    ensures Run(INITIAL, [Key(0x3A), Key(0x02)]).lines[0].text == [49]
  {
    ThenTyped(INITIAL, 0x2A, 0x02);
    ThenTyped(INITIAL, 0x3A, 0x02);
    SomeCharacters();
    KeyTypes(NO_MODIFIERS.(left := true), false, 0x02);
    KeyTypes(NO_MODIFIERS.(caps := true), false, 0x02);
    hide Table, Run, Edits;
    OneEdit(Line([], false), Push(33));
    OneEdit(Line([], false), Push(49));
  }

  /** With shift or caps lock the key of "a" types "A", with both it types "a". */
  lemma ShiftedLetter(k: Keyboard)
    requires Valid(k) && !k.mods.alt && !k.mods.ctrl
    ensures var shift := k.mods.left || k.mods.right;
            Step(k, Key(0x1E)).lines[k.cur].text == k.lines[k.cur].text + [if shift != k.mods.caps then 65 else 97]
  {
    SomeCharacters();
    KeyTypes(k.mods, false, 0x1E);
    hide Table, Edits;
    OneEdit(k.lines[k.cur], Push(65));
    OneEdit(k.lines[k.cur], Push(97));
  }

  /** A modifier key and then another key: the line gets the edits of the second. */
  lemma ThenTyped(k: Keyboard, first: byte, code: byte)
    requires Valid(k) && IsModifier(first)
    ensures Run(k, [Key(first), Key(code)]).lines[k.cur]
            == EditedAll(k.lines[k.cur], Edits(Modify(k.mods, first), code))
  {
    NoEdits(k.lines[k.cur]);
    var k1 := Step(k, Key(first));
    assert Edits(k.mods, first) == [] && k1.cur == k.cur && k1.lines == k.lines;
    var es := [Key(first), Key(code)];
    assert es[1..] == [Key(code)] && es[1..][1..] == [];
    hide Edits, Modify;
    assert Run(k, es) == Run(k1, es[1..]) == Step(k1, Key(code));
  }

  // ------------------------------------------------------------------------ the terminal keys

  /** With alt held F1, F2 and F3 make terminals 0, 1 and 2 visible, whatever was visible before;
      no other key and no read changes the terminal, and these change nothing but it. */
  lemma TerminalKeys(k: Keyboard, m: T.Terminals, pending: bool, code: byte)
    requires Valid(k) && T.Valid(m) && m.cur == k.cur
    ensures var r := Step(k, Key(code));
            if k.mods.alt && code in {0x3B, 0x3C, 0x3D} then r == k.(cur := code as int - 0x3B) else r.cur == k.cur
    ensures T.Run(m, ScreenEvents(k.mods, pending, code)).cur == Step(k, Key(code)).cur
    ensures Step(k, Read).cur == k.cur
  {
    NoEdits(k.lines[k.cur]);
    var es := ScreenEvents(k.mods, pending, code);
    if code == ENTER {
      EnterEvents(m, k.mods, pending);
    } else {
      WhenTyped(k.mods, k.cur, code);
      hide Typed, Edits;
      assert |es| <= 1;
      if es != [] {
        assert es == [es[0]];
        T.RunOne(m, es[0]);
      }
    }
  }

  // ----------------------------------------------------------------------------- on the screen

  /** What the single keys do to the visible screen. */
  lemma KeysOnScreen(m: T.Terminals, mods: Modifiers, pending: bool)
    requires T.Valid(m)
    ensures T.Run(m, ScreenEvents(mods, pending, 0x0E)) == if pending then m.(shown := S.Back(m.shown)) else m
    ensures mods.ctrl && !mods.left && !mods.right && !mods.caps ==>
              && T.Run(m, ScreenEvents(mods, pending, 0x26)) == m.(shown := S.Cleared(m.shown))
              && Edits(mods, 0x26) == []
    ensures forall c :: T.Run(m, [T.Visible(T.PutChar(c))]) == m.(shown := S.Put(m.shown, c))
  {
    T.RunOne(m, T.Visible(T.Backspace));
    T.RunOne(m, T.Visible(T.Clear));
    forall c
      ensures T.Run(m, [T.Visible(T.PutChar(c))]) == m.(shown := S.Put(m.shown, c))
    {
      T.RunOne(m, T.Visible(T.PutChar(c)));
    }
    hide Table;
    assert ScreenEvents(mods, pending, 0x0E) == if pending then [T.Visible(T.Backspace)] else [];
    if mods.ctrl && !mods.left && !mods.right && !mods.caps {
      assert ScreenEvents(mods, pending, 0x26) == [T.Visible(T.Clear)];
    }
  }

  // --------------------------------------------------------------------------------- the line

  /** The four edits: a read empties the line and takes back Enter, backspace undoes the last
      character and keeps an empty line, Enter keeps the text. */
  lemma LineLaws(l: Line, c: byte)
    ensures Edited(l, Take) == Line([], false)
    ensures Edited(l, Push(c)) == Line(l.text + [c], l.entered) && Edited(Edited(l, Push(c)), Pop) == l
    ensures l.text == [] ==> Edited(l, Pop) == l
    ensures Edited(l, Submit) == Line(l.text, true)
  {
    assert (l.text + [c])[..|l.text|] == l.text;
  }

  /** The keys and the read on the visible terminal's line. */
  lemma LineKeys(k: Keyboard)
    requires Valid(k)
    ensures Step(k, Read).lines == k.lines[k.cur := Line([], false)]
    ensures Step(k, Key(0x1C)).lines == k.lines[k.cur := Line(k.lines[k.cur].text + [10], true)]
    ensures var text := k.lines[k.cur].text;
            Step(k, Key(0x0E)).lines ==
            if text == [] then k.lines else k.lines[k.cur := k.lines[k.cur].(text := text[..|text| - 1])]
  {
    TableRows();
    var l := k.lines[k.cur];
    assert Edits(k.mods, 0x1C) == [Submit] + [Push(10)] && Edits(k.mods, 0x0E) == [Pop];
    EditedConcat(l, [Submit], [Push(10)]);
    OneEdit(l, Submit);
    OneEdit(l.(entered := true), Push(10));
    OneEdit(l, Pop);
  }

  lemma {:induction false} RunConcat(k: Keyboard, a: seq<Input>, b: seq<Input>)
    requires Valid(k)
    ensures Run(k, a + b) == Run(Run(k, a), b)
    decreases |a|
  {
    if a == [] {
      assert a + b == b;
    } else {
      assert (a + b)[1..] == a[1..] + b;
      RunConcat(Step(k, a[0]), a[1..], b);
    }
  }

  /** What is pending in a terminal after it was read is made up of the edits since that read:
      nothing typed before it is delivered again. */
  lemma ReadStartsAfresh(k: Keyboard, before: seq<Input>, since: seq<Input>)
    requires Valid(k)
    ensures var k1 := Run(k, before);
            Run(k, before + [Read] + since).lines[k1.cur] ==
            EditedAll(Line([], false), OwnEdits(k1.mods, k1.cur, since, k1.cur))
  {
    var k1 := Run(k, before);
    var k2 := Step(k1, Read);
    RunConcat(k, before + [Read], since);
    RunConcat(k, before, [Read]);
    assert [Read][1..] == [] && Run(k1, [Read]) == Run(k2, []) == k2;
    LinesAreFolds(k2, since, k1.cur);
    LineKeys(k1);
  }
}
