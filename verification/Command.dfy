/** How a command line splits into program name and argument (the parsing loops of execute). */
module Command {
  import opened Machine

  const NAME_MAX := 32
  const COMMAND_MAX := 128

  function Spaces(n: nat): seq<byte> {
    seq(n, _ => SPACE)
  }

  function SkipSpaces(s: seq<byte>): (r: seq<byte>)
    ensures |r| <= |s| && (r != [] ==> r[0] != SPACE)
  {
    if s != [] && s[0] == SPACE then SkipSpaces(s[1..]) else s
  }

  /** The characters up to the first space. */
  function FirstWord(s: seq<byte>): (w: seq<byte>)
    ensures |w| <= |s| && w == s[..|w|] && SPACE !in w
    ensures |w| < |s| ==> s[|w|] == SPACE
  {
    if s == [] || s[0] == SPACE then [] else
    var w := FirstWord(s[1..]);
    assert s[..|w| + 1] == [s[0]] + s[1..][..|w|];
    [s[0]] + w
  }

  function ProgramName(cmd: seq<byte>): seq<byte> {
    FirstWord(SkipSpaces(cmd))
  }

  function Argument(cmd: seq<byte>): seq<byte> {
    SkipSpaces(SkipSpaces(cmd)[|ProgramName(cmd)|..])
  }

  lemma {:induction false} SkipLeading(n: nat, s: seq<byte>)
    requires s != [] ==> s[0] != SPACE
    ensures SkipSpaces(Spaces(n) + s) == s
  {
    if n == 0 {
      assert Spaces(0) + s == s;
    } else {
      assert (Spaces(n) + s)[1..] == Spaces(n - 1) + s;
      SkipLeading(n - 1, s);
    }
  }

  lemma {:induction false} WordBefore(w: seq<byte>, rest: seq<byte>)
    requires SPACE !in w && (rest != [] ==> rest[0] == SPACE)
    ensures FirstWord(w + rest) == w
  {
    if w == [] {
      assert w + rest == rest;
    } else {
      assert w == [w[0]] + w[1..] && (w + rest)[1..] == w[1..] + rest;
      WordBefore(w[1..], rest);
    }
  }

  /** A command written as name and argument, with any spacing, splits back into the two. */
  lemma CommandSplits(lead: nat, name: seq<byte>, gap: nat, arg: seq<byte>)
    requires name != [] && SPACE !in name && (arg != [] ==> arg[0] != SPACE)
    requires gap == 0 ==> arg == []
    ensures var cmd := Spaces(lead) + (name + (Spaces(gap) + arg));
            ProgramName(cmd) == name && Argument(cmd) == arg
  {
    var rest := Spaces(gap) + arg;
    SkipLeading(lead, name + rest);
    WordBefore(name, rest);
    assert (name + rest)[|name|..] == rest;
    SkipLeading(gap, arg);
  }

  /** The state of the scan at index `i`: still before the name, or inside it. */
  ghost predicate Scanning(text: seq<byte>, i: nat, name: seq<byte>) {
    && i <= |text| && SPACE !in name
    && (if name == [] then SkipSpaces(text[i..]) == SkipSpaces(text) else SkipSpaces(text) == name + text[i..])
  }

  lemma ScanStep(text: seq<byte>, i: nat, name: seq<byte>)
    requires Scanning(text, i, name) && i < |text|
    ensures text[i] == SPACE && name == [] ==> Scanning(text, i + 1, name)
    ensures text[i] != SPACE ==> Scanning(text, i + 1, name + [text[i]])
  {
    assert text[i..] == [text[i]] + text[i + 1..];
    assert text[i..][1..] == text[i + 1..];
    assert name + text[i..] == (name + [text[i]]) + text[i + 1..];
    if text[i] != SPACE && name == [] {
      assert name + [text[i]] == [text[i]];
    }
  }

  /** The name is complete: its end is the end of the text or a space. */
  lemma ScanDone(text: seq<byte>, i: nat, name: seq<byte>)
    requires Scanning(text, i, name) && name != [] && (i < |text| ==> text[i] == SPACE)
    ensures ProgramName(text) == name && Argument(text) == SkipSpaces(text[i..])
  {
    WordBefore(name, text[i..]);
    assert (name + text[i..])[|name|..] == text[i..];
  }

  /** The position right behind the program name. */
  function NameEnd(text: seq<byte>): nat {
    |text| - |SkipSpaces(text)| + |ProgramName(text)|
  }

  lemma ScanInside(text: seq<byte>, i: nat, name: seq<byte>)
    requires Scanning(text, i, name) && |name| <= |ProgramName(text)|
    ensures i <= NameEnd(text)
  {
    if name == [] {
      assert |SkipSpaces(text[i..])| <= |text| - i;
    }
  }

  /** The scan that copies the name out: the 32-byte name buffer, whether a space ended the
      name, and where the scan stopped. */
  method ParseName(command: seq<byte>, ghost text: seq<byte>) returns (exe: seq<byte>, spaced: bool, i: nat)
    requires |text| < |command| && NameEnd(text) < COMMAND_MAX
    requires command[..|text|] == text && NUL !in text && command[|text|] == NUL
    requires ProgramName(text) != [] && |ProgramName(text)| < NAME_MAX
    ensures |exe| == NAME_MAX && exe[..|ProgramName(text)|] == ProgramName(text) && exe[|ProgramName(text)|] == NUL
    ensures NUL !in ProgramName(text)
    ensures i <= |text| && (spaced <==> i < |text|) && Argument(text) == SkipSpaces(text[i..])
  {
    var nameLen := 0;
    exe := seq(NAME_MAX, _ => NUL);
    spaced := false;
    i := 0;
    while i < 128
      invariant 0 <= i <= |text| && nameLen <= |ProgramName(text)| && |exe| == NAME_MAX
      invariant NUL !in exe[..nameLen] && Scanning(text, i, exe[..nameLen])
      invariant forall k :: nameLen <= k < NAME_MAX ==> exe[k] == NUL
      decreases 128 - i
    {
      ghost var name := exe[..nameLen];
      assert i < |text| ==> command[i] == text[i];
      WordNotLonger(text, i, name);
      ScanInside(text, i, name);
      if i < |text| {
        ScanStep(text, i, name);
      }
      if command[i] == SPACE && nameLen == 0 {
        i := i + 1;
        continue;
      } else if command[i] == NUL && nameLen != 0 {
        break;
      } else if command[i] != SPACE && nameLen < 32 {
        exe := exe[nameLen := command[i]];
        nameLen := nameLen + 1;
        assert exe[..nameLen] == name + [command[i]];
      } else if command[i] == SPACE && nameLen != 0 {
        spaced := true;
        break;
      }
      i := i + 1;
    }
    ScanInside(text, i, exe[..nameLen]);
    ScanDone(text, i, exe[..nameLen]);
  }

  /** While scanning, the name so far and the characters ahead of it bound the program name. */
  lemma WordNotLonger(text: seq<byte>, i: nat, name: seq<byte>)
    requires Scanning(text, i, name) && ProgramName(text) != []
    ensures i == |text| ==> name != [] && name == ProgramName(text)
    ensures i < |text| && text[i] != SPACE ==> |name| < |ProgramName(text)|
  {
    if i == |text| {
      assert text[i..] == [];
      if name != [] {
        ScanDone(text, i, name);
      }
    } else if text[i] != SPACE {
      ScanStep(text, i, name);
      var w := FirstWord(text[i..]);
      if name != [] {
        NameGrows(name, text[i..]);
      } else {
        assert SkipSpaces(text[i..]) == text[i..];
      }
    }
  }

  lemma {:induction false} NameGrows(name: seq<byte>, rest: seq<byte>)
    requires SPACE !in name && rest != [] && rest[0] != SPACE
    ensures |FirstWord(name + rest)| > |name|
  {
    if name == [] {
      assert name + rest == rest;
    } else {
      assert name == [name[0]] + name[1..] && (name + rest)[1..] == name[1..] + rest;
      NameGrows(name[1..], rest);
    }
  }
}
