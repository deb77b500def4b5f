/** Command lines under the Linux emulation of the system calls: ece391_execute cuts a command
    into an argument vector in place, ece391_getargs joins the vector again. */
module Arguments {
  import opened Machine
  import opened CString

  const COMMAND_MAX := 1023
  const BUFFER_SIZE := 1026
  const ARGS_MAX := 1024
  const PREFIX: seq<byte> := [46, 47]   // "./"

  predicate IsSeparator(b: byte) {
    b == SPACE || b == NEWLINE
  }

  ghost predicate IsWord(w: seq<byte>) {
    w != [] && forall k :: 0 <= k < |w| ==> !IsSeparator(w[k])
  }

  ghost predicate AreWords(words: seq<seq<byte>>) {
    forall k :: 0 <= k < |words| ==> IsWord(words[k])
  }

  // --------------------------------------------------------------------- the reference: words

  /** The words of a text: a character starts a word where none goes on, and belongs to the word
      its successor is in. */
  function Words(s: seq<byte>): (words: seq<seq<byte>>)
    ensures s != [] && !IsSeparator(s[0]) ==> words != []
  {
    if s == [] then []
    else if IsSeparator(s[0]) then Words(s[1..])
    else if |s| == 1 || IsSeparator(s[1]) then [[s[0]]] + Words(s[1..])
    else
      var words := Words(s[1..]);
      [[s[0]] + words[0]] + words[1..]
  }

  /** Words separated by single spaces. */
  function Join(words: seq<seq<byte>>): seq<byte> {
    if words == [] then []
    else if |words| == 1 then words[0]
    else words[0] + [SPACE] + Join(words[1..])
  }

  // -------------------------------------------------------------------------------- the scan

  function Spaces(s: seq<byte>): (n: nat)
    ensures n <= |s| && (n < |s| ==> s[n] != SPACE)
    ensures forall k :: 0 <= k < n ==> s[k] == SPACE
  {
    if s != [] && s[0] == SPACE then 1 + Spaces(s[1..]) else 0
  }

  function WordLength(s: seq<byte>): (n: nat)
    ensures n <= |s| && (n < |s| ==> IsSeparator(s[n]))
    ensures forall k :: 0 <= k < n ==> !IsSeparator(s[k])
  {
    if s == [] || IsSeparator(s[0]) then 0 else 1 + WordLength(s[1..])
  }

  /** What lies beyond the separator at index `n`, if there is one. */
  function Beyond(s: seq<byte>, n: nat): seq<byte> {
    if n < |s| then s[n + 1..] else []
  }

  /** The arguments the scan finds: a newline where an argument could start ends them, a newline
      right after an argument only separates. */
  function Args(s: seq<byte>): seq<seq<byte>>
    decreases |s|
  {
    if s == [] || s[0] == NEWLINE then []
    else if s[0] == SPACE then Args(s[1..])
    else [s[..WordLength(s)]] + Args(Beyond(s, WordLength(s)))
  }

  /** The whole vector: "./" and the first word, then the arguments. */
  function Argv(command: seq<byte>): seq<seq<byte>> {
    var n := WordLength(command);
    [PREFIX + command[..n]] + Args(Beyond(command, n))
  }

  // ------------------------------------------------------------------- the scan against words

  lemma {:induction false} FirstWord(w: seq<byte>, rest: seq<byte>)
    requires IsWord(w) && (rest != [] ==> IsSeparator(rest[0]))
    ensures WordLength(w + rest) == |w|
    ensures Words(w + rest) == [w] + Words(Beyond(rest, 0))
  {
    var s := w + rest;
    assert s[1..] == w[1..] + rest && s[0] == w[0];
    if |w| == 1 {
      assert s[1..] == rest && w == [s[0]];
      assert Words(s) == [w] + Words(rest);
      assert rest != [] ==> Words(rest) == Words(rest[1..]);
    } else {
      FirstWord(w[1..], rest);
      assert s[1] == w[1] && w == [w[0]] + w[1..];
      var others := Words(Beyond(rest, 0));
      assert ([w[1..]] + others)[0] == w[1..] && ([w[1..]] + others)[1..] == others;
    }
  }

  lemma {:induction false} SkipSpaces(s: seq<byte>)
    ensures Args(s) == Args(s[Spaces(s)..])
  {
    if s != [] && s[0] == SPACE {
      SkipSpaces(s[1..]);
      assert s[Spaces(s)..] == s[1..][Spaces(s[1..])..];
    } else {
      assert s[0..] == s;
    }
  }

  /** A newline where an argument could start: at the front, or right after a separator. */
  ghost predicate IsStop(s: seq<byte>, k: nat)
    requires k < |s|
  {
    s[k] == NEWLINE && (k == 0 || IsSeparator(s[k - 1]))
  }

  /** The first such newline, or the end of the text. */
  ghost predicate StopsAt(s: seq<byte>, p: nat) {
    && p <= |s| && (p < |s| ==> IsStop(s, p))
    && forall k :: 0 <= k < p ==> !IsStop(s, k)
  }

  /** The three cases of the scan. */
  lemma ArgsStep(s: seq<byte>)
    ensures s == [] || s[0] == NEWLINE ==> Args(s) == []
    ensures s != [] && s[0] == SPACE ==> Args(s) == Args(s[1..])
    ensures s != [] && !IsSeparator(s[0]) ==>
              var n := WordLength(s); IsWord(s[..n]) && Args(s) == [s[..n]] + Args(Beyond(s, n))
  {
  }

  lemma WordsStep(c: byte, s: seq<byte>)
    ensures IsSeparator(c) ==> Words([c] + s) == Words(s)
    ensures !IsSeparator(c) && (s == [] || IsSeparator(s[0])) ==> Words([c] + s) == [[c]] + Words(s)
    ensures !IsSeparator(c) && s != [] && !IsSeparator(s[0]) ==>
              Words(s) != [] && Words([c] + s) == [[c] + Words(s)[0]] + Words(s)[1..]
  {
    assert ([c] + s)[1..] == s;
  }

  /** The scan finds exactly the words before the first stopping newline. */
  lemma {:induction false} ArgsAreWords(s: seq<byte>, p: nat)
    requires StopsAt(s, p)
    ensures Args(s) == Words(s[..p])
    decreases |s|
  {
    ArgsStep(s);
    assert s == [] || s[0] == NEWLINE ==> p == 0 && Words(s[..p]) == [] by {
      assert s != [] && s[0] == NEWLINE ==> IsStop(s, 0);
    }
    hide Args, Words;
    if s == [] || s[0] == NEWLINE {
    } else if s[0] == SPACE {
      StopBeyond(s, p, 0);
      assert s[..p] == [SPACE] + s[1..][..p - 1];
      WordsStep(SPACE, s[1..][..p - 1]);
      ArgsAreWords(s[1..], p - 1);
    } else {
      ArgsFromWord(s, p, WordLength(s));
    }
  }

  lemma {:induction false} ArgsFromWord(s: seq<byte>, p: nat, n: nat)
    requires StopsAt(s, p) && s != [] && !IsSeparator(s[0]) && n == WordLength(s)
    ensures Args(s) == Words(s[..p])
    decreases |s|, 0
  {
    ArgsStep(s);
    hide Args, Words, StopsAt;
    StopBeyond(s, p, n);
    var w, u, rest := s[..n], Beyond(s, n), s[n..p];
    var q := if n < |s| then p - n - 1 else 0;
    assert StopsAt(u, q) by {
      EmptyStop();
    }
    ArgsAreWords(u, q);
    hide IsWord, WordLength;
    assert s[..p] == w + rest;
    FirstWord(w, rest);
    if n < |s| {
      SliceTail(s, n, p);
    }
  }

  lemma SliceTail(s: seq<byte>, n: nat, p: nat)
    requires n < p <= |s|
    ensures s[n..p][1..] == s[n + 1..][..p - n - 1]
  {
  }

  lemma EmptyStop()
    ensures StopsAt([], 0)
  {
  }

  /** The stop seen from beyond the separator at index `n`. */
  lemma StopBeyond(s: seq<byte>, p: nat, n: nat)
    requires StopsAt(s, p) && n <= |s| && forall k :: 0 <= k < n ==> !IsSeparator(s[k])
    requires n < |s| ==> IsSeparator(s[n]) && !IsStop(s, n)
    ensures n <= p <= |s|
    ensures n < |s| ==> n < p && StopsAt(s[n + 1..], p - n - 1)
  {
    if n < |s| {
      var u := s[n + 1..];
      forall k | 0 <= k < |u|
        ensures IsStop(u, k) <==> IsStop(s, n + 1 + k)
      {
        assert k > 0 ==> u[k - 1] == s[n + k];
      }
    }
  }

  ghost predicate OnlySeparators(s: seq<byte>) {
    forall k :: 0 <= k < |s| ==> IsSeparator(s[k])
  }

  lemma {:induction false} NoWordsIff(s: seq<byte>)
    ensures Words(s) == [] <==> OnlySeparators(s)
  {
    if s != [] && IsSeparator(s[0]) {
      NoWordsIff(s[1..]);
      assert forall k :: 0 < k < |s| ==> s[k] == s[1..][k - 1];
    }
  }

  lemma HeadOfConcat<T>(a: seq<T>, b: seq<T>)
    ensures a != [] ==> (a + b)[0] == a[0] && (a + b)[1..] == a[1..] + b
  {
    if a != [] {
      assert (a + b)[1..] == a[1..] + b;
    }
  }

  lemma {:induction false} WordsConcat(a: seq<byte>, b: seq<byte>)
    requires b != [] ==> IsSeparator(b[0])
    ensures Words(a + b) == Words(a) + Words(b)
  {
    if a == [] {
      assert a + b == b;
    } else {
      hide Words;
      var c, t := a[0], a[1..];
      assert a == [c] + t && a + b == [c] + (t + b);
      WordsConcat(t, b);
      WordsStep(c, t);
      WordsStep(c, t + b);
      if t == [] {
        assert t + b == b;
      } else {
        assert (t + b)[0] == t[0];
        HeadOfConcat(Words(t), Words(b));
      }
    }
  }

  /** No argument is lost exactly when only separators follow the first stopping newline. */
  lemma AllWordsFoundIff(s: seq<byte>, p: nat)
    requires StopsAt(s, p)
    ensures Args(s) == Words(s) <==> OnlySeparators(s[p..])
  {
    hide Args, Words;
    ArgsAreWords(s, p);
    assert s == s[..p] + s[p..];
    WordsConcat(s[..p], s[p..]);
    NoWordsIff(s[p..]);
    assert Words(s) == Words(s[..p]) <==> Words(s[p..]) == [] by {
      assert |Words(s)| == |Words(s[..p])| + |Words(s[p..])|;
    }
  }

  /** A text that loses one: "a", two newlines, "b". */
  lemma WordsLost()
    ensures var s := [97, NEWLINE, NEWLINE, 98]; Args(s) == [[97]] && Words(s) == [[97], [98]]
  {
    var s: seq<byte> := [97, NEWLINE, NEWLINE, 98];
    assert IsStop(s, 2) && StopsAt(s, 2) && s[..2] == [97] + [NEWLINE];
    ArgsAreWords(s, 2);
    FirstWord([97], [NEWLINE]);
    FirstWord([98], []);
    FirstWord([97], [NEWLINE, NEWLINE, 98]);
    assert [97] + [NEWLINE, NEWLINE, 98] == s && [98] + [] == [98];
    assert Beyond([NEWLINE], 0) == [] && Beyond([NEWLINE, NEWLINE, 98], 0) == [NEWLINE] + [98];
    WordsStep(NEWLINE, [98]);
  }

  // ---------------------------------------------------------------------- splitting and joining

  lemma ArgsOfWord(w: seq<byte>, rest: seq<byte>)
    requires IsWord(w) && (rest != [] ==> IsSeparator(rest[0]))
    ensures Args(w + rest) == [w] + Args(Beyond(rest, 0))
  {
    FirstWord(w, rest);
    assert (w + rest)[0] == w[0] && (w + rest)[..|w|] == w;
    assert Beyond(w + rest, |w|) == Beyond(rest, 0);
  }

  /** Splitting a joined list of words gives the list back. */
  lemma {:induction false} JoinThenSplit(words: seq<seq<byte>>)
    requires AreWords(words)
    ensures Args(Join(words)) == words
  {
    if words != [] {
      var w, others := words[0], words[1..];
      var rest := if others == [] then [] else [SPACE] + Join(others);
      assert IsWord(w);
      assert Join(words) == w + rest;
      JoinThenSplit(others);
      ArgsOfWord(w, rest);
      assert Beyond(rest, 0) == Join(others);
      assert words == [w] + others;
    }
  }

  /** A program started with a joined list of words finds the list behind its own name. */
  lemma CommandOfWords(program: seq<byte>, words: seq<seq<byte>>)
    requires AreWords([program] + words)
    ensures Argv(Join([program] + words)) == [PREFIX + program] + words
  {
    var all := [program] + words;
    assert IsWord(all[0]) && all[1..] == words;
    assert forall k :: 0 <= k < |words| ==> words[k] == all[k + 1];
    JoinThenSplit(words);
    var rest := if words == [] then [] else [SPACE] + Join(words);
    assert Join(all) == program + rest && (words == [] ==> Join(words) == []);
    hide Args, Words, Join;
    FirstWord(program, rest);
    assert (program + rest)[..|program|] == program;
    assert Beyond(program + rest, |program|) == Join(words);
  }

  /** What the scan finds are words without NUL, and joined they are no longer than the text
      they came from. */
  lemma {:induction false} ArgsFit(s: seq<byte>)
    requires NUL !in s
    ensures AreWords(Args(s)) && forall k :: 0 <= k < |Args(s)| ==> NUL !in Args(s)[k]
    ensures |Join(Args(s))| <= |s| && 2 * |Args(s)| <= |s| + 1
    decreases |s|
  {
    if s == [] || s[0] == NEWLINE {
    } else if s[0] == SPACE {
      ArgsFit(s[1..]);
    } else {
      var n := WordLength(s);
      ArgsFit(Beyond(s, n));
      assert IsWord(s[..n]);
    }
  }

  /** Of any command that is not too long, 1024 bytes hold the joined arguments: the words before
      the first stopping newline, single-spaced.  Split again they are the same arguments. */
  lemma SplitThenJoin(command: seq<byte>, p: nat)
    requires NUL !in command && |command| <= COMMAND_MAX
    requires StopsAt(Beyond(command, WordLength(command)), p)
    ensures var args := Argv(command)[1..];
            && args == Words(Beyond(command, WordLength(command))[..p])
            && |Join(args)| < ARGS_MAX && Args(Join(args)) == args
  {
    var s := Beyond(command, WordLength(command));
    assert Argv(command)[1..] == Args(s);
    hide Args, Words, Join;
    ArgsAreWords(s, p);
    ArgsFit(s);
    JoinThenSplit(Args(s));
  }

  // -------------------------------------------------------------------------------- the loops

  lemma Rest(buf: seq<byte>, at: nat, s: seq<byte>, n: nat)
    requires Holds(buf, at, s) && n <= |s|
    ensures Holds(buf, at + n, s[n..])
  {
  }

  /** The loop that passes over spaces. */
  method FindArgument(buf: array<byte>, scan: nat, ghost s: seq<byte>) returns (at: nat)
    requires Holds(buf[..], scan, s)
    ensures at == scan + Spaces(s) && Holds(buf[..], at, s[Spaces(s)..])
  {
    at := scan;
    while buf[at] == SPACE
      invariant scan <= at <= scan + Spaces(s)
      decreases scan + Spaces(s) - at
    {
      at := at + 1;
    }
    Rest(buf[..], scan, s, Spaces(s));
  }

  /** The loop to the end of a word. */
  method FindEnd(buf: array<byte>, scan: nat, ghost s: seq<byte>) returns (end: nat)
    requires Holds(buf[..], scan, s) && NUL !in s
    ensures end == scan + WordLength(s)
  {
    end := scan;
    while buf[end] != NUL && buf[end] != SPACE && buf[end] != NEWLINE
      invariant scan <= end <= scan + WordLength(s)
      decreases scan + WordLength(s) - end
    {
      end := end + 1;
    }
  }

  /** Cut a word off: a separator after it becomes its terminator.  The new scan position is
      behind the separator, or at the terminator of the whole command. */
  method CutWord(buf: array<byte>, scan: nat, ghost s: seq<byte>) returns (next: nat, more: bool)
    requires Holds(buf[..], scan, s) && NUL !in s
    modifies buf
    ensures var n := WordLength(s);
            && Holds(buf[..], scan, s[..n]) && Holds(buf[..], next, Beyond(s, n)) && NUL !in Beyond(s, n)
            && scan + n <= next && (more <==> n < |s|)
    ensures forall k :: 0 <= k < scan ==> buf[k] == old(buf[k])
  {
    next := FindEnd(buf, scan, s);
    more := buf[next] != NUL;
    if more {
      buf[next] := NUL;
      next := next + 1;
    }
  }

  /** One round of the argument loop: a start and the position to go on from, or none. */
  method NextArgument(buf: array<byte>, scan: nat, ghost s: seq<byte>)
      returns (start: Option<nat>, next: nat, ghost rest: seq<byte>)
    requires Holds(buf[..], scan, s) && NUL !in s
    modifies buf
    ensures start.None? <==> Args(s) == []
    ensures start.Some? ==> && scan <= start.value && Holds(buf[..], start.value, Args(s)[0])
                            && start.value + |Args(s)[0]| <= next && |rest| < |s|
                            && Args(s)[1..] == Args(rest) && Holds(buf[..], next, rest) && NUL !in rest
    ensures forall k :: 0 <= k < scan || (k == scan < buf.Length && old(buf[k]) == NUL) ==> buf[k] == old(buf[k])
  {
    SkipSpaces(s);
    ghost var t := s[Spaces(s)..];
    next := FindArgument(buf, scan, s);
    rest := [];
    if buf[next] == NUL || buf[next] == NEWLINE {
      buf[next] := NUL;
      return None, next, rest;
    }
    start := Some(next);
    var end, _ := CutWord(buf, next, t);
    next := end;
    rest := Beyond(t, WordLength(t));
  }

  /** The first strings of the vector are in place, all of them before the scan position. */
  ghost predicate Placed(buf: seq<byte>, args: seq<Option<nat>>, found: seq<seq<byte>>, scan: nat) {
    && |found| <= |args|
    && forall k {:trigger found[k]} :: 0 <= k < |found| ==>
         args[k].Some? && Holds(buf, args[k].value, found[k]) && args[k].value + |found[k]| <= scan
  }

  /** Changes behind the scan position, the terminator under it excepted, leave them in place. */
  lemma StaysPlaced(before: seq<byte>, after: seq<byte>, args: seq<Option<nat>>, found: seq<seq<byte>>,
                    scan: nat, next: nat)
    requires Placed(before, args, found, scan) && scan <= next && scan <= |before| == |after|
    requires forall k :: 0 <= k < scan || (k == scan < |before| && before[k] == NUL) ==> after[k] == before[k]
    ensures Placed(after, args, found, next)
  {
  }

  lemma OneMorePlaced(buf: seq<byte>, args: seq<Option<nat>>, found: seq<seq<byte>>, w: seq<byte>,
                      start: nat, scan: nat, next: nat)
    requires Placed(buf, args, found, scan) && |found| < |args| && scan <= next
    requires Holds(buf, start, w) && start + |w| <= next
    ensures Placed(buf, args[|found| := Some(start)], found + [w], next)
  {
    var all, pointers := found + [w], args[|found| := Some(start)];
    forall k | 0 <= k < |all|
      ensures pointers[k].Some? && Holds(buf, pointers[k].value, all[k]) && pointers[k].value + |all[k]| <= next
    {
      if k < |found| {
        assert all[k] == found[k] && pointers[k] == args[k];
      }
    }
  }

  /** The argument vector of ece391_execute: pointers into `buf`, a null pointer behind the last
      one, and their number; or nothing for a command that is too long. */
  method SplitCommand(command: seq<byte>, buf: array<byte>, args: array<Option<nat>>) returns (argc: Option<nat>)
    requires NUL in command && buf.Length == BUFFER_SIZE && args.Length == ARGS_MAX
    modifies buf, args
    ensures argc.None? <==> |Text(command)| > 1023
    ensures argc.Some? ==> var argv := Argv(Text(command));
                           && argc.value == |argv| < ARGS_MAX && args[argc.value].None?
                           && forall k :: 0 <= k < |argv| ==> args[k].Some? && Holds(buf[..], args[k].value, argv[k])
  {
    ghost var text := Text(command);
    var length := Strlen(command);
    if length > 1023 {
      return None;
    }
    buf[0] := 46;
    buf[1] := 47;
    Strcpy(buf, 2, command);
    var nArgs := SplitCopy(buf, args, text);
    hide Argv;
    ghost var argv, pointers := Argv(text), args[..];
    args[nArgs] := None;
    forall k | 0 <= k < |argv|
      ensures args[k].Some? && Holds(buf[..], args[k].value, argv[k])
    {
      assert argv[k] == argv[k] && args[k] == pointers[k] && args[k].Some?;
    }
    argc := Some(nArgs);
  }

  /** The part after the copy: "./", the command and its terminator are in the buffer. */
  method SplitCopy(buf: array<byte>, args: array<Option<nat>>, ghost text: seq<byte>) returns (nArgs: nat)
    requires |text| <= COMMAND_MAX && NUL !in text && buf.Length == BUFFER_SIZE && args.Length == ARGS_MAX
    requires Holds(buf[..], 0, PREFIX + text)
    modifies buf, args
    ensures nArgs == |Argv(text)| < ARGS_MAX && Placed(buf[..], args[..], Argv(text), buf.Length)
  {
    hide Args, Text;
    ghost var n := WordLength(text);
    ghost var rest := Beyond(text, n);
    ghost var program := PREFIX + text[..n];
    Rest(buf[..], 0, PREFIX + text, 2);
    assert (PREFIX + text)[2..] == text;
    ArgsFit(rest);
    assert Argv(text) == [program] + Args(rest);
    NoArgs();
    hide Argv;
    var scan, more := CutWord(buf, 2, text);
    args[0] := Some(0);
    nArgs := 1;
    assert Holds(buf[..], 0, program);
    if more {
      nArgs := GatherArguments(buf, args, scan, program, rest);
    }
  }

  lemma NoArgs()
    ensures Args([]) == []
  {
  }

  /** The argument loop, entered behind the first word. */
  method GatherArguments(buf: array<byte>, args: array<Option<nat>>, start: nat, ghost program: seq<byte>,
                         ghost text: seq<byte>)
      returns (nArgs: nat)
    requires 1 + |Args(text)| < args.Length
    requires Holds(buf[..], start, text) && NUL !in text
    requires args[0] == Some(0) && Holds(buf[..], 0, program) && |program| <= start
    modifies buf, args
    ensures nArgs == 1 + |Args(text)| && Placed(buf[..], args[..], [program] + Args(text), buf.Length)
  {
    hide Args;
    ghost var argv, found, rest := [program] + Args(text), [program], text;
    var scan, more := start, true;
    nArgs := 1;
    while more
      invariant nArgs == |found| && |found| <= |argv|
      invariant 0 <= scan <= buf.Length && Placed(buf[..], args[..], found, scan)
      invariant if more then argv == found + Args(rest) && NUL !in rest && Holds(buf[..], scan, rest) else argv == found
      decreases more, |rest|
    {
      ghost var bytes, pointers := buf[..], args[..];
      ghost var others := Args(rest);
      var first: Option<nat>, next: nat;
      first, next, rest := NextArgument(buf, scan, rest);
      hide Holds, Placed;
      StaysPlaced(bytes, buf[..], pointers, found, scan, if first.None? then scan else next);
      if first.None? {
        more := false;
      } else {
        OneMorePlaced(buf[..], pointers, found, others[0], first.value, next, next);
        args[nArgs] := first;
        assert args[..] == pointers[nArgs := first];
        assert found + others == (found + [others[0]]) + others[1..];
        found := found + [others[0]];
        nArgs := nArgs + 1;
        scan := next;
      }
    }
    StaysPlaced(buf[..], buf[..], args[..], found, scan, buf.Length);
  }

  // --------------------------------------------------------------------------------- getargs

  /** The texts of an argument vector, without the program name. */
  function TextsOf(argv: seq<seq<byte>>): seq<seq<byte>> {
    seq(|argv|, i requires 0 <= i < |argv| => Text(argv[i]))
  }

  /** The texts behind the program name. */
  function Texts(argv: seq<seq<byte>>): seq<seq<byte>>
    requires argv != []
  {
    TextsOf(argv[1..])
  }

  lemma TextAt(argv: seq<seq<byte>>, idx: nat)
    requires 1 <= idx < |argv|
    ensures idx - 1 < |Texts(argv)| && Texts(argv)[idx - 1] == Text(argv[idx])
  {
  }

  lemma {:induction false} JoinOneMore(words: seq<seq<byte>>, w: seq<byte>)
    requires words != []
    ensures Join(words + [w]) == Join(words) + [SPACE] + w
  {
    assert (words + [w])[1..] == words[1..] + [w];
    if |words| == 1 {
      assert words[1..] == [];
      assert Join([w]) == w;
    } else {
      JoinOneMore(words[1..], w);
    }
  }

  /** The output before argument `j` is copied: the arguments before it, each with its space. */
  function Before(words: seq<seq<byte>>, j: nat): seq<byte>
    requires j <= |words|
  {
    if j == 0 then [] else Join(words[..j]) + (if j < |words| then [SPACE] else [])
  }

  lemma BeforeNext(words: seq<seq<byte>>, j: nat)
    requires j < |words|
    ensures Before(words, j + 1) == Before(words, j) + words[j] + (if j + 1 < |words| then [SPACE] else [])
    ensures Before(words, |words|) == Join(words)
  {
    JoinPrefix(words, j);
    assert words[..|words|] == words;
    hide Join;
    assert [] + words[j] == words[j];
  }

  lemma JoinPrefix(words: seq<seq<byte>>, j: nat)
    requires j < |words|
    ensures Join(words[..j + 1]) == if j == 0 then words[j] else Join(words[..j]) + [SPACE] + words[j]
  {
    var done := words[..j];
    assert words[..j + 1] == done + [words[j]];
    if j > 0 {
      JoinOneMore(done, words[j]);
    } else {
      assert done + [words[j]] == [words[j]];
    }
  }

  lemma {:induction false} BeforeGrows(words: seq<seq<byte>>, j: nat)
    requires j <= |words|
    ensures |Before(words, j)| <= |Join(words)|
    decreases |words| - j
  {
    if j < |words| {
      BeforeNext(words, j);
      BeforeGrows(words, j + 1);
    } else {
      assert words[..j] == words;
    }
  }

  /** Copy an argument behind what was written so far. */
  method CopyArgument(buf: array<byte>, at: nat, src: seq<byte>, ghost done: seq<byte>)
    requires NUL in src && at == |done| && at + |Text(src)| < buf.Length && buf[..at] == done
    modifies buf
    ensures Holds(buf[..], 0, done + Text(src))
    ensures forall k :: at + |Text(src)| < k < buf.Length ==> buf[k] == old(buf[k])
  {
    hide Text;
    Strcpy(buf, at, src);
    assert forall k :: 0 <= k < at ==> buf[k] == old(buf[..at])[k];
  }

  /** Put a space in the place of the terminator. */
  method AddSpace(buf: array<byte>, at: nat, ghost done: seq<byte>)
    requires Holds(buf[..], 0, done) && at == |done|
    modifies buf
    ensures buf[..at + 1] == done + [SPACE]
    ensures forall k :: at < k < buf.Length ==> buf[k] == old(buf[k])
  {
    buf[at] := SPACE;
  }

  /** What one round of the join leaves at and behind `n`: a terminator where its argument ends
      exactly there. */
  ghost predicate PutBehind(before: seq<byte>, now: seq<byte>, done: seq<byte>, w: seq<byte>, n: int) {
    && |before| == |now|
    && (forall k :: Max(0, if |done| + |w| == n then n + 1 else n) <= k < |now| ==> now[k] == before[k])
    && (|done| + |w| == n ==> 0 <= n < |now| && now[n] == NUL)
  }

  /** One round of the join: the argument, and a space unless it is the last. */
  method PutArgument(buf: array<byte>, at: nat, left: int, src: seq<byte>, last: bool, ghost done: seq<byte>)
      returns (ok: bool, next: nat)
    requires NUL in src && at == |done| <= buf.Length && buf[..at] == done && at + left <= buf.Length
    requires (left < 0 ==> at == 0) && (|Text(src)| == left ==> at + left < buf.Length)
    modifies buf
    ensures ok <==> |Text(src)| + (if last then 0 else 1) <= left
    ensures ok ==> var now := done + Text(src) + (if last then [] else [SPACE]);
                   next == |now| <= buf.Length && buf[..next] == now
    ensures PutBehind(old(buf[..]), buf[..], done, Text(src), at + left)
  {
    hide Text;
    ghost var w := Text(src);
    var len := Strlen(src);
    next := at + len;
    if len > left {
      return false, next;
    }
    CopyArgument(buf, at, src, done);
    if last {
      assert buf[..next] == done + w == done + w + [];
      return true, next;
    }
    if left - len < 1 {
      return false, next;
    }
    AddSpace(buf, next, done + w);
    ok, next := true, next + 1;
  }

  /** Argument `j` ends exactly where `n` bytes do. */
  ghost predicate FillsAt(words: seq<seq<byte>>, n: int, j: nat)
    requires j < |words|
  {
    |Before(words, j)| + |words[j]| == n
  }

  ghost predicate Fills(words: seq<seq<byte>>, n: int) {
    exists j: nat :: j < |words| && FillsAt(words, n, j)
  }

  /** Behind an argument that reaches further no later one ends there. */
  lemma {:induction false} NoLaterFills(words: seq<seq<byte>>, n: int, i: nat, j: nat)
    requires i <= j < |words| && |Before(words, i)| + |words[i]| > n
    ensures |Before(words, j)| + |words[j]| > n
    decreases j
  {
    hide Before, Join;
    if i < j {
      NoLaterFills(words, n, i, j - 1);
      BeforeNext(words, j - 1);
    }
  }

  lemma NoFillFrom(words: seq<seq<byte>>, n: int, i: nat)
    requires i < |words| && |Before(words, i)| + |words[i]| > n
    requires forall j: nat :: j < i ==> !FillsAt(words, n, j)
    ensures !Fills(words, n)
  {
    forall j: nat | j < |words|
      ensures !FillsAt(words, n, j)
    {
      if i <= j {
        NoLaterFills(words, n, i, j);
      }
    }
  }

  lemma LastFills(words: seq<seq<byte>>, n: int, i: nat)
    requires i < |words| && |Before(words, i)| + |words[i]| == n
    ensures Fills(words, n)
  {
    assert FillsAt(words, n, i);
  }

  /** An input for it: the argument "a" and a count of 1. */
  lemma FilledExample()
    ensures Fills([[97]], 1)
  {
    LastFills([[97]], 1, 0);
  }

  /** Up to where the join may write: behind `n` bytes only if an argument ends where they do. */
  ghost function Limit(words: seq<seq<byte>>, n: int): nat {
    Max(0, if Fills(words, n) then n + 1 else n)
  }

  /** ece391_getargs: the arguments behind the program name joined by single spaces.  It fails
      exactly when they and their terminator do not fit into `nbytes`.  It writes behind `nbytes`
      bytes, one terminator, exactly when an argument ends where they do. */
  method GetArgs(argv: seq<seq<byte>>, buf: array<byte>, nbytes: int32) returns (r: int)
    requires forall k :: 0 <= k < |argv| ==> NUL in argv[k]
    requires argv != [] && Limit(Texts(argv), nbytes) <= buf.Length
    modifies buf
    ensures r == 0 || r == -1
    ensures r == 0 <==> |Join(Texts(argv))| < nbytes
    ensures r == 0 ==> Holds(buf[..], 0, Join(Texts(argv)))
    ensures forall k :: Limit(Texts(argv), nbytes) <= k < buf.Length ==> buf[k] == old(buf[k])
    ensures Fills(Texts(argv), nbytes) ==> 0 <= nbytes < buf.Length && buf[nbytes] == NUL
  {
    ghost var words := Texts(argv);
    BeforeIsJoin(words);
    NothingFilled(words, nbytes);
    hide Text, Join, Before, Holds, Texts, Fills, NoneFilled;
    ghost var was := buf[..];
    var ok, at := JoinArguments(argv, buf, nbytes);
    if !ok {
      return -1;
    }
    AllJoined(buf[..], was, words, nbytes);
    if nbytes - at < 1 {
      return -1;
    }
    Terminate(buf, at, Join(words));
    r := 0;
  }

  lemma AllJoined(buf: seq<byte>, was: seq<byte>, words: seq<seq<byte>>, n: int)
    requires Joined(buf, was, words, n, |words|)
    ensures Join(words) <= buf && |buf| == |was| && (forall k :: Limit(words, n) <= k < |buf| ==> buf[k] == was[k])
    ensures Fills(words, n) ==> |Join(words)| == n && 0 <= n < |buf| && buf[n] == NUL
    ensures Limit(words, n) >= Max(0, n)
  {
    BeforeIsJoin(words);
    NothingFilled(words, n);
  }

  /** The buffer before argument `i` is copied; `was` is what it held at first. */
  ghost predicate Joined(buf: seq<byte>, was: seq<byte>, words: seq<seq<byte>>, n: int, i: nat) {
    && i <= |words| && |buf| == |was| && Before(words, i) <= buf
    && (forall k :: Limit(words, n) <= k < |buf| ==> buf[k] == was[k])
    && (i > 0 ==> |Before(words, i)| <= n)
    && if i == |words| > 0 && |Before(words, i)| == n then Fills(words, n) && n < |buf| && buf[n] == NUL
       else NoneFilled(words, n, i)
  }

  lemma JoinedStarts(buf: seq<byte>, words: seq<seq<byte>>, n: int)
    ensures Joined(buf, buf, words, n, 0)
  {
  }

  /** The loop of ece391_getargs. */
  method JoinArguments(argv: seq<seq<byte>>, buf: array<byte>, nbytes: int32) returns (ok: bool, at: nat)
    requires forall k :: 0 <= k < |argv| ==> NUL in argv[k]
    requires argv != [] && Limit(Texts(argv), nbytes) <= buf.Length
    modifies buf
    ensures ok ==> at == |Join(Texts(argv))| && Joined(buf[..], old(buf[..]), Texts(argv), nbytes, |Texts(argv)|)
    ensures !ok ==> |Join(Texts(argv))| >= nbytes
    ensures !ok ==> forall k :: Limit(Texts(argv), nbytes) <= k < buf.Length ==> buf[k] == old(buf[k])
    ensures !ok && Fills(Texts(argv), nbytes) ==> 0 <= nbytes < buf.Length && buf[nbytes] == NUL
  {
    ghost var words, was := Texts(argv), buf[..];
    JoinedStarts(was, words, nbytes);
    BeforeIsJoin(words);
    TextsCount(argv);
    hide Text, Join, Before, Texts, Fills, Limit, Joined, PutBehind;
    var argc, idx, left := |argv|, 1, nbytes;
    at := 0;
    while idx < argc
      invariant 1 <= idx <= argc && at + left == nbytes && (1 < idx ==> left >= 0)
      invariant at == |Before(words, idx - 1)| && Joined(buf[..], was, words, nbytes, idx - 1)
    {
      RoundFacts(argv, words, nbytes, idx, buf[..], was);
      ghost var before := buf[..];
      var last := idx + 1 >= argc;
      var put, next := PutArgument(buf, at, left, argv[idx], last, Before(words, idx - 1));
      if !put {
        RoundFails(argv, words, nbytes, idx, was, before, buf[..]);
        return false, at;
      }
      RoundDone(argv, words, nbytes, idx, was, before, buf[..]);
      left := left - (next - at);
      at := next;
      idx := idx + 1;
    }
    ok := true;
  }

  lemma RoundFails(argv: seq<seq<byte>>, words: seq<seq<byte>>, n: int, idx: nat,
                   was: seq<byte>, before: seq<byte>, now: seq<byte>)
    requires 1 <= idx < |argv| && words == Texts(argv) && Joined(before, was, words, n, idx - 1)
    requires PutBehind(before, now, Before(words, idx - 1), Text(argv[idx]), n)
    requires |Before(words, idx)| > n
    ensures |Join(words)| >= n && |now| == |was|
    ensures forall k :: Limit(words, n) <= k < |now| ==> now[k] == was[k]
    ensures Fills(words, n) ==> 0 <= n < |now| && now[n] == NUL
  {
    RoundFacts(argv, words, n, idx, before, was);
    hide Text, Join, Before, Texts, Fills, NoneFilled;
  }

  lemma RoundDone(argv: seq<seq<byte>>, words: seq<seq<byte>>, n: int, idx: nat,
                  was: seq<byte>, before: seq<byte>, now: seq<byte>)
    requires 1 <= idx < |argv| && words == Texts(argv) && Joined(before, was, words, n, idx - 1)
    requires PutBehind(before, now, Before(words, idx - 1), Text(argv[idx]), n)
    requires |Before(words, idx)| <= n && Before(words, idx) <= now
    ensures Joined(now, was, words, n, idx)
  {
    RoundFacts(argv, words, n, idx, before, was);
    hide Text, Join, Before, Texts, Fills, NoneFilled;
  }

  /** What one round adds, and whether its argument ends where `n` bytes do. */
  lemma RoundFacts(argv: seq<seq<byte>>, words: seq<seq<byte>>, n: int, idx: nat, buf: seq<byte>, was: seq<byte>)
    requires 1 <= idx < |argv| && words == Texts(argv) && Joined(buf, was, words, n, idx - 1)
    ensures |words| == |argv| - 1
    ensures var done, w := Before(words, idx - 1), Text(argv[idx]);
            && done <= buf && NoneFilled(words, n, idx - 1)
            && Before(words, idx) == done + w + (if idx + 1 >= |argv| then [] else [SPACE])
            && |Before(words, idx)| <= |Join(words)| && (idx + 1 == |argv| ==> Before(words, idx) == Join(words))
            && (|done| + |w| == n ==> Fills(words, n) && Limit(words, n) >= n + 1)
            && (|done| + |w| > n ==> !Fills(words, n))
            && (|done| + |w| < n ==> NoneFilled(words, n, idx))
            && Limit(words, n) >= Max(0, n)
  {
    assert NoneFilled(words, n, idx - 1) by {
      TextsCount(argv);
    }
    hide Text, Join, Before, Texts, Fills, NoneFilled;
    TextAt(argv, idx);
    TextsCount(argv);
    BeforeNext(words, idx - 1);
    BeforeGrows(words, idx);
    FillCases(words, n, idx - 1);
  }

  lemma TextsCount(argv: seq<seq<byte>>)
    requires argv != []
    ensures |Texts(argv)| == |argv| - 1
  {
  }

  ghost predicate NoneFilled(words: seq<seq<byte>>, n: int, i: nat) {
    i <= |words| && forall j: nat :: j < i ==> !FillsAt(words, n, j)
  }

  lemma NothingFilled(words: seq<seq<byte>>, n: int)
    ensures NoneFilled(words, n, 0) && (words == [] ==> !Fills(words, n))
    ensures NoneFilled(words, n, |words|) ==> !Fills(words, n)
  {
  }

  lemma FillCases(words: seq<seq<byte>>, n: int, i: nat)
    requires i < |words| && NoneFilled(words, n, i)
    ensures |Before(words, i)| + |words[i]| == n ==> Fills(words, n)
    ensures |Before(words, i)| + |words[i]| > n ==> !Fills(words, n)
    ensures |Before(words, i)| + |words[i]| < n ==> NoneFilled(words, n, i + 1)
    ensures i + 1 == |words| && |Before(words, i)| + |words[i]| < n ==> !Fills(words, n)
  {
    if |Before(words, i)| + |words[i]| == n {
      LastFills(words, n, i);
    } else if |Before(words, i)| + |words[i]| > n {
      NoFillFrom(words, n, i);
    }
  }

  /** The final write of the terminator. */
  method Terminate(buf: array<byte>, at: nat, ghost done: seq<byte>)
    requires at == |done| < buf.Length && buf[..at] == done
    modifies buf
    ensures Holds(buf[..], 0, done)
    ensures forall k :: at < k < buf.Length ==> buf[k] == old(buf[k])
  {
    buf[at] := NUL;
    assert forall k :: 0 <= k < at ==> buf[k] == old(buf[..])[k];
  }

  lemma BeforeIsJoin(words: seq<seq<byte>>)
    ensures Before(words, 0) == [] && Before(words, |words|) == Join(words)
  {
    assert words[..|words|] == words;
  }
}
