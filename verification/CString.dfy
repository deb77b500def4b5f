/** NUL-terminated strings and the comparison, copy and length loops over them. */
module CString {
  import opened Machine

  /** No terminator among the bytes of `s`: `s` is the value of a C string. */
  ghost predicate NoNul(s: seq<byte>) {
    NUL !in s
  }

  /** The value of the C string that starts at the first byte of `mem`, cut at the end of `mem`. */
  function Text(mem: seq<byte>): (s: seq<byte>)
    ensures NUL !in s && |s| <= |mem| && s == mem[..|s|]
    ensures |s| < |mem| ==> mem[|s|] == NUL
  {
    if mem == [] || mem[0] == NUL then [] else
    var rest := Text(mem[1..]);
    assert mem[..|rest| + 1] == [mem[0]] + mem[1..][..|rest|];
    [mem[0]] + rest
  }

  /** `Text` is the only NUL-free prefix that a terminator, or the end, follows. */
  lemma TextUnique(mem: seq<byte>, n: nat)
    requires n <= |mem| && NUL !in mem[..n]
    requires n < |mem| ==> mem[n] == NUL
    ensures Text(mem) == mem[..n]
  {
    var m := |Text(mem)|;
    assert m < |mem| ==> mem[m] == NUL;
    assert n <= m by {
      assert forall k :: 0 <= k < n ==> mem[..n][k] != NUL;
    }
    assert forall k :: 0 <= k < m ==> Text(mem)[k] != NUL;
  }

  lemma TextStops(mem: seq<byte>)
    requires NUL in mem
    ensures |Text(mem)| < |mem| && mem[|Text(mem)|] == NUL
    ensures forall k :: 0 <= k < |Text(mem)| ==> mem[k] == Text(mem)[k] != NUL
  {
    assert mem == Text(mem) + mem[|Text(mem)|..];
  }

  lemma TextOfString(s: seq<byte>, tail: seq<byte>)
    requires NoNul(s)
    requires tail != [] ==> tail[0] == NUL
    ensures Text(s + tail) == s
  {
    assert (s + tail)[..|s|] == s;
    TextUnique(s + tail, |s|);
  }

  function Take(s: seq<byte>, n: nat): seq<byte> {
    s[..Min(n, |s|)]
  }

  /** A loop that compares `mem` byte by byte and stops at NUL or after `n` bytes stays inside `mem`. */
  ghost predicate Readable(mem: seq<byte>, n: nat) {
    n <= |mem| || NUL in mem
  }

  /** The first position where two texts differ. */
  ghost predicate DiffersAt(a: seq<byte>, b: seq<byte>, n: nat, k: nat) {
    k < n && k < |a| && k < |b| && a[..k] == b[..k] && NUL !in a[..k] && a[k] != b[k]
  }

  /** A comparison result: zero, or the difference of the characters, as unsigned or signed ones,
      at the first position where the texts differ. */
  ghost predicate IsComparison(a: seq<byte>, b: seq<byte>, n: nat, signed: bool, diff: int) {
    if Take(Text(a), n) == Take(Text(b), n) then
      diff == 0
    else
      exists k: nat :: DiffersAt(a, b, n, k)
                       && diff == if signed then Signed(a[k]) - Signed(b[k]) else a[k] as int - b[k] as int
  }

  lemma EqualPrefix(a: seq<byte>, b: seq<byte>, i: nat, n: nat)
    requires i <= |a| && i <= |b| && i <= n && a[..i] == b[..i] && NUL !in a[..i]
    requires i == n || (i < |a| && i < |b| && a[i] == b[i] == NUL)
    ensures Take(Text(a), n) == Take(Text(b), n)
  {
    AtLeast(a, i);
    AtLeast(b, i);
    if i < n {
      TextUnique(a, i);
      TextUnique(b, i);
    }
    assert Take(Text(a), i) == a[..i] && Take(Text(b), i) == b[..i];
  }

  lemma AtLeast(a: seq<byte>, i: nat)
    requires i <= |a| && NUL !in a[..i]
    ensures i <= |Text(a)| && Text(a)[..i] == a[..i]
  {
    assert forall k :: 0 <= k < i ==> a[..i][k] != NUL;
  }

  lemma DifferentPrefix(a: seq<byte>, b: seq<byte>, i: nat, n: nat)
    requires i < |a| && i < |b| && i < n && a[..i] == b[..i] && NUL !in a[..i] && a[i] != b[i]
    ensures Take(Text(a), n) != Take(Text(b), n)
  {
    hide Text;
    AtLeast(a, i);
    AtLeast(b, i);
    if a[i] != NUL {
      assert a[..i + 1] == a[..i] + [a[i]];
      AtLeast(a, i + 1);
      assert Take(Text(a), n)[i] == Text(a)[..i + 1][i] == a[i];
    } else {
      assert b[..i + 1] == b[..i] + [b[i]];
      AtLeast(b, i + 1);
      assert Take(Text(b), n)[i] == Text(b)[..i + 1][i] == b[i];
    }
    assert i < |Take(Text(a), n)| ==> Take(Text(a), n)[i] == a[i];
    assert i < |Take(Text(b), n)| ==> Take(Text(b), n)[i] == b[i];
  }

  lemma NotAtEnd(s: seq<byte>, i: nat, n: nat)
    requires Readable(s, n) && i <= |s| && i < n && NUL !in s[..i]
    ensures i < |s|
  {
    assert s == s[..i] + s[i..];
  }

  /** The user library's comparison loop (ece391_strncmp). */
  method StrncmpUser(s1: seq<byte>, s2: seq<byte>, n: nat) returns (diff: int)
    requires Readable(s1, n) && Readable(s2, n)
    ensures IsComparison(s1, s2, n, false, diff)
    ensures diff == 0 <==> Take(Text(s1), n) == Take(Text(s2), n)
  {
    if n == 0 {
      return 0;
    }
    var i, left := 0, n;
    assert s1 != [] && s2 != [];
    while s1[i] == s2[i]
      invariant 0 <= i < n && left == n - i && i < |s1| && i < |s2|
      invariant s1[..i] == s2[..i] && NUL !in s1[..i]
      decreases n - i
    {
      assert s1[..i + 1] == s1[..i] + [s1[i]] && s2[..i + 1] == s2[..i] + [s2[i]];
      if s1[i] == NUL {
        EqualPrefix(s1, s2, i, n);
        return 0;
      }
      left := left - 1;
      if left == 0 {
        EqualPrefix(s1, s2, n, n);
        return 0;
      }
      i := i + 1;
      NotAtEnd(s1, i, n);
      NotAtEnd(s2, i, n);
    }
    DifferentPrefix(s1, s2, i, n);
    assert DiffersAt(s1, s2, n, i);
    diff := s1[i] as int - s2[i] as int;
  }

  /** The kernel's comparison loop (strncmp), which compares signed characters. */
  method StrncmpKernel(s1: seq<byte>, s2: seq<byte>, n: nat) returns (diff: int)
    requires Readable(s1, n) && Readable(s2, n)
    ensures IsComparison(s1, s2, n, true, diff)
    ensures diff == 0 <==> Take(Text(s1), n) == Take(Text(s2), n)
  {
    var i := 0;
    while i < n
      invariant 0 <= i <= n && i <= |s1| && i <= |s2|
      invariant s1[..i] == s2[..i] && NUL !in s1[..i]
    {
      NotAtEnd(s1, i, n);
      NotAtEnd(s2, i, n);
      assert s1[..i + 1] == s1[..i] + [s1[i]] && s2[..i + 1] == s2[..i] + [s2[i]];
      if s1[i] != s2[i] || s1[i] == NUL {
        if s1[i] == s2[i] {
          EqualPrefix(s1, s2, i, n);
        } else {
          DifferentPrefix(s1, s2, i, n);
          assert DiffersAt(s1, s2, n, i);
        }
        return Signed(s1[i]) - Signed(s2[i]);
      }
      i := i + 1;
    }
    EqualPrefix(s1, s2, n, n);
    diff := 0;
  }

  /** The value of a byte read as int8_t. */
  function Signed(b: byte): int {
    if b < 128 then b as int else b as int - 256
  }

  /** It is the only signed byte that agrees with `b` modulo 256. */
  lemma SignedMeans(b: byte, v: int)
    requires -128 <= v <= 127
    ensures -128 <= Signed(b) <= 127 && (v == Signed(b) <==> (v - b as int) % 256 == 0)
  {
  }

  /** Length of the C string at `s` (strlen, ece391_strlen). */
  method Strlen(s: seq<byte>) returns (len: nat)
    requires NUL in s
    ensures len == |Text(s)|
  {
    len := 0;
    while s[len] != NUL
      invariant 0 <= len < |s| && NUL !in s[..len]
      decreases |s| - len
    {
      assert s[..len + 1] == s[..len] + [s[len]];
      len := len + 1;
      NotAtEnd(s, len, |s| + 1);
    }
    TextUnique(s, len);
  }

  /** Byte-by-byte copy of the C string at `src` (its `n` characters and its terminator) down to
      `dst` inside one buffer (ece391_strcpy with overlapping operands). */
  method StrcpyDown(data: array<byte>, dst: nat, src: nat, ghost n: nat)
    requires dst < src && src + n < data.Length && data[src + n] == NUL
    requires forall k :: src <= k < src + n ==> data[k] != NUL
    modifies data
    ensures forall k :: dst <= k <= dst + n ==> data[k] == old(data[k - dst + src])
    ensures forall k :: 0 <= k < dst || dst + n < k < data.Length ==> data[k] == old(data[k])
  {
    var d, s := dst, src;
    while data[s] != NUL
      invariant dst <= d <= dst + n && s == d - dst + src
      invariant forall k :: dst <= k < d ==> data[k] == old(data[k - dst + src])
      invariant forall k :: 0 <= k < dst || d <= k < data.Length ==> data[k] == old(data[k])
      decreases dst + n - d
    {
      data[d] := data[s];
      d, s := d + 1, s + 1;
    }
    data[d] := NUL;
  }

  /** The string in the buffer from `at` on, with its terminator. */
  ghost predicate Holds(buf: seq<byte>, at: nat, s: seq<byte>) {
    && at + |s| < |buf| && buf[at + |s|] == NUL
    && forall k :: at <= k < at + |s| ==> buf[k] == s[k - at]
  }

  lemma StringAt(buf: seq<byte>, at: nat, s: seq<byte>)
    requires Holds(buf, at, s) && NUL !in s
    ensures NUL in buf[at..] && Text(buf[at..]) == s
  {
    var mem := buf[at..];
    assert mem[|s|] == NUL && mem[..|s|] == s;
    TextUnique(mem, |s|);
  }

  /** Copy the C string at the start of `src` into `buf` from `at` on (ece391_strcpy between
      two buffers). */
  method Strcpy(buf: array<byte>, at: nat, src: seq<byte>)
    requires NUL in src && at + |Text(src)| < buf.Length
    modifies buf
    ensures Holds(buf[..], at, Text(src))
    ensures forall k :: 0 <= k < at || at + |Text(src)| < k < buf.Length ==> buf[k] == old(buf[k])
  {
    ghost var s := Text(src);
    TextStops(src);
    hide Text;
    var i := 0;
    while src[i] != NUL
      invariant 0 <= i <= |s|
      invariant forall k :: at <= k < at + i ==> buf[k] == s[k - at]
      invariant forall k :: 0 <= k < at || at + i <= k < buf.Length ==> buf[k] == old(buf[k])
      decreases |s| - i
    {
      buf[at + i] := src[i];
      i := i + 1;
    }
    buf[at + i] := NUL;
  }
}
