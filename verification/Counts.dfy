/** Calls that are given a byte count and ignore it: when they stay within the count all the same
    (dir_read, getargs and terminal_read). */
module Counts {
  import opened Machine
  import opened CString
  import opened FileSystem

  /** The buffer with `s` written over it from `at` on. */
  function Overwritten(buf: seq<byte>, at: nat, s: seq<byte>): (r: seq<byte>)
    requires at + |s| <= |buf|
    ensures |r| == |buf|
  {
    buf[..at] + s + buf[at + |s|..]
  }

  lemma OverwrittenIs(was: seq<byte>, now: seq<byte>, at: nat, s: seq<byte>)
    requires at + |s| <= |was| == |now| && forall k :: 0 <= k < |s| ==> now[at + k] == s[k]
    requires forall k :: 0 <= k < at || at + |s| <= k < |was| ==> now[k] == was[k]
    ensures now == Overwritten(was, at, s)
  {
    assert forall k :: at <= k < at + |s| ==> now[k] == s[k - at];
  }

  /** Writing `s` at `at` leaves every byte from `limit` on as it was. */
  ghost predicate Spares(buf: seq<byte>, at: nat, s: seq<byte>, limit: nat)
    requires at + |s| <= |buf|
  {
    forall k :: limit <= k < |buf| ==> Overwritten(buf, at, s)[k] == buf[k]
  }

  /** Whatever the buffer holds, only `n` bytes from `at` on are touched. */
  ghost predicate StaysWithin(at: nat, s: seq<byte>, n: nat) {
    forall buf: seq<byte> :: at + |s| <= |buf| ==> Spares(buf, at, s, at + n)
  }

  /** A string written with its terminator can be read back. */
  lemma WrittenString(buf: seq<byte>, s: seq<byte>)
    requires NoNul(s) && |s| < |buf|
    ensures var r := Overwritten(buf, 0, s + [NUL]); NUL in r && Text(r) == s
  {
    var tail := buf[|s| + 1..];
    var r := Overwritten(buf, 0, s + [NUL]);
    assert r == s + ([NUL] + tail) && r[|s|] == NUL;
    TextOfString(s, [NUL] + tail);
  }

  /** A buffer in which every byte written shows. */
  function Opposite(at: nat, s: seq<byte>): seq<byte> {
    seq(at + |s|, k requires 0 <= k < at + |s| => if k >= at && s[k - at] == 0 then 1 else 0)
  }

  /** Writing stays within a count exactly when no more than that is written. */
  lemma StaysWithinIff(at: nat, s: seq<byte>, n: nat)
    ensures StaysWithin(at, s, n) <==> |s| <= n
    ensures |s| > n ==> !Spares(Opposite(at, s), at, s, at + n)
  {
    if |s| <= n {
      forall buf: seq<byte> | at + |s| <= |buf|
        ensures Spares(buf, at, s, at + n)
      {
      }
    } else {
      var buf := Opposite(at, s);
      assert Overwritten(buf, at, s)[at + n] == s[n] != buf[at + n];
    }
  }

  /** dir_read always writes the 32 bytes of a name, so it keeps to its count exactly from 32 on. */
  lemma DirReadIff(base: nat, fname: seq<byte>, nbytes: nat)
    requires |fname| == NAME_SIZE
    ensures StaysWithin(base, fname, nbytes) <==> nbytes >= 32
  {
    StaysWithinIff(base, fname, nbytes);
  }

  /** terminal_read always writes the whole line. */
  lemma TerminalReadIff(line: seq<byte>, nbytes: nat)
    ensures StaysWithin(0, line, nbytes) <==> |line| <= nbytes
  {
    StaysWithinIff(0, line, nbytes);
  }

  /** getargs always writes the whole argument and its terminator. */
  lemma GetArgsIff(argument: seq<byte>, nbytes: nat)
    ensures StaysWithin(0, argument + [NUL], nbytes) <==> |argument| < nbytes
  {
    StaysWithinIff(0, argument + [NUL], nbytes);
  }

  /** Inputs at which each of them writes past its count. */
  lemma CountsExceeded()
    ensures !StaysWithin(0, seq(NAME_SIZE, _ => 65), 31)
    ensures !StaysWithin(0, [108, 115, NEWLINE], 2)
    ensures !StaysWithin(0, [97] + [NUL], 1)
  {
    DirReadIff(0, seq(NAME_SIZE, _ => 65), 31);
    TerminalReadIff([108, 115, NEWLINE], 2);
    GetArgsIff([97], 1);
  }
}
