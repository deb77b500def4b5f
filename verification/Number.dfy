/** Printing numbers: digits written lowest first and reversed in place (itoa, strrev and the
    number cases of printf in lib.c; ece391_itoa and ece391_strrev are the same loops). */
module Number {
  import opened Machine
  import opened CString

  const ZERO: byte := 48
  const MINUS: byte := 45

  /** The lookup table of digits: 0 to 9, then A to Z. */
  function Digit(i: nat): byte
    requires i < 36
  {
    if i < 10 then (48 + i) as byte else (55 + i) as byte
  }

  function DigitValue(b: byte): nat {
    if 48 <= b <= 57 then b as int - 48 else if 65 <= b <= 90 then b as int - 55 else 36
  }

  /** The digits are "0" to "9" and then "A" to "Z", and no other character has a value. */
  lemma DigitsInOrder(i: nat, b: byte)
    requires i < 36
    ensures Digit(0) == 48 && Digit(10) == 65 && (i != 0 && i != 10 ==> Digit(i) as int == Digit(i - 1) as int + 1)
    ensures DigitValue(Digit(i)) == i && (DigitValue(b) < 36 <==> 48 <= b <= 57 || 65 <= b <= 90)
  {
  }

  lemma {:induction false} AtLeastDouble(radix: nat, q: nat)
    requires radix >= 2
    ensures radix * q >= 2 * q
  {
    if q > 0 {
      AtLeastDouble(radix, q - 1);
      assert radix * q == radix * (q - 1) + radix;
    }
  }

  lemma DivMod(v: nat, radix: nat)
    requires radix > 0
    ensures 0 <= v / radix && 0 <= v % radix < radix && v == radix * (v / radix) + v % radix
  {
  }

  lemma QuotientSmaller(v: nat, radix: nat)
    requires radix >= 2
    ensures v > 0 ==> v / radix < v
    ensures 0 <= v / radix && v / radix * 2 <= v
    ensures v == v / radix * radix + v % radix && 0 <= v % radix < radix
  {
    DivMod(v, radix);
    AtLeastDouble(radix, v / radix);
  }

  /** The digits, lowest first. */
  function LowFirst(v: nat, radix: nat): seq<byte>
    requires 2 <= radix <= 36
  {
    QuotientSmaller(v, radix);
    if v == 0 then [] else [Digit(v % radix)] + LowFirst(v / radix, radix)
  }

  /** The printed form: highest digit first, and "0" for zero. */
  function Printed(v: nat, radix: nat): (s: seq<byte>)
    requires 2 <= radix <= 36
    ensures s != []
  {
    QuotientSmaller(v, radix);
    if v < radix then [Digit(v)] else Printed(v / radix, radix) + [Digit(v % radix)]
  }

  /** The value a string of digits stands for. */
  function Parse(s: seq<byte>, radix: nat): nat {
    if s == [] then 0 else Parse(s[..|s| - 1], radix) * radix + DigitValue(s[|s| - 1])
  }

  ghost predicate AllDigits(s: seq<byte>, radix: nat) {
    forall k :: 0 <= k < |s| ==> DigitValue(s[k]) < radix
  }

  /** Printing and parsing back: the digits are valid, the value comes back, and there is no
      leading zero except in "0" itself. */
  lemma {:induction false} PrintsBack(v: nat, radix: nat)
    requires 2 <= radix <= 36
    ensures var s := Printed(v, radix);
            AllDigits(s, radix) && Parse(s, radix) == v && (s[0] == ZERO <==> v == 0) && (v == 0 ==> s == [ZERO])
  {
    QuotientSmaller(v, radix);
    if v < radix {
      assert Parse([Digit(v)], radix) == Parse([], radix) * radix + v;
    } else {
      var high := Printed(v / radix, radix);
      PrintsBack(v / radix, radix);
      assert (high + [Digit(v % radix)])[..|high|] == high;
      AtLeastOne(v, radix);
    }
  }

  lemma AtLeastOne(v: nat, radix: nat)
    requires v >= radix >= 2
    ensures v / radix > 0
  {
    QuotientSmaller(v, radix);
  }

  lemma DigitOfValue(b: byte)
    ensures DigitValue(b) < 36 ==> Digit(DigitValue(b)) == b
    ensures b == ZERO <==> DigitValue(b) == 0
  {
  }

  lemma OneMoreDigit(q: nat, r: nat, radix: nat)
    requires 2 <= radix <= 36 && r < radix && q > 0
    ensures Printed(q * radix + r, radix) == Printed(q, radix) + [Digit(r)]
  {
    Division(q, r, radix);
    if q > 0 {
      Multiple(radix, q);
    }
  }

  /** The string is the only one: digits without a leading zero that parse to the value. */
  lemma {:induction false} PrintedFormIsUnique(s: seq<byte>, radix: nat)
    requires 2 <= radix <= 36 && AllDigits(s, radix) && s != []
    requires s[0] == ZERO ==> s == [ZERO]
    ensures s == Printed(Parse(s, radix), radix)
    decreases |s|
  {
    var high, last := s[..|s| - 1], s[|s| - 1];
    var q := Parse(high, radix);
    assert s == high + [last];
    DigitOfValue(last);
    assert Parse(s, radix) == q * radix + DigitValue(last);
    assert high == [] ==> q == 0;
    hide Parse, DigitValue;
    if high != [] {
      hide Printed;
      assert high[0] == s[0] != ZERO;
      PrintedFormIsUnique(high, radix);
      PrintsBack(q, radix);
      OneMoreDigit(q, DigitValue(last), radix);
    }
  }

  // ------------------------------------------------------------------------------ the loops

  function Reverse(s: seq<byte>): seq<byte> {
    seq(|s|, i requires 0 <= i < |s| => s[|s| - 1 - i])
  }

  lemma {:induction false} PrintedIsReversed(v: nat, radix: nat)
    requires 2 <= radix <= 36 && v > 0
    ensures Printed(v, radix) == Reverse(LowFirst(v, radix))
  {
    QuotientSmaller(v, radix);
    var low := LowFirst(v / radix, radix);
    if v < radix {
      SmallQuotient(v, radix);
    } else {
      AtLeastOne(v, radix);
      PrintedIsReversed(v / radix, radix);
      assert Reverse([Digit(v % radix)] + low) == Reverse(low) + [Digit(v % radix)];
    }
  }

  lemma SmallQuotient(v: nat, radix: nat)
    requires v < radix
    ensures v / radix == 0 && v % radix == v
  {
    assert v == 0 * radix + v;
    Division(0, v, radix);
  }

  function Pow(b: nat, n: nat): nat {
    if n == 0 then 1 else b * Pow(b, n - 1)
  }

  lemma {:induction false} FewDigits(v: nat, radix: nat, n: nat)
    requires 2 <= radix <= 36 && n > 0 && v < Pow(radix, n)
    ensures |Printed(v, radix)| <= n
    decreases n
  {
    assert Pow(radix, n) == radix * Pow(radix, n - 1) && Pow(radix, 0) == 1;
    if v >= radix && n > 1 {
      QuotientSmaller(v, radix);
      AtLeastOne(v, radix);
      if v / radix >= Pow(radix, n - 1) {
        Monotone(radix, Pow(radix, n - 1), v / radix);
      }
      FewDigits(v / radix, radix, n - 1);
    }
  }

  lemma Monotone(k: nat, a: nat, b: nat)
    requires a <= b
    ensures k * a <= k * b
  {
    assert k * b == k * a + k * (b - a);
    assert k * (b - a) >= 0;
  }

  lemma HexWord()
    ensures Pow(16, 8) == 0x1_0000_0000
  {
    assert Pow(16, 2) == 0x100;
    assert Pow(16, 4) == 0x1_0000;
    assert Pow(16, 6) == 0x100_0000;
  }

  lemma DecimalWord()
    ensures Pow(10, 10) == 10_000_000_000
  {
    assert Pow(10, 2) == 100;
    assert Pow(10, 4) == 10_000;
    assert Pow(10, 6) == 1_000_000;
    assert Pow(10, 8) == 100_000_000;
  }

  /** Reverse the string at `at` in place (strrev). */
  method Strrev(buf: array<byte>, at: nat, ghost s: seq<byte>)
    requires Holds(buf[..], at, s) && NUL !in s
    modifies buf
    ensures Holds(buf[..], at, Reverse(s))
    ensures forall k :: 0 <= k < at || at + |s| < k < buf.Length ==> buf[k] == old(buf[k])
  {
    hide Text;
    StringAt(buf[..], at, s);
    var len := Strlen(buf[..][at..]);
    ReverseRange(buf, at, len);
    MirrorHolds(old(buf[..]), buf[..], at, s);
  }

  lemma MirrorHolds(before: seq<byte>, after: seq<byte>, at: nat, s: seq<byte>)
    requires Holds(before, at, s) && |after| == |before|
    requires forall k {:trigger after[k]} :: 0 <= k < |before| ==>
               after[k] == if at <= k < at + |s| then before[2 * at + |s| - 1 - k] else before[k]
    ensures Holds(after, at, Reverse(s))
  {
    assert after[at + |s|] == before[at + |s|];
    forall k | at <= k < at + |s|
      ensures after[k] == Reverse(s)[k - at]
    {
      assert after[k] == before[2 * at + |s| - 1 - k] == s[at + |s| - 1 - k];
    }
  }

  /** The exchange loop of strrev on `len` bytes from `at` on. */
  method ReverseRange(buf: array<byte>, at: nat, len: nat)
    requires at + len <= buf.Length
    modifies buf
    ensures forall k {:trigger buf[k]} :: 0 <= k < buf.Length ==>
              buf[k] == if at <= k < at + len then old(buf[2 * at + len - 1 - k]) else old(buf[k])
  {
    var beg: int, end: int := 0, len as int - 1;
    ghost var mirror := 2 * at + len - 1;
    while beg < end
      invariant 0 <= beg <= end + 2 && beg + end == len - 1
      invariant forall k {:trigger buf[k]} :: at <= k < at + beg || at + end < k < at + len ==>
                  buf[k] == old(buf[mirror - k])
      invariant forall k {:trigger buf[k]} ::
                  0 <= k < at || at + beg <= k <= at + end || at + len <= k < buf.Length ==> buf[k] == old(buf[k])
    {
      SwapBytes(buf, at + beg, at + end);
      beg := beg + 1;
      end := end - 1;
    }
  }

  method SwapBytes(buf: array<byte>, i: nat, j: nat)
    requires i < j < buf.Length
    modifies buf
    ensures buf[i] == old(buf[j]) && buf[j] == old(buf[i])
    ensures forall k {:trigger buf[k]} :: 0 <= k < buf.Length && k != i && k != j ==> buf[k] == old(buf[k])
  {
    var tmp := buf[j];
    buf[j] := buf[i];
    buf[i] := tmp;
  }

  lemma {:induction false} LowFirstHasNoNul(v: nat, radix: nat)
    requires 2 <= radix <= 36
    ensures NUL !in LowFirst(v, radix)
  {
    QuotientSmaller(v, radix);
    if v > 0 {
      LowFirstHasNoNul(v / radix, radix);
    }
  }

  /** Write a number at `at` (itoa). */
  method Itoa(value: uint32, buf: array<byte>, at: nat, radix: nat)
    requires 2 <= radix <= 36 && at + |Printed(value, radix)| < buf.Length
    modifies buf
    ensures Holds(buf[..], at, Printed(value, radix))
    ensures forall k :: 0 <= k < at || at + |Printed(value, radix)| < k < buf.Length ==> buf[k] == old(buf[k])
  {
    if value == 0 {
      buf[at] := ZERO;
      buf[at + 1] := NUL;
      return;
    }
    ghost var digits := LowFirst(value, radix);
    PrintedIsReversed(value, radix);
    LowFirstHasNoNul(value, radix);
    var n, newval: uint32 := 0, value;
    while newval > 0
      invariant 0 <= n <= |digits| && digits[n..] == LowFirst(newval, radix)
      invariant forall k :: at <= k < at + n ==> buf[k] == digits[k - at]
      invariant forall k :: 0 <= k < at || at + n <= k < buf.Length ==> buf[k] == old(buf[k])
      decreases newval
    {
      QuotientSmaller(newval, radix);
      buf[at + n] := Digit(newval % radix);
      assert digits[n..][0] == digits[n] && digits[n..][1..] == digits[n + 1..];
      n := n + 1;
      newval := newval / radix;
    }
    buf[at + n] := NUL;
    Strrev(buf, at, digits);
  }

  // ------------------------------------------------------------- the number cases of printf

  function Zeros(n: nat): seq<byte> {
    seq(n, _ => ZERO)
  }

  lemma {:induction false} LeadingZeros(n: nat, s: seq<byte>, radix: nat)
    ensures Parse(Zeros(n) + s, radix) == Parse(s, radix)
    decreases |s|, n
  {
    if s != [] {
      assert (Zeros(n) + s)[..n + |s| - 1] == Zeros(n) + s[..|s| - 1];
      LeadingZeros(n, s[..|s| - 1], radix);
    } else if n > 0 {
      assert Zeros(n) + s == Zeros(n) && Zeros(n)[..n - 1] == Zeros(n - 1) + [];
      LeadingZeros(n - 1, [], radix);
    }
  }

  lemma PrintedHasNoNul(v: nat, radix: nat)
    requires 2 <= radix <= 36
    ensures NUL !in Printed(v, radix)
  {
    PrintsBack(v, radix);
    var s := Printed(v, radix);
    assert forall k :: 0 <= k < |s| ==> DigitValue(s[k]) < 36;
  }

  /** The string printed for %#x: the number is converted into the second half of a buffer, and
      zeros are written in front of it so that eight digits come out. */
  method HexPadded(value: uint32) returns (s: seq<byte>)
    ensures |s| == 8 && AllDigits(s, 16) && Parse(s, 16) == value
  {
    ghost var digits := Printed(value, 16);
    HexDigits(value);
    hide Printed, Parse, Text, DigitValue;
    var buf := new byte[64];
    Itoa(value, buf, 8, 16);
    StringAt(buf[..], 8, digits);
    var start := Strlen(buf[..][8..]);
    FillWithZeros(buf, start);
    ghost var padded := Zeros(8 - start) + digits;
    PaddedHolds(buf[..], start, digits);
    hide Holds, Zeros;
    s := PutString(buf, start, padded);
  }

  lemma PaddedHolds(buf: seq<byte>, start: nat, digits: seq<byte>)
    requires start == |digits| <= 8 && Holds(buf, 8, digits) && forall k :: start <= k < 8 ==> buf[k] == ZERO
    ensures Holds(buf, start, Zeros(8 - start) + digits)
  {
  }

  /** The loop that pads: zeros from `start` up to index 8. */
  method FillWithZeros(buf: array<byte>, start: nat)
    requires start <= 8 <= buf.Length
    modifies buf
    ensures forall k :: start <= k < 8 ==> buf[k] == ZERO
    ensures forall k :: 0 <= k < start || 8 <= k < buf.Length ==> buf[k] == old(buf[k])
  {
    var i := start;
    while i < 8
      invariant start <= i <= 8
      invariant forall k :: start <= k < i ==> buf[k] == ZERO
      invariant forall k :: 0 <= k < start || i <= k < buf.Length ==> buf[k] == old(buf[k])
    {
      buf[i] := ZERO;
      i := i + 1;
    }
  }

  lemma HexDigits(value: uint32)
    ensures var digits := Printed(value, 16);
            && |digits| <= 8 && NUL !in digits
            && var padded := Zeros(8 - |digits|) + digits;
               NUL !in padded && AllDigits(padded, 16) && Parse(padded, 16) == value
  {
    var digits := Printed(value, 16);
    HexWord();
    FewDigits(value, 16, 8);
    PrintsBack(value, 16);
    PrintedHasNoNul(value, 16);
    hide Printed, Parse;
    LeadingZeros(8 - |digits|, digits, 16);
  }

  /** What puts prints from `at` on: everything before the terminator. */
  method PutString(buf: array<byte>, at: nat, ghost s: seq<byte>) returns (out: seq<byte>)
    requires Holds(buf[..], at, s) && NUL !in s
    ensures out == s
  {
    StringAt(buf[..], at, s);
    out := [];
    var i := at;
    assert buf[..][at..] == buf[at..];
    while buf[i] != NUL
      invariant at <= i <= at + |s| && out == s[..i - at]
      decreases at + |s| - i
    {
      out := out + [buf[i]];
      i := i + 1;
    }
  }

  /** The integer a string printed by %d stands for. */
  function ParseSigned(s: seq<byte>): int {
    if s != [] && s[0] == MINUS then -(Parse(s[1..], 10) as int) else Parse(s, 10)
  }

  lemma DecimalDigits(magnitude: uint32)
    ensures var digits := Printed(magnitude, 10);
            && |digits| <= 10 && NUL !in digits && digits[0] != MINUS && Parse(digits, 10) == magnitude
  {
    DecimalWord();
    FewDigits(magnitude, 10, 10);
    PrintsBack(magnitude, 10);
    PrintedHasNoNul(magnitude, 10);
    hide Printed, Parse;
    assert DigitValue(Printed(magnitude, 10)[0]) < 10;
  }

  /** The absolute value, as the unsigned argument that itoa receives. */
  function Magnitude(value: int32): uint32 {
    var v: int := value;
    if v < 0 then -v else v
  }

  /** The string printed for %d; the negation is taken modulo 2^32, as itoa reads it. */
  method SignedPrinted(value: int32) returns (s: seq<byte>)
    ensures s == (if value < 0 then [MINUS] else []) + Printed(Magnitude(value), 10)
    ensures ParseSigned(s) == value
    ensures s != [] && (value < 0 <==> s[0] == 45)
  {
    var magnitude := Magnitude(value);
    DecimalDigits(magnitude);
    hide Printed, Parse, Text;
    ghost var digits := Printed(magnitude, 10);
    var buf := new byte[36];
    if value < 0 {
      buf[0] := MINUS;
      Itoa(magnitude, buf, 1, 10);
      s := PutString(buf, 0, [MINUS] + digits);
      assert s[1..] == digits;
    } else {
      Itoa(magnitude, buf, 0, 10);
      s := PutString(buf, 0, digits);
    }
  }
}
