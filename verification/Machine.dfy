/** Machine integers, byte constants and the few arithmetic helpers every module shares. */
module Machine {

  newtype byte = x: int | 0 <= x < 256

  // The C integer types are subset types of int: every assignment to such a
  // variable is an obligation that the C arithmetic neither wraps nor goes
  // below zero.  Where the C code does wrap, the model says so with `%`.
  type uint16 = x: int | 0 <= x < 0x1_0000
  type uint32 = x: int | 0 <= x < 0x1_0000_0000
  type int32 = x: int | -0x8000_0000 <= x < 0x8000_0000

  datatype Option<+T> = None | Some(value: T) {
    function GetOr(default: T): T {
      match this
      case Some(v) => v
      case None => default
    }
  }

  const NUL: byte := 0
  const NEWLINE: byte := 10
  const RETURN: byte := 13
  const SPACE: byte := 32

  function Min(a: int, b: int): int {
    if a <= b then a else b
  }

  function Max(a: int, b: int): int {
    if a <= b then b else a
  }

  /** The bytes of an ASCII literal. */
  function Ascii(s: string): seq<byte> {
    seq(|s|, i requires 0 <= i < |s| => (s[i] as int % 256) as byte)
  }

  lemma Associative<T>(a: seq<T>, b: seq<T>, c: seq<T>)
    ensures (a + b) + c == a + (b + c)
  {
  }

  lemma Multiple(p: int, k: int)
    requires p > 0
    ensures (k >= 1 ==> p * k >= p) && (k <= -1 ==> p * k <= -p)
  {
    assert k >= 1 ==> p * k == p + p * (k - 1) && p * (k - 1) >= 0;
    assert k <= -1 ==> p * k == -p + p * (k + 1) && p * (k + 1) <= 0;
  }

  /** Quotient and remainder are the only way to write a number as a multiple of `p` and
      something smaller. */
  lemma Division(q: nat, r: nat, p: nat)
    requires r < p
    ensures (q * p + r) / p == q && (q * p + r) % p == r
  {
    var x := q * p + r;
    var d, m := x / p, x % p;
    assert x == p * d + m;
    assert p * (d - q) == p * d - q * p;
    Multiple(p, d - q);
  }
}
