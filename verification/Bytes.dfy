/** Bytes, the two-byte big-endian quantities of the compiled code, and bit maps. */
module Bytes {

  type byte = x: int | 0 <= x < 256

  const NEWLINE: byte := 10

  /** The largest compiled pattern (MAX_PATTERN_SIZE for LINK_SIZE == 2). */
  const MAX_PATTERN_SIZE := 0x1_0000

  /** PUT and PUT2: the stores truncate to a byte, so the value is kept modulo 2^16. */
  function Put(d: nat): seq<byte> {
    [d / 256 % 256, d % 256]
  }

  /** GET and GET2. */
  function Get(code: seq<byte>, at: nat): nat
    requires at + 1 < |code|
  {
    code[at] as int * 256 + code[at + 1] as int
  }

  lemma GetPut(code: seq<byte>, at: nat, d: nat)
    requires d < 0x1_0000
    requires at + 2 <= |code| && code[at..at + 2] == Put(d)
    ensures Get(code, at) == d
  {
  }

  /** `b & (1 << n)` is non-zero. */
  predicate BitSet(b: nat, n: nat) {
    if n == 0 then b % 2 == 1 else BitSet(b / 2, n - 1)
  }

  /** `map[c/8] & (1 << (c&7))` is non-zero, for a 32-byte map. */
  predicate InMap(bits: seq<byte>, c: byte)
    requires |bits| == 32
  {
    BitSet(bits[c / 8], c % 8)
  }

  // ----- bitwise operations -----

  /** The low `k` bits of `a | b`. */
  function OrBits(a: nat, b: nat, k: nat): nat
    decreases k
  {
    if k == 0 then 0 else 2 * OrBits(a / 2, b / 2, k - 1) + if a % 2 == 1 || b % 2 == 1 then 1 else 0
  }

  /** The low `k` bits of `~a`. */
  function NotBits(a: nat, k: nat): nat
    decreases k
  {
    if k == 0 then 0 else 2 * NotBits(a / 2, k - 1) + 1 - a % 2
  }

  /** `1 << n`. */
  function OneBit(n: nat): (r: nat)
    ensures r > 0
  {
    if n == 0 then 1 else 2 * OneBit(n - 1)
  }

  lemma {:induction false} SmallBits(a: nat, b: nat, k: nat)
    ensures OrBits(a, b, k) < OneBit(k) && NotBits(a, k) < OneBit(k)
    decreases k
  {
    if k > 0 { SmallBits(a / 2, b / 2, k - 1); }
  }

  lemma {:induction false} OneSmall(n: nat, k: nat)
    requires n <= k
    ensures OneBit(n) <= OneBit(k) && (n < k ==> OneBit(n) < OneBit(k))
    decreases k
  {
    if n < k { OneSmall(n, k - 1); }
  }

  lemma Byte8()
    ensures OneBit(8) == 256
  {
  }

  function OrByte(a: byte, b: byte): byte {
    SmallBits(a, b, 8);
    Byte8();
    OrBits(a, b, 8)
  }

  /** `~b`, truncated to a byte. */
  function NotByte(b: byte): byte {
    SmallBits(b, 0, 8);
    Byte8();
    NotBits(b, 8)
  }

  function BitByte(n: nat): byte
    requires n < 8
  {
    OneSmall(n, 8);
    Byte8();
    OneBit(n)
  }

  /** A bit of `a | b` is set exactly when it is set in either. */
  lemma {:induction false} OrSet(a: nat, b: nat, k: nat, n: nat)
    requires n < k
    ensures BitSet(OrBits(a, b, k), n) <==> BitSet(a, n) || BitSet(b, n)
    decreases k
  {
    OrLast(a, b, k);
    if n > 0 {
      hide OrBits;
      OrSet(a / 2, b / 2, k - 1, n - 1);
    }
  }

  lemma OrLast(a: nat, b: nat, k: nat)
    requires k > 0
    ensures OrBits(a, b, k) / 2 == OrBits(a / 2, b / 2, k - 1)
    ensures OrBits(a, b, k) % 2 == 1 <==> a % 2 == 1 || b % 2 == 1
  {
  }

  lemma {:induction false} NotSet(a: nat, k: nat, n: nat)
    requires n < k
    ensures BitSet(NotBits(a, k), n) <==> !BitSet(a, n)
    decreases k
  {
    NotLast(a, k);
    if n > 0 {
      hide NotBits;
      NotSet(a / 2, k - 1, n - 1);
    }
  }

  lemma NotLast(a: nat, k: nat)
    requires k > 0
    ensures NotBits(a, k) / 2 == NotBits(a / 2, k - 1) && (NotBits(a, k) % 2 == 1 <==> a % 2 != 1)
  {
  }

  lemma {:induction false} OneSet(n: nat, m: nat)
    ensures BitSet(OneBit(n), m) <==> n == m
    decreases m
  {
    if n == 0 && m > 0 { ZeroSet(m - 1); }
    if n > 0 && m > 0 { OneSet(n - 1, m - 1); }
  }

  lemma {:induction false} ZeroSet(m: nat)
    ensures !BitSet(0, m)
  {
    if m > 0 { ZeroSet(m - 1); }
  }
}
