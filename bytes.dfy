/** Fixed-width unsigned integers and byte sequences shared by every component. */
module Bytes {

  type byte = b: int | 0 <= b < 0x100
  type uint16 = n: int | 0 <= n < 0x1_0000
  type uint32 = n: int | 0 <= n < 0x1_0000_0000

  const UINT32_MODULUS: int := 0x1_0000_0000

  /** Unsigned 32-bit addition with wrap-around, as C++ does for `uint32_t`. */
  function Add32(a: uint32, b: uint32): (r: uint32)
    ensures a + b < UINT32_MODULUS ==> r == a + b
    ensures a + b >= UINT32_MODULUS ==> r == a + b - UINT32_MODULUS
  {
    (a + b) % UINT32_MODULUS
  }

  /** Bitwise AND of two bytes. */
  function BitAnd(a: byte, b: byte): byte {
    ((a as bv8) & (b as bv8)) as byte
  }

  /** Bitwise OR of two bytes. */
  function BitOr(a: byte, b: byte): byte {
    ((a as bv8) | (b as bv8)) as byte
  }

  /** In-order concatenation of a sequence of sequences. */
  function Flatten<T>(ss: seq<seq<T>>): (r: seq<T>)
    ensures |ss| == 1 ==> r == ss[0]
  {
    if ss == [] then [] else ss[0] + Flatten(ss[1..])
  }

  /** Sum of the lengths of a sequence of sequences. */
  function TotalLength<T>(ss: seq<seq<T>>): nat {
    if ss == [] then 0 else |ss[0]| + TotalLength(ss[1..])
  }

  lemma {:induction false} FlattenLength<T>(ss: seq<seq<T>>)
    ensures |Flatten(ss)| == TotalLength(ss)
  {
    if ss != [] {
      FlattenLength(ss[1..]);
    }
  }

  lemma {:induction false} FlattenAppend<T>(a: seq<seq<T>>, b: seq<seq<T>>)
    ensures Flatten(a + b) == Flatten(a) + Flatten(b)
  {
    if a == [] {
      assert a + b == b;
    } else {
      assert (a + b)[1..] == a[1..] + b;
      FlattenAppend(a[1..], b);
    }
  }

  lemma FlattenSnoc<T>(a: seq<seq<T>>, x: seq<T>)
    ensures Flatten(a + [x]) == Flatten(a) + x
  {
    FlattenAppend(a, [x]);
  }

  /** A prefix never flattens to more than the whole. */
  lemma FlattenPrefixLength<T>(ss: seq<seq<T>>, k: nat)
    requires k <= |ss|
    ensures |Flatten(ss[..k])| <= |Flatten(ss)|
  {
    assert ss == ss[..k] + ss[k..];
    FlattenAppend(ss[..k], ss[k..]);
  }

  lemma {:induction false} MulAtLeast(k: int, d: int)
    requires d > 0 && k >= 1
    ensures k * d >= d
    decreases k
  {
    if k > 1 {
      MulAtLeast(k - 1, d);
      assert k * d == (k - 1) * d + d;
    }
  }

  /** Euclidean division is determined by quotient and remainder. */
  lemma DivUnique(x: int, d: int, q: int, r: int)
    requires d > 0 && 0 <= r < d && x == q * d + r
    ensures x / d == q
  {
    var q', r' := x / d, x % d;
    assert x == q' * d + r';
    assert (q - q') * d == r' - r;
    if q - q' >= 1 {
      MulAtLeast(q - q', d);
    } else if q' - q >= 1 {
      MulAtLeast(q' - q, d);
    }
  }

  lemma ModUnique(x: int, d: int, q: int, r: int)
    requires d > 0 && 0 <= r < d && x == q * d + r
    ensures x % d == r
  {
    DivUnique(x, d, q, r);
  }

  /** Counting on by one commutes with reduction modulo `m`. */
  lemma ModSucc(k: nat, m: nat)
    requires m > 0
    ensures (k % m + 1) % m == (k + 1) % m
  {
    var q, r := k / m, k % m;
    if r + 1 < m {
      ModUnique(k + 1, m, q, r + 1);
      ModUnique(r + 1, m, 0, r + 1);
    } else {
      ModUnique(k + 1, m, q + 1, 0);
      ModUnique(r + 1, m, 1, 0);
    }
  }

  /** Adding to a residue and reducing again is reducing the sum. */
  lemma ModAdd(x: nat, b: nat, m: nat)
    requires m > 0
    ensures (x % m + b) % m == (x + b) % m
  {
    var q, r := x / m, x % m;
    var q2, r2 := (r + b) / m, (r + b) % m;
    assert x + b == (q + q2) * m + r2;
    ModUnique(x + b, m, q + q2, r2);
  }

  /** A 32-bit counter that comes back to itself after fewer than 2^32 steps did not move. */
  lemma SameAfterWrapIsZero(v: uint32, n: nat)
    requires n < UINT32_MODULUS && v == (v + n) % UINT32_MODULUS
    ensures n == 0
  {
  }

  function Min(a: int, b: int): int {
    if a < b then a else b
  }
}
