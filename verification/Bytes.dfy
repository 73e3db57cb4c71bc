/**
  Machine words, byte strings and the integer encodings shared by every codec of the
  container format.
 */
module Bytes {
  type byte = x: int | 0 <= x < 0x100
  type u16 = x: int | 0 <= x < 0x1_0000
  type u32 = x: int | 0 <= x < 0x1_0000_0000
  type u64 = x: int | 0 <= x < 0x1_0000_0000_0000_0000
  type i64 = x: int | -0x8000_0000_0000_0000 <= x < 0x8000_0000_0000_0000
  type bytes = seq<byte>

  type digest = b: bytes | |b| == 32 witness Zeros(32)
  type id16 = b: bytes | |b| == 16 witness Zeros(16)
  type nonce24 = b: bytes | |b| == 24 witness Zeros(24)

  const U32_MAX: int := 0xFFFF_FFFF
  const U64_MAX: int := 0xFFFF_FFFF_FFFF_FFFF

  datatype Option<+T> = None | Some(value: T)

  datatype Result<+T, +E> = Ok(value: T) | Err(error: E) {
    predicate IsFailure() {
      Err?
    }

    function PropagateFailure<U>(): Result<U, E>
      requires Err?
    {
      Err(error)
    }

    function Extract(): T
      requires Ok?
    {
      value
    }
  }

  function Zeros(n: nat): (z: bytes)
    ensures |z| == n
  {
    seq(n, _ => 0)
  }

  predicate AllZero(v: bytes) {
    forall i :: 0 <= i < |v| ==> v[i] == 0
  }

  function Ascii(s: string): bytes {
    seq(|s|, i requires 0 <= i < |s| => s[i] as int % 0x100)
  }

  /** A domain label and its separator. */
  function Domain(name: string): bytes {
    Ascii(name) + [0]
  }

  // ---- Little-endian ---------------------------------------------------------

  function Le16(v: u16): (b: bytes)
    ensures |b| == 2
  {
    [v % 0x100, v / 0x100]
  }

  function FromLe16(b: bytes): u16
    requires |b| == 2
  {
    var lo: int, hi: int := b[0], b[1];
    lo + 0x100 * hi
  }

  function Le32(v: u32): (b: bytes)
    ensures |b| == 4
  {
    Le16(v % 0x1_0000) + Le16(v / 0x1_0000)
  }

  function FromLe32(b: bytes): u32
    requires |b| == 4
  {
    var lo: int, hi: int := FromLe16(b[..2]), FromLe16(b[2..]);
    lo + 0x1_0000 * hi
  }

  function Le64(v: u64): (b: bytes)
    ensures |b| == 8
  {
    Le32(v % 0x1_0000_0000) + Le32(v / 0x1_0000_0000)
  }

  function FromLe64(b: bytes): u64
    requires |b| == 8
  {
    var lo: int, hi: int := FromLe32(b[..4]), FromLe32(b[4..]);
    lo + 0x1_0000_0000 * hi
  }

  /** Two's complement. */
  function LeI64(v: i64): (b: bytes)
    ensures |b| == 8
  {
    Le64(if v < 0 then v + 0x1_0000_0000_0000_0000 else v)
  }

  function FromLeI64(b: bytes): i64
    requires |b| == 8
  {
    var u := FromLe64(b);
    if u >= 0x8000_0000_0000_0000 then u - 0x1_0000_0000_0000_0000 else u
  }

  lemma {:induction false} Le16RoundTrip(v: u16)
    ensures FromLe16(Le16(v)) == v
  {
  }

  lemma {:induction false} Le32RoundTrip(v: u32)
    ensures FromLe32(Le32(v)) == v
  {
    var lo, hi := Le16(v % 0x1_0000), Le16(v / 0x1_0000);
    assert Le32(v)[..2] == lo && Le32(v)[2..] == hi;
  }

  lemma {:induction false} Le64RoundTrip(v: u64)
    ensures FromLe64(Le64(v)) == v
  {
    var lo, hi := v % 0x1_0000_0000, v / 0x1_0000_0000;
    assert Le64(v)[..4] == Le32(lo) && Le64(v)[4..] == Le32(hi);
    Le32RoundTrip(lo);
    Le32RoundTrip(hi);
  }

  lemma {:induction false} LeI64RoundTrip(v: i64)
    ensures FromLeI64(LeI64(v)) == v
  {
    Le64RoundTrip(if v < 0 then v + 0x1_0000_0000_0000_0000 else v);
  }

  lemma {:induction false} SplitWord32(lo: u16, hi: u16)
    ensures (lo + 0x1_0000 * hi) % 0x1_0000 == lo && (lo + 0x1_0000 * hi) / 0x1_0000 == hi
  {
  }

  lemma {:induction false} SplitWord64(lo: u32, hi: u32)
    ensures (lo + 0x1_0000_0000 * hi) % 0x1_0000_0000 == lo && (lo + 0x1_0000_0000 * hi) / 0x1_0000_0000 == hi
  {
  }

  lemma {:induction false} FromLe16RoundTrip(b: bytes)
    requires |b| == 2
    ensures Le16(FromLe16(b)) == b
  {
  }

  lemma {:induction false} FromLe32RoundTrip(b: bytes)
    requires |b| == 4
    ensures Le32(FromLe32(b)) == b
  {
    hide Le16, FromLe16;
    FromLe16RoundTrip(b[..2]);
    FromLe16RoundTrip(b[2..]);
    SplitWord32(FromLe16(b[..2]), FromLe16(b[2..]));
  }

  lemma {:induction false} FromLe64RoundTrip(b: bytes)
    requires |b| == 8
    ensures Le64(FromLe64(b)) == b
  {
    hide Le32, FromLe32;
    FromLe32RoundTrip(b[..4]);
    FromLe32RoundTrip(b[4..]);
    SplitWord64(FromLe32(b[..4]), FromLe32(b[4..]));
  }

  /** A variable field of a transcript: its length, saturating, and its bytes. */
  function Prefixed(v: bytes): bytes {
    Le32(if |v| <= U32_MAX then |v| else U32_MAX) + v
  }

  // ---- Big-endian --------------------------------------------------------------

  function Reversed(b: bytes): (r: bytes)
    ensures |r| == |b|
  {
    seq(|b|, i requires 0 <= i < |b| => b[|b| - 1 - i])
  }

  function Be32(v: u32): (b: bytes)
    ensures |b| == 4
  {
    Reversed(Le32(v))
  }

  function Be64(v: u64): (b: bytes)
    ensures |b| == 8
  {
    Reversed(Le64(v))
  }

  lemma {:induction false} ReversedInjective(a: bytes, b: bytes)
    requires Reversed(a) == Reversed(b)
    ensures a == b
  {
    forall i | 0 <= i < |a|
      ensures a[i] == b[i]
    {
      assert Reversed(a)[|a| - 1 - i] == a[i];
      assert Reversed(b)[|b| - 1 - i] == b[i];
    }
  }

  lemma {:induction false} Be32Injective(v: u32, w: u32)
    requires Be32(v) == Be32(w)
    ensures v == w
  {
    ReversedInjective(Le32(v), Le32(w));
    Le32RoundTrip(v);
    Le32RoundTrip(w);
  }

  lemma {:induction false} Be64Injective(v: u64, w: u64)
    requires Be64(v) == Be64(w)
    ensures v == w
  {
    ReversedInjective(Le64(v), Le64(w));
    Le64RoundTrip(v);
    Le64RoundTrip(w);
  }

  predicate IsPowerOfTwo(k: nat) {
    k == 1 || (k > 1 && k % 2 == 0 && IsPowerOfTwo(k / 2))
  }

  // ---- Concatenation -----------------------------------------------------------

  /** A concatenation is split by the length of its first part. */
  lemma {:induction false} SplitConcat<T>(a: seq<T>, b: seq<T>, c: seq<T>, d: seq<T>)
    requires |a| == |c| && a + b == c + d
    ensures a == c && b == d
  {
    assert (a + b)[..|a|] == a && (c + d)[..|a|] == c;
    assert (a + b)[|a|..] == b && (c + d)[|a|..] == d;
  }

  lemma {:induction false} Regroup<T>(a: seq<T>, b: seq<T>, c: seq<T>)
    ensures (a + b) + c == a + (b + c)
  {
  }

  lemma {:induction false} SliceOfSlice<T>(s: seq<T>, a: nat, b: nat, c: nat, d: nat)
    requires a <= b <= |s| && c <= d <= b - a
    ensures s[a..b][c..d] == s[a + c..a + d]
  {
    var x, y := s[a..b][c..d], s[a + c..a + d];
    forall i | 0 <= i < d - c
      ensures x[i] == y[i]
    {
      assert x[i] == s[a..b][c + i] == s[a + c + i] == y[i];
    }
  }
}
