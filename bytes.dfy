/**
 * Machine words, little-endian fields and the small failure-compatible
 * wrapper shared by every container codec of the model.
 */
module Bytes {

  /** An 8-bit unsigned value (`guint8`, `guchar`). */
  type uint8 = x: int | 0 <= x < 0x100

  /** A 32-bit unsigned value (`guint`, `guint32`): one pulse length. */
  type uint32 = x: int | 0 <= x < 0x1_0000_0000

  const TWO_TO_THE_32: nat := 0x1_0000_0000

  datatype Option<+T> = None | Some(value: T)

  /**
   * Truncation of an unbounded value to 32 bits, as C does on a `guint`
   * store: 2^32 is taken away until the value fits.
   */
  function U32(x: nat): (r: uint32)
    ensures x < TWO_TO_THE_32 ==> r == x
    decreases x
  {
    if x < TWO_TO_THE_32 then x else U32(x - TWO_TO_THE_32)
  }

  /** The truncation is the remainder modulo 2^32. */
  lemma {:induction false} U32IsMod(x: nat)
    ensures U32(x) == x % TWO_TO_THE_32
    decreases x
  {
    if x >= TWO_TO_THE_32 {
      U32IsMod(x - TWO_TO_THE_32);
    }
  }

  /** Truncating a partial sum first does not change the truncated total. */
  lemma {:induction false} U32Add(a: nat, b: nat)
    ensures U32(U32(a) + b) == U32(a + b)
    decreases a
  {
    if a >= TWO_TO_THE_32 {
      U32Add(a - TWO_TO_THE_32, b);
    }
  }

  /** 256 to the power n: one more than the largest n-byte value. */
  function Pow256(n: nat): (r: nat)
    ensures r >= 1
  {
    if n == 0 then 1 else 256 * Pow256(n - 1)
  }

  lemma Pow256Four()
    ensures Pow256(4) == TWO_TO_THE_32
  {
    assert Pow256(1) == 256 && Pow256(2) == 0x1_0000 && Pow256(3) == 0x100_0000;
  }

  /**
   * The n bytes of x, least significant first (`GST_WRITE_UINT{16,24,32}_LE`);
   * bits of x beyond the n bytes are dropped.
   */
  function Le(x: nat, n: nat): (r: seq<uint8>)
    ensures |r| == n
  {
    if n == 0 then [] else [x % 256] + Le(x / 256, n - 1)
  }

  /** The value of a little-endian byte field (`GST_READ_UINT{16,24,32}_LE`). */
  function FromLe(s: seq<uint8>): (v: nat)
    ensures v < Pow256(|s|)
  {
    if s == [] then 0 else s[0] + 256 * FromLe(s[1..])
  }

  /** Reading back a written field gives the value, when it fits in the field. */
  lemma {:induction false} FromLeLe(x: nat, n: nat)
    requires x < Pow256(n)
    ensures FromLe(Le(x, n)) == x
  {
    if n > 0 {
      FromLeLe(x / 256, n - 1);
      assert Le(x, n)[1..] == Le(x / 256, n - 1);
    }
  }

  /** Writing back a read field gives the same bytes: a field has one encoding. */
  lemma {:induction false} LeFromLe(s: seq<uint8>)
    ensures Le(FromLe(s), |s|) == s
  {
    if s != [] {
      LeFromLe(s[1..]);
      assert FromLe(s) % 256 == s[0] && FromLe(s) / 256 == FromLe(s[1..]);
    }
  }

  /**
   * The value of the n-byte little-endian field at byte `at` of s, read in
   * place: the field FromLe reads from those bytes.
   */
  function FieldAt(s: seq<uint8>, at: nat, n: nat): (v: nat)
    requires at + n <= |s|
    decreases n
  {
    if n == 0 then 0 else s[at] + 256 * FieldAt(s, at + 1, n - 1)
  }

  lemma {:induction false} FieldAtIsFromLe(s: seq<uint8>, at: nat, n: nat)
    requires at + n <= |s|
    ensures FieldAt(s, at, n) == FromLe(s[at..at + n])
    decreases n
  {
    if n > 0 {
      FieldAtIsFromLe(s, at + 1, n - 1);
      assert s[at..at + n][1..] == s[at + 1..at + n];
    }
  }

  /** A field reads the same when more bytes follow. */
  lemma {:induction false} FieldAtExtend(s: seq<uint8>, t: seq<uint8>, at: nat, n: nat)
    requires at + n <= |s|
    ensures FieldAt(s + t, at, n) == FieldAt(s, at, n)
    decreases n
  {
    if n > 0 {
      FieldAtExtend(s, t, at + 1, n - 1);
      assert (s + t)[at] == s[at];
    }
  }

  /** A field reads the same when bytes before it are dropped. */
  lemma {:induction false} FieldAtShift(s: seq<uint8>, k: nat, at: nat, n: nat)
    requires k + at + n <= |s|
    ensures FieldAt(s[k..], at, n) == FieldAt(s, k + at, n)
    decreases n
  {
    if n > 0 {
      FieldAtShift(s, k, at + 1, n - 1);
      assert s[k..][at] == s[k + at];
    }
  }

  /** All the buffers of a list laid end to end. */
  function Concat<T>(bufs: seq<seq<T>>): (r: seq<T>)
  {
    if bufs == [] then [] else Concat(bufs[..|bufs| - 1]) + bufs[|bufs| - 1]
  }

  lemma ConcatAppend<T>(bufs: seq<seq<T>>, b: seq<T>)
    ensures Concat(bufs + [b]) == Concat(bufs) + b
  {
    assert (bufs + [b])[..|bufs|] == bufs;
  }

  lemma AppendAssoc<T>(a: seq<T>, b: seq<T>, c: seq<T>)
    ensures (a + b) + c == a + (b + c)
  {
  }

  lemma AppendEmpty<T>(a: seq<T>)
    ensures a + [] == a
  {
  }

  /** n copies of a byte string laid end to end. */
  function Repeat<T>(s: seq<T>, n: nat): (r: seq<T>)
    ensures |r| == n * |s|
  {
    if n == 0 then [] else s + Repeat(s, n - 1)
  }

  /** Copies s into a from index at on (`memcpy`), keeping the bytes before at. */
  method CopyInto(a: array<uint8>, at: nat, s: seq<uint8>)
    requires at + |s| <= a.Length
    modifies a
    ensures a[..at + |s|] == old(a[..at]) + s
  {
    var k := 0;
    while k < |s|
      invariant 0 <= k <= |s|
      invariant a[..at + k] == old(a[..at]) + s[..k]
    {
      a[at + k] := s[k];
      assert a[..at + k + 1] == a[..at + k] + [s[k]];
      k := k + 1;
    }
  }

  /** Bytes found at `at` that spell out a + b spell out a and then b. */
  lemma SliceSplit(s: seq<uint8>, at: nat, a: seq<uint8>, b: seq<uint8>)
    requires at + |a| + |b| <= |s| && s[at..at + |a| + |b|] == a + b
    ensures s[at..at + |a|] == a
    ensures s[at + |a|..at + |a| + |b|] == b
  {
    assert s[at..at + |a|] == (a + b)[..|a|];
    assert s[at + |a|..at + |a| + |b|] == (a + b)[|a|..];
  }

  /** Bytes from `at` to the end that spell out a + b spell out a and then, to the end, b. */
  lemma SuffixSplit(s: seq<uint8>, at: nat, a: seq<uint8>, b: seq<uint8>)
    requires at <= |s| && s[at..] == a + b
    ensures at + |a| <= |s|
    ensures s[at..at + |a|] == a
    ensures s[at + |a|..] == b
  {
    assert s[at..at + |a|] == s[at..][..|a|];
    assert s[at + |a|..] == s[at..][|a|..];
  }

  /** A value written as `bps` little-endian bytes reads back from there. */
  lemma FieldAtLe(s: seq<uint8>, at: nat, bps: nat, v: nat)
    requires v < Pow256(bps) && at + bps <= |s| && s[at..at + bps] == Le(v, bps)
    ensures FieldAt(s, at, bps) == v
  {
    FieldAtIsFromLe(s, at, bps);
    FromLeLe(v, bps);
  }

  /** Truncating after an overflow field and again at the end of the pulse truncates the whole sum once. */
  lemma U32Carry(acc: nat, ov: nat, pulse: nat)
    requires pulse >= ov
    ensures U32(U32(acc + ov) + (pulse - ov)) == U32(acc + pulse)
  {
    U32Add(acc + ov, pulse - ov);
    assert acc + ov + (pulse - ov) == acc + pulse;
  }
}
