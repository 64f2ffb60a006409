/**
  Bytes and fixed-width integers as the ns-3 buffer iterator reads and writes
  them: the "Hton"/"Ntoh" accessors use network order (most significant byte
  first), the unconverted U16/U64 accessors write the least significant byte
  first. A wider field is its high half followed by its low half in network
  order, and the other way round in the unconverted order.
 */
module Bytes {

  type byte = x: int | 0 <= x < 0x100
  type u16 = x: int | 0 <= x < 0x1_0000
  type u32 = x: int | 0 <= x < 0x1_0000_0000
  type u64 = x: int | 0 <= x < 0x1_0000_0000_0000_0000

  // ---------------- Network order (WriteHtonU16/U32/U64, ReadNtohU16/U32/U64) ----------------

  function HtonU16(x: u16): (s: seq<byte>)
    ensures |s| == 2
  {
    [x / 0x100, x % 0x100]
  }

  function NtohU16(data: seq<byte>, i: nat): u16
    requires i + 2 <= |data|
  {
    data[i] as int * 0x100 + data[i + 1] as int
  }

  function HtonU32(x: u32): (s: seq<byte>)
    ensures |s| == 4
  {
    HtonU16(x / 0x1_0000) + HtonU16(x % 0x1_0000)
  }

  function NtohU32(data: seq<byte>, i: nat): u32
    requires i + 4 <= |data|
  {
    NtohU16(data, i) * 0x1_0000 + NtohU16(data, i + 2)
  }

  function HtonU64(x: u64): (s: seq<byte>)
    ensures |s| == 8
  {
    HtonU32(x / 0x1_0000_0000) + HtonU32(x % 0x1_0000_0000)
  }

  function NtohU64(data: seq<byte>, i: nat): u64
    requires i + 8 <= |data|
  {
    NtohU32(data, i) * 0x1_0000_0000 + NtohU32(data, i + 4)
  }

  // ---------------- Unconverted order (WriteU16/U64, ReadU64) ----------------

  function U16Le(x: u16): (s: seq<byte>)
    ensures |s| == 2
  {
    [x % 0x100, x / 0x100]
  }

  function LeU16(data: seq<byte>, i: nat): u16
    requires i + 2 <= |data|
  {
    data[i] as int + data[i + 1] as int * 0x100
  }

  function U32Le(x: u32): (s: seq<byte>)
    ensures |s| == 4
  {
    U16Le(x % 0x1_0000) + U16Le(x / 0x1_0000)
  }

  function LeU32(data: seq<byte>, i: nat): u32
    requires i + 4 <= |data|
  {
    LeU16(data, i) + LeU16(data, i + 2) * 0x1_0000
  }

  function U64Le(x: u64): (s: seq<byte>)
    ensures |s| == 8
  {
    U32Le(x % 0x1_0000_0000) + U32Le(x / 0x1_0000_0000)
  }

  function LeU64(data: seq<byte>, i: nat): u64
    requires i + 8 <= |data|
  {
    LeU32(data, i) + LeU32(data, i + 4) * 0x1_0000_0000
  }

  /** The bytes of data from position i on start with s. It is stated byte by
      byte so that the verifier unfolds it one byte at a time; AtIsSlice
      gives the same thing as a slice equality. */
  predicate At(data: seq<byte>, i: nat, s: seq<byte>)
    decreases |s|
  {
    i + |s| <= |data| && (s == [] || (data[i] == s[0] && At(data, i + 1, s[1..])))
  }

  lemma {:induction false} AtIsSlice(data: seq<byte>, i: nat, s: seq<byte>)
    ensures At(data, i, s) <==> i + |s| <= |data| && data[i..i + |s|] == s
    decreases |s|
  {
    if s != [] && i + |s| <= |data| {
      AtIsSlice(data, i + 1, s[1..]);
      assert data[i..i + |s|] == [data[i]] + data[i + 1..i + |s|];
      assert s == [s[0]] + s[1..];
    }
  }

  lemma {:induction false} AtConcat(data: seq<byte>, i: nat, a: seq<byte>, b: seq<byte>)
    requires At(data, i, a + b)
    ensures At(data, i, a) && At(data, i + |a|, b)
    decreases |a|
  {
    if a == [] {
      assert a + b == b;
    } else {
      assert (a + b)[0] == a[0] && (a + b)[1..] == a[1..] + b;
      AtConcat(data, i + 1, a[1..], b);
    }
  }

  lemma {:induction false} AtPair(data: seq<byte>, i: nat, a: byte, b: byte)
    requires At(data, i, [a, b])
    ensures i + 2 <= |data| && data[i] == a && data[i + 1] == b
  {
    assert [a, b][1..] == [b];
  }

  /** Two adjacent slices join into one. */
  lemma SlicesJoin(data: seq<byte>, i: nat, j: nat, k: nat, a: seq<byte>, b: seq<byte>)
    requires i <= j <= k <= |data| && a == data[i..j] && b == data[j..k]
    ensures a + b == data[i..k]
  {
  }

  // ---------------- Reading back what was written ----------------

  lemma NtohU16At(data: seq<byte>, i: nat, x: u16)
    requires At(data, i, HtonU16(x))
    ensures i + 2 <= |data| && NtohU16(data, i) == x
  {
    AtPair(data, i, x / 0x100, x % 0x100);
  }

  lemma NtohU32At(data: seq<byte>, i: nat, x: u32)
    requires At(data, i, HtonU32(x))
    ensures i + 4 <= |data| && NtohU32(data, i) == x
  {
    AtConcat(data, i, HtonU16(x / 0x1_0000), HtonU16(x % 0x1_0000));
    NtohU16At(data, i, x / 0x1_0000);
    NtohU16At(data, i + 2, x % 0x1_0000);
  }

  lemma NtohU64At(data: seq<byte>, i: nat, x: u64)
    requires At(data, i, HtonU64(x))
    ensures i + 8 <= |data| && NtohU64(data, i) == x
  {
    AtConcat(data, i, HtonU32(x / 0x1_0000_0000), HtonU32(x % 0x1_0000_0000));
    NtohU32At(data, i, x / 0x1_0000_0000);
    NtohU32At(data, i + 4, x % 0x1_0000_0000);
  }

  lemma LeU16At(data: seq<byte>, i: nat, x: u16)
    requires At(data, i, U16Le(x))
    ensures i + 2 <= |data| && LeU16(data, i) == x
  {
    AtPair(data, i, x % 0x100, x / 0x100);
  }

  lemma LeU32At(data: seq<byte>, i: nat, x: u32)
    requires At(data, i, U32Le(x))
    ensures i + 4 <= |data| && LeU32(data, i) == x
  {
    AtConcat(data, i, U16Le(x % 0x1_0000), U16Le(x / 0x1_0000));
    LeU16At(data, i, x % 0x1_0000);
    LeU16At(data, i + 2, x / 0x1_0000);
  }

  lemma LeU64At(data: seq<byte>, i: nat, x: u64)
    requires At(data, i, U64Le(x))
    ensures i + 8 <= |data| && LeU64(data, i) == x
  {
    AtConcat(data, i, U32Le(x % 0x1_0000_0000), U32Le(x / 0x1_0000_0000));
    LeU32At(data, i, x % 0x1_0000_0000);
    LeU32At(data, i + 4, x / 0x1_0000_0000);
  }

  // ---------------- Writing back what was read ----------------

  /** Writing back what ReadNtohU16 read reproduces the two bytes. */
  lemma HtonNtohU16(data: seq<byte>, i: nat)
    requires i + 2 <= |data|
    ensures HtonU16(NtohU16(data, i)) == data[i..i + 2]
  {
    assert HtonU16(NtohU16(data, i)) == [data[i], data[i + 1]];
  }

  /** Writing back what ReadNtohU32 read reproduces the four bytes. */
  lemma HtonNtohU32(data: seq<byte>, i: nat)
    requires i + 4 <= |data|
    ensures HtonU32(NtohU32(data, i)) == data[i..i + 4]
  {
    var x := NtohU32(data, i);
    assert x / 0x1_0000 == NtohU16(data, i) && x % 0x1_0000 == NtohU16(data, i + 2);
    HtonNtohU16(data, i);
    HtonNtohU16(data, i + 2);
    SlicesJoin(data, i, i + 2, i + 4, HtonU16(x / 0x1_0000), HtonU16(x % 0x1_0000));
  }

  /** The parts of s + a + b + c each sit at their own offset. */
  lemma AtConcat4(data: seq<byte>, i: nat, s: seq<byte>, a: seq<byte>, b: seq<byte>, c: seq<byte>)
    requires At(data, i, s + a + b + c)
    ensures At(data, i, s) && At(data, i + |s|, a) && At(data, i + |s| + |a|, b)
    ensures At(data, i + |s| + |a| + |b|, c)
  {
    AtConcat(data, i, s + a + b, c);
    AtConcat(data, i, s + a, b);
    AtConcat(data, i, s, a);
  }

  /** Three network-order 64-bit fields written after s are read back. */
  lemma NtohU64TripleAt(data: seq<byte>, i: nat, s: seq<byte>, j: nat, x: u64, y: u64, z: u64)
    requires At(data, i, s + HtonU64(x) + HtonU64(y) + HtonU64(z)) && j == i + |s|
    ensures At(data, i, s)
    ensures j + 24 <= |data| && NtohU64(data, j) == x && NtohU64(data, j + 8) == y &&
            NtohU64(data, j + 16) == z
  {
    AtConcat4(data, i, s, HtonU64(x), HtonU64(y), HtonU64(z));
    NtohU64At(data, j, x);
    NtohU64At(data, j + 8, y);
    NtohU64At(data, j + 16, z);
  }

  /** Four little-endian 64-bit fields written after s are read back. */
  lemma LeU64QuadAt(data: seq<byte>, i: nat, s: seq<byte>, j: nat, a: u64, b: u64, c: u64, d: u64)
    requires At(data, i, s + U64Le(a) + U64Le(b) + U64Le(c) + U64Le(d)) && j == i + |s|
    ensures At(data, i, s)
    ensures j + 32 <= |data| && LeU64(data, j) == a && LeU64(data, j + 8) == b &&
            LeU64(data, j + 16) == c && LeU64(data, j + 24) == d
  {
    AtConcat(data, i, s + U64Le(a) + U64Le(b) + U64Le(c), U64Le(d));
    AtConcat4(data, i, s, U64Le(a), U64Le(b), U64Le(c));
    LeU64At(data, j, a);
    LeU64At(data, j + 8, b);
    LeU64At(data, j + 16, c);
    LeU64At(data, j + 24, d);
  }

}
