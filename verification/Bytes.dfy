// Bytes, little-endian words and in-place splicing of byte buffers.
module Bytes {

  type byte = x: int | 0 <= x < 0x100
  type u16 = x: int | 0 <= x < 0x1_0000
  type u32 = x: int | 0 <= x < 0x1_0000_0000

  function Min(a: nat, b: nat): nat {
    if a < b then a else b
  }

  function Max(a: nat, b: nat): nat {
    if a < b then b else a
  }

  const BLOCK_SIZE: nat := 512

  type Block = b: seq<byte> | |b| == BLOCK_SIZE witness Zeros(BLOCK_SIZE)

  function Zeros(n: nat): (z: seq<byte>)
    ensures |z| == n
    ensures forall i :: 0 <= i < n ==> z[i] == 0
  {
    seq(n, _ => 0)
  }

  // memcpy(b + off, data, |data|)
  function Splice(b: seq<byte>, off: nat, data: seq<byte>): (r: seq<byte>)
    requires off + |data| <= |b|
    ensures |r| == |b|
    ensures forall i {:trigger r[i]} :: 0 <= i < |b| ==> r[i] == if off <= i < off + |data| then data[i - off] else b[i]
  {
    b[..off] + data + b[off + |data|..]
  }

  function Le16(b: seq<byte>, off: nat): u16
    requires off + 2 <= |b|
  {
    (b[off] as int) + 0x100 * (b[off + 1] as int)
  }

  function Le32(b: seq<byte>, off: nat): u32
    requires off + 4 <= |b|
  {
    (b[off] as int) + 0x100 * (b[off + 1] as int) +
    0x1_0000 * (b[off + 2] as int) + 0x100_0000 * (b[off + 3] as int)
  }

  function Bytes16(v: u16): (r: seq<byte>)
    ensures |r| == 2
  {
    [v % 0x100, v / 0x100]
  }

  function Bytes32(v: u32): (r: seq<byte>)
    ensures |r| == 4
  {
    [v % 0x100, v / 0x100 % 0x100, v / 0x100 / 0x100 % 0x100, v / 0x100 / 0x100 / 0x100]
  }

  lemma Bytes32RoundTrip(v: u32)
    ensures Le32(Bytes32(v), 0) == v
  {
  }

  // A word is a function of its four bytes only.
  lemma Le32Local(a: seq<byte>, i: nat, b: seq<byte>, j: nat)
    requires i + 4 <= |a| && j + 4 <= |b|
    requires a[i..i + 4] == b[j..j + 4]
    ensures Le32(a, i) == Le32(b, j)
  {
    assert a[i] == a[i..i + 4][0] && a[i + 1] == a[i..i + 4][1];
    assert a[i + 2] == a[i..i + 4][2] && a[i + 3] == a[i..i + 4][3];
  }

  function PutLe32(b: seq<byte>, off: nat, v: u32): (r: seq<byte>)
    requires off + 4 <= |b|
    ensures |r| == |b|
  {
    Splice(b, off, Bytes32(v))
  }

  // ---- Bits ----

  // Storing a word makes it readable and leaves every disjoint word as it was.
  lemma PutLe32Reads(b: seq<byte>, off: nat, v: u32, at: nat)
    requires off + 4 <= |b| && at + 4 <= |b|
    requires at == off || at + 4 <= off || off + 4 <= at
    ensures Le32(PutLe32(b, off, v), at) == if at == off then v else Le32(b, at)
  {
    if at == off {
      Bytes32RoundTrip(v);
      Le32Local(PutLe32(b, off, v), at, Bytes32(v), 0);
    } else {
      Le32Local(PutLe32(b, off, v), at, b, at);
    }
  }

  function Pow2(n: nat): (p: nat)
    ensures p >= 1
  {
    if n == 0 then 1 else 2 * Pow2(n - 1)
  }

  // (x & (1 << k)) != 0
  predicate Bit(x: nat, k: nat)
  {
    if k == 0 then x % 2 == 1 else Bit(x / 2, k - 1)
  }

  // x | (1 << k), for an x of n bits
  function OrBit(x: nat, k: nat, n: nat): (r: nat)
    requires k < n && x < Pow2(n)
    ensures r < Pow2(n)
    ensures forall j: nat {:trigger Bit(r, j)} :: Bit(r, j) <==> Bit(x, j) || j == k
  {
    var r := if k == 0 then x / 2 * 2 + 1 else x % 2 + 2 * OrBit(x / 2, k - 1, n - 1);
    assert r / 2 == if k == 0 then x / 2 else OrBit(x / 2, k - 1, n - 1);
    r
  }

  function SetBit(x: byte, k: nat): (r: byte)
    requires k < 8
    ensures forall j: nat {:trigger Bit(r, j)} :: Bit(r, j) <==> Bit(x, j) || j == k
  {
    assert Pow2(8) == 0x100;
    OrBit(x, k, 8)
  }
}
