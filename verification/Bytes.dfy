/** Bytes, fixed-width words and positioned writes: the vocabulary of the host files. */
module Bytes {
  type byte = x: int | 0 <= x < 0x100
  type uint32 = x: int | 0 <= x < W32
  type uint64 = x: int | 0 <= x < W64

  const W32 := 0x1_0000_0000
  const W64 := 0x1_0000_0000_0000_0000

  function Min(a: int, b: int): int { if a <= b then a else b }

  function Max(a: int, b: int): int { if a <= b then b else a }

  /** n rounded down to a multiple of a; `n & ~(a - 1)` in the C code. */
  function AlignDown(n: nat, a: nat): (r: nat)
    requires a > 0
    ensures r <= n
  {
    assert n == n / a * a + n % a;
    n / a * a
  }

  function AlignUp(n: nat, a: nat): (r: nat)
    requires a > 0
  {
    AlignDown(n + a - 1, a)
  }

  function Zeros(n: nat): (z: seq<byte>)
    ensures |z| == n && forall i :: 0 <= i < n ==> z[i] == 0
  {
    seq(n, i => 0)
  }

  /** The characters of a text as bytes. */
  function BytesOf(t: string): (r: seq<byte>)
    requires forall i :: 0 <= i < |t| ==> t[i] < 256 as char
    ensures |r| == |t|
  {
    seq(|t|, i requires 0 <= i < |t| => t[i] as int)
  }

  /** The contents of a file after `data` has been written at offset `at`; a gap
      past the old end reads as zeros, and an empty write does not extend the file. */
  function Splice(s: seq<byte>, at: nat, data: seq<byte>): (r: seq<byte>)
    ensures data == [] ==> r == s
    ensures data != [] ==> |r| == Max(|s|, at + |data|)
    ensures forall i :: 0 <= i < |r| ==>
      r[i] == if at <= i < at + |data| then data[i - at] else if i < |s| then s[i] else 0
  {
    if data == [] then s
    else
      seq(Max(|s|, at + |data|), i requires 0 <= i < Max(|s|, at + |data|) =>
        if at <= i < at + |data| then data[i - at] else if i < |s| then s[i] else 0)
  }

  lemma AtSplice(s: seq<byte>, at: nat, data: seq<byte>, i: int)
    ensures At(Splice(s, at, data), i) == if at <= i < at + |data| then data[i - at] else At(s, i)
  {
  }

  /** A record with the bytes at `at` replaced; the size stays. */
  function Put(s: seq<byte>, at: nat, field: seq<byte>): (r: seq<byte>)
    requires at + |field| <= |s|
    ensures |r| == |s|
    ensures forall i :: 0 <= i < |s| ==> r[i] == if at <= i < at + |field| then field[i - at] else s[i]
  {
    s[..at] + field + s[at + |field|..]
  }

  lemma SubSlice(s: seq<byte>, at: nat, n: nat, p: nat, e: nat)
    requires at + n <= |s| && p + e <= n
    ensures s[at..at + n][p..p + e] == s[at + p..at + p + e]
  {
    var u, v := s[at..at + n][p..p + e], s[at + p..at + p + e];
    assert |u| == |v| && forall i :: 0 <= i < e ==> u[i] == v[i];
  }

  /** The bytes of `s` in [at, at + n), reading zeros past the end. */
  function Window(s: seq<byte>, at: nat, n: nat): (r: seq<byte>)
    ensures |r| == n
    ensures forall i :: 0 <= i < n ==> r[i] == At(s, at + i)
  {
    seq<byte>(n, i requires 0 <= i < n => At(s, at + i))
  }

  function At(s: seq<byte>, i: int): byte {
    if 0 <= i < |s| then s[i] else 0
  }

  lemma WindowOfSplice(s: seq<byte>, at: nat, data: seq<byte>)
    ensures Window(Splice(s, at, data), at, |data|) == data
  {
    forall i | 0 <= i < |data| ensures At(Splice(s, at, data), at + i) == data[i] {
      AtSplice(s, at, data, at + i);
    }
  }

  lemma WindowBesideSplice(s: seq<byte>, at: nat, data: seq<byte>, from: nat, n: nat)
    requires from + n <= at || at + |data| <= from
    ensures Window(Splice(s, at, data), from, n) == Window(s, from, n)
  {
    forall i {:trigger Window(s, from, n)[i]} | 0 <= i < n ensures At(Splice(s, at, data), from + i) == At(s, from + i) {
      AtSplice(s, at, data, from + i);
    }
  }

  /** Byte j (0 is the most significant) of a big-endian 32-bit word; VHD fields are stored this way. */
  function Byte32(v: uint32, j: nat): byte
    requires j < 4
  {
    if j == 0 then v / 0x100_0000
    else if j == 1 then v / 0x1_0000 % 0x100
    else if j == 2 then v / 0x100 % 0x100
    else v % 0x100
  }

  function Word32(b0: byte, b1: byte, b2: byte, b3: byte): uint32 {
    b0 * 0x100_0000 + b1 * 0x1_0000 + b2 * 0x100 + b3
  }

  lemma DivTwice(v: nat)
    ensures v / 0x1_0000 == v / 0x100 / 0x100
  {
  }

  lemma Word32OfBytes(v: uint32)
    ensures Word32(Byte32(v, 0), Byte32(v, 1), Byte32(v, 2), Byte32(v, 3)) == v
  {
    DivTwice(v);
    var b := v / 0x1_0000;
    assert v / 0x100_0000 == b / 0x100;
  }

  function U32At(s: seq<byte>, at: nat): uint32 {
    Word32(At(s, at), At(s, at + 1), At(s, at + 2), At(s, at + 3))
  }

  function U64At(s: seq<byte>, at: nat): uint64 {
    U32At(s, at) * W32 + U32At(s, at + 4)
  }

  function Bytes32(v: uint32): (r: seq<byte>)
    ensures |r| == 4
  {
    [Byte32(v, 0), Byte32(v, 1), Byte32(v, 2), Byte32(v, 3)]
  }

  lemma Bytes32Word(v: uint32)
    ensures U32At(Bytes32(v), 0) == v
  {
    Word32OfBytes(v);
  }

  function Bytes64(v: uint64): (r: seq<byte>)
    ensures |r| == 8
  {
    Bytes32(v / W32) + Bytes32(v % W32)
  }

  lemma Bytes64Words(v: uint64)
    ensures U32At(Bytes64(v), 0) == v / W32 && U32At(Bytes64(v), 4) == v % W32
  {
    var hi, lo := Bytes32(v / W32), Bytes32(v % W32);
    Bytes32Word(v / W32);
    Bytes32Word(v % W32);
    assert U32At(hi + lo, 0) == U32At(hi, 0);
    assert U32At(hi + lo, 4) == U32At(lo, 0);
  }

  function ByteSum(s: seq<byte>): nat {
    if s == [] then 0 else ByteSum(s[..|s| - 1]) + s[|s| - 1]
  }

  lemma NoBytes(s: seq<byte>)
    ensures ByteSum(s[..0]) == 0
  {
  }

  lemma OneMoreByte(s: seq<byte>, i: nat)
    requires i < |s|
    ensures (ByteSum(s[..i]) % W32 + s[i]) % W32 == ByteSum(s[..i + 1]) % W32
  {
    assert s[..i + 1][..i] == s[..i];
  }

  /** The complement of the 32-bit sum of the bytes: the checksum of VHD headers and of
      ROM images. */
  function Checksum(s: seq<byte>): uint32 {
    W32 - 1 - ByteSum(s) % W32
  }
}
