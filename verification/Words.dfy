/**
 Machine words, little-endian reads and writes over byte sequences, and the
 optional value used throughout the model.
 */
module Words {
  const TWO_8: int := 0x100
  const TWO_16: int := 0x1_0000
  const TWO_24: int := 0x100_0000
  const TWO_32: int := 0x1_0000_0000
  const TWO_64: int := 0x1_0000_0000_0000_0000

  type byte = x: int | 0 <= x < TWO_8
  type u16 = x: int | 0 <= x < TWO_16
  type u32 = x: int | 0 <= x < TWO_32
  type u64 = x: int | 0 <= x < TWO_64

  datatype Option<+T> = None | Some(value: T)

  /** The unsigned addition of the C code: it wraps modulo 2^32. */
  function Add32(a: u32, b: u32): u32 {
    (a + b) % TWO_32
  }

  function Le16(s: seq<byte>, i: nat): u16
    requires i + 2 <= |s|
  {
    s[i] + s[i + 1] * TWO_8
  }

  function Le32(s: seq<byte>, i: nat): u32
    requires i + 4 <= |s|
  {
    s[i] + s[i + 1] * TWO_8 + s[i + 2] * TWO_16 + s[i + 3] * TWO_24
  }

  function Le64(s: seq<byte>, i: nat): u64
    requires i + 8 <= |s|
  {
    Le32(s, i) + Le32(s, i + 4) * TWO_32
  }

  function LeBytes32(v: u32): (r: seq<byte>)
    ensures |r| == 4
  {
    var v1 := v / TWO_8;
    var v2 := v1 / TWO_8;
    var v3 := v2 / TWO_8;
    [v % TWO_8, v1 % TWO_8, v2 % TWO_8, v3]
  }

  function LeBytes64(v: u64): (r: seq<byte>)
    ensures |r| == 8
  {
    LeBytes32(v % TWO_32) + LeBytes32(v / TWO_32)
  }

  lemma Le32OfBytes(v: u32, s: seq<byte>, i: nat)
    requires i + 4 <= |s| && s[i..i + 4] == LeBytes32(v)
    ensures Le32(s, i) == v
  {
    var b := LeBytes32(v);
    assert s[i] == s[i..i + 4][0] && s[i + 1] == s[i..i + 4][1];
    assert s[i + 2] == s[i..i + 4][2] && s[i + 3] == s[i..i + 4][3];
  }

  lemma Le64OfBytes(v: u64, s: seq<byte>, i: nat)
    requires i + 8 <= |s| && s[i..i + 8] == LeBytes64(v)
    ensures Le64(s, i) == v
  {
    var b := s[i..i + 8];
    assert b[..4] == s[i..i + 4] == LeBytes32(v % TWO_32);
    assert b[4..] == s[i + 4..i + 8] == LeBytes32(v / TWO_32);
    Le32OfBytes(v % TWO_32, s, i);
    Le32OfBytes(v / TWO_32, s, i + 4);
  }

  function Zeros(n: nat): (z: seq<byte>)
    ensures |z| == n && forall i :: 0 <= i < n ==> z[i] == 0
  {
    seq(n, _ => 0)
  }

  /** The little-endian words of a run of bytes. */
  function WordsOf(b: seq<byte>): (w: seq<u32>)
    requires |b| % 4 == 0
    ensures |w| == |b| / 4
  {
    seq(|b| / 4, i requires 0 <= i < |b| / 4 => Le32(b, 4 * i))
  }

  function BytesOf(w: seq<u32>): (b: seq<byte>)
    ensures |b| == 4 * |w|
  {
    if w == [] then [] else BytesOf(w[..|w| - 1]) + LeBytes32(w[|w| - 1])
  }

  lemma {:induction false} BytesAt(w: seq<u32>, i: nat)
    requires i < |w|
    ensures BytesOf(w)[4 * i..4 * i + 4] == LeBytes32(w[i])
  {
    var last := |w| - 1;
    if i < last {
      BytesAt(w[..last], i);
      assert BytesOf(w)[4 * i..4 * i + 4] == BytesOf(w[..last])[4 * i..4 * i + 4];
    }
  }

  lemma WordsOfBytes(w: seq<u32>)
    ensures WordsOf(BytesOf(w)) == w
  {
    forall i | 0 <= i < |w| ensures WordsOf(BytesOf(w))[i] == w[i] {
      BytesAt(w, i);
      Le32OfBytes(w[i], BytesOf(w), 4 * i);
    }
  }

  /** Copying `data` over part of a byte sequence, as `memcpy` does. */
  function Splice<T>(s: seq<T>, at: nat, data: seq<T>): (r: seq<T>)
    requires at + |data| <= |s|
    ensures |r| == |s|
    ensures forall i :: 0 <= i < |s| ==> r[i] == if at <= i < at + |data| then data[i - at] else s[i]
  {
    s[..at] + data + s[at + |data|..]
  }

  lemma Appended(a: seq<byte>, b: seq<byte>, c: seq<byte>)
    ensures a + (b + c) == a + b + c
  {
  }
}
