/**
 SHA-256: the hash of FIPS 180-4 as functions over whole messages, and the
 streaming implementation that must compute the same digest.
 */
module Sha256 {
  import opened Words

  type word = bv32
  type Block = b: seq<byte> | |b| == 64 witness seq(64, _ => 0)

  datatype State = State(a: word, b: word, c: word, d: word, e: word, f: word, g: word, h: word)

  const INITIAL := State(0x6a09e667, 0xbb67ae85, 0x3c6ef372, 0xa54ff53a,
                         0x510e527f, 0x9b05688c, 0x1f83d9ab, 0x5be0cd19)

  const ROUND_CONSTANTS: seq<word> :=
    [0x428a2f98, 0x71374491, 0xb5c0fbcf, 0xe9b5dba5, 0x3956c25b, 0x59f111f1, 0x923f82a4, 0xab1c5ed5] +
    [0xd807aa98, 0x12835b01, 0x243185be, 0x550c7dc3, 0x72be5d74, 0x80deb1fe, 0x9bdc06a7, 0xc19bf174] +
    [0xe49b69c1, 0xefbe4786, 0x0fc19dc6, 0x240ca1cc, 0x2de92c6f, 0x4a7484aa, 0x5cb0a9dc, 0x76f988da] +
    [0x983e5152, 0xa831c66d, 0xb00327c8, 0xbf597fc7, 0xc6e00bf3, 0xd5a79147, 0x06ca6351, 0x14292967] +
    [0x27b70a85, 0x2e1b2138, 0x4d2c6dfc, 0x53380d13, 0x650a7354, 0x766a0abb, 0x81c2c92e, 0x92722c85] +
    [0xa2bfe8a1, 0xa81a664b, 0xc24b8b70, 0xc76c51a3, 0xd192e819, 0xd6990624, 0xf40e3585, 0x106aa070] +
    [0x19a4c116, 0x1e376c08, 0x2748774c, 0x34b0bcb5, 0x391c0cb3, 0x4ed8aa4a, 0x5b9cca4f, 0x682e6ff3] +
    [0x748f82ee, 0x78a5636f, 0x84c87814, 0x8cc70208, 0x90befffa, 0xa4506ceb, 0xbef9a3f7, 0xc67178f2]

  // ----- the functions of section 4.1.2

  function RotateRight(x: word, n: word): word
    requires n < 32
  {
    (x >> n) | (x << (32 - n))
  }

  function BigSigma0(x: word): word { RotateRight(x, 2) ^ RotateRight(x, 13) ^ RotateRight(x, 22) }
  function BigSigma1(x: word): word { RotateRight(x, 6) ^ RotateRight(x, 11) ^ RotateRight(x, 25) }
  function SmallSigma0(x: word): word { RotateRight(x, 7) ^ RotateRight(x, 18) ^ (x >> 3) }
  function SmallSigma1(x: word): word { RotateRight(x, 17) ^ RotateRight(x, 19) ^ (x >> 10) }
  function Choose(x: word, y: word, z: word): word { (x & y) ^ ((!x) & z) }
  function Majority(x: word, y: word, z: word): word { (x & y) ^ (x & z) ^ (y & z) }

  function Be32(s: seq<byte>, i: nat): word
    requires i + 4 <= |s|
  {
    ((s[i] as bv32) << 24) | ((s[i + 1] as bv32) << 16) | ((s[i + 2] as bv32) << 8) | (s[i + 3] as bv32)
  }

  // ----- section 6.2.2

  /** The recurrence of the message schedule, from the words 2, 7, 15 and 16 places back. */
  function Recurrence(w2: word, w7: word, w15: word, w16: word): word {
    SmallSigma1(w2) + w7 + SmallSigma0(w15) + w16
  }

  /** Word `t` of a schedule, from the block or from the words before it. */
  function ScheduleWord(block: Block, w: seq<word>, t: nat): word
    requires t <= |w|
  {
    if t < 16 then Be32(block, 4 * t) else Recurrence(w[t - 2], w[t - 7], w[t - 15], w[t - 16])
  }

  /** `w` starts the message schedule of a block. */
  ghost predicate IsSchedule(block: Block, w: seq<word>) {
    forall t {:trigger ScheduleWord(block, w, t)} :: 0 <= t < |w| ==> w[t] == ScheduleWord(block, w, t)
  }

  /** The first `n` words of the message schedule. */
  function Schedule(block: Block, n: nat): (w: seq<word>)
    ensures |w| == n
  {
    if n == 0 then []
    else
      var w := Schedule(block, n - 1);
      w + [ScheduleWord(block, w, n - 1)]
  }

  lemma LongerSchedule(block: Block, w: seq<word>, next: word, t: nat)
    requires t <= |w|
    ensures ScheduleWord(block, w + [next], t) == ScheduleWord(block, w, t)
  {
  }

  lemma {:induction false} ScheduleIsSchedule(block: Block, n: nat)
    ensures IsSchedule(block, Schedule(block, n))
  {
    if n > 0 {
      ScheduleIsSchedule(block, n - 1);
      var shorter := Schedule(block, n - 1);
      var w := shorter + [ScheduleWord(block, shorter, n - 1)];
      forall t {:trigger ScheduleWord(block, w, t)} | 0 <= t < n ensures w[t] == ScheduleWord(block, w, t) {
        LongerSchedule(block, shorter, ScheduleWord(block, shorter, n - 1), t);
        if t < n - 1 {
          assert shorter[t] == ScheduleWord(block, shorter, t);
        }
      }
    }
  }

  function Round(s: State, k: word, w: word): State {
    var t1 := s.h + BigSigma1(s.e) + Choose(s.e, s.f, s.g) + k + w;
    var t2 := BigSigma0(s.a) + Majority(s.a, s.b, s.c);
    State(t1 + t2, s.a, s.b, s.c, s.d + t1, s.e, s.f, s.g)
  }

  /** The working variables after the first `t` rounds. */
  function Rounds(s: State, w: seq<word>, t: nat): State
    requires |w| == 64 && t <= 64
  {
    if t == 0 then s else Round(Rounds(s, w, t - 1), ROUND_CONSTANTS[t - 1], w[t - 1])
  }

  function AddStates(x: State, y: State): State {
    State(x.a + y.a, x.b + y.b, x.c + y.c, x.d + y.d, x.e + y.e, x.f + y.f, x.g + y.g, x.h + y.h)
  }

  function Compress(s: State, block: Block): State {
    AddStates(s, Rounds(s, Schedule(block, 64), 64))
  }

  /** The hash value after all blocks of `data`. */
  function HashBlocks(data: seq<byte>): State
    requires |data| % 64 == 0
  {
    if |data| < 64 then INITIAL
    else Compress(HashBlocks(data[..|data| - 64]), data[|data| - 64..])
  }

  // ----- padding, section 5.1.1

  /** The least number of zero bytes that leaves exactly room for the length. */
  function PaddingZeros(length: nat): (z: nat)
    ensures z < 64 && (length + 1 + z) % 64 == 56
  {
    (119 - length % 64) % 64
  }

  function Be64(v: u64): (b: seq<byte>)
    ensures |b| == 8
  {
    var l := LeBytes64(v);
    [l[7], l[6], l[5], l[4], l[3], l[2], l[1], l[0]]
  }

  lemma EightMore(n: nat)
    requires n % 64 == 56
    ensures (n + 8) % 64 == 0
  {
  }

  /** The message, one bit, zeros, and the message length in bits. */
  function Padded(message: seq<byte>): (p: seq<byte>)
    ensures |p| % 64 == 0
  {
    var z := PaddingZeros(|message|);
    EightMore(|message| + 1 + z);
    message + [0x80] + Zeros(z) + Be64(|message| * 8 % TWO_64)
  }

  function BeBytes32(w: word): (b: seq<byte>)
    ensures |b| == 4
  {
    [((w >> 24) & 0xff) as int, ((w >> 16) & 0xff) as int, ((w >> 8) & 0xff) as int, (w & 0xff) as int]
  }

  function StateBytes(s: State): (b: seq<byte>)
    ensures |b| == 32
  {
    BeBytes32(s.a) + BeBytes32(s.b) + BeBytes32(s.c) + BeBytes32(s.d) +
    BeBytes32(s.e) + BeBytes32(s.f) + BeBytes32(s.g) + BeBytes32(s.h)
  }

  function Digest(message: seq<byte>): (d: seq<byte>)
    ensures |d| == 32
  {
    StateBytes(HashBlocks(Padded(message)))
  }

  lemma HashOneMore(data: seq<byte>, block: Block)
    requires |data| % 64 == 0
    ensures |data + block| % 64 == 0
    ensures HashBlocks(data + block) == Compress(HashBlocks(data), block)
  {
    assert (data + block)[..|data|] == data;
    assert (data + block)[|data|..] == block;
  }
}
