/**
 The streaming implementation: a 64-byte block buffer, a 16-word rolling
 schedule, and a context that may be fed in pieces of any size.
 */
module Sha256Stream {
  import opened Words
  import opened Sha256

  /** Word `t` is where the rolling buffer keeps it. */
  predicate InSlot(buffer: seq<word>, w: seq<word>, t: int)
    requires |buffer| == 16 && 0 <= t < |w|
  {
    buffer[t % 16] == w[t]
  }

  /** The rolling buffer holds the last (at most 16) words before word `i` of `w`. */
  ghost predicate Rolling(buffer: seq<word>, w: seq<word>, i: nat) {
    && |buffer| == 16 && i <= |w|
    && forall t {:trigger InSlot(buffer, w, t)} :: 0 <= t < i && i - 16 <= t ==> InSlot(buffer, w, t)
  }

  lemma RollingStep(buffer: seq<word>, w: seq<word>, i: nat)
    requires Rolling(buffer, w, i) && i < |w|
    ensures Rolling(buffer[i % 16 := w[i]], w, i + 1)
  {
    var next := buffer[i % 16 := w[i]];
    forall t {:trigger InSlot(next, w, t)} | 0 <= t < i + 1 && i + 1 - 16 <= t ensures InSlot(next, w, t) {
      if t < i {
        assert InSlot(buffer, w, t);
        assert t % 16 != i % 16;
      }
    }
  }

  /** The next word from those 16, 15, 7 and 2 places back, adding in the order of the code. */
  function Combine(w16: word, w15: word, w7: word, w2: word): word {
    w16 + SmallSigma0(w15) + w7 + SmallSigma1(w2)
  }

  lemma CombineIsRecurrence(w16: word, w15: word, w7: word, w2: word)
    ensures Combine(w16, w15, w7, w2) == Recurrence(w2, w7, w15, w16)
  {
    Reordered(w16, SmallSigma0(w15), w7, SmallSigma1(w2));
  }

  lemma Reordered(p: word, q: word, r: word, s: word)
    ensures p + q + r + s == s + r + q + p
  {
  }

  /** The word computed from the rolling buffer. */
  function RollingWord(buffer: seq<word>, block: Block, i: nat): word
    requires |buffer| == 16
  {
    if i < 16 then Be32(block, i * 4)
    else Combine(buffer[i % 16], buffer[(i - 15) % 16], buffer[(i - 7) % 16], buffer[(i - 2) % 16])
  }

  /** The rolling buffer yields the next word of the schedule. */
  lemma NextWord(buffer: seq<word>, block: Block, w: seq<word>, i: nat)
    requires Rolling(buffer, w, i) && i < |w| && IsSchedule(block, w)
    ensures RollingWord(buffer, block, i) == w[i]
  {
    assert w[i] == ScheduleWord(block, w, i);
    if 16 <= i {
      assert InSlot(buffer, w, i - 16) && InSlot(buffer, w, i - 15);
      assert InSlot(buffer, w, i - 7) && InSlot(buffer, w, i - 2);
      SameSlot(i);
      CombineIsRecurrence(w[i - 16], w[i - 15], w[i - 7], w[i - 2]);
    }
  }

  lemma SameSlot(i: nat)
    requires 16 <= i
    ensures i % 16 == (i - 16) % 16
  {
  }

  /** One block, with the rolling schedule. */
  method Transform(state: State, block: Block) returns (next: State)
    ensures next == Compress(state, block)
  {
    ghost var w := Schedule(block, 64);
    ScheduleIsSchedule(block, 64);
    var buffer := new word[16](_ => 0);
    var s := state;
    var i := 0;
    while i < 64
      invariant 0 <= i <= 64
      invariant Rolling(buffer[..], w, i)
      invariant s == Rounds(state, w, i)
    {
      NextWord(buffer[..], block, w, i);
      var current := RollingWord(buffer[..], block, i);
      RollingStep(buffer[..], w, i);
      buffer[i % 16] := current;
      s := Round(s, ROUND_CONSTANTS[i], current);
      i := i + 1;
    }
    next := AddStates(state, s);
  }

  // ----- the context

  class Context {
    var state: State
    var totalBytes: u64
    var block: array<byte>
    var used: nat
    ghost var hashed: seq<byte>

    /** The state covers whole blocks only. */
    ghost predicate Consistent()
      reads this, block
    {
      block.Length == 64 && used < 64 && |hashed| % 64 == 0 && state == HashBlocks(hashed)
    }

    ghost predicate Valid()
      reads this, block
    {
      Consistent() && totalBytes == |Message()| % TWO_64
    }

    /** Everything added so far: what was hashed, then what is buffered. */
    ghost function Message(): seq<byte>
      reads this, block
      requires block.Length == 64 && used <= 64
    {
      hashed + block[..used]
    }

    constructor ()
      ensures Valid() && fresh(block) && Message() == []
    {
      state, totalBytes, used := INITIAL, 0, 0;
      block := new byte[64](_ => 0);
      hashed := [];
    }

    /** Adds data of any size. */
    method Update(data: seq<byte>)
      requires Valid()
      modifies this`state, this`totalBytes, this`used, this`hashed, block
      ensures Valid() && Message() == old(Message()) + data
    {
      ghost var before := Message();
      var count: u64 := (totalBytes + |data|) % TWO_64;
      CountWraps(|before|, totalBytes, |data|);
      totalBytes := count;
      Absorb(data);
      assert |Message()| == |before| + |data|;
    }

    /** The body of an update, after the byte count. */
    method Absorb(data: seq<byte>)
      requires Consistent()
      modifies this`state, this`used, this`hashed, block
      ensures Consistent() && Message() == old(Message()) + data
    {
      ghost var before := Message();
      var source := data;
      if used != 0 && |source| != 0 {
        source := FillBlock(source);
      }
      while used == 0 && |source| >= 64
        invariant block == old(block) && Consistent() && Message() + source == before + data
        invariant used == 0 || |source| == 0
        decreases |source|
      {
        ghost var now := Message();
        AbsorbBlock(source[..64]);
        SplitAt(now, source, 64);
        source := source[64..];
      }
      if |source| != 0 {
        Buffer(source);
      }
    }

    /** Tops up the partial block, and hashes it if it becomes full. */
    method FillBlock(source: seq<byte>) returns (rest: seq<byte>)
      requires Consistent() && used != 0 && |source| != 0
      modifies this`state, this`used, this`hashed, block
      ensures Consistent() && Message() + rest == old(Message()) + source
      ensures used == 0 || |rest| == 0
    {
      ghost var before, part := hashed, block[..used];
      var available := 64 - used;
      var chunk := if |source| < available then |source| else available;
      Copy(used, source[..chunk]);
      used := used + chunk;
      rest := source[chunk..];
      ghost var filled := block[..used];
      ToppedUp(before, part, filled, source, chunk);
      if used == 64 {
        assert block[..] == filled;
        TransformBlock();
        used := 0;
        assert block[..used] == [];
      }
    }

    /** Hashes the full buffer. */
    method TransformBlock()
      requires block.Length == 64 && |hashed| % 64 == 0 && state == HashBlocks(hashed)
      modifies this`state, this`hashed
      ensures hashed == old(hashed) + block[..] && |hashed| % 64 == 0 && state == HashBlocks(hashed)
    {
      HashOneMore(hashed, block[..]);
      state := Transform(state, block[..]);
      hashed := hashed + block[..];
    }

    /** Hashes one whole block of the caller's data. */
    method AbsorbBlock(chunk: Block)
      requires Consistent() && used == 0
      modifies this`state, this`hashed
      ensures Consistent() && Message() == old(Message()) + chunk
    {
      HashOneMore(hashed, chunk);
      state := Transform(state, chunk);
      hashed := hashed + chunk;
    }

    /** Keeps the last, incomplete block for later. */
    method Buffer(source: seq<byte>)
      requires Consistent() && used == 0 && |source| < 64
      modifies this`used, block
      ensures Consistent() && Message() == old(Message()) + source
    {
      Copy(0, source);
      used := |source|;
    }

    /** Copies bytes into the block buffer. */
    method Copy(at: nat, data: seq<byte>)
      requires block.Length == 64 && at + |data| <= 64
      modifies block
      ensures block[..at + |data|] == old(block[..at]) + data
      ensures block[at + |data|..] == old(block[at + |data|..])
    {
      var i := 0;
      while i < |data|
        invariant 0 <= i <= |data|
        invariant forall k :: 0 <= k < i ==> block[at + k] == data[k]
        invariant forall k :: 0 <= k < at || at + i <= k < 64 ==> block[k] == old(block[k])
      {
        block[at + i] := data[i];
        i := i + 1;
      }
    }

    /** Adds the one bit, and zeros up to the next block if the length no longer fits. */
    method StartPadding() returns (ghost zeros: nat)
      requires Consistent()
      modifies this`state, this`hashed, this`used, block
      ensures block.Length == 64 && used <= 56 && |hashed| % 64 == 0 && state == HashBlocks(hashed)
      ensures zeros < 8 && Message() == old(Message()) + [0x80] + Zeros(zeros)
      ensures zeros > 0 ==> used == 0
    {
      Copy(used, [0x80]);
      ghost var done, partial := hashed, block[..used + 1];
      used := used + 1;
      zeros := 0;
      assert Message() == old(Message()) + [0x80];
      if used > 56 {
        zeros := 64 - used;
        Copy(used, Zeros(64 - used));
        assert block[..] == block[..64];
        TransformBlock();
        used := 0;
        Appended(done, partial, Zeros(zeros));
        assert block[..0] == [];
      }
    }

    /** Adds zeros up to the length field, the length, and hashes the last block. */
    method EndPadding(totalBits: u64)
      requires block.Length == 64 && used <= 56 && |hashed| % 64 == 0 && state == HashBlocks(hashed)
      modifies this`state, this`hashed, block
      ensures |hashed| % 64 == 0 && state == HashBlocks(hashed)
      ensures hashed == old(Message()) + Zeros(56 - used) + Be64(totalBits)
    {
      ghost var done, partial := hashed, block[..used];
      Copy(used, Zeros(56 - used));
      ghost var sofar := block[..56];
      Copy(56, Be64(totalBits));
      assert block[..] == block[..64] == sofar + Be64(totalBits);
      TransformBlock();
      Appended(done, sofar, Be64(totalBits));
      Appended(done, partial, Zeros(56 - used));
    }

    /** Pads, hashes the rest and gives the digest; the context is cleared. */
    method Final() returns (digest: seq<byte>)
      requires Valid()
      modifies this, block
      ensures digest == Digest(old(Message()))
    {
      ghost var message := Message();
      var totalBits := totalBytes * 8 % TWO_64;
      ghost var zeros := StartPadding();
      ghost var more := 56 - used;
      EndPadding(totalBits);
      LengthBits(|message|);
      PaddedIs(message, hashed, zeros, more);
      digest := StateBytes(state);
      state, totalBytes, used := State(0, 0, 0, 0, 0, 0, 0, 0), 0, 0;
      hashed := [];
    }
  }

  lemma ToppedUp(before: seq<byte>, part: seq<byte>, filled: seq<byte>, source: seq<byte>, n: nat)
    requires n <= |source| && filled == part + source[..n]
    ensures before + filled + source[n..] == before + part + source
  {
    assert source == source[..n] + source[n..];
  }

  lemma SplitAt(before: seq<byte>, source: seq<byte>, n: nat)
    requires n <= |source|
    ensures before + source == before + source[..n] + source[n..]
  {
  }

  lemma CountWraps(length: nat, total: u64, more: nat)
    requires total == length % TWO_64
    ensures (total + more) % TWO_64 == (length + more) % TWO_64
  {
  }

  lemma LengthBits(length: nat)
    ensures (length % TWO_64) * 8 % TWO_64 == length * 8 % TWO_64
  {
  }

  lemma OnlyPadding(length: nat, z: nat)
    requires z < 64 && (length + 1 + z + 8) % 64 == 0
    ensures z == PaddingZeros(length)
  {
  }

  /** A message, one bit, zeros in two parts and the length, on whole blocks, is the padded message. */
  lemma PaddedIs(message: seq<byte>, hashed: seq<byte>, zeros: nat, more: nat)
    requires |hashed| % 64 == 0 && zeros + more < 64
    requires hashed == message + [0x80] + Zeros(zeros) + Zeros(more) + Be64(|message| * 8 % TWO_64)
    ensures hashed == Padded(message)
  {
    var z := zeros + more;
    assert Zeros(zeros) + Zeros(more) == Zeros(z);
    assert hashed == message + [0x80] + Zeros(z) + Be64(|message| * 8 % TWO_64);
    OnlyPadding(|message|, z);
  }

  // ----- whole messages

  function Concat(parts: seq<seq<byte>>): seq<byte> {
    if parts == [] then [] else Concat(parts[..|parts| - 1]) + parts[|parts| - 1]
  }

  /** However a message is cut into pieces, feeding them in order gives its digest. */
  method DigestOfParts(parts: seq<seq<byte>>) returns (digest: seq<byte>)
    ensures digest == Digest(Concat(parts))
  {
    var context := new Context();
    var i := 0;
    while i < |parts|
      invariant 0 <= i <= |parts|
      invariant fresh(context) && fresh(context.block)
      invariant context.Valid() && context.Message() == Concat(parts[..i])
    {
      context.Update(parts[i]);
      assert parts[..i + 1][..i] == parts[..i];
      i := i + 1;
    }
    assert parts[..i] == parts;
    digest := context.Final();
  }

  /** The one-call form. */
  method DigestOf(data: seq<byte>) returns (digest: seq<byte>)
    ensures digest == Digest(data)
  {
    var context := new Context();
    context.Update(data);
    assert context.Message() == data;
    digest := context.Final();
  }
}
