/**
 The HDL payload stream: a flat run of 512-byte sectors laid over the data
 areas of a main partition and its sub-partitions.
 */
module HdlStream {
  import opened Words

  const MAIN_SKIP: nat := 0x2000
  const SUB_SKIP: nat := 0x800
  const MAX_PARTITIONS: nat := 65

  /** The sectors of partition `part` that come before its data. */
  function Skip(part: nat): nat {
    if part == 0 then MAIN_SKIP else SUB_SKIP
  }

  /** What opening a stream insists on. */
  predicate Opened(lengths: seq<u32>) {
    0 < |lengths| <= MAX_PARTITIONS && forall i :: 0 <= i < |lengths| ==> Holds(lengths, i)
  }

  predicate Holds(lengths: seq<u32>, i: nat)
    requires i < |lengths|
  {
    lengths[i] > Skip(i)
  }

  /** Data sectors of the first `n` partitions. */
  function Base(lengths: seq<u32>, n: nat): int
    requires n <= |lengths|
  {
    if n == 0 then 0 else Base(lengths, n - 1) + lengths[n - 1] - Skip(n - 1)
  }

  function Total(lengths: seq<u32>): int {
    Base(lengths, |lengths|)
  }

  /** A sector of a partition, counted from the start of that partition. */
  datatype Place = Place(part: nat, sector: int)

  predicate IsData(lengths: seq<u32>, p: Place) {
    p.part < |lengths| && Skip(p.part) <= p.sector < lengths[p.part]
  }

  /** The position of a data sector in the stream. */
  function Index(lengths: seq<u32>, p: Place): int
    requires IsData(lengths, p)
  {
    Base(lengths, p.part) + p.sector - Skip(p.part)
  }

  lemma {:induction false} BaseGrows(lengths: seq<u32>, a: nat, b: nat)
    requires Opened(lengths) && a <= b <= |lengths|
    ensures Base(lengths, a) + (b - a) <= Base(lengths, b)
  {
    if a < b {
      BaseGrows(lengths, a, b - 1);
      assert Holds(lengths, b - 1);
    }
  }

  lemma {:induction false} BaseBound(lengths: seq<u32>, n: nat)
    requires Opened(lengths) && n <= |lengths|
    ensures 0 <= Base(lengths, n) <= n * 0x1_0000_0000
  {
    if n > 0 {
      BaseBound(lengths, n - 1);
      assert Holds(lengths, n - 1);
    }
  }

  /** Different data sectors are at different positions, all within the stream. */
  lemma IndexIsInjective(lengths: seq<u32>, p: Place, q: Place)
    requires Opened(lengths) && IsData(lengths, p) && IsData(lengths, q)
    ensures 0 <= Index(lengths, p) < Total(lengths)
    ensures Index(lengths, p) == Index(lengths, q) <==> p == q
  {
    BaseGrows(lengths, 0, p.part);
    BaseGrows(lengths, p.part + 1, |lengths|);
    if p.part < q.part {
      BaseGrows(lengths, p.part + 1, q.part);
    } else if q.part < p.part {
      BaseGrows(lengths, q.part + 1, p.part);
    }
  }

  /** The other direction of the bijection: every position has its data sector. */
  function PlaceOf(lengths: seq<u32>, k: int): (p: Place)
    requires Opened(lengths) && 0 <= k < Total(lengths)
    ensures IsData(lengths, p) && Index(lengths, p) == k
  {
    Search(lengths, k, |lengths|)
  }

  function Search(lengths: seq<u32>, k: int, n: nat): (p: Place)
    requires Opened(lengths) && n <= |lengths| && 0 <= k < Base(lengths, n)
    ensures IsData(lengths, p) && Index(lengths, p) == k
  {
    if k >= Base(lengths, n - 1) then Place(n - 1, k - Base(lengths, n - 1) + Skip(n - 1))
    else Search(lengths, k, n - 1)
  }

  datatype Whence = Set | Current | End | Other

  datatype Mode = ReadMode | WriteMode

  /** One request to the partition driver. */
  datatype Request = Request(part: nat, sector: int, count: nat, mode: Mode)

  predicate InBounds(lengths: seq<u32>, r: Request) {
    && r.part < |lengths| && r.count > 0
    && Skip(r.part) <= r.sector && r.sector + r.count <= lengths[r.part]
  }

  /** What the driver makes of a request; a failed one may still move some of its sectors. */
  datatype Reply = Reply(ok: bool, landed: set<Place>)

  datatype TransferCode = Done | Invalid | Denied | NoSpace | Failed

  /** `count` sectors from `p` on, written from `data`. */
  function Stored<S>(target: map<Place, S>, p: Place, data: seq<S>, only: set<Place>, all: bool): map<Place, S> {
    map q | q in target ::
      if q.part == p.part && p.sector <= q.sector < p.sector + |data| && (all || q in only)
      then data[q.sector - p.sector] else target[q]
  }

  /** A run of sectors of one partition is a run of stream positions, and nothing else. */
  lemma RunIsContiguous(lengths: seq<u32>, p: Place, count: nat, q: Place)
    requires Opened(lengths) && IsData(lengths, p) && p.sector + count <= lengths[p.part]
    ensures q.part == p.part && p.sector <= q.sector < p.sector + count <==>
            IsData(lengths, q) && Index(lengths, p) <= Index(lengths, q) < Index(lengths, p) + count
  {
    if IsData(lengths, q) && Index(lengths, p) <= Index(lengths, q) < Index(lengths, p) + count {
      var r := Place(p.part, p.sector + Index(lengths, q) - Index(lengths, p));
      IndexIsInjective(lengths, q, r);
    }
  }

  /**
   From stream position `k` on `after` holds `data`; positions from there up
   to `limit` are unknown, and everything else is as it was.
   */
  ghost predicate WritesRun<S(!new)>(lengths: seq<u32>, before: map<Place, S>, after: map<Place, S>,
                                     k: int, data: seq<S>, limit: int) {
    && after.Keys == before.Keys
    && forall p :: p in before ==>
         if IsData(lengths, p) && k <= Index(lengths, p) < k + |data| then after[p] == data[Index(lengths, p) - k]
         else (IsData(lengths, p) && k + |data| <= Index(lengths, p) < limit) || after[p] == before[p]
  }

  /** One more chunk extends the run; a failed one leaves its own positions unknown. */
  lemma OneMoreChunk<S(!new)>(lengths: seq<u32>, before: map<Place, S>, mid: map<Place, S>, k: int, data: seq<S>,
                        p: Place, chunk: seq<S>, reply: Reply)
    requires Opened(lengths) && WritesRun(lengths, before, mid, k, data, k + |data|)
    requires IsData(lengths, p) && p.sector + |chunk| <= lengths[p.part] && Index(lengths, p) == k + |data|
    ensures var after := Stored(mid, p, chunk, reply.landed, reply.ok);
            WritesRun(lengths, before, after, k, if reply.ok then data + chunk else data, k + |data| + |chunk|)
  {
    var after := Stored(mid, p, chunk, reply.landed, reply.ok);
    assert after.Keys == mid.Keys;
    forall q | q in before
      ensures q.part == p.part && p.sector <= q.sector < p.sector + |chunk| <==>
              IsData(lengths, q) && Index(lengths, p) <= Index(lengths, q) < Index(lengths, p) + |chunk|
    {
      RunIsContiguous(lengths, p, |chunk|, q);
    }
  }

  /** `count` sectors of `target` from `p` on. */
  function Loaded<S>(target: map<Place, S>, p: Place, count: nat): (r: seq<S>)
    requires forall i :: p.sector <= i < p.sector + count ==> Place(p.part, i) in target
    ensures |r| == count && forall i :: 0 <= i < count ==> r[i] == target[Place(p.part, p.sector + i)]
  {
    if count == 0 then [] else
      assert Place(p.part, p.sector + count - 1) in target;
      Loaded(target, p, count - 1) + [target[Place(p.part, p.sector + count - 1)]]
  }

  /** The buffer holds the stream from position `k` on, up to `upTo` sectors. */
  ghost predicate ReadsRun<S(!new)>(lengths: seq<u32>, target: map<Place, S>, k: int, data: seq<S>) {
    forall p :: p in target && IsData(lengths, p) && k <= Index(lengths, p) < k + |data| ==>
      data[Index(lengths, p) - k] == target[p]
  }

  lemma OneMoreRead<S(!new)>(lengths: seq<u32>, target: map<Place, S>, k: int, data: seq<S>, p: Place, count: nat)
    requires Opened(lengths) && ReadsRun(lengths, target, k, data)
    requires IsData(lengths, p) && p.sector + count <= lengths[p.part] && Index(lengths, p) == k + |data|
    requires forall i :: p.sector <= i < p.sector + count ==> Place(p.part, i) in target
    ensures ReadsRun(lengths, target, k, data + Loaded(target, p, count))
  {
    var grown := data + Loaded(target, p, count);
    forall q | q in target && IsData(lengths, q) && k <= Index(lengths, q) < k + |grown|
      ensures grown[Index(lengths, q) - k] == target[q]
    {
      RunIsContiguous(lengths, p, count, q);
    }
  }

  /**
   What a transfer from stream position `k` has done when `done` sectors are
   through: a write changed the stream there and nowhere else (positions from
   there up to `limit` being unknown), a read filled the buffer with what the
   stream holds there, and left the rest of it (from `total` on) alone.
   */
  ghost predicate Moved<S(!new)>(lengths: seq<u32>, before: map<Place, S>, after: map<Place, S>, sectors: seq<S>,
                                 now: seq<S>, k: int, done: int, limit: int, total: int, mode: Mode) {
    && 0 <= done <= total <= |sectors| == |now|
    && if mode.WriteMode? then now == sectors && WritesRun(lengths, before, after, k, sectors[..done], limit)
       else after == before && now[total..] == sectors[total..] && ReadsRun(lengths, before, k, now[..done])
  }

  lemma ChunkWritten<S(!new)>(lengths: seq<u32>, before: map<Place, S>, mid: map<Place, S>, sectors: seq<S>,
                              k: int, done: nat, p: Place, count: nat, total: nat, reply: Reply)
    requires Opened(lengths) && Moved(lengths, before, mid, sectors, sectors, k, done, k + done, total, WriteMode)
    requires IsData(lengths, p) && p.sector + count <= lengths[p.part] && Index(lengths, p) == k + done
    requires done + count <= total
    ensures Moved(lengths, before, Stored(mid, p, sectors[done..done + count], reply.landed, reply.ok), sectors,
                  sectors, k, if reply.ok then done + count else done, k + done + count, total, WriteMode)
  {
    OneMoreChunk(lengths, before, mid, k, sectors[..done], p, sectors[done..done + count], reply);
    assert sectors[..done] + sectors[done..done + count] == sectors[..done + count];
  }

  lemma ChunkRead<S(!new)>(lengths: seq<u32>, before: map<Place, S>, sectors: seq<S>, now: seq<S>, next: seq<S>,
                           k: int, done: nat, p: Place, count: nat, total: nat, ok: bool)
    requires Opened(lengths) && Moved(lengths, before, before, sectors, now, k, done, k + done, total, ReadMode)
    requires IsData(lengths, p) && p.sector + count <= lengths[p.part] && Index(lengths, p) == k + done
    requires done + count <= total && |next| == |now|
    requires forall i :: p.sector <= i < p.sector + count ==> Place(p.part, i) in before
    requires ok ==> next[done..done + count] == Loaded(before, p, count)
    requires next[..done] == now[..done] && next[done + count..] == now[done + count..]
    ensures Moved(lengths, before, before, sectors, next, k, if ok then done + count else done, k + done + count,
                  total, ReadMode)
  {
    assert next[total..] == next[done + count..][total - done - count..];
    assert now[total..] == now[done + count..][total - done - count..];
    if ok {
      OneMoreRead(lengths, before, k, now[..done], p, count);
      assert next[..done + count] == now[..done] + next[done..done + count];
    }
  }

  lemma MovedUpTo<S(!new)>(lengths: seq<u32>, before: map<Place, S>, after: map<Place, S>, sectors: seq<S>,
                           now: seq<S>, k: int, done: int, limit: int, more: int, total: int, mode: Mode)
    requires Moved(lengths, before, after, sectors, now, k, done, limit, total, mode) && limit <= more
    ensures Moved(lengths, before, after, sectors, now, k, done, more, total, mode)
  {
  }

  /** What one request does: it moves `count` sectors between the buffer, from `at` on, and the place `p`. */
  ghost predicate ChunkDone<S(!new)>(before: map<Place, S>, after: map<Place, S>, now: seq<S>, next: seq<S>, at: nat,
                                     p: Place, count: nat, reply: Reply, mode: Mode) {
    && at + count <= |now| == |next|
    && (forall i :: p.sector <= i < p.sector + count ==> Place(p.part, i) in before)
    && if mode.WriteMode? then
         next == now && after == Stored(before, p, now[at..at + count], reply.landed, reply.ok)
       else
         && after == before
         && (reply.ok ==> next[at..at + count] == Loaded(before, p, count))
         && next[..at] == now[..at] && next[at + count..] == now[at + count..]
  }

  lemma ChunkMoved<S(!new)>(lengths: seq<u32>, before: map<Place, S>, mid: map<Place, S>, after: map<Place, S>,
                            sectors: seq<S>, now: seq<S>, next: seq<S>, k: int, done: nat, p: Place, count: nat,
                            total: nat, reply: Reply, mode: Mode)
    requires Opened(lengths) && Moved(lengths, before, mid, sectors, now, k, done, k + done, total, mode)
    requires IsData(lengths, p) && p.sector + count <= lengths[p.part] && Index(lengths, p) == k + done
    requires done + count <= total && ChunkDone(mid, after, now, next, done, p, count, reply, mode)
    ensures if reply.ok then
              Moved(lengths, before, after, sectors, next, k, done + count, k + done + count, total, mode)
            else
              Moved(lengths, before, after, sectors, next, k, done, k + total, total, mode)
  {
    if mode.WriteMode? {
      ChunkWritten(lengths, before, mid, sectors, k, done, p, count, total, reply);
    } else {
      ChunkRead(lengths, before, sectors, now, next, k, done, p, count, total, reply.ok);
    }
    if !reply.ok {
      MovedUpTo(lengths, before, after, sectors, next, k, done, k + done + count, k + total, total, mode);
    }
  }

  lemma WholeSectors(bytes: int, sectors: int)
    requires bytes == sectors * 512
    ensures bytes % 512 == 0
  {
  }

  class Stream<S(==,!new)> {
    const lengths: seq<u32>
    const starts: seq<u32>
    const capacity: u64
    const writable: bool
    const replies: nat -> Reply
    var position: u64
    var target: map<Place, S>
    var requests: seq<Request>

    ghost predicate Valid()
      reads this
    {
      && Opened(lengths) && |starts| == |lengths|
      && capacity == Total(lengths) * 512
      && position <= capacity && position % 512 == 0
      && (forall p :: IsData(lengths, p) ==> p in target)
      && (forall i :: 0 <= i < |requests| ==> InBounds(lengths, requests[i]))
    }

    /** Opens the stream; the capacity is summed partition by partition. */
    constructor (lengths: seq<u32>, starts: seq<u32>, writable: bool, target: map<Place, S>, replies: nat -> Reply)
      requires Opened(lengths) && |starts| == |lengths|
      requires forall p :: IsData(lengths, p) ==> p in target
      ensures Valid() && position == 0 && this.target == target && requests == []
      ensures this.lengths == lengths && this.starts == starts && this.writable == writable
      ensures this.replies == replies
    {
      this.lengths, this.starts, this.writable := lengths, starts, writable;
      this.target, this.replies, this.requests, this.position := target, replies, [], 0;
      var sum: u64 := 0;
      var i := 0;
      BaseBound(lengths, 0);
      while i < |lengths|
        invariant 0 <= i <= |lengths| && sum == Base(lengths, i) * 512
      {
        BaseBound(lengths, i + 1);
        assert Holds(lengths, i);
        var skip := if i == 0 then MAIN_SKIP else SUB_SKIP;
        sum := sum + (lengths[i] - skip) * 512;
        i := i + 1;
      }
      this.capacity := sum;
    }

    /**
     Finds the partition and sector of a byte position by walking the
     partitions; the position must lie before the end of the stream.
     */
    method LocatePosition(position: u64) returns (found: bool, part: nat, sector: int, available: int)
      requires Valid()
      ensures found <==> position < capacity
      ensures found ==> IsData(lengths, Place(part, sector)) && Index(lengths, Place(part, sector)) == position / 512
      ensures found ==> available == (Index(lengths, Place(part, sector)) + lengths[part] - sector) * 512 - position
    {
      var rest: u64 := position;
      var i := 0;
      while i < |lengths|
        invariant 0 <= i <= |lengths|
        invariant rest == position - Base(lengths, i) * 512
      {
        assert Holds(lengths, i);
        var skip := if i == 0 then MAIN_SKIP else SUB_SKIP;
        var capacity: u64 := (lengths[i] - skip) * 512;
        if rest < capacity {
          BaseGrows(lengths, i + 1, |lengths|);
          return true, i, skip + rest / 512, capacity - rest;
        }
        rest := rest - capacity;
        i := i + 1;
      }
      return false, 0, 0, 0;
    }

    /** One request to the partition driver, for `request.count` sectors of the buffer from `at` on. */
    method Command(request: Request, buffer: array<S>, at: nat) returns (ok: bool)
      requires Valid() && InBounds(lengths, request) && at + request.count <= buffer.Length
      modifies this`target, this`requests, buffer
      ensures Valid() && requests == old(requests) + [request]
      ensures ok == replies(old(|requests|)).ok
      ensures ChunkDone(old(target), target, old(buffer[..]), buffer[..], at, Place(request.part, request.sector),
                        request.count, replies(old(|requests|)), request.mode)
    {
      var reply := replies(|requests|);
      ok := reply.ok;
      requests := requests + [request];
      var p := Place(request.part, request.sector);
      forall i | request.sector <= i < request.sector + request.count ensures Place(request.part, i) in target {
        assert IsData(lengths, Place(request.part, i));
      }
      if request.mode.WriteMode? {
        target := Stored(target, p, buffer[at..at + request.count], reply.landed, ok);
      } else {
        var data := Loaded(target, p, request.count);
        forall i | 0 <= i < request.count && (ok || Place(p.part, p.sector + i) in reply.landed) {
          buffer[at + i] := data[i];
        }
      }
    }

    /** The largest request from the position on that stays in one partition. */
    method NextRequest(remaining: int, mode: Mode) returns (request: Request)
      requires Valid() && 0 < remaining <= capacity - position && remaining % 512 == 0
      ensures InBounds(lengths, request) && request.mode == mode && request.count * 512 <= remaining
      ensures Index(lengths, Place(request.part, request.sector)) * 512 == position
    {
      var found, part, sector, available := LocatePosition(position);
      assert found;
      assert available == (lengths[part] - sector) * 512;
      var chunk := if remaining > available then available else remaining;
      return Request(part, sector, chunk / 512, mode);
    }

    /** One request of the transfer loop. */
    method MoveChunk(buffer: array<S>, cursor: nat, remaining: int, mode: Mode, ghost total: nat,
                     ghost before: map<Place, S>, ghost sectors: seq<S>, ghost k: int) returns (count: nat, ok: bool)
      requires Valid() && 0 < remaining <= capacity - position && cursor <= total <= buffer.Length
      requires remaining == (total - cursor) * 512 && position == (k + cursor) * 512
      requires Moved(lengths, before, target, sectors, buffer[..], k, cursor, k + cursor, total, mode)
      modifies this`target, this`requests, buffer
      ensures Valid() && 0 < count && cursor + count <= total
      ensures |requests| == old(|requests|) + 1 && ok == replies(old(|requests|)).ok
      ensures if ok then Moved(lengths, before, target, sectors, buffer[..], k, cursor + count, k + cursor + count,
                               total, mode)
              else Moved(lengths, before, target, sectors, buffer[..], k, cursor, k + total, total, mode)
    {
      var request := NextRequest(remaining, mode);
      count := request.count;
      ghost var p, reply, now, mid := Place(request.part, request.sector), replies(|requests|), buffer[..], target;
      ok := Command(request, buffer, cursor);
      ChunkMoved(lengths, before, mid, target, sectors, now, buffer[..], k, cursor, p, count, total, reply, mode);
    }

    /** The requests from number `from` on were answered with success, but for the last one if `failed`. */
    ghost predicate Answered(from: nat, failed: bool)
      reads this
    {
      && from <= |requests|
      && (failed ==> from < |requests| && !replies(|requests| - 1).ok)
      && forall r :: from <= r < |requests| - (if failed then 1 else 0) ==> replies(r).ok
    }

    /** The transfer loop: chunk by chunk, until all is moved or a request fails. */
    method TransferLoop(buffer: array<S>, size: int, mode: Mode) returns (ok: bool, ghost done: nat)
      requires Valid() && 0 <= size <= capacity - position && size <= buffer.Length * 512 && size % 512 == 0
      modifies this`position, this`target, this`requests, buffer
      ensures Valid() && Answered(old(|requests|), !ok)
      ensures position == old(position) + done * 512 && if ok then done == size / 512 else done < size / 512
      ensures Moved(lengths, old(target), target, old(buffer[..]), buffer[..], old(position) / 512, done,
                    old(position) / 512 + size / 512, size / 512, mode)
    {
      ghost var k, total, before, sectors := position / 512, size / 512, target, buffer[..];
      var remaining, cursor := size, 0;
      while remaining > 0
        invariant Valid() && 0 <= remaining == (total - cursor) * 512 && position == (k + cursor) * 512
        invariant remaining <= capacity - position && Answered(old(|requests|), false)
        invariant Moved(lengths, before, target, sectors, buffer[..], k, cursor, k + cursor, total, mode)
      {
        var count: nat;
        count, ok := MoveChunk(buffer, cursor, remaining, mode, total, before, sectors, k);
        if !ok {
          return false, cursor;
        }
        WholeSectors(position + count * 512, k + cursor + count);
        position := position + count * 512;
        cursor := cursor + count;
        remaining := remaining - count * 512;
      }
      return true, cursor;
    }

    /**
     Moves `size` bytes between the buffer and the stream at its position,
     chunk by chunk, never across the end of a partition in one request. It
     fails exactly when a request does.
     */
    method Transfer(buffer: array<S>, size: int, mode: Mode) returns (code: TransferCode)
      requires Valid() && size <= buffer.Length * 512 && size < 0x8000_0000
      modifies this`position, this`target, this`requests, buffer
      ensures Valid()
      ensures code.Invalid? <==> size < 0 || size % 512 != 0
      ensures code.Denied? <==> size >= 0 && size % 512 == 0 && mode.WriteMode? && !writable
      ensures code.NoSpace? <==>
                size >= 0 && size % 512 == 0 && (mode.WriteMode? ==> writable) && size > capacity - old(position)
      ensures code in {Invalid, Denied, NoSpace} ==>
                && position == old(position) && target == old(target) && buffer[..] == old(buffer[..])
                && requests == old(requests)
      ensures code in {Done, Failed} ==> Answered(old(|requests|), code.Failed?)
      ensures code.Done? ==> position == old(position) + size
      ensures code.Failed? ==> old(position) <= position < old(position) + size
      ensures code in {Done, Failed} ==>
                Moved(lengths, old(target), target, old(buffer[..]), buffer[..], old(position) / 512,
                      (position - old(position)) / 512, old(position) / 512 + size / 512, size / 512, mode)
    {
      if size < 0 || size % 512 != 0 || position % 512 != 0 {
        return Invalid;
      }
      if mode.WriteMode? && !writable {
        return Denied;
      }
      if size > capacity - position {
        return NoSpace;
      }
      ghost var start := position;
      var ok, done := TransferLoop(buffer, size, mode);
      assert (position - start) / 512 == done;
      return if ok then Done else Failed;
    }

    /** Moves the position, if the place asked for is a whole sector within the stream. */
    method Seek64(offset: int, whence: Whence) returns (r: Option<u64>)
      requires Valid() && -0x8000_0000_0000_0000 <= offset < 0x8000_0000_0000_0000
      modifies this`position
      ensures Valid()
      ensures var from := if whence.Set? then 0 else if whence.Current? then old(position) else capacity;
              if !whence.Other? && 0 <= from + offset <= capacity && (from + offset) % 512 == 0
              then r == Some(from + offset) && position == from + offset
              else r.None? && position == old(position)
    {
      var next: u64;
      if whence.Set? {
        if offset < 0 {
          return None;
        }
        next := offset;
      } else if whence.Current? {
        if offset < 0 {
          var magnitude: u64 := -(offset + 1) + 1;
          if magnitude > position {
            return None;
          }
          next := position - magnitude;
        } else {
          if offset > capacity - position {
            return None;
          }
          next := position + offset;
        }
      } else if whence.End? {
        if offset > 0 {
          return None;
        }
        var magnitude: u64 := if offset < 0 then -(offset + 1) + 1 else 0;
        if magnitude > capacity {
          return None;
        }
        next := capacity - magnitude;
      } else {
        return None;
      }
      if next > capacity || next % 512 != 0 {
        return None;
      }
      position := next;
      return Some(next);
    }
  }
}
