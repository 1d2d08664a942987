/**
 The fragment map of a source file: logical sectors are found from a cached
 cursor, and runs of them are read fragment by fragment.
 */
module SourceMap {
  import opened Words

  /** `count` consecutive sectors of the device, from `sector` on. */
  datatype Fragment = Fragment(sector: u32, count: u32)

  /** Logical sectors in the first `n` fragments. */
  function End(fragments: seq<Fragment>, n: nat): nat
    requires n <= |fragments|
  {
    if n == 0 then 0 else End(fragments, n - 1) + fragments[n - 1].count
  }

  lemma {:induction false} EndGrows(fragments: seq<Fragment>, a: nat, b: nat)
    requires a <= b <= |fragments|
    ensures End(fragments, a) <= End(fragments, b)
  {
    if a < b {
      EndGrows(fragments, a, b - 1);
    }
  }

  lemma {:induction false} EndBound(fragments: seq<Fragment>, n: nat)
    requires n <= |fragments|
    ensures End(fragments, n) <= n * 0x1_0000_0000
  {
    if n > 0 {
      EndBound(fragments, n - 1);
    }
  }

  /** What a scan from fragment 0 finds: the fragment that holds a logical sector. */
  function Scan(fragments: seq<Fragment>, logical: int, i: nat): (r: Option<nat>)
    requires i <= |fragments|
    decreases |fragments| - i
  {
    if i == |fragments| then None
    else if logical < End(fragments, i + 1) then Some(i)
    else Scan(fragments, logical, i + 1)
  }

  lemma {:induction false} ScanFinds(fragments: seq<Fragment>, logical: int, i: nat, k: nat)
    requires i <= k < |fragments| && End(fragments, k) <= logical < End(fragments, k + 1)
    ensures Scan(fragments, logical, i) == Some(k)
    decreases |fragments| - i
  {
    if i < k {
      EndGrows(fragments, i + 1, k);
      ScanFinds(fragments, logical, i + 1, k);
    }
  }

  lemma {:induction false} ScanMisses(fragments: seq<Fragment>, logical: int, i: nat)
    requires i <= |fragments| && End(fragments, |fragments|) <= logical
    ensures Scan(fragments, logical, i).None?
    decreases |fragments| - i
  {
    if i < |fragments| {
      EndGrows(fragments, i + 1, |fragments|);
      ScanMisses(fragments, logical, i + 1);
    }
  }

  /** The device sector of a logical sector. */
  function Physical(fragments: seq<Fragment>, logical: int): (p: int)
    requires 0 <= logical < End(fragments, |fragments|)
  {
    PhysicalUpTo(fragments, logical, |fragments|)
  }

  function PhysicalUpTo(fragments: seq<Fragment>, logical: int, n: nat): (p: int)
    requires n <= |fragments| && 0 <= logical < End(fragments, n)
  {
    if logical >= End(fragments, n - 1) then fragments[n - 1].sector + logical - End(fragments, n - 1)
    else PhysicalUpTo(fragments, logical, n - 1)
  }

  lemma {:induction false} PhysicalIn(fragments: seq<Fragment>, logical: int, k: nat, n: nat)
    requires k < n <= |fragments| && End(fragments, k) <= logical < End(fragments, k + 1)
    ensures 0 <= logical < End(fragments, n)
    ensures PhysicalUpTo(fragments, logical, n) == fragments[k].sector + logical - End(fragments, k)
  {
    EndGrows(fragments, k + 1, n);
    if k < n - 1 {
      EndGrows(fragments, k + 1, n - 1);
      PhysicalIn(fragments, logical, k, n - 1);
    }
  }

  /** The device, and which of its requests fail. */
  datatype Drive<S> = Drive(content: int -> S, works: nat -> bool)

  /** The concatenated fragments, from a logical sector on. */
  function Contents<S>(fragments: seq<Fragment>, drive: Drive<S>, logical: int, count: nat): (r: seq<S>)
    requires 0 <= logical && (count > 0 ==> logical + count <= End(fragments, |fragments|))
    ensures |r| == count
    ensures forall i :: 0 <= i < count ==> r[i] == drive.content(Physical(fragments, logical + i))
  {
    if count == 0 then [] else
      Contents(fragments, drive, logical, count - 1) + [drive.content(Physical(fragments, logical + count - 1))]
  }

  lemma {:induction false} ContentsGrow<S>(fragments: seq<Fragment>, drive: Drive<S>, logical: int, a: nat, b: nat)
    requires 0 <= logical && logical + a + b <= End(fragments, |fragments|)
    ensures Contents(fragments, drive, logical, a + b) ==
            Contents(fragments, drive, logical, a) + Contents(fragments, drive, logical + a, b)
  {
  }

  /** Within one fragment the contents are a run of the device. */
  lemma ContentsIn<S>(fragments: seq<Fragment>, drive: Drive<S>, logical: int, count: nat, k: nat)
    requires k < |fragments| && End(fragments, k) <= logical && logical + count <= End(fragments, k + 1)
    requires logical + count <= End(fragments, |fragments|)
    ensures forall i :: 0 <= i < count ==>
              Contents(fragments, drive, logical, count)[i] ==
              drive.content(fragments[k].sector + (logical - End(fragments, k)) + i)
  {
    forall i | 0 <= i < count
      ensures Contents(fragments, drive, logical, count)[i] ==
              drive.content(fragments[k].sector + (logical - End(fragments, k)) + i)
    {
      PhysicalIn(fragments, logical + i, k, |fragments|);
    }
  }

  class Source<S(!new)> {
    const fragments: seq<Fragment>
    const drive: Drive<S>
    var cursorFragment: nat
    var cursorBase: u64
    var issued: nat

    /** The cursor is at the start of a fragment, or past the last one. */
    ghost predicate Valid()
      reads this
    {
      |fragments| <= 4096 && cursorFragment < |fragments| && cursorBase == End(fragments, cursorFragment)
    }

    constructor (fragments: seq<Fragment>, drive: Drive<S>)
      requires 0 < |fragments| <= 4096
      ensures Valid() && this.fragments == fragments && this.drive == drive
    {
      this.fragments, this.drive, cursorFragment, cursorBase, issued := fragments, drive, 0, 0, 0;
    }

    /** Finds a logical sector from the cursor on, or from the first fragment if it lies before the cursor. */
    method Locate(logical: u64) returns (index: Option<nat>, base: u64)
      requires Valid()
      modifies this`cursorFragment, this`cursorBase
      ensures Valid()
      ensures index == Scan(fragments, logical, 0)
      ensures index.None? <==> logical >= End(fragments, |fragments|)
      ensures index.Some? ==>
                && index.value < |fragments| && cursorFragment == index.value && base == End(fragments, index.value)
                && base <= logical < End(fragments, index.value + 1)
      ensures index.None? ==> cursorFragment == old(cursorFragment)
    {
      var i, current: u64 := cursorFragment, cursorBase;
      if i >= |fragments| || logical < current {
        i, current := 0, 0;
      }
      while i < |fragments|
        invariant 0 <= i <= |fragments| && current == End(fragments, i) <= logical
        invariant cursorFragment == old(cursorFragment) && cursorBase == old(cursorBase)
      {
        EndBound(fragments, i + 1);
        var end: u64 := current + fragments[i].count;
        if logical < end {
          cursorFragment, cursorBase := i, current;
          ScanFinds(fragments, logical, 0, i);
          EndGrows(fragments, i + 1, |fragments|);
          return Some(i), current;
        }
        current := end;
        i := i + 1;
      }
      ScanMisses(fragments, logical, 0);
      return None, 0;
    }

    /** One device request: `count` sectors of fragment `index` into the buffer. */
    method Request(index: nat, logical: int, base: int, count: nat, buffer: array<S>, cursor: nat) returns (ok: bool)
      requires index < |fragments| && base == End(fragments, index) <= logical
      requires logical + count <= End(fragments, index + 1) && cursor + count <= buffer.Length
      modifies this`issued, buffer
      ensures issued == old(issued) + 1 && ok == drive.works(old(issued))
      ensures ok ==> logical + count <= End(fragments, |fragments|) &&
                     buffer[cursor..cursor + count] == Contents(fragments, drive, logical, count)
      ensures forall i :: 0 <= i < cursor || cursor + count <= i < buffer.Length ==> buffer[i] == old(buffer[i])
    {
      ok := drive.works(issued);
      issued := issued + 1;
      if ok {
        var sector := fragments[index].sector + (logical - base);
        forall i | 0 <= i < count {
          buffer[cursor + i] := drive.content(sector + i);
        }
        EndGrows(fragments, index + 1, |fragments|);
        ContentsIn(fragments, drive, logical, count, index);
      }
    }

    /** One pass of the read loop: the rest of the current fragment, or less; then the cursor moves on. */
    method ReadChunk(logical: u64, left: u16, buffer: array<S>, cursor: nat) returns (chunk: nat, ok: bool)
      requires Valid() && left > 0 && cursor + left <= buffer.Length && logical + left < TWO_64
      modifies this`cursorFragment, this`cursorBase, this`issued, buffer
      ensures Valid() && issued >= old(issued)
      ensures ok ==> 0 < chunk <= left && logical + chunk <= End(fragments, |fragments|) &&
                     buffer[..cursor + chunk] == old(buffer[..cursor]) + Contents(fragments, drive, logical, chunk)
      ensures buffer[cursor + left..] == old(buffer[cursor + left..])
      ensures !ok ==> logical >= End(fragments, |fragments|) ||
                      exists r :: old(issued) <= r < issued && !drive.works(r)
    {
      chunk := 0;
      var found, base := Locate(logical);
      if found.None? {
        return chunk, false;
      }
      var index := found.value;
      EndBound(fragments, index + 1);
      var end: u64 := base + fragments[index].count;
      chunk := if left > end - logical then end - logical else left;
      ghost var earlier := buffer[..cursor];
      ok := Request(index, logical, base, chunk, buffer, cursor);
      assert ok ==> buffer[..cursor + chunk] == earlier + buffer[cursor..cursor + chunk];
      if ok && logical + chunk == end && index + 1 < |fragments| {
        cursorFragment, cursorBase := index + 1, end;
      }
    }

    /** Reads `count` logical sectors from `sector` on into the buffer. */
    method Read(sector: u64, buffer: array<S>, count: u16) returns (ok: bool)
      requires Valid() && count <= buffer.Length && sector + count < TWO_64
      modifies this`cursorFragment, this`cursorBase, this`issued, buffer
      ensures Valid()
      ensures ok && count > 0 ==> sector + count <= End(fragments, |fragments|) &&
                                  buffer[..count] == Contents(fragments, drive, sector, count)
      ensures buffer[count..] == old(buffer[count..])
      ensures !ok ==> sector + count > End(fragments, |fragments|) ||
                      exists r :: old(issued) <= r < issued && !drive.works(r)
    {
      var logical: u64, left: u16, cursor := sector, count, 0;
      while left != 0
        invariant Valid() && left >= 0 && cursor + left == count && logical == sector + cursor
        invariant cursor > 0 ==> logical <= End(fragments, |fragments|) &&
                                 buffer[..cursor] == Contents(fragments, drive, sector, cursor)
        invariant buffer[count..] == old(buffer[count..])
        invariant issued >= old(issued)
        decreases left
      {
        var chunk, ok := ReadChunk(logical, left, buffer, cursor);
        if !ok {
          return false;
        }
        ContentsGrow(fragments, drive, sector, cursor, chunk);
        logical := logical + chunk;
        left := left - chunk;
        cursor := cursor + chunk;
      }
      return true;
    }
  }
}
