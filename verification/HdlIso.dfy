/**
 Finding SYSTEM.CNF in the root directory of a disc image, and the game's
 startup name in SYSTEM.CNF.
 */
module HdlIso {
  import opened Words

  const SECTOR_BYTES: nat := 2048
  const STARTUP_MAX: nat := 60

  // ----- characters

  function Upper(b: byte): byte {
    if 0x61 <= b <= 0x7a then b - 0x20 else b
  }

  function UpperAll(s: seq<byte>): (r: seq<byte>)
    ensures |r| == |s| && forall i :: 0 <= i < |s| ==> r[i] == Upper(s[i])
  {
    seq(|s|, i requires 0 <= i < |s| => Upper(s[i]))
  }

  predicate IsSpace(b: byte) { b == 0x20 || 9 <= b <= 13 }

  predicate IsBreak(b: byte) { b == 13 || b == 10 || b == 0 }

  predicate IsQuote(b: byte) { b == 0x27 || b == 0x22 }

  predicate IsSeparator(b: byte) { b == 0x5c || b == 0x2f || b == 0x3a }

  predicate IsDigit(b: byte) { 0x30 <= b <= 0x39 }

  predicate IsAlnum(b: byte) { IsDigit(b) || 0x41 <= b <= 0x5a || 0x61 <= b <= 0x7a }

  /** "SYSTEM.CNF;1" */
  const CNF_NAME: seq<byte> := [0x53, 0x59, 0x53, 0x54, 0x45, 0x4d, 0x2e, 0x43, 0x4e, 0x46, 0x3b, 0x31]

  /** "BOOT2" */
  const BOOT2: seq<byte> := [0x42, 0x4f, 0x4f, 0x54, 0x32]

  /** Compares with an upper-case text, ignoring case, up to the first difference. */
  method EqualNoCase(left: seq<byte>, right: seq<byte>) returns (equal: bool)
    requires |left| == |right|
    ensures equal <==> UpperAll(left) == UpperAll(right)
  {
    var i := 0;
    while i < |left|
      invariant 0 <= i <= |left|
      invariant forall k :: 0 <= k < i ==> Upper(left[k]) == Upper(right[k])
    {
      if Upper(left[i]) != Upper(right[i]) {
        assert UpperAll(left)[i] != UpperAll(right)[i];
        return false;
      }
      i := i + 1;
    }
    return true;
  }

  // ----- directory records

  type Sector = s: seq<byte> | |s| == SECTOR_BYTES witness Zeros(SECTOR_BYTES)

  datatype Entry = Entry(extent: u32, bytes: u32)

  datatype Walk = Found(entry: Entry) | InvalidRoot | ReadFailed | Missing

  function Be32(s: seq<byte>, i: nat): u32
    requires i + 4 <= |s|
  {
    s[i + 3] + s[i + 2] * TWO_8 + s[i + 1] * TWO_16 + s[i] * TWO_24
  }

  /** A record that ends within the directory and has room for its name. */
  predicate RecordFits(sector: Sector, available: nat, p: nat)
    requires available <= SECTOR_BYTES
  {
    p + 34 <= available && 34 <= sector[p] && p + sector[p] <= available && sector[p + 32] <= sector[p] - 33
  }

  predicate IsCnf(sector: Sector, available: nat, p: nat)
    requires available <= SECTOR_BYTES && RecordFits(sector, available, p)
  {
    sector[p + 32] == 12 && UpperAll(sector[p + 33..p + 45]) == CNF_NAME
  }

  /** Both byte orders agree, and the file is not empty. */
  predicate EntryAgrees(sector: Sector, p: nat)
    requires p + 34 <= SECTOR_BYTES
  {
    && Le32(sector, p + 2) == Be32(sector, p + 6) && Le32(sector, p + 10) == Be32(sector, p + 14)
    && Le32(sector, p + 10) != 0
  }

  function EntryAt(sector: Sector, p: nat): Entry
    requires p + 34 <= SECTOR_BYTES
  {
    Entry(Le32(sector, p + 2), Le32(sector, p + 10))
  }

  /** What walking the records of one sector finds from position `p` on. */
  function WalkSector(sector: Sector, available: nat, p: nat): Walk
    requires available <= SECTOR_BYTES
    decreases available - p
  {
    if p >= available || sector[p] == 0 then Missing
    else if !RecordFits(sector, available, p) then InvalidRoot
    else if IsCnf(sector, available, p) then
      if EntryAgrees(sector, p) then Found(EntryAt(sector, p)) else InvalidRoot
    else WalkSector(sector, available, p + sector[p])
  }

  method FindInSector(sector: Sector, available: nat) returns (walk: Walk)
    requires available <= SECTOR_BYTES
    ensures walk == WalkSector(sector, available, 0)
  {
    var position := 0;
    while position < available
      invariant 0 <= position && WalkSector(sector, available, position) == WalkSector(sector, available, 0)
      decreases available - position
    {
      var length: nat := sector[position];
      if length == 0 {
        break;
      }
      if length < 34 || position + length > available {
        return InvalidRoot;
      }
      var nameLength: nat := sector[position + 32];
      if 33 + nameLength > length {
        return InvalidRoot;
      }
      if nameLength == 12 {
        var same := EqualNoCase(sector[position + 33..position + 45], CNF_NAME);
        assert UpperAll(CNF_NAME) == CNF_NAME;
        if same {
          if !EntryAgrees(sector, position) {
            return InvalidRoot;
          }
          return Found(EntryAt(sector, position));
        }
      }
      position := position + length;
    }
    return Missing;
  }

  /** Where the record at `p` ends. */
  function After(sector: Sector, p: nat): nat {
    if p < SECTOR_BYTES then p + sector[p] else p
  }

  function EndOf(sector: Sector, records: seq<nat>, n: nat): nat
    requires n <= |records|
  {
    if n == 0 then 0 else After(sector, records[n - 1])
  }

  predicate Chained(sector: Sector, available: nat, records: seq<nat>, i: nat)
    requires available <= SECTOR_BYTES && i < |records|
  {
    records[i] == EndOf(sector, records, i) && RecordFits(sector, available, records[i])
  }

  /**
   The records of a sector of a well-formed directory (ECMA-119, section 9.1):
   each starts where the one before it ends, and after the last there is
   nothing, or a zero byte.
   */
  predicate IsListing(sector: Sector, available: nat, records: seq<nat>)
    requires available <= SECTOR_BYTES
  {
    && (forall i {:trigger Chained(sector, available, records, i)} ::
          0 <= i < |records| ==> Chained(sector, available, records, i))
    && var end := EndOf(sector, records, |records|);
       end <= available && (end < available ==> sector[end] == 0)
  }

  predicate Names(sector: Sector, available: nat, records: seq<nat>, i: nat)
    requires available <= SECTOR_BYTES && i < |records|
  {
    RecordFits(sector, available, records[i]) && IsCnf(sector, available, records[i])
  }

  /** Record `k` is the first one, if any, that names SYSTEM.CNF. */
  predicate FirstCnf(sector: Sector, available: nat, records: seq<nat>, k: nat)
    requires available <= SECTOR_BYTES
  {
    && k <= |records|
    && (forall i {:trigger Names(sector, available, records, i)} ::
          0 <= i < k ==> !Names(sector, available, records, i))
    && (k < |records| ==> Names(sector, available, records, k))
  }

  /** In a well-formed sector the walk finds the first record that names SYSTEM.CNF. */
  lemma {:induction false} WalkFindsFirst(sector: Sector, available: nat, records: seq<nat>, k: nat, j: nat)
    requires available <= SECTOR_BYTES && IsListing(sector, available, records)
    requires FirstCnf(sector, available, records, k) && j <= k
    ensures k < |records| ==> records[k] + 34 <= SECTOR_BYTES
    ensures WalkSector(sector, available, EndOf(sector, records, j)) ==
            if k == |records| then Missing
            else if EntryAgrees(sector, records[k]) then Found(EntryAt(sector, records[k])) else InvalidRoot
    decreases k - j
  {
    if j < k {
      assert Chained(sector, available, records, j) && !Names(sector, available, records, j);
      WalkFindsFirst(sector, available, records, k, j + 1);
    } else if k < |records| {
      assert Chained(sector, available, records, k);
    }
  }

  // ----- the whole directory

  /** An image that can be read, except for the requests that fail. */
  datatype Source = Source(image: seq<byte>, works: nat -> bool)

  predicate CanRead(source: Source, offset: nat, size: nat, request: nat) {
    offset + size <= |source.image| && source.works(request)
  }

  function SectorAt(source: Source, offset: nat): Sector
    requires offset + SECTOR_BYTES <= |source.image|
  {
    source.image[offset..offset + SECTOR_BYTES]
  }

  function Available(rootBytes: u32, consumed: nat): nat
    requires consumed < rootBytes
  {
    if rootBytes - consumed > SECTOR_BYTES then SECTOR_BYTES else rootBytes - consumed
  }

  /** What walking the directory finds from `consumed` bytes on. */
  function WalkDirectory(source: Source, start: nat, rootBytes: u32, consumed: nat, request: nat): Walk
    decreases rootBytes - consumed
  {
    if consumed >= rootBytes then Missing
    else if !CanRead(source, start + consumed, SECTOR_BYTES, request) then ReadFailed
    else
      var walk := WalkSector(SectorAt(source, start + consumed), Available(rootBytes, consumed), 0);
      if walk.Missing? then WalkDirectory(source, start, rootBytes, consumed + SECTOR_BYTES, request + 1) else walk
  }

  /** The 32-bit byte counter after `n` sectors. */
  function Counter(n: nat): u32 {
    n * 2048 % 0x1_0000_0000
  }

  lemma CounterBound(n: nat)
    ensures Counter(n) == (n % 0x20_0000) * 2048 <= 0x1_0000_0000 - 2048
  {
    assert Counter(n) == (n % 0x20_0000) * 2048;
  }

  lemma CounterIs(n: nat)
    requires n < 0x20_0000
    ensures Counter(n) == n * 2048
  {
    CounterBound(n);
  }

  lemma CounterNext(n: nat)
    ensures Counter(n + 1) == Add32(Counter(n), SECTOR_BYTES)
  {
  }

  /** The counter reaches the end of the directory exactly up to this size; beyond, it wraps first. */
  lemma CounterReachesEnd(rootBytes: u32)
    ensures (exists n: nat :: Counter(n) >= rootBytes) <==> rootBytes <= 0x1_0000_0000 - 2048
  {
    assert Counter(0x1f_ffff) == 0x1_0000_0000 - 2048;
    forall n: nat ensures Counter(n) <= 0x1_0000_0000 - 2048 {
      CounterBound(n);
    }
  }

  predicate ReadsAt(source: Source, start: nat, n: nat) {
    CanRead(source, start + Counter(n), SECTOR_BYTES, n)
  }

  /** What pass `n` of the loop comes to; `Missing` also when the counter is past the end. */
  function PassResult(source: Source, start: nat, rootBytes: u32, n: nat): Walk {
    if Counter(n) >= rootBytes then Missing
    else if !ReadsAt(source, start, n) then ReadFailed
    else WalkSector(SectorAt(source, start + Counter(n)), Available(rootBytes, Counter(n)), 0)
  }

  /** The loop ends in pass `n`, if it gets there. */
  predicate Stops(source: Source, start: nat, rootBytes: u32, n: nat) {
    Counter(n) >= rootBytes || !PassResult(source, start, rootBytes, n).Missing?
  }

  ghost predicate FirstStop(source: Source, start: nat, rootBytes: u32, n: nat) {
    && Stops(source, start, rootBytes, n)
    && forall m: nat :: m < n ==> !Stops(source, start, rootBytes, m)
  }

  /**
   The walk over the root directory; its byte counter has 32 bits. Whenever some
   pass would end it, it ends in the first one that does.
   */
  method FindSystemCnf(source: Source, rootExtent: u32, rootBytes: u32) returns (walk: Walk)
    requires exists n: nat :: Stops(source, rootExtent * 2048, rootBytes, n)
    ensures exists n: nat :: FirstStop(source, rootExtent * 2048, rootBytes, n) &&
                             walk == PassResult(source, rootExtent * 2048, rootBytes, n)
  {
    var start: u64 := rootExtent * 2048;
    var consumed: u32 := 0;
    var request := 0;
    ghost var last: nat :| Stops(source, start, rootBytes, last);
    while consumed < rootBytes
      invariant 0 <= request && consumed == Counter(request)
      invariant forall m: nat :: m < request ==> !Stops(source, start, rootBytes, m)
      decreases last - request
    {
      var available := if rootBytes - consumed > SECTOR_BYTES then SECTOR_BYTES else rootBytes - consumed;
      if !CanRead(source, start + consumed, SECTOR_BYTES, request) {
        assert FirstStop(source, start, rootBytes, request);
        return ReadFailed;
      }
      walk := FindInSector(SectorAt(source, start + consumed), available);
      if !walk.Missing? {
        assert FirstStop(source, start, rootBytes, request);
        return;
      }
      assert !Stops(source, start, rootBytes, request);
      CounterNext(request);
      request := request + 1;
      consumed := Add32(consumed, SECTOR_BYTES);
    }
    assert FirstStop(source, start, rootBytes, request);
    return Missing;
  }

  /** The first pass over the directory decides, wherever the counter can reach the end or something stops it. */
  lemma {:induction false} StopIsWalk(source: Source, start: nat, rootBytes: u32, n: nat, j: nat)
    requires FirstStop(source, start, rootBytes, n) && j <= n && j < 0x20_0000
    requires rootBytes <= 0x1_0000_0000 - 2048 || !WalkDirectory(source, start, rootBytes, j * 2048, j).Missing?
    ensures PassResult(source, start, rootBytes, n) == WalkDirectory(source, start, rootBytes, j * 2048, j)
    decreases n - j
  {
    CounterIs(j);
    if j < n {
      assert !Stops(source, start, rootBytes, j);
      assert (j + 1) * 2048 == j * 2048 + SECTOR_BYTES;
      StopIsWalk(source, start, rootBytes, n, j + 1);
    }
  }

  lemma {:induction false} MissingInSector(source: Source, start: nat, rootBytes: u32, i: nat, j: nat)
    requires i * 2048 < rootBytes && j <= i
    requires WalkDirectory(source, start, rootBytes, j * 2048, j).Missing?
    ensures CanRead(source, start + i * 2048, SECTOR_BYTES, i)
    ensures WalkSector(SectorAt(source, start + i * 2048), Available(rootBytes, i * 2048), 0).Missing?
    decreases i - j
  {
    if j < i {
      assert (j + 1) * 2048 == j * 2048 + SECTOR_BYTES;
      MissingInSector(source, start, rootBytes, i, j + 1);
    }
  }

  lemma {:induction false} NoStopIsMissing(source: Source, start: nat, rootBytes: u32, j: nat)
    requires forall n: nat :: !Stops(source, start, rootBytes, n)
    ensures WalkDirectory(source, start, rootBytes, j * 2048, j).Missing?
    decreases rootBytes - j * 2048
  {
    if j * 2048 < rootBytes {
      CounterIs(j);
      assert !Stops(source, start, rootBytes, j);
      assert (j + 1) * 2048 == j * 2048 + SECTOR_BYTES;
      NoStopIsMissing(source, start, rootBytes, j + 1);
    }
  }

  /**
   When the walk ends: exactly if the counter can reach the end of the
   directory, or the first pass over it is stopped, or some read ever fails.
   */
  lemma WalkEnds(source: Source, start: nat, rootBytes: u32)
    ensures (exists n: nat :: Stops(source, start, rootBytes, n)) <==>
            || rootBytes <= 0x1_0000_0000 - 2048
            || !WalkDirectory(source, start, rootBytes, 0, 0).Missing?
            || exists n: nat :: !ReadsAt(source, start, n)
  {
    if rootBytes <= 0x1_0000_0000 - 2048 {
      CounterIs(0x1f_ffff);
      assert Stops(source, start, rootBytes, 0x1f_ffff);
    } else {
      forall n: nat ensures Counter(n) < rootBytes {
        CounterBound(n);
      }
      if n: nat :| !ReadsAt(source, start, n) {
        assert Stops(source, start, rootBytes, n);
      }
      if WalkDirectory(source, start, rootBytes, 0, 0).Missing? {
        forall n: nat | ReadsAt(source, start, n) ensures !Stops(source, start, rootBytes, n) {
          CounterBound(n);
          MissingInSector(source, start, rootBytes, n % 0x20_0000, 0);
        }
      } else if forall n: nat :: !Stops(source, start, rootBytes, n) {
        NoStopIsMissing(source, start, rootBytes, 0);
      }
    }
  }

  /** The listings of the directory's sectors, and which sector has the first record for SYSTEM.CNF. */
  predicate SectorListed(source: Source, start: nat, rootBytes: u32, listings: seq<seq<nat>>, i: nat)
    requires i < |listings|
  {
    && i * 2048 < rootBytes && CanRead(source, start + i * 2048, SECTOR_BYTES, i)
    && IsListing(SectorAt(source, start + i * 2048), Available(rootBytes, i * 2048), listings[i])
  }

  predicate NotInSector(source: Source, start: nat, rootBytes: u32, listings: seq<seq<nat>>, i: nat)
    requires i < |listings|
  {
    && SectorListed(source, start, rootBytes, listings, i)
    && FirstCnf(SectorAt(source, start + i * 2048), Available(rootBytes, i * 2048), listings[i], |listings[i]|)
  }

  predicate FirstInDirectory(source: Source, start: nat, rootBytes: u32, listings: seq<seq<nat>>, i: nat, k: nat)
    requires i < |listings|
  {
    && (forall j {:trigger NotInSector(source, start, rootBytes, listings, j)} ::
          0 <= j < i ==> NotInSector(source, start, rootBytes, listings, j))
    && SectorListed(source, start, rootBytes, listings, i) && k < |listings[i]|
    && FirstCnf(SectorAt(source, start + i * 2048), Available(rootBytes, i * 2048), listings[i], k)
  }

  /**
   On a well-formed directory the walk returns the first record, in directory
   order, that names SYSTEM.CNF, if its two byte orders agree.
   */
  lemma {:induction false} DirectoryFindsFirst(source: Source, start: nat, rootBytes: u32, listings: seq<seq<nat>>,
                                               i: nat, k: nat, j: nat)
    requires i < |listings| && FirstInDirectory(source, start, rootBytes, listings, i, k) && j <= i
    ensures listings[i][k] + 34 <= SECTOR_BYTES
    ensures var sector, p := SectorAt(source, start + i * 2048), listings[i][k];
            WalkDirectory(source, start, rootBytes, j * 2048, j) ==
            if EntryAgrees(sector, p) then Found(EntryAt(sector, p)) else InvalidRoot
    decreases i - j
  {
    if j < i {
      SectorPassed(source, start, rootBytes, listings, j);
      DirectoryFindsFirst(source, start, rootBytes, listings, i, k, j + 1);
    } else {
      WalkFindsFirst(SectorAt(source, start + i * 2048), Available(rootBytes, i * 2048), listings[i], k, 0);
    }
  }

  /** A sector without the record is passed over. */
  lemma SectorPassed(source: Source, start: nat, rootBytes: u32, listings: seq<seq<nat>>, j: nat)
    requires j < |listings| && NotInSector(source, start, rootBytes, listings, j)
    ensures WalkDirectory(source, start, rootBytes, j * 2048, j) ==
            WalkDirectory(source, start, rootBytes, (j + 1) * 2048, j + 1)
  {
    WalkFindsFirst(SectorAt(source, start + j * 2048), Available(rootBytes, j * 2048), listings[j], |listings[j]|, 0);
    assert (j + 1) * 2048 == j * 2048 + SECTOR_BYTES;
  }

  lemma {:induction false} AllPassed(source: Source, start: nat, rootBytes: u32, listings: seq<seq<nat>>, j: nat)
    requires j <= |listings| && |listings| * 2048 >= rootBytes
    requires forall i {:trigger NotInSector(source, start, rootBytes, listings, i)} ::
               0 <= i < |listings| ==> NotInSector(source, start, rootBytes, listings, i)
    ensures WalkDirectory(source, start, rootBytes, j * 2048, j) == Missing
    decreases |listings| - j
  {
    if j < |listings| {
      SectorPassed(source, start, rootBytes, listings, j);
      AllPassed(source, start, rootBytes, listings, j + 1);
    }
  }

  lemma {:induction false} FirstRecord(sector: Sector, available: nat, records: seq<nat>, from: nat) returns (k: nat)
    requires available <= SECTOR_BYTES && from <= |records|
    requires forall i {:trigger Names(sector, available, records, i)} ::
               0 <= i < from ==> !Names(sector, available, records, i)
    ensures FirstCnf(sector, available, records, k)
    decreases |records| - from
  {
    if from == |records| || Names(sector, available, records, from) {
      k := from;
    } else {
      k := FirstRecord(sector, available, records, from + 1);
    }
  }

  lemma {:induction false} FirstSector(source: Source, start: nat, rootBytes: u32, listings: seq<seq<nat>>, from: nat)
    returns (i: nat, k: nat)
    requires from <= |listings|
    requires forall j {:trigger SectorListed(source, start, rootBytes, listings, j)} ::
               0 <= j < |listings| ==> SectorListed(source, start, rootBytes, listings, j)
    requires forall j {:trigger NotInSector(source, start, rootBytes, listings, j)} ::
               0 <= j < from ==> NotInSector(source, start, rootBytes, listings, j)
    ensures i < |listings| ==> FirstInDirectory(source, start, rootBytes, listings, i, k)
    ensures i >= |listings| ==> forall j {:trigger NotInSector(source, start, rootBytes, listings, j)} ::
              0 <= j < |listings| ==> NotInSector(source, start, rootBytes, listings, j)
    decreases |listings| - from
  {
    if from == |listings| {
      i, k := from, 0;
    } else {
      assert SectorListed(source, start, rootBytes, listings, from);
      var first := FirstRecord(SectorAt(source, start + from * 2048), Available(rootBytes, from * 2048),
                               listings[from], 0);
      if first < |listings[from]| {
        i, k := from, first;
      } else {
        i, k := FirstSector(source, start, rootBytes, listings, from + 1);
      }
    }
  }

  /** A well-formed directory is reported to lack the record exactly when no sector has it. */
  lemma DirectoryLacks(source: Source, start: nat, rootBytes: u32, listings: seq<seq<nat>>)
    requires |listings| * 2048 >= rootBytes
    requires forall j {:trigger SectorListed(source, start, rootBytes, listings, j)} ::
               0 <= j < |listings| ==> SectorListed(source, start, rootBytes, listings, j)
    ensures WalkDirectory(source, start, rootBytes, 0, 0) == Missing <==>
            forall j {:trigger NotInSector(source, start, rootBytes, listings, j)} ::
              0 <= j < |listings| ==> NotInSector(source, start, rootBytes, listings, j)
  {
    var i, k := FirstSector(source, start, rootBytes, listings, 0);
    if i < |listings| {
      DirectoryFindsFirst(source, start, rootBytes, listings, i, k, 0);
      assert !NotInSector(source, start, rootBytes, listings, i);
    } else {
      AllPassed(source, start, rootBytes, listings, 0);
    }
  }
}
