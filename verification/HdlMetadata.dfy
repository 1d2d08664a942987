/**
 The 1024-byte HDLoader metadata block: building it from a plan, and parsing
 it back.
 */
module HdlMetadata {
  import opened Words
  import opened HdlPartition

  const METADATA_SIZE: nat := 1024
  const INFO_MAGIC: u32 := 0xDEAD_FEED
  const TITLE_MAX: nat := 160
  const STARTUP_MAX: nat := 60

  const TITLE_AT := 8
  const FLAGS_AT := 168
  const STARTUP_AT := 172
  const LAYER_AT := 232
  const DISC_AT := 236
  const COUNT_AT := 240
  const ENTRIES_AT := 244

  /** The bytes of a C string, without its terminator. */
  type CString = s: seq<byte> | forall i :: 0 <= i < |s| ==> s[i] != 0 witness []

  datatype Options = Options(
    title: CString, startup: CString, discType: u32, layer1Start: u32,
    hdlFlags: byte, oplFlags: byte, dmaType: byte, dmaMode: byte)

  datatype BuildCode = Built | InvalidArgument | TextInvalid | RangeInvalid

  datatype Info = Info(
    title: CString, startup: CString, version: u32, discType: u32, layer1Start: u32,
    partitionCount: nat, hdlFlags: byte, oplFlags: byte, dmaType: byte, dmaMode: byte)

  predicate TextFits(text: CString, capacity: nat) { 0 < |text| < capacity }

  // ----- when a block can be built

  function DataStart(start: u32, i: nat): int { start + Overhead(i) / 512 }

  /** Entry `i` continues the image at `expected` and lies in its partition. */
  predicate EntryOk(plan: Plan, starts: seq<u32>, i: nat, expected: int)
    requires i < |plan.slices| && |starts| == |plan.slices|
  {
    var s := plan.slices[i];
    && s.allocation > Overhead(i)
    && s.payloadOffset == expected
    && s.payloadOffset % 2048 == 0 && s.payload % 2048 == 0
    && s.payload <= s.allocation - Overhead(i)
    && DataStart(starts[i], i) < TWO_32 && s.payloadOffset / 2048 < TWO_32
  }

  predicate EntryFits(plan: Plan, starts: seq<u32>, i: nat)
    requires i < |plan.slices| && |starts| == |plan.slices|
  {
    EntryOk(plan, starts, i, PayloadSum(plan.slices[..i]))
  }

  predicate EntriesOkTo(plan: Plan, starts: seq<u32>, n: nat)
    requires n <= |plan.slices| == |starts|
  {
    forall i {:trigger EntryFits(plan, starts, i)} :: 0 <= i < n ==> EntryFits(plan, starts, i)
  }

  predicate EntriesOk(plan: Plan, starts: seq<u32>)
    requires |starts| == |plan.slices|
  {
    && EntriesOkTo(plan, starts, |plan.slices|)
    && PayloadSum(plan.slices) == plan.imageBytes
  }

  predicate Buildable(plan: Plan, starts: seq<u32>, options: Options) {
    && 0 < |plan.slices| <= MAX_PARTITIONS && |starts| == |plan.slices|
    && TextFits(options.title, TITLE_MAX) && TextFits(options.startup, STARTUP_MAX)
    && EntriesOk(plan, starts)
  }

  // ----- the block

  function Texts(options: Options): (b: seq<byte>)
    requires TextFits(options.title, TITLE_MAX) && TextFits(options.startup, STARTUP_MAX)
    ensures |b| == METADATA_SIZE
  {
    Splice(Splice(Zeros(METADATA_SIZE), TITLE_AT, options.title), STARTUP_AT, options.startup)
  }

  function Fields(options: Options, count: u32): (b: seq<byte>)
    requires TextFits(options.title, TITLE_MAX) && TextFits(options.startup, STARTUP_MAX)
    ensures |b| == METADATA_SIZE
  {
    var b0 := Splice(Texts(options), 0, LeBytes32(INFO_MAGIC) + [0, 0, 1, 0]);
    var b1 := Splice(b0, FLAGS_AT, [options.hdlFlags, options.oplFlags, options.dmaType, options.dmaMode]);
    Splice(b1, LAYER_AT, LeBytes32(options.layer1Start) + LeBytes32(options.discType) + LeBytes32(count))
  }

  predicate InRange(s: Slice, start: u32, i: nat) {
    s.payloadOffset / 2048 < TWO_32 && DataStart(start, i) < TWO_32
  }

  predicate AllInRange(slices: seq<Slice>, starts: seq<u32>, n: nat)
    requires n <= |slices| == |starts|
  {
    forall i {:trigger InRange(slices[i], starts[i], i)} :: 0 <= i < n ==> InRange(slices[i], starts[i], i)
  }

  function Entry(s: Slice, start: u32, i: nat): (e: seq<byte>)
    requires InRange(s, start, i)
    ensures |e| == 12
  {
    LeBytes32(s.payloadOffset / 2048) + LeBytes32(DataStart(start, i)) + LeBytes32(s.payload)
  }

  function WithEntries(b: seq<byte>, slices: seq<Slice>, starts: seq<u32>, n: nat): (r: seq<byte>)
    requires |b| == METADATA_SIZE && n <= |slices| <= MAX_PARTITIONS && |starts| == |slices|
    requires AllInRange(slices, starts, n)
    ensures |r| == METADATA_SIZE
  {
    if n == 0 then b
    else Splice(WithEntries(b, slices, starts, n - 1), ENTRIES_AT + 12 * (n - 1),
                Entry(slices[n - 1], starts[n - 1], n - 1))
  }

  lemma EntriesInRange(plan: Plan, starts: seq<u32>)
    requires |starts| == |plan.slices| && EntriesOk(plan, starts)
    ensures AllInRange(plan.slices, starts, |plan.slices|)
  {
    forall i | 0 <= i < |plan.slices| ensures InRange(plan.slices[i], starts[i], i) {
      assert EntryFits(plan, starts, i);
    }
  }

  function Block(plan: Plan, starts: seq<u32>, options: Options): (b: seq<byte>)
    requires Buildable(plan, starts, options)
    ensures |b| == METADATA_SIZE
  {
    EntriesInRange(plan, starts);
    WithEntries(Fields(options, |plan.slices|), plan.slices, starts, |plan.slices|)
  }

  // ----- building

  method Store(a: array<byte>, at: nat, data: seq<byte>)
    requires at + |data| <= a.Length
    modifies a
    ensures a[..] == Splice(old(a[..]), at, data)
  {
    var i := 0;
    while i < |data|
      invariant 0 <= i <= |data|
      invariant forall k :: 0 <= k < a.Length ==> a[k] == if at <= k < at + i then data[k - at] else old(a[k])
    {
      a[at + i] := data[i];
      i := i + 1;
    }
  }

  method Clear(a: array<byte>)
    modifies a
    ensures a[..] == Zeros(a.Length)
  {
    var i := 0;
    while i < a.Length
      invariant 0 <= i <= a.Length
      invariant forall k :: 0 <= k < i ==> a[k] == 0
    {
      a[i] := 0;
      i := i + 1;
    }
  }

  /** Writes the block, or refuses; it is built exactly when the plan, starts and texts allow it. */
  method Build(plan: Plan, starts: seq<u32>, options: Options, metadata: array<byte>) returns (code: BuildCode)
    requires metadata.Length == METADATA_SIZE
    modifies metadata
    ensures code.Built? <==> Buildable(plan, starts, options)
    ensures code.Built? ==> metadata[..] == Block(plan, starts, options)
    ensures code.InvalidArgument? <==>
              |plan.slices| == 0 || |plan.slices| > MAX_PARTITIONS || |starts| != |plan.slices|
    ensures code.TextInvalid? ==> !TextFits(options.title, TITLE_MAX) || !TextFits(options.startup, STARTUP_MAX)
  {
    if |plan.slices| == 0 || |plan.slices| > MAX_PARTITIONS || |starts| != |plan.slices| {
      return BuildCode.InvalidArgument;
    }
    Clear(metadata);
    if !TextFits(options.title, TITLE_MAX) || !TextFits(options.startup, STARTUP_MAX) {
      return TextInvalid;
    }
    Store(metadata, TITLE_AT, options.title);
    Store(metadata, STARTUP_AT, options.startup);
    Store(metadata, 0, LeBytes32(INFO_MAGIC) + [0, 0, 1, 0]);
    Store(metadata, FLAGS_AT, [options.hdlFlags, options.oplFlags, options.dmaType, options.dmaMode]);
    Store(metadata, LAYER_AT, LeBytes32(options.layer1Start) + LeBytes32(options.discType) + LeBytes32(|plan.slices|));
    code := BuildEntries(plan, starts, metadata);
  }

  /** Everything that holds for the entries before slice `i`, the bytes written for them being `b`. */
  ghost predicate EntriesDone(plan: Plan, starts: seq<u32>, fields: seq<byte>, b: seq<byte>, i: nat, expected: int)
    requires |fields| == METADATA_SIZE && i <= |plan.slices| <= MAX_PARTITIONS && |starts| == |plan.slices|
  {
    && expected == PayloadSum(plan.slices[..i])
    && EntriesOkTo(plan, starts, i) && AllInRange(plan.slices, starts, i)
    && b == WithEntries(fields, plan.slices, starts, i)
  }

  /** Writes entry `i`, if the slice continues the image and lies in its partition. */
  method PutEntry(plan: Plan, starts: seq<u32>, metadata: array<byte>, i: nat, expected: int, ghost fields: seq<byte>)
    returns (ok: bool)
    requires metadata.Length == |fields| == METADATA_SIZE
    requires i < |plan.slices| == |starts| && |plan.slices| <= MAX_PARTITIONS
    requires EntriesDone(plan, starts, fields, metadata[..], i, expected)
    modifies metadata
    ensures ok ==> EntriesDone(plan, starts, fields, metadata[..], i + 1, expected + plan.slices[i].payload)
    ensures !ok ==> !EntriesOkTo(plan, starts, |plan.slices|)
  {
    ok := EntryOk(plan, starts, i, expected);
    assert ok == EntryFits(plan, starts, i);
    if ok {
      Store(metadata, ENTRIES_AT + 12 * i, Entry(plan.slices[i], starts[i], i));
      assert plan.slices[..i + 1][..i] == plan.slices[..i];
    }
  }

  /** Writes the entries up to the first slice that does not fit. */
  method PutEntries(plan: Plan, starts: seq<u32>, metadata: array<byte>) returns (ok: bool, expected: int)
    requires metadata.Length == METADATA_SIZE && |plan.slices| <= MAX_PARTITIONS && |starts| == |plan.slices|
    modifies metadata
    ensures ok == EntriesOkTo(plan, starts, |plan.slices|)
    ensures ok ==> EntriesDone(plan, starts, old(metadata[..]), metadata[..], |plan.slices|, expected)
  {
    ghost var fields := metadata[..];
    expected, ok := 0, true;
    var i := 0;
    while ok && i < |plan.slices|
      invariant 0 <= i <= |plan.slices|
      invariant if ok then EntriesDone(plan, starts, fields, metadata[..], i, expected)
                else !EntriesOkTo(plan, starts, |plan.slices|)
      decreases |plan.slices| - i, ok
    {
      ok := PutEntry(plan, starts, metadata, i, expected, fields);
      if ok {
        expected := expected + plan.slices[i].payload;
        i := i + 1;
      }
    }
  }

  method BuildEntries(plan: Plan, starts: seq<u32>, metadata: array<byte>) returns (code: BuildCode)
    requires metadata.Length == METADATA_SIZE && |plan.slices| <= MAX_PARTITIONS && |starts| == |plan.slices|
    modifies metadata
    ensures code in {Built, RangeInvalid} && (code.Built? <==> EntriesOk(plan, starts))
    ensures code.Built? ==> AllInRange(plan.slices, starts, |plan.slices|) &&
                            metadata[..] == WithEntries(old(metadata[..]), plan.slices, starts, |plan.slices|)
  {
    var ok, expected := PutEntries(plan, starts, metadata);
    assert plan.slices[..|plan.slices|] == plan.slices;
    if !ok || expected != plan.imageBytes {
      return RangeInvalid;
    }
    return Built;
  }

  // ----- parsing

  /** The bytes of a text field before its first zero. */
  function TextOf(field: seq<byte>): (t: CString)
    ensures |t| <= |field| && t <= field
    ensures |t| < |field| ==> field[|t|] == 0
  {
    if field == [] || field[0] == 0 then [] else
      var rest := TextOf(field[1..]);
      [field[0]] + rest
  }

  predicate TextValid(text: CString) {
    |text| > 0 && forall i :: 0 <= i < |text| ==> 0x20 <= text[i] && text[i] != 0x7f
  }

  /** Copies a text field out of a block, if it is not empty and holds no control characters. */
  method ReadText(field: seq<byte>) returns (r: Option<CString>)
    ensures r == if TextValid(TextOf(field)) then Some(TextOf(field)) else None
  {
    var length := 0;
    while length < |field| && field[length] != 0
      invariant 0 <= length <= |field|
      invariant forall k :: 0 <= k < length ==> field[k] != 0
    {
      length := length + 1;
    }
    TextOfIs(field, length);
    if length == 0 {
      return None;
    }
    var i := 0;
    while i < length
      invariant 0 <= i <= length
      invariant forall k :: 0 <= k < i ==> 0x20 <= field[k] && field[k] != 0x7f
    {
      if field[i] < 0x20 || field[i] == 0x7f {
        assert !TextValid(TextOf(field));
        return None;
      }
      i := i + 1;
    }
    return Some(field[..length]);
  }

  lemma {:induction false} TextOfIs(field: seq<byte>, length: nat)
    requires length <= |field| && forall k :: 0 <= k < length ==> field[k] != 0
    requires length < |field| ==> field[length] == 0
    ensures TextOf(field) == field[..length]
  {
    if length > 0 {
      TextOfIs(field[1..], length - 1);
      assert field[..length] == [field[0]] + field[1..][..length - 1];
    }
  }

  predicate BlockValid(b: seq<byte>)
    requires |b| == METADATA_SIZE
  {
    && Le32(b, 0) == INFO_MAGIC
    && 0 < Le32(b, COUNT_AT) <= MAX_PARTITIONS
    && (Le32(b, DISC_AT) == 0x12 || Le32(b, DISC_AT) == 0x14)
    && TextValid(TextOf(b[TITLE_AT..TITLE_AT + TITLE_MAX]))
    && TextValid(TextOf(b[STARTUP_AT..STARTUP_AT + STARTUP_MAX]))
  }

  function InfoOf(b: seq<byte>): Info
    requires |b| == METADATA_SIZE && BlockValid(b)
  {
    Info(TextOf(b[TITLE_AT..TITLE_AT + TITLE_MAX]), TextOf(b[STARTUP_AT..STARTUP_AT + STARTUP_MAX]),
         Le32(b, 4), Le32(b, DISC_AT), Le32(b, LAYER_AT), Le32(b, COUNT_AT),
         b[FLAGS_AT], b[FLAGS_AT + 1], b[FLAGS_AT + 2], b[FLAGS_AT + 3])
  }

  method Parse(b: seq<byte>) returns (r: Option<Info>)
    requires |b| == METADATA_SIZE
    ensures r.Some? <==> BlockValid(b)
    ensures r.Some? ==> r.value == InfoOf(b)
  {
    var count := Le32(b, COUNT_AT);
    if Le32(b, 0) != INFO_MAGIC || count == 0 || count > MAX_PARTITIONS ||
       (Le32(b, DISC_AT) != 0x12 && Le32(b, DISC_AT) != 0x14) {
      return None;
    }
    var title := ReadText(b[TITLE_AT..TITLE_AT + TITLE_MAX]);
    if title.None? {
      return None;
    }
    var startup := ReadText(b[STARTUP_AT..STARTUP_AT + STARTUP_MAX]);
    if startup.None? {
      return None;
    }
    r := Some(Info(title.value, startup.value, Le32(b, 4), Le32(b, DISC_AT), Le32(b, LAYER_AT), count,
                   b[FLAGS_AT], b[FLAGS_AT + 1], b[FLAGS_AT + 2], b[FLAGS_AT + 3]));
  }

  // ----- the round trip

  lemma SplicedRun(s: seq<byte>, at: nat, data: seq<byte>, from: nat, n: nat)
    requires at + |data| <= |s| && from + n <= |data|
    ensures Splice(s, at, data)[at + from..at + from + n] == data[from..from + n]
  {
  }

  lemma SplicedElsewhere(s: seq<byte>, at: nat, data: seq<byte>, from: nat, n: nat)
    requires at + |data| <= |s| && from + n <= |s| && (from + n <= at || at + |data| <= from)
    ensures Splice(s, at, data)[from..from + n] == s[from..from + n]
  {
  }

  /** Entries leave everything before them alone. */
  lemma {:induction false} EntriesKeepFields(b: seq<byte>, slices: seq<Slice>, starts: seq<u32>, n: nat, i: nat)
    requires |b| == METADATA_SIZE && n <= |slices| <= MAX_PARTITIONS && |starts| == |slices|
    requires AllInRange(slices, starts, n) && i < ENTRIES_AT
    ensures WithEntries(b, slices, starts, n)[i] == b[i]
  {
    if n > 0 {
      EntriesKeepFields(b, slices, starts, n - 1, i);
    }
  }

  /** Entry `k` is where it was written. */
  lemma {:induction false} EntryAt(b: seq<byte>, slices: seq<Slice>, starts: seq<u32>, n: nat, k: nat)
    requires |b| == METADATA_SIZE && n <= |slices| <= MAX_PARTITIONS && |starts| == |slices|
    requires AllInRange(slices, starts, n) && k < n
    ensures WithEntries(b, slices, starts, n)[ENTRIES_AT + 12 * k..ENTRIES_AT + 12 * k + 12] ==
            Entry(slices[k], starts[k], k)
  {
    var earlier := WithEntries(b, slices, starts, n - 1);
    var e := Entry(slices[n - 1], starts[n - 1], n - 1);
    if k == n - 1 {
      SplicedRun(earlier, ENTRIES_AT + 12 * k, e, 0, 12);
      assert e[0..12] == e;
    } else {
      EntryAt(b, slices, starts, n - 1, k);
      SplicedElsewhere(earlier, ENTRIES_AT + 12 * (n - 1), e, ENTRIES_AT + 12 * k, 12);
    }
  }

  /** What entry `k` of a block says: where in the image, where on the disk, how much. */
  function EntryImageOffset(b: seq<byte>, k: nat): int
    requires |b| == METADATA_SIZE && k < MAX_PARTITIONS
  {
    Le32(b, ENTRIES_AT + 12 * k) * 2048
  }

  function EntryDataStart(b: seq<byte>, k: nat): u32
    requires |b| == METADATA_SIZE && k < MAX_PARTITIONS
  {
    Le32(b, ENTRIES_AT + 12 * k + 4)
  }

  function EntryBytes(b: seq<byte>, k: nat): u32
    requires |b| == METADATA_SIZE && k < MAX_PARTITIONS
  {
    Le32(b, ENTRIES_AT + 12 * k + 8)
  }

  lemma ThreeWords(b: seq<byte>, at: nat, x: seq<byte>, y: seq<byte>, z: seq<byte>)
    requires at + 12 <= |b| && |x| == |y| == |z| == 4 && b[at..at + 12] == x + y + z
    ensures b[at..at + 4] == x && b[at + 4..at + 8] == y && b[at + 8..at + 12] == z
  {
    var w := x + y + z;
    SubRun(b, at, w, 0, 4);
    SubRun(b, at, w, 4, 4);
    SubRun(b, at, w, 8, 4);
    assert w[0..4] == x && w[4..8] == y && w[8..12] == z;
  }

  lemma SubRun(b: seq<byte>, at: nat, w: seq<byte>, from: nat, n: nat)
    requires at + |w| <= |b| && b[at..at + |w|] == w && from + n <= |w|
    ensures b[at + from..at + from + n] == w[from..from + n]
  {
    var l, r := b[at + from..at + from + n], w[from..from + n];
    forall i | 0 <= i < n ensures l[i] == r[i] {
      assert b[at..at + |w|][from + i] == b[at + from + i];
    }
  }

  lemma ReadEntry(b: seq<byte>, at: nat, s: Slice, start: u32, k: nat)
    requires at + 12 <= |b| && InRange(s, start, k) && b[at..at + 12] == Entry(s, start, k)
    ensures Le32(b, at) == s.payloadOffset / 2048
    ensures Le32(b, at + 4) == DataStart(start, k)
    ensures Le32(b, at + 8) == s.payload
  {
    ThreeWords(b, at, LeBytes32(s.payloadOffset / 2048), LeBytes32(DataStart(start, k)), LeBytes32(s.payload));
    Le32OfBytes(s.payloadOffset / 2048, b, at);
    Le32OfBytes(DataStart(start, k), b, at + 4);
    Le32OfBytes(s.payload, b, at + 8);
  }

  lemma BlockEntry(plan: Plan, starts: seq<u32>, options: Options, k: nat)
    requires Buildable(plan, starts, options) && k < |plan.slices|
    ensures var b := Block(plan, starts, options);
            && EntryImageOffset(b, k) == plan.slices[k].payloadOffset == PayloadSum(plan.slices[..k])
            && EntryDataStart(b, k) == DataStart(starts[k], k)
            && EntryBytes(b, k) == plan.slices[k].payload
  {
    EntriesInRange(plan, starts);
    assert EntryFits(plan, starts, k);
    EntryAt(Fields(options, |plan.slices|), plan.slices, starts, |plan.slices|, k);
    ReadEntry(Block(plan, starts, options), ENTRIES_AT + 12 * k, plan.slices[k], starts[k], k);
  }

  /** The words and bytes of the fixed fields, as they stand in the block. */
  lemma FixedFields(options: Options, count: u32)
    requires TextFits(options.title, TITLE_MAX) && TextFits(options.startup, STARTUP_MAX)
    ensures var b := Fields(options, count);
            && Le32(b, 0) == INFO_MAGIC && Le32(b, 4) == 0x1_0000
            && Le32(b, LAYER_AT) == options.layer1Start && Le32(b, DISC_AT) == options.discType
            && Le32(b, COUNT_AT) == count
            && b[FLAGS_AT] == options.hdlFlags && b[FLAGS_AT + 1] == options.oplFlags
            && b[FLAGS_AT + 2] == options.dmaType && b[FLAGS_AT + 3] == options.dmaMode
  {
    var b := Fields(options, count);
    var l, d, c := LeBytes32(options.layer1Start), LeBytes32(options.discType), LeBytes32(count);
    assert b[LAYER_AT..LAYER_AT + 12] == l + d + c;
    ThreeWords(b, LAYER_AT, l, d, c);
    Le32OfBytes(options.layer1Start, b, LAYER_AT);
    Le32OfBytes(options.discType, b, DISC_AT);
    Le32OfBytes(count, b, COUNT_AT);
    var m := LeBytes32(INFO_MAGIC);
    assert b[0..8] == m + [0, 0, 1, 0];
    assert forall i :: 0 <= i < 8 ==> b[i] == (m + [0, 0, 1, 0])[i];
    assert b[0..4] == m;
    Le32OfBytes(INFO_MAGIC, b, 0);
    assert b[4] == 0 && b[5] == 0 && b[6] == 1 && b[7] == 0;
  }

  lemma TextField(b: seq<byte>, at: nat, capacity: nat, text: CString)
    requires at + capacity <= |b| && |text| < capacity
    requires b[at..at + |text|] == text && b[at + |text|] == 0
    ensures TextOf(b[at..at + capacity]) == text
  {
    var field := b[at..at + capacity];
    assert field[..|text|] == text;
    assert forall k :: 0 <= k < |text| ==> field[k] == text[k];
    TextOfIs(field, |text|);
  }

  lemma TextFields(options: Options, count: u32)
    requires TextFits(options.title, TITLE_MAX) && TextFits(options.startup, STARTUP_MAX)
    ensures var b := Fields(options, count);
            && TextOf(b[TITLE_AT..TITLE_AT + TITLE_MAX]) == options.title
            && TextOf(b[STARTUP_AT..STARTUP_AT + STARTUP_MAX]) == options.startup
  {
    var b := Fields(options, count);
    assert b[TITLE_AT..TITLE_AT + |options.title|] == options.title;
    assert b[STARTUP_AT..STARTUP_AT + |options.startup|] == options.startup;
    TextField(b, TITLE_AT, TITLE_MAX, options.title);
    TextField(b, STARTUP_AT, STARTUP_MAX, options.startup);
  }

  /** A parser sees only the fields before the entries. */
  lemma SameFields(a: seq<byte>, b: seq<byte>)
    requires |a| == |b| == METADATA_SIZE && forall i :: 0 <= i < ENTRIES_AT ==> a[i] == b[i]
    ensures BlockValid(a) <==> BlockValid(b)
    ensures BlockValid(a) ==> InfoOf(a) == InfoOf(b)
  {
    assert a[TITLE_AT..TITLE_AT + TITLE_MAX] == b[TITLE_AT..TITLE_AT + TITLE_MAX];
    assert a[STARTUP_AT..STARTUP_AT + STARTUP_MAX] == b[STARTUP_AT..STARTUP_AT + STARTUP_MAX];
  }

  predicate OptionsValid(options: Options) {
    && TextFits(options.title, TITLE_MAX) && TextFits(options.startup, STARTUP_MAX)
    && TextValid(options.title) && TextValid(options.startup)
    && (options.discType == 0x12 || options.discType == 0x14)
  }

  /**
   Metadata round trip: a block that was built parses back to the title,
   startup, flags, layer break, disc type and partition count it was built
   from, exactly when the texts and the disc type are ones a reader accepts.
   */
  lemma BuildParseRoundTrip(plan: Plan, starts: seq<u32>, options: Options)
    requires Buildable(plan, starts, options)
    ensures BlockValid(Block(plan, starts, options)) <==> OptionsValid(options)
    ensures OptionsValid(options) ==>
              InfoOf(Block(plan, starts, options)) ==
              Info(options.title, options.startup, 0x1_0000, options.discType, options.layer1Start,
                   |plan.slices|, options.hdlFlags, options.oplFlags, options.dmaType, options.dmaMode)
  {
    EntriesInRange(plan, starts);
    var fields := Fields(options, |plan.slices|);
    forall i | 0 <= i < ENTRIES_AT ensures Block(plan, starts, options)[i] == fields[i] {
      EntriesKeepFields(fields, plan.slices, starts, |plan.slices|, i);
    }
    SameFields(Block(plan, starts, options), fields);
    FixedFields(options, |plan.slices|);
    TextFields(options, |plan.slices|);
  }

  /** Before the entries a block is its fixed fields. */
  lemma BlockStarts(plan: Plan, starts: seq<u32>, options: Options)
    requires Buildable(plan, starts, options)
    ensures Block(plan, starts, options)[..244] == Fields(options, |plan.slices|)[..244]
  {
    EntriesInRange(plan, starts);
    forall i | 0 <= i < 244
      ensures Block(plan, starts, options)[i] == Fields(options, |plan.slices|)[i]
    {
      EntriesKeepFields(Fields(options, |plan.slices|), plan.slices, starts, |plan.slices|, i);
    }
  }

  lemma SameRuns(b: seq<byte>, fields: seq<byte>)
    requires |b| == |fields| == 1024 && b[..244] == fields[..244]
    ensures forall i :: 0 <= i < 244 ==> b[i] == fields[i]
    ensures b[..8] == fields[..8] && b[8..168] == fields[8..168] && b[172..232] == fields[172..232]
  {
    assert forall i :: 0 <= i < 244 ==> b[i] == b[..244][i] == fields[..244][i] == fields[i];
  }

  lemma FieldBytes(b: seq<byte>, fields: seq<byte>, options: Options, count: u32)
    requires TextFits(options.title, TITLE_MAX) && TextFits(options.startup, STARTUP_MAX)
    requires |b| == 1024 && fields == Fields(options, count) && b[..244] == fields[..244]
    ensures b[..8] == [0xed, 0xfe, 0xad, 0xde, 0, 0, 1, 0]
    ensures TextOf(b[8..168]) == options.title && TextOf(b[172..232]) == options.startup
    ensures b[168..172] == [options.hdlFlags, options.oplFlags, options.dmaType, options.dmaMode]
    ensures Le32(b, 232) == options.layer1Start && Le32(b, 236) == options.discType && Le32(b, 240) == count
  {
    FixedFields(options, count);
    TextFields(options, count);
    SameRuns(b, fields);
    assert fields[..8] == LeBytes32(INFO_MAGIC) + [0, 0, 1, 0];
  }

  /** The bytes of a built block, at the offsets where a game loader looks for them. */
  lemma BlockBytes(plan: Plan, starts: seq<u32>, options: Options)
    requires Buildable(plan, starts, options)
    ensures var b := Block(plan, starts, options);
            && b[..8] == [0xed, 0xfe, 0xad, 0xde, 0, 0, 1, 0]
            && TextOf(b[8..168]) == options.title && TextOf(b[172..232]) == options.startup
            && b[168..172] == [options.hdlFlags, options.oplFlags, options.dmaType, options.dmaMode]
            && Le32(b, 232) == options.layer1Start && Le32(b, 236) == options.discType
            && Le32(b, 240) == |plan.slices|
    ensures forall k :: 0 <= k < |plan.slices| ==> EntryBytesAre(Block(plan, starts, options), plan, starts, k)
  {
    BlockStarts(plan, starts, options);
    FieldBytes(Block(plan, starts, options), Fields(options, |plan.slices|), options, |plan.slices|);
    forall k | 0 <= k < |plan.slices| ensures EntryBytesAre(Block(plan, starts, options), plan, starts, k) {
      BlockEntry(plan, starts, options, k);
    }
  }

  /** Entry `k`: image sector, start of the data behind the partition's overhead, and length. */
  predicate EntryBytesAre(b: seq<byte>, plan: Plan, starts: seq<u32>, k: nat)
    requires |b| == METADATA_SIZE && k < |plan.slices| <= MAX_PARTITIONS && |starts| == |plan.slices|
  {
    var start: int := starts[k];
    && Le32(b, 244 + 12 * k) * 2048 == PayloadSum(plan.slices[..k])
    && Le32(b, 248 + 12 * k) == start + (if k == 0 then 0x2000 else 0x800)
    && Le32(b, 252 + 12 * k) == plan.slices[k].payload
  }

  // ----- planner-produced plans

  lemma {:induction false} FullCapacityAligned(m: int, n: nat)
    requires Standard(m)
    ensures FullCapacity(m, n) % 2048 == 0
  {
    if n > 0 {
      FullCapacityAligned(m, n - 1);
      SizesAligned(m);
    }
  }

  /** Every plan of the planner can be built, if its data starts fit 32 bits and the texts fit. */
  lemma PlannerPlansBuild(plan: Plan, starts: seq<u32>, options: Options, largest: int)
    requires Standard(largest) && Greedy(plan.slices, plan.imageBytes, largest) && Tiles(plan.slices)
    requires |plan.slices| <= MAX_PARTITIONS && plan.imageBytes % 2048 == 0 && |starts| == |plan.slices|
    requires forall i :: 0 <= i < |starts| ==> DataStart(starts[i], i) < TWO_32
    requires TextFits(options.title, TITLE_MAX) && TextFits(options.startup, STARTUP_MAX)
    ensures Buildable(plan, starts, options)
  {
    forall i {:trigger EntryFits(plan, starts, i)} | 0 <= i < |plan.slices| ensures EntryFits(plan, starts, i) {
      PlannerEntry(plan, starts, largest, i);
    }
  }

  lemma SizesAligned(size: int)
    requires Standard(size)
    ensures size % 2048 == 0 && (size - MAIN_DATA_OFFSET) % 2048 == 0 && (size - SUB_DATA_OFFSET) % 2048 == 0
    ensures MAIN_DATA_OFFSET < size <= 4096 * MIB
  {
  }

  lemma DifferenceAligned(a: int, b: int)
    requires a % 2048 == 0 && b % 2048 == 0
    ensures (a - b) % 2048 == 0
  {
  }

  lemma PlannerPayload(slices: seq<Slice>, image: int, largest: int, i: nat)
    requires Standard(largest) && Greedy(slices, image, largest) && image % 2048 == 0 && i < |slices|
    ensures slices[i].payload % 2048 == 0 && slices[i].payload <= slices[i].allocation - Overhead(i)
    ensures slices[i].allocation > Overhead(i)
  {
    SizesAligned(slices[i].allocation);
    var last := |slices| - 1;
    if i == last {
      GreedyCapacity(slices, image, largest, last);
      FullCapacityAligned(largest, last);
      assert slices == slices[..last] + [slices[last]];
      OneMoreSlice(slices[..last], slices[last]);
      DifferenceAligned(image, FullCapacity(largest, last));
    }
  }

  lemma PlannerEntry(plan: Plan, starts: seq<u32>, largest: int, i: nat)
    requires Standard(largest) && Greedy(plan.slices, plan.imageBytes, largest) && Tiles(plan.slices)
    requires |plan.slices| <= MAX_PARTITIONS && plan.imageBytes % 2048 == 0
    requires |starts| == |plan.slices| && i < |plan.slices| && DataStart(starts[i], i) < TWO_32
    ensures EntryFits(plan, starts, i)
  {
    assert Continues(plan.slices, i);
    PlannerPayload(plan.slices, plan.imageBytes, largest, i);
    PlannerOffset(plan.slices, plan.imageBytes, largest, i);
  }

  lemma PlannerOffset(slices: seq<Slice>, image: int, largest: int, i: nat)
    requires Standard(largest) && Greedy(slices, image, largest) && i < |slices| <= MAX_PARTITIONS
    ensures PayloadSum(slices[..i]) % 2048 == 0 && PayloadSum(slices[..i]) / 2048 < TWO_32
  {
    GreedyCapacity(slices, image, largest, i);
    FullCapacityAligned(largest, i);
    CapacityGrows(largest, i, MAX_PARTITIONS);
    FullSizeIs(largest, MAX_PARTITIONS);
    SizesAligned(largest);
  }
}
