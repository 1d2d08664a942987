/**
 The durable record of a resumable HDL install: which stages may follow which,
 and the 512-byte encoding with its digest.
 */
module HdlTransaction {
  import opened Words
  import opened HdlMetadata
  import Sha256
  import Sha256Stream

  const PLANNED: u32 := 1
  const PARTITIONS_CREATED: u32 := 2
  const COPYING: u32 := 3
  const PAYLOAD_VERIFIED: u32 := 4
  const METADATA_COMMITTED: u32 := 5
  const COMPLETE: u32 := 6
  const ABORTED: u32 := 7

  const RECORD_SIZE: nat := 512
  const HASH_AT: nat := 480
  const VERSION: u32 := 2
  const MAGIC: seq<byte> := [0x48, 0x44, 0x4c, 0x54, 0x58, 0x4e, 1, 0]

  const TARGET_FIELD: nat := 33
  const STARTUP_FIELD: nat := 60
  const PATH_FIELD: nat := 160
  const TITLE_FIELD: nat := 128

  /** The record as it is held in memory; texts are fixed fields with whatever follows their terminator. */
  datatype Transaction = Transaction(
    stage: u32, sourceBytes: u64, totalSectors: u64, completedSectors: u64, partitionCount: u32,
    fingerprint: seq<byte>, target: seq<byte>, startup: seq<byte>, sourcePath: seq<byte>, gameTitle: seq<byte>,
    discType: u32, layer1Start: u32, flags: seq<byte>)

  /** The sizes the C structure gives its fields. */
  predicate Shaped(t: Transaction) {
    && |t.fingerprint| == 32 && |t.flags| == 4
    && |t.target| == TARGET_FIELD && |t.startup| == STARTUP_FIELD
    && |t.sourcePath| == PATH_FIELD && |t.gameTitle| == TITLE_FIELD
  }

  type Record = t: Transaction | Shaped(t)
    witness Transaction(0, 0, 0, 0, 0, Zeros(32), Zeros(33), Zeros(60), Zeros(160), Zeros(128), 0, 0, Zeros(4))

  /** A text field: not empty, and terminated within its space. */
  predicate TextOk(field: seq<byte>) {
    0 < |TextOf(field)| < |field|
  }

  predicate Valid(t: Record) {
    && PLANNED <= t.stage <= ABORTED
    && t.sourceBytes != 0 && t.sourceBytes % 2048 == 0 && t.totalSectors == t.sourceBytes / 2048
    && t.completedSectors <= t.totalSectors
    && 0 < t.partitionCount <= 65
    && TextOk(t.target) && TextOk(t.startup) && TextOk(t.sourcePath) && TextOk(t.gameTitle)
    && (t.discType == 0x12 || t.discType == 0x14)
    && (t.stage <= PARTITIONS_CREATED ==> t.completedSectors == 0)
    && (PAYLOAD_VERIFIED <= t.stage <= COMPLETE ==> t.completedSectors == t.totalSectors)
  }

  // ----- stages

  predicate TransitionAllowed(from: u32, to: u32) {
    || (from == COPYING && to == COPYING)
    || (to == ABORTED && PLANNED <= from < METADATA_COMMITTED)
    || (PLANNED <= from < COMPLETE && to == from + 1)
  }

  datatype StageCode = StageSet | InvalidStage | ProgressInvalid

  /** What a stage demands of the progress made. */
  predicate ProgressFits(t: Record, stage: u32, completed: u64) {
    && t.completedSectors <= completed <= t.totalSectors
    && (stage <= PARTITIONS_CREATED ==> completed == 0)
    && (PAYLOAD_VERIFIED <= stage <= COMPLETE ==> completed == t.totalSectors)
  }

  function Advanced(t: Record, stage: u32, completed: u64): Record {
    t.(stage := stage, completedSectors := completed)
  }

  lemma AdvancedValid(t: Record, stage: u32, completed: u64)
    requires Valid(t) && TransitionAllowed(t.stage, stage) && completed >= t.completedSectors
    ensures Valid(Advanced(t, stage, completed)) <==> ProgressFits(t, stage, completed)
  {
  }

  /** A successful change of stage. */
  predicate Steps(before: Record, after: Record) {
    && TransitionAllowed(before.stage, after.stage)
    && after == Advanced(before, after.stage, after.completedSectors)
    && before.completedSectors <= after.completedSectors
    && Valid(after)
  }

  /** A record after each of any number of successful changes. */
  predicate IsRun(run: seq<Record>) {
    && |run| > 0 && Valid(run[0]) && run[0].stage == PLANNED
    && forall i :: 0 < i < |run| ==> Steps(run[i - 1], run[i])
  }

  /** What one moment of an install says about every later one. */
  predicate Continues(before: Record, after: Record) {
    && Valid(after)
    && after == Advanced(before, after.stage, after.completedSectors)
    && before.completedSectors <= after.completedSectors
    && before.stage <= after.stage
    && (after.stage == ABORTED ==> before.stage < METADATA_COMMITTED || before.stage == ABORTED)
  }

  /**
   Over every run from a valid planned record: it stays valid, its identity
   never changes, progress and stage never go back, and an install whose
   metadata is committed is never aborted afterwards.
   */
  lemma {:induction false} RunContinues(run: seq<Record>, i: nat, j: nat)
    requires IsRun(run) && i <= j < |run|
    ensures Continues(run[i], run[j])
  {
    if i < j {
      RunContinues(run, i, j - 1);
      assert Steps(run[j - 1], run[j]);
    } else {
      RunValid(run, i);
    }
  }

  lemma {:induction false} RunValid(run: seq<Record>, i: nat)
    requires IsRun(run) && i < |run|
    ensures Valid(run[i])
  {
    if i > 0 {
      assert Steps(run[i - 1], run[i]);
    }
  }

  /** In particular, once the payload is verified every sector has been copied. */
  lemma VerifiedIsComplete(run: seq<Record>, i: nat)
    requires IsRun(run) && i < |run| && PAYLOAD_VERIFIED <= run[i].stage <= COMPLETE
    ensures run[i].completedSectors == run[0].sourceBytes / 2048
  {
    RunContinues(run, 0, i);
  }

  /** The changes of stage there are: the next stage, more copying, or giving up before the metadata is committed. */
  lemma TransitionsAre(from: u32, to: u32)
    ensures TransitionAllowed(from, to) <==>
            (from, to) in {(1, 2), (2, 3), (3, 3), (3, 4), (4, 5), (5, 6), (1, 7), (2, 7), (3, 7), (4, 7)}
  {
  }

  /** The least progress with which the stage after that of `t` can be entered. */
  function NextProgress(t: Record): u64 {
    if 3 <= t.stage <= 5 then t.totalSectors else t.completedSectors
  }

  lemma NextStageSteps(t: Record)
    requires Valid(t) && t.stage < 6
    ensures Steps(t, Advanced(t, t.stage + 1, NextProgress(t)))
  {
    AdvancedValid(t, t.stage + 1, NextProgress(t));
  }

  /** An install that has not been given up can be completed, from wherever it stands. */
  lemma {:induction false} CanBeCompleted(run: seq<Record>) returns (more: seq<Record>)
    requires IsRun(run) && run[|run| - 1].stage <= 6
    ensures IsRun(more) && run <= more && more[|more| - 1].stage == 6
    ensures more[|more| - 1].completedSectors == run[0].sourceBytes / 2048
    decreases 6 - run[|run| - 1].stage
  {
    var last := run[|run| - 1];
    RunValid(run, |run| - 1);
    if last.stage == 6 {
      more := run;
    } else {
      NextStageSteps(last);
      var next := run + [Advanced(last, last.stage + 1, NextProgress(last))];
      forall i | 0 < i < |next| ensures Steps(next[i - 1], next[i]) {
        assert i < |run| ==> Steps(run[i - 1], run[i]);
      }
      more := CanBeCompleted(next);
    }
    VerifiedIsComplete(more, |more| - 1);
  }

  /** And none gets there, or to any stage, without having been through every stage before. */
  lemma {:induction false} NoStageSkipped(run: seq<Record>, j: nat, stage: u32) returns (i: nat)
    requires IsRun(run) && j < |run| && 1 <= stage <= run[j].stage <= 6
    ensures i <= j && run[i].stage == stage
    decreases j
  {
    if run[j].stage == stage {
      i := j;
    } else {
      assert Steps(run[j - 1], run[j]);
      i := NoStageSkipped(run, j - 1, stage);
    }
  }

  class Journal {
    var record: Record

    constructor (record: Record)
      ensures this.record == record
    {
      this.record := record;
    }

    /** Moves a record to its next stage, or leaves it exactly as it was. */
    method SetStage(stage: u32, completed: u64) returns (code: StageCode)
      modifies this
      ensures code.InvalidStage? <==> !TransitionAllowed(old(record).stage, stage)
      ensures record == if code.StageSet? then Advanced(old(record), stage, completed) else old(record)
      ensures code.StageSet? <==> Steps(old(record), Advanced(old(record), stage, completed))
      ensures Valid(old(record)) ==>
                (code.StageSet? <==>
                 TransitionAllowed(old(record).stage, stage) && ProgressFits(old(record), stage, completed))
    {
      if !TransitionAllowed(record.stage, stage) {
        return InvalidStage;
      }
      if completed < record.completedSectors {
        return ProgressInvalid;
      }
      var updated := Advanced(record, stage, completed);
      if Valid(record) {
        AdvancedValid(record, stage, completed);
      }
      if !Valid(updated) {
        return ProgressInvalid;
      }
      record := updated;
      return StageSet;
    }

    /** Encodes the record; an invalid one is refused and nothing is written. */
    method Encode(image: array<byte>) returns (ok: bool)
      requires image.Length == RECORD_SIZE
      modifies image
      ensures ok == Valid(record) && record == old(record)
      ensures image[..] == if ok then Encoded(record) else old(image[..])
    {
      if !Valid(record) {
        return false;
      }
      Clear(image);
      Store(image, 0, Head(record));
      Store(image, 48, record.fingerprint);
      Store(image, 80, TextOf(record.target));
      Store(image, 116, TextOf(record.startup));
      Store(image, 176, TextOf(record.sourcePath));
      Store(image, 336, TextOf(record.gameTitle));
      Store(image, 464, LeBytes32(record.discType) + LeBytes32(record.layer1Start) + record.flags);
      var digest := Sha256Stream.DigestOf(image[..HASH_AT]);
      Store(image, HASH_AT, digest);
      return true;
    }

    /** Takes over a stored record, if it is intact and valid. */
    method Decode(image: seq<byte>) returns (code: DecodeCode)
      requires |image| == RECORD_SIZE
      modifies this
      ensures code.Decoded? <==> Marked(image) && HashMatches(image) && Valid(Stored(image))
      ensures code.HashMismatch? <==> Marked(image) && !HashMatches(image)
      ensures record == if code.Decoded? then Stored(image) else old(record)
    {
      if image[..8] != MAGIC || Le32(image, 8) != VERSION {
        return InvalidRecord;
      }
      var digest := Sha256Stream.DigestOf(image[..HASH_AT]);
      if digest != image[HASH_AT..] {
        return HashMismatch;
      }
      var decoded := Stored(image);
      if !Valid(decoded) {
        return InvalidRecord;
      }
      record := decoded;
      return Decoded;
    }
  }

  // ----- the stored form

  datatype DecodeCode = Decoded | InvalidRecord | HashMismatch

  function Head(t: Record): (h: seq<byte>)
    ensures |h| == 44
  {
    MAGIC + LeBytes32(VERSION) + LeBytes32(t.stage) + LeBytes64(t.sourceBytes) + LeBytes64(t.totalSectors) +
    LeBytes64(t.completedSectors) + LeBytes32(t.partitionCount)
  }

  function Body(t: Record): (b: seq<byte>)
    requires Valid(t)
    ensures |b| == RECORD_SIZE
  {
    var b0 := Splice(Zeros(RECORD_SIZE), 0, Head(t));
    var b1 := Splice(b0, 48, t.fingerprint);
    var b2 := Splice(b1, 80, TextOf(t.target));
    var b3 := Splice(b2, 116, TextOf(t.startup));
    var b4 := Splice(b3, 176, TextOf(t.sourcePath));
    var b5 := Splice(b4, 336, TextOf(t.gameTitle));
    Splice(b5, 464, LeBytes32(t.discType) + LeBytes32(t.layer1Start) + t.flags)
  }

  function Encoded(t: Record): (b: seq<byte>)
    requires Valid(t)
    ensures |b| == RECORD_SIZE
  {
    Splice(Body(t), HASH_AT, Sha256.Digest(Body(t)[..HASH_AT]))
  }

  predicate Marked(image: seq<byte>)
    requires |image| == RECORD_SIZE
  {
    image[..8] == MAGIC && Le32(image, 8) == VERSION
  }

  predicate HashMatches(image: seq<byte>)
    requires |image| == RECORD_SIZE
  {
    image[HASH_AT..] == Sha256.Digest(image[..HASH_AT])
  }

  /** The record that the bytes of an image stand for. */
  function Stored(image: seq<byte>): Record
    requires |image| == RECORD_SIZE
  {
    Transaction(
      Le32(image, 12), Le64(image, 16), Le64(image, 24), Le64(image, 32), Le32(image, 40),
      image[48..80], image[80..112] + [0], image[116..175] + [0], image[176..335] + [0], image[336..463] + [0],
      Le32(image, 464), Le32(image, 468), image[472..476])
  }

  // ----- the round trip

  /** The record with nothing but zeros after the terminators of its texts. */
  function Cleaned(t: Record): Record
    requires Valid(t)
  {
    t.(target := Cleared(t.target), startup := Cleared(t.startup), sourcePath := Cleared(t.sourcePath),
       gameTitle := Cleared(t.gameTitle))
  }

  function Cleared(field: seq<byte>): (r: seq<byte>)
    ensures |r| == |field|
  {
    TextOf(field) + Zeros(|field| - |TextOf(field)|)
  }

  lemma HeadWords(t: Record, image: seq<byte>)
    requires |image| == RECORD_SIZE && image[..44] == Head(t)
    ensures image[..8] == [0x48, 0x44, 0x4c, 0x54, 0x58, 0x4e, 1, 0]
    ensures Le32(image, 8) == 2 && Le32(image, 12) == t.stage
    ensures Le64(image, 16) == t.sourceBytes && Le64(image, 24) == t.totalSectors
    ensures Le64(image, 32) == t.completedSectors && Le32(image, 40) == t.partitionCount
  {
    var h := Head(t);
    assert image[..8] == h[..8];
    assert image[8..12] == h[8..12] == LeBytes32(VERSION);
    assert image[12..16] == h[12..16] == LeBytes32(t.stage);
    assert image[16..24] == h[16..24] == LeBytes64(t.sourceBytes);
    assert image[24..32] == h[24..32] == LeBytes64(t.totalSectors);
    assert image[32..40] == h[32..40] == LeBytes64(t.completedSectors);
    assert image[40..44] == h[40..44] == LeBytes32(t.partitionCount);
    Le32OfBytes(VERSION, image, 8);
    Le32OfBytes(t.stage, image, 12);
    Le64OfBytes(t.sourceBytes, image, 16);
    Le64OfBytes(t.totalSectors, image, 24);
    Le64OfBytes(t.completedSectors, image, 32);
    Le32OfBytes(t.partitionCount, image, 40);
  }

  lemma TailWords(t: Record, image: seq<byte>)
    requires |image| == RECORD_SIZE
    requires image[464..476] == LeBytes32(t.discType) + LeBytes32(t.layer1Start) + t.flags
    ensures Le32(image, 464) == t.discType && Le32(image, 468) == t.layer1Start && image[472..476] == t.flags
  {
    ThreeWords(image, 464, LeBytes32(t.discType), LeBytes32(t.layer1Start), t.flags);
    Le32OfBytes(t.discType, image, 464);
    Le32OfBytes(t.layer1Start, image, 468);
  }

  lemma HeadStored(t: Record)
    requires Valid(t)
    ensures Encoded(t)[..44] == Head(t) && Encoded(t)[48..80] == t.fingerprint
  {
  }

  /** One of the texts of a record, the offset it is stored at, and the bytes it may take there. */
  predicate IsField(t: Record, field: seq<byte>, at: nat, room: nat) {
    || (field == t.target && at == 80 && room == 32)
    || (field == t.startup && at == 116 && room == 59)
    || (field == t.sourcePath && at == 176 && room == 159)
    || (field == t.gameTitle && at == 336 && room == 127)
  }

  /** From `at` on the image holds the text, then zeros. */
  predicate HoldsText(image: seq<byte>, field: seq<byte>, at: nat, room: nat) {
    && at + room <= |image| && TextOk(field) && |field| == room + 1
    && forall i :: 0 <= i < room ==> HeldAt(image, field, at, i)
  }

  predicate HeldAt(image: seq<byte>, field: seq<byte>, at: nat, i: nat) {
    at + i < |image| && image[at + i] == if i < |TextOf(field)| then TextOf(field)[i] else 0
  }

  lemma FieldHeld(t: Record, field: seq<byte>, at: nat, room: nat)
    requires Valid(t) && IsField(t, field, at, room)
    ensures HoldsText(Body(t), field, at, room)
  {
  }

  lemma BodyStored(t: Record, field: seq<byte>, at: nat, room: nat)
    requires Valid(t) && at + room <= HASH_AT && HoldsText(Body(t), field, at, room)
    ensures HoldsText(Encoded(t), field, at, room)
  {
    SpliceKeeps(Body(t), HASH_AT, Sha256.Digest(Body(t)[..HASH_AT]), field, at, room);
  }

  lemma SpliceKeeps(image: seq<byte>, from: nat, data: seq<byte>, field: seq<byte>, at: nat, room: nat)
    requires from + |data| <= |image| && at + room <= from && HoldsText(image, field, at, room)
    ensures HoldsText(Splice(image, from, data), field, at, room)
  {
    forall i | 0 <= i < room ensures HeldAt(Splice(image, from, data), field, at, i) {
      assert HeldAt(image, field, at, i);
    }
  }

  lemma TextCleared(image: seq<byte>, field: seq<byte>, at: nat, room: nat)
    requires HoldsText(image, field, at, room)
    ensures image[at..at + room] + [0] == Cleared(field)
  {
    var stored := image[at..at + room];
    forall i | 0 <= i < room ensures stored[i] == Cleared(field)[i] {
      assert HeldAt(image, field, at, i);
    }
  }

  /** Every text comes back with its tail cleared. */
  lemma FieldStored(t: Record, field: seq<byte>, at: nat, room: nat)
    requires Valid(t) && IsField(t, field, at, room)
    ensures Encoded(t)[at..at + room] + [0] == Cleared(field)
  {
    FieldHeld(t, field, at, room);
    BodyStored(t, field, at, room);
    TextCleared(Encoded(t), field, at, room);
  }

  lemma TailStored(t: Record)
    requires Valid(t)
    ensures Encoded(t)[464..476] == LeBytes32(t.discType) + LeBytes32(t.layer1Start) + t.flags
  {
  }

  lemma ClearedValid(t: Record)
    requires Valid(t)
    ensures Valid(Cleaned(t))
  {
    ClearedText(t.target);
    ClearedText(t.startup);
    ClearedText(t.sourcePath);
    ClearedText(t.gameTitle);
  }

  lemma ClearedText(field: seq<byte>)
    requires TextOk(field)
    ensures TextOf(Cleared(field)) == TextOf(field) && TextOk(Cleared(field))
  {
    var text := TextOf(field);
    assert forall k :: 0 <= k < |text| ==> Cleared(field)[k] == text[k];
    TextOfIs(Cleared(field), |text|);
    assert Cleared(field)[..|text|] == text;
  }

  lemma HashStored(t: Record)
    requires Valid(t)
    ensures HashMatches(Encoded(t))
  {
    assert Encoded(t)[..HASH_AT] == Body(t)[..HASH_AT];
    assert Encoded(t)[HASH_AT..] == Sha256.Digest(Body(t)[..HASH_AT]);
  }

  lemma TextsStored(t: Record)
    requires Valid(t)
    ensures var e := Encoded(t);
            && e[80..112] + [0] == Cleared(t.target) && e[116..175] + [0] == Cleared(t.startup)
            && e[176..335] + [0] == Cleared(t.sourcePath) && e[336..463] + [0] == Cleared(t.gameTitle)
  {
    FieldStored(t, t.target, 80, 32);
    FieldStored(t, t.startup, 116, 59);
    FieldStored(t, t.sourcePath, 176, 159);
    FieldStored(t, t.gameTitle, 336, 127);
  }

  /**
   Round trip: decoding an encoded record gives it back, up to the bytes after
   the terminators of its texts.
   */
  lemma DecodeEncoded(t: Record)
    requires Valid(t)
    ensures Marked(Encoded(t)) && HashMatches(Encoded(t))
    ensures Stored(Encoded(t)) == Cleaned(t) && Valid(Cleaned(t))
  {
    HashStored(t);
    HeadStored(t);
    TailStored(t);
    HeadWords(t, Encoded(t));
    TailWords(t, Encoded(t));
    TextsStored(t);
    ClearedValid(t);
  }
}
