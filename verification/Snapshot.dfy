/**
 The HDDMETA snapshot of a repair: every header the plan will touch, as it was
 scanned.
 */
module Snapshot {
  import opened Words
  import opened Forensic
  import opened ForensicMaps
  import opened ForensicPlan
  import opened SnapshotFile
  import HdlMetadata

  const MAGIC: seq<byte> := [0x41, 0x50, 0x41, 0x4d, 0x45, 0x54, 0x41, 0x31]
  const VERSION: u32 := 1

  function Low32(n: nat): u32 {
    n % TWO_32
  }

  /** The fixed part: what plan this was, and how many entries follow. */
  function Head(total: u32, plan: RepairPlan, oneOrTwoBits: u32): (h: seq<byte>)
    ensures |h| == 64
  {
    MAGIC + LeBytes32(VERSION) + LeBytes32(total) +
    LeBytes32(Low32(plan.mapIndex)) + LeBytes32(Low32(plan.confidence)) + LeBytes32(Low32(|plan.patches|)) +
    LeBytes32(Low32(plan.corroborated)) + LeBytes32(Low32(plan.speculative)) +
    LeBytes32(oneOrTwoBits) + Zeros(24)
  }

  /** Where a reader of the image finds each field of the head, behind the mark "APAMETA1". */
  lemma HeadFields(total: u32, plan: RepairPlan, oneOrTwoBits: u32, image: seq<byte>)
    requires |image| >= 64 && image[..64] == Head(total, plan, oneOrTwoBits)
    ensures image[..8] == [0x41, 0x50, 0x41, 0x4d, 0x45, 0x54, 0x41, 0x31]
    ensures Le32(image, 8) == 1 && Le32(image, 12) == total
    ensures Le32(image, 16) == Low32(plan.mapIndex) && Le32(image, 20) == Low32(plan.confidence)
    ensures Le32(image, 24) == Low32(|plan.patches|) && Le32(image, 28) == Low32(plan.corroborated)
    ensures Le32(image, 32) == Low32(plan.speculative) && Le32(image, 36) == oneOrTwoBits
    ensures forall i :: 40 <= i < 64 ==> image[i] == 0
  {
    var h := Head(total, plan, oneOrTwoBits);
    assert image[..8] == h[..8];
    var words := [VERSION, total, Low32(plan.mapIndex), Low32(plan.confidence), Low32(|plan.patches|),
                  Low32(plan.corroborated), Low32(plan.speculative), oneOrTwoBits];
    forall k | 0 <= k < 8 ensures Le32(image, 8 + 4 * k) == words[k] {
      HeadWord(h, words, k);
      assert image[8 + 4 * k..12 + 4 * k] == h[8 + 4 * k..12 + 4 * k];
      Le32OfBytes(words[k], image, 8 + 4 * k);
    }
    assert words[0] == Le32(image, 8 + 4 * 0) && words[1] == Le32(image, 8 + 4 * 1);
    assert words[2] == Le32(image, 8 + 4 * 2) && words[3] == Le32(image, 8 + 4 * 3);
    assert words[4] == Le32(image, 8 + 4 * 4) && words[5] == Le32(image, 8 + 4 * 5);
    assert words[6] == Le32(image, 8 + 4 * 6) && words[7] == Le32(image, 8 + 4 * 7);
    assert forall i :: 40 <= i < 64 ==> image[i] == h[i];
  }

  lemma HeadWord(h: seq<byte>, words: seq<u32>, k: nat)
    requires |words| == 8 && k < 8
    requires h == MAGIC + LeBytes32(words[0]) + LeBytes32(words[1]) + LeBytes32(words[2]) + LeBytes32(words[3]) +
                  LeBytes32(words[4]) + LeBytes32(words[5]) + LeBytes32(words[6]) + LeBytes32(words[7]) + Zeros(24)
    ensures h[8 + 4 * k..12 + 4 * k] == LeBytes32(words[k])
  {
  }

  predicate Resolves(scan: ScanResult, p: Patch) {
    p.nodeIndex < |scan.nodes| && scan.nodes[p.nodeIndex].lba == p.lba
  }

  function SavedFor(scan: ScanResult, p: Patch): Saved
    requires Resolves(scan, p)
  {
    Saved(p.lba, scan.nodes[p.nodeIndex].header)
  }

  /** `saved` are the scanned headers of the patches, in order. */
  predicate SavedOf(scan: ScanResult, patches: seq<Patch>, saved: seq<Saved>) {
    && |saved| == |patches|
    && forall j :: 0 <= j < |patches| ==> IsSaved(scan, patches, saved, j)
  }

  predicate IsSaved(scan: ScanResult, patches: seq<Patch>, saved: seq<Saved>, j: nat)
    requires j < |patches| && |saved| == |patches|
  {
    Resolves(scan, patches[j]) && saved[j] == SavedFor(scan, patches[j])
  }

  predicate Saveable(scan: ScanResult, plan: RepairPlan) {
    0 < |plan.patches| <= MAX_PATCHES && forall p :: p in plan.patches ==> Resolves(scan, p)
  }

  /** Writes the entry of patch `i` behind those before it, if it belongs to the scan. */
  method StoreNext(a: array<byte>, scan: ScanResult, patches: seq<Patch>, i: nat, ghost head: seq<byte>,
                   ghost saved: seq<Saved>) returns (ok: bool, ghost more: seq<Saved>)
    requires i < |patches| && a.Length == 64 + |patches| * 1060 + 32 && |head| == 64
    requires SavedOf(scan, patches[..i], saved) && a[..64 + i * 1060] == head + Entries(saved)
    modifies a
    ensures ok <==> Resolves(scan, patches[i])
    ensures ok ==> SavedOf(scan, patches[..i + 1], more) && a[..64 + (i + 1) * 1060] == head + Entries(more)
  {
    var p := patches[i];
    if p.nodeIndex >= |scan.nodes| || scan.nodes[p.nodeIndex].lba != p.lba {
      return false, saved;
    }
    var s := Saved(p.lba, scan.nodes[p.nodeIndex].header);
    OneMoreSaved(scan, patches, i, saved, s);
    AppendEntry(a, 64 + i * 1060, s, head, saved);
    return true, saved + [s];
  }

  /** Writes the entries behind the head, as far as the patches belong to the scan. */
  method StoreEntries(a: array<byte>, scan: ScanResult, patches: seq<Patch>, ghost head: seq<byte>)
    returns (ok: bool, ghost saved: seq<Saved>)
    requires a.Length == 64 + |patches| * 1060 + 32 && a[..64] == head && |head| == 64
    modifies a
    ensures ok <==> forall p :: p in patches ==> Resolves(scan, p)
    ensures ok ==> SavedOf(scan, patches, saved) && a[..a.Length - 32] == head + Entries(saved)
  {
    saved := [];
    var i := 0;
    while i < |patches|
      invariant 0 <= i <= |patches|
      invariant SavedOf(scan, patches[..i], saved)
      invariant a[..64 + i * 1060] == head + Entries(saved)
    {
      ok, saved := StoreNext(a, scan, patches, i, head, saved);
      if !ok {
        assert patches[i] in patches;
        return;
      }
      i := i + 1;
    }
    assert patches[..i] == patches;
    AllSaved(scan, patches, saved);
    return true, saved;
  }

  /**
   Builds the image, or refuses: a plan without patches, with too many, or one
   whose patches do not belong to the scan.
   */
  method BuildImage(scan: ScanResult, plan: RepairPlan, oneOrTwoBits: u32)
    returns (image: Option<array<byte>>, ghost saved: seq<Saved>)
    ensures image.Some? <==> Saveable(scan, plan)
    ensures image.Some? ==>
              && fresh(image.value) && SavedOf(scan, plan.patches, saved)
              && image.value[..] == ImageOf(Head(scan.total, plan, oneOrTwoBits), saved)
  {
    if |plan.patches| == 0 || |plan.patches| > MAX_PATCHES {
      return None, [];
    }
    var a, ok;
    a, ok, saved := Assemble(scan, plan.patches, Head(scan.total, plan, oneOrTwoBits));
    image := if ok then Some(a) else None;
  }

  /** Room for the head, the entries and the digest, with the head in place. */
  method NewImage(head: seq<byte>, n: nat) returns (a: array<byte>)
    requires |head| == 64
    ensures fresh(a) && a.Length == 64 + n * 1060 + 32 && a[..64] == head
  {
    a := new byte[64 + n * 1060 + 32](_ => 0);
    HdlMetadata.Store(a, 0, head);
  }

  method Assemble(scan: ScanResult, patches: seq<Patch>, head: seq<byte>)
    returns (a: array<byte>, ok: bool, ghost saved: seq<Saved>)
    requires |head| == 64
    ensures fresh(a) && (ok <==> forall p :: p in patches ==> Resolves(scan, p))
    ensures ok ==> SavedOf(scan, patches, saved) && a[..] == ImageOf(head, saved)
  {
    a := NewImage(head, |patches|);
    ok, saved := StoreEntries(a, scan, patches, head);
    if ok {
      Seal(a, head, saved);
    }
  }

  lemma OneMoreSaved(scan: ScanResult, patches: seq<Patch>, i: nat, saved: seq<Saved>, s: Saved)
    requires i < |patches| && SavedOf(scan, patches[..i], saved)
    requires Resolves(scan, patches[i]) && s == SavedFor(scan, patches[i])
    ensures SavedOf(scan, patches[..i + 1], saved + [s])
  {
    var more, kept := patches[..i + 1], saved + [s];
    forall j | 0 <= j < |more| ensures IsSaved(scan, more, kept, j) {
      if j < i {
        assert IsSaved(scan, patches[..i], saved, j);
      }
    }
  }

  lemma AllSaved(scan: ScanResult, patches: seq<Patch>, saved: seq<Saved>)
    requires SavedOf(scan, patches, saved)
    ensures forall p :: p in patches ==> Resolves(scan, p)
  {
    forall p | p in patches ensures Resolves(scan, p) {
      var j :| 0 <= j < |patches| && patches[j] == p;
      assert IsSaved(scan, patches, saved, j);
    }
  }
}
