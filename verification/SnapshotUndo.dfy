/**
 The way back from a repair: the HDDMETA snapshot restores the disk.
 */
module SnapshotUndo {
  import opened Words
  import opened Apa
  import opened ForensicMaps
  import opened ForensicPlan
  import opened CachedDisk
  import opened ForensicRepair
  import opened ForensicSafety
  import opened SnapshotFile
  import opened Snapshot

  /** Writing the first `n` headers of a snapshot back to a disk. */
  ghost function WriteBack(x: Disk, image: seq<byte>, n: nat): Disk
    requires n == 0 || HasEntry(image, n - 1)
  {
    if n == 0 then x else
      var s := Read(image, n - 1);
      PutHeader(WriteBack(x, image, n - 1), s.lba, s.header)
  }

  lemma RestoreStep(x: Disk, scan: ScanResult, patches: seq<Patch>, n: nat)
    requires 0 < n <= |patches| && IndicesOk(scan, patches[..n])
    ensures IndicesOk(scan, patches[..n - 1]) && patches[n - 1].nodeIndex < |scan.nodes|
    ensures Restore(x, scan, patches[..n]) ==
            PutHeader(Restore(x, scan, patches[..n - 1]), patches[n - 1].lba,
                      scan.nodes[patches[n - 1].nodeIndex].header)
  {
    assert patches[..n][..n - 1] == patches[..n - 1];
    assert patches[..n][n - 1] == patches[n - 1];
    assert forall j :: 0 <= j < n - 1 ==> patches[..n - 1][j] == patches[..n][j];
  }

  lemma {:induction false} WriteBackIsRestore(x: Disk, scan: ScanResult, patches: seq<Patch>, head: seq<byte>,
                                              saved: seq<Saved>, n: nat)
    requires SavedOf(scan, patches, saved) && |head| == 64 && n <= |patches| && IndicesOk(scan, patches[..n])
    ensures n == 0 || HasEntry(ImageOf(head, saved), n - 1)
    ensures WriteBack(x, ImageOf(head, saved), n) == Restore(x, scan, patches[..n])
  {
    if n > 0 {
      RestoreStep(x, scan, patches, n);
      WriteBackIsRestore(x, scan, patches, head, saved, n - 1);
      ReadSaved(head, saved, n - 1);
      assert IsSaved(scan, patches, saved, n - 1);
    }
  }

  /**
   The way back, from the file: at any crash point of the repair, writing the
   headers of the snapshot back gives the disk as it was before.
   */
  lemma SnapshotUndoes(before: Image<Sector>, i: Image<Sector>, x: Disk, scan: ScanResult, patches: seq<Patch>,
                       head: seq<byte>, saved: seq<Saved>)
    requires SavedOf(scan, patches, saved) && |head| == 64
    requires IndicesOk(scan, patches) && ScannedOnMedium(before, scan, patches)
    requires SettlesOutside(before, i, patches) && CrashImage(i, x)
    requires before.cache == map[]
    ensures patches == [] || HasEntry(ImageOf(head, saved), |patches| - 1)
    ensures WriteBack(x, ImageOf(head, saved), |patches|) == before.durable
  {
    assert patches[..|patches|] == patches;
    WriteBackIsRestore(x, scan, patches, head, saved, |patches|);
    SnapshotRestores(before, i, x, scan, patches);
  }
}
