/**
 The layout of the HDDMETA snapshot: a head, one entry for every saved header,
 and a digest of all of it.
 */
module SnapshotFile {
  import opened Words
  import opened Apa
  import HdlMetadata
  import Sha256
  import Sha256Stream

  const ENTRY_BYTES: nat := 1060

  datatype Saved = Saved(lba: u32, header: Header)

  /** One entry: the address, the digest and the bytes of a scanned header. */
  function Entry(s: Saved): (e: seq<byte>)
    ensures |e| == ENTRY_BYTES
  {
    LeBytes32(s.lba) + Sha256.Digest(BytesOf(s.header)) + BytesOf(s.header)
  }

  type Piece = b: seq<byte> | |b| == ENTRY_BYTES witness Zeros(ENTRY_BYTES)

  function Flat(pieces: seq<Piece>): (b: seq<byte>)
    ensures |b| == |pieces| * 1060
  {
    if pieces == [] then [] else Flat(pieces[..|pieces| - 1]) + pieces[|pieces| - 1]
  }

  function EntryList(saved: seq<Saved>): (pieces: seq<Piece>)
    ensures |pieces| == |saved|
  {
    seq(|saved|, i requires 0 <= i < |saved| => Entry(saved[i]))
  }

  function Entries(saved: seq<Saved>): (e: seq<byte>)
    ensures |e| == |saved| * 1060
  {
    Flat(EntryList(saved))
  }

  lemma OneMoreEntry(saved: seq<Saved>, s: Saved)
    ensures Entries(saved + [s]) == Entries(saved) + Entry(s)
  {
    var pieces := EntryList(saved + [s]);
    assert pieces[..|saved|] == EntryList(saved);
  }

  function ImageOf(head: seq<byte>, saved: seq<Saved>): (image: seq<byte>)
    requires |head| == 64
    ensures |image| == 64 + |saved| * 1060 + 32
  {
    var body := head + Entries(saved);
    body + Sha256.Digest(body)
  }

  /** Writes one entry at a place in the image. */
  method StoreEntry(a: array<byte>, offset: nat, s: Saved)
    requires offset + ENTRY_BYTES <= a.Length
    modifies a
    ensures a[..offset + ENTRY_BYTES] == old(a[..offset]) + Entry(s)
  {
    ghost var before, bytes := a[..], BytesOf(s.header);
    var digest := Sha256Stream.DigestOf(BytesOf(s.header));
    HdlMetadata.Store(a, offset, LeBytes32(s.lba));
    HdlMetadata.Store(a, offset + 4, digest);
    HdlMetadata.Store(a, offset + 36, BytesOf(s.header));
    SplicedThree(before, offset, LeBytes32(s.lba), digest, bytes);
  }

  lemma SplicedThree(b: seq<byte>, at: nat, x: seq<byte>, y: seq<byte>, z: seq<byte>)
    requires at + |x| + |y| + |z| <= |b|
    ensures Splice(Splice(Splice(b, at, x), at + |x|, y), at + |x| + |y|, z)[..at + |x| + |y| + |z|] ==
            b[..at] + (x + y + z)
  {
  }

  /** The parts of an entry, in the image it stands in. */
  lemma ThreeParts(b: seq<byte>, at: nat, x: seq<byte>, y: seq<byte>, z: seq<byte>)
    requires at + 1060 <= |b| && |x| == 4 && |y| == 32 && |z| == 1024 && b[at..at + 1060] == x + y + z
    ensures b[at..at + 4] == x && b[at + 4..at + 36] == y && b[at + 36..at + 1060] == z
  {
    var w := x + y + z;
    HdlMetadata.SubRun(b, at, w, 0, 4);
    HdlMetadata.SubRun(b, at, w, 4, 32);
    HdlMetadata.SubRun(b, at, w, 36, 1024);
  }

  /** Closes the image with the digest of everything before it. */
  method StoreDigest(a: array<byte>, offset: nat)
    requires offset + 32 == a.Length
    modifies a
    ensures a[..] == old(a[..offset]) + Sha256.Digest(old(a[..offset]))
  {
    var digest := Sha256Stream.DigestOf(a[..offset]);
    HdlMetadata.Store(a, offset, digest);
  }

  /** Adds one entry to an image under construction. */
  method AppendEntry(a: array<byte>, offset: nat, s: Saved, ghost head: seq<byte>, ghost saved: seq<Saved>)
    requires offset + ENTRY_BYTES <= a.Length && a[..offset] == head + Entries(saved)
    modifies a
    ensures a[..offset + ENTRY_BYTES] == head + Entries(saved + [s])
  {
    StoreEntry(a, offset, s);
    OneMoreEntry(saved, s);
    Appended(head, Entries(saved), Entry(s));
  }

  /** Completes an image that has its head and all its entries. */
  method Seal(a: array<byte>, ghost head: seq<byte>, ghost saved: seq<Saved>)
    requires |head| == 64 && a.Length >= 32 && a[..a.Length - 32] == head + Entries(saved)
    modifies a
    ensures a[..] == ImageOf(head, saved)
  {
    StoreDigest(a, a.Length - 32);
  }

  // ----- reading it back

  function EntryOffset(j: nat): nat {
    64 + j * 1060
  }

  predicate HasEntry(image: seq<byte>, j: nat) {
    EntryOffset(j) + ENTRY_BYTES <= |image|
  }

  function SavedBytes(image: seq<byte>, j: nat): (b: seq<byte>)
    requires HasEntry(image, j)
    ensures |b| == 1024
  {
    image[EntryOffset(j) + 36..EntryOffset(j) + ENTRY_BYTES]
  }

  function SavedDigest(image: seq<byte>, j: nat): seq<byte>
    requires HasEntry(image, j)
  {
    image[EntryOffset(j) + 4..EntryOffset(j) + 36]
  }

  /** The header that 1024 bytes stand for. */
  function HeaderOfBytes(b: seq<byte>): Header
    requires |b| == 1024
  {
    WordsOf(b)
  }

  lemma HeaderComesBack(h: Header)
    ensures HeaderOfBytes(BytesOf(h)) == h
  {
    WordsOfBytes(h);
  }

  /** The saved header that entry `j` of an image holds. */
  function Read(image: seq<byte>, j: nat): Saved
    requires HasEntry(image, j)
  {
    Saved(Le32(image, EntryOffset(j)), HeaderOfBytes(SavedBytes(image, j)))
  }

  lemma {:induction false} FlatAt(pieces: seq<Piece>, j: nat)
    requires j < |pieces|
    ensures Flat(pieces)[j * 1060..(j + 1) * 1060] == pieces[j]
  {
    var last := |pieces| - 1;
    if j < last {
      FlatAt(pieces[..last], j);
    }
    PieceAt(Flat(pieces[..last]), pieces[last], Flat(pieces), last, j, pieces[j]);
  }

  lemma EntryAt(saved: seq<Saved>, j: nat)
    requires j < |saved|
    ensures Entries(saved)[j * 1060..(j + 1) * 1060] == Entry(saved[j])
  {
    FlatAt(EntryList(saved), j);
  }

  /** Piece `j` of a run of pieces of equal size, the last of which is `e`. */
  lemma PieceAt(earlier: seq<byte>, e: seq<byte>, all: seq<byte>, n: nat, j: nat, piece: seq<byte>)
    requires |earlier| == n * 1060 && |e| == 1060 && all == earlier + e && j <= n
    requires if j < n then earlier[j * 1060..(j + 1) * 1060] == piece else e == piece
    ensures all[j * 1060..(j + 1) * 1060] == piece
  {
    if j < n {
      assert all[j * 1060..(j + 1) * 1060] == earlier[j * 1060..(j + 1) * 1060];
    } else {
      assert all[|earlier|..|earlier| + |e|] == e;
    }
  }

  lemma Middle(a: seq<byte>, b: seq<byte>, c: seq<byte>, from: nat, to: nat)
    requires from <= to <= |b|
    ensures (a + b + c)[|a| + from..|a| + to] == b[from..to]
  {
  }

  lemma EntrySlices(image: seq<byte>, at: nat, s: Saved)
    requires at + 1060 <= |image| && image[at..at + 1060] == Entry(s)
    ensures image[at..at + 4] == LeBytes32(s.lba)
    ensures image[at + 4..at + 36] == Sha256.Digest(BytesOf(s.header))
    ensures image[at + 36..at + 1060] == BytesOf(s.header)
  {
    ThreeParts(image, at, LeBytes32(s.lba), Sha256.Digest(BytesOf(s.header)), BytesOf(s.header));
  }

  /** What a reader takes from the parts of entry `j`. */
  lemma PartsRead(image: seq<byte>, j: nat, s: Saved)
    requires HasEntry(image, j) && image[EntryOffset(j)..EntryOffset(j) + 4] == LeBytes32(s.lba)
    requires SavedBytes(image, j) == BytesOf(s.header)
    ensures Read(image, j) == s
  {
    Le32OfBytes(s.lba, image, EntryOffset(j));
    HeaderComesBack(s.header);
  }

  lemma EntryParts(image: seq<byte>, j: nat, s: Saved)
    requires HasEntry(image, j) && image[EntryOffset(j)..EntryOffset(j) + ENTRY_BYTES] == Entry(s)
    ensures image[EntryOffset(j)..EntryOffset(j) + 4] == LeBytes32(s.lba)
    ensures SavedDigest(image, j) == Sha256.Digest(BytesOf(s.header)) && SavedBytes(image, j) == BytesOf(s.header)
  {
    EntrySlices(image, EntryOffset(j), s);
  }

  /** Reading an entry gives back what was saved, with a digest that fits. */
  lemma ReadSaved(head: seq<byte>, saved: seq<Saved>, j: nat)
    requires |head| == 64 && j < |saved|
    ensures var image := ImageOf(head, saved);
            && HasEntry(image, j) && Read(image, j) == saved[j]
            && SavedDigest(image, j) == Sha256.Digest(SavedBytes(image, j))
  {
    var entries := Entries(saved);
    EntryAt(saved, j);
    Middle(head, entries, Sha256.Digest(head + entries), j * 1060, (j + 1) * 1060);
    EntryParts(ImageOf(head, saved), j, saved[j]);
    PartsRead(ImageOf(head, saved), j, saved[j]);
  }

  /** The whole image carries a digest of everything before it. */
  lemma ImageSealed(head: seq<byte>, saved: seq<Saved>)
    requires |head| == 64
    ensures var image := ImageOf(head, saved);
            image[|image| - 32..] == Sha256.Digest(image[..|image| - 32])
  {
    var body := head + Entries(saved);
    var image := ImageOf(head, saved);
    assert image[..|image| - 32] == body;
    assert image[|image| - 32..] == Sha256.Digest(body);
  }
}
