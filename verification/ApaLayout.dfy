/**
 The header fields at their byte offsets, the texts they hold, and what the
 evidence in a header is worth.
 */
module ApaLayout {
  import opened Words
  import opened Apa
  import opened Forensic
  import opened ForensicMaps
  import ApaRepair

  type HeaderBytes = b: seq<byte> | |b| == 1024 witness Zeros(1024)

  function HeaderOf(b: HeaderBytes): (h: Header) {
    WordsOf(b)
  }

  // ----- where the fields are

  lemma BytesOfWord(b: seq<byte>, i: nat)
    requires i + 4 <= |b|
    ensures LeBytes32(Le32(b, i)) == b[i..i + 4]
    ensures Le32(b, i) % TWO_16 == Le16(b, i) && Le32(b, i) / TWO_16 == Le16(b, i + 2)
  {
    var v: int, x: int, y: int, z: int := Le32(b, i), b[i + 1], b[i + 2], b[i + 3];
    assert v % 0x100 == b[i] && v / 0x100 == x + y * 0x100 + z * 0x1_0000;
    assert v / 0x100 % 0x100 == x && v / 0x100 / 0x100 == y + z * 0x100;
    assert v / 0x100 / 0x100 % 0x100 == y && v / 0x100 / 0x100 / 0x100 == z;
  }

  /** The numbers of a header, each at the offset of its field. */
  lemma FieldOffsets(b: HeaderBytes)
    ensures var h := HeaderOf(b);
            && h[CHECKSUM_WORD] == Le32(b, 0) && h[NEXT_WORD] == Le32(b, 8) && h[PREV_WORD] == Le32(b, 12)
            && h[START_WORD] == Le32(b, 64) && h[LENGTH_WORD] == Le32(b, 68)
            && TypeOf(h) == Le16(b, 72) && FlagsOf(h) == Le16(b, 74)
            && h[NSUB_WORD] == Le32(b, 76) && h[MAIN_WORD] == Le32(b, 88)
            && h[VERSION_WORD] == Le32(b, 0x120)
            && h[OSD_START_WORD] == Le32(b, 0x130) && h[OSD_SIZE_WORD] == Le32(b, 0x134)
  {
    BytesOfWord(b, 72);
  }

  /** The identifier, and the table of sub-partitions in the second sector. */
  lemma TableOffsets(b: HeaderBytes)
    ensures forall i :: 0 <= i < 32 ==> IdByte(HeaderOf(b), i) == b[16 + i]
    ensures forall k :: 0 <= k < 64 ==> SubStart(HeaderOf(b), k) == Le32(b, 512 + 8 * k)
  {
    forall i | 0 <= i < 32 ensures IdByte(HeaderOf(b), i) == b[16 + i] {
      var w := 4 * (4 + i / 4);
      BytesOfWord(b, w);
      assert b[w..w + 4][i % 4] == b[w + i % 4];
    }
  }

  // ----- the texts they hold

  /** The characters of `text` stand at `at`. */
  predicate Spelled(b: seq<byte>, at: nat, text: string) {
    at + |text| <= |b| && forall i :: 0 <= i < |text| ==> b[at + i] == text[i] as int
  }

  lemma FourBytes(b: seq<byte>, at: nat, w: byte, x: byte, y: byte, z: byte)
    requires at + 4 <= |b|
    ensures Le32(b, at) == w + x * 0x100 + y * 0x1_0000 + z * 0x100_0000 <==>
            b[at] == w && b[at + 1] == x && b[at + 2] == y && b[at + 3] == z
  {
  }

  /** A header word that holds four characters. */
  lemma WordSpelled(b: HeaderBytes, at: nat, text: string, v: u32)
    requires at % 4 == 0 && at + 4 <= 1024 && |text| == 4 && forall i :: 0 <= i < 4 ==> text[i] < '\U{100}'
    requires v == text[0] as int + text[1] as int * 0x100 + text[2] as int * 0x1_0000 + text[3] as int * 0x100_0000
    ensures HeaderOf(b)[at / 4] == v <==> Spelled(b, at, text)
  {
    FourBytes(b, at, text[0] as int, text[1] as int, text[2] as int, text[3] as int);
  }

  lemma SpelledJoin(b: seq<byte>, at: nat, s: string, t: string)
    ensures Spelled(b, at, s + t) <==> Spelled(b, at, s) && Spelled(b, at + |s|, t)
  {
    if Spelled(b, at, s + t) {
      forall i | 0 <= i < |s| ensures b[at + i] == s[i] as int {
        assert (s + t)[i] == s[i];
      }
      forall i | 0 <= i < |t| ensures b[at + |s| + i] == t[i] as int {
        assert (s + t)[|s| + i] == t[i] && b[at + (|s| + i)] == (s + t)[|s| + i] as int;
      }
    }
    if Spelled(b, at, s) && Spelled(b, at + |s|, t) {
      forall i | 0 <= i < |s + t| ensures b[at + i] == (s + t)[i] as int {
        assert i >= |s| ==> b[at + |s| + (i - |s|)] == t[i - |s|] as int;
      }
    }
  }

  lemma MagicSpelled(b: HeaderBytes)
    ensures MagicOk(HeaderOf(b)) <==> Spelled(b, 4, "APA\0")
  {
    WordSpelled(b, 4, "APA\0", APA_MAGIC);
  }

  /** The identifier of free space, with its terminator. */
  lemma EmptySpelled(b: HeaderBytes)
    ensures HeaderOf(b)[ID_WORD] == 0x6d65_5f5f && HeaderOf(b)[ID_WORD + 1] == 0x0079_7470 <==>
            Spelled(b, 16, "__empty\0")
  {
    assert "__empty\0" == "__em" + "pty\0";
    SpelledJoin(b, 16, "__em", "pty\0");
    WordSpelled(b, 16, "__em", 0x6d65_5f5f);
    WordSpelled(b, 20, "pty\0", 0x0079_7470);
  }

  lemma SonyWords(h: Header)
    ensures h[SONY_WORD..SONY_WORD + 8] == ApaRepair.SONY <==>
            && h[64] == 0x796e_6f53 && h[65] == 0x6d6f_4320 && h[66] == 0x6574_7570 && h[67] == 0x6e45_2072
            && h[68] == 0x7472_6574 && h[69] == 0x6d6e_6961 && h[70] == 0x2074_6e65 && h[71] == 0x2e63_6e49
  {
    var run: seq<u32> := h[SONY_WORD..SONY_WORD + 8];
    assert run == [h[64], h[65], h[66], h[67], h[68], h[69], h[70], h[71]];
  }

  lemma SonySpelled(b: HeaderBytes)
    ensures HeaderOf(b)[SONY_WORD..SONY_WORD + 8] == ApaRepair.SONY <==>
            Spelled(b, 0x100, "Sony Computer Entertainment Inc.")
  {
    SonyWords(HeaderOf(b));
    WordSpelled(b, 256, "Sony", 0x796e_6f53);
    WordSpelled(b, 260, " Com", 0x6d6f_4320);
    WordSpelled(b, 264, "pute", 0x6574_7570);
    WordSpelled(b, 268, "r En", 0x6e45_2072);
    WordSpelled(b, 272, "tert", 0x7472_6574);
    WordSpelled(b, 276, "ainm", 0x6d6e_6961);
    WordSpelled(b, 280, "ent ", 0x2074_6e65);
    WordSpelled(b, 284, "Inc.", 0x2e63_6e49);
    SonyParts(b);
  }

  lemma FourParts(b: seq<byte>, at: nat, s: string, t: string, u: string, v: string)
    requires |s| == |t| == |u| == |v| == 4
    ensures Spelled(b, at, s + t + u + v) <==>
            Spelled(b, at, s) && Spelled(b, at + 4, t) && Spelled(b, at + 8, u) && Spelled(b, at + 12, v)
  {
    SpelledJoin(b, at, s, t);
    SpelledJoin(b, at, s + t, u);
    SpelledJoin(b, at, s + t + u, v);
  }

  lemma SonyParts(b: seq<byte>)
    ensures Spelled(b, 256, "Sony Computer Entertainment Inc.") <==>
            && Spelled(b, 256, "Sony") && Spelled(b, 260, " Com") && Spelled(b, 264, "pute") && Spelled(b, 268, "r En")
            && Spelled(b, 272, "tert") && Spelled(b, 276, "ainm") && Spelled(b, 280, "ent ") && Spelled(b, 284, "Inc.")
  {
    assert "Sony Computer En" == "Sony" + " Com" + "pute" + "r En";
    assert "tertainment Inc." == "tert" + "ainm" + "ent " + "Inc.";
    assert "Sony Computer Entertainment Inc." == "Sony Computer En" + "tertainment Inc.";
    FourParts(b, 256, "Sony", " Com", "pute", "r En");
    FourParts(b, 272, "tert", "ainm", "ent ", "Inc.");
    SpelledJoin(b, 256, "Sony Computer En", "tertainment Inc.");
  }

  lemma MbrSpelled(b: HeaderBytes)
    ensures ApaRepair.Canonical(HeaderOf(b), ApaRepair.MbrId) <==> Spelled(b, 16, "__mbr")
  {
    assert "__mbr" == "__mb" + "r";
    SpelledJoin(b, 16, "__mb", "r");
    WordSpelled(b, 16, "__mb", 0x626d_5f5f);
    BytesOfWord(b, 20);
    assert b[20..24][0] == b[20];
    assert Spelled(b, 20, "r") <==> b[20] == "r"[0] as int;
  }

  /** What makes a header that of the master, byte by byte; and the marks that a repair looks at. */
  lemma MasterBytes(b: HeaderBytes)
    ensures var h := HeaderOf(b);
            && (ApaRepair.Canonical(h, ApaRepair.ApaMagic) <==> Spelled(b, 4, "APA\0"))
            && (ApaRepair.Canonical(h, ApaRepair.MbrId) <==> Spelled(b, 16, "__mbr"))
            && (ApaRepair.Canonical(h, ApaRepair.SonyMagic) <==> Spelled(b, 0x100, "Sony Computer Entertainment Inc."))
            && (ApaRepair.Canonical(h, ApaRepair.MasterStart) <==> Le32(b, 64) == 0)
            && (ApaRepair.Canonical(h, ApaRepair.MasterType) <==> Le16(b, 72) == 1)
            && (ApaRepair.Canonical(h, ApaRepair.MbrVersion) <==> Le32(b, 0x120) == 2)
            && (ApaRepair.Hybrid(h) <==> b[510] == 0x55 && b[511] == 0xaa)
            && (ApaRepair.PointerInconsistent(h) <==> ((Le32(b, 0x130) == 0) != (Le32(b, 0x134) == 0)))
  {
    FieldOffsets(b);
    MagicSpelled(b);
    MbrSpelled(b);
    SonySpelled(b);
    BytesOfWord(b, 508);
  }

  // ----- links

  /** A chain from LBA 0 is a ring: each member's links name the members after and before it. */
  lemma LinksFormRing(lbas: seq<u32>, i: nat)
    requires 2 <= |lbas| && lbas[0] == 0 && i < |lbas|
    ensures DesiredNext(lbas, i) == lbas[(i + 1) % |lbas|]
    ensures DesiredPrev(lbas, (i + 1) % |lbas|) == lbas[i]
  {
    if i + 1 == |lbas| {
      assert (i + 1) % |lbas| == 0;
    } else {
      assert (i + 1) % |lbas| == i + 1;
    }
  }

  // ----- the checksum

  /** The checksum of a blank header is 0, and a changed word moves it by just as much, modulo 2^32. */
  lemma ChecksumMoves(h: Header, k: nat, v: u32)
    requires 1 <= k < 256
    ensures Checksum(h[k := v]) == (Checksum(h) + v - h[k]) % 0x1_0000_0000
    ensures (forall i :: 0 <= i < 256 ==> h[i] == 0) ==> Checksum(h) == 0
  {
    WordSumUpdate(h, k, v, 1);
    if forall i :: 0 <= i < 256 ==> h[i] == 0 {
      BlankSum(h, 1);
    }
  }

  lemma {:induction false} BlankSum(h: Header, from: nat)
    requires from <= 256 && forall i :: 0 <= i < 256 ==> h[i] == 0
    ensures WordSum(h, from) == 0
    decreases 256 - from
  {
    if from < 256 {
      BlankSum(h, from + 1);
    }
  }

  // ----- dormant remnants

  /** Sector `s` belongs to the extent that the header of `n` describes. */
  predicate Owns(n: Node, s: int) {
    n.Start() <= s < n.Start() + n.Length()
  }

  /** A remnant lies, sector by sector, inside an empty extent, and does not start where that does. */
  lemma CoversMeansInside(container: Node, n: Node)
    requires n.Length() > 0
    ensures CoversRemnant(container, n) <==>
            CanonicalEmpty(container) && !Owns(n, container.Start()) && forall s :: Owns(n, s) ==> Owns(container, s)
  {
    assert Owns(n, n.Start()) && Owns(n, n.Start() + n.Length() - 1);
  }

  // ----- what the evidence is worth

  /** Points that a header loses for the evidence it does not show. */
  function Lost(e: Evidence): nat {
    (if e.magic then 0 else 25) + (if e.selfStart then 0 else 20) + (if e.checksum then 0 else 20) +
    (if e.length then 0 else 15) + (if e.nsub then 0 else 5) + (if e.typ then 0 else 5) + (if e.id then 0 else 10)
  }

  /** Something in the header that blank or random sectors do not show. */
  predicate Speaks(e: Evidence) {
    e.magic || e.length || e.id
  }

  /** The evidence of a header, in terms of its bytes, and its score out of 100. */
  lemma EvidenceOfBytes(b: HeaderBytes, lba: int, total: u32)
    ensures var h := HeaderOf(b); var e := Content(h, lba, total);
            && (e.magic <==> Spelled(b, 4, "APA\0")) && (e.selfStart <==> Le32(b, 64) == lba)
            && (e.length <==> Le32(b, 68) > 0 && Le32(b, 64) < total && Le32(b, 64) + Le32(b, 68) <= total)
            && (e.checksum <==> Le32(b, 0) == Checksum(h)) && (e.nsub <==> Le32(b, 76) <= 64)
            && (e.typ <==> Le16(b, 72) in {0, 1, 0x82, 0x83, 0x88, 0x100, 0x101, 0x1337})
            && FullScore(h, lba, total) == if Speaks(e) then 100 - Lost(e) else 0
  {
    FieldOffsets(b);
    MagicSpelled(b);
  }

  /** `n` printable characters, then a zero byte or the end of the field. */
  predicate Names(b: HeaderBytes, n: nat) {
    var id := b[16..48];
    1 <= n <= 32 && (forall i :: 0 <= i < n ==> 0x20 <= id[i] <= 0x7e) && (n < 32 ==> id[n] == 0)
  }

  lemma NameOfLength(b: HeaderBytes, n: nat)
    requires 1 <= n <= 32
    ensures IdOfLength(HeaderOf(b), n) <==> Names(b, n)
  {
    var h, id := HeaderOf(b), b[16..48];
    TableOffsets(b);
    forall i | 0 <= i < 32 ensures IdByte(h, i) == id[i] {
    }
  }

  lemma IdOfBytes(b: HeaderBytes)
    ensures IdPlausible(HeaderOf(b)) <==> exists n :: Names(b, n)
  {
    if n :| 1 <= n <= 32 && IdOfLength(HeaderOf(b), n) {
      NameOfLength(b, n);
    }
    if n :| Names(b, n) {
      NameOfLength(b, n);
    }
  }

  /**
   What a scanned node may be used for. It was admitted with 30 points, or 20 at
   LBA 0. Its references are followed if it has magic and length, unless start,
   checksum, identifier and one more thing are lost. It has a place in the
   geometry if it has its start and length, unless magic, checksum and 10 points
   more are lost. Links are inferred from a node that lost at most 45 points,
   and it is strong if it lost at most 40.
   */
  lemma WhatEvidenceAllows(disk: Disk, total: u32, n: Node)
    requires SoundNode(disk, total, n)
    ensures var e := n.evidence;
            && Speaks(e) && n.confidence == 100 - Lost(e) && Lost(e) <= (if n.lba == 0 then 80 else 70)
            && (Eligible(n) <==>
                e.magic && e.length && (e.selfStart || e.checksum || e.id || (e.nsub && e.typ)))
            && (n.lba != 0 && !e.dormant ==>
                (GeometryEligible(n) <==>
                 && e.selfStart && e.length
                 && (e.magic || e.checksum || (e.id && (e.nsub || e.typ)))))
            && (Strong(n) <==> !e.dormant && Lost(e) <= 40)
            && (forall nodes, excluded, lba, matchPrev, i ::
                  0 <= i < |nodes| && nodes[i] == n && i !in excluded && LinkOf(n, matchPrev) == lba ==>
                    (LinkCandidate(nodes, excluded, lba, matchPrev, i) <==> Lost(e) <= 45))
  {
    assert n.OwnEvidence() == Content(n.header, n.lba, total);
    ContentScore(n, total);
  }

  lemma ContentScore(n: Node, total: u32)
    requires n.OwnEvidence() == Content(n.header, n.lba, total)
    ensures FullScore(n.header, n.lba, total) == if Speaks(n.evidence) then 100 - Lost(n.evidence) else 0
  {
    var e := Content(n.header, n.lba, total);
    assert n.evidence.magic == e.magic && n.evidence.selfStart == e.selfStart && n.evidence.checksum == e.checksum;
    assert n.evidence.length == e.length && n.evidence.nsub == e.nsub && n.evidence.typ == e.typ;
    assert n.evidence.id == e.id;
  }

  // ----- where a scan looks

  /** A word of the header of `n` that a scan takes for the address of another header. */
  predicate Points(n: Node, lba: u32) {
    || lba == n.header[2] || lba == n.header[3] || lba == n.header[22]
    || (n.confidence >= 60 && n.header[19] <= 64 && exists k :: 0 <= k < n.header[19] && PointsToSub(n, k, lba))
  }

  predicate PointsToSub(n: Node, k: int, lba: u32) {
    0 <= k < 64 && lba == n.header[128 + 2 * k]
  }

  /** A complete scan has followed next, prev, main and the sub-partitions of every node that is worth it. */
  lemma ReferencesAreFollowed(disk: Disk, total: u32, nodes: seq<Node>, i: nat, lba: u32)
    requires ReferenceClosed(disk, total, nodes) && i < |nodes| && SoundNode(disk, total, nodes[i])
    requires var e := nodes[i].evidence;
             e.magic && e.length && (e.selfStart || e.checksum || e.id || (e.nsub && e.typ))
    requires lba != 0 && Points(nodes[i], lba) && AdmissibleAt(disk, total, lba)
    ensures HasLba(nodes, lba)
  {
    var n := nodes[i];
    WhatEvidenceAllows(disk, total, n);
    if k :| 0 <= k < n.header[19] && PointsToSub(n, k, lba) {
      assert lba == SubStart(n.header, k);
    }
    assert Chased(disk, total, nodes, n) && Refers(n, lba);
    assert Covered(disk, total, nodes, lba, Referenced);
  }
}
