/**
 Guarded repair of the APA master header: one canonical field may be restored,
 and only if restoring it explains the stored checksum.
 */
module ApaRepair {
  import opened Words
  import opened Apa

  /** The six fields of a master header whose contents are known in advance. */
  datatype Field = ApaMagic | MbrId | SonyMagic | MasterStart | MasterType | MbrVersion

  const SONY: seq<u32> := [
    0x796e_6f53, 0x6d6f_4320, 0x6574_7570, 0x6e45_2072, 0x7472_6574, 0x6d6e_6961, 0x2074_6e65, 0x2e63_6e49]

  const MBR_ID: u32 := 0x626d_5f5f
  const MBR_ID_LAST: u32 := 0x72
  const MASTER_TYPE: u32 := 1
  const MASTER_VERSION: u32 := 2

  function Bit(f: Field): nat {
    match f
    case ApaMagic => 2
    case MbrId => 4
    case SonyMagic => 8
    case MasterStart => 16
    case MasterType => 32
    case MbrVersion => 64
  }

  const CHECKSUM_ISSUE: nat := 1
  const OSD_ISSUE: nat := 128

  const HYBRID_GPT: nat := 1
  const LOW_IDENTITY: nat := 2
  const NOT_MASTER: nat := 4
  const UNEXPLAINED_CHECKSUM: nat := 8

  predicate IsIdentity(f: Field) {
    f.ApaMagic? || f.MbrId? || f.SonyMagic?
  }

  /** The field holds what every master header holds there. */
  predicate Canonical(h: Header, f: Field) {
    match f
    case ApaMagic => h[MAGIC_WORD] == APA_MAGIC
    case MbrId => h[ID_WORD] == MBR_ID && h[ID_WORD + 1] % 0x100 == MBR_ID_LAST
    case SonyMagic => h[SONY_WORD..SONY_WORD + 8] == SONY
    case MasterStart => h[START_WORD] == 0
    case MasterType => TypeOf(h) == MASTER_TYPE
    case MbrVersion => h[VERSION_WORD] == MASTER_VERSION
  }

  /** The headers differ in nothing but that field. */
  predicate SameOutside(a: Header, b: Header, f: Field) {
    match f
    case ApaMagic => SameBut(a, b, MAGIC_WORD, 1)
    case MbrId => SameBut(a, b, ID_WORD, 2) && a[ID_WORD + 1] / 0x100 == b[ID_WORD + 1] / 0x100
    case SonyMagic => SameBut(a, b, SONY_WORD, 8)
    case MasterStart => SameBut(a, b, START_WORD, 1)
    case MasterType => SameBut(a, b, TYPE_WORD, 1) && FlagsOf(a) == FlagsOf(b)
    case MbrVersion => SameBut(a, b, VERSION_WORD, 1)
  }

  predicate SameBut(a: Header, b: Header, at: nat, n: nat) {
    forall i :: 0 <= i < HEADER_WORDS && !(at <= i < at + n) ==> a[i] == b[i]
  }

  predicate Hybrid(h: Header) {
    h[SIGNATURE_WORD] / TWO_16 == 0xAA55
  }

  predicate PointerInconsistent(h: Header) {
    (h[OSD_START_WORD] == 0) != (h[OSD_SIZE_WORD] == 0)
  }

  /** The header with that field restored, and nothing else changed. */
  function Fixed(h: Header, f: Field): (r: Header)
    ensures SameOutside(h, r, f) && Canonical(r, f)
  {
    match f
    case ApaMagic => h[MAGIC_WORD := APA_MAGIC]
    case MbrId => h[ID_WORD := MBR_ID][ID_WORD + 1 := h[ID_WORD + 1] / 0x100 * 0x100 + MBR_ID_LAST]
    case SonyMagic => Splice(h, SONY_WORD, SONY)
    case MasterStart => h[START_WORD := 0]
    case MasterType => h[TYPE_WORD := FlagsOf(h) * 0x1_0000 + MASTER_TYPE]
    case MbrVersion => h[VERSION_WORD := MASTER_VERSION]
  }

  /** Only one header has a given field canonical and agrees with `h` elsewhere. */
  lemma FixedIsUnique(h: Header, g: Header, f: Field)
    requires SameOutside(h, g, f) && Canonical(g, f)
    ensures g == Fixed(h, f)
  {
    var r := Fixed(h, f);
    forall i | 0 <= i < HEADER_WORDS ensures g[i] == r[i] {
      if f.SonyMagic? && SONY_WORD <= i < SONY_WORD + 8 {
        assert g[SONY_WORD..SONY_WORD + 8][i - SONY_WORD] == g[i];
      }
    }
  }

  /** Damage to one field leaves the other five, the pointers and the signature alone. */
  lemma OthersUntouched(a: Header, b: Header, f: Field, g: Field)
    requires SameOutside(a, b, f) && f != g
    ensures Canonical(a, g) <==> Canonical(b, g)
    ensures Hybrid(a) <==> Hybrid(b)
    ensures PointerInconsistent(a) <==> PointerInconsistent(b)
    ensures a[CHECKSUM_WORD] == b[CHECKSUM_WORD]
  {
    if g.SonyMagic? {
      assert a[SONY_WORD..SONY_WORD + 8] == b[SONY_WORD..SONY_WORD + 8];
    }
  }

  // ----- analysis

  datatype Plan = Plan(
    issues: nat, fixes: nat, blockers: nat,
    identityMatches: nat, anchorMatches: nat,
    patchSafe: bool, pointerClear: bool)

  function BitCount(value: nat): nat {
    if value == 0 then 0 else value % 2 + BitCount(value / 2)
  }

  method BitCount32(value: u32) returns (count: nat)
    ensures count == BitCount(value)
  {
    var rest: nat := value;
    count := 0;
    while rest != 0
      invariant count + BitCount(rest) == BitCount(value)
    {
      count := count + rest % 2;
      rest := rest / 2;
    }
  }

  /** The bits of the noncanonical fields among three. */
  function Mask(h: Header, f: Field, g: Field, k: Field): nat {
    (if Canonical(h, f) then 0 else Bit(f)) + (if Canonical(h, g) then 0 else Bit(g))
    + (if Canonical(h, k) then 0 else Bit(k))
  }

  function IdentityMask(h: Header): nat { Mask(h, ApaMagic, MbrId, SonyMagic) }

  function AnchorMask(h: Header): nat { Mask(h, MasterStart, MasterType, MbrVersion) }

  function Matches(h: Header, f: Field, g: Field, k: Field): nat {
    (if Canonical(h, f) then 1 else 0) + (if Canonical(h, g) then 1 else 0) + (if Canonical(h, k) then 1 else 0)
  }

  function IdentityMatches(h: Header): nat { Matches(h, ApaMagic, MbrId, SonyMagic) }

  function AnchorMatches(h: Header): nat { Matches(h, MasterStart, MasterType, MbrVersion) }

  lemma OneBit(h: Header)
    ensures BitCount(IdentityMask(h)) == 3 - IdentityMatches(h)
    ensures BitCount(AnchorMask(h)) == 3 - AnchorMatches(h)
  {
    assert BitCount(1) == 1 && BitCount(2) == 1 && BitCount(3) == 2 && BitCount(4) == 1 && BitCount(5) == 2;
    assert BitCount(6) == 2 && BitCount(7) == 3 && BitCount(8) == 1 && BitCount(10) == 2 && BitCount(12) == 2;
    assert BitCount(14) == 3 && BitCount(16) == 1 && BitCount(32) == 1 && BitCount(48) == 2 && BitCount(64) == 1;
    assert BitCount(20) == 2 && BitCount(24) == 2 && BitCount(28) == 3;
    assert BitCount(40) == 2 && BitCount(48) == 2 && BitCount(56) == 3;
    assert BitCount(80) == 2 && BitCount(96) == 2 && BitCount(112) == 3;
  }

  /** The one field that is not canonical. */
  predicate OnlyDamaged(h: Header, f: Field) {
    !Canonical(h, f) && forall g :: g != f ==> Canonical(h, g)
  }

  /** When a header may be patched, and which field then. */
  predicate Repairs(h: Header, f: Field) {
    && !Hybrid(h) && OnlyDamaged(h, f)
    && h[CHECKSUM_WORD] != Checksum(h)
    && h[CHECKSUM_WORD] == Checksum(Fixed(h, f))
  }

  predicate HasBit(mask: nat, f: Field) {
    (mask / Bit(f)) % 2 == 1
  }

  function Step(h: Header, fixes: nat, f: Field): Header {
    if HasBit(fixes, f) then Fixed(h, f) else h
  }

  /** The header with every field restored whose bit is set. */
  function Applied(h: Header, fixes: nat): Header {
    var identity := Step(Step(Step(h, fixes, ApaMagic), fixes, MbrId), fixes, SonyMagic);
    Step(Step(Step(identity, fixes, MasterStart), fixes, MasterType), fixes, MbrVersion)
  }

  lemma BitOf(f: Field, g: Field)
    ensures HasBit(Bit(f), g) <==> f == g
  {
  }

  lemma StepOne(h: Header, f: Field, g: Field)
    ensures Step(h, Bit(f), g) == if f == g then Fixed(h, f) else h
  {
    BitOf(f, g);
  }

  /** Restoring by the mask of one field restores that field and no other. */
  lemma AppliedOne(h: Header, f: Field)
    ensures Applied(h, Bit(f)) == Fixed(h, f)
  {
    var a := Step(h, Bit(f), ApaMagic);
    var b := Step(a, Bit(f), MbrId);
    var c := Step(b, Bit(f), SonyMagic);
    var d := Step(c, Bit(f), MasterStart);
    var e := Step(d, Bit(f), MasterType);
    StepOne(h, f, ApaMagic);
    StepOne(a, f, MbrId);
    StepOne(b, f, SonyMagic);
    StepOne(c, f, MasterStart);
    StepOne(d, f, MasterType);
    StepOne(e, f, MbrVersion);
  }

  method FixIdentity(header: array<u32>, fixes: nat)
    requires header.Length == HEADER_WORDS
    modifies header
    ensures header[..] == Step(Step(Step(old(header[..]), fixes, ApaMagic), fixes, MbrId), fixes, SonyMagic)
  {
    ghost var h := header[..];
    if HasBit(fixes, ApaMagic) {
      header[MAGIC_WORD] := APA_MAGIC;
    }
    ghost var h1 := Step(h, fixes, ApaMagic);
    assert header[..] == h1;
    if HasBit(fixes, MbrId) {
      header[ID_WORD] := MBR_ID;
      header[ID_WORD + 1] := header[ID_WORD + 1] / 0x100 * 0x100 + MBR_ID_LAST;
    }
    ghost var h2 := Step(h1, fixes, MbrId);
    assert header[..] == h2;
    if HasBit(fixes, SonyMagic) {
      forall i | 0 <= i < 8 {
        header[SONY_WORD + i] := SONY[i];
      }
    }
    assert header[..] == Step(h2, fixes, SonyMagic);
  }

  method FixAnchors(header: array<u32>, fixes: nat)
    requires header.Length == HEADER_WORDS
    modifies header
    ensures header[..] == Step(Step(Step(old(header[..]), fixes, MasterStart), fixes, MasterType), fixes, MbrVersion)
  {
    ghost var h := header[..];
    if HasBit(fixes, MasterStart) {
      header[START_WORD] := 0;
    }
    ghost var h1 := Step(h, fixes, MasterStart);
    assert header[..] == h1;
    if HasBit(fixes, MasterType) {
      header[TYPE_WORD] := header[TYPE_WORD] / 0x1_0000 * 0x1_0000 + MASTER_TYPE;
    }
    ghost var h2 := Step(h1, fixes, MasterType);
    assert header[..] == h2;
    if HasBit(fixes, MbrVersion) {
      header[VERSION_WORD] := MASTER_VERSION;
    }
    assert header[..] == Step(h2, fixes, MbrVersion);
  }

  /** Restores, in place, the fields whose bits are set. */
  method ApplyKnownFixes(header: array<u32>, fixes: nat)
    requires header.Length == HEADER_WORDS
    modifies header
    ensures header[..] == Applied(old(header[..]), fixes)
  {
    FixIdentity(header, fixes);
    FixAnchors(header, fixes);
  }

  /** The identity markers: their damage and how many are intact. */
  method CheckIdentity(h: Header) returns (mask: nat, matches: nat)
    ensures mask == IdentityMask(h) && matches == IdentityMatches(h)
  {
    mask, matches := 0, 0;
    if h[MAGIC_WORD] != APA_MAGIC { mask := mask + 2; } else { matches := matches + 1; }
    var mbrId := h[ID_WORD] == MBR_ID && h[ID_WORD + 1] % 0x100 == MBR_ID_LAST;
    if !mbrId { mask := mask + 4; } else { matches := matches + 1; }
    if h[SONY_WORD..SONY_WORD + 8] != SONY { mask := mask + 8; } else { matches := matches + 1; }
  }

  /** The anchors that make a header the master: their damage and how many are intact. */
  method CheckAnchors(h: Header) returns (mask: nat, matches: nat)
    ensures mask == AnchorMask(h) && matches == AnchorMatches(h)
  {
    mask, matches := 0, 0;
    if h[START_WORD] != 0 { mask := mask + 16; } else { matches := matches + 1; }
    if TypeOf(h) != MASTER_TYPE { mask := mask + 32; } else { matches := matches + 1; }
    if h[VERSION_WORD] != MASTER_VERSION { mask := mask + 64; } else { matches := matches + 1; }
  }

  /** The patch a plan may make is checked against the stored checksum. */
  method FixExplainsChecksum(h: Header, fixes: nat) returns (explains: bool)
    ensures explains <==> Checksum(Applied(h, fixes)) == h[CHECKSUM_WORD]
  {
    var candidate := new u32[HEADER_WORDS](i requires 0 <= i < HEADER_WORDS => h[i]);
    assert candidate[..] == h;
    ApplyKnownFixes(candidate, fixes);
    var sum := ApaChecksum(candidate[..]);
    return sum == h[CHECKSUM_WORD];
  }

  /** Damage that a header's plan reports. */
  ghost predicate IssuesOf(h: Header, issues: nat) {
    issues == IdentityMask(h) + AnchorMask(h) + (if ChecksumOk(h) then 0 else CHECKSUM_ISSUE)
              + (if PointerInconsistent(h) then OSD_ISSUE else 0)
  }

  /** Exactly one field damaged: which group it is in, and what the masks look like. */
  lemma OneDamaged(h: Header) returns (f: Field)
    ensures IdentityMatches(h) == 2 && AnchorMatches(h) == 3 ==> OnlyDamaged(h, f) && Bit(f) == IdentityMask(h)
    ensures IdentityMatches(h) == 3 && AnchorMatches(h) == 2 ==> OnlyDamaged(h, f) && Bit(f) == AnchorMask(h)
  {
    f := if !Canonical(h, ApaMagic) then ApaMagic else if !Canonical(h, MbrId) then MbrId
         else if !Canonical(h, SonyMagic) then SonyMagic else if !Canonical(h, MasterStart) then MasterStart
         else if !Canonical(h, MasterType) then MasterType else MbrVersion;
  }

  lemma DamagedMatches(h: Header, f: Field)
    requires OnlyDamaged(h, f)
    ensures if IsIdentity(f) then
              && IdentityMatches(h) == 2 && AnchorMatches(h) == 3
              && IdentityMask(h) == Bit(f) && AnchorMask(h) == 0
            else
              && IdentityMatches(h) == 3 && AnchorMatches(h) == 2
              && AnchorMask(h) == Bit(f) && IdentityMask(h) == 0
  {
    var fields := [ApaMagic, MbrId, SonyMagic, MasterStart, MasterType, MbrVersion];
    assert forall i :: 0 <= i < 6 && fields[i] != f ==> Canonical(h, fields[i]);
    assert fields[0] == ApaMagic && fields[1] == MbrId && fields[2] == SonyMagic;
    assert fields[3] == MasterStart && fields[4] == MasterType && fields[5] == MbrVersion;
  }

  /**
   Inspects a header. It may be patched exactly when one known field is
   damaged and restoring that field, alone, explains the stored checksum.
   */
  method Analyze(h: Header) returns (plan: Plan)
    ensures IssuesOf(h, plan.issues)
    ensures plan.pointerClear <==> PointerInconsistent(h)
    ensures plan.patchSafe <==> exists f :: Repairs(h, f)
    ensures forall f :: Repairs(h, f) ==> plan.fixes == Bit(f) && plan.blockers == 0
    ensures plan.blockers == 0 ==> !Hybrid(h) && (plan.patchSafe || (ChecksumOk(h) && forall f :: Canonical(h, f)))
    ensures Hybrid(h) ==> plan.blockers == HYBRID_GPT && plan.fixes == 0
  {
    var identity, identityMatches := CheckIdentity(h);
    var anchors, anchorMatches := CheckAnchors(h);
    var issues := identity + anchors;
    var stored: u32 := h[CHECKSUM_WORD];
    var calculated := ApaChecksum(h);
    if stored != calculated {
      issues := issues + CHECKSUM_ISSUE;
    }
    var pointerClear := false;
    if (h[OSD_START_WORD] == 0) != (h[OSD_SIZE_WORD] == 0) {
      issues := issues + OSD_ISSUE;
      pointerClear := true;
    }
    if Hybrid(h) {
      return Plan(issues, 0, HYBRID_GPT, identityMatches, anchorMatches, false, pointerClear);
    }
    var fixes, blockers := 0, 0;
    OneBit(h);
    if identity != 0 {
      var bits := BitCount32(identity);
      if identityMatches >= 2 && anchorMatches == 3 && bits == 1 {
        fixes := fixes + identity;
      } else {
        blockers := blockers + LOW_IDENTITY;
      }
    }
    if anchors != 0 {
      var bits := BitCount32(anchors);
      if identityMatches == 3 && anchorMatches >= 2 && bits == 1 {
        fixes := fixes + anchors;
      } else {
        blockers := blockers + NOT_MASTER;
      }
    }
    ghost var f := OneDamaged(h);
    if fixes != 0 && blockers == 0 {
      assert OnlyDamaged(h, f) && fixes == Bit(f);
      AppliedOne(h, f);
      var explains := FixExplainsChecksum(h, fixes);
      if stored == calculated || !explains {
        blockers := blockers + UNEXPLAINED_CHECKSUM;
      }
    } else if stored != calculated {
      blockers := blockers + UNEXPLAINED_CHECKSUM;
    }
    assert blockers == 0 && fixes != 0 ==> Repairs(h, f);
    forall g | OnlyDamaged(h, g) ensures fixes == Bit(g) {
      DamagedMatches(h, g);
    }
    plan := Plan(issues, fixes, blockers, identityMatches, anchorMatches, blockers == 0 && fixes != 0, pointerClear);
  }

  function Resealed(h: Header): Header {
    h[CHECKSUM_WORD := Checksum(h)]
  }

  /** Builds the repaired header, in the caller's buffer; the checksum is written anew. */
  method BuildHeader(source: Header, plan: Plan, repaired: array<u32>) returns (ok: bool)
    requires repaired.Length == HEADER_WORDS
    modifies repaired
    ensures ok <==> plan.patchSafe && plan.blockers == 0
    ensures !ok ==> repaired[..] == old(repaired[..])
    ensures ok ==> repaired[..] == Resealed(Applied(source, plan.fixes))
  {
    if !plan.patchSafe || plan.blockers != 0 {
      return false;
    }
    forall i | 0 <= i < HEADER_WORDS {
      repaired[i] := source[i];
    }
    assert repaired[..] == source;
    ApplyKnownFixes(repaired, plan.fixes);
    var sum := ApaChecksum(repaired[..]);
    repaired[CHECKSUM_WORD] := sum;
    return true;
  }

  // ----- what a repair means

  /** A master header as it should be. */
  predicate ValidMaster(h: Header) {
    !Hybrid(h) && ChecksumOk(h) && forall f :: Canonical(h, f)
  }

  /**
   Exact inverse. Damage to one field of a valid master header is accepted
   exactly when it changes the checksum, and the repair then gives back the
   original header, word for word.
   */
  lemma RepairInverts(original: Header, damaged: Header, f: Field)
    requires ValidMaster(original) && SameOutside(original, damaged, f) && damaged != original
    ensures Repairs(damaged, f) <==> Checksum(damaged) != Checksum(original)
    ensures forall g :: Repairs(damaged, g) ==> g == f
    ensures Resealed(Applied(damaged, Bit(f))) == original
  {
    forall g | g != f
      ensures Canonical(original, g) <==> Canonical(damaged, g)
    {
      OthersUntouched(original, damaged, f, g);
    }
    OthersUntouched(original, damaged, f, if f.ApaMagic? then MbrId else ApaMagic);
    AppliedOne(damaged, f);
    FixedIsUnique(damaged, original, f);
    assert original[CHECKSUM_WORD := Checksum(original)] == original;
    if Canonical(damaged, f) {
      FixedIsUnique(original, damaged, f);
      FixedIsUnique(original, original, f);
    }
  }

  /**
   Conversely, an accepted repair changes one field only, keeps the stored
   checksum word, and yields a valid master header: analysing it again finds
   no fault but, at most, an inconsistent OSD pointer.
   */
  lemma RepairIsClean(h: Header, f: Field)
    requires Repairs(h, f)
    ensures var r := Resealed(Applied(h, Bit(f)));
            && SameOutside(h, r, f) && r[CHECKSUM_WORD] == h[CHECKSUM_WORD]
            && ValidMaster(r)
            && (forall issues :: IssuesOf(r, issues) ==> issues == if PointerInconsistent(h) then OSD_ISSUE else 0)
  {
    AppliedOne(h, f);
    var r := Fixed(h, f);
    forall g | g != f
      ensures Canonical(r, g)
    {
      OthersUntouched(h, r, f, g);
    }
    OthersUntouched(h, r, f, if f.ApaMagic? then MbrId else ApaMagic);
    assert r[CHECKSUM_WORD := Checksum(r)] == r;
  }
}
