/**
 A smallest disk to which exact recovery applies: the master and one
 partition, with one link of the master lost.
 */
module ForensicExample {
  import opened Words
  import opened Apa
  import opened Forensic
  import opened ForensicPlan
  import opened ForensicHeal
  import opened ForensicRecovery

  const TOTAL: u32 := 0x8_0000
  const SECOND: u32 := 0x4_0000

  function Blank(): Header {
    seq(HEADER_WORDS, _ => 0)
  }

  function Plain(start: u32, link: u32): Header {
    Sealed(WithLinks(Blank()[MAGIC_WORD := APA_MAGIC][START_WORD := start][LENGTH_WORD := SECOND], link, link))
  }

  function Whole(): Disk {
    map[0 := FirstSector(Plain(0, SECOND)), 1 := SecondSector(Plain(0, SECOND)),
        SECOND := FirstSector(Plain(SECOND, 0)), SECOND + 1 := SecondSector(Plain(SECOND, 0))]
  }

  /** The same disk with the next word of the master cleared. */
  function Broken(): Disk {
    Whole()[0 := Whole()[0][NEXT_WORD := 0]]
  }

  function Chain(): seq<u32> { [0, SECOND] }

  lemma PlainHeader(start: u32, link: u32)
    ensures var h := Plain(start, link);
            && MagicOk(h) && SelfStart(h, start) && h[LENGTH_WORD] == SECOND && NextOf(h) == PrevOf(h) == link
            && ChecksumOk(h)
            && FirstSector(h) + SecondSector(h) == h
  {
    var unsealed := WithLinks(Blank()[MAGIC_WORD := APA_MAGIC][START_WORD := start][LENGTH_WORD := SECOND], link, link);
    ChecksumIgnoresItself(unsealed, Checksum(unsealed));
  }

  lemma WholeIsHealthy()
    ensures HealthyChain(Whole(), TOTAL, Chain())
    ensures HeaderAt(Whole(), 0) == Plain(0, SECOND) && HeaderAt(Whole(), SECOND) == Plain(SECOND, 0)
  {
    PlainHeader(0, SECOND);
    PlainHeader(SECOND, 0);
    assert HeaderAt(Whole(), 0) == Plain(0, SECOND);
    assert HeaderAt(Whole(), SECOND) == Plain(SECOND, 0);
    assert OnGrid(0) && OnGrid(SECOND) by { assert OnGrid(SECOND - SCAN_STEP); }
    assert GoodMember(Whole(), TOTAL, Chain(), 0) && GoodMember(Whole(), TOTAL, Chain(), 1);
  }

  lemma BrokenIsDamaged()
    ensures Damaged(Whole(), Broken(), Chain())
  {
    assert DamagedSector(Whole()[0], Broken()[0]) && DamagedSector(Whole()[SECOND], Broken()[SECOND]);
  }

  lemma NothingElseThere()
    ensures NothingElse(Broken(), TOTAL, Chain())
  {
    forall lba | AdmissibleAt(Broken(), TOTAL, lba) ensures lba in Chain() {
      assert lba in Broken() && lba + 1 in Broken();
    }
  }

  lemma OneWordLost()
    ensures DamageCount(Whole(), Broken(), Chain(), 2) == 1 && NoFalseLink(Whole(), Broken(), Chain())
  {
    PlainHeader(0, SECOND);
    assert DamageAt(Whole(), Broken(), 0) == 1 && DamageAt(Whole(), Broken(), SECOND) == 0;
    assert DamageCount(Whole(), Broken(), Chain(), 1) == 1;
  }

  /** Exact recovery is about something: such a situation exists. */
  lemma RecoveryApplies()
    ensures Situation(Whole(), Broken(), TOTAL, Chain())
    ensures DamageCount(Whole(), Broken(), Chain(), 2) == 1 && NoFalseLink(Whole(), Broken(), Chain())
  {
    WholeIsHealthy();
    BrokenIsDamaged();
    NothingElseThere();
    OneWordLost();
  }
}
