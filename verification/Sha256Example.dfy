/**
 A known answer: the digest of "abc" that FIPS 180-4 is published with, followed
 through padding, schedule and all 64 rounds.
 */
module Sha256Example {
  import opened Words
  import opened Sha256

  /** The eight words of `s` from index `i` on. */
  predicate Row(s: seq<word>, i: nat, a: word, b: word, c: word, d: word, e: word, f: word, g: word, h: word) {
    && i + 8 <= |s|
    && s[i] == a && s[i + 1] == b && s[i + 2] == c && s[i + 3] == d
    && s[i + 4] == e && s[i + 5] == f && s[i + 6] == g && s[i + 7] == h
  }

  // ----- the padded message

  function AbcBlock(): Block {
    [0x61, 0x62, 0x63, 0x80] + Zeros(52) + [0, 0, 0, 0, 0, 0, 0, 24]
  }

  lemma AbcPadded()
    ensures Padded([0x61, 0x62, 0x63]) == AbcBlock()
  {
    assert PaddingZeros(3) == 52;
    assert Be64(24) == [0, 0, 0, 0, 0, 0, 0, 24];
  }

  lemma AbcWord(b: seq<byte>)
    requires |b| >= 4 && b[..4] == [0x61, 0x62, 0x63, 0x80]
    ensures Be32(b, 0) == 0x61626380
  {
    assert b[0] == 0x61 && b[1] == 0x62 && b[2] == 0x63 && b[3] == 0x80;
    assert (b[0] as bv32) == 0x61;
    assert (b[1] as bv32) == 0x62;
    assert (b[2] as bv32) == 0x63;
    assert (b[3] as bv32) == 0x80;
  }

  lemma SmallWord(b: seq<byte>, i: nat)
    requires i + 4 <= |b| && b[i] == b[i + 1] == b[i + 2] == 0
    ensures b[i + 3] == 0 ==> Be32(b, i) == 0
    ensures b[i + 3] == 24 ==> Be32(b, i) == 24
  {
  }

  // ----- the schedule

  /** The schedule of the block. */
  ghost predicate IsAbc(w: seq<word>) {
    |w| == 64 && IsSchedule(AbcBlock(), w)
  }

  lemma BlockWord(w: seq<word>, t: nat)
    requires IsAbc(w) && t < 16
    ensures w[t] == Be32(AbcBlock(), 4 * t)
  {
    assert w[t] == ScheduleWord(AbcBlock(), w, t);
  }

  lemma FirstBlockWord()
    ensures Be32(AbcBlock(), 0) == 0x61626380
  {
    var b := AbcBlock();
    assert b[..4] == [0x61, 0x62, 0x63, 0x80];
    AbcWord(b);
  }

  lemma LaterBlockWord(t: nat)
    requires 1 <= t < 16
    ensures Be32(AbcBlock(), 4 * t) == if t == 15 then 24 else 0
  {
    SmallWord(AbcBlock(), 4 * t);
  }

  lemma NextWord(w: seq<word>, t: nat, value: word)
    requires IsAbc(w) && 16 <= t < 64 && Recurrence(w[t - 2], w[t - 7], w[t - 15], w[t - 16]) == value
    ensures w[t] == value
  {
    assert w[t] == ScheduleWord(AbcBlock(), w, t);
  }

  lemma Words0(w: seq<word>)
    requires IsAbc(w)
    ensures Row(w, 0, 0x61626380, 0, 0, 0, 0, 0, 0, 0) && Row(w, 8, 0, 0, 0, 0, 0, 0, 0, 24)
  {
    forall t | 0 <= t < 16 ensures w[t] == if t == 0 then 0x61626380 else if t == 15 then 24 else 0 {
      BlockWord(w, t);
      if t == 0 {
        FirstBlockWord();
      } else {
        LaterBlockWord(t);
      }
    }
  }

  lemma Words16(w: seq<word>)
    requires IsAbc(w)
    requires Row(w, 0, 0x61626380, 0, 0, 0,
                  0, 0, 0, 0)
    requires Row(w, 8, 0, 0, 0, 0,
                  0, 0, 0, 24)
    ensures Row(w, 16, 0x61626380, 0x000f0000, 0x7da86405, 0x600003c6,
                0x3e9d7b78, 0x0183fc00, 0x12dcbfdb, 0xe2e2c38e)
    ensures Row(w, 24, 0xc8215c1a, 0xb73679a2, 0xe5bc3909, 0x32663c5b,
                0x9d209d67, 0xec8726cb, 0x702138a4, 0xd3b7973b)
  {
    NextWord(w, 16, 0x61626380);
    NextWord(w, 17, 0x000f0000);
    NextWord(w, 18, 0x7da86405);
    NextWord(w, 19, 0x600003c6);
    NextWord(w, 20, 0x3e9d7b78);
    NextWord(w, 21, 0x0183fc00);
    NextWord(w, 22, 0x12dcbfdb);
    NextWord(w, 23, 0xe2e2c38e);
    NextWord(w, 24, 0xc8215c1a);
    NextWord(w, 25, 0xb73679a2);
    NextWord(w, 26, 0xe5bc3909);
    NextWord(w, 27, 0x32663c5b);
    NextWord(w, 28, 0x9d209d67);
    NextWord(w, 29, 0xec8726cb);
    NextWord(w, 30, 0x702138a4);
    NextWord(w, 31, 0xd3b7973b);
  }

  lemma Words32(w: seq<word>)
    requires IsAbc(w)
    requires Row(w, 16, 0x61626380, 0x000f0000, 0x7da86405, 0x600003c6,
                  0x3e9d7b78, 0x0183fc00, 0x12dcbfdb, 0xe2e2c38e)
    requires Row(w, 24, 0xc8215c1a, 0xb73679a2, 0xe5bc3909, 0x32663c5b,
                  0x9d209d67, 0xec8726cb, 0x702138a4, 0xd3b7973b)
    ensures Row(w, 32, 0x93f5997f, 0x3b68ba73, 0xaff4ffc1, 0xf10a5c62,
                0x0a8b3996, 0x72af830a, 0x9409e33e, 0x24641522)
    ensures Row(w, 40, 0x9f47bf94, 0xf0a64f5a, 0x3e246a79, 0x27333ba3,
                0x0c4763f2, 0x840abf27, 0x7a290d5d, 0x065c43da)
  {
    NextWord(w, 32, 0x93f5997f);
    NextWord(w, 33, 0x3b68ba73);
    NextWord(w, 34, 0xaff4ffc1);
    NextWord(w, 35, 0xf10a5c62);
    NextWord(w, 36, 0x0a8b3996);
    NextWord(w, 37, 0x72af830a);
    NextWord(w, 38, 0x9409e33e);
    NextWord(w, 39, 0x24641522);
    NextWord(w, 40, 0x9f47bf94);
    NextWord(w, 41, 0xf0a64f5a);
    NextWord(w, 42, 0x3e246a79);
    NextWord(w, 43, 0x27333ba3);
    NextWord(w, 44, 0x0c4763f2);
    NextWord(w, 45, 0x840abf27);
    NextWord(w, 46, 0x7a290d5d);
    NextWord(w, 47, 0x065c43da);
  }

  lemma Words48(w: seq<word>)
    requires IsAbc(w)
    requires Row(w, 32, 0x93f5997f, 0x3b68ba73, 0xaff4ffc1, 0xf10a5c62,
                  0x0a8b3996, 0x72af830a, 0x9409e33e, 0x24641522)
    requires Row(w, 40, 0x9f47bf94, 0xf0a64f5a, 0x3e246a79, 0x27333ba3,
                  0x0c4763f2, 0x840abf27, 0x7a290d5d, 0x065c43da)
    ensures Row(w, 48, 0xfb3e89cb, 0xcc7617db, 0xb9e66c34, 0xa9993667,
                0x84badedd, 0xc21462bc, 0x1487472c, 0xb20f7a99)
    ensures Row(w, 56, 0xef57b9cd, 0xebe6b238, 0x9fe3095e, 0x78bc8d4b,
                0xa43fcf15, 0x668b2ff8, 0xeeaba2cc, 0x12b1edeb)
  {
    NextWord(w, 48, 0xfb3e89cb);
    NextWord(w, 49, 0xcc7617db);
    NextWord(w, 50, 0xb9e66c34);
    NextWord(w, 51, 0xa9993667);
    NextWord(w, 52, 0x84badedd);
    NextWord(w, 53, 0xc21462bc);
    NextWord(w, 54, 0x1487472c);
    NextWord(w, 55, 0xb20f7a99);
    NextWord(w, 56, 0xef57b9cd);
    NextWord(w, 57, 0xebe6b238);
    NextWord(w, 58, 0x9fe3095e);
    NextWord(w, 59, 0x78bc8d4b);
    NextWord(w, 60, 0xa43fcf15);
    NextWord(w, 61, 0x668b2ff8);
    NextWord(w, 62, 0xeeaba2cc);
    NextWord(w, 63, 0x12b1edeb);
  }

  // ----- the rounds, with their constants `k`

  predicate Goes(run: seq<State>, k: seq<word>, w: seq<word>, t: nat) {
    && |run| == 65 && |k| == |w| == 64 && t < 64
    && run[t + 1] == Round(run[t], k[t], w[t])
  }

  /** The working variables before the first round and after each one. */
  ghost predicate IsTrace(run: seq<State>, k: seq<word>, w: seq<word>) {
    |run| == 65 && |k| == |w| == 64 && forall t :: 0 <= t < 64 ==> Goes(run, k, w, t)
  }

  lemma NextState(run: seq<State>, k: seq<word>, w: seq<word>, t: nat, a: word, e: word)
    requires IsTrace(run, k, w) && t < 64
    requires var s := run[t]; Round(s, k[t], w[t]) == State(a, s.a, s.b, s.c, e, s.e, s.f, s.g)
    ensures var s := run[t]; run[t + 1] == State(a, s.a, s.b, s.c, e, s.e, s.f, s.g)
  {
    assert Goes(run, k, w, t);
  }

  lemma Rounds0(run: seq<State>, k: seq<word>, w: seq<word>)
    requires IsTrace(run, k, w)
    requires Row(k, 0, 0x428a2f98, 0x71374491, 0xb5c0fbcf, 0xe9b5dba5,
                  0x3956c25b, 0x59f111f1, 0x923f82a4, 0xab1c5ed5)
    requires Row(w, 0, 0x61626380, 0, 0, 0,
                  0, 0, 0, 0)
    requires run[0] == State(0x6a09e667, 0xbb67ae85, 0x3c6ef372, 0xa54ff53a,
                              0x510e527f, 0x9b05688c, 0x1f83d9ab, 0x5be0cd19)
    ensures run[8] == State(0x85a07b5f, 0xe5030380, 0x2b4209f5, 0x04409a6a,
                             0x0c657a79, 0x9b27a401, 0x714260ad, 0x43ada245)
  {
    NextState(run, k, w, 0, 0x5d6aebcd, 0xfa2a4622);
    NextState(run, k, w, 1, 0x5a6ad9ad, 0x78ce7989);
    NextState(run, k, w, 2, 0xc8c347a7, 0xf92939eb);
    NextState(run, k, w, 3, 0xd550f666, 0x24e00850);
    NextState(run, k, w, 4, 0x04409a6a, 0x43ada245);
    NextState(run, k, w, 5, 0x2b4209f5, 0x714260ad);
    NextState(run, k, w, 6, 0xe5030380, 0x9b27a401);
    NextState(run, k, w, 7, 0x85a07b5f, 0x0c657a79);
  }

  lemma Rounds8(run: seq<State>, k: seq<word>, w: seq<word>)
    requires IsTrace(run, k, w)
    requires Row(k, 8, 0xd807aa98, 0x12835b01, 0x243185be, 0x550c7dc3,
                  0x72be5d74, 0x80deb1fe, 0x9bdc06a7, 0xc19bf174)
    requires Row(w, 8, 0, 0, 0, 0,
                  0, 0, 0, 24)
    requires run[8] == State(0x85a07b5f, 0xe5030380, 0x2b4209f5, 0x04409a6a,
                              0x0c657a79, 0x9b27a401, 0x714260ad, 0x43ada245)
    ensures run[16] == State(0xb0fa238e, 0xc0645fde, 0xd932eb16, 0x87912990,
                              0x07590dcd, 0x0b92f20c, 0x745a48de, 0x1e578218)
  {
    NextState(run, k, w, 8, 0x8e04ecb9, 0x32ca2d8c);
    NextState(run, k, w, 9, 0x8c87346b, 0x1cc92596);
    NextState(run, k, w, 10, 0x4798a3f4, 0x436b23e8);
    NextState(run, k, w, 11, 0xf71fc5a9, 0x816fd6e9);
    NextState(run, k, w, 12, 0x87912990, 0x1e578218);
    NextState(run, k, w, 13, 0xd932eb16, 0x745a48de);
    NextState(run, k, w, 14, 0xc0645fde, 0x0b92f20c);
    NextState(run, k, w, 15, 0xb0fa238e, 0x07590dcd);
  }

  lemma Rounds16(run: seq<State>, k: seq<word>, w: seq<word>)
    requires IsTrace(run, k, w)
    requires Row(k, 16, 0xe49b69c1, 0xefbe4786, 0x0fc19dc6, 0x240ca1cc,
                  0x2de92c6f, 0x4a7484aa, 0x5cb0a9dc, 0x76f988da)
    requires Row(w, 16, 0x61626380, 0x000f0000, 0x7da86405, 0x600003c6,
                  0x3e9d7b78, 0x0183fc00, 0x12dcbfdb, 0xe2e2c38e)
    requires run[16] == State(0xb0fa238e, 0xc0645fde, 0xd932eb16, 0x87912990,
                               0x07590dcd, 0x0b92f20c, 0x745a48de, 0x1e578218)
    ensures run[24] == State(0xc5d53d8d, 0xa7a3623f, 0xc2606d6d, 0x9dc68b63,
                              0xaa47c347, 0x49f5114a, 0xe1257970, 0x8ada8930)
  {
    NextState(run, k, w, 16, 0x21da9a9b, 0x8034229c);
    NextState(run, k, w, 17, 0xc2fbd9d1, 0x846ee454);
    NextState(run, k, w, 18, 0xfe777bbf, 0xcc899961);
    NextState(run, k, w, 19, 0xe1f20c33, 0xb0638179);
    NextState(run, k, w, 20, 0x9dc68b63, 0x8ada8930);
    NextState(run, k, w, 21, 0xc2606d6d, 0xe1257970);
    NextState(run, k, w, 22, 0xa7a3623f, 0x49f5114a);
    NextState(run, k, w, 23, 0xc5d53d8d, 0xaa47c347);
  }

  lemma Rounds24(run: seq<State>, k: seq<word>, w: seq<word>)
    requires IsTrace(run, k, w)
    requires Row(k, 24, 0x983e5152, 0xa831c66d, 0xb00327c8, 0xbf597fc7,
                  0xc6e00bf3, 0xd5a79147, 0x06ca6351, 0x14292967)
    requires Row(w, 24, 0xc8215c1a, 0xb73679a2, 0xe5bc3909, 0x32663c5b,
                  0x9d209d67, 0xec8726cb, 0x702138a4, 0xd3b7973b)
    requires run[24] == State(0xc5d53d8d, 0xa7a3623f, 0xc2606d6d, 0x9dc68b63,
                               0xaa47c347, 0x49f5114a, 0xe1257970, 0x8ada8930)
    ensures run[32] == State(0x73b33bf5, 0xea992a22, 0xa0060b30, 0x363482c9,
                              0xba591112, 0x0109ab3a, 0xade79437, 0x6112a3b7)
  {
    NextState(run, k, w, 24, 0x1c2c2838, 0x2823ef91);
    NextState(run, k, w, 25, 0xcde8037d, 0x14383d8e);
    NextState(run, k, w, 26, 0xb62ec4bc, 0xc74c6516);
    NextState(run, k, w, 27, 0x77d37528, 0xedffbff8);
    NextState(run, k, w, 28, 0x363482c9, 0x6112a3b7);
    NextState(run, k, w, 29, 0xa0060b30, 0xade79437);
    NextState(run, k, w, 30, 0xea992a22, 0x0109ab3a);
    NextState(run, k, w, 31, 0x73b33bf5, 0xba591112);
  }

  lemma Rounds32(run: seq<State>, k: seq<word>, w: seq<word>)
    requires IsTrace(run, k, w)
    requires Row(k, 32, 0x27b70a85, 0x2e1b2138, 0x4d2c6dfc, 0x53380d13,
                  0x650a7354, 0x766a0abb, 0x81c2c92e, 0x92722c85)
    requires Row(w, 32, 0x93f5997f, 0x3b68ba73, 0xaff4ffc1, 0xf10a5c62,
                  0x0a8b3996, 0x72af830a, 0x9409e33e, 0x24641522)
    requires run[32] == State(0x73b33bf5, 0xea992a22, 0xa0060b30, 0x363482c9,
                               0xba591112, 0x0109ab3a, 0xade79437, 0x6112a3b7)
    ensures run[40] == State(0x79ea687a, 0x6dc57a8a, 0x34df1604, 0x41a65cb1,
                              0x1efbc0a0, 0xf0781bc8, 0xa507a53d, 0x0772a26b)
  {
    NextState(run, k, w, 32, 0x98e12507, 0x9cd9f5f6);
    NextState(run, k, w, 33, 0xfe604df5, 0x59249dd3);
    NextState(run, k, w, 34, 0xa9a7738c, 0x085f3833);
    NextState(run, k, w, 35, 0x65a0cfe4, 0xf4b002d6);
    NextState(run, k, w, 36, 0x41a65cb1, 0x0772a26b);
    NextState(run, k, w, 37, 0x34df1604, 0xa507a53d);
    NextState(run, k, w, 38, 0x6dc57a8a, 0xf0781bc8);
    NextState(run, k, w, 39, 0x79ea687a, 0x1efbc0a0);
  }

  lemma Rounds40(run: seq<State>, k: seq<word>, w: seq<word>)
    requires IsTrace(run, k, w)
    requires Row(k, 40, 0xa2bfe8a1, 0xa81a664b, 0xc24b8b70, 0xc76c51a3,
                  0xd192e819, 0xd6990624, 0xf40e3585, 0x106aa070)
    requires Row(w, 40, 0x9f47bf94, 0xf0a64f5a, 0x3e246a79, 0x27333ba3,
                  0x0c4763f2, 0x840abf27, 0x7a290d5d, 0x065c43da)
    requires run[40] == State(0x79ea687a, 0x6dc57a8a, 0x34df1604, 0x41a65cb1,
                               0x1efbc0a0, 0xf0781bc8, 0xa507a53d, 0x0772a26b)
    ensures run[48] == State(0x4172328d, 0xa14c14b0, 0x72ab4b91, 0x26628815,
                              0xfecf0bc6, 0xd57b94a9, 0xb7755da1, 0xa80f11f0)
  {
    NextState(run, k, w, 40, 0xd6670766, 0x26352d63);
    NextState(run, k, w, 41, 0xdf46652f, 0x838b2711);
    NextState(run, k, w, 42, 0x17aa0dfe, 0xdecd4715);
    NextState(run, k, w, 43, 0x9d4baf93, 0xfda24c2e);
    NextState(run, k, w, 44, 0x26628815, 0xa80f11f0);
    NextState(run, k, w, 45, 0x72ab4b91, 0xb7755da1);
    NextState(run, k, w, 46, 0xa14c14b0, 0xd57b94a9);
    NextState(run, k, w, 47, 0x4172328d, 0xfecf0bc6);
  }

  lemma Rounds48(run: seq<State>, k: seq<word>, w: seq<word>)
    requires IsTrace(run, k, w)
    requires Row(k, 48, 0x19a4c116, 0x1e376c08, 0x2748774c, 0x34b0bcb5,
                  0x391c0cb3, 0x4ed8aa4a, 0x5b9cca4f, 0x682e6ff3)
    requires Row(w, 48, 0xfb3e89cb, 0xcc7617db, 0xb9e66c34, 0xa9993667,
                  0x84badedd, 0xc21462bc, 0x1487472c, 0xb20f7a99)
    requires run[48] == State(0x4172328d, 0xa14c14b0, 0x72ab4b91, 0x26628815,
                               0xfecf0bc6, 0xd57b94a9, 0xb7755da1, 0xa80f11f0)
    ensures run[56] == State(0x38cc9913, 0x3ec45cdb, 0xf5702fdb, 0x101fd28f,
                              0x54cb266b, 0xe50e1b4f, 0x9f4787c3, 0x529e7d00)
  {
    NextState(run, k, w, 48, 0x05757ceb, 0xbd714038);
    NextState(run, k, w, 49, 0xf11bfaa8, 0x6e5c390c);
    NextState(run, k, w, 50, 0x7a0508a1, 0x52f1ccf7);
    NextState(run, k, w, 51, 0x886e7a22, 0x49231c1e);
    NextState(run, k, w, 52, 0x101fd28f, 0x529e7d00);
    NextState(run, k, w, 53, 0xf5702fdb, 0x9f4787c3);
    NextState(run, k, w, 54, 0x3ec45cdb, 0xe50e1b4f);
    NextState(run, k, w, 55, 0x38cc9913, 0x54cb266b);
  }

  lemma Rounds56(run: seq<State>, k: seq<word>, w: seq<word>)
    requires IsTrace(run, k, w)
    requires Row(k, 56, 0x748f82ee, 0x78a5636f, 0x84c87814, 0x8cc70208,
                  0x90befffa, 0xa4506ceb, 0xbef9a3f7, 0xc67178f2)
    requires Row(w, 56, 0xef57b9cd, 0xebe6b238, 0x9fe3095e, 0x78bc8d4b,
                  0xa43fcf15, 0x668b2ff8, 0xeeaba2cc, 0x12b1edeb)
    requires run[56] == State(0x38cc9913, 0x3ec45cdb, 0xf5702fdb, 0x101fd28f,
                               0x54cb266b, 0xe50e1b4f, 0x9f4787c3, 0x529e7d00)
    ensures run[64] == State(0x506e3058, 0xd39a2165, 0x04d24d6c, 0xb85e2ce9,
                              0x5ef50f24, 0xfb121210, 0x948d25b6, 0x961f4894)
  {
    NextState(run, k, w, 56, 0xfcd1887b, 0x9b5e906c);
    NextState(run, k, w, 57, 0xc062d46f, 0x7e44008e);
    NextState(run, k, w, 58, 0xffb70472, 0x6d83bfc6);
    NextState(run, k, w, 59, 0xb6ae8fff, 0xb21bad3d);
    NextState(run, k, w, 60, 0xb85e2ce9, 0x961f4894);
    NextState(run, k, w, 61, 0x04d24d6c, 0x948d25b6);
    NextState(run, k, w, 62, 0xd39a2165, 0xfb121210);
    NextState(run, k, w, 63, 0x506e3058, 0x5ef50f24);
  }

  lemma TraceOf(w: seq<word>) returns (run: seq<State>)
    requires |w| == 64
    ensures IsTrace(run, ROUND_CONSTANTS, w) && run[0] == INITIAL && run[64] == Rounds(INITIAL, w, 64)
  {
    run := seq(65, t requires 0 <= t < 65 => Rounds(INITIAL, w, t));
    forall t | 0 <= t < 64 ensures Goes(run, ROUND_CONSTANTS, w, t) {
    }
  }

  lemma Constants0()
    ensures Row(ROUND_CONSTANTS, 0, 0x428a2f98, 0x71374491, 0xb5c0fbcf, 0xe9b5dba5,
                0x3956c25b, 0x59f111f1, 0x923f82a4, 0xab1c5ed5)
    ensures Row(ROUND_CONSTANTS, 8, 0xd807aa98, 0x12835b01, 0x243185be, 0x550c7dc3,
                0x72be5d74, 0x80deb1fe, 0x9bdc06a7, 0xc19bf174)
  {
  }

  lemma Constants16()
    ensures Row(ROUND_CONSTANTS, 16, 0xe49b69c1, 0xefbe4786, 0x0fc19dc6, 0x240ca1cc,
                0x2de92c6f, 0x4a7484aa, 0x5cb0a9dc, 0x76f988da)
    ensures Row(ROUND_CONSTANTS, 24, 0x983e5152, 0xa831c66d, 0xb00327c8, 0xbf597fc7,
                0xc6e00bf3, 0xd5a79147, 0x06ca6351, 0x14292967)
  {
  }

  lemma Constants32()
    ensures Row(ROUND_CONSTANTS, 32, 0x27b70a85, 0x2e1b2138, 0x4d2c6dfc, 0x53380d13,
                0x650a7354, 0x766a0abb, 0x81c2c92e, 0x92722c85)
    ensures Row(ROUND_CONSTANTS, 40, 0xa2bfe8a1, 0xa81a664b, 0xc24b8b70, 0xc76c51a3,
                0xd192e819, 0xd6990624, 0xf40e3585, 0x106aa070)
  {
  }

  lemma Constants48()
    ensures Row(ROUND_CONSTANTS, 48, 0x19a4c116, 0x1e376c08, 0x2748774c, 0x34b0bcb5,
                0x391c0cb3, 0x4ed8aa4a, 0x5b9cca4f, 0x682e6ff3)
    ensures Row(ROUND_CONSTANTS, 56, 0x748f82ee, 0x78a5636f, 0x84c87814, 0x8cc70208,
                0x90befffa, 0xa4506ceb, 0xbef9a3f7, 0xc67178f2)
  {
  }

  lemma AllWords(w: seq<word>)
    requires IsAbc(w)
    ensures Row(w, 0, 0x61626380, 0, 0, 0,
                0, 0, 0, 0)
    ensures Row(w, 8, 0, 0, 0, 0,
                0, 0, 0, 24)
    ensures Row(w, 16, 0x61626380, 0x000f0000, 0x7da86405, 0x600003c6,
                0x3e9d7b78, 0x0183fc00, 0x12dcbfdb, 0xe2e2c38e)
    ensures Row(w, 24, 0xc8215c1a, 0xb73679a2, 0xe5bc3909, 0x32663c5b,
                0x9d209d67, 0xec8726cb, 0x702138a4, 0xd3b7973b)
    ensures Row(w, 32, 0x93f5997f, 0x3b68ba73, 0xaff4ffc1, 0xf10a5c62,
                0x0a8b3996, 0x72af830a, 0x9409e33e, 0x24641522)
    ensures Row(w, 40, 0x9f47bf94, 0xf0a64f5a, 0x3e246a79, 0x27333ba3,
                0x0c4763f2, 0x840abf27, 0x7a290d5d, 0x065c43da)
    ensures Row(w, 48, 0xfb3e89cb, 0xcc7617db, 0xb9e66c34, 0xa9993667,
                0x84badedd, 0xc21462bc, 0x1487472c, 0xb20f7a99)
    ensures Row(w, 56, 0xef57b9cd, 0xebe6b238, 0x9fe3095e, 0x78bc8d4b,
                0xa43fcf15, 0x668b2ff8, 0xeeaba2cc, 0x12b1edeb)
  {
    Words0(w);
    Words16(w);
    Words32(w);
    Words48(w);
  }

  lemma AllRounds(run: seq<State>, k: seq<word>, w: seq<word>)
    requires IsTrace(run, k, w) && run[0] == INITIAL && k == ROUND_CONSTANTS && IsAbc(w)
    ensures run[64] == State(0x506e3058, 0xd39a2165, 0x04d24d6c, 0xb85e2ce9,
                            0x5ef50f24, 0xfb121210, 0x948d25b6, 0x961f4894)
  {
    Constants0();
    Constants16();
    Constants32();
    Constants48();
    AllWords(w);
    Rounds0(run, k, w);
    Rounds8(run, k, w);
    Rounds16(run, k, w);
    Rounds24(run, k, w);
    Rounds32(run, k, w);
    Rounds40(run, k, w);
    Rounds48(run, k, w);
    Rounds56(run, k, w);
  }

  // ----- the digest

  lemma AbcHash()
    ensures HashBlocks(AbcBlock()) == State(0xba7816bf, 0x8f01cfea, 0x414140de, 0x5dae2223,
                                           0xb00361a3, 0x96177a9c, 0xb410ff61, 0xf20015ad)
  {
    var block, none := AbcBlock(), [];
    assert none + block == block;
    HashOneMore(none, block);
    ScheduleIsSchedule(block, 64);
    var w := Schedule(block, 64);
    var run := TraceOf(w);
    AllRounds(run, ROUND_CONSTANTS, w);
  }

  lemma Bytes0()
    ensures BeBytes32(0xba7816bf) == [0xba, 0x78, 0x16, 0xbf]
  {
  }

  lemma Bytes1()
    ensures BeBytes32(0x8f01cfea) == [0x8f, 0x01, 0xcf, 0xea]
  {
  }

  lemma Bytes2()
    ensures BeBytes32(0x414140de) == [0x41, 0x41, 0x40, 0xde]
  {
  }

  lemma Bytes3()
    ensures BeBytes32(0x5dae2223) == [0x5d, 0xae, 0x22, 0x23]
  {
  }

  lemma Bytes4()
    ensures BeBytes32(0xb00361a3) == [0xb0, 0x03, 0x61, 0xa3]
  {
  }

  lemma Bytes5()
    ensures BeBytes32(0x96177a9c) == [0x96, 0x17, 0x7a, 0x9c]
  {
  }

  lemma Bytes6()
    ensures BeBytes32(0xb410ff61) == [0xb4, 0x10, 0xff, 0x61]
  {
  }

  lemma Bytes7()
    ensures BeBytes32(0xf20015ad) == [0xf2, 0x00, 0x15, 0xad]
  {
  }

  lemma Joined(s: State, a: seq<byte>, b: seq<byte>, c: seq<byte>, d: seq<byte>,
               e: seq<byte>, f: seq<byte>, g: seq<byte>, h: seq<byte>)
    requires BeBytes32(s.a) == a && BeBytes32(s.b) == b && BeBytes32(s.c) == c && BeBytes32(s.d) == d
    requires BeBytes32(s.e) == e && BeBytes32(s.f) == f && BeBytes32(s.g) == g && BeBytes32(s.h) == h
    ensures StateBytes(s) == a + b + c + d + e + f + g + h
  {
  }

  lemma DigestIs(message: seq<byte>, block: Block, s: State, digest: seq<byte>)
    requires Padded(message) == block && HashBlocks(block) == s && StateBytes(s) == digest
    ensures Digest(message) == digest
  {
  }

  lemma AbcBytes()
    ensures StateBytes(State(0xba7816bf, 0x8f01cfea, 0x414140de, 0x5dae2223,
                             0xb00361a3, 0x96177a9c, 0xb410ff61, 0xf20015ad)) ==
            [0xba, 0x78, 0x16, 0xbf] + [0x8f, 0x01, 0xcf, 0xea] + [0x41, 0x41, 0x40, 0xde] + [0x5d, 0xae, 0x22, 0x23] +
            [0xb0, 0x03, 0x61, 0xa3] + [0x96, 0x17, 0x7a, 0x9c] + [0xb4, 0x10, 0xff, 0x61] + [0xf2, 0x00, 0x15, 0xad]
  {
    Bytes0();
    Bytes1();
    Bytes2();
    Bytes3();
    Bytes4();
    Bytes5();
    Bytes6();
    Bytes7();
    Joined(State(0xba7816bf, 0x8f01cfea, 0x414140de, 0x5dae2223,
                 0xb00361a3, 0x96177a9c, 0xb410ff61, 0xf20015ad),
           [0xba, 0x78, 0x16, 0xbf], [0x8f, 0x01, 0xcf, 0xea], [0x41, 0x41, 0x40, 0xde], [0x5d, 0xae, 0x22, 0x23],
           [0xb0, 0x03, 0x61, 0xa3], [0x96, 0x17, 0x7a, 0x9c], [0xb4, 0x10, 0xff, 0x61], [0xf2, 0x00, 0x15, 0xad]);
  }

  /** "abc" has the published digest. */
  lemma AbcDigest()
    ensures Digest([0x61, 0x62, 0x63]) ==
            [0xba, 0x78, 0x16, 0xbf] + [0x8f, 0x01, 0xcf, 0xea] + [0x41, 0x41, 0x40, 0xde] + [0x5d, 0xae, 0x22, 0x23] +
            [0xb0, 0x03, 0x61, 0xa3] + [0x96, 0x17, 0x7a, 0x9c] + [0xb4, 0x10, 0xff, 0x61] + [0xf2, 0x00, 0x15, 0xad]
  {
    AbcPadded();
    AbcHash();
    AbcBytes();
    DigestIs([0x61, 0x62, 0x63], AbcBlock(),
             State(0xba7816bf, 0x8f01cfea, 0x414140de, 0x5dae2223,
                   0xb00361a3, 0x96177a9c, 0xb410ff61, 0xf20015ad),
             [0xba, 0x78, 0x16, 0xbf] + [0x8f, 0x01, 0xcf, 0xea] + [0x41, 0x41, 0x40, 0xde] + [0x5d, 0xae, 0x22, 0x23] +
             [0xb0, 0x03, 0x61, 0xa3] + [0x96, 0x17, 0x7a, 0x9c] + [0xb4, 0x10, 0xff, 0x61] + [0xf2, 0x00, 0x15, 0xad]);
  }
}
