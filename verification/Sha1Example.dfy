/**
 * The digest of "abc" that FIPS 180-2 prints in its appendix A.1, through all of its steps: the
 * compression is that of the standard, and not only one that agrees with itself.
 */
module Sha1Example {
  import opened Bytes
  import opened Sha1Spec
  import opened Sha1Machine
  import opened Sha1Words

  // ----- The message schedule -----

  predicate Words0(w: seq<bv32>) {
    && |w| == 80
    && w[0] == 0x61626380 && w[1] == 0x00000000 && w[2] == 0x00000000 && w[3] == 0x00000000
    && w[4] == 0x00000000 && w[5] == 0x00000000 && w[6] == 0x00000000 && w[7] == 0x00000000
    && w[8] == 0x00000000 && w[9] == 0x00000000 && w[10] == 0x00000000 && w[11] == 0x00000000
    && w[12] == 0x00000000 && w[13] == 0x00000000 && w[14] == 0x00000000 && w[15] == 0x00000018
  }

  predicate Words16(w: seq<bv32>) {
    && |w| == 80
    && w[16] == 0xC2C4C700 && w[17] == 0x00000000 && w[18] == 0x00000030 && w[19] == 0x85898E01
    && w[20] == 0x00000000 && w[21] == 0x00000060 && w[22] == 0x0B131C03 && w[23] == 0x00000030
    && w[24] == 0x85898EC1 && w[25] == 0x16263806 && w[26] == 0x00000000 && w[27] == 0x00000180
    && w[28] == 0x2C4C700C && w[29] == 0x000000F0 && w[30] == 0x93AFB507 && w[31] == 0x5898E048
  }

  predicate Words32(w: seq<bv32>) {
    && |w| == 80
    && w[32] == 0x8E9A9202 && w[33] == 0x00000600 && w[34] == 0xB131C0F0 && w[35] == 0x16263BC6
    && w[36] == 0x4EBED41E && w[37] == 0x626380A1 && w[38] == 0x16263806 && w[39] == 0x000018C0
    && w[40] == 0xD2E138C4 && w[41] == 0x00000F00 && w[42] == 0x3AFB5079 && w[43] == 0x898E04E5
    && w[44] == 0xE2BA3C2B && w[45] == 0x000060C0 && w[46] == 0x053A37CD && w[47] == 0x74458547
  }

  predicate Words48(w: seq<bv32>) {
    && |w| == 80
    && w[48] == 0xDA9415ED && w[49] == 0x26380A16 && w[50] == 0x626383A1 && w[51] == 0x4EBF54DE
    && w[52] == 0x3835B44B && w[53] == 0x0000F600 && w[54] == 0x1E84C7A3 && w[55] == 0x98E04D98
    && w[56] == 0x651D16A0 && w[57] == 0x62658CA1 && w[58] == 0x458544D6 && w[59] == 0x44584CB7
    && w[60] == 0x7BA06619 && w[61] == 0x6380AEA2 && w[62] == 0x0AE55269 && w[63] == 0x627B49A1
  }

  predicate Words64(w: seq<bv32>) {
    && |w| == 80
    && w[64] == 0x7CD45C9D && w[65] == 0x000F0000 && w[66] == 0xFB50753A && w[67] == 0xEC6765E8
    && w[68] == 0xBA3C2BE2 && w[69] == 0x0060C000 && w[70] == 0x3A37CD05 && w[71] == 0x458546F4
    && w[72] == 0xB8599DD6 && w[73] == 0x380A1A26 && w[74] == 0x01E02203 && w[75] == 0xE7CC3456
    && w[76] == 0xE6E60B69 && w[77] == 0x00F60A00 && w[78] == 0x5795EF4F && w[79] == 0x822E0879
  }

  predicate IsSchedule(w: seq<bv32>) {
    |w| == 80 && forall t :: 16 <= t < 80 ==> w[t] == Turn(1, XorWord(XorWord(XorWord(w[t - 3], w[t - 8]), w[t - 14]), w[t - 16]))
  }

  /** One more word, from four known ones. */
  lemma Word(w: seq<bv32>, t: nat, p: bv32, q: bv32, r: bv32, s: bv32, next: bv32)
    requires IsSchedule(w) && 16 <= t < 80 && w[t - 3] == p && w[t - 8] == q && w[t - 14] == r && w[t - 16] == s
    requires Turn(1, XorWord(XorWord(XorWord(p, q), r), s)) == next
    ensures w[t] == next
  {
    hide Turn, XorWord;
  }

  lemma Schedule16(w: seq<bv32>)
    requires IsSchedule(w) && Words0(w)
    ensures Words16(w)
  {
    hide IsSchedule;
    Word(w, 16, 0x00000000, 0x00000000, 0x00000000, 0x61626380, 0xC2C4C700);
    Word(w, 17, 0x00000000, 0x00000000, 0x00000000, 0x00000000, 0x00000000);
    Word(w, 18, 0x00000018, 0x00000000, 0x00000000, 0x00000000, 0x00000030);
    Word(w, 19, 0xC2C4C700, 0x00000000, 0x00000000, 0x00000000, 0x85898E01);
    Word(w, 20, 0x00000000, 0x00000000, 0x00000000, 0x00000000, 0x00000000);
    Word(w, 21, 0x00000030, 0x00000000, 0x00000000, 0x00000000, 0x00000060);
    Word(w, 22, 0x85898E01, 0x00000000, 0x00000000, 0x00000000, 0x0B131C03);
    Word(w, 23, 0x00000000, 0x00000018, 0x00000000, 0x00000000, 0x00000030);
    Word(w, 24, 0x00000060, 0xC2C4C700, 0x00000000, 0x00000000, 0x85898EC1);
    Word(w, 25, 0x0B131C03, 0x00000000, 0x00000000, 0x00000000, 0x16263806);
    Word(w, 26, 0x00000030, 0x00000030, 0x00000000, 0x00000000, 0x00000000);
    Word(w, 27, 0x85898EC1, 0x85898E01, 0x00000000, 0x00000000, 0x00000180);
    Word(w, 28, 0x16263806, 0x00000000, 0x00000000, 0x00000000, 0x2C4C700C);
    Word(w, 29, 0x00000000, 0x00000060, 0x00000018, 0x00000000, 0x000000F0);
    Word(w, 30, 0x00000180, 0x0B131C03, 0xC2C4C700, 0x00000000, 0x93AFB507);
    Word(w, 31, 0x2C4C700C, 0x00000030, 0x00000000, 0x00000018, 0x5898E048);
  }

  lemma Schedule32(w: seq<bv32>)
    requires IsSchedule(w) && Words16(w)
    ensures Words32(w)
  {
    hide IsSchedule;
    Word(w, 32, 0x000000F0, 0x85898EC1, 0x00000030, 0xC2C4C700, 0x8E9A9202);
    Word(w, 33, 0x93AFB507, 0x16263806, 0x85898E01, 0x00000000, 0x00000600);
    Word(w, 34, 0x5898E048, 0x00000000, 0x00000000, 0x00000030, 0xB131C0F0);
    Word(w, 35, 0x8E9A9202, 0x00000180, 0x00000060, 0x85898E01, 0x16263BC6);
    Word(w, 36, 0x00000600, 0x2C4C700C, 0x0B131C03, 0x00000000, 0x4EBED41E);
    Word(w, 37, 0xB131C0F0, 0x000000F0, 0x00000030, 0x00000060, 0x626380A1);
    Word(w, 38, 0x16263BC6, 0x93AFB507, 0x85898EC1, 0x0B131C03, 0x16263806);
    Word(w, 39, 0x4EBED41E, 0x5898E048, 0x16263806, 0x00000030, 0x000018C0);
    Word(w, 40, 0x626380A1, 0x8E9A9202, 0x00000000, 0x85898EC1, 0xD2E138C4);
    Word(w, 41, 0x16263806, 0x00000600, 0x00000180, 0x16263806, 0x00000F00);
    Word(w, 42, 0x000018C0, 0xB131C0F0, 0x2C4C700C, 0x00000000, 0x3AFB5079);
    Word(w, 43, 0xD2E138C4, 0x16263BC6, 0x000000F0, 0x00000180, 0x898E04E5);
    Word(w, 44, 0x00000F00, 0x4EBED41E, 0x93AFB507, 0x2C4C700C, 0xE2BA3C2B);
    Word(w, 45, 0x3AFB5079, 0x626380A1, 0x5898E048, 0x000000F0, 0x000060C0);
    Word(w, 46, 0x898E04E5, 0x16263806, 0x8E9A9202, 0x93AFB507, 0x053A37CD);
    Word(w, 47, 0xE2BA3C2B, 0x000018C0, 0x00000600, 0x5898E048, 0x74458547);
  }

  lemma Schedule48(w: seq<bv32>)
    requires IsSchedule(w) && Words32(w)
    ensures Words48(w)
  {
    hide IsSchedule;
    Word(w, 48, 0x000060C0, 0xD2E138C4, 0xB131C0F0, 0x8E9A9202, 0xDA9415ED);
    Word(w, 49, 0x053A37CD, 0x00000F00, 0x16263BC6, 0x00000600, 0x26380A16);
    Word(w, 50, 0x74458547, 0x3AFB5079, 0x4EBED41E, 0xB131C0F0, 0x626383A1);
    Word(w, 51, 0xDA9415ED, 0x898E04E5, 0x626380A1, 0x16263BC6, 0x4EBF54DE);
    Word(w, 52, 0x26380A16, 0xE2BA3C2B, 0x16263806, 0x4EBED41E, 0x3835B44B);
    Word(w, 53, 0x626383A1, 0x000060C0, 0x000018C0, 0x626380A1, 0x0000F600);
    Word(w, 54, 0x4EBF54DE, 0x053A37CD, 0xD2E138C4, 0x16263806, 0x1E84C7A3);
    Word(w, 55, 0x3835B44B, 0x74458547, 0x00000F00, 0x000018C0, 0x98E04D98);
    Word(w, 56, 0x0000F600, 0xDA9415ED, 0x3AFB5079, 0xD2E138C4, 0x651D16A0);
    Word(w, 57, 0x1E84C7A3, 0x26380A16, 0x898E04E5, 0x00000F00, 0x62658CA1);
    Word(w, 58, 0x98E04D98, 0x626383A1, 0xE2BA3C2B, 0x3AFB5079, 0x458544D6);
    Word(w, 59, 0x651D16A0, 0x4EBF54DE, 0x000060C0, 0x898E04E5, 0x44584CB7);
    Word(w, 60, 0x62658CA1, 0x3835B44B, 0x053A37CD, 0xE2BA3C2B, 0x7BA06619);
    Word(w, 61, 0x458544D6, 0x0000F600, 0x74458547, 0x000060C0, 0x6380AEA2);
    Word(w, 62, 0x44584CB7, 0x1E84C7A3, 0xDA9415ED, 0x053A37CD, 0x0AE55269);
    Word(w, 63, 0x7BA06619, 0x98E04D98, 0x26380A16, 0x74458547, 0x627B49A1);
  }

  lemma Schedule64(w: seq<bv32>)
    requires IsSchedule(w) && Words48(w)
    ensures Words64(w)
  {
    hide IsSchedule;
    Word(w, 64, 0x6380AEA2, 0x651D16A0, 0x626383A1, 0xDA9415ED, 0x7CD45C9D);
    Word(w, 65, 0x0AE55269, 0x62658CA1, 0x4EBF54DE, 0x26380A16, 0x000F0000);
    Word(w, 66, 0x627B49A1, 0x458544D6, 0x3835B44B, 0x626383A1, 0xFB50753A);
    Word(w, 67, 0x7CD45C9D, 0x44584CB7, 0x0000F600, 0x4EBF54DE, 0xEC6765E8);
    Word(w, 68, 0x000F0000, 0x7BA06619, 0x1E84C7A3, 0x3835B44B, 0xBA3C2BE2);
    Word(w, 69, 0xFB50753A, 0x6380AEA2, 0x98E04D98, 0x0000F600, 0x0060C000);
    Word(w, 70, 0xEC6765E8, 0x0AE55269, 0x651D16A0, 0x1E84C7A3, 0x3A37CD05);
    Word(w, 71, 0xBA3C2BE2, 0x627B49A1, 0x62658CA1, 0x98E04D98, 0x458546F4);
    Word(w, 72, 0x0060C000, 0x7CD45C9D, 0x458544D6, 0x651D16A0, 0xB8599DD6);
    Word(w, 73, 0x3A37CD05, 0x000F0000, 0x44584CB7, 0x62658CA1, 0x380A1A26);
    Word(w, 74, 0x458546F4, 0xFB50753A, 0x7BA06619, 0x458544D6, 0x01E02203);
    Word(w, 75, 0xB8599DD6, 0xEC6765E8, 0x6380AEA2, 0x44584CB7, 0xE7CC3456);
    Word(w, 76, 0x380A1A26, 0xBA3C2BE2, 0x0AE55269, 0x7BA06619, 0xE6E60B69);
    Word(w, 77, 0x01E02203, 0x0060C000, 0x627B49A1, 0x6380AEA2, 0x00F60A00);
    Word(w, 78, 0xE7CC3456, 0x3A37CD05, 0x7CD45C9D, 0x0AE55269, 0x5795EF4F);
    Word(w, 79, 0xE6E60B69, 0x458546F4, 0x000F0000, 0x627B49A1, 0x822E0879);
  }

  // ----- The working variables -----

  /** The five variables, from the last five values of the first one. */
  function Last(a: bv32, b: bv32, c: bv32, d: bv32, e: bv32): Words {
    Words(e, d, Turn(30, c), Turn(30, b), Turn(30, a))
  }

  const BEGIN := Words(0x67452301, 0xEFCDAB89, 0x98BADCFE, 0x10325476, 0xC3D2E1F0)

  /** One more step, whose values are known. */
  lemma Step(w: seq<bv32>, t: nat, a: bv32, b: bv32, c: bv32, d: bv32, e: bv32, word: bv32, next: bv32)
    requires t < |w| && w[t] == word && RoundsWords(BEGIN, w, t) == Last(a, b, c, d, e)
    requires Five(Turn(5, e), FWord(t, d, Turn(30, c), Turn(30, b)), Turn(30, a), word, KWord(t)) == next
    ensures RoundsWords(BEGIN, w, t + 1) == Last(b, c, d, e, next)
  {
    hide Turn, Five, FWord, KWord;
  }

  lemma Steps0(w: seq<bv32>)
    requires Words0(w) && RoundsWords(BEGIN, w, 0) == Last(0x0F4B87C3, 0x40C951D8, 0x62EB73FA, 0xEFCDAB89, 0x67452301)
    ensures RoundsWords(BEGIN, w, 16) == Last(0x63188FE4, 0x4607B664, 0x9128F695, 0x196BEE77, 0x20BDD62F)
  {
    hide RoundsWords, Last;
    Step(w, 0, 0x0F4B87C3, 0x40C951D8, 0x62EB73FA, 0xEFCDAB89, 0x67452301, 0x61626380, 0x0116FC33);
    Step(w, 1, 0x40C951D8, 0x62EB73FA, 0xEFCDAB89, 0x67452301, 0x0116FC33, 0x00000000, 0x8990536D);
    Step(w, 2, 0x62EB73FA, 0xEFCDAB89, 0x67452301, 0x0116FC33, 0x8990536D, 0x00000000, 0xA1390F08);
    Step(w, 3, 0xEFCDAB89, 0x67452301, 0x0116FC33, 0x8990536D, 0xA1390F08, 0x00000000, 0xCDD8E11B);
    Step(w, 4, 0x67452301, 0x0116FC33, 0x8990536D, 0xA1390F08, 0xCDD8E11B, 0x00000000, 0xCFD499DE);
    Step(w, 5, 0x0116FC33, 0x8990536D, 0xA1390F08, 0xCDD8E11B, 0xCFD499DE, 0x00000000, 0x3FC7CA40);
    Step(w, 6, 0x8990536D, 0xA1390F08, 0xCDD8E11B, 0xCFD499DE, 0x3FC7CA40, 0x00000000, 0x993E30C1);
    Step(w, 7, 0xA1390F08, 0xCDD8E11B, 0xCFD499DE, 0x3FC7CA40, 0x993E30C1, 0x00000000, 0x9E8C07D4);
    Step(w, 8, 0xCDD8E11B, 0xCFD499DE, 0x3FC7CA40, 0x993E30C1, 0x9E8C07D4, 0x00000000, 0x4B6AE328);
    Step(w, 9, 0xCFD499DE, 0x3FC7CA40, 0x993E30C1, 0x9E8C07D4, 0x4B6AE328, 0x00000000, 0x8351F929);
    Step(w, 10, 0x3FC7CA40, 0x993E30C1, 0x9E8C07D4, 0x4B6AE328, 0x8351F929, 0x00000000, 0xFBDA9E89);
    Step(w, 11, 0x993E30C1, 0x9E8C07D4, 0x4B6AE328, 0x8351F929, 0xFBDA9E89, 0x00000000, 0x63188FE4);
    Step(w, 12, 0x9E8C07D4, 0x4B6AE328, 0x8351F929, 0xFBDA9E89, 0x63188FE4, 0x00000000, 0x4607B664);
    Step(w, 13, 0x4B6AE328, 0x8351F929, 0xFBDA9E89, 0x63188FE4, 0x4607B664, 0x00000000, 0x9128F695);
    Step(w, 14, 0x8351F929, 0xFBDA9E89, 0x63188FE4, 0x4607B664, 0x9128F695, 0x00000000, 0x196BEE77);
    Step(w, 15, 0xFBDA9E89, 0x63188FE4, 0x4607B664, 0x9128F695, 0x196BEE77, 0x00000018, 0x20BDD62F);
  }

  lemma Steps16(w: seq<bv32>)
    requires Words16(w) && RoundsWords(BEGIN, w, 16) == Last(0x63188FE4, 0x4607B664, 0x9128F695, 0x196BEE77, 0x20BDD62F)
    ensures RoundsWords(BEGIN, w, 32) == Last(0x4AA84D97, 0x8370B52E, 0xC5FBAF5D, 0x1267B407, 0x3B845D33)
  {
    hide RoundsWords, Last;
    Step(w, 16, 0x63188FE4, 0x4607B664, 0x9128F695, 0x196BEE77, 0x20BDD62F, 0xC2C4C700, 0x4E925823);
    Step(w, 17, 0x4607B664, 0x9128F695, 0x196BEE77, 0x20BDD62F, 0x4E925823, 0x00000000, 0x82AA6728);
    Step(w, 18, 0x9128F695, 0x196BEE77, 0x20BDD62F, 0x4E925823, 0x82AA6728, 0x00000030, 0xDC64901D);
    Step(w, 19, 0x196BEE77, 0x20BDD62F, 0x4E925823, 0x82AA6728, 0xDC64901D, 0x85898E01, 0xFD9E1D7D);
    Step(w, 20, 0x20BDD62F, 0x4E925823, 0x82AA6728, 0xDC64901D, 0xFD9E1D7D, 0x00000000, 0x1A37B0CA);
    Step(w, 21, 0x4E925823, 0x82AA6728, 0xDC64901D, 0xFD9E1D7D, 0x1A37B0CA, 0x00000060, 0x33A23BFC);
    Step(w, 22, 0x82AA6728, 0xDC64901D, 0xFD9E1D7D, 0x1A37B0CA, 0x33A23BFC, 0x0B131C03, 0x21283486);
    Step(w, 23, 0xDC64901D, 0xFD9E1D7D, 0x1A37B0CA, 0x33A23BFC, 0x21283486, 0x00000030, 0xD541F12D);
    Step(w, 24, 0xFD9E1D7D, 0x1A37B0CA, 0x33A23BFC, 0x21283486, 0xD541F12D, 0x85898EC1, 0xC7567DC6);
    Step(w, 25, 0x1A37B0CA, 0x33A23BFC, 0x21283486, 0xD541F12D, 0xC7567DC6, 0x16263806, 0x48413BA4);
    Step(w, 26, 0x33A23BFC, 0x21283486, 0xD541F12D, 0xC7567DC6, 0x48413BA4, 0x00000000, 0xBE35FBD5);
    Step(w, 27, 0x21283486, 0xD541F12D, 0xC7567DC6, 0x48413BA4, 0xBE35FBD5, 0x00000180, 0x4AA84D97);
    Step(w, 28, 0xD541F12D, 0xC7567DC6, 0x48413BA4, 0xBE35FBD5, 0x4AA84D97, 0x2C4C700C, 0x8370B52E);
    Step(w, 29, 0xC7567DC6, 0x48413BA4, 0xBE35FBD5, 0x4AA84D97, 0x8370B52E, 0x000000F0, 0xC5FBAF5D);
    Step(w, 30, 0x48413BA4, 0xBE35FBD5, 0x4AA84D97, 0x8370B52E, 0xC5FBAF5D, 0x93AFB507, 0x1267B407);
    Step(w, 31, 0xBE35FBD5, 0x4AA84D97, 0x8370B52E, 0xC5FBAF5D, 0x1267B407, 0x5898E048, 0x3B845D33);
  }

  lemma Steps32(w: seq<bv32>)
    requires Words32(w) && RoundsWords(BEGIN, w, 32) == Last(0x4AA84D97, 0x8370B52E, 0xC5FBAF5D, 0x1267B407, 0x3B845D33)
    ensures RoundsWords(BEGIN, w, 48) == Last(0xEE1B1AAF, 0x40F28E09, 0x1C51E1F2, 0xA01B846C, 0xBEAD02CA)
  {
    hide RoundsWords, Last;
    Step(w, 32, 0x4AA84D97, 0x8370B52E, 0xC5FBAF5D, 0x1267B407, 0x3B845D33, 0x8E9A9202, 0x046FAA0A);
    Step(w, 33, 0x8370B52E, 0xC5FBAF5D, 0x1267B407, 0x3B845D33, 0x046FAA0A, 0x00000600, 0x2C0EBC11);
    Step(w, 34, 0xC5FBAF5D, 0x1267B407, 0x3B845D33, 0x046FAA0A, 0x2C0EBC11, 0xB131C0F0, 0x21796AD4);
    Step(w, 35, 0x1267B407, 0x3B845D33, 0x046FAA0A, 0x2C0EBC11, 0x21796AD4, 0x16263BC6, 0xDCBBB0CB);
    Step(w, 36, 0x3B845D33, 0x046FAA0A, 0x2C0EBC11, 0x21796AD4, 0xDCBBB0CB, 0x4EBED41E, 0x0F511FD8);
    Step(w, 37, 0x046FAA0A, 0x2C0EBC11, 0x21796AD4, 0xDCBBB0CB, 0x0F511FD8, 0x626380A1, 0xDC63973F);
    Step(w, 38, 0x2C0EBC11, 0x21796AD4, 0xDCBBB0CB, 0x0F511FD8, 0xDC63973F, 0x16263806, 0x4C986405);
    Step(w, 39, 0x21796AD4, 0xDCBBB0CB, 0x0F511FD8, 0xDC63973F, 0x4C986405, 0x000018C0, 0x32DE1CBA);
    Step(w, 40, 0xDCBBB0CB, 0x0F511FD8, 0xDC63973F, 0x4C986405, 0x32DE1CBA, 0xD2E138C4, 0xFC87DEDF);
    Step(w, 41, 0x0F511FD8, 0xDC63973F, 0x4C986405, 0x32DE1CBA, 0xFC87DEDF, 0x00000F00, 0x970A0D5C);
    Step(w, 42, 0xDC63973F, 0x4C986405, 0x32DE1CBA, 0xFC87DEDF, 0x970A0D5C, 0x3AFB5079, 0x7F193DC5);
    Step(w, 43, 0x4C986405, 0x32DE1CBA, 0xFC87DEDF, 0x970A0D5C, 0x7F193DC5, 0x898E04E5, 0xEE1B1AAF);
    Step(w, 44, 0x32DE1CBA, 0xFC87DEDF, 0x970A0D5C, 0x7F193DC5, 0xEE1B1AAF, 0xE2BA3C2B, 0x40F28E09);
    Step(w, 45, 0xFC87DEDF, 0x970A0D5C, 0x7F193DC5, 0xEE1B1AAF, 0x40F28E09, 0x000060C0, 0x1C51E1F2);
    Step(w, 46, 0x970A0D5C, 0x7F193DC5, 0xEE1B1AAF, 0x40F28E09, 0x1C51E1F2, 0x053A37CD, 0xA01B846C);
    Step(w, 47, 0x7F193DC5, 0xEE1B1AAF, 0x40F28E09, 0x1C51E1F2, 0xA01B846C, 0x74458547, 0xBEAD02CA);
  }

  lemma Steps48(w: seq<bv32>)
    requires Words48(w) && RoundsWords(BEGIN, w, 48) == Last(0xEE1B1AAF, 0x40F28E09, 0x1C51E1F2, 0xA01B846C, 0xBEAD02CA)
    ensures RoundsWords(BEGIN, w, 64) == Last(0x3F52DE5A, 0xD756C147, 0x548C9CB2, 0xB66C020B, 0x6B61C9E1)
  {
    hide RoundsWords, Last;
    Step(w, 48, 0xEE1B1AAF, 0x40F28E09, 0x1C51E1F2, 0xA01B846C, 0xBEAD02CA, 0xDA9415ED, 0xBAF39337);
    Step(w, 49, 0x40F28E09, 0x1C51E1F2, 0xA01B846C, 0xBEAD02CA, 0xBAF39337, 0x26380A16, 0x120731C5);
    Step(w, 50, 0x1C51E1F2, 0xA01B846C, 0xBEAD02CA, 0xBAF39337, 0x120731C5, 0x626383A1, 0x641DB2CE);
    Step(w, 51, 0xA01B846C, 0xBEAD02CA, 0xBAF39337, 0x120731C5, 0x641DB2CE, 0x4EBF54DE, 0x3847AD66);
    Step(w, 52, 0xBEAD02CA, 0xBAF39337, 0x120731C5, 0x641DB2CE, 0x3847AD66, 0x3835B44B, 0xE490436D);
    Step(w, 53, 0xBAF39337, 0x120731C5, 0x641DB2CE, 0x3847AD66, 0xE490436D, 0x0000F600, 0x27E9F1D8);
    Step(w, 54, 0x120731C5, 0x641DB2CE, 0x3847AD66, 0xE490436D, 0x27E9F1D8, 0x1E84C7A3, 0x7B71F76D);
    Step(w, 55, 0x641DB2CE, 0x3847AD66, 0xE490436D, 0x27E9F1D8, 0x7B71F76D, 0x98E04D98, 0x5E6456AF);
    Step(w, 56, 0x3847AD66, 0xE490436D, 0x27E9F1D8, 0x7B71F76D, 0x5E6456AF, 0x651D16A0, 0xC846093F);
    Step(w, 57, 0xE490436D, 0x27E9F1D8, 0x7B71F76D, 0x5E6456AF, 0xC846093F, 0x62658CA1, 0xD262FF50);
    Step(w, 58, 0x27E9F1D8, 0x7B71F76D, 0x5E6456AF, 0xC846093F, 0xD262FF50, 0x458544D6, 0x09D785FD);
    Step(w, 59, 0x7B71F76D, 0x5E6456AF, 0xC846093F, 0xD262FF50, 0x09D785FD, 0x44584CB7, 0x3F52DE5A);
    Step(w, 60, 0x5E6456AF, 0xC846093F, 0xD262FF50, 0x09D785FD, 0x3F52DE5A, 0x7BA06619, 0xD756C147);
    Step(w, 61, 0xC846093F, 0xD262FF50, 0x09D785FD, 0x3F52DE5A, 0xD756C147, 0x6380AEA2, 0x548C9CB2);
    Step(w, 62, 0xD262FF50, 0x09D785FD, 0x3F52DE5A, 0xD756C147, 0x548C9CB2, 0x0AE55269, 0xB66C020B);
    Step(w, 63, 0x09D785FD, 0x3F52DE5A, 0xD756C147, 0x548C9CB2, 0xB66C020B, 0x627B49A1, 0x6B61C9E1);
  }

  lemma Steps64(w: seq<bv32>)
    requires Words64(w) && RoundsWords(BEGIN, w, 64) == Last(0x3F52DE5A, 0xD756C147, 0x548C9CB2, 0xB66C020B, 0x6B61C9E1)
    ensures RoundsWords(BEGIN, w, 80) == Last(0x63F7DAB7, 0xA079B7D9, 0x860D21CC, 0x5738D5E1, 0x42541B35)
  {
    hide RoundsWords, Last;
    Step(w, 64, 0x3F52DE5A, 0xD756C147, 0x548C9CB2, 0xB66C020B, 0x6B61C9E1, 0x7CD45C9D, 0x19DFA7AC);
    Step(w, 65, 0xD756C147, 0x548C9CB2, 0xB66C020B, 0x6B61C9E1, 0x19DFA7AC, 0x000F0000, 0x101655F9);
    Step(w, 66, 0x548C9CB2, 0xB66C020B, 0x6B61C9E1, 0x19DFA7AC, 0x101655F9, 0xFB50753A, 0x0C3DF2B4);
    Step(w, 67, 0xB66C020B, 0x6B61C9E1, 0x19DFA7AC, 0x101655F9, 0x0C3DF2B4, 0xEC6765E8, 0x78DD4D2B);
    Step(w, 68, 0x6B61C9E1, 0x19DFA7AC, 0x101655F9, 0x0C3DF2B4, 0x78DD4D2B, 0xBA3C2BE2, 0x497093C0);
    Step(w, 69, 0x19DFA7AC, 0x101655F9, 0x0C3DF2B4, 0x78DD4D2B, 0x497093C0, 0x0060C000, 0x3F2588C2);
    Step(w, 70, 0x101655F9, 0x0C3DF2B4, 0x78DD4D2B, 0x497093C0, 0x3F2588C2, 0x3A37CD05, 0xC199F8C7);
    Step(w, 71, 0x0C3DF2B4, 0x78DD4D2B, 0x497093C0, 0x3F2588C2, 0xC199F8C7, 0x458546F4, 0x39859DE7);
    Step(w, 72, 0x78DD4D2B, 0x497093C0, 0x3F2588C2, 0xC199F8C7, 0x39859DE7, 0xB8599DD6, 0xEDB42DE4);
    Step(w, 73, 0x497093C0, 0x3F2588C2, 0xC199F8C7, 0x39859DE7, 0xEDB42DE4, 0x380A1A26, 0x11793F6F);
    Step(w, 74, 0x3F2588C2, 0xC199F8C7, 0x39859DE7, 0xEDB42DE4, 0x11793F6F, 0x01E02203, 0x5EE76897);
    Step(w, 75, 0xC199F8C7, 0x39859DE7, 0xEDB42DE4, 0x11793F6F, 0x5EE76897, 0xE7CC3456, 0x63F7DAB7);
    Step(w, 76, 0x39859DE7, 0xEDB42DE4, 0x11793F6F, 0x5EE76897, 0x63F7DAB7, 0xE6E60B69, 0xA079B7D9);
    Step(w, 77, 0xEDB42DE4, 0x11793F6F, 0x5EE76897, 0x63F7DAB7, 0xA079B7D9, 0x00F60A00, 0x860D21CC);
    Step(w, 78, 0x11793F6F, 0x5EE76897, 0x63F7DAB7, 0xA079B7D9, 0x860D21CC, 0x5795EF4F, 0x5738D5E1);
    Step(w, 79, 0x5EE76897, 0x63F7DAB7, 0xA079B7D9, 0x860D21CC, 0x5738D5E1, 0x822E0879, 0x42541B35);
  }

  // ----- The digest -----

  const ABC: seq<byte> := [0x61, 0x62, 0x63]

  /** The padded message as words. */
  const BLOCK: seq<bv32> := [0x61626380, 0, 0, 0, 0, 0, 0, 0, 0, 0, 0, 0, 0, 0, 0, 24]

  lemma {:induction false} ScheduleFollows(m: seq<bv32>, n: nat, t: nat)
    requires |m| == 16 && t < n
    ensures var w := ScheduleWords(m, n);
            w[t] == if t < 16 then m[t] else Turn(1, XorWord(XorWord(XorWord(w[t - 3], w[t - 8]), w[t - 14]), w[t - 16]))
  {
    hide Turn, XorWord;
    if n > 16 && t < n - 1 { ScheduleFollows(m, n - 1, t); }
  }

  lemma MakesSchedule(m: seq<bv32>)
    requires |m| == 16
    ensures IsSchedule(ScheduleWords(m, 80))
  {
    hide Turn, XorWord, ScheduleWords;
    var w := ScheduleWords(m, 80);
    forall t | 16 <= t < 80 ensures w[t] == Turn(1, XorWord(XorWord(XorWord(w[t - 3], w[t - 8]), w[t - 14]), w[t - 16])) {
      ScheduleFollows(m, 80, t);
    }
  }

  lemma StartsSchedule(m: seq<bv32>)
    requires |m| == 16
    ensures forall t :: 0 <= t < 16 ==> ScheduleWords(m, 80)[t] == m[t]
  {
    hide Turn, XorWord, ScheduleWords;
    forall t | 0 <= t < 16 ensures ScheduleWords(m, 80)[t] == m[t] { ScheduleFollows(m, 80, t); }
  }

  lemma TheSchedule()
    ensures var w := ScheduleWords(BLOCK, 80); IsSchedule(w) && Words0(w)
  {
    hide ScheduleWords, IsSchedule;
    MakesSchedule(BLOCK);
    StartsSchedule(BLOCK);
  }

  lemma TheBegin(w: seq<bv32>)
    ensures RoundsWords(BEGIN, w, 0) == Last(0x0F4B87C3, 0x40C951D8, 0x62EB73FA, 0xEFCDAB89, 0x67452301)
  {}

  lemma TheCompression()
    ensures CompressWords(BEGIN, BLOCK) == Words(0xA9993E36, 0x4706816A, 0xBA3E2571, 0x7850C26C, 0x9CD0D89D)
  {
    TheSchedule();
    hide IsSchedule, ScheduleWords, RoundsWords;
    var w := ScheduleWords(BLOCK, 80);
    Schedule16(w);
    Schedule32(w);
    Schedule48(w);
    Schedule64(w);
    hide Words0, Words16, Words32, Words48, Words64;
    TheBegin(w);
    Steps0(w);
    Steps16(w);
    Steps32(w);
    Steps48(w);
    Steps64(w);
  }

  lemma TheOctets(block: Block, k: nat)
    requires block == Padded(ABC, 0x80, 24) && k < 16
    ensures block[4 * k..4 * (k + 1)] == if k == 0 then [0x61, 0x62, 0x63, 0x80] else [0, 0, 0, if k == 15 then 24 else 0]
  {
    LastOctets();
    var tail := BigEndian(24, 8);
    hide BigEndian;
    assert block == ABC + [0x80] + Zeros(52) + tail;
    if k == 0 {
    } else if k < 14 {
      assert block[4 * k..4 * (k + 1)] == Zeros(52)[4 * k - 4..4 * k];
    } else if k == 14 {
      assert block[56..60] == tail[..4];
    } else {
      assert block[60..64] == tail[4..];
    }
  }

  lemma LastOctets()
    ensures BigEndian(24, 8) == [0, 0, 0, 0, 0, 0, 0, 24]
  {
    assert BigEndian(0, 3) == [0, 0, 0];
    assert BigEndian(0, 6) == [0, 0, 0, 0, 0, 0];
  }

  lemma TheLength()
    ensures |Padded(ABC, 0x80, 24)| == 64
  {}

  lemma TheBlock(block: Block)
    requires block == Padded(ABC, 0x80, 24)
    ensures Holds(block, BLOCK)
  {
    hide Padded, Number, WordOf;
    TheNumbers();
    forall k | 0 <= k < 16 ensures WordOf(block[4 * k..4 * (k + 1)]) == Number(BLOCK[k]) {
      TheOctets(block, k);
    }
  }

  lemma TheNumbers()
    ensures Number(0x61626380) == WordOf([0x61, 0x62, 0x63, 0x80])
    ensures Number(0) == WordOf([0, 0, 0, 0]) && Number(24) == WordOf([0, 0, 0, 24])
  {
    hide Number;
    NumberIs(0x61626380);
    NumberIs(0);
    NumberIs(24);
  }

  /** Section A.1 of FIPS 180-2. */
  lemma DigestOfAbc()
    ensures Digest(Fold(Padded(ABC, 0x80, 24))) == [0xA9, 0x99, 0x3E, 0x36, 0x47, 0x06, 0x81, 0x6A, 0xBA, 0x3E,
                         0x25, 0x71, 0x78, 0x50, 0xC2, 0x6C, 0x9C, 0xD0, 0xD8, 0x9D]
  {
    hide Padded, Number, Compress, CompressWords, Holds;
    var block := Padded(ABC, 0x80, 24);
    TheLength();
    TheBlock(block);
    TheCompression();
    CompressIs(BEGIN, block, BLOCK);
    assert block[..0] == [] && block[0..] == block;
    NumberIs(0x67452301);
    NumberIs(0xEFCDAB89);
    NumberIs(0x98BADCFE);
    NumberIs(0x10325476);
    NumberIs(0xC3D2E1F0);
    NumberIs(0xA9993E36);
    NumberIs(0x4706816A);
    NumberIs(0xBA3E2571);
    NumberIs(0x7850C26C);
    NumberIs(0x9CD0D89D);
    assert HashOf(BEGIN) == START;
    DigestIs(HashOf(Words(0xA9993E36, 0x4706816A, 0xBA3E2571, 0x7850C26C, 0x9CD0D89D)));
  }

  lemma DigestMore(h: seq<Word>, w: Word)
    ensures Digest(h + [w]) == Digest(h) + BigEndian(w, 4)
  {
    hide BigEndian;
    assert (h + [w])[..|h|] == h;
  }

  lemma ThreeWords(a: Word, b: Word, c: Word)
    ensures Digest([a, b, c]) == BigEndian(a, 4) + BigEndian(b, 4) + BigEndian(c, 4)
  {
    assert Digest([]) == [];
    hide Digest, BigEndian;
    DigestMore([], a);
    DigestMore([a], b);
    DigestMore([a, b], c);
    assert [] + [a] == [a] && [a] + [b] == [a, b] && [a, b] + [c] == [a, b, c];
  }

  lemma FiveWords(h: Hash)
    ensures Digest(h) == BigEndian(h[0], 4) + BigEndian(h[1], 4) + BigEndian(h[2], 4) + BigEndian(h[3], 4) + BigEndian(h[4], 4)
  {
    hide Digest, BigEndian;
    ThreeWords(h[0], h[1], h[2]);
    DigestMore([h[0], h[1], h[2]], h[3]);
    DigestMore(h[..4], h[4]);
    assert [h[0], h[1], h[2]] + [h[3]] == h[..4] && h[..4] + [h[4]] == h;
  }

  lemma DigestIs(h: Hash)
    requires h == [0xA9993E36, 0x4706816A, 0xBA3E2571, 0x7850C26C, 0x9CD0D89D]
    ensures Digest(h) == [0xA9, 0x99, 0x3E, 0x36, 0x47, 0x06, 0x81, 0x6A, 0xBA, 0x3E,
                         0x25, 0x71, 0x78, 0x50, 0xC2, 0x6C, 0x9C, 0xD0, 0xD8, 0x9D]
  {
    hide Digest, BigEndian;
    FiveWords(h);
    WordIsBigEndian([0xA9, 0x99, 0x3E, 0x36]);
    WordIsBigEndian([0x47, 0x06, 0x81, 0x6A]);
    WordIsBigEndian([0xBA, 0x3E, 0x25, 0x71]);
    WordIsBigEndian([0x78, 0x50, 0xC2, 0x6C]);
    WordIsBigEndian([0x9C, 0xD0, 0xD8, 0x9D]);
  }
}
