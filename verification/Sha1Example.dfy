/**
 A known digest: the test vector of the library for SHA-1, the four bytes of "test", worked out
 round by round.
 */
module Sha1Example {
  import opened Words
  import opened BlockHash
  import opened Sha1Block
  import opened Sha1

  const MESSAGE: seq<byte> := [0x74, 0x65, 0x73, 0x74]

  /** The words of its one block: the message, the marker, and the length in bits. */
  const TEST: seq<bv32> := [0x74657374, 0x80000000, 0, 0, 0, 0, 0, 0, 0, 0, 0, 0, 0, 0, 0, 32]

  lemma TestWords()
    ensures Word(0x74, 0x65, 0x73, 0x74) == 0x74657374 && Word(0x80, 0, 0, 0) == 0x80000000
    ensures Word(0, 0, 0, 0) == 0 && Word(0, 0, 0, 32) == 32
  {
  }

  lemma TestPad()
    ensures Pad(MESSAGE) == MESSAGE + [0x80] + Zeros(51) + [0, 0, 0, 0, 0, 0, 0, 32]
  {
    hide BigEndian;
    CountBytes(4);
  }

  lemma TestBlock()
    ensures |Pad(MESSAGE)| == 64 && Block(IV, Pad(MESSAGE)) == Compress(IV, TEST)
  {
    hide Compress;
    hide Word;
    hide Pad;
    TestPad();
    TestWords();
    var p := Pad(MESSAGE);
    forall i | 0 <= i < 16 ensures WordAt(p, i) == TEST[i] {
      if 2 <= i < 15 {
        assert p[4 * i] == p[4 * i + 1] == p[4 * i + 2] == p[4 * i + 3] == 0;
      }
    }
    assert seq(16, i requires 0 <= i < 16 => WordAt(p, i)) == TEST;
  }

  // ----- one round -----

  /** The words of the schedule, and the registers before a round. */
  function Scheduled(t: nat): (w: bv32) {
    Schedule(TEST, t)
  }

  predicate Before(t: nat, r: Regs) {
    Rounds(TEST, IV, t) == r
  }

  /** The word that the schedule has next. */
  function Mixed(t: nat): (w: bv32) {
    if t < 16 then Scheduled(t)
    else Rotl(Scheduled(t - 3) ^ Scheduled(t - 8) ^ Scheduled(t - 14) ^ Scheduled(t - 16), 1)
  }

  lemma MixedIs(m: seq<bv32>, t: nat)
    requires m == TEST
    ensures Mixed(t) == Schedule(m, t)
  {
    hide Rotl;
    if t >= 16 {
      ScheduleIs(m, t);
    }
  }

  lemma RoundsIs(m: seq<bv32>, h: Regs, t: nat)
    requires |m| == 16
    ensures Rounds(m, h, t + 1) == Round(Rounds(m, h, t), t, Schedule(m, t))
  {
    hide Round;
  }

  lemma RoundShape(r: Regs, t: nat, w: bv32)
    ensures Round(r, t, w) == Regs(Round(r, t, w).a, r.a, Rotl(r.b, 30), r.c, r.d)
  {
    hide Rotl;
    hide Sum;
    hide RoundFunction;
  }

  /** The next word is w, and the next round brings x to the front. */
  lemma Next(t: nat, a: bv32, b: bv32, c: bv32, d: bv32, e: bv32, w: bv32, x: bv32)
    requires Before(t, Regs(a, b, c, d, e)) && Mixed(t) == w && Round(Regs(a, b, c, d, e), t, w).a == x
    ensures Scheduled(t) == w && Before(t + 1, Regs(x, a, Rotl(b, 30), c, d))
  {
    hide Round;
    hide Rotl;
    hide Mixed;
    hide Schedule;
    hide Rounds;
    var m := TEST;
    MixedIs(m, t);
    RoundsIs(m, IV, t);
    RoundShape(Regs(a, b, c, d, e), t, w);
  }

  // ----- all rounds -----

  lemma Unrolled(m: seq<bv32>, h: Regs)
    requires |m| == 16
    ensures Rounds(m, h, 0) == h && forall t | 0 <= t < 16 :: Schedule(m, t) == m[t]
  {
  }

  lemma Begin1()
    ensures Before(0, Regs(0x67452301, 0xefcdab89, 0x98badcfe, 0x10325476, 0xc3d2e1f0))
    ensures Scheduled(0) == 0x74657374 && Scheduled(1) == 0x80000000 && Scheduled(2) == 0x00000000
    ensures Scheduled(3) == 0x00000000 && Scheduled(4) == 0x00000000 && Scheduled(5) == 0x00000000
  {
    hide Schedule;
    hide Rounds;
    var m := TEST;
    Unrolled(m, IV);
  }

  lemma Begin2()
    ensures Scheduled(6) == 0x00000000 && Scheduled(7) == 0x00000000 && Scheduled(8) == 0x00000000
    ensures Scheduled(9) == 0x00000000 && Scheduled(10) == 0x00000000 && Scheduled(11) == 0x00000000
    ensures Scheduled(12) == 0x00000000 && Scheduled(13) == 0x00000000 && Scheduled(14) == 0x00000000
    ensures Scheduled(15) == 0x00000020
  {
    hide Schedule;
    hide Rounds;
    var m := TEST;
    Unrolled(m, IV);
  }

  lemma Part1()
    ensures Before(8, Regs(0xd1725c31, 0x8fbf195d, 0x89ea13a7, 0x13fb4677, 0x75a63586))
    ensures Scheduled(0) == 0x74657374 && Scheduled(1) == 0x80000000 && Scheduled(2) == 0x00000000
    ensures Scheduled(3) == 0x00000000 && Scheduled(4) == 0x00000000 && Scheduled(5) == 0x00000000
    ensures Scheduled(6) == 0x00000000 && Scheduled(7) == 0x00000000 && Scheduled(8) == 0x00000000
    ensures Scheduled(9) == 0x00000000 && Scheduled(10) == 0x00000000 && Scheduled(11) == 0x00000000
    ensures Scheduled(12) == 0x00000000 && Scheduled(13) == 0x00000000 && Scheduled(14) == 0x00000000
    ensures Scheduled(15) == 0x00000020
  {
    hide Scheduled;
    hide Before;
    Begin1();
    Begin2();
    Next(0, 0x67452301, 0xefcdab89, 0x98badcfe, 0x10325476, 0xc3d2e1f0, 0x74657374, 0x141a0c27);
    Next(1, 0x141a0c27, 0x67452301, 0x7bf36ae2, 0x98badcfe, 0x10325476, 0x80000000, 0x69f251ef);
    Next(2, 0x69f251ef, 0x141a0c27, 0x59d148c0, 0x7bf36ae2, 0x98badcfe, 0x00000000, 0xad78ff44);
    Next(3, 0xad78ff44, 0x69f251ef, 0xc5068309, 0x59d148c0, 0x7bf36ae2, 0x00000000, 0xd698d619);
    Next(4, 0xd698d619, 0xad78ff44, 0xda7c947b, 0xc5068309, 0x59d148c0, 0x00000000, 0x4fed19dc);
    Next(5, 0x4fed19dc, 0xd698d619, 0x2b5e3fd1, 0xda7c947b, 0xc5068309, 0x00000000, 0x27a84e9e);
    Next(6, 0x27a84e9e, 0x4fed19dc, 0x75a63586, 0x2b5e3fd1, 0xda7c947b, 0x00000000, 0x8fbf195d);
    Next(7, 0x8fbf195d, 0x27a84e9e, 0x13fb4677, 0x75a63586, 0x2b5e3fd1, 0x00000000, 0xd1725c31);
  }

  lemma Part2()
    ensures Before(16, Regs(0x0690c1e0, 0x4f049361, 0x4e92fce3, 0xd3848523, 0xf99c4843))
    ensures Scheduled(0) == 0x74657374 && Scheduled(1) == 0x80000000 && Scheduled(2) == 0x00000000
    ensures Scheduled(3) == 0x00000000 && Scheduled(4) == 0x00000000 && Scheduled(5) == 0x00000000
    ensures Scheduled(6) == 0x00000000 && Scheduled(7) == 0x00000000 && Scheduled(8) == 0x00000000
    ensures Scheduled(9) == 0x00000000 && Scheduled(10) == 0x00000000 && Scheduled(11) == 0x00000000
    ensures Scheduled(12) == 0x00000000 && Scheduled(13) == 0x00000000 && Scheduled(14) == 0x00000000
    ensures Scheduled(15) == 0x00000020
  {
    hide Scheduled;
    hide Before;
    Part1();
    Next(8, 0xd1725c31, 0x8fbf195d, 0x89ea13a7, 0x13fb4677, 0x75a63586, 0x00000000, 0x985e8c80);
    Next(9, 0x985e8c80, 0xd1725c31, 0x63efc657, 0x89ea13a7, 0x13fb4677, 0x00000000, 0xc43997ba);
    Next(10, 0xc43997ba, 0x985e8c80, 0x745c970c, 0x63efc657, 0x89ea13a7, 0x00000000, 0xdf9d4aef);
    Next(11, 0xdf9d4aef, 0xc43997ba, 0x2617a320, 0x745c970c, 0x63efc657, 0x00000000, 0xe671210f);
    Next(12, 0xe671210f, 0xdf9d4aef, 0xb10e65ee, 0x2617a320, 0x745c970c, 0x00000000, 0x4e12148f);
    Next(13, 0x4e12148f, 0xe671210f, 0xf7e752bb, 0xb10e65ee, 0x2617a320, 0x00000000, 0x3a4bf38d);
    Next(14, 0x3a4bf38d, 0x4e12148f, 0xf99c4843, 0xf7e752bb, 0xb10e65ee, 0x00000000, 0x4f049361);
    Next(15, 0x4f049361, 0x3a4bf38d, 0xd3848523, 0xf99c4843, 0xf7e752bb, 0x00000020, 0x0690c1e0);
  }

  lemma Part3()
    ensures Before(32, Regs(0x63d791b9, 0x99b4d18e, 0x4c782244, 0xc958fa50, 0x8c07267e))
    ensures Scheduled(16) == 0xe8cae6e8 && Scheduled(17) == 0x00000001 && Scheduled(18) == 0x00000040
    ensures Scheduled(19) == 0xd195cdd1 && Scheduled(20) == 0x00000002 && Scheduled(21) == 0x00000080
    ensures Scheduled(22) == 0xa32b9ba3 && Scheduled(23) == 0x00000044 && Scheduled(24) == 0xd195ccd1
    ensures Scheduled(25) == 0x46573745 && Scheduled(26) == 0x00000008 && Scheduled(27) == 0x00000200
    ensures Scheduled(28) == 0x8cae6e8e && Scheduled(29) == 0x00000150 && Scheduled(30) == 0x97c2fe96
    ensures Scheduled(31) == 0x195cddd7
  {
    hide Scheduled;
    hide Before;
    Part2();
    Next(16, 0x0690c1e0, 0x4f049361, 0x4e92fce3, 0xd3848523, 0xf99c4843, 0xe8cae6e8, 0xed827927);
    Next(17, 0xed827927, 0x0690c1e0, 0x53c124d8, 0x4e92fce3, 0xd3848523, 0x00000001, 0x28d8607d);
    Next(18, 0x28d8607d, 0xed827927, 0x01a43078, 0x53c124d8, 0x4e92fce3, 0x00000040, 0xd7e2bb59);
    Next(19, 0xd7e2bb59, 0x28d8607d, 0xfb609e49, 0x01a43078, 0x53c124d8, 0xd195cdd1, 0xa594e7c5);
    Next(20, 0xa594e7c5, 0xd7e2bb59, 0x4a36181f, 0xfb609e49, 0x01a43078, 0x00000002, 0x89cf51de);
    Next(21, 0x89cf51de, 0xa594e7c5, 0x75f8aed6, 0x4a36181f, 0xfb609e49, 0x00000080, 0x3e7f1747);
    Next(22, 0x3e7f1747, 0x89cf51de, 0x696539f1, 0x75f8aed6, 0x4a36181f, 0xa32b9ba3, 0xc1714f43);
    Next(23, 0xc1714f43, 0x3e7f1747, 0xa273d477, 0x696539f1, 0x75f8aed6, 0x00000044, 0x08667df4);
    Next(24, 0x08667df4, 0xc1714f43, 0xcf9fc5d1, 0xa273d477, 0x696539f1, 0xd195ccd1, 0x63420fc9);
    Next(25, 0x63420fc9, 0x08667df4, 0xf05c53d0, 0xcf9fc5d1, 0xa273d477, 0x46573745, 0xf78cdc7e);
    Next(26, 0xf78cdc7e, 0x63420fc9, 0x02199f7d, 0xf05c53d0, 0xcf9fc5d1, 0x00000008, 0xc11d04bc);
    Next(27, 0xc11d04bc, 0xf78cdc7e, 0x58d083f2, 0x02199f7d, 0xf05c53d0, 0x00000200, 0x301c99fa);
    Next(28, 0x301c99fa, 0xc11d04bc, 0xbde3371f, 0x58d083f2, 0x02199f7d, 0x8cae6e8e, 0x2563e943);
    Next(29, 0x2563e943, 0x301c99fa, 0x3047412f, 0xbde3371f, 0x58d083f2, 0x00000150, 0x31e08911);
    Next(30, 0x31e08911, 0x2563e943, 0x8c07267e, 0x3047412f, 0xbde3371f, 0x97c2fe96, 0x99b4d18e);
    Next(31, 0x99b4d18e, 0x31e08911, 0xc958fa50, 0x8c07267e, 0x3047412f, 0x195cddd7, 0x63d791b9);
  }

  lemma Part4()
    ensures Before(48, Regs(0xca454844, 0xae30686b, 0x159ea532, 0x19318910, 0x61d71d4e))
    ensures Scheduled(32) == 0x72be5652 && Scheduled(33) == 0x00000806 && Scheduled(34) == 0x32b9bb3a
    ensures Scheduled(35) == 0x46573207 && Scheduled(36) == 0x5f0bfa52 && Scheduled(37) == 0x6573755c
    ensures Scheduled(38) == 0x465737c7 && Scheduled(39) == 0x00002108 && Scheduled(40) == 0x8cb1dfaf
    ensures Scheduled(41) == 0x00001508 && Scheduled(42) == 0x7c2fe969 && Scheduled(43) == 0x95cdddf1
    ensures Scheduled(44) == 0x88cefe84 && Scheduled(45) == 0x00008164 && Scheduled(46) == 0x6dcc85e4
    ensures Scheduled(47) == 0x232414bb
  {
    hide Scheduled;
    hide Before;
    Part3();
    Next(32, 0x63d791b9, 0x99b4d18e, 0x4c782244, 0xc958fa50, 0x8c07267e, 0x72be5652, 0x0525a937);
    Next(33, 0x0525a937, 0x63d791b9, 0xa66d3463, 0x4c782244, 0xc958fa50, 0x00000806, 0x66aa9c75);
    Next(34, 0x66aa9c75, 0x0525a937, 0x58f5e46e, 0xa66d3463, 0x4c782244, 0x32b9bb3a, 0xbf1cd105);
    Next(35, 0xbf1cd105, 0x66aa9c75, 0xc1496a4d, 0x58f5e46e, 0xa66d3463, 0x46573207, 0x3e4e8518);
    Next(36, 0x3e4e8518, 0xbf1cd105, 0x59aaa71d, 0xc1496a4d, 0x58f5e46e, 0x5f0bfa52, 0x18ab89bd);
    Next(37, 0x18ab89bd, 0x3e4e8518, 0x6fc73441, 0x59aaa71d, 0xc1496a4d, 0x6573755c, 0xb32b1931);
    Next(38, 0xb32b1931, 0x18ab89bd, 0x0f93a146, 0x6fc73441, 0x59aaa71d, 0x465737c7, 0xed3e0d75);
    Next(39, 0xed3e0d75, 0xb32b1931, 0x462ae26f, 0x0f93a146, 0x6fc73441, 0x00002108, 0x80f549bf);
    Next(40, 0x80f549bf, 0xed3e0d75, 0x6ccac64c, 0x462ae26f, 0x0f93a146, 0x8cb1dfaf, 0xb6353c2e);
    Next(41, 0xb6353c2e, 0x80f549bf, 0x7b4f835d, 0x6ccac64c, 0x462ae26f, 0x00001508, 0x04bdfd86);
    Next(42, 0x04bdfd86, 0xb6353c2e, 0xe03d526f, 0x7b4f835d, 0x6ccac64c, 0x7c2fe969, 0x02132fc0);
    Next(43, 0x02132fc0, 0x04bdfd86, 0xad8d4f0b, 0xe03d526f, 0x7b4f835d, 0x95cdddf1, 0x875c7539);
    Next(44, 0x875c7539, 0x02132fc0, 0x812f7f61, 0xad8d4f0b, 0xe03d526f, 0x88cefe84, 0x64c62440);
    Next(45, 0x64c62440, 0x875c7539, 0x0084cbf0, 0x812f7f61, 0xad8d4f0b, 0x00008164, 0x567a94c8);
    Next(46, 0x567a94c8, 0x64c62440, 0x61d71d4e, 0x0084cbf0, 0x812f7f61, 0x6dcc85e4, 0xae30686b);
    Next(47, 0xae30686b, 0x567a94c8, 0x19318910, 0x61d71d4e, 0x0084cbf0, 0x232414bb, 0xca454844);
  }

  lemma Part5()
    ensures Before(64, Regs(0xf00b178d, 0x4e7e642e, 0x3f1187ac, 0xdea2b2db, 0x04e1fa79))
    ensures Scheduled(48) == 0x996d6747 && Scheduled(49) == 0x573755da && Scheduled(50) == 0x65737974
    ensures Scheduled(51) == 0x5f09fbda && Scheduled(52) == 0x8d4acd97 && Scheduled(53) == 0x00015888
    ensures Scheduled(54) == 0xf0472cad && Scheduled(55) == 0x5cddda59 && Scheduled(56) == 0xd3e41212
    ensures Scheduled(57) == 0x657b631c && Scheduled(58) == 0x9a9f6981 && Scheduled(59) == 0x32416aba
    ensures Scheduled(60) == 0x1a67abd6 && Scheduled(61) == 0x737549ad && Scheduled(62) == 0x6d4f4968
    ensures Scheduled(63) == 0x655261dc
  {
    hide Scheduled;
    hide Before;
    Part4();
    Next(48, 0xca454844, 0xae30686b, 0x159ea532, 0x19318910, 0x61d71d4e, 0x996d6747, 0xf039f33c);
    Next(49, 0xf039f33c, 0xca454844, 0xeb8c1a1a, 0x159ea532, 0x19318910, 0x573755da, 0xd24f0b76);
    Next(50, 0xd24f0b76, 0xf039f33c, 0x32915211, 0xeb8c1a1a, 0x159ea532, 0x65737974, 0x46a89c74);
    Next(51, 0x46a89c74, 0xd24f0b76, 0x3c0e7ccf, 0x32915211, 0xeb8c1a1a, 0x5f09fbda, 0xe0d4bbaf);
    Next(52, 0xe0d4bbaf, 0x46a89c74, 0xb493c2dd, 0x3c0e7ccf, 0x32915211, 0x8d4acd97, 0x9e1a2f5d);
    Next(53, 0x9e1a2f5d, 0xe0d4bbaf, 0x11aa271d, 0xb493c2dd, 0x3c0e7ccf, 0x00015888, 0x3f042183);
    Next(54, 0x3f042183, 0x9e1a2f5d, 0xf8352eeb, 0x11aa271d, 0xb493c2dd, 0xf0472cad, 0xacb50c2a);
    Next(55, 0xacb50c2a, 0x3f042183, 0x67868bd7, 0xf8352eeb, 0x11aa271d, 0x5cddda59, 0x13496f6a);
    Next(56, 0x13496f6a, 0xacb50c2a, 0xcfc10860, 0x67868bd7, 0xf8352eeb, 0xd3e41212, 0xb3e7f37d);
    Next(57, 0xb3e7f37d, 0x13496f6a, 0xab2d430a, 0xcfc10860, 0x67868bd7, 0x657b631c, 0x646566ef);
    Next(58, 0x646566ef, 0xb3e7f37d, 0x84d25bda, 0xab2d430a, 0xcfc10860, 0x9a9f6981, 0x2a106003);
    Next(59, 0x2a106003, 0x646566ef, 0x6cf9fcdf, 0x84d25bda, 0xab2d430a, 0x32416aba, 0x1387e9e4);
    Next(60, 0x1387e9e4, 0x2a106003, 0xd91959bb, 0x6cf9fcdf, 0x84d25bda, 0x1a67abd6, 0x7a8acb6f);
    Next(61, 0x7a8acb6f, 0x1387e9e4, 0xca841800, 0xd91959bb, 0x6cf9fcdf, 0x737549ad, 0xfc461eb0);
    Next(62, 0xfc461eb0, 0x7a8acb6f, 0x04e1fa79, 0xca841800, 0xd91959bb, 0x6d4f4968, 0x4e7e642e);
    Next(63, 0x4e7e642e, 0xfc461eb0, 0xdea2b2db, 0x04e1fa79, 0xca841800, 0x655261dc, 0xf00b178d);
  }

  lemma Part6()
    ensures Before(80, Regs(0x42056ce4, 0xdce3f01d, 0x83912b75, 0xc35f9511, 0xd45cd9e3))
  {
    hide Scheduled;
    hide Before;
    Part5();
    Next(64, 0xf00b178d, 0x4e7e642e, 0x3f1187ac, 0xdea2b2db, 0x04e1fa79, 0xb91e8b18, 0x39938a7e);
    Next(65, 0x39938a7e, 0xf00b178d, 0x939f990b, 0x3f1187ac, 0xdea2b2db, 0x001508e8, 0x3810d68a);
    Next(66, 0x3810d68a, 0x39938a7e, 0x7c02c5e3, 0x939f990b, 0x3f1187ac, 0x2fe9797c, 0x11876adb);
    Next(67, 0x11876adb, 0x3810d68a, 0x8e64e29f, 0x7c02c5e3, 0x939f990b, 0xa8ae85e1, 0x02152e1a);
    Next(68, 0x02152e1a, 0x11876adb, 0x8e0435a2, 0x8e64e29f, 0x7c02c5e3, 0xcefe8408, 0x69f18ce7);
    Next(69, 0x69f18ce7, 0x02152e1a, 0xc461dab6, 0x8e0435a2, 0x8e64e29f, 0x00816400, 0xdfeb6670);
    Next(70, 0xdfeb6670, 0x69f18ce7, 0x80854b86, 0xc461dab6, 0x8e0435a2, 0xcc85e46d, 0x4f6ec7d7);
    Next(71, 0x4f6ec7d7, 0xdfeb6670, 0xda7c6339, 0x80854b86, 0xc461dab6, 0x2414b923, 0x25c49f67);
    Next(72, 0x25c49f67, 0x4f6ec7d7, 0x37fad99c, 0xda7c6339, 0x80854b86, 0xe1c92917, 0x882da0c9);
    Next(73, 0x882da0c9, 0x25c49f67, 0xd3dbb1f5, 0x37fad99c, 0xda7c6339, 0x3755ca47, 0xa3ceff95);
    Next(74, 0xa3ceff95, 0x882da0c9, 0xc97127d9, 0xd3dbb1f5, 0x37fad99c, 0x160a0411, 0x24cec91c);
    Next(75, 0x24cec91c, 0xa3ceff95, 0x620b6832, 0xc97127d9, 0xd3dbb1f5, 0x10a71fc2, 0x5173678f);
    Next(76, 0x5173678f, 0x24cec91c, 0x68f3bfe5, 0x620b6832, 0xc97127d9, 0x1d0759e3, 0x0d7e5447);
    Next(77, 0x0d7e5447, 0x5173678f, 0x0933b247, 0x68f3bfe5, 0x620b6832, 0x015890c0, 0x0e44add6);
    Next(78, 0x0e44add6, 0x0d7e5447, 0xd45cd9e3, 0x0933b247, 0x68f3bfe5, 0x10e673be, 0xdce3f01d);
    Next(79, 0xdce3f01d, 0x0e44add6, 0xc35f9511, 0xd45cd9e3, 0x0933b247, 0xb8a913e8, 0x42056ce4);
  }

  /** The digest of "test" is the one that the tests of the library expect. */
  lemma TestVector()
    ensures DigestBytes(Fold(Block, IV, Pad(MESSAGE))) ==
            [0xa9, 0x4a, 0x8f, 0xe5, 0xcc, 0xb1, 0x9b, 0xa6, 0x1c, 0x4c,
             0x08, 0x73, 0xd3, 0x91, 0xe9, 0x87, 0x98, 0x2f, 0xbb, 0xd3]
  {
    hide Rounds;
    hide Block;
    TestBlock();
    FoldOne(Block, IV, Pad(MESSAGE));
    Part6();
  }
}
