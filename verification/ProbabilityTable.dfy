/** The probability estimation state machine of jaricom.c: Table D.2 of ITU-T Rec. T.81
(and Table 5 of ITU-T Rec. T.851 for its last entry), in the packed form the coder reads. */
module ProbabilityTable {

  import opened CodeString

  /** One line of the table: Qe_Value, Next_Index_LPS, Next_Index_MPS, Switch_MPS. */
  datatype Entry = V(qe: int, nextLps: int, nextMps: int, switchMps: int)
  {
    /** The packed word, as the V macro lays it out. */
    function Word(): int {
      qe * 65536 + nextMps * 256 + switchMps * 128 + nextLps
    }
  }

  /** Every state names only states of the table, and its Qe lies below 0x8000. */
  function JpegAritab(i: nat): (v: Entry)
    requires i <= LAST_STATE
    ensures WellFormed(v)
    ensures i < LAST_STATE ==> v.nextLps < LAST_STATE && v.nextMps < LAST_STATE
    ensures i == LAST_STATE ==> v.nextLps == v.nextMps == LAST_STATE && v.switchMps == 0
  {
    if i < 29 then Rows0(i) else if i < 57 then Rows29(i) else if i < 85 then Rows57(i) else Rows85(i)
  }

  function Rows0(i: nat): (v: Entry)
    requires 0 <= i < 29
    ensures WellFormed(v) && v.nextLps < LAST_STATE && v.nextMps < LAST_STATE
  {
    match i
    case 0 => V(0x5a1d, 1, 1, 1)
    case 1 => V(0x2586, 14, 2, 0)
    case 2 => V(0x1114, 16, 3, 0)
    case 3 => V(0x080b, 18, 4, 0)
    case 4 => V(0x03d8, 20, 5, 0)
    case 5 => V(0x01da, 23, 6, 0)
    case 6 => V(0x00e5, 25, 7, 0)
    case 7 => V(0x006f, 28, 8, 0)
    case 8 => V(0x0036, 30, 9, 0)
    case 9 => V(0x001a, 33, 10, 0)
    case 10 => V(0x000d, 35, 11, 0)
    case 11 => V(0x0006, 9, 12, 0)
    case 12 => V(0x0003, 10, 13, 0)
    case 13 => V(0x0001, 12, 13, 0)
    case 14 => V(0x5a7f, 15, 15, 1)
    case 15 => V(0x3f25, 36, 16, 0)
    case 16 => V(0x2cf2, 38, 17, 0)
    case 17 => V(0x207c, 39, 18, 0)
    case 18 => V(0x17b9, 40, 19, 0)
    case 19 => V(0x1182, 42, 20, 0)
    case 20 => V(0x0cef, 43, 21, 0)
    case 21 => V(0x09a1, 45, 22, 0)
    case 22 => V(0x072f, 46, 23, 0)
    case 23 => V(0x055c, 48, 24, 0)
    case 24 => V(0x0406, 49, 25, 0)
    case 25 => V(0x0303, 51, 26, 0)
    case 26 => V(0x0240, 52, 27, 0)
    case 27 => V(0x01b1, 54, 28, 0)
    case 28 => V(0x0144, 56, 29, 0)
  }

  function Rows29(i: nat): (v: Entry)
    requires 29 <= i < 57
    ensures WellFormed(v) && v.nextLps < LAST_STATE && v.nextMps < LAST_STATE
  {
    match i
    case 29 => V(0x00f5, 57, 30, 0)
    case 30 => V(0x00b7, 59, 31, 0)
    case 31 => V(0x008a, 60, 32, 0)
    case 32 => V(0x0068, 62, 33, 0)
    case 33 => V(0x004e, 63, 34, 0)
    case 34 => V(0x003b, 32, 35, 0)
    case 35 => V(0x002c, 33, 9, 0)
    case 36 => V(0x5ae1, 37, 37, 1)
    case 37 => V(0x484c, 64, 38, 0)
    case 38 => V(0x3a0d, 65, 39, 0)
    case 39 => V(0x2ef1, 67, 40, 0)
    case 40 => V(0x261f, 68, 41, 0)
    case 41 => V(0x1f33, 69, 42, 0)
    case 42 => V(0x19a8, 70, 43, 0)
    case 43 => V(0x1518, 72, 44, 0)
    case 44 => V(0x1177, 73, 45, 0)
    case 45 => V(0x0e74, 74, 46, 0)
    case 46 => V(0x0bfb, 75, 47, 0)
    case 47 => V(0x09f8, 77, 48, 0)
    case 48 => V(0x0861, 78, 49, 0)
    case 49 => V(0x0706, 79, 50, 0)
    case 50 => V(0x05cd, 48, 51, 0)
    case 51 => V(0x04de, 50, 52, 0)
    case 52 => V(0x040f, 50, 53, 0)
    case 53 => V(0x0363, 51, 54, 0)
    case 54 => V(0x02d4, 52, 55, 0)
    case 55 => V(0x025c, 53, 56, 0)
    case 56 => V(0x01f8, 54, 57, 0)
  }

  function Rows57(i: nat): (v: Entry)
    requires 57 <= i < 85
    ensures WellFormed(v) && v.nextLps < LAST_STATE && v.nextMps < LAST_STATE
  {
    match i
    case 57 => V(0x01a4, 55, 58, 0)
    case 58 => V(0x0160, 56, 59, 0)
    case 59 => V(0x0125, 57, 60, 0)
    case 60 => V(0x00f6, 58, 61, 0)
    case 61 => V(0x00cb, 59, 62, 0)
    case 62 => V(0x00ab, 61, 63, 0)
    case 63 => V(0x008f, 61, 32, 0)
    case 64 => V(0x5b12, 65, 65, 1)
    case 65 => V(0x4d04, 80, 66, 0)
    case 66 => V(0x412c, 81, 67, 0)
    case 67 => V(0x37d8, 82, 68, 0)
    case 68 => V(0x2fe8, 83, 69, 0)
    case 69 => V(0x293c, 84, 70, 0)
    case 70 => V(0x2379, 86, 71, 0)
    case 71 => V(0x1edf, 87, 72, 0)
    case 72 => V(0x1aa9, 87, 73, 0)
    case 73 => V(0x174e, 72, 74, 0)
    case 74 => V(0x1424, 72, 75, 0)
    case 75 => V(0x119c, 74, 76, 0)
    case 76 => V(0x0f6b, 74, 77, 0)
    case 77 => V(0x0d51, 75, 78, 0)
    case 78 => V(0x0bb6, 77, 79, 0)
    case 79 => V(0x0a40, 77, 48, 0)
    case 80 => V(0x5832, 80, 81, 1)
    case 81 => V(0x4d1c, 88, 82, 0)
    case 82 => V(0x438e, 89, 83, 0)
    case 83 => V(0x3bdd, 90, 84, 0)
    case 84 => V(0x34ee, 91, 85, 0)
  }

  function Rows85(i: nat): (v: Entry)
    requires 85 <= i < 114
    ensures WellFormed(v)
    ensures i < LAST_STATE ==> v.nextLps < LAST_STATE && v.nextMps < LAST_STATE
    ensures i == LAST_STATE ==> v.nextLps == v.nextMps == LAST_STATE && v.switchMps == 0
  {
    match i
    case 85 => V(0x2eae, 92, 86, 0)
    case 86 => V(0x299a, 93, 87, 0)
    case 87 => V(0x2516, 86, 71, 0)
    case 88 => V(0x5570, 88, 89, 1)
    case 89 => V(0x4ca9, 95, 90, 0)
    case 90 => V(0x44d9, 96, 91, 0)
    case 91 => V(0x3e22, 97, 92, 0)
    case 92 => V(0x3824, 99, 93, 0)
    case 93 => V(0x32b4, 99, 94, 0)
    case 94 => V(0x2e17, 93, 86, 0)
    case 95 => V(0x56a8, 95, 96, 1)
    case 96 => V(0x4f46, 101, 97, 0)
    case 97 => V(0x47e5, 102, 98, 0)
    case 98 => V(0x41cf, 103, 99, 0)
    case 99 => V(0x3c3d, 104, 100, 0)
    case 100 => V(0x375e, 99, 93, 0)
    case 101 => V(0x5231, 105, 102, 0)
    case 102 => V(0x4c0f, 106, 103, 0)
    case 103 => V(0x4639, 107, 104, 0)
    case 104 => V(0x415e, 103, 99, 0)
    case 105 => V(0x5627, 105, 106, 1)
    case 106 => V(0x50e7, 108, 107, 0)
    case 107 => V(0x4b85, 109, 103, 0)
    case 108 => V(0x5597, 110, 109, 0)
    case 109 => V(0x504f, 111, 107, 0)
    case 110 => V(0x5a10, 110, 111, 1)
    case 111 => V(0x5522, 112, 109, 0)
    case 112 => V(0x59eb, 112, 111, 1)
    case 113 => V(0x5a1d, 113, 113, 0)
  }

  const LAST_STATE := 113

  /** A statistics bin: the sense of the more probable symbol in bit 7, the state index below. */
  predicate ValidBin(sv: byte) {
    sv % 128 <= LAST_STATE
  }

  predicate WellFormed(v: Entry) {
    && 1 <= v.qe < 0x8000
    && 0 <= v.nextLps <= LAST_STATE
    && 0 <= v.nextMps <= LAST_STATE
    && 0 <= v.switchMps <= 1
  }

  /** The fields the coders peel off the packed word, eight bits at a time. */
  lemma UnpackWord(v: Entry)
    requires WellFormed(v)
    ensures v.Word() % 256 == v.switchMps * 128 + v.nextLps
    ensures v.Word() / 256 % 256 == v.nextMps
    ensures v.Word() / 256 / 256 == v.qe
  {
    var low := v.switchMps * 128 + v.nextLps;
    assert v.Word() == 256 * (256 * v.qe + v.nextMps) + low;
    assert v.Word() / 256 == 256 * v.qe + v.nextMps;
  }

  // The packed words of the table as they stand in memory, Qe in the upper half.

  const WORDS0: seq<int> := [
    0x5a1d0181, 0x2586020e, 0x11140310, 0x080b0412, 0x03d80514, 0x01da0617, 0x00e50719, 0x006f081c,
    0x0036091e, 0x001a0a21, 0x000d0b23, 0x00060c09, 0x00030d0a, 0x00010d0c, 0x5a7f0f8f, 0x3f251024,
    0x2cf21126, 0x207c1227, 0x17b91328, 0x1182142a, 0x0cef152b, 0x09a1162d, 0x072f172e, 0x055c1830,
    0x04061931, 0x03031a33, 0x02401b34, 0x01b11c36, 0x01441d38
  ]

  const WORDS29: seq<int> := [
    0x00f51e39, 0x00b71f3b, 0x008a203c, 0x0068213e, 0x004e223f, 0x003b2320, 0x002c0921, 0x5ae125a5,
    0x484c2640, 0x3a0d2741, 0x2ef12843, 0x261f2944, 0x1f332a45, 0x19a82b46, 0x15182c48, 0x11772d49,
    0x0e742e4a, 0x0bfb2f4b, 0x09f8304d, 0x0861314e, 0x0706324f, 0x05cd3330, 0x04de3432, 0x040f3532,
    0x03633633, 0x02d43734, 0x025c3835, 0x01f83936
  ]

  const WORDS57: seq<int> := [
    0x01a43a37, 0x01603b38, 0x01253c39, 0x00f63d3a, 0x00cb3e3b, 0x00ab3f3d, 0x008f203d, 0x5b1241c1,
    0x4d044250, 0x412c4351, 0x37d84452, 0x2fe84553, 0x293c4654, 0x23794756, 0x1edf4857, 0x1aa94957,
    0x174e4a48, 0x14244b48, 0x119c4c4a, 0x0f6b4d4a, 0x0d514e4b, 0x0bb64f4d, 0x0a40304d, 0x583251d0,
    0x4d1c5258, 0x438e5359, 0x3bdd545a, 0x34ee555b
  ]

  const WORDS85: seq<int> := [
    0x2eae565c, 0x299a575d, 0x25164756, 0x557059d8, 0x4ca95a5f, 0x44d95b60, 0x3e225c61, 0x38245d63,
    0x32b45e63, 0x2e17565d, 0x56a860df, 0x4f466165, 0x47e56266, 0x41cf6367, 0x3c3d6468, 0x375e5d63,
    0x52316669, 0x4c0f676a, 0x4639686b, 0x415e6367, 0x56276ae9, 0x50e76b6c, 0x4b85676d, 0x55976d6e,
    0x504f6b6f, 0x5a106fee, 0x55226d70, 0x59eb6ff0, 0x5a1d7171
  ]

  /** Word i of the table. */
  function Packed(i: nat): int
    requires i <= 113
  {
    if i < 29 then WORDS0[i] else if i < 57 then WORDS29[i - 29] else if i < 85 then WORDS57[i - 57] else WORDS85[i - 85]
  }

  lemma Packed0(i: nat)
    requires i < 29
    ensures JpegAritab(i).Word() == Packed(i)
  {
  }

  lemma Packed29(i: nat)
    requires 29 <= i < 57
    ensures JpegAritab(i).Word() == Packed(i)
  {
  }

  lemma Packed57(i: nat)
    requires 57 <= i < 85
    ensures JpegAritab(i).Word() == Packed(i)
  {
  }

  lemma Packed85(i: nat)
    requires 85 <= i <= 113
    ensures JpegAritab(i).Word() == Packed(i)
  {
  }

  /** Every line of the table, packed. */
  lemma TableWords(i: nat)
    requires i <= 113
    ensures JpegAritab(i).Word() == Packed(i)
  {
    hide *;
    if i < 29 {
      Packed0(i);
    } else if i < 57 {
      Packed29(i);
    } else if i < 85 {
      Packed57(i);
    } else {
      Packed85(i);
    }
  }

  lemma SwitchLaw0(i: nat)
    requires 0 <= i < 29
    ensures JpegAritab(i).switchMps == 1 <==> JpegAritab(i).nextLps == JpegAritab(i).nextMps || JpegAritab(i).nextLps == i
  {
  }

  lemma SwitchLaw29(i: nat)
    requires 29 <= i < 57
    ensures JpegAritab(i).switchMps == 1 <==> JpegAritab(i).nextLps == JpegAritab(i).nextMps || JpegAritab(i).nextLps == i
  {
  }

  lemma SwitchLaw57(i: nat)
    requires 57 <= i < 85
    ensures JpegAritab(i).switchMps == 1 <==> JpegAritab(i).nextLps == JpegAritab(i).nextMps || JpegAritab(i).nextLps == i
  {
  }

  lemma SwitchLaw85(i: nat)
    requires 85 <= i < 113
    ensures JpegAritab(i).switchMps == 1 <==> JpegAritab(i).nextLps == JpegAritab(i).nextMps || JpegAritab(i).nextLps == i
  {
  }

  /** The sense flips just where a less probable symbol leads to the state a more probable one would, or
  nowhere. */
  lemma SwitchLaw(i: nat)
    requires i < 113
    ensures JpegAritab(i).switchMps == 1 <==> JpegAritab(i).nextLps == JpegAritab(i).nextMps || JpegAritab(i).nextLps == i
  {
    hide *;
    if i < 29 {
      SwitchLaw0(i);
    } else if i < 57 {
      SwitchLaw29(i);
    } else if i < 85 {
      SwitchLaw57(i);
    } else {
      SwitchLaw85(i);
    }
  }

  lemma MpsLaw0(i: nat)
    requires 0 <= i < 15
    ensures i != 13 ==> JpegAritab(JpegAritab(i).nextMps).qe < JpegAritab(i).qe
  {
  }

  lemma MpsLaw15(i: nat)
    requires 15 <= i < 29
    ensures i != 13 ==> JpegAritab(JpegAritab(i).nextMps).qe < JpegAritab(i).qe
  {
  }

  lemma MpsLaw29(i: nat)
    requires 29 <= i < 43
    ensures i != 13 ==> JpegAritab(JpegAritab(i).nextMps).qe < JpegAritab(i).qe
  {
  }

  lemma MpsLaw43(i: nat)
    requires 43 <= i < 57
    ensures i != 13 ==> JpegAritab(JpegAritab(i).nextMps).qe < JpegAritab(i).qe
  {
  }

  lemma MpsLaw57(i: nat)
    requires 57 <= i < 71
    ensures i != 13 ==> JpegAritab(JpegAritab(i).nextMps).qe < JpegAritab(i).qe
  {
  }

  lemma MpsLaw71(i: nat)
    requires 71 <= i < 85
    ensures i != 13 ==> JpegAritab(JpegAritab(i).nextMps).qe < JpegAritab(i).qe
  {
  }

  lemma MpsLaw85(i: nat)
    requires 85 <= i < 99
    ensures i != 13 ==> JpegAritab(JpegAritab(i).nextMps).qe < JpegAritab(i).qe
  {
  }

  lemma MpsLaw99(i: nat)
    requires 99 <= i < 113
    ensures i != 13 ==> JpegAritab(JpegAritab(i).nextMps).qe < JpegAritab(i).qe
  {
  }

  /** More probable symbols make the estimate fall, except in state 13, the least. */
  lemma MpsLaw(i: nat)
    requires i < 113
    ensures i != 13 ==> JpegAritab(JpegAritab(i).nextMps).qe < JpegAritab(i).qe
  {
    hide *;
    if i < 15 {
      MpsLaw0(i);
    } else if i < 29 {
      MpsLaw15(i);
    } else if i < 43 {
      MpsLaw29(i);
    } else if i < 57 {
      MpsLaw43(i);
    } else if i < 71 {
      MpsLaw57(i);
    } else if i < 85 {
      MpsLaw71(i);
    } else if i < 99 {
      MpsLaw85(i);
    } else {
      MpsLaw99(i);
    }
  }

  lemma LpsLaw0(i: nat)
    requires 0 <= i < 15
    ensures i != 0 && i != 14 && i != 36 && i != 64 ==> JpegAritab(JpegAritab(i).nextLps).qe >= JpegAritab(i).qe
  {
  }

  lemma LpsLaw15(i: nat)
    requires 15 <= i < 29
    ensures i != 0 && i != 14 && i != 36 && i != 64 ==> JpegAritab(JpegAritab(i).nextLps).qe >= JpegAritab(i).qe
  {
  }

  lemma LpsLaw29(i: nat)
    requires 29 <= i < 43
    ensures i != 0 && i != 14 && i != 36 && i != 64 ==> JpegAritab(JpegAritab(i).nextLps).qe >= JpegAritab(i).qe
  {
  }

  lemma LpsLaw43(i: nat)
    requires 43 <= i < 57
    ensures i != 0 && i != 14 && i != 36 && i != 64 ==> JpegAritab(JpegAritab(i).nextLps).qe >= JpegAritab(i).qe
  {
  }

  lemma LpsLaw57(i: nat)
    requires 57 <= i < 71
    ensures i != 0 && i != 14 && i != 36 && i != 64 ==> JpegAritab(JpegAritab(i).nextLps).qe >= JpegAritab(i).qe
  {
  }

  lemma LpsLaw71(i: nat)
    requires 71 <= i < 85
    ensures i != 0 && i != 14 && i != 36 && i != 64 ==> JpegAritab(JpegAritab(i).nextLps).qe >= JpegAritab(i).qe
  {
  }

  lemma LpsLaw85(i: nat)
    requires 85 <= i < 99
    ensures i != 0 && i != 14 && i != 36 && i != 64 ==> JpegAritab(JpegAritab(i).nextLps).qe >= JpegAritab(i).qe
  {
  }

  lemma LpsLaw99(i: nat)
    requires 99 <= i < 113
    ensures i != 0 && i != 14 && i != 36 && i != 64 ==> JpegAritab(JpegAritab(i).nextLps).qe >= JpegAritab(i).qe
  {
  }

  /** Less probable symbols do not, except on the way out of the four fast-start states. */
  lemma LpsLaw(i: nat)
    requires i < 113
    ensures i != 0 && i != 14 && i != 36 && i != 64 ==> JpegAritab(JpegAritab(i).nextLps).qe >= JpegAritab(i).qe
  {
    hide *;
    if i < 15 {
      LpsLaw0(i);
    } else if i < 29 {
      LpsLaw15(i);
    } else if i < 43 {
      LpsLaw29(i);
    } else if i < 57 {
      LpsLaw43(i);
    } else if i < 71 {
      LpsLaw57(i);
    } else if i < 85 {
      LpsLaw71(i);
    } else if i < 99 {
      LpsLaw85(i);
    } else {
      LpsLaw99(i);
    }
  }
}
