/** The first two examples of section 7.3 of RFC 3174, computed row by row: the digests of one
    message that is padded in its own block and of one whose padding takes another. */
module Sha1Example {
  import opened Bytes
  import opened Sha1Spec
  import opened Sha1Context

  // ---- Eight rounds at a time ----

  /** The eight words of the schedule that follow two rows of eight. */
  function NextRow(p: seq<word>, q: seq<word>): (r: seq<word>)
    requires |p| == |q| == 8
    ensures |r| == 8
  {
    var w0 := Extend(q[5], q[0], p[2], p[0]);
    var w1 := Extend(q[6], q[1], p[3], p[1]);
    var w2 := Extend(q[7], q[2], p[4], p[2]);
    var w3 := Extend(w0, q[3], p[5], p[3]);
    var w4 := Extend(w1, q[4], p[6], p[4]);
    [w0, w1, w2, w3, w4, Extend(w2, q[5], p[7], p[5]), Extend(w3, q[6], q[0], p[6]), Extend(w4, q[7], q[1], p[7])]
  }

  function EightRounds(r: Regs, t: nat, w: seq<word>): Regs
    requires |w| == 8
  {
    var r4 := Round(Round(Round(Round(r, t, w[0]), t + 1, w[1]), t + 2, w[2]), t + 3, w[3]);
    Round(Round(Round(Round(r4, t + 4, w[4]), t + 5, w[5]), t + 6, w[6]), t + 7, w[7])
  }

  /** The ten rows are the schedule of block m. */
  ghost predicate Rows(m: seq<word>, rows: seq<seq<word>>) {
    && |m| == 16 && |rows| == 10 && (forall k :: 0 <= k < 10 ==> |rows[k]| == 8)
    && m == rows[0] + rows[1]
    && forall k :: 2 <= k < 10 ==> rows[k] == NextRow(rows[k - 2], rows[k - 1])
  }

  /** The registers before every eighth round. */
  ghost predicate States(h: Regs, rows: seq<seq<word>>, states: seq<Regs>) {
    && |rows| == 10 && (forall k :: 0 <= k < 10 ==> |rows[k]| == 8)
    && |states| == 11 && states[0] == h
    && forall k :: 0 <= k < 10 ==> states[k + 1] == EightRounds(states[k], 8 * k, rows[k])
  }

  /** Words t to t + 7 of the schedule. */
  ghost predicate RowAt(m: seq<word>, t: nat, p: seq<word>) {
    && |m| == 16 && |p| == 8
    && W(m, t) == p[0] && W(m, t + 1) == p[1] && W(m, t + 2) == p[2] && W(m, t + 3) == p[3]
    && W(m, t + 4) == p[4] && W(m, t + 5) == p[5] && W(m, t + 6) == p[6] && W(m, t + 7) == p[7]
  }

  lemma WordIs(m: seq<word>, t: nat)
    requires |m| == 16 && t >= 16
    ensures W(m, t) == Extend(W(m, t - 3), W(m, t - 8), W(m, t - 14), W(m, t - 16))
  {
    hide Extend;
  }

  lemma RowStep(m: seq<word>, t: nat, p: seq<word>, q: seq<word>)
    requires RowAt(m, t, p) && RowAt(m, t + 8, q)
    ensures RowAt(m, t + 16, NextRow(p, q))
  {
    hide W, Extend;
    WordIs(m, t + 16);
    WordIs(m, t + 17);
    WordIs(m, t + 18);
    WordIs(m, t + 19);
    WordIs(m, t + 20);
    WordIs(m, t + 21);
    WordIs(m, t + 22);
    WordIs(m, t + 23);
  }

  lemma FirstRows(m: seq<word>, p: seq<word>, q: seq<word>)
    requires |p| == |q| == 8 && m == p + q
    ensures RowAt(m, 0, p) && RowAt(m, 8, q)
  {
  }

  lemma {:induction false} RowsAreWords(m: seq<word>, rows: seq<seq<word>>, k: nat)
    requires Rows(m, rows) && k < 10
    ensures RowAt(m, 8 * k, rows[k])
    decreases k
  {
    hide RowAt, NextRow;
    if k < 2 {
      FirstRows(m, rows[0], rows[1]);
    } else {
      RowsAreWords(m, rows, k - 2);
      RowsAreWords(m, rows, k - 1);
      RowStep(m, 8 * (k - 2), rows[k - 2], rows[k - 1]);
    }
  }

  lemma {:induction false} StatesAreRounds(h: Regs, m: seq<word>, rows: seq<seq<word>>, states: seq<Regs>, k: nat)
    requires Rows(m, rows) && States(h, rows, states) && k <= 10
    ensures Rounds(h, m, 8 * k) == states[k]
    decreases k
  {
    hide Round, RowAt, NextRow, EightRounds;
    if k > 0 {
      StatesAreRounds(h, m, rows, states, k - 1);
      RowsAreWords(m, rows, k - 1);
      EightMore(h, m, 8 * (k - 1), rows[k - 1]);
    }
  }

  lemma EightMore(h: Regs, m: seq<word>, t: nat, w: seq<word>)
    requires RowAt(m, t, w)
    ensures Rounds(h, m, t + 8) == EightRounds(Rounds(h, m, t), t, w)
  {
    hide Round, W, Rounds;
    OneMore(h, m, t, w[0]);
    OneMore(h, m, t + 1, w[1]);
    OneMore(h, m, t + 2, w[2]);
    OneMore(h, m, t + 3, w[3]);
    OneMore(h, m, t + 4, w[4]);
    OneMore(h, m, t + 5, w[5]);
    OneMore(h, m, t + 6, w[6]);
    OneMore(h, m, t + 7, w[7]);
  }

  lemma OneMore(h: Regs, m: seq<word>, t: nat, w: word)
    requires |m| == 16 && W(m, t) == w
    ensures Rounds(h, m, t + 1) == Round(Rounds(h, m, t), t, w)
  {
    hide Round, W;
  }

  /** What the rows and states of a block make of the digest. */
  lemma CompressIs(h: Regs, m: seq<word>, rows: seq<seq<word>>, states: seq<Regs>)
    requires Rows(m, rows) && States(h, rows, states)
    ensures var r := states[10];
      Compress(h, m) == Regs(Plus(h.a, r.a), Plus(h.b, r.b), Plus(h.c, r.c), Plus(h.d, r.d), Plus(h.e, r.e))
  {
    hide Rows, States, Rounds, Plus;
    StatesAreRounds(h, m, rows, states, 10);
  }

  lemma EveryRow(m: seq<word>, rows: seq<seq<word>>)
    requires |m| == 16 && |rows| == 10 && (forall k :: 0 <= k < 10 ==> |rows[k]| == 8) && m == rows[0] + rows[1]
    requires rows[2] == NextRow(rows[0], rows[1]) && rows[3] == NextRow(rows[1], rows[2])
    requires rows[4] == NextRow(rows[2], rows[3]) && rows[5] == NextRow(rows[3], rows[4])
    requires rows[6] == NextRow(rows[4], rows[5]) && rows[7] == NextRow(rows[5], rows[6])
    requires rows[8] == NextRow(rows[6], rows[7]) && rows[9] == NextRow(rows[7], rows[8])
    ensures Rows(m, rows)
  {
    hide NextRow;
    forall k | 2 <= k < 10 ensures rows[k] == NextRow(rows[k - 2], rows[k - 1]) {
      if k < 6 {
        assert k == 2 || k == 3 || k == 4 || k == 5;
      } else {
        assert k == 6 || k == 7 || k == 8 || k == 9;
      }
    }
  }

  lemma EveryState(h: Regs, rows: seq<seq<word>>, states: seq<Regs>)
    requires |rows| == 10 && (forall k :: 0 <= k < 10 ==> |rows[k]| == 8) && |states| == 11 && states[0] == h
    requires states[1] == EightRounds(states[0], 0, rows[0]) && states[2] == EightRounds(states[1], 8, rows[1])
    requires states[3] == EightRounds(states[2], 16, rows[2]) && states[4] == EightRounds(states[3], 24, rows[3])
    requires states[5] == EightRounds(states[4], 32, rows[4]) && states[6] == EightRounds(states[5], 40, rows[5])
    requires states[7] == EightRounds(states[6], 48, rows[6]) && states[8] == EightRounds(states[7], 56, rows[7])
    requires states[9] == EightRounds(states[8], 64, rows[8]) && states[10] == EightRounds(states[9], 72, rows[9])
    ensures States(h, rows, states)
  {
    hide EightRounds;
    forall k | 0 <= k < 5 ensures states[k + 1] == EightRounds(states[k], 8 * k, rows[k]) {
      assert k == 0 || k == 1 || k == 2 || k == 3 || k == 4;
    }
    forall k | 5 <= k < 10 ensures states[k + 1] == EightRounds(states[k], 8 * k, rows[k]) {
      assert k == 5 || k == 6 || k == 7 || k == 8 || k == 9;
    }
  }

  lemma NothingHashed()
    ensures Digest([]) == H0
  {
  }

  function ZeroWords(n: nat): (z: seq<word>)
    ensures |z| == n && forall j :: 0 <= j < n ==> z[j] == 0
  {
    seq(n, _ => 0)
  }

  lemma WordZero()
    ensures Word([0, 0, 0, 0]) == 0
  {
  }

  // ---- "abc" ----

  const ABC_WORDS: seq<seq<word>> := [
    [0x61626380, 0x00000000, 0x00000000, 0x00000000, 0x00000000, 0x00000000, 0x00000000, 0x00000000],
    [0x00000000, 0x00000000, 0x00000000, 0x00000000, 0x00000000, 0x00000000, 0x00000000, 0x00000018],
    [0xC2C4C700, 0x00000000, 0x00000030, 0x85898E01, 0x00000000, 0x00000060, 0x0B131C03, 0x00000030],
    [0x85898EC1, 0x16263806, 0x00000000, 0x00000180, 0x2C4C700C, 0x000000F0, 0x93AFB507, 0x5898E048],
    [0x8E9A9202, 0x00000600, 0xB131C0F0, 0x16263BC6, 0x4EBED41E, 0x626380A1, 0x16263806, 0x000018C0],
    [0xD2E138C4, 0x00000F00, 0x3AFB5079, 0x898E04E5, 0xE2BA3C2B, 0x000060C0, 0x053A37CD, 0x74458547],
    [0xDA9415ED, 0x26380A16, 0x626383A1, 0x4EBF54DE, 0x3835B44B, 0x0000F600, 0x1E84C7A3, 0x98E04D98],
    [0x651D16A0, 0x62658CA1, 0x458544D6, 0x44584CB7, 0x7BA06619, 0x6380AEA2, 0x0AE55269, 0x627B49A1],
    [0x7CD45C9D, 0x000F0000, 0xFB50753A, 0xEC6765E8, 0xBA3C2BE2, 0x0060C000, 0x3A37CD05, 0x458546F4],
    [0xB8599DD6, 0x380A1A26, 0x01E02203, 0xE7CC3456, 0xE6E60B69, 0x00F60A00, 0x5795EF4F, 0x822E0879]
  ]

  const ABC_STATES: seq<Regs> := [
    Regs(0x67452301, 0xEFCDAB89, 0x98BADCFE, 0x10325476, 0xC3D2E1F0),
    Regs(0x9E8C07D4, 0x993E30C1, 0x0FF1F290, 0xB3F52677, 0xF3763846),
    Regs(0x20BDD62F, 0x196BEE77, 0x644A3DA5, 0x1181ED99, 0x18C623F9),
    Regs(0xD541F12D, 0x21283486, 0x0CE88EFF, 0x868DEC32, 0x7F67875F),
    Regs(0x3B845D33, 0x1267B407, 0x717EEBD7, 0xA0DC2D4B, 0xD2AA1365),
    Regs(0x32DE1CBA, 0x4C986405, 0xF718E5CF, 0x03D447F6, 0xF72EEC32),
    Regs(0xBEAD02CA, 0xA01B846C, 0x8714787C, 0x503CA382, 0xFB86C6AB),
    Regs(0x5E6456AF, 0x7B71F76D, 0x09FA7C76, 0x792410DB, 0x8E11EB59),
    Regs(0x6B61C9E1, 0xB66C020B, 0x9523272C, 0xF5D5B051, 0x8FD4B796),
    Regs(0x39859DE7, 0xC199F8C7, 0x8FC96230, 0x125C24F0, 0xDE37534A),
    Regs(0x42541B35, 0x5738D5E1, 0x21834873, 0x681E6DF6, 0xD8FDF6AD)
  ]

  lemma AbcRows2To5()
    ensures |ABC_WORDS| == 10 && forall k :: 0 <= k < 10 ==> |ABC_WORDS[k]| == 8
    ensures ABC_WORDS[2] == NextRow(ABC_WORDS[0], ABC_WORDS[1])
    ensures ABC_WORDS[3] == NextRow(ABC_WORDS[1], ABC_WORDS[2])
    ensures ABC_WORDS[4] == NextRow(ABC_WORDS[2], ABC_WORDS[3])
    ensures ABC_WORDS[5] == NextRow(ABC_WORDS[3], ABC_WORDS[4])
  {
  }

  lemma AbcRows6To9()
    ensures |ABC_WORDS| == 10 && forall k :: 0 <= k < 10 ==> |ABC_WORDS[k]| == 8
    ensures ABC_WORDS[6] == NextRow(ABC_WORDS[4], ABC_WORDS[5])
    ensures ABC_WORDS[7] == NextRow(ABC_WORDS[5], ABC_WORDS[6])
    ensures ABC_WORDS[8] == NextRow(ABC_WORDS[6], ABC_WORDS[7])
    ensures ABC_WORDS[9] == NextRow(ABC_WORDS[7], ABC_WORDS[8])
  {
  }

  lemma AbcStates0To5()
    ensures |ABC_STATES| == 11 && |ABC_WORDS| == 10 && forall k :: 0 <= k < 10 ==> |ABC_WORDS[k]| == 8
    ensures ABC_STATES[1] == EightRounds(ABC_STATES[0], 0, ABC_WORDS[0])
    ensures ABC_STATES[2] == EightRounds(ABC_STATES[1], 8, ABC_WORDS[1])
    ensures ABC_STATES[3] == EightRounds(ABC_STATES[2], 16, ABC_WORDS[2])
    ensures ABC_STATES[4] == EightRounds(ABC_STATES[3], 24, ABC_WORDS[3])
    ensures ABC_STATES[5] == EightRounds(ABC_STATES[4], 32, ABC_WORDS[4])
  {
  }

  lemma AbcStates5To10()
    ensures |ABC_STATES| == 11 && |ABC_WORDS| == 10 && forall k :: 0 <= k < 10 ==> |ABC_WORDS[k]| == 8
    ensures ABC_STATES[6] == EightRounds(ABC_STATES[5], 40, ABC_WORDS[5])
    ensures ABC_STATES[7] == EightRounds(ABC_STATES[6], 48, ABC_WORDS[6])
    ensures ABC_STATES[8] == EightRounds(ABC_STATES[7], 56, ABC_WORDS[7])
    ensures ABC_STATES[9] == EightRounds(ABC_STATES[8], 64, ABC_WORDS[8])
    ensures ABC_STATES[10] == EightRounds(ABC_STATES[9], 72, ABC_WORDS[9])
  {
  }

  lemma AbcCompress()
    ensures |ABC_WORDS| == 10 && |ABC_WORDS[0] + ABC_WORDS[1]| == 16
    ensures Compress(H0, ABC_WORDS[0] + ABC_WORDS[1]) ==
            Regs(0xA9993E36, 0x4706816A, 0xBA3E2571, 0x7850C26C, 0x9CD0D89D)
  {
    hide NextRow, EightRounds, Compress;
    AbcRows2To5();
    AbcRows6To9();
    AbcStates0To5();
    AbcStates5To10();
    EveryRow(ABC_WORDS[0] + ABC_WORDS[1], ABC_WORDS);
    EveryState(H0, ABC_WORDS, ABC_STATES);
    CompressIs(H0, ABC_WORDS[0] + ABC_WORDS[1], ABC_WORDS, ABC_STATES);
  }

  /** SHA-1("abc"), in octets. */
  lemma Abc()
    ensures Sha1([0x61, 0x62, 0x63]) ==
            [0xA9, 0x99, 0x3E, 0x36, 0x47, 0x06, 0x81, 0x6A, 0xBA, 0x3E,
             0x25, 0x71, 0x78, 0x50, 0xC2, 0x6C, 0x9C, 0xD0, 0xD8, 0x9D]
  {
    hide Compress, BlockWords, Digest, Pad, LengthWords, Octets;
    var msg: seq<u8> := [0x61, 0x62, 0x63];
    assert [] + msg == msg;
    PaddedDigest([], msg, msg + [0x80] + Zeros(60), LengthWords(3));
    NothingHashed();
    AbcBlock();
    AbcCompress();
    AbcOctets();
  }

  lemma AbcOctets()
    ensures RegsOctets(Regs(0xA9993E36, 0x4706816A, 0xBA3E2571, 0x7850C26C, 0x9CD0D89D)) ==
            [0xA9, 0x99, 0x3E, 0x36, 0x47, 0x06, 0x81, 0x6A, 0xBA, 0x3E,
             0x25, 0x71, 0x78, 0x50, 0xC2, 0x6C, 0x9C, 0xD0, 0xD8, 0x9D]
  {
  }

  /** A bit count of one word. */
  lemma ShortLength(octets: nat)
    requires 8 * octets < TWO_32
    ensures LengthWords(octets) == [AsWord(0), AsWord(8 * octets)]
  {
    hide AsWord;
    DivMod32(0, 8 * octets);
    assert octets * 8 % TWO_64 == 8 * octets;
  }

  lemma ShortCounts()
    ensures AsWord(0) == 0 && AsWord(24) == 0x18 && AsWord(448) == 0x1C0
  {
  }

  lemma AbcLength()
    ensures LengthWords(3) == [0, 0x18]
  {
    hide AsWord, LengthWords;
    ShortLength(3);
    ShortCounts();
  }

  lemma AbcFirst(c: seq<u8>)
    requires c == [0x61, 0x62, 0x63] + [0x80] + Zeros(60)
    ensures BlockWords(c) == [0x61626380] + ZeroWords(15)
  {
    assert c[0..4] == [0x61, 0x62, 0x63, 0x80];
    assert Word([0x61, 0x62, 0x63, 0x80]) == 0x61626380;
    WordZero();
    hide Word;
    forall j | 1 <= j < 16 ensures BlockWords(c)[j] == 0 {
      assert c[4 * j..4 * j + 4] == [0, 0, 0, 0];
    }
  }

  /** The padded block with its length. */
  lemma AbcBlock()
    ensures |ABC_WORDS| == 10 && |ABC_WORDS[0] + ABC_WORDS[1]| == 16
    ensures BlockWords([0x61, 0x62, 0x63] + [0x80] + Zeros(60))[14 := LengthWords(3)[0]][15 := LengthWords(3)[1]]
            == ABC_WORDS[0] + ABC_WORDS[1]
  {
    hide BlockWords, LengthWords;
    AbcLength();
    AbcFirst([0x61, 0x62, 0x63] + [0x80] + Zeros(60));
  }

  // ---- "abcdbcdecdefdefgefghfghighijhijkijkljklmklmnlmnomnopnopq" ----

  const LONG: seq<seq<u8>> := [
    [0x61, 0x62, 0x63, 0x64], [0x62, 0x63, 0x64, 0x65], [0x63, 0x64, 0x65, 0x66],
    [0x64, 0x65, 0x66, 0x67], [0x65, 0x66, 0x67, 0x68], [0x66, 0x67, 0x68, 0x69],
    [0x67, 0x68, 0x69, 0x6A], [0x68, 0x69, 0x6A, 0x6B], [0x69, 0x6A, 0x6B, 0x6C],
    [0x6A, 0x6B, 0x6C, 0x6D], [0x6B, 0x6C, 0x6D, 0x6E], [0x6C, 0x6D, 0x6E, 0x6F],
    [0x6D, 0x6E, 0x6F, 0x70], [0x6E, 0x6F, 0x70, 0x71]
  ]

  /** The digest between its two blocks. */
  const BETWEEN := Regs(0xF4286818, 0xC37B27AE, 0x0408F581, 0x84677148, 0x4A566572)

  const LONG1_WORDS: seq<seq<word>> := [
    [0x61626364, 0x62636465, 0x63646566, 0x64656667, 0x65666768, 0x66676869, 0x6768696A, 0x68696A6B],
    [0x696A6B6C, 0x6A6B6C6D, 0x6B6C6D6E, 0x6C6D6E6F, 0x6D6E6F70, 0x6E6F7071, 0x80000000, 0x00000000],
    [0x0A063A3E, 0xD8DADCDF, 0xDADCDEC0, 0xC8D2B4BE, 0x6F757B5B, 0x757B5967, 0x8DA16D70, 0xDAEEFABA],
    [0xFAF6CAB6, 0xA6FB675A, 0x0C604CC8, 0x604CC02C, 0x49C0E6E2, 0x2EE8CBBC, 0xCFD72EC4, 0x97E9810E],
    [0x0989CBE8, 0xF24843FE, 0x5C40D0BA, 0xA8D9CC3B, 0xB2B9666E, 0xBA7B71B7, 0x20B28A72, 0xB28AF500],
    [0x8AC87842, 0x289ADDF4, 0x56D51F21, 0xD96B7FD2, 0x3868E778, 0xAB5E4848, 0x7F0E2118, 0xDE87A111],
    [0xE8BE56B0, 0x1A0AE652, 0xCD5611C8, 0x46EF29DC, 0x60D3DA6D, 0xDDF3BA6E, 0x2737F5E9, 0x4888A710],
    [0xD2A1177B, 0x9999633B, 0xD6C69D03, 0xCCF6127B, 0x7C58FE6D, 0xFDD99C68, 0xF8E32074, 0xE0BA3C7D],
    [0x152198D6, 0x7B3F1982, 0x37F2D5B7, 0x8596323E, 0x810790D6, 0xBEA0A942, 0x11C7E1B1, 0x6158D101],
    [0x5FCD77D9, 0x7F2F12E6, 0xF868CFB1, 0xD6E997E9, 0xF526B852, 0xB7578DCC, 0x55D99DF4, 0x1FF69958]
  ]

  const LONG1_STATES: seq<Regs> := [
    Regs(0x67452301, 0xEFCDAB89, 0x98BADCFE, 0x10325476, 0xC3D2E1F0),
    Regs(0x45833F0F, 0xDB04CB58, 0x65AE1462, 0xCCFD2B96, 0x0B13DBAB),
    Regs(0x42637E39, 0xB2E7A8BE, 0x4CBE52A1, 0xA180D207, 0xB867B2A8),
    Regs(0xFD224575, 0xE2B92DC4, 0xC254445D, 0x6560DB69, 0x9B111594),
    Regs(0x52E31F60, 0xA9C84BEC, 0x816D15EC, 0x78448908, 0x3549A991),
    Regs(0xADEB7478, 0x24957F22, 0x50FE1EBA, 0x564CFF26, 0xAADF0CBB),
    Regs(0xC8A69090, 0xA2AD4F02, 0xB1BA8907, 0x26307A99, 0x58CFA558),
    Regs(0x776C3910, 0x36D1230A, 0x7B7AA56C, 0x33A24B84, 0x234B9DB2),
    Regs(0x513F9CA0, 0x2BFAF7A8, 0x10203537, 0xCD8952C4, 0xE7BDDD70),
    Regs(0x84065712, 0x112B96E3, 0xFF7DBBFF, 0x4B1EC1EF, 0x5B45F27F),
    Regs(0x8CE34517, 0xD3AD7C25, 0x6B4E1883, 0x74351CD2, 0x86838382)
  ]

  lemma Long1Rows2To5()
    ensures |LONG1_WORDS| == 10 && forall k :: 0 <= k < 10 ==> |LONG1_WORDS[k]| == 8
    ensures LONG1_WORDS[2] == NextRow(LONG1_WORDS[0], LONG1_WORDS[1])
    ensures LONG1_WORDS[3] == NextRow(LONG1_WORDS[1], LONG1_WORDS[2])
    ensures LONG1_WORDS[4] == NextRow(LONG1_WORDS[2], LONG1_WORDS[3])
    ensures LONG1_WORDS[5] == NextRow(LONG1_WORDS[3], LONG1_WORDS[4])
  {
  }

  lemma Long1Rows6To9()
    ensures |LONG1_WORDS| == 10 && forall k :: 0 <= k < 10 ==> |LONG1_WORDS[k]| == 8
    ensures LONG1_WORDS[6] == NextRow(LONG1_WORDS[4], LONG1_WORDS[5])
    ensures LONG1_WORDS[7] == NextRow(LONG1_WORDS[5], LONG1_WORDS[6])
    ensures LONG1_WORDS[8] == NextRow(LONG1_WORDS[6], LONG1_WORDS[7])
    ensures LONG1_WORDS[9] == NextRow(LONG1_WORDS[7], LONG1_WORDS[8])
  {
  }

  lemma Long1States0To5()
    ensures |LONG1_STATES| == 11 && |LONG1_WORDS| == 10 && forall k :: 0 <= k < 10 ==> |LONG1_WORDS[k]| == 8
    ensures LONG1_STATES[1] == EightRounds(LONG1_STATES[0], 0, LONG1_WORDS[0])
    ensures LONG1_STATES[2] == EightRounds(LONG1_STATES[1], 8, LONG1_WORDS[1])
    ensures LONG1_STATES[3] == EightRounds(LONG1_STATES[2], 16, LONG1_WORDS[2])
    ensures LONG1_STATES[4] == EightRounds(LONG1_STATES[3], 24, LONG1_WORDS[3])
    ensures LONG1_STATES[5] == EightRounds(LONG1_STATES[4], 32, LONG1_WORDS[4])
  {
  }

  lemma Long1States5To10()
    ensures |LONG1_STATES| == 11 && |LONG1_WORDS| == 10 && forall k :: 0 <= k < 10 ==> |LONG1_WORDS[k]| == 8
    ensures LONG1_STATES[6] == EightRounds(LONG1_STATES[5], 40, LONG1_WORDS[5])
    ensures LONG1_STATES[7] == EightRounds(LONG1_STATES[6], 48, LONG1_WORDS[6])
    ensures LONG1_STATES[8] == EightRounds(LONG1_STATES[7], 56, LONG1_WORDS[7])
    ensures LONG1_STATES[9] == EightRounds(LONG1_STATES[8], 64, LONG1_WORDS[8])
    ensures LONG1_STATES[10] == EightRounds(LONG1_STATES[9], 72, LONG1_WORDS[9])
  {
  }

  lemma Long1Compress()
    ensures |LONG1_WORDS| == 10 && |LONG1_WORDS[0] + LONG1_WORDS[1]| == 16
    ensures Compress(H0, LONG1_WORDS[0] + LONG1_WORDS[1]) ==
            BETWEEN
  {
    hide NextRow, EightRounds, Compress;
    Long1Rows2To5();
    Long1Rows6To9();
    Long1States0To5();
    Long1States5To10();
    EveryRow(LONG1_WORDS[0] + LONG1_WORDS[1], LONG1_WORDS);
    EveryState(H0, LONG1_WORDS, LONG1_STATES);
    CompressIs(H0, LONG1_WORDS[0] + LONG1_WORDS[1], LONG1_WORDS, LONG1_STATES);
  }

  const LONG2_WORDS: seq<seq<word>> := [
    [0x00000000, 0x00000000, 0x00000000, 0x00000000, 0x00000000, 0x00000000, 0x00000000, 0x00000000],
    [0x00000000, 0x00000000, 0x00000000, 0x00000000, 0x00000000, 0x00000000, 0x00000000, 0x000001C0],
    [0x00000000, 0x00000000, 0x00000380, 0x00000000, 0x00000000, 0x00000700, 0x00000000, 0x00000380],
    [0x00000E00, 0x00000000, 0x00000000, 0x00001C00, 0x00000000, 0x00000D80, 0x00003800, 0x00000480],
    [0x00000000, 0x00007000, 0x00000E00, 0x00003600, 0x0000E000, 0x00000E00, 0x00000000, 0x0001CE00],
    [0x00000000, 0x0000D800, 0x00038000, 0x00004F00, 0x00000000, 0x00070E00, 0x0000EE00, 0x00037500],
    [0x000E0000, 0x0000E000, 0x00003600, 0x001CEE00, 0x00000000, 0x000DF000, 0x00380000, 0x0004C600],
    [0x0000E000, 0x0070EE00, 0x000EE000, 0x00369E00, 0x00E00000, 0x000ED600, 0x0000E000, 0x01CEA600],
    [0x00000000, 0x00D80000, 0x0380E000, 0x004F0000, 0x00000000, 0x070E0000, 0x00EE0000, 0x03751C00],
    [0x0E000000, 0x00E0E000, 0x00363800, 0x1CEE9000, 0x00000000, 0x0DF09000, 0x3800E000, 0x04C77400]
  ]

  const LONG2_STATES: seq<Regs> := [
    BETWEEN,
    Regs(0xC6946813, 0xE7FA0377, 0x1510E457, 0xD078D09D, 0xBBBDD0F1),
    Regs(0xD9772360, 0x258B0BAA, 0x2898132A, 0xFFB35EEF, 0xD0E89E4B),
    Regs(0x8FBAA5B9, 0x9AD594B9, 0x7BA1C02F, 0xCDD20BD7, 0xF6264854),
    Regs(0x8A4AF384, 0x17986223, 0x028BEC42, 0xC90A6F97, 0xD7105B6B),
    Regs(0x03BB6310, 0x84E2A5F2, 0x21F56E03, 0xB3BD6B84, 0x1A5B6901),
    Regs(0x46F93B68, 0x7316056A, 0xB0F40CFA, 0xCF2BB5EB, 0x7B074F58),
    Regs(0x6DA72E7F, 0x2BDBB8CB, 0x10C7596F, 0x05E5F88A, 0x627EF507),
    Regs(0xD504902B, 0xF66D9BF4, 0x24D85327, 0xDEAAC406, 0xE996063D),
    Regs(0xAE1B8E7B, 0x8B2C7573, 0x66277459, 0xDDB0158E, 0xFD889AEF),
    Regs(0x906FD62C, 0x58C0AAC0, 0xB6A55520, 0x74E9B89D, 0x9AF00B7F)
  ]

  lemma Long2Rows2To5()
    ensures |LONG2_WORDS| == 10 && forall k :: 0 <= k < 10 ==> |LONG2_WORDS[k]| == 8
    ensures LONG2_WORDS[2] == NextRow(LONG2_WORDS[0], LONG2_WORDS[1])
    ensures LONG2_WORDS[3] == NextRow(LONG2_WORDS[1], LONG2_WORDS[2])
    ensures LONG2_WORDS[4] == NextRow(LONG2_WORDS[2], LONG2_WORDS[3])
    ensures LONG2_WORDS[5] == NextRow(LONG2_WORDS[3], LONG2_WORDS[4])
  {
  }

  lemma Long2Rows6To9()
    ensures |LONG2_WORDS| == 10 && forall k :: 0 <= k < 10 ==> |LONG2_WORDS[k]| == 8
    ensures LONG2_WORDS[6] == NextRow(LONG2_WORDS[4], LONG2_WORDS[5])
    ensures LONG2_WORDS[7] == NextRow(LONG2_WORDS[5], LONG2_WORDS[6])
    ensures LONG2_WORDS[8] == NextRow(LONG2_WORDS[6], LONG2_WORDS[7])
    ensures LONG2_WORDS[9] == NextRow(LONG2_WORDS[7], LONG2_WORDS[8])
  {
  }

  lemma Long2States0To5()
    ensures |LONG2_STATES| == 11 && |LONG2_WORDS| == 10 && forall k :: 0 <= k < 10 ==> |LONG2_WORDS[k]| == 8
    ensures LONG2_STATES[1] == EightRounds(LONG2_STATES[0], 0, LONG2_WORDS[0])
    ensures LONG2_STATES[2] == EightRounds(LONG2_STATES[1], 8, LONG2_WORDS[1])
    ensures LONG2_STATES[3] == EightRounds(LONG2_STATES[2], 16, LONG2_WORDS[2])
    ensures LONG2_STATES[4] == EightRounds(LONG2_STATES[3], 24, LONG2_WORDS[3])
    ensures LONG2_STATES[5] == EightRounds(LONG2_STATES[4], 32, LONG2_WORDS[4])
  {
  }

  lemma Long2States5To10()
    ensures |LONG2_STATES| == 11 && |LONG2_WORDS| == 10 && forall k :: 0 <= k < 10 ==> |LONG2_WORDS[k]| == 8
    ensures LONG2_STATES[6] == EightRounds(LONG2_STATES[5], 40, LONG2_WORDS[5])
    ensures LONG2_STATES[7] == EightRounds(LONG2_STATES[6], 48, LONG2_WORDS[6])
    ensures LONG2_STATES[8] == EightRounds(LONG2_STATES[7], 56, LONG2_WORDS[7])
    ensures LONG2_STATES[9] == EightRounds(LONG2_STATES[8], 64, LONG2_WORDS[8])
    ensures LONG2_STATES[10] == EightRounds(LONG2_STATES[9], 72, LONG2_WORDS[9])
  {
  }

  lemma Long2Compress()
    ensures |LONG2_WORDS| == 10 && |LONG2_WORDS[0] + LONG2_WORDS[1]| == 16
    ensures Compress(BETWEEN, LONG2_WORDS[0] + LONG2_WORDS[1]) ==
            Regs(0x84983E44, 0x1C3BD26E, 0xBAAE4AA1, 0xF95129E5, 0xE54670F1)
  {
    hide NextRow, EightRounds, Compress;
    Long2Rows2To5();
    Long2Rows6To9();
    Long2States0To5();
    Long2States5To10();
    EveryRow(LONG2_WORDS[0] + LONG2_WORDS[1], LONG2_WORDS);
    EveryState(BETWEEN, LONG2_WORDS, LONG2_STATES);
    CompressIs(BETWEEN, LONG2_WORDS[0] + LONG2_WORDS[1], LONG2_WORDS, LONG2_STATES);
  }

  /** Pieces of four octets are the words of the block they make up. */
  lemma {:induction false} PieceAt(ss: seq<seq<u8>>, j: nat)
    requires j < |ss| && forall k :: 0 <= k < |ss| ==> |ss[k]| == 4
    ensures |Concat(ss)| == 4 * |ss| && Concat(ss)[4 * j..4 * j + 4] == ss[j]
    decreases |ss|
  {
    var n := |ss| - 1;
    if n > 0 {
      PieceAt(ss[..n], if j < n then j else 0);
      if j < n {
        assert Concat(ss)[4 * j..4 * j + 4] == Concat(ss[..n])[4 * j..4 * j + 4];
      }
    } else {
      assert ss[..0] == [];
    }
  }

  lemma LongPieces()
    ensures |LONG| == 14 && forall k :: 0 <= k < 14 ==> |LONG[k]| == 4
    ensures |LONG1_WORDS| == 10 && |LONG1_WORDS[0] + LONG1_WORDS[1]| == 16
    ensures forall k :: 0 <= k < 14 ==> Word(LONG[k]) == (LONG1_WORDS[0] + LONG1_WORDS[1])[k]
    ensures (LONG1_WORDS[0] + LONG1_WORDS[1])[14] == 0x80000000 && (LONG1_WORDS[0] + LONG1_WORDS[1])[15] == 0
  {
  }

  lemma LongLength()
    ensures LengthWords(56) == [0, 0x1C0]
  {
    hide AsWord, LengthWords;
    ShortLength(56);
    ShortCounts();
  }

  lemma Marker()
    ensures Word([0x80, 0, 0, 0]) == 0x80000000
  {
  }

  lemma LongFirst(msg: seq<u8>)
    requires msg == Concat(LONG)
    ensures |msg| == 56 && |LONG1_WORDS| == 10
    ensures BlockWords(msg + [0x80] + Zeros(7)) == LONG1_WORDS[0] + LONG1_WORDS[1]
  {
    LongPieces();
    hide Word;
    PieceAt(LONG, 0);
    var c, m := msg + [0x80] + Zeros(7), LONG1_WORDS[0] + LONG1_WORDS[1];
    WordZero();
    Marker();
    assert c[56..60] == [0x80, 0, 0, 0];
    assert c[60..64] == [0, 0, 0, 0];
    forall j | 0 <= j < 16 ensures BlockWords(c)[j] == m[j] {
      if j < 14 {
        PieceAt(LONG, j);
        assert c[4 * j..4 * j + 4] == msg[4 * j..4 * j + 4];
      }
    }
  }

  lemma LongSecond()
    ensures |LONG2_WORDS| == 10 && |LONG2_WORDS[0] + LONG2_WORDS[1]| == 16
    ensures BlockWords(Zeros(64))[14 := 0][15 := 0x1C0] == LONG2_WORDS[0] + LONG2_WORDS[1]
  {
    ZeroBlock();
    hide BlockWords;
    assert BlockWords(Zeros(64)) == ZeroWords(16);
  }

  lemma LongOctets()
    ensures RegsOctets(Regs(0x84983E44, 0x1C3BD26E, 0xBAAE4AA1, 0xF95129E5, 0xE54670F1)) ==
            [0x84, 0x98, 0x3E, 0x44, 0x1C, 0x3B, 0xD2, 0x6E, 0xBA, 0xAE,
             0x4A, 0xA1, 0xF9, 0x51, 0x29, 0xE5, 0xE5, 0x46, 0x70, 0xF1]
  {
  }

  /** SHA-1 of the message of 56 octets, in octets. */
  lemma Long()
    ensures Sha1(Concat(LONG)) ==
            [0x84, 0x98, 0x3E, 0x44, 0x1C, 0x3B, 0xD2, 0x6E, 0xBA, 0xAE,
             0x4A, 0xA1, 0xF9, 0x51, 0x29, 0xE5, 0xE5, 0x46, 0x70, 0xF1]
  {
    hide Compress, BlockWords, Digest, Pad, LengthWords, RegsOctets, LONG;
    var msg := Concat(LONG);
    LongFirst(msg);
    assert [] + msg == msg;
    PaddedDigest([], msg, msg + [0x80] + Zeros(7), LengthWords(56));
    NothingHashed();
    LongLength();
    Long1Compress();
    LongSecond();
    Long2Compress();
    LongOctets();
  }

  /** The same through init, update and finish. */
  method HashAbc() returns (d: array<u8>)
    ensures d[..] ==
            [0xA9, 0x99, 0x3E, 0x36, 0x47, 0x06, 0x81, 0x6A, 0xBA, 0x3E,
             0x25, 0x71, 0x78, 0x50, 0xC2, 0x6C, 0x9C, 0xD0, 0xD8, 0x9D]
  {
    hide Sha1;
    var pieces: seq<seq<u8>> := [[0x61], [0x62, 0x63]];
    d := HashPieces(pieces);
    AbcPieces();
    Abc();
  }

  lemma AbcPieces()
    ensures Concat<u8>([[0x61], [0x62, 0x63]]) == [0x61, 0x62, 0x63]
  {
    var pieces: seq<seq<u8>> := [[0x61], [0x62, 0x63]];
    assert pieces[..1] == [[0x61]] && pieces[..1][..0] == [];
  }

  method HashLong() returns (d: array<u8>)
    ensures d[..] ==
            [0x84, 0x98, 0x3E, 0x44, 0x1C, 0x3B, 0xD2, 0x6E, 0xBA, 0xAE,
             0x4A, 0xA1, 0xF9, 0x51, 0x29, 0xE5, 0xE5, 0x46, 0x70, 0xF1]
  {
    hide Sha1, LONG;
    d := HashPieces(LONG);
    Long();
  }
}
