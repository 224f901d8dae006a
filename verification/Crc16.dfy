/**
 The CRC of the serial transport: a table-driven loop over the bytes, proved equal to the bit-serial reflected CRC with
 polynomial 0x8408 (the frame check of section C.2 of RFC 1662, without its initial and final complement).
 */
module Crc16 {

  // The 256 entries of the table, sixteen to a row as in the source.
  const ROWS: seq<seq<bv16>> := [
    [0x0000, 0x1189, 0x2312, 0x329B, 0x4624, 0x57AD, 0x6536, 0x74BF, 0x8C48, 0x9DC1, 0xAF5A, 0xBED3, 0xCA6C, 0xDBE5, 0xE97E, 0xF8F7],
    [0x1081, 0x0108, 0x3393, 0x221A, 0x56A5, 0x472C, 0x75B7, 0x643E, 0x9CC9, 0x8D40, 0xBFDB, 0xAE52, 0xDAED, 0xCB64, 0xF9FF, 0xE876],
    [0x2102, 0x308B, 0x0210, 0x1399, 0x6726, 0x76AF, 0x4434, 0x55BD, 0xAD4A, 0xBCC3, 0x8E58, 0x9FD1, 0xEB6E, 0xFAE7, 0xC87C, 0xD9F5],
    [0x3183, 0x200A, 0x1291, 0x0318, 0x77A7, 0x662E, 0x54B5, 0x453C, 0xBDCB, 0xAC42, 0x9ED9, 0x8F50, 0xFBEF, 0xEA66, 0xD8FD, 0xC974],
    [0x4204, 0x538D, 0x6116, 0x709F, 0x0420, 0x15A9, 0x2732, 0x36BB, 0xCE4C, 0xDFC5, 0xED5E, 0xFCD7, 0x8868, 0x99E1, 0xAB7A, 0xBAF3],
    [0x5285, 0x430C, 0x7197, 0x601E, 0x14A1, 0x0528, 0x37B3, 0x263A, 0xDECD, 0xCF44, 0xFDDF, 0xEC56, 0x98E9, 0x8960, 0xBBFB, 0xAA72],
    [0x6306, 0x728F, 0x4014, 0x519D, 0x2522, 0x34AB, 0x0630, 0x17B9, 0xEF4E, 0xFEC7, 0xCC5C, 0xDDD5, 0xA96A, 0xB8E3, 0x8A78, 0x9BF1],
    [0x7387, 0x620E, 0x5095, 0x411C, 0x35A3, 0x242A, 0x16B1, 0x0738, 0xFFCF, 0xEE46, 0xDCDD, 0xCD54, 0xB9EB, 0xA862, 0x9AF9, 0x8B70],
    [0x8408, 0x9581, 0xA71A, 0xB693, 0xC22C, 0xD3A5, 0xE13E, 0xF0B7, 0x0840, 0x19C9, 0x2B52, 0x3ADB, 0x4E64, 0x5FED, 0x6D76, 0x7CFF],
    [0x9489, 0x8500, 0xB79B, 0xA612, 0xD2AD, 0xC324, 0xF1BF, 0xE036, 0x18C1, 0x0948, 0x3BD3, 0x2A5A, 0x5EE5, 0x4F6C, 0x7DF7, 0x6C7E],
    [0xA50A, 0xB483, 0x8618, 0x9791, 0xE32E, 0xF2A7, 0xC03C, 0xD1B5, 0x2942, 0x38CB, 0x0A50, 0x1BD9, 0x6F66, 0x7EEF, 0x4C74, 0x5DFD],
    [0xB58B, 0xA402, 0x9699, 0x8710, 0xF3AF, 0xE226, 0xD0BD, 0xC134, 0x39C3, 0x284A, 0x1AD1, 0x0B58, 0x7FE7, 0x6E6E, 0x5CF5, 0x4D7C],
    [0xC60C, 0xD785, 0xE51E, 0xF497, 0x8028, 0x91A1, 0xA33A, 0xB2B3, 0x4A44, 0x5BCD, 0x6956, 0x78DF, 0x0C60, 0x1DE9, 0x2F72, 0x3EFB],
    [0xD68D, 0xC704, 0xF59F, 0xE416, 0x90A9, 0x8120, 0xB3BB, 0xA232, 0x5AC5, 0x4B4C, 0x79D7, 0x685E, 0x1CE1, 0x0D68, 0x3FF3, 0x2E7A],
    [0xE70E, 0xF687, 0xC41C, 0xD595, 0xA12A, 0xB0A3, 0x8238, 0x93B1, 0x6B46, 0x7ACF, 0x4854, 0x59DD, 0x2D62, 0x3CEB, 0x0E70, 0x1FF9],
    [0xF78F, 0xE606, 0xD49D, 0xC514, 0xB1AB, 0xA022, 0x92B9, 0x8330, 0x7BC7, 0x6A4E, 0x58D5, 0x495C, 0x3DE3, 0x2C6A, 0x1EF1, 0x0F78]
  ]

  // crc16[x]
  function Entry(x: bv16): bv16
    requires x <= 0xFF
  {
    NibbleOf(x);
    ROWS[(x >> 4) as int][(x & 0xF) as int]
  }

  lemma NibbleOf(x: bv16)
    requires x <= 0xFF
    ensures x >> 4 <= 0xF && x & 0xF <= 0xF
  {
  }

  function Xor(a: bv16, b: bv16): bv16 { a ^ b }

  /* ---- The bit-serial form ---- */

  // One bit leaves at the low end.
  function Shift(c: bv16): bv16 { Xor(c >> 1, Tap(c)) }

  // What the bit that leaves feeds back.
  function Tap(c: bv16): bv16 { if c & 1 == 1 then 0x8408 else 0 }

  function Shift8(c: bv16): bv16 { Shift(Shift(Shift(Shift(Shift(Shift(Shift(Shift(c)))))))) }

  // One byte of the message, low bit first.
  function Feed(c: bv16, b: bv8): bv16 { Shift8(Xor(c, b as bv16)) }

  function Serial(c: bv16, buf: seq<bv8>): bv16
    decreases |buf|
  {
    if buf == [] then c else Feed(Serial(c, buf[..|buf| - 1]), buf[|buf| - 1])
  }

  /* ---- Linearity ---- */

  lemma LowBit(x: bv16, y: bv16)
    ensures (x ^ y) & 1 == (x & 1) ^ (y & 1) && (x & 1 == 0 || x & 1 == 1)
  {
  }

  lemma TapLinear(x: bv16, y: bv16)
    ensures Tap(Xor(x, y)) == Xor(Tap(x), Tap(y))
  {
    LowBit(x, y);
    LowBit(y, x);
  }

  lemma ShiftXor(x: bv16, y: bv16)
    ensures Xor(x, y) >> 1 == Xor(x >> 1, y >> 1)
  {
  }

  lemma XorAssociates(a: bv16, b: bv16, c: bv16)
    ensures Xor(Xor(a, b), c) == Xor(a, Xor(b, c))
  {
  }

  lemma XorCommutes(a: bv16, b: bv16)
    ensures Xor(a, b) == Xor(b, a)
  {
  }

  lemma XorPairs(a: bv16, b: bv16, p: bv16, q: bv16)
    ensures Xor(Xor(a, p), Xor(b, q)) == Xor(Xor(a, b), Xor(p, q))
  {
    hide Xor;
    XorAssociates(a, p, Xor(b, q));
    XorAssociates(p, b, q);
    XorCommutes(p, b);
    XorAssociates(b, p, q);
    XorAssociates(a, b, Xor(p, q));
  }

  lemma ShiftLinear(x: bv16, y: bv16)
    ensures Shift(Xor(x, y)) == Xor(Shift(x), Shift(y))
  {
    hide Tap, Xor;
    ShiftXor(x, y);
    TapLinear(x, y);
    XorPairs(x >> 1, y >> 1, Tap(x), Tap(y));
  }

  lemma Shift8Linear(x: bv16, y: bv16)
    ensures Shift8(Xor(x, y)) == Xor(Shift8(x), Shift8(y))
  {
    hide Shift, Xor;
    ShiftLinear(x, y);
    var x1, y1 := Shift(x), Shift(y);
    ShiftLinear(x1, y1);
    var x2, y2 := Shift(x1), Shift(y1);
    ShiftLinear(x2, y2);
    var x3, y3 := Shift(x2), Shift(y2);
    ShiftLinear(x3, y3);
    var x4, y4 := Shift(x3), Shift(y3);
    ShiftLinear(x4, y4);
    var x5, y5 := Shift(x4), Shift(y4);
    ShiftLinear(x5, y5);
    var x6, y6 := Shift(x5), Shift(y5);
    ShiftLinear(x6, y6);
    ShiftLinear(Shift(x6), Shift(y6));
  }

  // Eight shifts of the high byte meet no one bits.
  lemma Shift8High(x: bv16)
    requires x & 0xFF == 0
    ensures Shift8(x) == x >> 8
  {
  }

  lemma Shift8Kernel(x: bv16)
    ensures Shift8(x) == 0 ==> x == 0
  {
  }

  lemma XorZero(x: bv16, y: bv16)
    ensures Xor(x, y) == 0 <==> x == y
  {
  }

  lemma Shift8Injective(x: bv16, y: bv16)
    ensures Shift8(x) == Shift8(y) ==> x == y
  {
    hide Shift8, Xor;
    Shift8Linear(x, y);
    Shift8Kernel(Xor(x, y));
    XorZero(x, y);
    XorZero(Shift8(x), Shift8(y));
  }

  /* ---- The table ---- */

  lemma Sixteen(x: bv16)
    requires x <= 0xF
    ensures x == 0 || x == 1 || x == 2 || x == 3 || x == 4 || x == 5 || x == 6 || x == 7
        || x == 8 || x == 9 || x == 10 || x == 11 || x == 12 || x == 13 || x == 14 || x == 15
  {
  }

  // Every row is its first entry plus the first row.
  ghost predicate FollowsFirstRow(row: seq<bv16>) {
    && |row| == 16 && row[0] == Xor(row[0], ROWS[0][0])
    && row[1] == Xor(row[0], ROWS[0][1])
    && row[2] == Xor(row[0], ROWS[0][2])
    && row[3] == Xor(row[0], ROWS[0][3])
    && row[4] == Xor(row[0], ROWS[0][4])
    && row[5] == Xor(row[0], ROWS[0][5])
    && row[6] == Xor(row[0], ROWS[0][6])
    && row[7] == Xor(row[0], ROWS[0][7])
    && row[8] == Xor(row[0], ROWS[0][8])
    && row[9] == Xor(row[0], ROWS[0][9])
    && row[10] == Xor(row[0], ROWS[0][10])
    && row[11] == Xor(row[0], ROWS[0][11])
    && row[12] == Xor(row[0], ROWS[0][12])
    && row[13] == Xor(row[0], ROWS[0][13])
    && row[14] == Xor(row[0], ROWS[0][14])
    && row[15] == Xor(row[0], ROWS[0][15])
  }

  lemma Rows0And1()
    ensures FollowsFirstRow(ROWS[0]) && FollowsFirstRow(ROWS[1])
  {
  }

  lemma Rows2And3()
    ensures FollowsFirstRow(ROWS[2]) && FollowsFirstRow(ROWS[3])
  {
  }

  lemma Rows4And5()
    ensures FollowsFirstRow(ROWS[4]) && FollowsFirstRow(ROWS[5])
  {
  }

  lemma Rows6And7()
    ensures FollowsFirstRow(ROWS[6]) && FollowsFirstRow(ROWS[7])
  {
  }

  lemma Rows8And9()
    ensures FollowsFirstRow(ROWS[8]) && FollowsFirstRow(ROWS[9])
  {
  }

  lemma Rows10And11()
    ensures FollowsFirstRow(ROWS[10]) && FollowsFirstRow(ROWS[11])
  {
  }

  lemma Rows12And13()
    ensures FollowsFirstRow(ROWS[12]) && FollowsFirstRow(ROWS[13])
  {
  }

  lemma Rows14And15()
    ensures FollowsFirstRow(ROWS[14]) && FollowsFirstRow(ROWS[15])
  {
  }

  lemma RowsFollow(h: nat)
    requires h < 16
    ensures FollowsFirstRow(ROWS[h])
  {
    hide FollowsFirstRow;
    Rows0And1();
    Rows2And3();
    Rows4And5();
    Rows6And7();
    Rows8And9();
    Rows10And11();
    Rows12And13();
    Rows14And15();
  }

  lemma RowAt(row: seq<bv16>, x: bv16)
    requires FollowsFirstRow(row) && x <= 0xF
    ensures row[x as int] == Xor(row[0], ROWS[0][x as int])
  {
    hide Xor;
    Sixteen(x);
  }

  lemma Shift8Ones()
    ensures Shift8(0x01) == 0x1189 && Shift8(0x02) == 0x2312
  {
  }

  lemma Shift8Fours()
    ensures Shift8(0x04) == 0x4624 && Shift8(0x08) == 0x8C48
  {
  }

  lemma Shift8Sixteens()
    ensures Shift8(0x10) == 0x1081 && Shift8(0x20) == 0x2102
  {
  }

  lemma Shift8SixtyFours()
    ensures Shift8(0x40) == 0x4204 && Shift8(0x80) == 0x8408
  {
  }

  lemma FirstRow(x: bv16)
    requires x <= 0xF
    ensures ROWS[0][x as int] == Shift8(x)
  {
    hide Shift8;
    Sixteen(x);
    Shift8Ones();
    Shift8Fours();
    Shift8Linear(0x01, 0x02);
    Shift8Linear(0x01, 0x04);
    Shift8Linear(0x02, 0x04);
    Shift8Linear(0x03, 0x04);
    Shift8Linear(0x01, 0x08);
    Shift8Linear(0x02, 0x08);
    Shift8Linear(0x03, 0x08);
    Shift8Linear(0x04, 0x08);
    Shift8Linear(0x05, 0x08);
    Shift8Linear(0x06, 0x08);
    Shift8Linear(0x07, 0x08);
    Shift8Linear(0x00, 0x00);
  }

  lemma FirstColumn(x: bv16)
    requires x <= 0xF
    ensures ROWS[x as int][0] == Shift8(x << 4)
  {
    hide Shift8;
    Sixteen(x);
    Shift8Sixteens();
    Shift8SixtyFours();
    Shift8Linear(0x10, 0x20);
    Shift8Linear(0x10, 0x40);
    Shift8Linear(0x20, 0x40);
    Shift8Linear(0x30, 0x40);
    Shift8Linear(0x10, 0x80);
    Shift8Linear(0x20, 0x80);
    Shift8Linear(0x30, 0x80);
    Shift8Linear(0x40, 0x80);
    Shift8Linear(0x50, 0x80);
    Shift8Linear(0x60, 0x80);
    Shift8Linear(0x70, 0x80);
    Shift8Linear(0x00, 0x00);
  }

  lemma Nibbles(x: bv16)
    requires x <= 0xFF
    ensures x == Xor((x >> 4) << 4, x & 0xF)
  {
  }

  /** Entry x of the table is what eight shifts make of x. */
  lemma EntryIsShift8(x: bv16)
    requires x <= 0xFF
    ensures Entry(x) == Shift8(x)
  {
    hide Shift8, FollowsFirstRow, Xor;
    NibbleOf(x);
    var h, l := x >> 4, x & 0xF;
    RowsFollow(h as int);
    RowAt(ROWS[h as int], l);
    FirstRow(l);
    FirstColumn(h);
    Nibbles(x);
    Shift8Linear(h << 4, l);
  }

  lemma Halves(x: bv16)
    ensures Xor(x & 0xFF, x & 0xFF00) == x && (x & 0xFF00) & 0xFF == 0 && x & 0xFF <= 0xFF
  {
  }

  lemma HighHalf(c: bv16, b: bv8)
    ensures (Xor(c, b as bv16) & 0xFF00) >> 8 == c >> 8
  {
  }

  // crc16[(crc ^ b) & 0xFF] ^ (crc >> 8)
  function Lookup(c: bv16, b: bv8): bv16 {
    Halves(Xor(c, b as bv16));
    Xor(Entry(Xor(c, b as bv16) & 0xFF), c >> 8)
  }

  // Eight shifts of the low half, and the high half moved down.
  lemma Shift8Halves(x: bv16)
    ensures x & 0xFF <= 0xFF && Shift8(x) == Xor(Entry(x & 0xFF), (x & 0xFF00) >> 8)
  {
    hide Shift8, Entry, Xor;
    Halves(x);
    EntryIsShift8(x & 0xFF);
    Shift8Linear(x & 0xFF, x & 0xFF00);
    Shift8High(x & 0xFF00);
  }

  /** One table look-up is eight serial steps. */
  lemma LookupIsFeed(c: bv16, b: bv8)
    ensures Lookup(c, b) == Feed(c, b)
  {
    hide Shift8, Entry, Xor;
    Shift8Halves(Xor(c, b as bv16));
    HighHalf(c, b);
  }

  /** The loop of AJ_CRC16_Compute. */
  method Compute(buffer: seq<bv8>, runningCrc: bv16) returns (crc: bv16)
    ensures crc == Serial(runningCrc, buffer)
  {
    hide Feed, Lookup;
    crc := runningCrc;
    var i := 0;
    while i < |buffer|
      invariant 0 <= i <= |buffer|
      invariant crc == Serial(runningCrc, buffer[..i])
    {
      LookupIsFeed(crc, buffer[i]);
      assert buffer[..i + 1][..i] == buffer[..i];
      crc := Lookup(crc, buffer[i]);
      i := i + 1;
    }
    assert buffer[..i] == buffer;
  }

  /** Computing in pieces is computing the whole. */
  lemma {:induction false} SerialConcat(c: bv16, a: seq<bv8>, b: seq<bv8>)
    ensures Serial(c, a + b) == Serial(Serial(c, a), b)
    decreases |b|
  {
    if b == [] {
      assert a + b == a;
    } else {
      assert (a + b)[..|a + b| - 1] == a + b[..|b| - 1];
      SerialConcat(c, a, b[..|b| - 1]);
    }
  }

  /* ---- Error detection ---- */

  lemma FeedInjective(c: bv16, d: bv16, b: bv8)
    ensures Feed(c, b) == Feed(d, b) ==> c == d
  {
    hide Shift8, Xor;
    Shift8Injective(Xor(c, b as bv16), Xor(d, b as bv16));
    XorCancels(c, d, b as bv16);
  }

  lemma XorCancels(x: bv16, y: bv16, z: bv16)
    ensures Xor(x, z) == Xor(y, z) ==> x == y
  {
  }

  lemma {:induction false} SerialInjective(c: bv16, d: bv16, buf: seq<bv8>)
    ensures Serial(c, buf) == Serial(d, buf) ==> c == d
    decreases |buf|
  {
    hide Feed;
    if buf != [] {
      var front := buf[..|buf| - 1];
      FeedInjective(Serial(c, front), Serial(d, front), buf[|buf| - 1]);
      SerialInjective(c, d, front);
    }
  }

  function Word(b0: bv8, b1: bv8): bv16 { Xor(b0 as bv16, (b1 as bv16) << 8) }

  lemma HighByte(b: bv8)
    ensures ((b as bv16) << 8) & 0xFF == 0 && ((b as bv16) << 8) >> 8 == b as bv16
  {
  }

  // Two bytes are absorbed as one 16-bit word.
  lemma TwoBytes(c: bv16, b0: bv8, b1: bv8)
    ensures Feed(Feed(c, b0), b1) == Shift8(Shift8(Xor(c, Word(b0, b1))))
  {
    hide Shift8, Xor;
    Shift8Absorbs(Xor(c, b0 as bv16), b1);
    XorAssociates(c, b0 as bv16, (b1 as bv16) << 8);
  }

  lemma Shift8Absorbs(x: bv16, b: bv8)
    ensures Xor(Shift8(x), b as bv16) == Shift8(Xor(x, (b as bv16) << 8))
  {
    hide Shift8, Xor;
    HighByte(b);
    Shift8High((b as bv16) << 8);
    Shift8Linear(x, (b as bv16) << 8);
  }

  lemma WordsDiffer(s: bv16, b0: bv8, b1: bv8, d0: bv8, d1: bv8)
    ensures Xor(s, Word(b0, b1)) == Xor(s, Word(d0, d1)) ==> b0 == d0 && b1 == d1
  {
  }

  /**
   Two messages of the same length that differ only within two adjacent bytes never have the same CRC, whatever the
   starting value.
   */
  lemma BurstDetected(c: bv16, pre: seq<bv8>, b0: bv8, b1: bv8, d0: bv8, d1: bv8, post: seq<bv8>)
    requires (b0, b1) != (d0, d1)
    ensures Serial(c, pre + [b0, b1] + post) != Serial(c, pre + [d0, d1] + post)
  {
    hide Shift8, Word, Serial, Xor;
    var s := Serial(c, pre);
    var x, y := Xor(s, Word(b0, b1)), Xor(s, Word(d0, d1));
    AfterPair(c, pre, b0, b1, post);
    AfterPair(c, pre, d0, d1, post);
    WordsDiffer(s, b0, b1, d0, d1);
    Shift8Injective(x, y);
    Shift8Injective(Shift8(x), Shift8(y));
    SerialInjective(Shift8(Shift8(x)), Shift8(Shift8(y)), post);
  }

  lemma AfterPair(c: bv16, pre: seq<bv8>, b0: bv8, b1: bv8, post: seq<bv8>)
    ensures Serial(c, pre + [b0, b1] + post) == Serial(Shift8(Shift8(Xor(Serial(c, pre), Word(b0, b1)))), post)
  {
    hide Feed, Word, Shift8, Xor;
    var s := Serial(c, pre);
    SerialConcat(c, pre + [b0, b1], post);
    SerialConcat(c, pre, [b0, b1]);
    assert [b0, b1][..1] == [b0] && [b0][..0] == [];
    assert Serial(s, [b0]) == Feed(s, b0) && Serial(s, [b0, b1]) == Feed(Serial(s, [b0]), b1);
    TwoBytes(s, b0, b1);
  }

  /* ---- AJ_CRC16_Complete ---- */

  const REV: seq<bv8> := [0x0, 0x8, 0x4, 0xc, 0x2, 0xa, 0x6, 0xe, 0x1, 0x9, 0x5, 0xd, 0x3, 0xb, 0x7, 0xf]

  // Bit k of the result is bit 7 - k of b.
  function Mirror(b: bv8): bv8 {
    ((b & 0x01) << 7) | ((b & 0x02) << 5) | ((b & 0x04) << 3) | ((b & 0x08) << 1)
    | ((b & 0x10) >> 1) | ((b & 0x20) >> 3) | ((b & 0x40) >> 5) | ((b & 0x80) >> 7)
  }

  function Rev(x: bv16): bv8
    requires x <= 0xF
  { REV[x as int] }

  lemma RevIsMirror(x: bv16)
    requires x <= 0xF
    ensures Rev(x) << 4 == Mirror(x as bv8)
  {
    Sixteen(x);
  }

  // Mirroring a byte is mirroring its halves.
  lemma MirrorHalves(lo: bv8, hi: bv8, rl: bv8, rh: bv8)
    requires lo <= 0xF && hi <= 0xF && rl << 4 == Mirror(lo) && rh << 4 == Mirror(hi) && rl <= 0xF && rh <= 0xF
    ensures (rl << 4) | rh == Mirror((hi << 4) | lo)
  {
  }

  lemma RevSmall(x: bv16)
    requires x <= 0xF
    ensures Rev(x) <= 0xF
  {
    Sixteen(x);
  }

  // One byte of the block.
  lemma BlockByte(lo: bv16, hi: bv16, b: bv16)
    requires lo <= 0xF && hi <= 0xF && b <= 0xFF && b as bv8 == ((hi as bv8) << 4) | (lo as bv8)
    ensures (Rev(lo) << 4) | Rev(hi) == Mirror(b as bv8)
  {
    RevIsMirror(lo);
    RevIsMirror(hi);
    RevSmall(lo);
    RevSmall(hi);
    hide Rev, Mirror;
    MirrorHalves(lo as bv8, hi as bv8, Rev(lo), Rev(hi));
  }

  lemma LowByte(crc: bv16)
    ensures crc & 0xFF <= 0xFF && crc & 0xF <= 0xF && (crc >> 4) & 0xF <= 0xF
    ensures (crc & 0xFF) as bv8 == ((((crc >> 4) & 0xF) as bv8) << 4) | ((crc & 0xF) as bv8)
  {
  }

  lemma HighByteParts(crc: bv16)
    ensures crc >> 8 <= 0xFF && (crc >> 8) & 0xF <= 0xF && crc >> 12 <= 0xF
    ensures (crc >> 8) as bv8 == (((crc >> 12) as bv8) << 4) | (((crc >> 8) & 0xF) as bv8)
  {
  }

  lemma LowBlock(crc: bv16)
    ensures crc & 0xFF <= 0xFF && crc & 0xF <= 0xF && (crc >> 4) & 0xF <= 0xF
    ensures Block(crc & 0xF, (crc >> 4) & 0xF) == Mirror((crc & 0xFF) as bv8)
  {
    hide Rev, Mirror;
    LowByte(crc);
    BlockByte(crc & 0xF, (crc >> 4) & 0xF, crc & 0xFF);
  }

  lemma HighBlock(crc: bv16)
    ensures crc >> 8 <= 0xFF && (crc >> 8) & 0xF <= 0xF && crc >> 12 <= 0xF
    ensures Block((crc >> 8) & 0xF, crc >> 12) == Mirror((crc >> 8) as bv8)
  {
    hide Rev, Mirror;
    HighByteParts(crc);
    BlockByte((crc >> 8) & 0xF, crc >> 12, crc >> 8);
  }

  // A byte of the block from two halves of the CRC.
  function Block(lo: bv16, hi: bv16): bv8
    requires lo <= 0xF && hi <= 0xF
  { (Rev(lo) << 4) | Rev(hi) }

  /** AJ_CRC16_Complete: the low byte and the high byte of the CRC, each with its bits mirrored. */
  method Complete(crc: bv16) returns (b0: bv8, b1: bv8)
    ensures crc & 0xFF <= 0xFF && crc >> 8 <= 0xFF
    ensures b0 == Mirror((crc & 0xFF) as bv8) && b1 == Mirror((crc >> 8) as bv8)
  {
    hide Block, Mirror;
    LowBlock(crc);
    HighBlock(crc);
    b0 := Block(crc & 0xF, (crc >> 4) & 0xF);
    b1 := Block((crc >> 8) & 0xF, crc >> 12);
  }
}
