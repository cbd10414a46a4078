/** 1-Wire ROM codes and their CRC-8 (Maxim Application Note 27, polynomial x^8 + x^5 + x^4 + 1). */
module OneWireCrc {
  import opened ByteBits

  /** A ROM code as it travels on the wire: 64 bits, least significant bit of byte 0 first. */
  type Code = c: seq<bool> | |c| == 64 witness seq(64, _ => false)

  /** The bits of a byte array, least significant bit of each byte first. */
  function Bits(bytes: seq<bv8>): seq<bool> {
    seq(8 * |bytes|, i requires 0 <= i < 8 * |bytes| => BitAt(bytes[i / 8], i % 8))
  }

  function TableRow(i: bv8, e0: bv8, e1: bv8, e2: bv8, e3: bv8, e4: bv8, e5: bv8, e6: bv8, e7: bv8,
                    e8: bv8, e9: bv8, eA: bv8, eB: bv8, eC: bv8, eD: bv8, eE: bv8, eF: bv8): bv8 {
    if i < 8 then
      if i < 4 then if i < 2 then if i < 1 then e0 else e1 else if i < 3 then e2 else e3
      else if i < 6 then if i < 5 then e4 else e5 else if i < 7 then e6 else e7
    else
      if i < 12 then if i < 10 then if i < 9 then e8 else e9 else if i < 11 then eA else eB
      else if i < 14 then if i < 13 then eC else eD else if i < 15 then eE else eF
  }

  /** The lookup table `dscrc_table`, row by row. */
  function DscrcTable(i: bv8): bv8 {
    var n := i & 15;
    if i <  16 then TableRow(n,   0,  94, 188, 226,  97,  63, 221, 131, 194, 156, 126,  32, 163, 253,  31,  65)
    else if i <  32 then TableRow(n, 157, 195,  33, 127, 252, 162,  64,  30,  95,   1, 227, 189,  62,  96, 130, 220)
    else if i <  48 then TableRow(n,  35, 125, 159, 193,  66,  28, 254, 160, 225, 191,  93,   3, 128, 222,  60,  98)
    else if i <  64 then TableRow(n, 190, 224,   2,  92, 223, 129,  99,  61, 124,  34, 192, 158,  29,  67, 161, 255)
    else if i <  80 then TableRow(n,  70,  24, 250, 164,  39, 121, 155, 197, 132, 218,  56, 102, 229, 187,  89,   7)
    else if i <  96 then TableRow(n, 219, 133, 103,  57, 186, 228,   6,  88,  25,  71, 165, 251, 120,  38, 196, 154)
    else if i < 112 then TableRow(n, 101,  59, 217, 135,   4,  90, 184, 230, 167, 249,  27,  69, 198, 152, 122,  36)
    else if i < 128 then TableRow(n, 248, 166,  68,  26, 153, 199,  37, 123,  58, 100, 134, 216,  91,   5, 231, 185)
    else if i < 144 then TableRow(n, 140, 210,  48, 110, 237, 179,  81,  15,  78,  16, 242, 172,  47, 113, 147, 205)
    else if i < 160 then TableRow(n,  17,  79, 173, 243, 112,  46, 204, 146, 211, 141, 111,  49, 178, 236,  14,  80)
    else if i < 176 then TableRow(n, 175, 241,  19,  77, 206, 144, 114,  44, 109,  51, 209, 143,  12,  82, 176, 238)
    else if i < 192 then TableRow(n,  50, 108, 142, 208,  83,  13, 239, 177, 240, 174,  76,  18, 145, 207,  45, 115)
    else if i < 208 then TableRow(n, 202, 148, 118,  40, 171, 245,  23,  73,   8,  86, 180, 234, 105,  55, 213, 139)
    else if i < 224 then TableRow(n,  87,   9, 235, 181,  54, 104, 138, 212, 149, 203,  41, 119, 244, 170,  72,  22)
    else if i < 240 then TableRow(n, 233, 183,  85,  11, 136, 214,  52, 106,  43, 117, 151, 201,  74,  20, 246, 168)
    else TableRow(n, 116,  42, 200, 150,  21,  75, 169, 247, 182, 232,  10,  84, 215, 137, 107,  53)
  }

  /** One step of the reflected shift register: divide by x, reduce by the polynomial on carry-out. */
  function ShiftStep(c: bv8): bv8 {
    (c >> 1) ^ (if c & 1 == 1 then 0x8C else 0)
  }

  /** The shift register after one more message bit. */
  function CrcBit(c: bv8, bit: bool): bv8 {
    ShiftStep(c ^ (if bit then 1 else 0))
  }

  /** Bit-serial CRC of a bit string, starting from register value `c`. */
  function Crc(c: bv8, bits: seq<bool>): bv8 {
    if |bits| == 0 then c else CrcBit(Crc(c, bits[..|bits| - 1]), bits[|bits| - 1])
  }

  /** Eight steps without message bits: what the table tabulates. */
  function Shifted(c: bv8, j: nat): bv8 {
    if j == 0 then c else ShiftStep(Shifted(c, j - 1))
  }

  lemma TableIsShifted(i: bv8)
    ensures DscrcTable(i) == Shifted(i, 8)
  {
    hide DscrcTable, ShiftStep;
    TableByHalves(i);
    assert Shifted(i, 1) == ShiftStep(i);
    assert Shifted(i, 3) == ShiftStep(ShiftStep(Shifted(i, 1)));
    assert Shifted(i, 5) == ShiftStep(ShiftStep(Shifted(i, 3)));
    assert Shifted(i, 7) == ShiftStep(ShiftStep(Shifted(i, 5)));
  }

  lemma TableByHalves(i: bv8)
    ensures DscrcTable(i) ==
            ShiftStep(ShiftStep(ShiftStep(ShiftStep(ShiftStep(ShiftStep(ShiftStep(ShiftStep(i))))))))
  {}

  /** The bits of `v` above the lowest `j`. */
  function Unfed(v: bv8, j: nat): bv8
    requires j <= 8
  {
    match j
    case 0 => v case 1 => v >> 1 case 2 => v >> 2 case 3 => v >> 3 case 4 => v >> 4
    case 5 => v >> 5 case 6 => v >> 6 case 7 => v >> 7 case _ => 0
  }

  lemma UnfedEnds(c: bv8, v: bv8)
    ensures Unfed(v, 0) == v
    ensures Xor(c, Unfed(v, 8)) == c
  {}

  lemma UnfedBit(v: bv8, j: nat)
    requires j < 8
    ensures Unfed(v, j + 1) == Unfed(v, j) >> 1
    ensures (Unfed(v, j) & 1 == 1) == BitAt(v, j)
  {}

  function Xor(a: bv8, b: bv8): bv8 {
    a ^ b
  }

  /** Feeding the lowest bit of the unfed part leaves the register off by the rest of that part only. */
  lemma FeedBit(c: bv8, v: bv8, j: nat)
    requires j < 8
    ensures Xor(CrcBit(c, BitAt(v, j)), Unfed(v, j + 1)) == ShiftStep(Xor(c, Unfed(v, j)))
  {
    hide Xor, ShiftStep, CrcBit, Unfed, BitAt;
    UnfedBit(v, j);
    FeedLowBit(c, Unfed(v, j));
  }

  lemma FeedLowBit(c: bv8, w: bv8)
    ensures Xor(CrcBit(c, w & 1 == 1), w >> 1) == ShiftStep(Xor(c, w))
  {}

  lemma BitsOfByte(v: bv8)
    ensures |Bits([v])| == 8
    ensures forall i :: 0 <= i < 8 ==> Bits([v])[i] == BitAt(v, i)
  {}

  lemma {:induction false} SerialPrefix(c: bv8, v: bv8, j: nat)
    requires j <= 8
    ensures Xor(Crc(c, Bits([v])[..j]), Unfed(v, j)) == Shifted(Xor(c, v), j)
  {
    hide Bits, BitAt, ShiftStep, CrcBit, Unfed, Xor;
    BitsOfByte(v);
    if j == 0 {
      UnfedEnds(c, v);
    } else {
      SerialPrefix(c, v, j - 1);
      var bits := Bits([v]);
      assert bits[..j][..j - 1] == bits[..j - 1];
      FeedBit(Crc(c, bits[..j - 1]), v, j - 1);
    }
  }

  /** Table-driven update by one byte is bit-serial division of its eight bits. */
  lemma TableIsSerial(c: bv8, v: bv8)
    ensures DscrcTable(c ^ v) == Crc(c, Bits([v]))
  {
    hide Bits, BitAt, ShiftStep, DscrcTable, Unfed, CrcBit;
    BitsOfByte(v);
    SerialPrefix(c, v, 8);
    UnfedEnds(Crc(c, Bits([v])), v);
    TableIsShifted(c ^ v);
    assert Bits([v])[..8] == Bits([v]);
  }

  lemma {:induction false} CrcConcat(c: bv8, a: seq<bool>, b: seq<bool>)
    ensures Crc(c, a + b) == Crc(Crc(c, a), b)
  {
    if b == [] {
      assert a + b == a;
    } else {
      assert (a + b)[..|a + b| - 1] == a + b[..|b| - 1];
      CrcConcat(c, a, b[..|b| - 1]);
    }
  }

  /** Table-driven CRC of a byte string, as `docrc8` accumulates it. */
  function TableCrc(bytes: seq<bv8>): bv8 {
    if |bytes| == 0 then 0 else DscrcTable(TableCrc(bytes[..|bytes| - 1]) ^ bytes[|bytes| - 1])
  }

  /** On every byte string the table-driven CRC equals bit-serial division by the polynomial. */
  lemma {:induction false} TableCrcIsSerial(bytes: seq<bv8>)
    ensures TableCrc(bytes) == Crc(0, Bits(bytes))
  {
    hide DscrcTable, Bits, BitAt, CrcBit;
    if |bytes| > 0 {
      var front, last := bytes[..|bytes| - 1], bytes[|bytes| - 1];
      TableCrcIsSerial(front);
      TableIsSerial(TableCrc(front), last);
      CrcConcat(0, Bits(front), Bits([last]));
      BitsOfLast(bytes);
    } else {
      NoBits(bytes);
    }
  }

  lemma NoBits(bytes: seq<bv8>)
    requires |bytes| == 0
    ensures Bits(bytes) == []
  {}

  lemma BitsOfLast(bytes: seq<bv8>)
    requires |bytes| > 0
    ensures Bits(bytes) == Bits(bytes[..|bytes| - 1]) + Bits([bytes[|bytes| - 1]])
  {
    hide BitAt;
    var front, last := Bits(bytes[..|bytes| - 1]), Bits([bytes[|bytes| - 1]]);
    forall i | 0 <= i < |Bits(bytes)|
      ensures Bits(bytes)[i] == (front + last)[i]
    {}
  }

  /** A trailing byte zeroes the CRC exactly when it is the CRC of what precedes it. */
  lemma CrcZeroIffTrailer(bytes: seq<bv8>, b: bv8)
    ensures TableCrc(bytes + [b]) == 0 <==> b == TableCrc(bytes)
  {
    hide DscrcTable;
    assert (bytes + [b])[..|bytes|] == bytes;
    OnlyZeroMapsToZero(TableCrc(bytes) ^ b);
  }

  lemma OnlyZeroMapsToZero(i: bv8)
    ensures DscrcTable(i) == 0 <==> i == 0
  {
    hide DscrcTable;
    TableIsShifted(i);
    ShiftedZero(i, 8);
  }

  lemma {:induction false} ShiftedZero(i: bv8, j: nat)
    ensures Shifted(i, j) == 0 <==> i == 0
  {
    if j > 0 {
      ShiftedZero(i, j - 1);
    }
  }

  /** A code a device may carry: CRC-consistent, with a nonzero family byte. */
  predicate Acceptable(code: Code) {
    Crc(0, code) == 0 && exists i | 0 <= i < 8 :: code[i]
  }

  /** The byte whose bits are `bits`. */
  function Pack(bits: seq<bool>): bv8
    requires |bits| == 8
  {
    (if bits[0] then 1 else 0) | (if bits[1] then 2 else 0) | (if bits[2] then 4 else 0) | (if bits[3] then 8 else 0) |
    (if bits[4] then 16 else 0) | (if bits[5] then 32 else 0) |
    (if bits[6] then 64 else 0) | (if bits[7] then 128 else 0)
  }

  lemma PackBits(bits: seq<bool>)
    requires |bits| == 8
    ensures Bits([Pack(bits)]) == bits
  {}

  /** Two CRC-consistent codes that agree on the first 56 bits are the same code. */
  lemma NoDifferenceInCrcByte(a: Code, b: Code)
    requires Crc(0, a) == Crc(0, b) == 0
    requires a[..56] == b[..56]
    ensures a == b
  {
    TrailerIsCrc(a);
    TrailerIsCrc(b);
    assert a[..56] + a[56..] == a && b[..56] + b[56..] == b;
  }

  lemma TrailerIsCrc(a: Code)
    requires Crc(0, a) == 0
    ensures a[56..] == Bits([Crc(0, a[..56])])
  {
    hide DscrcTable;
    PackBits(a[56..]);
    CrcConcat(0, a[..56], a[56..]);
    assert a == a[..56] + a[56..];
    TableIsSerial(Crc(0, a[..56]), Pack(a[56..]));
    OnlyZeroMapsToZero(Crc(0, a[..56]) ^ Pack(a[56..]));
  }
}
