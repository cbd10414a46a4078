/** A published test vector of the XTEA block cipher, cycle by cycle. */
module XteaVector {
  import opened Words
  import opened Xtea

  const KEY: seq<Word> := [0x00010203, 0x04050607, 0x08090A0B, 0x0C0D0E0F]
  const PLAIN := Block(0x41424344, 0x45464748)

  /** After `n` cycles of enciphering the test block is (a, b). */
  predicate After(n: nat, a: Word, b: Word) {
    Enciphered(KEY, PLAIN, n) == Block(a, b)
  }

  /** The term added to a word, from the other word `b`, the running sum and the key word `k`, is `s`. */
  predicate TermIs(b: Word, sum: Word, k: Word, s: Word) {
    Xor(Mix(b), Add(sum, k)) == s
  }

  /** A term in numbers: shifted left, shifted right, combined, `b` added; the sum with the key word; the result. */
  lemma Term(b: Word, sum: Word, k: Word, left: Word, right: Word, x: Word, m: Word, r: Word, s: Word)
    requires left == b * 16 % 0x1_0000_0000 && right == b / 32 && Xor(left, right) == x
    requires m == (x + b) % 0x1_0000_0000 && r == (sum + k) % 0x1_0000_0000 && Xor(m, r) == s
    ensures TermIs(b, sum, k, s)
  {
    hide Xor;
  }

  /** A cycle in numbers: (a, b) and (c, d) are the blocks before and after, `s` and `t` the terms added. */
  lemma NextCycle(n: nat, a: Word, b: Word, sum: Word, k: Word, s: Word, c: Word, next: Word, l: Word, t: Word, d: Word)
    requires After(n, a, b) && sum == 0x9E3779B9 * n % 0x1_0000_0000 && next == (sum + 0x9E3779B9) % 0x1_0000_0000
    requires k == KEY[sum % 4] && TermIs(b, sum, k, s) && c == (a + s) % 0x1_0000_0000
    requires l == KEY[next / 2048 % 4] && TermIs(c, next, l, t) && d == (b + t) % 0x1_0000_0000
    ensures After(n + 1, c, d)
  {
    hide Xor, Mix;
    assert Cycle(KEY, Block(a, b), Sum(n)) == Block(c, d);
  }

  lemma Cycles0()
    requires After(0, 0x41424344, 0x45464748)
    ensures After(4, 0xA3DE6C88, 0xF1E7792D)
  {
    hide After, TermIs, Xor;
    Xors0();
    Term(0x45464748, 0x00000000, 0x00010203, 0x54647480, 0x022A323A, 0x564E46BA, 0x9B948E02, 0x00010203, 0x9B958C01);
    Term(0xDCD7CF45, 0x9E3779B9, 0x0C0D0E0F, 0xCD7CF450, 0x06E6BE7A, 0xCB9A4A2A, 0xA872196F, 0xAA4487C8, 0x02369EA7);
    NextCycle(0, 0x41424344, 0x45464748, 0x00000000, 0x00010203, 0x9B958C01, 0xDCD7CF45,
              0x9E3779B9, 0x0C0D0E0F, 0x02369EA7, 0x477CE5EF);
    Term(0x477CE5EF, 0x9E3779B9, 0x04050607, 0x77CE5EF0, 0x023BE72F, 0x75F5B9DF, 0xBD729FCE, 0xA23C7FC0, 0x1F4EE00E);
    Term(0xFC26AF53, 0x3C6EF372, 0x08090A0B, 0xC26AF530, 0x07E1357A, 0xC58BC04A, 0xC1B26F9D, 0x4477FD7D, 0x85C592E0);
    NextCycle(1, 0xDCD7CF45, 0x477CE5EF, 0x9E3779B9, 0x04050607, 0x1F4EE00E, 0xFC26AF53,
              0x3C6EF372, 0x08090A0B, 0x85C592E0, 0xCD4278CF);
    Term(0xCD4278CF, 0x3C6EF372, 0x08090A0B, 0xD4278CF0, 0x066A13C6, 0xD24D9F36, 0x9F901805, 0x4477FD7D, 0xDBE7E578);
    Term(0xD80E94CB, 0xDAA66D2B, 0x04050607, 0x80E94CB0, 0x06C074A6, 0x86293816, 0x5E37CCE1, 0xDEAB7332, 0x809CBFD3);
    NextCycle(2, 0xFC26AF53, 0xCD4278CF, 0x3C6EF372, 0x08090A0B, 0xDBE7E578, 0xD80E94CB,
              0xDAA66D2B, 0x04050607, 0x809CBFD3, 0x4DDF38A2);
    Term(0x4DDF38A2, 0xDAA66D2B, 0x0C0D0E0F, 0xDDF38A20, 0x026EF9C5, 0xDF9D73E5, 0x2D7CAC87, 0xE6B37B3A, 0xCBCFD7BD);
    Term(0xA3DE6C88, 0x78DDE6E4, 0x00010203, 0x3DE6C880, 0x051EF364, 0x38F83BE4, 0xDCD6A86C, 0x78DEE8E7, 0xA408408B);
    NextCycle(3, 0xD80E94CB, 0x4DDF38A2, 0xDAA66D2B, 0x0C0D0E0F, 0xCBCFD7BD, 0xA3DE6C88,
              0x78DDE6E4, 0x00010203, 0xA408408B, 0xF1E7792D);
  }

  lemma Xors0()
    ensures Xor(0x54647480, 0x022A323A) == 0x564E46BA
    ensures Xor(0x9B948E02, 0x00010203) == 0x9B958C01
    ensures Xor(0xCD7CF450, 0x06E6BE7A) == 0xCB9A4A2A
    ensures Xor(0xA872196F, 0xAA4487C8) == 0x02369EA7
    ensures Xor(0x77CE5EF0, 0x023BE72F) == 0x75F5B9DF
    ensures Xor(0xBD729FCE, 0xA23C7FC0) == 0x1F4EE00E
    ensures Xor(0xC26AF530, 0x07E1357A) == 0xC58BC04A
    ensures Xor(0xC1B26F9D, 0x4477FD7D) == 0x85C592E0
    ensures Xor(0xD4278CF0, 0x066A13C6) == 0xD24D9F36
    ensures Xor(0x9F901805, 0x4477FD7D) == 0xDBE7E578
    ensures Xor(0x80E94CB0, 0x06C074A6) == 0x86293816
    ensures Xor(0x5E37CCE1, 0xDEAB7332) == 0x809CBFD3
    ensures Xor(0xDDF38A20, 0x026EF9C5) == 0xDF9D73E5
    ensures Xor(0x2D7CAC87, 0xE6B37B3A) == 0xCBCFD7BD
    ensures Xor(0x3DE6C880, 0x051EF364) == 0x38F83BE4
    ensures Xor(0xDCD6A86C, 0x78DEE8E7) == 0xA408408B
  {}

  lemma Cycles4()
    requires After(4, 0xA3DE6C88, 0xF1E7792D)
    ensures After(8, 0x8F65016F, 0xCE368FE5)
  {
    hide After, TermIs, Xor;
    Xors4();
    Term(0xF1E7792D, 0x78DDE6E4, 0x00010203, 0x1E7792D0, 0x078F3BC9, 0x19F8A919, 0x0BE02246, 0x78DEE8E7, 0x733ECAA1);
    Term(0x171D3729, 0x1715609D, 0x00010203, 0x71D37290, 0x00B8E9B9, 0x716B9B29, 0x8888D252, 0x171662A0, 0x9F9EB0F2);
    NextCycle(4, 0xA3DE6C88, 0xF1E7792D, 0x78DDE6E4, 0x00010203, 0x733ECAA1, 0x171D3729,
              0x1715609D, 0x00010203, 0x9F9EB0F2, 0x91862A1F);
    Term(0x91862A1F, 0x1715609D, 0x04050607, 0x1862A1F0, 0x048C3150, 0x1CEE90A0, 0xAE74BABF, 0x1B1A66A4, 0xB56EDC1B);
    Term(0xCC8C1344, 0xB54CDA56, 0x0C0D0E0F, 0xC8C13440, 0x0664609A, 0xCEA554DA, 0x9B31681E, 0xC159E865, 0x5A68807B);
    NextCycle(5, 0x171D3729, 0x91862A1F, 0x1715609D, 0x04050607, 0xB56EDC1B, 0xCC8C1344,
              0xB54CDA56, 0x0C0D0E0F, 0x5A68807B, 0xEBEEAA9A);
    Term(0xEBEEAA9A, 0xB54CDA56, 0x08090A0B, 0xBEEAA9A0, 0x075F7554, 0xB9B5DCF4, 0xA5A4878E, 0xBD55E461, 0x18F163EF);
    Term(0xE57D7733, 0x5384540F, 0x08090A0B, 0x57D77330, 0x072BEBB9, 0x50FC9889, 0x367A0FBC, 0x5B8D5E1A, 0x6DF751A6);
    NextCycle(6, 0xCC8C1344, 0xEBEEAA9A, 0xB54CDA56, 0x08090A0B, 0x18F163EF, 0xE57D7733,
              0x5384540F, 0x08090A0B, 0x6DF751A6, 0x59E5FC40);
    Term(0x59E5FC40, 0x5384540F, 0x0C0D0E0F, 0x9E5FC400, 0x02CF2FE2, 0x9C90EBE2, 0xF676E822, 0x5F91621E, 0xA9E78A3C);
    Term(0x8F65016F, 0xF1BBCDC8, 0x04050607, 0xF65016F0, 0x047B280B, 0xF22B3EFB, 0x8190406A, 0xF5C0D3CF, 0x745093A5);
    NextCycle(7, 0xE57D7733, 0x59E5FC40, 0x5384540F, 0x0C0D0E0F, 0xA9E78A3C, 0x8F65016F,
              0xF1BBCDC8, 0x04050607, 0x745093A5, 0xCE368FE5);
  }

  lemma Xors4()
    ensures Xor(0x1E7792D0, 0x078F3BC9) == 0x19F8A919
    ensures Xor(0x0BE02246, 0x78DEE8E7) == 0x733ECAA1
    ensures Xor(0x71D37290, 0x00B8E9B9) == 0x716B9B29
    ensures Xor(0x8888D252, 0x171662A0) == 0x9F9EB0F2
    ensures Xor(0x1862A1F0, 0x048C3150) == 0x1CEE90A0
    ensures Xor(0xAE74BABF, 0x1B1A66A4) == 0xB56EDC1B
    ensures Xor(0xC8C13440, 0x0664609A) == 0xCEA554DA
    ensures Xor(0x9B31681E, 0xC159E865) == 0x5A68807B
    ensures Xor(0xBEEAA9A0, 0x075F7554) == 0xB9B5DCF4
    ensures Xor(0xA5A4878E, 0xBD55E461) == 0x18F163EF
    ensures Xor(0x57D77330, 0x072BEBB9) == 0x50FC9889
    ensures Xor(0x367A0FBC, 0x5B8D5E1A) == 0x6DF751A6
    ensures Xor(0x9E5FC400, 0x02CF2FE2) == 0x9C90EBE2
    ensures Xor(0xF676E822, 0x5F91621E) == 0xA9E78A3C
    ensures Xor(0xF65016F0, 0x047B280B) == 0xF22B3EFB
    ensures Xor(0x8190406A, 0xF5C0D3CF) == 0x745093A5
  {}

  lemma Cycles8()
    requires After(8, 0x8F65016F, 0xCE368FE5)
    ensures After(12, 0xEB8E9954, 0x24E5DFEF)
  {
    hide After, TermIs, Xor;
    Xors8();
    Term(0xCE368FE5, 0xF1BBCDC8, 0x00010203, 0xE368FE50, 0x0671B47F, 0xE5194A2F, 0xB34FDA14, 0xF1BCCFCB, 0x42F315DF);
    Term(0xD258174E, 0x8FF34781, 0x00010203, 0x258174E0, 0x0692C0BA, 0x2313B45A, 0xF56BCBA8, 0x8FF44984, 0x7A9F822C);
    NextCycle(8, 0x8F65016F, 0xCE368FE5, 0xF1BBCDC8, 0x00010203, 0x42F315DF, 0xD258174E,
              0x8FF34781, 0x00010203, 0x7A9F822C, 0x48D61211);
    Term(0x48D61211, 0x8FF34781, 0x04050607, 0x8D612110, 0x0246B090, 0x8F279180, 0xD7FDA391, 0x93F84D88, 0x4405EE19);
    Term(0x165E0567, 0x2E2AC13A, 0x00010203, 0x65E05670, 0x00B2F02B, 0x6552A65B, 0x7BB0ABC2, 0x2E2BC33D, 0x559B68FF);
    NextCycle(9, 0xD258174E, 0x48D61211, 0x8FF34781, 0x04050607, 0x4405EE19, 0x165E0567,
              0x2E2AC13A, 0x00010203, 0x559B68FF, 0x9E717B10);
    Term(0x9E717B10, 0x2E2AC13A, 0x08090A0B, 0xE717B100, 0x04F38BD8, 0xE3E43AD8, 0x8255B5E8, 0x3633CB45, 0xB4667EAD);
    Term(0xCAC48414, 0xCC623AF3, 0x0C0D0E0F, 0xAC484140, 0x06562420, 0xAA1E6560, 0x74E2E974, 0xD86F4902, 0xAC8DA076);
    NextCycle(10, 0x165E0567, 0x9E717B10, 0x2E2AC13A, 0x08090A0B, 0xB4667EAD, 0xCAC48414,
              0xCC623AF3, 0x0C0D0E0F, 0xAC8DA076, 0x4AFF1B86);
    Term(0x4AFF1B86, 0xCC623AF3, 0x0C0D0E0F, 0xAFF1B860, 0x0257F8DC, 0xADA640BC, 0xF8A55C42, 0xD86F4902, 0x20CA1540);
    Term(0xEB8E9954, 0x6A99B4AC, 0x08090A0B, 0xB8E99540, 0x075C74CA, 0xBFB5E18A, 0xAB447ADE, 0x72A2BEB7, 0xD9E6C469);
    NextCycle(11, 0xCAC48414, 0x4AFF1B86, 0xCC623AF3, 0x0C0D0E0F, 0x20CA1540, 0xEB8E9954,
              0x6A99B4AC, 0x08090A0B, 0xD9E6C469, 0x24E5DFEF);
  }

  lemma Xors8()
    ensures Xor(0xE368FE50, 0x0671B47F) == 0xE5194A2F
    ensures Xor(0xB34FDA14, 0xF1BCCFCB) == 0x42F315DF
    ensures Xor(0x258174E0, 0x0692C0BA) == 0x2313B45A
    ensures Xor(0xF56BCBA8, 0x8FF44984) == 0x7A9F822C
    ensures Xor(0x8D612110, 0x0246B090) == 0x8F279180
    ensures Xor(0xD7FDA391, 0x93F84D88) == 0x4405EE19
    ensures Xor(0x65E05670, 0x00B2F02B) == 0x6552A65B
    ensures Xor(0x7BB0ABC2, 0x2E2BC33D) == 0x559B68FF
    ensures Xor(0xE717B100, 0x04F38BD8) == 0xE3E43AD8
    ensures Xor(0x8255B5E8, 0x3633CB45) == 0xB4667EAD
    ensures Xor(0xAC484140, 0x06562420) == 0xAA1E6560
    ensures Xor(0x74E2E974, 0xD86F4902) == 0xAC8DA076
    ensures Xor(0xAFF1B860, 0x0257F8DC) == 0xADA640BC
    ensures Xor(0xF8A55C42, 0xD86F4902) == 0x20CA1540
    ensures Xor(0xB8E99540, 0x075C74CA) == 0xBFB5E18A
    ensures Xor(0xAB447ADE, 0x72A2BEB7) == 0xD9E6C469
  {}

  lemma Cycles12()
    requires After(12, 0xEB8E9954, 0x24E5DFEF)
    ensures After(16, 0xDEA0B0B4, 0x0966B066)
  {
    hide After, TermIs, Xor;
    Xors12();
    Term(0x24E5DFEF, 0x6A99B4AC, 0x00010203, 0x4E5DFEF0, 0x01272EFF, 0x4F7AD00F, 0x7460AFFE, 0x6A9AB6AF, 0x1EFA1951);
    Term(0x0A88B2A5, 0x08D12E65, 0x04050607, 0xA88B2A50, 0x00544595, 0xA8DF6FC5, 0xB368226A, 0x0CD6346C, 0xBFBE1606);
    NextCycle(12, 0xEB8E9954, 0x24E5DFEF, 0x6A99B4AC, 0x00010203, 0x1EFA1951, 0x0A88B2A5,
              0x08D12E65, 0x04050607, 0xBFBE1606, 0xE4A3F5F5);
    Term(0xE4A3F5F5, 0x08D12E65, 0x04050607, 0x4A3F5F50, 0x07251FAF, 0x4D1A40FF, 0x31BE36F4, 0x0CD6346C, 0x3D680298);
    Term(0x47F0B53D, 0xA708A81E, 0x04050607, 0x7F0B53D0, 0x023F85A9, 0x7D34D679, 0xC5258BB6, 0xAB0DAE25, 0x6E282593);
    NextCycle(13, 0x0A88B2A5, 0xE4A3F5F5, 0x08D12E65, 0x04050607, 0x3D680298, 0x47F0B53D,
              0xA708A81E, 0x04050607, 0x6E282593, 0x52CC1B88);
    Term(0x52CC1B88, 0xA708A81E, 0x08090A0B, 0x2CC1B880, 0x029660DC, 0x2E57D85C, 0x8123F3E4, 0xAF11B229, 0x2E3241CD);
    Term(0x7622F70A, 0x454021D7, 0x00010203, 0x622F70A0, 0x03B117B8, 0x619E6718, 0xD7C15E22, 0x454123DA, 0x92807DF8);
    NextCycle(14, 0x47F0B53D, 0x52CC1B88, 0xA708A81E, 0x08090A0B, 0x2E3241CD, 0x7622F70A,
              0x454021D7, 0x00010203, 0x92807DF8, 0xE54C9980);
    Term(0xE54C9980, 0x454021D7, 0x0C0D0E0F, 0x54C99800, 0x072A64CC, 0x53E3FCCC, 0x3930964C, 0x514D2FE6, 0x687DB9AA);
    Term(0xDEA0B0B4, 0xE3779B90, 0x0C0D0E0F, 0xEA0B0B40, 0x06F50585, 0xECFE0EC5, 0xCB9EBF79, 0xEF84A99F, 0x241A16E6);
    NextCycle(15, 0x7622F70A, 0xE54C9980, 0x454021D7, 0x0C0D0E0F, 0x687DB9AA, 0xDEA0B0B4,
              0xE3779B90, 0x0C0D0E0F, 0x241A16E6, 0x0966B066);
  }

  lemma Xors12()
    ensures Xor(0x4E5DFEF0, 0x01272EFF) == 0x4F7AD00F
    ensures Xor(0x7460AFFE, 0x6A9AB6AF) == 0x1EFA1951
    ensures Xor(0xA88B2A50, 0x00544595) == 0xA8DF6FC5
    ensures Xor(0xB368226A, 0x0CD6346C) == 0xBFBE1606
    ensures Xor(0x4A3F5F50, 0x07251FAF) == 0x4D1A40FF
    ensures Xor(0x31BE36F4, 0x0CD6346C) == 0x3D680298
    ensures Xor(0x7F0B53D0, 0x023F85A9) == 0x7D34D679
    ensures Xor(0xC5258BB6, 0xAB0DAE25) == 0x6E282593
    ensures Xor(0x2CC1B880, 0x029660DC) == 0x2E57D85C
    ensures Xor(0x8123F3E4, 0xAF11B229) == 0x2E3241CD
    ensures Xor(0x622F70A0, 0x03B117B8) == 0x619E6718
    ensures Xor(0xD7C15E22, 0x454123DA) == 0x92807DF8
    ensures Xor(0x54C99800, 0x072A64CC) == 0x53E3FCCC
    ensures Xor(0x3930964C, 0x514D2FE6) == 0x687DB9AA
    ensures Xor(0xEA0B0B40, 0x06F50585) == 0xECFE0EC5
    ensures Xor(0xCB9EBF79, 0xEF84A99F) == 0x241A16E6
  {}

  lemma Cycles16()
    requires After(16, 0xDEA0B0B4, 0x0966B066)
    ensures After(20, 0x97856208, 0x1099631C)
  {
    hide After, TermIs, Xor;
    Xors16();
    Term(0x0966B066, 0xE3779B90, 0x00010203, 0x966B0660, 0x004B3583, 0x962033E3, 0x9F86E449, 0xE3789D93, 0x7CFE79DA);
    Term(0x5B9F2A8E, 0x81AF1549, 0x08090A0B, 0xB9F2A8E0, 0x02DCF954, 0xBB2E51B4, 0x16CD7C42, 0x89B81F54, 0x9F756316);
    NextCycle(16, 0xDEA0B0B4, 0x0966B066, 0xE3779B90, 0x00010203, 0x7CFE79DA, 0x5B9F2A8E,
              0x81AF1549, 0x08090A0B, 0x9F756316, 0xA8DC137C);
    Term(0xA8DC137C, 0x81AF1549, 0x04050607, 0x8DC137C0, 0x0546E09B, 0x8887D75B, 0x3163EAD7, 0x85B41B50, 0xB4D7F187);
    Term(0x10771C15, 0x1FE68F02, 0x04050607, 0x0771C150, 0x0083B8E0, 0x07F279B0, 0x186995C5, 0x23EB9509, 0x3B8200CC);
    NextCycle(17, 0x5B9F2A8E, 0xA8DC137C, 0x81AF1549, 0x04050607, 0xB4D7F187, 0x10771C15,
              0x1FE68F02, 0x04050607, 0x3B8200CC, 0xE45E1448);
    Term(0xE45E1448, 0x1FE68F02, 0x08090A0B, 0x45E14480, 0x0722F0A2, 0x42C3B422, 0x2721C86A, 0x27EF990D, 0x00CE5167);
    Term(0x11456D7C, 0xBE1E08BB, 0x04050607, 0x1456D7C0, 0x008A2B6B, 0x14DCFCAB, 0x26226A27, 0xC2230EC2, 0xE40164E5);
    NextCycle(18, 0x10771C15, 0xE45E1448, 0x1FE68F02, 0x08090A0B, 0x00CE5167, 0x11456D7C,
              0xBE1E08BB, 0x04050607, 0xE40164E5, 0xC85F792D);
    Term(0xC85F792D, 0xBE1E08BB, 0x0C0D0E0F, 0x85F792D0, 0x0642FBC9, 0x83B56919, 0x4C14E246, 0xCA2B16CA, 0x863FF48C);
    Term(0x97856208, 0x5C558274, 0x00010203, 0x78562080, 0x04BC2B10, 0x7CEA0B90, 0x146F6D98, 0x5C568477, 0x4839E9EF);
    NextCycle(19, 0x11456D7C, 0xC85F792D, 0xBE1E08BB, 0x0C0D0E0F, 0x863FF48C, 0x97856208,
              0x5C558274, 0x00010203, 0x4839E9EF, 0x1099631C);
  }

  lemma Xors16()
    ensures Xor(0x966B0660, 0x004B3583) == 0x962033E3
    ensures Xor(0x9F86E449, 0xE3789D93) == 0x7CFE79DA
    ensures Xor(0xB9F2A8E0, 0x02DCF954) == 0xBB2E51B4
    ensures Xor(0x16CD7C42, 0x89B81F54) == 0x9F756316
    ensures Xor(0x8DC137C0, 0x0546E09B) == 0x8887D75B
    ensures Xor(0x3163EAD7, 0x85B41B50) == 0xB4D7F187
    ensures Xor(0x0771C150, 0x0083B8E0) == 0x07F279B0
    ensures Xor(0x186995C5, 0x23EB9509) == 0x3B8200CC
    ensures Xor(0x45E14480, 0x0722F0A2) == 0x42C3B422
    ensures Xor(0x2721C86A, 0x27EF990D) == 0x00CE5167
    ensures Xor(0x1456D7C0, 0x008A2B6B) == 0x14DCFCAB
    ensures Xor(0x26226A27, 0xC2230EC2) == 0xE40164E5
    ensures Xor(0x85F792D0, 0x0642FBC9) == 0x83B56919
    ensures Xor(0x4C14E246, 0xCA2B16CA) == 0x863FF48C
    ensures Xor(0x78562080, 0x04BC2B10) == 0x7CEA0B90
    ensures Xor(0x146F6D98, 0x5C568477) == 0x4839E9EF
  {}

  lemma Cycles20()
    requires After(20, 0x97856208, 0x1099631C)
    ensures After(24, 0xC1CDCCFE, 0x6F593666)
  {
    hide After, TermIs, Xor;
    Xors20();
    Term(0x1099631C, 0x5C558274, 0x00010203, 0x099631C0, 0x0084CB18, 0x0912FAD8, 0x19AC5DF4, 0x5C568477, 0x45FAD983);
    Term(0xDD803B8B, 0xFA8CFC2D, 0x0C0D0E0F, 0xD803B8B0, 0x06EC01DC, 0xDEEFB96C, 0xBC6FF4F7, 0x069A0A3C, 0xBAF5FECB);
    NextCycle(20, 0x97856208, 0x1099631C, 0x5C558274, 0x00010203, 0x45FAD983, 0xDD803B8B,
              0xFA8CFC2D, 0x0C0D0E0F, 0xBAF5FECB, 0xCB8F61E7);
    Term(0xCB8F61E7, 0xFA8CFC2D, 0x04050607, 0xB8F61E70, 0x065C7B0F, 0xBEAA657F, 0x8A39C766, 0xFE920234, 0x74ABC552);
    Term(0x522C00DD, 0x98C475E6, 0x08090A0B, 0x22C00DD0, 0x02916006, 0x20516DD6, 0x727D6EB3, 0xA0CD7FF1, 0xD2B01142);
    NextCycle(21, 0xDD803B8B, 0xCB8F61E7, 0xFA8CFC2D, 0x04050607, 0x74ABC552, 0x522C00DD,
              0x98C475E6, 0x08090A0B, 0xD2B01142, 0x9E3F7329);
    Term(0x9E3F7329, 0x98C475E6, 0x08090A0B, 0xE3F73290, 0x04F1FB99, 0xE706C909, 0x85463C32, 0xA0CD7FF1, 0x258B43C3);
    Term(0x77B744A0, 0x36FBEF9F, 0x04050607, 0x7B744A00, 0x03BDBA25, 0x78C9F025, 0xF08134C5, 0x3B00F5A6, 0xCB81C163);
    NextCycle(22, 0x522C00DD, 0x9E3F7329, 0x98C475E6, 0x08090A0B, 0x258B43C3, 0x77B744A0,
              0x36FBEF9F, 0x04050607, 0xCB81C163, 0x69C1348C);
    Term(0x69C1348C, 0x36FBEF9F, 0x0C0D0E0F, 0x9C1348C0, 0x034E09A4, 0x9F5D4164, 0x091E75F0, 0x4308FDAE, 0x4A16885E);
    Term(0xC1CDCCFE, 0xD5336958, 0x04050607, 0x1CDCCFE0, 0x060E6E67, 0x1AD2A187, 0xDCA06E85, 0xD9386F5F, 0x059801DA);
    NextCycle(23, 0x77B744A0, 0x69C1348C, 0x36FBEF9F, 0x0C0D0E0F, 0x4A16885E, 0xC1CDCCFE,
              0xD5336958, 0x04050607, 0x059801DA, 0x6F593666);
  }

  lemma Xors20()
    ensures Xor(0x099631C0, 0x0084CB18) == 0x0912FAD8
    ensures Xor(0x19AC5DF4, 0x5C568477) == 0x45FAD983
    ensures Xor(0xD803B8B0, 0x06EC01DC) == 0xDEEFB96C
    ensures Xor(0xBC6FF4F7, 0x069A0A3C) == 0xBAF5FECB
    ensures Xor(0xB8F61E70, 0x065C7B0F) == 0xBEAA657F
    ensures Xor(0x8A39C766, 0xFE920234) == 0x74ABC552
    ensures Xor(0x22C00DD0, 0x02916006) == 0x20516DD6
    ensures Xor(0x727D6EB3, 0xA0CD7FF1) == 0xD2B01142
    ensures Xor(0xE3F73290, 0x04F1FB99) == 0xE706C909
    ensures Xor(0x85463C32, 0xA0CD7FF1) == 0x258B43C3
    ensures Xor(0x7B744A00, 0x03BDBA25) == 0x78C9F025
    ensures Xor(0xF08134C5, 0x3B00F5A6) == 0xCB81C163
    ensures Xor(0x9C1348C0, 0x034E09A4) == 0x9F5D4164
    ensures Xor(0x091E75F0, 0x4308FDAE) == 0x4A16885E
    ensures Xor(0x1CDCCFE0, 0x060E6E67) == 0x1AD2A187
    ensures Xor(0xDCA06E85, 0xD9386F5F) == 0x059801DA
  {}

  lemma Cycles24()
    requires After(24, 0xC1CDCCFE, 0x6F593666)
    ensures After(28, 0xC471004F, 0x5097C822)
  {
    hide After, TermIs, Xor;
    Xors24();
    Term(0x6F593666, 0xD5336958, 0x00010203, 0xF5936660, 0x037AC9B3, 0xF6E9AFD3, 0x6642E639, 0xD5346B5B, 0xB3768D62);
    Term(0x75445A60, 0x736AE311, 0x00010203, 0x5445A600, 0x03AA22D3, 0x57EF84D3, 0xCD33DF33, 0x736BE514, 0xBE583A27);
    NextCycle(24, 0xC1CDCCFE, 0x6F593666, 0xD5336958, 0x00010203, 0xB3768D62, 0x75445A60,
              0x736AE311, 0x00010203, 0xBE583A27, 0x2DB1708D);
    Term(0x2DB1708D, 0x736AE311, 0x04050607, 0xDB1708D0, 0x016D8B84, 0xDA7A8354, 0x082BF3E1, 0x776FE918, 0x7F441AF9);
    Term(0xF4887559, 0x11A25CCA, 0x0C0D0E0F, 0x48875590, 0x07A443AA, 0x4F23163A, 0x43AB8B93, 0x1DAF6AD9, 0x5E04E14A);
    NextCycle(25, 0x75445A60, 0x2DB1708D, 0x736AE311, 0x04050607, 0x7F441AF9, 0xF4887559,
              0x11A25CCA, 0x0C0D0E0F, 0x5E04E14A, 0x8BB651D7);
    Term(0x8BB651D7, 0x11A25CCA, 0x08090A0B, 0xBB651D70, 0x045DB28E, 0xBF38AFFE, 0x4AEF01D5, 0x19AB66D5, 0x53446700);
    Term(0x47CCDC59, 0xAFD9D683, 0x08090A0B, 0x7CCDC590, 0x023E66E2, 0x7EF3A372, 0xC6C07FCB, 0xB7E2E08E, 0x71229F45);
    NextCycle(26, 0xF4887559, 0x8BB651D7, 0x11A25CCA, 0x08090A0B, 0x53446700, 0x47CCDC59,
              0xAFD9D683, 0x08090A0B, 0x71229F45, 0xFCD8F11C);
    Term(0xFCD8F11C, 0xAFD9D683, 0x0C0D0E0F, 0xCD8F11C0, 0x07E6C788, 0xCA69D648, 0xC742C764, 0xBBE6E492, 0x7CA423F6);
    Term(0xC471004F, 0x4E11503C, 0x08090A0B, 0x471004F0, 0x06238802, 0x41338CF2, 0x05A48D41, 0x561A5A47, 0x53BED706);
    NextCycle(27, 0x47CCDC59, 0xFCD8F11C, 0xAFD9D683, 0x0C0D0E0F, 0x7CA423F6, 0xC471004F,
              0x4E11503C, 0x08090A0B, 0x53BED706, 0x5097C822);
  }

  lemma Xors24()
    ensures Xor(0xF5936660, 0x037AC9B3) == 0xF6E9AFD3
    ensures Xor(0x6642E639, 0xD5346B5B) == 0xB3768D62
    ensures Xor(0x5445A600, 0x03AA22D3) == 0x57EF84D3
    ensures Xor(0xCD33DF33, 0x736BE514) == 0xBE583A27
    ensures Xor(0xDB1708D0, 0x016D8B84) == 0xDA7A8354
    ensures Xor(0x082BF3E1, 0x776FE918) == 0x7F441AF9
    ensures Xor(0x48875590, 0x07A443AA) == 0x4F23163A
    ensures Xor(0x43AB8B93, 0x1DAF6AD9) == 0x5E04E14A
    ensures Xor(0xBB651D70, 0x045DB28E) == 0xBF38AFFE
    ensures Xor(0x4AEF01D5, 0x19AB66D5) == 0x53446700
    ensures Xor(0x7CCDC590, 0x023E66E2) == 0x7EF3A372
    ensures Xor(0xC6C07FCB, 0xB7E2E08E) == 0x71229F45
    ensures Xor(0xCD8F11C0, 0x07E6C788) == 0xCA69D648
    ensures Xor(0xC742C764, 0xBBE6E492) == 0x7CA423F6
    ensures Xor(0x471004F0, 0x06238802) == 0x41338CF2
    ensures Xor(0x05A48D41, 0x561A5A47) == 0x53BED706
  {}

  lemma Cycles28()
    requires After(28, 0xC471004F, 0x5097C822)
    ensures After(32, 0x497DF3D0, 0x72612CB5)
  {
    hide After, TermIs, Xor;
    Xors28();
    Term(0x5097C822, 0x4E11503C, 0x00010203, 0x097C8220, 0x0284BE41, 0x0BF83C61, 0x5C900483, 0x4E12523F, 0x128256BC);
    Term(0xD6F3570B, 0xEC48C9F5, 0x04050607, 0x6F3570B0, 0x06B79AB8, 0x6982EA08, 0x40764113, 0xF04DCFFC, 0xB03B8EEF);
    NextCycle(28, 0xC471004F, 0x5097C822, 0x4E11503C, 0x00010203, 0x128256BC, 0xD6F3570B,
              0xEC48C9F5, 0x04050607, 0xB03B8EEF, 0x00D35711);
    Term(0x00D35711, 0xEC48C9F5, 0x04050607, 0x0D357110, 0x00069AB8, 0x0D33EBA8, 0x0E0742B9, 0xF04DCFFC, 0xFE4A8D45);
    Term(0xD53DE450, 0x8A8043AE, 0x00010203, 0x53DE4500, 0x06A9EF22, 0x5577AA22, 0x2AB58E72, 0x8A8145B1, 0xA034CBC3);
    NextCycle(29, 0xD6F3570B, 0x00D35711, 0xEC48C9F5, 0x04050607, 0xFE4A8D45, 0xD53DE450,
              0x8A8043AE, 0x00010203, 0xA034CBC3, 0xA10822D4);
    Term(0xA10822D4, 0x8A8043AE, 0x08090A0B, 0x10822D40, 0x05084116, 0x158A6C56, 0xB6928F2A, 0x92894DB9, 0x241BC293);
    Term(0xF959A6E3, 0x28B7BD67, 0x0C0D0E0F, 0x959A6E30, 0x07CACD37, 0x9250A307, 0x8BAA49EA, 0x34C4CB76, 0xBF6E829C);
    NextCycle(30, 0xD53DE450, 0xA10822D4, 0x8A8043AE, 0x08090A0B, 0x241BC293, 0xF959A6E3,
              0x28B7BD67, 0x0C0D0E0F, 0xBF6E829C, 0x6076A570);
    Term(0x6076A570, 0x28B7BD67, 0x0C0D0E0F, 0x076A5700, 0x0303B52B, 0x0469E22B, 0x64E0879B, 0x34C4CB76, 0x50244CED);
    Term(0x497DF3D0, 0xC6EF3720, 0x08090A0B, 0x97DF3D00, 0x024BEF9E, 0x9594D29E, 0xDF12C66E, 0xCEF8412B, 0x11EA8745);
    NextCycle(31, 0xF959A6E3, 0x6076A570, 0x28B7BD67, 0x0C0D0E0F, 0x50244CED, 0x497DF3D0,
              0xC6EF3720, 0x08090A0B, 0x11EA8745, 0x72612CB5);
  }

  lemma Xors28()
    ensures Xor(0x097C8220, 0x0284BE41) == 0x0BF83C61
    ensures Xor(0x5C900483, 0x4E12523F) == 0x128256BC
    ensures Xor(0x6F3570B0, 0x06B79AB8) == 0x6982EA08
    ensures Xor(0x40764113, 0xF04DCFFC) == 0xB03B8EEF
    ensures Xor(0x0D357110, 0x00069AB8) == 0x0D33EBA8
    ensures Xor(0x0E0742B9, 0xF04DCFFC) == 0xFE4A8D45
    ensures Xor(0x53DE4500, 0x06A9EF22) == 0x5577AA22
    ensures Xor(0x2AB58E72, 0x8A8145B1) == 0xA034CBC3
    ensures Xor(0x10822D40, 0x05084116) == 0x158A6C56
    ensures Xor(0xB6928F2A, 0x92894DB9) == 0x241BC293
    ensures Xor(0x959A6E30, 0x07CACD37) == 0x9250A307
    ensures Xor(0x8BAA49EA, 0x34C4CB76) == 0xBF6E829C
    ensures Xor(0x076A5700, 0x0303B52B) == 0x0469E22B
    ensures Xor(0x64E0879B, 0x34C4CB76) == 0x50244CED
    ensures Xor(0x97DF3D00, 0x024BEF9E) == 0x9594D29E
    ensures Xor(0xDF12C66E, 0xCEF8412B) == 0x11EA8745
  {}

  /** The key 00010203 04050607 08090A0B 0C0D0E0F takes the block 41424344 45464748 in 32 cycles to
      497DF3D0 72612CB5. */
  lemma TestVector()
    ensures Enciphered([0x00010203, 0x04050607, 0x08090A0B, 0x0C0D0E0F], Block(0x41424344, 0x45464748), 32)
            == Block(0x497DF3D0, 0x72612CB5)
  {
    assert After(0, 0x41424344, 0x45464748);
    hide After;
    Cycles0();
    Cycles4();
    Cycles8();
    Cycles12();
    Cycles16();
    Cycles20();
    Cycles24();
    Cycles28();
    KnownAnswer();
  }

  lemma KnownAnswer()
    requires After(32, 0x497DF3D0, 0x72612CB5)
    ensures Enciphered([0x00010203, 0x04050607, 0x08090A0B, 0x0C0D0E0F], Block(0x41424344, 0x45464748), 32)
            == Block(0x497DF3D0, 0x72612CB5)
  {
    hide Enciphered;
  }
}
