/**
 * CRC-32 as in section 8 of RFC 1952: the reflected shift register with polynomial 0xEDB88320, fed one
 * bit at a time, and the loop that feeds it a byte at a time through a table.
 */
module Crc {
  import opened Messages
  import opened Frames
  import Memory

  const POLYNOMIAL: bv32 := 0xEDB88320

  // ---- Words ----

  function Low(a: bv32): bool {
    a & 1 == 1
  }

  function Half(a: bv32): bv32 {
    a >> 1
  }

  function Xor(a: bv32, b: bv32): bv32 {
    a ^ b
  }

  function LowByte(a: bv32): bv8 {
    (a & 0xFF) as bv8
  }

  function Above(a: bv32): bv32 {
    a >> 8
  }

  lemma {:induction false} LowXor(a: bv32, b: bv32)
    ensures Low(Xor(a, b)) == (Low(a) != Low(b))
  {
    assert (a ^ b) & 1 == (a & 1) ^ (b & 1);
    LowIs(a);
    LowIs(b);
  }

  lemma {:induction false} LowIs(a: bv32)
    ensures a & 1 == 0 || a & 1 == 1
  {
  }

  lemma {:induction false} HalfXor(a: bv32, b: bv32)
    ensures Half(Xor(a, b)) == Xor(Half(a), Half(b))
  {
  }

  lemma {:induction false} XorSwap(a: bv32, b: bv32, p: bv32)
    ensures Xor(Xor(a, b), p) == Xor(Xor(a, p), b)
  {
    XorAssociates(a, b, p);
    XorAssociates(a, p, b);
    XorCommutes(b, p);
    hide Xor;
  }

  lemma {:induction false} XorAssociates(a: bv32, b: bv32, p: bv32)
    ensures Xor(Xor(a, b), p) == Xor(a, Xor(b, p))
  {
  }

  lemma {:induction false} XorCommutes(a: bv32, b: bv32)
    ensures Xor(a, b) == Xor(b, a)
  {
  }

  lemma {:induction false} XorTwice(a: bv32, b: bv32)
    ensures Xor(Xor(a, b), b) == a && Xor(a, b) == Xor(b, a)
  {
  }

  // ---- The shift register ----

  /** One step of the register on a message bit. */
  function Shift(c: bv32, bit: bool): bv32 {
    if Low(c) != bit then Xor(Half(c), POLYNOMIAL) else Half(c)
  }

  function Serial(c: bv32, bits: seq<bool>): bv32
    decreases |bits|
  {
    if bits == [] then c else Serial(Shift(c, bits[0]), bits[1..])
  }

  /** Part of the register can be fed as message bits instead. */
  lemma {:induction false} ShiftXor(c: bv32, bit: bool, x: bv32)
    ensures Shift(Xor(c, x), bit) == Xor(Shift(c, bit != Low(x)), Half(x))
  {
    hide Low, Half, Xor;
    LowXor(c, x);
    HalfXor(c, x);
    XorSwap(Half(c), Half(x), POLYNOMIAL);
  }

  /** The register forgets nothing: a step is injective. */
  lemma {:induction false} ShiftInjective(c: bv32, d: bv32, bit: bool)
    requires Shift(c, bit) == Shift(d, bit)
    ensures c == d
  {
  }

  lemma {:induction false} SerialInjective(c: bv32, d: bv32, bits: seq<bool>)
    requires Serial(c, bits) == Serial(d, bits)
    ensures c == d
    decreases |bits|
  {
    hide Shift;
    if bits != [] {
      SerialInjective(Shift(c, bits[0]), Shift(d, bits[0]), bits[1..]);
      ShiftInjective(c, d, bits[0]);
    }
  }

  lemma {:induction false} SerialConcat(c: bv32, a: seq<bool>, b: seq<bool>)
    ensures Serial(c, a + b) == Serial(Serial(c, a), b)
    decreases |a|
  {
    hide Shift;
    if a == [] {
      assert a + b == b;
    } else {
      assert (a + b)[1..] == a[1..] + b;
      SerialConcat(Shift(c, a[0]), a[1..], b);
    }
  }

  // ---- Bursts ----

  /** Up to 32 bits in a word, the first lowest. */
  function Pack(u: seq<bool>): bv32 {
    if u == [] then 0 else Prepend(u[0], Pack(u[1..]))
  }

  function Prepend(bit: bool, w: bv32): bv32 {
    (w << 1) | (if bit then 1 else 0)
  }

  /** A word with its lowest n bits set. */
  function Ones(n: nat): bv32 {
    if n == 0 then 0 else Prepend(true, Ones(n - 1))
  }

  function And(w: bv32, m: bv32): bv32 {
    w & m
  }

  predicate Under(w: bv32, m: bv32) {
    And(w, m) == w
  }

  lemma {:induction false} PrependParts(bit: bool, w: bv32)
    ensures Low(Prepend(bit, w)) == bit
    ensures Under(w, 0x7FFF_FFFF) ==> Half(Prepend(bit, w)) == w
  {
  }

  lemma {:induction false} UnderPrepend(bit: bool, w: bv32, m: bv32)
    requires Under(w, m)
    ensures Under(Prepend(bit, w), Prepend(true, m))
  {
    hide And, Prepend;
    if bit { OddAnd(w, m); } else { EvenAnd(w, m); }
  }

  lemma {:induction false} OddAnd(w: bv32, m: bv32)
    ensures And(Prepend(true, w), Prepend(true, m)) == Prepend(true, And(w, m))
  {
  }

  lemma {:induction false} EvenAnd(w: bv32, m: bv32)
    ensures And(Prepend(false, w), Prepend(true, m)) == Prepend(false, And(w, m))
  {
  }

  lemma {:induction false} UnderTrans(w: bv32, m: bv32, k: bv32)
    requires Under(w, m) && Under(m, k)
    ensures Under(w, k)
  {
  }

  lemma {:induction false} OnesGrow(n: nat, k: nat)
    requires n <= k
    ensures Under(Ones(n), Ones(k))
  {
    hide Under, Prepend;
    if n == 0 {
      assert Under(0, Ones(k)) by { UnderZero(Ones(k)); }
    } else {
      OnesGrow(n - 1, k - 1);
      UnderPrepend(true, Ones(n - 1), Ones(k - 1));
    }
  }

  lemma {:induction false} UnderZero(m: bv32)
    ensures Under(0, m)
  {
  }

  lemma {:induction false} Ones31()
    ensures Ones(31) == 0x7FFF_FFFF
  {
    assert Ones(4) == 0xF;
    assert Ones(8) == 0xFF;
    assert Ones(12) == 0xFFF;
    assert Ones(16) == 0xFFFF;
    assert Ones(20) == 0xF_FFFF;
    assert Ones(24) == 0xFF_FFFF;
    assert Ones(28) == 0xFFF_FFFF;
  }

  /** Fewer than 32 bits leave the top of the word clear. */
  lemma {:induction false} PackUnder(u: seq<bool>)
    requires |u| < 32
    ensures Under(Pack(u), 0x7FFF_FFFF)
  {
    hide Under, Prepend, Ones;
    PackOnes(u);
    OnesGrow(|u|, 31);
    Ones31();
    UnderTrans(Pack(u), Ones(|u|), Ones(31));
  }

  lemma {:induction false} PackOnes(u: seq<bool>)
    ensures Under(Pack(u), Ones(|u|))
    decreases |u|
  {
    hide Under, Prepend;
    if u == [] {
      UnderZero(Ones(0));
    } else {
      PackOnes(u[1..]);
      UnderPrepend(u[0], Pack(u[1..]), Ones(|u| - 1));
    }
  }

  lemma {:induction false} PackParts(u: seq<bool>)
    requires 0 < |u| <= 32
    ensures Low(Pack(u)) == u[0] && Half(Pack(u)) == Pack(u[1..])
  {
    hide Under, Prepend, Low, Half;
    PackUnder(u[1..]);
    PrependParts(u[0], Pack(u[1..]));
  }

  /** The lowest n bits of a word, least significant first. */
  function Unpack(w: bv32, n: nat): (u: seq<bool>)
    ensures |u| == n
  {
    if n == 0 then [] else [Low(w)] + Unpack(Half(w), n - 1)
  }

  /** What is above the lowest n bits. */
  function Drop(w: bv32, n: nat): bv32 {
    if n == 0 then w else Drop(Half(w), n - 1)
  }

  /** Packing loses nothing, and leaves nothing above. */
  lemma {:induction false} UnpackPack(u: seq<bool>)
    requires |u| <= 32
    ensures Unpack(Pack(u), |u|) == u && Drop(Pack(u), |u|) == 0
    decreases |u|
  {
    hide Low, Half, Prepend;
    if u != [] {
      PackParts(u);
      UnpackPack(u[1..]);
    }
  }

  function Zeros(n: nat): (z: seq<bool>)
    ensures |z| == n
  {
    seq(n, _ => false)
  }

  /** Feeding zeroes to a register with x added to it is feeding it the bits of x. */
  lemma {:induction false} SerialXor(c: bv32, x: bv32, n: nat)
    ensures Serial(Xor(c, x), Zeros(n)) == Xor(Serial(c, Unpack(x, n)), Drop(x, n))
    decreases n
  {
    hide Low, Half, Xor, Shift;
    if n > 0 {
      ShiftXor(c, false, x);
      assert Zeros(n)[1..] == Zeros(n - 1);
      assert Unpack(x, n)[1..] == Unpack(Half(x), n - 1);
      SerialXor(Shift(c, Low(x)), Half(x), n - 1);
    }
  }

  /** Feeding up to 32 bits is feeding zeroes to the register with those bits added to it. */
  lemma {:induction false} SerialPack(c: bv32, u: seq<bool>)
    requires |u| <= 32
    ensures Serial(c, u) == Serial(Xor(c, Pack(u)), Zeros(|u|))
  {
    hide Xor, Pack, Serial, Drop, Unpack;
    UnpackPack(u);
    SerialXor(c, Pack(u), |u|);
    XorZero(Serial(c, u));
  }

  lemma {:induction false} XorZero(c: bv32)
    ensures Xor(c, 0) == c
  {
  }

  lemma {:induction false} XorCancel(c: bv32, x: bv32, y: bv32)
    requires Xor(c, x) == Xor(c, y)
    ensures x == y
  {
    XorTwice(x, c);
    XorTwice(y, c);
  }

  /** From one register, different strings of up to 32 bits lead to different registers. */
  lemma {:induction false} ShortInjective(c: bv32, u: seq<bool>, v: seq<bool>)
    requires |u| == |v| <= 32 && Serial(c, u) == Serial(c, v)
    ensures u == v
  {
    hide Xor, Pack, Serial;
    SerialPack(c, u);
    SerialPack(c, v);
    SerialInjective(Xor(c, Pack(u)), Xor(c, Pack(v)), Zeros(|u|));
    XorCancel(c, Pack(u), Pack(v));
    UnpackPack(u);
    UnpackPack(v);
  }

  /** Two bit strings differ, and only inside a stretch of 32 bits from place i. */
  ghost predicate Burst(s: seq<bool>, t: seq<bool>, i: nat) {
    && |s| == |t| && s != t && i <= |s|
    && s[..i] == t[..i]
    && (i + 32 <= |s| ==> s[i + 32..] == t[i + 32..])
  }

  /** A register in any state tells apart strings that differ by a burst of at most 32 bits. */
  lemma {:induction false} BurstSeparates(c: bv32, s: seq<bool>, t: seq<bool>, i: nat)
    requires Burst(s, t, i)
    ensures Serial(c, s) != Serial(c, t)
  {
    hide Serial;
    var j := Min(i + 32, |s|);
    var p, u, v, r := s[..i], s[i..j], t[i..j], s[j..];
    assert s == p + (u + r);
    assert t[j..] == r by {
      if i + 32 > |s| { assert t[j..] == []; }
    }
    assert t == t[..i] + (v + t[j..]);
    SerialConcat(c, p, u + r);
    SerialConcat(c, p, v + r);
    var d := Serial(c, p);
    SerialConcat(d, u, r);
    SerialConcat(d, v, r);
    if Serial(c, s) == Serial(c, t) {
      SerialInjective(Serial(d, u), Serial(d, v), r);
      ShortInjective(d, u, v);
    }
  }

  // ---- Bytes ----

  /** The n lowest binary digits of a number, least significant first. */
  function Digits(x: nat, n: nat): (u: seq<bool>)
    ensures |u| == n
  {
    if n == 0 then [] else [x % 2 == 1] + Digits(x / 2, n - 1)
  }

  function ByteBits(b: Byte): (u: seq<bool>)
    ensures |u| == 8
  {
    Digits(b, 8)
  }

  /** A byte in the low bits of a word. */
  function Widen(b: Byte): bv32 {
    Pack(ByteBits(b))
  }

  /** The bits of a byte string in the order they enter the register. */
  function BitsOf(s: seq<Byte>): (u: seq<bool>)
    ensures |u| == 8 * |s|
  {
    if s == [] then [] else ByteBits(s[0]) + BitsOf(s[1..])
  }

  /** The checksum: the register starts with ones, and is complemented at the end. */
  function Crc32(s: seq<Byte>): Word {
    Complement(Serial(0xFFFF_FFFF, BitsOf(s)))
  }

  function Complement(c: bv32): Word {
    (c ^ 0xFFFF_FFFF) as int
  }

  lemma {:induction false} ComplementInjective(c: bv32, d: bv32)
    requires Complement(c) == Complement(d)
    ensures c == d
  {
    IntInjective(c ^ 0xFFFF_FFFF, d ^ 0xFFFF_FFFF);
    assert (c ^ 0xFFFF_FFFF) ^ 0xFFFF_FFFF == c;
    assert (d ^ 0xFFFF_FFFF) ^ 0xFFFF_FFFF == d;
  }

  lemma {:induction false} IntInjective(c: bv32, d: bv32)
    requires c as int == d as int
    ensures c == d
  {
    IntAndBack(c);
    IntAndBack(d);
  }

  lemma {:induction false} IntAndBack(c: bv32)
    ensures (c as int) as bv32 == c
  {
  }

  // ---- The table ----

  /** Eight steps on zeroes. */
  function Shift8(c: bv32): bv32 {
    Shift(Shift(Shift(Shift(Shift(Shift(Shift(Shift(c, false), false), false), false), false), false), false), false)
  }

  // Sixteen entries of the table at a time.

  function Row0(): seq<bv32> {
    [ 0x00000000, 0x77073096, 0xEE0E612C, 0x990951BA, 0x076DC419, 0x706AF48F, 0xE963A535, 0x9E6495A3,
      0x0EDB8832, 0x79DCB8A4, 0xE0D5E91E, 0x97D2D988, 0x09B64C2B, 0x7EB17CBD, 0xE7B82D07, 0x90BF1D91 ]
  }

  function Row1(): seq<bv32> {
    [ 0x1DB71064, 0x6AB020F2, 0xF3B97148, 0x84BE41DE, 0x1ADAD47D, 0x6DDDE4EB, 0xF4D4B551, 0x83D385C7,
      0x136C9856, 0x646BA8C0, 0xFD62F97A, 0x8A65C9EC, 0x14015C4F, 0x63066CD9, 0xFA0F3D63, 0x8D080DF5 ]
  }

  function Row2(): seq<bv32> {
    [ 0x3B6E20C8, 0x4C69105E, 0xD56041E4, 0xA2677172, 0x3C03E4D1, 0x4B04D447, 0xD20D85FD, 0xA50AB56B,
      0x35B5A8FA, 0x42B2986C, 0xDBBBC9D6, 0xACBCF940, 0x32D86CE3, 0x45DF5C75, 0xDCD60DCF, 0xABD13D59 ]
  }

  function Row3(): seq<bv32> {
    [ 0x26D930AC, 0x51DE003A, 0xC8D75180, 0xBFD06116, 0x21B4F4B5, 0x56B3C423, 0xCFBA9599, 0xB8BDA50F,
      0x2802B89E, 0x5F058808, 0xC60CD9B2, 0xB10BE924, 0x2F6F7C87, 0x58684C11, 0xC1611DAB, 0xB6662D3D ]
  }

  function Row4(): seq<bv32> {
    [ 0x76DC4190, 0x01DB7106, 0x98D220BC, 0xEFD5102A, 0x71B18589, 0x06B6B51F, 0x9FBFE4A5, 0xE8B8D433,
      0x7807C9A2, 0x0F00F934, 0x9609A88E, 0xE10E9818, 0x7F6A0DBB, 0x086D3D2D, 0x91646C97, 0xE6635C01 ]
  }

  function Row5(): seq<bv32> {
    [ 0x6B6B51F4, 0x1C6C6162, 0x856530D8, 0xF262004E, 0x6C0695ED, 0x1B01A57B, 0x8208F4C1, 0xF50FC457,
      0x65B0D9C6, 0x12B7E950, 0x8BBEB8EA, 0xFCB9887C, 0x62DD1DDF, 0x15DA2D49, 0x8CD37CF3, 0xFBD44C65 ]
  }

  function Row6(): seq<bv32> {
    [ 0x4DB26158, 0x3AB551CE, 0xA3BC0074, 0xD4BB30E2, 0x4ADFA541, 0x3DD895D7, 0xA4D1C46D, 0xD3D6F4FB,
      0x4369E96A, 0x346ED9FC, 0xAD678846, 0xDA60B8D0, 0x44042D73, 0x33031DE5, 0xAA0A4C5F, 0xDD0D7CC9 ]
  }

  function Row7(): seq<bv32> {
    [ 0x5005713C, 0x270241AA, 0xBE0B1010, 0xC90C2086, 0x5768B525, 0x206F85B3, 0xB966D409, 0xCE61E49F,
      0x5EDEF90E, 0x29D9C998, 0xB0D09822, 0xC7D7A8B4, 0x59B33D17, 0x2EB40D81, 0xB7BD5C3B, 0xC0BA6CAD ]
  }

  function Row8(): seq<bv32> {
    [ 0xEDB88320, 0x9ABFB3B6, 0x03B6E20C, 0x74B1D29A, 0xEAD54739, 0x9DD277AF, 0x04DB2615, 0x73DC1683,
      0xE3630B12, 0x94643B84, 0x0D6D6A3E, 0x7A6A5AA8, 0xE40ECF0B, 0x9309FF9D, 0x0A00AE27, 0x7D079EB1 ]
  }

  function Row9(): seq<bv32> {
    [ 0xF00F9344, 0x8708A3D2, 0x1E01F268, 0x6906C2FE, 0xF762575D, 0x806567CB, 0x196C3671, 0x6E6B06E7,
      0xFED41B76, 0x89D32BE0, 0x10DA7A5A, 0x67DD4ACC, 0xF9B9DF6F, 0x8EBEEFF9, 0x17B7BE43, 0x60B08ED5 ]
  }

  function RowA(): seq<bv32> {
    [ 0xD6D6A3E8, 0xA1D1937E, 0x38D8C2C4, 0x4FDFF252, 0xD1BB67F1, 0xA6BC5767, 0x3FB506DD, 0x48B2364B,
      0xD80D2BDA, 0xAF0A1B4C, 0x36034AF6, 0x41047A60, 0xDF60EFC3, 0xA867DF55, 0x316E8EEF, 0x4669BE79 ]
  }

  function RowB(): seq<bv32> {
    [ 0xCB61B38C, 0xBC66831A, 0x256FD2A0, 0x5268E236, 0xCC0C7795, 0xBB0B4703, 0x220216B9, 0x5505262F,
      0xC5BA3BBE, 0xB2BD0B28, 0x2BB45A92, 0x5CB36A04, 0xC2D7FFA7, 0xB5D0CF31, 0x2CD99E8B, 0x5BDEAE1D ]
  }

  function RowC(): seq<bv32> {
    [ 0x9B64C2B0, 0xEC63F226, 0x756AA39C, 0x026D930A, 0x9C0906A9, 0xEB0E363F, 0x72076785, 0x05005713,
      0x95BF4A82, 0xE2B87A14, 0x7BB12BAE, 0x0CB61B38, 0x92D28E9B, 0xE5D5BE0D, 0x7CDCEFB7, 0x0BDBDF21 ]
  }

  function RowD(): seq<bv32> {
    [ 0x86D3D2D4, 0xF1D4E242, 0x68DDB3F8, 0x1FDA836E, 0x81BE16CD, 0xF6B9265B, 0x6FB077E1, 0x18B74777,
      0x88085AE6, 0xFF0F6A70, 0x66063BCA, 0x11010B5C, 0x8F659EFF, 0xF862AE69, 0x616BFFD3, 0x166CCF45 ]
  }

  function RowE(): seq<bv32> {
    [ 0xA00AE278, 0xD70DD2EE, 0x4E048354, 0x3903B3C2, 0xA7672661, 0xD06016F7, 0x4969474D, 0x3E6E77DB,
      0xAED16A4A, 0xD9D65ADC, 0x40DF0B66, 0x37D83BF0, 0xA9BCAE53, 0xDEBB9EC5, 0x47B2CF7F, 0x30B5FFE9 ]
  }

  function RowF(): seq<bv32> {
    [ 0xBDBDF21C, 0xCABAC28A, 0x53B39330, 0x24B4A3A6, 0xBAD03605, 0xCDD70693, 0x54DE5729, 0x23D967BF,
      0xB3667A2E, 0xC4614AB8, 0x5D681B02, 0x2A6F2B94, 0xB40BBE37, 0xC30C8EA1, 0x5A05DF1B, 0x2D02EF8D ]
  }

  function Row(r: bv8): (row: seq<bv32>)
    ensures |row| == 16
  {
    match r
    case 0 => Row0()
    case 1 => Row1()
    case 2 => Row2()
    case 3 => Row3()
    case 4 => Row4()
    case 5 => Row5()
    case 6 => Row6()
    case 7 => Row7()
    case 8 => Row8()
    case 9 => Row9()
    case 10 => RowA()
    case 11 => RowB()
    case 12 => RowC()
    case 13 => RowD()
    case 14 => RowE()
    case _ => RowF()
  }

  function Table(i: bv8): bv32 {
    LowNibble(i);
    Row(i >> 4)[(i & 15) as int]
  }

  lemma {:induction false} LowNibble(i: bv8)
    ensures 0 <= (i & 15) as int < 16
  {
  }

  /** A row is its first entry added to the first row. */
  predicate Shifted(row: seq<bv32>, first: bv32) {
    && |row| == 16 && row[0] == first
    && row[1] == Xor(first, Row0()[1]) && row[2] == Xor(first, Row0()[2]) && row[3] == Xor(first, Row0()[3])
    && row[4] == Xor(first, Row0()[4]) && row[5] == Xor(first, Row0()[5]) && row[6] == Xor(first, Row0()[6])
    && row[7] == Xor(first, Row0()[7]) && row[8] == Xor(first, Row0()[8]) && row[9] == Xor(first, Row0()[9])
    && row[10] == Xor(first, Row0()[10]) && row[11] == Xor(first, Row0()[11]) && row[12] == Xor(first, Row0()[12])
    && row[13] == Xor(first, Row0()[13]) && row[14] == Xor(first, Row0()[14]) && row[15] == Xor(first, Row0()[15])
  }

  lemma {:induction false} Row0Shifted()
    ensures Shifted(Row0(), Shift8(0x00))
  {
    assert Shift8(0x00) == 0x00000000;
    assert Row0()[0] == 0;
    forall x ensures Xor(0, x) == x {
    }
    hide Row0, Xor, Shift8;
  }

  lemma {:induction false} Row1Shifted()
    ensures Shifted(Row1(), Shift8(0x10))
  {
    assert Shift8(0x10) == 0x1DB71064;
  }

  lemma {:induction false} Row2Shifted()
    ensures Shifted(Row2(), Shift8(0x20))
  {
    assert Shift8(0x20) == 0x3B6E20C8;
  }

  lemma {:induction false} Row3Shifted()
    ensures Shifted(Row3(), Shift8(0x30))
  {
    assert Shift8(0x30) == 0x26D930AC;
  }

  lemma {:induction false} Row4Shifted()
    ensures Shifted(Row4(), Shift8(0x40))
  {
    assert Shift8(0x40) == 0x76DC4190;
  }

  lemma {:induction false} Row5Shifted()
    ensures Shifted(Row5(), Shift8(0x50))
  {
    assert Shift8(0x50) == 0x6B6B51F4;
  }

  lemma {:induction false} Row6Shifted()
    ensures Shifted(Row6(), Shift8(0x60))
  {
    assert Shift8(0x60) == 0x4DB26158;
  }

  lemma {:induction false} Row7Shifted()
    ensures Shifted(Row7(), Shift8(0x70))
  {
    assert Shift8(0x70) == 0x5005713C;
  }

  lemma {:induction false} Row8Shifted()
    ensures Shifted(Row8(), Shift8(0x80))
  {
    assert Shift8(0x80) == 0xEDB88320;
  }

  lemma {:induction false} Row9Shifted()
    ensures Shifted(Row9(), Shift8(0x90))
  {
    assert Shift8(0x90) == 0xF00F9344;
  }

  lemma {:induction false} RowAShifted()
    ensures Shifted(RowA(), Shift8(0xa0))
  {
    assert Shift8(0xa0) == 0xD6D6A3E8;
  }

  lemma {:induction false} RowBShifted()
    ensures Shifted(RowB(), Shift8(0xb0))
  {
    assert Shift8(0xb0) == 0xCB61B38C;
  }

  lemma {:induction false} RowCShifted()
    ensures Shifted(RowC(), Shift8(0xc0))
  {
    assert Shift8(0xc0) == 0x9B64C2B0;
  }

  lemma {:induction false} RowDShifted()
    ensures Shifted(RowD(), Shift8(0xd0))
  {
    assert Shift8(0xd0) == 0x86D3D2D4;
  }

  lemma {:induction false} RowEShifted()
    ensures Shifted(RowE(), Shift8(0xe0))
  {
    assert Shift8(0xe0) == 0xA00AE278;
  }

  lemma {:induction false} RowFShifted()
    ensures Shifted(RowF(), Shift8(0xf0))
  {
    assert Shift8(0xf0) == 0xBDBDF21C;
  }

  lemma {:induction false} RowShifted(r: bv8)
    requires r < 16
    ensures Shifted(Row(r), Shift8((r as bv32) << 4))
  {
    hide Shifted, Shift8;
    hide Row0, Row1, Row2, Row3, Row4, Row5, Row6, Row7, Row8, Row9, RowA, RowB, RowC, RowD, RowE, RowF;
    match r {
      case 0 => Row0Shifted();
      case 1 => Row1Shifted();
      case 2 => Row2Shifted();
      case 3 => Row3Shifted();
      case 4 => Row4Shifted();
      case 5 => Row5Shifted();
      case 6 => Row6Shifted();
      case 7 => Row7Shifted();
      case 8 => Row8Shifted();
      case 9 => Row9Shifted();
      case 10 => RowAShifted();
      case 11 => RowBShifted();
      case 12 => RowCShifted();
      case 13 => RowDShifted();
      case 14 => RowEShifted();
      case _ => RowFShifted();
    }
  }

  /** The first row is what eight steps make of its indices. */
  predicate First(row: seq<bv32>) {
    && |row| == 16
    && row[0] == Shift8(0) && row[1] == Shift8(1) && row[2] == Shift8(2) && row[3] == Shift8(3)
    && row[4] == Shift8(4) && row[5] == Shift8(5) && row[6] == Shift8(6) && row[7] == Shift8(7)
    && row[8] == Shift8(8) && row[9] == Shift8(9) && row[10] == Shift8(10) && row[11] == Shift8(11)
    && row[12] == Shift8(12) && row[13] == Shift8(13) && row[14] == Shift8(14) && row[15] == Shift8(15)
  }

  lemma {:induction false} Power0()
    ensures Shift8(1) == 0x77073096
  {
  }

  lemma {:induction false} Power1()
    ensures Shift8(2) == 0xEE0E612C
  {
  }

  lemma {:induction false} Power2()
    ensures Shift8(4) == 0x076DC419
  {
  }

  lemma {:induction false} Power3()
    ensures Shift8(8) == 0x0EDB8832
  {
  }

  lemma {:induction false} Row0First()
    ensures First(Row0())
  {
    hide Shift8;
    Shift8Zero(); Power0(); Power1(); Power2(); Power3();
    Shift8Linear(1, 2);
    Shift8Linear(4, 1); Shift8Linear(4, 2); Shift8Linear(4, 3);
    Shift8Linear(8, 1); Shift8Linear(8, 2); Shift8Linear(8, 3); Shift8Linear(8, 4);
    Shift8Linear(8, 5); Shift8Linear(8, 6); Shift8Linear(8, 7);
  }

  /** An entry of a row is the first entry of the row added to an entry of the first row. */
  lemma {:induction false} RowEntry(row: seq<bv32>, first: bv32, j: bv8)
    requires First(Row0()) && Shifted(row, first) && j < 16
    ensures 0 <= j as int < 16
    ensures row[j as int] == Xor(first, Shift8(j as bv32))
  {
    Shift8Zero();
    hide Row0, Shift8, Xor;
    XorZero(first);
    if j == 0 {
    } else if j < 4 {
      assert j == 1 || j == 2 || j == 3;
    } else if j < 8 {
      assert j == 4 || j == 5 || j == 6 || j == 7;
    } else if j < 12 {
      assert j == 8 || j == 9 || j == 10 || j == 11;
    } else {
      assert j == 12 || j == 13 || j == 14 || j == 15;
    }
  }

  lemma {:induction false} Shift8Zero()
    ensures Shift8(0) == 0
  {
  }

  lemma {:induction false} XorPair(a: bv32, b: bv32, p: bv32)
    ensures Xor(Xor(a, p), Xor(b, p)) == Xor(a, b)
    ensures Xor(Xor(a, p), b) == Xor(Xor(a, b), p) && Xor(a, Xor(b, p)) == Xor(Xor(a, b), p)
  {
    XorSwap(a, p, b);
    XorAssociates(a, b, p);
    XorAssociates(Xor(a, p), b, p);
    XorTwice(Xor(a, b), p);
    hide Xor;
  }

  lemma {:induction false} ShiftLinear(a: bv32, b: bv32)
    ensures Shift(Xor(a, b), false) == Xor(Shift(a, false), Shift(b, false))
  {
    hide Low, Half, Xor;
    LowXor(a, b);
    HalfXor(a, b);
    XorPair(Half(a), Half(b), POLYNOMIAL);
  }

  lemma {:induction false} Shift8Linear(a: bv32, b: bv32)
    ensures Shift8(Xor(a, b)) == Xor(Shift8(a), Shift8(b))
  {
    hide Shift, Xor;
    var a1, b1 := Shift(a, false), Shift(b, false);
    var a2, b2 := Shift(a1, false), Shift(b1, false);
    var a3, b3 := Shift(a2, false), Shift(b2, false);
    var a4, b4 := Shift(a3, false), Shift(b3, false);
    var a5, b5 := Shift(a4, false), Shift(b4, false);
    var a6, b6 := Shift(a5, false), Shift(b5, false);
    var a7, b7 := Shift(a6, false), Shift(b6, false);
    ShiftLinear(a, b);
    ShiftLinear(a1, b1);
    ShiftLinear(a2, b2);
    ShiftLinear(a3, b3);
    ShiftLinear(a4, b4);
    ShiftLinear(a5, b5);
    ShiftLinear(a6, b6);
    ShiftLinear(a7, b7);
  }

  lemma {:induction false} Nibbles(i: bv8)
    ensures i >> 4 < 16 && i & 15 < 16
    ensures i as bv32 == Xor(((i >> 4) as bv32) << 4, (i & 15) as bv32)
  {
  }

  /** Every entry of the table is what eight steps make of its index. */
  lemma {:induction false} TableIs(i: bv8)
    ensures Table(i) == Shift8(i as bv32)
  {
    hide Row, Shifted, First, Shift8, Xor, Row0;
    Nibbles(i);
    LowNibble(i);
    Row0First();
    RowShifted(i >> 4);
    RowEntry(Row(i >> 4), Shift8(((i >> 4) as bv32) << 4), i & 15);
    Shift8Linear(((i >> 4) as bv32) << 4, (i & 15) as bv32);
  }

  // ---- A byte at a time ----

  lemma {:induction false} SerialZero(c: bv32, n: nat)
    requires n > 0
    ensures Serial(c, Zeros(n)) == Serial(Shift(c, false), Zeros(n - 1))
  {
    hide Shift;
    assert Zeros(n)[1..] == Zeros(n - 1);
  }

  /** Eight steps on zeroes. */
  lemma {:induction false} Shift8Is(c: bv32)
    ensures Shift8(c) == Serial(c, Zeros(8))
  {
    hide Shift, Zeros;
    var c1 := Shift(c, false);
    var c2 := Shift(c1, false);
    var c3 := Shift(c2, false);
    var c4 := Shift(c3, false);
    var c5 := Shift(c4, false);
    var c6 := Shift(c5, false);
    var c7 := Shift(c6, false);
    SerialZero(c, 8);
    SerialZero(c1, 7);
    SerialZero(c2, 6);
    SerialZero(c3, 5);
    SerialZero(c4, 4);
    SerialZero(c5, 3);
    SerialZero(c6, 2);
    SerialZero(c7, 1);
  }

  /** Eight steps: the low byte added to the register is fed as bits, the rest moves down. */
  lemma {:induction false} Shift8Xor(c: bv32, x: bv32)
    ensures Shift8(Xor(c, x)) == Xor(Serial(c, Unpack(x, 8)), Above(x))
  {
    hide Xor, Serial, Above, Shift8, Unpack;
    Shift8Is(Xor(c, x));
    SerialXor(c, x, 8);
    DropEight(x);
  }

  lemma {:induction false} DropEight(x: bv32)
    ensures Drop(x, 8) == Above(x)
  {
    HalfEight(x);
    hide Half, Above;
    var x4 := Half(Half(Half(Half(x))));
    DropFour(x, 8);
    DropFour(x4, 4);
  }

  lemma {:induction false} DropFour(x: bv32, n: nat)
    requires n >= 4
    ensures Drop(x, n) == Drop(Half(Half(Half(Half(x)))), n - 4)
  {
    hide Half;
    assert Drop(x, n) == Drop(Half(x), n - 1) == Drop(Half(Half(x)), n - 2);
    assert Drop(Half(Half(x)), n - 2) == Drop(Half(Half(Half(x))), n - 3);
  }

  lemma {:induction false} HalfEight(x: bv32)
    ensures Half(Half(Half(Half(Half(Half(Half(Half(x)))))))) == Above(x)
  {
  }

  /** Clear low bits are fed as zeroes. */
  lemma {:induction false} LowClear(x: bv32)
    requires x & 0xFF == 0
    ensures Unpack(x, 8) == Zeros(8)
  {
    var x1 := Half(x);
    var x2 := Half(x1);
    var x3 := Half(x2);
    var x4 := Half(x3);
    var x5 := Half(x4);
    var x6 := Half(x5);
    var x7 := Half(x6);
    assert !Low(x) && !Low(x1) && !Low(x2) && !Low(x3) && !Low(x4) && !Low(x5) && !Low(x6) && !Low(x7);
    hide Low, Half;
    assert Unpack(x7, 1) == Zeros(1);
    assert Unpack(x6, 2) == Zeros(2);
    assert Unpack(x5, 3) == Zeros(3);
    assert Unpack(x4, 4) == Zeros(4);
    assert Unpack(x3, 5) == Zeros(5);
    assert Unpack(x2, 6) == Zeros(6);
    assert Unpack(x1, 7) == Zeros(7);
  }

  /** A word is its low byte added to the rest. */
  lemma {:induction false} Parts(x: bv32)
    ensures var high := x & 0xFFFF_FF00;
      x == Xor(LowByte(x) as bv32, high) && high & 0xFF == 0 && Above(high) == Above(x)
  {
    assert ((x & 0xFF) as bv8) as bv32 == x & 0xFF;
  }

  /** Eight steps: the low byte through the register, the rest moved down. */
  lemma {:induction false} Shift8Split(x: bv32)
    ensures Shift8(x) == Xor(Shift8(LowByte(x) as bv32), Above(x))
  {
    var high := x & 0xFFFF_FF00;
    Parts(x);
    hide Xor, LowByte, Above, Shift8, Serial, Unpack;
    Shift8Xor(LowByte(x) as bv32, high);
    LowClear(high);
    Shift8Is(LowByte(x) as bv32);
  }

  /** One turn of the table loop. */
  function Turn(c: bv32, b: Byte): bv32 {
    Xor(Table(LowByte(Xor(c, Widen(b)))), Above(c))
  }

  lemma {:induction false} AboveXor(c: bv32, w: bv32)
    requires Above(w) == 0
    ensures Above(Xor(c, w)) == Above(c)
  {
    assert (c ^ w) >> 8 == (c >> 8) ^ (w >> 8);
  }

  lemma {:induction false} TurnIsSerial(c: bv32, b: Byte)
    ensures Turn(c, b) == Serial(c, ByteBits(b))
  {
    hide Table, Serial, Unpack, Pack, Xor, Above, LowByte, Shift8, ByteBits;
    var w := Widen(b);
    var x := Xor(c, w);
    UnpackPack(ByteBits(b));
    DropEight(w);
    AboveXor(c, w);
    TableIs(LowByte(x));
    Shift8Split(x);
    Shift8Xor(c, w);
    XorZero(Serial(c, ByteBits(b)));
  }

  lemma {:induction false} BitsOfConcat(s: seq<Byte>, t: seq<Byte>)
    ensures BitsOf(s + t) == BitsOf(s) + BitsOf(t)
  {
    hide ByteBits;
    if s == [] {
      assert s + t == t;
    } else {
      assert (s + t)[1..] == s[1..] + t;
      BitsOfConcat(s[1..], t);
    }
  }

  /** arq_crc32: the table loop computes the bit-serial checksum of every byte string. */
  method ComputeCrc32(buf: seq<Byte>) returns (crc: Word)
    ensures crc == Crc32(buf)
  {
    hide Serial, BitsOf, Turn, ByteBits;
    var c: bv32 := 0xFFFF_FFFF;
    assert BitsOf([]) == [] && Serial(c, []) == c by {
      EmptyMessage(c);
    }
    for i := 0 to |buf|
      invariant c == Serial(0xFFFF_FFFF, BitsOf(buf[..i]))
    {
      TurnIsSerial(c, buf[i]);
      OneMore(0xFFFF_FFFF, buf[..i], buf[i]);
      assert buf[..i + 1] == buf[..i] + [buf[i]];
      c := Turn(c, buf[i]);
    }
    assert buf[..|buf|] == buf;
    crc := Complement(c);
  }

  lemma {:induction false} EmptyMessage(c: bv32)
    ensures BitsOf([]) == [] && Serial(c, []) == c
  {
  }

  lemma {:induction false} OneMore(c: bv32, s: seq<Byte>, b: Byte)
    ensures Serial(c, BitsOf(s + [b])) == Serial(Serial(c, BitsOf(s)), ByteBits(b))
  {
    hide Serial, ByteBits;
    BitsOfConcat(s, [b]);
    assert BitsOf([b]) == ByteBits(b) + BitsOf([]) == ByteBits(b);
    SerialConcat(c, BitsOf(s), ByteBits(b));
  }

  // ---- What the checksum detects ----

  /** A change confined to 32 consecutive bits changes the checksum. */
  lemma {:induction false} BitBurstDetected(s: seq<Byte>, t: seq<Byte>, i: nat)
    requires Burst(BitsOf(s), BitsOf(t), i)
    ensures Crc32(s) != Crc32(t)
  {
    hide Serial, BitsOf, Complement;
    var c: bv32 := 0xFFFF_FFFF;
    BurstSeparates(c, BitsOf(s), BitsOf(t), i);
    if Crc32(s) == Crc32(t) {
      ComplementInjective(Serial(c, BitsOf(s)), Serial(c, BitsOf(t)));
    }
  }

  /** Numbers below m = 2 ^ n are told apart by their n lowest digits. */
  lemma {:induction false} DigitsInjective(a: nat, b: nat, n: nat, m: nat)
    requires Digits(a, n) == Digits(b, n) && m == Power(n) && a < m && b < m
    ensures a == b
  {
    if n > 0 {
      assert Digits(a, n)[0] == Digits(b, n)[0];
      assert Digits(a, n)[1..] == Digits(a / 2, n - 1) && Digits(b, n)[1..] == Digits(b / 2, n - 1);
      DigitsInjective(a / 2, b / 2, n - 1, Power(n - 1));
    }
  }

  function Power(n: nat): nat {
    if n == 0 then 1 else 2 * Power(n - 1)
  }

  lemma {:induction false} ByteBitsInjective(a: Byte, b: Byte)
    requires ByteBits(a) == ByteBits(b)
    ensures a == b
  {
    hide Digits;
    assert Power(4) == 16;
    assert Power(8) == 256;
    DigitsInjective(a, b, 8, 256);
  }

  lemma {:induction false} BitsOfInjective(s: seq<Byte>, t: seq<Byte>)
    requires |s| == |t| && BitsOf(s) == BitsOf(t)
    ensures s == t
  {
    hide ByteBits;
    if s != [] {
      assert BitsOf(s)[..8] == ByteBits(s[0]) && BitsOf(s)[8..] == BitsOf(s[1..]);
      assert BitsOf(t)[..8] == ByteBits(t[0]) && BitsOf(t)[8..] == BitsOf(t[1..]);
      ByteBitsInjective(s[0], t[0]);
      BitsOfInjective(s[1..], t[1..]);
      assert s == [s[0]] + s[1..] && t == [t[0]] + t[1..];
    }
  }

  /** A change confined to four consecutive bytes changes the checksum. */
  lemma {:induction false} ByteBurstDetected(p: seq<Byte>, u: seq<Byte>, v: seq<Byte>, r: seq<Byte>)
    requires |u| == |v| <= 4 && u != v
    ensures Crc32(p + u + r) != Crc32(p + v + r)
  {
    hide BitsOf, Crc32;
    if BitsOf(u) == BitsOf(v) { BitsOfInjective(u, v); }
    BitsOfConcat(p + u, r);
    BitsOfConcat(p + v, r);
    BitsOfConcat(p, u);
    BitsOfConcat(p, v);
    BurstOf(BitsOf(p), BitsOf(u), BitsOf(v), BitsOf(r));
    BitBurstDetected(p + u + r, p + v + r, 8 * |p|);
  }

  lemma {:induction false} BurstOf(p: seq<bool>, u: seq<bool>, v: seq<bool>, r: seq<bool>)
    requires |u| == |v| <= 32 && u != v
    ensures Burst(p + u + r, p + v + r, |p|)
  {
    var s, t, i := p + u + r, p + v + r, |p|;
    assert s[i .. i + |u|] == u && t[i .. i + |u|] == v;
    assert s[..i] == p == t[..i];
    if i + 32 <= |s| {
      assert s[i + 32..] == r[32 - |u|..] == t[i + 32..];
    }
  }

  /**
   * A decoded frame that read back correctly, with the segment changed inside four consecutive bytes
   * and nothing else, is refused for its checksum.
   */
  lemma {:induction false} SegmentChangeDetected(d: seq<Byte>, e: seq<Byte>, len: nat, i: nat, n: nat)
    requires |d| == |e| && HEADER_SIZE < |d| && len <= |d| && n <= 4 && d != e
    requires CheckFrame(d, len, Crc32) == Success
    requires 13 <= i && i + n <= 13 + ReadHeader(d[1..]).segLen
    requires d[..i] == e[..i] && d[i + n..] == e[i + n..]
    ensures CheckFrame(e, len, Crc32) == ErrChecksum
  {
    hide ReadHeader, FromBe32, Crc32;
    var m := 13 + ReadHeader(d[1..]).segLen;
    SameOutside(d, e, i, n, m);
    HeaderPrefix(d[1..], e[1..]);
    ByteBurstDetected(d[1 .. i], d[i .. i + n], e[i .. i + n], d[i + n .. m]);
  }

  /** The parts of two frames that are the same outside n bytes from place i. */
  lemma {:induction false} SameOutside(d: seq<Byte>, e: seq<Byte>, i: nat, n: nat, m: nat)
    requires |d| == |e| && 13 <= i && i + n <= m && m + 4 <= |d| && d != e
    requires d[..i] == e[..i] && d[i + n..] == e[i + n..]
    ensures d[1..][..HEADER_SIZE] == e[1..][..HEADER_SIZE]
    ensures d[m .. m + 4] == e[m .. m + 4]
    ensures d[i .. i + n] != e[i .. i + n]
    ensures d[1 .. m] == d[1 .. i] + d[i .. i + n] + d[i + n .. m]
    ensures e[1 .. m] == d[1 .. i] + e[i .. i + n] + d[i + n .. m]
  {
    var j := i + n;
    Memory.SliceBefore(d, i, 1, 13);
    Memory.SliceBefore(e, i, 1, 13);
    Memory.SliceBefore(d, i, 1, i);
    Memory.SliceBefore(e, i, 1, i);
    Memory.SliceAfter(d, 1, 0, HEADER_SIZE);
    Memory.SliceAfter(e, 1, 0, HEADER_SIZE);
    Memory.SliceAfter(d, j, 0, m - j);
    Memory.SliceAfter(e, j, 0, m - j);
    Memory.SliceAfter(d, j, m - j, m + 4 - j);
    Memory.SliceAfter(e, j, m - j, m + 4 - j);
    Memory.SliceCut(d, 1, i, j, m);
    Memory.SliceCut(e, 1, i, j, m);
    Whole(d, i, j);
    Whole(e, i, j);
  }

  lemma {:induction false} Whole(d: seq<Byte>, i: nat, j: nat)
    requires i <= j <= |d|
    ensures d == d[..i] + d[i..j] + d[j..]
  {
  }
}
