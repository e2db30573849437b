/** CalculateCrc32 of CheckSum.c against the bit-at-a-time CRC-32 of section 8.1.1.6.2 of ITU-T V.42. */
module Crc32 {

  // ---------- the definition ----------

  /** the generator polynomial, lowest power in the highest bit */
  const GENERATOR: bv32 := 0xEDB88320

  /** One bit of the message enters the shift register. */
  function ShiftBit(register: bv32, bit: bool): bv32 {
    if (register & 1 == 1) != bit then (register >> 1) ^ GENERATOR else register >> 1
  }

  /** A byte enters, lowest bit first. */
  function ShiftByte(register: bv32, b: bv8): bv32 {
    var r1 := ShiftBit(register, b & 1 == 1);
    var r2 := ShiftBit(r1, b & 2 == 2);
    var r3 := ShiftBit(r2, b & 4 == 4);
    var r4 := ShiftBit(r3, b & 8 == 8);
    var r5 := ShiftBit(r4, b & 16 == 16);
    var r6 := ShiftBit(r5, b & 32 == 32);
    var r7 := ShiftBit(r6, b & 64 == 64);
    ShiftBit(r7, b & 128 == 128)
  }

  /** The register after a message: it starts as all ones. */
  ghost function Register(data: seq<bv8>): bv32 {
    if data == [] then 0xFFFF_FFFF else ShiftByte(Register(data[..|data| - 1]), data[|data| - 1])
  }

  /** The CRC is the ones complement of the register. */
  ghost function Crc(data: seq<bv8>): bv32 {
    Complement(Register(data))
  }

  function Complement(r: bv32): bv32 {
    r ^ 0xFFFF_FFFF
  }

  // ---------- the table ----------

  /** mCrcTable, by the high digit of the index. */
  function CrcTable(x: bv8): bv32 {
    match x >> 4
    case 0x0 => Row0(x & 0xF)
    case 0x1 => Row1(x & 0xF)
    case 0x2 => Row2(x & 0xF)
    case 0x3 => Row3(x & 0xF)
    case 0x4 => Row4(x & 0xF)
    case 0x5 => Row5(x & 0xF)
    case 0x6 => Row6(x & 0xF)
    case 0x7 => Row7(x & 0xF)
    case 0x8 => Row8(x & 0xF)
    case 0x9 => Row9(x & 0xF)
    case 0xA => RowA(x & 0xF)
    case 0xB => RowB(x & 0xF)
    case 0xC => RowC(x & 0xF)
    case 0xD => RowD(x & 0xF)
    case 0xE => RowE(x & 0xF)
    case _ => RowF(x & 0xF)
  }

  function Row0(x: bv8): bv32 {
    match x
    case 0x0 => 0x00000000
    case 0x1 => 0x77073096
    case 0x2 => 0xEE0E612C
    case 0x3 => 0x990951BA
    case 0x4 => 0x076DC419
    case 0x5 => 0x706AF48F
    case 0x6 => 0xE963A535
    case 0x7 => 0x9E6495A3
    case 0x8 => 0x0EDB8832
    case 0x9 => 0x79DCB8A4
    case 0xA => 0xE0D5E91E
    case 0xB => 0x97D2D988
    case 0xC => 0x09B64C2B
    case 0xD => 0x7EB17CBD
    case 0xE => 0xE7B82D07
    case _ => 0x90BF1D91
  }

  function Row1(x: bv8): bv32 {
    match x
    case 0x0 => 0x1DB71064
    case 0x1 => 0x6AB020F2
    case 0x2 => 0xF3B97148
    case 0x3 => 0x84BE41DE
    case 0x4 => 0x1ADAD47D
    case 0x5 => 0x6DDDE4EB
    case 0x6 => 0xF4D4B551
    case 0x7 => 0x83D385C7
    case 0x8 => 0x136C9856
    case 0x9 => 0x646BA8C0
    case 0xA => 0xFD62F97A
    case 0xB => 0x8A65C9EC
    case 0xC => 0x14015C4F
    case 0xD => 0x63066CD9
    case 0xE => 0xFA0F3D63
    case _ => 0x8D080DF5
  }

  function Row2(x: bv8): bv32 {
    match x
    case 0x0 => 0x3B6E20C8
    case 0x1 => 0x4C69105E
    case 0x2 => 0xD56041E4
    case 0x3 => 0xA2677172
    case 0x4 => 0x3C03E4D1
    case 0x5 => 0x4B04D447
    case 0x6 => 0xD20D85FD
    case 0x7 => 0xA50AB56B
    case 0x8 => 0x35B5A8FA
    case 0x9 => 0x42B2986C
    case 0xA => 0xDBBBC9D6
    case 0xB => 0xACBCF940
    case 0xC => 0x32D86CE3
    case 0xD => 0x45DF5C75
    case 0xE => 0xDCD60DCF
    case _ => 0xABD13D59
  }

  function Row3(x: bv8): bv32 {
    match x
    case 0x0 => 0x26D930AC
    case 0x1 => 0x51DE003A
    case 0x2 => 0xC8D75180
    case 0x3 => 0xBFD06116
    case 0x4 => 0x21B4F4B5
    case 0x5 => 0x56B3C423
    case 0x6 => 0xCFBA9599
    case 0x7 => 0xB8BDA50F
    case 0x8 => 0x2802B89E
    case 0x9 => 0x5F058808
    case 0xA => 0xC60CD9B2
    case 0xB => 0xB10BE924
    case 0xC => 0x2F6F7C87
    case 0xD => 0x58684C11
    case 0xE => 0xC1611DAB
    case _ => 0xB6662D3D
  }

  function Row4(x: bv8): bv32 {
    match x
    case 0x0 => 0x76DC4190
    case 0x1 => 0x01DB7106
    case 0x2 => 0x98D220BC
    case 0x3 => 0xEFD5102A
    case 0x4 => 0x71B18589
    case 0x5 => 0x06B6B51F
    case 0x6 => 0x9FBFE4A5
    case 0x7 => 0xE8B8D433
    case 0x8 => 0x7807C9A2
    case 0x9 => 0x0F00F934
    case 0xA => 0x9609A88E
    case 0xB => 0xE10E9818
    case 0xC => 0x7F6A0DBB
    case 0xD => 0x086D3D2D
    case 0xE => 0x91646C97
    case _ => 0xE6635C01
  }

  function Row5(x: bv8): bv32 {
    match x
    case 0x0 => 0x6B6B51F4
    case 0x1 => 0x1C6C6162
    case 0x2 => 0x856530D8
    case 0x3 => 0xF262004E
    case 0x4 => 0x6C0695ED
    case 0x5 => 0x1B01A57B
    case 0x6 => 0x8208F4C1
    case 0x7 => 0xF50FC457
    case 0x8 => 0x65B0D9C6
    case 0x9 => 0x12B7E950
    case 0xA => 0x8BBEB8EA
    case 0xB => 0xFCB9887C
    case 0xC => 0x62DD1DDF
    case 0xD => 0x15DA2D49
    case 0xE => 0x8CD37CF3
    case _ => 0xFBD44C65
  }

  function Row6(x: bv8): bv32 {
    match x
    case 0x0 => 0x4DB26158
    case 0x1 => 0x3AB551CE
    case 0x2 => 0xA3BC0074
    case 0x3 => 0xD4BB30E2
    case 0x4 => 0x4ADFA541
    case 0x5 => 0x3DD895D7
    case 0x6 => 0xA4D1C46D
    case 0x7 => 0xD3D6F4FB
    case 0x8 => 0x4369E96A
    case 0x9 => 0x346ED9FC
    case 0xA => 0xAD678846
    case 0xB => 0xDA60B8D0
    case 0xC => 0x44042D73
    case 0xD => 0x33031DE5
    case 0xE => 0xAA0A4C5F
    case _ => 0xDD0D7CC9
  }

  function Row7(x: bv8): bv32 {
    match x
    case 0x0 => 0x5005713C
    case 0x1 => 0x270241AA
    case 0x2 => 0xBE0B1010
    case 0x3 => 0xC90C2086
    case 0x4 => 0x5768B525
    case 0x5 => 0x206F85B3
    case 0x6 => 0xB966D409
    case 0x7 => 0xCE61E49F
    case 0x8 => 0x5EDEF90E
    case 0x9 => 0x29D9C998
    case 0xA => 0xB0D09822
    case 0xB => 0xC7D7A8B4
    case 0xC => 0x59B33D17
    case 0xD => 0x2EB40D81
    case 0xE => 0xB7BD5C3B
    case _ => 0xC0BA6CAD
  }

  function Row8(x: bv8): bv32 {
    match x
    case 0x0 => 0xEDB88320
    case 0x1 => 0x9ABFB3B6
    case 0x2 => 0x03B6E20C
    case 0x3 => 0x74B1D29A
    case 0x4 => 0xEAD54739
    case 0x5 => 0x9DD277AF
    case 0x6 => 0x04DB2615
    case 0x7 => 0x73DC1683
    case 0x8 => 0xE3630B12
    case 0x9 => 0x94643B84
    case 0xA => 0x0D6D6A3E
    case 0xB => 0x7A6A5AA8
    case 0xC => 0xE40ECF0B
    case 0xD => 0x9309FF9D
    case 0xE => 0x0A00AE27
    case _ => 0x7D079EB1
  }

  function Row9(x: bv8): bv32 {
    match x
    case 0x0 => 0xF00F9344
    case 0x1 => 0x8708A3D2
    case 0x2 => 0x1E01F268
    case 0x3 => 0x6906C2FE
    case 0x4 => 0xF762575D
    case 0x5 => 0x806567CB
    case 0x6 => 0x196C3671
    case 0x7 => 0x6E6B06E7
    case 0x8 => 0xFED41B76
    case 0x9 => 0x89D32BE0
    case 0xA => 0x10DA7A5A
    case 0xB => 0x67DD4ACC
    case 0xC => 0xF9B9DF6F
    case 0xD => 0x8EBEEFF9
    case 0xE => 0x17B7BE43
    case _ => 0x60B08ED5
  }

  function RowA(x: bv8): bv32 {
    match x
    case 0x0 => 0xD6D6A3E8
    case 0x1 => 0xA1D1937E
    case 0x2 => 0x38D8C2C4
    case 0x3 => 0x4FDFF252
    case 0x4 => 0xD1BB67F1
    case 0x5 => 0xA6BC5767
    case 0x6 => 0x3FB506DD
    case 0x7 => 0x48B2364B
    case 0x8 => 0xD80D2BDA
    case 0x9 => 0xAF0A1B4C
    case 0xA => 0x36034AF6
    case 0xB => 0x41047A60
    case 0xC => 0xDF60EFC3
    case 0xD => 0xA867DF55
    case 0xE => 0x316E8EEF
    case _ => 0x4669BE79
  }

  function RowB(x: bv8): bv32 {
    match x
    case 0x0 => 0xCB61B38C
    case 0x1 => 0xBC66831A
    case 0x2 => 0x256FD2A0
    case 0x3 => 0x5268E236
    case 0x4 => 0xCC0C7795
    case 0x5 => 0xBB0B4703
    case 0x6 => 0x220216B9
    case 0x7 => 0x5505262F
    case 0x8 => 0xC5BA3BBE
    case 0x9 => 0xB2BD0B28
    case 0xA => 0x2BB45A92
    case 0xB => 0x5CB36A04
    case 0xC => 0xC2D7FFA7
    case 0xD => 0xB5D0CF31
    case 0xE => 0x2CD99E8B
    case _ => 0x5BDEAE1D
  }

  function RowC(x: bv8): bv32 {
    match x
    case 0x0 => 0x9B64C2B0
    case 0x1 => 0xEC63F226
    case 0x2 => 0x756AA39C
    case 0x3 => 0x026D930A
    case 0x4 => 0x9C0906A9
    case 0x5 => 0xEB0E363F
    case 0x6 => 0x72076785
    case 0x7 => 0x05005713
    case 0x8 => 0x95BF4A82
    case 0x9 => 0xE2B87A14
    case 0xA => 0x7BB12BAE
    case 0xB => 0x0CB61B38
    case 0xC => 0x92D28E9B
    case 0xD => 0xE5D5BE0D
    case 0xE => 0x7CDCEFB7
    case _ => 0x0BDBDF21
  }

  function RowD(x: bv8): bv32 {
    match x
    case 0x0 => 0x86D3D2D4
    case 0x1 => 0xF1D4E242
    case 0x2 => 0x68DDB3F8
    case 0x3 => 0x1FDA836E
    case 0x4 => 0x81BE16CD
    case 0x5 => 0xF6B9265B
    case 0x6 => 0x6FB077E1
    case 0x7 => 0x18B74777
    case 0x8 => 0x88085AE6
    case 0x9 => 0xFF0F6A70
    case 0xA => 0x66063BCA
    case 0xB => 0x11010B5C
    case 0xC => 0x8F659EFF
    case 0xD => 0xF862AE69
    case 0xE => 0x616BFFD3
    case _ => 0x166CCF45
  }

  function RowE(x: bv8): bv32 {
    match x
    case 0x0 => 0xA00AE278
    case 0x1 => 0xD70DD2EE
    case 0x2 => 0x4E048354
    case 0x3 => 0x3903B3C2
    case 0x4 => 0xA7672661
    case 0x5 => 0xD06016F7
    case 0x6 => 0x4969474D
    case 0x7 => 0x3E6E77DB
    case 0x8 => 0xAED16A4A
    case 0x9 => 0xD9D65ADC
    case 0xA => 0x40DF0B66
    case 0xB => 0x37D83BF0
    case 0xC => 0xA9BCAE53
    case 0xD => 0xDEBB9EC5
    case 0xE => 0x47B2CF7F
    case _ => 0x30B5FFE9
  }

  function RowF(x: bv8): bv32 {
    match x
    case 0x0 => 0xBDBDF21C
    case 0x1 => 0xCABAC28A
    case 0x2 => 0x53B39330
    case 0x3 => 0x24B4A3A6
    case 0x4 => 0xBAD03605
    case 0x5 => 0xCDD70693
    case 0x6 => 0x54DE5729
    case 0x7 => 0x23D967BF
    case 0x8 => 0xB3667A2E
    case 0x9 => 0xC4614AB8
    case 0xA => 0x5D681B02
    case 0xB => 0x2A6F2B94
    case 0xC => 0xB40BBE37
    case 0xD => 0xC30C8EA1
    case 0xE => 0x5A05DF1B
    case _ => 0x2D02EF8D
  }

  lemma RowIs0(x: bv8)
    requires x >> 4 == 0x0
    ensures CrcTable(x) == ShiftByte(0, x)
  {
  }

  lemma RowIs1(x: bv8)
    requires x >> 4 == 0x1
    ensures CrcTable(x) == ShiftByte(0, x)
  {
  }

  lemma RowIs2(x: bv8)
    requires x >> 4 == 0x2
    ensures CrcTable(x) == ShiftByte(0, x)
  {
  }

  lemma RowIs3(x: bv8)
    requires x >> 4 == 0x3
    ensures CrcTable(x) == ShiftByte(0, x)
  {
  }

  lemma RowIs4(x: bv8)
    requires x >> 4 == 0x4
    ensures CrcTable(x) == ShiftByte(0, x)
  {
  }

  lemma RowIs5(x: bv8)
    requires x >> 4 == 0x5
    ensures CrcTable(x) == ShiftByte(0, x)
  {
  }

  lemma RowIs6(x: bv8)
    requires x >> 4 == 0x6
    ensures CrcTable(x) == ShiftByte(0, x)
  {
  }

  lemma RowIs7(x: bv8)
    requires x >> 4 == 0x7
    ensures CrcTable(x) == ShiftByte(0, x)
  {
  }

  lemma RowIs8(x: bv8)
    requires x >> 4 == 0x8
    ensures CrcTable(x) == ShiftByte(0, x)
  {
  }

  lemma RowIs9(x: bv8)
    requires x >> 4 == 0x9
    ensures CrcTable(x) == ShiftByte(0, x)
  {
  }

  lemma RowIsA(x: bv8)
    requires x >> 4 == 0xA
    ensures CrcTable(x) == ShiftByte(0, x)
  {
  }

  lemma RowIsB(x: bv8)
    requires x >> 4 == 0xB
    ensures CrcTable(x) == ShiftByte(0, x)
  {
  }

  lemma RowIsC(x: bv8)
    requires x >> 4 == 0xC
    ensures CrcTable(x) == ShiftByte(0, x)
  {
  }

  lemma RowIsD(x: bv8)
    requires x >> 4 == 0xD
    ensures CrcTable(x) == ShiftByte(0, x)
  {
  }

  lemma RowIsE(x: bv8)
    requires x >> 4 == 0xE
    ensures CrcTable(x) == ShiftByte(0, x)
  {
  }

  lemma RowIsF(x: bv8)
    requires x >> 4 == 0xF
    ensures CrcTable(x) == ShiftByte(0, x)
  {
  }

  /** Every entry of the table is what its index leaves in an empty register. */
  lemma TableIs(x: bv8)
    ensures CrcTable(x) == ShiftByte(0, x)
  {
    hide ShiftByte, CrcTable;
    HighNibble(x);
    match x >> 4
    case 0x0 => RowIs0(x);
    case 0x1 => RowIs1(x);
    case 0x2 => RowIs2(x);
    case 0x3 => RowIs3(x);
    case 0x4 => RowIs4(x);
    case 0x5 => RowIs5(x);
    case 0x6 => RowIs6(x);
    case 0x7 => RowIs7(x);
    case 0x8 => RowIs8(x);
    case 0x9 => RowIs9(x);
    case 0xA => RowIsA(x);
    case 0xB => RowIsB(x);
    case 0xC => RowIsC(x);
    case 0xD => RowIsD(x);
    case 0xE => RowIsE(x);
    case _ => RowIsF(x);
  }

  lemma HighNibble(x: bv8)
    ensures x >> 4 <= 0xF
  {
  }

  // ---------- the table-driven step ----------

  /** (UINT8) Crc */
  function LowByte(register: bv32): bv8 {
    (register & 0xFF) as bv8
  }

  // Addition, halving and parity of registers, by name: hidden, they leave only equations to follow.

  function Sum(r: bv32, s: bv32): bv32 {
    r ^ s
  }

  function Half(r: bv32): bv32 {
    r >> 1
  }

  predicate Odd(r: bv32) {
    r & 1 == 1
  }

  lemma ShiftXor(r: bv32, s: bv32)
    ensures (r ^ s) >> 1 == (r >> 1) ^ (s >> 1)
    ensures (r ^ s) & 1 == 1 <==> ((r & 1 == 1) != (s & 1 == 1))
  {
  }

  lemma XorMoves(a: bv32, b: bv32, g: bv32)
    ensures (a ^ b) ^ g == (a ^ g) ^ b && (a ^ b) ^ g == a ^ (b ^ g) && a ^ b == (a ^ g) ^ (b ^ g)
  {
  }

  lemma BitXor(r: bv32, s: bv32)
    ensures ShiftBit(r ^ s, false) == ShiftBit(r, false) ^ ShiftBit(s, false)
  {
    ShiftXor(r, s);
    XorMoves(r >> 1, s >> 1, GENERATOR);
  }

  lemma BitXorEnters(r: bv32, v: bv32)
    ensures ShiftBit(r ^ v, false) == ShiftBit(r, v & 1 == 1) ^ (v >> 1)
  {
    ShiftXor(r, v);
    XorMoves(r >> 1, v >> 1, GENERATOR);
  }

  /** Shifting is linear. */
  lemma BitLinear(r: bv32, s: bv32)
    ensures ShiftBit(Sum(r, s), false) == Sum(ShiftBit(r, false), ShiftBit(s, false))
  {
    hide ShiftBit;
    BitXor(r, s);
  }

  /** A bit that enters has been added to the low bit of the register. */
  lemma BitEnters(r: bv32, v: bv32)
    ensures ShiftBit(Sum(r, v), false) == Sum(ShiftBit(r, Odd(v)), Half(v))
  {
    hide ShiftBit;
    BitXorEnters(r, v);
  }

  /** Eight zero bits. */
  lemma ZeroBits(r: bv32)
    ensures ShiftByte(r, 0)
            == ShiftBit(ShiftBit(ShiftBit(ShiftBit(
               ShiftBit(ShiftBit(ShiftBit(ShiftBit(r, false), false), false), false), false), false), false), false)
  {
  }

  lemma ByteLinear(r: bv32, s: bv32)
    ensures ShiftByte(Sum(r, s), 0) == Sum(ShiftByte(r, 0), ShiftByte(s, 0))
  {
    hide ShiftBit, ShiftByte, Sum;
    ZeroBits(r);
    ZeroBits(s);
    ZeroBits(Sum(r, s));
    var r1, s1 := ShiftBit(r, false), ShiftBit(s, false);
    BitLinear(r, s);
    var r2, s2 := ShiftBit(r1, false), ShiftBit(s1, false);
    BitLinear(r1, s1);
    var r3, s3 := ShiftBit(r2, false), ShiftBit(s2, false);
    BitLinear(r2, s2);
    var r4, s4 := ShiftBit(r3, false), ShiftBit(s3, false);
    BitLinear(r3, s3);
    var r5, s5 := ShiftBit(r4, false), ShiftBit(s4, false);
    BitLinear(r4, s4);
    var r6, s6 := ShiftBit(r5, false), ShiftBit(s5, false);
    BitLinear(r5, s5);
    BitLinear(r6, s6);
    BitLinear(ShiftBit(r6, false), ShiftBit(s6, false));
  }

  lemma OddBits(b: bv8, v0: bv32, v1: bv32, v2: bv32, v3: bv32, v4: bv32, v5: bv32, v6: bv32, v7: bv32, r: bv32)
    requires v0 == b as bv32 && v1 == Half(v0) && v2 == Half(v1) && v3 == Half(v2)
    requires v4 == Half(v3) && v5 == Half(v4) && v6 == Half(v5) && v7 == Half(v6)
    ensures ShiftByte(r, b)
            == ShiftBit(ShiftBit(ShiftBit(ShiftBit(ShiftBit(ShiftBit(ShiftBit(ShiftBit(
                 r, Odd(v0)), Odd(v1)), Odd(v2)), Odd(v3)), Odd(v4)), Odd(v5)), Odd(v6)), Odd(v7))
    ensures Half(v7) == 0
  {
  }

  /** A byte that enters has been added to the low byte of the register. */
  lemma ByteEnters(r: bv32, b: bv8)
    ensures ShiftByte(r, b) == ShiftByte(Sum(r, b as bv32), 0)
  {
    hide ShiftBit, ShiftByte, Sum, Half, Odd;
    var v0 := b as bv32;
    var v1, v2, v3, v4 := Half(v0), Half(Half(v0)), Half(Half(Half(v0))), Half(Half(Half(Half(v0))));
    var v5, v6, v7 := Half(v4), Half(Half(v4)), Half(Half(Half(v4)));
    OddBits(b, v0, v1, v2, v3, v4, v5, v6, v7, r);
    ZeroBits(Sum(r, v0));
    var r1 := ShiftBit(r, Odd(v0));
    BitEnters(r, v0);
    var r2 := ShiftBit(r1, Odd(v1));
    BitEnters(r1, v1);
    var r3 := ShiftBit(r2, Odd(v2));
    BitEnters(r2, v2);
    var r4 := ShiftBit(r3, Odd(v3));
    BitEnters(r3, v3);
    var r5 := ShiftBit(r4, Odd(v4));
    BitEnters(r4, v4);
    var r6 := ShiftBit(r5, Odd(v5));
    BitEnters(r5, v5);
    var r7 := ShiftBit(r6, Odd(v6));
    BitEnters(r6, v6);
    BitEnters(r7, v7);
    NothingAdded(ShiftBit(r7, Odd(v7)));
  }

  lemma NothingAdded(r: bv32)
    ensures Sum(r, 0) == r
  {
  }

  function HighBytes(r: bv32): bv32 {
    r & 0xFFFF_FF00
  }

  function Down(r: bv32): bv32 {
    r >> 8
  }

  lemma HighBytesMoveDown(r: bv32)
    ensures ShiftByte(HighBytes(r), 0) == Down(r)
  {
  }

  lemma LowAdded(r: bv32, b: bv8, x: bv8)
    requires x == LowByte(r) ^ b
    ensures Sum(r, b as bv32) == Sum(HighBytes(r), Sum(0, x as bv32))
  {
  }

  /** What is in the register above its low byte just moves down; the low byte and the byte that enters
      count only through their sum. */
  lemma ShiftSplits(r: bv32, b: bv8, x: bv8)
    requires x == LowByte(r) ^ b
    ensures ShiftByte(r, b) == Sum(Down(r), ShiftByte(0, x))
  {
    hide ShiftByte, LowByte, Sum, HighBytes, Down;
    ByteEnters(r, b);
    LowAdded(r, b, x);
    ByteLinear(HighBytes(r), Sum(0, x as bv32));
    HighBytesMoveDown(r);
    ByteEnters(0, x);
  }

  /** One round of the table-driven loop. */
  function LookUp(register: bv32, b: bv8): bv32 {
    Sum(Down(register), CrcTable(LowByte(register) ^ b))
  }

  lemma TableStep(register: bv32, b: bv8)
    ensures LookUp(register, b) == ShiftByte(register, b)
  {
    hide CrcTable, ShiftByte, LowByte, Sum, Down;
    TableIs(LowByte(register) ^ b);
    ShiftSplits(register, b, LowByte(register) ^ b);
  }

  lemma RegisterNext(data: seq<bv8>, b: bv8)
    ensures Register(data + [b]) == ShiftByte(Register(data), b)
  {
  }

  /** CalculateCrc32: one table lookup a byte computes the bit-at-a-time CRC of the buffer. */
  method CalculateCrc32(buffer: array<bv8>) returns (r: bv32)
    ensures r == Crc(buffer[..])
  {
    hide LookUp, ShiftByte, Register;
    var crc: bv32 := 0xFFFF_FFFF;
    EmptyRegister();
    assert buffer[..0] == [];
    for index := 0 to buffer.Length
      invariant crc == Register(buffer[..index])
    {
      TableStep(crc, buffer[index]);
      RegisterNext(buffer[..index], buffer[index]);
      assert buffer[..index + 1] == buffer[..index] + [buffer[index]];
      crc := LookUp(crc, buffer[index]);
    }
    assert buffer[..buffer.Length] == buffer[..];
    r := Complement(crc);
  }

  lemma EmptyRegister()
    ensures Register([]) == 0xFFFF_FFFF
  {
  }

  // ---------- what the CRC is for ----------

  lemma BitInjective(r: bv32, s: bv32, bit: bool)
    ensures ShiftBit(r, bit) == ShiftBit(s, bit) ==> r == s
  {
  }

  function FourBits(r: bv32, b1: bool, b2: bool, b3: bool, b4: bool): bv32 {
    ShiftBit(ShiftBit(ShiftBit(ShiftBit(r, b1), b2), b3), b4)
  }

  lemma FourInjective(r: bv32, s: bv32, b1: bool, b2: bool, b3: bool, b4: bool)
    requires FourBits(r, b1, b2, b3, b4) == FourBits(s, b1, b2, b3, b4)
    ensures r == s
  {
    hide ShiftBit;
    var r1, s1 := ShiftBit(r, b1), ShiftBit(s, b1);
    var r2, s2 := ShiftBit(r1, b2), ShiftBit(s1, b2);
    BitInjective(ShiftBit(r2, b3), ShiftBit(s2, b3), b4);
    BitInjective(r2, s2, b3);
    BitInjective(r1, s1, b2);
    BitInjective(r, s, b1);
  }

  lemma TwiceFour(r: bv32, b: bv8, b1: bool, b2: bool, b3: bool, b4: bool, b5: bool, b6: bool, b7: bool, b8: bool)
    requires b1 == (b & 1 == 1) && b2 == (b & 2 == 2) && b3 == (b & 4 == 4) && b4 == (b & 8 == 8)
    requires b5 == (b & 16 == 16) && b6 == (b & 32 == 32) && b7 == (b & 64 == 64) && b8 == (b & 128 == 128)
    ensures ShiftByte(r, b) == FourBits(FourBits(r, b1, b2, b3, b4), b5, b6, b7, b8)
  {
    hide ShiftBit;
  }

  lemma ShiftInjective(r: bv32, s: bv32, b: bv8)
    requires ShiftByte(r, b) == ShiftByte(s, b)
    ensures r == s
  {
    hide ShiftByte, FourBits;
    var b1, b2, b3, b4 := b & 1 == 1, b & 2 == 2, b & 4 == 4, b & 8 == 8;
    var b5, b6, b7, b8 := b & 16 == 16, b & 32 == 32, b & 64 == 64, b & 128 == 128;
    TwiceFour(r, b, b1, b2, b3, b4, b5, b6, b7, b8);
    TwiceFour(s, b, b1, b2, b3, b4, b5, b6, b7, b8);
    FourInjective(FourBits(r, b1, b2, b3, b4), FourBits(s, b1, b2, b3, b4), b5, b6, b7, b8);
    FourInjective(r, s, b1, b2, b3, b4);
  }

  lemma ZeroTells(x: bv8, y: bv8)
    ensures ShiftByte(0, x) == ShiftByte(0, y) ==> x == y
  {
  }

  lemma SumTells(a: bv32, x: bv32, y: bv32)
    ensures Sum(a, x) == Sum(a, y) ==> x == y
  {
  }

  lemma ByteSumTells(l: bv8, b: bv8, d: bv8)
    ensures l ^ b == l ^ d ==> b == d
  {
  }

  lemma ShiftTells(r: bv32, b: bv8, d: bv8)
    requires ShiftByte(r, b) == ShiftByte(r, d)
    ensures b == d
  {
    hide ShiftByte, LowByte, Sum, Down;
    var x, y := LowByte(r) ^ b, LowByte(r) ^ d;
    ShiftSplits(r, b, x);
    ShiftSplits(r, d, y);
    SumTells(Down(r), ShiftByte(0, x), ShiftByte(0, y));
    ZeroTells(x, y);
    ByteSumTells(LowByte(r), b, d);
  }

  /** Different registers stay different while the rest of the message enters. */
  lemma {:induction false} RegistersDiffer(p: seq<bv8>, q: seq<bv8>, rest: seq<bv8>)
    requires Register(p) != Register(q)
    ensures Register(p + rest) != Register(q + rest)
    decreases |rest|
  {
    hide ShiftByte;
    if rest == [] {
      assert p + rest == p && q + rest == q;
    } else {
      var n := |rest| - 1;
      RegistersDiffer(p, q, rest[..n]);
      assert p + rest == (p + rest[..n]) + [rest[n]] && q + rest == (q + rest[..n]) + [rest[n]];
      RegisterNext(p + rest[..n], rest[n]);
      RegisterNext(q + rest[..n], rest[n]);
      if Register(p + rest) == Register(q + rest) {
        ShiftInjective(Register(p + rest[..n]), Register(q + rest[..n]), rest[n]);
      }
    }
  }

  /** A change of one byte, of however many bits, always changes the CRC. */
  lemma OneByteDetected(p: seq<bv8>, b: bv8, d: bv8, rest: seq<bv8>)
    requires b != d
    ensures Crc(p + [b] + rest) != Crc(p + [d] + rest)
  {
    hide ShiftByte, Register, Complement;
    RegisterNext(p, b);
    RegisterNext(p, d);
    if Register(p + [b]) == Register(p + [d]) { ShiftTells(Register(p), b, d); }
    RegistersDiffer(p + [b], p + [d], rest);
    ComplementTells(Register(p + [b] + rest), Register(p + [d] + rest));
  }

  lemma ComplementTells(r: bv32, s: bv32)
    ensures Complement(r) == Complement(s) ==> r == s
  {
  }

  /** The CRC as it is sent after the message, low byte first. */
  function CrcBytes(crc: bv32): seq<bv8> {
    [CrcByte0(crc), CrcByte1(crc), CrcByte2(crc), CrcByte3(crc)]
  }

  function CrcByte0(crc: bv32): bv8 { LowByte(crc) }

  function CrcByte1(crc: bv32): bv8 { LowByte(crc >> 8) }

  function CrcByte2(crc: bv32): bv8 { LowByte(crc >> 16) }

  function CrcByte3(crc: bv32): bv8 { LowByte(crc >> 24) }

  lemma ShiftOwnComplement(r: bv32)
    ensures var c := Complement(r);
            ShiftByte(ShiftByte(ShiftByte(ShiftByte(r, CrcByte0(c)), CrcByte1(c)), CrcByte2(c)), CrcByte3(c)) ==
              0xDEBB_20E3
  {
  }

  lemma FourBytes(data: seq<bv8>, b: bv8, c: bv8, d: bv8, e: bv8)
    ensures Register(data + [b, c, d, e]) == ShiftByte(ShiftByte(ShiftByte(ShiftByte(Register(data), b), c), d), e)
  {
    hide ShiftByte, Register;
    RegisterNext(data, b);
    RegisterNext(data + [b], c);
    RegisterNext(data + [b] + [c], d);
    RegisterNext(data + [b] + [c] + [d], e);
    assert data + [b, c, d, e] == data + [b] + [c] + [d] + [e];
  }

  /** The receiver's test of ITU-T V.42: a message followed by its CRC leaves one fixed remainder in the
      register, whatever the message. */
  lemma FixedRemainder(data: seq<bv8>)
    ensures Register(data + CrcBytes(Crc(data))) == 0xDEBB_20E3
  {
    hide ShiftByte, Register, Complement, CrcByte0, CrcByte1, CrcByte2, CrcByte3;
    var c := Crc(data);
    FourBytes(data, CrcByte0(c), CrcByte1(c), CrcByte2(c), CrcByte3(c));
    ShiftOwnComplement(Register(data));
  }

  /** Every step of the register over the digits 1 to 9. */
  lemma CheckSteps()
    ensures ShiftByte(0xFFFFFFFF, 0x31) == 0x7C231048
    ensures ShiftByte(0x7C231048, 0x32) == 0xB0ACBB32
    ensures ShiftByte(0xB0ACBB32, 0x33) == 0x77B79C2D
    ensures ShiftByte(0x77B79C2D, 0x34) == 0x641C1F5C
    ensures ShiftByte(0x641C1F5C, 0x35) == 0x340AC5E3
    ensures ShiftByte(0x340AC5E3, 0x36) == 0xF68D2C9E
    ensures ShiftByte(0xF68D2C9E, 0x37) == 0xAFFC9660
    ensures ShiftByte(0xAFFC9660, 0x38) == 0x651F2550
    ensures ShiftByte(0x651F2550, 0x39) == 0x340BC6D9
  {
  }

  /** The usual check: the CRC-32 of the characters "123456789" is 0xCBF43926. */
  lemma CheckValue()
    ensures Crc([0x31, 0x32, 0x33, 0x34, 0x35, 0x36, 0x37, 0x38, 0x39]) == 0xCBF43926
  {
    hide ShiftByte;
    CheckSteps();
    var s: seq<bv8> := [0x31, 0x32, 0x33, 0x34, 0x35, 0x36, 0x37, 0x38, 0x39];
    FourBytes([], s[0], s[1], s[2], s[3]);
    FourBytes([] + [s[0], s[1], s[2], s[3]], s[4], s[5], s[6], s[7]);
    RegisterNext(s[..8], s[8]);
    assert s[..8] == [] + [s[0], s[1], s[2], s[3]] + [s[4], s[5], s[6], s[7]];
    assert s == s[..8] + [s[8]];
    EmptyRegister();
  }
}
