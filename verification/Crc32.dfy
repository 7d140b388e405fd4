/** CRC-32 (section 8 of RFC 1952): the program looks up a table entry for each byte; the
    specification shifts one bit at a time through a feedback register. */
module Crc32 {

  const POLYNOMIAL: bv32 := 0xEDB88320

  // ---- The specification, bit by bit ----

  predicate Odd(w: bv32) {
    w & 1 == 1
  }

  function Half(w: bv32): bv32 {
    w >> 1
  }

  function Xor(a: bv32, b: bv32): bv32 {
    a ^ b
  }

  /** One bit enters the register. */
  function Feed(c: bv32, bit: bool): bv32 {
    if Odd(c) != bit then Xor(Half(c), POLYNOMIAL) else Half(c)
  }

  function Run(c: bv32, bits: seq<bool>): bv32
    decreases |bits|
  {
    if bits == [] then c else Run(Feed(c, bits[0]), bits[1..])
  }

  /** The low n bits of a word, least significant first. */
  function LowBits(w: bv32, n: nat): (bits: seq<bool>)
    ensures |bits| == n
    decreases n
  {
    if n == 0 then [] else [Odd(w)] + LowBits(Half(w), n - 1)
  }

  function Word(b: bv8): bv32 {
    b as bv32
  }

  function Bits(data: seq<bv8>): (bits: seq<bool>)
    ensures |bits| == 8 * |data|
  {
    if data == [] then [] else Bits(data[..|data| - 1]) + LowBits(Word(data[|data| - 1]), 8)
  }

  function Crc(data: seq<bv8>): bv32 {
    !Run(0xFFFF_FFFF, Bits(data))
  }

  lemma {:induction false} RunBoth(c: bv32, a: seq<bool>, b: seq<bool>)
    ensures Run(c, a + b) == Run(Run(c, a), b)
    decreases |a|
  {
    hide Feed;
    if a == [] {
      assert a + b == b;
    } else {
      RunBoth(Feed(c, a[0]), a[1..], b);
      assert (a + b)[1..] == a[1..] + b;
    }
  }

  lemma RunNext(c: bv32, bits: seq<bool>, k: nat)
    requires k < |bits|
    ensures Run(c, bits[..k + 1]) == Feed(Run(c, bits[..k]), bits[k])
  {
    hide Feed;
    assert bits[..k + 1] == bits[..k] + [bits[k]];
    RunBoth(c, bits[..k], [bits[k]]);
  }

  // ---- Exclusive or ----

  lemma XorCommutes(a: bv32, b: bv32)
    ensures Xor(a, b) == Xor(b, a)
  {
  }

  lemma XorCancels(a: bv32)
    ensures Xor(a, a) == 0 && Xor(a, 0) == Xor(0, a) == a
  {
  }

  lemma XorShared(a: bv32, b: bv32, p: bv32)
    ensures Xor(Xor(a, p), b) == Xor(Xor(a, b), p) == Xor(a, Xor(b, p))
    ensures Xor(Xor(a, p), Xor(b, p)) == Xor(a, b)
  {
  }

  lemma XorBits(a: bv32, b: bv32)
    ensures Odd(Xor(a, b)) == (Odd(a) != Odd(b)) && Half(Xor(a, b)) == Xor(Half(a), Half(b))
  {
  }

  // ---- The table ----

  /** Eight entries of the table. */
  function Row(k: bv8, e0: bv32, e1: bv32, e2: bv32, e3: bv32, e4: bv32, e5: bv32, e6: bv32, e7: bv32): bv32 {
    if k == 0 then e0 else if k == 1 then e1 else if k == 2 then e2 else if k == 3 then e3
    else if k == 4 then e4 else if k == 5 then e5 else if k == 6 then e6 else e7
  }

  function CrcTable(i: bv8): bv32 {
    var r, k := i >> 3, i & 7;
    if r == 0 then Row(k, 0x00000000, 0x77073096, 0xEE0E612C, 0x990951BA, 0x076DC419, 0x706AF48F, 0xE963A535,
                       0x9E6495A3)
    else if r == 1 then Row(k, 0x0EDB8832, 0x79DCB8A4, 0xE0D5E91E, 0x97D2D988, 0x09B64C2B, 0x7EB17CBD, 0xE7B82D07,
                            0x90BF1D91)
    else if r == 2 then Row(k, 0x1DB71064, 0x6AB020F2, 0xF3B97148, 0x84BE41DE, 0x1ADAD47D, 0x6DDDE4EB, 0xF4D4B551,
                            0x83D385C7)
    else if r == 3 then Row(k, 0x136C9856, 0x646BA8C0, 0xFD62F97A, 0x8A65C9EC, 0x14015C4F, 0x63066CD9, 0xFA0F3D63,
                            0x8D080DF5)
    else if r == 4 then Row(k, 0x3B6E20C8, 0x4C69105E, 0xD56041E4, 0xA2677172, 0x3C03E4D1, 0x4B04D447, 0xD20D85FD,
                            0xA50AB56B)
    else if r == 5 then Row(k, 0x35B5A8FA, 0x42B2986C, 0xDBBBC9D6, 0xACBCF940, 0x32D86CE3, 0x45DF5C75, 0xDCD60DCF,
                            0xABD13D59)
    else if r == 6 then Row(k, 0x26D930AC, 0x51DE003A, 0xC8D75180, 0xBFD06116, 0x21B4F4B5, 0x56B3C423, 0xCFBA9599,
                            0xB8BDA50F)
    else if r == 7 then Row(k, 0x2802B89E, 0x5F058808, 0xC60CD9B2, 0xB10BE924, 0x2F6F7C87, 0x58684C11, 0xC1611DAB,
                            0xB6662D3D)
    else if r == 8 then Row(k, 0x76DC4190, 0x01DB7106, 0x98D220BC, 0xEFD5102A, 0x71B18589, 0x06B6B51F, 0x9FBFE4A5,
                            0xE8B8D433)
    else if r == 9 then Row(k, 0x7807C9A2, 0x0F00F934, 0x9609A88E, 0xE10E9818, 0x7F6A0DBB, 0x086D3D2D, 0x91646C97,
                            0xE6635C01)
    else if r == 10 then Row(k, 0x6B6B51F4, 0x1C6C6162, 0x856530D8, 0xF262004E, 0x6C0695ED, 0x1B01A57B, 0x8208F4C1,
                             0xF50FC457)
    else if r == 11 then Row(k, 0x65B0D9C6, 0x12B7E950, 0x8BBEB8EA, 0xFCB9887C, 0x62DD1DDF, 0x15DA2D49, 0x8CD37CF3,
                             0xFBD44C65)
    else if r == 12 then Row(k, 0x4DB26158, 0x3AB551CE, 0xA3BC0074, 0xD4BB30E2, 0x4ADFA541, 0x3DD895D7, 0xA4D1C46D,
                             0xD3D6F4FB)
    else if r == 13 then Row(k, 0x4369E96A, 0x346ED9FC, 0xAD678846, 0xDA60B8D0, 0x44042D73, 0x33031DE5, 0xAA0A4C5F,
                             0xDD0D7CC9)
    else if r == 14 then Row(k, 0x5005713C, 0x270241AA, 0xBE0B1010, 0xC90C2086, 0x5768B525, 0x206F85B3, 0xB966D409,
                             0xCE61E49F)
    else if r == 15 then Row(k, 0x5EDEF90E, 0x29D9C998, 0xB0D09822, 0xC7D7A8B4, 0x59B33D17, 0x2EB40D81, 0xB7BD5C3B,
                             0xC0BA6CAD)
    else if r == 16 then Row(k, 0xEDB88320, 0x9ABFB3B6, 0x03B6E20C, 0x74B1D29A, 0xEAD54739, 0x9DD277AF, 0x04DB2615,
                             0x73DC1683)
    else if r == 17 then Row(k, 0xE3630B12, 0x94643B84, 0x0D6D6A3E, 0x7A6A5AA8, 0xE40ECF0B, 0x9309FF9D, 0x0A00AE27,
                             0x7D079EB1)
    else if r == 18 then Row(k, 0xF00F9344, 0x8708A3D2, 0x1E01F268, 0x6906C2FE, 0xF762575D, 0x806567CB, 0x196C3671,
                             0x6E6B06E7)
    else if r == 19 then Row(k, 0xFED41B76, 0x89D32BE0, 0x10DA7A5A, 0x67DD4ACC, 0xF9B9DF6F, 0x8EBEEFF9, 0x17B7BE43,
                             0x60B08ED5)
    else if r == 20 then Row(k, 0xD6D6A3E8, 0xA1D1937E, 0x38D8C2C4, 0x4FDFF252, 0xD1BB67F1, 0xA6BC5767, 0x3FB506DD,
                             0x48B2364B)
    else if r == 21 then Row(k, 0xD80D2BDA, 0xAF0A1B4C, 0x36034AF6, 0x41047A60, 0xDF60EFC3, 0xA867DF55, 0x316E8EEF,
                             0x4669BE79)
    else if r == 22 then Row(k, 0xCB61B38C, 0xBC66831A, 0x256FD2A0, 0x5268E236, 0xCC0C7795, 0xBB0B4703, 0x220216B9,
                             0x5505262F)
    else if r == 23 then Row(k, 0xC5BA3BBE, 0xB2BD0B28, 0x2BB45A92, 0x5CB36A04, 0xC2D7FFA7, 0xB5D0CF31, 0x2CD99E8B,
                             0x5BDEAE1D)
    else if r == 24 then Row(k, 0x9B64C2B0, 0xEC63F226, 0x756AA39C, 0x026D930A, 0x9C0906A9, 0xEB0E363F, 0x72076785,
                             0x05005713)
    else if r == 25 then Row(k, 0x95BF4A82, 0xE2B87A14, 0x7BB12BAE, 0x0CB61B38, 0x92D28E9B, 0xE5D5BE0D, 0x7CDCEFB7,
                             0x0BDBDF21)
    else if r == 26 then Row(k, 0x86D3D2D4, 0xF1D4E242, 0x68DDB3F8, 0x1FDA836E, 0x81BE16CD, 0xF6B9265B, 0x6FB077E1,
                             0x18B74777)
    else if r == 27 then Row(k, 0x88085AE6, 0xFF0F6A70, 0x66063BCA, 0x11010B5C, 0x8F659EFF, 0xF862AE69, 0x616BFFD3,
                             0x166CCF45)
    else if r == 28 then Row(k, 0xA00AE278, 0xD70DD2EE, 0x4E048354, 0x3903B3C2, 0xA7672661, 0xD06016F7, 0x4969474D,
                             0x3E6E77DB)
    else if r == 29 then Row(k, 0xAED16A4A, 0xD9D65ADC, 0x40DF0B66, 0x37D83BF0, 0xA9BCAE53, 0xDEBB9EC5, 0x47B2CF7F,
                             0x30B5FFE9)
    else if r == 30 then Row(k, 0xBDBDF21C, 0xCABAC28A, 0x53B39330, 0x24B4A3A6, 0xBAD03605, 0xCDD70693, 0x54DE5729,
                             0x23D967BF)
    else Row(k, 0xB3667A2E, 0xC4614AB8, 0x5D681B02, 0x2A6F2B94, 0xB40BBE37, 0xC30C8EA1, 0x5A05DF1B, 0x2D02EF8D)
  }

  /** The register on its own. */
  function Shift(c: bv32, n: nat): bv32
    decreases n
  {
    if n == 0 then c else Shift(Feed(c, false), n - 1)
  }

  function Halved(w: bv32, n: nat): bv32
    decreases n
  {
    if n == 0 then w else Halved(Half(w), n - 1)
  }

  /** One step of the register on its own, as the standard writes it. */
  function ShiftOnce(c: bv32): bv32 {
    if c & 1 == 1 then (c >> 1) ^ 0xEDB88320 else c >> 1
  }

  function Shift8(c: bv32): bv32 {
    ShiftOnce(ShiftOnce(ShiftOnce(ShiftOnce(ShiftOnce(ShiftOnce(ShiftOnce(ShiftOnce(c))))))))
  }

  lemma ShiftsOnce(c: bv32)
    ensures ShiftOnce(c) == Feed(c, false)
  {
  }

  /** The entries of the single bits, combined. */
  function Combined(i: bv8): bv32 {
    (if i & 1 != 0 then 0x77073096 else 0) ^ (if i & 2 != 0 then 0xEE0E612C else 0)
    ^ (if i & 4 != 0 then 0x076DC419 else 0) ^ (if i & 8 != 0 then 0x0EDB8832 else 0)
    ^ (if i & 16 != 0 then 0x1DB71064 else 0) ^ (if i & 32 != 0 then 0x3B6E20C8 else 0)
    ^ (if i & 64 != 0 then 0x76DC4190 else 0) ^ (if i & 128 != 0 then 0xEDB88320 else 0)
  }

  lemma ShiftCombines(i: bv8)
    ensures Shift8(i as bv32) == Combined(i)
  {
  }

  lemma FirstRows(i: bv8)
    requires i < 64
    ensures CrcTable(i) == Combined(i)
  {
  }

  lemma SecondRows(i: bv8)
    requires 64 <= i < 128
    ensures CrcTable(i) == Combined(i)
  {
  }

  lemma ThirdRows(i: bv8)
    requires 128 <= i < 192
    ensures CrcTable(i) == Combined(i)
  {
  }

  lemma LastRows(i: bv8)
    requires 192 <= i
    ensures CrcTable(i) == Combined(i)
  {
  }

  lemma EightSteps(c: bv32)
    ensures Shift(c, 8) == Shift8(c)
  {
    hide Feed, ShiftOnce;
    ShiftsOnce(c);
    var c1 := Feed(c, false);
    ShiftsOnce(c1);
    var c2 := Feed(c1, false);
    ShiftsOnce(c2);
    var c3 := Feed(c2, false);
    ShiftsOnce(c3);
    var c4 := Feed(c3, false);
    assert Shift(c, 8) == Shift(c1, 7) == Shift(c2, 6) == Shift(c3, 5) == Shift(c4, 4);
    ShiftsOnce(c4);
    var c5 := Feed(c4, false);
    ShiftsOnce(c5);
    var c6 := Feed(c5, false);
    ShiftsOnce(c6);
    var c7 := Feed(c6, false);
    ShiftsOnce(c7);
    assert Shift(c4, 4) == Shift(c5, 3) == Shift(c6, 2) == Shift(c7, 1) == Feed(c7, false);
  }

  /** Every entry is its index shifted through the register eight times. */
  lemma TableEntry(i: bv8)
    ensures CrcTable(i) == Shift(Word(i), 8)
  {
    assert Word(i) == i as bv32;
    hide *;
    EightSteps(Word(i));
    ShiftCombines(i);
    if i < 64 {
      FirstRows(i);
    } else if i < 128 {
      SecondRows(i);
    } else if i < 192 {
      ThirdRows(i);
    } else {
      LastRows(i);
    }
  }

  /** A bit that enters may as well be put into the register with all that follow it. */
  lemma Absorb(c: bv32, w: bv32)
    ensures Feed(Xor(c, w), false) == Xor(Feed(c, Odd(w)), Half(w))
  {
    XorBits(c, w);
    XorShared(Half(c), Half(w), POLYNOMIAL);
    hide Odd, Half, Xor;
  }

  lemma {:induction false} AbsorbBits(c: bv32, w: bv32, n: nat)
    ensures Shift(Xor(c, w), n) == Xor(Run(c, LowBits(w, n)), Halved(w, n))
    decreases n
  {
    hide Feed, Xor, Odd, Half;
    if n > 0 {
      Absorb(c, w);
      AbsorbBits(Feed(c, Odd(w)), Half(w), n - 1);
    }
  }

  function High(w: bv32): bv32 {
    w >> 8
  }

  function Low(w: bv32): bv32 {
    w & 0xFF
  }

  function Index(crc: bv32, byte: bv8): bv8 {
    byte ^ ((crc & 0xFF) as bv8)
  }

  /** The program's step for a byte. */
  function TableStep(crc: bv32, byte: bv8): bv32 {
    Xor(High(crc), CrcTable(Index(crc, byte)))
  }

  lemma IndexIs(c: bv32, b: bv8)
    ensures Word(Index(c, b)) == Low(Xor(c, Word(b))) && High(c) == High(Xor(c, Word(b)))
  {
  }

  lemma Halves(w: bv32)
    ensures Halved(w, 8) == High(w)
  {
  }

  lemma HighOfByte(w: bv32, b: bv8)
    ensures High(Low(w)) == 0 && High(Word(b)) == 0
  {
  }

  predicate SameUnder(v: bv32, w: bv32, mask: bv32) {
    v & mask == w & mask
  }

  predicate Ones(mask: bv32, n: nat)
    decreases n
  {
    n > 0 ==> Odd(mask) && Ones(Half(mask), n - 1)
  }

  lemma SameUnderHalf(v: bv32, w: bv32, mask: bv32)
    requires SameUnder(v, w, mask)
    ensures SameUnder(Half(v), Half(w), Half(mask)) && (Odd(mask) ==> Odd(v) == Odd(w))
  {
  }

  lemma {:induction false} SameBits(v: bv32, w: bv32, mask: bv32, n: nat)
    requires SameUnder(v, w, mask) && Ones(mask, n)
    ensures LowBits(v, n) == LowBits(w, n)
    decreases n
  {
    hide SameUnder, Odd, Half;
    if n > 0 {
      SameUnderHalf(v, w, mask);
      SameBits(Half(v), Half(w), Half(mask), n - 1);
    }
  }

  lemma LowIsUnderMask(w: bv32)
    ensures SameUnder(Low(w), w, 0xFF) && Ones(0xFF, 8)
  {
  }

  /** Shifting a register is shifting its low byte, and moving down the rest. */
  lemma ShiftLowByte(w: bv32)
    ensures Shift(w, 8) == Xor(Shift(Low(w), 8), High(w))
  {
    hide *;
    AbsorbBits(0, w, 8);
    AbsorbBits(0, Low(w), 8);
    LowIsUnderMask(w);
    SameBits(Low(w), w, 0xFF, 8);
    Halves(w);
    Halves(Low(w));
    HighOfByte(w, 0);
    XorCancels(w);
    XorCancels(Low(w));
    XorCancels(Run(0, LowBits(w, 8)));
  }

  /** One table step is eight steps of the register. */
  lemma TableStepRuns(c: bv32, b: bv8)
    ensures TableStep(c, b) == Run(c, LowBits(Word(b), 8))
  {
    var w := Xor(c, Word(b));
    assert TableStep(c, b) == Xor(High(c), CrcTable(Index(c, b)));
    hide *;
    TableEntry(Index(c, b));
    IndexIs(c, b);
    ShiftLowByte(w);
    XorCommutes(High(c), Shift(Low(w), 8));
    AbsorbBits(c, Word(b), 8);
    Halves(Word(b));
    HighOfByte(c, b);
    XorCancels(Run(c, LowBits(Word(b), 8)));
  }

  // ---- The program ----

  lemma RunData(c: bv32, data: seq<bv8>, i: nat)
    requires i < |data|
    ensures Run(c, Bits(data[..i + 1])) == TableStep(Run(c, Bits(data[..i])), data[i])
  {
    assert data[..i + 1][..i] == data[..i];
    hide Run, LowBits, TableStep;
    RunBoth(c, Bits(data[..i]), LowBits(Word(data[i]), 8));
    TableStepRuns(Run(c, Bits(data[..i])), data[i]);
  }

  method ComputeCRC32(data: seq<bv8>) returns (r: bv32)
    ensures r == Crc(data)
  {
    var crc: bv32 := 0xFFFF_FFFF;
    assert Run(crc, Bits(data[..0])) == crc;
    assert data[..|data|] == data;
    for i := 0 to |data|
      invariant crc == Run(0xFFFF_FFFF, Bits(data[..i]))
    {
      hide *;
      RunData(0xFFFF_FFFF, data, i);
      crc := TableStep(crc, data[i]);
    }
    r := !crc;
  }

  /** The register after some data. */
  predicate Registers(data: seq<bv8>, c: bv32) {
    Run(0xFFFF_FFFF, Bits(data)) == c
  }

  lemma NextRegister(data: seq<bv8>, b: bv8, c: bv32)
    requires Registers(data, c)
    ensures Registers(data + [b], TableStep(c, b))
  {
    assert (data + [b])[..|data|] == data && (data + [b])[..|data| + 1] == data + [b];
    hide Run, Bits, TableStep;
    RunData(0xFFFF_FFFF, data + [b], |data|);
  }

  lemma CombinedEntry(i: bv8)
    ensures CrcTable(i) == Combined(i)
  {
    hide *;
    if i < 64 {
      FirstRows(i);
    } else if i < 128 {
      SecondRows(i);
    } else if i < 192 {
      ThirdRows(i);
    } else {
      LastRows(i);
    }
  }

  lemma Digit1()
    ensures TableStep(0xFFFF_FFFF, 0x31) == 0x7C23_1048
  {
    var i := Index(0xFFFF_FFFF, 0x31);
    assert i == 0xCE;
    CombinedEntry(i);
    hide CrcTable;
    assert Combined(i) == 0x7CDC_EFB7;
  }

  lemma Digit2()
    ensures TableStep(0x7C23_1048, 0x32) == 0xB0AC_BB32
  {
    var i := Index(0x7C23_1048, 0x32);
    assert i == 0x7A;
    CombinedEntry(i);
    hide CrcTable;
    assert Combined(i) == 0xB0D0_9822;
  }

  lemma Digit3()
    ensures TableStep(0xB0AC_BB32, 0x33) == 0x77B7_9C2D
  {
    var i := Index(0xB0AC_BB32, 0x33);
    assert i == 0x01;
    CombinedEntry(i);
    hide CrcTable;
    assert Combined(i) == 0x7707_3096;
  }

  lemma Digit4()
    ensures TableStep(0x77B7_9C2D, 0x34) == 0x641C_1F5C
  {
    var i := Index(0x77B7_9C2D, 0x34);
    assert i == 0x19;
    CombinedEntry(i);
    hide CrcTable;
    assert Combined(i) == 0x646B_A8C0;
  }

  lemma Digit5()
    ensures TableStep(0x641C_1F5C, 0x35) == 0x340A_C5E3
  {
    var i := Index(0x641C_1F5C, 0x35);
    assert i == 0x69;
    CombinedEntry(i);
    hide CrcTable;
    assert Combined(i) == 0x346E_D9FC;
  }

  lemma Digit6()
    ensures TableStep(0x340A_C5E3, 0x36) == 0xF68D_2C9E
  {
    var i := Index(0x340A_C5E3, 0x36);
    assert i == 0xD5;
    CombinedEntry(i);
    hide CrcTable;
    assert Combined(i) == 0xF6B9_265B;
  }

  lemma Digit7()
    ensures TableStep(0xF68D_2C9E, 0x37) == 0xAFFC_9660
  {
    var i := Index(0xF68D_2C9E, 0x37);
    assert i == 0xA9;
    CombinedEntry(i);
    hide CrcTable;
    assert Combined(i) == 0xAF0A_1B4C;
  }

  lemma Digit8()
    ensures TableStep(0xAFFC_9660, 0x38) == 0x651F_2550
  {
    var i := Index(0xAFFC_9660, 0x38);
    assert i == 0x58;
    CombinedEntry(i);
    hide CrcTable;
    assert Combined(i) == 0x65B0_D9C6;
  }

  lemma Digit9()
    ensures TableStep(0x651F_2550, 0x39) == 0x340B_C6D9
  {
    var i := Index(0x651F_2550, 0x39);
    assert i == 0x69;
    CombinedEntry(i);
    hide CrcTable;
    assert Combined(i) == 0x346E_D9FC;
  }

  lemma DigitsRun()
    ensures Registers([] + [0x31] + [0x32] + [0x33] + [0x34] + [0x35] + [0x36] + [0x37] + [0x38] + [0x39], 0x340B_C6D9)
  {
    assert Registers([], 0xFFFF_FFFF);
    hide *;
    Digit1();
    NextRegister([], 0x31, 0xFFFF_FFFF);
    Digit2();
    NextRegister([] + [0x31], 0x32, 0x7C23_1048);
    Digit3();
    NextRegister([] + [0x31] + [0x32], 0x33, 0xB0AC_BB32);
    Digit4();
    NextRegister([] + [0x31] + [0x32] + [0x33], 0x34, 0x77B7_9C2D);
    Digit5();
    NextRegister([] + [0x31] + [0x32] + [0x33] + [0x34], 0x35, 0x641C_1F5C);
    Digit6();
    NextRegister([] + [0x31] + [0x32] + [0x33] + [0x34] + [0x35], 0x36, 0x340A_C5E3);
    Digit7();
    NextRegister([] + [0x31] + [0x32] + [0x33] + [0x34] + [0x35] + [0x36], 0x37, 0xF68D_2C9E);
    Digit8();
    NextRegister([] + [0x31] + [0x32] + [0x33] + [0x34] + [0x35] + [0x36] + [0x37], 0x38, 0xAFFC_9660);
    Digit9();
    NextRegister([] + [0x31] + [0x32] + [0x33] + [0x34] + [0x35] + [0x36] + [0x37] + [0x38], 0x39, 0x651F_2550);
  }

  lemma CodeOf(data: seq<bv8>, c: bv32)
    requires Registers(data, c)
    ensures Crc(data) == !c
  {
    hide Run, Bits;
  }

  lemma DigitBytes() returns (data: seq<bv8>)
    ensures data == [0x31, 0x32, 0x33, 0x34, 0x35, 0x36, 0x37, 0x38, 0x39]
    ensures data == [] + [0x31] + [0x32] + [0x33] + [0x34] + [0x35] + [0x36] + [0x37] + [0x38] + [0x39]
  {
    data := [0x31, 0x32, 0x33, 0x34, 0x35, 0x36, 0x37, 0x38, 0x39];
  }

  lemma CodeOfNothing()
    ensures Crc([]) == 0
  {
  }

  /** The check value of the code: that of the digits 1 to 9. No data has the code 0. */
  lemma CheckValue()
    ensures Crc([0x31, 0x32, 0x33, 0x34, 0x35, 0x36, 0x37, 0x38, 0x39]) == 0xCBF4_3926 && Crc([]) == 0
  {
    hide *;
    CodeOfNothing();
    DigitsRun();
    var data := DigitBytes();
    CodeOf(data, 0x340B_C6D9);
  }

  // ---- Linearity ----

  function XorData(x: seq<bv8>, y: seq<bv8>): (z: seq<bv8>)
    requires |x| == |y|
    ensures |z| == |x|
  {
    seq(|x|, i requires 0 <= i < |x| => x[i] ^ y[i])
  }

  /** Where two bit strings differ. */
  function Difference(a: seq<bool>, b: seq<bool>): (d: seq<bool>)
    requires |a| == |b|
    ensures |d| == |a|
  {
    seq(|a|, i requires 0 <= i < |a| => a[i] != b[i])
  }

  lemma FeedDifference(c: bv32, d: bv32, a: bool, b: bool)
    ensures Feed(Xor(c, d), a != b) == Xor(Feed(c, a), Feed(d, b))
  {
    XorBits(c, d);
    XorShared(Half(c), Half(d), POLYNOMIAL);
    hide Odd, Half, Xor;
  }

  /** The register is linear. */
  lemma {:induction false} RunDifference(c: bv32, d: bv32, a: seq<bool>, b: seq<bool>)
    requires |a| == |b|
    ensures Run(Xor(c, d), Difference(a, b)) == Xor(Run(c, a), Run(d, b))
    decreases |a|
  {
    hide Feed, Xor;
    if a != [] {
      FeedDifference(c, d, a[0], b[0]);
      RunDifference(Feed(c, a[0]), Feed(d, b[0]), a[1..], b[1..]);
      assert Difference(a, b)[1..] == Difference(a[1..], b[1..]);
    }
  }

  lemma {:induction false} WordDifference(v: bv32, w: bv32, n: nat)
    ensures LowBits(Xor(v, w), n) == Difference(LowBits(v, n), LowBits(w, n))
    decreases n
  {
    hide Odd, Half, Xor;
    if n > 0 {
      XorBits(v, w);
      WordDifference(Half(v), Half(w), n - 1);
    }
  }

  lemma WordXor(a: bv8, b: bv8)
    ensures Word(a ^ b) == Xor(Word(a), Word(b))
  {
  }

  lemma DifferenceBoth(a: seq<bool>, b: seq<bool>, c: seq<bool>, d: seq<bool>)
    requires |a| == |b| && |c| == |d|
    ensures Difference(a + c, b + d) == Difference(a, b) + Difference(c, d)
  {
  }

  lemma {:induction false} DataDifference(x: seq<bv8>, y: seq<bv8>)
    requires |x| == |y|
    ensures Bits(XorData(x, y)) == Difference(Bits(x), Bits(y))
  {
    hide Word, LowBits, Xor;
    if x != [] {
      var n := |x| - 1;
      DataDifference(x[..n], y[..n]);
      assert XorData(x, y)[..n] == XorData(x[..n], y[..n]);
      WordXor(x[n], y[n]);
      WordDifference(Word(x[n]), Word(y[n]), 8);
      DifferenceBoth(Bits(x[..n]), Bits(y[..n]), LowBits(Word(x[n]), 8), LowBits(Word(y[n]), 8));
    }
  }

  /** The code is affine on byte strings of one length. */
  lemma Affine(x: seq<bv8>, y: seq<bv8>, z: seq<bv8>)
    requires |x| == |y| == |z|
    ensures Crc(x) ^ Crc(y) ^ Crc(z) == Crc(XorData(XorData(x, y), z))
  {
    DataDifference(x, y);
    DataDifference(XorData(x, y), z);
    RunDifference(0xFFFF_FFFF, 0xFFFF_FFFF, Bits(x), Bits(y));
    RunDifference(0, 0xFFFF_FFFF, Bits(XorData(x, y)), Bits(z));
    XorCancels(0xFFFF_FFFF);
    Complements(Run(0xFFFF_FFFF, Bits(x)), Run(0xFFFF_FFFF, Bits(y)), Run(0xFFFF_FFFF, Bits(z)));
    hide Run, Bits, Xor, XorData, Difference;
  }

  lemma Complements(a: bv32, b: bv32, c: bv32)
    ensures !a ^ !b ^ !c == !Xor(Xor(a, b), c)
  {
  }

  // ---- Bursts of errors ----

  /** The power of two that the register reaches at least, n bits after a burst began. */
  function Threshold(n: nat): bv32 {
    if n <= 1 then 0x8000_0000 else Half(Threshold(n - 1))
  }

  lemma ThresholdLasts(n: nat)
    requires n <= 32
    ensures Threshold(n) != 0
  {
    assert Threshold(8) == 0x0100_0000;
    assert Threshold(16) == 0x0001_0000;
    assert Threshold(24) == 0x0000_0100;
    assert Threshold(32) == 1;
  }

  predicate Reaches(c: bv32, n: nat) {
    Threshold(n) <= c
  }

  lemma FeedReaches(c: bv32, bit: bool, n: nat)
    requires n > 0 && Reaches(c, n)
    ensures Reaches(Feed(c, bit), n + 1)
  {
  }

  lemma ReachesNonzero(c: bv32, n: nat)
    requires Reaches(c, n) && n <= 32
    ensures c != 0
  {
    ThresholdLasts(n);
  }

  lemma NeverBackToZero(c: bv32)
    requires c != 0
    ensures Feed(c, false) != 0
  {
  }

  /** While a burst of up to 32 bits goes on the register stays above a power of two, and after it
      the register never returns to zero. */
  lemma {:induction false} BurstStays(d: seq<bool>, start: nat, n: nat)
    requires start < n <= |d| && d[start] && forall j | 0 <= j < |d| && (j < start || start + 32 <= j) :: !d[j]
    ensures Run(0, d[..n]) != 0
    ensures n <= start + 32 ==> Reaches(Run(0, d[..n]), n - start)
  {
    hide Feed, Run, Reaches;
    RunNext(0, d, n - 1);
    if n == start + 1 {
      Silent(d[..start]);
      BurstBegins();
    } else {
      BurstStays(d, start, n - 1);
      var before := Run(0, d[..n - 1]);
      if n <= start + 32 { FeedReaches(before, d[n - 1], n - 1 - start); } else { NeverBackToZero(before); }
    }
    if n <= start + 32 { ReachesNonzero(Run(0, d[..n]), n - start); }
  }

  lemma BurstBegins()
    ensures Reaches(Feed(0, true), 1)
  {
  }

  lemma {:induction false} Silent(d: seq<bool>)
    requires forall j | 0 <= j < |d| :: !d[j]
    ensures Run(0, d) == 0
  {
    if d != [] {
      Quiet();
      Silent(d[1..]);
    }
  }

  lemma Quiet()
    ensures Feed(0, false) == 0
  {
  }

  ghost predicate DifferInBurst(a: seq<bool>, b: seq<bool>, start: nat) {
    |a| == |b| && a != b && forall j | 0 <= j < |a| && (j < start || start + 32 <= j) :: a[j] == b[j]
  }

  lemma FirstDifference(d: seq<bool>) returns (first: nat)
    requires true in d
    ensures first < |d| && d[first] && forall j | 0 <= j < first :: !d[j]
  {
    first := 0;
    while !d[first]
      invariant first < |d| && true in d[first..]
      invariant forall j | 0 <= j < first :: !d[j]
      decreases |d| - first
    {
      first := first + 1;
    }
  }

  lemma BurstOfDifference(a: seq<bool>, b: seq<bool>, start: nat) returns (first: nat)
    requires DifferInBurst(a, b, start)
    ensures var d := Difference(a, b);
      first < |d| && d[first] && forall j | 0 <= j < |d| && (j < first || first + 32 <= j) :: !d[j]
  {
    var d := Difference(a, b);
    var k: nat :| k < |a| && a[k] != b[k];
    assert d[k];
    first := FirstDifference(d);
    assert start <= first;
  }

  /** Errors within 32 consecutive bits of a byte string, byte boundaries or not, change its code. */
  lemma BurstDetected(x: seq<bv8>, y: seq<bv8>, start: nat)
    requires |x| == |y| && DifferInBurst(Bits(x), Bits(y), start)
    ensures Crc(x) != Crc(y)
  {
    var a, b := Bits(x), Bits(y);
    var d := Difference(a, b);
    var first := BurstOfDifference(a, b, start);
    assert d[..|d|] == d;
    hide Bits, Run, Threshold, Xor, Difference, DifferInBurst;
    RunDifference(0xFFFF_FFFF, 0xFFFF_FFFF, a, b);
    BurstStays(d, first, |d|);
    XorCancels(0xFFFF_FFFF);
    XorCancels(Run(0xFFFF_FFFF, a));
  }
}
