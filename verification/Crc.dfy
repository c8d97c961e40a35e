/** CRC-32 of gnu-efi/lib/crc.c: the table-driven loop, the header stamping and checking built on
    it, and the error patterns the check can and cannot see.

    The reference is the bit-serial reflected CRC-32 (polynomial 0xEDB88320, section 8 of RFC 1952):
    the register takes one message bit at a time, least significant bit of each byte first.
 */
module Crc {

  const INITIAL: bv32 := 0xFFFFFFFF

  // ----- the reference: one message bit at a time -----

  function Xor(a: bv32, b: bv32): bv32 {
    a ^ b
  }

  /** One shift of the reflected register. */
  function Step(s: bv32): bv32 {
    if s & 1 == 1 then (s >> 1) ^ 0xEDB88320 else s >> 1
  }

  function Low(bit: bool): bv32 {
    if bit then 1 else 0
  }

  /** The register after the message bits `bits`, starting from `s`. */
  function Feed(s: bv32, bits: seq<bool>): bv32 {
    if bits == [] then s else Step(Xor(Feed(s, bits[..|bits| - 1]), Low(bits[|bits| - 1])))
  }

  function Bits8(b: bv8): (bits: seq<bool>)
    ensures |bits| == 8
  {
    [b & 1 == 1, b & 2 == 2, b & 4 == 4, b & 8 == 8, b & 16 == 16, b & 32 == 32, b & 64 == 64, b & 128 == 128]
  }

  function Bits(data: seq<bv8>): (bits: seq<bool>)
    ensures |bits| == 8 * |data|
  {
    if data == [] then [] else Bits(data[..|data| - 1]) + Bits8(data[|data| - 1])
  }

  function Crc32(data: seq<bv8>): bv32 {
    Xor(Feed(INITIAL, Bits(data)), INITIAL)
  }

  // ----- the algebra of the register: everything is linear over exclusive or -----

  lemma XorAssociates(a: bv32, b: bv32, c: bv32)
    ensures Xor(Xor(a, b), c) == Xor(a, Xor(b, c))
  {
    assert (a ^ b) ^ c == a ^ (b ^ c);
  }

  lemma XorCommutes(a: bv32, b: bv32)
    ensures Xor(a, b) == Xor(b, a)
  {}

  lemma XorCancels(a: bv32, b: bv32)
    ensures Xor(Xor(a, b), b) == a && Xor(a, 0) == a && Xor(a, a) == 0
  {
    assert (a ^ b) ^ b == a;
  }

  lemma ShiftOfXor(s: bv32, t: bv32)
    ensures (s ^ t) & 1 == 1 <==> (s & 1 == 1) != (t & 1 == 1)
    ensures (s ^ t) >> 1 == (s >> 1) ^ (t >> 1)
  {}

  lemma XorRearranged(a: bv32, b: bv32, c: bv32)
    ensures (a ^ c) ^ b == (a ^ b) ^ c && a ^ (b ^ c) == (a ^ b) ^ c && (a ^ c) ^ (b ^ c) == a ^ b
  {}

  lemma StepLinear(s: bv32, t: bv32)
    ensures Step(Xor(s, t)) == Xor(Step(s), Step(t))
  {
    ShiftOfXor(s, t);
    XorRearranged(s >> 1, t >> 1, 0xEDB88320);
  }

  /** Eight shifts at once: what one table entry stands for. */
  function Step8(s: bv32): bv32 {
    Step(Step(Step(Step(Step(Step(Step(Step(s))))))))
  }

  lemma Step8Linear(s: bv32, t: bv32)
    ensures Step8(Xor(s, t)) == Xor(Step8(s), Step8(t))
  {
    hide Step, Xor;
    StepLinear(s, t);
    var s1, t1 := Step(s), Step(t);
    StepLinear(s1, t1);
    var s2, t2 := Step(s1), Step(t1);
    StepLinear(s2, t2);
    var s3, t3 := Step(s2), Step(t2);
    StepLinear(s3, t3);
    var s4, t4 := Step(s3), Step(t3);
    StepLinear(s4, t4);
    var s5, t5 := Step(s4), Step(t4);
    StepLinear(s5, t5);
    var s6, t6 := Step(s5), Step(t5);
    StepLinear(s6, t6);
    StepLinear(Step(s6), Step(t6));
  }

  // ----- the table -----

  /** CRCTable[i]. The 256 literals of the initialiser are kept in rows of sixteen. */
  function CrcTable(i: bv8): (e: bv32)
    ensures e == Step8(i as bv32)
  {
    match i >> 4
    case 0 => Row0(i & 15) case 1 => Row1(i & 15) case 2 => Row2(i & 15) case 3 => Row3(i & 15)
    case 4 => Row4(i & 15) case 5 => Row5(i & 15) case 6 => Row6(i & 15) case 7 => Row7(i & 15)
    case 8 => Row8(i & 15) case 9 => Row9(i & 15) case 10 => RowA(i & 15) case 11 => RowB(i & 15)
    case 12 => RowC(i & 15) case 13 => RowD(i & 15) case 14 => RowE(i & 15) case _ => RowF(i & 15)
  }

  function Row0(k: bv8): (e: bv32)
    requires k < 16
    ensures e == Step8(0x00 | k as bv32)
  {
    match k
    case 0 => 0x00000000 case 1 => 0x77073096 case 2 => 0xEE0E612C case 3 => 0x990951BA
    case 4 => 0x076DC419 case 5 => 0x706AF48F case 6 => 0xE963A535 case 7 => 0x9E6495A3
    case 8 => 0x0EDB8832 case 9 => 0x79DCB8A4 case 10 => 0xE0D5E91E case 11 => 0x97D2D988
    case 12 => 0x09B64C2B case 13 => 0x7EB17CBD case 14 => 0xE7B82D07 case _ => 0x90BF1D91
  }

  function Row1(k: bv8): (e: bv32)
    requires k < 16
    ensures e == Step8(0x10 | k as bv32)
  {
    match k
    case 0 => 0x1DB71064 case 1 => 0x6AB020F2 case 2 => 0xF3B97148 case 3 => 0x84BE41DE
    case 4 => 0x1ADAD47D case 5 => 0x6DDDE4EB case 6 => 0xF4D4B551 case 7 => 0x83D385C7
    case 8 => 0x136C9856 case 9 => 0x646BA8C0 case 10 => 0xFD62F97A case 11 => 0x8A65C9EC
    case 12 => 0x14015C4F case 13 => 0x63066CD9 case 14 => 0xFA0F3D63 case _ => 0x8D080DF5
  }

  function Row2(k: bv8): (e: bv32)
    requires k < 16
    ensures e == Step8(0x20 | k as bv32)
  {
    match k
    case 0 => 0x3B6E20C8 case 1 => 0x4C69105E case 2 => 0xD56041E4 case 3 => 0xA2677172
    case 4 => 0x3C03E4D1 case 5 => 0x4B04D447 case 6 => 0xD20D85FD case 7 => 0xA50AB56B
    case 8 => 0x35B5A8FA case 9 => 0x42B2986C case 10 => 0xDBBBC9D6 case 11 => 0xACBCF940
    case 12 => 0x32D86CE3 case 13 => 0x45DF5C75 case 14 => 0xDCD60DCF case _ => 0xABD13D59
  }

  function Row3(k: bv8): (e: bv32)
    requires k < 16
    ensures e == Step8(0x30 | k as bv32)
  {
    match k
    case 0 => 0x26D930AC case 1 => 0x51DE003A case 2 => 0xC8D75180 case 3 => 0xBFD06116
    case 4 => 0x21B4F4B5 case 5 => 0x56B3C423 case 6 => 0xCFBA9599 case 7 => 0xB8BDA50F
    case 8 => 0x2802B89E case 9 => 0x5F058808 case 10 => 0xC60CD9B2 case 11 => 0xB10BE924
    case 12 => 0x2F6F7C87 case 13 => 0x58684C11 case 14 => 0xC1611DAB case _ => 0xB6662D3D
  }

  function Row4(k: bv8): (e: bv32)
    requires k < 16
    ensures e == Step8(0x40 | k as bv32)
  {
    match k
    case 0 => 0x76DC4190 case 1 => 0x01DB7106 case 2 => 0x98D220BC case 3 => 0xEFD5102A
    case 4 => 0x71B18589 case 5 => 0x06B6B51F case 6 => 0x9FBFE4A5 case 7 => 0xE8B8D433
    case 8 => 0x7807C9A2 case 9 => 0x0F00F934 case 10 => 0x9609A88E case 11 => 0xE10E9818
    case 12 => 0x7F6A0DBB case 13 => 0x086D3D2D case 14 => 0x91646C97 case _ => 0xE6635C01
  }

  function Row5(k: bv8): (e: bv32)
    requires k < 16
    ensures e == Step8(0x50 | k as bv32)
  {
    match k
    case 0 => 0x6B6B51F4 case 1 => 0x1C6C6162 case 2 => 0x856530D8 case 3 => 0xF262004E
    case 4 => 0x6C0695ED case 5 => 0x1B01A57B case 6 => 0x8208F4C1 case 7 => 0xF50FC457
    case 8 => 0x65B0D9C6 case 9 => 0x12B7E950 case 10 => 0x8BBEB8EA case 11 => 0xFCB9887C
    case 12 => 0x62DD1DDF case 13 => 0x15DA2D49 case 14 => 0x8CD37CF3 case _ => 0xFBD44C65
  }

  function Row6(k: bv8): (e: bv32)
    requires k < 16
    ensures e == Step8(0x60 | k as bv32)
  {
    match k
    case 0 => 0x4DB26158 case 1 => 0x3AB551CE case 2 => 0xA3BC0074 case 3 => 0xD4BB30E2
    case 4 => 0x4ADFA541 case 5 => 0x3DD895D7 case 6 => 0xA4D1C46D case 7 => 0xD3D6F4FB
    case 8 => 0x4369E96A case 9 => 0x346ED9FC case 10 => 0xAD678846 case 11 => 0xDA60B8D0
    case 12 => 0x44042D73 case 13 => 0x33031DE5 case 14 => 0xAA0A4C5F case _ => 0xDD0D7CC9
  }

  function Row7(k: bv8): (e: bv32)
    requires k < 16
    ensures e == Step8(0x70 | k as bv32)
  {
    match k
    case 0 => 0x5005713C case 1 => 0x270241AA case 2 => 0xBE0B1010 case 3 => 0xC90C2086
    case 4 => 0x5768B525 case 5 => 0x206F85B3 case 6 => 0xB966D409 case 7 => 0xCE61E49F
    case 8 => 0x5EDEF90E case 9 => 0x29D9C998 case 10 => 0xB0D09822 case 11 => 0xC7D7A8B4
    case 12 => 0x59B33D17 case 13 => 0x2EB40D81 case 14 => 0xB7BD5C3B case _ => 0xC0BA6CAD
  }

  function Row8(k: bv8): (e: bv32)
    requires k < 16
    ensures e == Step8(0x80 | k as bv32)
  {
    match k
    case 0 => 0xEDB88320 case 1 => 0x9ABFB3B6 case 2 => 0x03B6E20C case 3 => 0x74B1D29A
    case 4 => 0xEAD54739 case 5 => 0x9DD277AF case 6 => 0x04DB2615 case 7 => 0x73DC1683
    case 8 => 0xE3630B12 case 9 => 0x94643B84 case 10 => 0x0D6D6A3E case 11 => 0x7A6A5AA8
    case 12 => 0xE40ECF0B case 13 => 0x9309FF9D case 14 => 0x0A00AE27 case _ => 0x7D079EB1
  }

  function Row9(k: bv8): (e: bv32)
    requires k < 16
    ensures e == Step8(0x90 | k as bv32)
  {
    match k
    case 0 => 0xF00F9344 case 1 => 0x8708A3D2 case 2 => 0x1E01F268 case 3 => 0x6906C2FE
    case 4 => 0xF762575D case 5 => 0x806567CB case 6 => 0x196C3671 case 7 => 0x6E6B06E7
    case 8 => 0xFED41B76 case 9 => 0x89D32BE0 case 10 => 0x10DA7A5A case 11 => 0x67DD4ACC
    case 12 => 0xF9B9DF6F case 13 => 0x8EBEEFF9 case 14 => 0x17B7BE43 case _ => 0x60B08ED5
  }

  function RowA(k: bv8): (e: bv32)
    requires k < 16
    ensures e == Step8(0xA0 | k as bv32)
  {
    match k
    case 0 => 0xD6D6A3E8 case 1 => 0xA1D1937E case 2 => 0x38D8C2C4 case 3 => 0x4FDFF252
    case 4 => 0xD1BB67F1 case 5 => 0xA6BC5767 case 6 => 0x3FB506DD case 7 => 0x48B2364B
    case 8 => 0xD80D2BDA case 9 => 0xAF0A1B4C case 10 => 0x36034AF6 case 11 => 0x41047A60
    case 12 => 0xDF60EFC3 case 13 => 0xA867DF55 case 14 => 0x316E8EEF case _ => 0x4669BE79
  }

  function RowB(k: bv8): (e: bv32)
    requires k < 16
    ensures e == Step8(0xB0 | k as bv32)
  {
    match k
    case 0 => 0xCB61B38C case 1 => 0xBC66831A case 2 => 0x256FD2A0 case 3 => 0x5268E236
    case 4 => 0xCC0C7795 case 5 => 0xBB0B4703 case 6 => 0x220216B9 case 7 => 0x5505262F
    case 8 => 0xC5BA3BBE case 9 => 0xB2BD0B28 case 10 => 0x2BB45A92 case 11 => 0x5CB36A04
    case 12 => 0xC2D7FFA7 case 13 => 0xB5D0CF31 case 14 => 0x2CD99E8B case _ => 0x5BDEAE1D
  }

  function RowC(k: bv8): (e: bv32)
    requires k < 16
    ensures e == Step8(0xC0 | k as bv32)
  {
    match k
    case 0 => 0x9B64C2B0 case 1 => 0xEC63F226 case 2 => 0x756AA39C case 3 => 0x026D930A
    case 4 => 0x9C0906A9 case 5 => 0xEB0E363F case 6 => 0x72076785 case 7 => 0x05005713
    case 8 => 0x95BF4A82 case 9 => 0xE2B87A14 case 10 => 0x7BB12BAE case 11 => 0x0CB61B38
    case 12 => 0x92D28E9B case 13 => 0xE5D5BE0D case 14 => 0x7CDCEFB7 case _ => 0x0BDBDF21
  }

  function RowD(k: bv8): (e: bv32)
    requires k < 16
    ensures e == Step8(0xD0 | k as bv32)
  {
    match k
    case 0 => 0x86D3D2D4 case 1 => 0xF1D4E242 case 2 => 0x68DDB3F8 case 3 => 0x1FDA836E
    case 4 => 0x81BE16CD case 5 => 0xF6B9265B case 6 => 0x6FB077E1 case 7 => 0x18B74777
    case 8 => 0x88085AE6 case 9 => 0xFF0F6A70 case 10 => 0x66063BCA case 11 => 0x11010B5C
    case 12 => 0x8F659EFF case 13 => 0xF862AE69 case 14 => 0x616BFFD3 case _ => 0x166CCF45
  }

  function RowE(k: bv8): (e: bv32)
    requires k < 16
    ensures e == Step8(0xE0 | k as bv32)
  {
    match k
    case 0 => 0xA00AE278 case 1 => 0xD70DD2EE case 2 => 0x4E048354 case 3 => 0x3903B3C2
    case 4 => 0xA7672661 case 5 => 0xD06016F7 case 6 => 0x4969474D case 7 => 0x3E6E77DB
    case 8 => 0xAED16A4A case 9 => 0xD9D65ADC case 10 => 0x40DF0B66 case 11 => 0x37D83BF0
    case 12 => 0xA9BCAE53 case 13 => 0xDEBB9EC5 case 14 => 0x47B2CF7F case _ => 0x30B5FFE9
  }

  function RowF(k: bv8): (e: bv32)
    requires k < 16
    ensures e == Step8(0xF0 | k as bv32)
  {
    match k
    case 0 => 0xBDBDF21C case 1 => 0xCABAC28A case 2 => 0x53B39330 case 3 => 0x24B4A3A6
    case 4 => 0xBAD03605 case 5 => 0xCDD70693 case 6 => 0x54DE5729 case 7 => 0x23D967BF
    case 8 => 0xB3667A2E case 9 => 0xC4614AB8 case 10 => 0x5D681B02 case 11 => 0x2A6F2B94
    case 12 => 0xB40BBE37 case 13 => 0xC30C8EA1 case 14 => 0x5A05DF1B case _ => 0x2D02EF8D
  }

  // ----- the loop -----

  lemma {:induction false} FeedConcat(s: bv32, u: seq<bool>, v: seq<bool>)
    ensures Feed(s, u + v) == Feed(Feed(s, u), v)
  {
    hide Step, Low, Xor;
    if v == [] {
      assert u + v == u;
    } else {
      var n := |v| - 1;
      assert (u + v)[..|u| + n] == u + v[..n];
      FeedConcat(s, u, v[..n]);
    }
  }

  lemma FeedNext(s: bv32, bits: seq<bool>, n: nat)
    requires n < |bits|
    ensures Feed(s, bits[..n + 1]) == Step(Xor(Feed(s, bits[..n]), Low(bits[n])))
  {
    hide Step, Low, Xor;
    assert bits[..n + 1][..n] == bits[..n];
  }

  predicate Odd(m: bv32) {
    m & 1 == 1
  }

  function Half(m: bv32): bv32 {
    m >> 1
  }

  function Steps(s: bv32, n: nat): bv32 {
    if n == 0 then s else Step(Steps(s, n - 1))
  }

  lemma LowSplit(m: bv32)
    ensures m == Xor(Low(Odd(m)), m & 0xFFFFFFFE)
    ensures Step(m & 0xFFFFFFFE) == Half(m)
  {}

  /** Only the low bit of what is mixed in takes part in one shift; the rest just moves down. */
  lemma StepMixed(s: bv32, m: bv32)
    ensures Step(Xor(s, m)) == Xor(Step(Xor(s, Low(Odd(m)))), Half(m))
  {
    LowSplit(m);
    var low, rest := Low(Odd(m)), m & 0xFFFFFFFE;
    hide Step, Low, Xor, Odd, Half;
    XorAssociates(s, low, rest);
    StepLinear(Xor(s, low), rest);
  }

  /** `ms` lists a word as its bits are shifted out one by one, and `bits` lists those bits. */
  ghost predicate ShiftedOut(ms: seq<bv32>, bits: seq<bool>) {
    && |ms| == |bits| + 1
    && forall k :: 0 <= k < |bits| ==> ms[k + 1] == Half(ms[k]) && bits[k] == Odd(ms[k])
  }

  /** Mixing in a whole word and shifting it through is feeding its bits, lowest first. */
  lemma {:induction false} FeedWord(s: bv32, ms: seq<bv32>, bits: seq<bool>, n: nat)
    requires ShiftedOut(ms, bits) && n <= |bits|
    ensures Steps(Xor(s, ms[0]), n) == Xor(Feed(s, bits[..n]), ms[n])
  {
    hide Step, Low, Xor, Odd, Half;
    if n != 0 {
      FeedWord(s, ms, bits, n - 1);
      FeedNext(s, bits, n - 1);
      StepMixed(Feed(s, bits[..n - 1]), ms[n - 1]);
    }
  }

  lemma Steps8(s: bv32)
    ensures Steps(s, 8) == Step8(s)
  {
    hide Step;
    assert Steps(s, 1) == Step(s);
    assert Steps(s, 2) == Step(Step(s));
    assert Steps(s, 3) == Step(Steps(s, 2));
    assert Steps(s, 4) == Step(Steps(s, 3));
    assert Steps(s, 5) == Step(Steps(s, 4));
    assert Steps(s, 6) == Step(Steps(s, 5));
    assert Steps(s, 7) == Step(Steps(s, 6));
  }

  /** The byte and what is left of it as its bits are shifted out. */
  function ByteWords(b: bv8): (ms: seq<bv32>)
    ensures |ms| == 9
  {
    var m := b as bv32;
    [m, m >> 1, m >> 2, m >> 3, m >> 4, m >> 5, m >> 6, m >> 7, 0]
  }

  lemma Halves(m: bv32)
    requires m < 256
    ensures Half(m) == m >> 1 && Half(m >> 1) == m >> 2 && Half(m >> 2) == m >> 3 && Half(m >> 3) == m >> 4
    ensures Half(m >> 4) == m >> 5 && Half(m >> 5) == m >> 6 && Half(m >> 6) == m >> 7 && Half(m >> 7) == 0
  {}

  lemma LowBits(b: bv8)
    ensures var m := b as bv32;
      && (b & 1 == 1) == Odd(m) && (b & 2 == 2) == Odd(m >> 1)
      && (b & 4 == 4) == Odd(m >> 2) && (b & 8 == 8) == Odd(m >> 3)
  {}

  lemma HighBits(b: bv8)
    ensures var m := b as bv32;
      && (b & 16 == 16) == Odd(m >> 4) && (b & 32 == 32) == Odd(m >> 5)
      && (b & 64 == 64) == Odd(m >> 6) && (b & 128 == 128) == Odd(m >> 7)
  {}

  lemma WordsHalve(b: bv8, k: nat)
    requires k < 8
    ensures ByteWords(b)[k + 1] == Half(ByteWords(b)[k])
  {
    Halves(b as bv32);
    hide Half;
  }

  lemma WordsShowBits(b: bv8, k: nat)
    requires k < 8
    ensures Bits8(b)[k] == Odd(ByteWords(b)[k])
  {
    LowBits(b);
    HighBits(b);
    hide Odd;
  }

  lemma ShiftedOutByte(b: bv8)
    ensures ShiftedOut(ByteWords(b), Bits8(b))
  {
    hide Odd, Half, ByteWords, Bits8;
    forall k | 0 <= k < 8
      ensures ByteWords(b)[k + 1] == Half(ByteWords(b)[k]) && Bits8(b)[k] == Odd(ByteWords(b)[k])
    {
      WordsHalve(b, k);
      WordsShowBits(b, k);
    }
  }

  /** Feeding the eight bits of a byte is eight shifts of the register with the byte mixed in. */
  lemma FeedByte(s: bv32, b: bv8)
    ensures Feed(s, Bits8(b)) == Step8(Xor(s, b as bv32))
  {
    var ms := ByteWords(b);
    assert ms[0] == b as bv32 && ms[8] == 0;
    hide *;
    ShiftedOutByte(b);
    assert Bits8(b)[..8] == Bits8(b);
    FeedWord(s, ms, Bits8(b), 8);
    Steps8(Xor(s, b as bv32));
    XorCancels(Feed(s, Bits8(b)), 0);
  }

  lemma TableIndex(s: bv32, b: bv8)
    ensures ((s & 0xFF) as bv8 ^ b) as bv32 == Xor(s, b as bv32) & 0xFF
    ensures Xor(s, b as bv32) >> 8 == s >> 8
  {}

  lemma ByteSplit(s: bv32)
    ensures s == Xor(s & 0xFF, s & 0xFFFFFF00)
    ensures Step8(s & 0xFFFFFF00) == s >> 8
  {}

  /** The loop body on a 32-bit register. */
  function TableLoop(s: bv32, b: bv8): bv32 {
    Xor(s >> 8, CrcTable((s & 0xFF) as bv8 ^ b))
  }

  /** The loop body's table step feeds the register the eight bits of a byte. */
  lemma TableStep(s: bv32, b: bv8)
    ensures TableLoop(s, b) == Feed(s, Bits8(b))
  {
    FeedByte(s, b);
    hide Xor, Step8, CrcTable, Feed, Bits8;
    var x := Xor(s, b as bv32);
    TableIndex(s, b);
    ByteSplit(x);
    Step8Linear(x & 0xFF, x & 0xFFFFFF00);
    XorCommutes(Step8(x & 0xFF), s >> 8);
  }

  lemma BitsNext(data: seq<bv8>, n: nat)
    requires n < |data|
    ensures Bits(data[..n + 1]) == Bits(data[..n]) + Bits8(data[n])
  {
    assert data[..n + 1][..n] == data[..n];
  }

  /** One turn of the loop: the table step advances the register over one more byte. */
  lemma LoopStep(data: seq<bv8>, n: nat)
    requires n < |data|
    ensures Feed(INITIAL, Bits(data[..n + 1])) == TableLoop(Feed(INITIAL, Bits(data[..n])), data[n])
  {
    var s := Feed(INITIAL, Bits(data[..n]));
    TableStep(s, data[n]);
    hide *;
    BitsNext(data, n);
    FeedConcat(INITIAL, Bits(data[..n]), Bits8(data[n]));
  }

  // `Crc` is a UINTN, 64 bits wide; its upper half stays zero.

  function Widen(s: bv32): bv64 {
    s as bv64
  }

  function WideMix(wide: bv64, entry: bv32): bv64 {
    (wide >> 8) ^ Widen(entry)
  }

  function WideIndex(wide: bv64, b: bv8): bv8 {
    (wide & 0xFF) as bv8 ^ b
  }

  /** The loop body: gnu-efi/lib/crc.c:212. */
  function WideLoop(wide: bv64, b: bv8): bv64 {
    WideMix(wide, CrcTable(WideIndex(wide, b)))
  }

  /** The final complement and the cast to UINT32: gnu-efi/lib/crc.c:216-217. */
  function WideEnd(wide: bv64): bv32 {
    ((wide ^ 0xFFFFFFFF) & 0xFFFFFFFF) as bv32
  }

  lemma WideIndexNarrow(s: bv32, b: bv8)
    ensures WideIndex(Widen(s), b) == (s & 0xFF) as bv8 ^ b
  {
    assert ((s as bv64) & 0xFF) as bv8 == (s & 0xFF) as bv8;
  }

  lemma WideMixNarrow(s: bv32, entry: bv32)
    ensures WideMix(Widen(s), entry) == Widen(Xor(s >> 8, entry))
  {
    assert ((s as bv64) >> 8) ^ entry as bv64 == ((s >> 8) ^ entry) as bv64;
  }

  lemma WideLoopNarrow(s: bv32, b: bv8)
    ensures WideLoop(Widen(s), b) == Widen(TableLoop(s, b))
  {
    WideIndexNarrow(s, b);
    WideMixNarrow(s, CrcTable((s & 0xFF) as bv8 ^ b));
    hide CrcTable, WideMix, WideIndex, Widen, Xor;
  }

  lemma WideEndNarrow(s: bv32)
    ensures WideEnd(Widen(s)) == Xor(s, INITIAL)
  {
    assert (((s as bv64) ^ 0xFFFFFFFF) & 0xFFFFFFFF) as bv32 == s ^ 0xFFFFFFFF;
  }

  /** CalculateCrc. */
  method CalculateCrc(pt: array<bv8>, size: nat) returns (crc: bv32)
    requires size <= pt.Length
    ensures crc == Crc32(pt[..size])
  {
    var wide: bv64 := 0xFFFFFFFF;
    assert wide == Widen(Feed(INITIAL, Bits(pt[..0])));
    hide Feed, Bits, Xor, CrcTable, TableLoop, Widen, WideLoop, WideEnd;
    var i := 0;
    while i < size
      invariant i <= size
      invariant wide == Widen(Feed(INITIAL, Bits(pt[..i])))
    {
      LoopStep(pt[..], i);
      WideLoopNarrow(Feed(INITIAL, Bits(pt[..i])), pt[i]);
      wide := WideLoop(wide, pt[i]);
      i := i + 1;
    }
    WideEndNarrow(Feed(INITIAL, Bits(pt[..size])));
    crc := WideEnd(wide);
  }

  // ----- which changes a CRC can see -----

  function Diff(u: seq<bool>, v: seq<bool>): (e: seq<bool>)
    requires |u| == |v|
    ensures |e| == |u| && forall i :: 0 <= i < |e| ==> e[i] == (u[i] != v[i])
  {
    seq(|u|, i requires 0 <= i < |u| => u[i] != v[i])
  }

  lemma LowDiffers(a: bool, b: bool)
    ensures Xor(Low(a), Low(b)) == Low(a != b)
  {}

  lemma FeedStepDiffers(s: bv32, u: seq<bool>, v: seq<bool>, d: seq<bool>, n: nat)
    requires |u| == |v| == |d| == n + 1
    requires d[n] == (u[n] != v[n])
    requires Xor(Feed(s, u[..n]), Feed(s, v[..n])) == Feed(0, d[..n])
    ensures Xor(Feed(s, u), Feed(s, v)) == Feed(0, d)
  {
    hide *;
    assert u[..n + 1] == u && v[..n + 1] == v && d[..n + 1] == d;
    FeedNext(s, u, n);
    FeedNext(s, v, n);
    FeedNext(0, d, n);
    var s', t', a, b := Feed(s, u[..n]), Feed(s, v[..n]), Low(u[n]), Low(v[n]);
    LowDiffers(u[n], v[n]);
    StepLinear(Xor(s', a), Xor(t', b));
    XorAssociates(s', a, Xor(t', b));
    XorAssociates(a, t', b);
    XorCommutes(a, t');
    XorAssociates(t', a, b);
    XorAssociates(s', t', Xor(a, b));
  }

  /** The registers of two messages differ by what the register makes of their difference. */
  lemma {:induction false} FeedOfDifference(s: bv32, u: seq<bool>, v: seq<bool>)
    requires |u| == |v|
    ensures Xor(Feed(s, u), Feed(s, v)) == Feed(0, Diff(u, v))
  {
    if u == [] {
      assert Diff(u, v) == [];
      XorCancels(s, 0);
    } else {
      var n := |u| - 1;
      var d := Diff(u, v);
      assert d[..n] == Diff(u[..n], v[..n]);
      hide Step, Xor, Low, Diff, Feed;
      FeedOfDifference(s, u[..n], v[..n]);
      FeedStepDiffers(s, u, v, d, n);
    }
  }

  lemma XorEqual(a: bv32, b: bv32, c: bv32)
    ensures Xor(Xor(a, c), Xor(b, c)) == Xor(a, b)
    ensures Xor(a, b) == 0 <==> a == b
  {
    XorRearranged(a, b, c);
    ZeroWhenEqual(a, b);
  }

  lemma ZeroWhenEqual(a: bv32, b: bv32)
    ensures a ^ b == 0 <==> a == b
  {}

  /** A change goes unseen exactly when the register, started at zero, swallows the error pattern. */
  lemma SameCrcIff(a: seq<bv8>, b: seq<bv8>)
    requires |a| == |b|
    ensures Crc32(a) == Crc32(b) <==> Feed(0, Diff(Bits(a), Bits(b))) == 0
  {
    var x, y := Feed(INITIAL, Bits(a)), Feed(INITIAL, Bits(b));
    FeedOfDifference(INITIAL, Bits(a), Bits(b));
    XorEqual(x, y, INITIAL);
    XorEqual(Crc32(a), Crc32(b), 0);
    hide Feed, Xor, Bits, Diff;
  }

  function Top(m: nat): bv32
    requires m < 32
  {
    match m
    case 0 => 0x1 case 1 => 0x2 case 2 => 0x4 case 3 => 0x8
    case 4 => 0x10 case 5 => 0x20 case 6 => 0x40 case 7 => 0x80
    case 8 => 0x100 case 9 => 0x200 case 10 => 0x400 case 11 => 0x800
    case 12 => 0x1000 case 13 => 0x2000 case 14 => 0x4000 case 15 => 0x8000
    case 16 => 0x10000 case 17 => 0x20000 case 18 => 0x40000 case 19 => 0x80000
    case 20 => 0x100000 case 21 => 0x200000 case 22 => 0x400000 case 23 => 0x800000
    case 24 => 0x1000000 case 25 => 0x2000000 case 26 => 0x4000000 case 27 => 0x8000000
    case 28 => 0x10000000 case 29 => 0x20000000 case 30 => 0x40000000 case _ => 0x80000000
  }

  predicate AtLeast(s: bv32, h: bv32) {
    h <= s
  }

  predicate HasHalf(h: bv32) {
    2 <= h <= 0x80000000
  }

  lemma TopHalves(m: nat)
    requires 0 < m < 32
    ensures HasHalf(Top(m)) && Half(Top(m)) == Top(m - 1)
  {}

  /** The register has a bit set at position `m` or above. */
  ghost predicate Alive(s: bv32, m: nat)
    requires m < 32
  {
    AtLeast(s, Top(m))
  }

  lemma StepKeepsHalf(s: bv32, bit: bool, h: bv32)
    requires HasHalf(h) && AtLeast(s, h)
    ensures AtLeast(Step(Xor(s, Low(bit))), Half(h))
  {}

  /** One shift moves the highest set bit down by at most one. */
  lemma StepAlive(s: bv32, bit: bool, m: nat)
    requires 0 < m < 32 && Alive(s, m)
    ensures Alive(Step(Xor(s, Low(bit))), m - 1)
  {
    hide Top, Step, Xor, Low, AtLeast, HasHalf, Half;
    TopHalves(m);
    StepKeepsHalf(s, bit, Top(m));
  }

  lemma AliveEnds(s: bv32, m: nat)
    requires m < 32 && Alive(s, m)
    ensures s != 0
  {}

  lemma StepOfNothing(s: bv32)
    ensures Step(Xor(0, Low(false))) == 0 && Step(Xor(0, Low(true))) == 0xEDB88320
    ensures s != 0 ==> Step(Xor(s, Low(false))) != 0
  {}

  lemma {:induction false} FeedNothing(e: seq<bool>, n: nat)
    requires n <= |e| && forall i :: 0 <= i < n ==> !e[i]
    ensures Feed(0, e[..n]) == 0
  {
    if n != 0 {
      FeedNothing(e, n - 1);
      FeedNext(0, e, n - 1);
      StepOfNothing(0);
      hide Step, Xor, Low;
    }
  }

  lemma {:induction false} FeedStaysAlive(e: seq<bool>, j: nat, n: nat)
    requires j < n <= |e| && n - j <= 32 && e[j] && forall i :: 0 <= i < j ==> !e[i]
    ensures Alive(Feed(0, e[..n]), 32 - (n - j))
  {
    var m := 32 - (n - j);
    assert Alive(0xEDB88320, 31);
    hide *;
    FeedNext(0, e, n - 1);
    if n == j + 1 {
      FeedNothing(e, j);
      StepOfNothing(0);
    } else {
      FeedStaysAlive(e, j, n - 1);
      StepAlive(Feed(0, e[..n - 1]), e[n - 1], m + 1);
    }
  }

  lemma {:induction false} FeedStaysDifferent(e: seq<bool>, m: nat, n: nat)
    requires m <= n <= |e| && Feed(0, e[..m]) != 0 && forall i :: m <= i < n ==> !e[i]
    ensures Feed(0, e[..n]) != 0
  {
    if m < n {
      FeedStaysDifferent(e, m, n - 1);
      FeedNext(0, e, n - 1);
      StepOfNothing(Feed(0, e[..n - 1]));
      hide Step, Xor, Low;
    }
  }

  /** All the set bits of the error pattern lie within 32 consecutive positions. */
  ghost predicate IsBurst(e: seq<bool>, k: nat) {
    forall i :: 0 <= i < |e| && e[i] ==> k <= i < k + 32
  }

  lemma BurstIsSeen(e: seq<bool>, k: nat, some: nat)
    requires IsBurst(e, k) && some < |e| && e[some]
    ensures Feed(0, e) != 0
  {
    var j := FirstSet(e, some);
    var n := if k + 32 < |e| then k + 32 else |e|;
    FeedStaysAlive(e, j, n);
    AliveEnds(Feed(0, e[..n]), 32 - (n - j));
    FeedStaysDifferent(e, n, |e|);
    assert e[..|e|] == e;
  }

  lemma FirstSet(e: seq<bool>, some: nat) returns (j: nat)
    requires some < |e| && e[some]
    ensures j < |e| && e[j] && forall i :: 0 <= i < j ==> !e[i]
  {
    j := 0;
    while !e[j]
      invariant j <= some && forall i :: 0 <= i < j ==> !e[i]
      decreases some - j
    {
      j := j + 1;
    }
  }

  lemma DifferentBits(a: seq<bv8>, b: seq<bv8>) returns (some: nat)
    requires |a| == |b| && a != b
    ensures some < |Bits(a)| && Bits(a)[some] != Bits(b)[some]
  {
    var n := |a| - 1;
    if a[n] != b[n] {
      var k := DifferentByte(a[n], b[n]);
      some := 8 * n + k;
    } else {
      assert a == a[..n] + [a[n]] && b == b[..n] + [b[n]];
      some := DifferentBits(a[..n], b[..n]);
    }
  }

  lemma SameByte(x: bv8, y: bv8)
    requires (x & 1 == 1) == (y & 1 == 1) && (x & 2 == 2) == (y & 2 == 2) && (x & 4 == 4) == (y & 4 == 4)
    requires (x & 8 == 8) == (y & 8 == 8) && (x & 16 == 16) == (y & 16 == 16) && (x & 32 == 32) == (y & 32 == 32)
    requires (x & 64 == 64) == (y & 64 == 64) && (x & 128 == 128) == (y & 128 == 128)
    ensures x == y
  {}

  lemma SameBits8(x: bv8, y: bv8)
    requires Bits8(x) == Bits8(y)
    ensures x == y
  {
    var u, v := Bits8(x), Bits8(y);
    assert u[0] == v[0] && u[1] == v[1] && u[2] == v[2] && u[3] == v[3];
    assert u[4] == v[4] && u[5] == v[5] && u[6] == v[6] && u[7] == v[7];
    SameByte(x, y);
  }

  lemma DifferentByte(x: bv8, y: bv8) returns (k: nat)
    requires x != y
    ensures k < 8 && Bits8(x)[k] != Bits8(y)[k]
  {
    hide Bits8;
    if Bits8(x) == Bits8(y) {
      SameBits8(x, y);
    }
    k :| 0 <= k < 8 && Bits8(x)[k] != Bits8(y)[k];
  }

  /** Two different byte strings of one length that differ only inside 32 consecutive bits, wherever
      those bits start, never have the same CRC. */
  lemma BurstDetected(a: seq<bv8>, b: seq<bv8>, k: nat)
    requires |a| == |b| && a != b && IsBurst(Diff(Bits(a), Bits(b)), k)
    ensures Crc32(a) != Crc32(b)
  {
    SameCrcIff(a, b);
    var some := DifferentBits(a, b);
    BurstIsSeen(Diff(Bits(a), Bits(b)), k, some);
  }

  /** The bytewise form: a change confined to four consecutive bytes is detected. */
  lemma FourByteChangeDetected(a: seq<bv8>, b: seq<bv8>, k: nat)
    requires |a| == |b| && a != b
    requires forall i :: 0 <= i < |a| && a[i] != b[i] ==> k <= i < k + 4
    ensures Crc32(a) != Crc32(b)
  {
    forall i | 0 <= i < |Bits(a)| && Bits(a)[i] != Bits(b)[i]
      ensures 8 * k <= i < 8 * k + 32
    {
      BitOfByte(a, i);
      BitOfByte(b, i);
    }
    BurstDetected(a, b, 8 * k);
  }

  lemma {:induction false} BitOfByte(data: seq<bv8>, i: nat)
    requires i < 8 * |data|
    ensures Bits(data)[i] == Bits8(data[i / 8])[i % 8]
  {
    var n := |data| - 1;
    if i < 8 * n {
      BitOfByte(data[..n], i);
    }
  }

  /** The generator polynomial as a 33-bit error pattern. */
  function Generator(): (g: seq<bool>)
    ensures |g| == 33
  {
    [true] + Bits([0x20, 0x83, 0xB8, 0xED])
  }

  lemma GeneratorShifts()
    ensures Step(Xor(0, Low(true))) == 0xEDB88320
    ensures Step8(Xor(0xEDB88320, 0x20)) == 0xEDB883 && Step8(Xor(0xEDB883, 0x83)) == 0xEDB8
    ensures Step8(Xor(0xEDB8, 0xB8)) == 0xED && Step8(Xor(0xED, 0xED)) == 0
  {}

  lemma GeneratorFeedsToZero()
    ensures Feed(0, Generator()) == 0
  {
    GeneratorShifts();
    var d: seq<bv8> := [0x20, 0x83, 0xB8, 0xED];
    assert [true][..1] == [true] && Feed(0, [true][..0]) == 0;
    assert d[..4] == d && Bits(d[..0]) == [];
    hide Bits8, Step8, Step, Xor, Low;
    FeedNext(0, [true], 0);
    FeedConcat(0, [true], Bits(d));
    var s := 0xEDB88320 as bv32;
    assert Feed(s, []) == s;
    hide *;
    BitsNext(d, 0);
    FeedConcat(s, Bits(d[..0]), Bits8(0x20));
    FeedByte(s, 0x20);
    BitsNext(d, 1);
    FeedConcat(s, Bits(d[..1]), Bits8(0x83));
    FeedByte(0xEDB883, 0x83);
    BitsNext(d, 2);
    FeedConcat(s, Bits(d[..2]), Bits8(0xB8));
    FeedByte(0xEDB8, 0xB8);
    BitsNext(d, 3);
    FeedConcat(s, Bits(d[..3]), Bits8(0xED));
    FeedByte(0xED, 0xED);
    GeneratorIs(d);
  }

  lemma GeneratorIs(d: seq<bv8>)
    requires d == [0x20, 0x83, 0xB8, 0xED]
    ensures Generator() == [true] + Bits(d)
  {
    hide Bits;
  }

  /** An error pattern that flips none of `n` bits. */
  function Unchanged(n: nat): seq<bool> {
    seq(n, _ => false)
  }

  /** The bound of 32 is sharp: flipping the 33 bits of the generator, anywhere, goes unseen. */
  lemma GeneratorUndetected(a: seq<bv8>, b: seq<bv8>, before: nat, after: nat)
    requires |a| == |b|
    requires Diff(Bits(a), Bits(b)) == Unchanged(before) + Generator() + Unchanged(after)
    ensures Crc32(a) == Crc32(b)
  {
    var z, t := Unchanged(before), Unchanged(after);
    SameCrcIff(a, b);
    FeedConcat(0, z + Generator(), t);
    FeedConcat(0, z, Generator());
    FeedNothing(z, before);
    FeedNothing(t, after);
    assert z[..before] == z && t[..after] == t;
    GeneratorFeedsToZero();
  }

  // ----- EFI_TABLE_HEADER: Signature (8 bytes), Revision, HeaderSize, CRC32, Reserved (4 bytes each) -----

  const SIZE_AT := 12
  const CRC_AT := 16
  const HEADER_BYTES := 24

  /** A UINT32 as the four bytes that hold it, and back. */
  function Le(w: bv32): (bytes: seq<bv8>)
    ensures |bytes| == 4
  {
    [(w & 0xFF) as bv8, ((w >> 8) & 0xFF) as bv8, ((w >> 16) & 0xFF) as bv8, ((w >> 24) & 0xFF) as bv8]
  }

  function FromLe(bytes: seq<bv8>): bv32
    requires |bytes| == 4
  {
    bytes[0] as bv32 | (bytes[1] as bv32 << 8) | (bytes[2] as bv32 << 16) | (bytes[3] as bv32 << 24)
  }

  lemma LeBytes(w: bv32)
    ensures (w & 0xFF) | (((w >> 8) & 0xFF) << 8) | (((w >> 16) & 0xFF) << 16) | (((w >> 24) & 0xFF) << 24) == w
  {}

  lemma LeRoundTrip(w: bv32)
    ensures FromLe(Le(w)) == w
  {
    LeBytes(w);
  }

  lemma FromLeInjective(u: seq<bv8>, v: seq<bv8>)
    requires |u| == |v| == 4 && FromLe(u) == FromLe(v)
    ensures u == v
  {}

  /** The header with its CRC field replaced. */
  function WithCrc(h: seq<bv8>, crc: bv32): (r: seq<bv8>)
    requires |h| >= HEADER_BYTES
    ensures |r| == |h|
  {
    h[..CRC_AT] + Le(crc) + h[CRC_AT + 4..]
  }

  function CrcField(h: seq<bv8>): bv32
    requires |h| >= HEADER_BYTES
  {
    FromLe(h[CRC_AT..CRC_AT + 4])
  }

  function HeaderSize(h: seq<bv8>): nat
    requires |h| >= HEADER_BYTES
  {
    FromLe(h[SIZE_AT..SIZE_AT + 4]) as nat
  }

  /** The CRC of the first `size` bytes with the CRC field taken as zero. */
  function HeaderCrc(h: seq<bv8>, size: nat): bv32
    requires |h| >= HEADER_BYTES && size <= |h|
  {
    Crc32(WithCrc(h, 0)[..size])
  }

  predicate SizeRefused(maxSize: nat, size: nat) {
    size == 0 || (maxSize != 0 && size > maxSize)
  }

  /** Where the fields are: HeaderSize in bytes 12 to 15 and CRC32 in bytes 16 to 19, the lowest byte first. Only the
      latter change when the field is set. */
  lemma LayoutMeans(h: seq<bv8>, crc: bv32)
    requires |h| >= 24
    ensures HeaderSize(h) == FromLe([h[12], h[13], h[14], h[15]]) as nat
    ensures CrcField(h) == FromLe([h[16], h[17], h[18], h[19]])
    ensures CrcField(WithCrc(h, crc)) == crc && |WithCrc(h, crc)| == |h|
    ensures forall i :: 0 <= i < |h| && !(16 <= i < 20) ==> WithCrc(h, crc)[i] == h[i]
  {
    hide Le, FromLe;
    WithCrcTwice(h, crc, 0);
    assert h[12..16] == [h[12], h[13], h[14], h[15]] && h[16..20] == [h[16], h[17], h[18], h[19]];
  }

  lemma FromLeMeans(a: bv8, b: bv8, c: bv8, d: bv8)
    ensures FromLe([a, b, c, d]) == a as bv32 | (b as bv32 << 8) | (c as bv32 << 16) | (d as bv32 << 24)
  {}

  /** The CRC of a header is that of its bytes with four zeros in place of the field. */
  lemma HeaderCrcMeans(h: seq<bv8>, z: seq<bv8>)
    requires |h| >= 24 && |z| <= |h| && forall i :: 0 <= i < |z| ==> z[i] == if 16 <= i < 20 then 0 else h[i]
    ensures HeaderCrc(h, |z|) == Crc32(z)
  {
    BlankedAt(h, |z|);
    hide Crc32, WithCrc;
    assert WithCrc(h, 0)[..|z|] == z;
  }

  /** A header checks when its size is neither zero nor above a nonzero limit and its field is the CRC. */
  lemma ChecksMean(maxSize: nat, h: seq<bv8>)
    requires |h| >= 24 && HeaderSize(h) <= |h|
    ensures Checks(maxSize, h) <==>
      && HeaderSize(h) != 0 && (maxSize == 0 || HeaderSize(h) <= maxSize)
      && CrcField(h) == HeaderCrc(h, HeaderSize(h))
  {
    hide HeaderSize, CrcField, HeaderCrc;
  }

  /** What CheckCrc asks of a header: the size comes from the header itself. */
  predicate Checks(maxSize: nat, h: seq<bv8>)
    requires |h| >= HEADER_BYTES
  {
    var size := HeaderSize(h);
    !SizeRefused(maxSize, size) && size <= |h| && CrcField(h) == HeaderCrc(h, size)
  }

  method PutCrc(hdr: array<bv8>, crc: bv32)
    requires hdr.Length >= HEADER_BYTES
    modifies hdr
    ensures hdr[..] == WithCrc(old(hdr[..]), crc)
  {
    var le := Le(crc);
    hdr[CRC_AT], hdr[CRC_AT + 1], hdr[CRC_AT + 2], hdr[CRC_AT + 3] := le[0], le[1], le[2], le[3];
    hide Le;
    assert hdr[..] == old(hdr[..])[..CRC_AT] + le + old(hdr[..])[CRC_AT + 4..];
  }

  lemma WithCrcTwice(h: seq<bv8>, a: bv32, b: bv32)
    requires |h| >= HEADER_BYTES
    ensures WithCrc(WithCrc(h, a), b) == WithCrc(h, b)
    ensures CrcField(WithCrc(h, a)) == a
    ensures HeaderSize(WithCrc(h, a)) == HeaderSize(h)
    ensures WithCrc(h, CrcField(h)) == h
  {
    LeRoundTrip(a);
    LeRoundTrip(CrcField(h));
    hide Le, FromLe;
    var g := WithCrc(h, a);
    assert g[CRC_AT..CRC_AT + 4] == Le(a);
    assert g[SIZE_AT..SIZE_AT + 4] == h[SIZE_AT..SIZE_AT + 4];
    FromLeInjective(Le(CrcField(h)), h[CRC_AT..CRC_AT + 4]);
  }

  /** SetCrcAltSize. */
  method SetCrcAltSize(size: nat, hdr: array<bv8>)
    requires hdr.Length >= HEADER_BYTES && size <= hdr.Length
    modifies hdr
    ensures hdr[..] == WithCrc(old(hdr[..]), HeaderCrc(old(hdr[..]), size))
  {
    hide WithCrc, Crc32;
    PutCrc(hdr, 0);
    assert hdr[..size] == hdr[..][..size];
    var crc := CalculateCrc(hdr, size);
    PutCrc(hdr, crc);
    WithCrcTwice(old(hdr[..]), 0, crc);
  }

  /** A stamped header passes the check with the same size, and stamping it again changes nothing. */
  lemma SetThenCheck(h: seq<bv8>, size: nat)
    requires |h| >= HEADER_BYTES && size <= |h|
    ensures var g := WithCrc(h, HeaderCrc(h, size));
      CrcField(g) == HeaderCrc(g, size) && WithCrc(g, HeaderCrc(g, size)) == g
  {
    WithCrcTwice(h, HeaderCrc(h, size), 0);
    WithCrcTwice(h, HeaderCrc(h, size), HeaderCrc(h, size));
    hide Crc32, WithCrc, CrcField;
  }

  /** SetCrc. */
  method SetCrc(hdr: array<bv8>)
    requires hdr.Length >= HEADER_BYTES && HeaderSize(hdr[..]) <= hdr.Length
    modifies hdr
    ensures var h, size := old(hdr[..]), old(HeaderSize(hdr[..]));
      && hdr[..] == WithCrc(h, HeaderCrc(h, size)) && HeaderSize(hdr[..]) == size
      && forall maxSize :: !SizeRefused(maxSize, size) ==> Checks(maxSize, hdr[..])
  {
    hide WithCrc, FromLe, Crc32;
    var size := GetHeaderSize(hdr);
    SetCrcAltSize(size, hdr);
    WithCrcTwice(old(hdr[..]), HeaderCrc(old(hdr[..]), size), 0);
    SetThenCheck(old(hdr[..]), size);
  }

  method GetHeaderSize(hdr: array<bv8>) returns (size: nat)
    requires hdr.Length >= HEADER_BYTES
    ensures size == HeaderSize(hdr[..])
  {
    hide FromLe;
    assert hdr[SIZE_AT..SIZE_AT + 4] == hdr[..][SIZE_AT..SIZE_AT + 4];
    size := FromLe(hdr[SIZE_AT..SIZE_AT + 4]) as nat;
  }

  /** CheckCrcAltSize: what it answers, and that the header bytes come back unchanged. */
  method CheckCrcAltSize(maxSize: nat, size: nat, hdr: array<bv8>) returns (ok: bool)
    requires hdr.Length >= HEADER_BYTES
    requires size == 0 || (maxSize != 0 && size > maxSize) || size <= hdr.Length
    modifies hdr
    ensures hdr[..] == old(hdr[..])
    ensures size == 0 || (maxSize != 0 && size > maxSize) ==> !ok
    ensures size != 0 && (maxSize == 0 || size <= maxSize) ==>
      (ok <==> CrcField(hdr[..]) == HeaderCrc(hdr[..], size))
  {
    hide WithCrc, FromLe, Crc32;
    if size == 0 {
      return false;
    }
    if maxSize != 0 && size > maxSize {
      return false;
    }
    assert hdr[CRC_AT..CRC_AT + 4] == hdr[..][CRC_AT..CRC_AT + 4];
    var orgCrc := FromLe(hdr[CRC_AT..CRC_AT + 4]);
    PutCrc(hdr, 0);
    assert hdr[..size] == hdr[..][..size];
    var crc := CalculateCrc(hdr, size);
    PutCrc(hdr, orgCrc);
    WithCrcTwice(old(hdr[..]), 0, orgCrc);
    ok := orgCrc == crc;
  }

  /** CheckCrc. */
  method CheckCrc(maxSize: nat, hdr: array<bv8>) returns (ok: bool)
    requires hdr.Length >= HEADER_BYTES
    requires var size := HeaderSize(hdr[..]); size == 0 || (maxSize != 0 && size > maxSize) || size <= hdr.Length
    modifies hdr
    ensures hdr[..] == old(hdr[..])
    ensures ok <==> Checks(maxSize, hdr[..])
    ensures var size := HeaderSize(hdr[..]); size == 0 || (maxSize != 0 && size > maxSize) ==> !ok
    ensures var size := HeaderSize(hdr[..]); size != 0 && (maxSize == 0 || size <= maxSize) ==>
      (ok <==> CrcField(hdr[..]) == HeaderCrc(hdr[..], size))
  {
    hide FromLe, Crc32, WithCrc;
    var size := GetHeaderSize(hdr);
    ok := CheckCrcAltSize(maxSize, size, hdr);
  }

  /** What changing `g`, covered for `size` bytes, into `t`, covered for `size'` bytes, does to the CRC. */
  function ChangeCrc(g: seq<bv8>, size: nat, t: seq<bv8>, size': nat): bv32
    requires |g| >= HEADER_BYTES && |t| >= HEADER_BYTES && size <= |g| && size' <= |t|
  {
    Xor(Feed(INITIAL, Bits(WithCrc(g, 0)[..size])), Feed(INITIAL, Bits(WithCrc(t, 0)[..size'])))
  }

  /** A change of a passing header, anywhere and of its size too, still passes exactly when the change of the
      field is what the change of the rest does to the CRC. */
  lemma ChangeUnseenIff(g: seq<bv8>, size: nat, t: seq<bv8>, size': nat)
    requires |g| >= HEADER_BYTES && |t| >= HEADER_BYTES && size <= |g| && size' <= |t|
    requires CrcField(g) == HeaderCrc(g, size)
    ensures CrcField(t) == HeaderCrc(t, size') <==> Xor(CrcField(g), CrcField(t)) == ChangeCrc(g, size, t, size')
  {
    var x, y := Feed(INITIAL, Bits(WithCrc(g, 0)[..size])), Feed(INITIAL, Bits(WithCrc(t, 0)[..size']));
    XorEqual(x, y, INITIAL);
    assert Xor(CrcField(g), HeaderCrc(t, size')) == ChangeCrc(g, size, t, size');
    hide *;
    XorFirst(CrcField(g), CrcField(t), HeaderCrc(t, size'));
  }

  /** CheckCrc after any change of a header that passes it. */
  lemma TamperingUnseenIff(maxSize: nat, g: seq<bv8>, t: seq<bv8>)
    requires |g| == |t| >= HEADER_BYTES && Checks(maxSize, g)
    ensures Checks(maxSize, t) <==>
      && !SizeRefused(maxSize, HeaderSize(t)) && HeaderSize(t) <= |t|
      && Xor(CrcField(g), CrcField(t)) == ChangeCrc(g, HeaderSize(g), t, HeaderSize(t))
  {
    hide Crc32, WithCrc, FromLe, Feed, Xor, Bits, HeaderCrc, CrcField, HeaderSize, ChangeCrc;
    if HeaderSize(t) <= |t| {
      ChangeUnseenIff(g, HeaderSize(g), t, HeaderSize(t));
    }
  }

  lemma {:induction false} BitsConcat(u: seq<bv8>, v: seq<bv8>)
    ensures Bits(u + v) == Bits(u) + Bits(v)
  {
    if v == [] {
      assert u + v == u;
    } else {
      var n := |v| - 1;
      assert (u + v)[..|u| + n] == u + v[..n];
      BitsConcat(u, v[..n]);
    }
  }

  /** The bytes that both sizes cover count by their difference only; those covered by one of them, by what
      they do to the register that meets them. */
  lemma ChangeCrcIs(g: seq<bv8>, size: nat, t: seq<bv8>, size': nat)
    requires |g| == |t| >= HEADER_BYTES && size <= |g| && size' <= |t|
    ensures var z, w := WithCrc(g, 0), WithCrc(t, 0);
      var m := if size <= size' then size else size';
      var x, y := Feed(INITIAL, Bits(z[..m])), Feed(INITIAL, Bits(w[..m]));
      var x', y' := Feed(x, Bits(z[m..size])), Feed(y, Bits(w[m..size']));
      && Xor(x, y) == Feed(0, Diff(Bits(z[..m]), Bits(w[..m])))
      && ChangeCrc(g, size, t, size') == Xor(x', y')
      && (size == m ==> x' == x) && (size' == m ==> y' == y)
  {
    hide Step, Xor, Diff, Bits8, Low, Le;
    var z, w := WithCrc(g, 0), WithCrc(t, 0);
    var m := if size <= size' then size else size';
    FeedOfDifference(INITIAL, Bits(z[..m]), Bits(w[..m]));
    assert z[..size] == z[..m] + z[m..size] && w[..size'] == w[..m] + w[m..size'];
    BitsConcat(z[..m], z[m..size]);
    BitsConcat(w[..m], w[m..size']);
    FeedConcat(INITIAL, Bits(z[..m]), Bits(z[m..size]));
    FeedConcat(INITIAL, Bits(w[..m]), Bits(w[m..size']));
  }

  lemma SameSizeChange(g: seq<bv8>, t: seq<bv8>, size: nat)
    requires |g| == |t| >= HEADER_BYTES && size <= |g|
    ensures ChangeCrc(g, size, t, size) == Feed(0, Diff(Bits(WithCrc(g, 0)[..size]), Bits(WithCrc(t, 0)[..size])))
  {
    hide Step, Xor, Diff, Feed, Bits;
    FeedOfDifference(INITIAL, Bits(WithCrc(g, 0)[..size]), Bits(WithCrc(t, 0)[..size]));
  }

  lemma XorFirst(a: bv32, b: bv32, c: bv32)
    ensures Xor(a, b) == Xor(a, c) <==> b == c
  {
    assert a ^ (a ^ b) == b && a ^ (a ^ c) == c;
  }

  /** A change of what is covered outside the CRC field within 32 consecutive bits, or of the field alone. */
  ghost predicate Confined(g: seq<bv8>, t: seq<bv8>, size: nat)
    requires |g| == |t| >= HEADER_BYTES && size <= |g|
  {
    || (CrcField(t) == CrcField(g) && g[..size] != t[..size]
        && exists k: nat :: IsBurst(Diff(Bits(g[..size]), Bits(t[..size])), k))
    || (CrcField(t) != CrcField(g) && WithCrc(g, 0) == WithCrc(t, 0))
  }

  /** CheckCrcAltSize, whose size is the caller's: such a change of a passing header is detected. */
  lemma ConfinedDetected(g: seq<bv8>, t: seq<bv8>, size: nat)
    requires |g| == |t| >= HEADER_BYTES && size <= |g|
    requires CrcField(g) == HeaderCrc(g, size) && Confined(g, t, size)
    ensures CrcField(t) != HeaderCrc(t, size)
  {
    ChangeUnseenIff(g, size, t, size);
    SameSizeChange(g, t, size);
    var z, w := WithCrc(g, 0)[..size], WithCrc(t, 0)[..size];
    if CrcField(t) == CrcField(g) {
      var k: nat :| IsBurst(Diff(Bits(g[..size]), Bits(t[..size])), k);
      FieldKept(g, t, size, z, w);
      SameDifferences(g[..size], t[..size], z, w, k);
      var some := DifferentBits(z, w);
      BurstIsSeen(Diff(Bits(z), Bits(w)), k, some);
      XorCancels(CrcField(g), CrcField(g));
    } else {
      var e := Diff(Bits(z), Bits(w));
      FeedNothing(e, |e|);
      assert e[..|e|] == e;
      XorEqual(CrcField(g), CrcField(t), 0);
    }
    hide *;
  }

  /** CheckCrc: it is detected too when it leaves HeaderSize alone. */
  lemma TamperingDetected(maxSize: nat, g: seq<bv8>, t: seq<bv8>)
    requires |g| == |t| >= HEADER_BYTES && Checks(maxSize, g)
    requires HeaderSize(t) == HeaderSize(g) && Confined(g, t, HeaderSize(g))
    ensures !Checks(maxSize, t)
  {
    hide Confined, CrcField, HeaderSize, HeaderCrc;
    ConfinedDetected(g, t, HeaderSize(g));
  }

  /** With equal fields, blanking them changes no difference. */
  lemma FieldKept(g: seq<bv8>, t: seq<bv8>, size: nat, z: seq<bv8>, w: seq<bv8>)
    requires |g| == |t| >= HEADER_BYTES && size <= |g| && CrcField(g) == CrcField(t)
    requires z == WithCrc(g, 0)[..size] && w == WithCrc(t, 0)[..size]
    ensures forall i :: 0 <= i < size ==> (z[i] == g[i] && w[i] == t[i]) || (z[i] == w[i] && g[i] == t[i])
  {
    FromLeInjective(g[CRC_AT..CRC_AT + 4], t[CRC_AT..CRC_AT + 4]);
    hide FromLe, Le;
    forall i | 0 <= i < size
      ensures (z[i] == g[i] && w[i] == t[i]) || (z[i] == w[i] && g[i] == t[i])
    {
      assert CRC_AT <= i < CRC_AT + 4 ==>
        g[i] == g[CRC_AT..CRC_AT + 4][i - CRC_AT] && t[i] == t[CRC_AT..CRC_AT + 4][i - CRC_AT];
    }
  }

  /** Replacing equal bytes by equal bytes leaves every bit difference where it was. */
  lemma SameDifferences(a: seq<bv8>, b: seq<bv8>, z: seq<bv8>, w: seq<bv8>, k: nat)
    requires |a| == |b| == |z| == |w| && a != b
    requires forall i :: 0 <= i < |a| ==> (z[i] == a[i] && w[i] == b[i]) || (z[i] == w[i] && a[i] == b[i])
    requires IsBurst(Diff(Bits(a), Bits(b)), k)
    ensures z != w && IsBurst(Diff(Bits(z), Bits(w)), k)
  {
    hide Bits, Bits8;
    var d, e := Diff(Bits(a), Bits(b)), Diff(Bits(z), Bits(w));
    forall i | 0 <= i < |e| && e[i]
      ensures k <= i < k + 32
    {
      BitOfByte(a, i);
      BitOfByte(b, i);
      BitOfByte(z, i);
      BitOfByte(w, i);
      assert d[i];
    }
    var j :| 0 <= j < |a| && a[j] != b[j];
    assert z[j] != w[j];
  }

  // ----- a change across the edge of the CRC field that goes unseen -----

  function Xor8(x: bv8, y: bv8): bv8 {
    x ^ y
  }

  function Mask(i: nat): bv8 {
    match i
    case 0 => 1 case 1 => 2 case 2 => 4 case 3 => 8 case 4 => 16 case 5 => 32 case 6 => 64 case _ => 128
  }

  predicate HasBit(x: bv8, m: bv8) {
    x & m == m
  }

  lemma Bits8At(x: bv8, i: nat)
    requires i < 8
    ensures Bits8(x)[i] == HasBit(x, Mask(i))
  {}

  lemma HasBitOfXor(x: bv8, y: bv8, m: bv8)
    requires m == 1 || m == 2 || m == 4 || m == 8 || m == 16 || m == 32 || m == 64 || m == 128
    ensures HasBit(Xor8(x, y), m) == (HasBit(x, m) != HasBit(y, m))
  {}

  lemma Bits8OfXor(x: bv8, y: bv8, i: nat)
    requires i < 8
    ensures Bits8(Xor8(x, y))[i] == (Bits8(x)[i] != Bits8(y)[i])
  {
    hide Xor8, HasBit, Bits8;
    Bits8At(x, i);
    Bits8At(y, i);
    Bits8At(Xor8(x, y), i);
    HasBitOfXor(x, y, Mask(i));
  }

  /** The difference of the bits is the bits of the bytewise difference. */
  lemma DiffOfBytes(a: seq<bv8>, b: seq<bv8>, e: seq<bv8>)
    requires |a| == |b| == |e| && forall i :: 0 <= i < |a| ==> e[i] == Xor8(a[i], b[i])
    ensures Diff(Bits(a), Bits(b)) == Bits(e)
  {
    hide Bits8, Bits, Xor8;
    forall i | 0 <= i < 8 * |a|
      ensures Diff(Bits(a), Bits(b))[i] == Bits(e)[i]
    {
      BitOfByte(a, i);
      BitOfByte(b, i);
      BitOfByte(e, i);
      Bits8OfXor(a[i / 8], b[i / 8], i % 8);
    }
  }

  lemma FeedNextByte(s: bv32, data: seq<bv8>, n: nat, r: bv32)
    requires n < |data| && Feed(s, Bits(data[..n])) == r
    ensures Feed(s, Bits(data[..n + 1])) == Step8(Xor(r, data[n] as bv32))
  {
    hide *;
    BitsNext(data, n);
    FeedConcat(s, Bits(data[..n]), Bits8(data[n]));
    FeedByte(r, data[n]);
  }

  lemma {:induction false} FeedZeros(s: bv32, data: seq<bv8>, k: nat, n: nat)
    requires k <= n <= |data| && Feed(s, Bits(data[..k])) == 0 && forall i :: k <= i < n ==> data[i] == 0
    ensures Feed(s, Bits(data[..n])) == 0
  {
    if n > k {
      FeedZeros(s, data, k, n - 1);
      FeedNextByte(s, data, n - 1, 0);
      ZeroStays();
    }
  }

  lemma FedNothing(s: bv32, data: seq<bv8>)
    ensures Feed(s, Bits(data[..0])) == s
  {}

  lemma ZeroStays()
    ensures Step8(Xor(0, 0)) == 0
  {}

  lemma ShiftsOfDigits()
    ensures Step8(Xor(0xFFFFFFFF, 0x31)) == 0x7C231048 && Step8(Xor(0x7C231048, 0x32)) == 0xB0ACBB32
    ensures Step8(Xor(0xB0ACBB32, 0x33)) == 0x77B79C2D && Step8(Xor(0x77B79C2D, 0x34)) == 0x641C1F5C
    ensures Step8(Xor(0x641C1F5C, 0x35)) == 0x340AC5E3 && Step8(Xor(0x340AC5E3, 0x36)) == 0xF68D2C9E
    ensures Step8(Xor(0xF68D2C9E, 0x37)) == 0xAFFC9660 && Step8(Xor(0xAFFC9660, 0x38)) == 0x651F2550
    ensures Step8(Xor(0x651F2550, 0x39)) == 0x340BC6D9
  {}

  lemma FedDigits(d: seq<bv8>)
    requires |d| == 9 && forall i :: 0 <= i < 9 ==> d[i] == [0x31, 0x32, 0x33, 0x34, 0x35, 0x36, 0x37, 0x38, 0x39][i]
    ensures Feed(0xFFFFFFFF, Bits(d)) == 0x340BC6D9
  {
    hide *;
    ShiftsOfDigits();
    FedNothing(0xFFFFFFFF, d);
    FeedNextByte(0xFFFFFFFF, d, 0, 0xFFFFFFFF);
    FeedNextByte(0xFFFFFFFF, d, 1, 0x7C231048);
    FeedNextByte(0xFFFFFFFF, d, 2, 0xB0ACBB32);
    FeedNextByte(0xFFFFFFFF, d, 3, 0x77B79C2D);
    FeedNextByte(0xFFFFFFFF, d, 4, 0x641C1F5C);
    FeedNextByte(0xFFFFFFFF, d, 5, 0x340AC5E3);
    FeedNextByte(0xFFFFFFFF, d, 6, 0xF68D2C9E);
    FeedNextByte(0xFFFFFFFF, d, 7, 0xAFFC9660);
    FeedNextByte(0xFFFFFFFF, d, 8, 0x651F2550);
    assert d[..9] == d;
  }

  /** The answer that this CRC-32 is known by: the nine digits from 1 have 0xCBF43926. */
  lemma KnownAnswer()
    ensures Crc32([0x31, 0x32, 0x33, 0x34, 0x35, 0x36, 0x37, 0x38, 0x39]) == 0xCBF43926
  {
    FedDigits([0x31, 0x32, 0x33, 0x34, 0x35, 0x36, 0x37, 0x38, 0x39]);
    assert INITIAL == 0xFFFFFFFF && Xor(0x340BC6D9, 0xFFFFFFFF) == 0xCBF43926;
    hide Feed, Bits;
  }

  /** The register's answers to 0x19 and seven zero bytes. */
  lemma ShiftsOf19()
    ensures Step8(Xor(0, 0x19)) == 0x646BA8C0 && Step8(Xor(0x646BA8C0, 0)) == 0x9B00A918
    ensures Step8(Xor(0x9B00A918, 0)) == 0x13F798FF && Step8(Xor(0x13F798FF, 0)) == 0x2D111815
    ensures Step8(Xor(0x2D111815, 0)) == 0x6DF0F5F3 && Step8(Xor(0x6DF0F5F3, 0)) == 0x24D95353
    ensures Step8(Xor(0x24D95353, 0)) == 0xF246D91D && Step8(Xor(0xF246D91D, 0)) == 0x63F42A00
  {}

  lemma FeedOf19(e: seq<bv8>)
    requires |e| == 28 && e[20] == 0x19 && forall i :: 0 <= i < 28 && i != 20 ==> e[i] == 0
    ensures Feed(0, Bits(e)) == 0x63F42A00
  {
    hide *;
    ShiftsOf19();
    FedNothing(0, e);
    FeedZeros(0, e, 0, 20);
    FeedNextByte(0, e, 20, 0);
    FeedNextByte(0, e, 21, 0x646BA8C0);
    FeedNextByte(0, e, 22, 0x9B00A918);
    FeedNextByte(0, e, 23, 0x13F798FF);
    FeedNextByte(0, e, 24, 0x2D111815);
    FeedNextByte(0, e, 25, 0x6DF0F5F3);
    FeedNextByte(0, e, 26, 0x24D95353);
    FeedNextByte(0, e, 27, 0xF246D91D);
    assert e[..28] == e;
  }

  /** A change of four consecutive bytes: three of the CRC field and the one behind it. */
  function Straddling(g: seq<bv8>): (t: seq<bv8>)
    requires |g| >= HEADER_BYTES
    ensures |t| == |g|
  {
    g[17 := Xor8(g[17], 0x2A)][18 := Xor8(g[18], 0xF4)][19 := Xor8(g[19], 0x63)][20 := Xor8(g[20], 0x19)]
  }

  lemma FromLeChanged(b0: bv8, b1: bv8, b2: bv8, b3: bv8)
    ensures Xor(FromLe([b0, b1, b2, b3]), FromLe([b0, Xor8(b1, 0x2A), Xor8(b2, 0xF4), Xor8(b3, 0x63)])) == 0x63F42A00
  {}

  lemma XorOfBytes(b: bv8)
    ensures Xor8(b, Xor8(b, 0x19)) == 0x19 && Xor8(b, b) == 0 && Xor8(b, 0x19) != b
  {}

  lemma StraddlingField(g: seq<bv8>)
    requires |g| == 28
    ensures HeaderSize(Straddling(g)) == HeaderSize(g)
    ensures Xor(CrcField(g), CrcField(Straddling(g))) == 0x63F42A00
  {
    hide Xor, Xor8, FromLe;
    var t := Straddling(g);
    FromLeChanged(g[16], g[17], g[18], g[19]);
    assert g[16..20] == [g[16], g[17], g[18], g[19]] && t[16..20] == [t[16], t[17], t[18], t[19]];
    assert g[12..16] == t[12..16];
  }

  lemma StraddlingRest(g: seq<bv8>)
    requires |g| == 28
    ensures ChangeCrc(g, 28, Straddling(g), 28) == 0x63F42A00
  {
    hide Xor, Xor8, FromLe, Le, Feed, Bits, Diff;
    var t, e := Straddling(g), seq(28, i => if i == 20 then 0x19 as bv8 else 0);
    var z, w := WithCrc(g, 0)[..28], WithCrc(t, 0)[..28];
    forall i | 0 <= i < 28
      ensures e[i] == Xor8(z[i], w[i])
    {
      XorOfBytes(z[i]);
    }
    DiffOfBytes(z, w, e);
    SameSizeChange(g, t, 28);
    FeedOf19(e);
  }

  lemma StraddlingShape(g: seq<bv8>)
    requires |g| == 28
    ensures Straddling(g) != g && forall i :: 0 <= i < 28 && Straddling(g)[i] != g[i] ==> 17 <= i < 21
  {
    hide Xor8;
    XorOfBytes(g[20]);
    assert Straddling(g)[20] != g[20];
  }

  /** It goes unseen in every passing header of 28 bytes, although the size field is untouched: a change of
      four bytes is not sure to be caught when it lies across the edge of the CRC field. */
  lemma StraddlingChangeUnseen(maxSize: nat, g: seq<bv8>)
    requires |g| == 28 == HeaderSize(g) && Checks(maxSize, g)
    ensures Straddling(g) != g && forall i :: 0 <= i < 28 && Straddling(g)[i] != g[i] ==> 17 <= i < 21
    ensures HeaderSize(Straddling(g)) == 28 && Checks(maxSize, Straddling(g))
  {
    hide Straddling, CrcField, HeaderSize, HeaderCrc, SizeRefused, Xor, ChangeCrc;
    StraddlingShape(g);
    StraddlingField(g);
    StraddlingRest(g);
    TamperingUnseenIff(maxSize, g, Straddling(g));
  }

  // ----- a flipped bit of the size field that goes unseen -----

  /** A stamped header of 28 bytes. */
  function Stamped(): (h: seq<bv8>)
    ensures |h| == 28
  {
    [0xFF, 0xFF, 0xFF, 0xFF, 0, 0, 0, 0, 0, 0, 0, 0, 0x1C, 0, 0, 0,
     0xFD, 0x64, 0xEB, 0xF5, 0, 0, 0, 0, 0xE3, 0x8A, 0x4C, 0xA6]
  }

  lemma OnesCancel()
    ensures Step8(Xor(0xFFFFFFFF, 0xFF)) == 0xFFFFFF && Step8(Xor(0xFFFFFF, 0xFF)) == 0xFFFF
    ensures Step8(Xor(0xFFFF, 0xFF)) == 0xFF && Step8(Xor(0xFF, 0xFF)) == 0
  {}

  lemma Shifts28()
    ensures Step8(Xor(0, 0x1C)) == 0x14015C4F && Step8(Xor(0x14015C4F, 0)) == 0xE6775D5D
    ensures Step8(Xor(0xE6775D5D, 0)) == 0x153C5A14 && Step8(Xor(0x153C5A14, 0)) == 0x1ACFE827
    ensures Step8(Xor(0x1ACFE827, 0)) == 0xA5107A83 && Step8(Xor(0xA5107A83, 0)) == 0x7414C2E0
    ensures Step8(Xor(0x7414C2E0, 0)) == 0xA07EF6BA && Step8(Xor(0xA07EF6BA, 0)) == 0x2B142464
    ensures Step8(Xor(0x2B142464, 0)) == 0x4AF4B165 && Step8(Xor(0x4AF4B165, 0)) == 0x3D926166
    ensures Step8(Xor(0x3D926166, 0)) == 0xA4EC560C && Step8(Xor(0xA4EC560C, 0)) == 0x912A07D
  {}

  lemma Shifts28Tail()
    ensures Step8(Xor(0x912A07D, 0xE3)) == 0x17BEACE3 && Step8(Xor(0x17BEACE3, 0x8A)) == 0x34796750
    ensures Step8(Xor(0x34796750, 0x4C)) == 0x14352528 && Step8(Xor(0x14352528, 0xA6)) == 0xA149B02
  {}

  lemma Shifts24()
    ensures Step8(Xor(0, 0x18)) == 0x136C9856 && Step8(Xor(0x136C9856, 0)) == 0x821B9859
    ensures Step8(Xor(0x821B9859, 0)) == 0x1235F2C8 && Step8(Xor(0x1235F2C8, 0)) == 0x95AD7F70
    ensures Step8(Xor(0x95AD7F70, 0)) == 0x5090DC43 && Step8(Xor(0x5090DC43, 0)) == 0xEF8580F6
    ensures Step8(Xor(0xEF8580F6, 0)) == 0x5431D2A9 && Step8(Xor(0x5431D2A9, 0)) == 0xAF5E2A9E
    ensures Step8(Xor(0xAF5E2A9E, 0)) == 0x1718E069 && Step8(Xor(0x1718E069, 0)) == 0x3479C11C
    ensures Step8(Xor(0x3479C11C, 0)) == 0x1435258E && Step8(Xor(0x1435258E, 0)) == 0xA149B02
  {}

  predicate Starts(z: seq<bv8>) {
    |z| >= 12 && z[0] == z[1] == z[2] == z[3] == 0xFF && forall i :: 4 <= i < 12 ==> z[i] == 0
  }

  lemma FeedStart(z: seq<bv8>)
    requires Starts(z)
    ensures Feed(INITIAL, Bits(z[..12])) == 0
  {
    assert INITIAL == 0xFFFFFFFF;
    hide *;
    OnesCancel();
    FedNothing(INITIAL, z);
    FeedNextByte(INITIAL, z, 0, 0xFFFFFFFF);
    FeedNextByte(INITIAL, z, 1, 0xFFFFFF);
    FeedNextByte(INITIAL, z, 2, 0xFFFF);
    FeedNextByte(INITIAL, z, 3, 0xFF);
    FeedZeros(INITIAL, z, 4, 12);
  }

  lemma FeedTo24(z: seq<bv8>)
    requires |z| == 28 && Starts(z)
    requires z[12] == 0x1C && forall i :: 12 < i < 24 ==> z[i] == 0
    ensures Feed(INITIAL, Bits(z[..24])) == 0x912A07D
  {
    hide *;
    FeedStart(z);
    Shifts28();
    FeedNextByte(INITIAL, z, 12, 0);
    FeedNextByte(INITIAL, z, 13, 0x14015C4F);
    FeedNextByte(INITIAL, z, 14, 0xE6775D5D);
    FeedNextByte(INITIAL, z, 15, 0x153C5A14);
    FeedNextByte(INITIAL, z, 16, 0x1ACFE827);
    FeedNextByte(INITIAL, z, 17, 0xA5107A83);
    FeedNextByte(INITIAL, z, 18, 0x7414C2E0);
    FeedNextByte(INITIAL, z, 19, 0xA07EF6BA);
    FeedNextByte(INITIAL, z, 20, 0x2B142464);
    FeedNextByte(INITIAL, z, 21, 0x4AF4B165);
    FeedNextByte(INITIAL, z, 22, 0x3D926166);
    FeedNextByte(INITIAL, z, 23, 0xA4EC560C);
  }

  lemma Feed28(z: seq<bv8>)
    requires |z| == 28 && Starts(z)
    requires z[12] == 0x1C && forall i :: 12 < i < 24 ==> z[i] == 0
    requires z[24] == 0xE3 && z[25] == 0x8A && z[26] == 0x4C && z[27] == 0xA6
    ensures Feed(INITIAL, Bits(z)) == 0xA149B02
  {
    hide *;
    FeedTo24(z);
    Shifts28Tail();
    FeedNextByte(INITIAL, z, 24, 0x912A07D);
    FeedNextByte(INITIAL, z, 25, 0x17BEACE3);
    FeedNextByte(INITIAL, z, 26, 0x34796750);
    FeedNextByte(INITIAL, z, 27, 0x14352528);
    assert z[..28] == z;
  }

  lemma Feed24(w: seq<bv8>)
    requires |w| == 24 && Starts(w)
    requires w[12] == 0x18 && forall i :: 12 < i < 24 ==> w[i] == 0
    ensures Feed(INITIAL, Bits(w)) == 0xA149B02
  {
    hide *;
    assert w[..24] == w;
    FeedStart(w);
    Shifts24();
    FeedNextByte(INITIAL, w, 12, 0);
    FeedNextByte(INITIAL, w, 13, 0x136C9856);
    FeedNextByte(INITIAL, w, 14, 0x821B9859);
    FeedNextByte(INITIAL, w, 15, 0x1235F2C8);
    FeedNextByte(INITIAL, w, 16, 0x95AD7F70);
    FeedNextByte(INITIAL, w, 17, 0x5090DC43);
    FeedNextByte(INITIAL, w, 18, 0xEF8580F6);
    FeedNextByte(INITIAL, w, 19, 0x5431D2A9);
    FeedNextByte(INITIAL, w, 20, 0xAF5E2A9E);
    FeedNextByte(INITIAL, w, 21, 0x1718E069);
    FeedNextByte(INITIAL, w, 22, 0x3479C11C);
    FeedNextByte(INITIAL, w, 23, 0x1435258E);
  }

  /** The bytes a CRC of `h` is taken of. */
  predicate BlankOf(z: seq<bv8>, h: seq<bv8>) {
    |z| <= |h| && forall i :: 0 <= i < |z| ==> z[i] == if CRC_AT <= i < CRC_AT + 4 then 0 else h[i]
  }

  lemma Covers28(z: seq<bv8>)
    requires |z| == 28 && BlankOf(z, Stamped())
    ensures Feed(INITIAL, Bits(z)) == 0xA149B02
  {
    hide Feed, Bits;
    assert z[0] == z[1] == z[2] == z[3] == 0xFF && z[12] == 0x1C;
    assert z[24] == 0xE3 && z[25] == 0x8A && z[26] == 0x4C && z[27] == 0xA6;
    Feed28(z);
  }

  lemma Covers24(w: seq<bv8>)
    requires |w| == 24 && BlankOf(w, Stamped()[SIZE_AT := 0x18])
    ensures Feed(INITIAL, Bits(w)) == 0xA149B02
  {
    hide Feed, Bits;
    assert w[0] == w[1] == w[2] == w[3] == 0xFF && w[12] == 0x18;
    Feed24(w);
  }

  lemma BlankedAt(h: seq<bv8>, size: nat)
    requires |h| >= HEADER_BYTES && size <= |h|
    ensures BlankOf(WithCrc(h, 0)[..size], h)
  {
    LeZero();
    hide Le;
  }

  lemma LeZero()
    ensures Le(0) == [0, 0, 0, 0]
  {}

  lemma StampedFields()
    ensures HeaderSize(Stamped()) == 28 && HeaderSize(Stamped()[SIZE_AT := 0x18]) == 24
    ensures CrcField(Stamped()) == CrcField(Stamped()[SIZE_AT := 0x18]) == Xor(0xA149B02, INITIAL)
  {
    var g, t := Stamped(), Stamped()[SIZE_AT := 0x18];
    assert g[12..16] == [0x1C, 0, 0, 0] && t[12..16] == [0x18, 0, 0, 0];
    assert g[16..20] == t[16..20] == [0xFD, 0x64, 0xEB, 0xF5];
  }

  lemma ChecksWith(maxSize: nat, h: seq<bv8>, size: nat, r: bv32)
    requires |h| >= HEADER_BYTES && HeaderSize(h) == size <= |h| && size > 0 && (maxSize == 0 || size <= maxSize)
    requires Feed(INITIAL, Bits(WithCrc(h, 0)[..size])) == r && CrcField(h) == Xor(r, INITIAL)
    ensures Checks(maxSize, h)
  {}

  /** A single flipped bit outside the CRC field is not sure to be caught when it changes HeaderSize: the header
      passes with either size. */
  lemma SizeChangeUnseen(maxSize: nat)
    requires maxSize == 0 || maxSize >= 28
    ensures var g, t := Stamped(), Stamped()[SIZE_AT := 0x18];
      && g[SIZE_AT] == 0x1C && HeaderSize(g) == 28 && HeaderSize(t) == 24 && Checks(maxSize, g) && Checks(maxSize, t)
  {
    var g, t := Stamped(), Stamped()[SIZE_AT := 0x18];
    assert g[SIZE_AT] == 0x1C;
    hide Stamped, HeaderSize, CrcField, Feed, Xor, WithCrc, Bits, BlankOf;
    StampedFields();
    BlankedAt(g, 28);
    BlankedAt(t, 24);
    Covers28(WithCrc(g, 0)[..28]);
    Covers24(WithCrc(t, 0)[..24]);
    hide Crc32, HeaderCrc, Checks, SizeRefused;
    ChecksWith(maxSize, g, 28, 0xA149B02);
    ChecksWith(maxSize, t, 24, 0xA149B02);
  }
}
