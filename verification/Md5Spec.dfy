/** The MD5 message digest as RFC 1321 defines it, sections 3.1 to 3.5, on a whole message. */
module Md5Spec {
  import opened Bits

  type Word = bv32

  datatype Regs = Regs(a: Word, b: Word, c: Word, d: Word)

  // ---------- section 3.4: the four auxiliary functions and the 64 steps

  function F(x: Word, y: Word, z: Word): Word { (x & y) | (!x & z) }

  function G(x: Word, y: Word, z: Word): Word { (x & z) | (y & !z) }

  function H(x: Word, y: Word, z: Word): Word { x ^ y ^ z }

  function I(x: Word, y: Word, z: Word): Word { y ^ (x | !z) }

  function Aux(i: nat, x: Word, y: Word, z: Word): Word {
    if i < 16 then F(x, y, z) else if i < 32 then G(x, y, z) else if i < 48 then H(x, y, z) else I(x, y, z)
  }

  function RotateLeft(w: Word, s: nat): Word
    requires s <= 32
  {
    (w << s) | (w >> (32 - s))
  }

  /** Which word of the block step i takes. */
  function Index(i: nat): (k: nat)
    ensures k < 16
  {
    if i < 16 then i else if i < 32 then (5 * i + 1) % 16 else if i < 48 then (3 * i + 5) % 16 else 7 * i % 16
  }

  function PickShift(i: nat, s0: nat, s1: nat, s2: nat, s3: nat): nat {
    if i == 0 then s0 else if i == 1 then s1 else if i == 2 then s2 else s3
  }

  /** How far step i rotates: four amounts per round, in turn. */
  function Shift(i: nat): (s: nat)
    ensures s <= 32
  {
    if i < 16 then PickShift(i % 4, 7, 12, 17, 22)
    else if i < 32 then PickShift(i % 4, 5, 9, 14, 20)
    else if i < 48 then PickShift(i % 4, 4, 11, 16, 23)
    else PickShift(i % 4, 6, 10, 15, 21)
  }

  /** The table T of section 3.4: 4294967296 times abs(sin(i + 1)), rounded down. */
  function T(i: nat): Word
    requires i < 64
  {
    if i < 16 then T1(i) else if i < 32 then T2(i - 16) else if i < 48 then T3(i - 32) else T4(i - 48)
  }

  function T1(i: nat): Word
    requires i < 16
  {
    if i < 4 then Pick(i, 0xd76aa478, 0xe8c7b756, 0x242070db, 0xc1bdceee)
    else if i < 8 then Pick(i - 4, 0xf57c0faf, 0x4787c62a, 0xa8304613, 0xfd469501)
    else if i < 12 then Pick(i - 8, 0x698098d8, 0x8b44f7af, 0xffff5bb1, 0x895cd7be)
    else Pick(i - 12, 0x6b901122, 0xfd987193, 0xa679438e, 0x49b40821)
  }

  function T2(i: nat): Word
    requires i < 16
  {
    if i < 4 then Pick(i, 0xf61e2562, 0xc040b340, 0x265e5a51, 0xe9b6c7aa)
    else if i < 8 then Pick(i - 4, 0xd62f105d, 0x02441453, 0xd8a1e681, 0xe7d3fbc8)
    else if i < 12 then Pick(i - 8, 0x21e1cde6, 0xc33707d6, 0xf4d50d87, 0x455a14ed)
    else Pick(i - 12, 0xa9e3e905, 0xfcefa3f8, 0x676f02d9, 0x8d2a4c8a)
  }

  function T3(i: nat): Word
    requires i < 16
  {
    if i < 4 then Pick(i, 0xfffa3942, 0x8771f681, 0x6d9d6122, 0xfde5380c)
    else if i < 8 then Pick(i - 4, 0xa4beea44, 0x4bdecfa9, 0xf6bb4b60, 0xbebfbc70)
    else if i < 12 then Pick(i - 8, 0x289b7ec6, 0xeaa127fa, 0xd4ef3085, 0x04881d05)
    else Pick(i - 12, 0xd9d4d039, 0xe6db99e5, 0x1fa27cf8, 0xc4ac5665)
  }

  function T4(i: nat): Word
    requires i < 16
  {
    if i < 4 then Pick(i, 0xf4292244, 0x432aff97, 0xab9423a7, 0xfc93a039)
    else if i < 8 then Pick(i - 4, 0x655b59c3, 0x8f0ccc92, 0xffeff47d, 0x85845dd1)
    else if i < 12 then Pick(i - 8, 0x6fa87e4f, 0xfe2ce6e0, 0xa3014314, 0x4e0811a1)
    else Pick(i - 12, 0xf7537e82, 0xbd3af235, 0x2ad7d2bb, 0xeb86d391)
  }

  function Pick(i: nat, w0: Word, w1: Word, w2: Word, w3: Word): Word {
    if i == 0 then w0 else if i == 1 then w1 else if i == 2 then w2 else w3
  }

  /** Addition modulo 2^32. */
  function Plus(a: Word, b: Word): Word { a + b }

  /** b + ((a + f + k + t) <<< s) */
  function Mix(a: Word, b: Word, f: Word, k: Word, t: Word, s: nat): Word
    requires s <= 32
  {
    Plus(b, RotateLeft(Plus(Plus(Plus(a, f), k), t), s))
  }

  /** Step i: a = b + ((a + f(b,c,d) + X[k] + T[i]) <<< s), after which the registers turn. */
  function Step(i: nat, r: Regs, x: seq<Word>): Regs
    requires i < 64 && |x| == 16
  {
    Regs(r.d, Mix(r.a, r.b, Aux(i, r.b, r.c, r.d), x[Index(i)], T(i), Shift(i)), r.b, r.c)
  }

  function Steps(n: nat, r: Regs, x: seq<Word>): Regs
    requires n <= 64 && |x| == 16
  {
    if n == 0 then r else Step(n - 1, Steps(n - 1, r, x), x)
  }

  /** One block: 64 steps, then the old registers are added. */
  function Compress(r: Regs, x: seq<Word>): Regs
    requires |x| == 16
  {
    var s := Steps(64, r, x);
    Regs(Plus(r.a, s.a), Plus(r.b, s.b), Plus(r.c, s.c), Plus(r.d, s.d))
  }

  // ---------- bytes and words, low-order byte first

  function FourBytes(b0: int, b1: int, b2: int, b3: int): (n: int)
    requires 0 <= b0 < 256 && 0 <= b1 < 256 && 0 <= b2 < 256 && 0 <= b3 < 256
    ensures 0 <= n < 0x1_0000_0000
  {
    b0 + 256 * b1 + 0x1_0000 * b2 + 0x100_0000 * b3
  }

  function WordAt(bytes: seq<Byte>, i: nat): Word
    requires 4 * i + 4 <= |bytes|
  {
    FourBytes(bytes[4 * i], bytes[4 * i + 1], bytes[4 * i + 2], bytes[4 * i + 3]) as bv32
  }

  function Words(block: seq<Byte>): (x: seq<Word>)
    requires |block| == 64
    ensures |x| == 16
  {
    seq(16, i requires 0 <= i < 16 => WordAt(block, i))
  }

  function LittleEndian(n: nat): (s: seq<Byte>)
    ensures |s| == 4
  {
    [n % 256, n / 256 % 256, n / 0x1_0000 % 256, n / 0x100_0000 % 256]
  }

  // ---------- sections 3.1 to 3.3 and 3.5

  const IV: Regs := Regs(0x67452301, 0xefcdab89, 0x98badcfe, 0x10325476)

  /** As many zero bytes as bring message, 0x80 and count to a multiple of 64, fewer than 64. */
  function ZeroCount(len: nat): (n: nat)
    ensures n < 64 && (len + n + 9) % 64 == 0
  {
    (119 - len % 64) % 64
  }

  /** A one bit, zeros to 56 bytes modulo 64, and the bit count modulo 2^64, low-order word first. */
  function Padding(len: nat): (p: seq<Byte>)
    ensures |p| == ZeroCount(len) + 9
  {
    var bits := 8 * len;
    [0x80] + ZeroBytes(ZeroCount(len)) +
    LittleEndian(bits % 0x1_0000_0000) + LittleEndian(bits / 0x1_0000_0000 % 0x1_0000_0000)
  }

  /** The registers after all whole blocks of p. */
  function Fold(r: Regs, p: seq<Byte>): Regs
    decreases |p|
  {
    if |p| < 64 then r else Fold(Compress(r, Words(p[..64])), p[64..])
  }

  function WordBytes(w: Word): (s: seq<Byte>)
    ensures |s| == 4
  {
    LittleEndian(w as nat)
  }

  function Output(r: Regs): (d: seq<Byte>)
    ensures |d| == 16
  {
    WordBytes(r.a) + WordBytes(r.b) + WordBytes(r.c) + WordBytes(r.d)
  }

  function Digest(m: seq<Byte>): seq<Byte> {
    Output(Fold(IV, m + Padding(|m|)))
  }

  // ---------- folding block by block

  lemma {:induction false} FoldConcat(r: Regs, p: seq<Byte>, q: seq<Byte>)
    requires |p| % 64 == 0
    ensures Fold(r, p + q) == Fold(Fold(r, p), q)
    decreases |p|
  {
    hide Compress, Words;
    if |p| == 0 {
      assert p + q == q;
    } else {
      assert (p + q)[..64] == p[..64];
      assert (p + q)[64..] == p[64..] + q;
      FoldConcat(Compress(r, Words(p[..64])), p[64..], q);
    }
  }

  /** One more block. */
  lemma FoldNext(r: Regs, p: seq<Byte>, pos: nat)
    requires pos % 64 == 0 && pos + 64 <= |p|
    ensures Fold(r, p[..pos + 64]) == Compress(Fold(r, p[..pos]), Words(p[pos..pos + 64]))
  {
    hide Compress, Words;
    FoldConcat(r, p[..pos], p[pos..pos + 64]);
    assert p[..pos + 64] == p[..pos] + p[pos..pos + 64];
    var block := p[pos..pos + 64];
    assert block[..64] == block && block[64..] == [];
  }

  lemma OneBlock(r: Regs, p: seq<Byte>)
    requires |p| == 64
    ensures Fold(r, p) == Compress(r, Words(p))
  {
    hide Compress, Words;
    assert p[..64] == p && p[64..] == [];
  }

  // ---------- bytes, words and rotations, place by place

  /** Byte i of a word counts 256^i. */
  lemma LittleEndianByte(n: nat, i: nat)
    requires i < 4
    ensures LittleEndian(n)[i] == n / Pow2(8 * i) % 256
  {
    Pow2Values();
  }

  lemma SecondByte(n: nat)
    ensures n / 0x1_0000 == n / 256 / 256
  {
  }

  lemma ThirdByte(n: nat)
    ensures n / 0x100_0000 == n / 0x1_0000 / 256
  {
  }

  lemma Joined(n: nat, q1: nat, q2: nat, q3: nat)
    requires n < 0x1_0000_0000 && q1 == n / 256 && q2 == q1 / 256 && q3 == q2 / 256
    ensures q3 < 256 && n % 256 + 256 * (q1 % 256) + 0x1_0000 * (q2 % 256) + 0x100_0000 * q3 == n
  {
    assert n == 256 * q1 + n % 256;
    assert q1 == 256 * q2 + q1 % 256;
    assert q2 == 256 * q3 + q2 % 256;
  }

  /** The four bytes of a word, put together again. */
  lemma FourBytesOfWord(n: nat)
    requires n < 0x1_0000_0000
    ensures var s := LittleEndian(n); FourBytes(s[0], s[1], s[2], s[3]) == n
  {
    var q1, q2, q3 := n / 256, n / 0x1_0000, n / 0x100_0000;
    SecondByte(n);
    ThirdByte(n);
    Joined(n, q1, q2, q3);
  }

  lemma WordOfBytes(d: seq<Byte>, i: nat, w: Word)
    requires 4 * i + 4 <= |d| && d[4 * i..4 * i + 4] == WordBytes(w)
    ensures WordAt(d, i) == w
  {
    hide LittleEndian, FourBytes;
    FourBytesOfWord(w as nat);
    var s := LittleEndian(w as nat);
    assert d[4 * i] == s[0] && d[4 * i + 1] == s[1] && d[4 * i + 2] == s[2] && d[4 * i + 3] == s[3];
  }

  lemma OutputParts(r: Regs)
    ensures Output(r)[0..4] == WordBytes(r.a) && Output(r)[4..8] == WordBytes(r.b)
    ensures Output(r)[8..12] == WordBytes(r.c) && Output(r)[12..16] == WordBytes(r.d)
  {
    hide WordBytes;
  }

  /** The digest holds the registers in the order a, b, c, d, each with its low-order byte first. */
  lemma OutputWords(r: Regs)
    ensures WordAt(Output(r), 0) == r.a && WordAt(Output(r), 1) == r.b
    ensures WordAt(Output(r), 2) == r.c && WordAt(Output(r), 3) == r.d
  {
    hide Output, WordBytes, WordAt;
    OutputParts(r);
    WordOfBytes(Output(r), 0, r.a);
    WordOfBytes(Output(r), 1, r.b);
    WordOfBytes(Output(r), 2, r.c);
    WordOfBytes(Output(r), 3, r.d);
  }

  /** The type of shift amounts and of places in a word. */
  type Place = bv6

  function Bit(w: Word, j: Place): Word
    requires j < 32
  {
    (w >> j) & 1
  }

  lemma SmallAmount(s: nat)
    requires s <= 16
    ensures (32 - s) as Place == 32 - (s as Place) && s as Place <= 32
  {
    assert s in {0, 1, 2, 3, 4, 5, 6, 7, 8, 9, 10, 11, 12, 13, 14, 15, 16};
  }

  lemma LargeAmount(s: nat)
    requires 16 < s <= 32
    ensures (32 - s) as Place == 32 - (s as Place) && s as Place <= 32
  {
    assert s in {17, 18, 19, 20, 21, 22, 23, 24, 25, 26, 27, 28, 29, 30, 31, 32};
  }

  lemma RotateByPlace(w: Word, s: Place, j: Place)
    requires s <= 32 && j < 32
    ensures Bit((w << s) | (w >> (32 - s)), j) == Bit(w, (j - s) & 31)
  {
  }

  lemma RotateAmounts(w: Word, s: nat)
    requires s <= 32
    ensures s as Place <= 32 && RotateLeft(w, s) == (w << (s as Place)) | (w >> (32 - (s as Place)))
  {
    if s <= 16 {
      SmallAmount(s);
    } else {
      LargeAmount(s);
    }
  }

  /** Rotating by s moves every bit s places up, around the end: bit j was bit j - s modulo 32. */
  lemma RotateBit(w: Word, s: nat, j: Place)
    requires s <= 32 && j < 32
    ensures Bit(RotateLeft(w, s), j) == Bit(w, (j - (s as Place)) & 31)
  {
    hide Bit, RotateLeft;
    RotateAmounts(w, s);
    RotateByPlace(w, s as Place, j);
  }
}
