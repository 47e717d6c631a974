/** Bit strings, most significant bit first, and the numbers they stand for. Machine words are
    naturals; shifts are products and quotients of powers of two. */
module Bits {

  type Byte = x: int | 0 <= x < 256

  function Pow2(n: nat): (p: nat)
    ensures p > 0
  {
    if n == 0 then 1 else 2 * Pow2(n - 1)
  }

  lemma TwiceProduct(a: nat, b: nat)
    ensures a * (2 * b) == 2 * (a * b)
  {
  }

  lemma {:induction false} Pow2Add(m: nat, n: nat)
    ensures Pow2(m + n) == Pow2(m) * Pow2(n)
  {
    if n == 0 {
    } else {
      Pow2Add(m, n - 1);
      TwiceProduct(Pow2(m), Pow2(n - 1));
    }
  }

  lemma {:induction false} Pow2Monotone(m: nat, n: nat)
    requires m <= n
    ensures Pow2(m) <= Pow2(n)
  {
    if m == n {
    } else {
      Pow2Monotone(m, n - 1);
    }
  }

  lemma Pow2Values()
    ensures Pow2(0) == 1 && Pow2(1) == 2 && Pow2(2) == 4 && Pow2(3) == 8
    ensures Pow2(4) == 16 && Pow2(5) == 32 && Pow2(6) == 64 && Pow2(7) == 128
    ensures Pow2(8) == 256 && Pow2(16) == 0x1_0000 && Pow2(24) == 0x100_0000 && Pow2(32) == 0x1_0000_0000
  {
    assert Pow2(4) == 16 && Pow2(8) == 256;
    Pow2Add(8, 8);
    Pow2Add(16, 8);
    Pow2Add(16, 16);
  }

  /** v >> n */
  function Shr(v: nat, n: nat): nat {
    if n == 0 then v else Shr(v / 2, n - 1)
  }

  /** v << n, without losing bits */
  function Shl(v: nat, n: nat): nat {
    if n == 0 then v else 2 * Shl(v, n - 1)
  }

  /** v with only its n low bits kept */
  function Low(v: nat, n: nat): (r: nat)
    ensures r < Pow2(n)
  {
    if n == 0 then 0 else 2 * Low(v / 2, n - 1) + v % 2
  }

  /** The n low bits of v. */
  function BitsOf(v: nat, n: nat): (s: seq<bool>)
    ensures |s| == n
  {
    if n == 0 then [] else BitsOf(v / 2, n - 1) + [v % 2 == 1]
  }

  function ValueOf(s: seq<bool>): nat {
    if s == [] then 0 else 2 * ValueOf(s[..|s| - 1]) + if s[|s| - 1] then 1 else 0
  }

  lemma {:induction false} ValueOfBound(s: seq<bool>)
    ensures ValueOf(s) < Pow2(|s|)
  {
    if s == [] {
    } else {
      ValueOfBound(s[..|s| - 1]);
    }
  }

  lemma {:induction false} BitsOfValueOf(s: seq<bool>)
    ensures BitsOf(ValueOf(s), |s|) == s
  {
    if s == [] {
    } else {
      BitsOfValueOf(s[..|s| - 1]);
      assert s == s[..|s| - 1] + [s[|s| - 1]];
    }
  }

  lemma {:induction false} ValueOfBitsOf(v: nat, n: nat)
    requires v < Pow2(n)
    ensures ValueOf(BitsOf(v, n)) == v
  {
    if n == 0 {
    } else {
      ValueOfBitsOf(v / 2, n - 1);
      assert BitsOf(v, n)[..n - 1] == BitsOf(v / 2, n - 1);
    }
  }

  /** The bits of a sum (hi << n) + lo: those of hi, then those of lo. */
  lemma {:induction false} BitsOfSplit(hi: nat, lo: nat, m: nat, n: nat)
    requires lo < Pow2(n)
    ensures BitsOf(Shl(hi, n) + lo, m + n) == BitsOf(hi, m) + BitsOf(lo, n)
  {
    if n > 0 {
      var v := Shl(hi, n) + lo;
      assert v / 2 == Shl(hi, n - 1) + lo / 2 && v % 2 == lo % 2;
      BitsOfSplit(hi, lo / 2, m, n - 1);
    } else {
      assert BitsOf(hi, m) + [] == BitsOf(hi, m);
    }
  }

  lemma {:induction false} ShlIsProduct(v: nat, n: nat)
    ensures Shl(v, n) == v * Pow2(n)
  {
    if n == 0 {
    } else {
      ShlIsProduct(v, n - 1);
      TwiceProduct(v, Pow2(n - 1));
    }
  }

  lemma {:induction false} ShlShl(v: nat, m: nat, n: nat)
    ensures Shl(Shl(v, m), n) == Shl(v, m + n)
  {
    if n == 0 {
    } else {
      ShlShl(v, m, n - 1);
    }
  }

  lemma {:induction false} ShlAdd(a: nat, b: nat, n: nat)
    ensures Shl(a + b, n) == Shl(a, n) + Shl(b, n)
  {
    if n == 0 {
    } else {
      ShlAdd(a, b, n - 1);
    }
  }

  /** A number of m bits shifted by n fits m + n bits, with room for n bits below it. */
  lemma {:induction false} ShlBound(v: nat, m: nat, n: nat)
    requires v < Pow2(m)
    ensures Shl(v, n) + Pow2(n) <= Pow2(m + n)
  {
    if n == 0 {
    } else {
      ShlBound(v, m, n - 1);
    }
  }

  lemma {:induction false} ShrLow(v: nat, n: nat)
    ensures v == Shl(Shr(v, n), n) + Low(v, n)
  {
    if n == 0 {
    } else {
      ShrLow(v / 2, n - 1);
    }
  }

  /** The quotient and remainder of a power of two are determined by their bounds. */
  lemma {:induction false} ShrLowUnique(v: nat, n: nat, hi: nat, lo: nat)
    requires v == Shl(hi, n) + lo && lo < Pow2(n)
    ensures Shr(v, n) == hi && Low(v, n) == lo
  {
    if n == 0 {
    } else {
      ShrLowUnique(v / 2, n - 1, hi, lo / 2);
    }
  }

  lemma {:induction false} ShrBound(v: nat, m: nat, n: nat)
    requires v < Pow2(m + n)
    ensures Shr(v, n) < Pow2(m)
  {
    if n == 0 {
    } else {
      ShrBound(v / 2, m, n - 1);
    }
  }

  lemma {:induction false} LowSmall(v: nat, n: nat)
    requires v < Pow2(n)
    ensures Low(v, n) == v && Shr(v, n) == 0
  {
    if n == 0 {
    } else {
      LowSmall(v / 2, n - 1);
    }
  }

  lemma {:induction false} ShrShr(v: nat, m: nat, n: nat)
    ensures Shr(Shr(v, m), n) == Shr(v, m + n)
  {
    if m == 0 {
    } else {
      ShrShr(v / 2, m - 1, n);
    }
  }

  lemma LowIsByte(v: nat)
    ensures Low(v, 8) == v % 256
  {
    Pow2Values();
    ShlIsProduct(v / 256, 8);
    ShrLowUnique(v, 8, v / 256, v % 256);
  }

  /** Any v: the bits above place n, then the n low bits. */
  lemma BitsOfShrLow(v: nat, m: nat, n: nat)
    ensures BitsOf(v, m + n) == BitsOf(Shr(v, n), m) + BitsOf(Low(v, n), n)
  {
    ShrLow(v, n);
    BitsOfSplit(Shr(v, n), Low(v, n), m, n);
  }

  /** Only the low n bits matter. */
  lemma BitsOfLow(v: nat, n: nat)
    ensures BitsOf(v, n) == BitsOf(Low(v, n), n)
  {
    BitsOfShrLow(v, 0, n);
    assert [] + BitsOf(Low(v, n), n) == BitsOf(Low(v, n), n);
  }

  /** n copies of one bit. */
  function Fill(b: bool, n: nat): (s: seq<bool>)
    ensures |s| == n && forall i :: 0 <= i < n ==> s[i] == b
  {
    seq(n, _ => b)
  }

  lemma {:induction false} BitsOfZero(n: nat)
    ensures BitsOf(0, n) == Fill(false, n)
  {
    if n == 0 {
    } else {
      BitsOfZero(n - 1);
    }
  }

  // ---------- bytes

  function BitsOfBytes(bytes: seq<Byte>): (s: seq<bool>)
    ensures |s| == 8 * |bytes|
  {
    if bytes == [] then [] else BitsOfBytes(bytes[..|bytes| - 1]) + BitsOf(bytes[|bytes| - 1], 8)
  }

  lemma {:induction false} BitsOfBytesConcat(a: seq<Byte>, b: seq<Byte>)
    ensures BitsOfBytes(a + b) == BitsOfBytes(a) + BitsOfBytes(b)
  {
    hide BitsOf;
    if b == [] {
      assert a + b == a;
    } else {
      var b' := b[..|b| - 1];
      BitsOfBytesConcat(a, b');
      assert (a + b)[..|a + b| - 1] == a + b';
    }
  }

  lemma BitsOfByte(x: Byte)
    ensures BitsOfBytes([x]) == BitsOf(x, 8)
  {
    assert [x][..0] == [];
  }

  lemma SamePieces(s: seq<bool>, x: seq<bool>, t: seq<bool>, y: seq<bool>)
    requires s + x == t + y && |s| == |t|
    ensures s == t && x == y
  {
    assert s == (s + x)[..|s|] == (t + y)[..|t|] == t;
    assert x == (s + x)[|s|..] == (t + y)[|t|..] == y;
  }

  lemma Regrouped(a: seq<bool>, b: seq<bool>, c: seq<bool>)
    ensures a + (b + c) == a + b + c
  {
  }

  /** Equal bit strings of one width stand for equal values. */
  lemma SameField(v: nat, r: nat, n: nat, s: seq<bool>, t: seq<bool>)
    requires v < Pow2(n) && r < Pow2(n) && BitsOf(v, n) + s == BitsOf(r, n) + t
    ensures v == r && s == t
  {
    SamePieces(BitsOf(v, n), s, BitsOf(r, n), t);
    ValueOfBitsOf(v, n);
    ValueOfBitsOf(r, n);
  }

  function ZeroBytes(n: nat): (z: seq<Byte>)
    ensures |z| == n && forall i :: 0 <= i < n ==> z[i] == 0
  {
    seq(n, _ => 0)
  }

  /** The q low bytes of a word, highest first. */
  function BigEndian(word: nat, q: nat): (r: seq<Byte>)
    ensures |r| == q
    decreases q
  {
    if q == 0 then [] else BigEndian(word / 256, q - 1) + [word % 256]
  }

  lemma ByteSplit(v: nat, m: nat)
    ensures BitsOf(v, m + 8) == BitsOf(v / 256, m) + BitsOf(v % 256, 8)
  {
    Pow2Values();
    ShlIsProduct(v / 256, 8);
    BitsOfSplit(v / 256, v % 256, m, 8);
  }

  lemma {:induction false} BigEndianBits(word: nat, q: nat)
    ensures BitsOfBytes(BigEndian(word, q)) == BitsOf(word, 8 * q)
    decreases q
  {
    if q == 0 {
    } else {
      BigEndianBits(word / 256, q - 1);
      ByteSplit(word, 8 * (q - 1));
      var bytes := BigEndian(word, q);
      assert bytes[..q - 1] == BigEndian(word / 256, q - 1);
    }
  }

  // ---------- bitwise or

  function Or(a: nat, b: nat): (r: nat)
    decreases a + b
  {
    if a == 0 then b else if b == 0 then a else
    2 * Or(a / 2, b / 2) + if a % 2 == 1 || b % 2 == 1 then 1 else 0
  }

  /** Or of numbers that share no bit is their sum. */
  lemma {:induction false} OrDisjoint(hi: nat, lo: nat, n: nat)
    requires lo < Pow2(n)
    ensures Or(Shl(hi, n), lo) == Shl(hi, n) + lo
  {
    if n == 0 || Shl(hi, n) == 0 || lo == 0 {
    } else {
      OrDisjoint(hi, lo / 2, n - 1);
    }
  }
}
