/** The writable bitstream: a byte vector plus 0..7 held bits, left-aligned in one byte. */
module OutputBitstream {
  import opened Bits

  // ---------- one write, on values

  /** The held byte of h bits with value H. */
  ghost predicate Holds(held: nat, h: nat, H: nat) {
    h < 8 && H < Pow2(h) && held == Shl(H, 8 - h)
  }

  lemma HeldValue(held: nat, h: nat, H: nat)
    requires Holds(held, h, H)
    ensures Shr(held, 8 - h) == H && Low(held, 8 - h) == 0 && held < 256
  {
    ShrLowUnique(held, 8 - h, H, 0);
    ShlBound(H, h, 8 - h);
    Pow2Values();
  }

  /** Left-aligning the low r bits of v in a byte. */
  lemma NextHeld(v: nat, r: nat)
    requires r < 8
    ensures Holds(Shl(v, 8 - r) % 256, r, Low(v, r))
  {
    ShrLow(v, r);
    ShlAdd(Shl(Shr(v, r), r), Low(v, r), 8 - r);
    ShlShl(Shr(v, r), r, 8 - r);
    ShlBound(Low(v, r), r, 8 - r);
    ShrLowUnique(Shl(v, 8 - r), 8, Shr(v, r), Shl(Low(v, r), 8 - r));
    LowIsByte(Shl(v, 8 - r));
  }

  /** Too few bits for a byte: the new bits go behind the held ones. */
  lemma AppendHeld(held: nat, h: nat, H: nat, v: nat, n: nat)
    requires Holds(held, h, H) && v < Pow2(n) && h + n < 8
    ensures Holds(Or(held, Shl(v, 8 - (h + n)) % 256), h + n, Shl(H, n) + v)
  {
    hide Shl, Pow2, Or;
    var k := 8 - (h + n);
    ShlBound(v, n, k);
    OrDisjoint(H, Shl(v, k), 8 - h);
    SmallByte(Shl(v, k), 8 - h);
    ShlShl(H, n, k);
    ShlAdd(Shl(H, n), v, k);
    ShlBound(H, h, n);
  }

  lemma SmallByte(v: nat, n: nat)
    requires v < Pow2(n) && n <= 8
    ensures v % 256 == v
  {
    Pow2Values();
    Pow2Monotone(n, 8);
  }

  /** The held byte moved up in front of the n - r bits that complete its word. */
  lemma TopWord(held: nat, h: nat, H: nat, n: nat, q: nat, r: nat)
    requires Holds(held, h, H) && n <= 32 && h + n == 8 * q + r && r < 8 && 1 <= q
    ensures Shl(held, (n - r) / 8 * 8) % 0x1_0000_0000 == Shl(H, n - r)
  {
    hide Shl, Pow2;
    Pow2Values();
    var top := (n - r) / 8 * 8;
    if h == 0 {
      ShlIsProduct(0, 8);
      ShlIsProduct(0, top);
      ShlIsProduct(0, n - r);
    } else {
      assert top == 8 * (q - 1);
      ShlShl(H, 8 - h, top);
      assert 8 - h + top == n - r;
      ShlBound(H, h, n - r);
      Pow2Monotone(8 * q, 32);
    }
  }

  /** The aligned word: the held bits, then the new bits down to the last whole byte. */
  lemma FormWord(held: nat, h: nat, H: nat, v: nat, n: nat, q: nat, r: nat)
    requires Holds(held, h, H) && v < Pow2(n) && n <= 32
    requires h + n == 8 * q + r && r < 8 && 1 <= q
    ensures Or(Shl(held, (n - r) / 8 * 8) % 0x1_0000_0000, Shr(v, r)) == Shl(H, n - r) + Shr(v, r)
    ensures Shr(v, r) < Pow2(n - r)
  {
    TopWord(held, h, H, n, q, r);
    ShrBound(v, n - r, r);
    OrDisjoint(H, Shr(v, r), n - r);
  }

  /** Held and new bits, regrouped as q whole bytes and r bits left over. */
  lemma Regroup(h: nat, H: nat, v: nat, n: nat, q: nat, r: nat)
    requires H < Pow2(h) && r <= n && h + n == 8 * q + r && Shr(v, r) < Pow2(n - r)
    ensures BitsOf(H, h) + BitsOf(v, n) == BitsOf(Shl(H, n - r) + Shr(v, r), 8 * q) + BitsOf(Low(v, r), r)
  {
    BitsOfSplit(H, Shr(v, r), h, n - r);
    BitsOfShrLow(v, n - r, r);
  }

  /** The bits that a byte vector and h left-aligned held bits stand for. */
  ghost function Packed(fifo: seq<Byte>, h: nat, held: nat): (s: seq<bool>)
    requires h < 8
    ensures |s| == 8 * |fifo| + h
  {
    BitsOfBytes(fifo) + BitsOf(Shr(held, 8 - h), h)
  }

  lemma PackedIs(fifo: seq<Byte>, h: nat, held: nat)
    requires h < 8
    ensures Packed(fifo, h, held) == BitsOfBytes(fifo) + BitsOf(Shr(held, 8 - h), h)
    ensures h == 0 ==> Packed(fifo, h, held) == BitsOfBytes(fifo)
  {
  }

  ghost predicate Clean(h: nat, held: nat) {
    h < 8 && Low(held, 8 - h) == 0
  }

  lemma HoldsShifted(h: nat, held: Byte) returns (H: nat)
    requires Clean(h, held)
    ensures Holds(held, h, H) && H == Shr(held, 8 - h)
  {
    H := Shr(held, 8 - h);
    ShrLow(held, 8 - h);
    Pow2Values();
    ShrBound(held, h, 8 - h);
  }

  /** The early return of write. */
  lemma ShortWrite(fifo: seq<Byte>, h: nat, held: Byte, v: nat, n: nat)
    requires Clean(h, held) && v < Pow2(n) && h + n < 8
    ensures var held' := Or(held, Shl(v, 8 - (h + n)) % 256);
      held' < 256 && Clean(h + n, held') && Packed(fifo, h + n, held') == Packed(fifo, h, held) + BitsOf(v, n)
  {
    hide BitsOf, BitsOfBytes, Shl, Low, Shr, Pow2, Or;
    var H := HoldsShifted(h, held);
    var held' := Or(held, Shl(v, 8 - (h + n)) % 256);
    AppendHeld(held, h, H, v, n);
    HeldValue(held', h + n, Shl(H, n) + v);
    BitsOfSplit(H, v, h, n);
    Regrouped(BitsOfBytes(fifo), BitsOf(H, h), BitsOf(v, n));
  }

  /** The main path of write. */
  lemma LongWrite(fifo: seq<Byte>, h: nat, held: Byte, v: nat, n: nat, q: nat, r: nat)
    requires Clean(h, held) && v < Pow2(n) && n <= 32 && h + n == 8 * q + r && r < 8 && 1 <= q
    ensures var word := Or(Shl(held, (n - r) / 8 * 8) % 0x1_0000_0000, Shr(v, r));
      var held' := Shl(v, 8 - r) % 256;
      Clean(r, held') && Packed(fifo + BigEndian(word, q), r, held') == Packed(fifo, h, held) + BitsOf(v, n)
  {
    hide BitsOf, BitsOfBytes, Shl, Low, Shr, Pow2, Or, BigEndian;
    var H := HoldsShifted(h, held);
    var word := Or(Shl(held, (n - r) / 8 * 8) % 0x1_0000_0000, Shr(v, r));
    NextHeld(v, r);
    HeldValue(Shl(v, 8 - r) % 256, r, Low(v, r));
    FormWord(held, h, H, v, n, q, r);
    Regroup(h, H, v, n, q, r);
    BigEndianBits(word, q);
    JoinPacked(fifo, BigEndian(word, q), BitsOf(Low(v, r), r), BitsOf(H, h), BitsOf(v, n));
  }

  lemma JoinPacked(a: seq<Byte>, b: seq<Byte>, rest: seq<bool>, s: seq<bool>, t: seq<bool>)
    requires s + t == BitsOfBytes(b) + rest
    ensures BitsOfBytes(a + b) + rest == BitsOfBytes(a) + s + t
  {
    BitsOfBytesConcat(a, b);
    Regrouped(BitsOfBytes(a), BitsOfBytes(b), rest);
    Regrouped(BitsOfBytes(a), s, t);
  }

  // ---------- the class

  class OutputBitstream {
    var fifo: seq<Byte>
    var numHeld: nat
    var held: Byte

    /** Fewer than eight bits are held, and the unused low bits are zero. */
    ghost predicate Valid()
      reads this
    {
      numHeld < 8 && Clean(numHeld, held)
    }

    /** Everything appended so far. */
    ghost function Contents(): (s: seq<bool>)
      requires numHeld < 8
      reads this
      ensures |s| == 8 * |fifo| + numHeld
    {
      Packed(fifo, numHeld, held)
    }

    constructor ()
      ensures Valid() && Contents() == []
    {
      fifo, numHeld, held := [], 0, 0;
      new;
      LowSmall(0, 8);
    }

    /** The number of bits appended. */
    function GetNumberOfWrittenBits(): (n: nat)
      requires numHeld < 8
      reads this
      ensures n == |Contents()|
    {
      |fifo| * 8 + numHeld
    }

    /** The least number of bits that completes the last byte. */
    function GetNumBitsUntilByteAligned(): (n: nat)
      requires numHeld < 8
      reads this
      ensures n < 8 && (|Contents()| + n) % 8 == 0
    {
      (8 - numHeld) % 8
    }

    /** The fall-through switch: pushes the q low bytes of word, highest first. */
    method PushBytes(word: nat, q: nat)
      requires 1 <= q <= 4
      modifies this`fifo
      ensures fifo == old(fifo) + BigEndian(word, q)
    {
      if q >= 4 { fifo := fifo + [word / 0x100_0000 % 256]; }
      if q >= 3 { fifo := fifo + [word / 0x1_0000 % 256]; }
      if q >= 2 { fifo := fifo + [word / 256 % 256]; }
      fifo := fifo + [word % 256];
    }

    /** Appends the n low bits of v. */
    method Write(v: nat, n: nat)
      requires Valid() && n <= 32 && v < Pow2(n)
      modifies this
      ensures Valid() && Contents() == old(Contents()) + BitsOf(v, n)
    {
      hide Packed, Clean, BitsOf, Pow2, Or, Shl, Shr, BigEndian;
      var total := n + numHeld;
      var next := total % 8;
      var nextHeld := Shl(v, 8 - next) % 256;
      if total / 8 == 0 {
        ShortWrite(fifo, numHeld, held, v, n);
        held, numHeld := Or(held, nextHeld), next;
        return;
      }
      LongWrite(fifo, numHeld, held, v, n, total / 8, next);
      var topword := (n - next) / 8 * 8;
      var word := Or(Shl(held, topword) % 0x1_0000_0000, Shr(v, next));
      PushBytes(word, total / 8);
      held, numHeld := nextHeld, next;
    }

    /** Ones up to the next byte boundary. */
    method WriteAlignOne()
      requires Valid()
      modifies this
      ensures Valid() && numHeld == 0
      ensures Contents() == old(Contents()) + Fill(true, old(GetNumBitsUntilByteAligned()))
    {
      var n := GetNumBitsUntilByteAligned();
      hide Packed, BitsOf, Fill;
      AllOnes(n);
      Write(Pow2(n) - 1, n);
      assert |Contents()| % 8 == 0;
    }

    /** Zeros up to the next byte boundary. */
    method WriteAlignZero()
      requires Valid()
      modifies this
      ensures Valid() && numHeld == 0
      ensures Contents() == old(Contents()) + Fill(false, old(GetNumBitsUntilByteAligned()))
    {
      hide Packed, Clean, BitsOfBytes, Fill;
      ghost var s := Contents();
      if numHeld == 0 {
        NoPadding(s);
        return;
      }
      FlushHeld(fifo, numHeld, held);
      assert GetNumBitsUntilByteAligned() == 8 - numHeld;
      fifo := fifo + [held];
      held, numHeld := 0, 0;
    }

    method AddBytes(bytes: seq<Byte>)
      requires Valid()
      modifies this
      ensures Valid() && Contents() == old(Contents()) + BitsOfBytes(bytes)
    {
      ghost var s := Contents();
      Pow2Values();
      assert s == s + BitsOfBytes(bytes[..0]);
      for i := 0 to |bytes|
        invariant Valid() && Contents() == s + BitsOfBytes(bytes[..i])
      {
        Write(bytes[i], 8);
        assert bytes[..i + 1][..i] == bytes[..i];
        Regrouped(s, BitsOfBytes(bytes[..i]), BitsOf(bytes[i], 8));
      }
      assert bytes[..|bytes|] == bytes;
    }

    /** Appends another stream, whole bytes first, then its held bits. */
    method AddSubstream(sub: OutputBitstream)
      requires Valid() && sub.Valid() && sub != this
      modifies this
      ensures Valid() && Contents() == old(Contents()) + sub.Contents()
    {
      hide BitsOf, BitsOfBytes, Low, Shr, Pow2, Packed, Clean;
      ghost var s := Contents();
      var numBits := sub.GetNumberOfWrittenBits();
      AddBytes(sub.fifo);
      ghost var H := HoldsShifted(sub.numHeld, sub.held);
      PackedIs(sub.fifo, sub.numHeld, sub.held);
      Regrouped(s, BitsOfBytes(sub.fifo), BitsOf(H, sub.numHeld));
      if numBits % 8 != 0 {
        Write(Shr(sub.held, 8 - numBits % 8), numBits % 8);
      }
    }

    /** A one, then zeros up to the next byte boundary. */
    method WriteByteAlignment()
      requires Valid()
      modifies this
      ensures Valid() && numHeld == 0
      ensures Contents() == old(Contents()) + [true] + Fill(false, 7 - |old(Contents())| % 8)
    {
      ghost var n := |Contents()|;
      OneBit();
      Write(1, 1);
      AfterOneBit(n, |fifo|, numHeld);
      WriteAlignZero();
    }

    /** Splices an aligned stream in at a byte position. */
    method InsertAt(src: OutputBitstream, pos: nat)
      requires Valid() && src.Valid() && src != this && src.numHeld == 0 && pos <= |fifo|
      modifies this
      ensures Valid() && Contents() == old(Contents())[..8 * pos] + src.Contents() + old(Contents())[8 * pos..]
    {
      InsertPacked(fifo[..pos], src.fifo, fifo[pos..], numHeld, held);
      assert fifo == fifo[..pos] + fifo[pos..];
      assert src.Contents() == BitsOfBytes(src.fifo);
      fifo := fifo[..pos] + src.fifo + fifo[pos..];
    }
  }

  lemma InsertPacked(a: seq<Byte>, b: seq<Byte>, c: seq<Byte>, h: nat, held: nat)
    requires h < 8
    ensures var s := Packed(a + c, h, held);
      Packed(a + b + c, h, held) == s[..8 * |a|] + BitsOfBytes(b) + s[8 * |a|..]
  {
    BitsOfBytesConcat(a, c);
    BitsOfBytesConcat(a + b, c);
    BitsOfBytesConcat(a, b);
    ThreePieces(BitsOfBytes(a), BitsOfBytes(b), BitsOfBytes(c), BitsOf(Shr(held, 8 - h), h));
  }

  lemma ThreePieces(a: seq<bool>, b: seq<bool>, c: seq<bool>, d: seq<bool>)
    ensures a + b + c + d == (a + c + d)[..|a|] + b + (a + c + d)[|a|..]
  {
  }

  lemma NoPadding(s: seq<bool>)
    ensures s + Fill(false, 0) == s
  {
  }

  lemma OneBit()
    ensures Pow2(1) == 2 && BitsOf(1, 1) == [true]
  {
    assert BitsOf(0, 0) == [];
  }

  lemma AfterOneBit(n: nat, bytes: nat, h: nat)
    requires n + 1 == 8 * bytes + h && h < 8
    ensures (8 - h) % 8 == 7 - n % 8
  {
  }

  lemma {:induction false} AllOnes(n: nat)
    ensures BitsOf(Pow2(n) - 1, n) == Fill(true, n)
  {
    if n == 0 {
    } else {
      AllOnes(n - 1);
      assert (Pow2(n) - 1) / 2 == Pow2(n - 1) - 1;
    }
  }

  /** The held byte as it stands is the held bits followed by zeros. */
  lemma FlushHeld(fifo: seq<Byte>, h: nat, held: Byte)
    requires Clean(h, held)
    ensures Clean(0, 0) && Packed(fifo + [held], 0, 0) == Packed(fifo, h, held) + Fill(false, 8 - h)
  {
    LowSmall(0, 8);
    BitsOfBytesConcat(fifo, [held]);
    BitsOfByte(held);
    BitsOfShrLow(held, h, 8 - h);
    BitsOfZero(8 - h);
    Regrouped(BitsOfBytes(fifo), BitsOf(Shr(held, 8 - h), h), BitsOf(0, 8 - h));
  }
}
