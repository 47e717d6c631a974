/** The AVC bit reader: a window of two 32-bit words that slides over the loaded bytes, and the
    Exp-Golomb decoding on top of it. */
module AvcReader {
  import opened Bits
  import opened ExpGolomb
  import opened AvcLoading

  // ---------- one read, on values

  /** a holds the last 32 - r bits of a word, left-aligned. */
  ghost predicate Aligned(a: nat, r: nat, x: nat) {
    r <= 32 && x < Pow2(32 - r) && a == Shl(x, r)
  }

  lemma AlignedValue(a: nat, r: nat, x: nat)
    requires Aligned(a, r, x)
    ensures Shr(a, r) == x && Low(a, r) == 0 && a < 0x1_0000_0000
  {
    ShrLowUnique(a, r, x, 0);
    ShlBound(x, 32 - r, r);
    Pow2Values();
  }

  /** Shifting i more bits out of the top of a left-aligned word. */
  lemma ShiftOut(x: nat, r: nat, i: nat)
    requires r + i <= 32 && x < Pow2(32 - r)
    ensures Aligned(Shl(Shl(x, r), i) % 0x1_0000_0000, r + i, Low(x, 32 - r - i))
  {
    hide Shl, Shr, Low, Pow2;
    var m := 32 - r - i;
    ShrLow(x, m);
    ShlShl(x, r, i);
    ShlAdd(Shl(Shr(x, m), m), Low(x, m), r + i);
    ShlShl(Shr(x, m), m, r + i);
    ShlBound(Low(x, m), m, r + i);
    WordMod(Shr(x, m), Shl(Low(x, m), r + i));
  }

  lemma WordMod(hi: nat, lo: nat)
    requires lo < Pow2(32)
    ensures (Shl(hi, 32) + lo) % 0x1_0000_0000 == lo
  {
    ShlIsProduct(hi, 32);
    Pow2Values();
  }

  lemma ShrShl(x: nat, r: nat, m: nat)
    requires r <= m
    ensures Shr(Shl(x, r), m) == Shr(x, m - r)
  {
    ShrLowUnique(Shl(x, r), r, x, 0);
    ShrShr(Shl(x, r), r, m - r);
  }

  /** The top i bits while the first word lasts. */
  lemma ReadWithin(a: nat, r: nat, x: nat, i: nat)
    requires Aligned(a, r, x) && r + i <= 32
    ensures var v := Shr(a, 32 - i);
      v < Pow2(i) && BitsOf(x, 32 - r) == BitsOf(v, i) + BitsOf(Low(x, 32 - r - i), 32 - r - i)
  {
    hide Shl, Shr, Low, Pow2, BitsOf;
    ShrShl(x, r, 32 - i);
    ShrBound(x, i, 32 - r - i);
    BitsOfShrLow(x, i, 32 - r - i);
  }

  /** The rest of the first word and the top of the second. */
  lemma ReadAcross(a: nat, r: nat, x: nat, b: nat, i: nat)
    requires Aligned(a, r, x) && b < Pow2(32) && i <= 31 && 32 < r + i
    ensures var s := r + i - 32;
      var v := Or(Shr(a, 32 - i), Shr(b, 32 - s));
      v < Pow2(i) && BitsOf(x, 32 - r) + BitsOf(b, 32) == BitsOf(v, i) + BitsOf(Low(b, 32 - s), 32 - s)
  {
    hide Shl, Shr, Low, Pow2, BitsOf, Or;
    var s := r + i - 32;
    ShlShl(x, s, 32 - i);
    ShlPositive(x, s, 32 - i, a);
    ShrBound(b, s, 32 - s);
    OrDisjoint(x, Shr(b, 32 - s), s);
    ShlBound(x, 32 - r, s);
    BitsOfSplit(x, Shr(b, 32 - s), 32 - r, s);
    BitsOfShrLow(b, s, 32 - s);
    Regrouped(BitsOf(x, 32 - r), BitsOf(Shr(b, 32 - s), s), BitsOf(Low(b, 32 - s), 32 - s));
  }

  lemma ShlPositive(x: nat, s: nat, m: nat, a: nat)
    requires a == Shl(Shl(x, s), m)
    ensures Shr(a, m) == Shl(x, s)
  {
    ShrLowUnique(a, m, Shl(x, s), 0);
  }

  function Total(widths: seq<nat>): nat {
    if widths == [] then 0 else widths[0] + Total(widths[1..])
  }

  function Slices(vals: seq<nat>, widths: seq<nat>): seq<bool>
    requires |vals| == |widths|
  {
    if vals == [] then [] else BitsOf(vals[0], widths[0]) + Slices(vals[1..], widths[1..])
  }

  // ---------- the class

  class Reader {
    var buf: seq<Byte>
    var size: nat
    var readBytes: nat
    var zeroNum: nat
    var readBits: nat
    var bufferA: nat
    var bufferB: nat
    /** How many words of the window hold data that was loaded for them. */
    ghost var live: nat

    ghost predicate Valid()
      reads this
    {
      && LoadsFit(buf, size, readBytes, zeroNum) && readBits <= 32 && live <= 2
      && (live < 2 ==> size <= readBytes)
      && (live > 0 ==> Low(bufferA, readBits) == 0 && bufferA < 0x1_0000_0000)
      && (live > 1 ==> bufferB < 0x1_0000_0000)
    }

    /** The loaded bits not read yet. */
    ghost function Rest(): (s: seq<bool>)
      requires Valid()
      reads this
    {
      if live == 0 then [] else
      BitsOf(Shr(bufferA, readBits), 32 - readBits) +
      if live == 1 then [] else BitsOf(bufferB, 32) + BitsOfBytes(Future(buf, size, readBytes, zeroNum))
    }

    /** loadBuffer: four more bytes as a word, unless the read position has reached the size. */
    method LoadBuffer(old_: nat) returns (word: nat)
      requires LoadsFit(buf, size, readBytes, zeroNum)
      modifies this`readBytes, this`zeroNum
      ensures LoadsFit(buf, size, readBytes, zeroNum)
      ensures old(readBytes) >= size ==> word == old_ && readBytes == old(readBytes) && zeroNum == old(zeroNum)
      ensures old(readBytes) < size ==>
        && word < 0x1_0000_0000
        && BitsOfBytes(Future(buf, size, old(readBytes), old(zeroNum))) ==
           BitsOf(word, 32) + BitsOfBytes(Future(buf, size, readBytes, zeroNum))
    {
      hide Or, BitsOf, BitsOfBytes, CharFits, CharsFit, LoadChar, LoadChars;
      word := old_;
      if readBytes < size {
        FourChars(buf, readBytes, zeroNum);
        var c0 := NextChar();
        var c1 := NextChar();
        var c2 := NextChar();
        var c3 := NextChar();
        word := Or(Or(Or(c0 * 256, c1) * 256, c2) * 256, c3);
        OrNext(c0, c1);
        OrNext(c0 * 256 + c1, c2);
        OrNext((c0 * 256 + c1) * 256 + c2, c3);
        FourBytes(word, c0, c1, c2, c3);
        BitsOfBytesConcat([c0, c1, c2, c3], Future(buf, size, readBytes, zeroNum));
      }
    }

    method NextChar() returns (c: nat)
      requires CharFits(buf, readBytes, zeroNum)
      modifies this`readBytes, this`zeroNum
      ensures (c, readBytes, zeroNum) == LoadChar(buf, old(readBytes), old(zeroNum))
      ensures c < 256
    {
      c := buf[readBytes];
      readBytes := readBytes + 1;
      if c <= 3 {
        if zeroNum == 2 {
          if c == 3 {
            c := buf[readBytes];
            readBytes := readBytes + 1;
          }
          zeroNum := 0;
          if c <= 3 {
            zeroNum := zeroNum + 1;
          }
        } else {
          zeroNum := zeroNum + 1;
        }
      } else {
        zeroNum := 0;
      }
    }

    /** An idle reader. */
    constructor ()
      ensures Valid() && Rest() == []
    {
      buf, size := [], 0;
      readBytes, zeroNum, readBits, live := 0, 0, 0, 0;
      bufferA, bufferB := *, *;
    }

    /** setBuffer: both words of the window are filled as far as there are bytes. The last load may
        look past the size, as far as the buffer goes. */
    method SetBuffer(buf: seq<Byte>, size: nat)
      requires LoadsFit(buf, size, 0, 0)
      modifies this
      ensures Valid() && this.buf == buf && this.size == size && readBits == 0
      ensures Rest() == BitsOfBytes(Future(buf, size, 0, 0))
    {
      hide BitsOf, BitsOfBytes, Shr, Low, Future, LoadsFit;
      this.buf, this.size := buf, size;
      readBytes, zeroNum, readBits := 0, 0, 0;
      ghost var f0 := BitsOfBytes(Future(buf, size, 0, 0));
      ghost var more := readBytes < size;
      bufferA := LoadBuffer(bufferA);
      ghost var f1 := BitsOfBytes(Future(buf, size, readBytes, zeroNum));
      ghost var evenMore := readBytes < size;
      bufferB := LoadBuffer(bufferB);
      live := if !more then 0 else if !evenMore then 1 else 2;
      Start(bufferA);
      if !more {
        NothingLeft(buf, size, 0, 0);
      } else if !evenMore {
        NothingLeft(buf, size, readBytes, zeroNum);
      }
    }

    /** The case of a read that the first word can serve. */
    method ReadFirstWord(i: nat) returns (v: nat)
      requires Valid() && 1 <= i && i <= |Rest()| && readBits + i <= 32
      modifies this
      ensures Valid() && v < Pow2(i) && old(Rest()) == BitsOf(v, i) + Rest()
    {
      hide BitsOf, BitsOfBytes, Shl, Shr, Low, Or, Pow2, Future, LoadsFit;
      ghost var x, r, tail := Shr(bufferA, readBits), readBits, Rest()[32 - readBits..];
      LeftAligned(bufferA, readBits);
      readBits := readBits + i;
      ReadWithin(bufferA, r, x, i);
      ShiftOut(x, r, i);
      v := Shr(bufferA, 32 - i);
      bufferA := Shl(bufferA, i) % 0x1_0000_0000;
      AlignedValue(bufferA, readBits, Low(x, 32 - readBits));
      Regrouped(BitsOf(v, i), BitsOf(Low(x, 32 - readBits), 32 - readBits), tail);
    }

    /** The case of a read that needs bits of the second word, which then moves up. */
    method ReadTwoWords(i: nat) returns (v: nat)
      requires Valid() && i <= 31 && i <= |Rest()| && 32 < readBits + i
      modifies this
      ensures Valid() && v < Pow2(i) && old(Rest()) == BitsOf(v, i) + Rest()
    {
      hide BitsOf, BitsOfBytes, Shl, Shr, Low, Or, Pow2, Future, LoadsFit;
      assert live == 2;
      ghost var x, r := Shr(bufferA, readBits), readBits;
      LeftAligned(bufferA, readBits);
      readBits := readBits + i - 32;
      v := Or(Shr(bufferA, 32 - i), Shr(bufferB, 32 - readBits));
      ghost var b, future := bufferB, BitsOfBytes(Future(buf, size, readBytes, zeroNum));
      Pow2Values();
      ReadAcross(bufferA, r, x, b, i);
      bufferA := bufferB;
      if size <= readBytes { live := 1; NothingLeft(buf, size, readBytes, zeroNum); }
      bufferB := LoadBuffer(bufferB);
      ShiftOut(b, 0, readBits);
      NoShift(b);
      bufferA := Shl(bufferA, readBits) % 0x1_0000_0000;
      AlignedValue(bufferA, readBits, Low(b, 32 - readBits));
      Regrouped(BitsOf(x, 32 - r), BitsOf(b, 32), future);
      Regrouped(BitsOf(v, i), BitsOf(Low(b, 32 - readBits), 32 - readBits), future);
    }

    /** Reads 1 to 31 bits across the window. */
    method Read(i: nat) returns (v: nat)
      requires Valid() && 1 <= i <= 31 && i <= |Rest()|
      modifies this
      ensures Valid() && v < Pow2(i) && old(Rest()) == BitsOf(v, i) + Rest()
    {
      if readBits + i <= 32 {
        v := ReadFirstWord(i);
      } else {
        v := ReadTwoWords(i);
      }
    }

    /** Any run of reads delivers consecutive slices of the loaded bits. */
    method ReadSlices(widths: seq<nat>) returns (vals: seq<nat>)
      requires Valid() && Total(widths) <= |Rest()|
      requires forall j :: 0 <= j < |widths| ==> 1 <= widths[j] <= 31
      modifies this
      ensures Valid() && |vals| == |widths| && old(Rest()) == Slices(vals, widths) + Rest()
    {
      hide BitsOf, Rest, Valid;
      if widths == [] {
        vals := [];
        return;
      }
      ghost var s := Rest();
      var v := Read(widths[0]);
      var vs := ReadSlices(widths[1..]);
      vals := [v] + vs;
      assert vals[1..] == vs;
      Regrouped(BitsOf(v, widths[0]), Slices(vs, widths[1..]), Rest());
    }

    /** The shared prefix of both decoders: zeros up to and including the first one. */
    method ReadPrefix(ghost n: nat, ghost t: seq<bool>) returns (length: nat)
      requires Valid() && Rest() == Fill(false, n) + ([true] + t)
      modifies this
      ensures Valid() && length == n && Rest() == t
    {
      hide BitsOf, Fill, Pow2, Rest, Valid;
      var code := Read(1);
      length := 0;
      FirstBit(n, t, code, Rest());
      while code % 2 == 0
        invariant Valid() && length <= n && code <= 1
        invariant if code == 1 then length == n && Rest() == t
                  else length < n && Rest() == Fill(false, n - length - 1) + ([true] + t)
        decreases n - length, 1 - code
      {
        code := Read(1);
        FirstBit(n - length - 1, t, code, Rest());
        length := length + 1;
      }
    }

    /** readUvlc decodes ue(v) and consumes exactly the codeword. */
    method ReadUvlc(ghost k: nat) returns (val: nat)
      requires Valid() && Ue(k) <= Rest() && k <= 0x7FFF_FFFE
      modifies this
      ensures Valid() && val == k && Rest() == old(Rest())[|Ue(k)|..]
    {
      hide BitsOf, Fill, Pow2, Ue, Log2, Rest, Valid;
      ghost var n, s := Log2(k + 1), Rest();
      ghost var rest := s[|Ue(k)|..];
      UePieces(k);
      ShortCode(k);
      ghost var suffix := BitsOf(k + 1 - Pow2(n), n);
      Unfolded(s, Fill(false, n), suffix, rest);
      var length := ReadPrefix(n, suffix + rest);
      val := 0;
      if length > 0 {
        val := Read(length);
        SameField(k + 1 - Pow2(n), val, n, rest, Rest());
        val := val + (Pow2(length) - 1);
      } else {
        NoSuffix(k);
      }
    }

    /** readSvlc decodes se(v): the code number shifted by one, its low bit the sign. */
    method ReadSvlc(ghost v: int) returns (val: int)
      requires Valid() && Ue(CodeNum(v)) <= Rest() && CodeNum(v) <= 0x7FFF_FFFE
      modifies this
      ensures Valid() && val == v && Rest() == old(Rest())[|Ue(CodeNum(v))|..]
    {
      hide BitsOf, Fill, Pow2, Ue, Log2, Rest, Valid, CodeNum;
      ghost var k := CodeNum(v);
      ghost var n, s := Log2(k + 1), Rest();
      ghost var rest := s[|Ue(k)|..];
      UePieces(k);
      ShortCode(k);
      ghost var suffix := BitsOf(k + 1 - Pow2(n), n);
      Unfolded(s, Fill(false, n), suffix, rest);
      var length := ReadPrefix(n, suffix + rest);
      val := 0;
      if length > 0 {
        var bits := Read(length);
        SameField(k + 1 - Pow2(n), bits, n, rest, Rest());
        bits := bits + Pow2(length);
        val := if bits % 2 == 1 then -(bits / 2) else bits / 2;
      } else {
        NoSuffix(k);
      }
      SignOf(v);
    }

    /** A whole run of ue(v) codewords comes back in order. */
    method ReadUvlcs(ghost ks: seq<nat>, count: nat) returns (vals: seq<nat>)
      requires Valid() && count == |ks| && UeAll(ks) <= Rest()
      requires forall i :: 0 <= i < |ks| ==> ks[i] <= 0x7FFF_FFFE
      modifies this
      ensures Valid() && vals == ks && Rest() == old(Rest())[|UeAll(ks)|..]
    {
      hide Ue, Rest, Valid;
      ghost var rest := Rest()[|UeAll(ks)|..];
      vals := [];
      assert ks[0..] == ks;
      for i := 0 to count
        invariant Valid() && vals == ks[..i] && Rest() == UeAll(ks[i..]) + rest
      {
        assert ks[i..][1..] == ks[i + 1..];
        Regrouped(Ue(ks[i]), UeAll(ks[i + 1..]), rest);
        var val := ReadUvlc(ks[i]);
        vals := vals + [val];
      }
    }
  }

  /** One bit read off zeros that end in a one. */
  lemma FirstBit(n: nat, t: seq<bool>, code: nat, rest: seq<bool>)
    requires code < Pow2(1) && Fill(false, n) + ([true] + t) == BitsOf(code, 1) + rest
    ensures code <= 1 && (code == 1 <==> n == 0)
    ensures rest == if n == 0 then t else Fill(false, n - 1) + ([true] + t)
  {
    var s := Fill(false, n) + ([true] + t);
    assert BitsOf(0, 1) == [false] && BitsOf(1, 1) == [true] by {
      assert BitsOf(0, 0) == [];
    }
    assert s[0] == BitsOf(code, 1)[0];
    assert rest == s[1..];
    if n > 0 {
      assert s[1..] == Fill(false, n - 1) + ([true] + t);
    }
  }

  /** Code numbers up to 2^31 - 2 have at most 30 bits behind the leading one. */
  lemma ShortCode(k: nat)
    requires k <= 0x7FFF_FFFE
    ensures Log2(k + 1) <= 30
  {
    Log2Bounds(k + 1);
    Pow2Values();
    Pow2Add(24, 7);
    if Log2(k + 1) > 30 {
      Pow2Monotone(31, Log2(k + 1));
    }
  }

  /** Halving the shifted code number and negating if it is odd gives the value back. */
  lemma SignOf(v: int)
    ensures var bits := CodeNum(v) + 1;
      v == if bits % 2 == 1 then -(bits / 2) else bits / 2
  {
  }

  lemma NoSuffix(k: nat)
    requires Log2(k + 1) == 0
    ensures k == 0 && BitsOf(k + 1 - Pow2(0), 0) == []
  {
    Log2Bounds(k + 1);
  }

  lemma NothingLeft(buf: seq<Byte>, size: nat, pos: nat, zeros: nat)
    requires LoadsFit(buf, size, pos, zeros) && size <= pos
    ensures BitsOfBytes(Future(buf, size, pos, zeros)) == []
  {
  }

  lemma NoShift(b: nat)
    ensures Shl(b, 0) == b
  {
  }

  lemma Start(a: nat)
    ensures Shr(a, 0) == a && Low(a, 0) == 0
  {
  }

  lemma LeftAligned(a: nat, r: nat)
    requires r <= 32 && Low(a, r) == 0 && a < 0x1_0000_0000
    ensures Aligned(a, r, Shr(a, r))
  {
    ShrLow(a, r);
    Pow2Values();
    ShrBound(a, 32 - r, r);
  }

  lemma FourChars(buf: seq<Byte>, pos: nat, zeros: nat)
    requires CharsFit(buf, pos, zeros, 4)
    ensures CharFits(buf, pos, zeros)
    ensures var (c0, p0, z0) := LoadChar(buf, pos, zeros);
      CharFits(buf, p0, z0) &&
      var (c1, p1, z1) := LoadChar(buf, p0, z0);
      CharFits(buf, p1, z1) &&
      var (c2, p2, z2) := LoadChar(buf, p1, z1);
      CharFits(buf, p2, z2) &&
      var (c3, p3, z3) := LoadChar(buf, p2, z2);
      LoadChars(buf, pos, zeros, 4) == ([c0, c1, c2, c3], p3, z3)
  {
    hide LoadChar, CharFits;
    var (c0, p0, z0) := LoadChar(buf, pos, zeros);
    assert CharsFit(buf, p0, z0, 3);
    var (c1, p1, z1) := LoadChar(buf, p0, z0);
    assert CharsFit(buf, p1, z1, 2);
    var (c2, p2, z2) := LoadChar(buf, p1, z1);
    assert CharsFit(buf, p2, z2, 1);
    var (c3, p3, z3) := LoadChar(buf, p2, z2);
    assert [c3] + [] == [c3] && [c0] + ([c1] + ([c2] + [c3])) == [c0, c1, c2, c3];
    assert LoadChars(buf, p3, z3, 0) == ([], p3, z3);
    assert LoadChars(buf, p2, z2, 1) == ([c3], p3, z3);
    assert LoadChars(buf, p1, z1, 2) == ([c2] + [c3], p3, z3);
    assert LoadChars(buf, p0, z0, 3) == ([c1] + ([c2] + [c3]), p3, z3);
  }

  lemma OrNext(hi: nat, c: Byte)
    ensures Or(hi * 256, c) == hi * 256 + c
  {
    Pow2Values();
    ShlIsProduct(hi, 8);
    OrDisjoint(hi, c, 8);
  }

  lemma ByteOff(hi: nat, c: Byte)
    ensures (hi * 256 + c) / 256 == hi && (hi * 256 + c) % 256 == c
  {
  }

  lemma FourBytes(word: nat, c0: Byte, c1: Byte, c2: Byte, c3: Byte)
    requires word == ((c0 * 256 + c1) * 256 + c2) * 256 + c3
    ensures word < 0x1_0000_0000 && BitsOf(word, 32) == BitsOfBytes([c0, c1, c2, c3])
  {
    hide BitsOf, BitsOfBytes;
    var w2, w3 := c0 * 256 + c1, (c0 * 256 + c1) * 256 + c2;
    ByteOff(w3, c3);
    ByteOff(w2, c2);
    ByteOff(c0, c1);
    ByteOff(0, c0);
    assert BigEndian(0, 0) == [];
    assert BigEndian(c0, 1) == [c0];
    assert BigEndian(w2, 2) == [c0, c1];
    assert BigEndian(w3, 3) == [c0, c1, c2];
    assert BigEndian(word, 4) == [c0, c1, c2, c3];
    BigEndianBits(word, 4);
  }
}
