/** The readable bitstream: a byte vector, a read index, and 0..7 held bits, the low bits of the
    byte last loaded. */
module InputBitstream {
  import opened Bits

  // ---------- one read, on values

  /** v & ~(0xff << n): the eight bits from place n on are cleared. */
  function ClearEight(v: nat, n: nat): nat {
    Low(v, n) + Shl(Shr(v, n + 8), n + 8)
  }

  lemma ClearEightByte(v: Byte, n: nat)
    ensures ClearEight(v, n) == Low(v, n)
  {
    Pow2Values();
    Pow2Monotone(8, n + 8);
    LowSmall(v, n + 8);
    ShlIsProduct(0, n + 8);
  }

  lemma ShrByte(held: Byte, m: nat)
    ensures Shr(held, m) < 256
  {
    ShrLow(held, m);
    ShlAtLeast(Shr(held, m), m);
  }

  lemma {:induction false} ShlAtLeast(v: nat, n: nat)
    ensures v <= Shl(v, n)
  {
    if n == 0 {
    } else {
      ShlAtLeast(v, n - 1);
    }
  }

  /** Enough bits are held: the top n of them are the answer, the others stay. */
  lemma ReadHeld(held: Byte, h: nat, n: nat)
    requires n <= h < 8
    ensures var r := ClearEight(Shr(held, h - n), n);
      r < Pow2(n) && BitsOf(held, h) == BitsOf(r, n) + BitsOf(held, h - n)
  {
    ShrByte(held, h - n);
    ClearEightByte(Shr(held, h - n), n);
    BitsOfShrLow(held, n, h - n);
    BitsOfLow(Shr(held, h - n), n);
    BitsOfLow(held, h - n);
  }

  /** A remainder modulo 256 has the same low bits. */
  lemma LowOfByte(v: nat, n: nat)
    requires n <= 8
    ensures Low(v % 256, n) == Low(v, n)
  {
    ShrLow(v % 256, n);
    Pow2Values();
    ShlIsProduct(v / 256, 8);
    ShlShl(v / 256, 8 - n, n);
    ShlAdd(Shl(v / 256, 8 - n), Shr(v % 256, n), n);
    ShrLowUnique(v, n, Shl(v / 256, 8 - n) + Shr(v % 256, n), Low(v % 256, n));
  }

  /** Held bits on top, the loaded word below, its last nh bits left over. */
  lemma ReadLoaded(held: Byte, h: nat, k: nat, word: nat, q: nat, nh: nat)
    requires h < 8 && nh < 8 && 8 * q == k + nh && word < Pow2(8 * q)
    ensures var r := Or(Shl(ClearEight(held, h), k), Shr(word, nh));
      r < Pow2(h + k) && BitsOf(held, h) + BitsOf(word, 8 * q) == BitsOf(r, h + k) + BitsOf(word % 256, nh)
  {
    hide Low, Shr, Shl, Or, BitsOf, Pow2, ClearEight;
    ClearEightByte(held, h);
    ShrBound(word, k, nh);
    OrDisjoint(Low(held, h), Shr(word, nh), k);
    ShlBound(Low(held, h), h, k);
    BitsOfSplit(Low(held, h), Shr(word, nh), h, k);
    BitsOfLow(held, h);
    BitsOfShrLow(word, k, nh);
    BitsOfLow(word % 256, nh);
    LowOfByte(word, nh);
    Regrouped(BitsOf(held, h), BitsOf(Shr(word, nh), k), BitsOf(Low(word, nh), nh));
  }

  // ---------- loading bytes

  function WordOf(bytes: seq<Byte>): nat {
    if bytes == [] then 0 else WordOf(bytes[..|bytes| - 1]) * 256 + bytes[|bytes| - 1]
  }

  lemma WordOfNone(bytes: seq<Byte>)
    requires bytes == []
    ensures WordOf(bytes) == 0
  {
  }

  lemma WordOfOne(bytes: seq<Byte>)
    requires |bytes| == 1
    ensures WordOf(bytes) == bytes[0]
  {
  }

  lemma {:induction false} WordOfFacts(bytes: seq<Byte>)
    ensures BigEndian(WordOf(bytes), |bytes|) == bytes && WordOf(bytes) < Pow2(8 * |bytes|)
  {
    if bytes == [] {
    } else {
      WordOfFacts(bytes[..|bytes| - 1]);
      Pow2Add(8 * (|bytes| - 1), 8);
      Pow2Values();
      assert bytes == bytes[..|bytes| - 1] + [bytes[|bytes| - 1]];
    }
  }

  /** Or-ing the next byte in below. */
  lemma OrBytes(hi: nat, b: Byte, n: nat)
    ensures Or(Shl(hi, n + 8), Shl(b, n)) == Shl(256 * hi + b, n)
  {
    Pow2Values();
    ShlBound(b, 8, n);
    OrDisjoint(hi, Shl(b, n), n + 8);
    ShlShl(hi, 8, n);
    ShlIsProduct(hi, 8);
    ShlAdd(Shl(hi, 8), b, n);
  }

  // ---------- the class

  class InputBitstream {
    var fifo: seq<Byte>
    var idx: nat
    var numHeld: nat
    var held: Byte
    var numBitsRead: nat

    ghost predicate Valid()
      reads this
    {
      && idx <= |fifo| && numHeld < 8
      && (numHeld > 0 ==> 0 < idx && held == fifo[idx - 1])
    }

    /** The bits not read yet. */
    ghost function Rest(): (s: seq<bool>)
      requires idx <= |fifo|
      reads this
      ensures |s| == numHeld + 8 * (|fifo| - idx)
    {
      BitsOf(held, numHeld) + BitsOfBytes(fifo[idx..])
    }

    constructor (fifo: seq<Byte>)
      ensures Valid() && Rest() == BitsOfBytes(fifo) && this.fifo == fifo && idx == 0 && numHeld == 0
    {
      this.fifo := fifo;
      idx, numHeld, held, numBitsRead := 0, 0, 0, 0;
    }

    function GetNumBitsUntilByteAligned(): (n: nat)
      requires numHeld < 8 && idx <= |fifo|
      reads this
      ensures n < 8 && (8 * |fifo| - |Rest()| + n) % 8 == 0
    {
      numHeld % 8
    }

    function GetNumBitsLeft(): (n: nat)
      requires idx <= |fifo|
      reads this
      ensures n == |Rest()|
    {
      8 * (|fifo| - idx) + numHeld
    }

    /** The unread bits are the last |Rest()| bits of the whole stream. */
    lemma RestIsSuffix()
      requires Valid()
      ensures |Rest()| <= |BitsOfBytes(fifo)|
      ensures Rest() == BitsOfBytes(fifo)[|BitsOfBytes(fifo)| - |Rest()|..]
    {
      hide BitsOf, BitsOfBytes, Low, Shr;
      if numHeld == 0 {
        SplitBytes(fifo, idx);
      } else {
        SplitBytes(fifo, idx - 1);
        BitsOfBytesConcat([held], fifo[idx..]);
        assert fifo[idx - 1..] == [held] + fifo[idx..];
        BitsOfByte(held);
        BitsOfShrLow(held, 8 - numHeld, numHeld);
        BitsOfLow(held, numHeld);
        TailOf(BitsOfBytes(fifo[..idx - 1]), BitsOf(Shr(held, numHeld), 8 - numHeld),
               BitsOf(held, numHeld), BitsOfBytes(fifo[idx..]));
      }
    }

    /** The fall-through switch: the next 1 to 4 bytes as one word, first byte highest. */
    method LoadBytes(extra: nat) returns (word: nat)
      requires extra <= 3 && idx + extra < |fifo|
      modifies this`idx
      ensures idx == old(idx) + extra + 1
      ensures word == WordOf(fifo[old(idx)..idx])
    {
      hide WordOf, Or, Pow2;
      word := 0;
      ghost var from := idx;
      WordOfNone(fifo[from..idx]);
      Pow2Values();
      if extra >= 3 {
        word := (fifo[idx] as nat) * 0x100_0000;
        WordOfOne(fifo[from..idx + 1]);
        idx := idx + 1;
      }
      assert word == WordOf(fifo[from..idx]) * 0x100_0000;
      if extra >= 2 {
        OrByte(fifo, from, idx, 0x1_0000, 16);
        word := Or(word, (fifo[idx] as nat) * 0x1_0000);
        idx := idx + 1;
      }
      assert word == WordOf(fifo[from..idx]) * 0x1_0000;
      if extra >= 1 {
        OrByte(fifo, from, idx, 0x100, 8);
        word := Or(word, (fifo[idx] as nat) * 0x100);
        idx := idx + 1;
      }
      assert word == WordOf(fifo[from..idx]) * 0x100;
      OrByte(fifo, from, idx, 1, 0);
      word := Or(word, fifo[idx]);
      idx := idx + 1;
    }

    /** Reads n bits, most significant first. The assertion of the source on running out of bytes
        is the last precondition. */
    method Read(n: nat) returns (r: nat)
      requires Valid() && n <= 32 && n <= |Rest()|
      modifies this`idx, this`numHeld, this`held, this`numBitsRead
      ensures Valid() && r < Pow2(n)
      ensures old(Rest()) == BitsOf(r, n) + Rest()
      ensures numBitsRead == (old(numBitsRead) + n) % 0x1_0000_0000
    {
      hide BitsOf, BitsOfBytes, Shl, Shr, Or, Pow2, ClearEight, WordOf;
      ghost var h, b, i := numHeld, held, idx;
      numBitsRead := (numBitsRead + n) % 0x1_0000_0000;
      if n <= numHeld {
        ReadHeld(held, numHeld, n);
        r := ClearEight(Shr(held, numHeld - n), n);
        numHeld := numHeld - n;
        Regrouped(BitsOf(r, n), BitsOf(held, numHeld), BitsOfBytes(fifo[idx..]));
        return;
      }
      var k := n - numHeld;
      r := Shl(ClearEight(held, numHeld), k);
      var word := LoadBytes((k - 1) / 8);
      ghost var q := (k - 1) / 8 + 1;
      var next := (32 - k) % 8;
      r := Or(r, Shr(word, next));
      numHeld, held := next, word % 256;
      LoadedBits(fifo, i, q, word);
      ReadLoaded(b, h, k, word, q, next);
      Regrouped(BitsOf(b, h), BitsOf(word, 8 * q), BitsOfBytes(fifo[idx..]));
      Regrouped(BitsOf(r, n), BitsOf(held, next), BitsOfBytes(fifo[idx..]));
    }

    /** Peeks at n bits, padding with zeros behind the end. Everything but the counter of bits read
        is put back. */
    method PseudoRead(n: nat) returns (r: nat)
      requires Valid() && n <= 32
      modifies this`idx, this`numHeld, this`held, this`numBitsRead
      ensures Valid() && idx == old(idx) && numHeld == old(numHeld) && held == old(held)
      ensures r < Pow2(n) && BitsOf(r, n) == Padded(Rest(), n)
      ensures numBitsRead == (old(numBitsRead) + if n <= |Rest()| then n else |Rest()|) % 0x1_0000_0000
    {
      ghost var s := Rest();
      var savedNumHeld, savedHeld, savedIdx := numHeld, held, idx;
      var left := GetNumBitsLeft();
      var m := if n <= left then n else left;
      r := Read(m);
      PadValue(s, r, m, n, Rest());
      r := Shl(r, n - m) % 0x1_0000_0000;
      idx, held, numHeld := savedIdx, savedHeld, savedNumHeld;
    }

    /** Reads up to the next byte boundary. */
    method ReadOutTrailingBits() returns (count: nat)
      requires Valid()
      modifies this`idx, this`numHeld, this`held, this`numBitsRead
      ensures Valid() && numHeld == 0 && idx == old(idx)
      ensures count == old(numHeld) && Rest() == old(Rest())[count..]
    {
      hide BitsOf, BitsOfBytes, Pow2;
      ghost var s := Rest();
      count := 0;
      while GetNumBitsLeft() > 0 && GetNumBitsUntilByteAligned() != 0
        invariant Valid() && idx == old(idx) && count + numHeld == old(numHeld)
        invariant count <= |s| && Rest() == s[count..]
        decreases numHeld
      {
        count := count + 1;
        var bit := Read(1);
        assert Rest() == s[count - 1..][1..] == s[count..];
      }
    }

    /** A one bit and the zeros up to the boundary; anything else trips an assertion in the source. */
    method ReadByteAlignment() returns (count: nat)
      requires Valid() && Rest() != []
      requires [true] + Fill(false, (|Rest()| - 1) % 8) <= Rest()
      modifies this`idx, this`numHeld, this`held, this`numBitsRead
      ensures Valid() && numHeld == 0
      ensures count == 1 + (|old(Rest())| - 1) % 8 && Rest() == old(Rest())[count..]
    {
      hide Pow2, BitsOf, BitsOfBytes, Fill;
      ghost var s := Rest();
      ghost var pad := (|s| - 1) % 8;
      var code := Read(1);
      OneBitRead(s, code, Rest());
      assert code == 1;
      var numBits := GetNumBitsUntilByteAligned();
      assert numBits == pad;
      if numBits != 0 {
        ghost var t := Rest();
        code := Read(numBits);
        ZerosRead(s, t, code, numBits, Rest());
        assert code == 0;
      }
      count := numBits + 1;
    }

    /** The bit-by-bit path of extractSubstream. */
    method ReadBytes(count: nat) returns (buf: seq<Byte>)
      requires Valid() && 8 * count <= |Rest()|
      modifies this`idx, this`numHeld, this`held, this`numBitsRead
      ensures Valid() && |buf| == count && old(Rest()) == BitsOfBytes(buf) + Rest()
    {
      hide BitsOf, Pow2;
      ghost var s := Rest();
      buf := [];
      Pow2Values();
      for i := 0 to count
        invariant Valid() && |buf| == i && s == BitsOfBytes(buf) + Rest()
      {
        ghost var t, before := Rest(), buf;
        var byte := Read(8);
        buf := buf + [byte];
        assert buf[..|buf| - 1] == before;
        Regrouped(BitsOfBytes(before), BitsOf(byte, 8), Rest());
      }
    }

    /** The memcpy path: whole bytes, zeros where the buffer runs out. */
    method CopyBytes(count: nat) returns (buf: seq<Byte>)
      requires Valid() && numHeld == 0
      modifies this`idx
      ensures Valid() && |buf| == count
      ensures BitsOfBytes(buf) == Padded(old(Rest()), 8 * count)
      ensures Rest() == Dropped(old(Rest()), 8 * count)
    {
      hide BitsOf, BitsOfBytes, Padded, Dropped;
      var available := if count <= |fifo| - idx then count else |fifo| - idx;
      CopyBits(fifo[idx..], count, available);
      assert fifo[idx..][..available] == fifo[idx..idx + available];
      assert fifo[idx..][available..] == fifo[idx + available..];
      RestAligned();
      buf := fifo[idx..idx + available] + ZeroBytes(count - available);
      idx := idx + available;
      RestAligned();
    }

    lemma RestAligned()
      requires idx <= |fifo| && numHeld == 0
      ensures Rest() == BitsOfBytes(fifo[idx..])
    {
    }

    /** Both paths, on whole bytes: they agree as long as there are enough bits. */
    method TakeBytes(count: nat) returns (buf: seq<Byte>)
      requires Valid() && (8 * count <= |Rest()| || numHeld == 0)
      modifies this`idx, this`numHeld, this`held, this`numBitsRead
      ensures Valid() && |buf| == count
      ensures BitsOfBytes(buf) == Padded(old(Rest()), 8 * count) && Rest() == Dropped(old(Rest()), 8 * count)
    {
      hide BitsOf, BitsOfBytes, Padded, Dropped;
      ghost var s := Rest();
      if numHeld == 0 {
        buf := CopyBytes(count);
      } else {
        buf := ReadBytes(count);
        PaddedIs(s, BitsOfBytes(buf), Rest(), 8 * count);
        assert BitsOfBytes(buf) + Fill(false, 0) == BitsOfBytes(buf);
      }
    }

    /** The next n bits as a stream of their own, padded with zeros to a byte boundary. Running out
        is met with zeros only on the memcpy path with whole bytes; elsewhere it is an assertion. */
    method ExtractSubstream(n: nat) returns (sub: InputBitstream)
      requires Valid() && (n <= |Rest()| || (numHeld == 0 && n % 8 == 0))
      modifies this`idx, this`numHeld, this`held, this`numBitsRead
      ensures Valid() && fresh(sub) && sub.Valid() && sub.idx == 0 && sub.numHeld == 0
      ensures sub.Rest() == Padded(old(Rest()), n) + Fill(false, (8 - n % 8) % 8)
      ensures Rest() == Dropped(old(Rest()), n)
    {
      hide BitsOf, BitsOfBytes, Pow2, Padded, Dropped, Fill;
      ghost var s := Rest();
      var buf := TakeBytes(n / 8);
      if n % 8 == 0 {
        NoLastByte(s, n);
      } else {
        ghost var t := Rest();
        var byte := Read(n % 8);
        LastByte(s, buf, t, byte, n, Rest());
        byte := Shl(byte, 8 - n % 8) % 256;
        buf := buf + [byte];
      }
      sub := new InputBitstream(buf);
    }
  }

  // ---------- padding

  /** The first n bits of s, with zeros where s ends before. */
  function Padded(s: seq<bool>, n: nat): (r: seq<bool>)
    ensures |r| == n
  {
    if n <= |s| then s[..n] else s + Fill(false, n - |s|)
  }

  /** What is left of s behind its first n bits. */
  function Dropped(s: seq<bool>, n: nat): (r: seq<bool>)
    ensures |r| == if n <= |s| then |s| - n else 0
  {
    if n <= |s| then s[n..] else []
  }

  lemma {:induction false} ZerosBits(n: nat)
    ensures BitsOfBytes(ZeroBytes(n)) == Fill(false, 8 * n)
  {
    if n == 0 {
    } else {
      ZerosBits(n - 1);
      BitsOfZero(8);
      assert ZeroBytes(n)[..n - 1] == ZeroBytes(n - 1);
    }
  }

  lemma PadValue(s: seq<bool>, r: nat, m: nat, n: nat, rest: seq<bool>)
    requires r < Pow2(m) && s == BitsOf(r, m) + rest && n <= 32
    requires m == if n <= |s| then n else |s|
    ensures Shl(r, n - m) % 0x1_0000_0000 < Pow2(n) && BitsOf(Shl(r, n - m) % 0x1_0000_0000, n) == Padded(s, n)
  {
    hide Pow2, Shl, BitsOf, Fill, Padded;
    ShlBound(r, m, n - m);
    Pow2Monotone(n, 32);
    Pow2Values();
    BitsOfSplit(r, 0, m, n - m);
    BitsOfZero(n - m);
    PaddedIs(s, BitsOf(r, m), rest, n);
  }

  lemma OneBitRead(s: seq<bool>, code: nat, rest: seq<bool>)
    requires code < Pow2(1) && s == BitsOf(code, 1) + rest && s[0]
    ensures code == 1 && rest == s[1..]
  {
    assert BitsOf(code, 1)[0] == s[0];
  }

  lemma ZerosRead(s: seq<bool>, t: seq<bool>, code: nat, n: nat, rest: seq<bool>)
    requires s != [] && t == s[1..] && [true] + Fill(false, n) <= s
    requires code < Pow2(n) && t == BitsOf(code, n) + rest
    ensures code == 0 && rest == s[n + 1..]
  {
    assert forall i :: 0 <= i < n ==> t[i] == ([true] + Fill(false, n))[i + 1];
    assert BitsOf(code, n) == t[..n] == Fill(false, n);
    BitsOfZero(n);
    ValueOfBitsOf(code, n);
    Pow2Monotone(0, n);
    ValueOfBitsOf(0, n);
    assert rest == t[n..];
  }

  lemma CopyBits(bytes: seq<Byte>, count: nat, available: nat)
    requires available == if count <= |bytes| then count else |bytes|
    ensures BitsOfBytes(bytes[..available] + ZeroBytes(count - available)) == Padded(BitsOfBytes(bytes), 8 * count)
    ensures BitsOfBytes(bytes[available..]) == Dropped(BitsOfBytes(bytes), 8 * count)
  {
    hide BitsOfBytes, Fill, Padded, Dropped;
    BitsOfBytesConcat(bytes[..available], ZeroBytes(count - available));
    ZerosBits(count - available);
    SplitBytes(bytes, available);
    PaddedIs(BitsOfBytes(bytes), BitsOfBytes(bytes[..available]), BitsOfBytes(bytes[available..]), 8 * count);
  }

  /** A list that falls into a part to be taken and a rest. */
  lemma PaddedIs(s: seq<bool>, taken: seq<bool>, rest: seq<bool>, n: nat)
    requires s == taken + rest && |taken| == if n <= |s| then n else |s|
    ensures Padded(s, n) == taken + Fill(false, n - |taken|) && Dropped(s, n) == rest
  {
    assert taken + Fill(false, 0) == taken;
  }

  lemma NoLastByte(s: seq<bool>, n: nat)
    requires n % 8 == 0
    ensures Padded(s, n / 8 * 8) == Padded(s, n) + Fill(false, (8 - n % 8) % 8)
    ensures Dropped(s, n / 8 * 8) == Dropped(s, n)
  {
  }

  /** The last, partial byte of a substream. */
  lemma LastByte(s: seq<bool>, buf: seq<Byte>, t: seq<bool>, byte: nat, n: nat, rest: seq<bool>)
    requires n <= |s| && n % 8 != 0
    requires BitsOfBytes(buf) == Padded(s, n / 8 * 8) && t == Dropped(s, n / 8 * 8)
    requires byte < Pow2(n % 8) && t == BitsOf(byte, n % 8) + rest
    ensures BitsOfBytes(buf + [Shl(byte, 8 - n % 8) % 256]) == Padded(s, n) + Fill(false, (8 - n % 8) % 8)
    ensures rest == Dropped(s, n)
  {
    hide Pow2, Shl, BitsOf, BitsOfBytes, Fill;
    var m := n % 8;
    var b := Shl(byte, 8 - m) % 256;
    ShlBound(byte, m, 8 - m);
    Pow2Values();
    assert b == Shl(byte, 8 - m);
    BitsOfSplit(byte, 0, m, 8 - m);
    BitsOfZero(8 - m);
    BitsOfBytesConcat(buf, [b]);
    BitsOfByte(b);
    assert BitsOf(b, 8) == BitsOf(byte, m) + Fill(false, 8 - m);
    WholeAndPart(n, m);
    PartTaken(s, n - m, BitsOf(byte, m), rest);
    Regrouped(s[..n - m], BitsOf(byte, m), Fill(false, 8 - m));
  }

  lemma WholeAndPart(n: nat, m: nat)
    requires m == n % 8 && m != 0
    ensures n / 8 * 8 == n - m && (8 - m) % 8 == 8 - m
  {
  }

  lemma PartTaken(s: seq<bool>, at: nat, part: seq<bool>, rest: seq<bool>)
    requires at <= |s| && s[at..] == part + rest
    ensures s[..at + |part|] == s[..at] + part && s[at + |part|..] == rest
  {
    assert s == s[..at] + (part + rest);
  }

  lemma SplitBytes(fifo: seq<Byte>, i: nat)
    requires i <= |fifo|
    ensures BitsOfBytes(fifo) == BitsOfBytes(fifo[..i]) + BitsOfBytes(fifo[i..])
  {
    assert fifo == fifo[..i] + fifo[i..];
    BitsOfBytesConcat(fifo[..i], fifo[i..]);
  }

  lemma TailOf(a: seq<bool>, b: seq<bool>, c: seq<bool>, d: seq<bool>)
    ensures (a + (b + c + d))[|a| + |b|..] == c + d
  {
  }

  /** One more byte of the switch, shifted to its place. */
  lemma OrByte(fifo: seq<Byte>, from: nat, i: nat, p: nat, n: nat)
    requires from <= i < |fifo| && p == Pow2(n)
    ensures Or(WordOf(fifo[from..i]) * (256 * p), fifo[i] * p) == WordOf(fifo[from..i + 1]) * p
  {
    var hi := WordOf(fifo[from..i]);
    assert fifo[from..i + 1][..i - from] == fifo[from..i];
    Pow2Add(n, 8);
    Pow2Values();
    ShlIsProduct(hi, n + 8);
    ShlIsProduct(fifo[i], n);
    ShlIsProduct(256 * hi + fifo[i], n);
    OrBytes(hi, fifo[i], n);
  }

  /** The bytes just loaded, as bits, and the last of them. */
  lemma LoadedBits(fifo: seq<Byte>, i: nat, q: nat, word: nat)
    requires 1 <= q && i + q <= |fifo| && word == WordOf(fifo[i..i + q])
    ensures word < Pow2(8 * q) && word % 256 == fifo[i + q - 1]
    ensures BitsOfBytes(fifo[i..]) == BitsOf(word, 8 * q) + BitsOfBytes(fifo[i + q..])
  {
    hide BitsOf, BitsOfBytes, Pow2, WordOf;
    WordOfFacts(fifo[i..i + q]);
    BigEndianBits(word, q);
    SplitBytes(fifo[i..], q);
    assert fifo[i..][..q] == fifo[i..i + q] && fifo[i..][q..] == fifo[i + q..];
  }
}
