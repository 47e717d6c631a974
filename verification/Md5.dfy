/** The incremental MD5 context: it computes the digest of RFC 1321 however the message is cut. */
module Md5 {
  import opened Bits
  import opened Md5Spec
  import opened Md5Transform

  const WORD: nat := 0x1_0000_0000

  // ---------- the bit count, two words with a manual carry

  /** The count words after n bytes: 8 * n modulo 2^64. */
  ghost predicate Counts(n: nat, bits0: nat, bits1: nat) {
    bits0 == 8 * n % WORD && bits1 == 8 * n / WORD % WORD
  }

  lemma CountUpdate(n: nat, len: nat, bits0: nat, bits1: nat)
    requires Counts(n, bits0, bits1) && len < WORD
    ensures var low := (bits0 + len * 8 % WORD) % WORD;
      var carried := if low < bits0 then (bits1 + 1) % WORD else bits1;
      Counts(n + len, low, (carried + len / 0x2000_0000) % WORD)
  {
    var a, b, p, q := 8 * n, 8 * len, 8 * n / WORD, 8 * len / WORD;
    AddWords(a, b);
    HighWord(len);
    assert 8 * (n + len) == a + b;
    if (a % WORD + b % WORD) % WORD < a % WORD {
      ModOfSums(p, 1, q);
    } else {
      ModOfSums(p, 0, q);
      TwiceMod(p);
    }
  }

  lemma TwiceMod(p: nat)
    ensures p % WORD % WORD == p % WORD
  {
  }

  lemma HighWord(len: nat)
    ensures 8 * len / WORD == len / 0x2000_0000
  {
    QuotientIs(8 * len, len / 0x2000_0000, 8 * (len % 0x2000_0000));
  }

  lemma ModOfSums(p: nat, c: nat, q: nat)
    ensures ((p % WORD + c) % WORD + q) % WORD == (p + q + c) % WORD
  {
    var i, j := p / WORD, (p % WORD + c) / WORD;
    var r := (p % WORD + c) % WORD + q;
    assert p + q + c == (i + j + r / WORD) * WORD + r % WORD;
    QuotientIs(p + q + c, i + j + r / WORD, r % WORD);
  }

  /** Adding the low words overflows exactly when the sum falls below the first summand. */
  lemma AddWords(a: nat, b: nat)
    ensures var low := (a % WORD + b % WORD) % WORD;
      && (a + b) % WORD == low
      && (a + b) / WORD == a / WORD + b / WORD + if low < a % WORD then 1 else 0
  {
    var i, j, p, q := a % WORD, b % WORD, a / WORD, b / WORD;
    var carry := if i + j < WORD then 0 else 1;
    var low := i + j - carry * WORD;
    QuotientIs(i + j, carry, low);
    QuotientIs(a + b, p + q + carry, low);
  }

  lemma QuotientIs(x: nat, q: nat, r: nat)
    requires x == q * WORD + r && r < WORD
    ensures x / WORD == q && x % WORD == r
  {
  }

  /** The low word tells how many bytes wait in the buffer. */
  lemma BytesWaiting(n: nat, bits0: nat, bits1: nat)
    requires Counts(n, bits0, bits1)
    ensures bits0 / 8 % 64 == n % 64
  {
    var q, m := n / 0x2000_0000, n % 0x2000_0000;
    QuotientIs(8 * n, q, 8 * m);
    assert bits0 == 8 * m && bits0 / 8 == m;
    SixBits(n, q * 0x80_0000, m);
  }

  lemma SixBits(n: nat, k: nat, m: nat)
    requires n == 64 * k + m
    ensures n % 64 == m % 64
  {
    assert n == 64 * (k + m / 64) + m % 64;
  }

  // ---------- the context

  function RegsOf(buf: seq<Word>): Regs
    requires |buf| == 4
  {
    Regs(buf[0], buf[1], buf[2], buf[3])
  }

  class Context {
    const buf: array<Word>
    const inp: array<Byte>
    var bits0: nat
    var bits1: nat
    /** Everything fed in since the start. */
    ghost var msg: seq<Byte>

    ghost predicate Valid()
      reads this, buf, inp
    {
      && buf.Length == 4 && inp.Length == 64
      && Counts(|msg|, bits0, bits1)
      && Absorbed(msg, RegsOf(buf[..]), inp[..])
    }

    /** MD5Init */
    constructor ()
      ensures Valid() && msg == [] && fresh(buf) && fresh(inp)
    {
      buf := new Word[4] [0x67452301, 0xefcdab89, 0x98badcfe, 0x10325476];
      inp := new Byte[64](_ => 0);
      bits0, bits1, msg := 0, 0, [];
    }

    /** MD5Transform on the context's own buffer. */
    method TransformBuffer()
      requires buf.Length == 4 && inp.Length == 64
      modifies buf
      ensures RegsOf(buf[..]) == Compress(RegsOf(old(buf[..])), Words(inp[..]))
    {
      hide Compress, Words;
      var r := Transform(RegsOf(buf[..]), Words(inp[..]));
      buf[0], buf[1], buf[2], buf[3] := r.a, r.b, r.c, r.d;
    }

    /** memcpy into the buffer at a place. */
    method Copy(at: nat, bytes: seq<Byte>)
      requires inp.Length == 64 && at + |bytes| <= 64
      modifies inp
      ensures inp[..] == old(inp[..])[..at] + bytes + old(inp[..])[at + |bytes|..]
      ensures inp[at..at + |bytes|] == bytes
    {
      forall i | 0 <= i < |bytes| {
        inp[at + i] := bytes[i];
      }
    }

    /** The count part of MD5Update. */
    method CountBits(len: nat) returns (t: nat)
      requires Counts(|msg|, bits0, bits1) && len < WORD
      modifies this`bits0, this`bits1
      ensures Counts(|msg| + len, bits0, bits1) && t == Over(|msg|)
    {
      BytesWaiting(|msg|, bits0, bits1);
      CountUpdate(|msg|, len, bits0, bits1);
      hide Counts;
      t := bits0;
      bits0 := (t + len * 8 % WORD) % WORD;
      if bits0 < t {
        bits1 := (bits1 + 1) % WORD;
      }
      bits1 := (bits1 + len / 0x2000_0000) % WORD;
      t := t / 8 % 64;
    }

    /** The 64-byte chunks of MD5Update and the bytes left over; `all` is the message so far, of
        which the first pos bytes have been transformed. */
    method Absorb(data: seq<Byte>, ghost all: seq<Byte>, ghost pos: nat)
      requires buf.Length == 4 && inp.Length == 64
      requires pos <= |all| && pos % 64 == 0 && data == all[pos..] && RegsOf(buf[..]) == Fold(IV, all[..pos])
      modifies buf, inp
      ensures Absorbed(all, RegsOf(buf[..]), inp[..])
    {
      hide Compress, Words, Fold, RegsOf, Absorbed;
      var k := 0;
      while |data| - k >= 64
        invariant k <= |data| && k % 64 == 0
        invariant RegsOf(buf[..]) == Fold(IV, all[..pos + k])
      {
        Copy(0, data[k..k + 64]);
        assert inp[..] == inp[0..64] == all[pos + k..pos + k + 64];
        FoldNext(IV, all, pos + k);
        TransformBuffer();
        k := k + 64;
      }
      ghost var rest := data[k..];
      Copy(0, data[k..]);
      assert inp[..][..|rest|] == inp[0..|rest|] == rest;
      LeftOver(all, pos + k, inp[..], rest);
    }

    /** MD5Update: the length is a 32-bit number. */
    method Update(data: seq<Byte>)
      requires Valid() && |data| < WORD
      modifies this, buf, inp
      ensures Valid() && msg == old(msg) + data
    {
      hide Compress, Words, Fold, Counts, RegsOf, Absorbed, Over;
      ghost var m, all, before := msg, msg + data, inp[..];
      var t := CountBits(|data|);
      Waiting(m, data, RegsOf(buf[..]), before, t);
      msg := all;
      if t == 0 {
        Absorb(data, all, |m|);
        return;
      }
      var room := 64 - t;
      if |data| < room {
        Copy(t, data);
        return;
      }
      Copy(t, data[..room]);
      FoldNext(IV, all, |m| - t);
      TransformBuffer();
      Absorb(data[room..], all, |m| + room);
    }

    /** Room for the count: one more block. */
    method PadShort(t: nat, ghost m: seq<Byte>)
      requires buf.Length == 4 && inp.Length == 64 && t == Over(|m|) && t < 56
      requires Absorbed(m, RegsOf(buf[..]), inp[..]) && Counts(|m|, bits0, bits1)
      requires inp[t] == 0x80
      modifies buf, inp
      ensures RegsOf(buf[..]) == Fold(IV, m + Padding(|m|))
    {
      hide Compress, Words, Fold, RegsOf, LittleEndian, Padding, Over;
      ghost var full, pos, start := m + Padding(|m|), |m| - t, inp[..t];
      FullLength(m, t);
      var length := LittleEndian(bits0) + LittleEndian(bits1);
      ShortPadding(m, t, start, length);
      Copy(t + 1, ZeroBytes(55 - t));
      Copy(56, length);
      assert inp[..] == start + [0x80] + ZeroBytes(55 - t) + length;
      assert full[pos..pos + 64] == full[pos..];
      FoldNext(IV, full, pos);
      assert full[..pos + 64] == full;
      TransformBuffer();
    }

    /** No room for the count: zeros to the end of this block, and another one. */
    method PadLong(t: nat, ghost m: seq<Byte>)
      requires buf.Length == 4 && inp.Length == 64 && t == Over(|m|) && 56 <= t
      requires Absorbed(m, RegsOf(buf[..]), inp[..]) && Counts(|m|, bits0, bits1)
      requires inp[t] == 0x80
      modifies buf, inp
      ensures RegsOf(buf[..]) == Fold(IV, m + Padding(|m|))
    {
      hide Compress, Words, Fold, RegsOf, LittleEndian, Padding, Over;
      ghost var full, pos, start := m + Padding(|m|), |m| - t, inp[..t];
      FullLength(m, t);
      var length := LittleEndian(bits0) + LittleEndian(bits1);
      LongPadding(m, t, start, length);
      Copy(t + 1, ZeroBytes(63 - t));
      assert inp[..] == start + [0x80] + ZeroBytes(63 - t);
      FoldNext(IV, full, pos);
      TransformBuffer();
      Copy(0, ZeroBytes(56));
      Copy(56, length);
      assert inp[..] == ZeroBytes(56) + length;
      assert full[pos + 64..pos + 128] == full[pos + 64..];
      FoldNext(IV, full, pos + 64);
      assert full[..pos + 128] == full;
      TransformBuffer();
    }

    /** The padding of MD5Final, in its two branches; t bytes wait in the buffer. */
    method PadAndTransform(t: nat)
      requires Valid() && t == Over(|msg|)
      modifies buf, inp
      ensures RegsOf(buf[..]) == Fold(IV, msg + Padding(|msg|))
    {
      hide Fold, RegsOf, Counts, Padding, Over;
      Copy(t, [0x80]);
      var count := 63 - t;
      if count < 8 {
        PadLong(t, msg);
      } else {
        PadShort(t, msg);
      }
    }

    /** MD5Final: pads, appends the bit count, hands out the digest and wipes the context. */
    method Final() returns (digest: seq<Byte>)
      requires Valid()
      modifies this, buf, inp
      ensures digest == Digest(old(msg))
      ensures bits0 == 0 && bits1 == 0
      ensures (forall i :: 0 <= i < 4 ==> buf[i] == 0) && (forall i :: 0 <= i < 64 ==> inp[i] == 0)
    {
      hide Compress, Words, Fold, Counts, Padding, LittleEndian, Absorbed;
      BytesWaiting(|msg|, bits0, bits1);
      OverIsMod(|msg|);
      PadAndTransform(bits0 / 8 % 64);
      digest := Output(RegsOf(buf[..]));
      bits0, bits1, msg := 0, 0, [];
      forall i | 0 <= i < 4 { buf[i] := 0; }
      forall i | 0 <= i < 64 { inp[i] := 0; }
    }
  }

  lemma OverIsMod(n: nat)
    ensures Over(n) == n % 64
  {
  }

  /** One padding block if the rest has at most 55 bytes, two otherwise. */
  lemma FullLength(m: seq<Byte>, t: nat)
    requires t == Over(|m|)
    ensures ZeroCount(|m|) == if t < 56 then 55 - t else 119 - t
    ensures |m + Padding(|m|)| == |m| - t + if t < 56 then 64 else 128
    ensures (m + Padding(|m|))[..|m| - t] == m[..|m| - t]
  {
    hide Padding;
    ZerosNeeded(|m|, t);
  }

  lemma ZerosNeeded(n: nat, t: nat)
    requires t == Over(n)
    ensures ZeroCount(n) == if t < 56 then 55 - t else 119 - t
  {
  }

  lemma ShortPadding(m: seq<Byte>, t: nat, start: seq<Byte>, length: seq<Byte>)
    requires t == Over(|m|) && t < 56 && start == m[|m| - t..]
    requires length == LittleEndian(8 * |m| % WORD) + LittleEndian(8 * |m| / WORD % WORD)
    ensures (m + Padding(|m|))[|m| - t..] == start + [0x80] + ZeroBytes(55 - t) + length
  {
    hide LittleEndian, Over;
    FullLength(m, t);
    assert Padding(|m|) == [0x80] + ZeroBytes(55 - t) + length;
  }

  lemma LongPadding(m: seq<Byte>, t: nat, start: seq<Byte>, length: seq<Byte>)
    requires t == Over(|m|) && 56 <= t && start == m[|m| - t..]
    requires length == LittleEndian(8 * |m| % WORD) + LittleEndian(8 * |m| / WORD % WORD)
    ensures |m + Padding(|m|)| == |m| - t + 128
    ensures (m + Padding(|m|))[|m| - t..|m| - t + 64] == start + [0x80] + ZeroBytes(63 - t)
    ensures (m + Padding(|m|))[|m| - t + 64..] == ZeroBytes(56) + length
  {
    hide LittleEndian, Over;
    FullLength(m, t);
    var full := m + Padding(|m|);
    assert Padding(|m|) == [0x80] + ZeroBytes(119 - t) + length;
    assert ZeroBytes(119 - t) == ZeroBytes(63 - t) + ZeroBytes(56);
    assert full[|m| - t..] == start + [0x80] + ZeroBytes(63 - t) + ZeroBytes(56) + length;
  }

  /** How many bytes of a message of n bytes lie behind its last whole block. */
  function Over(n: nat): (t: nat)
    ensures t < 64 && t <= n && (n - t) % 64 == 0
  {
    n % 64
  }

  lemma OverIs(n: nat, pos: nat)
    requires pos <= n && pos % 64 == 0 && n - pos < 64
    ensures Over(n) == n - pos
  {
  }

  /** Registers and buffer stand for the message m: whole blocks transformed, the rest waiting. */
  ghost predicate Absorbed(m: seq<Byte>, r: Regs, inp: seq<Byte>) {
    |inp| == 64 && r == Fold(IV, m[..|m| - Over(|m|)]) && inp[..Over(|m|)] == m[|m| - Over(|m|)..]
  }

  lemma LeftOver(all: seq<Byte>, pos: nat, inp: seq<Byte>, rest: seq<Byte>)
    requires pos <= |all| && pos % 64 == 0 && |all| - pos < 64 && |inp| == 64
    requires rest == all[pos..] && inp[..|rest|] == rest
    ensures Absorbed(all, Fold(IV, all[..pos]), inp)
  {
    hide Fold, Over;
    OverIs(|all|, pos);
  }

  /** What the buffer holds when more data comes in: too little for a block, or one block. */
  lemma Waiting(m: seq<Byte>, data: seq<Byte>, r: Regs, inp: seq<Byte>, t: nat)
    requires Absorbed(m, r, inp) && t == Over(|m|)
    ensures var all, pos := m + data, |m| - t;
      && r == Fold(IV, all[..pos])
      && data == all[|m|..]
      && (|data| < 64 - t ==> Absorbed(all, r, inp[..t] + data + inp[t + |data|..]))
      && (64 - t <= |data| ==>
            && inp[..t] + data[..64 - t] + inp[64..] == all[pos..pos + 64]
            && data[64 - t..] == all[pos + 64..])
  {
    hide Fold, Over;
    var all, pos := m + data, |m| - t;
    assert all[..pos] == m[..pos];
    if |data| < 64 - t {
      var inp' := inp[..t] + data + inp[t + |data|..];
      OverIs(|all|, pos);
      assert inp'[..t + |data|] == inp[..t] + data == all[pos..];
    }
  }

  function Concat(pieces: seq<seq<Byte>>): seq<Byte> {
    if pieces == [] then [] else Concat(pieces[..|pieces| - 1]) + pieces[|pieces| - 1]
  }

  /** Init, any number of updates, final: the digest of the concatenation, however it was cut. */
  method HashPieces(pieces: seq<seq<Byte>>) returns (digest: seq<Byte>)
    requires forall i :: 0 <= i < |pieces| ==> |pieces[i]| < WORD
    ensures digest == Digest(Concat(pieces))
  {
    hide Compress, Words, Fold, Counts, Absorbed, Digest, RegsOf;
    var ctx := new Context();
    for i := 0 to |pieces|
      invariant ctx.Valid() && ctx.msg == Concat(pieces[..i])
      invariant fresh(ctx) && fresh(ctx.buf) && fresh(ctx.inp)
    {
      ctx.Update(pieces[i]);
      assert pieces[..i + 1][..i] == pieces[..i];
    }
    assert pieces[..|pieces|] == pieces;
    digest := ctx.Final();
  }
}
