/** How the AVC reader loads bytes: loadChar, which is to drop emulation prevention bytes, and the
    exact condition under which it delivers what the standard decoder delivers. */
module AvcLoading {
  import opened Bits
  import opened StartCodes

  /** Whether one call of loadChar stays inside the buffer: a dropped 03 needs a byte behind it. */
  predicate CharFits(buf: seq<Byte>, pos: nat, zeros: nat) {
    pos < |buf| && (buf[pos] == 3 && zeros == 2 ==> pos + 1 < |buf|)
  }

  /** loadChar: the byte delivered, the next read position, and the new zero count. */
  function LoadChar(buf: seq<Byte>, pos: nat, zeros: nat): (r: (Byte, nat, nat))
    requires CharFits(buf, pos, zeros)
    ensures pos < r.1 <= pos + 2 && r.1 <= |buf|
  {
    var c := buf[pos];
    if c <= 3 then
      if zeros == 2 then
        var (d, next) := if c == 3 then (buf[pos + 1], pos + 2) else (c, pos + 1);
        (d, next, if d <= 3 then 1 else 0)
      else (c, pos + 1, zeros + 1)
    else (c, pos + 1, 0)
  }

  /** Whether n calls of loadChar stay inside the buffer. */
  predicate CharsFit(buf: seq<Byte>, pos: nat, zeros: nat, n: nat)
    decreases n
  {
    n == 0 ||
    (CharFits(buf, pos, zeros) &&
     var (_, p, z) := LoadChar(buf, pos, zeros);
     CharsFit(buf, p, z, n - 1))
  }

  /** The bytes that n calls of loadChar deliver, and where they leave off. */
  function LoadChars(buf: seq<Byte>, pos: nat, zeros: nat, n: nat): (r: (seq<Byte>, nat, nat))
    requires CharsFit(buf, pos, zeros, n)
    ensures |r.0| == n && pos + n <= r.1 <= pos + 2 * n && (pos <= |buf| ==> r.1 <= |buf|)
    decreases n
  {
    if n == 0 then ([], pos, zeros) else
    var (c, p, z) := LoadChar(buf, pos, zeros);
    var (cs, q, y) := LoadChars(buf, p, z, n - 1);
    ([c] + cs, q, y)
  }

  /** Whether all loads of loadBuffer, four bytes each until the read position has reached `size`, stay
      inside the buffer. */
  predicate LoadsFit(buf: seq<Byte>, size: nat, pos: nat, zeros: nat)
    decreases size - pos
  {
    pos >= size ||
    (CharsFit(buf, pos, zeros, 4) &&
     var (_, q, y) := LoadChars(buf, pos, zeros, 4);
     LoadsFit(buf, size, q, y))
  }

  /** Everything loadBuffer will still deliver from a position on. */
  ghost function Future(buf: seq<Byte>, size: nat, pos: nat, zeros: nat): seq<Byte>
    requires LoadsFit(buf, size, pos, zeros)
    decreases size - pos
  {
    if pos >= size then [] else
    var (cs, q, y) := LoadChars(buf, pos, zeros, 4);
    cs + Future(buf, size, q, y)
  }

  // ---------- buffers that are long enough

  lemma {:induction false} RoomForChars(buf: seq<Byte>, pos: nat, zeros: nat, n: nat)
    requires pos + 2 * n <= |buf|
    ensures CharsFit(buf, pos, zeros, n)
    decreases n
  {
    if n == 0 {
    } else {
      var (_, p, z) := LoadChar(buf, pos, zeros);
      RoomForChars(buf, p, z, n - 1);
    }
  }

  /** Seven bytes behind the size always suffice. */
  lemma {:induction false} RoomBehind(buf: seq<Byte>, size: nat, pos: nat, zeros: nat)
    requires size + 7 <= |buf|
    ensures LoadsFit(buf, size, pos, zeros)
    decreases size - pos
  {
    if pos >= size {
    } else {
      RoomForChars(buf, pos, zeros, 4);
      var (_, q, y) := LoadChars(buf, pos, zeros, 4);
      RoomBehind(buf, size, q, y);
    }
  }

  lemma {:induction false} PlainChars(buf: seq<Byte>, pos: nat, zeros: nat, n: nat)
    requires pos + n <= |buf| && forall i :: pos <= i < |buf| ==> buf[i] != 3
    ensures CharsFit(buf, pos, zeros, n) && LoadChars(buf, pos, zeros, n).1 == pos + n
    decreases n
  {
    if n == 0 {
    } else {
      var (_, p, z) := LoadChar(buf, pos, zeros);
      PlainChars(buf, p, z, n - 1);
    }
  }

  /** So does a buffer of whole words that ends at the size, if it holds no 03. */
  lemma {:induction false} WholeWords(buf: seq<Byte>, pos: nat, zeros: nat)
    requires pos <= |buf| && (|buf| - pos) % 4 == 0 && forall i :: pos <= i < |buf| ==> buf[i] != 3
    ensures LoadsFit(buf, |buf|, pos, zeros)
    decreases |buf| - pos
  {
    if pos == |buf| {
    } else {
      PlainChars(buf, pos, zeros, 4);
      var (_, q, y) := LoadChars(buf, pos, zeros, 4);
      WholeWords(buf, q, y);
    }
  }

  // ---------- loadChar as a decoder of bytes

  /** The zero count behind a byte that is delivered: every byte up to 3 counts, and a third starts anew. */
  function CountSmall(c: Byte, zeros: nat): nat {
    if c > 3 then 0 else if zeros == 2 then 1 else zeros + 1
  }

  /** What loadChar makes of the bytes s: a 03 is dropped where the zero count is 2. */
  function Loaded(s: seq<Byte>, zeros: nat): seq<Byte> {
    if s == [] then [] else
    if zeros == 2 && s[0] == 3 then Loaded(s[1..], 0)
    else [s[0]] + Loaded(s[1..], CountSmall(s[0], zeros))
  }

  /** The zero count that loadChar has behind the bytes s. */
  function CountBehind(s: seq<Byte>, zeros: nat): nat {
    if s == [] then zeros else
    CountBehind(s[1..], if zeros == 2 && s[0] == 3 then 0 else CountSmall(s[0], zeros))
  }

  lemma UnfoldLoaded(c: Byte, t: seq<Byte>, zeros: nat)
    ensures Loaded([c] + t, zeros) ==
      if zeros == 2 && c == 3 then Loaded(t, 0) else [c] + Loaded(t, CountSmall(c, zeros))
    ensures CountBehind([c] + t, zeros) ==
      CountBehind(t, if zeros == 2 && c == 3 then 0 else CountSmall(c, zeros))
  {
    assert ([c] + t)[1..] == t;
  }

  lemma LoadedNothing(zeros: nat)
    ensures Loaded([], zeros) == [] && CountBehind([], zeros) == zeros
  {
  }

  lemma {:induction false} LoadedConcat(s: seq<Byte>, t: seq<Byte>, zeros: nat)
    ensures Loaded(s + t, zeros) == Loaded(s, zeros) + Loaded(t, CountBehind(s, zeros))
    ensures CountBehind(s + t, zeros) == CountBehind(t, CountBehind(s, zeros))
  {
    if s == [] {
      assert s + t == t;
    } else {
      assert (s + t)[1..] == s[1..] + t;
      LoadedConcat(s[1..], t, if zeros == 2 && s[0] == 3 then 0 else CountSmall(s[0], zeros));
    }
  }

  /** One call consumes a byte, or a dropped 03 and the byte behind it. */
  lemma CharLoaded(buf: seq<Byte>, pos: nat, zeros: nat)
    requires CharFits(buf, pos, zeros)
    ensures var (c, p, z) := LoadChar(buf, pos, zeros);
      Loaded(buf[pos..p], zeros) == [c] && CountBehind(buf[pos..p], zeros) == z
  {
    hide Loaded, CountBehind;
    var (c, p, z) := LoadChar(buf, pos, zeros);
    LoadedNothing(z);
    if p == pos + 2 {
      assert buf[pos..p] == [3] + ([c] + []);
      UnfoldLoaded(3, [c] + [], 2);
      UnfoldLoaded(c, [], 0);
    } else {
      assert buf[pos..p] == [c] + [];
      UnfoldLoaded(c, [], zeros);
    }
  }

  /** Any number of calls delivers Loaded of the bytes they consume. */
  lemma {:induction false} CharsLoaded(buf: seq<Byte>, pos: nat, zeros: nat, n: nat)
    requires pos <= |buf| && CharsFit(buf, pos, zeros, n)
    ensures var (cs, q, y) := LoadChars(buf, pos, zeros, n);
      cs == Loaded(buf[pos..q], zeros) && y == CountBehind(buf[pos..q], zeros)
    decreases n
  {
    hide Loaded, CountBehind, LoadChar;
    if n == 0 {
      assert buf[pos..pos] == [];
      LoadedNothing(zeros);
    } else {
      var (_, p, z) := LoadChar(buf, pos, zeros);
      CharLoaded(buf, pos, zeros);
      CharsLoaded(buf, p, z, n - 1);
      var q := LoadChars(buf, p, z, n - 1).1;
      assert buf[pos..q] == buf[pos..p] + buf[p..q];
      LoadedConcat(buf[pos..p], buf[p..q], zeros);
    }
  }

  /** Where the loads stop. */
  ghost function LoadEnd(buf: seq<Byte>, size: nat, pos: nat, zeros: nat): (q: nat)
    requires LoadsFit(buf, size, pos, zeros)
    ensures pos <= q && size <= q && (pos <= |buf| ==> q <= |buf|)
    decreases size - pos
  {
    if pos >= size then pos else
    var (_, q, y) := LoadChars(buf, pos, zeros, 4);
    LoadEnd(buf, size, q, y)
  }

  lemma {:induction false} FutureLoaded(buf: seq<Byte>, size: nat, pos: nat, zeros: nat)
    requires pos <= |buf| && LoadsFit(buf, size, pos, zeros)
    ensures Future(buf, size, pos, zeros) == Loaded(buf[pos..LoadEnd(buf, size, pos, zeros)], zeros)
    decreases size - pos
  {
    hide Loaded, CountBehind, LoadChars, CharsFit;
    if pos >= size {
      assert buf[pos..pos] == [];
      LoadedNothing(zeros);
    } else {
      var (_, p, z) := LoadChars(buf, pos, zeros, 4);
      CharsLoaded(buf, pos, zeros, 4);
      FutureLoaded(buf, size, p, z);
      var q := LoadEnd(buf, size, p, z);
      assert buf[pos..q] == buf[pos..p] + buf[p..q];
      LoadedConcat(buf[pos..p], buf[p..q], zeros);
    }
  }

  // ---------- against the standard decoder

  /** Scans s with the zero count of loadChar, the true number of zero bytes, and how many more 03 bytes
      loadChar has dropped than the decoder. The lead must be gone at every other byte and at the end. */
  predicate SameDrops(s: seq<Byte>, small: nat, zeros: nat, lead: int) {
    if s == [] then lead == 0 else
    var c := s[0];
    if c == 3 then
      SameDrops(s[1..], if small == 2 then 0 else CountSmall(c, small), 0,
                lead + (if small == 2 then 1 else 0) - (if zeros >= 2 then 1 else 0))
    else
      lead == 0 && SameDrops(s[1..], CountSmall(c, small), if c == 0 then zeros + 1 else 0, 0)
  }

  lemma DecodeNothing()
    ensures forall zeros :: Loaded([], zeros) == [] && Unescape([], zeros) == []
  {
  }

  function Threes(n: nat): (t: seq<Byte>)
    ensures |t| == n && forall i :: 0 <= i < n ==> t[i] == 3
  {
    seq(n, _ => 3)
  }

  lemma OneMore(n: nat, t: seq<Byte>)
    ensures Threes(n) + ([3] + t) == Threes(n + 1) + t
  {
  }

  /** Behind different numbers of 03 bytes, another byte is not at the same place. */
  lemma AfterThrees(a: nat, b: nat, c: Byte, s: seq<Byte>, t: seq<Byte>)
    requires c != 3
    ensures Threes(a) + ([c] + s) == Threes(b) + ([c] + t) <==> a == b && s == t
  {
    var x, y := Threes(a) + ([c] + s), Threes(b) + ([c] + t);
    if x == y {
      assert x[a] == c && y[b] == c;
      assert a == b;
      assert s == x[a + 1..] && t == y[b + 1..];
    }
  }

  /** The same with a and b bytes 03 delivered before. */
  lemma {:induction false} SameDropsFrom(s: seq<Byte>, small: nat, zeros: nat, a: nat, b: nat)
    ensures Threes(a) + Loaded(s, small) == Threes(b) + Unescape(s, zeros) <==> SameDrops(s, small, zeros, b - a)
  {
    hide Loaded, Unescape;
    if s == [] {
      DecodeNothing();
      assert Threes(a) + [] == Threes(a) && Threes(b) + [] == Threes(b);
      assert a == b <==> Threes(a) == Threes(b);
      return;
    }
    assert s == [s[0]] + s[1..];
    UnfoldLoaded(s[0], s[1..], small);
    UnfoldUnescape(s[0], s[1..], zeros);
    if s[0] == 3 {
      var dropA, dropB := small == 2, zeros >= 2;
      var small' := if dropA then 0 else CountSmall(3, small);
      var a', b' := if dropA then a else a + 1, if dropB then b else b + 1;
      OneMore(a, Loaded(s[1..], small'));
      OneMore(b, Unescape(s[1..], 0));
      SameDropsFrom(s[1..], small', 0, a', b');
    } else {
      var c, zeros' := s[0], if s[0] == 0 then zeros + 1 else 0;
      var t, u := Loaded(s[1..], CountSmall(c, small)), Unescape(s[1..], zeros');
      AfterThrees(a, b, c, t, u);
      SameDropsFrom(s[1..], CountSmall(c, small), zeros', 0, 0);
      assert Threes(0) + t == t && Threes(0) + u == u;
    }
  }

  /** loadChar undoes emulation prevention if and only if in every stretch of 03 bytes it drops as many
      as the decoder does. */
  lemma LoadCharUndoes(s: seq<Byte>)
    ensures Loaded(s, 0) == Unescape(s, 0) <==> SameDrops(s, 0, 0, 0)
  {
    SameDropsFrom(s, 0, 0, 0, 0);
    assert Threes(0) + Loaded(s, 0) == Loaded(s, 0) && Threes(0) + Unescape(s, 0) == Unescape(s, 0);
  }

  /** The stricter scan: both drop the very same 03 bytes. */
  predicate SameBytes(s: seq<Byte>, small: nat, zeros: nat) {
    s == [] ||
    (&& (s[0] == 3 ==> (small == 2 <==> zeros >= 2))
     && SameBytes(s[1..], if s[0] == 3 && small == 2 then 0 else CountSmall(s[0], small),
                  if s[0] == 0 then zeros + 1 else 0))
  }

  lemma {:induction false} SameBytesSuffice(s: seq<Byte>, small: nat, zeros: nat)
    requires SameBytes(s, small, zeros)
    ensures SameDrops(s, small, zeros, 0)
  {
    if s == [] {
    } else {
      SameBytesSuffice(s[1..], if s[0] == 3 && small == 2 then 0 else CountSmall(s[0], small),
                       if s[0] == 0 then zeros + 1 else 0);
    }
  }

  /** What the reader delivers starts with the payload's bytes, and these are the decoded ones if and
      only if the payload passes the scan. */
  lemma ReaderUndoes(buf: seq<Byte>, size: nat)
    requires LoadsFit(buf, size, 0, 0)
    ensures size <= |buf| && Loaded(buf[..size], 0) <= Future(buf, size, 0, 0)
    ensures Loaded(buf[..size], 0) == Unescape(buf[..size], 0) <==> SameDrops(buf[..size], 0, 0, 0)
  {
    var q := LoadEnd(buf, size, 0, 0);
    FutureLoaded(buf, size, 0, 0);
    assert buf[0..q] == buf[..size] + buf[size..q];
    LoadedConcat(buf[..size], buf[size..q], 0);
    LoadCharUndoes(buf[..size]);
  }

  /** Without the bytes 01, 02 and 03 in m, both counts go together. */
  lemma {:induction false} OnlyZerosCount(m: seq<Byte>, i: nat, zeros: nat)
    requires i <= |m| && zeros <= 2 && forall k :: 0 <= k < |m| ==> m[k] == 0 || m[k] > 3
    ensures SameDrops(Escape(m, i, zeros), zeros, zeros, 0)
    decreases |m| - i
  {
    if i == |m| {
    } else {
      hide Escape;
      var zeros' := ZerosBehind(m[i], zeros);
      var e := Escape(m, i + 1, zeros');
      OnlyZerosCount(m, i + 1, zeros');
      UnfoldEscape(m, i, zeros);
      assert ([m[i]] + e)[1..] == e && ([3] + ([m[i]] + e))[1..] == [m[i]] + e;
    }
  }

  /** A payload escaped from m comes back as m if and only if it passes the scan, in particular if m
      holds none of the bytes 01, 02 and 03. */
  lemma EscapedComesBack(m: seq<Byte>)
    ensures Loaded(Escape(m, 0, 0), 0) == m <==> SameDrops(Escape(m, 0, 0), 0, 0, 0)
    ensures (forall k :: 0 <= k < |m| ==> m[k] == 0 || m[k] > 3) ==> Loaded(Escape(m, 0, 0), 0) == m
  {
    EscapeRoundTrip(m, 0, 0);
    LoadCharUndoes(Escape(m, 0, 0));
    assert m[0..] == m;
    if forall k :: 0 <= k < |m| ==> m[k] == 0 || m[k] > 3 {
      OnlyZerosCount(m, 0, 0);
    }
  }

  // ---------- runs of small bytes

  /** Behind any run of bytes up to 2 the count is 1 if the run is odd and 2 if it is even. */
  lemma {:induction false} SmallRun(s: seq<Byte>, zeros: nat)
    requires zeros <= 2 && forall i :: 0 <= i < |s| ==> s[i] <= 2
    ensures Loaded(s, zeros) == s
    ensures s != [] ==> CountBehind(s, zeros) == if (zeros + |s|) % 2 == 1 then 1 else 2
  {
    if s == [] {
    } else {
      SmallRun(s[1..], if zeros == 2 then 1 else zeros + 1);
    }
  }

  /** A 03 between a run of bytes up to 2 and a larger byte is dropped if and only if the run is even and
      not empty; the larger byte starts the count anew. */
  lemma ThreeBehindRun(s: seq<Byte>, c: Byte, t: seq<Byte>)
    requires c > 3 && forall i :: 0 <= i < |s| ==> s[i] <= 2
    ensures Loaded(s + ([3] + ([c] + t)), 0) ==
      (if s != [] && |s| % 2 == 0 then s else s + [3]) + ([c] + Loaded(t, 0))
  {
    hide Loaded, CountBehind;
    LoadedNothing(0);
    SmallRun(s, 0);
    LoadedConcat(s, [3] + ([c] + t), 0);
    var zeros := CountBehind(s, 0);
    UnfoldLoaded(3, [c] + t, zeros);
    UnfoldLoaded(c, t, if zeros == 2 then 0 else zeros + 1);
  }

  // ---------- three payloads

  /** After 01 01 a genuine 03 is dropped. */
  lemma DropsTooMuch()
    ensures Loaded([1, 1, 3, 5], 0) == [1, 1, 5] && Unescape([1, 1, 3, 5], 0) == [1, 1, 3, 5]
  {
    hide Loaded, Unescape, CountBehind, NoStartCode, SameBytes;
    DecodeNothing();
    assert [1, 1, 3, 5] == [1] + ([1] + ([3] + ([5] + [])));
    UnfoldLoaded(1, [1] + ([3] + ([5] + [])), 0);
    UnfoldUnescape(1, [1] + ([3] + ([5] + [])), 0);
    UnfoldLoaded(1, [3] + ([5] + []), 1);
    UnfoldUnescape(1, [3] + ([5] + []), 0);
    UnfoldLoaded(3, [5] + [], 2);
    UnfoldUnescape(3, [5] + [], 0);
    UnfoldLoaded(5, [], 0);
    UnfoldUnescape(5, [], 0);
  }

  /** After 01 00 00 the emulation prevention byte is kept. */
  lemma KeepsTooMuch()
    ensures Loaded([1, 0, 0, 3, 1], 0) == [1, 0, 0, 3, 1] && Unescape([1, 0, 0, 3, 1], 0) == [1, 0, 0, 1]
  {
    hide Loaded, Unescape, CountBehind, NoStartCode, SameBytes;
    DecodeNothing();
    assert [1, 0, 0, 3, 1] == [1] + ([0] + ([0] + ([3] + ([1] + []))));
    UnfoldLoaded(1, [0] + ([0] + ([3] + ([1] + []))), 0);
    UnfoldUnescape(1, [0] + ([0] + ([3] + ([1] + []))), 0);
    UnfoldLoaded(0, [0] + ([3] + ([1] + [])), 1);
    UnfoldUnescape(0, [0] + ([3] + ([1] + [])), 0);
    UnfoldLoaded(0, [3] + ([1] + []), 2);
    UnfoldUnescape(0, [3] + ([1] + []), 1);
    UnfoldLoaded(3, [1] + [], 1);
    UnfoldUnescape(3, [1] + [], 2);
    UnfoldLoaded(1, [], 2);
    UnfoldUnescape(1, [], 0);
  }

  /** After 01 00 00 another of three 03 bytes is dropped than the decoder drops, and nobody can tell:
      this is why stretches of 03 bytes are compared and not single bytes. */
  lemma DropsAnother()
    ensures Loaded([1, 0, 0, 3, 3, 3], 0) == Unescape([1, 0, 0, 3, 3, 3], 0) == [1, 0, 0, 3, 3]
    ensures !SameBytes([1, 0, 0, 3, 3, 3], 0, 0)
  {
    hide Loaded, Unescape, CountBehind, NoStartCode, SameBytes;
    DecodeNothing();
    assert [1, 0, 0, 3, 3, 3] == [1] + ([0] + ([0] + ([3] + ([3] + ([3] + [])))));
    UnfoldLoaded(1, [0] + ([0] + ([3] + ([3] + ([3] + [])))), 0);
    UnfoldUnescape(1, [0] + ([0] + ([3] + ([3] + ([3] + [])))), 0);
    UnfoldLoaded(0, [0] + ([3] + ([3] + ([3] + []))), 1);
    UnfoldUnescape(0, [0] + ([3] + ([3] + ([3] + []))), 0);
    UnfoldLoaded(0, [3] + ([3] + ([3] + [])), 2);
    UnfoldUnescape(0, [3] + ([3] + ([3] + [])), 1);
    UnfoldLoaded(3, [3] + ([3] + []), 1);
    UnfoldUnescape(3, [3] + ([3] + []), 2);
    UnfoldLoaded(3, [3] + [], 2);
    UnfoldUnescape(3, [3] + [], 0);
    UnfoldLoaded(3, [], 0);
    UnfoldUnescape(3, [], 0);
    OtherBytes([1, 0, 0, 3, 3, 3]);
  }

  lemma OtherBytes(s: seq<Byte>)
    requires s == [1, 0, 0, 3, 3, 3]
    ensures !SameBytes(s, 0, 0)
  {
    assert s[1..][1..] == s[2..] && s[2..][1..] == s[3..];
    assert !SameBytes(s[3..], 1, 2);
    assert !SameBytes(s[2..], 2, 1);
    assert !SameBytes(s[1..], 1, 0);
  }
}
