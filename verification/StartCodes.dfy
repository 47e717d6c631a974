/** Start-code emulation: the byte sequences 00 00 {00,01,02,03} that need an inserted 03
    (sections 7.3.1 and 7.4.1 of ITU-T H.264), and the search that counts them. */
module StartCodes {
  import opened Bits

  // ---------- the one-pass escaper

  /** The escaped form of s[i..], when `zeros` zero bytes have just been emitted. */
  function Escape(s: seq<Byte>, i: nat, zeros: nat): seq<Byte>
    requires i <= |s|
    decreases |s| - i
  {
    if i == |s| then [] else
    if zeros == 2 && s[i] <= 3 then [3, s[i]] + Escape(s, i + 1, if s[i] == 0 then 1 else 0)
    else [s[i]] + Escape(s, i + 1, if s[i] == 0 then zeros + 1 else 0)
  }

  /** How many bytes the escaper inserts. */
  function Insertions(s: seq<Byte>, i: nat, zeros: nat): nat
    requires i <= |s|
    decreases |s| - i
  {
    if i == |s| then 0 else
    if zeros == 2 && s[i] <= 3 then 1 + Insertions(s, i + 1, if s[i] == 0 then 1 else 0)
    else Insertions(s, i + 1, if s[i] == 0 then zeros + 1 else 0)
  }

  /** The decoder of section 7.3.1 of ITU-T H.264: drops a 03 that follows two zero bytes. */
  function Unescape(t: seq<Byte>, zeros: nat): seq<Byte> {
    if t == [] then [] else
    if zeros >= 2 && t[0] == 3 then Unescape(t[1..], 0)
    else [t[0]] + Unescape(t[1..], if t[0] == 0 then zeros + 1 else 0)
  }

  /** No 00 00 {00,01,02} anywhere, counting `zeros` zero bytes in front. */
  predicate NoStartCode(t: seq<Byte>, zeros: nat) {
    t == [] || (!(zeros >= 2 && t[0] <= 2) && NoStartCode(t[1..], if t[0] == 0 then zeros + 1 else 0))
  }

  /** The number of zero bytes emitted last, once c is: two are followed by an inserted 03 if c is zero. */
  function ZerosBehind(c: Byte, zeros: nat): nat {
    if c != 0 then 0 else if zeros == 2 then 1 else zeros + 1
  }

  lemma {:induction false} InsertionsCount(s: seq<Byte>, i: nat, zeros: nat)
    requires i <= |s|
    ensures |Escape(s, i, zeros)| == |s| - i + Insertions(s, i, zeros)
    decreases |s| - i
  {
    if i == |s| {
    } else {
      InsertionsCount(s, i + 1, ZerosBehind(s[i], zeros));
    }
  }

  /** One byte more, for the escaper and for the decoder. */
  lemma UnfoldEscape(s: seq<Byte>, i: nat, zeros: nat)
    requires i < |s|
    ensures var e := [s[i]] + Escape(s, i + 1, ZerosBehind(s[i], zeros));
      Escape(s, i, zeros) == if zeros == 2 && s[i] <= 3 then [3] + e else e
  {
    var e := Escape(s, i + 1, ZerosBehind(s[i], zeros));
    assert [3] + ([s[i]] + e) == [3, s[i]] + e;
  }

  lemma UnfoldUnescape(c: Byte, t: seq<Byte>, zeros: nat)
    ensures Unescape([c] + t, zeros) ==
      if zeros >= 2 && c == 3 then Unescape(t, 0) else [c] + Unescape(t, if c == 0 then zeros + 1 else 0)
    ensures NoStartCode([c] + t, zeros) <==>
      !(zeros >= 2 && c <= 2) && NoStartCode(t, if c == 0 then zeros + 1 else 0)
  {
    assert ([c] + t)[1..] == t;
  }

  /** Escaping is undone by the decoder and leaves no start code behind. */
  lemma {:induction false} EscapeRoundTrip(s: seq<Byte>, i: nat, zeros: nat)
    requires i <= |s| && zeros <= 2
    ensures Unescape(Escape(s, i, zeros), zeros) == s[i..]
    ensures NoStartCode(Escape(s, i, zeros), zeros)
    decreases |s| - i
  {
    if i == |s| {
      assert Escape(s, i, zeros) == [] == s[i..];
    } else {
      hide Escape, Unescape, NoStartCode;
      var c, rest := s[i], ZerosBehind(s[i], zeros);
      var e := Escape(s, i + 1, rest);
      EscapeRoundTrip(s, i + 1, rest);
      UnfoldEscape(s, i, zeros);
      assert s[i..] == [c] + s[i + 1..];
      if zeros == 2 && c <= 3 {
        UnfoldUnescape(3, [c] + e, 2);
        UnfoldUnescape(c, e, 0);
      } else {
        UnfoldUnescape(c, e, zeros);
      }
    }
  }

  // ---------- the search

  ghost predicate ZeroPair(s: seq<Byte>, p: nat) {
    p + 1 < |s| && s[p] == 0 && s[p + 1] == 0
  }

  /** search_n for two zero bytes in s[from..last): the first pair, or `last`. */
  method SearchPair(s: seq<Byte>, from: nat, last: nat) returns (p: nat)
    requires from <= last <= |s|
    ensures from <= p <= last
    ensures p < last ==> p + 1 < last && ZeroPair(s, p)
    ensures forall q :: from <= q < p && q + 1 < last ==> !ZeroPair(s, q)
  {
    p := from;
    while p + 1 < last && !(s[p] == 0 && s[p + 1] == 0)
      invariant from <= p <= last
      invariant forall q :: from <= q < p && q + 1 < last ==> !ZeroPair(s, q)
    {
      p := p + 1;
    }
    if p + 1 >= last {
      p := last;
    }
  }

  /** Without a pair of zeros in front of place p, nothing is inserted before it. */
  lemma {:induction false} SkipToPair(s: seq<Byte>, i: nat, zeros: nat, p: nat)
    requires i <= p < |s| && s[p] == 0 && zeros <= 1
    requires zeros == 1 ==> s[i] != 0
    requires forall q :: i <= q < p ==> !ZeroPair(s, q)
    ensures Insertions(s, i, zeros) == Insertions(s, p, 0)
    decreases p - i
  {
    if i == p {
    } else {
      assert !ZeroPair(s, i);
      SkipToPair(s, i + 1, if s[i] == 0 then 1 else 0, p);
    }
  }

  /** Without a pair of zeros that has a byte behind it, nothing is inserted at all. */
  lemma {:induction false} NothingToInsert(s: seq<Byte>, i: nat, zeros: nat)
    requires i <= |s| && zeros <= 1
    requires zeros == 1 && i + 1 < |s| ==> s[i] != 0
    requires forall q :: i <= q && q + 1 < |s| - 1 ==> !ZeroPair(s, q)
    ensures Insertions(s, i, zeros) == 0
    decreases |s| - i
  {
    if i + 1 < |s| {
      assert i + 2 < |s| ==> !ZeroPair(s, i);
      NothingToInsert(s, i + 1, if s[i] == 0 then 1 else 0);
    } else if i + 1 == |s| {
      assert Insertions(s, i + 1, if s[i] == 0 then zeros + 1 else 0) == 0;
    }
  }

  /** The pair itself, and the byte behind it. */
  lemma AtPair(s: seq<Byte>, i: nat, p: nat)
    requires i <= p && p + 2 < |s| && ZeroPair(s, p)
    requires forall q :: i <= q < p ==> !ZeroPair(s, q)
    ensures Insertions(s, i, 0) == Insertions(s, p + 2, 0) + if s[p + 2] <= 3 then 1 else 0
  {
    SkipToPair(s, i, 0, p);
    assert Insertions(s, p, 0) == Insertions(s, p + 1, 1) == Insertions(s, p + 2, 2);
  }

  /** countStartCodeEmulations counts exactly the bytes that the escaper inserts. */
  method CountStartCodeEmulations(s: seq<Byte>) returns (cnt: nat)
    ensures cnt == Insertions(s, 0, 0) == |Escape(s, 0, 0)| - |s|
  {
    cnt := 0;
    var it := 0;
    while it != |s|
      invariant it <= |s| && cnt + Insertions(s, it, 0) == Insertions(s, 0, 0)
      decreases |s| - it
    {
      var found := it;
      while true
        invariant it <= found < |s|
        invariant Insertions(s, it, 0) == Insertions(s, found, 0)
        decreases |s| - found
      {
        var from := found;
        found := SearchPair(s, found, |s| - 1);
        found := found + 1;
        if found == |s| {
          NothingToInsert(s, from, 0);
          break;
        }
        AtPair(s, from, found - 1);
        found := found + 1;
        if s[found] <= 3 {
          break;
        }
      }
      it := found;
      if found != |s| {
        cnt := cnt + 1;
      }
    }
    InsertionsCount(s, 0, 0);
  }
}
