/** The Exp-Golomb codes ue(v) and se(v) of sections 9.1 and 9.1.1 of ITU-T H.264. */
module ExpGolomb {
  import opened Bits

  /** The number of bits of m behind its leading one. */
  function Log2(m: nat): nat
    requires m > 0
  {
    if m == 1 then 0 else 1 + Log2(m / 2)
  }

  lemma {:induction false} Log2Bounds(m: nat)
    requires m > 0
    ensures Pow2(Log2(m)) <= m < 2 * Pow2(Log2(m))
  {
    if m == 1 {
    } else {
      Log2Bounds(m / 2);
    }
  }

  lemma {:induction false} Log2Unique(m: nat, n: nat)
    requires Pow2(n) <= m < 2 * Pow2(n)
    ensures Log2(m) == n
  {
    if n > 0 {
      Log2Unique(m / 2, n - 1);
    } else {
      assert m == 1;
    }
  }

  /** ue(v): as many zeros as k + 1 has bits behind its leading one, then k + 1. */
  function Ue(k: nat): (s: seq<bool>)
    ensures |s| == 2 * Log2(k + 1) + 1
  {
    Fill(false, Log2(k + 1)) + BitsOf(k + 1, Log2(k + 1) + 1)
  }

  /** The same codeword, as the decoder meets it: zeros, a one, and the suffix. */
  lemma UePieces(k: nat)
    ensures var n := Log2(k + 1);
      && Pow2(n) <= k + 1 && k + 1 - Pow2(n) < Pow2(n)
      && Ue(k) == Fill(false, n) + ([true] + BitsOf(k + 1 - Pow2(n), n))
  {
    var n := Log2(k + 1);
    Log2Bounds(k + 1);
    ShlIsProduct(1, n);
    BitsOfSplit(1, k + 1 - Pow2(n), 1, n);
    assert BitsOf(1, 1) == [true] by {
      assert BitsOf(0, 0) == [];
    }
  }

  /** se(v): positive values take the odd code numbers, the others the even ones. */
  function CodeNum(v: int): nat {
    if v > 0 then 2 * v - 1 else -2 * v
  }

  /** The value of code number k: (-1)^(k+1) * ceil(k / 2). */
  function SignedOf(k: nat): int {
    if k % 2 == 1 then (k + 1) / 2 else -(k / 2)
  }

  lemma SignedRoundTrip(v: int, k: nat)
    ensures SignedOf(CodeNum(v)) == v && CodeNum(SignedOf(k)) == k
  {
  }

  /** How many zeros s starts with. */
  function LeadingZeros(s: seq<bool>): nat {
    if s == [] || s[0] then 0 else 1 + LeadingZeros(s[1..])
  }

  lemma {:induction false} LeadingZerosAre(n: nat, t: seq<bool>)
    ensures LeadingZeros(Fill(false, n) + ([true] + t)) == n
  {
    var s := Fill(false, n) + ([true] + t);
    if n == 0 {
    } else {
      LeadingZerosAre(n - 1, t);
      assert s[1..] == Fill(false, n - 1) + ([true] + t);
    }
  }

  lemma Unfolded(s: seq<bool>, z: seq<bool>, a: seq<bool>, x: seq<bool>)
    requires s == z + ([true] + a) + x
    ensures s == z + ([true] + (a + x)) && s[|z| + 1..|z| + 1 + |a|] == a
  {
  }

  /** A codeword at the start of s can be read off s. */
  lemma UeStart(k: nat, s: seq<bool>)
    requires Ue(k) <= s
    ensures var n := LeadingZeros(s);
      n == Log2(k + 1) && 2 * n + 1 <= |s| && k + 1 == Pow2(n) + ValueOf(s[n + 1..2 * n + 1])
  {
    hide LeadingZeros, BitsOf, Fill, ValueOf, Pow2, Log2, Ue;
    var n := Log2(k + 1);
    UePieces(k);
    var a, x := BitsOf(k + 1 - Pow2(n), n), s[|Ue(k)|..];
    Unfolded(s, Fill(false, n), a, x);
    LeadingZerosAre(n, a + x);
    ValueOfBitsOf(k + 1 - Pow2(n), n);
  }

  /** No codeword is a prefix of another: a stream starts with at most one. */
  lemma UePrefixFree(j: nat, k: nat, s: seq<bool>)
    requires Ue(j) <= s && Ue(k) <= s
    ensures j == k
  {
    UeStart(j, s);
    UeStart(k, s);
  }

  /** And every stream with n zeros, a one and n more bits starts with one. */
  lemma UeComplete(n: nat, t: seq<bool>) returns (k: nat)
    requires n <= |t|
    ensures Log2(k + 1) == n && Ue(k) <= Fill(false, n) + ([true] + t)
  {
    ValueOfBound(t[..n]);
    BitsOfValueOf(t[..n]);
    k := ValueOf(t[..n]) + Pow2(n) - 1;
    Log2Unique(k + 1, n);
    UePieces(k);
    assert t == t[..n] + t[n..];
    assert Fill(false, n) + ([true] + t) == Ue(k) + t[n..];
  }

  function UeAll(ks: seq<nat>): seq<bool> {
    if ks == [] then [] else Ue(ks[0]) + UeAll(ks[1..])
  }
}
