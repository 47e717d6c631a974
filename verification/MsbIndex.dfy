/** The position of the highest set bit, plus one: a table for bytes and a loop over bytes. */
module MsbIndex {
  import opened Bits
  import opened ExpGolomb

  /** 0 for 0, otherwise the number of significant bits. */
  function BitLength(v: nat): nat {
    if v == 0 then 0 else Log2(v) + 1
  }

  /** n significant bits mean a value from 2^(n-1) up to but not including 2^n. */
  lemma BitLengthIs(v: nat, n: nat)
    requires n > 0 && Pow2(n - 1) <= v < Pow2(n)
    ensures BitLength(v) == n
  {
    Log2Unique(v, n - 1);
  }

  lemma BitLengthByte(v: nat)
    requires v > 255
    ensures BitLength(v) == BitLength(v / 256) + 8
  {
    Log2Bounds(v / 256);
    var n := Log2(v / 256);
    Pow2Add(n, 8);
    Pow2Values();
    assert v == 256 * (v / 256) + v % 256;
    BitLengthIs(v, n + 9);
  }

  /** g_initMsbP1IdxLut: each index fills as many entries as all before it together. */
  method InitMsbP1IdxLut() returns (lut: array<nat>)
    ensures lut.Length == 256 && forall v :: 0 <= v < 256 ==> lut[v] == BitLength(v)
  {
    hide BitLength, Pow2;
    lut := new nat[256];
    SmallLengths();
    lut[0], lut[1] := 0, 1;
    var val := 2;
    for idx := 2 to 9
      invariant val == Pow2(idx - 1)
      invariant forall v :: 0 <= v < val && v < 256 ==> lut[v] == BitLength(v)
    {
      Doubling(idx);
      ghost var half := val;
      var i := val;
      while i > 0
        invariant i <= half && val == half + (half - i)
        invariant forall v :: 0 <= v < val && v < 256 ==> lut[v] == BitLength(v)
      {
        BitLengthIs(val, idx);
        lut[val] := idx;
        val := val + 1;
        i := i - 1;
      }
    }
    Pow2Values();
  }

  lemma SmallLengths()
    ensures BitLength(0) == 0 && BitLength(1) == 1 && Pow2(1) == 2
  {
  }

  lemma Doubling(idx: nat)
    requires 2 <= idx <= 8
    ensures Pow2(idx) == 2 * Pow2(idx - 1) <= 256
  {
    Pow2Monotone(idx, 8);
    Pow2Values();
  }

  /** g_getMsbP1Idx: drops whole bytes, then looks the last one up. */
  method GetMsbP1Idx(uiVal: nat, lut: array<nat>) returns (idx: nat)
    requires lut.Length == 256 && forall v :: 0 <= v < 256 ==> lut[v] == BitLength(v)
    ensures idx == BitLength(uiVal)
  {
    hide BitLength;
    var v: nat := uiVal;
    idx := 0;
    while v > 255
      invariant idx + BitLength(v) == BitLength(uiVal)
    {
      BitLengthByte(v);
      v := v / 256;
      idx := idx + 8;
    }
    idx := idx + lut[v];
  }
}
