/** MD5Transform: the 64 unrolled steps of the implementation compute one block of RFC 1321. */
module Md5Transform {
  import opened Md5Spec

  /** Which of the four macros a step uses. */
  datatype Core = F1 | F2 | F3 | F4

  /** The macros: F1 saves an operation over the textbook form, F2 is F1 with its arguments moved. */
  function Apply(f: Core, x: Word, y: Word, z: Word): Word {
    match f
    case F1 => z ^ (x & (y ^ z))
    case F2 => y ^ (z & (x ^ y))
    case F3 => x ^ y ^ z
    case F4 => y ^ (x | !z)
  }

  function CoreOf(i: nat): Core {
    if i < 16 then F1 else if i < 32 then F2 else if i < 48 then F3 else F4
  }

  /** The macros compute the auxiliary functions of section 3.4. */
  lemma ApplyIsAux(i: nat, x: Word, y: Word, z: Word)
    ensures Apply(CoreOf(i), x, y, z) == Aux(i, x, y, z)
  {
    hide F, G, H, I;
    Selected(x, y, z);
    Shuffled(x, y, z);
    Same(x, y, z);
  }

  lemma Selected(x: Word, y: Word, z: Word)
    ensures z ^ (x & (y ^ z)) == F(x, y, z)
  {
  }

  lemma Shuffled(x: Word, y: Word, z: Word)
    ensures y ^ (z & (x ^ y)) == G(x, y, z)
  {
  }

  lemma Same(x: Word, y: Word, z: Word)
    ensures x ^ y ^ z == H(x, y, z) && y ^ (x | !z) == I(x, y, z)
  {
  }

  /** MD5STEP: w += f + data, rotate, w += x. */
  function StepWord(f: Word, w: Word, x: Word, data: Word, s: nat): Word
    requires s <= 32
  {
    Plus(RotateLeft(Plus(w, Plus(f, data)), s), x)
  }

  lemma StepWordIsMix(f: Word, w: Word, x: Word, k: Word, t: Word, s: nat)
    requires s <= 32
    ensures StepWord(f, w, x, Plus(k, t), s) == Mix(w, x, f, k, t, s)
  {
    hide RotateLeft, Plus;
    PlusAssociates(f, k, t);
    PlusAssociates(w, f, Plus(k, t));
    PlusAssociates(Plus(w, f), k, t);
    PlusCommutes(x, RotateLeft(Plus(w, Plus(f, Plus(k, t))), s));
  }

  lemma PlusAssociates(a: Word, b: Word, c: Word)
    ensures Plus(a, Plus(b, c)) == Plus(Plus(a, b), c)
  {
    calc {
      Plus(a, Plus(b, c));
      { assert Plus(b, c) == b + c; }
      Plus(a, b + c);
      a + (b + c);
      (a + b) + c;
      Plus(a + b, c);
      { assert Plus(a, b) == a + b; }
      Plus(Plus(a, b), c);
    }
  }

  lemma PlusCommutes(a: Word, b: Word)
    ensures Plus(a, b) == Plus(b, a)
  {
  }

  /** Four steps with the registers in the order (a,b,c,d), (d,a,b,c), (c,d,a,b), (b,c,d,a). */
  function Quad(f: Core, r: Regs, k0: Word, t0: Word, s0: nat, k1: Word, t1: Word, s1: nat,
                k2: Word, t2: Word, s2: nat, k3: Word, t3: Word, s3: nat): Regs
    requires s0 <= 32 && s1 <= 32 && s2 <= 32 && s3 <= 32
  {
    var a := StepWord(Apply(f, r.b, r.c, r.d), r.a, r.b, Plus(k0, t0), s0);
    var d := StepWord(Apply(f, a, r.b, r.c), r.d, a, Plus(k1, t1), s1);
    var c := StepWord(Apply(f, d, a, r.b), r.c, d, Plus(k2, t2), s2);
    var b := StepWord(Apply(f, c, d, a), r.b, c, Plus(k3, t3), s3);
    Regs(a, b, c, d)
  }

  /** One macro step against one step of the standard. */
  lemma OneStep(i: nat, r: Regs, x: seq<Word>)
    requires i < 64 && |x| == 16
    ensures Step(i, r, x) ==
      Regs(r.d, StepWord(Apply(CoreOf(i), r.b, r.c, r.d), r.a, r.b, Plus(x[Index(i)], T(i)), Shift(i)), r.b, r.c)
  {
    hide StepWord, Mix, Apply, Aux, T, Index, Shift, CoreOf, Plus;
    ApplyIsAux(i, r.b, r.c, r.d);
    StepWordIsMix(Apply(CoreOf(i), r.b, r.c, r.d), r.a, r.b, x[Index(i)], T(i), Shift(i));
  }

  lemma FourSteps(i: nat, r0: Regs, r: Regs, x: seq<Word>, k0: Word, t0: Word, s0: nat, k1: Word, t1: Word, s1: nat,
                  k2: Word, t2: Word, s2: nat, k3: Word, t3: Word, s3: nat)
    requires i + 4 <= 64 && |x| == 16 && r == Steps(i, r0, x) && i % 4 == 0
    requires k0 == x[Index(i)] && t0 == T(i) && s0 == Shift(i)
    requires k1 == x[Index(i + 1)] && t1 == T(i + 1) && s1 == Shift(i + 1)
    requires k2 == x[Index(i + 2)] && t2 == T(i + 2) && s2 == Shift(i + 2)
    requires k3 == x[Index(i + 3)] && t3 == T(i + 3) && s3 == Shift(i + 3)
    ensures Quad(CoreOf(i), r, k0, t0, s0, k1, t1, s1, k2, t2, s2, k3, t3, s3) == Steps(i + 4, r0, x)
  {
    hide StepWord, Apply, Index, Shift, T, Step, Steps, Plus, CoreOf;
    var r1, r2, r3 := Steps(i + 1, r0, x), Steps(i + 2, r0, x), Steps(i + 3, r0, x);
    OneStep(i, r, x);
    OneStep(i + 1, r1, x);
    OneStep(i + 2, r2, x);
    OneStep(i + 3, r3, x);
    NextStep(i, r0, x);
    NextStep(i + 1, r0, x);
    NextStep(i + 2, r0, x);
    NextStep(i + 3, r0, x);
    SameCore(i);
  }

  lemma NextStep(i: nat, r0: Regs, x: seq<Word>)
    requires i < 64 && |x| == 16
    ensures Steps(i + 1, r0, x) == Step(i, Steps(i, r0, x), x)
  {
  }

  /** The function changes only every 16 steps. */
  lemma SameCore(i: nat)
    requires i % 4 == 0
    ensures CoreOf(i) == CoreOf(i + 1) == CoreOf(i + 2) == CoreOf(i + 3)
  {
  }

  /** Steps 0 to 7. */
  method Steps0To7(r0: Regs, r: Regs, x: seq<Word>) returns (s: Regs)
    requires |x| == 16 && r == Steps(0, r0, x)
    ensures s == Steps(8, r0, x)
  {
    hide Quad, Step, Steps;
    FourSteps(0, r0, r, x, x[0], 0xd76aa478, 7, x[1], 0xe8c7b756, 12, x[2], 0x242070db, 17, x[3], 0xc1bdceee, 22);
    s := Quad(F1, r, x[0], 0xd76aa478, 7, x[1], 0xe8c7b756, 12, x[2], 0x242070db, 17, x[3], 0xc1bdceee, 22);
    FourSteps(4, r0, s, x, x[4], 0xf57c0faf, 7, x[5], 0x4787c62a, 12, x[6], 0xa8304613, 17, x[7], 0xfd469501, 22);
    s := Quad(F1, s, x[4], 0xf57c0faf, 7, x[5], 0x4787c62a, 12, x[6], 0xa8304613, 17, x[7], 0xfd469501, 22);
  }

  /** Steps 8 to 15. */
  method Steps8To15(r0: Regs, r: Regs, x: seq<Word>) returns (s: Regs)
    requires |x| == 16 && r == Steps(8, r0, x)
    ensures s == Steps(16, r0, x)
  {
    hide Quad, Step, Steps;
    FourSteps(8, r0, r, x, x[8], 0x698098d8, 7, x[9], 0x8b44f7af, 12, x[10], 0xffff5bb1, 17, x[11], 0x895cd7be, 22);
    s := Quad(F1, r, x[8], 0x698098d8, 7, x[9], 0x8b44f7af, 12, x[10], 0xffff5bb1, 17, x[11], 0x895cd7be, 22);
    FourSteps(12, r0, s, x, x[12], 0x6b901122, 7, x[13], 0xfd987193, 12, x[14], 0xa679438e, 17, x[15], 0x49b40821, 22);
    s := Quad(F1, s, x[12], 0x6b901122, 7, x[13], 0xfd987193, 12, x[14], 0xa679438e, 17, x[15], 0x49b40821, 22);
  }

  /** Steps 16 to 23. */
  method Steps16To23(r0: Regs, r: Regs, x: seq<Word>) returns (s: Regs)
    requires |x| == 16 && r == Steps(16, r0, x)
    ensures s == Steps(24, r0, x)
  {
    hide Quad, Step, Steps;
    FourSteps(16, r0, r, x, x[1], 0xf61e2562, 5, x[6], 0xc040b340, 9, x[11], 0x265e5a51, 14, x[0], 0xe9b6c7aa, 20);
    s := Quad(F2, r, x[1], 0xf61e2562, 5, x[6], 0xc040b340, 9, x[11], 0x265e5a51, 14, x[0], 0xe9b6c7aa, 20);
    FourSteps(20, r0, s, x, x[5], 0xd62f105d, 5, x[10], 0x02441453, 9, x[15], 0xd8a1e681, 14, x[4], 0xe7d3fbc8, 20);
    s := Quad(F2, s, x[5], 0xd62f105d, 5, x[10], 0x02441453, 9, x[15], 0xd8a1e681, 14, x[4], 0xe7d3fbc8, 20);
  }

  /** Steps 24 to 31. */
  method Steps24To31(r0: Regs, r: Regs, x: seq<Word>) returns (s: Regs)
    requires |x| == 16 && r == Steps(24, r0, x)
    ensures s == Steps(32, r0, x)
  {
    hide Quad, Step, Steps;
    FourSteps(24, r0, r, x, x[9], 0x21e1cde6, 5, x[14], 0xc33707d6, 9, x[3], 0xf4d50d87, 14, x[8], 0x455a14ed, 20);
    s := Quad(F2, r, x[9], 0x21e1cde6, 5, x[14], 0xc33707d6, 9, x[3], 0xf4d50d87, 14, x[8], 0x455a14ed, 20);
    FourSteps(28, r0, s, x, x[13], 0xa9e3e905, 5, x[2], 0xfcefa3f8, 9, x[7], 0x676f02d9, 14, x[12], 0x8d2a4c8a, 20);
    s := Quad(F2, s, x[13], 0xa9e3e905, 5, x[2], 0xfcefa3f8, 9, x[7], 0x676f02d9, 14, x[12], 0x8d2a4c8a, 20);
  }

  /** Steps 32 to 39. */
  method Steps32To39(r0: Regs, r: Regs, x: seq<Word>) returns (s: Regs)
    requires |x| == 16 && r == Steps(32, r0, x)
    ensures s == Steps(40, r0, x)
  {
    hide Quad, Step, Steps;
    FourSteps(32, r0, r, x, x[5], 0xfffa3942, 4, x[8], 0x8771f681, 11, x[11], 0x6d9d6122, 16, x[14], 0xfde5380c, 23);
    s := Quad(F3, r, x[5], 0xfffa3942, 4, x[8], 0x8771f681, 11, x[11], 0x6d9d6122, 16, x[14], 0xfde5380c, 23);
    FourSteps(36, r0, s, x, x[1], 0xa4beea44, 4, x[4], 0x4bdecfa9, 11, x[7], 0xf6bb4b60, 16, x[10], 0xbebfbc70, 23);
    s := Quad(F3, s, x[1], 0xa4beea44, 4, x[4], 0x4bdecfa9, 11, x[7], 0xf6bb4b60, 16, x[10], 0xbebfbc70, 23);
  }

  /** Steps 40 to 47. */
  method Steps40To47(r0: Regs, r: Regs, x: seq<Word>) returns (s: Regs)
    requires |x| == 16 && r == Steps(40, r0, x)
    ensures s == Steps(48, r0, x)
  {
    hide Quad, Step, Steps;
    FourSteps(40, r0, r, x, x[13], 0x289b7ec6, 4, x[0], 0xeaa127fa, 11, x[3], 0xd4ef3085, 16, x[6], 0x04881d05, 23);
    s := Quad(F3, r, x[13], 0x289b7ec6, 4, x[0], 0xeaa127fa, 11, x[3], 0xd4ef3085, 16, x[6], 0x04881d05, 23);
    FourSteps(44, r0, s, x, x[9], 0xd9d4d039, 4, x[12], 0xe6db99e5, 11, x[15], 0x1fa27cf8, 16, x[2], 0xc4ac5665, 23);
    s := Quad(F3, s, x[9], 0xd9d4d039, 4, x[12], 0xe6db99e5, 11, x[15], 0x1fa27cf8, 16, x[2], 0xc4ac5665, 23);
  }

  /** Steps 48 to 55. */
  method Steps48To55(r0: Regs, r: Regs, x: seq<Word>) returns (s: Regs)
    requires |x| == 16 && r == Steps(48, r0, x)
    ensures s == Steps(56, r0, x)
  {
    hide Quad, Step, Steps;
    FourSteps(48, r0, r, x, x[0], 0xf4292244, 6, x[7], 0x432aff97, 10, x[14], 0xab9423a7, 15, x[5], 0xfc93a039, 21);
    s := Quad(F4, r, x[0], 0xf4292244, 6, x[7], 0x432aff97, 10, x[14], 0xab9423a7, 15, x[5], 0xfc93a039, 21);
    FourSteps(52, r0, s, x, x[12], 0x655b59c3, 6, x[3], 0x8f0ccc92, 10, x[10], 0xffeff47d, 15, x[1], 0x85845dd1, 21);
    s := Quad(F4, s, x[12], 0x655b59c3, 6, x[3], 0x8f0ccc92, 10, x[10], 0xffeff47d, 15, x[1], 0x85845dd1, 21);
  }

  /** Steps 56 to 63. */
  method Steps56To63(r0: Regs, r: Regs, x: seq<Word>) returns (s: Regs)
    requires |x| == 16 && r == Steps(56, r0, x)
    ensures s == Steps(64, r0, x)
  {
    hide Quad, Step, Steps;
    FourSteps(56, r0, r, x, x[8], 0x6fa87e4f, 6, x[15], 0xfe2ce6e0, 10, x[6], 0xa3014314, 15, x[13], 0x4e0811a1, 21);
    s := Quad(F4, r, x[8], 0x6fa87e4f, 6, x[15], 0xfe2ce6e0, 10, x[6], 0xa3014314, 15, x[13], 0x4e0811a1, 21);
    FourSteps(60, r0, s, x, x[4], 0xf7537e82, 6, x[11], 0xbd3af235, 10, x[2], 0x2ad7d2bb, 15, x[9], 0xeb86d391, 21);
    s := Quad(F4, s, x[4], 0xf7537e82, 6, x[11], 0xbd3af235, 10, x[2], 0x2ad7d2bb, 15, x[9], 0xeb86d391, 21);
  }

  /** The whole transform: 64 steps, then the old registers are added. */
  method Transform(r0: Regs, x: seq<Word>) returns (r: Regs)
    requires |x| == 16
    ensures r == Compress(r0, x)
  {
    hide Steps, Plus;
    NoSteps(r0, x);
    r := Steps0To7(r0, r0, x);
    r := Steps8To15(r0, r, x);
    r := Steps16To23(r0, r, x);
    r := Steps24To31(r0, r, x);
    r := Steps32To39(r0, r, x);
    r := Steps40To47(r0, r, x);
    r := Steps48To55(r0, r, x);
    r := Steps56To63(r0, r, x);
    r := Regs(Plus(r0.a, r.a), Plus(r0.b, r.b), Plus(r0.c, r.c), Plus(r0.d, r.d));
  }

  lemma NoSteps(r: Regs, x: seq<Word>)
    requires |x| == 16
    ensures Steps(0, r, x) == r
  {
  }
}
