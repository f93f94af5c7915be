/** `MD5Transform`: the unrolled 64 steps against the table-driven description in section 3.4
    of RFC 1321. Words are 32 bits wide and wrap. */
module Md5Transform {
  import opened Bits

  /** The four words of the running digest. */
  datatype Words = Words(a: u32, b: u32, c: u32, d: u32)

  /** Four of anything: one row of the tables. */
  datatype Quad<T> = Quad(v0: T, v1: T, v2: T, v3: T)

  // ----- RFC 1321, section 3.4 -----

  function F(x: u32, y: u32, z: u32): u32 { Or32(And32(x, y), And32(Not32(x), z)) }
  function G(x: u32, y: u32, z: u32): u32 { Or32(And32(x, z), And32(y, Not32(z))) }
  function H(x: u32, y: u32, z: u32): u32 { Xor32(Xor32(x, y), z) }
  function I(x: u32, y: u32, z: u32): u32 { Xor32(y, Or32(x, Not32(z))) }

  function RfcMix(round: nat, x: u32, y: u32, z: u32): u32 {
    if round == 0 then F(x, y, z) else if round == 1 then G(x, y, z)
    else if round == 2 then H(x, y, z) else I(x, y, z)
  }

  /** One operation `a = b + ((a + f(b, c, d) + X[k] + T[i]) <<< s)`. */
  function RfcStep(round: nat, a: u32, b: u32, c: u32, d: u32, word: u32, sine: u32, s: Amount): u32 {
    Sum32(b, Rotate32(Sum32(Sum32(Sum32(a, RfcMix(round, b, c, d)), word), sine), s))
  }

  /** Which word of the block operation `n` of round `r` uses. */
  function WordIndex(r: nat, n: nat): (k: nat)
    ensures k < 16
  {
    if r == 0 then n % 16 else if r == 1 then (5 * n + 1) % 16
    else if r == 2 then (3 * n + 5) % 16 else (7 * n) % 16
  }

  /** The words of the block in the order round `r` uses them. */
  function Scheduled(x: seq<u32>, r: nat): (y: seq<u32>)
    requires |x| == 16
    ensures |y| == 16
  {
    seq(16, n requires 0 <= n < 16 => x[WordIndex(r, n)])
  }

  /** The rotations of every row of round `r`. */
  function Shifts(r: nat): Quad<Amount> {
    if r == 0 then Quad(7, 12, 17, 22) else if r == 1 then Quad(5, 9, 14, 20)
    else if r == 2 then Quad(4, 11, 16, 23) else Quad(6, 10, 15, 21)
  }

  /** The table of sines; row `q` of round `r` serves four operations. */
  function Sines(r: nat, q: nat): Quad<u32> {
    if r == 0 then
      if q == 0 then Quad(0xd76aa478, 0xe8c7b756, 0x242070db, 0xc1bdceee) else
      if q == 1 then Quad(0xf57c0faf, 0x4787c62a, 0xa8304613, 0xfd469501) else
      if q == 2 then Quad(0x698098d8, 0x8b44f7af, 0xffff5bb1, 0x895cd7be) else
      Quad(0x6b901122, 0xfd987193, 0xa679438e, 0x49b40821)
    else if r == 1 then
      if q == 0 then Quad(0xf61e2562, 0xc040b340, 0x265e5a51, 0xe9b6c7aa) else
      if q == 1 then Quad(0xd62f105d, 0x02441453, 0xd8a1e681, 0xe7d3fbc8) else
      if q == 2 then Quad(0x21e1cde6, 0xc33707d6, 0xf4d50d87, 0x455a14ed) else
      Quad(0xa9e3e905, 0xfcefa3f8, 0x676f02d9, 0x8d2a4c8a)
    else if r == 2 then
      if q == 0 then Quad(0xfffa3942, 0x8771f681, 0x6d9d6122, 0xfde5380c) else
      if q == 1 then Quad(0xa4beea44, 0x4bdecfa9, 0xf6bb4b60, 0xbebfbc70) else
      if q == 2 then Quad(0x289b7ec6, 0xeaa127fa, 0xd4ef3085, 0x04881d05) else
      Quad(0xd9d4d039, 0xe6db99e5, 0x1fa27cf8, 0xc4ac5665)
    else 
      if q == 0 then Quad(0xf4292244, 0x432aff97, 0xab9423a7, 0xfc93a039) else
      if q == 1 then Quad(0x655b59c3, 0x8f0ccc92, 0xffeff47d, 0x85845dd1) else
      if q == 2 then Quad(0x6fa87e4f, 0xfe2ce6e0, 0xa3014314, 0x4e0811a1) else
      Quad(0xf7537e82, 0xbd3af235, 0x2ad7d2bb, 0xeb86d391)
  }

  /** The central step, of the description or of the code. */
  type Step = (nat, u32, u32, u32, u32, u32, u32, Amount) -> u32

  /** One operation, with the roles of the four words rotated behind it. */
  function Operation(step: Step, r: nat, st: Words, word: u32, sine: u32, s: Amount): Words {
    Words(st.d, step(r, st.a, st.b, st.c, st.d, word, sine, s), st.b, st.c)
  }

  function Pick<T>(q: Quad<T>, j: nat): T {
    if j == 0 then q.v0 else if j == 1 then q.v1 else if j == 2 then q.v2 else q.v3
  }

  /** The first `j` operations of a row. */
  function Row(step: Step, r: nat, st: Words, w: Quad<u32>, t: Quad<u32>, s: Quad<Amount>, j: nat): Words {
    if j == 0 then st else
    Operation(step, r, Row(step, r, st, w, t, s, j - 1), Pick(w, j - 1), Pick(t, j - 1), Pick(s, j - 1))
  }

  /** The first `q` rows of round `r`, on the words in scheduled order. */
  function Rows(step: Step, r: nat, st: Words, y: seq<u32>, q: nat): Words
    requires |y| == 16 && q <= 4
  {
    if q == 0 then st else
    var n := 4 * (q - 1);
    Row(step, r, Rows(step, r, st, y, q - 1), Quad(y[n], y[n + 1], y[n + 2], y[n + 3]), Sines(r, q - 1), Shifts(r), 4)
  }

  /** The first `r` rounds. */
  function Rounds(step: Step, st: Words, x: seq<u32>, r: nat): Words
    requires |x| == 16
  {
    if r == 0 then st else Rows(step, r - 1, Rounds(step, st, x, r - 1), Scheduled(x, r - 1), 4)
  }

  /** Section 3.4: four rounds, then the words the block began with are added. */
  function Compress(step: Step, st: Words, x: seq<u32>): Words
    requires |x| == 16
  {
    AddBack(st, Rounds(step, st, x, 4))
  }

  function AddBack(st: Words, out: Words): Words {
    Words(Sum32(st.a, out.a), Sum32(st.b, out.b), Sum32(st.c, out.c), Sum32(st.d, out.d))
  }

  // ----- the code -----

  function F1(x: u32, y: u32, z: u32): u32 { Xor32(z, And32(x, Xor32(y, z))) }
  function F2(x: u32, y: u32, z: u32): u32 { F1(z, x, y) }
  function F3(x: u32, y: u32, z: u32): u32 { Xor32(Xor32(x, y), z) }
  function F4(x: u32, y: u32, z: u32): u32 { Xor32(y, Or32(x, Not32(z))) }

  function CodeMix(round: nat, x: u32, y: u32, z: u32): u32 {
    if round == 0 then F1(x, y, z) else if round == 1 then F2(x, y, z)
    else if round == 2 then F3(x, y, z) else F4(x, y, z)
  }

  /** The macro `MD5STEP`. */
  function Md5Step(round: nat, w: u32, x: u32, y: u32, z: u32, word: u32, sine: u32, s: Amount): u32 {
    var w1 := Sum32(w, Sum32(CodeMix(round, x, y, z), Sum32(word, sine)));
    var w2 := Or32(ShiftLeft32(w1, s), ShiftRight32(w1, 32 - s));
    Sum32(w2, x)
  }

  /** Two central steps that always give the same word. */
  ghost predicate Alike(step: Step, other: Step) {
    forall r, a, b, c, d, word, sine, s :: step(r, a, b, c, d, word, sine, s) == other(r, a, b, c, d, word, sine, s)
  }

  /** Four lines of the unrolled code: the words keep their names and swap roles. */
  method StepRow(step: Step, ghost rfc: Step, r: nat, st: Words, w: Quad<u32>, t: Quad<u32>, s: Quad<Amount>)
    returns (out: Words)
    requires Alike(step, rfc)
    ensures out == Row(rfc, r, st, w, t, s, 4)
  {
    var a, b, c, d := st.a, st.b, st.c, st.d;
    a := step(r, a, b, c, d, w.v0, t.v0, s.v0);
    assert Words(d, a, b, c) == Row(rfc, r, st, w, t, s, 1);
    d := step(r, d, a, b, c, w.v1, t.v1, s.v1);
    assert Words(c, d, a, b) == Row(rfc, r, st, w, t, s, 2);
    c := step(r, c, d, a, b, w.v2, t.v2, s.v2);
    b := step(r, b, c, d, a, w.v3, t.v3, s.v3);
    out := Words(a, b, c, d);
  }

  lemma Schedule1(x: seq<u32>)
    requires |x| == 16
    ensures var y := Scheduled(x, 0);
            && y[0] == x[0] && y[1] == x[1] && y[2] == x[2] && y[3] == x[3]
            && y[4] == x[4] && y[5] == x[5] && y[6] == x[6] && y[7] == x[7]
            && y[8] == x[8] && y[9] == x[9] && y[10] == x[10] && y[11] == x[11]
            && y[12] == x[12] && y[13] == x[13] && y[14] == x[14] && y[15] == x[15]
  {}

  lemma Schedule2(x: seq<u32>)
    requires |x| == 16
    ensures var y := Scheduled(x, 1);
            && y[0] == x[1] && y[1] == x[6] && y[2] == x[11] && y[3] == x[0]
            && y[4] == x[5] && y[5] == x[10] && y[6] == x[15] && y[7] == x[4]
            && y[8] == x[9] && y[9] == x[14] && y[10] == x[3] && y[11] == x[8]
            && y[12] == x[13] && y[13] == x[2] && y[14] == x[7] && y[15] == x[12]
  {}

  lemma Schedule3(x: seq<u32>)
    requires |x| == 16
    ensures var y := Scheduled(x, 2);
            && y[0] == x[5] && y[1] == x[8] && y[2] == x[11] && y[3] == x[14]
            && y[4] == x[1] && y[5] == x[4] && y[6] == x[7] && y[7] == x[10]
            && y[8] == x[13] && y[9] == x[0] && y[10] == x[3] && y[11] == x[6]
            && y[12] == x[9] && y[13] == x[12] && y[14] == x[15] && y[15] == x[2]
  {}

  lemma Schedule4(x: seq<u32>)
    requires |x| == 16
    ensures var y := Scheduled(x, 3);
            && y[0] == x[0] && y[1] == x[7] && y[2] == x[14] && y[3] == x[5]
            && y[4] == x[12] && y[5] == x[3] && y[6] == x[10] && y[7] == x[1]
            && y[8] == x[8] && y[9] == x[15] && y[10] == x[6] && y[11] == x[13]
            && y[12] == x[4] && y[13] == x[11] && y[14] == x[2] && y[15] == x[9]
  {}

  method Round1(step: Step, ghost rfc: Step, start: Words, x: seq<u32>) returns (st: Words)
    requires |x| == 16 && Alike(step, rfc)
    ensures st == Rows(rfc, 0, start, Scheduled(x, 0), 4)
  {
    Schedule1(x);
    ghost var y := Scheduled(x, 0);
    var s := Quad(7, 12, 17, 22);
    st := start;
    st := StepRow(step, rfc, 0, st, Quad(x[0], x[1], x[2], x[3]),
                  Quad(0xd76aa478, 0xe8c7b756, 0x242070db, 0xc1bdceee), s);
    assert st == Rows(rfc, 0, start, y, 1);
    st := StepRow(step, rfc, 0, st, Quad(x[4], x[5], x[6], x[7]),
                  Quad(0xf57c0faf, 0x4787c62a, 0xa8304613, 0xfd469501), s);
    assert st == Rows(rfc, 0, start, y, 2);
    st := StepRow(step, rfc, 0, st, Quad(x[8], x[9], x[10], x[11]),
                  Quad(0x698098d8, 0x8b44f7af, 0xffff5bb1, 0x895cd7be), s);
    assert st == Rows(rfc, 0, start, y, 3);
    st := StepRow(step, rfc, 0, st, Quad(x[12], x[13], x[14], x[15]),
                  Quad(0x6b901122, 0xfd987193, 0xa679438e, 0x49b40821), s);
  }

  method Round2(step: Step, ghost rfc: Step, start: Words, x: seq<u32>) returns (st: Words)
    requires |x| == 16 && Alike(step, rfc)
    ensures st == Rows(rfc, 1, start, Scheduled(x, 1), 4)
  {
    Schedule2(x);
    ghost var y := Scheduled(x, 1);
    var s := Quad(5, 9, 14, 20);
    st := start;
    st := StepRow(step, rfc, 1, st, Quad(x[1], x[6], x[11], x[0]),
                  Quad(0xf61e2562, 0xc040b340, 0x265e5a51, 0xe9b6c7aa), s);
    assert st == Rows(rfc, 1, start, y, 1);
    st := StepRow(step, rfc, 1, st, Quad(x[5], x[10], x[15], x[4]),
                  Quad(0xd62f105d, 0x02441453, 0xd8a1e681, 0xe7d3fbc8), s);
    assert st == Rows(rfc, 1, start, y, 2);
    st := StepRow(step, rfc, 1, st, Quad(x[9], x[14], x[3], x[8]),
                  Quad(0x21e1cde6, 0xc33707d6, 0xf4d50d87, 0x455a14ed), s);
    assert st == Rows(rfc, 1, start, y, 3);
    st := StepRow(step, rfc, 1, st, Quad(x[13], x[2], x[7], x[12]),
                  Quad(0xa9e3e905, 0xfcefa3f8, 0x676f02d9, 0x8d2a4c8a), s);
  }

  method Round3(step: Step, ghost rfc: Step, start: Words, x: seq<u32>) returns (st: Words)
    requires |x| == 16 && Alike(step, rfc)
    ensures st == Rows(rfc, 2, start, Scheduled(x, 2), 4)
  {
    Schedule3(x);
    ghost var y := Scheduled(x, 2);
    var s := Quad(4, 11, 16, 23);
    st := start;
    st := StepRow(step, rfc, 2, st, Quad(x[5], x[8], x[11], x[14]),
                  Quad(0xfffa3942, 0x8771f681, 0x6d9d6122, 0xfde5380c), s);
    assert st == Rows(rfc, 2, start, y, 1);
    st := StepRow(step, rfc, 2, st, Quad(x[1], x[4], x[7], x[10]),
                  Quad(0xa4beea44, 0x4bdecfa9, 0xf6bb4b60, 0xbebfbc70), s);
    assert st == Rows(rfc, 2, start, y, 2);
    st := StepRow(step, rfc, 2, st, Quad(x[13], x[0], x[3], x[6]),
                  Quad(0x289b7ec6, 0xeaa127fa, 0xd4ef3085, 0x04881d05), s);
    assert st == Rows(rfc, 2, start, y, 3);
    st := StepRow(step, rfc, 2, st, Quad(x[9], x[12], x[15], x[2]),
                  Quad(0xd9d4d039, 0xe6db99e5, 0x1fa27cf8, 0xc4ac5665), s);
  }

  method Round4(step: Step, ghost rfc: Step, start: Words, x: seq<u32>) returns (st: Words)
    requires |x| == 16 && Alike(step, rfc)
    ensures st == Rows(rfc, 3, start, Scheduled(x, 3), 4)
  {
    Schedule4(x);
    ghost var y := Scheduled(x, 3);
    var s := Quad(6, 10, 15, 21);
    st := start;
    st := StepRow(step, rfc, 3, st, Quad(x[0], x[7], x[14], x[5]),
                  Quad(0xf4292244, 0x432aff97, 0xab9423a7, 0xfc93a039), s);
    assert st == Rows(rfc, 3, start, y, 1);
    st := StepRow(step, rfc, 3, st, Quad(x[12], x[3], x[10], x[1]),
                  Quad(0x655b59c3, 0x8f0ccc92, 0xffeff47d, 0x85845dd1), s);
    assert st == Rows(rfc, 3, start, y, 2);
    st := StepRow(step, rfc, 3, st, Quad(x[8], x[15], x[6], x[13]),
                  Quad(0x6fa87e4f, 0xfe2ce6e0, 0xa3014314, 0x4e0811a1), s);
    assert st == Rows(rfc, 3, start, y, 3);
    st := StepRow(step, rfc, 3, st, Quad(x[4], x[11], x[2], x[9]),
                  Quad(0xf7537e82, 0xbd3af235, 0x2ad7d2bb, 0xeb86d391), s);
  }

  // ----- both are the same -----

  /** `F1` is an optimised `F`, and `F2` is `F1` with its arguments turned. */
  lemma OptimizedFunctions(x: u32, y: u32, z: u32)
    ensures F1(x, y, z) == F(x, y, z) && F2(x, y, z) == G(x, y, z)
  {
    Pow2Values();
    XorSelects(x, y, z, 32);
    XorSelects(z, x, y, 32);
    AndCommutes(z, x);
    AndCommutes(Not32(z), y);
  }

  lemma MixesAgree(round: nat, x: u32, y: u32, z: u32)
    ensures CodeMix(round, x, y, z) == RfcMix(round, x, y, z)
  {
    OptimizedFunctions(x, y, z);
  }

  /** The optimised step of the code gives the word of the description. */
  lemma StepsAgree(round: nat, a: u32, b: u32, c: u32, d: u32, word: u32, sine: u32, s: Amount)
    ensures Md5Step(round, a, b, c, d, word, sine, s) == RfcStep(round, a, b, c, d, word, sine, s)
  {
    var mix := RfcMix(round, b, c, d);
    MixesAgree(round, b, c, d);
    SumsAssociate(mix, word, sine);
    SumsAssociate(a, Sum32(mix, word), sine);
    SumsAssociate(a, mix, word);
    var sum := Sum32(Sum32(Sum32(a, mix), word), sine);
    ShiftsRotate(sum, s);
    SumsAssociate(b, Rotate32(sum, s), 0);
  }

  method FourRounds(step: Step, ghost rfc: Step, start: Words, x: seq<u32>) returns (st: Words)
    requires |x| == 16 && Alike(step, rfc)
    ensures st == Rounds(rfc, start, x, 4)
  {
    st := Round1(step, rfc, start, x);
    assert st == Rounds(rfc, start, x, 1);
    st := Round2(step, rfc, st, x);
    assert st == Rounds(rfc, start, x, 2);
    st := Round3(step, rfc, st, x);
    assert st == Rounds(rfc, start, x, 3);
    st := Round4(step, rfc, st, x);
  }

  method TransformBy(step: Step, ghost rfc: Step, buf: array<u32>, x: seq<u32>)
    requires buf.Length == 4 && |x| == 16 && Alike(step, rfc)
    modifies buf
    ensures WordsOf(buf[..]) == Compress(rfc, old(WordsOf(buf[..])), x)
  {
    var out := FourRounds(step, rfc, WordsOf(buf[..]), x);
    buf[0] := Sum32(buf[0], out.a);
    buf[1] := Sum32(buf[1], out.b);
    buf[2] := Sum32(buf[2], out.c);
    buf[3] := Sum32(buf[3], out.d);
  }

  /** The compression function of RFC 1321 on a state and a block of 16 words. */
  function RfcCompress(st: Words, x: seq<u32>): Words
    requires |x| == 16
  {
    Compress(RfcStep, st, x)
  }

  function WordsOf(buf: seq<u32>): Words
    requires |buf| == 4
  {
    Words(buf[0], buf[1], buf[2], buf[3])
  }

  /** The code, working on the four words of `buf` in place. */
  method Transform(buf: array<u32>, x: seq<u32>)
    requires buf.Length == 4 && |x| == 16
    modifies buf
    ensures WordsOf(buf[..]) == RfcCompress(old(WordsOf(buf[..])), x)
  {
    forall r, a, b, c, d, word, sine, s
      ensures Md5Step(r, a, b, c, d, word, sine, s) == RfcStep(r, a, b, c, d, word, sine, s)
    {
      StepsAgree(r, a, b, c, d, word, sine, s);
    }
    TransformBy(Md5Step, RfcStep, buf, x);
  }
}
