/** AES with tables (aes.c): key schedules, encryption, and the equivalent inverse cipher of
    section 5.3.5 of FIPS 197. */
module Aes {
  import opened Gf256
  import opened AesTables

  // ---------- words ----------

  lemma XorLaws(a: Word, b: Word, c: Word)
    ensures Xor(a, b) == Xor(b, a) && Xor(Xor(a, b), c) == Xor(a, Xor(b, c))
    ensures Xor(Xor(a, b), b) == a
  {
    hide Add;
    AddLaws(a.b0, b.b0, c.b0);
    AddLaws(a.b1, b.b1, c.b1);
    AddLaws(a.b2, b.b2, c.b2);
    AddLaws(a.b3, b.b3, c.b3);
    AddCancel(a.b0, b.b0);
    AddCancel(a.b1, b.b1);
    AddCancel(a.b2, b.b2);
    AddCancel(a.b3, b.b3);
  }

  /** The order in which a round folds in its terms does not matter. */
  lemma XorChain(k: Word, a: Word, b: Word, c: Word, d: Word)
    ensures Xor(Xor(Xor(Xor(k, a), b), c), d) == Xor(Xor(Xor(Xor(a, b), c), d), k)
  {
    hide Xor;
    XorLaws(k, a, b);
    XorLaws(k, Xor(a, b), c);
    XorLaws(k, Xor(Xor(a, b), c), d);
    XorLaws(k, Xor(Xor(Xor(a, b), c), d), k);
  }

  // ---------- MixColumns and its inverse ----------

  /** Section 5.1.3 of FIPS 197, row by row: coefficients 2, 3, 1, 1. */
  function Mix(w: Word): Word {
    Word(Add(Add(Add(Xtime(w.b0), Add(Xtime(w.b1), w.b1)), w.b2), w.b3),
         Add(Add(Add(w.b0, Xtime(w.b1)), Add(Xtime(w.b2), w.b2)), w.b3),
         Add(Add(Add(w.b0, w.b1), Xtime(w.b2)), Add(Xtime(w.b3), w.b3)),
         Add(Add(Add(Add(Xtime(w.b0), w.b0), w.b1), w.b2), Xtime(w.b3)))
  }

  /** Section 5.3.3 of FIPS 197: coefficients 14, 11, 13, 9. */
  function InvMix(w: Word): Word {
    Word(Add(Add(Add(Mul(14, w.b0), Mul(11, w.b1)), Mul(13, w.b2)), Mul(9, w.b3)),
         Add(Add(Add(Mul(9, w.b0), Mul(14, w.b1)), Mul(11, w.b2)), Mul(13, w.b3)),
         Add(Add(Add(Mul(13, w.b0), Mul(9, w.b1)), Mul(14, w.b2)), Mul(11, w.b3)),
         Add(Add(Add(Mul(11, w.b0), Mul(13, w.b1)), Mul(9, w.b2)), Mul(14, w.b3)))
  }

  /** The four table lookups of a round add up to MixColumns of the column. */
  lemma MixByTables(w: Word)
    ensures Mix(w) == Xor(Xor(Xor(Forward0(w.b0), Rotl8(Forward0(w.b1))), Rotl8(Rotl8(Forward0(w.b2)))),
                          Rotl8(Rotl8(Rotl8(Forward0(w.b3)))))
  {
    hide Add, Xtime;
  }

  lemma InvMixByTables(w: Word)
    ensures InvMix(w) == Xor(Xor(Xor(Reverse0(w.b0), Rotl8(Reverse0(w.b1))), Rotl8(Rotl8(Reverse0(w.b2)))),
                             Rotl8(Rotl8(Rotl8(Reverse0(w.b3)))))
  {
    hide Add, Mul;
  }

  lemma FourRegroup(a: bv8, a': bv8, b: bv8, b': bv8, c: bv8, c': bv8, d: bv8, d': bv8)
    ensures Add(Add(Add(Add(a, a'), Add(b, b')), Add(c, c')), Add(d, d'))
      == Add(Add(Add(Add(a, b), c), d), Add(Add(Add(a', b'), c'), d'))
  {
    hide Add;
    AddRegroup(a, a', b, b');
    AddRegroup(Add(a, b), Add(a', b'), c, c');
    AddRegroup(Add(Add(a, b), c), Add(Add(a', b'), c'), d, d');
  }

  lemma InvMixLinear(v: Word, w: Word)
    ensures InvMix(Xor(v, w)) == Xor(InvMix(v), InvMix(w))
  {
    hide Add, Mul;
    InvRowLinear(14, 11, 13, 9, v, w);
    InvRowLinear(9, 14, 11, 13, v, w);
    InvRowLinear(13, 9, 14, 11, v, w);
    InvRowLinear(11, 13, 9, 14, v, w);
  }

  lemma InvRowLinear(p: bv8, q: bv8, r: bv8, s: bv8, v: Word, w: Word)
    ensures Add(Add(Add(Mul(p, Add(v.b0, w.b0)), Mul(q, Add(v.b1, w.b1))), Mul(r, Add(v.b2, w.b2))),
                Mul(s, Add(v.b3, w.b3)))
      == Add(Add(Add(Add(Mul(p, v.b0), Mul(q, v.b1)), Mul(r, v.b2)), Mul(s, v.b3)),
             Add(Add(Add(Mul(p, w.b0), Mul(q, w.b1)), Mul(r, w.b2)), Mul(s, w.b3)))
  {
    hide Add, Mul;
    MulLinear(p, p, v.b0, w.b0);
    MulLinear(q, q, v.b1, w.b1);
    MulLinear(r, r, v.b2, w.b2);
    MulLinear(s, s, v.b3, w.b3);
    FourRegroup(Mul(p, v.b0), Mul(p, w.b0), Mul(q, v.b1), Mul(q, w.b1),
                Mul(r, v.b2), Mul(r, w.b2), Mul(s, v.b3), Mul(s, w.b3));
  }

  lemma RotateSum(a: bv8, b: bv8, c: bv8, d: bv8)
    ensures Add(Add(Add(a, b), c), d) == Add(Add(Add(b, c), d), a)
  {
    hide Add;
    AddLaws(a, b, c);
    AddLaws(a, Add(b, c), d);
    AddLaws(a, Add(Add(b, c), d), a);
  }

  /** The matrix is circulant: rotating the column rotates the result. */
  lemma InvMixRotates(w: Word)
    ensures InvMix(Rotl8(w)) == Rotl8(InvMix(w))
  {
    hide Add, Mul;
    RotateSum(Mul(14, w.b3), Mul(11, w.b0), Mul(13, w.b1), Mul(9, w.b2));
    RotateSum(Mul(9, w.b3), Mul(14, w.b0), Mul(11, w.b1), Mul(13, w.b2));
    RotateSum(Mul(13, w.b3), Mul(9, w.b0), Mul(14, w.b1), Mul(11, w.b2));
    RotateSum(Mul(11, w.b3), Mul(13, w.b0), Mul(9, w.b1), Mul(14, w.b2));
  }

  /** A sum of multiples of one byte. */
  lemma SumOfMultiples(p: bv8, q: bv8, r: bv8, s: bv8, b: bv8)
    ensures Add(Mul(p, b), Mul(q, b)) == Mul(Add(p, q), b)
    ensures Add(Add(Add(Mul(p, b), Mul(q, b)), Mul(r, b)), Mul(s, b)) == Mul(Add(Add(Add(p, q), r), s), b)
  {
    hide Add, Mul;
    MulLinear(p, q, b, b);
    MulLinear(Add(p, q), r, b, b);
    MulLinear(Add(Add(p, q), r), s, b, b);
  }

  /** Products with the coefficients, as sums of b, 2b, 4b and 8b. */
  lemma Coefficients(b: bv8)
    ensures Mul(9, b) == Add(Mul(8, b), b) && Mul(11, b) == Add(Add(Mul(8, b), Mul(2, b)), b)
    ensures Mul(13, b) == Add(Add(Mul(8, b), Mul(4, b)), b)
    ensures Mul(14, b) == Add(Add(Mul(8, b), Mul(4, b)), Mul(2, b))
    ensures Mul(2, b) == Xtime(b) && Mul(4, b) == Xtime(Mul(2, b)) && Mul(8, b) == Xtime(Mul(4, b))
    ensures Mul(16, b) == Xtime(Mul(8, b))
  {
    hide Xtime, Add, Mul;
    PowersOfX();
    MulOne(b);
    MulTimes3(1, b);
    MulTimes3(2, b);
    MulTimes3(4, b);
    MulTimes3(8, b);
    SmallSums();
    MulLinear(8, 1, b, b);
    MulLinear(8, 2, b, b);
    MulLinear(10, 1, b, b);
    MulLinear(8, 4, b, b);
    MulLinear(12, 1, b, b);
    MulLinear(12, 2, b, b);
  }

  lemma SmallSums()
    ensures Add(8, 1) == 9 && Add(8, 2) == 10 && Add(10, 1) == 11 && Add(8, 4) == 12
    ensures Add(12, 1) == 13 && Add(12, 2) == 14
  {}

  /** The coefficients times 2b are the doubled coefficients times b. */
  lemma DoubledCoefficients(b: bv8)
    ensures Mul(9, Xtime(b)) == Mul(18, b) && Mul(11, Xtime(b)) == Mul(22, b)
    ensures Mul(13, Xtime(b)) == Mul(26, b) && Mul(14, Xtime(b)) == Mul(28, b)
  {
    hide Xtime, Add, Mul;
    Coefficients(b);
    Coefficients(Xtime(b));
    DoubleSums();
    MulLinear(16, 2, b, b);
    MulLinear(16, 4, b, b);
    MulLinear(20, 2, b, b);
    MulLinear(16, 8, b, b);
    MulLinear(24, 2, b, b);
    MulLinear(24, 4, b, b);
  }

  lemma DoubleSums()
    ensures Add(16, 2) == 18 && Add(16, 4) == 20 && Add(20, 2) == 22 && Add(16, 8) == 24
    ensures Add(24, 2) == 26 && Add(24, 4) == 28
  {}

  /** The coefficients times 3b. */
  lemma TripledCoefficients(b: bv8)
    ensures Mul(9, Add(Xtime(b), b)) == Mul(27, b) && Mul(11, Add(Xtime(b), b)) == Mul(29, b)
    ensures Mul(13, Add(Xtime(b), b)) == Mul(23, b) && Mul(14, Add(Xtime(b), b)) == Mul(18, b)
  {
    hide Xtime, Add, Mul;
    DoubledCoefficients(b);
    TripleSums();
    MulLinear(9, 9, Xtime(b), b);
    MulLinear(11, 11, Xtime(b), b);
    MulLinear(13, 13, Xtime(b), b);
    MulLinear(14, 14, Xtime(b), b);
    MulLinear(18, 9, b, b);
    MulLinear(22, 11, b, b);
    MulLinear(26, 13, b, b);
    MulLinear(28, 14, b, b);
  }

  lemma TripleSums()
    ensures Add(18, 9) == 27 && Add(22, 11) == 29 && Add(26, 13) == 23 && Add(28, 14) == 18
  {}

  lemma ColumnSums()
    ensures Add(Add(Add(28, 11), 13), 27) == 1 && Add(Add(Add(18, 14), 11), 23) == 0
    ensures Add(Add(Add(26, 9), 14), 29) == 0 && Add(Add(Add(22, 13), 9), 18) == 0
  {}

  /** A column with one byte in row 0: the matrices cancel. */
  lemma InvMixForward(b: bv8)
    ensures InvMix(Forward0(b)) == Word(b, 0, 0, 0)
  {
    hide Xtime, Add, Mul;
    DoubledCoefficients(b);
    TripledCoefficients(b);
    SumOfMultiples(28, 11, 13, 27, b);
    SumOfMultiples(18, 14, 11, 23, b);
    SumOfMultiples(26, 9, 14, 29, b);
    SumOfMultiples(22, 13, 9, 18, b);
    ColumnSums();
    MulOne(b);
    MulZero(b);
  }

  /** InvMixColumns undoes MixColumns. */
  lemma InvMixMix(w: Word)
    ensures InvMix(Mix(w)) == w
  {
    hide Add, Xor, InvMix, Mix, Forward0, Rotl8;
    var a, b, c, d := Forward0(w.b0), Forward0(w.b1), Forward0(w.b2), Forward0(w.b3);
    MixByTables(w);
    InvMixLinear(Xor(Xor(a, Rotl8(b)), Rotl8(Rotl8(c))), Rotl8(Rotl8(Rotl8(d))));
    InvMixLinear(Xor(a, Rotl8(b)), Rotl8(Rotl8(c)));
    InvMixLinear(a, Rotl8(b));
    InvMixRotates(b);
    InvMixRotates(c);
    InvMixRotates(Rotl8(c));
    InvMixRotates(d);
    InvMixRotates(Rotl8(d));
    InvMixRotates(Rotl8(Rotl8(d)));
    InvMixForward(w.b0);
    InvMixForward(w.b1);
    InvMixForward(w.b2);
    InvMixForward(w.b3);
    AssembleWord(w);
  }

  lemma AssembleWord(w: Word)
    ensures Xor(Xor(Xor(Word(w.b0, 0, 0, 0), Rotl8(Word(w.b1, 0, 0, 0))), Rotl8(Rotl8(Word(w.b2, 0, 0, 0)))),
                Rotl8(Rotl8(Rotl8(Word(w.b3, 0, 0, 0))))) == w
  {
    hide Add;
    AddLaws(w.b0, 0, 0);
    AddLaws(w.b1, 0, 0);
    AddLaws(w.b2, 0, 0);
    AddLaws(w.b3, 0, 0);
    AddLaws(0, 0, 0);
  }

  // ---------- the state ----------

  /** Four columns. */
  datatype State = State(c0: Word, c1: Word, c2: Word, c3: Word)

  function AddKey(s: State, k: State): State {
    State(Xor(s.c0, k.c0), Xor(s.c1, k.c1), Xor(s.c2, k.c2), Xor(s.c3, k.c3))
  }

  lemma AddKeyTwice(s: State, k: State)
    ensures AddKey(AddKey(s, k), k) == s
  {
    hide Xor;
    XorLaws(s.c0, k.c0, k.c0);
    XorLaws(s.c1, k.c1, k.c1);
    XorLaws(s.c2, k.c2, k.c2);
    XorLaws(s.c3, k.c3, k.c3);
  }

  function MixColumns(s: State): State { State(Mix(s.c0), Mix(s.c1), Mix(s.c2), Mix(s.c3)) }

  function InvMixColumns(s: State): State { State(InvMix(s.c0), InvMix(s.c1), InvMix(s.c2), InvMix(s.c3)) }

  lemma InvMixColumnsAddKey(s: State, k: State)
    ensures InvMixColumns(AddKey(s, k)) == AddKey(InvMixColumns(s), InvMixColumns(k))
  {
    hide Xor, InvMix;
    InvMixLinear(s.c0, k.c0);
    InvMixLinear(s.c1, k.c1);
    InvMixLinear(s.c2, k.c2);
    InvMixLinear(s.c3, k.c3);
  }

  lemma InvMixColumnsUndo(s: State)
    ensures InvMixColumns(MixColumns(s)) == s
  {
    hide InvMix, Mix;
    InvMixMix(s.c0);
    InvMixMix(s.c1);
    InvMixMix(s.c2);
    InvMixMix(s.c3);
  }

  /** SubBytes and ShiftRows together. */
  ghost function SubShift(s: State): State {
    State(Word(Sbox(s.c0.b0), Sbox(s.c1.b1), Sbox(s.c2.b2), Sbox(s.c3.b3)),
          Word(Sbox(s.c1.b0), Sbox(s.c2.b1), Sbox(s.c3.b2), Sbox(s.c0.b3)),
          Word(Sbox(s.c2.b0), Sbox(s.c3.b1), Sbox(s.c0.b2), Sbox(s.c1.b3)),
          Word(Sbox(s.c3.b0), Sbox(s.c0.b1), Sbox(s.c1.b2), Sbox(s.c2.b3)))
  }

  /** A table that undoes the S-box. */
  ghost predicate Undoes(r: seq<bv8>) {
    |r| == 256 && forall x: bv8 :: r[Idx(Sbox(x))] == x
  }

  /** InvSubBytes and InvShiftRows together. */
  function InvSubShift(r: seq<bv8>, s: State): State
    requires |r| == 256
  {
    State(Word(r[Idx(s.c0.b0)], r[Idx(s.c3.b1)], r[Idx(s.c2.b2)], r[Idx(s.c1.b3)]),
          Word(r[Idx(s.c1.b0)], r[Idx(s.c0.b1)], r[Idx(s.c3.b2)], r[Idx(s.c2.b3)]),
          Word(r[Idx(s.c2.b0)], r[Idx(s.c1.b1)], r[Idx(s.c0.b2)], r[Idx(s.c3.b3)]),
          Word(r[Idx(s.c3.b0)], r[Idx(s.c2.b1)], r[Idx(s.c1.b2)], r[Idx(s.c0.b3)]))
  }

  lemma InvSubShiftUndo(r: seq<bv8>, s: State)
    requires Undoes(r)
    ensures InvSubShift(r, SubShift(s)) == s
  {
    hide Sbox, Idx;
  }

  // ---------- the cipher and its inverse ----------

  /** Round key number i. */
  function RoundKey(k: seq<Word>, i: nat): State
    requires 4 * i + 4 <= |k|
  {
    State(k[4 * i], k[4 * i + 1], k[4 * i + 2], k[4 * i + 3])
  }

  /** The state after r full rounds of the cipher (section 5.1 of FIPS 197). */
  ghost function Rounds(k: seq<Word>, p: State, r: nat): State
    requires 4 * r + 4 <= |k|
  {
    if r == 0 then AddKey(p, RoundKey(k, 0))
    else AddKey(MixColumns(SubShift(Rounds(k, p, r - 1))), RoundKey(k, r))
  }

  ghost function Cipher(k: seq<Word>, nr: nat, p: State): State
    requires nr > 0 && 4 * nr + 4 <= |k|
  {
    AddKey(SubShift(Rounds(k, p, nr - 1)), RoundKey(k, nr))
  }

  /** The state after r rounds of the equivalent inverse cipher. */
  function InvRounds(t: seq<bv8>, d: seq<Word>, c: State, r: nat): State
    requires |t| == 256 && 4 * r + 4 <= |d|
  {
    if r == 0 then AddKey(c, RoundKey(d, 0))
    else AddKey(InvMixColumns(InvSubShift(t, InvRounds(t, d, c, r - 1))), RoundKey(d, r))
  }

  function InvCipher(t: seq<bv8>, d: seq<Word>, nr: nat, c: State): State
    requires |t| == 256 && nr > 0 && 4 * nr + 4 <= |d|
  {
    AddKey(InvSubShift(t, InvRounds(t, d, c, nr - 1)), RoundKey(d, nr))
  }

  /** How the decryption schedule relates to the encryption schedule: reversed, and all but
      the outer keys passed through InvMixColumns. */
  ghost predicate Inverted(k: seq<Word>, d: seq<Word>, nr: nat) {
    4 * nr + 4 <= |k| && 4 * nr + 4 <= |d|
    && RoundKey(d, 0) == RoundKey(k, nr) && RoundKey(d, nr) == RoundKey(k, 0)
    && forall r :: 0 < r < nr ==> RoundKey(d, r) == InvMixColumns(RoundKey(k, nr - r))
  }

  /** The inverse rounds run through the states of the rounds backwards. */
  lemma {:induction false} InvRoundsBack(t: seq<bv8>, k: seq<Word>, d: seq<Word>, nr: nat, p: State, r: nat)
    requires Undoes(t) && Inverted(k, d, nr) && r < nr
    ensures InvRounds(t, d, Cipher(k, nr, p), r) == SubShift(Rounds(k, p, nr - 1 - r))
  {
    hide AddKey, SubShift, InvSubShift, MixColumns, InvMixColumns, RoundKey, Undoes;
    if r == 0 {
      AddKeyTwice(SubShift(Rounds(k, p, nr - 1)), RoundKey(k, nr));
    } else {
      InvRoundsBack(t, k, d, nr, p, r - 1);
      var y, z := Rounds(k, p, nr - r), SubShift(Rounds(k, p, nr - 1 - r));
      InvSubShiftUndo(t, y);
      InvMixColumnsAddKey(MixColumns(z), RoundKey(k, nr - r));
      InvMixColumnsUndo(z);
      AddKeyTwice(z, InvMixColumns(RoundKey(k, nr - r)));
    }
  }

  /** The equivalent inverse cipher with the inverted schedule undoes the cipher, for every
      block and for any round keys. */
  lemma InverseCipherCorrect(t: seq<bv8>, k: seq<Word>, d: seq<Word>, nr: nat, p: State)
    requires Undoes(t) && Inverted(k, d, nr) && nr > 0
    ensures InvCipher(t, d, nr, Cipher(k, nr, p)) == p
  {
    hide AddKey, SubShift, InvSubShift, MixColumns, InvMixColumns, RoundKey, Undoes;
    InvRoundsBack(t, k, d, nr, p, nr - 1);
    InvSubShiftUndo(t, Rounds(k, p, 0));
    AddKeyTwice(p, RoundKey(k, 0));
  }
}
