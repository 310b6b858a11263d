/** The AES code proper: table lookups, round loops and key schedules over word arrays. */
module AesBlock {
  import opened AesTables
  import opened Aes
  import Blocks

  type Bytes = Blocks.Bytes

  // ---------- columns by table lookup ----------

  /** The S-box on the bytes of a word. */
  ghost function SubWord(w: Word): Word { Word(Sbox(w.b0), Sbox(w.b1), Sbox(w.b2), Sbox(w.b3)) }

  lemma GoodShape(t: Tables)
    requires t.Good()
    ensures t.Shape() && t.rsb.Length == 256 && t.fsb.Length == 256 && t.rcon.Length == 10 && Undoes(t.rsb[..])
  {}

  /** The S-box on four bytes, by the table. */
  lemma BoxAt(t: Tables, a: bv8, b: bv8, c: bv8, d: bv8)
    requires t.Good()
    ensures t.fsb.Length == 256 && Word(t.fsb[Idx(a)], t.fsb[Idx(b)], t.fsb[Idx(c)], t.fsb[Idx(d)])
      == Word(Sbox(a), Sbox(b), Sbox(c), Sbox(d))
  {
    hide Sbox, Idx;
  }

  /** One column of a round: four lookups folded into the round key. */
  method ForwardColumn(t: Tables, k: Word, b0: bv8, b1: bv8, b2: bv8, b3: bv8) returns (x: Word)
    requires t.Good()
    ensures x == Xor(Mix(Word(Sbox(b0), Sbox(b1), Sbox(b2), Sbox(b3))), k)
  {
    hide Xor, Rotl8, Forward0, Sbox, Mix, Idx, Reverse0, Rcon;
    assert t.ForwardEntry(Idx(b0)) && t.ForwardEntry(Idx(b1)) && t.ForwardEntry(Idx(b2)) && t.ForwardEntry(Idx(b3));
    x := Xor(Xor(Xor(Xor(k, t.ft0[Idx(b0)]), t.ft1[Idx(b1)]), t.ft2[Idx(b2)]), t.ft3[Idx(b3)]);
    XorChain(k, t.ft0[Idx(b0)], t.ft1[Idx(b1)], t.ft2[Idx(b2)], t.ft3[Idx(b3)]);
    MixByTables(Word(Sbox(b0), Sbox(b1), Sbox(b2), Sbox(b3)));
  }

  method ReverseColumn(t: Tables, k: Word, b0: bv8, b1: bv8, b2: bv8, b3: bv8) returns (x: Word)
    requires t.Good()
    ensures x == Xor(InvMix(Word(t.rsb[..][Idx(b0)], t.rsb[..][Idx(b1)], t.rsb[..][Idx(b2)], t.rsb[..][Idx(b3)])), k)
  {
    hide Xor, Rotl8, Forward0, Sbox, InvMix, Idx, Reverse0, Rcon;
    assert t.ReverseEntry(Idx(b0)) && t.ReverseEntry(Idx(b1)) && t.ReverseEntry(Idx(b2)) && t.ReverseEntry(Idx(b3));
    x := Xor(Xor(Xor(Xor(k, t.rt0[Idx(b0)]), t.rt1[Idx(b1)]), t.rt2[Idx(b2)]), t.rt3[Idx(b3)]);
    XorChain(k, t.rt0[Idx(b0)], t.rt1[Idx(b1)], t.rt2[Idx(b2)], t.rt3[Idx(b3)]);
    InvMixByTables(Word(t.rsb[Idx(b0)], t.rsb[Idx(b1)], t.rsb[Idx(b2)], t.rsb[Idx(b3)]));
  }

  /** AES_FROUND with the round key at index k. */
  method ForwardRound(t: Tables, rk: array<Word>, k: nat, y: State) returns (x: State)
    requires t.Good() && k % 4 == 0 && k + 4 <= rk.Length
    ensures x == AddKey(MixColumns(SubShift(y)), RoundKey(rk[..], k / 4))
  {
    hide *;
    KeyAt(rk[..], k);
    var x0 := ForwardColumn(t, rk[k], y.c0.b0, y.c1.b1, y.c2.b2, y.c3.b3);
    var x1 := ForwardColumn(t, rk[k + 1], y.c1.b0, y.c2.b1, y.c3.b2, y.c0.b3);
    var x2 := ForwardColumn(t, rk[k + 2], y.c2.b0, y.c3.b1, y.c0.b2, y.c1.b3);
    var x3 := ForwardColumn(t, rk[k + 3], y.c3.b0, y.c0.b1, y.c1.b2, y.c2.b3);
    x := State(x0, x1, x2, x3);
    ForwardParts(y, RoundKey(rk[..], k / 4), x);
  }

  lemma KeyAt(rk: seq<Word>, k: nat)
    requires k % 4 == 0 && k + 4 <= |rk|
    ensures 0 <= k / 4 && 4 * (k / 4) + 4 <= |rk|
    ensures RoundKey(rk, k / 4) == State(rk[k], rk[k + 1], rk[k + 2], rk[k + 3])
  {}

  /** A round, column by column. */
  lemma ForwardParts(y: State, k: State, x: State)
    requires x.c0 == Xor(Mix(Word(Sbox(y.c0.b0), Sbox(y.c1.b1), Sbox(y.c2.b2), Sbox(y.c3.b3))), k.c0)
    requires x.c1 == Xor(Mix(Word(Sbox(y.c1.b0), Sbox(y.c2.b1), Sbox(y.c3.b2), Sbox(y.c0.b3))), k.c1)
    requires x.c2 == Xor(Mix(Word(Sbox(y.c2.b0), Sbox(y.c3.b1), Sbox(y.c0.b2), Sbox(y.c1.b3))), k.c2)
    requires x.c3 == Xor(Mix(Word(Sbox(y.c3.b0), Sbox(y.c0.b1), Sbox(y.c1.b2), Sbox(y.c2.b3))), k.c3)
    ensures x == AddKey(MixColumns(SubShift(y)), k)
  {
    hide Xor, Sbox, Mix;
  }

  lemma ReverseParts(r: seq<bv8>, y: State, k: State, x: State)
    requires |r| == 256
    requires x.c0 == Xor(InvMix(Word(r[Idx(y.c0.b0)], r[Idx(y.c3.b1)], r[Idx(y.c2.b2)], r[Idx(y.c1.b3)])), k.c0)
    requires x.c1 == Xor(InvMix(Word(r[Idx(y.c1.b0)], r[Idx(y.c0.b1)], r[Idx(y.c3.b2)], r[Idx(y.c2.b3)])), k.c1)
    requires x.c2 == Xor(InvMix(Word(r[Idx(y.c2.b0)], r[Idx(y.c1.b1)], r[Idx(y.c0.b2)], r[Idx(y.c3.b3)])), k.c2)
    requires x.c3 == Xor(InvMix(Word(r[Idx(y.c3.b0)], r[Idx(y.c2.b1)], r[Idx(y.c1.b2)], r[Idx(y.c0.b3)])), k.c3)
    ensures x == AddKey(InvMixColumns(InvSubShift(r, y)), k)
  {
    hide Xor, Idx, InvMix;
  }

  /** AES_RROUND. */
  method ReverseRound(t: Tables, rk: array<Word>, k: nat, y: State) returns (x: State)
    requires t.Good() && k % 4 == 0 && k + 4 <= rk.Length
    ensures x == AddKey(InvMixColumns(InvSubShift(t.rsb[..], y)), RoundKey(rk[..], k / 4))
  {
    hide *;
    GoodShape(t);
    KeyAt(rk[..], k);
    var x0 := ReverseColumn(t, rk[k], y.c0.b0, y.c3.b1, y.c2.b2, y.c1.b3);
    var x1 := ReverseColumn(t, rk[k + 1], y.c1.b0, y.c0.b1, y.c3.b2, y.c2.b3);
    var x2 := ReverseColumn(t, rk[k + 2], y.c2.b0, y.c1.b1, y.c0.b2, y.c3.b3);
    var x3 := ReverseColumn(t, rk[k + 3], y.c3.b0, y.c2.b1, y.c1.b2, y.c0.b3);
    x := State(x0, x1, x2, x3);
    ReverseParts(t.rsb[..], y, RoundKey(rk[..], k / 4), x);
  }

  // ---------- blocks ----------

  type Block16 = Blocks.Block16

  function Load(b: Block16): State {
    State(Word(b[0], b[1], b[2], b[3]), Word(b[4], b[5], b[6], b[7]),
          Word(b[8], b[9], b[10], b[11]), Word(b[12], b[13], b[14], b[15]))
  }

  function Store(s: State): Block16 {
    [s.c0.b0, s.c0.b1, s.c0.b2, s.c0.b3, s.c1.b0, s.c1.b1, s.c1.b2, s.c1.b3,
     s.c2.b0, s.c2.b1, s.c2.b2, s.c2.b3, s.c3.b0, s.c3.b1, s.c3.b2, s.c3.b3]
  }

  lemma LoadStore(s: State, b: Block16)
    ensures Load(Store(s)) == s && Store(Load(b)) == b
  {}

  /** The encryption and decryption of a block as functions of the schedules. */
  ghost function EncryptBytes(k: seq<Word>, nr: nat, b: Block16): Block16
    requires nr > 0 && 4 * nr + 4 <= |k|
  {
    Store(Cipher(k, nr, Load(b)))
  }

  function DecryptBytes(r: seq<bv8>, d: seq<Word>, nr: nat, b: Block16): Block16
    requires |r| == 256 && nr > 0 && 4 * nr + 4 <= |d|
  {
    Store(InvCipher(r, d, nr, Load(b)))
  }

  method InternalEncrypt(t: Tables, rk: array<Word>, nr: nat, input: Block16) returns (output: Block16)
    requires t.Good() && nr in {10, 12, 14} && 4 * nr + 4 <= rk.Length
    ensures output == EncryptBytes(rk[..], nr, input)
  {
    hide *;
    RoundsUnfold(rk[..], Load(input));
    var x := AddKey(Load(input), RoundKey(rk[..], 0));
    var k := 4;
    var i := nr / 2 - 1;
    while i > 0
      invariant 0 <= i <= nr / 2 - 1 && k == 4 * (nr - 1 - 2 * i) && x == Rounds(rk[..], Load(input), nr - 2 - 2 * i)
    {
      var y := ForwardRound(t, rk, k, x);
      k := k + 4;
      x := ForwardRound(t, rk, k, y);
      k := k + 4;
      i := i - 1;
    }
    var y := ForwardRound(t, rk, k, x);
    k := k + 4;
    x := LastForward(t, rk, k, y);
    output := Store(x);
    EncryptIs(rk[..], nr, input);
  }

  lemma RoundsUnfold(k: seq<Word>, p: State)
    requires |k| >= 4
    ensures Rounds(k, p, 0) == AddKey(p, RoundKey(k, 0))
    ensures forall r: nat :: 0 < r && 4 * r + 4 <= |k| ==>
      Rounds(k, p, r) == AddKey(MixColumns(SubShift(Rounds(k, p, r - 1))), RoundKey(k, r))
  {
    hide AddKey, MixColumns, SubShift, RoundKey;
  }

  lemma InvRoundsUnfold(t: seq<bv8>, d: seq<Word>, c: State)
    requires |t| == 256 && |d| >= 4
    ensures InvRounds(t, d, c, 0) == AddKey(c, RoundKey(d, 0))
    ensures forall r: nat :: 0 < r && 4 * r + 4 <= |d| ==>
      InvRounds(t, d, c, r) == AddKey(InvMixColumns(InvSubShift(t, InvRounds(t, d, c, r - 1))), RoundKey(d, r))
  {
    hide AddKey, InvMixColumns, InvSubShift, RoundKey;
  }

  lemma EncryptIs(k: seq<Word>, nr: nat, b: Block16)
    requires nr > 0 && 4 * nr + 4 <= |k|
    ensures EncryptBytes(k, nr, b) == Store(AddKey(SubShift(Rounds(k, Load(b), nr - 1)), RoundKey(k, nr)))
  {
    hide AddKey, SubShift, Rounds, RoundKey, Load, Store;
  }

  lemma DecryptIs(r: seq<bv8>, d: seq<Word>, nr: nat, b: Block16)
    requires |r| == 256 && nr > 0 && 4 * nr + 4 <= |d|
    ensures DecryptBytes(r, d, nr, b)
      == Store(AddKey(InvSubShift(r, InvRounds(r, d, Load(b), nr - 1)), RoundKey(d, nr)))
  {
    hide AddKey, InvSubShift, InvRounds, RoundKey, Load, Store;
  }

  /** The last round: no MixColumns. */
  method LastForward(t: Tables, rk: array<Word>, k: nat, y: State) returns (x: State)
    requires t.Good() && k % 4 == 0 && k + 4 <= rk.Length
    ensures x == AddKey(SubShift(y), RoundKey(rk[..], k / 4))
  {
    hide *;
    GoodShape(t);
    KeyAt(rk[..], k);
    BoxAt(t, y.c0.b0, y.c1.b1, y.c2.b2, y.c3.b3);
    BoxAt(t, y.c1.b0, y.c2.b1, y.c3.b2, y.c0.b3);
    BoxAt(t, y.c2.b0, y.c3.b1, y.c0.b2, y.c1.b3);
    BoxAt(t, y.c3.b0, y.c0.b1, y.c1.b2, y.c2.b3);
    SubShiftIs(y);
    x := State(
      Xor(rk[k], Word(t.fsb[Idx(y.c0.b0)], t.fsb[Idx(y.c1.b1)], t.fsb[Idx(y.c2.b2)], t.fsb[Idx(y.c3.b3)])),
      Xor(rk[k + 1], Word(t.fsb[Idx(y.c1.b0)], t.fsb[Idx(y.c2.b1)], t.fsb[Idx(y.c3.b2)], t.fsb[Idx(y.c0.b3)])),
      Xor(rk[k + 2], Word(t.fsb[Idx(y.c2.b0)], t.fsb[Idx(y.c3.b1)], t.fsb[Idx(y.c0.b2)], t.fsb[Idx(y.c1.b3)])),
      Xor(rk[k + 3], Word(t.fsb[Idx(y.c3.b0)], t.fsb[Idx(y.c0.b1)], t.fsb[Idx(y.c1.b2)], t.fsb[Idx(y.c2.b3)])));
    KeyFirst(SubShift(y), RoundKey(rk[..], k / 4));
  }

  lemma SubShiftIs(s: State)
    ensures SubShift(s).c0 == Word(Sbox(s.c0.b0), Sbox(s.c1.b1), Sbox(s.c2.b2), Sbox(s.c3.b3))
    ensures SubShift(s).c1 == Word(Sbox(s.c1.b0), Sbox(s.c2.b1), Sbox(s.c3.b2), Sbox(s.c0.b3))
    ensures SubShift(s).c2 == Word(Sbox(s.c2.b0), Sbox(s.c3.b1), Sbox(s.c0.b2), Sbox(s.c1.b3))
    ensures SubShift(s).c3 == Word(Sbox(s.c3.b0), Sbox(s.c0.b1), Sbox(s.c1.b2), Sbox(s.c2.b3))
  {
    hide Sbox;
  }

  lemma InvSubShiftIs(r: seq<bv8>, s: State)
    requires |r| == 256
    ensures InvSubShift(r, s).c0 == Word(r[Idx(s.c0.b0)], r[Idx(s.c3.b1)], r[Idx(s.c2.b2)], r[Idx(s.c1.b3)])
    ensures InvSubShift(r, s).c1 == Word(r[Idx(s.c1.b0)], r[Idx(s.c0.b1)], r[Idx(s.c3.b2)], r[Idx(s.c2.b3)])
    ensures InvSubShift(r, s).c2 == Word(r[Idx(s.c2.b0)], r[Idx(s.c1.b1)], r[Idx(s.c0.b2)], r[Idx(s.c3.b3)])
    ensures InvSubShift(r, s).c3 == Word(r[Idx(s.c3.b0)], r[Idx(s.c2.b1)], r[Idx(s.c1.b2)], r[Idx(s.c0.b3)])
  {
    hide Idx;
  }

  lemma KeyFirst(s: State, k: State)
    ensures State(Xor(k.c0, s.c0), Xor(k.c1, s.c1), Xor(k.c2, s.c2), Xor(k.c3, s.c3)) == AddKey(s, k)
  {
    hide Xor;
    XorLaws(s.c0, k.c0, k.c0);
    XorLaws(s.c1, k.c1, k.c1);
    XorLaws(s.c2, k.c2, k.c2);
    XorLaws(s.c3, k.c3, k.c3);
  }

  method InternalDecrypt(t: Tables, rk: array<Word>, nr: nat, input: Block16) returns (output: Block16)
    requires t.Good() && nr in {10, 12, 14} && 4 * nr + 4 <= rk.Length
    ensures output == DecryptBytes(t.rsb[..], rk[..], nr, input)
  {
    hide *;
    GoodShape(t);
    InvRoundsUnfold(t.rsb[..], rk[..], Load(input));
    var x := AddKey(Load(input), RoundKey(rk[..], 0));
    var k := 4;
    var i := nr / 2 - 1;
    while i > 0
      invariant 0 <= i <= nr / 2 - 1 && k == 4 * (nr - 1 - 2 * i)
      invariant x == InvRounds(t.rsb[..], rk[..], Load(input), nr - 2 - 2 * i)
    {
      var y := ReverseRound(t, rk, k, x);
      k := k + 4;
      x := ReverseRound(t, rk, k, y);
      k := k + 4;
      i := i - 1;
    }
    var y := ReverseRound(t, rk, k, x);
    k := k + 4;
    x := LastReverse(t, rk, k, y);
    output := Store(x);
    DecryptIs(t.rsb[..], rk[..], nr, input);
  }

  method LastReverse(t: Tables, rk: array<Word>, k: nat, y: State) returns (x: State)
    requires t.Good() && k % 4 == 0 && k + 4 <= rk.Length
    ensures x == AddKey(InvSubShift(t.rsb[..], y), RoundKey(rk[..], k / 4))
  {
    hide *;
    GoodShape(t);
    KeyAt(rk[..], k);
    InvSubShiftIs(t.rsb[..], y);
    x := State(
      Xor(rk[k], Word(t.rsb[Idx(y.c0.b0)], t.rsb[Idx(y.c3.b1)], t.rsb[Idx(y.c2.b2)], t.rsb[Idx(y.c1.b3)])),
      Xor(rk[k + 1], Word(t.rsb[Idx(y.c1.b0)], t.rsb[Idx(y.c0.b1)], t.rsb[Idx(y.c3.b2)], t.rsb[Idx(y.c2.b3)])),
      Xor(rk[k + 2], Word(t.rsb[Idx(y.c2.b0)], t.rsb[Idx(y.c1.b1)], t.rsb[Idx(y.c0.b2)], t.rsb[Idx(y.c3.b3)])),
      Xor(rk[k + 3], Word(t.rsb[Idx(y.c3.b0)], t.rsb[Idx(y.c2.b1)], t.rsb[Idx(y.c1.b2)], t.rsb[Idx(y.c0.b3)])));
    KeyFirst(InvSubShift(t.rsb[..], y), RoundKey(rk[..], k / 4));
  }
}
