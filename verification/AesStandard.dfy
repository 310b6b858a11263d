/** The tables, words and schedules of aes.c compute the cipher of FIPS 197. */
module AesStandard {
  import opened Gf256
  import opened AesTables
  import opened Aes
  import opened AesBlock
  import opened AesKeys
  import Fips197

  /** The byte of a column in row r. */
  function Row(w: Word, r: nat): bv8
    requires r < 4
  {
    if r == 0 then w.b0 else if r == 1 then w.b1 else if r == 2 then w.b2 else w.b3
  }

  function Column(s: State, c: nat): Word
    requires c < 4
  {
    if c == 0 then s.c0 else if c == 1 then s.c1 else if c == 2 then s.c2 else s.c3
  }

  /** Byte k of a list of words: byte k % 4 of word k / 4, lowest byte first. */
  function ByteOf(w: seq<Word>, k: nat): bv8
    requires k / 4 < |w|
  {
    Row(w[k / 4], k % 4)
  }

  /** Section 3.4 of FIPS 197: byte 4 c + r of a block is the one in row r of column c. */
  lemma LoadPlaces(b: Block16, c: nat, r: nat)
    requires c < 4 && r < 4
    ensures Row(Column(Load(b), c), r) == b[4 * c + r]
  {
    if c == 0 {
    } else if c == 1 {
    } else if c == 2 {
    } else {
    }
  }

  lemma StorePlaces(s: State, c: nat, r: nat)
    requires c < 4 && r < 4
    ensures Store(s)[4 * c + r] == Row(Column(s, c), r)
  {
    hide Store;
    LoadStore(s, Store(s));
    LoadPlaces(Store(s), c, r);
  }

  // ---------- the key schedule ----------

  lemma RconIs(i: nat)
    requires i < 10
    ensures Rcon(i) == Fips197.RoundConstants[i]
  {
    assert Rcon(1) == 0x02 && Rcon(2) == 0x04 && Rcon(3) == 0x08;
    assert Rcon(4) == 0x10 && Rcon(5) == 0x20 && Rcon(6) == 0x40;
    assert Rcon(7) == 0x80 && Rcon(8) == 0x1B && Rcon(9) == 0x36;
  }

  /** The bytes of the word that is added. */
  lemma TempBytes(w: seq<Word>, nk: nat, i: nat, j: nat)
    requires 0 < nk <= i < |w| && 1 <= i / nk <= 10 && j < 4
    ensures Row(Temp(w, nk, i), j)
      == Fips197.Temp(nk, i, j, ByteOf(w, 4 * (i - 1) + j), ByteOf(w, 4 * (i - 1) + (j + 1) % 4))
  {
    hide Add, Sbox, Rcon;
    assert (4 * (i - 1) + j) / 4 == i - 1 && (4 * (i - 1) + j) % 4 == j;
    assert (4 * (i - 1) + (j + 1) % 4) / 4 == i - 1 && (4 * (i - 1) + (j + 1) % 4) % 4 == (j + 1) % 4;
    AddZero(Sbox(Row(w[i - 1], (j + 1) % 4)));
    if i % nk == 0 { RconIs(i / nk - 1); }
  }

  lemma AddZero(b: bv8)
    ensures Add(b, 0) == b
  {}

  /** One byte of the recurrence. */
  lemma NextByte(w: seq<Word>, nk: nat, k: nat)
    requires 0 < nk <= k / 4 < |w| && w[k / 4] == Xor(w[k / 4 - nk], Temp(w, nk, k / 4))
    ensures var t := Temp(w, nk, k / 4);
            ByteOf(w, k) == Add(ByteOf(w, k - 4 * nk), Row(t, k % 4))
  {
    hide Add, Temp;
    assert (k - 4 * nk) / 4 == k / 4 - nk && (k - 4 * nk) % 4 == k % 4;
  }

  lemma FirstBytes(w: seq<Word>, key: Bytes, k: nat)
    requires StartsWithKey(w, key) && k < |key|
    ensures ByteOf(w, k) == key[k]
  {
    assert w[k / 4] == KeyWord(key, k / 4);
    assert k == 4 * (k / 4) + k % 4;
  }

  lemma ScheduleShape(w: seq<Word>, key: Bytes, nr: nat, i: nat)
    requires Schedule(w, key, nr) && i < 4 * (nr + 1)
    ensures Fips197.IsKey(key) && nr == Fips197.Rounds(key) && i < |w| && StartsWithKey(w, key)
    ensures var nk := |key| / 4;
            nk in {4, 6, 8} && 4 * nk == |key| && (i >= nk ==> 1 <= i / nk <= 10)
            && (i >= nk ==> w[i] == Xor(w[i - nk], Temp(w, nk, i)))
  {
    hide Xor, Temp, StartsWithKey;
  }

  /** Every byte of the schedule is the one that the standard derives from the key. */
  lemma {:induction false} ScheduleBytes(w: seq<Word>, key: Bytes, nr: nat, k: nat)
    requires Schedule(w, key, nr) && k < 16 * (nr + 1)
    ensures nr == Fips197.Rounds(key) && Fips197.IsKey(key) && k / 4 < |w|
    ensures ByteOf(w, k) == Fips197.KeyByte(key, k)
    decreases k
  {
    hide Add, Sbox, Rcon, Temp, Xor, Schedule, StartsWithKey, ByteOf, Fips197.Temp;
    var nk, i, j := |key| / 4, k / 4, k % 4;
    ScheduleShape(w, key, nr, i);
    if k < |key| {
      FirstBytes(w, key, k);
    } else {
      NextByte(w, nk, k);
      TempBytes(w, nk, i, j);
      ScheduleBytes(w, key, nr, k - |key|);
      ScheduleBytes(w, key, nr, 4 * (i - 1) + j);
      ScheduleBytes(w, key, nr, 4 * (i - 1) + (j + 1) % 4);
    }
  }

  // ---------- the rounds ----------

  lemma SameBlock(x: Block16, y: Block16)
    requires x[0] == y[0] && x[1] == y[1] && x[2] == y[2] && x[3] == y[3]
    requires x[4] == y[4] && x[5] == y[5] && x[6] == y[6] && x[7] == y[7]
    requires x[8] == y[8] && x[9] == y[9] && x[10] == y[10] && x[11] == y[11]
    requires x[12] == y[12] && x[13] == y[13] && x[14] == y[14] && x[15] == y[15]
    ensures x == y
  {}

  lemma ShiftedPlaces(s: Block16)
    ensures var r := Fips197.ShiftRows(s);
            r[0] == s[0] && r[1] == s[5] && r[2] == s[10] && r[3] == s[15]
            && r[4] == s[4] && r[5] == s[9] && r[6] == s[14] && r[7] == s[3]
            && r[8] == s[8] && r[9] == s[13] && r[10] == s[2] && r[11] == s[7]
            && r[12] == s[12] && r[13] == s[1] && r[14] == s[6] && r[15] == s[11]
  {}

  lemma StoreSubShift(s: State)
    ensures Store(SubShift(s)) == Fips197.ShiftRows(Fips197.SubBytes(Store(s)))
  {
    hide Sbox, Fips197.ShiftRows, Fips197.SubBytes;
    ShiftedPlaces(Fips197.SubBytes(Store(s)));
    SameBlock(Store(SubShift(s)), Fips197.ShiftRows(Fips197.SubBytes(Store(s))));
  }

  lemma StoreAddKey(s: State, w: seq<Word>, key: Bytes, nr: nat, r: nat)
    requires Schedule(w, key, nr) && r <= nr
    ensures nr == Fips197.Rounds(key) && Fips197.IsKey(key) && 4 * r + 4 <= |w|
    ensures Store(AddKey(s, RoundKey(w, r))) == Fips197.AddRoundKey(Store(s), key, r)
  {
    hide Add, Schedule, AddKey, RoundKey, Store, ByteOf, Fips197.KeyByte, Fips197.AddRoundKey;
    ScheduleShape(w, key, nr, 4 * r + 3);
    var x, y := Store(AddKey(s, RoundKey(w, r))), Fips197.AddRoundKey(Store(s), key, r);
    forall k | 0 <= k < 16 ensures x[k] == y[k] {
      ScheduleBytes(w, key, nr, 16 * r + k);
      SumByte(s, w, r, k);
    }
  }

  lemma SumByte(s: State, w: seq<Word>, r: nat, k: nat)
    requires 4 * r + 4 <= |w| && k < 16
    ensures (16 * r + k) / 4 < |w|
    ensures Store(AddKey(s, RoundKey(w, r)))[k] == Add(Store(s)[k], ByteOf(w, 16 * r + k))
  {
    hide Add, Store;
    var c, i := k / 4, k % 4;
    assert k == 4 * c + i && (16 * r + k) / 4 == 4 * r + c && (16 * r + k) % 4 == i;
    StorePlaces(AddKey(s, RoundKey(w, r)), c, i);
    StorePlaces(s, c, i);
    SumPlace(s, RoundKey(w, r), c, i);
    assert Column(RoundKey(w, r), c) == w[4 * r + c];
  }

  lemma SumPlace(s: State, k: State, c: nat, i: nat)
    requires c < 4 && i < 4
    ensures Row(Column(AddKey(s, k), c), i) == Add(Row(Column(s, c), i), Row(Column(k, c), i))
  {
    hide Add;
  }

  lemma StoreMix(s: State)
    ensures Store(MixColumns(s)) == Fips197.MixColumns(Store(s))
  {
    hide Store, MixColumns, Fips197.MixColumns;
    forall k | 0 <= k < 16 ensures Store(MixColumns(s))[k] == Fips197.MixColumns(Store(s))[k] {
      StoreMixAt(s, k);
    }
  }

  lemma StoreMixAt(s: State, k: nat)
    requires k < 16
    ensures Store(MixColumns(s))[k] == Fips197.MixColumns(Store(s))[k]
  {
    hide *;
    var c, i := k / 4, k % 4;
    assert k == 4 * c + i;
    StorePlaces(MixColumns(s), c, i);
    MixedColumn(s, c);
    ColumnBytes(s, c);
    MixedByte(Store(s), k, Column(s, c));
  }

  lemma MixedColumn(s: State, c: nat)
    requires c < 4
    ensures Column(MixColumns(s), c) == Mix(Column(s, c))
  {
    hide Mix;
  }

  lemma ColumnBytes(s: State, c: nat)
    requires c < 4
    ensures var b := Store(s); Column(s, c) == Word(b[4 * c], b[4 * c + 1], b[4 * c + 2], b[4 * c + 3])
  {
    hide Store, Column;
    StorePlaces(s, c, 0);
    StorePlaces(s, c, 1);
    StorePlaces(s, c, 2);
    StorePlaces(s, c, 3);
  }

  /** A row of the product, by the coefficients. */
  lemma MixedByte(b: Block16, k: nat, w: Word)
    requires k < 16
    requires var n := k / 4 * 4; w == Word(b[n], b[n + 1], b[n + 2], b[n + 3])
    ensures Fips197.MixColumns(b)[k] == Row(Mix(w), k % 4)
  {
    hide Add, Mul, Xtime, Mix, Fips197.Term;
    SmallMultiples(w.b0);
    SmallMultiples(w.b1);
    SmallMultiples(w.b2);
    SmallMultiples(w.b3);
    TermIs(b, k, w);
    MixRows(w, k % 4);
  }

  /** The coefficient in row i for the byte in row j: 2, 3, 1, 1, one further in each row. */
  function Coefficient(i: nat, j: nat): bv8 {
    if i == j then 2 else if (i + 1) % 4 == j then 3 else 1
  }

  lemma TermIs(b: Block16, k: nat, w: Word)
    requires k < 16
    requires var n := k / 4 * 4; w == Word(b[n], b[n + 1], b[n + 2], b[n + 3])
    ensures forall j :: 0 <= j < 4 ==> Fips197.Term(b, k, j) == Mul(Coefficient(k % 4, j), Row(w, j))
  {
    hide Mul;
    var n, i := k / 4 * 4, k % 4;
    forall j | 0 <= j < 4 ensures Fips197.Term(b, k, j) == Mul(Coefficient(i, j), Row(w, j)) {
      assert Fips197.MixCoefficients[(j + 4 - i) % 4] == Coefficient(i, j);
      assert b[n + j] == Row(w, j);
    }
  }

  lemma MixRows(w: Word, i: nat)
    requires i < 4
    ensures Row(Mix(w), i)
      == Add(Add(Add(Mul(Coefficient(i, 0), w.b0), Mul(Coefficient(i, 1), w.b1)),
                 Mul(Coefficient(i, 2), w.b2)), Mul(Coefficient(i, 3), w.b3))
  {
    hide Add, Mul, Xtime;
    SmallMultiples(w.b0);
    SmallMultiples(w.b1);
    SmallMultiples(w.b2);
    SmallMultiples(w.b3);
  }

  lemma SmallMultiples(b: bv8)
    ensures Mul(1, b) == b && Mul(2, b) == Xtime(b) && Mul(3, b) == Add(Xtime(b), b)
  {
    hide Add, Mul, Xtime;
    MulOne(b);
    Coefficients(b);
    assert Add(2, 1) == 3 by { TwoAndOne(); }
    MulLinear(2, 1, b, b);
  }

  lemma TwoAndOne()
    ensures Add(2, 1) == 3
  {}

  lemma {:induction false} RoundsAreStandard(w: seq<Word>, key: Bytes, nr: nat, b: Block16, r: nat)
    requires Schedule(w, key, nr) && r <= nr
    ensures nr == Fips197.Rounds(key) && Store(Rounds(w, Load(b), r)) == Fips197.After(key, b, r)
    decreases r
  {
    hide AddKey, MixColumns, SubShift, RoundKey, Load, Store, Rounds, Fips197.After, Schedule;
    hide Fips197.AddRoundKey, Fips197.MixColumns, Fips197.ShiftRows, Fips197.SubBytes;
    ScheduleShape(w, key, nr, 4 * r + 3);
    LoadStore(Load(b), b);
    RoundsUnfold(w, Load(b));
    Fips197.AfterIs(key, b, r);
    if r == 0 {
      StoreAddKey(Load(b), w, key, nr, 0);
    } else {
      RoundsAreStandard(w, key, nr, b, r - 1);
      var s := Rounds(w, Load(b), r - 1);
      StoreSubShift(s);
      StoreMix(SubShift(s));
      StoreAddKey(MixColumns(SubShift(s)), w, key, nr, r);
    }
  }

  /** Encryption under the schedule of a key is AES under the key. */
  lemma EncryptIsStandard(w: seq<Word>, key: Bytes, nr: nat, b: Block16)
    requires Schedule(w, key, nr)
    ensures Fips197.IsKey(key) && EncryptBytes(w, nr, b) == Fips197.Encrypt(key, b)
  {
    hide AddKey, SubShift, RoundKey, Load, Store, Rounds, Schedule, Fips197.After;
    hide Fips197.AddRoundKey, Fips197.ShiftRows, Fips197.SubBytes;
    ScheduleShape(w, key, nr, 4 * nr + 3);
    RoundsAreStandard(w, key, nr, b, nr - 1);
    var s := Rounds(w, Load(b), nr - 1);
    StoreSubShift(s);
    StoreAddKey(SubShift(s), w, key, nr, nr);
    EncryptIs(w, nr, b);
  }

  /** Key setup and encryption of one block, for the three key sizes. */
  method EncryptWithKey(t: Tables, key: Bytes, input: Block16) returns (output: Block16)
    requires t.Good() && Fips197.IsKey(key)
    ensures output == Fips197.Encrypt(key, input)
  {
    hide t.Good, Schedule, InvCipher, Cipher, Load, Store, Fips197.Encrypt, EncryptBytes;
    var rk := new Word[68](_ => Word(0, 0, 0, 0));
    var nr := SetKeyEnc(t, rk, key, 8 * |key|);
    EncryptIsStandard(rk[..], key, nr, input);
    output := InternalEncrypt(t, rk, nr, input);
  }

  /** The other way: whatever block encrypts to the input comes out. */
  method DecryptWithKey(t: Tables, key: Bytes, input: Block16) returns (output: Block16)
    requires t.Good() && Fips197.IsKey(key)
    ensures forall p: Block16 :: Fips197.Encrypt(key, p) == input ==> output == p
  {
    hide t.Good, Schedule, Inverted, Undoes, InvCipher, Cipher, Load, Store;
    hide Fips197.Encrypt, EncryptBytes, DecryptBytes;
    var rk := new Word[68](_ => Word(0, 0, 0, 0));
    var nr, k := SetKeyDec(t, rk, key, 8 * |key|);
    ScheduleShape(k, key, nr, 0);
    GoodShape(t);
    output := InternalDecrypt(t, rk, nr, input);
    forall p: Block16 | Fips197.Encrypt(key, p) == input ensures output == p {
      EncryptIsStandard(k, key, nr, p);
      DecryptUndoesEncrypt(t.rsb[..], key, nr, k, k, rk[..], p);
    }
  }
}
