/** The AES key schedules: expansion for encryption, and its inversion for decryption. */
module AesKeys {
  import opened AesTables
  import opened Aes
  import opened AesBlock
  import Blocks

  // ---------- section 5.2 of FIPS 197 ----------

  /** SubWord of the rotated word. */
  ghost function SubRot(w: Word): Word { SubWord(Word(w.b1, w.b2, w.b3, w.b0)) }

  /** What word i is the sum of, besides the word one key length before. */
  ghost function Temp(w: seq<Word>, nk: nat, i: nat): Word
    requires 0 < nk <= i < |w|
  {
    if i % nk == 0 then Xor(SubRot(w[i - 1]), Word(Rcon(i / nk - 1), 0, 0, 0))
    else if nk > 6 && i % nk == 4 then SubWord(w[i - 1])
    else w[i - 1]
  }

  /** The words below n follow from the nk words of the key. */
  ghost predicate Expanded(w: seq<Word>, nk: nat, n: nat) {
    0 < nk && n <= |w| && forall i :: nk <= i < n ==> w[i] == Xor(w[i - nk], Temp(w, nk, i))
  }

  /** The words of the key itself. */
  function KeyWord(key: Bytes, i: nat): Word
    requires 4 * i + 4 <= |key|
  {
    Word(key[4 * i], key[4 * i + 1], key[4 * i + 2], key[4 * i + 3])
  }

  ghost predicate StartsWithKey(w: seq<Word>, key: Bytes) {
    |key| % 4 == 0 && |key| / 4 <= |w| && forall i :: 0 <= i < |key| / 4 ==> w[i] == KeyWord(key, i)
  }

  lemma ExpandedMore(w: seq<Word>, nk: nat, n: nat, v: Word)
    requires Expanded(w, nk, n) && nk <= n < |w| && v == Xor(w[n - nk], Temp(w, nk, n))
    ensures Expanded(w[n := v], nk, n + 1)
  {
    hide Xor, SubWord, Rcon;
    var w' := w[n := v];
    forall i | nk <= i < n + 1 ensures w'[i] == Xor(w'[i - nk], Temp(w', nk, i)) {
      assert Temp(w', nk, i) == Temp(w, nk, i);
    }
  }

  // ---------- the code ----------

  /** Append one word to the schedule. */
  method Append(rk: array<Word>, nk: nat, n: nat, v: Word, ghost key: Bytes)
    requires Expanded(rk[..], nk, n) && nk <= n < rk.Length && v == Xor(rk[n - nk], Temp(rk[..], nk, n))
    requires StartsWithKey(rk[..], key) && |key| == 4 * nk
    modifies rk
    ensures Expanded(rk[..], nk, n + 1) && StartsWithKey(rk[..], key) && rk[n] == v
    ensures forall i :: 0 <= i < n ==> rk[i] == old(rk[i])
  {
    hide Xor, Temp, Expanded, KeyWord;
    ghost var w := rk[..];
    ExpandedMore(w, nk, n, v);
    rk[n] := v;
    assert rk[..] == w[n := v];
  }

  /** The word that starts a new key length: rotated, substituted, with the round constant. */
  method CoreWord(t: Tables, prev: Word, last: Word, i: nat) returns (v: Word)
    requires t.Good() && i < 10
    ensures v == Xor(prev, Xor(SubRot(last), Word(Rcon(i), 0, 0, 0)))
  {
    hide *;
    GoodShape(t);
    RconAt(t, i);
    BoxAt(t, last.b1, last.b2, last.b3, last.b0);
    SubRotIs(last);
    var c := Word(t.rcon[i], 0, 0, 0);
    var s := Word(t.fsb[Idx(last.b1)], t.fsb[Idx(last.b2)], t.fsb[Idx(last.b3)], t.fsb[Idx(last.b0)]);
    v := Xor(Xor(prev, c), s);
    XorLaws(prev, c, s);
    XorLaws(c, s, s);
  }

  lemma SubRotIs(w: Word)
    ensures SubRot(w) == Word(Sbox(w.b1), Sbox(w.b2), Sbox(w.b3), Sbox(w.b0))
  {
    hide Sbox;
  }

  lemma RconAt(t: Tables, i: nat)
    requires t.Good() && i < 10
    ensures t.rcon.Length == 10 && t.rcon[i] == Rcon(i)
  {
    hide Rcon;
  }

  /** The schedule is not one of the tables. */
  predicate Apart(t: Tables, rk: array<Word>) {
    (rk as object) !in {t.fsb as object, t.rsb, t.rcon, t.ft0, t.ft1, t.ft2, t.ft3, t.rt0, t.rt1, t.rt2, t.rt3}
  }

  /** A word that is just added: the sum of the word before and the one a key length before. */
  method Plain(rk: array<Word>, nk: nat, n: nat, ghost key: Bytes)
    requires nk in {4, 6, 8} && n % nk != 0 && !(nk == 8 && n % 8 == 4)
    requires Expanded(rk[..], nk, n) && nk <= n < rk.Length
    requires StartsWithKey(rk[..], key) && |key| == 4 * nk
    modifies rk
    ensures Expanded(rk[..], nk, n + 1) && StartsWithKey(rk[..], key)
    ensures forall i :: 0 <= i < n ==> rk[i] == old(rk[i])
  {
    hide Xor, SubRot, SubWord, Rcon, Expanded, StartsWithKey;
    Append(rk, nk, n, Xor(rk[n - nk], rk[n - 1]), key);
  }

  /** The first word of a key length, at index n. */
  method Core(t: Tables, rk: array<Word>, nk: nat, n: nat, i: nat, ghost key: Bytes)
    requires t.Good() && Apart(t, rk) && i < 10 && nk in {4, 6, 8} && nk <= n < rk.Length
    requires n % nk == 0 && n / nk - 1 == i
    requires Expanded(rk[..], nk, n) && StartsWithKey(rk[..], key) && |key| == 4 * nk
    modifies rk
    ensures t.Good() && Expanded(rk[..], nk, n + 1) && StartsWithKey(rk[..], key)
  {
    hide Xor, SubRot, SubWord, Rcon, Expanded, StartsWithKey, t.Good;
    var v := CoreWord(t, rk[n - nk], rk[n - 1], i);
    Append(rk, nk, n, v, key);
  }

  /** The word in the middle of a 256-bit key length. */
  method Middle(t: Tables, rk: array<Word>, n: nat, ghost key: Bytes)
    requires t.Good() && Apart(t, rk) && 8 <= n < rk.Length && n % 8 == 4
    requires Expanded(rk[..], 8, n) && StartsWithKey(rk[..], key) && |key| == 32
    modifies rk
    ensures t.Good() && Expanded(rk[..], 8, n + 1) && StartsWithKey(rk[..], key)
  {
    hide Xor, SubRot, SubWord, Rcon, Expanded, StartsWithKey, t.Good, Idx, Sbox;
    var last := rk[n - 1];
    GoodShape(t);
    BoxAt(t, last.b0, last.b1, last.b2, last.b3);
    SubWordIs(last);
    var v := Xor(rk[n - 8], Word(t.fsb[Idx(last.b0)], t.fsb[Idx(last.b1)], t.fsb[Idx(last.b2)], t.fsb[Idx(last.b3)]));
    Append(rk, 8, n, v, key);
  }

  lemma SubWordIs(w: Word)
    ensures SubWord(w) == Word(Sbox(w.b0), Sbox(w.b1), Sbox(w.b2), Sbox(w.b3))
  {
    hide Sbox;
  }

  /** One round of the loop for 128-bit keys. */
  method Step128(t: Tables, rk: array<Word>, i: nat, ghost key: Bytes)
    requires t.Good() && Apart(t, rk) && i < 10 && rk.Length == 68 && Expanded(rk[..], 4, 4 * i + 4)
    requires StartsWithKey(rk[..], key) && |key| == 16
    modifies rk
    ensures t.Good() && Expanded(rk[..], 4, 4 * i + 8) && StartsWithKey(rk[..], key)
  {
    hide Expanded, StartsWithKey, t.Good;
    Core(t, rk, 4, 4 * i + 4, i, key);
    Plain(rk, 4, 4 * i + 5, key);
    Plain(rk, 4, 4 * i + 6, key);
    Plain(rk, 4, 4 * i + 7, key);
  }

  method Step192(t: Tables, rk: array<Word>, i: nat, ghost key: Bytes)
    requires t.Good() && Apart(t, rk) && i < 8 && rk.Length == 68 && Expanded(rk[..], 6, 6 * i + 6)
    requires StartsWithKey(rk[..], key) && |key| == 24
    modifies rk
    ensures t.Good() && Expanded(rk[..], 6, 6 * i + 12) && StartsWithKey(rk[..], key)
  {
    hide Expanded, StartsWithKey, t.Good;
    Core(t, rk, 6, 6 * i + 6, i, key);
    Plain(rk, 6, 6 * i + 7, key);
    Plain(rk, 6, 6 * i + 8, key);
    Plain(rk, 6, 6 * i + 9, key);
    Plain(rk, 6, 6 * i + 10, key);
    Plain(rk, 6, 6 * i + 11, key);
  }

  method Step256(t: Tables, rk: array<Word>, i: nat, ghost key: Bytes)
    requires t.Good() && Apart(t, rk) && i < 7 && rk.Length == 68 && Expanded(rk[..], 8, 8 * i + 8)
    requires StartsWithKey(rk[..], key) && |key| == 32
    modifies rk
    ensures t.Good() && Expanded(rk[..], 8, 8 * i + 16) && StartsWithKey(rk[..], key)
  {
    hide Expanded, StartsWithKey, t.Good;
    Core(t, rk, 8, 8 * i + 8, i, key);
    Plain(rk, 8, 8 * i + 9, key);
    Plain(rk, 8, 8 * i + 10, key);
    Plain(rk, 8, 8 * i + 11, key);
    Middle(t, rk, 8 * i + 12, key);
    Plain(rk, 8, 8 * i + 13, key);
    Plain(rk, 8, 8 * i + 14, key);
    Plain(rk, 8, 8 * i + 15, key);
  }

  /** Rounds for a key of the given number of bits, if there is such a key size. */
  function RoundsFor(keybits: nat): nat {
    if keybits == 128 then 10 else if keybits == 192 then 12 else if keybits == 256 then 14 else 0
  }

  /** The encryption schedule of a key. */
  ghost predicate Schedule(w: seq<Word>, key: Bytes, nr: nat) {
    |key| in {16, 24, 32} && nr == RoundsFor(8 * |key|) && 4 * nr + 4 <= |w|
    && StartsWithKey(w, key) && Expanded(w, |key| / 4, 4 * nr + 4)
  }

  /** mbedtls_aes_setkey_enc: nr and the schedule, or a refusal of the key size. */
  method SetKeyEnc(t: Tables, rk: array<Word>, key: Bytes, keybits: nat) returns (nr: nat)
    requires t.Good() && Apart(t, rk) && rk.Length == 68 && (RoundsFor(keybits) != 0 ==> |key| == keybits / 8)
    modifies rk
    ensures nr == RoundsFor(keybits) && t.Good()
    ensures nr != 0 ==> Schedule(rk[..], key, nr)
    ensures nr != 0 ==> forall i :: 0 <= i < |key| / 4 ==>
      rk[i] == Word(key[4 * i], key[4 * i + 1], key[4 * i + 2], key[4 * i + 3])
    ensures nr == 0 ==> rk[..] == old(rk[..])
  {
    hide Expanded, StartsWithKey, t.Good, KeyWord;
    nr := RoundsFor(keybits);
    if nr == 0 { return; }
    LoadKey(rk, key);
    if nr == 10 {
      for i := 0 to 10
        invariant t.Good() && StartsWithKey(rk[..], key) && Expanded(rk[..], 4, 4 * i + 4)
      {
        Step128(t, rk, i, key);
      }
    } else if nr == 12 {
      for i := 0 to 8
        invariant t.Good() && StartsWithKey(rk[..], key) && Expanded(rk[..], 6, 6 * i + 6)
      {
        Step192(t, rk, i, key);
      }
      ExpandedLess(rk[..], 6, 54, 52);
    } else {
      for i := 0 to 7
        invariant t.Good() && StartsWithKey(rk[..], key) && Expanded(rk[..], 8, 8 * i + 8)
      {
        Step256(t, rk, i, key);
      }
      ExpandedLess(rk[..], 8, 64, 60);
    }
    KeyInFront(rk[..], key);
  }

  lemma KeyInFront(w: seq<Word>, key: Bytes)
    requires StartsWithKey(w, key)
    ensures |key| / 4 <= |w| && forall i :: 0 <= i < |key| / 4 ==>
      w[i] == Word(key[4 * i], key[4 * i + 1], key[4 * i + 2], key[4 * i + 3])
  {}

  lemma ExpandedLess(w: seq<Word>, nk: nat, n: nat, m: nat)
    requires Expanded(w, nk, n) && m <= n
    ensures Expanded(w, nk, m)
  {
    hide Xor, Temp;
  }

  /** The words of the key. */
  method LoadKey(rk: array<Word>, key: Bytes)
    requires rk.Length == 68 && |key| in {16, 24, 32}
    modifies rk
    ensures StartsWithKey(rk[..], key) && Expanded(rk[..], |key| / 4, |key| / 4)
  {
    hide KeyWord, Xor, Temp;
    for i := 0 to |key| / 4
      invariant forall k :: 0 <= k < i ==> rk[k] == KeyWord(key, k)
    {
      rk[i] := KeyWord(key, i);
    }
  }

  // ---------- the decryption schedule ----------

  /** InvMixColumns of a word, by the reverse tables behind the S-box. */
  method InvMixWord(t: Tables, w: Word) returns (x: Word)
    requires t.Good()
    ensures x == InvMix(w)
  {
    hide Xor, Rotl8, Reverse0, Forward0, Sbox, InvMix, Idx, Rcon;
    var a, b, c, d := t.fsb[Idx(w.b0)], t.fsb[Idx(w.b1)], t.fsb[Idx(w.b2)], t.fsb[Idx(w.b3)];
    assert t.ReverseEntry(Idx(a)) && t.ReverseEntry(Idx(b)) && t.ReverseEntry(Idx(c)) && t.ReverseEntry(Idx(d));
    x := Xor(Xor(Xor(t.rt0[Idx(a)], t.rt1[Idx(b)]), t.rt2[Idx(c)]), t.rt3[Idx(d)]);
    InvMixByTables(w);
  }

  /** Copy one round key. */
  method CopyKey(dst: array<Word>, d: nat, src: array<Word>, s: nat)
    requires dst != src && d + 4 <= dst.Length && s + 4 <= src.Length
    modifies dst
    ensures dst[d..d + 4] == src[s..s + 4]
    ensures forall i :: 0 <= i < dst.Length && !(d <= i < d + 4) ==> dst[i] == old(dst[i])
  {
    forall i | 0 <= i < 4 { dst[d + i] := src[s + i]; }
  }

  function InvMixAll(s: seq<Word>): (r: seq<Word>)
    ensures |r| == |s|
  {
    seq(|s|, i requires 0 <= i < |s| => InvMix(s[i]))
  }

  /** Copy one round key through InvMixColumns. */
  method CopyInverted(t: Tables, dst: array<Word>, d: nat, src: array<Word>, s: nat)
    requires t.Good() && Apart(t, dst) && dst != src && d + 4 <= dst.Length && s + 4 <= src.Length
    modifies dst
    ensures t.Good() && dst[d..d + 4] == InvMixAll(src[s..s + 4])
    ensures forall i :: 0 <= i < dst.Length && !(d <= i < d + 4) ==> dst[i] == old(dst[i])
  {
    hide InvMix, t.Good;
    for j := 0 to 4
      invariant t.Good() && dst[d..d + j] == InvMixAll(src[s..s + j])
      invariant forall i :: 0 <= i < dst.Length && !(d <= i < d + j) ==> dst[i] == old(dst[i])
    {
      var x := InvMixWord(t, src[s + j]);
      ghost var done := dst[d..d + j];
      dst[d + j] := x;
      assert src[s..s + j + 1] == src[s..s + j] + [src[s + j]];
      assert dst[d..d + j + 1] == done + [x];
    }
  }

  /** The round keys up to number r are those of k in reverse, the inner ones inverted. */
  ghost predicate InvertedTo(k: seq<Word>, d: seq<Word>, nr: nat, r: nat) {
    r <= nr && 4 * nr + 4 <= |k| && 4 * nr + 4 <= |d|
    && (r > 0 ==> RoundKey(d, 0) == RoundKey(k, nr))
    && forall i :: 0 < i < r ==> RoundKey(d, i) == InvMixColumns(RoundKey(k, nr - i))
  }

  lemma RoundKeyKept(d: seq<Word>, d': seq<Word>, i: nat)
    requires 4 * i + 4 <= |d| && |d'| == |d| && forall j :: 4 * i <= j < 4 * i + 4 ==> d'[j] == d[j]
    ensures RoundKey(d', i) == RoundKey(d, i)
  {}

  lemma InvertedMore(k: seq<Word>, d: seq<Word>, d': seq<Word>, nr: nat, r: nat)
    requires InvertedTo(k, d, nr, r) && 0 < r < nr && |d'| == |d|
    requires forall j :: 0 <= j < 4 * r ==> d'[j] == d[j]
    requires RoundKey(d', r) == InvMixColumns(RoundKey(k, nr - r))
    ensures InvertedTo(k, d', nr, r + 1)
  {
    hide InvMixColumns, RoundKey;
    forall i | 0 <= i < r ensures RoundKey(d', i) == RoundKey(d, i) { RoundKeyKept(d, d', i); }
  }

  /** The loops of mbedtls_aes_setkey_dec, from the schedule sk into rk. */
  method InvertSchedule(t: Tables, rk: array<Word>, ck: array<Word>, nr: nat)
    requires t.Good() && Apart(t, rk) && nr in {10, 12, 14} && rk.Length == ck.Length == 68 && rk != ck
    modifies rk
    ensures t.Good() && Inverted(ck[..], rk[..], nr)
  {
    hide t.Good, InvMixColumns, RoundKey, InvMix, InvertedTo;
    var sk := nr * 4;
    CopyKey(rk, 0, ck, sk);
    FirstKey(ck[..], rk[..], nr);
    sk := sk + 4 - 8;
    var k: nat := 4;
    var i: nat := nr - 1;
    while i > 0
      invariant 0 <= i <= nr - 1 && k == 4 * (nr - i) && sk == 4 * i && t.Good()
      invariant InvertedTo(ck[..], rk[..], nr, nr - i)
    {
      ghost var d := rk[..];
      CopyInverted(t, rk, k, ck, sk);
      InvertedKey(ck[..], rk[..], nr, nr - i);
      InvertedMore(ck[..], d, rk[..], nr, nr - i);
      sk := sk + 4 - 8;
      k := k + 4;
      i := i - 1;
    }
    ghost var d := rk[..];
    CopyKey(rk, k, ck, sk);
    LastKey(ck[..], d, rk[..], nr);
  }

  lemma FirstKey(k: seq<Word>, d: seq<Word>, nr: nat)
    requires nr > 0 && 4 * nr + 4 <= |k| && 4 * nr + 4 <= |d| && d[0..4] == k[4 * nr..4 * nr + 4]
    ensures InvertedTo(k, d, nr, 1)
  {
    assert d[0] == d[0..4][0] && d[1] == d[0..4][1] && d[2] == d[0..4][2] && d[3] == d[0..4][3];
  }

  lemma InvertedKey(k: seq<Word>, d: seq<Word>, nr: nat, r: nat)
    requires 0 < r < nr && 4 * nr + 4 <= |k| && 4 * nr + 4 <= |d|
    requires d[4 * r..4 * r + 4] == InvMixAll(k[4 * (nr - r)..4 * (nr - r) + 4])
    ensures RoundKey(d, r) == InvMixColumns(RoundKey(k, nr - r))
  {
    hide InvMix;
    var n, m := 4 * r, 4 * (nr - r);
    var x, y := d[n..n + 4], k[m..m + 4];
    assert x[0] == InvMix(y[0]) && x[1] == InvMix(y[1]) && x[2] == InvMix(y[2]) && x[3] == InvMix(y[3]);
  }

  lemma LastKey(k: seq<Word>, d: seq<Word>, d': seq<Word>, nr: nat)
    requires InvertedTo(k, d, nr, nr) && nr > 0 && |d'| == |d| && d'[4 * nr..4 * nr + 4] == k[0..4]
    requires forall j :: 0 <= j < 4 * nr ==> d'[j] == d[j]
    ensures Inverted(k, d', nr)
  {
    hide InvMixColumns;
    forall i | 0 <= i < nr ensures RoundKey(d', i) == RoundKey(d, i) { RoundKeyKept(d, d', i); }
    var n := 4 * nr;
    assert d'[n] == d'[n..n + 4][0] && d'[n + 1] == d'[n..n + 4][1];
    assert d'[n + 2] == d'[n..n + 4][2] && d'[n + 3] == d'[n..n + 4][3];
  }

  /** mbedtls_aes_setkey_dec: the inverted schedule of the encryption schedule of the key. */
  method SetKeyDec(t: Tables, rk: array<Word>, key: Bytes, keybits: nat) returns (nr: nat, ghost k: seq<Word>)
    requires t.Good() && Apart(t, rk) && rk.Length == 68 && (RoundsFor(keybits) != 0 ==> |key| == keybits / 8)
    modifies rk
    ensures nr == RoundsFor(keybits) && t.Good()
    ensures nr != 0 ==> Schedule(k, key, nr) && Inverted(k, rk[..], nr)
  {
    hide t.Good, Schedule, Inverted;
    var ck := new Word[68](_ => Word(0, 0, 0, 0));
    nr := SetKeyEnc(t, ck, key, keybits);
    k := ck[..];
    if nr == 0 { return; }
    InvertSchedule(t, rk, ck, nr);
  }

  // ---------- decryption undoes encryption ----------

  lemma {:induction false} ScheduleUnique(v: seq<Word>, w: seq<Word>, key: Bytes, nr: nat, n: nat)
    requires Schedule(v, key, nr) && Schedule(w, key, nr) && n <= 4 * nr + 4
    ensures forall j :: 0 <= j < n ==> v[j] == w[j]
  {
    hide Xor, SubRot, SubWord, Rcon, KeyWord;
    if n > 0 {
      ScheduleUnique(v, w, key, nr, n - 1);
      var i, nk := n - 1, |key| / 4;
      if i >= nk {
        assert Temp(v, nk, i) == Temp(w, nk, i);
        assert v[i] == Xor(v[i - nk], Temp(v, nk, i)) && v[i - nk] == w[i - nk];
        assert w[i] == Xor(w[i - nk], Temp(w, nk, i));
      } else {
        assert v[i] == KeyWord(key, i) == w[i];
      }
    }
  }

  /** For every key of 128, 192 or 256 bits and every block: decryption with the schedule of
      setkey_dec undoes encryption with the schedule of setkey_enc. */
  lemma DecryptUndoesEncrypt(r: seq<bv8>, key: Bytes, nr: nat, k: seq<Word>, k': seq<Word>, d: seq<Word>, b: Block16)
    requires Undoes(r) && Schedule(k, key, nr) && Schedule(k', key, nr) && Inverted(k', d, nr)
    ensures DecryptBytes(r, d, nr, EncryptBytes(k, nr, b)) == b
  {
    hide Expanded, StartsWithKey, Inverted, Cipher, InvCipher, Load, Store, Undoes;
    ScheduleUnique(k, k', key, nr, 4 * nr + 4);
    assert k[..4 * nr + 4] == k'[..4 * nr + 4];
    SameCipher(k, k', nr, Load(b));
    LoadStore(Cipher(k, nr, Load(b)), b);
    InverseCipherCorrect(r, k', d, nr, Load(b));
  }

  lemma {:induction false} SameRounds(k: seq<Word>, k': seq<Word>, p: State, r: nat)
    requires 4 * r + 4 <= |k| && 4 * r + 4 <= |k'| && k[..4 * r + 4] == k'[..4 * r + 4]
    ensures Rounds(k, p, r) == Rounds(k', p, r) && RoundKey(k, r) == RoundKey(k', r)
  {
    hide AddKey, MixColumns, SubShift;
    var n := 4 * r + 4;
    assert forall j :: 0 <= j < n ==> k[j] == k[..n][j] && k'[j] == k'[..n][j];
    if r > 0 {
      assert k[..n - 4] == k[..n][..n - 4] && k'[..n - 4] == k'[..n][..n - 4];
      SameRounds(k, k', p, r - 1);
    }
  }

  lemma SameCipher(k: seq<Word>, k': seq<Word>, nr: nat, p: State)
    requires nr > 0 && 4 * nr + 4 <= |k| && 4 * nr + 4 <= |k'| && k[..4 * nr + 4] == k'[..4 * nr + 4]
    ensures Cipher(k, nr, p) == Cipher(k', nr, p)
  {
    hide AddKey, SubShift, Rounds, RoundKey;
    SameRounds(k, k', p, nr);
    assert k[..4 * nr] == k[..4 * nr + 4][..4 * nr] && k'[..4 * nr] == k'[..4 * nr + 4][..4 * nr];
    SameRounds(k, k', p, nr - 1);
  }

  /** AES under a key, as the block cipher that the modes of operation take as a parameter. */
  ghost function AesCipher(r: seq<bv8>, k: seq<Word>, d: seq<Word>, nr: nat): Blocks.BlockCipher
    requires |r| == 256 && nr > 0 && 4 * nr + 4 <= |k| && 4 * nr + 4 <= |d|
  {
    Blocks.BlockCipher(b => if |b| == 16 then EncryptBytes(k, nr, b) else b,
                       b => if |b| == 16 then DecryptBytes(r, d, nr, b) else b)
  }

  /** So the results about CBC, XTS and CCM hold for AES. */
  lemma AesIsSound(r: seq<bv8>, key: Bytes, nr: nat, k: seq<Word>, d: seq<Word>)
    requires Undoes(r) && Schedule(k, key, nr) && Inverted(k, d, nr)
    ensures nr > 0 && Blocks.Sound(AesCipher(r, k, d, nr), 16)
  {
    hide Expanded, StartsWithKey, EncryptBytes, DecryptBytes, Sbox, RoundKey, InvMixColumns;
    var c := AesCipher(r, k, d, nr);
    forall b: Bytes | |b| == 16 ensures c.dec(c.enc(b)) == b {
      DecryptUndoesEncrypt(r, key, nr, k, k, d, b);
    }
  }
}
