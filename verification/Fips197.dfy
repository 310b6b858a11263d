/** AES as FIPS 197 writes it down: on bytes, with indices. Byte k of a state is the one in row
    k % 4 of column k / 4 (section 3.4). */
module Fips197 {
  import opened Gf256
  import opened AesTables
  import Blocks

  type Bytes = Blocks.Bytes

  type Block16 = Blocks.Block16

  // ---------- the key expansion ----------

  /** The constants of section 5.2: powers of x. */
  const RoundConstants: seq<bv8> := [0x01, 0x02, 0x04, 0x08, 0x10, 0x20, 0x40, 0x80, 0x1B, 0x36]

  /** The number of rounds for a key. */
  function Rounds(key: Bytes): nat { |key| / 4 + 6 }

  predicate IsKey(key: Bytes) { |key| in {16, 24, 32} }

  /** What is added in row j of word i, from the word before: its byte in the same row, and the
      one in the next row. */
  ghost function Temp(nk: nat, i: nat, j: nat, same: bv8, next: bv8): bv8
    requires nk > 0 && 1 <= i / nk <= 10
  {
    if i % nk == 0 then Add(Sbox(next), if j == 0 then RoundConstants[i / nk - 1] else 0)
    else if nk > 6 && i % nk == 4 then Sbox(same)
    else same
  }

  /** The word of byte k is among the first ten key lengths after the key. */
  lemma Places(key: Bytes, k: nat)
    requires IsKey(key) && |key| <= k < 16 * (Rounds(key) + 1)
    ensures |key| / 4 > 0 && 1 <= k / 4 / (|key| / 4) <= 10 && k >= 4 * (k / 4) && 4 * (k / 4 - 1) + 3 < k
  {
    var i := k / 4;
    if |key| == 16 {
      assert 4 <= i < 44;
    } else if |key| == 24 {
      assert 6 <= i < 52;
    } else {
      assert 8 <= i < 60;
    }
  }

  /** Byte k of the expanded key (section 5.2): byte k % 4 of word k / 4. */
  ghost function KeyByte(key: Bytes, k: nat): bv8
    requires IsKey(key) && k < 16 * (Rounds(key) + 1)
  {
    if k < |key| then key[k]
    else
      Places(key, k);
      var nk, i, j := |key| / 4, k / 4, k % 4;
      Add(KeyByte(key, k - |key|),
          Temp(nk, i, j, KeyByte(key, 4 * (i - 1) + j), KeyByte(key, 4 * (i - 1) + (j + 1) % 4)))
  }

  // ---------- the rounds ----------

  ghost function SubBytes(s: Block16): (r: Block16)
    ensures forall k :: 0 <= k < 16 ==> r[k] == Sbox(s[k])
  {
    seq(16, k requires 0 <= k < 16 => Sbox(s[k]))
  }

  /** Row r moves left by r columns (section 5.1.2). */
  function ShiftRows(s: Block16): (r: Block16)
    ensures forall k :: 0 <= k < 16 ==> r[k] == s[k % 4 + 4 * ((k / 4 + k % 4) % 4)]
  {
    seq(16, k requires 0 <= k < 16 => s[k % 4 + 4 * ((k / 4 + k % 4) % 4)])
  }

  /** The coefficient for the byte i rows below, cyclically (section 5.1.3). */
  const MixCoefficients: seq<bv8> := [2, 3, 1, 1]

  /** The product of the byte in row j of the column of byte k, for the sum at byte k. */
  function Term(s: Block16, k: nat, j: nat): bv8
    requires k < 16 && j < 4
  {
    Mul(MixCoefficients[(j + 4 - k % 4) % 4], s[k / 4 * 4 + j])
  }

  function MixColumns(s: Block16): (r: Block16)
    ensures forall k :: 0 <= k < 16 ==>
      r[k] == Add(Add(Add(Term(s, k, 0), Term(s, k, 1)), Term(s, k, 2)), Term(s, k, 3))
  {
    seq(16, k requires 0 <= k < 16 => Add(Add(Add(Term(s, k, 0), Term(s, k, 1)), Term(s, k, 2)), Term(s, k, 3)))
  }

  ghost function AddRoundKey(s: Block16, key: Bytes, round: nat): (r: Block16)
    requires IsKey(key) && round <= Rounds(key)
    ensures forall k :: 0 <= k < 16 ==> r[k] == Add(s[k], KeyByte(key, 16 * round + k))
  {
    seq(16, k requires 0 <= k < 16 => Add(s[k], KeyByte(key, 16 * round + k)))
  }

  /** The state after so many full rounds. */
  ghost function After(key: Bytes, b: Block16, round: nat): Block16
    requires IsKey(key) && round <= Rounds(key)
  {
    if round == 0 then AddRoundKey(b, key, 0)
    else AddRoundKey(MixColumns(ShiftRows(SubBytes(After(key, b, round - 1)))), key, round)
  }

  lemma AfterIs(key: Bytes, b: Block16, round: nat)
    requires IsKey(key) && round <= Rounds(key)
    ensures After(key, b, 0) == AddRoundKey(b, key, 0)
    ensures round > 0 ==>
      After(key, b, round) == AddRoundKey(MixColumns(ShiftRows(SubBytes(After(key, b, round - 1)))), key, round)
  {
    hide AddRoundKey, MixColumns, ShiftRows, SubBytes;
  }

  /** The cipher (section 5.1): the last round has no MixColumns. */
  ghost function Encrypt(key: Bytes, b: Block16): Block16
    requires IsKey(key)
  {
    var nr := Rounds(key);
    AddRoundKey(ShiftRows(SubBytes(After(key, b, nr - 1))), key, nr)
  }

  // ---------- the examples of the standard ----------

  /** Section 4.2: {57} times {83} is {c1}, and {57} times {13} is {fe}. */
  lemma ProductExamples()
    ensures Mul(0x57, 0x83) == 0xC1 && Mul(0x57, 0x13) == 0xFE
  {}

  /** Section 5.1.1: {53} is substituted by {ed}. */
  lemma SboxExample()
    ensures Sbox(0x53) == 0xED
  {
    hide Inverse;
    assert Mul(0x53, 0xCA) == 1;
    InverseUnique(0x53, 0xCA);
    assert Affine(0xCA) == 0xED;
  }
}
