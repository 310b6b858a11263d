/** Byte strings of the symmetric ciphers, and a keyed block cipher as a parameter. */
module Blocks {
  import opened Arith

  type Bytes = seq<bv8>

  type BlockBytes = n: nat | n == 8 || n == 16 witness 16

  /** Block size of the cipher behind the streaming layer and CMAC: 8 or 16. */
  const Bs: BlockBytes

  type Block = s: Bytes | |s| == Bs witness seq(Bs, _ => 0)

  /** A block of AES, for the modes that take no other block size. */
  type Block16 = s: Bytes | |s| == 16 witness seq(16, _ => 0)

  /** Encryption and decryption of one block under some key. */
  datatype BlockCipher = BlockCipher(enc: Bytes -> Bytes, dec: Bytes -> Bytes)

  /** Decryption undoes encryption on blocks of n bytes. */
  ghost predicate Sound(c: BlockCipher, n: nat) {
    (forall b {:trigger c.enc(b)} :: |b| == n ==> |c.enc(b)| == n && c.dec(c.enc(b)) == b)
    && (forall b {:trigger c.dec(b)} :: |b| == n ==> |c.dec(b)| == n)
  }

  function Xor(a: Bytes, b: Bytes): (r: Bytes)
    requires |a| == |b|
    ensures |r| == |a| && forall k :: 0 <= k < |a| ==> r[k] == a[k] ^ b[k]
  {
    seq(|a|, k requires 0 <= k < |a| => a[k] ^ b[k])
  }

  lemma XorTwice(a: Bytes, b: Bytes)
    requires |a| == |b|
    ensures Xor(Xor(a, b), b) == a && Xor(b, Xor(b, a)) == a
  {}

  function Zeros(n: nat): (s: Bytes)
    ensures |s| == n && forall k :: 0 <= k < n ==> s[k] == 0
  {
    seq(n, _ => 0)
  }

  lemma WholeBlocks(n: nat, m: nat)
    requires n % Bs == 0
    ensures (n + m) % Bs == m % Bs
    ensures n > 0 ==> n >= Bs && (n - Bs) % Bs == 0
    ensures m >= n ==> (m - n) % Bs == m % Bs
  {
    var q := n / Bs;
    DivModFacts(n, Bs);
    DivModShift(q, m, Bs);
    DivModShift(-q, m, Bs);
    DivModShift(-1, n, Bs);
    if 0 < n < Bs { ModSmall(n, Bs); }
    assert (-q) * Bs + n == 0;
  }

  lemma WholeMultiple(m: nat, n: nat)
    requires n > 0 && m > 0 && m % n == 0
    ensures m >= n && (m - n) % n == 0
  {
    DivModShift(-1, m, n);
    if m < n { ModSmall(m, n); }
  }

  /** The CBC-MAC of whole blocks of n bytes, from the last one back. */
  function CbcMac(c: BlockCipher, n: nat, x: Bytes): (y: Bytes)
    requires n > 0 && Sound(c, n) && |x| % n == 0
    ensures |y| == n
  {
    if x == [] then Zeros(n)
    else
      WholeMultiple(|x|, n);
      var m := |x| - n;
      c.enc(Xor(x[m..], CbcMac(c, n, x[..m])))
  }

  lemma CbcStep(c: BlockCipher, n: nat, g: Bytes, b: Bytes)
    requires n > 0 && Sound(c, n) && |g| % n == 0 && |b| == n
    ensures (|g| + n) % n == 0 && CbcMac(c, n, g + b) == c.enc(Xor(b, CbcMac(c, n, g)))
  {
    hide Xor;
    DivModShift(1, |g|, n);
    assert (g + b)[..|g|] == g && (g + b)[|g|..] == b;
  }

  lemma CbcNothing(c: BlockCipher, n: nat)
    requires n > 0 && Sound(c, n)
    ensures 0 % n == 0 && CbcMac(c, n, []) == Zeros(n)
  {
    ModSmall(0, n);
  }

  /** The byte with bit i set. */
  function Mask(i: nat): (m: bv8)
    requires i < 8
    ensures m in {0x01, 0x02, 0x04, 0x08, 0x10, 0x20, 0x40, 0x80}
  {
    if i == 0 then 0x01 else if i == 1 then 0x02 else if i == 2 then 0x04 else if i == 3 then 0x08
    else if i == 4 then 0x10 else if i == 5 then 0x20 else if i == 6 then 0x40 else 0x80
  }

  /** Bit i of a byte, lowest first. */
  predicate BitOf(b: bv8, i: nat)
    requires i < 8
  {
    b & Mask(i) != 0
  }

  /** A byte is determined by its bits. */
  lemma SameBits(a: bv8, b: bv8)
    requires forall i :: 0 <= i < 8 ==> BitOf(a, i) == BitOf(b, i)
    ensures a == b
  {
    assert BitOf(a, 0) == BitOf(b, 0) && BitOf(a, 1) == BitOf(b, 1) && BitOf(a, 2) == BitOf(b, 2);
    assert BitOf(a, 3) == BitOf(b, 3) && BitOf(a, 4) == BitOf(b, 4) && BitOf(a, 5) == BitOf(b, 5);
    assert BitOf(a, 6) == BitOf(b, 6) && BitOf(a, 7) == BitOf(b, 7);
  }

  /** A byte shifted left takes in the top bit of the one below. */
  lemma ShiftedBits(a: bv8, b: bv8, i: nat)
    requires i < 8
    ensures BitOf((a << 1) | (b >> 7), i) == if i == 0 then BitOf(b, 7) else BitOf(a, i - 1)
  {
    hide Mask;
    if i == 0 {
      TopMask();
      LowestShifted(a, b);
    } else {
      NextMask(i);
      MaskShifted(a, b, Mask(i), Mask(i - 1));
    }
  }

  lemma TopMask()
    ensures Mask(0) == 0x01 && Mask(7) == 0x80
  {}

  lemma NextMask(i: nat)
    requires 0 < i < 8
    ensures Mask(i - 1) in {0x01, 0x02, 0x04, 0x08, 0x10, 0x20, 0x40} && Mask(i) == Mask(i - 1) << 1
  {}

  lemma LowestShifted(a: bv8, b: bv8)
    ensures (((a << 1) | (b >> 7)) & 0x01 != 0) == (b & 0x80 != 0)
  {}

  lemma MaskShifted(a: bv8, b: bv8, m: bv8, n: bv8)
    requires n in {0x01, 0x02, 0x04, 0x08, 0x10, 0x20, 0x40} && m == n << 1
    ensures (((a << 1) | (b >> 7)) & m != 0) == (a & n != 0)
  {}

  lemma SummedBits(a: bv8, b: bv8, i: nat)
    requires i < 8
    ensures BitOf(a ^ b, i) == (BitOf(a, i) != BitOf(b, i))
  {
    hide Mask;
    MaskSummed(a, b, Mask(i));
  }

  lemma MaskSummed(a: bv8, b: bv8, m: bv8)
    requires m in {0x01, 0x02, 0x04, 0x08, 0x10, 0x20, 0x40, 0x80}
    ensures ((a ^ b) & m != 0) == ((a & m != 0) != (b & m != 0))
  {}

  /** a with s written at off. */
  function Splice(a: Bytes, off: nat, s: Bytes): (r: Bytes)
    requires off + |s| <= |a|
    ensures |r| == |a|
  {
    a[..off] + s + a[off + |s|..]
  }

  lemma SpliceFacts(a: Bytes, off: nat, s: Bytes)
    requires off + |s| <= |a|
    ensures Splice(a, off, s)[off..off + |s|] == s
    ensures Splice(a, off, s)[..off] == a[..off]
    ensures Splice(a, off, s)[..off + |s|] == a[..off] + s
    ensures Splice(a, off, s)[off + |s|..] == a[off + |s|..]
  {}

  lemma SpliceOver(a: Bytes, off: nat, s: Bytes, t: Bytes)
    requires off + |s| <= |a| && |t| == |s|
    ensures Splice(Splice(a, off, s), off, t) == Splice(a, off, t)
  {}

  lemma SliceOfSlice(s: Bytes, a: nat, b: nat, i: nat, j: nat)
    requires a <= b <= |s| && i <= j <= b - a
    ensures s[a..b][i..j] == s[a + i..a + j]
  {
    var t := s[a..b];
    assert forall k :: i <= k < j ==> t[k] == s[a + k];
  }

  /** Two writes side by side are one. */
  lemma SpliceJoin(a: Bytes, off: nat, s: Bytes, t: Bytes)
    requires off + |s| + |t| <= |a|
    ensures Splice(Splice(a, off, s), off + |s|, t) == Splice(a, off, s + t)
  {
    var r := Splice(a, off, s);
    SpliceFacts(a, off, s);
    assert r[off + |s|..][|t|..] == a[off + |s|..][|t|..];
    assert r[off + |s| + |t|..] == r[off + |s|..][|t|..];
    assert a[off + |s| + |t|..] == a[off + |s|..][|t|..];
  }

  /** src from k on is what the buffer still holds there. */
  ghost predicate Unread(inp: Bytes, k: nat, src: Bytes) {
    k <= |src| <= |inp| && inp[k..|src|] == src[k..]
  }

  lemma StillUnread(inp: Bytes, inp': Bytes, k: nat, src: Bytes, r: Bytes)
    requires Unread(inp, k, src) && k + |r| <= |src|
    requires inp' == inp || inp' == Splice(inp, k, r)
    ensures Unread(inp', k + |r|, src)
  {
    assert inp'[k + |r|..|src|] == inp[k + |r|..|src|] == inp[k..|src|][|r|..];
    assert src[k + |r|..] == src[k..][|r|..];
  }

  /** memcpy into a buffer. */
  method Store(a: array<bv8>, off: nat, s: Bytes)
    requires off + |s| <= a.Length
    modifies a
    ensures a[..] == Splice(old(a[..]), off, s)
    ensures a[off..off + |s|] == s
  {
    forall k | 0 <= k < |s| { a[off + k] := s[k]; }
    assert a[off..off + |s|] == s;
    assert a[..] == a[..off] + a[off..off + |s|] + a[off + |s|..];
  }

  /** The message that the chunks make up. */
  function Flat(chunks: seq<Bytes>): Bytes {
    if chunks == [] then [] else Flat(chunks[..|chunks| - 1]) + chunks[|chunks| - 1]
  }

  lemma FlatStep(chunks: seq<Bytes>)
    ensures Flat([]) == []
    ensures chunks != [] ==> Flat(chunks) == Flat(chunks[..|chunks| - 1]) + chunks[|chunks| - 1]
  {}

  // ---------- byte strings as numbers ----------

  /** The value of big-endian bytes. */
  function Value(s: Bytes): nat {
    if s == [] then 0 else Value(s[..|s| - 1]) * 256 + s[|s| - 1] as nat
  }

  function ToBytes(v: nat, n: nat): (s: Bytes)
    ensures |s| == n
  {
    if n == 0 then [] else ToBytes(v / 256, n - 1) + [(v % 256) as bv8]
  }

  lemma {:induction false} ToBytesValue(s: Bytes)
    ensures ToBytes(Value(s), |s|) == s
  {
    if s != [] {
      ToBytesValue(s[..|s| - 1]);
      DivModUnique(Value(s), Value(s[..|s| - 1]), s[|s| - 1] as nat, 256);
    }
  }

  lemma ByteWeight(n: nat)
    ensures Pow2(8 * (n + 1)) == 256 * Pow2(8 * n) && Pow2(0) == 1
  {
    Pow2Values();
    Pow2Add(8 * n, 8);
  }

  lemma ValueSnoc(s: Bytes, y: bv8)
    ensures Value(s + [y]) == Value(s) * 256 + y as nat
  {
    assert (s + [y])[..|s|] == s;
  }

  lemma {:induction false} ValueCons(x: bv8, s: Bytes)
    ensures Value([x] + s) == (x as nat) * Pow2(8 * |s|) + Value(s)
    decreases |s|
  {
    hide Pow2, Value;
    EmptyValue();
    if s == [] {
      assert [x] + s == [] + [x];
      ValueSnoc([], x);
    } else {
      var n := |s| - 1;
      var t, y := s[..n], s[n];
      assert s == t + [y] && [x] + s == ([x] + t) + [y];
      ValueSnoc([x] + t, y);
      ValueSnoc(t, y);
      ValueCons(x, t);
      ByteWeight(n);
      MulAssoc(x as nat, Pow2(8 * n), 256);
    }
  }

  lemma {:induction false} ValueBound(s: Bytes)
    ensures Value(s) < Pow2(8 * |s|)
  {
    hide Pow2;
    Pow2Values();
    if s != [] {
      ValueBound(s[..|s| - 1]);
      ByteWeight(|s| - 1);
    }
  }

  lemma EmptyValue()
    ensures Value([]) == 0 && Pow2(0) == 1
  {}

  lemma {:induction false} ValueToBytes(v: nat, n: nat)
    requires v < Pow2(8 * n)
    ensures Value(ToBytes(v, n)) == v
  {
    hide Pow2;
    EmptyValue();
    if n > 0 {
      ByteWeight(n - 1);
      DivModFacts(v, 256);
      ValueToBytes(v / 256, n - 1);
      ByteRoundTrip(v % 256);
      ValueSnoc(ToBytes(v / 256, n - 1), (v % 256) as bv8);
    }
  }

  lemma ByteRoundTrip(n: nat)
    requires n < 256
    ensures (n as bv8) as nat == n
  {
    var b := ByteOf(n);
    SameByte(n, b);
  }

  /** Every number below 256 is the value of a byte. */
  lemma {:induction false} ByteOf(n: nat) returns (b: bv8)
    requires n < 256
    ensures b as nat == n
  {
    if n == 0 {
      b := 0;
    } else {
      b := ByteOf(n - 1);
      NextByte(b);
      b := b + 1;
    }
  }

  lemma NextByte(b: bv8)
    requires b as nat < 255
    ensures (b + 1) as nat == b as nat + 1
  {}

  lemma SameByte(n: nat, b: bv8)
    requires b as nat == n
    ensures n as bv8 == b
  {}
}
