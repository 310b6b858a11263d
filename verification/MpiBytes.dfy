/** Reading and writing MPIs as big-endian bytes, through the host's limb layout. */
module MpiBytes {
  import opened Arith
  import opened Words
  import opened Limbs
  import opened Mpis

  /** The host's byte order: every result holds for both. */
  const LittleEndian: bool

  // ---------- byte strings as numbers ----------

  /** The value of big-endian bytes. */
  function FromBE(s: seq<Byte>): nat {
    if s == [] then 0 else FromBE(s[..|s| - 1]) * 256 + s[|s| - 1]
  }

  /** The n low bytes of x, big-endian. */
  function ToBE(x: nat, n: nat): (s: seq<Byte>)
    ensures |s| == n
  {
    if n == 0 then [] else ToBE(x / 256, n - 1) + [x % 256]
  }

  lemma BytePow(n: nat)
    ensures Pow2(8 * (n + 1)) == 256 * Pow2(8 * n) && Pow2(0) == 1
  {
    Pow2Values();
    Pow2Add(8 * n, 8);
  }

  lemma {:induction false} FromBEConcat(a: seq<Byte>, b: seq<Byte>)
    ensures FromBE(a + b) == FromBE(a) * Pow2(8 * |b|) + FromBE(b)
    decreases |b|
  {
    hide Pow2;
    if b == [] {
      assert a + b == a;
      Pow2Values();
    } else {
      var n := |b| - 1;
      assert (a + b)[..|a| + n] == a + b[..n];
      FromBEConcat(a, b[..n]);
      BytePow(n);
      MulAssoc(FromBE(a), Pow2(8 * n), 256);
    }
  }

  lemma FromBESingle(x: Byte)
    ensures FromBE([x]) == x
  {
    assert [x][..0] == [];
  }

  lemma FromBECons(x: Byte, s: seq<Byte>)
    ensures FromBE([x] + s) == x * Pow2(8 * |s|) + FromBE(s)
  {
    FromBEConcat([x], s);
    FromBESingle(x);
  }

  lemma {:induction false} FromBEBound(s: seq<Byte>)
    ensures FromBE(s) < Pow2(8 * |s|)
  {
    hide Pow2;
    Pow2Values();
    if s != [] {
      FromBEBound(s[..|s| - 1]);
      BytePow(|s| - 1);
    }
  }

  lemma {:induction false} FromBEZeros(s: seq<Byte>)
    requires forall k :: 0 <= k < |s| ==> s[k] == 0
    ensures FromBE(s) == 0
  {
    if s != [] { FromBEZeros(s[..|s| - 1]); }
  }

  lemma {:induction false} ToFromBE(s: seq<Byte>)
    ensures ToBE(FromBE(s), |s|) == s
  {
    if s != [] {
      ToFromBE(s[..|s| - 1]);
      DivModUnique(FromBE(s), FromBE(s[..|s| - 1]), s[|s| - 1], 256);
    }
  }

  lemma {:induction false} FromToBE(x: nat, n: nat)
    requires x < Pow2(8 * n)
    ensures FromBE(ToBE(x, n)) == x
  {
    hide Pow2;
    Pow2Values();
    if n > 0 {
      BytePow(n - 1);
      DivModFacts(x, 256);
      FromToBE(x / 256, n - 1);
      assert ToBE(x, n)[..n - 1] == ToBE(x / 256, n - 1);
    }
  }

  /** Equally long byte strings with the same value are the same. */
  lemma FromBEInjective(a: seq<Byte>, b: seq<Byte>)
    requires |a| == |b| && FromBE(a) == FromBE(b)
    ensures a == b
  {
    ToFromBE(a);
    ToFromBE(b);
  }

  // ---------- limbs in memory ----------

  function {:induction false} Reverse(s: seq<Byte>): (r: seq<Byte>)
    ensures |r| == |s|
    ensures forall k :: 0 <= k < |s| ==> r[k] == s[|s| - 1 - k]
  {
    if s == [] then [] else [s[|s| - 1]] + Reverse(s[..|s| - 1])
  }

  lemma ReverseTwice(s: seq<Byte>)
    ensures Reverse(Reverse(s)) == s
  {}

  /** The limb stored in the given bytes of memory. */
  function LoadLimb(s: seq<Byte>): Limb
    requires |s| == ciL
  {
    WordFacts();
    FromBEBound(s);
    FromBEBound(Reverse(s));
    if LittleEndian then FromBE(Reverse(s)) else FromBE(s)
  }

  /** The bytes of memory that hold a limb. */
  function StoreLimb(x: Limb): (s: seq<Byte>)
    ensures |s| == ciL
  {
    if LittleEndian then Reverse(ToBE(x, ciL)) else ToBE(x, ciL)
  }

  lemma StoreLoad(s: seq<Byte>)
    requires |s| == ciL
    ensures StoreLimb(LoadLimb(s)) == s
  {
    ToFromBE(s);
    ToFromBE(Reverse(s));
    ReverseTwice(s);
  }

  /** Read the memory bytes of x from the first one on, as a big-endian number. */
  function BigEndianToHost(x: Limb): Limb
  {
    WordFacts();
    FromBEBound(StoreLimb(x));
    FromBE(StoreLimb(x))
  }

  lemma BigEndianLoaded(s: seq<Byte>)
    requires |s| == ciL
    ensures BigEndianToHost(LoadLimb(s)) == FromBE(s)
  {
    StoreLoad(s);
  }

  /** Reverse the order of the limbs and fix the byte order of each, in place, from both
      ends. The middle limb of an odd number of limbs is converted once. */
  method LimbsToHost(p: array<Limb>)
    modifies p
    ensures forall k :: 0 <= k < p.Length ==> p[k] == BigEndianToHost(old(p[p.Length - 1 - k]))
  {
    hide BigEndianToHost;
    var n := p.Length;
    if n == 0 { return; }
    var left, right := 0, n - 1;
    while left <= right
      invariant 0 <= left <= n && right == n - 1 - left && left <= right + 2
      invariant forall k :: 0 <= k < left ==>
        p[k] == BigEndianToHost(old(p[n - 1 - k])) && p[n - 1 - k] == BigEndianToHost(old(p[k]))
      invariant forall k :: left <= k <= right ==> p[k] == old(p[k])
    {
      var tmp := BigEndianToHost(p[left]);
      p[left] := BigEndianToHost(p[right]);
      p[right] := tmp;
      left, right := left + 1, right - 1;
    }
  }

  function CharsToLimbs(n: nat): nat {
    WordFacts();
    n / ciL + if n % ciL != 0 then 1 else 0
  }

  lemma CharsToLimbsFits(n: nat)
    ensures n <= CharsToLimbs(n) * ciL < n + ciL
  {
    WordFacts();
    DivModFacts(n, ciL);
    MulDist(n / ciL, 1, ciL);
  }

  /** The bytes of limb position k from the left in m. */
  function Chunk(m: seq<Byte>, k: nat): (c: seq<Byte>)
    requires (k + 1) * ciL <= |m|
    ensures |c| == ciL
  {
    MulDist(k, 1, ciL);
    m[k * ciL..(k + 1) * ciL]
  }

  lemma ChunkRange(n: nat, k: nat)
    requires k < n
    ensures 0 <= (k + 1) * ciL <= n * ciL
  {
    MulMono(k + 1, n, ciL);
  }

  lemma DropChunk(m: seq<Byte>, n: nat, j: nat)
    requires |m| == n * ciL && j + 1 < n
    ensures |m[ciL..]| == (n - 1) * ciL && (j + 1) * ciL <= |m[ciL..]| && (j + 2) * ciL <= |m|
    ensures Chunk(m[ciL..], j) == Chunk(m, j + 1)
  {
    ChunkRange(n, j + 1);
    ChunkRange(n - 1, j);
    MulDist(n - 1, 1, ciL);
    MulDist(j, 1, ciL);
    MulDist(j + 1, 1, ciL);
  }

  /** The limbs hold the chunks of m, last chunk first. */
  ghost predicate HoldsChunks(m: seq<Byte>, r: seq<Limb>)
  {
    |m| == |r| * ciL
    && forall k :: 0 <= k < |r| ==> (|r| - k) * ciL <= |m| && r[k] == FromBE(Chunk(m, |r| - 1 - k))
  }

  lemma FirstChunk(m: seq<Byte>, r: seq<Limb>)
    requires HoldsChunks(m, r) && |r| > 0
    ensures |m| >= ciL && HoldsChunks(m[ciL..], r[..|r| - 1]) && r[|r| - 1] == FromBE(m[..ciL])
  {
    var n := |r|;
    var m', r' := m[ciL..], r[..n - 1];
    ChunkRange(n, 0);
    MulDist(n - 1, 1, ciL);
    forall k | 0 <= k < n - 1
      ensures (|r'| - k) * ciL <= |m'| && r'[k] == FromBE(Chunk(m', |r'| - 1 - k))
    {
      DropChunk(m, n, n - 2 - k);
    }
    assert Chunk(m, 0) == m[..ciL];
  }

  lemma {:induction false} ChunksValue(m: seq<Byte>, r: seq<Limb>)
    requires HoldsChunks(m, r)
    ensures Nat(r) == FromBE(m)
    decreases |r|
  {
    hide Pow2, HoldsChunks;
    var n := |r|;
    if n > 0 {
      FirstChunk(m, r);
      ChunksValue(m[ciL..], r[..n - 1]);
      assert m == m[..ciL] + m[ciL..];
      FromBEConcat(m[..ciL], m[ciL..]);
      ChunkWeight(m[ciL..], r[..n - 1]);
    } else {
      NoChunks(m, r);
    }
  }

  lemma NoChunks(m: seq<Byte>, r: seq<Limb>)
    requires HoldsChunks(m, r) && |r| == 0
    ensures m == []
  {}

  lemma ChunkWeight(m: seq<Byte>, r: seq<Limb>)
    requires HoldsChunks(m, r)
    ensures BPow(|r|) == Pow2(8 * |m|)
  {
    WordFacts();
    BPowIsPow2(|r|);
    assert 8 * |m| == biL * |r| by { MulAssoc(8, ciL, |r|); }
  }

  // ---------- import and export ----------

  /** The big-endian buffer in front of zeros, as the limbs see it. */
  function Padded(buf: seq<Byte>): (m: seq<Byte>)
    ensures |m| == CharsToLimbs(|buf|) * ciL
  {
    CharsToLimbsFits(|buf|);
    seq(CharsToLimbs(|buf|) * ciL - |buf|, _ => 0) + buf
  }

  lemma PaddedValue(buf: seq<Byte>)
    ensures FromBE(Padded(buf)) == FromBE(buf)
  {
    CharsToLimbsFits(|buf|);
    var zeros: seq<Byte> := seq(CharsToLimbs(|buf|) * ciL - |buf|, _ => 0);
    FromBEConcat(zeros, buf);
    FromBEZeros(zeros);
  }

  /** Limb k of memory m. */
  function LimbAt(m: seq<Byte>, k: nat, n: nat): Limb
    requires k < n && |m| == n * ciL
  {
    ChunkRange(n, k);
    LoadLimb(Chunk(m, k))
  }

  /** Copy memory bytes into the limbs. */
  method LoadLimbs(p: array<Limb>, m: seq<Byte>)
    requires |m| == p.Length * ciL
    modifies p
    ensures forall k :: 0 <= k < p.Length ==> p[k] == LimbAt(m, k, p.Length)
  {
    hide LimbAt;
    for i := 0 to p.Length
      invariant forall k :: 0 <= k < i ==> p[k] == LimbAt(m, k, p.Length)
    {
      p[i] := LimbAt(m, i, p.Length);
    }
  }

  /** x = the number in the buffer. */
  method ReadBinary(x: Mpi, buf: seq<Byte>)
    modifies x, x.p
    ensures x.p == old(x.p) || fresh(x.p)
    ensures x.Valid() && x.s == 1 && x.Val() == FromBE(buf)
    ensures x.p.Length == CharsToLimbs(|buf|)
  {
    hide Nat, BPow, Pow2, FromBE, LoadLimb, BigEndianToHost, Chunk, CharsToLimbs, Padded;
    WordFacts();
    var limbs := CharsToLimbs(|buf|);
    ResizeClear(x, limbs);
    if |buf| != 0 {
      LoadLimbs(x.p, Padded(buf));
      ghost var w := x.p[..];
      LimbsToHost(x.p);
      Assembled(Padded(buf), w, x.p[..]);
      PaddedValue(buf);
    } else {
      FromBEEmpty(buf);
    }
  }

  lemma FromBEEmpty(s: seq<Byte>)
    requires |s| == 0
    ensures FromBE(s) == 0
  {}

  lemma Assembled(m: seq<Byte>, w: seq<Limb>, r: seq<Limb>)
    requires |w| == |r| && |m| == |r| * ciL
    requires forall k :: 0 <= k < |w| ==> w[k] == LimbAt(m, k, |w|)
    requires forall k :: 0 <= k < |r| ==> r[k] == BigEndianToHost(w[|w| - 1 - k])
    ensures Nat(r) == FromBE(m)
  {
    hide Nat, FromBE, LoadLimb, BigEndianToHost, Chunk;
    forall k | 0 <= k < |r|
      ensures (|r| - k) * ciL <= |m| && r[k] == FromBE(Chunk(m, |r| - 1 - k))
    {
      ChunkRange(|r|, |r| - 1 - k);
      BigEndianLoaded(Chunk(m, |r| - 1 - k));
    }
    ChunksValue(m, r);
  }

  /** Byte i of a number. */
  function ByteOf(n: nat, i: nat): Byte { n / Pow2(8 * i) % 256 }

  /** GET_BYTE finds byte i of the number. */
  lemma GetByteIs(s: seq<Limb>, i: nat)
    requires i < |s| * ciL
    ensures 0 <= i / ciL < |s| && 0 <= i % ciL
    ensures s[i / ciL] / Pow2(8 * (i % ciL)) % 256 == ByteOf(Nat(s), i)
  {
    hide Nat, BPow, Pow2;
    WordFacts();
    DivLess(i, ciL, |s|);
    DivModFacts(i, ciL);
    var q, j := i / ciL, i % ciL;
    NatSplit(s, q);
    NatBound(s[..q]);
    BPowIsPow2(q);
    DivModUnique(Nat(s), Nat(s[q..]), Nat(s[..q]), BPow(q));
    assert 8 * i == biL * q + 8 * j by { MulAssoc(8, ciL, q); }
    Pow2Add(biL * q, 8 * j);
    DivDiv(Nat(s), BPow(q), Pow2(8 * j));
    assert s[q..] == [s[q]] + s[q + 1..];
    NatCons(s[q], s[q + 1..]);
    LowLimbByte(s[q], Nat(s[q + 1..]), j);
  }

  lemma LowLimbByte(x: Limb, high: nat, j: nat)
    requires j < ciL
    ensures (x + B * high) / Pow2(8 * j) % 256 == x / Pow2(8 * j) % 256
  {
    hide Pow2;
    WordFacts();
    Pow2Values();
    Pow2Add(8 * j, biL - 8 * j);
    Pow2Add(8, biL - 8 * j - 8);
    HighPartMultiple(x, high, Pow2(8 * j), Pow2(biL - 8 * j - 8));
  }

  lemma HighPartMultiple(x: int, high: int, p: int, q: int)
    requires p > 0
    ensures (x + p * (256 * q) * high) / p % 256 == x / p % 256
  {
    var h := high * (256 * q);
    MulAssoc(high, 256 * q, p);
    assert h * p == p * (256 * q) * high;
    DivModShift(h, x, p);
    MulAssoc(high, q, 256);
    DivModShift(high * q, x / p, 256);
  }

  method GetByte(x: Mpi, i: nat) returns (b: Byte)
    requires i < x.p.Length * ciL
    ensures b == ByteOf(x.Mag(), i)
  {
    hide Nat, Pow2;
    GetByteIs(x.p[..], i);
    ShrFits(x.p[i / ciL], 8 * (i % ciL));
    b := ShrW(x.p[i / ciL], 8 * (i % ciL)) % 256;
  }

  /** The low i + 1 bytes are the low i bytes and byte i on top. */
  lemma NextByte(m: nat, i: nat)
    ensures m % Pow2(8 * (i + 1)) == ByteOf(m, i) * Pow2(8 * i) + m % Pow2(8 * i)
  {
    hide Pow2;
    BytePow(i);
    DivDiv(m, Pow2(8 * i), 256);
  }

  /** Whether the bytes of x from index n on are all zero: whether x fits n bytes. */
  method FitsBytes(x: Mpi, n: nat) returns (ok: bool)
    requires n <= x.p.Length * ciL
    ensures ok <==> x.Mag() < Pow2(8 * n)
  {
    hide Nat, BPow, Pow2, ByteOf;
    WordFacts();
    ghost var m := x.Mag();
    var i := n;
    DivModFacts(m, Pow2(8 * n));
    while i < x.p.Length * ciL
      invariant n <= i <= x.p.Length * ciL && m % Pow2(8 * i) == m % Pow2(8 * n)
    {
      var b := GetByte(x, i);
      NextByte(m, i);
      if b != 0 {
        NonZeroByte(m, i, n);
        return false;
      }
      i := i + 1;
    }
    NatBound(x.p[..]);
    BPowIsPow2(x.p.Length);
    MulAssoc(8, ciL, x.p.Length);
    ModSmall(m, Pow2(8 * i));
    return true;
  }

  lemma NonZeroByte(m: nat, i: nat, n: nat)
    requires ByteOf(m, i) != 0 && n <= i
    ensures m >= Pow2(8 * n)
  {
    hide Pow2;
    Pow2Mono(8 * n, 8 * i);
    if m < Pow2(8 * i) {
      ModSmall(m, Pow2(8 * i));
      ModSmall(0, 256);
    }
  }

  /** The bytes of x in the whole buffer, high byte first, with zeros in front. Refused, with
      the buffer untouched, exactly when x does not fit. */
  method WriteBinary(x: Mpi, buf: array<Byte>) returns (ret: Status)
    modifies buf
    ensures ret == if x.Mag() < Pow2(8 * buf.Length) then Success else BufferTooSmall
    ensures ret.Success? ==> FromBE(buf[..]) == x.Mag()
    ensures !ret.Success? ==> buf[..] == old(buf[..])
  {
    hide Nat, BPow, Pow2, ByteOf, FromBE;
    WordFacts();
    var stored := x.p.Length * ciL;
    var count: nat;
    NatBound(x.p[..]);
    BPowIsPow2(x.p.Length);
    MulAssoc(8, ciL, x.p.Length);
    if stored < buf.Length {
      count := stored;
      Pow2Mono(8 * stored, 8 * buf.Length);
      forall k | 0 <= k < buf.Length - stored { buf[k] := 0; }
    } else {
      count := buf.Length;
      var ok := FitsBytes(x, count);
      if !ok { return BufferTooSmall; }
    }
    ghost var head := buf[..buf.Length - count];
    CopyBytes(x, buf, count);
    ModSmall(x.Mag(), Pow2(8 * count));
    assert buf[..] == head + buf[buf.Length - count..];
    FromBEConcat(head, buf[buf.Length - count..]);
    FromBEZeros(head);
    return Success;
  }

  /** The low count bytes of x at the end of the buffer. */
  method CopyBytes(x: Mpi, buf: array<Byte>, count: nat)
    requires count <= buf.Length && count <= x.p.Length * ciL
    modifies buf
    ensures FromBE(buf[buf.Length - count..]) == x.Mag() % Pow2(8 * count)
    ensures buf[..buf.Length - count] == old(buf[..buf.Length - count])
  {
    hide Nat, BPow, Pow2, ByteOf, FromBE;
    ghost var m, head := x.Mag(), buf[..buf.Length - count];
    Pow2Values();
    FromBEEmpty(buf[buf.Length..]);
    for i := 0 to count
      invariant FromBE(buf[buf.Length - i..]) == m % Pow2(8 * i)
      invariant buf[..buf.Length - count] == head
    {
      ghost var tail := buf[buf.Length - i..];
      var b := GetByte(x, i);
      buf[buf.Length - i - 1] := b;
      assert buf[buf.Length - (i + 1)..] == [b] + tail;
      FromBECons(b, tail);
      NextByte(m, i);
    }
  }
}
