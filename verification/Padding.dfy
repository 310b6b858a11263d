/** The padding schemes of the cipher layer (cipher.c): what is added behind the last bytes
    of a message, and how it is recognised. */
module Padding {
  import opened Options
  import opened Arith
  import opened Words
  import opened ConstantTime
  import opened Blocks

  type Bytes = Blocks.Bytes

  datatype Scheme = NoPadding | Pkcs7 | OneAndZeros | ZerosAndLen | ZeroBytes

  // ---------- definitions ----------

  function Repeat(b: bv8, n: nat): (s: Bytes)
    ensures |s| == n && forall k :: 0 <= k < n ==> s[k] == b
  {
    seq(n, _ => b)
  }

  /** The n bytes that fill up the last block. */
  function Filling(scheme: Scheme, n: nat): (s: Bytes)
    requires 1 <= n <= Bs && scheme != NoPadding
    ensures |s| == n
  {
    match scheme
    case Pkcs7 => Repeat(n as bv8, n)
    case OneAndZeros => [0x80] + Repeat(0, n - 1)
    case ZerosAndLen => Repeat(0, n - 1) + [n as bv8]
    case ZeroBytes => Repeat(0, n)
  }

  /** Byte k of a filling of n bytes, as a number. */
  lemma FillingBytes(scheme: Scheme, n: nat, k: nat)
    requires 1 <= n <= Bs && scheme != NoPadding && k < n
    ensures Filling(scheme, n)[k] as nat == match scheme
      case Pkcs7 => n
      case OneAndZeros => if k == 0 then 0x80 else 0
      case ZerosAndLen => if k == n - 1 then n else 0
      case ZeroBytes => 0
  {
    ByteRoundTrip(n);
  }

  /** Position behind the last nonzero byte of b[..n]. */
  function LastNonZero(b: Bytes, n: nat): (r: nat)
    requires n <= |b|
    ensures r <= n && (r > 0 ==> b[r - 1] != 0) && forall k :: r <= k < n ==> b[k] == 0
  {
    if n == 0 || b[n - 1] != 0 then n else LastNonZero(b, n - 1)
  }

  /** How many bytes of the last block are data, if its padding is valid. */
  function DataLength(scheme: Scheme, b: Block): Option<nat>
  {
    var p := b[Bs - 1] as nat;
    var r := LastNonZero(b, Bs);
    match scheme
    case NoPadding => Some(Bs)
    case Pkcs7 =>
      if 1 <= p <= Bs && (forall k :: Bs - p <= k < Bs ==> b[k] == b[Bs - 1]) then Some(Bs - p) else None
    case OneAndZeros => if r > 0 && b[r - 1] == 0x80 then Some(r - 1) else None
    case ZerosAndLen =>
      if 1 <= p <= Bs && (forall k :: Bs - p <= k < Bs - 1 ==> b[k] == 0) then Some(Bs - p) else None
    case ZeroBytes => Some(r)
  }

  // ---------- recognising what was added ----------

  lemma FillingShape(scheme: Scheme, n: nat)
    requires 1 <= n <= Bs && scheme != NoPadding
    ensures forall k :: 0 <= k < n ==> Filling(scheme, n)[k] == match scheme
      case Pkcs7 => n as bv8
      case OneAndZeros => if k == 0 then 0x80 else 0
      case ZerosAndLen => if k == n - 1 then n as bv8 else 0
      case ZeroBytes => 0
  {}

  lemma Pkcs7Recognised(b: Block, n: nat)
    requires 1 <= n <= Bs && forall k :: Bs - n <= k < Bs ==> b[k] == n as bv8
    ensures DataLength(Pkcs7, b) == Some(Bs - n)
  {
    hide LastNonZero;
    ByteRoundTrip(n);
  }

  lemma LengthRecognised(b: Block, n: nat)
    requires 1 <= n <= Bs && b[Bs - 1] == n as bv8 && forall k :: Bs - n <= k < Bs - 1 ==> b[k] == 0
    ensures DataLength(ZerosAndLen, b) == Some(Bs - n)
  {
    hide LastNonZero;
    ByteRoundTrip(n);
  }

  lemma OtherLengths(b: Block)
    ensures DataLength(ZeroBytes, b) == Some(LastNonZero(b, Bs))
    ensures var r := LastNonZero(b, Bs); r > 0 && b[r - 1] == 0x80 ==> DataLength(OneAndZeros, b) == Some(r - 1)
  {
    hide LastNonZero;
  }

  /** The last nonzero byte, recognised by what stands behind it. */
  lemma LastIs(b: Block, r: nat)
    requires 0 < r <= Bs && b[r - 1] != 0 && forall k :: r <= k < Bs ==> b[k] == 0
    ensures LastNonZero(b, Bs) == r
  {
    hide LastNonZero;
  }

  lemma LastBefore(b: Block, r: nat)
    requires r <= Bs && (r > 0 ==> b[r - 1] == 0) && forall k :: r <= k < Bs ==> b[k] == 0
    ensures if r > 0 then LastNonZero(b, Bs) < r else LastNonZero(b, Bs) == 0
  {
    hide LastNonZero;
  }

  lemma PaddingRecognised(scheme: Scheme, m: Bytes)
    requires |m| < Bs && scheme != NoPadding
    ensures scheme != ZeroBytes ==>
      DataLength(scheme, m + Filling(scheme, Bs - |m|)) == Some(|m|)
    ensures scheme == ZeroBytes ==>
      (DataLength(scheme, m + Filling(scheme, Bs - |m|)) == Some(|m|)
       <==> m == [] || m[|m| - 1] != 0)
  {
    hide Filling, DataLength, LastNonZero;
    var n := Bs - |m|;
    var f := Filling(scheme, n);
    var b: Block := m + f;
    FillingShape(scheme, n);
    forall k | |m| <= k < Bs ensures b[k] == f[k - |m|] {}
    match scheme
    case Pkcs7 =>
      Pkcs7Recognised(b, n);
    case OneAndZeros =>
      LastIs(b, |m| + 1);
      OtherLengths(b);
    case ZerosAndLen =>
      LengthRecognised(b, n);
    case ZeroBytes =>
      OtherLengths(b);
      if m != [] && m[|m| - 1] != 0 {
        assert b[|m| - 1] == m[|m| - 1];
        LastIs(b, |m|);
      } else {
        LastBefore(b, |m|);
      }
  }

  /** Nothing else is recognised: behind the data stands what would have been added. */
  lemma OnlyPadded(scheme: Scheme, b: Block, n: nat)
    requires DataLength(scheme, b) == Some(n)
    ensures n <= Bs && (n < Bs ==> scheme != NoPadding && b[n..] == Filling(scheme, Bs - n))
  {
    hide DataLength, Filling;
    LengthInBlock(scheme, b);
    if n < Bs {
      LengthMeans(scheme, b, n);
      FillingShape(scheme, Bs - n);
      var f := Filling(scheme, Bs - n);
      forall k | n <= k < Bs ensures b[k] == f[k - n] {}
    }
  }

  lemma LengthInBlock(scheme: Scheme, b: Block)
    ensures DataLength(scheme, b).Some? ==> DataLength(scheme, b).value <= Bs
    ensures scheme == NoPadding ==> DataLength(scheme, b) == Some(Bs)
  {
    hide LastNonZero;
  }

  /** What stands behind the data. */
  lemma LengthMeans(scheme: Scheme, b: Block, n: nat)
    requires DataLength(scheme, b) == Some(n) && n < Bs && scheme != NoPadding
    ensures forall k :: n <= k < Bs ==> b[k] == match scheme
      case Pkcs7 => (Bs - n) as bv8
      case OneAndZeros => if k == n then 0x80 else 0
      case ZerosAndLen => if k == Bs - 1 then (Bs - n) as bv8 else 0
      case ZeroBytes => 0
  {
    hide LastNonZero;
    if scheme == Pkcs7 || scheme == ZerosAndLen { Blocks.SameByte(Bs - n, b[Bs - 1]); }
  }

  /** A single zero byte does not survive zero padding. */
  lemma ZeroByteLost()
    ensures DataLength(ZeroBytes, [0] + Filling(ZeroBytes, Bs - 1)) == Some(0)
  {
    PaddingRecognised(ZeroBytes, [0]);
    var b := [0] + Filling(ZeroBytes, Bs - 1);
    assert forall k :: 0 <= k < Bs ==> b[k] == 0;
  }

  // ---------- the code ----------

  /** Fill the block from dataLen on. */
  method AddPadding(scheme: Scheme, output: array<bv8>, dataLen: nat)
    requires output.Length == Bs && dataLen < Bs && scheme != NoPadding
    modifies output
    ensures output[..dataLen] == old(output[..dataLen])
    ensures output[dataLen..] == Filling(scheme, Bs - dataLen)
  {
    var n := Bs - dataLen;
    match scheme {
      case Pkcs7 =>
        var i := 0;
        while i < n
          invariant 0 <= i <= n && output[..dataLen] == old(output[..dataLen])
          invariant forall k :: dataLen <= k < dataLen + i ==> output[k] == n as bv8
        {
          output[dataLen + i] := n as bv8;
          i := i + 1;
        }
      case OneAndZeros =>
        output[dataLen] := 0x80;
        var i := 1;
        while i < n
          invariant 1 <= i <= n && output[..dataLen] == old(output[..dataLen]) && output[dataLen] == 0x80
          invariant forall k :: dataLen < k < dataLen + i ==> output[k] == 0
        {
          output[dataLen + i] := 0;
          i := i + 1;
        }
      case ZerosAndLen =>
        var i := 1;
        while i < n
          invariant 1 <= i <= n && output[..dataLen] == old(output[..dataLen])
          invariant forall k :: dataLen <= k < dataLen + i - 1 ==> output[k] == 0
        {
          output[dataLen + i - 1] := 0;
          i := i + 1;
        }
        output[Bs - 1] := n as bv8;
      case ZeroBytes =>
        var i := dataLen;
        while i < Bs
          invariant dataLen <= i <= Bs && output[..dataLen] == old(output[..dataLen])
          invariant forall k :: dataLen <= k < i ==> output[k] == 0
        {
          output[i] := 0;
          i := i + 1;
        }
    }
  }

  /** An unsigned char takes in the low byte of a word. */
  function OrByte(bad: nat, x: nat): (r: nat)
    requires bad < 256
    ensures r < 256 && (r == 0 <==> bad == 0 && x % 256 == 0)
  {
    ByteOr(bad, x);
    BitOr(bad, x) % 256
  }

  lemma ByteOr(bad: nat, x: nat)
    requires bad < 256
    ensures BitOr(bad, x) % 256 == 0 <==> bad == 0 && x % 256 == 0
  {
    hide BitOr, Pow2;
    Pow2Values();
    OrLow(bad, x, 8);
    OrIsZero(bad, x % 256);
  }

  const AllOnes: Size := AllSet()

  function AllSet(): (m: Size)
    ensures m == Pow2(sizeL) - 1
  {
    Pow2(sizeL) - 1
  }

  /** The widths: all ones truncate to 255, and an unsigned int fits a size_t. */
  lemma Widths()
    ensures AllOnes == Pow2(sizeL) - 1 && AllOnes % 256 == 255
    ensures 0x1_0000_0000 == Pow2(32) <= Pow2(sizeL) && Pow2(sizeL) % Pow2(32) == 0
  {
    Pow2WordValues();
  }

  /** What one compared byte adds to bad: nothing, unless it is compared and different. */
  lemma Compared(x: nat, y: nat, mask: nat)
    requires x < 256 && y < 256 && (mask == 0 || mask == AllOnes)
    ensures BitAnd(BitXor(x, y), mask) % 256 == 0 <==> mask == 0 || x == y
    ensures BitAnd(x, mask) % 256 == 0 <==> mask == 0 || x == 0
  {
    hide Pow2, BitAnd, BitXor;
    Widths();
    Pow2Values();
    TopOfXor(x, y, 7);
    XorZero(x, y);
    AndAll(BitXor(x, y), sizeL);
    AndAll(x, sizeL);
  }

  lemma SameByte(x: bv8, y: bv8)
    ensures x as nat == y as nat <==> x == y
    ensures x as nat == 0 <==> x == 0
    ensures x as nat == 0x80 <==> x == 0x80
  {}

  /** The four readers, with the masks of the source. Every byte of the block is looked at. */
  method GetPadding(scheme: Scheme, b: Block) returns (ok: bool, dataLen: nat)
    ensures ok <==> DataLength(scheme, b).Some?
    ensures ok ==> dataLen == DataLength(scheme, b).value
  {
    match scheme {
      case NoPadding => return true, Bs;
      case Pkcs7 => ok, dataLen := GetPkcs7(b);
      case OneAndZeros => ok, dataLen := GetOneAndZeros(b);
      case ZerosAndLen => ok, dataLen := GetZerosAndLen(b);
      case ZeroBytes => ok := true; dataLen := GetZeroBytes(b);
    }
  }

  /** The first test of the padding length, in both forms. */
  lemma LengthTest(p: Size)
    requires p < 256 && Bs + 1 < 256 < Pow2(sizeL)
    ensures Complement(SizeMaskGe(Bs, p), sizeL) % 256 == 0 <==> p <= Bs
    ensures SizeMaskGe(p, Bs + 1) % 256 == 0 <==> p <= Bs
  {
    hide Pow2, SizeMaskGe, Complement;
    Widths();
    AllSetOrNot();
    SizeMaskOfBytes(Bs, p);
    SizeMaskOfBytes(p, Bs + 1);
  }

  lemma AllSetOrNot()
    ensures (Pow2(sizeL) - 1) % 256 == 255
    ensures Complement(Pow2(sizeL) - 1, sizeL) == 0 && Complement(0, sizeL) == Pow2(sizeL) - 1
  {
    hide Pow2;
    Widths();
  }

  /** Both tests of the padding length together. */
  lemma BadLength(p: Size)
    requires p < 256 && Bs + 1 < 256 < Pow2(sizeL)
    ensures OrByte(OrByte(0, Complement(SizeMaskGe(Bs, p), sizeL)), SizeBoolEq(p, 0)) == 0 <==> 1 <= p <= Bs
    ensures OrByte(OrByte(0, SizeMaskGe(p, Bs + 1)), SizeBoolEq(p, 0)) == 0 <==> 1 <= p <= Bs
  {
    hide *;
    LengthTest(p);
    ZeroTest(p);
  }

  lemma ZeroTest(p: Size)
    requires 0 < Pow2(sizeL)
    ensures SizeBoolEq(p, 0) % 256 == 0 <==> p != 0
  {
    hide *;
    BitByte(p == 0);
  }

  lemma BitByte(c: bool)
    ensures Bit(c) % 256 == 0 <==> !c
  {}

  /** Inside the block the mask picks the padding. */
  lemma PickPadding(i: Size, p: Size, x: nat, y: nat)
    requires 1 <= p <= Bs && i < 256 && x < 256 && y < 256 && Bs < Pow2(sizeL)
    ensures var mask := SizeMaskGe(i, Minus(Bs, p, sizeL));
      (BitAnd(BitXor(x, y), mask) % 256 == 0 <==> i < Bs - p || x == y)
      && (BitAnd(x, mask) % 256 == 0 <==> i < Bs - p || x == 0)
  {
    hide Pow2, SizeMaskGe, BitAnd, BitXor;
    Widths();
    SizeMaskOfBytes(i, Minus(Bs, p, sizeL));
    Compared(x, y, SizeMaskGe(i, Minus(Bs, p, sizeL)));
  }

  /** b[from..to] holds v only. */
  ghost predicate Run(b: Bytes, from: int, to: int, v: bv8) {
    forall k :: from <= k < to && 0 <= k < |b| ==> b[k] == v
  }

  lemma RunStep(b: Bytes, from: int, to: nat, v: bv8)
    requires to < |b|
    ensures Run(b, from, to + 1, v) <==> Run(b, from, to, v) && (to < from || b[to] == v)
  {}

  lemma ByRun(b: Block, p: nat)
    requires p == b[Bs - 1] as nat
    ensures DataLength(Pkcs7, b) == if 1 <= p <= Bs && Run(b, Bs - p, Bs, b[Bs - 1]) then Some(Bs - p) else None
    ensures DataLength(ZerosAndLen, b) == if 1 <= p <= Bs && Run(b, Bs - p, Bs - 1, 0) then Some(Bs - p) else None
  {}

  lemma Pkcs7Step(b: Block, p: Size, i: Size, bad: nat)
    requires p == b[Bs - 1] as nat && i < Bs < Pow2(sizeL) && p < 256 && bad < 256
    requires bad == 0 <==> 1 <= p <= Bs && Run(b, Bs - p, i, b[Bs - 1])
    ensures OrByte(bad, BitAnd(BitXor(b[i] as nat, p), SizeMaskGe(i, Minus(Bs, p, sizeL)))) == 0
      <==> 1 <= p <= Bs && Run(b, Bs - p, i + 1, b[Bs - 1])
  {
    hide *;
    if 1 <= p <= Bs { PickPadding(i, p, b[i] as nat, p); }
    SameByte(b[i], b[Bs - 1]);
    RunStep(b, Bs - p, i, b[Bs - 1]);
  }

  lemma ZerosStep(b: Block, p: Size, i: Size, bad: nat)
    requires p == b[Bs - 1] as nat && i < Bs < Pow2(sizeL) && p < 256 && bad < 256
    requires bad == 0 <==> 1 <= p <= Bs && Run(b, Bs - p, i, 0)
    ensures OrByte(bad, BitAnd(b[i] as nat, SizeMaskGe(i, Minus(Bs, p, sizeL)))) == 0
      <==> 1 <= p <= Bs && Run(b, Bs - p, i + 1, 0)
  {
    hide *;
    if 1 <= p <= Bs { PickPadding(i, p, b[i] as nat, 0); }
    SameByte(b[i], 0);
    RunStep(b, Bs - p, i, 0);
  }

  /** With a padding length of 0 or beyond the block the start of the padding wraps and the masks
      select the wrong bytes; bad is set before that and stays set. */
  method GetPkcs7(b: Block) returns (ok: bool, dataLen: Size)
    ensures ok <==> DataLength(Pkcs7, b).Some?
    ensures ok ==> dataLen == DataLength(Pkcs7, b).value
  {
    hide *;
    SizeRange();
    Widths();
    var p: Size := b[Bs - 1] as nat;
    ByRun(b, p);
    BadLength(p);
    dataLen := Minus(Bs, p, sizeL);
    var bad := OrByte(0, Complement(SizeMaskGe(Bs, p), sizeL));
    bad := OrByte(bad, SizeBoolEq(p, 0));
    var padIdx := Minus(Bs, p, sizeL);
    var i := 0;
    RunStart(b, Bs - p, b[Bs - 1]);
    while i < Bs
      invariant 0 <= i <= Bs && bad < 256
      invariant bad == 0 <==> 1 <= p <= Bs && Run(b, Bs - p, i, b[Bs - 1])
    {
      var mask := SizeMaskGe(i, padIdx);
      Pkcs7Step(b, p, i, bad);
      bad := OrByte(bad, BitAnd(BitXor(b[i] as nat, p), mask));
      i := i + 1;
    }
    ok := UintIf(bad, 0x6200, 0) == 0;
  }

  lemma RunStart(b: Bytes, from: int, v: bv8)
    ensures Run(b, from, 0, v)
  {}

  method GetZerosAndLen(b: Block) returns (ok: bool, dataLen: Size)
    ensures ok <==> DataLength(ZerosAndLen, b).Some?
    ensures ok ==> dataLen == DataLength(ZerosAndLen, b).value
  {
    hide *;
    SizeRange();
    Widths();
    var p: Size := b[Bs - 1] as nat;
    ByRun(b, p);
    BadLength(p);
    dataLen := Minus(Bs, p, sizeL);
    var bad := OrByte(0, SizeMaskGe(p, Bs + 1));
    bad := OrByte(bad, SizeBoolEq(p, 0));
    var padIdx := Minus(Bs, p, sizeL);
    var i := 0;
    RunStart(b, Bs - p, 0);
    while i < Bs - 1
      invariant 0 <= i <= Bs - 1 && bad < 256
      invariant bad == 0 <==> 1 <= p <= Bs && Run(b, Bs - p, i, 0)
    {
      var mask := SizeMaskGe(i, padIdx);
      ZerosStep(b, p, i, bad);
      bad := OrByte(bad, BitAnd(b[i] as nat, mask));
      i := i + 1;
    }
    ok := UintIf(bad, 0x6200, 0) == 0;
  }

  /** The bits above an unsigned int in a size_t. */
  function HighBits(): (m: Size)
    ensures m == Pow2(sizeL) - Pow2(32)
  {
    Widths();
    Pow2(sizeL) - Pow2(32)
  }

  /** What a mask with nothing, and with everything, selects. */
  lemma HitNothing(i: Size, dataLen: Size)
    ensures BitOr(BitAnd(dataLen, Complement(0, sizeL)), BitAnd(i, 0)) == dataLen
  {
    hide Pow2, BitAnd, BitOr;
    AndAll(dataLen, sizeL);
    AndAll(i, sizeL);
    OrZero(dataLen);
  }

  lemma HitAll(i: nat, y: nat)
    requires i < 16
    ensures BitOr(BitAnd(0, y), BitAnd(i, Pow2(32) - 1)) == i
  {
    hide Pow2, BitAnd, BitOr;
    Widths();
    AndAll(i, 32);
    OrZero(y);
    AndCommutes(0, y);
    OrZero(i);
  }

  /** One byte x at position i, the first nonzero one seen from the end or not. The mask of the
      byte is an unsigned int, so with a wider size_t the high bits of inPadding stay set; they
      meet no later mask. */
  lemma FirstHit(x: nat, i: nat, dataLen: Size, inPadding: Size)
    requires x < 256 && i < 16 && i < Pow2(sizeL) && UintMask(x) < Pow2(sizeL)
    requires (inPadding == AllOnes && dataLen == 0) || inPadding == HighBits()
    ensures var isNonzero := UintMask(x);
      var hit := BitAnd(isNonzero, inPadding);
      hit == (if x != 0 && inPadding == AllOnes then Pow2(32) - 1 else 0)
      && hit < Pow2(sizeL)
      && BitOr(BitAnd(dataLen, Complement(hit, sizeL)), BitAnd(i, hit)) == (if hit != 0 then i else dataLen)
      && BitAnd(inPadding, Complement(isNonzero, sizeL)) == (if x != 0 then HighBits() else inPadding)
  {
    hide Pow2, BitAnd, BitOr, UintMask;
    Widths();
    UintMaskIs(x);
    HitNothing(i, dataLen);
    AndAll(inPadding, sizeL);
    if x != 0 && inPadding == AllOnes {
      AndAll(Pow2(32) - 1, sizeL);
      AndAll(HighBits(), sizeL);
      HitAll(i, Complement(Pow2(32) - 1, sizeL));
    } else if x != 0 {
      AndMask(HighBits(), 32);
      AndCommutes(Pow2(32) - 1, HighBits());
      HighBitsAbove();
      AndSelf(HighBits());
    }
  }

  lemma UintMaskIs(x: Uint)
    ensures UintMask(x) == if x != 0 then Pow2(32) - 1 else 0
  {}

  lemma HighBitsAbove()
    ensures HighBits() % Pow2(32) == 0
  {
    hide Pow2;
    Widths();
    DivModShift(-1, Pow2(sizeL), Pow2(32));
  }

  /** One byte: the first nonzero one that is met sets everything, all others nothing. */
  method LookAt(x: bv8, i: nat, dataLen0: Size, inPadding0: Size, bad0: Uint)
    returns (dataLen: Size, inPadding: Size, bad: Uint)
    requires i < 16 && i < Pow2(sizeL)
    requires (inPadding0 == AllOnes && dataLen0 == 0) || inPadding0 == HighBits()
    ensures if x != 0 && inPadding0 == AllOnes
            then dataLen == i && inPadding == HighBits() && (bad == 0 <==> x == 0x80)
            else dataLen == dataLen0 && inPadding == inPadding0 && bad == bad0
  {
    hide Pow2, BitAnd, BitOr, UintMask;
    SizeRange();
    Widths();
    SameByte(x, 0);
    UintMaskIs(x as nat);
    FirstHit(x as nat, i, dataLen0, inPadding0);
    var isNonzero: Size := UintMask(x as nat);
    var hit: Size := BitAnd(isNonzero, inPadding0);
    dataLen := BitOr(BitAnd(dataLen0, Complement(hit, sizeL)), BitAnd(i, hit));
    bad := UintIf(hit % 0x1_0000_0000, 1 - SizeBoolEq(x as nat, 0x80), bad0);
    inPadding := BitAnd(inPadding0, Complement(isNonzero, sizeL));
    ModSmall(hit, Pow2(32));
  }

  /** From the last byte back; the first nonzero byte met decides. */
  method GetOneAndZeros(b: Block) returns (ok: bool, dataLen: Size)
    ensures ok <==> DataLength(OneAndZeros, b).Some?
    ensures ok ==> dataLen == DataLength(OneAndZeros, b).value
  {
    hide Pow2, BitAnd, BitOr, UintMask;
    SizeRange();
    Widths();
    var bad: Uint := 1;
    var inPadding: Size := AllOnes;
    dataLen := 0;
    var i := Bs;
    while i > 0
      invariant 0 <= i <= Bs
      invariant inPadding == AllOnes || inPadding == HighBits()
      invariant inPadding == AllOnes ==> bad != 0 && dataLen == 0 && LastNonZero(b, Bs) == LastNonZero(b, i)
      invariant inPadding != AllOnes ==>
        dataLen < Bs && LastNonZero(b, Bs) == dataLen + 1 && (bad == 0 <==> b[dataLen] == 0x80)
    {
      i := i - 1;
      dataLen, inPadding, bad := LookAt(b[i], i, dataLen, inPadding, bad);
    }
    ok := UintIf(bad, 0x6200, 0) == 0;
  }

  /** done turns from 0 to 1 at the last nonzero byte, and there alone the mask is set. */
  method GetZeroBytes(b: Block) returns (dataLen: Size)
    ensures DataLength(ZeroBytes, b) == Some(dataLen)
  {
    hide Pow2, BitAnd, BitOr, BitXor, SizeMask;
    SizeRange();
    var done: nat := 0;
    dataLen := 0;
    var i := Bs;
    while i > 0
      invariant 0 <= i <= Bs && done <= 1
      invariant done == 0 ==> dataLen == 0 && LastNonZero(b, Bs) == LastNonZero(b, i)
      invariant done == 1 ==> LastNonZero(b, Bs) == dataLen
    {
      var prevDone := done;
      var seen := 1 - SizeBoolEq(b[i - 1] as nat, 0);
      SameByte(b[i - 1], 0);
      DoneBits();
      done := BitOr(done, seen);
      var mask := SizeMask(BitXor(done, prevDone));
      LatchPosition(i, dataLen, BitXor(done, prevDone));
      dataLen := BitOr(dataLen, BitAnd(i, mask));
      i := i - 1;
    }
  }

  lemma DoneBits()
    ensures BitOr(0, 0) == 0 && BitOr(0, 1) == 1 && BitOr(1, 0) == 1 && BitOr(1, 1) == 1
    ensures BitXor(0, 0) == 0 && BitXor(1, 0) == 1 && BitXor(1, 1) == 0
  {}

  lemma LatchPosition(i: Size, dataLen: Size, change: Size)
    requires change != 0 ==> dataLen == 0
    ensures BitOr(dataLen, BitAnd(i, SizeMask(change))) == if change != 0 then i else dataLen
  {
    hide Pow2, BitAnd, BitOr;
    AndAll(i, sizeL);
    OrZero(i);
    OrZero(dataLen);
  }
}
