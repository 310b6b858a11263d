/** AES-XTS (aes.c) with ciphertext stealing, over any block permutation. */
module Xts {
  import opened Blocks

  // ---------- the tweak ----------

  function WordOf(x0: bv8, x1: bv8, x2: bv8, x3: bv8, x4: bv8, x5: bv8, x6: bv8, x7: bv8): bv64 {
    (x0 as bv64) | ((x1 as bv64) << 8) | ((x2 as bv64) << 16) | ((x3 as bv64) << 24)
    | ((x4 as bv64) << 32) | ((x5 as bv64) << 40) | ((x6 as bv64) << 48) | ((x7 as bv64) << 56)
  }

  /** Eight bytes as a little-endian word, and back. */
  function GetLe(s: Bytes, off: nat): bv64
    requires off + 8 <= |s|
  {
    WordOf(s[off], s[off + 1], s[off + 2], s[off + 3], s[off + 4], s[off + 5], s[off + 6], s[off + 7])
  }

  function PutLe(w: bv64): (s: Bytes)
    ensures |s| == 8
  {
    [(w & 0xFF) as bv8, ((w >> 8) & 0xFF) as bv8, ((w >> 16) & 0xFF) as bv8, ((w >> 24) & 0xFF) as bv8,
     ((w >> 32) & 0xFF) as bv8, ((w >> 40) & 0xFF) as bv8, ((w >> 48) & 0xFF) as bv8, (w >> 56) as bv8]
  }

  /** The two words of the product by x. */
  function LowWord(a: bv64, b: bv64): bv64 {
    (a << 1) ^ ((0x87 as bv64) >> (8 - ((b >> 63) << 3)))
  }

  function HighWord(a: bv64, b: bv64): bv64 { (a >> 63) | (b << 1) }

  /** mbedtls_gf128mul_x_ble. */
  function MulX(x: Block16): Block16 {
    var a, b := GetLe(x, 0), GetLe(x, 8);
    PutLe(LowWord(a, b)) + PutLe(HighWord(a, b))
  }

  /** The polynomial over GF(2) of a block: coefficient 8 i + b is bit b of byte i. */
  function Poly(x: Block16): (p: seq<bool>)
    ensures |p| == 128 && forall k :: 0 <= k < 128 ==> p[k] == BitOf(x[k / 8], k % 8)
  {
    seq(128, k requires 0 <= k < 128 => BitOf(x[k / 8], k % 8))
  }

  lemma PolyInjective(x: Block16, y: Block16)
    requires Poly(x) == Poly(y)
    ensures x == y
  {
    hide BitOf;
    forall i | 0 <= i < 16 ensures x[i] == y[i] {
      forall b | 0 <= b < 8 ensures BitOf(x[i], b) == BitOf(y[i], b) {
        var k := 8 * i + b;
        assert k / 8 == i && k % 8 == b && Poly(x)[k] == Poly(y)[k];
      }
      SameBits(x[i], y[i]);
    }
  }

  /** Multiplication by x modulo x^128 + x^7 + x^2 + x + 1. */
  function TimesX(p: seq<bool>): (r: seq<bool>)
    requires |p| == 128
    ensures |r| == 128
    ensures forall k :: 0 <= k < 128 ==> r[k] == ((k > 0 && p[k - 1]) != (p[127] && k in {0, 1, 2, 7}))
  {
    seq(128, k requires 0 <= k < 128 => (k > 0 && p[k - 1]) != (p[127] && k in {0, 1, 2, 7}))
  }

  /** Multiplication by x^j. */
  function TimesPower(p: seq<bool>, j: nat): (r: seq<bool>)
    requires |p| == 128
    ensures |r| == 128
  {
    if j == 0 then p else TimesX(TimesPower(p, j - 1))
  }

  /** The bytes of the low word, from those of the two factors. */
  lemma LowBytes(x0: bv8, x1: bv8, x2: bv8, x3: bv8, x4: bv8, x5: bv8, x6: bv8, x7: bv8, b: bv64)
    ensures var w := LowWord(WordOf(x0, x1, x2, x3, x4, x5, x6, x7), b);
            (w & 0xFF) as bv8 == (x0 << 1) ^ (if b >> 63 == 1 then 0x87 else 0)
            && ((w >> 8) & 0xFF) as bv8 == (x1 << 1) | (x0 >> 7)
            && ((w >> 16) & 0xFF) as bv8 == (x2 << 1) | (x1 >> 7)
            && ((w >> 24) & 0xFF) as bv8 == (x3 << 1) | (x2 >> 7)
            && ((w >> 32) & 0xFF) as bv8 == (x4 << 1) | (x3 >> 7)
            && ((w >> 40) & 0xFF) as bv8 == (x5 << 1) | (x4 >> 7)
            && ((w >> 48) & 0xFF) as bv8 == (x6 << 1) | (x5 >> 7)
            && (w >> 56) as bv8 == (x7 << 1) | (x6 >> 7)
  {}

  lemma HighBytes(y: bv8, x0: bv8, x1: bv8, x2: bv8, x3: bv8, x4: bv8, x5: bv8, x6: bv8, x7: bv8, a: bv64)
    requires a >> 63 == (y >> 7) as bv64
    ensures var w := HighWord(a, WordOf(x0, x1, x2, x3, x4, x5, x6, x7));
            (w & 0xFF) as bv8 == (x0 << 1) | (y >> 7)
            && ((w >> 8) & 0xFF) as bv8 == (x1 << 1) | (x0 >> 7)
            && ((w >> 16) & 0xFF) as bv8 == (x2 << 1) | (x1 >> 7)
            && ((w >> 24) & 0xFF) as bv8 == (x3 << 1) | (x2 >> 7)
            && ((w >> 32) & 0xFF) as bv8 == (x4 << 1) | (x3 >> 7)
            && ((w >> 40) & 0xFF) as bv8 == (x5 << 1) | (x4 >> 7)
            && ((w >> 48) & 0xFF) as bv8 == (x6 << 1) | (x5 >> 7)
            && (w >> 56) as bv8 == (x7 << 1) | (x6 >> 7)
  {}

  lemma TopOfWord(x0: bv8, x1: bv8, x2: bv8, x3: bv8, x4: bv8, x5: bv8, x6: bv8, x7: bv8)
    ensures var w := WordOf(x0, x1, x2, x3, x4, x5, x6, x7);
            w >> 63 == (x7 >> 7) as bv64 && (w >> 63 == 1 <==> x7 >> 7 == 1)
  {}

  /** Byte i of the product by x: every byte takes in the top bit of the one before, and what
      falls out at the end comes back at the beginning. */
  function ProductByte(x: Block16, i: nat): bv8
    requires i < 16
  {
    if i == 0 then (x[0] << 1) ^ (if x[15] >> 7 == 1 then 0x87 else 0) else (x[i] << 1) | (x[i - 1] >> 7)
  }

  lemma MulXBytes(x: Block16, i: nat)
    requires i < 16
    ensures MulX(x)[i] == ProductByte(x, i)
  {
    hide PutLe, LowWord, HighWord, WordOf, ProductByte;
    var a, b := GetLe(x, 0), GetLe(x, 8);
    var low, high := PutLe(LowWord(a, b)), PutLe(HighWord(a, b));
    TopOfWord(x[0], x[1], x[2], x[3], x[4], x[5], x[6], x[7]);
    TopOfWord(x[8], x[9], x[10], x[11], x[12], x[13], x[14], x[15]);
    LowProduct(x, b);
    HighProduct(x, a);
    assert MulX(x)[i] == if i < 8 then low[i] else high[i - 8];
    if i < 8 { EightCases(i); } else { EightCases(i - 8); }
  }

  lemma EightCases(i: nat)
    requires i < 8
    ensures i == 0 || i == 1 || i == 2 || i == 3 || i == 4 || i == 5 || i == 6 || i == 7
  {}

  lemma LowProduct(x: Block16, b: bv64)
    requires b >> 63 == 1 <==> x[15] >> 7 == 1
    ensures var s := PutLe(LowWord(GetLe(x, 0), b));
            s[0] == ProductByte(x, 0) && s[1] == ProductByte(x, 1) && s[2] == ProductByte(x, 2)
            && s[3] == ProductByte(x, 3) && s[4] == ProductByte(x, 4) && s[5] == ProductByte(x, 5)
            && s[6] == ProductByte(x, 6) && s[7] == ProductByte(x, 7)
  {
    hide LowWord, WordOf;
    LowBytes(x[0], x[1], x[2], x[3], x[4], x[5], x[6], x[7], b);
  }

  lemma HighProduct(x: Block16, a: bv64)
    requires a >> 63 == (x[7] >> 7) as bv64
    ensures var s := PutLe(HighWord(a, GetLe(x, 8)));
            s[0] == ProductByte(x, 8) && s[1] == ProductByte(x, 9) && s[2] == ProductByte(x, 10)
            && s[3] == ProductByte(x, 11) && s[4] == ProductByte(x, 12) && s[5] == ProductByte(x, 13)
            && s[6] == ProductByte(x, 14) && s[7] == ProductByte(x, 15)
  {
    hide HighWord, WordOf;
    HighBytes(x[7], x[8], x[9], x[10], x[11], x[12], x[13], x[14], x[15], a);
  }

  lemma FirstByte(x: bv8, top: bv8, i: nat)
    requires i < 8
    ensures BitOf((x << 1) ^ (if top >> 7 == 1 then 0x87 else 0), i)
      == ((i > 0 && BitOf(x, i - 1)) != (BitOf(top, 7) && i in {0, 1, 2, 7}))
  {}

  /** The word arithmetic is multiplication by x in GF(2^128). */
  lemma MulXIsTimesX(x: Block16)
    ensures Poly(MulX(x)) == TimesX(Poly(x))
  {
    hide MulX, BitOf, ProductByte;
    forall k | 0 <= k < 128 ensures Poly(MulX(x))[k] == TimesX(Poly(x))[k] {
      MulXBytes(x, k / 8);
      ProductBit(x, k / 8, k % 8);
    }
  }

  lemma ProductBit(x: Block16, i: nat, b: nat)
    requires i < 16 && b < 8
    ensures var k, p := 8 * i + b, Poly(x);
            BitOf(ProductByte(x, i), b) == ((k > 0 && p[k - 1]) != (p[127] && k in {0, 1, 2, 7}))
  {
    hide BitOf;
    var k := 8 * i + b;
    if b > 0 {
      assert (k - 1) / 8 == i && (k - 1) % 8 == b - 1;
    } else if i > 0 {
      assert (k - 1) / 8 == i - 1 && (k - 1) % 8 == 7;
    }
    if i == 0 { FirstByte(x[0], x[15], b); } else { ShiftedBits(x[i], x[i - 1], b); }
  }

  // ---------- the whole-message definition ----------

  datatype Direction = Forward | Backward

  /** One block between two applications of the tweak. */
  function One(c: BlockCipher, d: Direction, t: Block16, b: Block16): Block16
    requires Sound(c, 16)
  {
    var x := Xor(b, t);
    Xor(if d == Forward then c.enc(x) else c.dec(x), t)
  }

  lemma OneInverse(c: BlockCipher, t: Block16, b: Block16)
    requires Sound(c, 16)
    ensures One(c, Backward, t, One(c, Forward, t, b)) == b
  {
    XorTwice(b, t);
    XorTwice(c.enc(Xor(b, t)), t);
  }

  /** The tweak k blocks further on. */
  function Tweak(t: Block16, k: nat): Block16 {
    if k == 0 then t else MulX(Tweak(t, k - 1))
  }

  lemma {:induction false} TweakIsPower(t: Block16, k: nat)
    ensures Poly(Tweak(t, k)) == TimesPower(Poly(t), k)
    decreases k
  {
    hide Poly, TimesX, MulX;
    if k > 0 {
      TweakIsPower(t, k - 1);
      MulXIsTimesX(Tweak(t, k - 1));
    }
  }

  /** So a power of x determines the tweak. */
  lemma TweakOf(t0: Block16, t: Block16, k: nat)
    requires Poly(t) == TimesPower(Poly(t0), k)
    ensures t == Tweak(t0, k)
  {
    hide Poly, TimesPower, Tweak;
    TweakIsPower(t0, k);
    PolyInjective(t, Tweak(t0, k));
  }

  /** Whole blocks, each with its own tweak. */
  function Whole(c: BlockCipher, d: Direction, t: Block16, x: Bytes): (y: Bytes)
    requires Sound(c, 16) && |x| % 16 == 0
    ensures |y| == |x|
  {
    if x == [] then []
    else
      var n := |x| - 16;
      Whole(c, d, t, x[..n]) + One(c, d, Tweak(t, n / 16), x[n..])
  }

  /** The last whole block and the bytes behind it. Encryption uses the two tweaks in order,
      decryption the other way round. */
  function Stolen(c: BlockCipher, d: Direction, t: Block16, x: Bytes): (y: Bytes)
    requires Sound(c, 16) && 16 < |x| < 32
    ensures |y| == |x|
  {
    var first, second := if d == Forward then t else MulX(t), if d == Forward then MulX(t) else t;
    var r := |x| - 16;
    var b := One(c, d, first, x[..16]);
    One(c, d, second, x[16..] + b[r..]) + b[..r]
  }

  /** A data unit of at least one block. */
  function Xts(c: BlockCipher, d: Direction, t: Block16, x: Bytes): (y: Bytes)
    requires Sound(c, 16) && |x| >= 16
    ensures |y| == |x|
  {
    if |x| % 16 == 0 then Whole(c, d, t, x)
    else
      var n := |x| - |x| % 16 - 16;
      Whole(c, d, t, x[..n]) + Stolen(c, d, Tweak(t, n / 16), x[n..])
  }

  // ---------- decryption undoes encryption ----------

  lemma {:induction false} WholeInverse(c: BlockCipher, t: Block16, x: Bytes)
    requires Sound(c, 16) && |x| % 16 == 0
    ensures Whole(c, Backward, t, Whole(c, Forward, t, x)) == x
  {
    hide One, Tweak, Whole;
    if x == [] {
      WholeNothing(c, Forward, t);
      WholeNothing(c, Backward, t);
    } else {
      var n := |x| - 16;
      var y := Whole(c, Forward, t, x);
      WholeStep(c, Forward, t, x);
      WholeStep(c, Backward, t, y);
      assert y[..n] == Whole(c, Forward, t, x[..n]) && y[n..] == One(c, Forward, Tweak(t, n / 16), x[n..]);
      WholeInverse(c, t, x[..n]);
      OneInverse(c, Tweak(t, n / 16), x[n..]);
      assert x == x[..n] + x[n..];
    }
  }

  lemma WholeStep(c: BlockCipher, d: Direction, t: Block16, x: Bytes)
    requires Sound(c, 16) && |x| % 16 == 0 && x != []
    ensures |x| >= 16 && (|x| - 16) % 16 == 0
    ensures Whole(c, d, t, x)
      == Whole(c, d, t, x[..|x| - 16]) + One(c, d, Tweak(t, (|x| - 16) / 16), x[|x| - 16..])
  {}

  lemma WholeNothing(c: BlockCipher, d: Direction, t: Block16)
    requires Sound(c, 16)
    ensures Whole(c, d, t, []) == []
  {}

  lemma StolenInverse(c: BlockCipher, t: Block16, x: Bytes)
    requires Sound(c, 16) && 16 < |x| < 32
    ensures Stolen(c, Backward, t, Stolen(c, Forward, t, x)) == x
  {
    hide One, MulX;
    var r := |x| - 16;
    var b := One(c, Forward, t, x[..16]);
    var z: Block16 := x[16..] + b[r..];
    var y := Stolen(c, Forward, t, x);
    assert y[..16] == One(c, Forward, MulX(t), z) && y[16..] == b[..r];
    OneInverse(c, MulX(t), z);
    assert z[..r] == x[16..] && z[r..] == b[r..];
    assert b[..r] + b[r..] == b;
    OneInverse(c, t, x[..16]);
    assert x == x[..16] + x[16..];
  }

  /** For every length from one block on, multiples of the block size or not. */
  lemma XtsInverse(c: BlockCipher, t: Block16, x: Bytes)
    requires Sound(c, 16) && |x| >= 16
    ensures Xts(c, Backward, t, Xts(c, Forward, t, x)) == x
  {
    hide Stolen, Whole;
    if |x| % 16 == 0 {
      WholeInverse(c, t, x);
    } else {
      var n := |x| - |x| % 16 - 16;
      var y := Xts(c, Forward, t, x);
      assert y[..n] == Whole(c, Forward, t, x[..n]) && y[n..] == Stolen(c, Forward, Tweak(t, n / 16), x[n..]);
      WholeInverse(c, t, x[..n]);
      StolenInverse(c, Tweak(t, n / 16), x[n..]);
      assert x == x[..n] + x[n..];
    }
  }

  // ---------- the buffer code ----------

  /** Cryption of one block in place of the output at off. */
  method CryptOne(c: BlockCipher, d: Direction, t: Block16, b: Block16, output: array<bv8>, off: nat)
    requires Sound(c, 16) && off + 16 <= output.Length
    modifies output
    ensures output[..] == Splice(old(output[..]), off, One(c, d, t, b))
  {
    hide Splice;
    var tmp: Block16 := Xor(b, t);
    tmp := if d == Forward then c.enc(tmp) else c.dec(tmp);
    Store(output, off, Xor(tmp, t));
  }

  /** The first k bytes of src are done; the rest of it still stands in the input. */
  ghost predicate Progress(c: BlockCipher, d: Direction, t: Block16, src: Bytes, was: Bytes, k: nat,
                           tweak: Block16, inp: Bytes, output: Bytes)
  {
    Sound(c, 16) && Unread(inp, k, src) && |src| <= |was| && k % 16 == 0 && tweak == Tweak(t, k / 16)
    && output == Splice(was, 0, Whole(c, d, t, src[..k]))
  }

  lemma WholeAppend(c: BlockCipher, d: Direction, t: Block16, x: Bytes, b: Block16)
    requires Sound(c, 16) && |x| % 16 == 0
    ensures Whole(c, d, t, x + b) == Whole(c, d, t, x) + One(c, d, Tweak(t, |x| / 16), b)
  {
    hide Whole, One, Tweak;
    WholeStep(c, d, t, x + b);
    assert (x + b)[..|x|] == x && (x + b)[|x|..] == b;
  }

  lemma ReadBlock(inp: Bytes, k: nat, src: Bytes)
    requires Unread(inp, k, src) && k + 16 <= |src|
    ensures src[..k + 16] == src[..k] + inp[k..k + 16]
  {
    assert inp[k..k + 16] == inp[k..|src|][..16];
  }

  lemma ProgressStep(c: BlockCipher, d: Direction, t: Block16, src: Bytes, was: Bytes, k: nat,
                     tweak: Block16, inp: Bytes, inp': Bytes, output: Bytes, b: Block16)
    requires Progress(c, d, t, src, was, k, tweak, inp, output) && k + 16 <= |src| && b == inp[k..k + 16]
    requires k + 16 <= |output|
    requires inp' == inp || (inp == output && inp' == Splice(output, k, One(c, d, tweak, b)))
    ensures Progress(c, d, t, src, was, k + 16, MulX(tweak), inp', Splice(output, k, One(c, d, tweak, b)))
  {
    hide Whole, One, Splice, MulX, Unread;
    ReadBlock(inp, k, src) by { StillThere(c, d, t, src, was, k, tweak, inp, output); }
    WholeAppend(c, d, t, src[..k], b);
    SpliceJoin(was, 0, Whole(c, d, t, src[..k]), One(c, d, tweak, b));
    StillUnread(inp, inp', k, src, One(c, d, tweak, b));
  }

  lemma StillThere(c: BlockCipher, d: Direction, t: Block16, src: Bytes, was: Bytes, k: nat,
                   tweak: Block16, inp: Bytes, output: Bytes)
    requires Progress(c, d, t, src, was, k, tweak, inp, output)
    ensures Unread(inp, k, src) && k <= |src| <= |inp| && |output| == |was| && |src| <= |was|
  {}

  /** Whole blocks with consecutive tweaks. */
  method CryptWhole(c: BlockCipher, d: Direction, t: Block16, n: nat, input: array<bv8>, output: array<bv8>,
                    ghost src: Bytes) returns (tweak: Block16)
    requires Sound(c, 16) && 16 * n <= |src| <= input.Length && |src| <= output.Length
    requires input[..|src|] == src
    modifies output
    ensures Progress(c, d, t, src, old(output[..]), 16 * n, tweak, input[..], output[..])
  {
    hide Whole, One, Splice, MulX, Progress;
    tweak := t;
    ghost var was := output[..];
    ProgressStart(c, d, t, src, was, input[..]);
    for i := 0 to n
      invariant Progress(c, d, t, src, was, 16 * i, tweak, input[..], output[..])
    {
      ghost var inp, out := input[..], output[..];
      StillThere(c, d, t, src, was, 16 * i, tweak, inp, out);
      var b: Block16 := input[16 * i..16 * i + 16];
      assert b == inp[16 * i..16 * i + 16];
      CryptOne(c, d, tweak, b, output, 16 * i);
      ProgressStep(c, d, t, src, was, 16 * i, tweak, inp, input[..], out, b);
      tweak := MulX(tweak);
    }
  }

  lemma ProgressStart(c: BlockCipher, d: Direction, t: Block16, src: Bytes, was: Bytes, inp: Bytes)
    requires Sound(c, 16) && |src| <= |was| && |src| <= |inp| && inp[..|src|] == src
    ensures Progress(c, d, t, src, was, 0, t, inp, was)
  {
    assert src[..0] == [] && inp[0..|src|] == src;
  }

  /** Move the bytes that stay to the end, and put the input for the last round together. */
  method Exchange(t: Block16, input: array<bv8>, output: array<bv8>, k: nat, r: nat, tmp: array<bv8>)
    requires input != output && tmp != input && tmp != output && tmp.Length == 16 && 16 <= k && 0 < r < 16
    requires k + r <= input.Length && k + r <= output.Length
    modifies output, tmp
    ensures var b := old(output[k - 16..k]);
      output[..] == Splice(old(output[..]), k, b[..r]) && tmp[..] == Xor(input[k..k + r] + b[r..], t)
  {
    hide Xor;
    ghost var was, b := output[..], output[k - 16..k];
    ghost var m := input[k..k + r] + b[r..];
    var i := 0;
    while i < r
      invariant 0 <= i <= r
      invariant forall j :: 0 <= j < output.Length ==>
        output[j] == if k <= j < k + i then b[j - k] else was[j]
      invariant forall j :: 0 <= j < i ==> tmp[j] == m[j] ^ t[j]
    {
      assert m[i] == input[k + i];
      output[k + i] := output[k - 16 + i];
      tmp[i] := input[k + i] ^ t[i];
      i := i + 1;
    }
    assert output[..] == Splice(was, k, b[..r]);
    while i < 16
      modifies tmp
      invariant r <= i <= 16
      invariant forall j :: 0 <= j < i ==> tmp[j] == m[j] ^ t[j]
    {
      assert output[k - 16 + i] == was[k - 16 + i] == b[i] == m[i];
      tmp[i] := output[k - 16 + i] ^ t[i];
      i := i + 1;
    }
  }

  /** Ciphertext stealing on the block before k and the r bytes behind it. */
  method Steal(c: BlockCipher, d: Direction, t: Block16, input: array<bv8>, output: array<bv8>, k: nat, r: nat)
    requires Sound(c, 16) && input != output && 16 <= k && 0 < r < 16
    requires k + r <= input.Length && k + r <= output.Length
    modifies output
    ensures var b := old(output[k - 16..k]);
      output[..] == Splice(old(output[..]), k - 16, One(c, d, t, input[k..k + r] + b[r..]) + b[..r])
  {
    hide Splice;
    ghost var was, b := output[..], output[k - 16..k];
    var tmp := new bv8[16];
    Exchange(t, input, output, k, r, tmp);
    var e := if d == Forward then c.enc(tmp[..]) else c.dec(tmp[..]);
    StealJoin(was, k, b[..r], Xor(e, t));
    Store(output, k - 16, Xor(e, t));
  }

  lemma StealJoin(was: Bytes, k: nat, b: Bytes, y: Block16)
    requires 16 <= k && k + |b| <= |was|
    ensures Splice(Splice(was, k, b), k - 16, y) == Splice(was, k - 16, y + b)
  {}

  lemma SpliceLonger(a: Bytes, x: Bytes, b: Bytes, z: Bytes)
    requires |b| <= |z| && |x| + |z| <= |a|
    ensures Splice(Splice(a, 0, x + b), |x|, z) == Splice(a, 0, x + z)
    ensures Splice(a, 0, x + b)[|x|..|x| + |b|] == b
  {}

  /** The tweaks of the last whole block and of the bytes behind it. */
  function FirstTweak(d: Direction, t: Block16): Block16 { if d == Forward then t else MulX(t) }

  function SecondTweak(d: Direction, t: Block16): Block16 { if d == Forward then MulX(t) else t }

  lemma StolenIs(c: BlockCipher, d: Direction, t: Block16, x: Bytes, b: Block16, z: Block16)
    requires Sound(c, 16) && 16 < |x| < 32
    requires b == One(c, d, FirstTweak(d, t), x[..16]) && z == x[16..] + b[|x| - 16..]
    ensures Stolen(c, d, t, x) == One(c, d, SecondTweak(d, t), z) + b[..|x| - 16]
  {
    hide One, MulX;
  }

  /** The rest of a data unit whose whole blocks but the last are done, and the last one too. */
  method StealLast(c: BlockCipher, d: Direction, t: Block16, m: nat, r: nat, input: array<bv8>, output: array<bv8>,
                   ghost t0: Block16, ghost src: Bytes, ghost was: Bytes)
    requires Sound(c, 16) && input != output && m % 16 == 0 && 0 < r < 16 && |src| == m + 16 + r
    requires |src| <= input.Length && |src| <= output.Length == |was| && input[..|src|] == src
    requires t == SecondTweak(d, Tweak(t0, m / 16))
    requires output[..] == Splice(was, 0, Whole(c, d, t0, src[..m])
                                          + One(c, d, FirstTweak(d, Tweak(t0, m / 16)), src[m..m + 16]))
    modifies output
    ensures output[..] == Splice(was, 0, Xts(c, d, t0, src))
  {
    hide Whole, One, Splice, MulX, Stolen, Tweak, FirstTweak, SecondTweak;
    ghost var x, tk := Whole(c, d, t0, src[..m]), Tweak(t0, m / 16);
    ghost var b := One(c, d, FirstTweak(d, tk), src[m..m + 16]);
    ghost var z: Block16 := src[m + 16..] + b[r..];
    SpliceLonger(was, x, b, One(c, d, t, z) + b[..r]);
    Pieces(src, m, r);
    StolenIs(c, d, tk, src[m..], b, z);
    assert input[m + 16..m + 16 + r] == src[m + 16..] by { assert input[..|src|][m + 16..] == src[m + 16..]; }
    Steal(c, d, t, input, output, m + 16, r);
  }

  lemma Pieces(src: Bytes, m: nat, r: nat)
    requires m % 16 == 0 && 0 < r < 16 && |src| == m + 16 + r
    ensures src[m..][..16] == src[m..m + 16] && src[m..][16..] == src[m + 16..]
    ensures |src| % 16 == r && |src| - |src| % 16 - 16 == m
  {}

  /** Everything after the first tweak. */
  method CryptUnit(c: BlockCipher, d: Direction, t0: Block16, length: nat, input: array<bv8>, output: array<bv8>)
    requires Sound(c, 16) && 16 <= length <= input.Length && length <= output.Length
    requires input == output ==> length % 16 == 0
    modifies output
    ensures output[..] == Splice(old(output[..]), 0, Xts(c, d, t0, old(input[..length])))
  {
    hide Whole, One, Splice, MulX, Stolen, Tweak, Progress, FirstTweak, SecondTweak;
    ghost var src, was := input[..length], output[..];
    var blocks, leftover := length / 16, length % 16;
    var plain := if leftover > 0 && d == Backward then blocks - 1 else blocks;
    assert input[..][..length] == src;
    var tweak := CryptWhole(c, d, t0, plain, input, output, src);
    Done(c, d, t0, src, was, 16 * plain, tweak, input[..], output[..]);
    if leftover > 0 {
      var m := 16 * (blocks - 1);
      if d == Backward {
        // the last whole block takes the next tweak, the leftover bytes this one
        assert input[..length] == src;
        assert input[..length][m..m + 16] == input[m..m + 16];
        CryptOne(c, d, MulX(tweak), input[m..m + 16], output, m);
      }
      LastDone(c, d, t0, src, was, m);
      StealLast(c, d, tweak, m, leftover, input, output, t0, src, was);
    } else {
      assert src[..length] == src;
    }
  }

  lemma Done(c: BlockCipher, d: Direction, t: Block16, src: Bytes, was: Bytes, k: nat,
             tweak: Block16, inp: Bytes, output: Bytes)
    requires Progress(c, d, t, src, was, k, tweak, inp, output)
    ensures k <= |src| <= |was| && output == Splice(was, 0, Whole(c, d, t, src[..k])) && tweak == Tweak(t, k / 16)
  {}

  /** How the last whole block was crypted, in either direction. */
  lemma LastDone(c: BlockCipher, d: Direction, t: Block16, src: Bytes, was: Bytes, m: nat)
    requires Sound(c, 16) && m % 16 == 0 && m + 16 < |src| < m + 32 && |src| <= |was|
    ensures d == Forward ==>
      Splice(was, 0, Whole(c, d, t, src[..m + 16]))
        == Splice(was, 0, Whole(c, d, t, src[..m]) + One(c, d, FirstTweak(d, Tweak(t, m / 16)), src[m..m + 16]))
      && Tweak(t, m / 16 + 1) == SecondTweak(d, Tweak(t, m / 16))
    ensures d == Backward ==>
      Splice(Splice(was, 0, Whole(c, d, t, src[..m])), m, One(c, d, MulX(Tweak(t, m / 16)), src[m..m + 16]))
        == Splice(was, 0, Whole(c, d, t, src[..m]) + One(c, d, FirstTweak(d, Tweak(t, m / 16)), src[m..m + 16]))
      && Tweak(t, m / 16) == SecondTweak(d, Tweak(t, m / 16))
  {
    hide Whole, One, Splice, MulX;
    assert src[..m + 16] == src[..m] + src[m..m + 16];
    WholeAppend(c, d, t, src[..m], src[m..m + 16]);
    SpliceJoin(was, 0, Whole(c, d, t, src[..m]), One(c, d, MulX(Tweak(t, m / 16)), src[m..m + 16]));
  }

  // ---------- what the standard asks for, block by block ----------

  lemma {:induction false} WholeAt(c: BlockCipher, d: Direction, t: Block16, x: Bytes, j: nat)
    requires Sound(c, 16) && |x| % 16 == 0 && 16 * j + 16 <= |x|
    ensures Whole(c, d, t, x)[16 * j..16 * j + 16] == One(c, d, Tweak(t, j), x[16 * j..16 * j + 16])
    decreases |x|
  {
    hide One, Tweak, Whole;
    var n := |x| - 16;
    WholeStep(c, d, t, x);
    var y := Whole(c, d, t, x);
    if 16 * j == n {
      assert n / 16 == j && x[n..] == x[n..n + 16] && y[n..n + 16] == One(c, d, Tweak(t, j), x[n..]);
    } else {
      WholeAt(c, d, t, x[..n], j);
      assert x[..n][16 * j..16 * j + 16] == x[16 * j..16 * j + 16];
      assert y[16 * j..16 * j + 16] == Whole(c, d, t, x[..n])[16 * j..16 * j + 16];
    }
  }

  /** Encryption or decryption of one block. */
  function Crypt(c: BlockCipher, d: Direction, b: Block16): Block16
    requires Sound(c, 16)
  {
    if d == Forward then c.enc(b) else c.dec(b)
  }

  lemma Untweaked(c: BlockCipher, d: Direction, t: Block16, b: Block16)
    requires Sound(c, 16)
    ensures One(c, d, t, b) == Xor(Crypt(c, d, Xor(b, t)), t) && Xor(One(c, d, t, b), t) == Crypt(c, d, Xor(b, t))
  {
    XorTwice(Crypt(c, d, Xor(b, t)), t);
  }

  /** The bytes that are crypted in whole blocks of their own: all, or all but the last whole
      block and what is left over. */
  function Regular(length: nat): nat
    requires length >= 16
  {
    if length % 16 == 0 then length else length - length % 16 - 16
  }

  lemma BlockMeaning(c: BlockCipher, d: Direction, t0: Block16, x: Bytes, j: nat, t: Block16)
    requires Sound(c, 16) && |x| >= 16 && 16 * j + 16 <= Regular(|x|)
    requires Poly(t) == TimesPower(Poly(t0), j)
    ensures Xor(Xts(c, d, t0, x)[16 * j..16 * j + 16], t) == Crypt(c, d, Xor(x[16 * j..16 * j + 16], t))
  {
    hide Poly, TimesPower, Whole, Stolen, One, Tweak;
    TweakOf(t0, t, j);
    var n := Regular(|x|);
    var y := Xts(c, d, t0, x);
    assert x[..n][16 * j..16 * j + 16] == x[16 * j..16 * j + 16];
    assert |x| % 16 == 0 ==> x[..n] == x;
    WholeAt(c, d, t0, x[..n], j);
    assert y[..n] == Whole(c, d, t0, x[..n]);
    assert y[16 * j..16 * j + 16] == y[..n][16 * j..16 * j + 16];
    Untweaked(c, d, t, x[16 * j..16 * j + 16]);
  }

  /** The last whole block x[..16] is crypted under the first tweak to some b; what is left over,
      completed with the end of b, is crypted under the second tweak and comes out in front of
      the beginning of b. */
  ghost predicate Steals(c: BlockCipher, d: Direction, first: Block16, second: Block16, x: Bytes, y: Bytes)
    requires Sound(c, 16) && 16 < |x| < 32 && |y| == |x|
  {
    var r := |x| - 16;
    var b: Block16 := Xor(Crypt(c, d, Xor(x[..16], first)), first);
    y[16..] == b[..r] && Xor(y[..16], second) == Crypt(c, d, Xor(x[16..] + b[r..], second))
  }

  /** The last piece, under the powers m and m + 1. */
  lemma TailMeaning(c: BlockCipher, d: Direction, t0: Block16, x: Bytes, t1: Block16, t2: Block16)
    requires Sound(c, 16) && |x| >= 16 && |x| % 16 != 0
    requires var m := |x| / 16 - 1;
             Poly(t1) == TimesPower(Poly(t0), m) && Poly(t2) == TimesPower(Poly(t0), m + 1)
    ensures var y, n := Xts(c, d, t0, x), Regular(|x|);
            if d == Forward then Steals(c, d, t1, t2, x[n..], y[n..]) else Steals(c, d, t2, t1, x[n..], y[n..])
  {
    hide Poly, TimesPower, Stolen, One, MulX, Xts, Tweak, Xor, Crypt, Steals;
    var n, m := Regular(|x|), |x| / 16 - 1;
    TweakOf(t0, t1, m);
    TweakOf(t0, t2, m + 1);
    NextTweak(t0, m);
    XtsTail(c, d, t0, x);
    if d == Forward { StolenSteals(c, d, t1, x[n..], t1, t2); } else { StolenSteals(c, d, t1, x[n..], t2, t1); }
  }

  lemma StolenSteals(c: BlockCipher, d: Direction, t: Block16, x: Bytes, first: Block16, second: Block16)
    requires Sound(c, 16) && 16 < |x| < 32 && first == FirstTweak(d, t) && second == SecondTweak(d, t)
    ensures Steals(c, d, first, second, x, Stolen(c, d, t, x))
  {
    hide Stolen, One, MulX, Xor, Crypt;
    Untweaked(c, d, first, x[..16]);
    var b := One(c, d, first, x[..16]);
    var z: Block16 := x[16..] + b[|x| - 16..];
    StolenIs(c, d, t, x, b, z);
    Untweaked(c, d, second, z);
  }

  lemma NextTweak(t: Block16, k: nat)
    ensures Tweak(t, k + 1) == MulX(Tweak(t, k))
  {
    hide MulX;
  }

  lemma XtsTail(c: BlockCipher, d: Direction, t0: Block16, x: Bytes)
    requires Sound(c, 16) && |x| >= 16 && |x| % 16 != 0
    ensures var n := Regular(|x|);
            n == 16 * (|x| / 16 - 1) && Xts(c, d, t0, x)[n..] == Stolen(c, d, Tweak(t0, |x| / 16 - 1), x[n..])
  {
    hide Whole, Stolen, Tweak;
    var n := Regular(|x|);
    assert n / 16 == |x| / 16 - 1;
  }

  /** A data unit of 1 to 2^20 blocks, any length in bytes. Only whole blocks can be crypted in
      place: with bytes left over, input and output must be separate. Block number j is crypted
      between two sums with x^j times the encrypted number of the data unit; the last two pieces
      steal ciphertext, and take their two tweaks in the other order for decryption. */
  method CryptXts(c: BlockCipher, tw: BlockCipher, d: Direction, length: nat, dataUnit: Block16,
                  input: array<bv8>, output: array<bv8>) returns (ok: bool)
    requires Sound(c, 16) && Sound(tw, 16) && length <= input.Length && length <= output.Length
    requires input == output ==> length % 16 == 0
    modifies output
    ensures ok <==> 16 <= length <= 0x100000 * 16
    ensures 16 <= length <= 0x100000 * 16 ==>
      output[..] == Splice(old(output[..]), 0, Xts(c, d, tw.enc(dataUnit), old(input[..length])))
    ensures ok ==> forall j: nat, t: Block16 ::
      16 * j + 16 <= Regular(length) && Poly(t) == TimesPower(Poly(tw.enc(dataUnit)), j) ==>
        Xor(output[16 * j..16 * j + 16], t) == Crypt(c, d, Xor(old(input[16 * j..16 * j + 16]), t))
    ensures ok && length % 16 != 0 ==> forall t1: Block16, t2: Block16 ::
      Poly(t1) == TimesPower(Poly(tw.enc(dataUnit)), length / 16 - 1)
      && Poly(t2) == TimesPower(Poly(tw.enc(dataUnit)), length / 16) ==>
        var x, y := old(input[Regular(length)..length]), output[Regular(length)..length];
        if d == Forward then Steals(c, d, t1, t2, x, y) else Steals(c, d, t2, t1, x, y)
    ensures !ok ==> output[..] == old(output[..])
  {
    hide Splice, Xts, Poly, TimesPower, Crypt, Xor, Steals;
    if length < 16 { return false; }
    if length > 0x100000 * 16 { return false; }
    var tweak: Block16 := tw.enc(dataUnit);
    ghost var src, was := input[..length], output[..];
    CryptUnit(c, d, tweak, length, input, output);
    ghost var y := Xts(c, d, tweak, src);
    SpliceFacts(was, 0, y);
    assert output[..length] == y;
    forall j: nat, t: Block16 | 16 * j + 16 <= Regular(length) && Poly(t) == TimesPower(Poly(tweak), j)
      ensures Xor(output[16 * j..16 * j + 16], t) == Crypt(c, d, Xor(old(input[16 * j..16 * j + 16]), t))
    {
      BlockMeaning(c, d, tweak, src, j, t);
      assert output[16 * j..16 * j + 16] == y[16 * j..16 * j + 16];
      assert src[16 * j..16 * j + 16] == old(input[16 * j..16 * j + 16]);
    }
    if length % 16 != 0 {
      ghost var n := Regular(length);
      assert output[n..length] == y[n..] && src[n..] == old(input[n..length]);
      forall t1: Block16, t2: Block16
        | Poly(t1) == TimesPower(Poly(tweak), length / 16 - 1) && Poly(t2) == TimesPower(Poly(tweak), length / 16)
      {
        TailMeaning(c, d, tweak, src, t1, t2);
      }
    }
    return true;
  }
}
