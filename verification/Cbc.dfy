/** Cipher block chaining over whole messages: the definition that the streaming code is
    measured against. */
module Cbc {
  import opened Arith
  import opened Blocks

  function Encrypt(c: BlockCipher, iv: Block, p: Bytes): (x: Bytes)
    requires Sound(c, Bs) && |p| % Bs == 0
    ensures |x| == |p|
    decreases |p|
  {
    if p == [] then []
    else
      WholeBlocks(|p|, 0);
      var b: Block := c.enc(Xor(p[..Bs], iv));
      b + Encrypt(c, b, p[Bs..])
  }

  function Decrypt(c: BlockCipher, iv: Block, x: Bytes): (p: Bytes)
    requires Sound(c, Bs) && |x| % Bs == 0
    ensures |p| == |x|
    decreases |x|
  {
    if x == [] then []
    else
      WholeBlocks(|x|, 0);
      Xor(c.dec(x[..Bs]), iv) + Decrypt(c, x[..Bs], x[Bs..])
  }

  /** The chaining value after the ciphertext x. */
  function Chain(iv: Block, x: Bytes): Block
    requires |x| % Bs == 0
  {
    if x == [] then iv else WholeBlocks(|x|, 0); x[|x| - Bs..]
  }

  lemma {:induction false} RoundTrip(c: BlockCipher, iv: Block, p: Bytes)
    requires Sound(c, Bs) && |p| % Bs == 0
    ensures Decrypt(c, iv, Encrypt(c, iv, p)) == p
    decreases |p|
  {
    if p != [] {
      WholeBlocks(|p|, 0);
      var b: Block := c.enc(Xor(p[..Bs], iv));
      var x := Encrypt(c, iv, p);
      assert x[..Bs] == b && x[Bs..] == Encrypt(c, b, p[Bs..]);
      XorTwice(p[..Bs], iv);
      RoundTrip(c, b, p[Bs..]);
    }
  }

  /** Encrypting in two parts, the second one with the chaining value of the first. */
  lemma {:induction false} EncryptConcat(c: BlockCipher, iv: Block, p: Bytes, q: Bytes)
    requires Sound(c, Bs) && |p| % Bs == 0 && |q| % Bs == 0
    ensures (|p| + |q|) % Bs == 0
    ensures Encrypt(c, iv, p + q) == Encrypt(c, iv, p) + Encrypt(c, Chain(iv, Encrypt(c, iv, p)), q)
    ensures Chain(Chain(iv, p), q) == Chain(iv, p + q)
    decreases |p|
  {
    hide Encrypt, Chain;
    WholeBlocks(|p|, |q|);
    if p == [] {
      assert p + q == q;
      EncryptEmpty(c, iv);
    } else {
      EncryptUnfold(c, iv, p);
      EncryptUnfold(c, iv, p + q);
      var b: Block, p' := c.enc(Xor(p[..Bs], iv)), p[Bs..];
      assert (p + q)[..Bs] == p[..Bs] && (p + q)[Bs..] == p' + q;
      EncryptConcat(c, b, p', q);
      ChainStep(iv, b, Encrypt(c, b, p'));
    }
    ChainConcat(iv, p, q);
  }

  lemma EncryptUnfold(c: BlockCipher, iv: Block, p: Bytes)
    requires Sound(c, Bs) && |p| % Bs == 0 && p != []
    ensures |p| >= Bs && (|p| - Bs) % Bs == 0
    ensures Encrypt(c, iv, p)
      == c.enc(Xor(p[..Bs], iv)) + Encrypt(c, c.enc(Xor(p[..Bs], iv)), p[Bs..])
  {
    WholeBlocks(|p|, 0);
  }

  lemma EncryptEmpty(c: BlockCipher, iv: Block)
    requires Sound(c, Bs)
    ensures Encrypt(c, iv, []) == [] && Chain(iv, []) == iv
  {}

  lemma ChainStep(iv: Block, b: Block, y: Bytes)
    requires |y| % Bs == 0
    ensures (|b| + |y|) % Bs == 0 && Chain(iv, b + y) == Chain(b, y)
  {
    WholeBlocks(Bs, |y|);
    if y == [] { assert b + y == b; }
  }

  lemma ChainConcat(iv: Block, p: Bytes, q: Bytes)
    requires |p| % Bs == 0 && |q| % Bs == 0
    ensures (|p| + |q|) % Bs == 0 && Chain(Chain(iv, p), q) == Chain(iv, p + q)
  {
    WholeBlocks(|p|, |q|);
    if q == [] { assert p + q == p; } else { WholeBlocks(|q|, 0); }
  }

  lemma {:induction false} DecryptConcat(c: BlockCipher, iv: Block, x: Bytes, y: Bytes)
    requires Sound(c, Bs) && |x| % Bs == 0 && |y| % Bs == 0
    ensures (|x| + |y|) % Bs == 0
    ensures Decrypt(c, iv, x + y) == Decrypt(c, iv, x) + Decrypt(c, Chain(iv, x), y)
    decreases |x|
  {
    hide Decrypt, Chain;
    if x == [] { DecryptEmpty(c, iv); }
    WholeBlocks(|x|, |y|);
    if x == [] {
      assert x + y == y;
    } else {
      WholeBlocks(|x|, 0);
      var b: Block, x' := x[..Bs], x[Bs..];
      assert (x + y)[..Bs] == b && (x + y)[Bs..] == x' + y;
      DecryptConcat(c, b, x', y);
      ChainStep(iv, b, x');
      assert x == b + x';
      DecryptUnfold(c, iv, x + y);
      DecryptUnfold(c, iv, x);
    }
  }

  lemma DecryptEmpty(c: BlockCipher, iv: Block)
    requires Sound(c, Bs)
    ensures Decrypt(c, iv, []) == [] && Chain(iv, []) == iv
  {}

  lemma DecryptUnfold(c: BlockCipher, iv: Block, x: Bytes)
    requires Sound(c, Bs) && |x| % Bs == 0 && x != []
    ensures |x| >= Bs && (|x| - Bs) % Bs == 0
    ensures Decrypt(c, iv, x) == Xor(c.dec(x[..Bs]), iv) + Decrypt(c, x[..Bs], x[Bs..])
  {
    WholeBlocks(|x|, 0);
  }

  // ---------- block by block ----------

  function BlockAt(s: Bytes, k: nat): Block
    requires k + Bs <= |s|
  {
    s[k..k + Bs]
  }

  /** The blocks of y when one block stands in front. */
  lemma Behind(b: Block, y: Bytes, k: nat)
    requires k <= |y|
    ensures k == 0 ==> BlockAt(b + y, k) == b
    ensures k >= Bs ==> BlockAt(b + y, k) == BlockAt(y, k - Bs)
  {}

  /** Every block is the encrypted sum of the plain block there and the encrypted block before,
      or the initialisation vector. */
  lemma {:induction false} EncryptedBlock(c: BlockCipher, iv: Block, p: Bytes, k: nat)
    requires Sound(c, Bs) && |p| % Bs == 0 && k % Bs == 0 && k + Bs <= |p|
    ensures k > 0 ==> k >= Bs
    ensures var x := Encrypt(c, iv, p);
            BlockAt(x, k) == c.enc(Xor(BlockAt(p, k), if k == 0 then iv else BlockAt(x, k - Bs)))
    decreases |p|
  {
    hide Encrypt, Xor, BlockAt;
    EncryptUnfold(c, iv, p);
    var a, q := p[..Bs], p[Bs..];
    var b: Block := c.enc(Xor(a, iv));
    var y := Encrypt(c, b, q);
    assert p == a + q;
    Behind(a, q, k);
    Behind(b, y, k);
    if k > 0 {
      WholeMultiple(k, Bs);
      EncryptedBlock(c, b, q, k - Bs);
      Behind(b, y, k - Bs);
    }
  }

  /** The other way: the decrypted block summed with the encrypted block before. */
  lemma {:induction false} DecryptedBlock(c: BlockCipher, iv: Block, x: Bytes, k: nat)
    requires Sound(c, Bs) && |x| % Bs == 0 && k % Bs == 0 && k + Bs <= |x|
    ensures k > 0 ==> k >= Bs
    ensures BlockAt(Decrypt(c, iv, x), k)
      == Xor(c.dec(BlockAt(x, k)), if k == 0 then iv else BlockAt(x, k - Bs))
    decreases |x|
  {
    hide Decrypt, Xor, BlockAt;
    DecryptUnfold(c, iv, x);
    var a, q := x[..Bs], x[Bs..];
    var b: Block := Xor(c.dec(a), iv);
    var y := Decrypt(c, a, q);
    assert x == a + q;
    Behind(a, q, k);
    Behind(b, y, k);
    if k > 0 {
      WholeMultiple(k, Bs);
      DecryptedBlock(c, a, q, k - Bs);
      Behind(a, q, k - Bs);
    }
  }

  // ---------- the buffer code ----------

  datatype Mode = Encrypting | Decrypting

  function Crypt(c: BlockCipher, mode: Mode, iv: Block, x: Bytes): (y: Bytes)
    requires Sound(c, Bs) && |x| % Bs == 0
    ensures |y| == |x|
  {
    if mode == Encrypting then Encrypt(c, iv, x) else Decrypt(c, iv, x)
  }

  /** The chaining value after crypting x: the last ciphertext block. */
  function ChainAfter(c: BlockCipher, mode: Mode, iv: Block, x: Bytes): Block
    requires Sound(c, Bs) && |x| % Bs == 0
  {
    Chain(iv, if mode == Encrypting then Encrypt(c, iv, x) else x)
  }

  lemma CryptConcat(c: BlockCipher, mode: Mode, iv: Block, x: Bytes, y: Bytes)
    requires Sound(c, Bs) && |x| % Bs == 0 && |y| % Bs == 0
    ensures (|x| + |y|) % Bs == 0
    ensures Crypt(c, mode, iv, x + y)
      == Crypt(c, mode, iv, x) + Crypt(c, mode, ChainAfter(c, mode, iv, x), y)
    ensures ChainAfter(c, mode, iv, x + y) == ChainAfter(c, mode, ChainAfter(c, mode, iv, x), y)
  {
    hide Encrypt, Decrypt, Chain;
    EncryptConcat(c, iv, x, y);
    DecryptConcat(c, iv, x, y);
    ChainConcat(iv, Encrypt(c, iv, x), Encrypt(c, Chain(iv, Encrypt(c, iv, x)), y));
    ChainConcat(iv, x, y);
  }

  /** One block, and the chaining value it leaves. */
  function OneBlock(c: BlockCipher, mode: Mode, iv: Block, b: Block): (y: Block)
    requires Sound(c, Bs)
  {
    if mode == Encrypting then c.enc(Xor(b, iv)) else Xor(c.dec(b), iv)
  }

  function NextIv(c: BlockCipher, mode: Mode, iv: Block, b: Block): Block
    requires Sound(c, Bs)
  {
    if mode == Encrypting then OneBlock(c, mode, iv, b) else b
  }

  lemma CryptBlock(c: BlockCipher, mode: Mode, iv: Block, b: Block)
    requires Sound(c, Bs)
    ensures |b| % Bs == 0 && Crypt(c, mode, iv, b) == OneBlock(c, mode, iv, b)
    ensures ChainAfter(c, mode, iv, b) == NextIv(c, mode, iv, b)
  {
    assert b[..Bs] == b && b[Bs..] == [];
  }

  /** One block from input to output. The chaining value moves to the ciphertext block. The
      two buffers may be the same one. */
  method CryptOne(c: BlockCipher, mode: Mode, iv: array<bv8>, input: array<bv8>, inOff: nat,
                  output: array<bv8>, outOff: nat)
    requires Sound(c, Bs) && iv.Length == Bs && iv != output && iv != input
    requires inOff + Bs <= input.Length && outOff + Bs <= output.Length
    modifies iv, output
    ensures output[..] == old(Splice(output[..], outOff, OneBlock(c, mode, iv[..], BlockAt(input[..], inOff))))
    ensures iv[..] == old(NextIv(c, mode, iv[..], BlockAt(input[..], inOff)))
  {
    hide Splice, Xor;
    ghost var was, v: Block := output[..], iv[..];
    var temp: Block := input[inOff..inOff + Bs];
    assert temp == BlockAt(input[..], inOff);
    if mode == Decrypting {
      Store(output, outOff, c.dec(temp));
      Store(output, outOff, Xor(output[outOff..outOff + Bs], iv[..]));
      SpliceOver(was, outOff, c.dec(temp), Xor(c.dec(temp), v));
      Replace(iv, temp);
    } else {
      Store(output, outOff, Xor(temp, iv[..]));
      Store(output, outOff, c.enc(output[outOff..outOff + Bs]));
      SpliceOver(was, outOff, Xor(temp, v), c.enc(Xor(temp, v)));
      Replace(iv, output[outOff..outOff + Bs]);
    }
  }

  /** Overwrite the chaining value. */
  method Replace(iv: array<bv8>, b: Block)
    requires iv.Length == Bs
    modifies iv
    ensures iv[..] == b
  {
    forall k | 0 <= k < Bs { iv[k] := b[k]; }
  }

  /** Appending one block to what has been crypted. */
  lemma CryptStep(c: BlockCipher, mode: Mode, iv: Block, x: Bytes, b: Block)
    requires Sound(c, Bs) && |x| % Bs == 0
    ensures (|x| + Bs) % Bs == 0
    ensures Crypt(c, mode, iv, x + b)
      == Crypt(c, mode, iv, x) + OneBlock(c, mode, ChainAfter(c, mode, iv, x), b)
    ensures ChainAfter(c, mode, iv, x + b) == NextIv(c, mode, ChainAfter(c, mode, iv, x), b)
  {
    hide Crypt, ChainAfter, OneBlock, NextIv;
    CryptBlock(c, mode, ChainAfter(c, mode, iv, x), b);
    CryptConcat(c, mode, iv, x, b);
  }

  lemma CryptNothing(c: BlockCipher, mode: Mode, iv: Block)
    requires Sound(c, Bs)
    ensures Crypt(c, mode, iv, []) == [] && ChainAfter(c, mode, iv, []) == iv
  {}

  lemma RoomForBlock(k: nat, n: nat)
    requires k % Bs == 0 && n % Bs == 0 && k < n
    ensures k + Bs <= n && (k + Bs) % Bs == 0
  {
    WholeBlocks(k, n);
    WholeBlocks(n - k, 0);
    WholeBlocks(k, Bs);
    ModSmall(0, Bs);
    DivModShift(1, 0, Bs);
  }

  lemma SpliceNothing(a: Bytes, off: nat)
    requires off <= |a|
    ensures Splice(a, off, []) == a
  {}

  /** s is what stands in the buffer from a on. */
  ghost predicate Holds(inp: Bytes, a: nat, s: Bytes) {
    a + |s| <= |inp| && inp[a..a + |s|] == s
  }

  /** Writing the block just read leaves the rest of the input alone, even in place. */
  lemma RestStep(inp: Bytes, inp': Bytes, a: nat, src: Bytes, k: nat, y: Block)
    requires k + Bs <= |src| && Holds(inp, a, src[k..])
    requires inp' == inp || (a + Bs <= |inp| && inp' == Splice(inp, a, y))
    ensures Holds(inp', a + Bs, src[k + Bs..])
  {
    hide Splice;
    var rest := src[k..];
    var n := |rest|;
    assert src[k + Bs..] == rest[Bs..n];
    SliceOfSlice(inp, a, a + n, Bs, n);
    assert inp[a + Bs..a + n] == rest[Bs..n];
    if inp' != inp {
      SpliceFacts(inp, a, y);
      SliceOfSlice(inp, a + Bs, |inp|, 0, n - Bs);
      SliceOfSlice(inp', a + Bs, |inp|, 0, n - Bs);
      assert inp'[a + Bs..|inp|] == inp[a + Bs..|inp|];
      assert inp'[a + Bs..a + n] == inp[a + Bs..a + n];
    }
  }

  lemma BlockHere(inp: Bytes, a: nat, src: Bytes, k: nat)
    requires k + Bs <= |src| && Holds(inp, a, src[k..])
    ensures a + Bs <= |inp| && BlockAt(inp, a) == BlockAt(src, k)
  {
    assert inp[a..a + Bs] == src[k..][..Bs];
  }

  lemma NextSlice(s: Bytes, k: nat)
    requires k + Bs <= |s|
    ensures s[..k + Bs] == s[..k] + BlockAt(s, k) && s[k..][..Bs] == BlockAt(s, k)
    ensures s[k..][Bs..] == s[k + Bs..]
  {}

  /** How far the loop has come: k bytes crypted, the rest of the source still to be read. */
  ghost predicate Progress(c: BlockCipher, mode: Mode, v: Block, src: Bytes, was: Bytes, outOff: nat,
                           k: nat, iv: Bytes, output: Bytes)
  {
    Sound(c, Bs) && k <= |src| && outOff + |src| <= |was| && k % Bs == 0
    && output == Splice(was, outOff, Crypt(c, mode, v, src[..k])) && iv == ChainAfter(c, mode, v, src[..k])
  }

  /** Append one block to the progress. */
  lemma ProgressStep(c: BlockCipher, mode: Mode, v: Block, src: Bytes, was: Bytes, outOff: nat,
                     k: nat, iv: Block, output: Bytes)
    requires Progress(c, mode, v, src, was, outOff, k, iv, output) && k + Bs <= |src| && (k + Bs) % Bs == 0
    ensures outOff + k + Bs <= |output|
    ensures Progress(c, mode, v, src, was, outOff, k + Bs, NextIv(c, mode, iv, BlockAt(src, k)),
                     Splice(output, outOff + k, OneBlock(c, mode, iv, BlockAt(src, k))))
  {
    hide Crypt, ChainAfter, OneBlock, NextIv, Splice;
    NextSlice(src, k);
    CryptStep(c, mode, v, src[..k], BlockAt(src, k));
    SpliceJoin(was, outOff, Crypt(c, mode, v, src[..k]), OneBlock(c, mode, iv, BlockAt(src, k)));
  }

  /** The body of the loop. */
  method CryptNext(c: BlockCipher, mode: Mode, iv: array<bv8>, input: array<bv8>, inOff: nat,
                   output: array<bv8>, outOff: nat, ghost v: Block, ghost src: Bytes, ghost was: Bytes, k: nat)
    requires Sound(c, Bs) && iv.Length == Bs && iv != output && iv != input
    requires inOff + |src| <= input.Length && outOff + |src| <= output.Length
    requires input != output || inOff == outOff
    requires k + Bs <= |src| && (k + Bs) % Bs == 0
    requires Progress(c, mode, v, src, was, outOff, k, iv[..], output[..])
    requires Holds(input[..], inOff + k, src[k..])
    modifies iv, output
    ensures Progress(c, mode, v, src, was, outOff, k + Bs, iv[..], output[..])
    ensures Holds(input[..], inOff + k + Bs, src[k + Bs..])
  {
    hide Crypt, ChainAfter, OneBlock, NextIv, Splice, BlockAt, Progress, Holds;
    ghost var inp, out, chain: Block := input[..], output[..], iv[..];
    ghost var y := OneBlock(c, mode, chain, BlockAt(src, k));
    BlockHere(inp, inOff + k, src, k);
    ProgressStep(c, mode, v, src, was, outOff, k, chain, out);
    CryptOne(c, mode, iv, input, inOff + k, output, outOff + k);
    RestStep(inp, input[..], inOff + k, src, k, y);
  }

  /** length bytes from input to output; the chaining value is kept for the next call. In
      place is possible. A length that is no multiple of the block size is refused. */
  method CryptCbc(c: BlockCipher, mode: Mode, length: nat, iv: array<bv8>, input: array<bv8>, inOff: nat,
                  output: array<bv8>, outOff: nat) returns (ok: bool)
    requires Sound(c, Bs) && iv.Length == Bs && iv != output && iv != input
    requires inOff + length <= input.Length && outOff + length <= output.Length
    requires input != output || inOff == outOff
    modifies iv, output
    ensures ok <==> length % Bs == 0
    ensures ok ==>
      output[..] == old(Splice(output[..], outOff, Crypt(c, mode, iv[..], input[inOff..inOff + length])))
    ensures ok ==> iv[..] == old(ChainAfter(c, mode, iv[..], input[inOff..inOff + length]))
    ensures !ok ==> output[..] == old(output[..]) && iv[..] == old(iv[..])
  {
    hide Crypt, ChainAfter, OneBlock, NextIv, Splice, BlockAt, Progress;
    if length % Bs != 0 { return false; }
    ghost var was, v: Block, src := output[..], iv[..], input[inOff..inOff + length];
    ProgressStart(c, mode, v, src, was, outOff);
    var k: nat := 0;
    while k < length
      invariant k <= length && k % Bs == 0
      invariant Progress(c, mode, v, src, was, outOff, k, iv[..], output[..])
      invariant Holds(input[..], inOff + k, src[k..])
    {
      RoomForBlock(k, length);
      CryptNext(c, mode, iv, input, inOff, output, outOff, v, src, was, k);
      k := k + Bs;
    }
    ProgressEnd(c, mode, v, src, was, outOff, k, iv[..], output[..]);
    return true;
  }

  lemma ProgressStart(c: BlockCipher, mode: Mode, v: Block, src: Bytes, was: Bytes, outOff: nat)
    requires Sound(c, Bs) && outOff + |src| <= |was|
    ensures 0 % Bs == 0 && Progress(c, mode, v, src, was, outOff, 0, v, was)
  {
    ModSmall(0, Bs);
    CryptNothing(c, mode, v);
    SpliceNothing(was, outOff);
    assert src[..0] == [];
  }

  lemma ProgressEnd(c: BlockCipher, mode: Mode, v: Block, src: Bytes, was: Bytes, outOff: nat,
                    k: nat, iv: Bytes, output: Bytes)
    requires Progress(c, mode, v, src, was, outOff, k, iv, output) && k == |src|
    ensures output == Splice(was, outOff, Crypt(c, mode, v, src)) && iv == ChainAfter(c, mode, v, src)
  {
    assert src[..k] == src;
  }
}
