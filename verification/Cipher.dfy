/** The streaming layer for CBC (cipher.c): data arrives in chunks of any size, whole blocks
    are processed as soon as possible, and the rest waits in the context. */
module Cipher {
  import opened Options
  import opened Arith
  import opened Blocks
  import opened Cbc
  import opened Padding

  datatype Status = Ok | BadInput | FullBlockExpected | InvalidPadding

  /** Padded decryption keeps the last block back: it may hold the padding. */
  predicate KeepsLast(mode: Mode, scheme: Scheme) {
    mode == Decrypting && scheme != NoPadding
  }

  /** How many of n bytes may wait in the context. */
  predicate HeldOk(mode: Mode, scheme: Scheme, n: nat, held: nat) {
    held <= n && (n - held) % Bs == 0
    && if KeepsLast(mode, scheme) then held <= Bs && (n > 0 ==> held > 0) else held < Bs
  }

  /** The number of waiting bytes is determined by the number of bytes fed. */
  lemma HeldUnique(mode: Mode, scheme: Scheme, n: nat, h: nat, h': nat)
    requires HeldOk(mode, scheme, n, h) && HeldOk(mode, scheme, n, h')
    ensures h == h'
  {
    if h < h' {
      WholeBlocks(n - h', n - h);
      WholeBlocks(h' - h, 0);
    } else if h' < h {
      WholeBlocks(n - h, n - h');
      WholeBlocks(h - h', 0);
    }
  }

  /** o is the image of the whole blocks d, and v the chaining value after them. */
  ghost predicate Crypted(c: BlockCipher, mode: Mode, iv0: Block, d: Bytes, o: Bytes, v: Bytes) {
    Sound(c, Bs) && |d| % Bs == 0 && o == Crypt(c, mode, iv0, d) && v == ChainAfter(c, mode, iv0, d)
  }

  /** Crypting more whole blocks behind what has been crypted. */
  lemma CryptMore(c: BlockCipher, mode: Mode, iv0: Block, d: Bytes, o: Bytes, v: Block, x: Bytes)
    requires Crypted(c, mode, iv0, d, o, v) && |x| % Bs == 0
    ensures Crypted(c, mode, iv0, d + x, o + Crypt(c, mode, v, x), ChainAfter(c, mode, v, x))
  {
    hide Crypt, ChainAfter;
    CryptConcat(c, mode, iv0, d, x);
  }

  /** How many of the rest bytes of input wait for the next call. */
  function TailLength(mode: Mode, scheme: Scheme, rest: nat): (copy: nat)
    ensures copy <= rest && copy <= Bs
  {
    if rest == 0 then 0
    else
      TailFits(rest);
      if rest % Bs == 0 && KeepsLast(mode, scheme) then Bs else rest % Bs
  }

  lemma TailFits(rest: nat)
    requires rest > 0
    ensures rest % Bs == 0 ==> rest >= Bs
    ensures 0 <= rest % Bs <= rest && rest % Bs < Bs
  {
    DivModFacts(rest, Bs);
    if rest % Bs == 0 { WholeBlocks(rest, 0); }
    if rest < Bs { ModSmall(rest, Bs); }
  }

  /** What is left to process is whole blocks, and what waits then is admissible. */
  lemma TailAdmissible(mode: Mode, scheme: Scheme, n: nat, rest: nat)
    requires n % Bs == 0 && (rest == 0 ==> HeldOk(mode, scheme, n, 0))
    ensures var copy := TailLength(mode, scheme, rest);
            (rest - copy) % Bs == 0 && HeldOk(mode, scheme, n + rest, copy)
  {
    var copy := TailLength(mode, scheme, rest);
    if rest > 0 {
      TailFits(rest);
      WholeTail(rest, copy);
      WholeBlocks(n, rest - copy);
    } else {
      ModSmall(0, Bs);
    }
  }

  lemma WholeTail(rest: nat, copy: nat)
    requires copy <= rest && (copy == rest % Bs || (copy == Bs && rest % Bs == 0))
    ensures (rest - copy) % Bs == 0
  {
    var q := rest / Bs;
    DivModFacts(rest, Bs);
    DivModUnique(q * Bs, q, 0, Bs);
    MulDist(q, 1, Bs);
    DivModUnique((q - 1) * Bs, q - 1, 0, Bs);
  }

  lemma HeldMore(mode: Mode, scheme: Scheme, n: nat, held: nat, more: nat)
    requires HeldOk(mode, scheme, n, held)
    requires if KeepsLast(mode, scheme) then more <= Bs - held else more < Bs - held
    ensures HeldOk(mode, scheme, n + more, held + more) && held <= Bs
  {}

  lemma HeldNothing(mode: Mode, scheme: Scheme, n: nat)
    requires n % Bs == 0
    ensures !KeepsLast(mode, scheme) ==> HeldOk(mode, scheme, n, 0)
  {}

  lemma HeldBound(mode: Mode, scheme: Scheme, n: nat, held: nat)
    requires HeldOk(mode, scheme, n, held)
    ensures held <= Bs && (held == Bs ==> KeepsLast(mode, scheme))
  {}

  /** What waits at the end tells whether the message was whole blocks. */
  lemma HeldMod(mode: Mode, scheme: Scheme, n: nat, held: nat)
    requires HeldOk(mode, scheme, n, held)
    ensures !KeepsLast(mode, scheme) ==> held == n % Bs < Bs
    ensures KeepsLast(mode, scheme) ==> (held == Bs <==> n % Bs == 0 && n > 0)
    ensures held <= n
  {
    WholeBlocks(n - held, n);
    WholeBlocks(n - held, held);
    if held < Bs { ModSmall(held, Bs); } else { DivModUnique(Bs, 1, 0, Bs); }
  }

  lemma Halves(s: Bytes, a: nat, b: nat, e: nat)
    requires a <= b <= e <= |s|
    ensures s[a..e] == s[a..b] + s[b..e] == s[a..b] + s[b..][..e - b]
  {}

  // ---------- whole messages ----------

  datatype Result = Fine(bytes: Bytes) | Failed(why: Status)

  /** What one call on the whole message yields. */
  function Whole(c: BlockCipher, mode: Mode, scheme: Scheme, iv: Block, m: Bytes): Result
    requires Sound(c, Bs)
  {
    if mode == Encrypting then
      if scheme == NoPadding then
        if |m| % Bs == 0 then Fine(Encrypt(c, iv, m)) else Failed(FullBlockExpected)
      else
        FilledUp(scheme, m);
        Fine(Encrypt(c, iv, m + Filling(scheme, Bs - |m| % Bs)))
    else if |m| % Bs != 0 || (scheme != NoPadding && m == []) then Failed(FullBlockExpected)
    else
      var p := Decrypt(c, iv, m);
      if scheme == NoPadding then Fine(p)
      else
        WholeBlocks(|m|, 0);
        match DataLength(scheme, p[|p| - Bs..])
        case None => Failed(InvalidPadding)
        case Some(k) =>
          LengthInBlock(scheme, p[|p| - Bs..]);
          Fine(p[..|p| - Bs + k])
  }

  /** Encrypting is CBC over the message and, with padding, the filling of its last block;
      decrypting takes a filling off, or none where none is asked for or recognisable. */
  lemma WholeMeaning(c: BlockCipher, scheme: Scheme, iv: Block, m: Bytes, result: Bytes)
    requires Sound(c, Bs)
    ensures Whole(c, Encrypting, scheme, iv, m) == Fine(result) <==>
      exists tail: Bytes :: (|m| + |tail|) % Bs == 0 && result == Encrypt(c, iv, m + tail)
        && if scheme == NoPadding then tail == [] else 1 <= |tail| <= Bs && tail == Filling(scheme, |tail|)
    ensures Whole(c, Decrypting, scheme, iv, m) == Fine(result) ==>
      |m| % Bs == 0
      && exists tail: Bytes ::
           Decrypt(c, iv, m) == result + tail
           && (tail == [] || (scheme != NoPadding && |tail| <= Bs && tail == Filling(scheme, |tail|)))
           && (tail == [] ==> scheme == NoPadding || scheme == ZeroBytes)
  {
    hide Encrypt, Decrypt, Filling, DataLength;
    EncryptingMeans(c, scheme, iv, m, result);
    if Whole(c, Decrypting, scheme, iv, m) == Fine(result) { DecryptingMeans(c, scheme, iv, m, result); }
  }

  lemma EncryptingMeans(c: BlockCipher, scheme: Scheme, iv: Block, m: Bytes, result: Bytes)
    requires Sound(c, Bs)
    ensures Whole(c, Encrypting, scheme, iv, m) == Fine(result) <==>
      exists tail: Bytes :: (|m| + |tail|) % Bs == 0 && result == Encrypt(c, iv, m + tail)
        && if scheme == NoPadding then tail == [] else 1 <= |tail| <= Bs && tail == Filling(scheme, |tail|)
  {
    hide Encrypt, Filling;
    if scheme == NoPadding {
      assert m + [] == m;
    } else {
      FilledUp(scheme, m);
      var tail := Filling(scheme, Bs - |m| % Bs);
      assert |tail| == Bs - |m| % Bs;
      forall t: Bytes | (|m| + |t|) % Bs == 0 && 1 <= |t| <= Bs ensures |t| == |tail| { OneFilling(|m|, |t|); }
    }
  }

  /** Only one number of bytes fills up the last block. */
  lemma OneFilling(n: nat, t: nat)
    requires 1 <= t <= Bs && (n + t) % Bs == 0
    ensures t == Bs - n % Bs
  {
    DivModFacts(n, Bs);
    DivModShift(-(n / Bs), n + t, Bs);
    var r := n % Bs + t;
    assert r % Bs == 0;
    if r < Bs { ModSmall(r, Bs); }
    if r > Bs {
      DivModShift(-1, r, Bs);
      ModSmall(r - Bs, Bs);
    }
  }

  lemma DecryptingMeans(c: BlockCipher, scheme: Scheme, iv: Block, m: Bytes, result: Bytes)
    requires Sound(c, Bs) && Whole(c, Decrypting, scheme, iv, m) == Fine(result)
    ensures |m| % Bs == 0
    ensures exists tail: Bytes ::
      Decrypt(c, iv, m) == result + tail
      && (tail == [] || (scheme != NoPadding && |tail| <= Bs && tail == Filling(scheme, |tail|)))
      && (tail == [] ==> scheme == NoPadding || scheme == ZeroBytes)
  {
    hide Decrypt, Filling, DataLength, Whole;
    WholeDecrypted(c, scheme, iv, m, result);
    var p := Decrypt(c, iv, m);
    if scheme == NoPadding {
      assert p == result + [];
    } else {
      var b: Block := p[|p| - Bs..];
      var n := DataLength(scheme, b).value;
      OnlyPadded(scheme, b, n);
      if n == Bs { FullOnlyZeros(scheme, b); }
      var tail := b[n..];
      assert p == result + tail by { assert p == p[..|p| - Bs] + b; }
    }
  }

  lemma WholeDecrypted(c: BlockCipher, scheme: Scheme, iv: Block, m: Bytes, result: Bytes)
    requires Sound(c, Bs) && Whole(c, Decrypting, scheme, iv, m) == Fine(result)
    ensures |m| % Bs == 0
    ensures var p := Decrypt(c, iv, m);
            if scheme == NoPadding then result == p
            else |p| >= Bs && DataLength(scheme, p[|p| - Bs..]).Some?
                 && DataLength(scheme, p[|p| - Bs..]).value <= Bs
                 && result == p[..|p| - Bs + DataLength(scheme, p[|p| - Bs..]).value]
  {
    hide Decrypt, DataLength;
    if scheme != NoPadding {
      WholeBlocks(|m|, 0);
      LengthInBlock(scheme, Decrypt(c, iv, m)[|m| - Bs..]);
    }
  }

  lemma FullOnlyZeros(scheme: Scheme, b: Block)
    requires DataLength(scheme, b) == Some(Bs)
    ensures scheme == NoPadding || scheme == ZeroBytes
  {}

  lemma FilledUp(scheme: Scheme, m: Bytes)
    requires scheme != NoPadding
    ensures 1 <= Bs - |m| % Bs <= Bs
    ensures |m + Filling(scheme, Bs - |m| % Bs)| % Bs == 0
  {
    DivModFacts(|m|, Bs);
    DivModUnique(|m| + Bs - |m| % Bs, |m| / Bs + 1, 0, Bs) by { MulDist(|m| / Bs, 1, Bs); }
  }

  /** When a message survives encryption and decryption. */
  predicate Recoverable(scheme: Scheme, m: Bytes) {
    match scheme
    case NoPadding => |m| % Bs == 0
    case ZeroBytes => |m| % Bs == 0 || m[|m| - 1] != 0
    case _ => true
  }

  /** Decrypting an encrypted message gives it back exactly when it is recoverable: always
      with the three unambiguous paddings; without padding when it is whole blocks; with zero
      padding unless it ends in a zero byte inside a block. */
  lemma WholeRoundTrip(c: BlockCipher, scheme: Scheme, iv: Block, m: Bytes)
    requires Sound(c, Bs)
    ensures var x := Whole(c, Encrypting, scheme, iv, m);
            (x.Fine? && Whole(c, Decrypting, scheme, iv, x.bytes) == Fine(m)) <==> Recoverable(scheme, m)
  {
    hide Encrypt, Decrypt;
    if scheme == NoPadding {
      if |m| % Bs == 0 { RoundTrip(c, iv, m); }
    } else {
      PaddedRoundTrip(c, scheme, iv, m);
    }
  }

  lemma LastBlock(scheme: Scheme, m: Bytes)
    requires scheme != NoPadding
    ensures var n := |m| - |m| % Bs;
            0 <= n <= |m| && |m[n..]| < Bs && |m[n..]| == |m| % Bs
            && (m + Filling(scheme, Bs - |m| % Bs))[n..] == m[n..] + Filling(scheme, Bs - |m| % Bs)
            && |m + Filling(scheme, Bs - |m| % Bs)| - Bs == n
  {
    DivModFacts(|m|, Bs);
    if |m| < Bs { ModSmall(|m|, Bs); }
  }

  lemma PaddedRoundTrip(c: BlockCipher, scheme: Scheme, iv: Block, m: Bytes)
    requires Sound(c, Bs) && scheme != NoPadding
    ensures var x := Whole(c, Encrypting, scheme, iv, m);
            x.Fine? && (Whole(c, Decrypting, scheme, iv, x.bytes) == Fine(m) <==> Recoverable(scheme, m))
  {
    hide Encrypt, Decrypt, DataLength, Filling;
    FilledUp(scheme, m);
    LastBlock(scheme, m);
    var n := |m| - |m| % Bs;
    var p := m + Filling(scheme, Bs - |m| % Bs);
    RoundTrip(c, iv, p);
    PaddingRecognised(scheme, m[n..]);
    LengthInBlock(scheme, p[n..]);
    if DataLength(scheme, p[n..]).Some? {
      SameLength(m, p, n, DataLength(scheme, p[n..]).value);
    }
  }

  lemma SameLength(m: Bytes, p: Bytes, n: nat, k: nat)
    requires |m| <= |p| && p[..|m|] == m && n <= |m| && n + k <= |p|
    ensures p[..n + k] == m <==> k == |m| - n
  {}

  lemma CryptedSound(c: BlockCipher, mode: Mode, iv0: Block, d: Bytes, o: Bytes, v: Bytes)
    requires Crypted(c, mode, iv0, d, o, v)
    ensures Sound(c, Bs) && |d| % Bs == 0 && o == Crypt(c, mode, iv0, d)
  {}

  lemma CryptIs(c: BlockCipher, mode: Mode, iv: Block, x: Bytes)
    requires Sound(c, Bs) && |x| % Bs == 0
    ensures Crypt(c, mode, iv, x) == if mode == Encrypting then Encrypt(c, iv, x) else Decrypt(c, iv, x)
  {}

  lemma LastOf(o: Bytes, b: Block)
    ensures (o + b)[|o + b| - Bs..] == b
    ensures forall k: nat :: k <= Bs ==> (o + b)[..|o + b| - Bs + k] == o + b[..k]
  {}

  class CipherContext {
    const c: BlockCipher
    const mode: Mode
    const scheme: Scheme
    var data: array<bv8>
    var len: nat
    var iv: array<bv8>
    /** The initial chaining value, everything fed in so far and everything put out so far. */
    ghost const iv0: Block
    ghost var fed: Bytes
    ghost var out: Bytes

    /** What has been processed: all that was fed except what still waits. */
    ghost function Done(): Bytes
      reads this
      requires len <= |fed|
    {
      fed[..|fed| - len]
    }

    /** Output and chaining value match what has been processed; the rest waits. */
    ghost predicate Consistent()
      reads this, data, iv
    {
      Sound(c, Bs) && data.Length == Bs && iv.Length == Bs && data != iv
      && len <= Bs && len <= |fed| && data[..len] == fed[|fed| - len..]
      && Crypted(c, mode, iv0, Done(), out, iv[..])
    }

    ghost predicate Valid()
      reads this, data, iv
    {
      Consistent() && HeldOk(mode, scheme, |fed|, len)
    }

    constructor (cipher: BlockCipher, m: Mode, s: Scheme, start: Block)
      requires Sound(cipher, Bs)
      ensures Valid() && fresh(data) && fresh(iv)
      ensures c == cipher && mode == m && scheme == s && iv0 == start && fed == [] && out == []
    {
      c, mode, scheme, iv0, fed, out, len := cipher, m, s, start, [], [], 0;
      data := new bv8[Bs];
      iv := new bv8[Bs](k requires 0 <= k < Bs => start[k]);
      new;
      CryptNothing(cipher, m, start);
      assert iv[..] == start;
      ModSmall(0, Bs);
    }

    /** Append input to the waiting bytes. */
    method Cache(input: Bytes)
      requires Consistent() && len + |input| <= Bs
      modifies this`len, this`fed, data
      ensures Consistent() && len == old(len) + |input| && fed == old(fed) + input
    {
      ghost var done := Done();
      Store(data, len, input);
      SpliceFacts(old(data[..]), len, input);
      assert data[..len + |input|] == old(data[..len]) + input;
      len := len + |input|;
      fed := fed + input;
      assert fed[|fed| - len..] == old(fed)[|old(fed)| - old(len)..] + input;
      assert Done() == done;
    }

    /** Process the block that has filled up in the context. */
    method FlushBlock(output: array<bv8>)
      requires Consistent() && len == Bs && output.Length >= Bs && output != data && output != iv
      modifies this`len, this`out, iv, output
      ensures Consistent() && len == 0 && out == old(out) + output[..Bs]
    {
      hide Crypt, ChainAfter, Crypted, Splice;
      ghost var d, b: Block, was := Done(), data[..], output[..];
      assert fed == d + b;
      ModSmall(0, Bs);
      CryptMore(c, mode, iv0, d, out, iv[..], b);
      assert data[0..0 + Bs] == b;
      ghost var y := Crypt(c, mode, iv[..], b);
      SpliceFacts(was, 0, y);
      var ok := CryptCbc(c, mode, Bs, iv, data, 0, output, 0);
      len := 0;
      out := out + y;
      assert Done() == d + b;
    }

    lemma WholeDone()
      requires Consistent()
      ensures |Done()| % Bs == 0 && (len == 0 ==> Done() == fed)
    {}

    /** Whole blocks of the input straight to the output. What follows them in the input is
        still there afterwards. */
    method ProcessBlocks(input: array<bv8>, off: nat, n: nat, output: array<bv8>, olen: nat)
      requires Consistent() && len == 0 && off + n <= input.Length && n % Bs == 0
      requires {input, output} !! {data, iv} && olen + n <= output.Length
      requires input != output || off == olen
      modifies this`fed, this`out, iv, output
      ensures Consistent() && fed == old(fed) + old(input[off..off + n])
      ensures out == old(out) + output[olen..olen + n] && output[..olen] == old(output[..olen])
      ensures input[off + n..] == old(input[off + n..])
    {
      hide Crypt, ChainAfter, Crypted, Splice;
      ghost var x, v: Block := input[off..off + n], iv[..];
      WholeDone();
      CryptMore(c, mode, iv0, fed, out, v, x);
      ghost var y := Crypt(c, mode, v, x);
      SpliceFacts(output[..], olen, y);
      var ok := CryptCbc(c, mode, n, iv, input, off, output, olen);
      fed := fed + x;
      out := out + y;
      assert Done() == fed;
    }

    /** n bytes are processed, the following copy bytes wait. (The source saves the waiting
        bytes first; the blocks written cannot touch them.) */
    method TakeSplit(input: array<bv8>, off: nat, n: nat, copy: nat, output: array<bv8>, olen: nat)
      requires Consistent() && len == 0 && off + n + copy <= input.Length && n % Bs == 0 && copy <= Bs
      requires {input, output} !! {data, iv} && olen + n <= output.Length
      requires input != output || off == olen
      modifies this`len, this`fed, this`out, data, iv, output
      ensures Consistent() && len == copy && output[..olen] == old(output[..olen])
      ensures fed == old(fed) + old(input[off..off + n]) + old(input[off + n..][..copy])
      ensures out == old(out) + output[olen..olen + n]
    {
      hide Crypt, ChainAfter, Crypted;
      ghost var tail := input[off + n..];
      if n != 0 {
        ProcessBlocks(input, off, n, output, olen);
      }
      assert input[off + n..off + n + copy] == tail[..copy];
      Cache(input[off + n..off + n + copy]);
    }

    /** Whole blocks of the input straight to the output; the tail waits. */
    method TakeRest(input: array<bv8>, off: nat, ilen: nat, output: array<bv8>, olen: nat) returns (olen': nat)
      requires Consistent() && len == 0 && off <= ilen <= input.Length
      requires off == ilen ==> HeldOk(mode, scheme, |fed|, 0)
      requires {input, output} !! {data, iv} && olen + ilen - off <= output.Length
      requires input != output || off == olen
      modifies this`len, this`fed, this`out, data, iv, output
      ensures Valid() && olen <= olen' <= output.Length && output[..olen] == old(output[..olen])
      ensures fed == old(fed) + old(input[off..ilen]) && out == old(out) + output[olen..olen']
    {
      hide Crypt, ChainAfter, Crypted, HeldOk, TailLength, KeepsLast, Consistent;
      var copy := TailLength(mode, scheme, ilen - off);
      var n := ilen - off - copy;
      WholeDone();
      TailAdmissible(mode, scheme, |fed|, ilen - off);
      Halves(input[..], off, off + n, ilen);
      TakeSplit(input, off, n, copy, output, olen);
      olen' := olen + n;
    }

    /** Feed one chunk. The only refusal: in place, with waiting bytes or a partial block. */
    method Update(input: array<bv8>, ilen: nat, output: array<bv8>) returns (ret: Status, olen: nat)
      requires Valid() && ilen <= input.Length && len + ilen <= output.Length
      requires {input, output} !! {data, iv}
      modifies this`len, this`fed, this`out, data, iv, output
      ensures ret == if input == output && (old(len) != 0 || ilen % Bs != 0) then BadInput else Ok
      ensures Valid() && olen <= output.Length
      ensures ret == Ok ==> fed == old(fed) + old(input[..ilen]) && out == old(out) + output[..olen]
      ensures ret != Ok ==> fed == old(fed) && out == old(out) && output[..] == old(output[..])
    {
      hide Crypt, ChainAfter, Crypted, HeldOk, KeepsLast;
      olen := 0;
      if input == output && (len != 0 || ilen % Bs != 0) { return BadInput, 0; }
      HeldBound(mode, scheme, |fed|, len);
      if (KeepsLast(mode, scheme) && ilen <= Bs - len) || (!KeepsLast(mode, scheme) && ilen < Bs - len) {
        HeldMore(mode, scheme, |fed|, len, ilen);
        Cache(input[..ilen]);
        return Ok, 0;
      }
      var off := 0;
      if len != 0 {
        off := Bs - len;
        Cache(input[..off]);
        FlushBlock(output);
        olen := Bs;
      }
      WholeDone();
      HeldNothing(mode, scheme, |fed|);
      olen := AfterFlush(input, off, ilen, output, olen, old(fed), old(out), old(input[..]));
      ret := Ok;
    }

    /** The part of update behind the completed block. */
    method AfterFlush(input: array<bv8>, off: nat, ilen: nat, output: array<bv8>, olen: nat,
                      ghost f: Bytes, ghost o: Bytes, ghost inp: Bytes) returns (olen': nat)
      requires Consistent() && len == 0 && off <= ilen <= input.Length == |inp| && inp[off..] == input[off..]
      requires off == ilen ==> HeldOk(mode, scheme, |fed|, 0)
      requires {input, output} !! {data, iv} && olen + ilen - off <= output.Length
      requires input != output || off == olen
      requires fed == f + inp[..off] && out == o + output[..olen]
      modifies this`len, this`fed, this`out, data, iv, output
      ensures Valid() && olen' <= output.Length
      ensures fed == f + inp[..ilen] && out == o + output[..olen']
    {
      hide Crypt, ChainAfter, Crypted, HeldOk;
      Halves(inp, 0, off, ilen);
      assert input[off..ilen] == inp[off..][..ilen - off] == inp[off..ilen];
      olen' := TakeRest(input, off, ilen, output, olen);
      Halves(output[..], 0, olen, olen');
    }

    /** Close the stream. The bytes put out by all calls together are those of the whole
        message, or the error is the one for the whole message. */
    method Finish(output: array<bv8>) returns (ret: Status, olen: int)
      requires Valid() && output.Length >= Bs && output != data && output != iv
      modifies data, iv, output
      ensures ret == Ok ==> 0 <= olen <= output.Length
      ensures Whole(c, mode, scheme, iv0, fed) == if ret == Ok then Fine(out + output[..olen]) else Failed(ret)
    {
      hide Crypt, ChainAfter, Crypted, HeldOk, Encrypt, Decrypt, DataLength, Filling;
      HeldMod(mode, scheme, |fed|, len);
      CryptedDone();
      if mode == Encrypting {
        if scheme == NoPadding {
          if len != 0 { return FullBlockExpected, 0; }
          return Ok, 0;
        }
        ret, olen := FinishEncrypt(output);
      } else if len != Bs {
        if scheme == NoPadding && len == 0 { return Ok, 0; }
        return FullBlockExpected, 0;
      } else {
        ret, olen := FinishDecrypt(output);
      }
    }

    lemma CryptedDone()
      requires Consistent()
      ensures |Done()| % Bs == 0 && out == Crypt(c, mode, iv0, Done()) && |out| == |Done()|
      ensures out == if mode == Encrypting then Encrypt(c, iv0, Done()) else Decrypt(c, iv0, Done())
      ensures len == 0 ==> Done() == fed
    {}

    method FinishEncrypt(output: array<bv8>) returns (ret: Status, olen: int)
      requires Valid() && output.Length >= Bs && output != data && output != iv
      requires mode == Encrypting && scheme != NoPadding && len == |fed| % Bs && len < Bs
      modifies data, iv, output
      ensures ret == Ok && olen == Bs && Whole(c, mode, scheme, iv0, fed) == Fine(out + output[..Bs])
    {
      hide Crypt, ChainAfter, Encrypt, Decrypt, Filling, Crypted;
      ghost var d, tail := Done(), fed[|fed| - len..];
      AddPadding(scheme, data, len);
      assert data[..] == tail + Filling(scheme, Bs - len);
      assert fed + Filling(scheme, Bs - len) == d + data[..];
      CryptLast(output, d);
      CryptIs(c, mode, iv0, d + data[..]);
      return Ok, Bs;
    }

    /** The block in the context, behind the processed blocks d. */
    method CryptLast(output: array<bv8>, ghost d: Bytes)
      requires data.Length == Bs && iv.Length == Bs && data != iv && Crypted(c, mode, iv0, d, out, iv[..])
      requires output.Length >= Bs && output != data && output != iv
      modifies iv, output
      ensures |d + data[..]| % Bs == 0 && Crypt(c, mode, iv0, d + data[..]) == out + output[..Bs]
    {
      hide Crypt, ChainAfter, Splice, Crypted;
      ghost var b: Block := data[..];
      ModSmall(0, Bs);
      CryptedSound(c, mode, iv0, d, out, iv[..]);
      CryptMore(c, mode, iv0, d, out, iv[..], b);
      assert data[0..0 + Bs] == b;
      ghost var y := Crypt(c, mode, iv[..], b);
      CryptedSound(c, mode, iv0, d + b, out + y, ChainAfter(c, mode, iv[..], b));
      SpliceFacts(output[..], 0, y);
      var ok := CryptCbc(c, mode, Bs, iv, data, 0, output, 0);
    }

    method FinishDecrypt(output: array<bv8>) returns (ret: Status, olen: int)
      requires Valid() && output.Length >= Bs && output != data && output != iv
      requires mode == Decrypting && len == Bs && scheme != NoPadding
      modifies data, iv, output
      ensures ret == Ok ==> 0 <= olen <= Bs
      ensures Whole(c, mode, scheme, iv0, fed) == if ret == Ok then Fine(out + output[..olen]) else Failed(ret)
    {
      hide Crypt, ChainAfter, Encrypt, Decrypt, DataLength, Crypted;
      ghost var d := Done();
      assert fed == d + data[..];
      CryptLast(output, d);
      CryptIs(c, mode, iv0, fed);
      var good, n := GetPadding(scheme, output[..Bs]);
      olen := n;
      ret := if good then Ok else InvalidPadding;
      LengthInBlock(scheme, output[..Bs]);
      LastOf(out, output[..Bs]);
    }
  }

  method FromSeq(s: Bytes, room: nat) returns (a: array<bv8>)
    ensures fresh(a) && a.Length == |s| + room && a[..|s|] == s
  {
    a := new bv8[|s| + room](k => if 0 <= k < |s| then s[k] else 0);
  }

  /** One chunk from its own buffer into a fresh one. */
  method Feed(ctx: CipherContext, chunk: Bytes) returns (o: Bytes)
    requires ctx.Valid()
    modifies ctx`len, ctx`fed, ctx`out, ctx.data, ctx.iv
    ensures ctx.Valid() && ctx.fed == old(ctx.fed) + chunk && ctx.out == old(ctx.out) + o
  {
    hide ctx.Valid;
    var input := FromSeq(chunk, 0);
    var output := FromSeq(chunk, ctx.len);
    assert input[..|chunk|] == chunk;
    var status, olen := ctx.Update(input, |chunk|, output);
    o := output[..olen];
  }

  /** Chunk independence: however a message is cut up, feeding the pieces one by one and then
      finishing gives what one pass over the whole message gives. */
  method CryptInChunks(c: BlockCipher, mode: Mode, scheme: Scheme, iv: Block, chunks: seq<Bytes>)
    returns (ret: Status, result: Bytes)
    requires Sound(c, Bs)
    ensures Whole(c, mode, scheme, iv, Flat(chunks)) == if ret == Ok then Fine(result) else Failed(ret)
  {
    hide Whole;
    var ctx := new CipherContext(c, mode, scheme, iv);
    result := [];
    for i := 0 to |chunks|
      invariant fresh(ctx) && fresh(ctx.data) && fresh(ctx.iv) && ctx.Valid()
      invariant ctx.fed == Flat(chunks[..i]) && ctx.out == result
    {
      assert chunks[..i + 1][..i] == chunks[..i];
      var o := Feed(ctx, chunks[i]);
      result := result + o;
    }
    assert chunks[..|chunks|] == chunks;
    var last := new bv8[Bs];
    var status, olen := ctx.Finish(last);
    ret := status;
    if status == Ok { result := result + last[..olen]; }
  }
}
