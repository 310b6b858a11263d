/** The DER writers (asn1write.c): they fill a buffer from its end backwards. Position p is
    the start of what has been written; nothing below start may be touched. */
module DerWrite {
  import opened Options
  import opened Arith
  import opened Words
  import opened Mpis
  import opened MpiBits
  import opened MpiBytes
  import opened Der

  /** enc now stands in front of what was written before. */
  twostate predicate Prepended(buf: array<Byte>, p: nat, p': nat, enc: Bytes)
    reads buf
  {
    p' + |enc| == p <= buf.Length && buf[p'..p] == enc
    && buf[p..] == old(buf[p..]) && buf[..p'] == old(buf[..p'])
  }

  /** The bytes from p on, which every writer leaves alone. */
  twostate predicate Kept(buf: array<Byte>, start: nat, p: nat)
    reads buf
  {
    start <= p <= buf.Length && buf[p..] == old(buf[p..]) && buf[..start] == old(buf[..start])
  }

  /** How writing content and header ends if room bytes are free for both: the content must
      fit, a length field must exist for it, and the header must fit. */
  ghost function Ending(room: int, tag: Byte, content: Bytes): Result<nat> {
    if room < |content| then Err(BufTooSmall)
    else if |content| >= 0x1_0000_0000 then Err(InvalidLength)
    else if room < |Tlv(tag, content)| then Err(BufTooSmall)
    else Ok(|Tlv(tag, content)|)
  }

  /** One byte in front. */
  method PutByte(buf: array<Byte>, p: nat, b: Byte) returns (p': nat)
    requires 0 < p <= buf.Length
    modifies buf
    ensures Prepended(buf, p, p', [b])
  {
    p' := p - 1;
    buf[p'] := b;
  }

  /** The k low bytes of n, and in front of them the size byte. (The source has one branch for
      each k, with the bytes written out.) */
  method PutLong(buf: array<Byte>, p: nat, n: nat, k: nat) returns (p': nat)
    requires 1 <= k <= 4 && k + 1 <= p <= buf.Length
    modifies buf
    ensures Prepended(buf, p, p', [0x80 + k] + ToBE(n, k))
  {
    var v := n;
    p' := p;
    var i := 0;
    while i < k
      invariant 0 <= i <= k && p' == p - i && buf[p..] == old(buf[p..]) && buf[..p'] == old(buf[..p'])
      invariant ToBE(n, k) == ToBE(v, k - i) + buf[p'..p]
    {
      ghost var done := buf[p'..p];
      assert ToBE(v, k - i) == ToBE(v / 256, k - i - 1) + [v % 256];
      p' := p' - 1;
      buf[p'] := v % 256;
      assert buf[p'..p] == [v % 256] + done;
      v := v / 256;
      i := i + 1;
    }
    assert ToBE(v, 0) == [];
    ghost var done := buf[p'..p];
    p' := p' - 1;
    buf[p'] := 0x80 + k;
    assert buf[p'..p] == [0x80 + k] + done;
  }

  lemma LengthSizes(n: nat)
    requires n < 0x1_0000_0000
    ensures var k := if n <= 0xFF then 1 else if n <= 0xFFFF then 2 else if n <= 0xFF_FFFF then 3 else 4;
            LengthField(n) == if n < 0x80 then [n] else [0x80 + k] + ToBE(n, k)
    ensures |LengthField(n)| == if n < 0x80 then 1 else if n <= 0xFF then 2 else if n <= 0xFFFF then 3
                                else if n <= 0xFF_FFFF then 4 else 5
  {
    hide ToBE;
  }

  /** mbedtls_asn1_write_len. */
  method WriteLen(buf: array<Byte>, start: nat, p: nat, n: nat) returns (ret: Result<nat>, p': nat)
    requires start <= p <= buf.Length
    modifies buf
    ensures ret == if n >= 0x1_0000_0000 then Err(InvalidLength)
                   else if p - start < |LengthField(n)| then Err(BufTooSmall) else Ok(|LengthField(n)|)
    ensures Kept(buf, start, p) && start <= p' <= p
    ensures ret.Ok? ==> Prepended(buf, p, p', LengthField(n))
  {
    hide ToBE, LengthField;
    if n < 0x1_0000_0000 { LengthSizes(n); }
    p' := p;
    if n < 0x80 {
      if p - start < 1 { return Err(BufTooSmall), p; }
      p' := PutByte(buf, p, n);
      return Ok(1), p';
    }
    var k := if n <= 0xFF then 1 else if n <= 0xFFFF then 2 else if n <= 0xFF_FFFF then 3 else 4;
    if n > 0xFFFF_FFFF { return Err(InvalidLength), p; }
    if p - start < k + 1 { return Err(BufTooSmall), p; }
    p' := PutLong(buf, p, n, k);
    ret := Ok(k + 1);
  }

  /** mbedtls_asn1_write_tag. */
  method WriteTag(buf: array<Byte>, start: nat, p: nat, tag: Byte) returns (ret: Result<nat>, p': nat)
    requires start <= p <= buf.Length
    modifies buf
    ensures ret == if p - start < 1 then Err(BufTooSmall) else Ok(1)
    ensures Kept(buf, start, p) && start <= p' <= p
    ensures ret.Ok? ==> Prepended(buf, p, p', [tag])
  {
    if p - start < 1 { return Err(BufTooSmall), p; }
    p' := PutByte(buf, p, tag);
    ret := Ok(1);
  }

  /** mbedtls_asn1_write_raw_buffer. */
  method WriteRaw(buf: array<Byte>, start: nat, p: nat, s: Bytes) returns (ret: Result<nat>, p': nat)
    requires start <= p <= buf.Length
    modifies buf
    ensures ret == if p - start < |s| then Err(BufTooSmall) else Ok(|s|)
    ensures Kept(buf, start, p) && start <= p' <= p
    ensures ret.Ok? ==> Prepended(buf, p, p', s)
  {
    if p - start < |s| { return Err(BufTooSmall), p; }
    p' := p - |s|;
    forall k | 0 <= k < |s| { buf[p' + k] := s[k]; }
    assert buf[p'..p] == s;
    ret := Ok(|s|);
  }

  /** Length and tag in front of the content that stands from p on, content bytes long. */
  method WriteHeader(buf: array<Byte>, start: nat, p: nat, tag: Byte, content: nat) returns (ret: Result<nat>, p': nat)
    requires start <= p <= buf.Length
    modifies buf
    ensures ret == if content >= 0x1_0000_0000 then Err(InvalidLength)
                   else if p - start < 1 + |LengthField(content)| then Err(BufTooSmall)
                   else Ok(content + 1 + |LengthField(content)|)
    ensures Kept(buf, start, p) && start <= p' <= p
    ensures ret.Ok? ==> Prepended(buf, p, p', [tag] + LengthField(content))
  {
    hide LengthField;
    var r, q := WriteLen(buf, start, p, content);
    if r.Err? { return r, q; }
    ghost var lenField := buf[q..p];
    var t;
    t, p' := WriteTag(buf, start, q, tag);
    if t.Err? { return t, p'; }
    assert buf[q..p] == lenField by { assert buf[q..p] == buf[q..][..p - q]; }
    assert buf[p'..p] == buf[p'..q] + buf[q..p];
    ret := Ok(content + r.value + t.value);
  }

  /** Finish an encoding whose content stands from q to p. */
  method Finish(buf: array<Byte>, start: nat, p: nat, q: nat, tag: Byte, ghost content: Bytes)
    returns (ret: Result<nat>, p': nat)
    requires start <= q <= p <= buf.Length && |content| == p - q && buf[q..p] == content
    modifies buf
    ensures ret == Ending(p - start, tag, content)
    ensures start <= p' <= q && buf[q..] == old(buf[q..]) && buf[..start] == old(buf[..start])
    ensures ret.Ok? ==> p' + |Tlv(tag, content)| == p && buf[p'..p] == Tlv(tag, content)
    ensures ret.Ok? ==> buf[..p'] == old(buf[..p'])
  {
    hide LengthField;
    ret, p' := WriteHeader(buf, start, q, tag, p - q);
    assert buf[q..p] == content by { assert buf[q..p] == buf[q..][..p - q]; }
    if ret.Ok? { assert buf[p'..p] == buf[p'..q] + buf[q..p]; }
  }

  /** Everything from p on, and below p', is as before. */
  lemma Frame(b0: Bytes, b1: Bytes, b2: Bytes, q: nat, p: nat, p': nat)
    requires |b0| == |b1| == |b2| && p' <= q <= p <= |b0|
    requires b1[p..] == b0[p..] && b1[..q] == b0[..q] && b2[q..] == b1[q..] && b2[..p'] == b1[..p']
    ensures b2[p..] == b0[p..] && b2[..p'] == b0[..p']
  {
    assert b2[p..] == b2[q..][p - q..] && b1[p..] == b1[q..][p - q..];
    assert b1[..p'] == b1[..q][..p'] && b0[..p'] == b0[..q][..p'];
  }

  /** mbedtls_asn1_write_null and mbedtls_asn1_write_oid: content and header. */
  method WriteTlv(buf: array<Byte>, start: nat, p: nat, tag: Byte, s: Bytes) returns (ret: Result<nat>, p': nat)
    requires start <= p <= buf.Length && |s| <= IntMax
    modifies buf
    ensures ret == Ending(p - start, tag, s)
    ensures Kept(buf, start, p) && start <= p' <= p
    ensures ret.Ok? ==> Prepended(buf, p, p', Tlv(tag, s))
  {
    hide Tlv;
    ghost var b0 := buf[..];
    var r, q := WriteRaw(buf, start, p, s);
    if r.Err? { return r, q; }
    ghost var b1 := buf[..];
    ret, p' := Finish(buf, start, p, q, tag, s);
    if ret.Ok? { Frame(b0, b1, buf[..], q, p, p'); } else { Frame(b0, b1, buf[..], q, p, start); }
  }

  lemma TlvSize(tag: Byte, s: Bytes)
    requires |s| < 0x1_0000_0000
    ensures |Tlv(tag, s)| >= |s| + 2
  {}

  // ---------- integers ----------

  lemma {:induction false} MinBytesSize(v: nat, k: nat)
    requires k > 0 && v < Pow2(8 * k)
    ensures |MinBytes(v)| <= k
    decreases k
  {
    hide Pow2;
    if v >= 256 {
      if k == 1 { Pow2Values(); }
      BytePow(k - 1);
      DivLess(v, 256, Pow2(8 * (k - 1)));
      MinBytesSize(v / 256, k - 1);
    }
  }

  lemma IntSize(v: nat)
    requires v <= IntMax
    ensures |MinBytes(v)| <= 4 && |IntContent(v)| <= 5
  {
    Pow2Pow(8, 4);
    Pow2WordValues();
    MinBytesSize(v, 4);
  }

  /** The low bytes of val, last one first, until nothing is left. */
  method WriteIntBytes(buf: array<Byte>, start: nat, p: nat, val0: int) returns (ok: bool, q: nat)
    requires start <= p <= buf.Length && -0x8000_0000 <= val0 <= IntMax
    modifies buf
    ensures ok <==> p - start >= |MinBytes(IntValueWritten(val0))|
    ensures Kept(buf, start, p) && start <= q <= p
    ensures ok ==> Prepended(buf, p, q, MinBytes(IntValueWritten(val0)))
  {
    var val := val0;
    q := p;
    var more := true;
    ghost var v := IntValueWritten(val0);
    while more
      invariant start <= q <= p && Kept(buf, start, p) && buf[..q] == old(buf[..q])
      invariant if q == p then more && val == val0 else val >= 0 || !more
      invariant more && q < p ==> val > 0 && MinBytes(v) == MinBytes(val) + buf[q..p]
      invariant !more ==> q < p && buf[q..p] == MinBytes(v)
      decreases more, if val < 0 then 0 else val
    {
      if q - start < 1 { return false, q; }
      ghost var done := buf[q..p];
      ghost var low := val % 256;
      assert MinBytes(if val >= 0 then val else low)
        == (if val >= 256 then MinBytes(val / 256) else []) + [low];
      q := q - 1;
      buf[q] := val % 256;
      assert buf[q..p] == [low] + done;
      val := val / 256;
      more := val > 0;
    }
    ok := true;
  }

  /** asn1_write_tagged_int: a zero byte in front when the top bit is set. */
  method WriteTaggedInt(buf: array<Byte>, start: nat, p: nat, val: int, tag: Byte)
    returns (ret: Result<nat>, p': nat)
    requires start <= p <= buf.Length && -0x8000_0000 <= val <= IntMax
    modifies buf
    ensures |IntContent(IntValueWritten(val))| <= 5
    ensures var w := Tlv(tag, IntContent(IntValueWritten(val)));
      ret == (if p - start < |w| then Err(BufTooSmall) else Ok(|w|))
      && (ret.Ok? ==> Prepended(buf, p, p', w))
    ensures Kept(buf, start, p) && start <= p' <= p
  {
    hide Tlv, MinBytes;
    ghost var v := IntValueWritten(val);
    IntSize(v);
    TlvSize(tag, IntContent(v));
    ghost var b0 := buf[..];
    var ok, q := WriteIntBytes(buf, start, p, val);
    if !ok { return Err(BufTooSmall), q; }
    if buf[q] >= 0x80 {
      if q - start < 1 { return Err(BufTooSmall), q; }
      ghost var done := buf[q..p];
      q := q - 1;
      buf[q] := 0;
      assert buf[q..p] == [0] + done;
    }
    ghost var b1 := buf[..];
    ret, p' := Finish(buf, start, p, q, tag, IntContent(v));
    if ret.Ok? { Frame(b0, b1, buf[..], q, p, p'); } else { Frame(b0, b1, buf[..], q, p, start); }
  }

  // ---------- big integers ----------

  /** How many bytes the shortest form has: mbedtls_mpi_size, but at least one. */
  lemma {:induction false} MinBytesLength(v: nat)
    ensures |MinBytes(v)| == if v == 0 then 1 else (BitLen(v) + 7) / 8
    decreases v
  {
    hide Pow2, BitLen;
    Pow2Values();
    BitLenBounds(v);
    if v < 256 {
      if v > 0 { Pow2Between(v, BitLen(v) - 1, 8); }
      if BitLen(v) == 0 { assert v < 1; }
    } else {
      MinBytesLength(v / 256);
      Pow2Between(v, 8, BitLen(v));
      var k := BitLen(v) - 8;
      Pow2Add(k, 8);
      Pow2Add(k - 1, 8);
      DivLess(v, 256, Pow2(k));
      DivMono(Pow2(k - 1) * 256, v, 256);
      DivModUnique(Pow2(k - 1) * 256, Pow2(k - 1), 0, 256);
      BitLenUnique(v / 256, k);
    }
  }

  /** The magnitude in as few bytes as possible, at position p downwards. */
  method WriteMagnitude(buf: array<Byte>, start: nat, p: nat, x: Mpi) returns (ok: bool, q: nat)
    requires start <= p <= buf.Length
    modifies buf
    ensures ok <==> p - start >= |MinBytes(x.Mag())|
    ensures Kept(buf, start, p) && start <= q <= p
    ensures ok ==> Prepended(buf, p, q, MinBytes(x.Mag()))
  {
    hide MinBytes, BitLen, FromBE, ToBE, Pow2;
    ghost var m := x.Mag();
    MinBytesLength(m);
    MinBytesValue(m);
    BitLenZeroIff(m);
    var bits := Bitlen(x);
    var len := (bits + 7) / 8;
    if len == 0 { len := 1; }
    if p - start < len { return false, p; }
    var tmp := new Byte[len](_ => 0);
    FromBEBound(MinBytes(m));
    var status := WriteBinary(x, tmp);
    FromBEInjective(tmp[..], MinBytes(m));
    var r;
    r, q := WriteRaw(buf, start, p, tmp[..]);
    ok := true;
  }

  lemma BitLenZeroIff(n: nat)
    ensures BitLen(n) == 0 <==> n == 0
  {}

  /** mbedtls_asn1_write_mpi. Only for a positive sign is a zero byte put in front of a set
      top bit. (The source lets write_binary fill the buffer in place.) */
  method WriteMpi(buf: array<Byte>, start: nat, p: nat, x: Mpi) returns (ret: Result<nat>, p': nat)
    requires start <= p <= buf.Length && x.HasSign()
    modifies buf
    ensures ret == Ending(p - start, TagInteger, MpiContent(x.s, x.Mag()))
    ensures ret.Ok? ==> Prepended(buf, p, p', Tlv(TagInteger, MpiContent(x.s, x.Mag())))
    ensures Kept(buf, start, p) && start <= p' <= p
  {
    hide Tlv, MinBytes;
    ghost var c := MpiContent(x.s, x.Mag());
    ghost var b0 := buf[..];
    var ok, q := WriteMagnitude(buf, start, p, x);
    if !ok { return Err(BufTooSmall), q; }
    if x.s == 1 && buf[q] >= 0x80 {
      if q - start < 1 { return Err(BufTooSmall), q; }
      ghost var done := buf[q..p];
      q := q - 1;
      buf[q] := 0;
      assert buf[q..p] == [0] + done;
    }
    ghost var b1 := buf[..];
    ret, p' := Finish(buf, start, p, q, TagInteger, c);
    if ret.Ok? { Frame(b0, b1, buf[..], q, p, p'); } else { Frame(b0, b1, buf[..], q, p, start); }
  }

  // ---------- bit strings ----------

  /** The bytes of a bit string with the unused bits cleared, and in front their number. */
  method PutBits(buf: array<Byte>, p: nat, s: Bytes, bits: nat) returns (p': nat)
    requires BitBytes(bits) <= |s| && BitBytes(bits) + 1 <= p <= buf.Length
    modifies buf
    ensures Prepended(buf, p, p', BitContent(s, bits))
  {
    hide ClearLow;
    var n := (bits + 7) / 8;
    var unused := n * 8 - bits;
    p' := p;
    if n > 0 {
      p' := p' - 1;
      buf[p'] := ClearLow(s[n - 1], unused);
      p' := p' - (n - 1);
      forall k | 0 <= k < n - 1 { buf[p' + k] := s[k]; }
      assert buf[p'..p] == s[..n - 1] + [ClearLow(s[n - 1], unused)];
    }
    ghost var done := buf[p'..p];
    p' := p' - 1;
    buf[p'] := unused;
    assert buf[p' + 1..p] == done && buf[p'..p] == [unused] + done;
  }

  /** mbedtls_asn1_write_bitstring. */
  method WriteBitstring(buf: array<Byte>, start: nat, p: nat, s: Bytes, bits: nat) returns (ret: Result<nat>, p': nat)
    requires start <= p <= buf.Length && BitBytes(bits) <= |s|
    modifies buf
    ensures ret == Ending(p - start, TagBitString, BitContent(s, bits))
    ensures ret.Ok? ==> Prepended(buf, p, p', Tlv(TagBitString, BitContent(s, bits)))
    ensures Kept(buf, start, p) && start <= p' <= p
  {
    hide Tlv, ClearLow;
    ghost var c := BitContent(s, bits);
    ghost var b0 := buf[..];
    if p - start < BitBytes(bits) + 1 { return Err(BufTooSmall), p; }
    var q := PutBits(buf, p, s, bits);
    ghost var b1 := buf[..];
    ret, p' := Finish(buf, start, p, q, TagBitString, c);
    if ret.Ok? { Frame(b0, b1, buf[..], q, p, p'); } else { Frame(b0, b1, buf[..], q, p, start); }
  }

  /** The bits of a byte shifted out one by one. */
  lemma ShiftedBits(b: Byte, j: nat)
    ensures b / Pow2(j) / 2 == b / Pow2(j + 1) && Pow2(0) == 1
  {
    Pow2Values();
    DivDiv(b, Pow2(j), 2);
  }

  /** mbedtls_asn1_write_named_bitstring: drop the trailing zero bits first. */
  method WriteNamedBitstring(buf: array<Byte>, start: nat, p: nat, s: Bytes, bits0: nat)
    returns (ret: Result<nat>, p': nat)
    requires start <= p <= buf.Length && BitBytes(bits0) <= |s|
    modifies buf
    ensures ret == Ending(p - start, TagBitString, BitContent(s, Trimmed(s, bits0)))
    ensures ret.Ok? ==> Prepended(buf, p, p', Tlv(TagBitString, BitContent(s, Trimmed(s, bits0))))
    ensures Kept(buf, start, p) && start <= p' <= p
  {
    var bits := TrimBits(s, bits0);
    ret, p' := WriteBitstring(buf, start, p, s, bits);
  }

  /** The trimming loop: the current byte is shifted so that bit bits - 1 is its lowest bit. */
  method TrimBits(s: Bytes, bits0: nat) returns (bits: nat)
    requires BitBytes(bits0) <= |s|
    ensures bits == Trimmed(s, bits0)
  {
    hide Pow2;
    bits := bits0;
    if bits == 0 { return; }
    var cur := BitBytes(bits) - 1;
    var unused := BitBytes(bits) * 8 - bits;
    var shifted: nat := s[cur] / Pow2(unused);
    var more := true;
    while more
      invariant bits <= bits0 && Trimmed(s, bits0) == Trimmed(s, bits)
      invariant more ==> bits > 0 && cur == (bits - 1) / 8 && shifted == s[cur] / Pow2(7 - (bits - 1) % 8)
      invariant !more ==> bits == 0 || BitOf(s, bits - 1) == 1
      decreases bits, more
    {
      var bit := shifted % 2;
      ShiftedBits(s[cur], 7 - (bits - 1) % 8);
      shifted := shifted / 2;
      if bit != 0 {
        more := false;
      } else {
        bits := bits - 1;
        if bits == 0 {
          more := false;
        } else if bits % 8 == 0 {
          cur := cur - 1;
          shifted := s[cur];
        }
      }
    }
  }

  // ---------- algorithm identifiers ----------

  /** mbedtls_asn1_write_algorithm_identifier_ext. With parLen > 0 the parameters already stand
      from p on; their encoding is included in what is reported. */
  method WriteAlg(buf: array<Byte>, start: nat, p: nat, oid: Bytes, parLen: nat, hasPar: bool)
    returns (ret: Result<nat>, p': nat)
    requires start <= p && p + parLen <= buf.Length && |oid| <= IntMax
    modifies buf
    ensures start <= p' <= p && buf[p..] == old(buf[p..]) && buf[..start] == old(buf[..start])
    ensures
      var e := if hasPar then p + parLen else p;
      var c := AlgContent(oid, if hasPar then Some(old(buf[p..p + parLen])) else None);
      ret == Ending(e - start, TagSequence, c)
      && (ret.Ok? ==> p' + |Tlv(TagSequence, c)| == e && buf[p'..e] == Tlv(TagSequence, c))
  {
    hide Tlv;
    var q, len := p, 0;
    if hasPar {
      if parLen == 0 {
        var r;
        r, q := WriteTlv(buf, start, p, TagNull, []);
        if r.Err? { return r, q; }
        len := r.value;
      } else {
        len := parLen;
      }
    }
    ret, p' := WriteAlgRest(buf, start, p, q, oid, len, if hasPar then parLen else 0);
  }

  /** OID and header in front of the parameters that stand from q to e = p + parLen. */
  method WriteAlgRest(buf: array<Byte>, start: nat, p: nat, q: nat, oid: Bytes, len: nat, parLen: nat)
    returns (ret: Result<nat>, p': nat)
    requires start <= q <= p && p + parLen <= buf.Length && |oid| <= IntMax
    requires len == p + parLen - q
    modifies buf
    ensures start <= p' <= q && buf[q..] == old(buf[q..]) && buf[..start] == old(buf[..start])
    ensures
      var c := Tlv(TagOid, oid) + old(buf[q..p + parLen]);
      ret == Ending(p + parLen - start, TagSequence, c)
      && (ret.Ok? ==> p' + |Tlv(TagSequence, c)| == p + parLen && buf[p'..p + parLen] == Tlv(TagSequence, c))
  {
    hide Tlv;
    var e := p + parLen;
    ghost var b0 := buf[..];
    ghost var params := buf[q..e];
    TlvSize(TagOid, oid);
    var r, o := WriteTlv(buf, start, q, TagOid, oid);
    if r.Err? { return r, o; }
    ghost var c := Tlv(TagOid, oid) + params;
    assert buf[q..e] == params by { assert buf[q..e] == buf[q..][..e - q]; }
    assert buf[o..e] == buf[o..q] + buf[q..e];
    ghost var b1 := buf[..];
    ret, p' := Finish(buf, start, e, o, TagSequence, c);
    assert buf[q..] == buf[o..][q - o..];
    assert b1[..start] == b1[..o][..start] == b0[..start];
  }
}
