/** The DER readers (asn1parse.c): each advances a position p towards end. */
module DerParse {
  import opened Options
  import opened Arith
  import opened Words
  import opened Mpis
  import opened MpiBytes
  import opened Der

  /** mbedtls_asn1_get_len. */
  method GetLen(data: Bytes, p: nat, end: nat) returns (ret: Result<nat>, p': nat)
    requires p <= end <= |data|
    ensures match ParseLength(data[p..end])
      case Err(e) => ret == Err(e)
      case Ok(f) => ret == Ok(f.length) && p' == p + f.size && p' + f.length <= end
  {
    hide FromBE;
    ghost var s := data[p..end];
    p' := p;
    if end - p < 1 { return Err(OutOfData), p; }
    var len: nat;
    if data[p] < 0x80 {
      len := data[p];
      p' := p + 1;
    } else {
      var k: nat := data[p] as nat - 0x80;
      if k == 0 || k > 4 { return Err(InvalidLength), p; }
      if end - p < k + 1 { return Err(OutOfData), p; }
      len := Accumulate(data, p + 1, k);
      SliceOfSlice(data, p, end, 1, k + 1);
      p' := p + k + 1;
    }
    if len > end - p' { return Err(OutOfData), p'; }
    ret := Ok(len);
  }

  lemma SliceOfSlice(s: Bytes, a: nat, b: nat, c: nat, d: nat)
    requires a <= b <= |s| && c <= d <= b - a
    ensures s[a..b][c..d] == s[a + c..a + d]
  {
    var t := s[a..b];
    assert forall k :: c <= k < d ==> t[k] == s[a + k];
  }

  /** k big-endian bytes. (The source has one branch for each k.) */
  method Accumulate(data: Bytes, p: nat, k: nat) returns (v: nat)
    requires p + k <= |data|
    ensures v == FromBE(data[p..p + k])
  {
    v := 0;
    for i := 0 to k
      invariant v == FromBE(data[p..p + i])
    {
      assert data[p..p + i + 1][..i] == data[p..p + i];
      v := v * 256 + data[p + i];
    }
  }

  /** mbedtls_asn1_get_tag. */
  method GetTag(data: Bytes, p: nat, end: nat, tag: Byte) returns (ret: Result<nat>, p': nat)
    requires p <= end <= |data|
    ensures match ParseTag(data[p..end], tag)
      case Err(e) => ret == Err(e)
      case Ok(f) => ret == Ok(f.length) && p' == p + f.size && p' + f.length <= end
                    && Content(data[p..end], f) == data[p'..p' + f.length]
  {
    hide ParseLength;
    if end - p < 1 { return Err(OutOfData), p; }
    if data[p] != tag { return Err(UnexpectedTag), p; }
    assert data[p..end][1..] == data[p + 1..end];
    ret, p' := GetLen(data, p + 1, end);
  }

  /** asn1_get_tagged_int: skip leading zeros, then at most four bytes with a clear top bit. */
  method GetTaggedInt(data: Bytes, p: nat, end: nat, tag: Byte) returns (ret: Result<nat>, p': nat)
    requires p <= end <= |data|
    ensures match ParseInt(data[p..end], tag)
      case Err(e) => ret == Err(e)
      case Ok(v) => ret == Ok(v.1) && p' == p + v.0
  {
    hide ParseTag, Content, FromBE;
    var r, q := GetTag(data, p, end, tag);
    p' := q;
    if r.Err? { return r, q; }
    var len: nat := r.value;
    ghost var c := data[q..q + len];
    if len == 0 { return Err(InvalidLength), q; }
    if data[q] >= 0x80 { return Err(InvalidLength), q; }
    var start := q;
    while len > 0 && data[p'] == 0
      invariant q <= p' && p' + len == q + r.value && FromBE(data[p'..q + r.value]) == FromBE(c)
    {
      assert data[p'..q + r.value] == [0] + data[p' + 1..q + r.value];
      FromBECons(0, data[p' + 1..q + r.value]);
      p' := p' + 1;
      len := len - 1;
    }
    FitsInt(data[p'..p' + len]);
    if len > 4 { return Err(InvalidLength), p'; }
    if len == 4 && data[p'] >= 0x80 { return Err(InvalidLength), p'; }
    var v := Accumulate(data, p', len);
    return Ok(v), p' + len;
  }

  /** Without leading zeros, a number fits an int exactly if it has fewer than four bytes, or
      four with a clear top bit. */
  lemma FitsInt(s: Bytes)
    requires s == [] || s[0] != 0
    ensures FromBE(s) <= IntMax <==> |s| < 4 || (|s| == 4 && s[0] < 0x80)
  {
    hide Pow2, FromBE;
    SmallPowers();
    if s != [] {
      var n := |s| - 1;
      assert s == [s[0]] + s[1..];
      FromBECons(s[0], s[1..]);
      FromBEBound(s[1..]);
      if n < 3 {
        FromBEBound(s);
      } else if n == 3 {
        assert FromBE(s) == s[0] * 0x100_0000 + FromBE(s[1..]);
      } else {
        Pow2Mono(8 * 4, 8 * n);
        MulMono(1, s[0], Pow2(8 * n));
      }
    } else {
      FromBEEmpty(s);
    }
  }

  /** mbedtls_asn1_get_mpi. */
  method GetMpi(data: Bytes, p: nat, end: nat, x: Mpi) returns (ret: Result<nat>, p': nat)
    requires p <= end <= |data|
    modifies x, x.p
    ensures match ParseMpi(data[p..end])
      case Err(e) => ret == Err(e)
      case Ok(v) => ret.Ok? && p' == p + v.0 && x.Valid() && x.Val() == v.1
  {
    hide ParseTag, Content, FromBE;
    var r, q := GetTag(data, p, end, TagInteger);
    if r.Err? { return r, q; }
    ReadBinary(x, data[q..q + r.value]);
    return r, q + r.value;
  }

  /** mbedtls_asn1_get_bitstring. */
  method GetBitstring(data: Bytes, p: nat, end: nat) returns (ret: Result<Bits>, p': nat)
    requires p <= end <= |data|
    ensures ret == ParseBits(data[p..end])
    ensures ret.Ok? ==> p' == end
  {
    hide ParseTag, Content;
    var r, q := GetTag(data, p, end, TagBitString);
    p' := q;
    if r.Err? { return Err(r.error), q; }
    ghost var c := data[q..q + r.value];
    if r.value < 1 { return Err(OutOfData), q; }
    var len := r.value - 1;
    var unused := data[q];
    if unused > 7 { return Err(InvalidLength), q; }
    var bytes := data[q + 1..q + 1 + len];
    p' := q + 1 + len;
    if p' != end { return Err(LengthMismatch), p'; }
    assert c[1..] == bytes;
    ret := Ok(Bits(bytes, unused));
  }

  /** mbedtls_asn1_get_alg. */
  method GetAlg(data: Bytes, p: nat, end: nat) returns (ret: Result<Alg>, p': nat)
    requires p <= end <= |data|
    ensures match ParseAlg(data[p..end])
      case Err(e) => ret == Err(e)
      case Ok(v) => ret == Ok(v.1) && p' == p + v.0
  {
    hide ParseTag, Content, ParseLength, ParseAlgBody;
    var r, q := GetTag(data, p, end, TagSequence);
    if r.Err? { return Err(r.error), q; }
    if end - q < 1 { return Err(OutOfData), q; }
    ret, p' := GetAlgBody(data, q, q + r.value);
  }

  /** The inside of the sequence, up to its own end. */
  method GetAlgBody(data: Bytes, p: nat, end: nat) returns (ret: Result<Alg>, p': nat)
    requires p <= end <= |data|
    ensures ret == ParseAlgBody(data[p..end]) && (ret.Ok? ==> p' == end)
  {
    hide ParseTag, ParseLength;
    var r, q := GetTag(data, p, end, TagOid);
    if r.Err? { return Err(r.error), q; }
    var oid := data[q..q + r.value];
    p' := q + r.value;
    ghost var rest := data[p'..end];
    assert data[p..end][p' - p..] == rest;
    if p' == end { return Ok(Alg(oid, None)), p'; }
    var tag := data[p'];
    p' := p' + 1;
    assert rest[1..] == data[p'..end];
    var h;
    h, q := GetLen(data, p', end);
    if h.Err? { return Err(h.error), q; }
    var value := data[q..q + h.value];
    assert Content(rest[1..], ParseLength(rest[1..]).value) == value by {
      SliceOfSlice(data, p', end, q - p', q - p' + h.value);
    }
    p' := q + h.value;
    if p' != end { return Err(LengthMismatch), p'; }
    ret := Ok(Alg(oid, Some((tag, value))));
  }
}
