/** DER (X.690): the encodings that asn1write.c produces and asn1parse.c reads, as byte
    strings, and that reading undoes writing. */
module Der {
  import opened Arith
  import opened Words
  import opened MpiBytes
  import opened Options

  const TagInteger: Byte := 0x02
  const TagBitString: Byte := 0x03
  const TagNull: Byte := 0x05
  const TagOid: Byte := 0x06
  const TagSequence: Byte := 0x30

  datatype Error = OutOfData | UnexpectedTag | InvalidLength | LengthMismatch | BufTooSmall

  datatype Result<+T> = Ok(value: T) | Err(error: Error)

  // ---------- lengths ----------

  /** The shortest length field (section 10.1 of X.690). */
  function LengthField(n: nat): (s: Bytes)
    requires n < 0x1_0000_0000
    ensures 1 <= |s| <= 5
  {
    if n < 0x80 then [n]
    else if n <= 0xFF then [0x81] + ToBE(n, 1)
    else if n <= 0xFFFF then [0x82] + ToBE(n, 2)
    else if n <= 0xFF_FFFF then [0x83] + ToBE(n, 3)
    else [0x84] + ToBE(n, 4)
  }

  /** A length field: its own size and the length it states. */
  datatype Field = Field(size: nat, length: nat)

  /** mbedtls_asn1_get_len: the length must not exceed what is left. */
  function ParseLength(s: Bytes): (r: Result<Field>)
    ensures r.Ok? ==> r.value.size + r.value.length <= |s|
  {
    if |s| < 1 then Err(OutOfData)
    else
      var k := if s[0] < 0x80 then 0 else s[0] as nat - 0x80;
      if k > 4 || s[0] == 0x80 then Err(InvalidLength)
      else if |s| < k + 1 then Err(OutOfData)
      else
        var f := Field(k + 1, if k == 0 then s[0] else FromBE(s[1..k + 1]));
        if f.length > |s| - f.size then Err(OutOfData) else Ok(f)
  }

  lemma SmallPowers()
    ensures Pow2(8 * 1) == 0x100 && Pow2(8 * 2) == 0x1_0000 && Pow2(8 * 3) == 0x100_0000
    ensures Pow2(8 * 4) == 0x1_0000_0000 && Pow2(8 * 0) == 1
  {
    Pow2Values();
    Pow2Add(8, 8);
    Pow2Add(16, 8);
    Pow2Add(16, 16);
  }

  /** Reading a written length gives it back. */
  lemma LengthRoundTrip(n: nat, rest: Bytes)
    requires n < 0x1_0000_0000 && n <= |rest|
    ensures ParseLength(LengthField(n) + rest) == Ok(Field(|LengthField(n)|, n))
  {
    hide Pow2, FromBE, ToBE;
    SmallPowers();
    var k := |LengthField(n)| - 1;
    if n >= 0x80 {
      FromToBE(n, k);
      assert (LengthField(n) + rest)[1..k + 1] == ToBE(n, k);
    }
  }

  /** No field that the parser accepts for a length is shorter than the written one. */
  lemma LengthMinimal(s: Bytes)
    requires ParseLength(s).Ok? && ParseLength(s).value.length < 0x1_0000_0000
    ensures |LengthField(ParseLength(s).value.length)| <= ParseLength(s).value.size
  {
    hide Pow2, FromBE, ToBE;
    SmallPowers();
    var f := ParseLength(s).value;
    if f.size > 1 { FromBEBound(s[1..f.size]); }
  }

  /** The short form is the length itself; the long form is the number of bytes with the top bit
      set, and the length in as few big-endian bytes as possible (section 8.1.3 of X.690). */
  lemma LengthFieldIs(n: nat)
    requires n < 0x1_0000_0000
    ensures n < 128 ==> LengthField(n) == [n]
    ensures n >= 128 ==>
      var f := LengthField(n);
      |f| >= 2 && f[0] as int == 128 + |f| - 1 && FromBE(f[1..]) == n && f[1] != 0
  {
    hide Pow2, FromBE, ToBE;
    SmallPowers();
    var k := |LengthField(n)| - 1;
    if n >= 0x80 {
      var f := LengthField(n);
      FromToBE(n, k);
      assert f[1..] == ToBE(n, k);
      if f[1] == 0 {
        assert f[1..] == [0] + f[2..];
        FromBECons(0, f[2..]);
        FromBEBound(f[2..]);
      }
    }
  }

  /** Exactly these length fields are accepted: short ones, and long ones of one to four bytes,
      if what they announce is there. */
  lemma LengthAccepted(s: Bytes, size: nat, length: nat)
    ensures ParseLength(s) == Ok(Field(size, length)) <==>
      1 <= size <= |s| && length <= |s| - size
      && if s[0] < 128 then size == 1 && length == s[0] as nat
         else 2 <= size <= 5 && s[0] as int == 128 + size - 1 && length == FromBE(s[1..size])
  {
    hide FromBE;
  }

  // ---------- tag, length, value ----------

  function Tlv(tag: Byte, content: Bytes): Bytes
    requires |content| < 0x1_0000_0000
  {
    [tag] + LengthField(|content|) + content
  }

  /** The identifier octets of INTEGER, BIT STRING, NULL, OBJECT IDENTIFIER and SEQUENCE (section
      8.1.2 of X.690): the universal tag numbers, with bit 6 set for the constructed type. */
  lemma TagNumbers(content: Bytes)
    requires |content| < 0x1_0000_0000
    ensures Tlv(TagInteger, content)[0] == 2 && Tlv(TagBitString, content)[0] == 3
    ensures Tlv(TagNull, content)[0] == 5 && Tlv(TagOid, content)[0] == 6
    ensures Tlv(TagSequence, content)[0] == 16 + 32
  {}

  /** Size of tag and length field, and the length of the content. */
  function ParseTag(s: Bytes, tag: Byte): (r: Result<Field>)
    ensures r.Ok? ==> r.value.size + r.value.length <= |s|
  {
    if |s| < 1 then Err(OutOfData)
    else if s[0] != tag then Err(UnexpectedTag)
    else match ParseLength(s[1..])
      case Err(e) => Err(e)
      case Ok(f) => Ok(Field(f.size + 1, f.length))
  }

  /** The content that a header announces. */
  function Content(s: Bytes, f: Field): Bytes
    requires f.size + f.length <= |s|
  {
    s[f.size..f.size + f.length]
  }

  lemma TlvRoundTrip(tag: Byte, content: Bytes, rest: Bytes)
    requires |content| < 0x1_0000_0000
    ensures var s := Tlv(tag, content) + rest;
            var f := Field(1 + |LengthField(|content|)|, |content|);
            ParseTag(s, tag) == Ok(f) && Content(s, f) == content && f.size + f.length == |Tlv(tag, content)|
  {
    hide LengthField, ParseLength;
    var s := Tlv(tag, content) + rest;
    assert s[1..] == LengthField(|content|) + (content + rest);
    LengthRoundTrip(|content|, content + rest);
  }

  // ---------- integers ----------

  /** The bytes of v without leading zeros, but at least one. */
  function MinBytes(v: nat): (s: Bytes)
    ensures |s| > 0
  {
    if v < 256 then [v] else MinBytes(v / 256) + [v % 256]
  }

  /** The content of a nonnegative INTEGER: a zero byte keeps the sign bit clear. */
  function IntContent(v: nat): (s: Bytes)
    ensures |s| > 0
  {
    var b := MinBytes(v);
    if b[0] >= 0x80 then [0] + b else b
  }

  lemma {:induction false} MinBytesValue(v: nat)
    ensures FromBE(MinBytes(v)) == v
    ensures |MinBytes(v)| > 1 ==> MinBytes(v)[0] > 0
    decreases v
  {
    if v < 256 {
      FromBESingle(v);
    } else {
      MinBytesValue(v / 256);
      var s := MinBytes(v);
      assert s[..|s| - 1] == MinBytes(v / 256);
      if |MinBytes(v / 256)| == 1 { assert MinBytes(v / 256) == [v / 256]; }
    }
  }

  lemma IntContentValue(v: nat)
    ensures FromBE(IntContent(v)) == v && IntContent(v)[0] < 0x80
    ensures |IntContent(v)| > 1 ==> IntContent(v)[0] != 0 || IntContent(v)[1] >= 0x80
  {
    MinBytesValue(v);
    FromBECons(0, MinBytes(v));
  }

  /** Any byte string of the value v is at least as long as MinBytes(v). */
  lemma {:induction false} MinBytesShortest(s: Bytes)
    requires s != []
    ensures |MinBytes(FromBE(s))| <= |s|
  {
    if |s| == 1 {
      FromBESingle(s[0]);
      assert s == [s[0]];
    } else if FromBE(s) >= 256 {
      var t := s[..|s| - 1];
      DivModUnique(FromBE(s), FromBE(t), s[|s| - 1], 256);
      MinBytesShortest(t);
    }
  }

  /** The largest int. */
  const IntMax: nat := 0x7FFF_FFFF

  /** asn1_get_tagged_int: rejects empty and negative contents, and what does not fit an int. */
  function ParseInt(s: Bytes, tag: Byte): Result<(nat, nat)>
  {
    match ParseTag(s, tag)
    case Err(e) => Err(e)
    case Ok(f) =>
      var c := Content(s, f);
      if c == [] || c[0] >= 0x80 || FromBE(c) > IntMax then Err(InvalidLength)
      else Ok((f.size + f.length, FromBE(c)))
  }

  /** What asn1_write_tagged_int writes: negative numbers lose all but their low byte. */
  function IntValueWritten(val: int): nat { if val >= 0 then val else val % 256 }

  /** An int comes back exactly if it is not negative; always all bytes are consumed. */
  lemma IntRoundTrip(val: int, tag: Byte, rest: Bytes)
    requires -0x8000_0000 <= val <= IntMax
    ensures |IntContent(IntValueWritten(val))| <= 5
    ensures var w := Tlv(tag, IntContent(IntValueWritten(val)));
            ParseInt(w + rest, tag) == Ok((|w|, IntValueWritten(val)))
    ensures IntValueWritten(val) == val <==> val >= 0
  {
    hide Tlv, ParseTag, Content, FromBE, IntContent, MinBytes;
    var v := IntValueWritten(val);
    IntContentShort(v);
    IntContentValue(v);
    TlvRoundTrip(tag, IntContent(v), rest);
  }

  lemma IntContentShort(v: nat)
    requires v <= IntMax
    ensures |IntContent(v)| <= 5
  {
    hide Pow2, ToBE, FromBE;
    SmallPowers();
    FromToBE(v, 4);
    MinBytesShortest(ToBE(v, 4));
  }

  // ---------- big integers ----------

  /** The content that mbedtls_asn1_write_mpi writes: of a negative number the magnitude,
      without the byte that would keep the sign bit clear. */
  function MpiContent(s: int, m: nat): Bytes { if s == 1 then IntContent(m) else MinBytes(m) }

  function ParseMpi(s: Bytes): Result<(nat, nat)> {
    match ParseTag(s, TagInteger)
    case Err(e) => Err(e)
    case Ok(f) => Ok((f.size + f.length, FromBE(Content(s, f))))
  }

  /** The parser returns the magnitude: the number itself exactly if it is not negative. */
  lemma MpiRoundTrip(s: int, m: nat, rest: Bytes)
    requires (s == 1 || (s == -1 && m > 0)) && |MpiContent(s, m)| < 0x1_0000_0000
    ensures var w := Tlv(TagInteger, MpiContent(s, m));
            ParseMpi(w + rest) == Ok((|w|, m))
    ensures m == (if s == -1 then -(m as int) else m) <==> s == 1
  {
    hide Tlv, ParseTag, Content, FromBE, IntContent, MinBytes;
    IntContentValue(m);
    MinBytesValue(m);
    TlvRoundTrip(TagInteger, MpiContent(s, m), rest);
  }

  /** -1 written as an INTEGER reads as 1; as an int it reads as 255. */
  lemma NegativeOneLost()
    ensures ParseMpi(Tlv(TagInteger, MpiContent(-1, 1))) == Ok((3, 1))
    ensures |IntContent(IntValueWritten(-1))| == 2
    ensures ParseInt(Tlv(TagInteger, IntContent(IntValueWritten(-1))), TagInteger) == Ok((4, 255))
  {
    hide ParseMpi, ParseInt;
    MpiRoundTrip(-1, 1, []);
    IntRoundTrip(-1, TagInteger, []);
    var m, i := Tlv(TagInteger, MpiContent(-1, 1)), Tlv(TagInteger, IntContent(IntValueWritten(-1)));
    assert m + [] == m && i + [] == i;
  }

  // ---------- bit strings ----------

  /** Bit k of a bit string, the most significant bit of the first byte being bit 0. */
  function BitOf(buf: Bytes, k: nat): nat
    requires k / 8 < |buf|
  {
    buf[k / 8] / Pow2(7 - k % 8) % 2
  }

  function BitBytes(bits: nat): nat { (bits + 7) / 8 }

  /** A byte with its u low bits cleared. */
  function ClearLow(b: Byte, u: nat): Byte {
    DivModFacts(b, Pow2(u));
    LowPart(b, Pow2(u));
    b - b % Pow2(u)
  }

  lemma LowPart(b: nat, p: int)
    requires p > 0
    ensures 0 <= b % p <= b
  {
    DivModFacts(b, p);
    QuotientTest(b, p, 0);
    MulMono(0, b / p, p);
  }

  /** Unused-bits byte, then the bytes, the unused bits cleared. */
  function BitContent(buf: Bytes, bits: nat): (c: Bytes)
    requires BitBytes(bits) <= |buf|
    ensures |c| == 1 + BitBytes(bits)
  {
    var n, u := BitBytes(bits), BitBytes(bits) * 8 - bits;
    [u] + if n == 0 then [] else buf[..n - 1] + [ClearLow(buf[n - 1], u)]
  }

  /** The first byte counts the unused bits; of the last one these are cleared. */
  lemma BitContentIs(buf: Bytes, bits: nat)
    requires BitBytes(bits) <= |buf|
    ensures var c := BitContent(buf, bits);
            bits == 8 * (|c| - 1) - c[0] as int && c[0] < 8
            && forall i :: 0 <= i < |c| - 1 ==>
                 c[i + 1] == if i < |c| - 2 then buf[i] else buf[i] - buf[i] % Pow2(c[0])
  {
    hide Pow2;
  }

  /** A parsed bit string: its bytes and how many of the last bits are unused. */
  datatype Bits = Bits(bytes: Bytes, unused: nat)

  /** mbedtls_asn1_get_bitstring: it must end where the input ends. */
  function ParseBits(s: Bytes): Result<Bits>
  {
    match ParseTag(s, TagBitString)
    case Err(e) => Err(e)
    case Ok(f) =>
      var c := Content(s, f);
      if c == [] then Err(OutOfData)
      else if c[0] > 7 then Err(InvalidLength)
      else if f.size + f.length != |s| then Err(LengthMismatch)
      else Ok(Bits(c[1..], c[0]))
  }

  /** Clearing the low bits changes none of the others. */
  lemma ClearLowKeeps(b: Byte, u: nat, j: nat)
    requires u <= j <= 7
    ensures ClearLow(b, u) / Pow2(j) % 2 == b / Pow2(j) % 2
  {
    hide Pow2;
    var p, q := Pow2(u), Pow2(j - u);
    Pow2Add(u, j - u);
    DivModFacts(b, p);
    DivDiv(b, p, q);
    DivModUnique(b - b % p, b / p, 0, p);
    QuotientTest(b, p, 0);
    DivDiv(b - b % p, p, q);
  }

  /** The parser returns the number of bits and the bits themselves; the rest is zero. */
  lemma BitsRoundTrip(buf: Bytes, bits: nat)
    requires BitBytes(bits) <= |buf| && BitBytes(bits) + 1 < 0x1_0000_0000
    ensures var r := ParseBits(Tlv(TagBitString, BitContent(buf, bits)));
            r.Ok? && 8 * |r.value.bytes| - r.value.unused == bits && r.value.unused < 8
            && |r.value.bytes| == BitBytes(bits)
            && (forall k :: 0 <= k < bits ==> BitOf(r.value.bytes, k) == BitOf(buf, k))
  {
    hide Tlv, ParseTag, ClearLow, Pow2;
    var c := BitContent(buf, bits);
    TlvRoundTrip(TagBitString, c, []);
    assert Tlv(TagBitString, c) + [] == Tlv(TagBitString, c);
    var n, u := BitBytes(bits), BitBytes(bits) * 8 - bits;
    forall k | 0 <= k < bits ensures k / 8 < |buf| && k / 8 < n && BitOf(c[1..], k) == BitOf(buf, k) {
      if k / 8 == n - 1 { ClearLowKeeps(buf[n - 1], u, 7 - k % 8); }
    }
  }

  /** The number of bits up to and including the last one that is set. */
  function Trimmed(buf: Bytes, bits: nat): (r: nat)
    requires BitBytes(bits) <= |buf|
    ensures r <= bits
  {
    if bits == 0 || BitOf(buf, bits - 1) == 1 then bits else Trimmed(buf, bits - 1)
  }

  /** Exactly the trailing zero bits go (section 11.2.2 of X.690). */
  lemma TrimmedIs(buf: Bytes, bits: nat)
    requires BitBytes(bits) <= |buf|
    ensures Trimmed(buf, bits) > 0 ==> BitOf(buf, Trimmed(buf, bits) - 1) == 1
    ensures forall k :: Trimmed(buf, bits) <= k < bits ==> BitOf(buf, k) == 0
  {
    hide BitOf, Pow2;
    if bits > 0 {
      BitIsBit(buf, bits - 1);
      if BitOf(buf, bits - 1) != 1 { TrimmedIs(buf, bits - 1); }
    }
  }

  lemma BitIsBit(buf: Bytes, k: nat)
    requires k / 8 < |buf|
    ensures BitOf(buf, k) == 0 || BitOf(buf, k) == 1
  {}

  // ---------- algorithm identifiers ----------

  /** OID and optional parameters in a SEQUENCE: par holds complete DER data. */
  function AlgContent(oid: Bytes, par: Option<Bytes>): Bytes
    requires |oid| < 0x1_0000_0000
  {
    Tlv(TagOid, oid) + match par
      case None => []
      case Some(d) => if d == [] then Tlv(TagNull, []) else d
  }

  /** The parsed OID, and tag and content of the parameters if there are any. */
  datatype Alg = Alg(oid: Bytes, params: Option<(Byte, Bytes)>)

  /** The inside of the sequence. */
  function ParseAlgBody(c: Bytes): Result<Alg>
  {
    match ParseTag(c, TagOid)
    case Err(e) => Err(e)
    case Ok(g) =>
      var oid, rest := Content(c, g), c[g.size + g.length..];
      if rest == [] then Ok(Alg(oid, None))
      else match ParseLength(rest[1..])
        case Err(e) => Err(e)
        case Ok(h) =>
          if 1 + h.size + h.length != |rest| then Err(LengthMismatch)
          else Ok(Alg(oid, Some((rest[0], Content(rest[1..], h)))))
  }

  /** mbedtls_asn1_get_alg: how many bytes it takes, and what it finds. */
  function ParseAlg(s: Bytes): Result<(nat, Alg)>
  {
    match ParseTag(s, TagSequence)
    case Err(e) => Err(e)
    case Ok(f) =>
      if |s| - f.size < 1 then Err(OutOfData)
      else match ParseAlgBody(Content(s, f))
        case Err(e) => Err(e)
        case Ok(a) => Ok((f.size + f.length, a))
  }

  lemma AlgBodyRoundTrip(oid: Bytes, tag: Byte, value: Bytes)
    requires |oid| < 0x1_0000_0000 && |value| < 0x1_0000_0000
    ensures ParseAlgBody(Tlv(TagOid, oid) + Tlv(tag, value)) == Ok(Alg(oid, Some((tag, value))))
    ensures ParseAlgBody(Tlv(TagOid, oid)) == Ok(Alg(oid, None))
  {
    hide LengthField, ParseLength, ParseTag, Content;
    var o, t := Tlv(TagOid, oid), Tlv(tag, value);
    TlvRoundTrip(TagOid, oid, t);
    TlvRoundTrip(TagOid, oid, []);
    assert o + [] == o && (o + t)[|o|..] == t && o[|o|..] == [];
    ParameterRoundTrip(tag, value);
  }

  lemma ParameterRoundTrip(tag: Byte, value: Bytes)
    requires |value| < 0x1_0000_0000
    ensures var t := Tlv(tag, value);
            var h := Field(|LengthField(|value|)|, |value|);
            t[0] == tag && ParseLength(t[1..]) == Ok(h) && Content(t[1..], h) == value
            && 1 + h.size + h.length == |t|
  {
    hide LengthField, ParseLength;
    var t := Tlv(tag, value);
    assert t[1..] == LengthField(|value|) + value;
    LengthRoundTrip(|value|, value);
  }

  /** What the written parameters parse to. */
  lemma AlgRoundTrip(oid: Bytes, par: Option<Bytes>, tag: Byte, value: Bytes, rest: Bytes)
    requires |oid| < 0x1_0000_0000 && |value| < 0x1_0000_0000
    requires par.Some? && par.value != [] ==> par.value == Tlv(tag, value)
    requires par.Some? && par.value == [] ==> tag == TagNull && value == []
    requires |AlgContent(oid, par)| < 0x1_0000_0000
    ensures var w := Tlv(TagSequence, AlgContent(oid, par));
            ParseAlg(w + rest) == Ok((|w|, Alg(oid, if par.None? then None else Some((tag, value)))))
  {
    hide LengthField, ParseLength, ParseTag, ParseAlgBody, Content;
    AlgBodyRoundTrip(oid, tag, value);
    var c := AlgContent(oid, par);
    assert Tlv(TagOid, oid) + [] == Tlv(TagOid, oid);
    assert c == if par.None? then Tlv(TagOid, oid) else Tlv(TagOid, oid) + Tlv(tag, value);
    TlvRoundTrip(TagSequence, c, rest);
  }
}
