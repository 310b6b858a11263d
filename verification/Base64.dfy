/** Base64 (base64.c, section 5.2 of RFC 1521): the encoder, the two-pass decoder, and that
    decoding undoes encoding, line breaks included. */
module Base64 {
  import opened Options
  import opened ConstantTime
  import Blocks

  type Bytes = Blocks.Bytes

  // ---------- digits ----------

  /** mbedtls_ct_base64_dec_value: the digit's value, if the character is a digit. */
  function DecValue(c: bv8): Option<bv8> {
    if DecPlusOne(c) == 0 then None else Some(DecPlusOne(c) - 1)
  }

  const Pad: bv8 := 0x3D
  const Cr: bv8 := 0x0D
  const Lf: bv8 := 0x0A
  const Sp: bv8 := 0x20

  lemma RangeMask(low: bv8, high: bv8, c: bv8)
    ensures MaskOfRange(low, high, c) == if low <= c && c <= high then 0xFF else 0
  {
    MaskOfRangeCorrect(low, high, c);
  }

  /** The digit of every six-bit value, by cases. */
  lemma EncCharIs(v: bv8)
    requires v < 64
    ensures EncChar(v) == if v < 26 then 0x41 + v else if v < 52 then 0x61 + v - 26
      else if v < 62 then 0x30 + v - 52 else if v == 62 then 0x2B else 0x2F
  {
    hide MaskOfRange;
    RangeMask(0, 25, v);
    RangeMask(26, 51, v);
    RangeMask(52, 61, v);
    RangeMask(62, 62, v);
    RangeMask(63, 63, v);
  }

  lemma DecPlusOneIs(c: bv8)
    ensures DecPlusOne(c) == if 0x41 <= c && c <= 0x5A then c - 0x41 + 1
      else if 0x61 <= c && c <= 0x7A then c - 0x61 + 27
      else if 0x30 <= c && c <= 0x39 then c - 0x30 + 53
      else if c == 0x2B then 63 else if c == 0x2F then 64 else 0
  {
    hide MaskOfRange;
    RangeMask(0x41, 0x5A, c);
    RangeMask(0x61, 0x7A, c);
    RangeMask(0x30, 0x39, c);
    RangeMask(0x2B, 0x2B, c);
    RangeMask(0x2F, 0x2F, c);
  }

  /** Decoding a digit gives its value back; padding and white space are no digits. */
  lemma DigitRoundTrip(v: bv8)
    requires v < 64
    ensures DecValue(EncChar(v)) == Some(v) && EncChar(v) !in {Pad, Cr, Lf, Sp} && EncChar(v) <= 127
  {
    hide EncChar, DecPlusOne;
    EncCharIs(v);
    DecPlusOneIs(EncChar(v));
  }

  /** And the digit of the value of a digit is that digit. */
  lemma CharRoundTrip(c: bv8)
    requires DecValue(c).Some?
    ensures DecValue(c).value < 64 && EncChar(DecValue(c).value) == c
  {
    hide EncChar, DecPlusOne;
    DecPlusOneIs(c);
    EncCharIs(DecValue(c).value);
  }

  lemma DigitRange(c: bv8)
    ensures DecValue(c).Some? ==> DecValue(c).value < 64 && c !in {Pad, Cr, Lf, Sp} && c <= 127
  {
    hide DecPlusOne;
    DecPlusOneIs(c);
  }

  // ---------- three bytes, four digits ----------

  function D0(a: bv8): bv8 { (a >> 2) & 0x3F }

  function D1(a: bv8, b: bv8): bv8 { (((a & 3) << 4) + (b >> 4)) & 0x3F }

  function D2(b: bv8, c: bv8): bv8 { (((b & 15) << 2) + (c >> 6)) & 0x3F }

  function D3(c: bv8): bv8 { c & 0x3F }

  lemma SixBits(a: bv8, b: bv8, c: bv8)
    ensures D0(a) < 64 && D1(a, b) < 64 && D2(b, c) < 64 && D3(c) < 64
  {}

  /** The text of s, without the terminating zero byte. */
  function Text(s: Bytes): Bytes {
    if s == [] then []
    else if |s| == 1 then [EncChar(D0(s[0])), EncChar(D1(s[0], 0)), Pad, Pad]
    else if |s| == 2 then [EncChar(D0(s[0])), EncChar(D1(s[0], s[1])), EncChar(D2(s[1], 0)), Pad]
    else [EncChar(D0(s[0])), EncChar(D1(s[0], s[1])), EncChar(D2(s[1], s[2])), EncChar(D3(s[2]))] + Text(s[3..])
  }

  /** The four digits are the 24 bits of the three bytes, six at a time, the first ones first. */
  lemma DigitsAreBits(a: bv8, b: bv8, c: bv8)
    ensures ((D0(a) as bv32) << 18) | ((D1(a, b) as bv32) << 12) | ((D2(b, c) as bv32) << 6) | (D3(c) as bv32)
      == ((a as bv32) << 16) | ((b as bv32) << 8) | (c as bv32)
  {}

  /** "Man", "Ma" and "M" are TWFu, TWE= and TQ==. */
  lemma TextExamples()
    ensures Text([0x4D, 0x61, 0x6E]) == [0x54, 0x57, 0x46, 0x75]
    ensures Text([0x4D, 0x61]) == [0x54, 0x57, 0x45, 0x3D]
    ensures Text([0x4D]) == [0x54, 0x51, 0x3D, 0x3D]
  {
    hide EncChar;
    EncCharIs(0x13);
    EncCharIs(0x16);
    EncCharIs(0x05);
    EncCharIs(0x2E);
    EncCharIs(0x04);
    EncCharIs(0x10);
  }

  lemma {:induction false} TextLength(s: Bytes)
    ensures |Text(s)| == 4 * (|s| / 3 + if |s| % 3 != 0 then 1 else 0)
  {
    hide EncChar;
    if |s| >= 3 { TextLength(s[3..]); }
  }

  // ---------- decoding the digits ----------

  /** The value that a character adds to the accumulator. */
  function Value(c: bv8): bv8 {
    if c == Pad then 0 else if DecValue(c).Some? then DecValue(c).value else 0
  }

  /** Four characters in the low 24 bits of the accumulator. */
  function Push(x: bv32, c: bv8): bv32 { (x << 6) | (Value(c) as bv32) }

  function Byte2(x: bv32): bv8 { ((x >> 16) & 0xFF) as bv8 }

  function Byte1(x: bv32): bv8 { ((x >> 8) & 0xFF) as bv8 }

  function Byte0(x: bv32): bv8 { (x & 0xFF) as bv8 }

  function PadCount(s: Bytes): nat {
    if s == [] then 0 else PadCount(s[..|s| - 1]) + if s[|s| - 1] == Pad then 1 else 0
  }

  /** The bytes of one group of four: fewer when padding has been seen. */
  function Group(x: bv32, pads: nat): Bytes {
    if pads == 0 then [Byte2(x), Byte1(x), Byte0(x)]
    else if pads == 1 then [Byte2(x), Byte1(x)]
    else [Byte2(x)]
  }

  function Pushed(x: bv32, s: Bytes): bv32 {
    if s == [] then x else Push(Pushed(x, s[..|s| - 1]), s[|s| - 1])
  }

  /** What the second pass makes of the digits d, after e padding characters and with the
      accumulator at x. Characters beyond the last full group are dropped. */
  function Bytes4(d: Bytes, e: nat, x: bv32): Bytes
    decreases |d|
  {
    if |d| < 4 then []
    else
      var e', x' := e + PadCount(d[..4]), Pushed(x, d[..4]);
      Group(x', e') + Bytes4(d[4..], e', x')
  }

  lemma {:induction false} Four(s: Bytes, x: bv32)
    requires |s| == 4
    ensures Pushed(x, s) == Push(Push(Push(Push(x, s[0]), s[1]), s[2]), s[3])
    ensures PadCount(s) == (if s[0] == Pad then 1 else 0) + (if s[1] == Pad then 1 else 0)
      + (if s[2] == Pad then 1 else 0) + (if s[3] == Pad then 1 else 0)
  {
    hide Push;
    var a, b, c := s[..3], s[..2], s[..1];
    assert a[..2] == b && b[..1] == c && c[..0] == [];
    assert Pushed(x, c) == Push(x, s[0]) && Pushed(x, b) == Push(Pushed(x, c), s[1]);
    assert PadCount(c) == if s[0] == Pad then 1 else 0;
    assert PadCount(b) == PadCount(c) + if s[1] == Pad then 1 else 0;
  }

  /** The accumulator after the four digits of three bytes. */
  function Packed(x: bv32, a: bv8, b: bv8, c: bv8): bv32 {
    (((((((x << 6) | (((a >> 2) & 0x3F) as bv32)) << 6)
        | (((((a & 3) << 4) + (b >> 4)) & 0x3F) as bv32)) << 6)
        | (((((b & 15) << 2) + (c >> 6)) & 0x3F) as bv32)) << 6) | ((c & 0x3F) as bv32)
  }

  /** Whatever was in the accumulator before, its low 24 bits are the three bytes. */
  lemma PackedBytes(x: bv32, a: bv8, b: bv8, c: bv8)
    ensures Byte2(Packed(x, a, b, c)) == a && Byte1(Packed(x, a, b, c)) == b && Byte0(Packed(x, a, b, c)) == c
  {}

  function PushValue(x: bv32, v: bv8): bv32 { (x << 6) | (v as bv32) }

  lemma PackedIs(x: bv32, a: bv8, b: bv8, c: bv8)
    ensures PushValue(PushValue(PushValue(PushValue(x, D0(a)), D1(a, b)), D2(b, c)), D3(c)) == Packed(x, a, b, c)
  {}

  lemma PushIs(x: bv32, c: bv8)
    ensures Push(x, c) == PushValue(x, Value(c))
  {
    hide Value;
  }

  lemma ValueOfDigit(v: bv8)
    requires v < 64
    ensures Value(EncChar(v)) == v && Value(Pad) == 0 && EncChar(v) != Pad
  {
    hide EncChar, DecPlusOne;
    DigitRoundTrip(v);
  }

  /** Pushing the digits of three bytes, the missing ones as padding. */
  lemma PushDigits(x: bv32, a: bv8, b: bv8, c: bv8, s: Bytes)
    requires |s| == 4 && s[0] == EncChar(D0(a)) && s[1] == EncChar(D1(a, b))
    requires s[2] == EncChar(D2(b, c)) || (s[2] == Pad && D2(b, c) == 0)
    requires s[3] == EncChar(D3(c)) || (s[3] == Pad && D3(c) == 0)
    ensures Byte2(Pushed(x, s)) == a && Byte1(Pushed(x, s)) == b && Byte0(Pushed(x, s)) == c
    ensures PadCount(s) == (if s[2] == Pad then 1 else 0) + (if s[3] == Pad then 1 else 0)
  {
    hide *;
    SixBits(a, b, c);
    Four(s, x);
    ValueOfDigit(D0(a));
    ValueOfDigit(D1(a, b));
    ValueOfDigit(D2(b, c));
    ValueOfDigit(D3(c));
    PushIs(x, s[0]);
    PushIs(Push(x, s[0]), s[1]);
    PushIs(Push(Push(x, s[0]), s[1]), s[2]);
    PushIs(Push(Push(Push(x, s[0]), s[1]), s[2]), s[3]);
    PackedIs(x, a, b, c);
    PackedBytes(x, a, b, c);
  }

  lemma ZeroDigits()
    ensures D2(0, 0) == 0 && D3(0) == 0
  {}

  /** Decoding the text of s gives s back. */
  lemma {:induction false} TextRoundTrip(s: Bytes, x: bv32)
    ensures Bytes4(Text(s), 0, x) == s
    decreases |s|
  {
    hide EncChar, Byte2, Byte1, Byte0, D0, D1, D2, D3, Pushed, PadCount;
    if s != [] {
      var t := Text(s);
      ZeroDigits();
      NoPad(s);
      var a, b, c := s[0], if |s| > 1 then s[1] else 0, if |s| > 2 then s[2] else 0;
      PushDigits(x, a, b, c, t[..4]);
      if |s| >= 3 {
        assert t[4..] == Text(s[3..]);
        TextRoundTrip(s[3..], Pushed(x, t[..4]));
        assert s == [a, b, c] + s[3..];
      } else {
        assert t[4..] == [];
      }
    }
  }

  lemma NoPad(s: Bytes)
    ensures |s| >= 2 ==> EncChar(D2(s[1], if |s| > 2 then s[2] else 0)) != Pad
    ensures |s| >= 3 ==> EncChar(D3(s[2])) != Pad
  {
    hide EncChar;
    if |s| >= 2 {
      var c := if |s| > 2 then s[2] else 0;
      SixBits(0, s[1], c);
      DigitRoundTrip(D2(s[1], c));
      DigitRoundTrip(D3(c));
    }
  }

  // ---------- which inputs are accepted ----------

  predicate Skipped(c: bv8) { c == Cr || c == Lf || c == Sp }

  /** The characters that the second pass looks at. */
  function Strip(s: Bytes): (r: Bytes)
    ensures |r| <= |s|
  {
    if s == [] then []
    else if Skipped(s[0]) then Strip(s[1..])
    else [s[0]] + Strip(s[1..])
  }

  function Spaces(s: Bytes): (n: nat)
    ensures n <= |s| && (n < |s| ==> s[n] != Sp) && forall k :: 0 <= k < n ==> s[k] == Sp
  {
    if s == [] || s[0] != Sp then 0 else 1 + Spaces(s[1..])
  }

  /** Digits and padding found. */
  datatype Count = Count(n: nat, pads: nat)

  function More(r: Option<Count>): Option<Count> {
    match r
    case None => None
    case Some(c) => Some(c.(n := c.n + 1))
  }

  /** The first pass: spaces only at the end of a line or of the input, only digits, and at
      most two padding characters, at the end. */
  function Scan(s: Bytes, pads: nat): Option<Count>
    decreases |s|
  {
    var k := Spaces(s);
    var t := s[k..];
    if t == [] then Some(Count(0, pads))
    else if |t| >= 2 && t[0] == Cr && t[1] == Lf then Scan(t[1..], pads)
    else if t[0] == Lf then Scan(t[1..], pads)
    else if k > 0 || t[0] > 127 then None
    else if t[0] == Pad then
      if pads + 1 > 2 then None else More(Scan(t[1..], pads + 1))
    else if pads != 0 || DecValue(t[0]).None? then None
    else More(Scan(t[1..], pads))
  }

  /** Digits, then at most two padding characters. */
  predicate Shape(d: Bytes, pads: nat)
    decreases |d|
  {
    d == [] || (if d[0] == Pad then pads + 1 <= 2 && Shape(d[1..], pads + 1)
                else pads == 0 && DecValue(d[0]).Some? && Shape(d[1..], pads))
  }

  lemma StripSpaces(s: Bytes)
    ensures Strip(s) == Strip(s[Spaces(s)..])
  {
    if s != [] && s[0] == Sp {
      StripSpaces(s[1..]);
      assert s[1..][Spaces(s[1..])..] == s[Spaces(s)..];
    }
  }

  /** What the first pass accepts has the right shape, and it counts the characters that the
      second pass will see. */
  lemma {:induction false} ScanShape(s: Bytes, pads: nat)
    requires Scan(s, pads).Some?
    ensures Shape(Strip(s), pads) && Scan(s, pads).value.n == |Strip(s)|
    ensures Scan(s, pads).value.pads == pads + PadCount(Strip(s))
    decreases |s|
  {
    hide DecValue;
    var t := s[Spaces(s)..];
    StripSpaces(s);
    if t != [] {
      if |t| >= 2 && t[0] == Cr && t[1] == Lf {
        ScanShape(t[1..], pads);
      } else if t[0] == Lf {
        ScanShape(t[1..], pads);
      } else {
        DigitRange(t[0]);
        var pads' := if t[0] == Pad then pads + 1 else pads;
        ScanShape(t[1..], pads');
        assert Strip(t) == [t[0]] + Strip(t[1..]);
        PadCountCons(t[0], Strip(t[1..]));
      }
    }
  }

  lemma {:induction false} PadCountCons(c: bv8, s: Bytes)
    ensures PadCount([c] + s) == (if c == Pad then 1 else 0) + PadCount(s)
    decreases |s|
  {
    if s == [] {
      assert [c] + s == [c] && [c][..0] == [];
    } else {
      var n := |s| - 1;
      assert ([c] + s)[..n + 1] == [c] + s[..n];
      PadCountCons(c, s[..n]);
    }
  }

  /** What the layout demands of position k: a carriage return stands in front of a line feed, a
      space in front of another space, a line end or nothing. */
  predicate Placed(s: Bytes, k: nat)
    requires k < |s|
  {
    (s[k] == Cr ==> k + 1 < |s| && s[k + 1] == Lf)
    && (s[k] == Sp ==> k + 1 == |s| || s[k + 1] in {Sp, Cr, Lf})
  }

  predicate Layout(s: Bytes) {
    forall k :: 0 <= k < |s| ==> Placed(s, k)
  }

  lemma LayoutFirst(s: Bytes)
    requires s != []
    ensures Layout(s) <==> Placed(s, 0) && Layout(s[1..])
  {
    forall k | 0 <= k < |s[1..]| ensures Placed(s[1..], k) <==> Placed(s, k + 1) {}
    if Placed(s, 0) && Layout(s[1..]) {
      forall k | 0 <= k < |s| ensures Placed(s, k) {
        if k > 0 { assert Placed(s[1..], k - 1); }
      }
    }
    if Layout(s) {
      forall k | 0 <= k < |s[1..]| ensures Placed(s[1..], k) {
        assert Placed(s, k + 1);
      }
    }
  }

  /** Spaces in front are fine exactly before a line end or the end. */
  lemma {:induction false} LayoutSpaces(s: Bytes)
    ensures var t := s[Spaces(s)..];
      Layout(s) <==> Layout(t) && (Spaces(s) == 0 || t == [] || t[0] == Cr || t[0] == Lf)
    decreases |s|
  {
    hide Layout;
    if s != [] && s[0] == Sp {
      LayoutFirst(s);
      LayoutSpaces(s[1..]);
      assert s[1..][Spaces(s[1..])..] == s[Spaces(s)..];
    }
  }

  /** The first pass accepts exactly digits and at most two paddings at the end, laid out that
      way. */
  lemma {:induction false} AcceptedIff(s: Bytes, pads: nat)
    ensures Scan(s, pads).Some? <==> Layout(s) && Shape(Strip(s), pads)
    decreases |s|
  {
    hide DecValue, Scan, Layout;
    var t := s[Spaces(s)..];
    ScanStep(s, pads);
    StripSpaces(s);
    LayoutSpaces(s);
    if t == [] {
      EmptyLayout();
    } else {
      LayoutFirst(t);
      DigitRange(t[0]);
      PadIsAscii();
      var pads' := if t[0] == Pad then pads + 1 else pads;
      AcceptedIff(t[1..], if t[0] == Lf || t[0] == Cr then pads else pads');
      if !Skipped(t[0]) {
        assert Strip(t) == [t[0]] + Strip(t[1..]) && Strip(t)[1..] == Strip(t[1..]);
      }
    }
  }

  lemma EmptyLayout()
    ensures Layout([]) && Strip([]) == [] && forall pads: nat :: Shape([], pads)
  {}

  predicate InLine(s: Bytes, k: nat)
    requires k < |s|
  {
    s[k] != Sp && (s[k] == Cr ==> k + 1 < |s| && s[k + 1] == Lf)
  }

  /** Text broken into lines: no spaces, and carriage returns only in front of line feeds. */
  predicate Lines(s: Bytes) {
    forall k :: 0 <= k < |s| ==> InLine(s, k)
  }

  /** Line breaks anywhere do not keep the first pass from accepting. */
  lemma LinesAccepted(s: Bytes, pads: nat)
    requires Lines(s) && Shape(Strip(s), pads)
    ensures Scan(s, pads).Some?
  {
    hide Scan, Shape, Strip;
    forall k | 0 <= k < |s| ensures Placed(s, k) {
      assert InLine(s, k);
    }
    AcceptedIff(s, pads);
  }

  lemma PadIsAscii()
    ensures Pad <= 127
  {}

  // ---------- the output size ----------

  lemma {:induction false} PadCountConcat(a: Bytes, b: Bytes)
    ensures PadCount(a + b) == PadCount(a) + PadCount(b)
    decreases |b|
  {
    if b == [] {
      assert a + b == a;
    } else {
      var n := |b| - 1;
      assert (a + b)[..|a| + n] == a + b[..n];
      PadCountConcat(a, b[..n]);
    }
  }

  lemma NoPads()
    ensures PadCount([]) == 0
  {}

  lemma ShapeFirst(d: Bytes, pads: nat)
    requires Shape(d, pads) && d != []
    ensures Shape(d[1..], if d[0] == Pad then pads + 1 else pads)
  {
    hide DecValue;
  }

  lemma {:induction false} ShapeDrop(d: Bytes, pads: nat, m: nat)
    requires Shape(d, pads) && m <= |d|
    ensures Shape(d[m..], pads + PadCount(d[..m]))
    decreases m
  {
    hide DecValue, Shape, PadCount;
    NoPads();
    if m == 0 {
      assert d[0..] == d && d[..0] == [];
    } else {
      var pads' := if d[0] == Pad then pads + 1 else pads;
      ShapeFirst(d, pads);
      ShapeDrop(d[1..], pads', m - 1);
      assert d[1..][m - 1..] == d[m..] && d[..m] == [d[0]] + d[1..][..m - 1];
      PadCountCons(d[0], d[1..][..m - 1]);
    }
  }

  /** After padding there is only padding. */
  lemma {:induction false} OnlyPads(d: Bytes, pads: nat)
    requires Shape(d, pads) && pads > 0
    ensures PadCount(d) == |d| && (d != [] ==> |d| + pads <= 2)
    decreases |d|
  {
    hide DecValue;
    if d != [] {
      OnlyPads(d[1..], pads + 1);
      assert d == [d[0]] + d[1..];
      PadCountCons(d[0], d[1..]);
    }
  }

  lemma {:induction false} PadsAtMost(d: Bytes)
    ensures PadCount(d) <= |d|
  {
    if d != [] { PadsAtMost(d[..|d| - 1]); }
  }

  lemma {:induction false} PadsAtMostTwo(d: Bytes, pads: nat)
    requires Shape(d, pads) && pads <= 2
    ensures pads + PadCount(d) <= 2
    decreases |d|
  {
    hide DecValue;
    if d != [] {
      PadsAtMostTwo(d[1..], if d[0] == Pad then pads + 1 else pads);
      assert d == [d[0]] + d[1..];
      PadCountCons(d[0], d[1..]);
    }
  }

  /** The size that the first pass computes. */
  function DecodedSize(n: nat, pads: nat): int { (6 * n + 7) / 8 - pads }

  /** The second pass never writes more than that. */
  lemma {:induction false} OutputFits(d: Bytes, x: bv32)
    requires Shape(d, 0)
    ensures |Bytes4(d, 0, x)| <= DecodedSize(|d|, PadCount(d))
    decreases |d|
  {
    hide DecValue, Pushed, Byte2, Byte1, Byte0;
    PadsAtMost(d);
    PadsAtMostTwo(d, 0);
    if |d| >= 4 {
      var g, r, e := d[..4], d[4..], PadCount(d[..4]);
      assert d == g + r;
      PadCountConcat(g, r);
      ShapeDrop(d, 0, 4);
      if e == 0 {
        OutputFits(r, Pushed(x, g));
      } else {
        OnlyPads(r, e);
      }
    }
  }

  // ---------- the code ----------

  datatype Status = Ok | BufferTooSmall | InvalidCharacter

  const SizeMax: nat := 0xFFFF_FFFF_FFFF_FFFF

  /** The buffer that may be written, if there is one. */
  ghost function Target(dst: array?<bv8>): set<array<bv8>> {
    if dst == null then {} else {dst}
  }

  /** Text and terminating zero byte. Without a buffer the call tells the size. */
  method Encode(dst: array?<bv8>, src: Bytes) returns (ret: Status, olen: nat)
    requires |src| <= SizeMax
    modifies Target(dst)
    ensures src == [] ==> ret == Ok && olen == 0
    ensures src != [] && |Text(src)| < SizeMax ==>
      ret == if dst == null || dst.Length < |Text(src)| + 1 then BufferTooSmall else Ok
    ensures src != [] && ret == BufferTooSmall ==> olen == (if |Text(src)| < SizeMax then |Text(src)| + 1 else SizeMax)
    ensures src != [] && ret == Ok ==>
      dst != null && olen == |Text(src)| < dst.Length && dst[..olen] == Text(src) && dst[olen] == 0
    ensures ret != InvalidCharacter
  {
    hide EncChar, Text;
    olen := 0;
    if |src| == 0 { return Ok, 0; }
    TextLength(src);
    var n := |src| / 3 + if |src| % 3 != 0 then 1 else 0;
    if n > (SizeMax - 1) / 4 { return BufferTooSmall, SizeMax; }
    n := n * 4;
    if dst == null || dst.Length < n + 1 { return BufferTooSmall, n + 1; }
    olen := EncodeGroups(dst, src);
    ret := Ok;
  }

  /** The digits of all groups, and the terminating zero. */
  method EncodeGroups(dst: array<bv8>, src: Bytes) returns (p: nat)
    requires src != [] && dst.Length >= |Text(src)| + 1
    modifies dst
    ensures p == |Text(src)| && dst[..p] == Text(src) && dst[p] == 0
  {
    hide EncChar, Text, D0, D1, D2, D3;
    TextLength(src);
    var n := |src| / 3 * 3;
    var i := 0;
    p := 0;
    assert src[0..] == src && dst[..0] + Text(src) == Text(src);
    while i < n
      invariant i % 3 == 0 && 0 <= i <= n && p == i / 3 * 4 && dst[..p] + Text(src[i..]) == Text(src)
    {
      EncodeGroup(dst, src, i, p);
      p := p + 4;
      i := i + 3;
    }
    p := EncodeRest(dst, src, i, p);
    ghost var text := dst[..p];
    dst[p] := 0;
    assert dst[..p] == text;
  }

  /** Three bytes. */
  method EncodeGroup(dst: array<bv8>, src: Bytes, i: nat, p: nat)
    requires i + 3 <= |src| && p + 4 <= dst.Length
    modifies dst
    ensures dst[..p + 4] + Text(src[i + 3..]) == old(dst[..p]) + Text(src[i..])
  {
    hide EncChar, Text, D0, D1, D2, D3;
    TextStep(src, i);
    ghost var done := dst[..p];
    WriteFour(dst, p, EncChar(D0(src[i])), EncChar(D1(src[i], src[i + 1])), EncChar(D2(src[i + 1], src[i + 2])),
              EncChar(D3(src[i + 2])));
    assert dst[..p + 4] == done + dst[p..p + 4];
  }

  /** The last one or two bytes, if there are any. */
  method EncodeRest(dst: array<bv8>, src: Bytes, i: nat, p: nat) returns (p': nat)
    requires i <= |src| < i + 3 && p <= dst.Length && p + |Text(src[i..])| < dst.Length
    modifies dst
    ensures p' == p + |Text(src[i..])| && dst[..p'] == old(dst[..p]) + Text(src[i..])
  {
    hide EncChar, Text, D0, D1, D2, D3;
    p' := p;
    TextEnd(src[i..]);
    if i < |src| {
      ghost var done := dst[..p];
      var c1 := src[i];
      var c2 := if i + 1 < |src| then src[i + 1] else 0;
      WriteFour(dst, p, EncChar(D0(c1)), EncChar(D1(c1, c2)), if i + 1 < |src| then EncChar(D2(c2, 0)) else Pad, Pad);
      assert dst[..p + 4] == done + dst[p..p + 4];
      p' := p + 4;
    } else {
      assert dst[..p] + [] == dst[..p];
    }
  }

  method WriteFour(dst: array<bv8>, p: nat, a: bv8, b: bv8, c: bv8, d: bv8)
    requires p + 4 <= dst.Length
    modifies dst
    ensures dst[p..p + 4] == [a, b, c, d] && dst[..p] == old(dst[..p])
  {
    dst[p], dst[p + 1], dst[p + 2], dst[p + 3] := a, b, c, d;
  }

  lemma TextStep(src: Bytes, i: nat)
    requires i + 3 <= |src|
    ensures Text(src[i..]) == [EncChar(D0(src[i])), EncChar(D1(src[i], src[i + 1])),
                               EncChar(D2(src[i + 1], src[i + 2])), EncChar(D3(src[i + 2]))] + Text(src[i + 3..])
  {
    hide EncChar;
    assert src[i..][3..] == src[i + 3..];
  }

  lemma TextEnd(s: Bytes)
    ensures s == [] ==> Text(s) == []
    ensures |s| == 1 ==> Text(s) == [EncChar(D0(s[0])), EncChar(D1(s[0], 0)), Pad, Pad]
    ensures |s| == 2 ==> Text(s) == [EncChar(D0(s[0])), EncChar(D1(s[0], s[1])), EncChar(D2(s[1], 0)), Pad]
  {
    hide EncChar;
  }

  // ---------- the decoder ----------

  /** n more digits in front. */
  function Plus(n: nat, r: Option<Count>): Option<Count> {
    match r
    case None => None
    case Some(c) => Some(c.(n := n + c.n))
  }

  /** The first pass. */
  method FirstPass(src: Bytes) returns (ok: bool, n: nat, pads: nat)
    ensures ok <==> Scan(src, 0).Some?
    ensures ok ==> Scan(src, 0) == Some(Count(n, pads))
  {
    hide DecPlusOne, Scan, Admissible, Spaces;
    n, pads := 0, 0;
    var i := 0;
    assert src[0..] == src;
    while i < |src|
      invariant 0 <= i <= |src| && Scan(src, 0) == Plus(n, Scan(src[i..], pads))
      decreases |src| - i
    {
      ghost var s := src[i..];
      var j := SkipSpaces(src, i);
      ScanStep(s, pads);
      assert src[j..] == s[Spaces(s)..];
      if j == |src| {
        i := j;
        ScanNothing(pads);
        assert src[j..] == [];
      } else if |src| - j >= 2 && src[j] == Cr && src[j + 1] == Lf {
        assert src[j..][1..] == src[j + 1..];
        i := j + 1;
      } else if src[j] == Lf {
        assert src[j..][1..] == src[j + 1..];
        i := j + 1;
      } else {
        var good;
        good, pads := CheckCharacter(src[j], j > i, pads);
        if !good { return false, n, pads; }
        assert src[j..][1..] == src[j + 1..];
        n := n + 1;
        i := j + 1;
      }
    }
    ScanNothing(pads);
    assert src[i..] == [];
    ok := true;
  }

  lemma ScanNothing(pads: nat)
    ensures Scan([], pads) == Some(Count(0, pads))
  {}

  /** One step of the scan. */
  lemma ScanStep(s: Bytes, pads: nat)
    ensures var t := s[Spaces(s)..];
      Scan(s, pads) ==
        if t == [] then Some(Count(0, pads))
        else if |t| >= 2 && t[0] == Cr && t[1] == Lf then Scan(t[1..], pads)
        else if t[0] == Lf then Scan(t[1..], pads)
        else if !Admissible(t[0], Spaces(s) > 0, pads) then None
        else More(Scan(t[1..], if t[0] == Pad then pads + 1 else pads))
  {
    hide DecValue;
  }

  /** Whether a character may come next, given whether spaces precede it. */
  predicate Admissible(c: bv8, spaces: bool, pads: nat) {
    !spaces && c <= 127 && if c == Pad then pads + 1 <= 2 else pads == 0 && DecValue(c).Some?
  }

  method CheckCharacter(c: bv8, spaces: bool, pads: nat) returns (good: bool, pads': nat)
    ensures good <==> Admissible(c, spaces, pads)
    ensures good ==> pads' == if c == Pad then pads + 1 else pads
  {
    hide DecValue;
    pads' := pads;
    if spaces { return false, pads; }
    if c > 127 { return false, pads; }
    if c == Pad {
      pads' := pads + 1;
      if pads' > 2 { return false, pads'; }
    } else {
      if pads != 0 { return false, pads; }
      if DecValue(c).None? { return false, pads; }
    }
    good := true;
  }

  method SkipSpaces(src: Bytes, i: nat) returns (j: nat)
    requires i <= |src|
    ensures i <= j <= |src| && j == i + Spaces(src[i..])
  {
    j := i;
    while j < |src| && src[j] == Sp
      invariant i <= j <= |src| && i + Spaces(src[i..]) == j + Spaces(src[j..])
    {
      assert src[j..][1..] == src[j + 1..];
      j := j + 1;
    }
  }

  /** The second pass, when the output has room. */
  method SecondPass(dst: array<bv8>, src: Bytes) returns (p: nat)
    requires Shape(Strip(src), 0) && |Bytes4(Strip(src), 0, 0)| <= dst.Length
    modifies dst
    ensures p == |Bytes4(Strip(src), 0, 0)| && dst[..p] == Bytes4(Strip(src), 0, 0)
  {
    hide Bytes4, Strip, Pushed, PadCount, Push, Value, Group;
    ghost var all := Bytes4(Strip(src), 0, 0);
    var x: bv32, equals: nat, accumulated: nat := 0, 0, 0;
    ghost var pend: Bytes, x0: bv32, e0: nat := [], 0, 0;
    p := 0;
    NoPads();
    NothingPushed(x0);
    assert src[0..] == src && [] + Strip(src) == Strip(src) && dst[..0] == [];
    for i := 0 to |src|
      invariant |pend| == accumulated < 4 && x == Pushed(x0, pend) && equals == e0 + PadCount(pend)
      invariant p <= dst.Length && all == dst[..p] + Bytes4(pend + Strip(src[i..]), e0, x0)
    {
      StripStep(src, i);
      var c := src[i];
      if !(c == Cr || c == Lf || c == Sp) {
        ghost var rest := Strip(src[i + 1..]);
        assert pend + ([c] + rest) == (pend + [c]) + rest;
        PushNext(x0, pend, c);
        x := x << 6;
        if c == Pad { equals := equals + 1; } else { x := x | (Value(c) as bv32); }
        PushShift(Pushed(x0, pend), c);
        pend := pend + [c];
        accumulated := accumulated + 1;
        if accumulated == 4 {
          accumulated := 0;
          GroupStep(pend, rest, e0, x0);
          ghost var done := dst[..p];
          ghost var g := Group(x, equals);
          SplitOutput(all, done, g, Bytes4(rest, equals, x));
          p := WriteGroup(dst, p, x, equals);
          assert dst[..p] == done + g;
          pend, x0, e0 := [], x, equals;
          NothingPushed(x0);
          assert [] + rest == rest;
        }
      }
    }
    assert src[|src|..] == [];
    StripStep(src, |src|);
    ShortTail(pend, e0, x0);
  }

  lemma NothingPushed(x: bv32)
    ensures Pushed(x, []) == x
  {}

  lemma StripStep(src: Bytes, i: nat)
    requires i <= |src|
    ensures i < |src| ==>
      Strip(src[i..]) == if Skipped(src[i]) then Strip(src[i + 1..]) else [src[i]] + Strip(src[i + 1..])
    ensures i == |src| ==> Strip(src[i..]) == []
  {
    if i < |src| { assert src[i..][1..] == src[i + 1..]; }
  }

  lemma PushNext(x: bv32, s: Bytes, c: bv8)
    ensures Pushed(x, s + [c]) == Push(Pushed(x, s), c)
    ensures PadCount(s + [c]) == PadCount(s) + if c == Pad then 1 else 0
  {
    hide Push;
    assert (s + [c])[..|s|] == s;
  }

  lemma PushShift(x: bv32, c: bv8)
    ensures Push(x, c) == if c == Pad then x << 6 else (x << 6) | (Value(c) as bv32)
  {
    hide DecValue;
    OrZero(x << 6);
  }

  lemma OrZero(x: bv32)
    ensures x | ((0 as bv8) as bv32) == x
  {}

  lemma GroupStep(g: Bytes, rest: Bytes, e: nat, x: bv32)
    requires |g| == 4
    ensures Bytes4(g + rest, e, x)
      == Group(Pushed(x, g), e + PadCount(g)) + Bytes4(rest, e + PadCount(g), Pushed(x, g))
  {
    hide Pushed, PadCount, Group;
    assert (g + rest)[..4] == g && (g + rest)[4..] == rest;
  }

  lemma SplitOutput(all: Bytes, done: Bytes, g: Bytes, r: Bytes)
    requires all == done + (g + r)
    ensures |done| + |g| <= |all| && all == (done + g) + r
  {}

  lemma ShortTail(d: Bytes, e: nat, x: bv32)
    requires |d| < 4
    ensures Bytes4(d + [], e, x) == []
  {
    assert d + [] == d;
  }

  method WriteGroup(dst: array<bv8>, p: nat, x: bv32, equals: nat) returns (p': nat)
    requires p + |Group(x, equals)| <= dst.Length
    modifies dst
    ensures p' == p + |Group(x, equals)| && dst[..p'] == old(dst[..p]) + Group(x, equals)
  {
    hide Byte2, Byte1, Byte0;
    ghost var done := dst[..p];
    dst[p] := Byte2(x);
    p' := p + 1;
    if equals <= 1 {
      dst[p'] := Byte1(x);
      p' := p' + 1;
    }
    if equals <= 0 {
      dst[p'] := Byte0(x);
      p' := p' + 1;
    }
    assert dst[..p'] == done + Group(x, equals);
  }

  /** Two passes: check and measure, then decode. Without a buffer everything but the empty text
      is refused, even a text that decodes to nothing. */
  method Decode(dst: array?<bv8>, src: Bytes) returns (ret: Status, olen: nat)
    modifies Target(dst)
    ensures ret == InvalidCharacter <==> !(Layout(src) && Shape(Strip(src), 0))
    ensures ret != InvalidCharacter ==>
      (ret == BufferTooSmall
       <==> Strip(src) != [] && (dst == null || dst.Length < DecodedSize(|Strip(src)|, PadCount(Strip(src)))))
    ensures ret == BufferTooSmall ==> olen == DecodedSize(|Strip(src)|, PadCount(Strip(src)))
    ensures ret == Ok ==> if dst == null then Strip(src) == [] && olen == 0
                          else olen <= dst.Length && dst[..olen] == Bytes4(Strip(src), 0, 0)
    ensures ret != Ok && dst != null ==> dst[..] == old(dst[..])
  {
    hide Bytes4, Strip, Scan, PadCount, Layout, Shape;
    olen := 0;
    AcceptedIff(src, 0);
    var ok, n, pads := FirstPass(src);
    if !ok { return InvalidCharacter, 0; }
    ScanShape(src, 0);
    OutputFits(Strip(src), 0);
    if n == 0 {
      NoDigits(Strip(src));
      return Ok, 0;
    }
    n := 6 * (n / 8) + (6 * (n % 8) + 7) / 8;
    n := n - pads;
    if dst == null || dst.Length < n { return BufferTooSmall, n; }
    olen := SecondPass(dst, src);
    ret := Ok;
  }

  lemma NoDigits(d: Bytes)
    ensures |d| == 0 ==> Bytes4(d, 0, 0) == [] && PadCount(d) == 0
  {}

  /** Decoding undoes encoding, also when line breaks are put between the digits. */
  lemma DecodeUndoesEncode(m: Bytes, src: Bytes)
    requires Strip(src) == Text(m) && Lines(src)
    ensures Layout(src) && Shape(Strip(src), 0) && Bytes4(Strip(src), 0, 0) == m
  {
    hide Bytes4, Strip, Scan, Shape, Layout;
    TextShape(m);
    LinesAccepted(src, 0);
    AcceptedIff(src, 0);
    TextRoundTrip(m, 0);
  }

  lemma ShapeCons(c: bv8, d: Bytes, pads: nat)
    ensures DecValue(c).Some? && c != Pad && Shape(d, 0) ==> Shape([c] + d, 0)
    ensures pads + 1 <= 2 && Shape(d, pads + 1) ==> Shape([Pad] + d, pads)
  {
    hide DecValue;
    assert ([c] + d)[1..] == d && ([Pad] + d)[1..] == d;
  }

  lemma {:induction false} TextShape(s: Bytes)
    ensures Shape(Text(s), 0)
    decreases |s|
  {
    hide EncChar, DecValue, D0, D1, D2, D3, Shape;
    ShapeNothing();
    if s != [] {
      var a, b, c := s[0], if |s| > 1 then s[1] else 0, if |s| > 2 then s[2] else 0;
      SixBits(a, b, c);
      var e0, e1, e2, e3 := EncChar(D0(a)), EncChar(D1(a, b)), EncChar(D2(b, c)), EncChar(D3(c));
      DigitRoundTrip(D0(a));
      DigitRoundTrip(D1(a, b));
      DigitRoundTrip(D2(b, c));
      DigitRoundTrip(D3(c));
      var rest: Bytes := if |s| >= 3 then Text(s[3..]) else [];
      if |s| >= 3 { TextShape(s[3..]); }
      var d3 := if |s| >= 3 then e3 else Pad;
      var d2 := if |s| >= 2 then e2 else Pad;
      ShapeCons(e3, rest, 0);
      ShapeCons(e3, rest, 1);
      ShapeCons(e2, [d3] + rest, 0);
      ShapeCons(e1, [d2] + ([d3] + rest), 0);
      ShapeCons(e0, [e1] + ([d2] + ([d3] + rest)), 0);
      assert Text(s) == [e0] + ([e1] + ([d2] + ([d3] + rest)));
    }
  }

  lemma ShapeNothing()
    ensures Shape([], 0) && Shape([], 1) && Shape([], 2)
  {}

  /** The plain text of the encoder is one such input. */
  lemma PlainRoundTrip(m: Bytes)
    ensures Layout(Text(m)) && Shape(Strip(Text(m)), 0) && Bytes4(Strip(Text(m)), 0, 0) == m
  {
    hide Text, Strip, Shape, Bytes4, Layout;
    TextShape(m);
    ShapeIsLine(Text(m), 0);
    DecodeUndoesEncode(m, Text(m));
  }

  lemma {:induction false} ShapeIsLine(d: Bytes, pads: nat)
    requires Shape(d, pads)
    ensures Strip(d) == d && forall k :: 0 <= k < |d| ==> d[k] != Sp && d[k] != Cr
    decreases |d|
  {
    hide DecValue;
    if d != [] {
      DigitRange(d[0]);
      ShapeIsLine(d[1..], if d[0] == Pad then pads + 1 else pads);
      assert d == [d[0]] + d[1..];
      forall k | 0 <= k < |d| ensures d[k] != Sp && d[k] != Cr {
        if k > 0 { assert d[k] == d[1..][k - 1]; }
      }
    }
  }
}
