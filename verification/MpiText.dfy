/** MPIs as text in radix 2 to 16. */
module MpiText {
  import opened Arith
  import opened Options
  import opened Words
  import opened Limbs
  import opened Mpis
  import opened MpiArith
  import opened MpiBits
  import opened MpiDiv
  import opened MpiMod
  import opened MpiBytes

  // ---------- the meaning of a string ----------

  /** Digit value of a character; 255 for a character that is no digit at all. */
  function DigitOf(c: char): nat {
    var v := c as int;
    if 0x30 <= v <= 0x39 then v - 0x30
    else if 0x41 <= v <= 0x46 then v - 0x37
    else if 0x61 <= v <= 0x66 then v - 0x57
    else 255
  }

  const UpperDigits: string := "0123456789ABCDEF"
  const LowerDigits: string := "0123456789abcdef"

  /** The digits are these characters, each with its place in the list as its value; every other
      character is refused in every radix. */
  lemma DigitCharacters(c: char)
    ensures |UpperDigits| == |LowerDigits| == 16
    ensures forall v :: 0 <= v < 16 ==> DigitOf(UpperDigits[v]) == v && DigitOf(LowerDigits[v]) == v
    ensures if c in UpperDigits || c in LowerDigits then DigitOf(c) < 16 else DigitOf(c) == 255
  {
    var v := DigitOf(c);
    if v < 16 { assert c == UpperDigits[v] || c == LowerDigits[v]; }
  }

  predicate AllDigits(s: string, radix: nat) {
    forall k :: 0 <= k < |s| ==> DigitOf(s[k]) < radix
  }

  function DigitsValue(s: string, radix: nat): nat {
    if s == [] then 0 else DigitsValue(s[..|s| - 1], radix) * radix + DigitOf(s[|s| - 1])
  }

  /** An optional minus sign and digits, possibly none. */
  function Parse(s: string, radix: nat): Option<int> {
    var neg := s != [] && s[0] == '-';
    var d := if neg then s[1..] else s;
    if !AllDigits(d, radix) then None
    else
      var m: int := DigitsValue(d, radix);
      Some(if neg then -m else m)
  }

  /** The radixes that the functions accept. */
  predicate RadixOk(radix: int) { 2 <= radix <= 16 }

  lemma {:induction false} DigitsConcat(a: string, b: string, radix: nat)
    ensures DigitsValue(a + b, radix) == DigitsValue(a, radix) * Pow(radix, |b|) + DigitsValue(b, radix)
    decreases |b|
  {
    if b == [] {
      assert a + b == a;
    } else {
      var n := |b| - 1;
      assert (a + b)[..|a| + n] == a + b[..n];
      DigitsConcat(a, b[..n], radix);
      MulAssoc(DigitsValue(a, radix), Pow(radix, n), radix);
      MulDist(DigitsValue(a, radix) * Pow(radix, n), DigitsValue(b[..n], radix), radix);
    }
  }

  lemma DigitsCons(c: char, s: string, radix: nat)
    ensures DigitsValue([c] + s, radix) == DigitOf(c) * Pow(radix, |s|) + DigitsValue(s, radix)
  {
    DigitsConcat([c], s, radix);
    assert [c][..0] == [];
  }

  // ---------- reading ----------

  method GetDigit(radix: nat, c: char) returns (ret: Status, d: Limb)
    ensures ret == if DigitOf(c) < radix then Success else InvalidCharacter
    ensures d == DigitOf(c)
  {
    WordFacts();
    var v := c as int;
    d := 255;
    if v >= 0x30 && v <= 0x39 { d := v - 0x30; }
    if v >= 0x41 && v <= 0x46 { d := v - 0x37; }
    if v >= 0x61 && v <= 0x66 { d := v - 0x57; }
    if d >= radix { return InvalidCharacter, d; }
    return Success, d;
  }

  lemma PowNat16(j: nat)
    ensures Pow(16, j) == Pow2(4 * j)
  {
    Pow2Values();
    if j > 0 {
      PowNat16(j - 1);
      Pow2Add(4 * (j - 1), 4);
    }
  }

  /** Position j of the hexadecimal digits lies in limb j / (2 ciL). */
  lemma NibblePlace(j: nat, n: nat)
    requires n >= 0 && 4 * j < biL * n
    ensures 0 <= j / (2 * ciL) < n && 0 <= j % (2 * ciL)
    ensures Pow2(4 * j) == BPow(j / (2 * ciL)) * Pow2(4 * (j % (2 * ciL)))
    ensures 4 * (j % (2 * ciL)) + 4 <= biL
  {
    hide Pow2, BPow;
    WordFacts();
    var w := 2 * ciL;
    DivModFacts(j, w);
    var q, r := j / w, j % w;
    BPowIsPow2(q);
    assert 4 * j == biL * q + 4 * r by { MulAssoc(4, w, q); }
    Pow2Add(biL * q, 4 * r);
    if q >= n { MulMono(n, q, biL); }
  }

  /** What is in limb q so far stays below the place of the next digit. */
  lemma NibbleRoom(w: seq<Limb>, j: nat)
    requires 4 * j < biL * |w| && Nat(w) < Pow2(4 * j)
    ensures 0 <= j / (2 * ciL) < |w| && j % (2 * ciL) >= 0
    ensures w[j / (2 * ciL)] < Pow2(4 * (j % (2 * ciL)))
  {
    hide Nat, Pow2, BPow;
    NibblePlace(j, |w|);
    var q, p := j / (2 * ciL), Pow2(4 * (j % (2 * ciL)));
    NatAtLeast(w, q);
    assert w[q] * BPow(q) < p * BPow(q);
    MulCancelLt(w[q], p, BPow(q));
  }

  /** Or-ing a digit into its place adds it at its weight. */
  lemma OrNibble(w: seq<Limb>, j: nat, d: nat, v: Limb)
    requires d < 16 && 4 * j < biL * |w| && Nat(w) < Pow2(4 * j)
    requires j / (2 * ciL) < |w| && j % (2 * ciL) >= 0
    requires v == w[j / (2 * ciL)] + d * Pow2(4 * (j % (2 * ciL)))
    ensures Nat(w[j / (2 * ciL) := v]) == Nat(w) + d * Pow2(4 * j)
  {
    hide Nat, Pow2, BPow;
    WordFacts();
    NibblePlace(j, |w|);
    var q, p := j / (2 * ciL), Pow2(4 * (j % (2 * ciL)));
    NatUpdate(w, q, v);
    MulAssoc(d, p, BPow(q));
  }

  lemma ShiftedDigit(d: nat, t: nat)
    requires d < 16 && t + 4 <= biL
    ensures d < B && ShlW(d, t) == d * Pow2(t) && d * Pow2(t) <= B - Pow2(t)
    ensures d * Pow2(t) % Pow2(t) == 0
  {
    hide Pow2;
    WordFacts();
    RoomForDigit(d, t);
    DivModUnique(d * Pow2(t), d, 0, Pow2(t));
    ModSmall(d * Pow2(t), B);
  }

  lemma RoomForDigit(d: nat, t: nat)
    requires d < 16 && t + 4 <= biL
    ensures 0 <= d * Pow2(t) <= Pow2(biL) - Pow2(t)
  {
    hide Pow2;
    Pow2Values();
    Pow2Add(t, 4);
    Pow2Mono(t + 4, biL);
    MulMono(d, 15, Pow2(t));
    MulMono(0, d, Pow2(t));
  }

  /** Drop the buffer. */
  method Free(x: Mpi)
    modifies x
    ensures fresh(x.p) && x.Valid() && x.Val() == 0
  {
    hide Nat, BPow;
    x.s := 1;
    x.p := new Limb[0];
    NatEmpty();
    assert x.p[..] == [];
  }

  /** Store digit d at hexadecimal position j. */
  method OrDigit(x: Mpi, j: nat, d: Limb)
    requires d < 16 && 4 * j < biL * x.p.Length && x.Mag() < Pow2(4 * j)
    modifies x.p
    ensures x.Mag() == old(x.Mag()) + d * Pow2(4 * j)
  {
    hide Nat, Pow2, BPow, BitOr;
    ghost var w := x.p[..];
    NibblePlace(j, x.p.Length);
    NibbleRoom(w, j);
    var q, t := j / (2 * ciL), 4 * (j % (2 * ciL));
    ShiftedDigit(d, t);
    OrIsAdd(ShlW(d, t), x.p[q], t);
    OrCommutes(x.p[q], ShlW(d, t));
    var v: Limb := BitOr(x.p[q], ShlW(d, t));
    OrNibble(w, j, d, v);
    x.p[q] := v;
    assert x.p[..] == w[q := v];
  }

  /** The digits of s from the last one to the first, straight into the limbs. */
  method ReadHex(x: Mpi, s: string) returns (ret: Status)
    modifies x, x.p
    ensures x.p == old(x.p) || fresh(x.p)
    ensures x.Valid() && x.s == 1
    ensures ret == if AllDigits(s, 16) then Success else InvalidCharacter
    ensures ret.Success? ==> x.Mag() == DigitsValue(s, 16)
  {
    hide Nat, Pow2, BPow, DigitsValue, DigitOf, BitsToLimbs;
    WordFacts();
    var n := BitsToLimbs(4 * |s|);
    Grow(x, n);
    Lset(x, 0);
    MulMono(n, x.p.Length, biL);
    EmptyDigits(s[|s|..]);
    Pow2Values();
    var i, j: nat := |s|, 0;
    while i > 0
      invariant 0 <= i <= |s| && j == |s| - i
      invariant x.p == old(x.p) || fresh(x.p)
      invariant x.s == 1 && biL * x.p.Length >= 4 * |s|
      invariant AllDigits(s[i..], 16) && x.Mag() == DigitsValue(s[i..], 16) < Pow2(4 * j)
    {
      var status, d := GetDigit(16, s[i - 1]);
      if status != Success { return InvalidCharacter; }
      NextHexDigit(s, i);
      OrDigit(x, j, d);
      i, j := i - 1, j + 1;
    }
    assert s[0..] == s;
    return Success;
  }

  lemma EmptyDigits(s: string)
    requires |s| == 0
    ensures DigitsValue(s, 16) == 0
  {}

  lemma NextHexDigit(s: string, i: nat)
    requires 0 < i <= |s| && DigitOf(s[i - 1]) < 16 && DigitsValue(s[i..], 16) < Pow2(4 * (|s| - i))
    ensures DigitsValue(s[i - 1..], 16) == DigitsValue(s[i..], 16) + DigitOf(s[i - 1]) * Pow2(4 * (|s| - i))
    ensures DigitsValue(s[i - 1..], 16) < Pow2(4 * (|s| - i + 1))
  {
    hide Pow2, DigitsValue, DigitOf;
    var j := |s| - i;
    assert s[i - 1..] == [s[i - 1]] + s[i..];
    DigitsCons(s[i - 1], s[i..], 16);
    PowNat16(j);
    Pow2Values();
    Pow2Add(4 * j, 4);
    MulMono(DigitOf(s[i - 1]), 15, Pow2(4 * j));
  }

  /** x := x * radix + d, through a scratch MPI. */
  method MulAddDigit(x: Mpi, t: Mpi, radix: Limb, d: nat)
    requires x.Valid() && x.s == 1 && t.Valid() && x != t && x.p != t.p && radix <= 16 && d < 16
    modifies x, x.p, t, t.p
    ensures x.p == old(x.p) || fresh(x.p)
    ensures t.p == old(t.p) || fresh(t.p)
    ensures t.p != x.p && t.Valid() && x.Valid() && x.s == 1
    ensures x.Val() == old(x.Val()) * radix + d
  {
    hide Nat, Pow2, BPow;
    assert B > 64 by { WordFacts(); }
    MulMono(0, x.Val(), radix);
    MulInt(t, x, radix);
    AddInt(x, t, d);
  }

  /** x := x * radix + digit, from the first digit on. */
  method ReadRadix(x: Mpi, s: string, radix: nat) returns (ret: Status)
    requires x.Valid() && 2 <= radix <= 16
    modifies x, x.p
    ensures x.p == old(x.p) || fresh(x.p)
    ensures x.Valid() && x.s == 1
    ensures ret == if AllDigits(s, radix) then Success else InvalidCharacter
    ensures ret.Success? ==> x.Mag() == DigitsValue(s, radix)
  {
    hide Nat, Pow2, BPow, DigitOf, DigitsValue, AllDigits;
    assert B > 64 by { WordFacts(); }
    Lset(x, 0);
    FirstDigits(s, radix);
    var t := new Mpi();
    for i := 0 to |s|
      invariant x.p == old(x.p) || fresh(x.p)
      invariant t.Valid() && fresh(t) && fresh(t.p) && t.p != x.p
      invariant x.Valid() && x.s == 1 && AllDigits(s[..i], radix)
      invariant x.Val() == DigitsValue(s[..i], radix)
    {
      var status, d := GetDigit(radix, s[i]);
      NextDigit(s, i, radix);
      if status != Success { return InvalidCharacter; }
      MulAddDigit(x, t, radix, d);
    }
    assert s[..|s|] == s;
    return Success;
  }

  lemma FirstDigits(s: string, radix: nat)
    ensures AllDigits(s[..0], radix) && DigitsValue(s[..0], radix) == 0
  {}

  lemma NextDigit(s: string, i: nat, radix: nat)
    requires i < |s|
    ensures AllDigits(s[..i + 1], radix) <==> AllDigits(s[..i], radix) && DigitOf(s[i]) < radix
    ensures DigitOf(s[i]) >= radix ==> !AllDigits(s, radix)
    ensures DigitsValue(s[..i + 1], radix) == DigitsValue(s[..i], radix) * radix + DigitOf(s[i])
  {
    hide DigitOf;
    var t := s[..i + 1];
    assert t[..i] == s[..i] && t[i] == s[i] && forall k :: 0 <= k < i ==> t[k] == s[..i][k];
  }

  /** Import from a string. */
  method ReadString(x: Mpi, radix: int, s: string) returns (ret: Status)
    requires x.Valid()
    modifies x, x.p
    ensures x.p == old(x.p) || fresh(x.p)
    ensures x.Valid()
    ensures ret == if !RadixOk(radix) then BadInputData
                   else if Parse(s, radix).None? then InvalidCharacter else Success
    ensures ret.Success? ==> x.Val() == Parse(s, radix).value
    ensures !RadixOk(radix) ==> x.Val() == old(x.Val())
  {
    hide Nat, Pow2, BPow, DigitOf, BitLen;
    if radix < 2 || radix > 16 { return BadInputData; }
    if |s| == 0 {
      Free(x);
      return Success;
    }
    var sign := 1;
    var digits := s;
    if s[0] == '-' {
      digits := s[1..];
      sign := -1;
    }
    if radix == 16 {
      ret := ReadHex(x, digits);
    } else {
      ret := ReadRadix(x, digits, radix);
    }
    if ret != Success { return ret; }
    BitLenZero(x.Mag());
    var bits := Bitlen(x);
    if sign < 0 && bits != 0 { x.s := -1; }
  }

  lemma BitLenZero(n: nat)
    ensures BitLen(n) == 0 <==> n == 0
  {}

  // ---------- the text of a number ----------

  function DigitChar(d: nat): (c: char)
    requires d < 16
    ensures DigitOf(c) == d
  {
    if d < 10 then (0x30 + d) as char else (0x41 + d - 10) as char
  }

  /** The writers use upper-case letters. */
  lemma DigitCharIs(d: nat)
    requires d < 16
    ensures |UpperDigits| == 16 && DigitChar(d) == UpperDigits[d]
  {}

  /** The digits of m, high-order first; none for 0. */
  function Raw(m: nat, radix: nat): string
    requires 2 <= radix <= 16
  {
    if m == 0 then "" else
      ShrinkQuotient2(m, radix);
      Raw(m / radix, radix) + [DigitChar(m % radix)]
  }

  lemma ShrinkQuotient2(m: nat, radix: nat)
    requires m > 0 && radix >= 2
    ensures m / radix < m
  {
    DivModFacts(m, radix);
    MulMono(2, radix, m / radix);
    QuotientTest(m, radix, 0);
  }

  /** The digits of m, at least one. */
  function Digits(m: nat, radix: nat): string
    requires 2 <= radix <= 16
  {
    if m == 0 then "0" else Raw(m, radix)
  }

  lemma {:induction false} RawValue(m: nat, radix: nat)
    requires 2 <= radix <= 16
    ensures AllDigits(Raw(m, radix), radix) && DigitsValue(Raw(m, radix), radix) == m
    decreases m
  {
    if m > 0 {
      ShrinkQuotient2(m, radix);
      RawValue(m / radix, radix);
      DivModFacts(m, radix);
      var r := Raw(m, radix);
      assert r[..|r| - 1] == Raw(m / radix, radix);
    }
  }

  lemma DigitsRoundTrip(m: nat, radix: nat)
    requires 2 <= radix <= 16
    ensures AllDigits(Digits(m, radix), radix) && DigitsValue(Digits(m, radix), radix) == m
    ensures Digits(m, radix)[0] != '-' && (m > 0 ==> Digits(m, radix)[0] != '0')
  {
    RawValue(m, radix);
    if m == 0 {
      assert "0"[..0] == "";
      assert DigitOf('0') == 0;
    } else {
      RawLeading(m, radix);
    }
  }

  /** Nothing but the characters that the writers use. */
  predicate Upper(s: string) { forall k :: 0 <= k < |s| ==> s[k] in UpperDigits }

  /** An upper-case digit is the character of its value. */
  lemma UpperIs(c: char)
    requires c in UpperDigits
    ensures DigitOf(c) < 16 && c == DigitChar(DigitOf(c))
  {}

  /** The digits of m are the only upper-case text of that value without a superfluous zero. */
  lemma DigitsUnique(s: string, radix: nat, m: nat)
    requires 2 <= radix <= 16 && AllDigits(s, radix) && Upper(s) && DigitsValue(s, radix) == m
    requires s == "0" || (s != "" && s[0] != '0')
    ensures s == Digits(m, radix)
  {
    hide Raw;
    if s == "0" {
      assert s[..0] == "";
    } else {
      RawUnique(s, radix);
    }
  }

  lemma {:induction false} RawUnique(s: string, radix: nat)
    requires 2 <= radix <= 16 && AllDigits(s, radix) && Upper(s) && (s != "" ==> s[0] != '0')
    ensures s == Raw(DigitsValue(s, radix), radix) && (s != "" ==> DigitsValue(s, radix) > 0)
    decreases |s|
  {
    hide Raw, DigitOf, DigitChar, DigitsValue;
    if s == "" {
      RawUnfold(0, radix);
      NoDigits(radix);
    } else {
      var n := |s| - 1;
      var q, d := DigitsValue(s[..n], radix), DigitOf(s[n]);
      RawUnique(s[..n], radix);
      LastDigit(s, radix);
      UpperIs(s[n]);
      if n == 0 { NoDigits(radix); ZeroDigit(s[0]); }
      if q > 0 { MulMono(1, q, radix); }
      DivModUnique(q * radix + d, q, d, radix);
      RawUnfold(q * radix + d, radix);
      assert s == s[..n] + [s[n]];
    }
  }

  lemma NoDigits(radix: nat)
    ensures DigitsValue("", radix) == 0
  {}

  lemma LastDigit(s: string, radix: nat)
    requires s != ""
    ensures DigitsValue(s, radix) == DigitsValue(s[..|s| - 1], radix) * radix + DigitOf(s[|s| - 1])
  {}

  lemma ZeroDigit(c: char)
    requires c in UpperDigits && c != '0'
    ensures DigitOf(c) > 0
  {}

  lemma {:induction false} RawLeading(m: nat, radix: nat)
    requires 2 <= radix <= 16 && m > 0
    ensures |Raw(m, radix)| > 0 && DigitOf(Raw(m, radix)[0]) < 16
    ensures Raw(m, radix)[0] != '-' && Raw(m, radix)[0] != '0'
    decreases m
  {
    hide Raw, DigitChar;
    ShrinkQuotient2(m, radix);
    DivModFacts(m, radix);
    RawUnfold(m, radix);
    if m / radix > 0 {
      RawLeading(m / radix, radix);
    }
  }

  /** A number below radix^k has at most k digits. */
  lemma {:induction false} RawLength(m: nat, radix: nat, k: nat)
    requires 2 <= radix <= 16 && m < Pow(radix, k)
    ensures |Raw(m, radix)| <= k
    decreases k
  {
    if m > 0 {
      DivLess(m, radix, Pow(radix, k - 1));
      RawLength(m / radix, radix, k - 1);
    }
  }

  /** The 2k hexadecimal digits of the low k bytes of m. */
  function Hex(m: nat, k: nat): (s: string)
    ensures |s| == 2 * k
  {
    if k == 0 then "" else Hex(m / 256, k - 1) + [DigitChar(m % 256 / 16), DigitChar(m % 16)]
  }

  lemma {:induction false} HexValue(m: nat, k: nat)
    requires m < Pow2(8 * k)
    ensures AllDigits(Hex(m, k), 16) && DigitsValue(Hex(m, k), 16) == m
  {
    hide Pow2;
    Pow2Values();
    if k > 0 {
      BytePow(k - 1);
      HexValue(m / 256, k - 1);
      HexDigits(m);
      var h, d := Hex(m / 256, k - 1), [DigitChar(m % 256 / 16), DigitChar(m % 16)];
      DigitsConcat(h, d, 16);
    }
  }

  lemma HexDigits(m: nat)
    ensures var d := [DigitChar(m % 256 / 16), DigitChar(m % 16)];
            AllDigits(d, 16) && DigitsValue(d, 16) == m % 256 && Pow(16, 2) == 256
  {
    var d := [DigitChar(m % 256 / 16), DigitChar(m % 16)];
    PowTwo(16);
    assert d[..1] == [d[0]] && d[..1][..0] == "";
    assert DigitsValue(d[..1], 16) == DigitOf(d[0]);
    assert m % 256 % 16 == m % 16;
  }

  /** The hexadecimal text of m is the only upper-case one of that value and length. */
  lemma {:induction false} HexUnique(s: string, k: nat)
    requires |s| == 2 * k && AllDigits(s, 16) && Upper(s)
    ensures s == Hex(DigitsValue(s, 16), k)
    decreases k
  {
    hide DigitOf, DigitChar, DigitsValue;
    if k > 0 {
      var n := |s| - 2;
      var q, a, b := DigitsValue(s[..n], 16), DigitOf(s[n]), DigitOf(s[n + 1]);
      HexUnique(s[..n], k - 1);
      LastDigit(s, 16);
      LastDigit(s[..n + 1], 16);
      assert s[..n + 1][..n] == s[..n];
      UpperIs(s[n]);
      UpperIs(s[n + 1]);
      TwoDigits(q, a, b);
      assert s == s[..n] + [s[n], s[n + 1]];
    }
  }

  lemma TwoDigits(q: nat, a: nat, b: nat)
    requires a < 16 && b < 16
    ensures var m := (q * 16 + a) * 16 + b; m / 256 == q && m % 256 / 16 == a && m % 16 == b
  {}

  /** Bytes written for m in hexadecimal: no leading zero bytes, but at least one byte. */
  function HexBytes(m: nat): nat {
    if BitLen(m) == 0 then 1 else (BitLen(m) + 7) / 8
  }

  /** The text of v. An MPI without limbs gives no hexadecimal digits at all. */
  function Text(v: int, radix: nat, limbs: nat): string
    requires 2 <= radix <= 16
  {
    (if v < 0 then "-" else "")
    + if radix != 16 then Digits(Abs(v), radix)
      else if limbs == 0 then "" else Hex(Abs(v), HexBytes(Abs(v)))
  }

  lemma HexFits(m: nat)
    ensures m < Pow2(8 * HexBytes(m))
  {
    hide Pow2;
    BitLenBounds(m);
    Pow2Mono(BitLen(m), 8 * HexBytes(m));
  }

  lemma ParseDigits(neg: bool, d: string, radix: nat, m: nat)
    requires AllDigits(d, radix) && DigitsValue(d, radix) == m && 2 <= radix <= 16
    requires d == "" || d[0] != '-'
    ensures Parse((if neg then "-" else "") + d, radix) == Some(if neg then -(m as int) else m)
  {
    var s := (if neg then "-" else "") + d;
    if neg {
      assert s[0] == '-' && s[1..] == d;
    } else {
      assert s == d;
    }
  }

  /** Parsing the text of a number gives the number back, in every radix. */
  lemma TextRoundTrip(v: int, radix: nat, limbs: nat)
    requires 2 <= radix <= 16 && (limbs == 0 ==> v == 0)
    ensures Parse(Text(v, radix, limbs), radix) == Some(v)
  {
    hide Parse, Digits, Hex, DigitsValue, HexBytes, BitLen, Pow2;
    var m := Abs(v);
    if radix != 16 {
      DigitsRoundTrip(m, radix);
      ParseDigits(v < 0, Digits(m, radix), radix, m);
    } else if limbs == 0 {
      EmptyDigits("");
      ParseDigits(false, "", 16, 0);
    } else {
      HexFits(m);
      HexValue(m, HexBytes(m));
      HexNoMinus(m, HexBytes(m));
      ParseDigits(v < 0, Hex(m, HexBytes(m)), 16, m);
    }
  }

  lemma HexNoMinus(m: nat, k: nat)
    requires AllDigits(Hex(m, k), 16)
    ensures Hex(m, k) == "" || Hex(m, k)[0] != '-'
  {
    hide Hex;
    if Hex(m, k) != "" { assert DigitOf(Hex(m, k)[0]) < 16; }
  }

  // ---------- the buffer estimate ----------

  /** The buffer size that write_string asks for. */
  function Estimate(bits: nat, radix: nat): nat {
    var n := if radix >= 4 then bits / 2 else bits;
    var n' := (if radix >= 16 then n / 2 else n) + 3;
    n' + n' % 2
  }

  lemma {:induction false} PowRadixMono(a: nat, b: nat, e: nat)
    requires a <= b
    ensures 0 <= Pow(a, e) <= Pow(b, e)
  {
    if e > 0 {
      PowRadixMono(a, b, e - 1);
      MulMono(a, b, Pow(a, e - 1));
      MulMono(Pow(a, e - 1), Pow(b, e - 1), b);
    }
  }

  /** Digits of a number with the given bit length: half as many from radix 4 on. */
  lemma DigitCount(m: nat, radix: nat)
    requires 2 <= radix <= 16
    ensures |Raw(m, radix)| <= if radix >= 4 then (BitLen(m) + 1) / 2 else BitLen(m)
  {
    hide Raw, Pow2, Pow, BitLen;
    var b := BitLen(m);
    BitLenBounds(m);
    Pow2Pow(1, b);
    Pow2Values();
    if radix >= 4 {
      var k := (b + 1) / 2;
      Pow2Pow(2, k);
      Pow2Mono(b, 2 * k);
      PowRadixMono(4, radix, k);
      RawLength(m, radix, k);
    } else {
      PowRadixMono(2, radix, b);
      RawLength(m, radix, b);
    }
  }

  /** The estimate covers sign, digits and terminator, in every radix. */
  lemma EstimateEnough(v: int, radix: nat, limbs: nat)
    requires 2 <= radix <= 16
    ensures |Text(v, radix, limbs)| + 1 <= Estimate(BitLen(Abs(v)), radix)
    ensures radix != 16 ==> 1 + |Digits(Abs(v), radix)| + 1 <= Estimate(BitLen(Abs(v)), radix)
    ensures radix == 16 ==> 1 + 2 * HexBytes(Abs(v)) + 1 <= Estimate(BitLen(Abs(v)), radix)
  {
    hide *;
    DigitsLength(Abs(v), radix);
    EstimateBound(BitLen(Abs(v)), radix);
    TextLength(v, radix, limbs);
  }

  lemma EstimateBound(bits: nat, radix: nat)
    requires 2 <= radix <= 16
    ensures radix != 16 ==>
      3 <= Estimate(bits, radix) && (if radix >= 4 then (bits + 1) / 2 else bits) + 2 <= Estimate(bits, radix)
    ensures radix == 16 ==> 2 + 2 * (if bits == 0 then 1 else (bits + 7) / 8) <= Estimate(bits, radix)
  {}

  lemma DigitsLength(m: nat, radix: nat)
    requires 2 <= radix <= 16
    ensures |Digits(m, radix)| <= 1 || |Digits(m, radix)| <= if radix >= 4 then (BitLen(m) + 1) / 2 else BitLen(m)
    ensures HexBytes(m) == if BitLen(m) == 0 then 1 else (BitLen(m) + 7) / 8
  {
    hide Raw, BitLen;
    DigitCount(m, radix);
  }

  lemma TextLength(v: int, radix: nat, limbs: nat)
    requires 2 <= radix <= 16
    ensures |Text(v, radix, limbs)| <= 1 + if radix != 16 then |Digits(Abs(v), radix)| else 2 * HexBytes(Abs(v))
  {
    hide Digits, HexBytes;
  }

  // ---------- writing ----------

  method PutDigit(buf: array<char>, k: nat, r: nat)
    requires k < buf.Length && r < 16
    modifies buf
    ensures buf[..] == old(buf[..])[k := DigitChar(r)]
  {
    if r < 10 {
      buf[k] := (0x30 + r) as char;
    } else {
      buf[k] := (0x41 + (r - 10)) as char;
    }
  }

  /** The digits of the nonnegative x at position p of the buffer. They are produced last
      digit first at the end of the buffer and then moved to the front. Uses up x. */
  method WriteHlp(x: Mpi, radix: nat, buf: array<char>, p: nat) returns (ret: Status, p': nat)
    requires x.Valid() && x.s == 1 && 2 <= radix <= 16 && p <= buf.Length
    modifies x, x.p, buf
    ensures ret == if |Digits(old(x.Mag()), radix)| > buf.Length - p then BufferTooSmall else Success
    ensures ret.Success? ==> p' == p + |Digits(old(x.Mag()), radix)|
    ensures ret.Success? ==> buf[p..p'] == Digits(old(x.Mag()), radix)
    ensures buf[..p] == old(buf[..p])
  {
    hide Nat, Pow2, BPow, Raw, DigitChar;
    ghost var m, head := x.Mag(), buf[..p];
    var pend: nat := buf.Length;
    var length: nat := 0;
    RawUnfold(m, radix);
    var more := true;
    while more
      invariant x.p == old(x.p) || fresh(x.p)
      invariant x.Valid() && x.s == 1 && p <= pend && length == buf.Length - pend && buf[..p] == head
      invariant more ==> length == 0 || x.Mag() > 0
      invariant !more ==> length > 0 && x.Mag() == 0
      invariant if length == 0 then x.Mag() == m else Digits(m, radix) == Raw(x.Mag(), radix) + buf[pend..]
      decreases x.Mag(), more
    {
      RawUnfold(x.Mag(), radix);
      if length >= buf.Length - p { return BufferTooSmall, p; }
      ghost var v, tail := x.Mag(), buf[pend..];
      var r: nat := DivideOut(x, radix);
      pend := pend - 1;
      PutDigit(buf, pend, r);
      assert buf[pend..] == [DigitChar(v % radix)] + tail;
      length := length + 1;
      var c := CmpInt(x, 0) by { WordFacts(); }
      more := c != 0;
      RawUnfold(x.Mag(), radix);
    }
    ghost var digits := buf[pend..];
    forall k | 0 <= k < length { buf[p + k] := buf[pend + k]; }
    assert buf[p..p + length] == digits;
    return Success, p + length;
  }

  /** r = x mod radix, x = x / radix. */
  method DivideOut(x: Mpi, radix: nat) returns (r: Limb)
    requires x.Valid() && x.s == 1 && 2 <= radix <= 16
    modifies x, x.p
    ensures x.p == old(x.p) || fresh(x.p)
    ensures x.Valid() && x.s == 1
    ensures r == old(x.Mag()) % radix && x.Mag() == old(x.Mag()) / radix
    ensures old(x.Mag()) > 0 ==> x.Mag() < old(x.Mag())
  {
    hide Nat, Pow2, BPow;
    WordFacts();
    ghost var m := x.Mag();
    DivModFacts(m, radix);
    if m > 0 { ShrinkQuotient2(m, radix); } else { ModSmall(0, radix); }
    var s, d := ModInt(x, radix);
    r := d;
    NonNegativeQuotient(m, radix);
    var ret := DivInt(x, null, x, radix);
  }

  lemma NonNegativeQuotient(m: nat, radix: nat)
    requires radix > 0
    ensures DivInPlace(m, radix) == m / radix && m / radix >= 0
  {
    QuotientTest(m, radix, 0);
  }

  lemma RawUnfold(m: nat, radix: nat)
    requires 2 <= radix <= 16
    ensures m > 0 ==> m / radix >= 0 && 0 <= m % radix < radix
    ensures m > 0 ==> Raw(m, radix) == Raw(m / radix, radix) + [DigitChar(m % radix)]
    ensures Raw(0, radix) == "" && Digits(0, radix) == [DigitChar(0)] && DigitChar(0) == '0'
    ensures 0 / radix == 0 && 0 % radix == 0
    ensures m > 0 ==> |Raw(m, radix)| > 0
  {
    ModSmall(0, radix);
    DivModFacts(m, radix);
    if m > 0 { ShrinkQuotient2(m, radix); }
  }

  /** The bytes of m above the lowest r, as they have been written so far: none while they
      are zero, and no leading zero byte except for the very last byte. */
  ghost predicate HexState(w: string, m: nat, r: nat)
  {
    |w| % 2 == 0 && w == Hex(m / Pow2(8 * r), |w| / 2)
    && (|w| == 0 ==> m / Pow2(8 * r) == 0)
    && (|w| > 0 ==> m / Pow2(8 * r) < Pow2(8 * (|w| / 2)))
    && (|w| > 0 ==> m / Pow2(8 * r) >= Pow2(8 * (|w| / 2 - 1)) || (r == 0 && |w| == 2))
  }

  lemma NextByteUp(m: nat, r: nat)
    ensures m / Pow2(8 * r) == 256 * (m / Pow2(8 * (r + 1))) + ByteOf(m, r)
  {
    hide Pow2;
    BytePow(r);
    DivDiv(m, Pow2(8 * r), 256);
    DivModFacts(m / Pow2(8 * r), 256);
  }

  lemma HexSkip(w: string, m: nat, r: nat)
    requires HexState(w, m, r + 1) && w == "" && ByteOf(m, r) == 0
    ensures HexState(w, m, r)
  {
    hide Pow2;
    NextByteUp(m, r);
  }

  lemma HexAppend(q: nat, c: nat, k: nat)
    requires c < 256
    ensures Hex(256 * q + c, k + 1) == Hex(q, k) + [DigitChar(c / 16), DigitChar(c % 16)]
  {
    hide *;
    var n := 256 * q + c;
    DivModUnique(n, q, c, 256);
    HexUnfold(n, k);
    assert n % 16 == c % 16;
  }

  lemma HexUnfold(n: nat, k: nat)
    ensures Hex(n, k + 1) == Hex(n / 256, k) + [DigitChar(n % 256 / 16), DigitChar(n % 16)]
  {}

  lemma HexStep(w: string, m: nat, r: nat, c: nat)
    requires HexState(w, m, r + 1) && c == ByteOf(m, r) && (w == "" ==> c != 0 || r == 0)
    ensures HexState(w + [DigitChar(c / 16), DigitChar(c % 16)], m, r)
  {
    hide Pow2, ByteOf, Hex, DigitChar;
    NextByteUp(m, r);
    Pow2Values();
    var k := |w| / 2;
    var q, n := m / Pow2(8 * (r + 1)), m / Pow2(8 * r);
    HexAppend(q, c, k);
    BytePow(k);
    if k > 0 { BytePow(k - 1); }
    var w' := w + [DigitChar(c / 16), DigitChar(c % 16)];
    assert |w'| / 2 == k + 1;
  }

  lemma HexWritten(w: string, m: nat, r: nat)
    requires HexState(w, m, r) && |w| > 0
    ensures |w| / 2 <= HexBytes(m)
    ensures r == 0 ==> w == Hex(m, HexBytes(m))
    ensures r > 0 ==> |w| + 2 <= 2 * HexBytes(m)
  {
    hide Pow2, BitLen, Hex;
    var k := |w| / 2;
    Pow2Values();
    BitLenBounds(m);
    DivModFacts(m, Pow2(8 * r));
    QuotientTest(m, Pow2(8 * r), Pow2(8 * (k - 1)));
    Pow2Add(8 * (k - 1), 8 * r);
    if m >= Pow2(8 * (k - 1 + r)) {
      Pow2Between(m, 8 * (k - 1 + r), BitLen(m));
    }
    if r == 0 {
      if m > 0 { Pow2Between(m, BitLen(m) - 1, 8 * k); }
    }
  }

  /** The hexadecimal digits of x from position p on, byte by byte from the top. */
  method WriteHex(x: Mpi, buf: array<char>, p: nat) returns (p': nat)
    requires p + 2 * HexBytes(x.Mag()) <= buf.Length
    modifies buf
    ensures p <= p' <= buf.Length && buf[..p] == old(buf[..p])
    ensures buf[p..p'] == if x.p.Length == 0 then "" else Hex(x.Mag(), HexBytes(x.Mag()))
  {
    hide Nat, Pow2, BPow, ByteOf, HexBytes, Hex, HexState;
    WordFacts();
    ghost var m, head := x.Mag(), buf[..p];
    var i, k := x.p.Length, 0;
    p' := p;
    HexStart(x.p[..]);
    assert buf[p..p'] == "";
    while i > 0
      invariant 0 <= i <= x.p.Length && p <= p' <= buf.Length && buf[..p] == head
      invariant i * ciL >= 0 && HexState(buf[p..p'], m, i * ciL) && (k == 0 <==> p' == p)
      invariant i == 0 && x.p.Length > 0 ==> k != 0
      invariant x.p.Length == 0 ==> k == 0
    {
      p', k := WriteLimbHex(x, buf, p, p', i, k);
      i := i - 1;
    }
    if x.p.Length > 0 { HexWritten(buf[p..p'], m, 0); }
  }

  lemma HexStart(s: seq<Limb>)
    ensures |s| * ciL >= 0 && HexState("", Nat(s), |s| * ciL)
  {
    hide Nat, BPow, Pow2;
    NatBound(s);
    BPowIsPow2(|s|);
    WordFacts();
    assert 8 * (|s| * ciL) == biL * |s| by { MulAssoc(8, ciL, |s|); }
    ModSmall(Nat(s), Pow2(8 * (|s| * ciL)));
  }

  /** The digits of limb i - 1. */
  method WriteLimbHex(x: Mpi, buf: array<char>, p: nat, p0: nat, i: nat, k0: int) returns (p': nat, k: int)
    requires 0 < i <= x.p.Length && p <= p0 <= buf.Length && p + 2 * HexBytes(x.Mag()) <= buf.Length
    requires i * ciL >= 0 && HexState(buf[p..p0], x.Mag(), i * ciL) && (k0 == 0 <==> p0 == p)
    modifies buf
    ensures p <= p' <= buf.Length && buf[..p] == old(buf[..p])
    ensures (i - 1) * ciL >= 0 && HexState(buf[p..p'], x.Mag(), (i - 1) * ciL) && (k == 0 <==> p' == p)
    ensures i == 1 ==> k != 0
  {
    hide Nat, Pow2, BPow, ByteOf, HexBytes, Hex, HexState;
    WordFacts();
    MulDist(i, 1, ciL);
    ghost var m, head := x.Mag(), buf[..p];
    p', k := p0, k0;
    var j: nat := ciL;
    while j > 0
      invariant 0 <= j <= ciL && p <= p' <= buf.Length && buf[..p] == head
      invariant HexState(buf[p..p'], m, (i - 1) * ciL + j) && (k == 0 <==> p' == p)
      invariant i == 1 && j == 0 ==> k != 0
    {
      BytePlace(i - 1, j - 1, x.p.Length);
      ghost var r := (i - 1) * ciL + j - 1;
      var c := GetByte(x, (i - 1) * ciL + j - 1);
      ghost var w := buf[p..p'];
      if c == 0 && k == 0 && i + j != 2 {
        HexSkip(w, m, r);
      } else {
        if k != 0 { HexWritten(w, m, r + 1); } else { OneHexByte(m); }
        HexStep(w, m, r, c) by { FirstHexByte(i, j, r); }
        PutHexByte(buf, p, p', c);
        p' := p' + 2;
        k := 1;
      }
      j := j - 1;
    }
  }

  /** Two digits behind those that stand from p to k. */
  method PutHexByte(buf: array<char>, p: nat, k: nat, c: nat)
    requires p <= k && k + 2 <= buf.Length && c < 256
    modifies buf
    ensures buf[p..k + 2] == old(buf[p..k]) + [DigitChar(c / 16), DigitChar(c % 16)]
    ensures buf[..p] == old(buf[..p])
  {
    hide DigitChar;
    buf[k] := DigitChar(c / 16);
    buf[k + 1] := DigitChar(c % 16);
  }

  lemma BytePlace(i: nat, j: nat, n: nat)
    requires i < n && j < ciL
    ensures 0 <= i * ciL + j < n * ciL
  {
    MulMono(i + 1, n, ciL);
    MulDist(i, 1, ciL);
    MulMono(0, i, ciL);
  }

  lemma FirstHexByte(i: nat, j: nat, r: int)
    requires i > 0 && j > 0 && r == (i - 1) * ciL + j - 1
    ensures i + j == 2 ==> r == 0
  {}

  lemma OneHexByte(m: nat)
    ensures HexBytes(m) >= 1
  {}

  /** Export to a buffer. Refused exactly when the buffer is smaller than the estimate; then
      olen says how much is needed. */
  method WriteString(x: Mpi, radix: int, buf: array<char>) returns (ret: Status, olen: nat)
    requires x.Valid()
    modifies buf
    ensures ret == if !RadixOk(radix) then BadInputData
                   else if buf.Length < Estimate(BitLen(x.Mag()), radix) then BufferTooSmall else Success
    ensures ret == BufferTooSmall ==> olen == Estimate(BitLen(x.Mag()), radix)
    ensures !ret.Success? ==> buf[..] == old(buf[..])
    ensures ret.Success? ==> 0 < olen <= buf.Length && buf[olen - 1] == '\0'
    ensures ret.Success? ==> buf[..olen - 1] == Text(x.Val(), radix, x.p.Length)
    ensures ret.Success? ==> Parse(buf[..olen - 1], radix) == Some(x.Val())
  {
    hide Nat, Pow2, BPow, BitLen, HexBytes, Hex, Digits, Parse, Text;
    olen := 0;
    if radix < 2 || radix > 16 { return BadInputData, olen; }
    var n := Bitlen(x);
    if radix >= 4 { n := n / 2; }
    if radix >= 16 { n := n / 2; }
    n := n + 3;
    n := n + n % 2;
    if buf.Length < n { return BufferTooSmall, n; }
    ghost var v, limbs := x.Val(), x.p.Length;
    EstimateEnough(v, radix, limbs);
    NoLimbsIsZero(x);
    TextRoundTrip(v, radix, limbs);
    var p := WriteDigits(x, radix, buf);
    Terminate(buf, p);
    return Success, p + 1;
  }

  method Terminate(buf: array<char>, p: nat)
    requires p < buf.Length
    modifies buf
    ensures buf[p] == '\0' && buf[..p] == old(buf[..p])
  {
    buf[p] := '\0';
  }

  /** Sign and digits. */
  method WriteDigits(x: Mpi, radix: nat, buf: array<char>) returns (p: nat)
    requires x.Valid() && 2 <= radix <= 16 && buf.Length > 0
    requires 1 + |Text(x.Val(), radix, x.p.Length)| <= buf.Length
    requires radix != 16 ==> 1 + |Digits(x.Mag(), radix)| < buf.Length
    requires radix == 16 ==> 1 + 2 * HexBytes(x.Mag()) < buf.Length
    modifies buf
    ensures p < buf.Length && buf[..p] == Text(x.Val(), radix, x.p.Length)
  {
    hide Nat, Pow2, BPow, BitLen, HexBytes, Hex, Digits;
    p := 0;
    if x.s == -1 {
      buf[p] := '-';
      p := p + 1;
    }
    ghost var sign := buf[..p];
    assert sign == if x.Val() < 0 then "-" else "";
    if radix == 16 {
      p := WriteHex(x, buf, p);
    } else {
      p := WriteRadix(x, radix, buf, p);
    }
    assert buf[..p] == buf[..|sign|] + buf[|sign|..p];
  }

  /** The digits of |x|, from a copy that is used up. */
  method WriteRadix(x: Mpi, radix: nat, buf: array<char>, p: nat) returns (p': nat)
    requires x.Valid() && 2 <= radix < 16 && p + |Digits(x.Mag(), radix)| <= buf.Length
    modifies buf
    ensures p' == p + |Digits(x.Mag(), radix)| && buf[..p] == old(buf[..p])
    ensures buf[p..p'] == Digits(x.Mag(), radix)
  {
    hide Nat, Pow2, BPow, Digits;
    var t := new Mpi();
    Copy(t, x);
    if t.s == -1 { t.s := 1; }
    var ret;
    ret, p' := WriteHlp(t, radix, buf, p);
  }

  lemma NoLimbsIsZero(x: Mpi)
    ensures x.p.Length == 0 ==> x.Mag() == 0
  {
    NatEmpty();
    assert x.p.Length == 0 ==> x.p[..] == [];
  }
}
