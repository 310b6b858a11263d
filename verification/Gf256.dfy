/** The field GF(2^8) of AES: multiplication, and 3 as a generator of its nonzero elements. */
module Gf256 {
  import opened Arith
  import opened Divisors

  /** Addition of the field. */
  function Add(a: bv8, b: bv8): bv8 { a ^ b }

  /** Multiplication by x modulo x^8 + x^4 + x^3 + x + 1. */
  function Xtime(b: bv8): bv8 { (b << 1) ^ (0x1B & (0 - (b >> 7))) }

  lemma XtimeIs(b: bv8)
    ensures Xtime(b) == (b << 1) ^ (if b & 0x80 != 0 then 0x1B else 0)
  {}

  /** Multiplication by 3. */
  function Times3(b: bv8): bv8 { Add(b, Xtime(b)) }

  /** a if the lowest bit of m is set, else 0. */
  function Select(m: bv8, a: bv8): bv8 { a & (0 - (m & 1)) }

  function Half(m: bv8): bv8 { m >> 1 }

  /** The sum of a times x^i over the bits i < n of b. */
  function MulBits(a: bv8, b: bv8, n: nat): bv8
    decreases n
  {
    if n == 0 then 0 else Add(Select(b, a), MulBits(Xtime(a), Half(b), n - 1))
  }

  /** The product in the field. */
  function Mul(a: bv8, b: bv8): bv8 { MulBits(a, b, 8) }

  // ---------- addition ----------

  lemma AddLaws(a: bv8, b: bv8, c: bv8)
    ensures Add(a, b) == Add(b, a) && Add(Add(a, b), c) == Add(a, Add(b, c))
    ensures Add(a, a) == 0 && Add(a, 0) == a && Add(0, a) == a
  {}

  lemma AddCancel(a: bv8, b: bv8)
    ensures Add(Add(a, b), b) == a
  {}

  lemma AddRegroup(a: bv8, b: bv8, c: bv8, d: bv8)
    ensures Add(Add(a, b), Add(c, d)) == Add(Add(a, c), Add(b, d))
  {
    hide Add;
    AddLaws(a, b, Add(c, d));
    AddLaws(b, c, d);
    AddLaws(c, b, d);
    AddLaws(a, c, Add(b, d));
  }

  // ---------- linearity ----------

  lemma XtimeLinear(a: bv8, b: bv8)
    ensures Xtime(Add(a, b)) == Add(Xtime(a), Xtime(b))
  {}

  lemma XtimeZero()
    ensures Xtime(0) == 0
  {}

  lemma SelectAdd(m: bv8, a: bv8, b: bv8)
    ensures Select(m, Add(a, b)) == Add(Select(m, a), Select(m, b))
  {
    hide Select, Add;
    SelectIs(m, Add(a, b));
    SelectIs(m, a);
    SelectIs(m, b);
    AddLaws(0, 0, 0);
  }

  lemma SelectIs(m: bv8, a: bv8)
    ensures m & 1 == 0 || m & 1 == 1
    ensures Select(m, a) == if m & 1 == 1 then a else 0
  {}

  lemma SelectMask(m: bv8, k: bv8, a: bv8)
    ensures Select(Add(m, k), a) == Add(Select(m, a), Select(k, a))
  {}

  lemma SelectXtime(m: bv8, a: bv8)
    ensures Select(m, Xtime(a)) == Xtime(Select(m, a))
  {}

  lemma HalfAdd(a: bv8, b: bv8)
    ensures Half(Add(a, b)) == Add(Half(a), Half(b))
  {}

  lemma {:induction false} MulBitsAdd(a: bv8, c: bv8, b: bv8, n: nat)
    ensures MulBits(Add(a, c), b, n) == Add(MulBits(a, b, n), MulBits(c, b, n))
    decreases n
  {
    hide Xtime, Select, Add, Half;
    AddLaws(0, 0, 0);
    if n > 0 {
      XtimeLinear(a, c);
      SelectAdd(b, a, c);
      MulBitsAdd(Xtime(a), Xtime(c), Half(b), n - 1);
      AddRegroup(Select(b, a), Select(b, c), MulBits(Xtime(a), Half(b), n - 1), MulBits(Xtime(c), Half(b), n - 1));
    }
  }

  lemma {:induction false} MulBitsMask(a: bv8, b: bv8, d: bv8, n: nat)
    ensures MulBits(a, Add(b, d), n) == Add(MulBits(a, b, n), MulBits(a, d, n))
    decreases n
  {
    hide Xtime, Select, Add, Half;
    AddLaws(0, 0, 0);
    if n > 0 {
      HalfAdd(b, d);
      SelectMask(b, d, a);
      MulBitsMask(Xtime(a), Half(b), Half(d), n - 1);
      AddRegroup(Select(b, a), Select(d, a), MulBits(Xtime(a), Half(b), n - 1), MulBits(Xtime(a), Half(d), n - 1));
    }
  }

  lemma {:induction false} MulBitsXtime(a: bv8, b: bv8, n: nat)
    ensures MulBits(Xtime(a), b, n) == Xtime(MulBits(a, b, n))
    decreases n
  {
    hide Xtime, Select, Add, Half;
    XtimeZero();
    if n > 0 {
      SelectXtime(b, a);
      MulBitsXtime(Xtime(a), Half(b), n - 1);
      XtimeLinear(Select(b, a), MulBits(Xtime(a), Half(b), n - 1));
    }
  }

  lemma MulLinear(a: bv8, c: bv8, b: bv8, d: bv8)
    ensures Mul(Add(a, c), b) == Add(Mul(a, b), Mul(c, b))
    ensures Mul(a, Add(b, d)) == Add(Mul(a, b), Mul(a, d))
  {
    hide MulBits, Add;
    MulBitsAdd(a, c, b, 8);
    MulBitsMask(a, b, d, 8);
  }

  lemma MulTimes3(a: bv8, b: bv8)
    ensures Mul(Times3(a), b) == Times3(Mul(a, b))
    ensures Mul(Xtime(a), b) == Xtime(Mul(a, b))
  {
    hide Xtime, MulBits, Add;
    MulBitsXtime(a, b, 8);
    MulBitsAdd(a, Xtime(a), b, 8);
  }

  lemma PowersOfX()
    ensures Xtime(1) == 2 && Xtime(2) == 4 && Xtime(4) == 8 && Xtime(8) == 16
    ensures Xtime(16) == 32 && Xtime(32) == 64 && Xtime(64) == 128
  {}

  lemma HalfChain(b: bv8)
    ensures Half(b) == b >> 1 && Half(b >> 1) == b >> 2 && Half(b >> 2) == b >> 3 && Half(b >> 3) == b >> 4
    ensures Half(b >> 4) == b >> 5 && Half(b >> 5) == b >> 6 && Half(b >> 6) == b >> 7
  {}

  lemma HighBits(b: bv8)
    ensures Add(Select(b >> 7, 128), 0) == b & 0x80
    ensures Add(Select(b >> 6, 64), b & 0x80) == b & 0xC0
    ensures Add(Select(b >> 5, 32), b & 0xC0) == b & 0xE0
    ensures Add(Select(b >> 4, 16), b & 0xE0) == b & 0xF0
    ensures Add(Select(b >> 3, 8), b & 0xF0) == b & 0xF8
    ensures Add(Select(b >> 2, 4), b & 0xF8) == b & 0xFC
    ensures Add(Select(b >> 1, 2), b & 0xFC) == b & 0xFE
    ensures Add(Select(b, 1), b & 0xFE) == b
  {}

  lemma MulOne(b: bv8)
    ensures Mul(1, b) == b
  {
    hide Xtime, Add, Half, Select;
    PowersOfX();
    HalfChain(b);
    HighBits(b);
    assert MulBits(128, b >> 7, 1) == Add(Select(b >> 7, 128), 0);
    assert MulBits(64, b >> 6, 2) == b & 0xC0;
    assert MulBits(32, b >> 5, 3) == b & 0xE0;
    assert MulBits(16, b >> 4, 4) == b & 0xF0;
    assert MulBits(8, b >> 3, 5) == b & 0xF8;
    assert MulBits(4, b >> 2, 6) == b & 0xFC;
    assert MulBits(2, b >> 1, 7) == b & 0xFE;
  }

  // ---------- the generator ----------

  function Power3(i: nat): bv8 {
    if i == 0 then 1 else Times3(Power3(i - 1))
  }

  lemma {:induction false} Power3Add(i: nat, j: nat)
    ensures Power3(i + j) == Mul(Power3(i), Power3(j))
  {
    hide Times3, Mul;
    if i == 0 {
      MulOne(Power3(j));
    } else {
      Power3Add(i - 1, j);
      MulTimes3(Power3(i - 1), Power3(j));
    }
  }

  lemma Product2() ensures Mul(3, 3) == 5 {}
  lemma Product4() ensures Mul(5, 5) == 17 {}
  lemma Product5() ensures Mul(17, 3) == 51 {}
  lemma Product10() ensures Mul(51, 51) == 114 {}
  lemma Product15() ensures Mul(114, 51) == 53 {}
  lemma Product30() ensures Mul(53, 53) == 102 {}
  lemma Product60() ensures Mul(102, 102) == 211 {}
  lemma Product75() ensures Mul(211, 53) == 8 {}
  lemma Product85() ensures Mul(8, 114) == 189 {}
  lemma Product17() ensures Mul(53, 5) == 225 {}
  lemma Product34() ensures Mul(225, 225) == 92 {}
  lemma Product51() ensures Mul(92, 225) == 12 {}
  lemma Product170() ensures Mul(189, 189) == 188 {}
  lemma Product255() ensures Mul(188, 189) == 1 {}

  /** The powers that decide the order of 3: the maximal proper divisors of 255, and 255. */
  lemma Power3Values()
    ensures Power3(15) == 53
    ensures Power3(51) == 12
    ensures Power3(85) == 189
    ensures Power3(255) == 1
  {
    hide *;
    FirstPower();
    Power3Add(1, 1);
    Product2();
    Power3Add(2, 2);
    Product4();
    Power3Add(4, 1);
    Product5();
    Power3Add(5, 5);
    Product10();
    Power3Add(10, 5);
    Product15();
    Power3Add(15, 15);
    Product30();
    Power3Add(30, 30);
    Product60();
    Power3Add(60, 15);
    Product75();
    Power3Add(75, 10);
    Product85();
    Power3Add(15, 2);
    Product17();
    Power3Add(17, 17);
    Product34();
    Power3Add(34, 17);
    Product51();
    Power3Add(85, 85);
    Product170();
    Power3Add(170, 85);
    Product255();
  }

  lemma FirstPower()
    ensures Power3(0) == 1 && Power3(1) == 3
  {}

  lemma Power3Period(i: nat)
    ensures Power3(255 + i) == Power3(i)
  {
    hide Power3, Mul;
    Power3Values();
    Power3Add(255, i);
    MulOne(Power3(i));
  }

  lemma {:induction false} Power3Multiple(n: nat, k: nat)
    requires Power3(n) == 1
    ensures n * k >= 0 && Power3(n * k) == 1
  {
    hide Power3, Mul;
    if k == 0 {
      FirstPower();
    } else {
      Power3Multiple(n, k - 1);
      assert n * k == n + n * (k - 1);
      Power3Add(n, n * (k - 1));
      MulOne(1);
    }
  }

  /** A proper divisor of 255 divides 85, 51 or 15. */
  lemma ProperDivisor(g: nat, h: nat)
    requires g * h == 255 && 0 < g < 255
    ensures 85 % g == 0 || 51 % g == 0 || 15 % g == 0
  {
    if g > 15 {
      if h >= 16 { MulMono(16, g, h); MulMono(16, h, 16); }
      SmallCofactor(h, g);
    } else {
      SmallCofactor(g, h);
    }
  }

  lemma SmallCofactor(h: nat, g: nat)
    requires g * h == 255 && 0 < h <= 15
    ensures h == 1 || (h == 3 && g == 85) || (h == 5 && g == 51) || (h == 15 && g == 17)
  {
    assert h == 1 || h == 2 || h == 3 || h == 4 || h == 5 || h == 6 || h == 7 || h == 8 || h == 9
      || h == 10 || h == 11 || h == 12 || h == 13 || h == 14 || h == 15;
  }

  lemma Power3OfMultiple(g: nat, n: nat)
    requires g > 0 && n % g == 0 && Power3(g) == 1
    ensures Power3(n) == 1
  {
    hide Power3;
    DivModFacts(n, g);
    QuotientTest(n, g, 0);
    Power3Multiple(g, n / g);
  }

  lemma GcdOfProper(d: nat)
    requires 0 < d < 255
    ensures var g := Gcd(d, 255); 0 < g < 255 && (85 % g == 0 || 51 % g == 0 || 15 % g == 0)
  {
    hide Gcd;
    var g := Gcd(d, 255);
    GcdPositive(d, 255);
    GcdDivides(d, 255);
    DividesLe(g, d);
    var h :| 255 == h * g;
    if h <= 0 { MulMono(h, 0, g); }
    ProperDivisor(g, h);
  }

  /** 3 has order 255. */
  lemma Power3Order(d: nat)
    requires 0 < d < 255
    ensures Power3(d) != 1
  {
    hide Power3, Gcd;
    if Power3(d) == 1 {
      var g := Gcd(d, 255);
      GcdOfProper(d);
      GcdPowerIsOne(d);
      Power3Values();
      if 85 % g == 0 {
        Power3OfMultiple(g, 85);
      } else if 51 % g == 0 {
        Power3OfMultiple(g, 51);
      } else {
        Power3OfMultiple(g, 15);
      }
    }
  }

  /** If 3^d is 1, so is 3 to the gcd of d and 255. */
  lemma GcdPowerIsOne(d: nat)
    requires 0 < d < 255 && Power3(d) == 1
    ensures Power3(Gcd(d, 255)) == 1
  {
    hide Power3, Mul, Gcd;
    var g := Gcd(d, 255);
    GcdPositive(d, 255);
    GcdDivides(d, 255);
    DividesLe(g, d);
    var x, y := Bezout(d, 255);
    var x' := x % 255;
    DivModFacts(x, 255);
    var k := d * (x / 255) + y;
    ReduceBezout(d, x, x / 255, x', y, g);
    assert d * x' == g - 255 * k;
    if x' == 0 { ModSmall(g, 255); DivModUnique(g, k, 0, 255); }
    MulMono(1, x', d);
    Power3Multiple(d, x');
    Power3Values();
    Power3Multiple(255, -k);
    Power3Add(255 * -k, g);
    MulOne(Power3(g));
  }

  lemma ReduceBezout(d: int, x: int, q: int, r: int, y: int, g: int)
    requires d * x + 255 * y == g && x == 255 * q + r
    ensures d * r == g - 255 * (d * q + y)
  {
    MulAssoc(d, 255, q);
    MulAssoc(255, d, q);
    assert d * x == d * (255 * q) + d * r;
    assert d * (255 * q) == 255 * (d * q);
  }

  lemma Power3Injective(i: nat, j: nat)
    requires i < j < 255
    ensures Power3(i) != Power3(j)
  {
    hide Power3, Mul;
    if Power3(i) == Power3(j) {
      Power3Add(i, 255 - i);
      Power3Add(j, 255 - i);
      Power3Period(j - i);
      Power3Values();
      Power3Order(j - i);
    }
  }

  lemma Power3NonZero(i: nat)
    ensures Power3(i) != 0
  {
    hide Power3, Mul;
    Power3Values();
    Power3Multiple(255, i);
    Power3Add(i, 255 * i - i);
    MulZero(Power3(255 * i - i));
    if i > 0 { MulMono(1, 255, i); }
  }

  lemma MulZero(b: bv8)
    ensures Mul(0, b) == 0
  {
    hide Add, Mul;
    MulLinear(0, 0, b, b);
    AddLaws(0, 0, 0);
    AddLaws(Mul(0, b), Mul(0, b), 0);
  }

  // ---------- every nonzero byte is a power of 3 ----------

  /** The first n powers, as numbers. */
  function Powers(n: nat): set<nat> {
    if n == 0 then {} else Powers(n - 1) + {Power3(n - 1) as nat}
  }

  lemma {:induction false} PowersMember(n: nat, v: nat)
    ensures v in Powers(n) ==> exists i :: 0 <= i < n && Power3(i) as nat == v
  {
    if n > 0 && v in Powers(n) {
      if v in Powers(n - 1) {
        PowersMember(n - 1, v);
        var i :| 0 <= i < n - 1 && Power3(i) as nat == v;
      } else {
        assert Power3(n - 1) as nat == v;
      }
    }
  }

  lemma {:induction false} PowersCount(n: nat)
    requires n <= 255
    ensures |Powers(n)| == n
  {
    hide Power3;
    if n > 0 {
      PowersCount(n - 1);
      var v := Power3(n - 1) as nat;
      PowersMember(n - 1, v);
      if v in Powers(n - 1) {
        var i :| 0 <= i < n - 1 && Power3(i) as nat == v;
        Power3Injective(i, n - 1);
      }
    }
  }

  /** The numbers from 1 to n. */
  function UpTo(n: nat): set<nat> {
    if n == 0 then {} else UpTo(n - 1) + {n}
  }

  lemma {:induction false} UpToMember(n: nat, v: nat)
    ensures v in UpTo(n) <==> 1 <= v <= n
  {
    if n > 0 { UpToMember(n - 1, v); }
  }

  lemma {:induction false} UpToCount(n: nat)
    ensures |UpTo(n)| == n
  {
    if n > 0 {
      UpToCount(n - 1);
      UpToMember(n - 1, n);
    }
  }

  /** By counting, the 255 powers are all the nonzero bytes. */
  lemma LogExists(x: bv8)
    requires x != 0
    ensures exists i :: 0 <= i < 255 && Power3(i) == x
  {
    hide Power3;
    var s, t := Powers(255), UpTo(255);
    PowersCount(255);
    UpToCount(255);
    forall v | v in s ensures v in t {
      PowersMember(255, v);
      var i :| 0 <= i < 255 && Power3(i) as nat == v;
      Power3NonZero(i);
      ByteIsZero(Power3(i));
      UpToMember(255, v);
    }
    var n := x as nat;
    ByteIsZero(x);
    UpToMember(255, n);
    if n !in s {
      SubsetCount(s, t - {n});
      assert false;
    }
    PowersMember(255, n);
    var i :| 0 <= i < 255 && Power3(i) as nat == n;
    assert Power3(i) == (n as bv8) && x == (n as bv8);
  }

  lemma ByteIsZero(b: bv8)
    ensures b as nat == 0 <==> b == 0
    ensures (b as nat) as bv8 == b
  {}

  lemma {:induction false} SubsetCount(s: set<nat>, t: set<nat>)
    requires s <= t
    ensures |s| <= |t|
    decreases |s|
  {
    if s != {} {
      var x :| x in s;
      SubsetCount(s - {x}, t - {x});
    }
  }

  /** The logarithm to base 3. */
  ghost function Log(x: bv8): (i: nat)
    requires x != 0
    ensures i < 255 && Power3(i) == x
  {
    LogExists(x);
    var i :| 0 <= i < 255 && Power3(i) == x;
    i
  }

  lemma LogUnique(x: bv8, i: nat)
    requires i < 255 && Power3(i) == x
    ensures x != 0 && Log(x) == i
  {
    hide Power3;
    Power3NonZero(i);
    var j := Log(x);
    if i < j { Power3Injective(i, j); }
    if j < i { Power3Injective(j, i); }
  }

  /** The multiplicative inverse, and 0 for 0. */
  ghost function Inverse(x: bv8): bv8 {
    if x == 0 then 0 else Power3(255 - Log(x))
  }

  lemma InverseCorrect(x: bv8)
    requires x != 0
    ensures Mul(x, Inverse(x)) == 1 && Inverse(x) != 0
  {
    hide Power3, Mul;
    Power3Values();
    Power3Add(Log(x), 255 - Log(x));
    Power3NonZero(255 - Log(x));
  }

  /** Nothing else is an inverse. */
  lemma InverseUnique(x: bv8, y: bv8)
    requires Mul(x, y) == 1
    ensures y == Inverse(x)
  {
    hide Power3, Mul;
    Power3Values();
    if x == 0 {
      MulZero(y);
    } else if y == 0 {
      MulLinear(x, x, 0, 0);
    } else {
      var i, j := Log(x), Log(y);
      Power3Add(i, j);
      if 0 < i + j < 255 { Power3Order(i + j); }
      if i + j > 255 {
        Power3Period(i + j - 255);
        Power3Order(i + j - 255);
      }
    }
  }

  lemma InverseInjective(x: bv8, y: bv8)
    requires Inverse(x) == Inverse(y)
    ensures x == y
  {
    hide Power3, Mul;
    if x != 0 { InverseCorrect(x); }
    if y != 0 { InverseCorrect(y); }
    if x != 0 && y != 0 {
      var i, j := Log(x), Log(y);
      Power3Values();
      FirstPower();
      SameInverse(i, j);
    }
  }

  lemma SameInverse(i: nat, j: nat)
    requires i < 255 && j < 255 && Power3(255 - i) == Power3(255 - j)
    ensures i == j
  {
    hide Power3;
    Power3Period(0);
    if 0 < i < j { Power3Injective(255 - j, 255 - i); }
    if 0 < j < i { Power3Injective(255 - i, 255 - j); }
    if i == 0 && j > 0 { Power3Injective(0, 255 - j); }
    if j == 0 && i > 0 { Power3Injective(0, 255 - i); }
  }
}
