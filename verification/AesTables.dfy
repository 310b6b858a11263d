/** The tables that aes_gen_tables builds. A 32-bit table entry is modelled as its four bytes,
    lowest first; the shifts that place bytes in a word become positions. */
module AesTables {
  import opened Gf256

  datatype Word = Word(b0: bv8, b1: bv8, b2: bv8, b3: bv8)

  function Xor(a: Word, b: Word): Word {
    Word(Add(a.b0, b.b0), Add(a.b1, b.b1), Add(a.b2, b.b2), Add(a.b3, b.b3))
  }

  /** ROTL8: every byte moves up by one. */
  function Rotl8(w: Word): Word { Word(w.b3, w.b0, w.b1, w.b2) }

  function Idx(b: bv8): (i: nat)
    ensures i < 256
  {
    b as nat
  }

  lemma IdxInjective(a: bv8, b: bv8)
    requires Idx(a) == Idx(b)
    ensures a == b
  {
    ByteIsZero(a);
    ByteIsZero(b);
  }

  lemma IdxOf(i: nat)
    requires i < 256
    ensures Idx(i as bv8) == i && (i as bv8 == 0 <==> i == 0) && (i as bv8 == 1 <==> i == 1)
  {}

  // ---------- the S-box ----------

  function Rotl1(y: bv8): bv8 { (y << 1) | (y >> 7) }

  /** The affine map, as the code computes it by repeated rotation. */
  function Affine(x: bv8): bv8 {
    var r1 := Rotl1(x);
    var r2 := Rotl1(r1);
    var r3 := Rotl1(r2);
    var r4 := Rotl1(r3);
    Add(Add(Add(Add(x, r1), r2), r3), Add(r4, 0x63))
  }

  function Unrotate(y: bv8): bv8 {
    ((y << 1) | (y >> 7)) ^ ((y << 3) | (y >> 5)) ^ ((y << 6) | (y >> 2)) ^ 0x05
  }

  lemma AffineInvertible(x: bv8)
    ensures Unrotate(Affine(x)) == x
  {}

  /** Bit i of a byte. */
  function BitAt(x: bv8, i: nat): bv8
    requires i < 8
  {
    (x >> i) & 1
  }

  /** Bit i of the affine map in section 5.1.1 of FIPS 197: the sum of five bits and one of 0x63. */
  function FipsBit(x: bv8, i: nat): bv8
    requires i < 8
  {
    BitAt(x, i) ^ BitAt(x, (i + 4) % 8) ^ BitAt(x, (i + 5) % 8) ^ BitAt(x, (i + 6) % 8)
    ^ BitAt(x, (i + 7) % 8) ^ BitAt(0x63, i)
  }

  lemma AffineLowBits(x: bv8)
    ensures BitAt(Affine(x), 0) == FipsBit(x, 0) && BitAt(Affine(x), 1) == FipsBit(x, 1)
    ensures BitAt(Affine(x), 2) == FipsBit(x, 2) && BitAt(Affine(x), 3) == FipsBit(x, 3)
  {}

  lemma AffineHighBits(x: bv8)
    ensures BitAt(Affine(x), 4) == FipsBit(x, 4) && BitAt(Affine(x), 5) == FipsBit(x, 5)
    ensures BitAt(Affine(x), 6) == FipsBit(x, 6) && BitAt(Affine(x), 7) == FipsBit(x, 7)
  {}

  /** The rotations of the code compute it, bit by bit. */
  lemma AffineBits(x: bv8, i: nat)
    requires i < 8
    ensures BitAt(Affine(x), i) == FipsBit(x, i)
  {
    hide Affine, BitAt, FipsBit;
    AffineLowBits(x);
    AffineHighBits(x);
    assert i == 0 || i == 1 || i == 2 || i == 3 || i == 4 || i == 5 || i == 6 || i == 7;
  }

  /** Section 5.1.1 of FIPS 197: the inverse in the field, then the affine map. */
  ghost function Sbox(x: bv8): bv8 { Affine(Inverse(x)) }

  lemma SboxInjective(x: bv8, y: bv8)
    requires Sbox(x) == Sbox(y)
    ensures x == y
  {
    hide Affine, Inverse, Unrotate;
    AffineInvertible(Inverse(x));
    AffineInvertible(Inverse(y));
    InverseInjective(x, y);
  }

  // ---------- columns ----------

  /** One S-box output s in row 0 of MixColumns: the entry of the forward table. */
  function Forward0(s: bv8): Word { Word(Xtime(s), s, s, Add(Xtime(s), s)) }

  /** One byte x in row 0 of the inverse of MixColumns. */
  function Reverse0(x: bv8): Word { Word(Mul(0x0E, x), Mul(0x09, x), Mul(0x0D, x), Mul(0x0B, x)) }

  // ---------- the tables ----------

  class Tables {
    const fsb: array<bv8>
    const rsb: array<bv8>
    const ft0: array<Word>
    const ft1: array<Word>
    const ft2: array<Word>
    const ft3: array<Word>
    const rt0: array<Word>
    const rt1: array<Word>
    const rt2: array<Word>
    const rt3: array<Word>
    const rcon: array<bv8>

    predicate Shape() {
      fsb.Length == rsb.Length == 256 && ft0.Length == ft1.Length == ft2.Length == ft3.Length == 256
      && rt0.Length == rt1.Length == rt2.Length == rt3.Length == 256 && rcon.Length == 10
      && fsb != rsb && fsb != rcon && rsb != rcon
      && ft0 !in {ft1, ft2, ft3, rt0, rt1, rt2, rt3} && ft1 !in {ft2, ft3, rt0, rt1, rt2, rt3}
      && ft2 !in {ft3, rt0, rt1, rt2, rt3} && ft3 !in {rt0, rt1, rt2, rt3}
      && rt0 !in {rt1, rt2, rt3} && rt1 !in {rt2, rt3} && rt2 != rt3
      && {fsb as object, rsb, rcon} !! {ft0 as object, ft1, ft2, ft3, rt0, rt1, rt2, rt3}
    }

    /** The S-box and its inverse. */
    ghost predicate Boxes()
      reads fsb, rsb
    {
      Shape() && forall x: bv8 :: fsb[Idx(x)] == Sbox(x) && rsb[Idx(Sbox(x))] == x
    }

    ghost predicate ForwardEntry(i: nat)
      requires Shape() && i < 256
      reads fsb, ft0, ft1, ft2, ft3
    {
      ft0[i] == Forward0(fsb[i]) && ft1[i] == Rotl8(ft0[i]) && ft2[i] == Rotl8(ft1[i]) && ft3[i] == Rotl8(ft2[i])
    }

    ghost predicate ReverseEntry(i: nat)
      requires Shape() && i < 256
      reads rsb, rt0, rt1, rt2, rt3
    {
      rt0[i] == Reverse0(rsb[i]) && rt1[i] == Rotl8(rt0[i]) && rt2[i] == Rotl8(rt1[i]) && rt3[i] == Rotl8(rt2[i])
    }

    /** All tables are as generated. */
    ghost predicate Good()
      reads fsb, rsb, ft0, ft1, ft2, ft3, rt0, rt1, rt2, rt3, rcon
    {
      Boxes() && (forall i :: 0 <= i < 256 ==> ForwardEntry(i) && ReverseEntry(i))
      && forall i :: 0 <= i < 10 ==> rcon[i] == Rcon(i)
    }

    constructor ()
      ensures Shape() && fresh(fsb) && fresh(rsb) && fresh(rcon)
      ensures fresh(ft0) && fresh(ft1) && fresh(ft2) && fresh(ft3)
      ensures fresh(rt0) && fresh(rt1) && fresh(rt2) && fresh(rt3)
    {
      fsb := new bv8[256];
      rsb := new bv8[256];
      rcon := new bv8[10];
      ft0 := new Word[256](_ => Word(0, 0, 0, 0));
      ft1 := new Word[256](_ => Word(0, 0, 0, 0));
      ft2 := new Word[256](_ => Word(0, 0, 0, 0));
      ft3 := new Word[256](_ => Word(0, 0, 0, 0));
      rt0 := new Word[256](_ => Word(0, 0, 0, 0));
      rt1 := new Word[256](_ => Word(0, 0, 0, 0));
      rt2 := new Word[256](_ => Word(0, 0, 0, 0));
      rt3 := new Word[256](_ => Word(0, 0, 0, 0));
    }
  }

  /** The round constants: powers of x. */
  function Rcon(i: nat): bv8 {
    if i == 0 then 1 else Xtime(Rcon(i - 1))
  }

  // ---------- powers and logarithms ----------

  /** The logarithm table: 255 for 1, because the last step of the loop writes it again. */
  ghost predicate LogTable(log: seq<nat>) {
    |log| == 256 && log[1] == 255 && forall x: bv8 :: x != 0 && x != 1 ==> log[Idx(x)] == Log(x)
  }

  ghost predicate PowTable(pow: seq<bv8>) {
    |pow| == 256 && forall i :: 0 <= i < 256 ==> pow[i] == Power3(i)
  }

  /** The entries written for the exponents below n. */
  ghost predicate LogsBelow(log: seq<nat>, n: nat)
    requires |log| == 256
  {
    forall i :: 0 <= i < n ==> log[Idx(Power3(i))] == i
  }

  lemma NextLog(log: seq<nat>, n: nat)
    requires |log| == 256 && n < 255 && LogsBelow(log, n)
    ensures LogsBelow(log[Idx(Power3(n)) := n], n + 1)
  {
    hide Power3, Idx;
    var log' := log[Idx(Power3(n)) := n];
    forall i | 0 <= i < n + 1 ensures log'[Idx(Power3(i))] == i {
      if i < n {
        Power3Injective(i, n);
        if Idx(Power3(i)) == Idx(Power3(n)) { IdxInjective(Power3(i), Power3(n)); }
      }
    }
  }

  lemma LastLog(log: seq<nat>)
    requires |log| == 256 && LogsBelow(log, 255)
    ensures Power3(255) == 1 && LogTable(log[Idx(Power3(255)) := 255])
  {
    hide Power3;
    Power3Values();
    IdxOf(1);
    var log' := log[1 := 255];
    forall x: bv8 | x != 0 && x != 1 ensures log'[Idx(x)] == Log(x) {
      if Idx(x) == 1 { IdxInjective(x, 1); }
      assert log[Idx(Power3(Log(x)))] == Log(x);
    }
  }

  method PowersAndLogs() returns (powers: seq<bv8>, logs: seq<nat>)
    ensures PowTable(powers) && LogTable(logs)
  {
    hide Power3, LogsBelow, LogTable, Idx;
    var pow := new bv8[256];
    var log := new nat[256];
    var x: bv8 := 1;
    FirstPower();
    LogsStart(log[..]);
    for i := 0 to 256
      invariant x == Power3(i)
      invariant forall k :: 0 <= k < i ==> pow[k] == Power3(k)
      invariant i <= 255 ==> LogsBelow(log[..], i)
      invariant i == 256 ==> LogTable(log[..])
    {
      ghost var was := log[..];
      pow[i] := x;
      log[Idx(x)] := i;
      assert log[..] == was[Idx(x) := i];
      if i < 255 { NextLog(was, i); } else { LastLog(was); }
      XtimeIs(x);
      Power3Next(i);
      x := x ^ ((x << 1) ^ (if x & 0x80 != 0 then 0x1B else 0));
    }
    powers, logs := pow[..], log[..];
  }

  lemma LogsStart(log: seq<nat>)
    requires |log| == 256
    ensures LogsBelow(log, 0)
  {}

  lemma Power3Next(i: nat)
    ensures Power3(i + 1) == Power3(i) ^ Xtime(Power3(i))
  {
    hide Xtime;
  }

  /** The macro MUL, on logarithms. */
  method MulByLog(x: bv8, y: bv8, pow: seq<bv8>, log: seq<nat>) returns (r: bv8)
    requires PowTable(pow) && LogTable(log)
    ensures r == Mul(x, y)
  {
    hide Power3, Mul;
    if x != 0 && y != 0 {
      LogEntry(log, x);
      LogEntry(log, y);
      ProductOfPowers(x, y, log[Idx(x)], log[Idx(y)]);
      r := pow[(log[Idx(x)] + log[Idx(y)]) % 255];
    } else {
      ProductWithZero(x, y);
      r := 0;
    }
  }

  lemma ProductWithZero(x: bv8, y: bv8)
    requires x == 0 || y == 0
    ensures Mul(x, y) == 0
  {
    hide Mul, Add;
    MulZero(y);
    MulLinear(x, x, 0, 0);
    AddLaws(0, 0, 0);
    AddLaws(Mul(x, 0), Mul(x, 0), 0);
  }

  lemma LogEntry(log: seq<nat>, x: bv8)
    requires LogTable(log) && x != 0
    ensures log[Idx(x)] <= 255 && Power3(log[Idx(x)]) == x
  {
    hide Power3;
    Power3Values();
    IdxOf(1);
  }

  lemma ReduceExponent(n: nat)
    requires n <= 510
    ensures Power3(n % 255) == Power3(n)
  {
    hide Power3;
    if n == 510 {
      Power3Period(255);
      Power3Period(0);
    } else if n >= 255 {
      assert n % 255 == n - 255;
      Power3Period(n - 255);
    } else {
      assert n % 255 == n;
    }
  }

  lemma PowersProduct(i: nat, j: nat)
    requires i <= 255 && j <= 255
    ensures Power3((i + j) % 255) == Mul(Power3(i), Power3(j))
  {
    hide *;
    Power3Add(i, j);
    ReduceExponent(i + j);
  }

  /** Equal factors, equal products: spelled out for the solver. */
  lemma SameFactors(x: bv8, x': bv8, y: bv8, y': bv8)
    requires x == x' && y == y'
    ensures Mul(x, y) == Mul(x', y')
  {}

  lemma ProductOfPowers(x: bv8, y: bv8, i: nat, j: nat)
    requires i <= 255 && j <= 255 && Power3(i) == x && Power3(j) == y
    ensures Power3((i + j) % 255) == Mul(x, y)
  {
    hide *;
    PowersProduct(i, j);
    SameFactors(x, Power3(i), y, Power3(j));
  }

  // ---------- generating the tables ----------

  method RoundConstants(t: Tables)
    requires t.Shape()
    modifies t.rcon
    ensures forall i :: 0 <= i < 10 ==> t.rcon[i] == Rcon(i)
  {
    var x: bv8 := 1;
    for i := 0 to 10
      invariant x == Rcon(i) && forall k :: 0 <= k < i ==> t.rcon[k] == Rcon(k)
    {
      t.rcon[i] := x;
      XtimeIs(x);
      x := (x << 1) ^ (if x & 0x80 != 0 then 0x1B else 0);
    }
  }

  /** The inverse by logarithm, for the bytes other than 0. */
  lemma InverseByLog(log: seq<nat>, x: bv8)
    requires LogTable(log) && x != 0
    ensures |log| == 256 && log[Idx(x)] <= 255 && Power3(255 - log[Idx(x)]) == Inverse(x)
  {
    hide Power3;
    IdxOf(1);
    Power3Values();
    FirstPower();
    if x == 1 {
      LogUnique(1, 0);
    }
  }

  /** The rotations of the code. */
  method AffineByRotation(x0: bv8) returns (x: bv8)
    ensures x == Affine(x0)
  {
    x := x0;
    var y := x;
    y := Rotl1(y);
    x := Add(x, y);
    y := Rotl1(y);
    x := Add(x, y);
    y := Rotl1(y);
    x := Add(x, y);
    y := Rotl1(y);
    x := Add(x, Add(y, 0x63));
  }

  /** The S-box entries for the bytes below i, and the way back from them. */
  ghost predicate BoxesBelow(fsb: seq<bv8>, rsb: seq<bv8>, i: nat) {
    |fsb| == |rsb| == 256
    && forall x: bv8 :: Idx(x) < i ==> fsb[Idx(x)] == Sbox(x) && rsb[Idx(Sbox(x))] == x
  }

  lemma NextBox(fsb: seq<bv8>, rsb: seq<bv8>, x: bv8)
    requires BoxesBelow(fsb, rsb, Idx(x))
    ensures BoxesBelow(fsb[Idx(x) := Sbox(x)], rsb[Idx(Sbox(x)) := x], Idx(x) + 1)
  {
    hide Sbox, Idx;
    var fsb', rsb' := fsb[Idx(x) := Sbox(x)], rsb[Idx(Sbox(x)) := x];
    forall y: bv8 | Idx(y) < Idx(x) + 1
      ensures fsb'[Idx(y)] == Sbox(y) && rsb'[Idx(Sbox(y))] == y
    {
      if Idx(y) == Idx(x) {
        IdxInjective(y, x);
      } else if Idx(Sbox(y)) == Idx(Sbox(x)) {
        IdxInjective(Sbox(y), Sbox(x));
        SboxInjective(y, x);
      }
    }
  }

  method GenerateBoxes(t: Tables, pow: seq<bv8>, log: seq<nat>)
    requires t.Shape() && PowTable(pow) && LogTable(log)
    modifies t.fsb, t.rsb
    ensures t.Boxes()
  {
    hide Sbox, Idx, Power3, LogTable, Affine, BoxesBelow;
    FirstBox(t.fsb[..], t.rsb[..]);
    ghost var f0, r0 := t.fsb[..], t.rsb[..];
    t.fsb[0] := 0x63;
    t.rsb[0x63] := 0;
    assert t.fsb[..] == f0[0 := 0x63] && t.rsb[..] == r0[0x63 := 0];
    for i := 1 to 256
      invariant BoxesBelow(t.fsb[..], t.rsb[..], i)
    {
      IdxOf(i);
      InverseByLog(log, i as bv8);
      NextEntry(t, i, pow[255 - log[i]]);
    }
    AllBoxes(t.fsb[..], t.rsb[..]);
  }

  /** The entries for one byte, given its inverse. */
  method NextEntry(t: Tables, i: nat, inv: bv8)
    requires t.Shape() && i < 256 && Idx(i as bv8) == i && inv == Inverse(i as bv8)
    requires BoxesBelow(t.fsb[..], t.rsb[..], i)
    modifies t.fsb, t.rsb
    ensures BoxesBelow(t.fsb[..], t.rsb[..], i + 1)
  {
    hide Sbox, Idx, Affine, BoxesBelow;
    var b := i as bv8;
    var x := AffineByRotation(inv);
    SboxIs(b, inv);
    NextBox(t.fsb[..], t.rsb[..], b);
    ghost var f, r := t.fsb[..], t.rsb[..];
    t.fsb[i] := x;
    t.rsb[Idx(x)] := b;
    assert t.fsb[..] == f[i := x] && t.rsb[..] == r[Idx(x) := b];
  }

  lemma SboxIs(x: bv8, inv: bv8)
    requires inv == Inverse(x)
    ensures Affine(inv) == Sbox(x)
  {
    hide Affine, Inverse;
  }

  lemma FirstBox(fsb: seq<bv8>, rsb: seq<bv8>)
    requires |fsb| == |rsb| == 256
    ensures BoxesBelow(fsb[0 := 0x63], rsb[0x63 := 0], 1)
  {
    assert Affine(0) == 0x63;
    assert Sbox(0) == 0x63;
    IdxOf(0);
    IdxOf(0x63);
    assert BoxesBelow(fsb, rsb, Idx(0));
    NextBox(fsb, rsb, 0);
  }

  lemma AllBoxes(fsb: seq<bv8>, rsb: seq<bv8>)
    requires BoxesBelow(fsb, rsb, 256)
    ensures forall x: bv8 :: fsb[Idx(x)] == Sbox(x) && rsb[Idx(Sbox(x))] == x
  {
    hide Sbox;
  }

  /** Row i of the forward tables. */
  method ForwardRow(t: Tables, i: nat)
    requires t.Shape() && i < 256
    modifies t.ft0, t.ft1, t.ft2, t.ft3
    ensures t.ForwardEntry(i)
    ensures forall k :: 0 <= k < 256 && k != i && old(t.ForwardEntry(k)) ==> t.ForwardEntry(k)
  {
    hide Xtime, Add;
    var x := t.fsb[i];
    var y := XtimeCode(x);
    var z := Add(y, x);
    t.ft0[i] := Word(y, x, x, z);
    t.ft1[i] := Rotl8(t.ft0[i]);
    t.ft2[i] := Rotl8(t.ft1[i]);
    t.ft3[i] := Rotl8(t.ft2[i]);
  }

  /** The macro XTIME on a byte. */
  method XtimeCode(x: bv8) returns (y: bv8)
    ensures y == Xtime(x)
  {
    XtimeIs(x);
    y := (x << 1) ^ (if x & 0x80 != 0 then 0x1B else 0);
  }

  /** Row i of the reverse tables. */
  method ReverseRow(t: Tables, i: nat, pow: seq<bv8>, log: seq<nat>)
    requires t.Shape() && i < 256 && PowTable(pow) && LogTable(log)
    modifies t.rt0, t.rt1, t.rt2, t.rt3
    ensures t.ReverseEntry(i)
    ensures forall k :: 0 <= k < 256 && k != i && old(t.ReverseEntry(k)) ==> t.ReverseEntry(k)
  {
    hide Mul, PowTable, LogTable;
    var x := t.rsb[i];
    var e := MulByLog(0x0E, x, pow, log);
    var n := MulByLog(0x09, x, pow, log);
    var d := MulByLog(0x0D, x, pow, log);
    var b := MulByLog(0x0B, x, pow, log);
    t.rt0[i] := Word(e, n, d, b);
    t.rt1[i] := Rotl8(t.rt0[i]);
    t.rt2[i] := Rotl8(t.rt1[i]);
    t.rt3[i] := Rotl8(t.rt2[i]);
  }

  /** aes_gen_tables. */
  method GenTables(t: Tables)
    requires t.Shape()
    modifies t.fsb, t.rsb, t.rcon, t.ft0, t.ft1, t.ft2, t.ft3, t.rt0, t.rt1, t.rt2, t.rt3
    ensures t.Good()
  {
    hide PowTable, LogTable, Forward0, Reverse0, Sbox, Rcon;
    var pow, log := PowersAndLogs();
    RoundConstants(t);
    GenerateBoxes(t, pow, log);
    GenerateColumns(t, pow, log);
  }

  method GenerateColumns(t: Tables, pow: seq<bv8>, log: seq<nat>)
    requires t.Shape() && PowTable(pow) && LogTable(log)
    modifies t.ft0, t.ft1, t.ft2, t.ft3, t.rt0, t.rt1, t.rt2, t.rt3
    ensures forall i :: 0 <= i < 256 ==> t.ForwardEntry(i) && t.ReverseEntry(i)
  {
    hide PowTable, LogTable, Forward0, Reverse0;
    for i := 0 to 256
      invariant forall k :: 0 <= k < i ==> t.ForwardEntry(k) && t.ReverseEntry(k)
    {
      ForwardRow(t, i);
      ReverseRow(t, i, pow, log);
    }
  }
}
