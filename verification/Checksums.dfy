/**
 The CRC-32C checksum of section 12.1 of RFC 3720, computed eight bytes at a time from tables.
 */
module Checksums {

  // Each word operation is a function of its own: proofs are by its laws, not by its bits.

  function Xor(a: bv32, b: bv32): (r: bv32) {
    a ^ b
  }

  function Half(c: bv32): (r: bv32) {
    c >> 1
  }

  predicate Odd(c: bv32) {
    c & 1 == 1
  }

  /** The polynomial, its bits reversed. */
  function Poly(): (p: bv32) {
    0x82f63b78
  }

  /** The four bytes of a word, the least significant first. */
  function Byte0(c: bv32): (b: bv32) {
    c & 0xff
  }

  function Byte1(c: bv32): (b: bv32) {
    (c >> 8) & 0xff
  }

  function Byte2(c: bv32): (b: bv32) {
    (c >> 16) & 0xff
  }

  function Byte3(c: bv32): (b: bv32) {
    c >> 24
  }

  function High(c: bv32): (r: bv32) {
    c >> 8
  }

  function Up1(b: bv32): (c: bv32) {
    b << 8
  }

  function Up2(b: bv32): (c: bv32) {
    b << 16
  }

  function Up3(b: bv32): (c: bv32) {
    b << 24
  }

  function Word(b0: bv32, b1: bv32, b2: bv32, b3: bv32): (w: bv32) {
    Xor(Xor(b0, Up1(b1)), Xor(Up2(b2), Up3(b3)))
  }

  predicate IsByte(b: bv32) {
    b < 256
  }

  // ----- laws of words -----

  lemma XorAssoc(x: bv32, y: bv32, z: bv32)
    ensures Xor(x, Xor(y, z)) == Xor(Xor(x, y), z)
  {
  }

  lemma XorComm(x: bv32, y: bv32)
    ensures Xor(x, y) == Xor(y, x)
  {
  }

  lemma XorSelf(x: bv32)
    ensures Xor(x, x) == 0 && Xor(x, 0) == x
  {
  }

  lemma HalfXor(a: bv32, b: bv32)
    ensures Half(Xor(a, b)) == Xor(Half(a), Half(b))
  {
  }

  lemma OddXor(a: bv32, b: bv32)
    ensures Odd(Xor(a, b)) == (Odd(a) != Odd(b))
  {
  }

  lemma Parts(c: bv32)
    ensures IsByte(Byte0(c)) && IsByte(Byte1(c)) && IsByte(Byte2(c)) && IsByte(Byte3(c))
    ensures c == Word(Byte0(c), Byte1(c), Byte2(c), Byte3(c))
  {
  }

  lemma LowHigh(c: bv32)
    ensures c == Xor(Byte0(c), Up1(High(c)))
  {
  }

  lemma UpUp(b: bv32)
    requires IsByte(b)
    ensures Up1(b) <= 0xff_ffff && Up2(b) == Up1(Up1(b)) && Up2(b) <= 0xff_ffff && Up3(b) == Up1(Up2(b))
  {
  }

  lemma HighSmall(c: bv32)
    ensures High(c) <= 0xff_ffff
  {
  }

  // ----- the definition, bit by bit -----

  function Step(c: bv32): (r: bv32) {
    if Odd(c) then Xor(Half(c), Poly()) else Half(c)
  }

  function Steps(n: nat, c: bv32): (r: bv32) {
    if n == 0 then c else Step(Steps(n - 1, c))
  }

  /** The register after another zero byte. */
  function Zero(c: bv32): (r: bv32) {
    Steps(8, c)
  }

  function Zeros(n: nat, c: bv32): (r: bv32) {
    if n == 0 then c else Zero(Zeros(n - 1, c))
  }

  /** The register after the bytes. */
  function Register(c: bv32, s: seq<bv32>): (r: bv32) {
    if s == [] then c else Zero(Xor(Register(c, s[..|s| - 1]), s[|s| - 1]))
  }

  // ----- it is this polynomial -----

  lemma StepsNext(n: nat, c: bv32)
    ensures Steps(n + 1, c) == Step(Steps(n, c)) && Steps(0, c) == c
  {
  }

  lemma EightSteps(c: bv32)
    ensures Zero(c) == Step(Step(Step(Step(Step(Step(Step(Step(c))))))))
  {
    hide Step;
    StepsNext(0, c);
    StepsNext(1, c);
    StepsNext(2, c);
    StepsNext(3, c);
    StepsNext(4, c);
    StepsNext(5, c);
    StepsNext(6, c);
    StepsNext(7, c);
  }

  /** The entries of the first table for single bits, of which the others are made up. */
  lemma FirstTable()
    ensures Zero(0x01) == 0xf26b8303 && Zero(0x02) == 0xe13b70f7 && Zero(0x04) == 0xc79a971f
    ensures Zero(0x08) == 0x8ad958cf && Zero(0x10) == 0x105ec76f && Zero(0x20) == 0x20bd8ede
    ensures Zero(0x40) == 0x417b1dbc && Zero(0x80) == 0x82f63b78
  {
    EightSteps(0x01);
    EightSteps(0x02);
    EightSteps(0x04);
    EightSteps(0x08);
    EightSteps(0x10);
    EightSteps(0x20);
    EightSteps(0x40);
    EightSteps(0x80);
  }

  // ----- it is linear -----

  lemma StepXor(a: bv32, b: bv32)
    ensures Step(Xor(a, b)) == Xor(Step(a), Step(b))
  {
    hide Odd, Half, Xor, Poly;
    var x, y, p := Half(a), Half(b), Poly();
    HalfXor(a, b);
    OddXor(a, b);
    XorAssoc(x, y, p);
    XorAssoc(x, p, y);
    XorComm(p, y);
    XorAssoc(Xor(x, p), y, p);
    XorAssoc(Xor(x, y), p, p);
    XorSelf(p);
    XorSelf(Xor(x, y));
  }

  lemma {:induction false} StepsXor(n: nat, a: bv32, b: bv32)
    ensures Steps(n, Xor(a, b)) == Xor(Steps(n, a), Steps(n, b))
  {
    hide Xor, Step;
    if n > 0 {
      StepsXor(n - 1, a, b);
      StepXor(Steps(n - 1, a), Steps(n - 1, b));
    }
  }

  lemma {:induction false} ZerosXor(n: nat, a: bv32, b: bv32)
    ensures Zeros(n, Xor(a, b)) == Xor(Zeros(n, a), Zeros(n, b))
  {
    hide Xor, Steps;
    if n > 0 {
      ZerosXor(n - 1, a, b);
      StepsXor(8, Zeros(n - 1, a), Zeros(n - 1, b));
    }
  }

  lemma {:induction false} ZerosMore(n: nat, k: nat, c: bv32)
    ensures Zeros(n + k, c) == Zeros(n, Zeros(k, c))
  {
    hide Zero;
    if n > 0 {
      ZerosMore(n - 1, k, c);
    }
  }

  function Double(c: bv32): (r: bv32) {
    c << 1
  }

  lemma HalfDouble(d: bv32)
    requires d <= 0x7fff_ffff
    ensures !Odd(Double(d)) && Half(Double(d)) == d
  {
  }

  lemma DoubleFits(d: bv32)
    ensures d <= 0xff_ffff ==> Double(d) <= 0x1ff_ffff
    ensures d <= 0x1ff_ffff ==> Double(d) <= 0x3ff_ffff
    ensures d <= 0x3ff_ffff ==> Double(d) <= 0x7ff_ffff
    ensures d <= 0x7ff_ffff ==> Double(d) <= 0xfff_ffff
    ensures d <= 0xfff_ffff ==> Double(d) <= 0x1fff_ffff
    ensures d <= 0x1fff_ffff ==> Double(d) <= 0x3fff_ffff
    ensures d <= 0x3fff_ffff ==> Double(d) <= 0x7fff_ffff
  {
  }

  lemma Up1Doubles(c: bv32)
    ensures Up1(c) == Double(Double(Double(Double(Double(Double(Double(Double(c))))))))
  {
  }

  lemma StepDouble(d: bv32)
    requires d <= 0x7fff_ffff
    ensures Step(Double(d)) == d
  {
    hide Odd, Half, Double;
    HalfDouble(d);
  }

  /** A register whose last byte is zero only moves down. */
  lemma ZeroUp(c: bv32)
    requires c <= 0xff_ffff
    ensures Zero(Up1(c)) == c
  {
    hide Double, Step, Up1;
    Up1Doubles(c);
    var d1 := Double(c);
    var d2 := Double(d1);
    var d3 := Double(d2);
    var d4 := Double(d3);
    var d5 := Double(d4);
    var d6 := Double(d5);
    var d7 := Double(d6);
    DoubleFits(c);
    DoubleFits(d1);
    DoubleFits(d2);
    DoubleFits(d3);
    DoubleFits(d4);
    DoubleFits(d5);
    DoubleFits(d6);
    StepDouble(c);
    StepDouble(d1);
    StepDouble(d2);
    StepDouble(d3);
    StepDouble(d4);
    StepDouble(d5);
    StepDouble(d6);
    StepDouble(d7);
    var x := Up1(c);
    assert Steps(1, x) == Step(Steps(0, x)) == d7;
    assert Steps(2, x) == Step(Steps(1, x)) == d6;
    assert Steps(3, x) == Step(Steps(2, x)) == d5;
    assert Steps(4, x) == Step(Steps(3, x)) == d4;
    assert Steps(5, x) == Step(Steps(4, x)) == d3;
    assert Steps(6, x) == Step(Steps(5, x)) == d2;
    assert Steps(7, x) == Step(Steps(6, x)) == d1;
  }

  /** One byte by table and shift. */
  lemma ZeroSplit(c: bv32)
    ensures Zero(c) == Xor(Zero(Byte0(c)), High(c))
  {
    hide Xor, Up1, High, Byte0, Steps;
    LowHigh(c);
    HighSmall(c);
    StepsXor(8, Byte0(c), Up1(High(c)));
    ZeroUp(High(c));
  }

  /** A byte higher up takes fewer zero bytes to get through. */
  lemma ZerosUp(n: nat, b: bv32)
    requires IsByte(b)
    ensures Zeros(n + 1, Up1(b)) == Zeros(n, b) && Zeros(n + 2, Up2(b)) == Zeros(n, b)
    ensures Zeros(n + 3, Up3(b)) == Zeros(n, b)
  {
    hide Up1, Up2, Up3, Zero;
    UpUp(b);
    assert b <= 0xff_ffff;
    ZeroUp(b);
    ZeroUp(Up1(b));
    ZeroUp(Up2(b));
    ZerosMore(n, 1, Up1(b));
    ZerosMore(n, 2, Up2(b));
    ZerosMore(n, 3, Up3(b));
    assert Zeros(1, Up1(b)) == b && Zeros(1, Up2(b)) == Up1(b) && Zeros(1, Up3(b)) == Up2(b);
    assert Zeros(2, Up2(b)) == b && Zeros(2, Up3(b)) == Up1(b);
    assert Zeros(3, Up3(b)) == b;
  }

  /** A word through `n` zero bytes, byte by byte. */
  lemma ZerosWord(n: nat, w: bv32)
    ensures Zeros(n + 4, w) ==
            Xor(Xor(Zeros(n + 4, Byte0(w)), Zeros(n + 3, Byte1(w))),
                Xor(Zeros(n + 2, Byte2(w)), Zeros(n + 1, Byte3(w))))
  {
    hide Xor, Up1, Up2, Up3, Zeros, Byte0, Byte1, Byte2, Byte3;
    Parts(w);
    var b0, b1, b2, b3 := Byte0(w), Byte1(w), Byte2(w), Byte3(w);
    ZerosXor(n + 4, Xor(b0, Up1(b1)), Xor(Up2(b2), Up3(b3)));
    ZerosXor(n + 4, b0, Up1(b1));
    ZerosXor(n + 4, Up2(b2), Up3(b3));
    ZerosUp(n + 3, b1);
    ZerosUp(n + 2, b2);
    ZerosUp(n + 1, b3);
  }

  /** Four bytes at once. */
  lemma FourBytes(c: bv32, b0: bv32, b1: bv32, b2: bv32, b3: bv32)
    requires IsByte(b0) && IsByte(b1) && IsByte(b2) && IsByte(b3)
    ensures Zero(Xor(Zero(Xor(Zero(Xor(Zero(Xor(c, b0)), b1)), b2)), b3)) == Zeros(4, Xor(c, Word(b0, b1, b2, b3)))
  {
    hide Xor, Up1, Up2, Up3, Zero;
    var x1 := Xor(c, b0);
    var x2 := Xor(x1, Up1(b1));
    var x3 := Xor(x2, Up2(b2));
    var x4 := Xor(x3, Up3(b3));
    ZerosUp(0, b1);
    ZerosUp(0, b2);
    ZerosUp(0, b3);
    ZerosXor(1, x1, Up1(b1));
    ZerosXor(2, x2, Up2(b2));
    ZerosXor(3, x3, Up3(b3));
    assert Zeros(0, b1) == b1 && Zeros(0, b2) == b2 && Zeros(0, b3) == b3;
    assert Zeros(1, x1) == Zero(x1) && Zeros(2, x2) == Zero(Zeros(1, x2)) && Zeros(3, x3) == Zero(Zeros(2, x3));
    XorAssoc(c, b0, Up1(b1));
    XorAssoc(c, Xor(b0, Up1(b1)), Xor(Up2(b2), Up3(b3)));
    XorAssoc(x2, Up2(b2), Up3(b3));
  }

  // ----- tables -----

  /** The first table is for one byte, each further one for one more zero byte behind it. */
  ghost predicate Tables(t: seq<bv32 -> bv32>) {
    && |t| == 8 && (forall b :: IsByte(b) ==> t[0](b) == Zero(b))
    && (forall k, b :: 1 <= k < 8 && IsByte(b) ==> t[k](b) == Xor(t[0](Byte0(t[k - 1](b))), High(t[k - 1](b))))
  }

  lemma {:induction false} TableIs(t: seq<bv32 -> bv32>, k: nat, b: bv32)
    requires Tables(t) && k < 8 && IsByte(b)
    ensures t[k](b) == Zeros(k + 1, b)
  {
    hide Xor, Byte0, High, Zero;
    if k > 0 {
      TableIs(t, k - 1, b);
      var c := Zeros(k, b);
      Parts(c);
      ZeroSplit(c);
    } else {
      assert Zeros(1, b) == Zero(Zeros(0, b)) && Zeros(0, b) == b;
    }
  }

  // ----- the loops -----

  ghost predicate AllBytes(s: seq<bv32>) {
    forall i :: 0 <= i < |s| ==> IsByte(s[i])
  }

  lemma RegisterNext(c: bv32, s: seq<bv32>, i: nat)
    requires i < |s|
    ensures Register(c, s[..i + 1]) == Zero(Xor(Register(c, s[..i]), s[i]))
  {
    assert s[..i + 1][..i] == s[..i];
  }

  /** One byte, by the first table. */
  method OneByte(t: seq<bv32 -> bv32>, crc: bv32, b: bv32) returns (r: bv32)
    requires Tables(t) && IsByte(b)
    ensures r == Zero(Xor(crc, b))
  {
    hide Xor, Zero, High;
    r := Xor(t[0](Byte0(Xor(crc, b))), High(crc));
    ByteHigh(crc, b);
    ZeroSplit(Xor(crc, b));
  }

  lemma ByteHigh(c: bv32, b: bv32)
    requires IsByte(b)
    ensures High(Xor(c, b)) == High(c) && IsByte(Byte0(Xor(c, b)))
  {
  }

  /** Eight bytes, as two words, by all eight tables. */
  method EightBytes(t: seq<bv32 -> bv32>, crc: bv32, first: bv32, next: bv32) returns (r: bv32)
    requires Tables(t)
    ensures r == Xor(Zeros(8, Xor(crc, first)), Zeros(4, next))
  {
    hide Xor, Zeros, Zero, Tables, Byte0, Byte1, Byte2, Byte3, IsByte;
    var x := Xor(crc, first);
    Parts(x);
    Parts(next);
    TableIs(t, 7, Byte0(x));
    TableIs(t, 6, Byte1(x));
    TableIs(t, 5, Byte2(x));
    TableIs(t, 4, Byte3(x));
    TableIs(t, 3, Byte0(next));
    TableIs(t, 2, Byte1(next));
    TableIs(t, 1, Byte2(next));
    TableIs(t, 0, Byte3(next));
    TablesAre(t);
    r := Xor(Xor(Xor(t[7](Byte0(x)), t[6](Byte1(x))), Xor(t[5](Byte2(x)), t[4](Byte3(x)))),
             Xor(Xor(t[3](Byte0(next)), t[2](Byte1(next))), Xor(t[1](Byte2(next)), t[0](Byte3(next)))));
    ZerosWord(4, x);
    ZerosWord(0, next);
  }

  lemma TablesAre(t: seq<bv32 -> bv32>)
    requires Tables(t)
    ensures |t| == 8
  {
  }

  lemma RegisterEight(c: bv32, s: seq<bv32>, i: nat)
    requires i + 8 <= |s| && AllBytes(s)
    ensures var first, next := Word(s[i], s[i + 1], s[i + 2], s[i + 3]), Word(s[i + 4], s[i + 5], s[i + 6], s[i + 7]);
      Register(c, s[..i + 8]) == Xor(Zeros(8, Xor(Register(c, s[..i]), first)), Zeros(4, next))
  {
    hide Xor, Zero, Word, Register;
    RegisterFour(c, s, i);
    RegisterFour(c, s, i + 4);
    var first, next := Word(s[i], s[i + 1], s[i + 2], s[i + 3]), Word(s[i + 4], s[i + 5], s[i + 6], s[i + 7]);
    var x := Xor(Register(c, s[..i]), first);
    ZerosXor(4, Zeros(4, x), next);
    ZerosMore(4, 4, x);
  }

  lemma RegisterFour(c: bv32, s: seq<bv32>, i: nat)
    requires i + 4 <= |s| && AllBytes(s)
    ensures Register(c, s[..i + 4]) == Zeros(4, Xor(Register(c, s[..i]), Word(s[i], s[i + 1], s[i + 2], s[i + 3])))
  {
    hide Xor, Zero, Word, Zeros, Register;
    RegisterNext(c, s, i);
    RegisterNext(c, s, i + 1);
    RegisterNext(c, s, i + 2);
    RegisterNext(c, s, i + 3);
    FourBytes(Register(c, s[..i]), s[i], s[i + 1], s[i + 2], s[i + 3]);
  }

  /**
   The checksum of a buffer that starts at any address: bytes up to a word boundary, eight bytes at a
   time from there, then the bytes that are left.
   */
  method Cksum(t: seq<bv32 -> bv32>, chunk: seq<bv32>, addr: nat) returns (r: bv32)
    requires Tables(t) && AllBytes(chunk)
    ensures r == !Register(0xffff_ffff, chunk)
  {
    hide Xor, Zero, Zeros, Tables, Register, IsByte;
    var crc: bv32, p: nat := 0xffff_ffff, 0;
    RegisterNone(crc, chunk);
    while (addr + p) % 4 != 0 && p < |chunk|
      invariant p <= |chunk| && crc == Register(0xffff_ffff, chunk[..p])
      decreases |chunk| - p
    {
      RegisterNext(0xffff_ffff, chunk, p);
      crc := OneByte(t, crc, chunk[p]);
      p := p + 1;
    }
    var nqwords: nat := (|chunk| - p) / 8;
    ghost var total := p + 8 * nqwords;
    while nqwords != 0
      invariant p + 8 * nqwords == total <= |chunk| < total + 8 && crc == Register(0xffff_ffff, chunk[..p])
      decreases nqwords
    {
      RegisterEight(0xffff_ffff, chunk, p);
      var first := Word(chunk[p], chunk[p + 1], chunk[p + 2], chunk[p + 3]);
      var next := Word(chunk[p + 4], chunk[p + 5], chunk[p + 6], chunk[p + 7]);
      crc := EightBytes(t, crc, first, next);
      p := p + 8;
      nqwords := nqwords - 1;
    }
    while p < |chunk|
      invariant p <= |chunk| && crc == Register(0xffff_ffff, chunk[..p])
      decreases |chunk| - p
    {
      RegisterNext(0xffff_ffff, chunk, p);
      crc := OneByte(t, crc, chunk[p]);
      p := p + 1;
    }
    assert chunk[..p] == chunk;
    r := !crc;
  }

  lemma RegisterNone(c: bv32, s: seq<bv32>)
    ensures Register(c, s[..0]) == c
  {
    assert s[..0] == [];
  }
}
