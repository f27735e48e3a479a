/**
 Order-preserving packing of integers, strings and raw bytes, as the Python interface does it.
 */
module Packing {
  import opened Basics
  import opened Keys

  const NEG_MULTI_MARKER := 0x10
  const NEG_2BYTE_MARKER := 0x20
  const NEG_1BYTE_MARKER := 0x40
  const POS_1BYTE_MARKER := 0x80
  const POS_2BYTE_MARKER := 0xc0
  const POS_MULTI_MARKER := 0xe0

  const NEG_1BYTE_MIN := -64
  const NEG_2BYTE_MIN := -8256
  const POS_1BYTE_MAX := 63
  const POS_2BYTE_MAX := 8255

  const TWO_64 := 0x1_0000_0000_0000_0000

  // ----- big-endian numbers -----

  function Pow(n: nat): (p: int)
    ensures p > 0
  {
    if n == 0 then 1 else 256 * Pow(n - 1)
  }

  lemma Pow8()
    ensures Pow(8) == TWO_64
  {
    assert Pow(8) == 256 * 256 * 256 * 256 * Pow(4);
  }

  /** The number in `k` bytes, the most significant first. */
  function BigEndian(n: int, k: nat): (b: Bytes)
    requires 0 <= n < Pow(k)
    ensures |b| == k
  {
    if k == 0 then []
    else
      Digit(n, Pow(k - 1));
      [n / Pow(k - 1)] + BigEndian(n % Pow(k - 1), k - 1)
  }

  lemma Digit(n: int, p: int)
    requires p > 0 && 0 <= n < 256 * p
    ensures 0 <= n / p < 256 && n == n / p * p + n % p
  {
    var q := n / p;
    if q >= 256 { Times(256, q, p); }
  }

  function Number(b: Bytes): (n: nat) {
    if b == [] then 0 else b[0] * Pow(|b| - 1) + Number(b[1..])
  }

  lemma {:induction false} NumberOf(n: int, k: nat)
    requires 0 <= n < Pow(k)
    ensures Number(BigEndian(n, k)) == n
  {
    if k > 0 {
      Digit(n, Pow(k - 1));
      NumberOf(n % Pow(k - 1), k - 1);
    }
  }

  lemma {:induction false} NumberSnoc(b: Bytes, x: Byte)
    ensures Number(b + [x]) == Number(b) * 256 + x
  {
    if b != [] {
      assert (b + [x])[1..] == b[1..] + [x];
      NumberSnoc(b[1..], x);
      assert b[0] * (256 * Pow(|b| - 1)) == b[0] * Pow(|b| - 1) * 256;
    } else {
      assert (b + [x])[1..] == [];
    }
  }

  method GetInt(b: Bytes, size: nat) returns (r: nat)
    requires size <= |b|
    ensures r == Number(b[..size])
  {
    r := 0;
    var i := 0;
    while i < size
      invariant i <= size && r == Number(b[..i])
    {
      assert b[..i + 1] == b[..i] + [b[i]];
      NumberSnoc(b[..i], b[i]);
      r := r * 256 + b[i];
      i := i + 1;
    }
  }

  // ----- integers -----

  /** The number in as few bytes as can be, none for 0, behind a byte that says how many. */
  ghost predicate PosMulti(n: int, k: nat, b: Bytes) {
    && k <= 8 && 0 <= n < Pow(k) && (k > 0 ==> n >= Pow(k - 1))
    && b == [POS_MULTI_MARKER + k] + BigEndian(n, k)
  }

  ghost predicate IsPosMulti(n: int, b: Bytes) {
    exists k :: PosMulti(n, k, b)
  }

  /** The two's complement in as few bytes as can be, sign bits dropped, behind a byte that says how many. */
  ghost predicate NegMulti(x: int, k: nat, b: Bytes) {
    && k <= 8 && -Pow(k) <= x < 0 && (k > 0 ==> x < -Pow(k - 1))
    && b == [NEG_MULTI_MARKER + 8 - k] + BigEndian(x + Pow(k), k)
  }

  /** What an integer is packed as. */
  ghost predicate IsPacked(x: int, b: Bytes) {
    if x < NEG_2BYTE_MIN then exists k :: NegMulti(x, k, b)
    else if x < NEG_1BYTE_MIN then
      b == [NEG_2BYTE_MARKER + (x - NEG_2BYTE_MIN) / 256, (x - NEG_2BYTE_MIN) % 256]
    else if x < 0 then b == [NEG_1BYTE_MARKER + x - NEG_1BYTE_MIN]
    else if x <= POS_1BYTE_MAX then b == [POS_1BYTE_MARKER + x]
    else if x <= POS_2BYTE_MAX then
      b == [POS_2BYTE_MARKER + (x - POS_1BYTE_MAX - 1) / 256, (x - POS_1BYTE_MAX - 1) % 256]
    else IsPosMulti(x - POS_2BYTE_MAX - 1, b)
  }

  /** The ends of the ranges that take one byte and two, and the first numbers beyond. */
  lemma RangeEnds()
    ensures IsPacked(0, [0x80]) && IsPacked(63, [0xbf]) && IsPacked(64, [0xc0, 0x00]) && IsPacked(8255, [0xdf, 0xff])
    ensures IsPacked(8256, [0xe0]) && IsPacked(8257, [0xe1, 0x01])
    ensures IsPacked(-1, [0x7f]) && IsPacked(-64, [0x40]) && IsPacked(-65, [0x3f, 0xff])
    ensures IsPacked(-8256, [0x20, 0x00]) && IsPacked(-8257, [0x16, 0xdf, 0xbf])
  {
    assert Pow(0) == 1 && Pow(1) == 256 && Pow(2) == 65536;
    assert BigEndian(0, 0) == [] && BigEndian(1, 1) == [1] && BigEndian(57279, 2) == [0xdf, 0xbf];
    assert PosMulti(0, 0, [0xe0]) && PosMulti(1, 1, [0xe1, 0x01]) && NegMulti(-8257, 2, [0x16, 0xdf, 0xbf]);
  }

  method PackInt(x: int) returns (b: Bytes)
    requires -TWO_64 <= x < TWO_64
    ensures IsPacked(x, b)
  {
    if x < NEG_2BYTE_MIN {
      b := PackNeg(x);
    } else if x < NEG_1BYTE_MIN {
      var y := x - NEG_2BYTE_MIN;
      b := [NEG_2BYTE_MARKER + y / 256, y % 256];
    } else if x < 0 {
      b := [NEG_1BYTE_MARKER + (x - NEG_1BYTE_MIN)];
    } else if x <= POS_1BYTE_MAX {
      b := [POS_1BYTE_MARKER + x];
    } else if x <= POS_2BYTE_MAX {
      var y := x - (POS_1BYTE_MAX + 1);
      b := [POS_2BYTE_MARKER + y / 256, y % 256];
    } else {
      b := PackPos(x - (POS_2BYTE_MAX + 1));
    }
  }

  method PackNeg(x: int) returns (b: Bytes)
    requires -TWO_64 <= x < 0
    ensures exists k :: NegMulti(x, k, b)
  {
    hide Pow, BigEndian;
    Pow8();
    var packed := BigEndian(x + TWO_64, 8);
    ghost var k: nat := 8;
    while packed != [] && packed[0] == 0xff
      invariant k <= 8 && |packed| == k && -Pow(k) <= x && packed == BigEndian(x + Pow(k), k)
      decreases k
    {
      NegHead(x, k);
      packed := packed[1..];
      k := k - 1;
    }
    if k > 0 { NegHead(x, k); }
    b := [NEG_MULTI_MARKER + 8 - |packed|] + packed;
    assert NegMulti(x, k, b);
  }

  method PackPos(n: int) returns (b: Bytes)
    requires 0 <= n < TWO_64
    ensures IsPosMulti(n, b)
  {
    hide Pow, BigEndian;
    Pow8();
    var packed := BigEndian(n, 8);
    ghost var k: nat := 8;
    while packed != [] && packed[0] == 0
      invariant k <= 8 && |packed| == k && n < Pow(k) && packed == BigEndian(n, k)
      decreases k
    {
      PosHead(n, k);
      packed := packed[1..];
      k := k - 1;
    }
    if k > 0 { PosHead(n, k); }
    b := [POS_MULTI_MARKER + |packed|] + packed;
    assert PosMulti(n, k, b);
  }

  /** A first byte of 0 is one byte more than needed. */
  lemma PosHead(n: int, k: nat)
    requires k > 0 && 0 <= n < Pow(k)
    ensures BigEndian(n, k)[0] == 0 <==> n < Pow(k - 1)
    ensures n < Pow(k - 1) ==> BigEndian(n, k)[1..] == BigEndian(n, k - 1)
  {
    var p := Pow(k - 1);
    Digit(n, p);
    hide Pow;
    if n < p {
      DivIs(n, p, 0, n);
    }
  }

  /** A first byte of sign bits only is one byte more than needed. */
  lemma NegHead(x: int, k: nat)
    requires k > 0 && -Pow(k) <= x < 0
    ensures BigEndian(x + Pow(k), k)[0] == 0xff <==> x >= -Pow(k - 1)
    ensures x >= -Pow(k - 1) ==> BigEndian(x + Pow(k), k)[1..] == BigEndian(x + Pow(k - 1), k - 1)
  {
    var p := Pow(k - 1);
    var n := x + 256 * p;
    assert Pow(k) == 256 * p;
    hide Pow;
    Digit(n, p);
    if x >= -p {
      DivIs(n, p, 255, x + p);
    }
  }

  /** The integer at the start of the bytes, and how many bytes it takes. */
  method UnpackInt(b: Bytes) returns (ok: bool, x: int, size: nat)
    ensures ok ==> size <= |b|
    ensures forall y, c :: IsPacked(y, c) && c <= b ==> ok && x == y && size == |c|
  {
    hide Pow, Number, IsPacked;
    ok, x, size := false, 0, 0;
    forall y, c | IsPacked(y, c) && c <= b ensures Says(b, y, |c|) {
      Unpacked(y, c, b);
    }
    if b == [] {
      return;
    }
    var marker := b[0];
    if marker < NEG_2BYTE_MARKER {
      var sz := 8 - marker % 16;
      if 0 <= sz < |b| {
        var n := GetInt(b[1..], sz);
        ok, x, size := true, -Pow(sz) + n, sz + 1;
      }
    } else if marker < NEG_1BYTE_MARKER {
      if |b| > 1 {
        ok, x, size := true, NEG_2BYTE_MIN + marker % 32 * 256 + b[1], 2;
      }
    } else if marker < POS_1BYTE_MARKER {
      ok, x, size := true, NEG_1BYTE_MIN + marker % 64, 1;
    } else if marker < POS_2BYTE_MARKER {
      ok, x, size := true, marker % 64, 1;
    } else if marker < POS_MULTI_MARKER {
      if |b| > 1 {
        ok, x, size := true, POS_1BYTE_MAX + 1 + marker % 32 * 256 + b[1], 2;
      }
    } else {
      var sz := marker % 16;
      if sz < |b| {
        var n := GetInt(b[1..], sz);
        ok, x, size := true, POS_2BYTE_MAX + 1 + n, sz + 1;
      }
    }
  }

  /** What the bytes say that start with a packed integer. */
  ghost predicate Says(b: Bytes, y: int, size: nat) {
    b != [] &&
    var marker := b[0];
    if marker < NEG_2BYTE_MARKER then
      var sz := 8 - marker % 16; 0 <= sz < |b| && size == sz + 1 && y == -Pow(sz) + Number(b[1..][..sz])
    else if marker < NEG_1BYTE_MARKER then |b| > 1 && size == 2 && y == NEG_2BYTE_MIN + marker % 32 * 256 + b[1]
    else if marker < POS_1BYTE_MARKER then size == 1 && y == NEG_1BYTE_MIN + marker % 64
    else if marker < POS_2BYTE_MARKER then size == 1 && y == marker % 64
    else if marker < POS_MULTI_MARKER then |b| > 1 && size == 2 && y == POS_1BYTE_MAX + 1 + marker % 32 * 256 + b[1]
    else var sz := marker % 16; sz < |b| && size == sz + 1 && y == POS_2BYTE_MAX + 1 + Number(b[1..][..sz])
  }

  lemma SaysNeg(y: int, k: nat, c: Bytes, b: Bytes)
    requires NegMulti(y, k, c) && c <= b
    ensures Says(b, y, |c|)
  {
    hide Pow, BigEndian, Number;
    NumberOf(y + Pow(k), k);
    assert b[1..][..k] == c[1..] == BigEndian(y + Pow(k), k);
  }

  lemma SaysPos(n: int, k: nat, c: Bytes, b: Bytes)
    requires PosMulti(n, k, c) && c <= b
    ensures Says(b, n + POS_2BYTE_MAX + 1, |c|)
  {
    hide Pow, BigEndian, Number;
    NumberOf(n, k);
    assert b[1..][..k] == c[1..] == BigEndian(n, k);
  }

  /** The packed form tells its own length and value, whatever follows it. */
  lemma Unpacked(y: int, c: Bytes, b: Bytes)
    requires IsPacked(y, c) && c <= b
    ensures Says(b, y, |c|)
  {
    hide Pow, Number, BigEndian, NegMulti, PosMulti, Says;
    if y < NEG_2BYTE_MIN {
      var k :| NegMulti(y, k, c);
      SaysNeg(y, k, c, b);
    } else if y > POS_2BYTE_MAX {
      var k :| PosMulti(y - POS_2BYTE_MAX - 1, k, c);
      SaysPos(y - POS_2BYTE_MAX - 1, k, c, b);
    } else {
      SaysShort(y, c, b);
    }
  }

  lemma SaysShort(y: int, c: Bytes, b: Bytes)
    requires IsPacked(y, c) && c <= b && NEG_2BYTE_MIN <= y <= POS_2BYTE_MAX
    ensures Says(b, y, |c|)
  {
    hide Pow, Number, IsPosMulti, NegMulti;
    assert b[0] == c[0];
    if y < NEG_1BYTE_MIN || y > POS_1BYTE_MAX {
      assert b[1] == c[1];
    }
  }

  // ----- order -----

  /** Two byte strings that differ before either ends, the first with the smaller byte. */
  ghost predicate Diverges(a: Bytes, b: Bytes) {
    a != [] && b != [] && (a[0] < b[0] || (a[0] == b[0] && Diverges(a[1..], b[1..])))
  }

  lemma {:induction false} DivergesLess(a: Bytes, b: Bytes, c: Bytes, d: Bytes)
    requires Diverges(a, b)
    ensures Less(a + c, b + d) && !Less(b + d, a + c)
  {
    assert (a + c)[0] == a[0] && (b + d)[0] == b[0];
    if a[0] == b[0] {
      assert (a + c)[1..] == a[1..] + c && (b + d)[1..] == b[1..] + d;
      DivergesLess(a[1..], b[1..], c, d);
    }
  }

  lemma {:induction false} BigEndianOrder(n: int, m: int, k: nat)
    requires 0 <= n < m < Pow(k)
    ensures Diverges(BigEndian(n, k), BigEndian(m, k))
  {
    var p := Pow(k - 1);
    BigEndianStep(n, k);
    BigEndianStep(m, k);
    hide Pow, BigEndian;
    DigitOrder(n, m, p);
    if n / p == m / p {
      BigEndianOrder(n % p, m % p, k - 1);
    }
  }

  lemma BigEndianStep(n: int, k: nat)
    requires k > 0 && 0 <= n < Pow(k)
    ensures var p := Pow(k - 1);
      Pow(k) == 256 * p && BigEndian(n, k)[0] == n / p && BigEndian(n, k)[1..] == BigEndian(n % p, k - 1)
  {
  }

  lemma DigitOrder(n: int, m: int, p: int)
    requires p > 0 && 0 <= n < m < 256 * p
    ensures n / p < m / p || (n / p == m / p && n % p < m % p)
  {
    Digit(n, p);
    Digit(m, p);
    var q, r := n / p, m / p;
    if q > r { Times(r + 1, q, p); }
  }

  lemma {:induction false} PowGrows(j: nat, k: nat)
    requires j <= k
    ensures Pow(j) <= Pow(k)
  {
    if j < k {
      PowGrows(j, k - 1);
    }
  }

  lemma PosOrder(n: int, m: int, j: nat, k: nat, a: Bytes, b: Bytes)
    requires n < m && PosMulti(n, j, a) && PosMulti(m, k, b)
    ensures Diverges(a, b)
  {
    if k < j {
      PowGrows(k, j - 1);
    }
    assert a[1..] == BigEndian(n, j) && b[1..] == BigEndian(m, k);
    if j == k {
      BigEndianOrder(n, m, k);
    }
  }

  lemma NegOrder(x: int, y: int, j: nat, k: nat, a: Bytes, b: Bytes)
    requires x < y && NegMulti(x, j, a) && NegMulti(y, k, b)
    ensures Diverges(a, b)
  {
    if j < k {
      PowGrows(j, k - 1);
    }
    assert a[1..] == BigEndian(x + Pow(j), j) && b[1..] == BigEndian(y + Pow(k), k);
    if j == k {
      BigEndianOrder(x + Pow(k), y + Pow(k), k);
    }
  }

  /** The class of the first byte goes up with the integer. */
  ghost function Class(x: int): (c: int) {
    if x < NEG_2BYTE_MIN then 0 else if x < NEG_1BYTE_MIN then 1 else if x < 0 then 2
    else if x <= POS_1BYTE_MAX then 3 else if x <= POS_2BYTE_MAX then 4 else 5
  }

  lemma ClassByte(x: int, a: Bytes)
    requires IsPacked(x, a)
    ensures a != []
    ensures match Class(x)
      case 0 => a[0] < NEG_2BYTE_MARKER
      case 1 => NEG_2BYTE_MARKER <= a[0] < NEG_1BYTE_MARKER
      case 2 => NEG_1BYTE_MARKER <= a[0] < POS_1BYTE_MARKER
      case 3 => POS_1BYTE_MARKER <= a[0] < POS_2BYTE_MARKER
      case 4 => POS_2BYTE_MARKER <= a[0] < POS_MULTI_MARKER
      case _ => POS_MULTI_MARKER <= a[0]
  {
    if Class(x) == 0 {
      var k :| NegMulti(x, k, a);
    } else if Class(x) == 5 {
      var k :| PosMulti(x - POS_2BYTE_MAX - 1, k, a);
    }
  }

  /** Packed integers compare byte by byte as the integers do, whatever follows them. */
  lemma IntOrder(x: int, y: int, a: Bytes, b: Bytes)
    requires x < y && IsPacked(x, a) && IsPacked(y, b)
    ensures Diverges(a, b)
  {
    ClassByte(x, a);
    ClassByte(y, b);
    if Class(x) == Class(y) {
      if Class(x) == 0 {
        var j :| NegMulti(x, j, a);
        var k :| NegMulti(y, k, b);
        NegOrder(x, y, j, k, a, b);
      } else if Class(x) == 5 {
        var n, m := x - POS_2BYTE_MAX - 1, y - POS_2BYTE_MAX - 1;
        var j :| PosMulti(n, j, a);
        var k :| PosMulti(m, k, b);
        PosOrder(n, m, j, k, a, b);
      }
    }
  }

  // ----- tuples -----

  /** A field: an integer, a string that ends at its first NUL, or raw bytes. */
  datatype Value = Int(x: int) | Str(s: Bytes) | Raw(s: Bytes)

  datatype Code = CInt | CStr | CRaw

  function CodeOf(v: Value): (c: Code) {
    match v
    case Int(_) => CInt
    case Str(_) => CStr
    case Raw(_) => CRaw
  }

  function Find(s: Bytes, x: Byte): (n: nat)
    ensures n <= |s| && (n < |s| ==> s[n] == x) && forall k :: 0 <= k < n ==> s[k] != x
  {
    if s == [] || s[0] == x then 0 else 1 + Find(s[1..], x)
  }

  /** What can be packed. */
  ghost predicate Packable(v: Value) {
    match v
    case Int(x) => -TWO_64 <= x < TWO_64
    case Str(s) => true
    case Raw(s) => |s| < TWO_64
  }

  ghost predicate FieldIs(v: Value, last: bool, c: Bytes) {
    match v
    case Int(x) => IsPacked(x, c)
    case Str(s) => c == s[..Find(s, 0)] + [0]
    case Raw(s) => if last then c == s else |c| >= |s| && c[|c| - |s|..] == s && IsPacked(|s|, c[..|c| - |s|])
  }

  ghost predicate Fields(vals: seq<Value>, parts: seq<Bytes>) {
    |parts| == |vals| && forall i :: 0 <= i < |vals| ==> FieldIs(vals[i], i == |vals| - 1, parts[i])
  }

  ghost function Concat(parts: seq<Bytes>): (b: Bytes) {
    if parts == [] then [] else parts[0] + Concat(parts[1..])
  }

  lemma {:induction false} ConcatSnoc(parts: seq<Bytes>, c: Bytes)
    ensures Concat(parts + [c]) == Concat(parts) + c
  {
    if parts == [] {
      assert parts + [c] == [c] && Concat([c][1..]) == [];
    } else {
      assert (parts + [c])[1..] == parts[1..] + [c];
      ConcatSnoc(parts[1..], c);
    }
  }

  /** The bytes are the packed fields, one after the other. */
  ghost predicate IsTuple(vals: seq<Value>, b: Bytes) {
    exists parts :: Fields(vals, parts) && b == Concat(parts)
  }

  method Pack(vals: seq<Value>) returns (b: Bytes)
    requires forall i :: 0 <= i < |vals| ==> Packable(vals[i])
    ensures IsTuple(vals, b)
  {
    hide IsPacked;
    b := [];
    ghost var parts: seq<Bytes> := [];
    var i := 0;
    while i < |vals|
      invariant i <= |vals| == |vals| && |parts| == i && b == Concat(parts)
      invariant forall j :: 0 <= j < i ==> FieldIs(vals[j], j == |vals| - 1, parts[j])
    {
      assert Packable(vals[i]);
      var c: Bytes;
      match vals[i] {
        case Int(x) => c := PackInt(x);
        case Str(s) => c := s[..Find(s, 0)] + [0];
        case Raw(s) =>
          if i == |vals| - 1 {
            c := s;
          } else {
            var d := PackInt(|s|);
            c := d + s;
            assert c[..|c| - |s|] == d && c[|c| - |s|..] == s;
          }
      }
      ConcatSnoc(parts, c);
      b, parts := b + c, parts + [c];
      i := i + 1;
    }
  }

  /** The value as it comes back: a string without what was behind its first NUL. */
  function Back(v: Value): (w: Value) {
    match v
    case Str(s) => Str(s[..Find(s, 0)])
    case _ => v
  }

  /** The first field, and the bytes it takes. */
  method UnpackField(code: Code, last: bool, b: Bytes) returns (ok: bool, v: Value, size: nat)
    ensures ok ==> size <= |b|
    ensures forall w, c, rest :: CodeOf(w) == code && FieldIs(w, last, c) && b == c + rest && (last ==> rest == []) ==>
              ok && v == Back(w) && size == |c|
  {
    hide IsPacked, Pow;
    v := Int(0);
    match code {
      case CInt =>
        var x;
        ok, x, size := UnpackInt(b);
        v := Int(x);
        forall w, c, rest | CodeOf(w) == code && FieldIs(w, last, c) && b == c + rest
          ensures IsPacked(w.x, c) && c <= b
        {
        }
      case CStr =>
        size := Find(b, 0);
        v := Str(b[..size]);
        ok := size < |b|;
        size := if ok then size + 1 else size;
        forall w, c, rest | CodeOf(w) == code && FieldIs(w, last, c) && b == c + rest
          ensures ok && v == Back(w) && size == |c|
        {
          StringEnds(w.s, b, rest);
        }
      case CRaw =>
        if last {
          ok, v, size := true, Raw(b), |b|;
        } else {
          var n;
          ok, n, size := UnpackInt(b);
          ok := ok && n >= 0 && size + n <= |b|;
          if ok {
            v, size := Raw(b[size..size + n]), size + n;
          }
          forall w, c, rest | CodeOf(w) == code && FieldIs(w, last, c) && b == c + rest
            ensures ok && v == Back(w) && size == |c|
          {
            var d := c[..|c| - |w.s|];
            assert d <= b && c == d + w.s;
            assert b[|d|..|c|] == w.s;
          }
        }
    }
  }

  lemma StringEnds(s: Bytes, b: Bytes, rest: Bytes)
    requires b == s[..Find(s, 0)] + [0] + rest
    ensures Find(b, 0) == Find(s, 0) && b[..Find(s, 0)] == s[..Find(s, 0)] && Find(s, 0) < |b|
  {
    var n := Find(s, 0);
    assert b[n] == 0;
    assert forall k :: 0 <= k < n ==> b[k] == s[k];
  }

  /** The bytes are these values, packed by this format. */
  ghost predicate Packs(fmt: seq<Code>, vals: seq<Value>, parts: seq<Bytes>, b: Bytes) {
    && |vals| == |fmt| && Fields(vals, parts) && Concat(parts) == b
    && forall i :: 0 <= i < |fmt| ==> CodeOf(vals[i]) == fmt[i]
  }

  ghost predicate UnpackedTo(vals: seq<Value>, parts: seq<Bytes>, i: nat, out: seq<Value>, rest: Bytes) {
    && i <= |vals| == |parts| && rest == Concat(parts[i..]) && |out| == i
    && forall j :: 0 <= j < i ==> out[j] == Back(vals[j])
  }

  /** Whatever was packed comes back. */
  method Unpack(fmt: seq<Code>, b: Bytes) returns (ok: bool, out: seq<Value>)
    ensures forall vals, parts :: Packs(fmt, vals, parts, b) ==>
              ok && |out| == |vals| && forall j :: 0 <= j < |vals| ==> out[j] == Back(vals[j])
  {
    hide FieldIs, Concat, Fields;
    ok, out := true, [];
    var i, rest := 0, b;
    forall vals, parts | Packs(fmt, vals, parts, b) ensures UnpackedTo(vals, parts, 0, out, rest) {
      UnpackStart(fmt, vals, parts, b);
    }
    while i < |fmt|
      invariant i <= |fmt| && |out| == i
      invariant forall vals, parts :: Packs(fmt, vals, parts, b) ==> UnpackedTo(vals, parts, i, out, rest)
    {
      var v, size;
      ok, v, size := UnpackField(fmt[i], i == |fmt| - 1, rest);
      forall vals, parts | Packs(fmt, vals, parts, b)
        ensures ok && size <= |rest| && UnpackedTo(vals, parts, i + 1, out + [v], rest[size..])
      {
        UnpackNext(fmt, vals, parts, b, i, out, rest);
      }
      if !ok {
        return;
      }
      out, rest := out + [v], rest[size..];
      i := i + 1;
    }
  }

  lemma UnpackStart(fmt: seq<Code>, vals: seq<Value>, parts: seq<Bytes>, b: Bytes)
    requires Packs(fmt, vals, parts, b)
    ensures UnpackedTo(vals, parts, 0, [], b)
  {
    assert parts[0..] == parts;
  }

  lemma UnpackNext(fmt: seq<Code>, vals: seq<Value>, parts: seq<Bytes>, b: Bytes, i: nat, out: seq<Value>, rest: Bytes)
    requires Packs(fmt, vals, parts, b) && i < |fmt| && UnpackedTo(vals, parts, i, out, rest)
    ensures FieldIs(vals[i], i == |fmt| - 1, parts[i]) && CodeOf(vals[i]) == fmt[i]
    ensures rest == parts[i] + Concat(parts[i + 1..]) && (i == |fmt| - 1 ==> Concat(parts[i + 1..]) == [])
    ensures UnpackedTo(vals, parts, i + 1, out + [Back(vals[i])], rest[|parts[i]|..])
  {
    assert parts[i..][0] == parts[i] && parts[i..][1..] == parts[i + 1..];
    assert rest[|parts[i]|..] == Concat(parts[i + 1..]);
  }

  // ----- the order of tuples -----

  lemma {:induction false} LessTotal(a: Bytes, b: Bytes)
    ensures Less(a, b) || a == b || Less(b, a)
    ensures !(Less(a, b) && Less(b, a)) && !Less(a, a)
  {
    if a != [] && b != [] && a[0] == b[0] {
      LessTotal(a[1..], b[1..]);
      assert a == [a[0]] + a[1..] && b == [b[0]] + b[1..];
    }
    if a != [] {
      LessTotal(a[1..], a[1..]);
    }
  }

  /** The values whose packed forms keep their order: integers, and strings without a NUL. */
  ghost predicate Ordinary(v: Value) {
    v.Int? || (v.Str? && Find(v.s, 0) == |v.s|)
  }

  ghost predicate ValueLess(v: Value, w: Value)
    requires Ordinary(v) && Ordinary(w) && CodeOf(v) == CodeOf(w)
  {
    if v.Int? then v.x < w.x else Less(v.s, w.s)
  }

  /** Tuples of the same format, one field after the other. */
  ghost predicate Alike(t: seq<Value>, u: seq<Value>) {
    |t| == |u| && forall i :: 0 <= i < |t| ==> Ordinary(t[i]) && Ordinary(u[i]) && CodeOf(t[i]) == CodeOf(u[i])
  }

  ghost predicate TupleLess(t: seq<Value>, u: seq<Value>)
    requires Alike(t, u)
  {
    t != [] && (ValueLess(t[0], u[0]) || (t[0] == u[0] && TupleLess(t[1..], u[1..])))
  }

  lemma {:induction false} StrOrder(s: Bytes, t: Bytes)
    requires Less(s, t) && Find(t, 0) == |t|
    ensures Diverges(s + [0], t + [0])
  {
    assert (t + [0])[0] == t[0];
    if s != [] && s[0] == t[0] {
      assert (s + [0])[1..] == s[1..] + [0] && (t + [0])[1..] == t[1..] + [0];
      StrOrder(s[1..], t[1..]);
    }
  }

  lemma FieldOrder(v: Value, w: Value, last: bool, c: Bytes, d: Bytes)
    requires Ordinary(v) && Ordinary(w) && CodeOf(v) == CodeOf(w) && FieldIs(v, last, c) && FieldIs(w, last, d)
    ensures ValueLess(v, w) ==> Diverges(c, d)
    ensures v == w ==> c == d
    ensures ValueLess(v, w) || v == w || ValueLess(w, v)
  {
    hide IsPacked;
    if v.Int? {
      if v.x < w.x {
        IntOrder(v.x, w.x, c, d);
      } else if v.x == w.x {
        PackedOnce(v.x, c, d);
      }
    } else {
      LessTotal(v.s, w.s);
      assert v.s[..|v.s|] == v.s && w.s[..|w.s|] == w.s;
      if Less(v.s, w.s) {
        StrOrder(v.s, w.s);
      }
    }
  }

  /** An integer has one packed form. */
  lemma PackedOnce(x: int, c: Bytes, d: Bytes)
    requires IsPacked(x, c) && IsPacked(x, d)
    ensures c == d
  {
    if x < NEG_2BYTE_MIN {
      var j: nat :| NegMulti(x, j, c);
      var k: nat :| NegMulti(x, k, d);
      if j < k { PowGrows(j, k - 1); }
      if k < j { PowGrows(k, j - 1); }
    } else if x > POS_2BYTE_MAX {
      var n := x - POS_2BYTE_MAX - 1;
      assert IsPosMulti(n, c) && IsPosMulti(n, d);
      var j: nat :| PosMulti(n, j, c);
      var k: nat :| PosMulti(n, k, d);
      if j < k { PowGrows(j, k - 1); }
      if k < j { PowGrows(k, j - 1); }
    }
  }

  ghost predicate FieldsFrom(vals: seq<Value>, parts: seq<Bytes>) {
    |parts| == |vals| && forall i :: 0 <= i < |vals| ==> FieldIs(vals[i], false, parts[i])
  }

  lemma {:induction false} TupleDiverges(t: seq<Value>, u: seq<Value>, p: seq<Bytes>, q: seq<Bytes>)
    requires Alike(t, u) && FieldsFrom(t, p) && FieldsFrom(u, q)
    ensures TupleLess(t, u) ==> Less(Concat(p), Concat(q)) && !Less(Concat(q), Concat(p))
    ensures t == u ==> Concat(p) == Concat(q)
    ensures TupleLess(t, u) || t == u || TupleLess(u, t)
  {
    if t != [] {
      FieldOrder(t[0], u[0], false, p[0], q[0]);
      FieldOrder(u[0], t[0], false, q[0], p[0]);
      TupleDiverges(t[1..], u[1..], p[1..], q[1..]);
      hide FieldIs, Less, Diverges;
      if ValueLess(t[0], u[0]) {
        DivergesLess(p[0], q[0], Concat(p[1..]), Concat(q[1..]));
      } else if t[0] == u[0] {
        LessBehind(p[0], Concat(p[1..]), Concat(q[1..]));
        LessBehind(p[0], Concat(q[1..]), Concat(p[1..]));
        assert t == [t[0]] + t[1..] && u == [u[0]] + u[1..];
      }
    }
  }

  lemma {:induction false} LessBehind(c: Bytes, a: Bytes, b: Bytes)
    ensures Less(c + a, c + b) <==> Less(a, b)
  {
    if c == [] {
      assert c + a == a && c + b == b;
    } else {
      assert (c + a)[1..] == c[1..] + a && (c + b)[1..] == c[1..] + b;
      LessBehind(c[1..], a, b);
    }
  }

  /** Packed tuples of integers and strings compare byte by byte exactly as the tuples do. */
  lemma TupleOrder(t: seq<Value>, u: seq<Value>, p: seq<Bytes>, q: seq<Bytes>)
    requires Alike(t, u) && Fields(t, p) && Fields(u, q)
    ensures Less(Concat(p), Concat(q)) <==> TupleLess(t, u)
    ensures Concat(p) == Concat(q) <==> t == u
  {
    forall i | 0 <= i < |t| ensures FieldIs(t[i], false, p[i]) && FieldIs(u[i], false, q[i]) {
      assert FieldIs(t[i], i == |t| - 1, p[i]) && FieldIs(u[i], i == |u| - 1, q[i]);
    }
    TupleDiverges(t, u, p, q);
    TupleDiverges(u, t, q, p);
    LessTotal(Concat(p), Concat(q));
    LessTotal(Concat(p), Concat(p));
  }
}
