/**
 Keys on row-store pages: prefix compression when a page is written, and the ways a key is put
 together again; and the shortening of the keys promoted to internal pages.
 */
module Keys {
  import opened Basics

  /** The most bytes that can be compressed away. */
  const PREFIX_MAX := 255

  /** A key cell: its own bytes, to go behind the first `prefix` bytes of the key before it; or a key on its own. */
  datatype Cell = Key(prefix: nat, suffix: Bytes) | Ovfl(key: Bytes)

  // ----- byte order -----

  predicate Less(a: Bytes, b: Bytes) {
    b != [] && (a == [] || a[0] < b[0] || (a[0] == b[0] && Less(a[1..], b[1..])))
  }

  predicate AtMost(a: Bytes, b: Bytes) {
    a == b || Less(a, b)
  }

  /** How many bytes two keys have in common, `max` at the most. */
  function Common(a: Bytes, b: Bytes, max: nat): (n: nat)
    ensures n <= |a| && n <= |b| && n <= max && a[..n] == b[..n]
    ensures n < |a| && n < |b| && n < max ==> a[n] != b[n]
  {
    if a == [] || b == [] || max == 0 || a[0] != b[0] then 0
    else
      var n := Common(a[1..], b[1..], max - 1);
      assert a[..n + 1] == [a[0]] + a[1..][..n] && b[..n + 1] == [b[0]] + b[1..][..n];
      n + 1
  }

  /** A key between two keys has their common prefix. */
  lemma {:induction false} Between(p: Bytes, o: Bytes, c: Bytes, n: nat)
    requires AtMost(p, o) && AtMost(o, c) && n <= |p| && n <= |c| && p[..n] == c[..n]
    ensures n <= |o| && o[..n] == c[..n]
  {
    if n > 0 {
      assert p[0] == p[..n][0] == c[..n][0] == c[0];
      assert p[1..][..n - 1] == p[..n][1..] && c[1..][..n - 1] == c[..n][1..];
      Between(p[1..], o[1..], c[1..], n - 1);
      assert o[..n] == [o[0]] + o[1..][..n - 1] && c[..n] == [c[0]] + c[1..][..n - 1];
    }
  }

  // ----- what the cells of a page mean -----

  /** The last key before slot `k` that others may be compressed against. */
  ghost function LastKey(cells: seq<Cell>, k: nat): (key: Bytes)
    requires k <= |cells| && Readable(cells, k)
    decreases k, 1
  {
    if k == 0 then []
    else if cells[k - 1].Ovfl? then LastKey(cells, k - 1)
    else LastKey(cells, k - 1)[..cells[k - 1].prefix] + cells[k - 1].suffix
  }

  /** No cell among the first `k` takes more bytes than there are. */
  ghost predicate Readable(cells: seq<Cell>, k: nat)
    requires k <= |cells|
    decreases k, 0
  {
    k == 0 || (Readable(cells, k - 1) && (cells[k - 1].Key? ==> cells[k - 1].prefix <= |LastKey(cells, k - 1)|))
  }

  ghost function KeyAt(cells: seq<Cell>, k: nat): (key: Bytes)
    requires k < |cells| && Readable(cells, k + 1)
  {
    match cells[k]
    case Ovfl(key) => key
    case Key(prefix, suffix) => LastKey(cells, k)[..prefix] + suffix
  }

  lemma {:induction false} ReadableTo(cells: seq<Cell>, n: nat, k: nat)
    requires k <= n <= |cells| && Readable(cells, n)
    ensures Readable(cells, k)
  {
    if k < n {
      ReadableTo(cells, n - 1, k);
    }
  }

  // ----- writing a page -----

  ghost predicate Encodes(cells: seq<Cell>, keys: seq<Bytes>) {
    && |cells| == |keys| && Readable(cells, |cells|)
    && forall k {:trigger IsKeyAt(cells, k, keys[k])} :: 0 <= k < |keys| ==> IsKeyAt(cells, k, keys[k])
  }

  ghost predicate IsKeyAt(cells: seq<Cell>, k: int, key: Bytes) {
    0 <= k < |cells| && Readable(cells, k + 1) && KeyAt(cells, k) == key
  }

  /** A cell added behind the others changes nothing for them. */
  lemma {:induction false} Unchanged(cells: seq<Cell>, c: Cell, k: nat)
    requires k <= |cells| && Readable(cells, k)
    ensures Readable(cells + [c], k) && LastKey(cells + [c], k) == LastKey(cells, k)
  {
    if k > 0 {
      Unchanged(cells, c, k - 1);
    }
  }

  lemma EncodesSnoc(cells: seq<Cell>, keys: seq<Bytes>, c: Cell, key: Bytes)
    requires Encodes(cells, keys) && Suits(c, key, LastKey(cells, |cells|))
    ensures Encodes(cells + [c], keys + [key])
    ensures LastKey(cells + [c], |cells| + 1) == if c.Ovfl? then LastKey(cells, |cells|) else key
  {
    var n := |cells|;
    Unchanged(cells, c, n);
    assert Readable(cells + [c], n + 1) && IsKeyAt(cells + [c], n, key);
    hide Readable, LastKey, KeyAt;
    forall k | 0 <= k < n ensures IsKeyAt(cells + [c], k, keys[k]) {
      assert IsKeyAt(cells, k, keys[k]);
      KeyUnchanged(cells, c, k, keys[k]);
    }
  }

  lemma KeyUnchanged(cells: seq<Cell>, c: Cell, k: nat, key: Bytes)
    requires IsKeyAt(cells, k, key)
    ensures IsKeyAt(cells + [c], k, key)
  {
    Unchanged(cells, c, k);
    Unchanged(cells, c, k + 1);
  }

  lemma {:induction false} PrefixSame(cells: seq<Cell>, n: nat, k: nat)
    requires k <= n <= |cells| && Readable(cells, k)
    ensures Readable(cells[..n], k) && LastKey(cells[..n], k) == LastKey(cells, k)
  {
    if k > 0 {
      PrefixSame(cells, n, k - 1);
    }
  }

  lemma EncodesPrefix(cells: seq<Cell>, keys: seq<Bytes>, n: nat)
    requires Encodes(cells, keys) && n <= |cells|
    ensures Encodes(cells[..n], keys[..n])
  {
    ReadableTo(cells, |cells|, n);
    PrefixSame(cells, n, n);
    forall k | 0 <= k < n ensures IsKeyAt(cells[..n], k, keys[..n][k]) {
      assert IsKeyAt(cells, k, keys[k]);
      ReadableTo(cells, |cells|, k);
      PrefixSame(cells, n, k);
      PrefixSame(cells, n, k + 1);
    }
  }

  /** The cell stands for the key, if this is the last one it may be compressed against. */
  ghost predicate Suits(c: Cell, key: Bytes, last: Bytes) {
    match c
    case Ovfl(o) => o == key
    case Key(p, s) => p <= |last| && key == last[..p] + s
  }

  /** Cells give back only one sequence of keys. */
  lemma EncodesOnce(cells: seq<Cell>, keys: seq<Bytes>, keys': seq<Bytes>)
    requires Encodes(cells, keys) && Encodes(cells, keys')
    ensures keys == keys'
  {
    forall k | 0 <= k < |keys| ensures keys[k] == keys'[k] {
      assert IsKeyAt(cells, k, keys[k]) && IsKeyAt(cells, k, keys'[k]);
    }
  }

  /** Pages that can be read on their own can be read as one. */
  lemma {:induction false} EncodesJoin(a: seq<Cell>, ka: seq<Bytes>, b: seq<Cell>, kb: seq<Bytes>)
    requires Encodes(a, ka) && Encodes(b, kb)
    ensures Encodes(a + b, ka + kb)
    ensures LastKey(b, |b|) == [] || LastKey(a + b, |a + b|) == LastKey(b, |b|)
  {
    if b == [] {
      assert a + b == a && ka + kb == ka;
    } else {
      hide LastKey, Readable, KeyAt, IsKeyAt, Suits;
      var n := |b| - 1;
      LastCell(b, kb);
      EncodesJoin(a, ka, b[..n], kb[..n]);
      JoinSnoc(a + b[..n], ka + kb[..n], b[..n], kb[..n], b[n], kb[n]);
      assert a + b == (a + b[..n]) + [b[n]] && ka + kb == (ka + kb[..n]) + [kb[n]];
      assert b == b[..n] + [b[n]] && kb == kb[..n] + [kb[n]];
    }
  }

  lemma JoinSnoc(a: seq<Cell>, ka: seq<Bytes>, b: seq<Cell>, kb: seq<Bytes>, c: Cell, key: Bytes)
    requires Encodes(a, ka) && Encodes(b, kb) && Suits(c, key, LastKey(b, |b|))
    requires LastKey(b, |b|) == [] || LastKey(a, |a|) == LastKey(b, |b|)
    ensures Encodes(a + [c], ka + [key]) && Encodes(b + [c], kb + [key])
    ensures var n := |b| + 1; LastKey(b + [c], n) == [] || LastKey(a + [c], |a| + 1) == LastKey(b + [c], n)
  {
    hide LastKey, Readable, KeyAt;
    EncodesSnoc(b, kb, c, key);
    EncodesSnoc(a, ka, c, key);
  }

  lemma LastCell(b: seq<Cell>, kb: seq<Bytes>)
    requires Encodes(b, kb) && b != []
    ensures var n := |b| - 1; Encodes(b[..n], kb[..n]) && Readable(b[..n], n) && Suits(b[n], kb[n], LastKey(b[..n], n))
  {
    var n := |b| - 1;
    EncodesPrefix(b, kb, n);
    assert IsKeyAt(b, n, kb[n]);
    ReadableTo(b, |b|, n);
    PrefixSame(b, n, n);
  }

  /** As many bytes are compressed away as can be, and the key is by itself exactly if it is then still too long. */
  ghost predicate Best(c: Cell, key: Bytes, last: Bytes, compress: bool, maxItem: nat) {
    var pfx := if compress then Common(key, last, 255) else 0;
    if |key| - pfx > maxItem then c == Ovfl(key) else c == Key(pfx, key[pfx..])
  }

  lemma BestSuits(c: Cell, key: Bytes, last: Bytes, compress: bool, maxItem: nat)
    requires Best(c, key, last, compress, maxItem)
    ensures Suits(c, key, if compress then last else [])
    ensures if c.Ovfl? then |key| > maxItem else |c.suffix| <= maxItem && c.prefix <= PREFIX_MAX
  {
    var pfx := if compress then Common(key, last, 255) else 0;
    assert key == key[..pfx] + key[pfx..];
  }

  /** The cell of a key: compressed against the last one if it may be, or by itself if it is then still too long. */
  method BuildKey(key: Bytes, last: Bytes, compress: bool, maxItem: nat) returns (c: Cell)
    ensures Best(c, key, last, compress, maxItem)
  {
    var pfx := 0;
    if compress {
      pfx := CommonPrefix(key, last);
    }
    c := if |key| - pfx > maxItem then Ovfl(key) else Key(pfx, key[pfx..]);
  }

  lemma BestAs(c: Cell, key: Bytes, last: Bytes, compress: bool, last': Bytes, compress': bool, maxItem: nat)
    requires Best(c, key, last, compress, maxItem)
    requires if compress then compress' && last' == last else compress' ==> last' == []
    ensures Best(c, key, last', compress', maxItem) && Suits(c, key, last')
  {
    BestSuits(c, key, last', compress', maxItem);
  }

  ghost predicate BestAt(cells: seq<Cell>, k: int, key: Bytes, compress: bool, maxItem: nat) {
    0 <= k < |cells| && Readable(cells, k) && Best(cells[k], key, LastKey(cells, k), compress, maxItem)
  }

  /** The cells give back the keys, and each is the best there is. */
  ghost predicate Written(cells: seq<Cell>, keys: seq<Bytes>, compress: bool, maxItem: nat) {
    Encodes(cells, keys) && forall k :: 0 <= k < |cells| ==> BestAt(cells, k, keys[k], compress, maxItem)
  }

  lemma WrittenSnoc(cells: seq<Cell>, keys: seq<Bytes>, c: Cell, key: Bytes, compress: bool, maxItem: nat)
    requires Written(cells, keys, compress, maxItem) && Best(c, key, LastKey(cells, |cells|), compress, maxItem)
    requires Suits(c, key, LastKey(cells, |cells|))
    ensures Written(cells + [c], keys + [key], compress, maxItem)
    ensures LastKey(cells + [c], |cells| + 1) == if c.Ovfl? then LastKey(cells, |cells|) else key
  {
    hide Readable, LastKey, Best, KeyAt, IsKeyAt, Suits;
    EncodesSnoc(cells, keys, c, key);
    forall k | 0 <= k <= |cells| ensures BestAt(cells + [c], k, (keys + [key])[k], compress, maxItem) {
      if k < |cells| {
        assert BestAt(cells, k, keys[k], compress, maxItem);
      }
      Unchanged(cells, c, k);
    }
  }

  /** What may be compressed against is the last key of the page, if there is one. */
  ghost predicate Against(cells: seq<Cell>, last: Bytes, compress: bool, configured: bool) {
    && Readable(cells, |cells|)
    && (if compress then configured && last == LastKey(cells, |cells|)
        else configured ==> LastKey(cells, |cells|) == [])
  }

  lemma AgainstBest(cells: seq<Cell>, last: Bytes, compress: bool, configured: bool, c: Cell, key: Bytes, maxItem: nat)
    requires Against(cells, last, compress, configured) && Best(c, key, last, compress, maxItem)
    ensures Best(c, key, LastKey(cells, |cells|), configured, maxItem) && Suits(c, key, LastKey(cells, |cells|))
  {
    BestAs(c, key, last, compress, LastKey(cells, |cells|), configured, maxItem);
  }

  /**
   The cells written for the keys of a page.  Each key but the first is compressed against the last
   one that was not too long, if compression is configured, as far as it can be; the cells give the keys
   back.
   */
  method BuildKeys(keys: seq<Bytes>, configured: bool, maxItem: nat) returns (cells: seq<Cell>)
    ensures Written(cells, keys, configured, maxItem)
  {
    cells := [];
    var compress, last: Bytes := false, [];
    var i := 0;
    assert keys[..0] == [];
    while i < |keys|
      invariant i <= |keys| && Written(cells, keys[..i], configured, maxItem)
      invariant Against(cells, last, compress, configured)
    {
      var key := keys[i];
      var c := BuildKey(key, last, compress, maxItem);
      AgainstBest(cells, last, compress, configured, c, key, maxItem);
      hide LastKey, Best, Suits, BestAt, IsKeyAt, KeyAt;
      WrittenSnoc(cells, keys[..i], c, key, configured, maxItem);
      assert keys[..i + 1] == keys[..i] + [key];
      cells := cells + [c];
      if !c.Ovfl? {
        last, compress := key, configured;
      }
      i := i + 1;
    }
    assert keys[..i] == keys;
  }

  method CommonPrefix(key: Bytes, last: Bytes) returns (pfx: nat)
    ensures pfx == Common(key, last, PREFIX_MAX)
  {
    var pfxMax := PREFIX_MAX;
    if |key| < pfxMax {
      pfxMax := |key|;
    }
    if |last| < pfxMax {
      pfxMax := |last|;
    }
    pfx := 0;
    while pfx < pfxMax && key[pfx] == last[pfx]
      invariant pfx <= pfxMax && key[..pfx] == last[..pfx]
    {
      pfx := pfx + 1;
    }
    CommonIs(key, last, PREFIX_MAX, pfx);
  }

  lemma SameAt(a: Bytes, b: Bytes, n: nat, m: nat)
    requires m < n && n <= |a| && n <= |b| && a[..n] == b[..n]
    ensures a[m] == b[m]
  {
    assert a[m] == a[..n][m];
  }

  lemma CommonIs(a: Bytes, b: Bytes, max: nat, n: nat)
    requires n <= |a| && n <= |b| && n <= max && a[..n] == b[..n]
    requires n < |a| && n < |b| && n < max ==> a[n] != b[n]
    ensures n == Common(a, b, max)
  {
    var m := Common(a, b, max);
    if m < n {
      SameAt(a, b, n, m);
    } else if n < m {
      SameAt(a, b, m, n);
    }
  }

  // ----- reading a page from the start -----

  /** All keys of a page, each from the last one that is no overflow key. */
  method DecodeAll(cells: seq<Cell>) returns (keys: seq<Bytes>)
    requires Readable(cells, |cells|)
    ensures Encodes(cells, keys)
  {
    keys := [];
    var last: Bytes := [];
    var i := 0;
    while i < |cells|
      invariant i <= |cells| && |keys| == i && Readable(cells, i) && last == LastKey(cells, i)
      invariant forall k :: 0 <= k < i ==> IsKeyAt(cells, k, keys[k])
    {
      ReadableTo(cells, |cells|, i + 1);
      var current;
      match cells[i] {
        case Ovfl(key) =>
          current := key;
        case Key(prefix, suffix) =>
          current := last[..prefix] + suffix;
          last := current;
      }
      keys := keys + [current];
      i := i + 1;
    }
  }

  // ----- rebuilding one key -----

  /** A cell that no key can be rebuilt from, if its own key is not in memory. */
  ghost predicate Skipped(c: Cell) {
    c.Ovfl? || c.prefix > 0
  }

  lemma {:induction false} FirstWhole(cells: seq<Cell>, k: nat)
    requires k <= |cells| && Readable(cells, k) && forall j :: 0 <= j < k ==> Skipped(cells[j])
    ensures LastKey(cells, k) == []
  {
    if k > 0 {
      FirstWhole(cells, k - 1);
    }
  }

  /** A compressed key has one before it that is not. */
  lemma NotFirst(cells: seq<Cell>, k: nat, target: nat)
    requires k <= target < |cells| && Readable(cells, |cells|) && cells[target].Key?
    requires forall j :: k <= j <= target ==> Skipped(cells[j])
    ensures k > 0
  {
    ReadableTo(cells, |cells|, target + 1);
    if k == 0 {
      FirstWhole(cells, target);
    }
  }

  /**
   One key of a page: roll backward to the nearest key that can be used, then forward again.  Keys may
   be in memory, where they are as they were read from the page; other threads may put more there
   meanwhile: `inMemory` says which are there at each moment.
   */
  method KeyCopy(cells: seq<Cell>, target: nat, ikeys: seq<Bytes>, inMemory: (nat, nat) -> bool) returns (key: Bytes)
    requires target < |cells| && Encodes(cells, ikeys)
    ensures IsKeyAt(cells, target, key)
  {
    key := [];
    var rip: nat, backward, now: nat := target, true, 0;
    assert IsKeyAt(cells, target, ikeys[target]);
    while true
      invariant rip <= target
      invariant backward ==> forall j :: rip < j <= target ==> Skipped(cells[j])
      invariant rip < target ==> cells[target].Key?
      invariant !backward ==> forall j :: rip <= j <= target ==> Skipped(cells[j])
      invariant !backward ==> cells[target].Key? && Readable(cells, rip) && key == LastKey(cells, rip)
      decreases backward, if backward then rip else target - rip
    {
      assert IsKeyAt(cells, rip, ikeys[rip]);
      var present := inMemory(now, rip);
      now := now + 1;
      if present || cells[rip].Ovfl? || cells[rip].prefix == 0 {
        var stored := if present then ikeys[rip] else if cells[rip].Ovfl? then cells[rip].key else cells[rip].suffix;
        if rip == target {
          return stored;
        }
        assert !present && cells[rip].Key? ==> backward;
        if !cells[rip].Ovfl? {
          key, backward := stored, false;
        }
      } else if !backward {
        key := key[..cells[rip].prefix] + cells[rip].suffix;
        if rip == target {
          return;
        }
      }
      if backward {
        NotFirst(cells, rip, target);
        rip := rip - 1;
      } else {
        rip := rip + 1;
      }
    }
  }

  // ----- the verifier's shorter way -----

  /** In order of the bytes, each key at least the one before it. */
  ghost predicate InOrder(keys: seq<Bytes>) {
    forall i, j {:trigger AtMost(keys[i], keys[j])} :: 0 <= i < j < |keys| ==> AtMost(keys[i], keys[j])
  }

  /** The last key before `k` that others may be compressed against is at `m`, if it is not the start of the page. */
  lemma {:induction false} LastKeyFrom(cells: seq<Cell>, k: nat) returns (m: int)
    requires k <= |cells| && Readable(cells, k)
    ensures -1 <= m < k
    ensures if m < 0 then LastKey(cells, k) == [] else IsKeyAt(cells, m, LastKey(cells, k))
  {
    if k == 0 {
      m := -1;
    } else if cells[k - 1].Ovfl? {
      m := LastKeyFrom(cells, k - 1);
    } else {
      m := k - 1;
    }
  }

  /**
   Taking a key's prefix from the key just before it, an overflow key perhaps, gives the same key, if
   the keys are in byte order and no more is taken than was in common.
   */
  lemma PrefixFromAny(cells: seq<Cell>, keys: seq<Bytes>, k: nat)
    requires Encodes(cells, keys) && InOrder(keys) && 0 < k < |keys| && cells[k].Key?
    ensures cells[k].prefix <= |keys[k - 1]| && keys[k] == keys[k - 1][..cells[k].prefix] + cells[k].suffix
  {
    assert IsKeyAt(cells, k, keys[k]);
    var p := cells[k].prefix;
    var last := LastKey(cells, k);
    var m := LastKeyFrom(cells, k);
    assert keys[k][..p] == last[..p];
    assert AtMost(keys[k - 1], keys[k]);
    if m >= 0 {
      assert IsKeyAt(cells, m, keys[m]);
      assert m == k - 1 || AtMost(keys[m], keys[k - 1]);
      Between(last, keys[k - 1], keys[k], p);
    }
  }

  // ----- promoted keys -----

  /** Keys in order differ where the first is shorter or has the smaller byte. */
  lemma {:induction false} LessAt(a: Bytes, b: Bytes, n: nat)
    requires n <= |a| && n <= |b| && a[..n] == b[..n]
    ensures n < |a| && n < |b| && a[n] != b[n] ==> (Less(a, b) <==> a[n] < b[n])
    ensures n == |a| && n < |b| ==> Less(a, b)
    ensures n == |b| ==> !Less(a, b)
  {
    if n > 0 {
      assert a[0] == a[..n][0] == b[..n][0] == b[0];
      assert a[1..][..n - 1] == a[..n][1..] && b[1..][..n - 1] == b[..n][1..];
      LessAt(a[1..], b[1..], n - 1);
    }
  }

  /**
   The key promoted for a page: enough of its first key to be greater than the last key of the page
   before it, and no more.
   */
  method Promote(last: Bytes, cur: Bytes) returns (sep: Bytes)
    requires Less(last, cur)
    ensures sep <= cur && Less(last, sep) && AtMost(sep, cur)
    ensures forall n :: 0 <= n < |sep| ==> !Less(last, cur[..n])
  {
    var len := if |last| < |cur| then |last| else |cur|;
    var size, cnt := len + 1, 1;
    while cnt <= len
      invariant 1 <= cnt <= len + 1 && size == len + 1 && last[..cnt - 1] == cur[..cnt - 1]
    {
      if last[cnt - 1] != cur[cnt - 1] {
        size := cnt;
        break;
      }
      cnt := cnt + 1;
    }
    var n := size - 1;
    assert last[..n] == cur[..n];
    LessAt(last, cur, n);
    sep := cur[..size];
    assert sep[..n] == cur[..n];
    LessAt(last, sep, n);
    LessAt(sep, cur, |sep|);
    forall j | 0 <= j < |sep| ensures !Less(last, cur[..j]) {
      assert cur[..j][..j] == cur[..n][..j] == last[..n][..j] == last[..j];
      LessAt(last, cur[..j], j);
    }
  }
}
