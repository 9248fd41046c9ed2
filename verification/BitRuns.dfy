/** Bits of an allocation bitmap: counting them, finding free runs, and how they are packed
    into bytes and bitmap blocks. */
module BitRuns {

  /** Set bits in `lo .. hi`. */
  function Ones(s: seq<bool>, lo: nat, hi: nat): (n: nat)
    requires hi <= |s|
    ensures n <= if lo <= hi then hi - lo else 0
    decreases hi
  {
    if hi <= lo then 0 else Ones(s, lo, hi - 1) + if s[hi - 1] then 1 else 0
  }

  function Zeros(s: seq<bool>, lo: nat, hi: nat): (n: nat)
    requires lo <= hi <= |s|
  {
    hi - lo - Ones(s, lo, hi)
  }

  lemma {:induction false} OnesSplit(s: seq<bool>, lo: nat, m: nat, hi: nat)
    requires lo <= m <= hi <= |s|
    ensures Ones(s, lo, hi) == Ones(s, lo, m) + Ones(s, m, hi)
    decreases hi
  {
    if m < hi { OnesSplit(s, lo, m, hi - 1); }
  }

  lemma {:induction false} OnesSame(s: seq<bool>, t: seq<bool>, lo: nat, hi: nat)
    requires hi <= |s| && hi <= |t| && forall i :: lo <= i < hi ==> s[i] == t[i]
    ensures Ones(s, lo, hi) == Ones(t, lo, hi)
    decreases hi
  {
    if lo < hi { OnesSame(s, t, lo, hi - 1); }
  }

  lemma {:induction false} OnesConstant(s: seq<bool>, lo: nat, hi: nat, v: bool)
    requires lo <= hi <= |s| && forall i :: lo <= i < hi ==> s[i] == v
    ensures Ones(s, lo, hi) == if v then hi - lo else 0
    decreases hi
  {
    if lo < hi { OnesConstant(s, lo, hi - 1, v); }
  }

  /** `s` with the bits `a .. a + n` all `v`. */
  function Marked(s: seq<bool>, a: nat, n: nat, v: bool): seq<bool> {
    seq(|s|, i requires 0 <= i < |s| => if a <= i < a + n then v else s[i])
  }

  lemma MarkedNone(s: seq<bool>, a: nat, v: bool)
    ensures Marked(s, a, 0, v) == s
  {
  }

  lemma MarkedMore(s: seq<bool>, a: nat, n: nat, v: bool)
    requires a + n < |s|
    ensures Marked(s, a, n, v)[a + n := v] == Marked(s, a, n + 1, v)
  {
  }

  predicate FreeRun(s: seq<bool>, a: nat, n: nat) {
    a + n <= |s| && forall i :: a <= i < a + n ==> !s[i]
  }

  ghost predicate NoRun(s: seq<bool>, lo: nat, hi: nat, n: nat) {
    forall a: nat :: lo <= a && a + n <= hi ==> !FreeRun(s, a, n)
  }

  /** `a` starts the lowest run of `n` free bits inside `lo .. hi`. */
  ghost predicate FirstRun(s: seq<bool>, lo: nat, hi: nat, n: nat, a: nat) {
    && lo <= a && a + n <= hi && FreeRun(s, a, n)
    && forall b: nat :: lo <= b < a ==> !FreeRun(s, b, n)
  }

  /** Bits that differ inside `a .. b` only: so do the counts. */
  lemma OnesReplaced(s: seq<bool>, t: seq<bool>, lo: nat, hi: nat, a: nat, b: nat)
    requires lo <= a <= b <= hi <= |s| && |t| == |s|
    requires forall i :: lo <= i < hi && !(a <= i < b) ==> s[i] == t[i]
    ensures Ones(t, lo, hi) == Ones(s, lo, hi) - Ones(s, a, b) + Ones(t, a, b)
  {
    OnesSplit(s, lo, a, hi); OnesSplit(s, a, b, hi);
    OnesSplit(t, lo, a, hi); OnesSplit(t, a, b, hi);
    OnesSame(s, t, lo, a); OnesSame(s, t, b, hi);
  }

  /** Taking a free run off, or giving a set run back, moves the count by its length. */
  lemma OnesMarked(s: seq<bool>, lo: nat, hi: nat, a: nat, n: nat, v: bool)
    requires lo <= a && a + n <= hi <= |s| && forall i :: a <= i < a + n ==> s[i] != v
    ensures Ones(Marked(s, a, n, v), lo, hi) == if v then Ones(s, lo, hi) + n else Ones(s, lo, hi) - n
  {
    var t := Marked(s, a, n, v);
    OnesReplaced(s, t, lo, hi, a, a + n);
    OnesConstant(s, a, a + n, !v); OnesConstant(t, a, a + n, v);
  }

  /** Clearing a range takes off the bits that were set in it. */
  lemma OnesCleared(s: seq<bool>, lo: nat, hi: nat, a: nat, n: nat)
    requires lo <= a && a + n <= hi <= |s|
    ensures Ones(Marked(s, a, n, false), lo, hi) == Ones(s, lo, hi) - Ones(s, a, a + n)
  {
    var t := Marked(s, a, n, false);
    OnesReplaced(s, t, lo, hi, a, a + n);
    OnesConstant(t, a, a + n, false);
  }

  lemma OnesFlip(s: seq<bool>, lo: nat, hi: nat, i: nat, v: bool)
    requires lo <= i < hi <= |s| && s[i] != v
    ensures Ones(s[i := v], lo, hi) == if v then Ones(s, lo, hi) + 1 else Ones(s, lo, hi) - 1
  {
    assert Marked(s, i, 1, v) == s[i := v];
    OnesMarked(s, lo, hi, i, 1, v);
  }

  /** A range with fewer than `n` zeros holds no run of `n`. */
  lemma TooFewZeros(s: seq<bool>, lo: nat, hi: nat, n: nat)
    requires lo <= hi <= |s| && Zeros(s, lo, hi) < n
    ensures NoRun(s, lo, hi, n)
  {
    forall a: nat | lo <= a && a + n <= hi ensures !FreeRun(s, a, n) {
      if FreeRun(s, a, n) {
        OnesSplit(s, lo, a, hi); OnesSplit(s, a, a + n, hi);
        OnesConstant(s, a, a + n, false);
      }
    }
  }

  // ----- scanning

  /** After the bits `lo .. b`: no run of `n` seen, `len` free bits end at `b`, and they
      begin at `start` if there are any. */
  ghost predicate Scanned(s: seq<bool>, lo: nat, b: nat, n: nat, start: nat, len: nat) {
    && lo <= b <= |s| && len < n && len <= b - lo
    && (len > 0 ==> start == b - len)
    && FreeRun(s, b - len, len)
    && (b - len > lo ==> s[b - len - 1])
    && NoRun(s, lo, b, n)
  }

  lemma ScannedSet(s: seq<bool>, lo: nat, b: nat, n: nat, start: nat, len: nat)
    requires Scanned(s, lo, b, n, start, len) && b < |s| && s[b]
    ensures Scanned(s, lo, b + 1, n, start, 0)
  {
    forall a: nat | lo <= a && a + n <= b + 1 ensures !FreeRun(s, a, n) {
      if a + n == b + 1 { assert !(a <= b < a + n ==> !s[b]); }
    }
  }

  lemma ScannedFree(s: seq<bool>, lo: nat, b: nat, n: nat, start: nat, len: nat)
    requires Scanned(s, lo, b, n, start, len) && b < |s| && !s[b]
    ensures var start' := if len == 0 then b else start;
      if len + 1 >= n then FirstRun(s, lo, b + 1, n, start') else Scanned(s, lo, b + 1, n, start', len + 1)
  {
    if len + 1 < n {
      forall a: nat | lo <= a && a + n <= b + 1 ensures !FreeRun(s, a, n) {
        if a + n == b + 1 { assert s[b - len - 1] && a <= b - len - 1 < a + n; }
      }
    }
  }

  lemma FirstRunWider(s: seq<bool>, lo: nat, hi: nat, end: nat, n: nat, a: nat)
    requires FirstRun(s, lo, hi, n, a) && hi <= end
    ensures FirstRun(s, lo, end, n, a)
  {
  }

  // ----- packing

  const BYTES := 4096

  const BLOCK_BITS := 32768

  type Byte = b: seq<bool> | |b| == 8 witness [false, false, false, false, false, false, false, false]

  type BitBlock = b: seq<Byte> | |b| == BYTES
    witness seq(BYTES, _ => [false, false, false, false, false, false, false, false])

  function ByteOf(i: nat): nat {
    (i % BLOCK_BITS) / 8
  }

  function Bit(bs: seq<BitBlock>, i: nat): bool
    requires i < |bs| * BLOCK_BITS
  {
    bs[i / BLOCK_BITS][ByteOf(i)][i % 8]
  }

  /** All bits in address order. */
  function Flat(bs: seq<BitBlock>): (s: seq<bool>)
    ensures |s| == |bs| * BLOCK_BITS
  {
    seq(|bs| * BLOCK_BITS, i requires 0 <= i < |bs| * BLOCK_BITS => Bit(bs, i))
  }

  function WithBit(b: BitBlock, i: nat, v: bool): BitBlock {
    b[ByteOf(i) := b[ByteOf(i)][i % 8 := v]]
  }

  /** Block, byte and bit number tell the address. */
  lemma Address(i: nat, j: nat)
    requires i / BLOCK_BITS == j / BLOCK_BITS && ByteOf(i) == ByteOf(j) && i % 8 == j % 8
    ensures i == j
  {
    WithinBlock(i);
    WithinBlock(j);
  }

  lemma WithinBlock(i: nat)
    ensures i == BLOCK_BITS * (i / BLOCK_BITS) + 8 * ByteOf(i) + i % 8
  {
    var q, r := i / BLOCK_BITS, i % BLOCK_BITS;
    assert i == 8 * (4096 * q) + r;
    assert i % 8 == r % 8;
  }

  /** Changing one bit in its block changes that bit only. */
  lemma FlatSet(bs: seq<BitBlock>, i: nat, v: bool)
    requires i < |bs| * BLOCK_BITS
    ensures Flat(bs[i / BLOCK_BITS := WithBit(bs[i / BLOCK_BITS], i, v)]) == Flat(bs)[i := v]
  {
    var cs := bs[i / BLOCK_BITS := WithBit(bs[i / BLOCK_BITS], i, v)];
    forall j | 0 <= j < |bs| * BLOCK_BITS ensures Flat(cs)[j] == Flat(bs)[i := v][j] {
      if i / BLOCK_BITS == j / BLOCK_BITS && ByteOf(i) == ByteOf(j) && i % 8 == j % 8 {
        Address(i, j);
      }
      assert Flat(cs)[j] == Bit(cs, j);
    }
  }

  /** The eight bits of a byte are consecutive. */
  lemma ByteBits(bs: seq<BitBlock>, bb: nat, bo: nat, k: nat)
    requires bb < |bs| && bo < BYTES && k < 8
    ensures BLOCK_BITS * bb + 8 * bo + k < |bs| * BLOCK_BITS
    ensures Flat(bs)[BLOCK_BITS * bb + 8 * bo + k] == bs[bb][bo][k]
  {
    var i := BLOCK_BITS * bb + 8 * bo + k;
    assert bb + 1 <= |bs|;
    assert i / BLOCK_BITS == bb && i % BLOCK_BITS == 8 * bo + k;
    assert i % 8 == k;
  }

  // ----- regions

  const REGION := 256

  function Lo(r: nat): nat {
    r * REGION
  }

  /** One past the last bit of region `r` in a data area of `n` blocks. */
  function Hi(r: nat, n: nat): nat {
    if r * REGION + REGION > n then n else r * REGION + REGION
  }

  function RegionCount(n: nat): nat {
    (n + REGION - 1) / REGION
  }

  function RegionSize(r: nat, n: nat): nat {
    if Hi(r, n) > Lo(r) then Hi(r, n) - Lo(r) else 0
  }

  lemma RegionOf(i: nat, n: nat)
    requires i < n
    ensures i / REGION < RegionCount(n) && Lo(i / REGION) <= i < Hi(i / REGION, n)
  {
  }

  lemma RegionInside(r: nat, n: nat)
    requires r < RegionCount(n)
    ensures Lo(r) < Hi(r, n) <= n && RegionSize(r, n) == Hi(r, n) - Lo(r)
  {
  }

  /** A region never straddles a bitmap block: all its bits sit in one block, and their bytes
      are consecutive from the region's first byte. */
  lemma OneBlockRegion(r: nat, n: nat, i: nat)
    requires Lo(r) <= i < Hi(r, n)
    ensures i / BLOCK_BITS == Lo(r) / BLOCK_BITS
    ensures ByteOf(i) == ByteOf(Lo(r)) + (i / 8 - Lo(r) / 8) < BYTES
    ensures Lo(r) / 8 * 8 == Lo(r) && Lo(r) / 8 / BYTES == Lo(r) / BLOCK_BITS && Lo(r) / 8 % BYTES == ByteOf(Lo(r))
  {
    var q, m := r / 128, r % 128;
    assert r == 128 * q + m;
    assert Lo(r) == BLOCK_BITS * q + 256 * m;
    var k := i - Lo(r);
    assert i == BLOCK_BITS * q + (256 * m + k) && 256 * m + k < BLOCK_BITS;
    assert i / BLOCK_BITS == q && i % BLOCK_BITS == 256 * m + k;
    assert Lo(r) / BLOCK_BITS == q && Lo(r) % BLOCK_BITS == 256 * m;
    assert ByteOf(Lo(r)) == 32 * m;
    assert ByteOf(i) == 32 * m + k / 8;
    assert Lo(r) / 8 == 4096 * q + 32 * m;
    assert i / 8 == 4096 * q + 32 * m + k / 8;
  }

  function ZerosIn(s: seq<bool>, n: nat, r: nat): nat
    requires n <= |s| && r < RegionCount(n)
  {
    RegionInside(r, n);
    Zeros(s, Lo(r), Hi(r, n))
  }

  /** The number of zero bits of every region. */
  function FreeCounts(s: seq<bool>, n: nat): (rs: seq<nat>)
    requires n <= |s|
    ensures |rs| == RegionCount(n)
  {
    seq(RegionCount(n), r requires 0 <= r < RegionCount(n) => ZerosIn(s, n, r))
  }

  /** Flipping bit `i` moves the count of its region by one and no other. */
  lemma CountsFlip(s: seq<bool>, n: nat, i: nat, v: bool)
    requires i < n <= |s| && s[i] != v
    ensures var rs, r := FreeCounts(s, n), i / REGION;
      && r < |rs|
      && (if v then rs[r] > 0 && FreeCounts(s[i := v], n) == rs[r := rs[r] - 1]
          else rs[r] < RegionSize(r, n) && FreeCounts(s[i := v], n) == rs[r := rs[r] + 1])
  {
    var rs, k, t := FreeCounts(s, n), i / REGION, s[i := v];
    RegionOf(i, n);
    RegionInside(k, n);
    OnesFlip(s, Lo(k), Hi(k, n), i, v);
    assert rs[k] == ZerosIn(s, n, k) && FreeCounts(t, n)[k] == ZerosIn(t, n, k);
    forall r: nat | r < |rs| && r != k ensures FreeCounts(t, n)[r] == rs[r] {
      RegionInside(r, n);
      OtherRegion(i, r, n);
      OnesSame(s, t, Lo(r), Hi(r, n));
    }
  }

  lemma OtherRegion(i: nat, r: nat, n: nat)
    requires r != i / REGION
    ensures !(Lo(r) <= i < Hi(r, n))
  {
  }

  /** Taking a run inside region `k` lowers its count by the run's length. */
  lemma CountsTaken(s: seq<bool>, n: nat, k: nat, a: nat, c: nat)
    requires n <= |s| && k < RegionCount(n) && Lo(k) <= a && a + c <= Hi(k, n) && FreeRun(s, a, c)
    ensures var rs := FreeCounts(s, n);
      rs[k] >= c && FreeCounts(Marked(s, a, c, true), n) == rs[k := rs[k] - c]
  {
    var rs, t := FreeCounts(s, n), Marked(s, a, c, true);
    RegionInside(k, n);
    OnesMarked(s, Lo(k), Hi(k, n), a, c, true);
    assert rs[k] == ZerosIn(s, n, k) && FreeCounts(t, n)[k] == ZerosIn(t, n, k);
    forall r: nat | r < |rs| && r != k ensures FreeCounts(t, n)[r] == rs[r] {
      RegionInside(r, n);
      forall i | Lo(r) <= i < Hi(r, n) ensures s[i] == t[i] {
        assert !(Lo(k) <= i < Hi(k, n));
      }
      OnesSame(s, t, Lo(r), Hi(r, n));
    }
  }

  // ----- marking a run inside one block

  /** A bitmap block with the `n` bits from address `a` on set. */
  function WithRun(b: BitBlock, a: nat, n: nat): BitBlock {
    if n == 0 then b else WithBit(WithRun(b, a, n - 1), a + n - 1, true)
  }

  lemma {:induction false} WithRunFlat(bs: seq<BitBlock>, bb: nat, a: nat, n: nat)
    requires bb < |bs| && forall i :: a <= i < a + n ==> i / BLOCK_BITS == bb
    ensures a + n <= |bs| * BLOCK_BITS || n == 0
    ensures Flat(bs[bb := WithRun(bs[bb], a, n)]) == Marked(Flat(bs), a, n, true)
  {
    if n == 0 {
      MarkedNone(Flat(bs), a, true);
      assert bs[bb := bs[bb]] == bs;
    } else {
      WithRunFlat(bs, bb, a, n - 1);
      var cs := bs[bb := WithRun(bs[bb], a, n - 1)];
      var i := a + n - 1;
      assert i / BLOCK_BITS == bb;
      FlatSet(cs, i, true);
      assert cs[bb := WithBit(cs[bb], i, true)] == bs[bb := WithRun(bs[bb], a, n)];
      MarkedMore(Flat(bs), a, n - 1, true);
    }
  }

  // ----- counting regions from the bitmap

  ghost predicate BitIs(s: seq<bool>, i: nat, v: bool) {
    i < |s| && s[i] == v
  }

  /** The bits of `byte` are those from address `base`, as far as `end`. */
  ghost predicate ByteIs(s: seq<bool>, base: nat, end: nat, byte: Byte) {
    forall k: nat :: k < 8 && base + k < end ==> BitIs(s, base + k, byte[k])
  }

  /** A block whose bytes are the bits from address `base`. */
  ghost predicate BlockIs(s: seq<bool>, base: nat, buf: BitBlock) {
    forall bo: nat :: bo < BYTES ==> ByteIs(s, base + 8 * bo, base + 8 * bo + 8, buf[bo])
  }

  lemma BlockAt(bs: seq<BitBlock>, bb: nat)
    requires bb < |bs|
    ensures BlockIs(Flat(bs), BLOCK_BITS * bb, bs[bb])
  {
    var s, base, buf := Flat(bs), BLOCK_BITS * bb, bs[bb];
    forall bo: nat | bo < BYTES ensures ByteIs(s, base + 8 * bo, base + 8 * bo + 8, buf[bo]) {
      forall k: nat | k < 8 ensures BitIs(s, (base + 8 * bo) + k, buf[bo][k]) {
        ByteBits(bs, bb, bo, k);
      }
    }
  }

  lemma ByteUpTo(s: seq<bool>, base: nat, end: nat, buf: BitBlock, bo: nat)
    requires BlockIs(s, base, buf) && bo < BYTES
    ensures ByteIs(s, base + 8 * bo, end, buf[bo])
  {
    assert ByteIs(s, base + 8 * bo, base + 8 * bo + 8, buf[bo]);
  }

  function Min(a: nat, b: nat): nat {
    if a < b then a else b
  }

  function Clamp(b: nat, lo: nat, hi: nat): nat {
    if b < lo then lo else if b > hi then hi else b
  }

  function Tallied(s: seq<bool>, n: nat, b: nat, r: nat): nat
    requires n <= |s| && r < RegionCount(n)
  {
    RegionInside(r, n);
    RegionSize(r, n) - Ones(s, Lo(r), Clamp(b, Lo(r), Hi(r, n)))
  }

  /** The size of every region less its set bits below address `b`. */
  function Tally(s: seq<bool>, n: nat, b: nat): (rs: seq<nat>)
    requires n <= |s|
    ensures |rs| == RegionCount(n)
  {
    seq(RegionCount(n), r requires 0 <= r < RegionCount(n) => Tallied(s, n, b, r))
  }

  lemma TallySet(s: seq<bool>, n: nat, b: nat)
    requires b < n <= |s| && s[b]
    ensures var rs, k := Tally(s, n, b), b / REGION;
      k < |rs| && rs[k] > 0 && Tally(s, n, b + 1) == rs[k := rs[k] - 1]
  {
    var rs, k := Tally(s, n, b), b / REGION;
    RegionOf(b, n);
    assert rs[k] == Tallied(s, n, b, k);
    forall r: nat | r < |rs| && r != k ensures Tally(s, n, b + 1)[r] == rs[r] {
      OtherRegion(b, r, n);
    }
  }

  /** Clear bits need no decrement. */
  lemma TallyClear(s: seq<bool>, n: nat, b: nat, m: nat)
    requires n <= |s| && forall i :: b <= i < b + m && i < n ==> !s[i]
    ensures Tally(s, n, b + m) == Tally(s, n, b)
  {
    forall r: nat | r < RegionCount(n) ensures Tally(s, n, b + m)[r] == Tally(s, n, b)[r] {
      RegionInside(r, n);
      var x, y := Clamp(b, Lo(r), Hi(r, n)), Clamp(b + m, Lo(r), Hi(r, n));
      OnesSplit(s, Lo(r), x, y);
      OnesConstant(s, x, y, false);
    }
  }

  lemma TallyPast(s: seq<bool>, n: nat, b: nat, c: nat)
    requires n <= |s| && n <= b <= c
    ensures Tally(s, n, b) == Tally(s, n, c)
  {
    TallyClear(s, n, b, c - b);
  }

  lemma TallyStart(s: seq<bool>, n: nat)
    requires n <= |s|
    ensures Tally(s, n, 0) == seq(RegionCount(n), r requires 0 <= r < RegionCount(n) => RegionSize(r, n))
  {
  }

  lemma TallyDone(s: seq<bool>, n: nat, b: nat)
    requires n <= |s| && n <= b
    ensures Tally(s, n, b) == FreeCounts(s, n)
  {
    forall r: nat | r < RegionCount(n) ensures Tally(s, n, b)[r] == FreeCounts(s, n)[r] {
      RegionInside(r, n);
    }
  }

  // ----- what a free operation logs

  /** Clearing `a .. u` equals clearing `a .. b` exactly when no set bit lies beyond. */
  lemma ClearedAlike(s: seq<bool>, a: nat, u: nat, b: nat)
    requires a <= u <= b <= |s|
    ensures Marked(s, a, u - a, false) == Marked(s, a, b - a, false) <==> forall i :: u <= i < b ==> !s[i]
  {
    var x, y := Marked(s, a, u - a, false), Marked(s, a, b - a, false);
    if x == y {
      forall i | u <= i < b ensures !s[i] { assert x[i] == s[i] && y[i] == false; }
    }
  }
}
