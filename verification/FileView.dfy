/** What a file reads as: the byte behind each offset through its extents, zero in holes. */
module FileView {
  import opened Extents
  import opened ExtentCuts

  type Block = seq<bv8>

  lemma FindIsMaps(xs: seq<Extent>, l: nat, p: nat)
    requires Disjoint(xs)
    ensures Find(xs, l) == At(p) <==> Maps(xs, l, p)
  {
    DisjointUnique(xs, l);
    FindUnique(xs, l, p);
  }

  function Byte(d: map<nat, Block>, p: nat, k: nat): bv8 {
    if p in d && k < |d[p]| then d[p][k] else 0
  }

  /** The backing view of a file. */
  function ByteAt(xs: seq<Extent>, d: map<nat, Block>, o: nat): bv8 {
    match Find(xs, o / BLOCK_SIZE)
    case Hole => 0
    case At(p) => Byte(d, p, o % BLOCK_SIZE)
  }

  lemma InBlock(xs: seq<Extent>, d: map<nat, Block>, l: nat, k: nat)
    requires k < BLOCK_SIZE
    ensures ByteAt(xs, d, l * BLOCK_SIZE + k) == match Find(xs, l) { case Hole => 0 case At(p) => Byte(d, p, k) }
  {
    assert (l * BLOCK_SIZE + k) / BLOCK_SIZE == l && (l * BLOCK_SIZE + k) % BLOCK_SIZE == k;
  }

  /** Offset `o` reads as `data` inside the written range and as before outside it. */
  ghost predicate ReplacedAt(b: bv8, b': bv8, offset: nat, data: seq<bv8>, o: nat) {
    b' == if offset <= o < offset + |data| then data[o - offset] else b
  }

  ghost predicate Replaced(xs: seq<Extent>, d: map<nat, Block>, ys: seq<Extent>, d': map<nat, Block>, offset: nat,
                           data: seq<bv8>) {
    forall o: nat :: ReplacedAt(ByteAt(xs, d, o), ByteAt(ys, d', o), offset, data, o)
  }

  ghost predicate SameView(xs: seq<Extent>, d: map<nat, Block>, d': map<nat, Block>) {
    forall o: nat :: ByteAt(xs, d', o) == ByteAt(xs, d, o)
  }

  /** Two adjoining replacements are one. */
  lemma ReplacedChain(xs: seq<Extent>, d: map<nat, Block>, ys: seq<Extent>, e: map<nat, Block>, zs: seq<Extent>,
                      f: map<nat, Block>, offset: nat, a: seq<bv8>, b: seq<bv8>)
    requires Replaced(xs, d, ys, e, offset, a) && Replaced(ys, e, zs, f, offset + |a|, b)
    ensures Replaced(xs, d, zs, f, offset, a + b)
  {
    forall o: nat ensures ReplacedAt(ByteAt(xs, d, o), ByteAt(zs, f, o), offset, a + b, o) {
      assert ReplacedAt(ByteAt(xs, d, o), ByteAt(ys, e, o), offset, a, o);
      assert ReplacedAt(ByteAt(ys, e, o), ByteAt(zs, f, o), offset + |a|, b, o);
    }
  }

  /** A block with `data` copied in at `off`. */
  function Patched(b: Block, off: nat, data: seq<bv8>): (r: Block)
    requires off + |data| <= |b|
    ensures |r| == |b|
    ensures forall k :: 0 <= k < |b| ==> r[k] == if off <= k < off + |data| then data[k - off] else b[k]
  {
    b[..off] + data + b[off + |data|..]
  }

  /** `ys` maps what `xs` does, and `l` to `p`. */
  ghost predicate GainsOne(xs: seq<Extent>, ys: seq<Extent>, l: nat, p: nat) {
    forall k, q :: Maps(ys, k, q) <==> Maps(xs, k, q) || (k == l && q == p)
  }

  /** Patching the block that backs `l`: the whole effect on the file's view. `b` is the
      block's old content, or zeros when `l` was a hole. */
  lemma BlockWritten(xs: seq<Extent>, d: map<nat, Block>, ys: seq<Extent>, l: nat, p: nat, b: Block, off: nat,
                     data: seq<bv8>)
    requires Disjoint(xs) && Disjoint(ys) && GainsOne(xs, ys, l, p)
    requires forall k, q :: Maps(ys, k, q) && q == p ==> k == l
    requires |b| == BLOCK_SIZE && off + |data| <= BLOCK_SIZE
    requires forall k :: 0 <= k < BLOCK_SIZE ==> b[k] == ByteAt(xs, d, l * BLOCK_SIZE + k)
    ensures Replaced(xs, d, ys, d[p := Patched(b, off, data)], l * BLOCK_SIZE + off, data)
  {
    var d' := d[p := Patched(b, off, data)];
    forall o: nat ensures ReplacedAt(ByteAt(xs, d, o), ByteAt(ys, d', o), l * BLOCK_SIZE + off, data, o) {
      var m, k := o / BLOCK_SIZE, o % BLOCK_SIZE;
      assert o == m * BLOCK_SIZE + k;
      if m == l {
        FindIsMaps(ys, l, p);
        assert b[k] == ByteAt(xs, d, o);
      } else {
        OtherBlock(xs, ys, l, p, m);
      }
    }
  }

  lemma OtherBlock(xs: seq<Extent>, ys: seq<Extent>, l: nat, p: nat, m: nat)
    requires Disjoint(xs) && Disjoint(ys) && GainsOne(xs, ys, l, p) && m != l
    requires forall k, q :: Maps(ys, k, q) && q == p ==> k == l
    ensures Find(ys, m) == Find(xs, m) != At(p)
  {
    if Find(ys, m).At? {
      FindIsMaps(ys, m, Find(ys, m).p);
      FindIsMaps(xs, m, Find(ys, m).p);
    }
    if Find(xs, m).At? {
      FindIsMaps(xs, m, Find(xs, m).p);
      FindIsMaps(ys, m, Find(xs, m).p);
    }
  }

  /** Writing a block that a file does not use leaves the file's view alone. */
  lemma Untouched(xs: seq<Extent>, d: map<nat, Block>, p: nat, b: Block)
    requires forall k :: !Maps(xs, k, p)
    ensures SameView(xs, d, d[p := b])
  {
    forall o: nat ensures ByteAt(xs, d[p := b], o) == ByteAt(xs, d, o) {
      FindMaps(xs, o / BLOCK_SIZE);
    }
  }

  /** What a cut does to the view: zeros in the cut blocks, no other byte changes. */
  lemma CutView(xs: seq<Extent>, ys: seq<Extent>, d: map<nat, Block>, c: Cut, o: nat)
    requires CutFinds(xs, ys, c)
    ensures ByteAt(ys, d, o) == if InCut(c, o / BLOCK_SIZE) then 0 else ByteAt(xs, d, o)
  {
    assert Find(ys, o / BLOCK_SIZE) == if InCut(c, o / BLOCK_SIZE) then Hole else Find(xs, o / BLOCK_SIZE);
  }

  // ----- sizes and ranges in 64 bits

  const WORD := 0x1_0000_0000_0000_0000

  type U64 = n: nat | n < WORD

  /** The blocks that `size` bytes take. */
  function Blocks(size: nat): nat {
    (size + BLOCK_SIZE - 1) / BLOCK_SIZE
  }

  /** The same as the source computes it. */
  function Blocks64(size: nat): nat {
    (size + BLOCK_SIZE - 1) % WORD / BLOCK_SIZE
  }

  /** The count is right for all sizes but the last 4095, for which it is 0. */
  lemma BlocksExact(size: U64)
    ensures Blocks64(size) == Blocks(size) <==> size <= WORD - BLOCK_SIZE
    ensures size > WORD - BLOCK_SIZE ==> Blocks64(size) == 0 && Blocks(size) == WORD / BLOCK_SIZE
  {
    if size > WORD - BLOCK_SIZE {
      assert (size + BLOCK_SIZE - 1) % WORD == size + BLOCK_SIZE - 1 - WORD < BLOCK_SIZE;
    }
  }

  /** Truncation from `size` to `newSize` bytes takes blocks away, as the source decides. */
  predicate Cuts(size: nat, newSize: nat) {
    newSize < size && Blocks64(newSize) < Blocks64(size)
  }

  /** The source cuts when there are blocks to cut, and from the right one on, exactly if the
      old size is not one of the last 4095 sizes or the new one is too. */
  lemma CutsExactly(size: U64, newSize: U64)
    requires newSize < size
    ensures (&& (Cuts(size, newSize) <==> Blocks(newSize) < Blocks(size))
             && (Cuts(size, newSize) ==> Blocks64(newSize) == Blocks(newSize)))
       <==> size <= WORD - BLOCK_SIZE || newSize > WORD - BLOCK_SIZE
  {
    BlocksExact(size);
    BlocksExact(newSize);
  }

  /** A file grown to the largest size and truncated to ten bytes: nothing is cut. */
  lemma NothingCut()
    ensures !Cuts(WORD - 1, 10) && Blocks(10) < Blocks(WORD - 1)
  {
    BlocksExact(WORD - 1);
    BlocksExact(10);
  }

  /** How many bytes from `offset` on a file of `size` bytes has for a request of `len`: the
      sum wraps, and then nothing is clipped. */
  function Clipped(size: nat, offset: nat, len: nat): (n: nat)
    requires offset < size
  {
    if (offset + len) % WORD > size then size - offset else len
  }

  /** The request is clipped to the end of the file exactly if the sum does not wrap. */
  lemma ClippedExactly(size: U64, offset: U64, len: U64)
    requires offset < size
    ensures Clipped(size, offset, len) == (if offset + len > size then size - offset else len) <==> offset + len < WORD
  {
  }

  /** The end of the range that is to be punched, and the block behind it as computed. */
  function PunchEnd(size: nat, offset: nat, len: nat): nat {
    if offset + len > size then size else offset + len
  }

  function PunchHi(size: nat, offset: nat, len: nat): nat
    requires offset < size
  {
    Blocks64(offset + Clipped(size, offset, len))
  }

  /** The end is not one of the last 4095 offsets, and the sum either does not wrap or wraps
      into the last block of the file. */
  predicate PunchInRange(size: nat, offset: nat, len: nat) {
    && PunchEnd(size, offset, len) <= WORD - BLOCK_SIZE
    && (offset + len < WORD || offset + len - WORD > (Blocks(size) - 1) * BLOCK_SIZE)
  }

  /** The hole ends where it should exactly then. */
  lemma PunchExactly(size: U64, offset: U64, len: U64)
    requires offset < size && len > 0
    ensures PunchHi(size, offset, len) == Blocks(PunchEnd(size, offset, len)) <==> PunchInRange(size, offset, len)
    ensures PunchInRange(size, offset, len) ==> offset / BLOCK_SIZE <= PunchHi(size, offset, len)
  {
    BlocksExact(PunchEnd(size, offset, len));
    if offset + len >= WORD {
      var sum := offset + len - WORD;
      assert (offset + len) % WORD == sum < offset;
      assert (offset + len + BLOCK_SIZE - 1) % WORD == (sum + BLOCK_SIZE - 1) % WORD;
      BlocksExact(sum);
      BlocksExact(size);
    }
  }

  /** Two requests on a file of five blocks, from block 2 on: one ends the hole before its
      start, the other makes it empty. */
  lemma PunchWraps()
    ensures PunchHi(20480, 8192, WORD - 8191) == 1 && PunchHi(20480, 8192, WORD - 1) == 2 == 8192 / BLOCK_SIZE
  {
  }

  /** A chunk stays inside one block, however the position wraps. */
  lemma WithinBlock64(offset: U64, done: nat, k: nat)
    requires (offset + done) % WORD % BLOCK_SIZE + k < BLOCK_SIZE
    ensures (offset + done + k) % WORD == (offset + done) % WORD + k
    ensures (offset + done + k) % WORD / BLOCK_SIZE == (offset + done) % WORD / BLOCK_SIZE
    ensures (offset + done + k) % WORD % BLOCK_SIZE == (offset + done) % WORD % BLOCK_SIZE + k
  {
    var pos, q := (offset + done) % WORD, (offset + done) / WORD;
    assert offset + done == q * WORD + pos;
    assert pos + k < WORD;
    assert (q * WORD + (pos + k)) % WORD == pos + k;
  }

  lemma SameRest(n: nat)
    ensures n % WORD % BLOCK_SIZE == n % BLOCK_SIZE
  {
    var q, r := n / WORD, n % WORD;
    assert n == q * (WORD / BLOCK_SIZE) * BLOCK_SIZE + r;
  }

  /** All chunks but the last end with a block. */
  lemma ChunkEnd(offset: nat, done: nat, n: nat)
    ensures var room := BLOCK_SIZE - (offset + done) % WORD % BLOCK_SIZE;
      n - done > room ==> (offset + done + room) % BLOCK_SIZE == 0
  {
    SameRest(offset + done);
    BlockEnd(offset + done);
  }

  lemma BlockEnd(n: nat)
    ensures (n + (BLOCK_SIZE - n % BLOCK_SIZE)) % BLOCK_SIZE == 0
  {
    assert n + (BLOCK_SIZE - n % BLOCK_SIZE) == (n / BLOCK_SIZE + 1) * BLOCK_SIZE;
  }

  /** Some of the first `done` bytes from `offset` on lie in block `m`. */
  predicate Touched(offset: nat, done: nat, m: nat) {
    done > 0 && offset < (m + 1) * BLOCK_SIZE && m * BLOCK_SIZE < offset + done
  }

  /** `b` was read for the byte at `pos`: that byte, or a zero if its block is in `blind`. */
  predicate ByteRead(xs: seq<Extent>, d: map<nat, Block>, pos: nat, b: bv8, blind: set<nat>) {
    b == ByteAt(xs, d, pos) || (b == 0 && pos / BLOCK_SIZE in blind)
  }

  /** The bytes are the view from `offset` on, or zeros in the blocks of `blind`. */
  ghost predicate ReadAs(xs: seq<Extent>, d: map<nat, Block>, offset: nat, bytes: seq<bv8>, blind: set<nat>) {
    forall i: nat :: i < |bytes| ==> ByteRead(xs, d, (offset + i) % WORD, bytes[i], blind)
  }

  predicate ByteExact(xs: seq<Extent>, d: map<nat, Block>, pos: nat, b: bv8, blind: set<nat>) {
    b == if pos / BLOCK_SIZE in blind then 0 else ByteAt(xs, d, pos)
  }

  /** `blind` has blocks of the range only, and no byte of them is read. */
  ghost predicate ReadExactly(xs: seq<Extent>, d: map<nat, Block>, offset: nat, bytes: seq<bv8>, blind: set<nat>) {
    && (forall m :: m in blind ==> Touched(offset, |bytes|, m))
    && forall i: nat :: i < |bytes| ==> ByteExact(xs, d, offset + i, bytes[i], blind)
  }

  lemma AllSeen(xs: seq<Extent>, d: map<nat, Block>, offset: nat, bytes: seq<bv8>)
    requires ReadAs(xs, d, offset, bytes, {})
    ensures forall i: nat :: i < |bytes| ==> bytes[i] == ByteAt(xs, d, (offset + i) % WORD)
  {
    forall i: nat | i < |bytes| ensures bytes[i] == ByteAt(xs, d, (offset + i) % WORD) {
      assert ByteRead(xs, d, (offset + i) % WORD, bytes[i], {});
    }
  }

  function Missing(blind: set<nat>, l: nat, missed: bool): set<nat> {
    if missed then blind + {l} else blind
  }

  /** The view from `pos` on, or zeros. */
  ghost predicate ChunkRead(xs: seq<Extent>, d: map<nat, Block>, pos: nat, bytes: seq<bv8>, missed: bool) {
    forall i: nat :: i < |bytes| ==> bytes[i] == if missed then 0 else ByteAt(xs, d, pos + i)
  }

  /** One chunk more, at `pos`. */
  lemma ReadMore(xs: seq<Extent>, d: map<nat, Block>, offset: U64, bytes: seq<bv8>, blind: set<nat>, pos: nat,
                 more: seq<bv8>, missed: bool)
    requires ReadAs(xs, d, offset, bytes, blind) && ChunkRead(xs, d, pos, more, missed)
    requires pos == (offset + |bytes|) % WORD && pos % BLOCK_SIZE + |more| <= BLOCK_SIZE
    ensures ReadAs(xs, d, offset, bytes + more, Missing(blind, pos / BLOCK_SIZE, missed))
  {
    var all, blind' := bytes + more, Missing(blind, pos / BLOCK_SIZE, missed);
    forall i: nat | i < |all| ensures ByteRead(xs, d, (offset + i) % WORD, all[i], blind') {
      if i < |bytes| {
        assert ByteRead(xs, d, (offset + i) % WORD, bytes[i], blind);
      } else {
        WithinBlock64(offset, |bytes|, i - |bytes|);
      }
    }
  }

  /** As long as the range does not wrap. */
  lemma ReadOn(xs: seq<Extent>, d: map<nat, Block>, offset: U64, bytes: seq<bv8>, blind: set<nat>, pos: nat,
               more: seq<bv8>, missed: bool)
    requires ReadExactly(xs, d, offset, bytes, blind) && ChunkRead(xs, d, pos, more, missed) && more != []
    requires pos == offset + |bytes| && pos % BLOCK_SIZE + |more| <= BLOCK_SIZE
    requires (bytes != [] ==> pos % BLOCK_SIZE == 0)
    ensures ReadExactly(xs, d, offset, bytes + more, Missing(blind, pos / BLOCK_SIZE, missed))
  {
    var l := pos / BLOCK_SIZE;
    var all, blind' := bytes + more, Missing(blind, l, missed);
    assert !Touched(offset, |bytes|, l) && Touched(offset, |all|, l);
    forall i: nat | i < |all| ensures ByteExact(xs, d, offset + i, all[i], blind') {
      if i < |bytes| {
        assert ByteExact(xs, d, offset + i, bytes[i], blind) && (offset + i) / BLOCK_SIZE != l;
      } else {
        assert all[i] == more[i - |bytes|] && (pos + (i - |bytes|)) / BLOCK_SIZE == l;
      }
    }
  }

  /** A read of `n` bytes for a request of `len`, on its way. */
  ghost predicate Reading(xs: seq<Extent>, d: map<nat, Block>, offset: nat, len: nat, n: nat, bytes: seq<bv8>,
                          blind: set<nat>) {
    && |bytes| <= n <= len && (0 < |bytes| < n ==> (offset + |bytes|) % BLOCK_SIZE == 0)
    && ReadAs(xs, d, offset, bytes, blind)
    && (offset + len < WORD ==> ReadExactly(xs, d, offset, bytes, blind))
  }

  /** The next chunk, up to the end of its block. */
  lemma ReadStep(xs: seq<Extent>, d: map<nat, Block>, offset: U64, len: nat, n: nat, bytes: seq<bv8>, blind: set<nat>,
                 l: nat, off: nat, more: seq<bv8>, missed: bool)
    requires Reading(xs, d, offset, len, n, bytes, blind) && |bytes| < n
    requires l == (offset + |bytes|) % WORD / BLOCK_SIZE && off == (offset + |bytes|) % WORD % BLOCK_SIZE
    requires |more| == (if n - |bytes| > BLOCK_SIZE - off then BLOCK_SIZE - off else n - |bytes|)
    requires ChunkRead(xs, d, l * BLOCK_SIZE + off, more, missed)
    ensures Reading(xs, d, offset, len, n, bytes + more, Missing(blind, l, missed))
  {
    var pos := (offset + |bytes|) % WORD;
    assert pos == l * BLOCK_SIZE + off;
    ChunkEnd(offset, |bytes|, n);
    ReadMore(xs, d, offset, bytes, blind, pos, more, missed);
    if offset + len < WORD { ReadOn(xs, d, offset, bytes, blind, pos, more, missed); }
  }

  /** What was read is the view exactly if the blocks whose look-up failed are zero there. */
  lemma ReadRight(xs: seq<Extent>, d: map<nat, Block>, offset: nat, bytes: seq<bv8>, blind: set<nat>)
    requires ReadExactly(xs, d, offset, bytes, blind)
    ensures (forall i: nat :: i < |bytes| ==> bytes[i] == ByteAt(xs, d, offset + i)) <==>
            (forall o: nat :: offset <= o < offset + |bytes| && o / BLOCK_SIZE in blind ==> ByteAt(xs, d, o) == 0)
  {
    if forall i: nat :: i < |bytes| ==> bytes[i] == ByteAt(xs, d, offset + i) {
      forall o: nat | offset <= o < offset + |bytes| && o / BLOCK_SIZE in blind ensures ByteAt(xs, d, o) == 0 {
        assert ByteExact(xs, d, offset + (o - offset), bytes[o - offset], blind);
      }
    }
    if forall o: nat :: offset <= o < offset + |bytes| && o / BLOCK_SIZE in blind ==> ByteAt(xs, d, o) == 0 {
      forall i: nat | i < |bytes| ensures bytes[i] == ByteAt(xs, d, offset + i) {
        assert ByteExact(xs, d, offset + i, bytes[i], blind);
      }
    }
  }

  /** A byte beyond the new end of a truncated file, should the file grow over it again,
      reads zero if and only if its block was cut or it was zero before: the tail of the
      last kept block is not cleared, and when nothing is cut, nothing is. */
  lemma TailAfterShrink(xs: seq<Extent>, ys: seq<Extent>, d: map<nat, Block>, size: nat, newSize: nat, o: nat)
    requires newSize <= o && if Cuts(size, newSize) then CutFinds(xs, ys, From(Blocks64(newSize))) else ys == xs
    ensures ByteAt(ys, d, o) == 0
         <==> (Cuts(size, newSize) && o >= Blocks64(newSize) * BLOCK_SIZE) || ByteAt(xs, d, o) == 0
  {
    if Cuts(size, newSize) { CutView(xs, ys, d, From(Blocks64(newSize)), o); }
  }

  /** A ten-byte file truncated to four: byte 5 keeps its old value, whatever that is. */
  lemma StaleTail(d: map<nat, Block>)
    requires 9 in d && |d[9]| == BLOCK_SIZE
    ensures var xs := [Extent(0, 9, 1)]; CutFinds(xs, xs, From(Blocks64(4))) && ByteAt(xs, d, 5) == d[9][5]
  {
    var xs := [Extent(0, 9, 1)];
    assert Find(xs, 0) == At(9) && xs[1..] == [];
  }
}
