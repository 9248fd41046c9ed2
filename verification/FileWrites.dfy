/** What a write does to the view of a file, chunk by chunk, when the look-up of a block may
    fail and the block is then taken for a hole. */
module FileWrites {
  import opened Extents
  import opened FileView

  type Disk = map<nat, Block>

  /** A file's extents and the disk they point into. */
  datatype Image = Image(exts: seq<Extent>, disk: Disk)

  /** A write: what it started from, where it goes and what it brings. */
  datatype Job = Job(was: Image, offset: nat, data: seq<bv8>)

  /** The bytes `src` for the place `off` in logical block `l`. */
  datatype Chunk = Chunk(l: nat, off: nat, src: seq<bv8>)

  /** What became of one chunk: nothing was recorded or written; it shows; its block was
      mapped and got a second extent, behind which the chunk is hidden; its hole got a block
      that could not be written. */
  datatype How = Unwritten | Shown | Hidden | Torn

  /** Byte `k` of block `m` as the file reads it. */
  function BlockByte(x: Image, m: nat, k: nat): bv8 {
    match Find(x.exts, m)
    case Hole => 0
    case At(p) => Byte(x.disk, p, k)
  }

  function ViewAt(x: Image, o: nat): bv8 {
    ByteAt(x.exts, x.disk, o)
  }

  lemma ByteOfBlock(x: Image, o: nat)
    ensures ViewAt(x, o) == BlockByte(x, o / BLOCK_SIZE, o % BLOCK_SIZE)
  {
  }

  /** Byte `k` of a block with `src` copied in at `off`. */
  function PatchedByte(base: bv8, off: nat, src: seq<bv8>, k: nat): bv8 {
    if off <= k < off + |src| then src[k - off] else base
  }

  /** Byte `o` of a file that has nothing but `data` at `offset`. */
  function FreshByte(w: Job, o: nat): bv8 {
    PatchedByte(0, w.offset, w.data, o)
  }

  /** The disks agree everywhere but at `p`. */
  ghost predicate SameBut(d: Disk, e: Disk, p: nat) {
    forall q :: q != p ==> (q in d <==> q in e) && (q in d ==> d[q] == e[q])
  }

  /** Block `p` backs no logical block but `l`. */
  ghost predicate OnlyAt(xs: seq<Extent>, p: nat, l: nat) {
    forall k :: Maps(xs, k, p) ==> k == l
  }

  /** One chunk, `src` at `off` of block `l`: `p` is the block that was found or allocated. */
  ghost predicate Step(y: Image, z: Image, c: Chunk, p: nat, how: How, ok: bool) {
    match how
    case Unwritten => z.exts == y.exts && z.disk == y.disk
    case Shown =>
      && ok && GainsOne(y.exts, z.exts, c.l, p) && OnlyAt(z.exts, p, c.l) && SameBut(y.disk, z.disk, p)
      && (Mapped(y.exts, c.l) ==> z.exts == y.exts && Find(y.exts, c.l) == At(p))
      && forall k: nat :: k < BLOCK_SIZE ==> Byte(z.disk, p, k) == PatchedByte(BlockByte(y, c.l, k), c.off, c.src, k)
    case Hidden =>
      && GainsOne(y.exts, z.exts, c.l, p) && OnlyAt(z.exts, p, c.l) && SameBut(y.disk, z.disk, p)
      && Mapped(y.exts, c.l) && !Maps(y.exts, c.l, p) && Find(z.exts, c.l) == Find(y.exts, c.l)
      && (!ok ==> z.disk == y.disk)
      && (ok ==> forall k: nat :: k < BLOCK_SIZE ==> Byte(z.disk, p, k) == PatchedByte(0, c.off, c.src, k))
    case Torn =>
      && !ok && GainsOne(y.exts, z.exts, c.l, p) && OnlyAt(z.exts, p, c.l)
      && !Mapped(y.exts, c.l) && z.disk == y.disk
  }

  // ----- one chunk

  /** Block `m` reads the same. */
  ghost predicate SameBlock(x: Image, y: Image, m: nat) {
    forall k: nat :: k < BLOCK_SIZE ==> BlockByte(y, m, k) == BlockByte(x, m, k)
  }

  /** Other blocks keep their mapping, and their bytes where the mapping is a function. */
  lemma StepElsewhere(y: Image, z: Image, c: Chunk, p: nat, how: How, ok: bool, m: nat)
    requires Step(y, z, c, p, how, ok) && m != c.l
    ensures forall q :: Maps(z.exts, m, q) <==> Maps(y.exts, m, q)
    ensures Unique(z.exts, m) <==> Unique(y.exts, m)
    ensures Unique(y.exts, m) ==> SameBlock(y, z, m)
    ensures forall q, k :: Maps(y.exts, m, q) ==> Byte(z.disk, q, k) == Byte(y.disk, q, k)
  {
    if Unique(y.exts, m) {
      FindMaps(y.exts, m);
      FindMaps(z.exts, m);
      if Find(z.exts, m).At? { FindUnique(y.exts, m, Find(z.exts, m).p); }
      if Find(y.exts, m).At? { FindUnique(z.exts, m, Find(y.exts, m).p); }
    }
  }

  /** The chunk's own block: it shows the chunk, or what it did before. */
  lemma StepHere(y: Image, z: Image, c: Chunk, p: nat, how: How, ok: bool)
    requires Step(y, z, c, p, how, ok) && Unique(y.exts, c.l)
    ensures how == Shown ==> Unique(z.exts, c.l) && Find(z.exts, c.l) == At(p)
    ensures (how == Shown ==>
      forall k: nat :: k < BLOCK_SIZE ==> BlockByte(z, c.l, k) == PatchedByte(BlockByte(y, c.l, k), c.off, c.src, k))
    ensures how == Hidden || how == Unwritten ==> SameBlock(y, z, c.l)
    ensures how == Hidden ==> !Unique(z.exts, c.l)
    ensures how == Torn ==> Unique(z.exts, c.l) && Find(z.exts, c.l) == At(p)
  {
    MappedIsMaps(y.exts, c.l);
    FindMaps(y.exts, c.l);
    if how == Shown || how == Torn {
      assert Maps(z.exts, c.l, p);
      forall a, b | Maps(z.exts, c.l, a) && Maps(z.exts, c.l, b) ensures a == b { }
      FindUnique(z.exts, c.l, p);
    }
    if how == Hidden { assert Maps(z.exts, c.l, p) && Maps(z.exts, c.l, Find(y.exts, c.l).p); }
  }

  /** A mapped block that gains a second place: no list of extents without overlap maps so. */
  lemma TwicePlaced(xs: seq<Extent>, ys: seq<Extent>, l: nat, p: nat)
    requires GainsOne(xs, ys, l, p) && Mapped(xs, l) && !Maps(xs, l, p)
    ensures !Unique(ys, l) && !Disjoint(ys)
  {
    FindMaps(xs, l);
    assert Maps(ys, l, p) && Maps(ys, l, Find(xs, l).p);
    if Disjoint(ys) { DisjointUnique(ys, l); }
  }

  function Missed(blind: set<nat>, c: Chunk, how: How): set<nat> {
    if how == Hidden then blind + {c.l} else blind
  }

  function Tore(c: Chunk, how: How): set<nat> {
    if how == Torn then {c.l} else {}
  }

  /** The blocks with two places after one more chunk. */
  lemma StillTwice(y: Image, z: Image, c: Chunk, p: nat, how: How, ok: bool, blind: set<nat>)
    requires Step(y, z, c, p, how, ok) && forall m :: m in blind ==> !Unique(y.exts, m)
    ensures forall m :: m in Missed(blind, c, how) ==> !Unique(z.exts, m)
  {
    if how == Hidden { TwicePlaced(y.exts, z.exts, c.l, p); }
    forall m | m in blind ensures !Unique(z.exts, m) {
      var q, r :| Maps(y.exts, m, q) && Maps(y.exts, m, r) && q != r;
      assert Maps(z.exts, m, q) && Maps(z.exts, m, r);
    }
  }

  // ----- a write in progress

  /** Block `q` of `e` holds what block `m` of the file read as before. */
  ghost predicate HoldsOld(e: Disk, q: nat, m: nat, x: Image) {
    forall k: nat :: k < BLOCK_SIZE ==> Byte(e, q, k) == BlockByte(x, m, k)
  }

  /** Block `q` of `e` holds the data that falls into block `m`, and zeros. */
  ghost predicate HoldsFresh(e: Disk, q: nat, m: nat, w: Job) {
    forall k: nat :: k < BLOCK_SIZE ==> Byte(e, q, k) == FreshByte(w, m * BLOCK_SIZE + k)
  }

  ghost predicate Holds(e: Disk, q: nat, m: nat, w: Job) {
    HoldsOld(e, q, m, w.was) || HoldsFresh(e, q, m, w)
  }

  /** Byte `k` of block `m` is replaced if it is one of the first `done` written ones, else it
      is as before. */
  ghost predicate AsWritten(w: Job, y: Image, done: nat, m: nat, k: nat)
    requires done <= |w.data|
  {
    ReplacedAt(BlockByte(w.was, m, k), BlockByte(y, m, k), w.offset, w.data[..done], m * BLOCK_SIZE + k)
  }

  /** After `done` bytes: blocks in `blind` were mapped and have a second extent now, whose
      block holds the fresh bytes; everything else reads as it should. */
  ghost predicate Progress(w: Job, y: Image, done: nat, blind: set<nat>) {
    && done <= |w.data| && (0 < done < |w.data| ==> (w.offset + done) % BLOCK_SIZE == 0)
    && (forall m :: m in blind ==> Mapped(w.was.exts, m) && Touched(w.offset, done, m) && !Unique(y.exts, m))
    && (forall m :: m !in blind ==> Unique(y.exts, m))
    && (forall m, q :: !Touched(w.offset, done, m) ==> (Maps(y.exts, m, q) <==> Maps(w.was.exts, m, q)))
    && (forall m: nat, k: nat :: m !in blind && k < BLOCK_SIZE ==> AsWritten(w, y, done, m, k))
    && (forall m, q :: m in blind && Maps(y.exts, m, q) ==> Holds(y.disk, q, m, w))
    && (blind == {} ==> Disjoint(y.exts))
  }

  lemma ProgressStart(w: Job)
    requires Disjoint(w.was.exts)
    ensures Progress(w, w.was, 0, {})
  {
    forall m ensures Unique(w.was.exts, m) { DisjointUnique(w.was.exts, m); }
  }

  /** The chunk at byte `done`: block `l`, from `off` to the end of the block or of the data. */
  ghost predicate NextChunk(w: Job, done: nat, c: Chunk) {
    && done < |w.data| && c.off < BLOCK_SIZE && c.l * BLOCK_SIZE + c.off == w.offset + done
    && |c.src| == (if |w.data| - done > BLOCK_SIZE - c.off then BLOCK_SIZE - c.off else |w.data| - done)
    && c.src == w.data[done..done + |c.src|]
  }

  lemma BlockOrder(l: nat, m: nat)
    ensures l < m ==> (l + 1) * BLOCK_SIZE <= m * BLOCK_SIZE
    ensures m < l ==> (m + 1) * BLOCK_SIZE <= l * BLOCK_SIZE
  {
  }

  /** The next chunk's block is not touched yet, and is touched by no other chunk. */
  lemma ChunkBlock(w: Job, done: nat, c: Chunk, m: nat)
    requires NextChunk(w, done, c) && (0 < done ==> (w.offset + done) % BLOCK_SIZE == 0)
    ensures !Touched(w.offset, done, c.l) && Touched(w.offset, done + |c.src|, c.l)
    ensures m != c.l ==> (Touched(w.offset, done, m) <==> Touched(w.offset, done + |c.src|, m))
    ensures done + |c.src| < |w.data| ==> (w.offset + done + |c.src|) % BLOCK_SIZE == 0
    ensures 0 < done ==> c.off == 0
  {
    BlockOrder(m, c.l);
    assert (c.l * BLOCK_SIZE + c.off) % BLOCK_SIZE == c.off;
    if done + |c.src| < |w.data| { assert w.offset + done + |c.src| == (c.l + 1) * BLOCK_SIZE; }
  }

  /** Where a chunk lies, byte by byte: the data up to it, the chunk, and the whole data. */
  lemma ChunkBytes(w: Job, done: nat, c: Chunk, m: nat, k: nat, base: bv8, now: bv8)
    requires NextChunk(w, done, c) && (0 < done ==> (w.offset + done) % BLOCK_SIZE == 0) && k < BLOCK_SIZE
    ensures (m != c.l && ReplacedAt(base, now, w.offset, w.data[..done], m * BLOCK_SIZE + k) ==>
      ReplacedAt(base, now, w.offset, w.data[..done + |c.src|], m * BLOCK_SIZE + k))
    ensures (ReplacedAt(base, now, w.offset, w.data[..done], c.l * BLOCK_SIZE + k) ==>
        && now == base
        && ReplacedAt(base, PatchedByte(now, c.off, c.src, k), w.offset, w.data[..done + |c.src|],
                      c.l * BLOCK_SIZE + k))
    ensures PatchedByte(0, c.off, c.src, k) == FreshByte(w, c.l * BLOCK_SIZE + k)
  {
    ChunkBlock(w, done, c, m);
    BlockOrder(m, c.l);
  }

  /** What one chunk leaves alone in the blocks it does not lie in. */
  lemma OtherBlocks(w: Job, y: Image, z: Image, done: nat, c: Chunk, p: nat, how: How, m: nat)
    requires Step(y, z, c, p, how, true) && NextChunk(w, done, c) && m != c.l
    requires 0 < done ==> (w.offset + done) % BLOCK_SIZE == 0
    ensures forall q :: Maps(z.exts, m, q) <==> Maps(y.exts, m, q)
    ensures Unique(z.exts, m) <==> Unique(y.exts, m)
    ensures Touched(w.offset, done, m) <==> Touched(w.offset, done + |c.src|, m)
    ensures Unique(y.exts, m) ==> SameBlock(y, z, m)
    ensures forall q :: Maps(y.exts, m, q) && Holds(y.disk, q, m, w) ==> Holds(z.disk, q, m, w)
  {
    StepElsewhere(y, z, c, p, how, true, m);
    ChunkBlock(w, done, c, m);
  }

  lemma OtherBytes(w: Job, y: Image, z: Image, done: nat, blind: set<nat>, c: Chunk, m: nat, k: nat)
    requires Progress(w, y, done, blind) && NextChunk(w, done, c) && m != c.l && m !in blind && k < BLOCK_SIZE
    requires SameBlock(y, z, m)
    ensures AsWritten(w, z, done + |c.src|, m, k)
  {
    ChunkBytes(w, done, c, m, k, BlockByte(w.was, m, k), BlockByte(y, m, k));
    assert AsWritten(w, y, done, m, k);
  }

  lemma ShownMore(w: Job, y: Image, z: Image, done: nat, blind: set<nat>, c: Chunk, p: nat)
    requires Progress(w, y, done, blind) && NextChunk(w, done, c)
    requires Step(y, z, c, p, Shown, true) && (Disjoint(y.exts) ==> Disjoint(z.exts))
    ensures Progress(w, z, done + |c.src|, blind)
  {
    var n := done + |c.src|;
    ChunkBlock(w, done, c, c.l);
    assert c.l !in blind;
    StepHere(y, z, c, p, Shown, true);
    forall m | m != c.l
      ensures (forall q :: Maps(z.exts, m, q) <==> Maps(y.exts, m, q)) && (Unique(z.exts, m) <==> Unique(y.exts, m))
      ensures Touched(w.offset, done, m) <==> Touched(w.offset, done + |c.src|, m)
      ensures Unique(y.exts, m) ==> SameBlock(y, z, m)
      ensures forall q :: Maps(y.exts, m, q) && Holds(y.disk, q, m, w) ==> Holds(z.disk, q, m, w)
    {
      OtherBlocks(w, y, z, done, c, p, Shown, m);
    }
    forall m: nat, k: nat | m !in blind && k < BLOCK_SIZE
      ensures AsWritten(w, z, n, m, k)
    {
      if m != c.l {
        OtherBytes(w, y, z, done, blind, c, m, k);
      } else {
        ChunkBytes(w, done, c, m, k, BlockByte(w.was, m, k), BlockByte(y, m, k));
        assert AsWritten(w, y, done, m, k);
      }
    }
  }

  /** A block that was found before the write and whose look-up fails: its old block still
      holds what it read as, the new one holds the fresh bytes. */
  lemma HiddenMore(w: Job, y: Image, z: Image, done: nat, blind: set<nat>, c: Chunk, p: nat)
    requires Progress(w, y, done, blind) && NextChunk(w, done, c) && Step(y, z, c, p, Hidden, true)
    ensures Progress(w, z, done + |c.src|, blind + {c.l})
  {
    var n := done + |c.src|;
    ChunkBlock(w, done, c, c.l);
    assert c.l !in blind;
    StepHere(y, z, c, p, Hidden, true);
    MappedIsMaps(y.exts, c.l);
    MappedIsMaps(w.was.exts, c.l);
    forall m | m != c.l
      ensures (forall q :: Maps(z.exts, m, q) <==> Maps(y.exts, m, q)) && (Unique(z.exts, m) <==> Unique(y.exts, m))
      ensures Touched(w.offset, done, m) <==> Touched(w.offset, done + |c.src|, m)
      ensures Unique(y.exts, m) ==> SameBlock(y, z, m)
      ensures forall q :: Maps(y.exts, m, q) && Holds(y.disk, q, m, w) ==> Holds(z.disk, q, m, w)
    {
      OtherBlocks(w, y, z, done, c, p, Hidden, m);
    }
    forall m: nat, k: nat | m !in blind + {c.l} && k < BLOCK_SIZE
      ensures AsWritten(w, z, n, m, k)
    {
      OtherBytes(w, y, z, done, blind, c, m, k);
    }
    forall q | Maps(z.exts, c.l, q) ensures Holds(z.disk, q, c.l, w) {
      HiddenHolds(w, y, z, done, blind, c, p, q);
    }
  }

  lemma HiddenHolds(w: Job, y: Image, z: Image, done: nat, blind: set<nat>, c: Chunk, p: nat, q: nat)
    requires Progress(w, y, done, blind) && NextChunk(w, done, c) && c.l !in blind
    requires Step(y, z, c, p, Hidden, true) && Maps(z.exts, c.l, q)
    ensures Holds(z.disk, q, c.l, w)
  {
    if q == p {
      forall k: nat | k < BLOCK_SIZE ensures Byte(z.disk, q, k) == FreshByte(w, c.l * BLOCK_SIZE + k) {
        ChunkBytes(w, done, c, c.l, k, 0, 0);
      }
    } else {
      HiddenOld(w, y, z, done, blind, c, p, q);
    }
  }

  lemma HiddenOld(w: Job, y: Image, z: Image, done: nat, blind: set<nat>, c: Chunk, p: nat, q: nat)
    requires Progress(w, y, done, blind) && NextChunk(w, done, c) && c.l !in blind
    requires Step(y, z, c, p, Hidden, true) && Maps(y.exts, c.l, q) && q != p
    ensures HoldsOld(z.disk, q, c.l, w.was)
  {
    FindUnique(y.exts, c.l, q);
    forall k: nat | k < BLOCK_SIZE ensures Byte(z.disk, q, k) == BlockByte(w.was, c.l, k) {
      ChunkBytes(w, done, c, c.l, k, BlockByte(w.was, c.l, k), BlockByte(y, c.l, k));
      assert AsWritten(w, y, done, c.l, k);
    }
  }

  // ----- the outcome

  /** Block `m` reads as the data that falls into it, and zeros. */
  ghost predicate ReadsFresh(y: Image, m: nat, w: Job) {
    forall k: nat :: k < BLOCK_SIZE ==> BlockByte(y, m, k) == FreshByte(w, m * BLOCK_SIZE + k)
  }

  /** A write that stopped after `done` bytes: the view is replaced there and nowhere else,
      except in the mapped blocks that were taken for holes, `blind`, which read as before or
      as new blocks, and in a former hole, `torn`, whose block could not be written. */
  ghost predicate WriteView(w: Job, y: Image, done: nat, blind: set<nat>, torn: set<nat>) {
    && done <= |w.data|
    && (forall m :: m in blind ==> Mapped(w.was.exts, m) && Touched(w.offset, |w.data|, m))
    && (forall m :: m in blind ==> SameBlock(w.was, y, m) || ReadsFresh(y, m, w))
    && (forall m :: m in torn ==> !Mapped(w.was.exts, m) && Mapped(y.exts, m) && Touched(w.offset, |w.data|, m))
    && (forall o: nat :: o / BLOCK_SIZE !in blind && o / BLOCK_SIZE !in torn ==>
         ReplacedAt(ViewAt(w.was, o), ViewAt(y, o), w.offset, w.data[..done], o))
  }

  lemma BlindReads(w: Job, y: Image, done: nat, blind: set<nat>, m: nat)
    requires Progress(w, y, done, blind) && m in blind
    ensures Touched(w.offset, |w.data|, m) && (SameBlock(w.was, y, m) || ReadsFresh(y, m, w))
  {
    FindMaps(y.exts, m);
    MappedIsMaps(y.exts, m);
    var q := Find(y.exts, m).p;
    assert Holds(y.disk, q, m, w);
  }

  lemma ProgressBytes(w: Job, y: Image, done: nat, blind: set<nat>, o: nat)
    requires Progress(w, y, done, blind) && o / BLOCK_SIZE !in blind
    ensures ReplacedAt(ViewAt(w.was, o), ViewAt(y, o), w.offset, w.data[..done], o)
  {
    ByteOfBlock(w.was, o);
    ByteOfBlock(y, o);
    assert o / BLOCK_SIZE * BLOCK_SIZE + o % BLOCK_SIZE == o;
    assert AsWritten(w, y, done, o / BLOCK_SIZE, o % BLOCK_SIZE);
  }

  lemma ProgressView(w: Job, y: Image, done: nat, blind: set<nat>)
    requires Progress(w, y, done, blind)
    ensures WriteView(w, y, done, blind, {})
    ensures Disjoint(y.exts) <==> blind == {}
  {
    forall m | m in blind ensures Touched(w.offset, |w.data|, m) && (SameBlock(w.was, y, m) || ReadsFresh(y, m, w)) {
      BlindReads(w, y, done, blind, m);
    }
    forall o: nat | o / BLOCK_SIZE !in blind
      ensures ReplacedAt(ViewAt(w.was, o), ViewAt(y, o), w.offset, w.data[..done], o)
    {
      ProgressBytes(w, y, done, blind, o);
    }
    BlindOverlap(y.exts, blind);
  }

  lemma BlindOverlap(ys: seq<Extent>, blind: set<nat>)
    requires forall m :: m in blind ==> !Unique(ys, m)
    ensures blind != {} ==> !Disjoint(ys)
  {
    if blind != {} && Disjoint(ys) {
      var m :| m in blind;
      DisjointUnique(ys, m);
    }
  }

  /** The chunk that fails leaves what was written before it. */
  lemma StoppedView(w: Job, y: Image, z: Image, done: nat, blind: set<nat>, c: Chunk, p: nat, how: How)
    requires Progress(w, y, done, blind) && NextChunk(w, done, c)
    requires Step(y, z, c, p, how, false)
    ensures WriteView(w, z, done, Missed(blind, c, how), Tore(c, how))
    ensures forall m :: m in Missed(blind, c, how) ==> !Unique(z.exts, m)
  {
    var blind' := Missed(blind, c, how);
    var torn := Tore(c, how);
    ChunkBlock(w, done, c, c.l);
    assert c.l !in blind;
    StepHere(y, z, c, p, how, false);
    assert Touched(w.offset, |w.data|, c.l);
    MappedIsMaps(w.was.exts, c.l);
    MappedIsMaps(y.exts, c.l);
    FindMaps(z.exts, c.l);
    forall o: nat | o / BLOCK_SIZE !in blind' && o / BLOCK_SIZE !in torn
      ensures ReplacedAt(ViewAt(w.was, o), ViewAt(z, o), w.offset, w.data[..done], o)
    {
      var m := o / BLOCK_SIZE;
      ProgressBytes(w, y, done, blind, o);
      if m != c.l { StepElsewhere(y, z, c, p, how, false, m); }
      ByteOfBlock(y, o);
      ByteOfBlock(z, o);
    }
    forall m | m in blind'
      ensures !Unique(z.exts, m) && Mapped(w.was.exts, m) && Touched(w.offset, |w.data|, m)
      ensures SameBlock(w.was, z, m) || ReadsFresh(z, m, w)
    {
      if m == c.l {
        HiddenStill(w, y, z, done, blind, c, p);
      } else {
        BlindReads(w, y, done, blind, m);
        StoppedBlind(w, y, z, done, blind, c, p, how, m);
      }
    }
  }

  lemma HiddenStill(w: Job, y: Image, z: Image, done: nat, blind: set<nat>, c: Chunk, p: nat)
    requires Progress(w, y, done, blind) && NextChunk(w, done, c) && c.l !in blind
    requires Step(y, z, c, p, Hidden, false)
    ensures SameBlock(w.was, z, c.l)
  {
    StepHere(y, z, c, p, Hidden, false);
    forall k: nat | k < BLOCK_SIZE ensures BlockByte(z, c.l, k) == BlockByte(w.was, c.l, k) {
      ChunkBytes(w, done, c, c.l, k, BlockByte(w.was, c.l, k), BlockByte(y, c.l, k));
      assert AsWritten(w, y, done, c.l, k);
    }
  }

  lemma StoppedBlind(w: Job, y: Image, z: Image, done: nat, blind: set<nat>, c: Chunk, p: nat, how: How, m: nat)
    requires Progress(w, y, done, blind) && m in blind && m != c.l
    requires Step(y, z, c, p, how, false)
    ensures !Unique(z.exts, m) && (SameBlock(w.was, z, m) || ReadsFresh(z, m, w))
  {
    StepElsewhere(y, z, c, p, how, false, m);
    FindMaps(z.exts, m);
    MappedIsMaps(z.exts, m);
    var q := Find(z.exts, m).p;
    assert Holds(y.disk, q, m, w);
  }

  /** A write on its way, from a list without overlap or not, in 64 bits or not. */
  ghost predicate Writing(w: Job, y: Image, done: nat, blind: set<nat>) {
    && done <= |w.data| && (forall m :: m in blind ==> !Unique(y.exts, m))
    && (Disjoint(w.was.exts) ==> (Disjoint(y.exts) <==> blind == {}))
    && (Tracked(w) ==> Progress(w, y, done, blind))
  }

  /** The writes whose view is described. */
  ghost predicate Tracked(w: Job) {
    Disjoint(w.was.exts) && w.offset + |w.data| < WORD
  }

  lemma WritingStart(w: Job)
    ensures Writing(w, w.was, 0, {})
  {
    if Disjoint(w.was.exts) { ProgressStart(w); }
  }

  /** The chunk at byte `done`, wherever the position wraps. */
  predicate ChunkAt(w: Job, done: nat, c: Chunk) {
    var pos := (w.offset + done) % WORD;
    && done < |w.data| && c.l == pos / BLOCK_SIZE && c.off == pos % BLOCK_SIZE
    && |c.src| == (if |w.data| - done > BLOCK_SIZE - c.off then BLOCK_SIZE - c.off else |w.data| - done)
    && c.src == w.data[done..done + |c.src|]
  }

  /** One chunk further, whatever became of it. */
  lemma Advanced(w: Job, y: Image, z: Image, done: nat, blind: set<nat>, c: Chunk, p: nat, how: How, ok: bool)
    requires Writing(w, y, done, blind) && ChunkAt(w, done, c) && Step(y, z, c, p, how, ok)
    requires (ok ==> how != Unwritten) && (Disjoint(y.exts) ==> (Disjoint(z.exts) <==> how != Hidden))
    ensures ok ==> Writing(w, z, done + |c.src|, Missed(blind, c, how))
    ensures Disjoint(w.was.exts) ==> (Disjoint(z.exts) <==> Missed(blind, c, how) == {})
    ensures !ok && Tracked(w) ==> WriteView(w, z, done, Missed(blind, c, how), Tore(c, how)) && Unique(y.exts, c.l)
  {
    StillTwice(y, z, c, p, how, ok, blind);
    BlindOverlap(z.exts, Missed(blind, c, how));
    if Tracked(w) {
      assert NextChunk(w, done, c);
      ChunkBlock(w, done, c, c.l);
      if !ok {
        StoppedView(w, y, z, done, blind, c, p, how);
      } else if how == Shown {
        ShownMore(w, y, z, done, blind, c, p);
      } else {
        HiddenMore(w, y, z, done, blind, c, p);
      }
    }
  }

  lemma NothingWritten(w: Job)
    ensures Disjoint(w.was.exts) ==> WriteView(w, w.was, 0, {}, {})
  {
    if Disjoint(w.was.exts) {
      ProgressStart(w);
      ProgressView(w, w.was, 0, {});
    }
  }

  /** A write that met no failing look-up replaced exactly its range. */
  lemma AllWritten(w: Job, z: Image)
    ensures WriteView(w, z, |w.data|, {}, {}) ==> Replaced(w.was.exts, w.was.disk, z.exts, z.disk, w.offset, w.data)
  {
    assert w.data[..|w.data|] == w.data;
    forall o: nat | WriteView(w, z, |w.data|, {}, {})
      ensures ReplacedAt(ByteAt(w.was.exts, w.was.disk, o), ByteAt(z.exts, z.disk, o), w.offset, w.data, o)
    {
      assert ReplacedAt(ViewAt(w.was, o), ViewAt(z, o), w.offset, w.data[..|w.data|], o);
    }
  }

  // ----- what a failed look-up leads to

  /** A one-block file, its block overwritten after a failed look-up: the file reads as before,
      whatever the new block holds, and its extents overlap. */
  lemma BlindHides(d: Disk, o: nat)
    ensures var xs := [Extent(0, 9, 1)]; var ys := Added(xs, 0, 20, 1);
      Disjoint(xs) && !Disjoint(ys) && ByteAt(ys, d, o) == ByteAt(xs, d, o)
  {
    var xs := [Extent(0, 9, 1)];
    var ys := Added(xs, 0, 20, 1);
    assert xs[1..] == [] && FirstNeighbour(xs, 0, 20, 1) == 1;
    assert ys == [Extent(0, 9, 1), Extent(0, 20, 1)];
    assert !Apart(ys[0], ys[1]);
    if o / BLOCK_SIZE == 0 {
      assert Covers(xs[0], 0) && Mapped(xs, 0);
      AddedHidden(xs, 0, 20);
    } else {
      FindAppend(xs, [Extent(0, 20, 1)], o / BLOCK_SIZE);
      assert [Extent(0, 20, 1)][1..] == [];
    }
  }

  /** When the same write goes on into block 1 and gets the block next to the old one, the
      merged extent moves behind the second one, and block 0 reads as the new block. */
  lemma BlindSurfaces()
    ensures var ys := Added([Extent(0, 9, 1)], 0, 20, 1); var zs := Added(ys, 1, 10, 1);
      Find(ys, 0) == At(9) && zs == [Extent(0, 20, 1), Extent(0, 9, 2)] && Find(zs, 0) == At(20)
  {
    var xs := [Extent(0, 9, 1)];
    assert xs[1..] == [] && FirstNeighbour(xs, 0, 20, 1) == 1;
    assert Added(xs, 0, 20, 1) == [Extent(0, 9, 1), Extent(0, 20, 1)];
  }
}
