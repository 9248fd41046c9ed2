/** File records and what has to hold of all of them together: the record of each file holds
    its size and extents, the disk holds the bytes, and `used` is the allocation bitmap. */
module FileRecords {
  import opened Extents
  import opened ExtentCuts
  import opened Faults
  import opened FileView
  import opened FileWrites
  import AttrCodec

  /** The attribute space of a record block, and the encoded sizes of two attributes. */
  const ATTR_SPACE := BLOCK_SIZE - 56
  const SIZE_BYTES := 8
  const EXTENT_BYTES := 20

  datatype Size = Absent | Bytes(n: U64)

  /** The file record: `size` is the FSIZE attribute, which a new file does not have, and
      `other` the encoded size of the attributes besides FSIZE and the extents. */
  datatype FileRec = FileRec(isFile: bool, size: Size, exts: seq<Extent>, other: nat)

  /** What the record's attributes take besides `n` extents, FSIZE counted or not. */
  function Taken(f: FileRec, n: nat, withSize: bool): nat {
    var size := if withSize && f.size.Bytes? then AttrCodec.HEADER + SIZE_BYTES else 0;
    f.other + n * (AttrCodec.HEADER + EXTENT_BYTES) + size
  }

  /** There is room for FSIZE, whose old instance is taken out first. */
  predicate SizeFits(f: FileRec) {
    AttrCodec.HasRoom(ATTR_SPACE, Taken(f, |f.exts|, false), SIZE_BYTES)
  }

  /** There is room for one more extent next to `n`. */
  predicate ExtentFits(f: FileRec, n: nat) {
    AttrCodec.HasRoom(ATTR_SPACE, Taken(f, n, true), EXTENT_BYTES)
  }

  /** How far the creation of a file got: a bare record, one with its PARENT attribute of eight
      bytes, and one with its PERMISSIONS of two, which come with a second transaction. */
  datatype Stage = Bare | Linked | Done

  function NewFile(stage: Stage): FileRec {
    var parent, permissions := AttrCodec.HEADER + 8, AttrCodec.HEADER + 2;
    FileRec(true, Absent, [], match stage case Bare => 0 case Linked => parent case Done => parent + permissions)
  }

  function RootRecord(): FileRec {
    FileRec(false, Absent, [], AttrCodec.HEADER + 8)
  }

  function SizeOf(f: FileRec): U64 {
    match f.size case Absent => 0 case Bytes(n) => n
  }

  function Max(a: nat, b: nat): nat {
    if a < b then b else a
  }

  type Records = map<nat, FileRec>

  ghost predicate WholeBlocks(d: Disk) {
    forall p :: p in d ==> |d[p]| == BLOCK_SIZE
  }

  ghost predicate AllDisjoint(fs: Records) {
    forall id :: id in fs ==> Disjoint(fs[id].exts)
  }

  ghost predicate AllSolid(fs: Records) {
    forall id :: id in fs ==> Solid(fs[id].exts)
  }

  ghost predicate BlockOf(fs: Records, id: nat, l: nat, p: nat) {
    id in fs && Maps(fs[id].exts, l, p)
  }

  /** No physical block backs two places, in one file or in two. */
  ghost predicate Exclusive(fs: Records) {
    forall id, j, l, m, p :: BlockOf(fs, id, l, p) && BlockOf(fs, j, m, p) ==> id == j && l == m
  }

  ghost predicate AllUsed(fs: Records, used: set<nat>) {
    forall id, l, p :: BlockOf(fs, id, l, p) ==> p in used
  }

  /** What holds even after a look-up was mistaken for a hole. */
  ghost predicate Loose(fs: Records, d: Disk, used: set<nat>) {
    WholeBlocks(d) && used <= d.Keys && AllSolid(fs) && Exclusive(fs) && AllUsed(fs, used)
  }

  ghost predicate Sound(fs: Records, d: Disk, used: set<nat>) {
    Loose(fs, d, used) && AllDisjoint(fs)
  }

  function ImageOf(fs: Records, d: Disk, id: nat): Image
    requires id in fs
  {
    Image(fs[id].exts, d)
  }

  /** No other file changes, neither its record nor what it reads as. */
  ghost predicate OthersSame(fs: Records, d: Disk, fs': Records, d': Disk, id: nat) {
    && fs'.Keys == fs.Keys
    && forall j :: j in fs && j != id ==> fs'[j] == fs[j] && SameView(fs[j].exts, d, d')
  }

  lemma OthersChain(fs: Records, d: Disk, fs1: Records, d1: Disk, fs2: Records, d2: Disk, id: nat)
    requires OthersSame(fs, d, fs1, d1, id) && OthersSame(fs1, d1, fs2, d2, id)
    ensures OthersSame(fs, d, fs2, d2, id)
  {
    forall j | j in fs && j != id ensures SameView(fs[j].exts, d, d2) {
      forall o: nat ensures ByteAt(fs[j].exts, d2, o) == ByteAt(fs[j].exts, d, o) {
        assert SameView(fs[j].exts, d, d1) && SameView(fs1[j].exts, d1, d2);
      }
    }
  }

  /** What a successful write of `data` at `offset` does to the records and the disk. */
  ghost predicate Written(fs: Records, d: Disk, fs': Records, d': Disk, id: nat, offset: nat, data: seq<bv8>) {
    && id in fs && OthersSame(fs, d, fs', d', id)
    && fs'[id] == fs[id].(exts := fs'[id].exts)
    && Replaced(fs[id].exts, d, fs'[id].exts, d', offset, data)
  }

  /** Changing no byte of the disk shows in no other file. */
  lemma NothingSeen(fs: Records, fs': Records, d: Disk, id: nat)
    requires fs'.Keys == fs.Keys && forall j :: j in fs && j != id ==> fs'[j] == fs[j]
    ensures OthersSame(fs, d, fs', d, id)
  {
  }

  /** The disks agree on every block that is not in use. */
  ghost predicate UnusedSame(d: Disk, e: Disk, used: set<nat>) {
    forall q :: q !in used ==> (q in d <==> q in e) && (q in d ==> d[q] == e[q])
  }

  /** Block `m` of the file reads what a block that was not in use held. */
  ghost predicate TornReads(x: Image, m: nat, d: Disk, used: set<nat>) {
    exists p: nat :: p !in used && forall k: nat :: k < BLOCK_SIZE ==> BlockByte(x, m, k) == Byte(d, p, k)
  }

  /** Where an operation on one file started. */
  datatype Base = Base(files: Records, disk: Disk, used: set<nat>)

  /** Since then only file `id` changed, by gaining blocks, and only blocks in use were written.
      Every block taken is the file's, or could not be given back. */
  ghost predicate Since(b: Base, fs: Records, d: Disk, used: set<nat>, id: nat, failing: set<Failure>) {
    && id in fs && OthersSame(b.files, b.disk, fs, d, id) && fs[id] == b.files[id].(exts := fs[id].exts)
    && b.used <= used && UnusedSame(b.disk, d, used)
    && (forall l, p :: BlockOf(b.files, id, l, p) ==> BlockOf(fs, id, l, p))
    && OnlyTook(b.used, fs, id, used, failing)
  }

  ghost predicate OnlyTook(before: set<nat>, fs: Records, id: nat, used: set<nat>, failing: set<Failure>) {
    forall p :: p in used && p !in before ==> Owns(fs, id, p) || Marking(p) in failing
  }

  lemma TookSized(before: set<nat>, fs: Records, id: nat, f: FileRec, used: set<nat>, failing: set<Failure>)
    requires OnlyTook(before, fs, id, used, failing) && id in fs && f.exts == fs[id].exts
    ensures OnlyTook(before, fs[id := f], id, used, failing)
  {
    forall p | Owns(fs, id, p) ensures Owns(fs[id := f], id, p) {
      var l :| BlockOf(fs, id, l, p);
      assert BlockOf(fs[id := f], id, l, p);
    }
  }

  /** A file that gained block `p` at most. */
  lemma SinceGained(b: Base, fs: Records, d: Disk, used: set<nat>, id: nat, l: nat, p: nat, failing: set<Failure>)
    requires id in b.files && OthersSame(b.files, b.disk, fs, d, id) && fs[id] == b.files[id].(exts := fs[id].exts)
    requires GainsOne(b.files[id].exts, fs[id].exts, l, p)
    requires used == b.used + {p} && UnusedSame(b.disk, d, used)
    ensures Since(b, fs, d, used, id, failing)
  {
    assert BlockOf(fs, id, l, p);
  }

  ghost predicate Owns(fs: Records, id: nat, p: nat) {
    exists l :: BlockOf(fs, id, l, p)
  }

  lemma SinceChain(b: Base, c: Base, fs: Records, d: Disk, used: set<nat>, id: nat, failing: set<Failure>)
    requires Since(b, c.files, c.disk, c.used, id, failing) && Since(c, fs, d, used, id, failing)
    ensures Since(b, fs, d, used, id, failing)
  {
    OthersChain(b.files, b.disk, c.files, c.disk, fs, d, id);
    forall p | p in used && p !in b.used ensures Owns(fs, id, p) || Marking(p) in failing {
      if p in c.used && Owns(c.files, id, p) {
        var l :| BlockOf(c.files, id, l, p);
        assert BlockOf(fs, id, l, p);
      }
    }
  }

  /** A former hole whose block was recorded and not written. */
  lemma TornByte(y: Image, z: Image, c: Chunk, p: nat, d: Disk, used: set<nat>)
    requires Step(y, z, c, p, Torn, false) && Unique(y.exts, c.l) && p !in used && d == y.disk
    ensures TornReads(z, c.l, d, used)
  {
    StepHere(y, z, c, p, Torn, false);
    assert forall k: nat :: k < BLOCK_SIZE ==> BlockByte(z, c.l, k) == Byte(d, p, k);
  }

  /** The same block was not in use before either, and held the same. */
  lemma TornBefore(x: Image, m: nat, b: Base, c: Base, id: nat, failing: set<Failure>)
    requires TornReads(x, m, c.disk, c.used) && Since(b, c.files, c.disk, c.used, id, failing)
    ensures TornReads(x, m, b.disk, b.used)
  {
    var p :| p !in c.used && forall k: nat :: k < BLOCK_SIZE ==> BlockByte(x, m, k) == Byte(c.disk, p, k);
    assert forall k: nat :: k < BLOCK_SIZE ==> BlockByte(x, m, k) == Byte(b.disk, p, k);
  }

  /** Giving file `id` a fresh block, mapped twice or not, keeps blocks exclusive and used. */
  lemma GrownLoose(fs: Records, d: Disk, used: set<nat>, id: nat, f: FileRec, l: nat, p: nat)
    requires Loose(fs, d, used) && id in fs && p !in used && p in d && f.exts == Added(fs[id].exts, l, p, 1)
    ensures GainsOne(fs[id].exts, f.exts, l, p)
    ensures Loose(fs[id := f], d, used + {p}) && OnlyAt(f.exts, p, l) && !Maps(fs[id].exts, l, p)
  {
    var fs' := fs[id := f];
    AddedOne(fs[id].exts, l, p);
    AddedSolid(fs[id].exts, l, p, 1);
    assert forall j, k :: BlockOf(fs, j, k, p) ==> false;
    forall i, k, q | BlockOf(fs', i, k, q) ensures BlockOf(fs, i, k, q) || (i == id && k == l && q == p) {
    }
    forall k | Maps(f.exts, k, p) ensures k == l {
      assert !BlockOf(fs, id, k, p);
    }
    assert !BlockOf(fs, id, l, p);
  }

  /** Giving file `id` a fresh block for a hole keeps everything sound. */
  lemma GrownSound(fs: Records, d: Disk, used: set<nat>, id: nat, f: FileRec, l: nat, p: nat)
    requires Sound(fs, d, used) && id in fs && p !in used && p in d
    requires f.exts == Added(fs[id].exts, l, p, 1) && !Mapped(fs[id].exts, l)
    ensures Sound(fs[id := f], d, used + {p})
  {
    AddedDisjoint(fs[id].exts, l, p, 1);
    GrownLoose(fs, d, used, id, f, l, p);
  }

  lemma AddedOne(xs: seq<Extent>, l: nat, p: nat)
    ensures GainsOne(xs, Added(xs, l, p, 1), l, p)
  {
    forall k, q ensures Maps(Added(xs, l, p, 1), k, q) <==> Maps(xs, k, q) || (k == l && q == p) {
      AddedMaps(xs, l, p, 1, k, q);
      assert Backs(Extent(l, p, 1), k, q) <==> k == l && q == p;
    }
  }

  /** Writing the block behind `l` of file `id` is invisible to every other file. */
  lemma WriteUnseen(fs: Records, fs': Records, d: Disk, used: set<nat>, id: nat, l: nat, p: nat, b: Block)
    requires Loose(fs', d, used) && BlockOf(fs', id, l, p) && fs'.Keys == fs.Keys && |b| == BLOCK_SIZE
    requires forall j :: j in fs && j != id ==> fs'[j] == fs[j]
    ensures OthersSame(fs, d, fs', d[p := b], id) && Loose(fs', d[p := b], used) && OnlyAt(fs'[id].exts, p, l)
  {
    forall j | j in fs && j != id ensures SameView(fs[j].exts, d, d[p := b]) {
      forall k: nat ensures !Maps(fs'[j].exts, k, p) {
        assert !BlockOf(fs', j, k, p);
      }
      Untouched(fs'[j].exts, d, p, b);
    }
    forall k | Maps(fs'[id].exts, k, p) ensures k == l { assert BlockOf(fs', id, k, p); }
    assert p in used;
  }

  /** One chunk of `src` at `off` written to block `p`, whose content was taken to be `b`. */
  lemma Wrote(fs: Records, d: Disk, fs': Records, used: set<nat>, id: nat, l: nat, p: nat, b: Block, off: nat,
              src: seq<bv8>, how: How)
    requires Loose(fs', d, used) && id in fs && BlockOf(fs', id, l, p) && fs'.Keys == fs.Keys
    requires forall j :: j in fs && j != id ==> fs'[j] == fs[j]
    requires fs'[id] == fs[id].(exts := fs'[id].exts) && |b| == BLOCK_SIZE && off + |src| <= BLOCK_SIZE
    requires GainsOne(fs[id].exts, fs'[id].exts, l, p) && (how == Shown || how == Hidden)
    requires Mapped(fs[id].exts, l) && how == Shown ==> fs'[id].exts == fs[id].exts && Find(fs[id].exts, l) == At(p)
    requires how == Shown ==> forall k: nat :: k < BLOCK_SIZE ==> b[k] == BlockByte(ImageOf(fs, d, id), l, k)
    requires (how == Hidden ==>
      Mapped(fs[id].exts, l) && !Maps(fs[id].exts, l, p) && Find(fs'[id].exts, l) == Find(fs[id].exts, l))
    requires how == Hidden ==> forall k: nat :: k < BLOCK_SIZE ==> b[k] == 0
    ensures var d' := d[p := Patched(b, off, src)];
      && OthersSame(fs, d, fs', d', id) && Loose(fs', d', used) && UnusedSame(d, d', used)
      && Step(ImageOf(fs, d, id), ImageOf(fs', d', id), Chunk(l, off, src), p, how, true)
      && (how == Shown && Disjoint(fs[id].exts) && Disjoint(fs'[id].exts) ==>
           Written(fs, d, fs', d', id, l * BLOCK_SIZE + off, src))
  {
    WriteUnseen(fs, fs', d, used, id, l, p, Patched(b, off, src));
    assert p in used;
    if how == Shown && Disjoint(fs[id].exts) && Disjoint(fs'[id].exts) {
      forall k: nat | k < BLOCK_SIZE ensures b[k] == ByteAt(fs[id].exts, d, l * BLOCK_SIZE + k) {
        InBlock(fs[id].exts, d, l, k);
      }
      BlockWritten(fs[id].exts, d, fs'[id].exts, l, p, b, off, src);
    }
  }

  /** Cutting file `id` and freeing what was cut, or part of it, keeps blocks exclusive and used,
      and a sound volume sound. */
  lemma CutSound(fs: Records, d: Disk, used: set<nat>, used': set<nat>, id: nat, f: FileRec, xs: seq<Extent>, c: Cut,
                 leaked: set<nat>)
    requires Loose(fs, d, used) && id in fs && Solid(f.exts)
    requires xs == Collected(fs[id].exts) && CutMaps(xs, f.exts, c) && FreedBut(xs, used, used', c, leaked)
    ensures Loose(fs[id := f], d, used')
    ensures AllDisjoint(fs) && Disjoint(f.exts) ==> AllDisjoint(fs[id := f])
  {
    var fs' := fs[id := f];
    forall l, p | Maps(xs, l, p) ensures BlockOf(fs, id, l, p) {
      var i :| 0 <= i < |xs| && Backs(xs[i], l, p);
      assert xs[i] == fs[id].exts[i];
    }
    forall i, l, p | BlockOf(fs', i, l, p) ensures BlockOf(fs, i, l, p) && p in used' {
      if i == id {
        assert Maps(f.exts, l, p);
        assert !InCut(c, l) && Maps(xs, l, p);
      }
      assert BlockOf(fs, i, l, p) && p in used;
      forall m: nat ensures !(InCut(c, m) && Maps(xs, m, p)) {
        assert BlockOf(fs, id, m, p) ==> i == id && m == l;
      }
    }
  }

  /** Freeing blocks that the file still maps: sound exactly if there were none. */
  lemma UncutUnsound(fs: Records, d: Disk, used: set<nat>, used': set<nat>, id: nat, c: Cut)
    requires Loose(fs, d, used) && id in fs && used' <= used
    requires forall p :: p in used && p !in used' ==> BackedInCut(Collected(fs[id].exts), c, p)
    ensures Loose(fs, d, used') <==> used' == used
  {
    if used' != used {
      var p :| p in used && p !in used';
      var xs := Collected(fs[id].exts);
      var l :| InCut(c, l) && Maps(xs, l, p);
      var i :| 0 <= i < |xs| && Backs(xs[i], l, p);
      assert xs[i] == fs[id].exts[i];
      assert BlockOf(fs, id, l, p);
    }
  }

  /** Taking more blocks into use harms nothing. */
  lemma MoreUsed(fs: Records, d: Disk, used: set<nat>, used': set<nat>)
    requires Loose(fs, d, used) && used <= used' <= d.Keys
    ensures Loose(fs, d, used')
  {
    assert AllUsed(fs, used');
  }

  /** Neither does a new record without extents. */
  lemma EmptySound(fs: Records, d: Disk, used: set<nat>, id: nat, f: FileRec)
    requires Loose(fs, d, used) && id !in fs && f.exts == []
    ensures Loose(fs[id := f], d, used)
    ensures AllDisjoint(fs) ==> AllDisjoint(fs[id := f])
  {
    var fs' := fs[id := f];
    forall i: nat, l: nat, p: nat ensures BlockOf(fs', i, l, p) <==> BlockOf(fs, i, l, p) {
    }
    assert Exclusive(fs') && AllUsed(fs', used);
  }

  lemma RootSound(d: Disk, root: nat, used: set<nat>)
    requires WholeBlocks(d) && used <= d.Keys
    ensures Sound(map[root := RootRecord()], d, used)
  {
    EmptySound(map[], d, used, root, RootRecord());
    assert map[][root := RootRecord()] == map[root := RootRecord()];
  }

  /** A removed file whose collected extents were given back leaves the others as they were. */
  lemma RemovedLoose(fs: Records, d: Disk, used: set<nat>, used': set<nat>, id: nat)
    requires Loose(fs, d, used) && id in fs && used' <= used
    requires forall p :: p in used && p !in used' ==> BackedInCut(Collected(fs[id].exts), From(0), p)
    ensures Loose(fs - {id}, d, used')
    ensures AllDisjoint(fs) ==> AllDisjoint(fs - {id})
  {
    var fs' := fs - {id};
    forall i: nat, l: nat, p: nat | BlockOf(fs', i, l, p) ensures BlockOf(fs, i, l, p) && p in used' {
      OthersUsed(fs, d, used, used', id, i, l, p);
    }
  }

  /** The blocks of the other files are still in use. */
  lemma OthersUsed(fs: Records, d: Disk, used: set<nat>, used': set<nat>, id: nat, i: nat, l: nat, p: nat)
    requires Loose(fs, d, used) && id in fs && BlockOf(fs, i, l, p) && i != id
    requires forall p :: p in used && p !in used' ==> BackedInCut(Collected(fs[id].exts), From(0), p)
    ensures p in used'
  {
    var xs := Collected(fs[id].exts);
    forall m: nat ensures Maps(xs, m, p) ==> BlockOf(fs, id, m, p) {
      forall k | 0 <= k < |xs| && Backs(xs[k], m, p) ensures Maps(fs[id].exts, m, p) {
        assert Backs(fs[id].exts[k], m, p);
      }
    }
    assert forall m: nat :: !BlockOf(fs, id, m, p);
  }

  /** A file that could not be removed, its extents as they were or without the last one: the
      volume is usable exactly if the blocks it still maps are in use. */
  lemma KeptLoose(fs: Records, d: Disk, used: set<nat>, used': set<nat>, id: nat, f: FileRec)
    requires Loose(fs, d, used) && id in fs && used' <= used && f.exts <= fs[id].exts
    requires forall p :: p in used && p !in used' ==> BackedInCut(Collected(fs[id].exts), From(0), p)
    ensures Loose(fs[id := f], d, used') <==> InUse(f.exts, used')
  {
    var fs' := fs[id := f];
    forall i: nat, l: nat, p: nat | BlockOf(fs', i, l, p)
      ensures BlockOf(fs, i, l, p) && (i != id ==> p in used')
    {
      if i == id {
        var k :| 0 <= k < |f.exts| && Backs(f.exts[k], l, p);
        assert Backs(fs[id].exts[k], l, p);
      } else {
        OthersUsed(fs, d, used, used', id, i, l, p);
      }
    }
    assert Exclusive(fs') && AllSolid(fs');
    if InUse(f.exts, used') {
      forall l: nat, p: nat | BlockOf(fs', id, l, p) ensures p in used' {
        var k :| 0 <= k < |f.exts| && Backs(f.exts[k], l, p);
        assert AllBacked(f.exts[k], used');
      }
    }
    if AllUsed(fs', used') {
      forall k, l, p | 0 <= k < |f.exts| && Backs(f.exts[k], l, p) ensures p in used' {
        assert BlockOf(fs', id, l, p);
      }
    }
  }

  /** The collected extents of a file: none is empty, all blocks are in use, and they do not
      overlap if the file's extents do not. */
  lemma CollectedLoose(fs: Records, d: Disk, used: set<nat>, id: nat)
    requires Loose(fs, d, used) && id in fs
    ensures var xs := Collected(fs[id].exts); Solid(xs) && InUse(xs, used) && (Disjoint(fs[id].exts) ==> Disjoint(xs))
  {
    var xs, ys := fs[id].exts, Collected(fs[id].exts);
    forall i, j | Disjoint(xs) && 0 <= i < j < |ys| ensures Apart(ys[i], ys[j]) {
      assert Apart(xs[i], xs[j]);
    }
    forall j | 0 <= j < |ys| ensures AllBacked(ys[j], used) {
      forall l, p | Backs(ys[j], l, p) ensures p in used {
        assert Backs(xs[j], l, p);
        assert BlockOf(fs, id, l, p);
      }
    }
  }

  /** The blocks a punch takes out, as the source computes them. */
  function PunchCut(f: FileRec, offset: nat, len: nat): Cut
    requires offset < SizeOf(f)
  {
    Between(offset / BLOCK_SIZE, PunchHi(SizeOf(f), offset, len))
  }

  /** The hole ends before it starts, inside one of the extents. */
  ghost predicate PunchCrosses(f: FileRec, offset: nat, len: nat) {
    offset < SizeOf(f) && SomeStraddles(Collected(f.exts), offset / BLOCK_SIZE, PunchHi(SizeOf(f), offset, len))
  }

  /** The blocks are those of the range, clipped to the end of the file, exactly if the sums
      stay in range; then the hole does not end before it starts. */
  lemma PunchCutExactly(f: FileRec, offset: U64, len: U64)
    requires offset < SizeOf(f) && len > 0
    ensures (PunchCut(f, offset, len) == Between(offset / BLOCK_SIZE, Blocks(PunchEnd(SizeOf(f), offset, len)))
       <==> PunchInRange(SizeOf(f), offset, len))
    ensures PunchInRange(SizeOf(f), offset, len) ==> !PunchCrosses(f, offset, len)
  {
    PunchExactly(SizeOf(f), offset, len);
  }

  /** What was written reads back. */
  lemma ReadBack(xs: seq<Extent>, d: Disk, ys: seq<Extent>, d': Disk, offset: nat, data: seq<bv8>, bytes: seq<bv8>)
    requires Replaced(xs, d, ys, d', offset, data)
    requires |bytes| == |data| && forall i: nat :: i < |bytes| ==> bytes[i] == ByteAt(ys, d', offset + i)
    ensures bytes == data
  {
    forall i: nat | i < |data| ensures bytes[i] == data[i] {
      assert ReplacedAt(ByteAt(xs, d, offset + i), ByteAt(ys, d', offset + i), offset, data, offset + i);
    }
  }

  lemma GainsNothing(xs: seq<Extent>, l: nat, p: nat)
    requires Maps(xs, l, p)
    ensures GainsOne(xs, xs, l, p)
  {
  }

  lemma SizeLoose(fs: Records, d: Disk, used: set<nat>, id: nat, f: FileRec)
    requires Loose(fs, d, used) && id in fs && f.exts == fs[id].exts
    ensures Loose(fs[id := f], d, used)
    ensures AllDisjoint(fs[id := f]) <==> AllDisjoint(fs)
  {
    var fs' := fs[id := f];
    forall i: nat, l: nat, p: nat ensures BlockOf(fs', i, l, p) <==> BlockOf(fs, i, l, p) {
    }
    assert Exclusive(fs') && AllUsed(fs', used);
    forall i | i in fs ensures Disjoint(fs'[i].exts) <==> Disjoint(fs[i].exts) { }
  }

  /** The cut takes logical blocks `a .. b` of the extent: their physical blocks. */
  lemma GoneIs(e: Extent, c: Cut, a: nat, b: nat)
    requires e.logical <= a <= b <= LEnd(e)
    requires forall l: nat :: Covers(e, l) ==> (InCut(c, l) <==> a <= l < b)
    ensures forall p :: p in Range(e.physical + (a - e.logical), b - a) <==> BackedInCut([e], c, p)
  {
    forall p ensures p in Range(e.physical + (a - e.logical), b - a) <==> BackedInCut([e], c, p) {
      RunOf(e, a, b, p);
      forall l ensures Maps([e], l, p) <==> Backs(e, l, p) { MapsOne(e, l, p); }
    }
  }

  lemma NoneGone(e: Extent, c: Cut)
    requires forall l: nat :: Covers(e, l) ==> !InCut(c, l)
    ensures forall p :: !BackedInCut([e], c, p)
  {
    forall p, l ensures Maps([e], l, p) <==> Backs(e, l, p) { MapsOne(e, l, p); }
  }
}
