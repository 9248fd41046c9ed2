/** Reading, writing, truncating and punching files. */
module Files {
  import opened Extents
  import opened ExtentCuts
  import opened Faults
  import opened FileView
  import opened FileWrites
  import opened FileRecords
  import opened FileRuns

  datatype Status = Ok | Inval | IO | NoMem | NoSpc | JournalErr | NotFound

  /** The statuses that stand for a failing step below, and that step. */
  predicate Fault(st: Status, failing: set<Failure>) {
    match st
    case IO => Disk in failing
    case NoMem => Memory in failing
    case JournalErr => Logging in failing
    case _ => false
  }

  /** The release of each of the blocks may fail. */
  ghost predicate MayStay(leaked: set<nat>, failing: set<Failure>) {
    forall p :: p in leaked ==> Marking(p) in failing
  }

  /** No block is free. */
  ghost predicate NoneFree(d: Disk, used: set<nat>) {
    forall q :: q in d && q != 0 ==> q in used
  }

  /** The record has no room for a block behind `l`, should it come as an extent of its own or
      next to a neighbour. */
  ghost predicate Cramped(f: FileRec, l: nat) {
    !Mapped(f.exts, l) && exists p: nat :: !ExtentFits(f, |Added(f.exts, l, p, 1)| - 1)
  }

  /** Why a block behind `l` of file `id` may be refused: none is free or none can be had, a
      look-up may fail, or the record has no room for it or cannot be read or written. */
  ghost predicate Short(f: FileRec, d: Disk, used: set<nat>, id: nat, l: nat, failing: set<Failure>) {
    || NoneFree(d, used) || Allocating in failing || Disk in failing || Finding(id, l) in failing
    || Cramped(f, l)
  }

  /** Why a write of `len` bytes may run out of space: one of its blocks may be refused. */
  ghost predicate Stuck(f: FileRec, d: Disk, used: set<nat>, id: nat, offset: nat, len: nat, failing: set<Failure>) {
    exists k: nat :: k < len && ShortAt(f, d, used, id, offset, k, failing)
  }

  ghost predicate ShortAt(f: FileRec, d: Disk, used: set<nat>, id: nat, offset: nat, k: nat, failing: set<Failure>) {
    Short(f, d, used, id, (offset + k) % WORD / BLOCK_SIZE, failing)
  }

  class FileSystem {
    var mounted: bool
    var files: Records
    var disk: Disk
    var used: set<nat>

    /** The steps that may fail. */
    var failing: set<Failure>

    ghost predicate Valid()
      reads this
    {
      Sound(files, disk, used)
    }

    /** The part of the invariant that a failing look-up cannot break. */
    ghost predicate Usable()
      reads this
    {
      Loose(files, disk, used)
    }

    /** A formatted volume, mounted: the root directory's record with its DATA attribute, and
        the blocks of the root in use. */
    constructor (blocks: Disk, root: nat, reserved: set<nat>)
      requires WholeBlocks(blocks) && reserved <= blocks.Keys
      ensures Valid() && mounted && files == map[root := RootRecord()] && disk == blocks && used == reserved
    {
      mounted, files, disk, used, failing := true, map[root := RootRecord()], blocks, reserved, {};
      new;
      RootSound(blocks, root, reserved);
    }

    /** The bytes of file `id`, holes as zero, without regard to its size. */
    ghost function View(id: nat, o: nat): bv8
      requires id in files
      reads this
    {
      ByteAt(files[id].exts, disk, o)
    }

    ghost function Now(id: nat): Image
      requires id in files
      reads this
    {
      ImageOf(files, disk, id)
    }

    // ----- blocks

    /** A free block, marked used; 0 when there is none or the bitmap cannot be updated. */
    method AllocBlock() returns (p: nat)
      modifies this`used
      ensures p == 0 ==> used == old(used) && (NoneFree(disk, used) || Allocating in failing)
      ensures p != 0 ==> p !in old(used) && p in disk && used == old(used) + {p}
    {
      if q :| q in disk && q !in used && q != 0 {
        var f := Fails(failing, Allocating);
        if f { return 0; }
        used := used + {q};
        return q;
      }
      return 0;
    }

    /** Gives a run back. The callers ignore the result. What a failure leaves allocated is in
        `leaked`; its undo may also set bits of the run that were clear. */
    method FreeRange(start: nat, n: nat) returns (ghost leaked: set<nat>)
      modifies this`used
      ensures leaked <= Range(start, n) && used == old(used) - Range(start, n) + leaked
      ensures MayStay(leaked, failing)
    {
      var stuck := set p | p in Range(start, n) && Marking(p) in failing;
      var kept: set<nat> :| kept <= stuck;
      used := used - Range(start, n) + kept;
      leaked := kept;
    }

    /** Gives one block back; the callers ignore the result. */
    method FreeBlock(p: nat) returns (freed: bool)
      modifies this`used
      ensures used == if freed then old(used) - {p} else old(used)
      ensures !freed ==> Marking(p) in failing
    {
      var f := Fails(failing, Marking(p));
      freed := !f;
      if freed { used := used - {p}; }
    }

    /** The lowest id above 0 that names no record. */
    method FreshId() returns (id: nat)
      ensures id != 0 && id !in files && forall k :: 0 < k < id ==> k in files
    {
      id := 1;
      ghost var rest := files.Keys;
      while id in files
        invariant id != 0 && rest <= files.Keys
        invariant forall k :: 0 < k < id ==> k in files
        invariant forall k :: k in files && k >= id ==> k in rest
        decreases rest
      {
        rest := rest - {id};
        id := id + 1;
      }
    }

    /** A new, empty file under the lowest unused id; its record takes a fresh block. A failure
        leaves no record, or one that lacks its permissions or every attribute. */
    method Create() returns (st: Status, id: nat)
      requires Usable()
      modifies this`files, this`used
      ensures Usable() && old(used) <= used && (old(Valid()) ==> Valid())
      ensures !mounted ==> st == Inval && files == old(files) && used == old(used)
      ensures mounted ==> st == Ok || Fault(st, failing) || st == NoSpc
      ensures mounted && st == NoSpc ==> files == old(files) && (NoneFree(disk, old(used)) || Allocating in failing)
      ensures st == Ok ==> id != 0 && id !in old(files) && forall k :: 0 < k < id ==> k in old(files)
      ensures st == Ok ==> files == old(files)[id := NewFile(Done)]
      ensures st == Ok ==> exists p :: p !in old(used) && used == old(used) + {p}
      ensures (st != Ok ==>
        files == old(files) || (id !in old(files) && exists s: Stage :: files == old(files)[id := NewFile(s)]))
      ensures st != Ok && files == old(files) ==> MayStay(used - old(used), failing)
    {
      if !mounted { return Inval, 0; }
      var p := AllocBlock();
      if p == 0 { return NoSpc, 0; }
      MoreUsed(files, disk, old(used), used);
      var f := Fails(failing, Allocating);
      var freed;
      if f {
        freed := FreeBlock(p);
        assert freed ==> used == old(used);
        return NoSpc, 0;
      }
      id := FreshId();
      var before := files;
      EmptySound(files, disk, used, id, NewFile(Bare));
      EmptySound(files, disk, used, id, NewFile(Linked));
      EmptySound(files, disk, used, id, NewFile(Done));
      files := before[id := NewFile(Bare)];
      f := Fails(failing, Disk);
      if f {
        // the record cannot be completed; giving it back may fail as well
        freed := FreeBlock(p);
        assert freed ==> used == old(used);
        EmptySound(before, disk, old(used), id, NewFile(Bare));
        f := Fails(failing, Disk);
        if !f { files := before; }
        return IO, id;
      }
      files := before[id := NewFile(Linked)];
      f := Fails(failing, Logging);
      if f { return JournalErr, id; }
      f := Fails(failing, Disk);
      if f { return IO, id; }
      files := before[id := NewFile(Done)];
      f := Fails(failing, Logging);
      if f { return JournalErr, id; }
      st := Ok;
    }

    /** Finds the extent of a block. The callers take any failure for a hole. */
    method LookUp(id: nat, l: nat) returns (found: bool, e: Extent, ghost failed: bool)
      requires id in files
      ensures (found ==>
        !failed && Covers(e, l) && Find(files[id].exts, l) == At(PhysOf(e, l)) && Maps(files[id].exts, l, PhysOf(e, l)))
      ensures !found && !failed ==> !Mapped(files[id].exts, l)
      ensures failed ==> Finding(id, l) in failing
    {
      failed := false;
      var f := Fails(failing, Finding(id, l));
      if f { return false, Extent(0, 0, 0), true; }
      found, e := Resolve(files[id].exts, l);
    }

    /** `blind`: the look-up failed, and the bytes read are zeros whatever the file holds. */
    method ReadByte(id: nat, l: nat, off: nat, len: nat, buf: array<bv8>, at: nat)
      returns (st: Status, r: nat, ghost blind: bool)
      requires Usable() && id in files && at + len <= buf.Length
      modifies buf
      ensures st == Ok ==> r == len && off + len <= BLOCK_SIZE
      ensures st == Ok ==> ChunkRead(files[id].exts, disk, l * BLOCK_SIZE + off, buf[at..at + len], blind)
      ensures forall i :: 0 <= i < buf.Length && !(at <= i < at + len) ==> buf[i] == old(buf[i])
      ensures if off + len > BLOCK_SIZE then st == Inval || Fault(st, failing) else st == Ok || Fault(st, failing)
      ensures blind ==> Finding(id, l) in failing
    {
      blind := false;
      var f := Fails(failing, Memory);
      if f { return NoMem, 0, blind; }
      if off + len > BLOCK_SIZE { return Inval, 0, blind; }
      if len == 0 { return Ok, 0, blind; }
      var found, e;
      found, e, blind := LookUp(id, l);
      ghost var xs := files[id].exts;
      FindMaps(xs, l);
      if found {
        var p := PhysOf(e, l);
        f := Fails(failing, Disk);
        if f { return IO, 0, blind; }
        assert BlockOf(files, id, l, p);
        var block := disk[p];
        forall i | at <= i < at + len { buf[i] := block[off + (i - at)]; }
      } else {
        forall i | at <= i < at + len { buf[i] := 0; }
      }
      ghost var got := buf[at..at + len];
      forall i: nat | i < |got| ensures got[i] == if blind then 0 else ByteAt(xs, disk, l * BLOCK_SIZE + off + i) {
        InBlock(xs, disk, l, off + i);
      }
      return Ok, len, blind;
    }

    /** Puts the run's one block into the record of `id`, if the record has room. */
    method RecordExtent(id: nat, l: nat, p: nat) returns (st: Status)
      requires id in files
      modifies this`files
      ensures st != Ok ==> files == old(files)
      ensures st == Ok ==> files == old(files)[id := old(files)[id].(exts := Added(old(files)[id].exts, l, p, 1))]
      ensures st == Ok ==> |files[id].exts| > 0 && ExtentFits(files[id], |files[id].exts| - 1)
      ensures (st == Ok || (st == IO && Disk in failing)
        || (st == NoSpc && !ExtentFits(files[id], |Added(files[id].exts, l, p, 1)| - 1)))
    {
      var f := Fails(failing, Disk);
      if f { return IO; }
      var ys := AddExtent(files[id].exts, l, p, 1);
      if !ExtentFits(files[id], |ys| - 1) { return NoSpc; }
      f := Fails(failing, Disk);
      if f { return IO; }
      files := files[id := files[id].(exts := ys)];
      return Ok;
    }

    /** The block behind `l`, allocated and recorded if it was a hole or the look-up failed; `b`
        is what the caller takes for its content. When the block was mapped and the look-up
        failed, it is mapped twice now and still found where it was: `Hidden`. */
    method BlockFor(id: nat, l: nat) returns (st: Status, p: nat, b: Block, ghost how: How)
      requires Usable() && id in files
      modifies this`files, this`used
      ensures Usable() && old(used) <= used
      ensures files.Keys == old(files.Keys) && forall j :: j in files && j != id ==> files[j] == old(files)[j]
      ensures files[id] == old(files[id]).(exts := files[id].exts)
      ensures st == Ok <==> how == Shown || how == Hidden
      ensures st == Ok ==> |b| == BLOCK_SIZE && p in used
      ensures st == Ok ==> GainsOne(old(files[id].exts), files[id].exts, l, p) && Maps(files[id].exts, l, p)
      ensures how == Shown ==> forall k: nat :: k < BLOCK_SIZE ==> b[k] == BlockByte(old(Now(id)), l, k)
      ensures how == Shown && Mapped(old(files[id].exts), l) ==> files == old(files) && Find(files[id].exts, l) == At(p)
      ensures how == Hidden ==> forall k: nat :: k < BLOCK_SIZE ==> b[k] == 0
      ensures how == Hidden ==> Mapped(old(files[id].exts), l) && !Maps(old(files[id].exts), l, p)
      ensures how == Hidden ==> Find(files[id].exts, l) == Find(old(files[id].exts), l)
      ensures Disjoint(old(files[id].exts)) ==> (Disjoint(files[id].exts) <==> how != Hidden)
      ensures st == Ok && files != old(files) ==> p !in old(used)
      ensures st != Ok ==> files == old(files) && how == Unwritten
      ensures st != Ok ==> used == old(used) || (p !in old(used) && used == old(used) + {p} && Marking(p) in failing)
      ensures st == Ok ==> used == old(used) + {p}
      ensures how == Hidden ==> Finding(id, l) in failing
      ensures st == Ok || Fault(st, failing) || (st == NoSpc && Short(old(files)[id], disk, old(used), id, l, failing))
    {
      b, how := [], Unwritten;
      var xs := files[id].exts;
      var found, e;
      ghost var failed;
      found, e, failed := LookUp(id, l);
      FindMaps(xs, l);
      if found {
        p := PhysOf(e, l);
        var f := Fails(failing, Disk);
        if f { return IO, p, b, how; }
        assert BlockOf(files, id, l, p);
        assert used == used + {p};
        b := disk[p];
        GainsNothing(xs, l, p);
        return Ok, p, b, Shown;
      }
      p := AllocBlock();
      if p == 0 { return NoSpc, p, b, how; }
      st := RecordExtent(id, l, p);
      if st != Ok {
        var freed := FreeBlock(p);
        assert freed ==> used == old(used);
        return NoSpc, p, b, how;
      }
      GrownLoose(old(files), disk, old(used), id, files[id], l, p);
      b := seq(BLOCK_SIZE, i requires 0 <= i < BLOCK_SIZE => 0);
      if Mapped(xs, l) {
        how := Hidden;
        AddedHidden(xs, l, p);
        TwicePlaced(xs, files[id].exts, l, p);
      } else {
        how := Shown;
        if Disjoint(xs) { AddedDisjoint(xs, l, p, 1); }
      }
    }

    /** One chunk. `how` says what became of it, and `p` is the block it was meant for. */
    method WriteByte(id: nat, l: nat, off: nat, src: seq<bv8>)
      returns (st: Status, r: nat, ghost how: How, ghost p: nat)
      requires Usable() && id in files
      modifies this`files, this`used, this`disk
      ensures Usable() && id in files
      ensures st == Ok ==> r == |src| && how != Torn && (src != [] ==> how != Unwritten)
      ensures Step(old(Now(id)), Now(id), Chunk(l, off, src), p, how, st == Ok)
      ensures Disjoint(old(files[id].exts)) ==> (Disjoint(files[id].exts) <==> how != Hidden)
      ensures how == Torn ==> p !in old(used)
      ensures (st == Ok && how == Shown && Disjoint(old(files[id].exts)) ==>
        Written(old(files), old(disk), files, disk, id, l * BLOCK_SIZE + off, src))
      ensures off + |src| > BLOCK_SIZE ==> st == Inval || Fault(st, failing)
      ensures (off + |src| <= BLOCK_SIZE ==>
        st == Ok || Fault(st, failing) || (st == NoSpc && Short(old(files)[id], old(disk), old(used), id, l, failing)))
      ensures Since(Base(old(files), old(disk), old(used)), files, disk, used, id, failing)
      ensures how == Hidden ==> Finding(id, l) in failing
      ensures st == NoSpc ==> files == old(files) && disk == old(disk) && MayStay(used - old(used), failing)
    {
      how, p := Unwritten, 0;
      ghost var was := Base(files, disk, used);
      NothingSeen(files, files, disk, id);
      var f := Fails(failing, Memory);
      if f { return NoMem, 0, how, p; }
      if off + |src| > BLOCK_SIZE { return Inval, 0, how, p; }
      if |src| == 0 { return Ok, 0, how, p; }
      var q: nat, b: Block;
      st, q, b, how := BlockFor(id, l);
      p := q;
      if st != Ok {
        NothingSeen(old(files), files, disk, id);
        return st, 0, how, p;
      }
      f := Fails(failing, Disk);
      if f {
        how := if files == old(files) then Unwritten else if how == Hidden then Hidden else Torn;
        WriteUnseen(old(files), files, disk, used, id, l, p, Patched(b, off, src));
        NothingSeen(old(files), files, disk, id);
        SinceGained(was, files, disk, used, id, l, p, failing);
        return IO, 0, how, p;
      }
      Wrote(old(files), disk, files, used, id, l, p, b, off, src, how);
      SinceGained(was, files, disk[q := Patched(b, off, src)], used, id, l, p, failing);
      disk := disk[q := Patched(b, off, src)];
      return Ok, |src|, how, p;
    }

    // ----- read and write

    /** On success `buf` holds the view of the file from `offset`, clipped to its size, with
        zeros in the blocks of `blind`, whose look-up failed. When `offset + len` leaves 64 bits
        nothing is clipped and the read goes on at the start of the file. */
    method Read(id: nat, offset: U64, len: U64, buf: array?<bv8>) returns (st: Status, n: nat, ghost blind: set<nat>)
      requires Usable() && (buf != null ==> len <= buf.Length)
      modifies buf
      ensures !mounted || buf == null || id == 0 ==> st == Inval
      ensures mounted && buf != null && id != 0 && id !in files ==> st == IO
      ensures st == Ok ==> buf != null && id in files && files[id].isFile
      ensures (mounted && buf != null && id != 0 && id in files ==>
        st == (if files[id].isFile then Ok else Inval) || Fault(st, failing))
      ensures MayMiss(blind, id, failing)
      ensures st == Ok ==> n == if offset >= SizeOf(files[id]) then 0 else Clipped(SizeOf(files[id]), offset, len)
      ensures st == Ok ==> ReadAs(files[id].exts, disk, offset, buf[..n], blind)
      ensures st == Ok && offset + len < WORD ==> ReadExactly(files[id].exts, disk, offset, buf[..n], blind)
      ensures failing == {} && st == Ok ==> forall i: nat :: i < n ==> buf[i] == View(id, (offset + i) % WORD)
      ensures buf != null ==> forall i :: (if st == Ok then n else len) <= i < buf.Length ==> buf[i] == old(buf[i])
    {
      n, blind := 0, {};
      if !mounted || buf == null || id == 0 { return Inval, 0, blind; }
      if id !in files { return IO, 0, blind; }
      var f := Fails(failing, Disk);
      if f { return IO, 0, blind; }
      if !files[id].isFile { return Inval, 0, blind; }
      var size := SizeOf(files[id]);
      if offset >= size { return Ok, 0, blind; }
      n := len;
      if (offset + n) % WORD > size { n := size - offset; }
      var done := 0;
      ghost var xs, d, got: seq<bv8> := files[id].exts, disk, [];
      while done < n
        invariant done <= n == Clipped(size, offset, len) && got == buf[..done]
        invariant Reading(xs, d, offset, len, n, got, blind) && MayMiss(blind, id, failing)
        invariant forall i :: n <= i < buf.Length ==> buf[i] == old(buf[i])
      {
        var pos := (offset + done) % WORD;
        var l, off := pos / BLOCK_SIZE, pos % BLOCK_SIZE;
        var chunk := n - done;
        if chunk > BLOCK_SIZE - off { chunk := BLOCK_SIZE - off; }
        var rst, r;
        ghost var missed;
        rst, r, missed := ReadByte(id, l, off, chunk, buf, done);
        if rst != Ok { return rst, 0, blind; }
        ghost var more := buf[done..done + r];
        assert buf[..done] == got && buf[..done + r] == got + more;
        ReadStep(xs, d, offset, len, n, got, blind, l, off, more, missed);
        got, blind := got + more, Missing(blind, l, missed);
        done := done + r;
      }
      if blind == {} { AllSeen(xs, d, offset, got); }
      st := Ok;
    }

    /** The chunk at byte `at` of the write, up to the end of its block. */
    method WriteChunk(id: nat, offset: U64, data: seq<bv8>, at: nat, ghost w: Job)
      returns (st: Status, r: nat, ghost t: Turn)
      requires Usable() && id in files && at < |data| && w.offset == offset && w.data == data
      modifies this`files, this`used, this`disk
      ensures Usable() && id in files
      ensures t.before == Base(old(files), old(disk), old(used)) && t.after == Base(files, disk, used)
      ensures Took(w, at, t, st == Ok, id, failing)
      ensures st == Ok ==> 0 < r == |t.c.src| <= |data| - at
      ensures (st == Ok || Fault(st, failing)
        || (st == NoSpc && Stuck(files[id], disk, used, id, offset, |data|, failing)))
    {
      var pos := (offset + at) % WORD;
      var l, off := pos / BLOCK_SIZE, pos % BLOCK_SIZE;
      var chunk := |data| - at;
      if chunk > BLOCK_SIZE - off { chunk := BLOCK_SIZE - off; }
      ghost var before, c := Base(files, disk, used), Chunk(l, off, data[at..at + chunk]);
      assert ChunkAt(w, at, c);
      ghost var how, p;
      st, r, how, p := WriteByte(id, l, off, data[at..at + chunk]);
      t := Turn(before, Base(files, disk, used), c, p, how);
      assert st == NoSpc ==> ShortAt(files[id], disk, used, id, offset, at, failing);
    }

    /** The loop of `Write`. */
    method WriteChunks(id: nat, offset: U64, data: seq<bv8>)
      returns (st: Status, n: nat, ghost done: nat, ghost blind: set<nat>, ghost torn: set<nat>)
      requires Usable() && id in files && |data| < WORD
      modifies this`files, this`used, this`disk
      ensures Usable() && id in files
      ensures Since(Base(old(files), old(disk), old(used)), files, disk, used, id, failing)
      ensures (st == Ok || Fault(st, failing)
        || (st == NoSpc && Stuck(files[id], disk, used, id, offset, |data|, failing)))
      ensures st == Ok ==> n == |data| == done && torn == {}
      ensures Outcome(Job(old(Now(id)), offset, data), Base(old(files), old(disk), old(used)),
                      Base(files, disk, used), done, blind, torn, id, failing)
    {
      ghost var w, b := Job(Now(id), offset, data), Base(files, disk, used);
      ghost var ts: seq<Turn> := [];
      var at := 0;
      while at < |data|
        invariant at <= |data| && Usable() && id in files && Run(w, b, ts, at, Base(files, disk, used), id, failing)
      {
        var r;
        ghost var t;
        st, r, t := WriteChunk(id, offset, data, at, w);
        if st != Ok {
          RunStopped(w, b, ts, at, t, id, failing);
          return st, 0, at, Missed(BlindOf(ts), t.c, t.how), Tore(t.c, t.how);
        }
        RunMore(w, b, ts, at, t, at + r, id, failing);
        ts := ts + [t];
        at := at + r;
      }
      RunEnded(w, b, ts, at, Base(files, disk, used), id, failing);
      return Ok, |data|, at, BlindOf(ts), {};
    }

    /** On success the view of the file is replaced over the written range and nowhere else,
        but for `blind`: mapped blocks whose look-up failed were given a second extent, and
        read as before or as new blocks. The volume stays sound exactly if there are none. A
        write that fails has written the first `done` bytes, and may leave one former hole,
        `torn`, with a block that could not be written. No other file changes. `stored` says
        whether the record has the size it should; if there is no room for it the write still
        succeeds. */
    method Write(id: nat, offset: U64, len: U64, buf: array?<bv8>)
      returns (st: Status, n: nat, stored: bool, ghost done: nat, ghost blind: set<nat>, ghost torn: set<nat>)
      requires Usable() && (buf != null ==> len <= buf.Length)
      modifies this`files, this`used, this`disk
      ensures Usable() && OthersSame(old(files), old(disk), files, disk, id)
      ensures old(Valid()) ==> (Valid() <==> blind == {})
      ensures !mounted || buf == null || id == 0 ==> st == Inval
      ensures mounted && buf != null && id != 0 && id !in files ==> st == IO
      ensures st == Ok ==> buf != null && id in old(files) && files[id].isFile && n == len == done && torn == {}
      ensures (mounted && buf != null && id != 0 && id in old(files) ==>
        || st == (if old(files)[id].isFile then Ok else Inval) || Fault(st, failing)
        || (st == NoSpc && Stuck(files[id], disk, used, id, offset, len, failing)))
      ensures MayMiss(blind, id, failing)
      ensures id in old(files) ==> OnlyTook(old(used), files, id, used, failing)
      ensures (buf != null && id in old(files) && Tracked(Job(old(Now(id)), offset, buf[..len])) ==>
        WriteView(Job(old(Now(id)), offset, buf[..len]), Now(id), done, blind, torn)
        && forall m :: m in torn ==> TornReads(Now(id), m, old(disk), old(used)))
      ensures (st == Ok && Tracked(Job(old(Now(id)), offset, buf[..len])) && blind == {} ==>
        Replaced(old(files)[id].exts, old(disk), files[id].exts, disk, offset, buf[..len]))
      ensures (failing == {} && st == Ok && Tracked(Job(old(Now(id)), offset, buf[..len])) ==>
        Replaced(old(files)[id].exts, old(disk), files[id].exts, disk, offset, buf[..len]))
      ensures st == Ok && stored ==> SizeOf(files[id]) == Max(SizeOf(old(files)[id]), (offset + len) % WORD)
      ensures st == Ok && !stored ==> files[id].size == old(files)[id].size
      ensures st == Ok ==> (stored <==> (offset + len) % WORD <= SizeOf(old(files)[id]) || SizeFits(files[id]))
      ensures st != Ok && st != JournalErr && id in old(files) ==> files[id].size == old(files)[id].size
      ensures id in old(files) ==> files[id] == old(files)[id].(size := files[id].size, exts := files[id].exts)
    {
      n, stored, done, blind, torn := 0, false, 0, {}, {};
      NothingSeen(files, files, disk, id);
      if buf != null && id in files { NothingWritten(Job(Now(id), offset, buf[..len])); }
      if !mounted || buf == null || id == 0 { return Inval, 0, false, done, blind, torn; }
      if id !in files { return IO, 0, false, done, blind, torn; }
      var f := Fails(failing, Disk);
      if f { return IO, 0, false, done, blind, torn; }
      if !files[id].isFile { return Inval, 0, false, done, blind, torn; }
      var size := SizeOf(files[id]);
      var newSize := Max(size, (offset + len) % WORD);
      f := Fails(failing, Logging);
      if f { return JournalErr, 0, false, done, blind, torn; }
      st, n, done, blind, torn := WriteChunks(id, offset, buf[..len]);
      if st != Ok { return; }
      if blind == {} { AllWritten(Job(old(Now(id)), offset, buf[..len]), Now(id)); }
      ghost var fs := files;
      st, stored := StoreSize(id, newSize, size);
      TookSized(old(used), fs, id, files[id], used, failing);
      assert fs[id := files[id]] == files;
      if st != Ok { n := 0; }
    }

    /** The end of a successful write: the size, if it grew, and the commit. */
    method StoreSize(id: nat, newSize: U64, size: U64) returns (st: Status, stored: bool)
      requires Usable() && id in files && size == SizeOf(files[id])
      modifies this`files
      ensures Usable() && (Valid() <==> old(Valid()))
      ensures id in files && files == old(files)[id := files[id]]
      ensures files[id] == old(files)[id].(size := files[id].size)
      ensures st == Ok ==> (stored <==> newSize == size || SizeFits(files[id]))
      ensures st == Ok && stored ==> SizeOf(files[id]) == newSize
      ensures (st == Ok && !stored) || (st != Ok && st != JournalErr) ==> files[id].size == old(files)[id].size
      ensures st != Ok ==> !stored && Fault(st, failing)
    {
      stored := false;
      assert files == files[id := files[id]];
      if newSize == size {
        stored := true;
      } else {
        var f := Fails(failing, Disk);
        if f { return IO, false; }
        if SizeFits(files[id]) {
          f := Fails(failing, Disk);
          if f { return IO, false; }
          SizeLoose(files, disk, used, id, files[id].(size := Bytes(newSize)));
          files := files[id := files[id].(size := Bytes(newSize))];
          stored := true;
        }
      }
      var f := Fails(failing, Logging);
      if f { return JournalErr, false; }
      st := Ok;
    }

    // ----- truncate

    /** Rewrites the surviving extents below block `nb` and frees the rest. `f` is the record
        whose extents were stripped from the buffer. */
    method RebuildBelow(f: FileRec, xs: seq<Extent>, nb: nat)
      returns (st: Status, ys: seq<Extent>, ghost leaked: set<nat>)
      requires Solid(xs) && InUse(xs, used)
      modifies this`used
      ensures used <= old(used)
      ensures (st == Ok ==>
        CutMaps(xs, ys, From(nb)) && CutFinds(xs, ys, From(nb)) && FreedBut(xs, old(used), used, From(nb), leaked))
      ensures st == Ok ==> Solid(ys) && (Disjoint(xs) ==> Disjoint(ys)) && |ys| <= |xs|
      ensures MayStay(leaked, failing)
      ensures forall p :: p in old(used) && p !in used ==> BackedInCut(xs, From(nb), p)
      ensures st == Ok || (st == NoSpc && |xs| > 0 && !ExtentFits(f, |xs| - 1))
    {
      ghost var c := From(nb);
      ys, leaked := [], {};
      var i := 0;
      RebuiltStart(xs, used, c);
      while i < |xs|
        invariant i <= |xs| && |ys| <= i && used <= old(used) && MayStay(leaked, failing)
        invariant RebuiltTo(xs, i, ys, old(used), used, c, leaked)
      {
        ghost var u1, ys1, leak := used, ys, {};
        ghost var gone: set<nat>;
        st, ys, gone, leak := CutOne(f, xs[i], nb, ys);
        GoneUsed(xs[i], c, gone, old(used));
        forall p | p in old(used) && p !in used ensures BackedInCut(xs, c, p) { CutShort(xs, i, c, p); }
        if st != Ok { return; }
        RebuiltStep(xs, i, ys1, Kept(xs[i], c), old(used), u1, gone, c, leaked, leak);
        leaked := leaked + leak;
        i := i + 1;
      }
      assert xs[..|xs|] == xs;
      st := Ok;
    }

    /** Keeps, shortens or drops one extent. */
    method CutOne(f: FileRec, e: Extent, nb: nat, ys: seq<Extent>)
      returns (st: Status, zs: seq<Extent>, ghost gone: set<nat>, ghost leak: set<nat>)
      requires e.count > 0
      modifies this`used
      ensures forall p :: p in gone <==> BackedInCut([e], From(nb), p)
      ensures leak <= gone && used == old(used) - gone + leak && MayStay(leak, failing)
      ensures st == Ok ==> zs == ys + Kept(e, From(nb)) && |zs| <= |ys| + 1
      ensures st == Ok || (st == NoSpc && !ExtentFits(f, |ys|))
    {
      var end := LEnd(e);
      ghost var c := From(nb);
      zs := ys;
      if e.logical >= nb {
        GoneIs(e, c, e.logical, end);
        gone := Range(e.physical, e.count);
        leak := FreeRange(e.physical, e.count);
        assert ys + [] == ys;
      } else if end > nb {
        var keep := nb - e.logical;
        GoneIs(e, c, nb, end);
        gone := Range(e.physical + keep, e.count - keep);
        leak := FreeRange(e.physical + keep, e.count - keep);
        if !ExtentFits(f, |ys|) { return NoSpc, zs, gone, leak; }
        zs := ys + [Extent(e.logical, e.physical, keep)];
      } else {
        NoneGone(e, c);
        gone, leak := {}, {};
        assert used - {} + {} == used;
        if !ExtentFits(f, |ys|) { return NoSpc, zs, gone, leak; }
        zs := ys + [e];
      }
      st := Ok;
    }

    /** There is no room for one more extent, or not for the size. */
    ghost predicate Packed(f: FileRec) {
      !ExtentFits(f, |f.exts|) || !SizeFits(f)
    }

    /** On success the size is `newSize`; when `Cuts` says that there are fewer blocks, the
        mapping of the collected extents is restricted to the blocks below the new end and
        exactly the others are freed, save those in `leaked`, whose release failed. A failure
        before the record is written may have freed blocks that the file still maps. */
    method Truncate(id: nat, newSize: U64) returns (st: Status, ghost leaked: set<nat>)
      requires Usable()
      modifies this`files, this`used
      ensures Usable() <==> st == Ok || st == JournalErr || used == old(used)
      ensures old(Valid()) && Usable() ==> Valid()
      ensures OthersSame(old(files), disk, files, disk, id) && used <= old(used)
      ensures st == Ok ==> id in old(files) && id in files
      ensures !mounted || id == 0 ==> st == Inval
      ensures mounted && id != 0 && id !in files ==> st == IO
      ensures st == Ok ==> SizeOf(files[id]) == newSize
      ensures id in old(files) ==> files[id] == old(files)[id].(size := files[id].size, exts := files[id].exts)
      ensures st == JournalErr ==> (files == old(files) && used == old(used)) || SizeOf(files[id]) == newSize
      ensures (mounted && id != 0 && id in old(files) ==>
        || st == (if old(files)[id].isFile then Ok else Inval) || Fault(st, failing)
        || (st == NoSpc && Packed(old(files)[id])))
      ensures MayStay(leaked, failing)
      ensures st == Ok && newSize == SizeOf(old(files)[id]) ==> files == old(files)
      ensures (st == Ok && Cuts(SizeOf(old(files)[id]), newSize) ==>
        var xs, c := Collected(old(files)[id].exts), From(Blocks64(newSize));
        CutMaps(xs, files[id].exts, c) && CutFinds(xs, files[id].exts, c) && FreedBut(xs, old(used), used, c, leaked))
      ensures (st == Ok && !Cuts(SizeOf(old(files)[id]), newSize) ==>
        files[id].exts == old(files)[id].exts && used == old(used))
      ensures (st == Ok && |old(files)[id].exts| <= MAX_COLLECTED && newSize < SizeOf(old(files)[id]) ==>
        Shrunk(old(files)[id], files[id], newSize))
      ensures st != Ok && st != JournalErr ==> files == old(files)
    {
      leaked := {};
      if !mounted || id == 0 { return Inval, leaked; }
      if id !in files { return IO, leaked; }
      var failed := Fails(failing, Disk);
      if failed { return IO, leaked; }
      if !files[id].isFile { return Inval, leaked; }
      var size := SizeOf(files[id]);
      if newSize == size { return Ok, leaked; }
      failed := Fails(failing, Logging);
      if failed { return JournalErr, leaked; }
      ghost var f := files[id];
      var ys;
      st, ys, leaked := Rebuilt(id, newSize);
      ghost var g := f.(size := Bytes(newSize), exts := ys);
      if st != Ok { return st, leaked; }
      if !SizeFits(files[id].(exts := ys)) { return NoSpc, leaked; }
      failed := Fails(failing, Disk);
      if failed { return IO, leaked; }
      files := files[id := files[id].(size := Bytes(newSize), exts := ys)];
      ShrunkBytes(f, g, newSize);
      failed := Fails(failing, Logging);
      if failed { return JournalErr, leaked; }
      return Ok, leaked;
    }

    /** The extent list for the new size, with the blocks behind it given back. */
    method Rebuilt(id: nat, newSize: U64) returns (st: Status, ys: seq<Extent>, ghost leaked: set<nat>)
      requires Usable() && id in files && newSize != SizeOf(files[id])
      modifies this`used
      ensures Usable() <==> used == old(used)
      ensures used <= old(used)
      ensures st == Ok ==> Loose(files[id := files[id].(size := Bytes(newSize), exts := ys)], disk, used)
      ensures st == Ok && Disjoint(files[id].exts) ==> Disjoint(ys)
      ensures (st == Ok && Cuts(SizeOf(files[id]), newSize) ==>
        var xs := Collected(files[id].exts);
        CutMaps(xs, ys, From(Blocks64(newSize))) && CutFinds(xs, ys, From(Blocks64(newSize)))
        && FreedBut(xs, old(used), used, From(Blocks64(newSize)), leaked))
      ensures st == Ok && !Cuts(SizeOf(files[id]), newSize) ==> ys == files[id].exts && used == old(used)
      ensures st == Ok || (st == NoSpc && Packed(files[id]))
      ensures st == Ok ==> |ys| <= |files[id].exts|
      ensures MayStay(leaked, failing)
    {
      st, ys, leaked := Ok, files[id].exts, {};
      var size := SizeOf(files[id]);
      ghost var f := files[id];
      if newSize < size {
        var oldBlocks, newBlocks := Blocks64(size), Blocks64(newSize);
        if newBlocks < oldBlocks {
          var xs := Collected(files[id].exts);
          CollectedLoose(files, disk, used, id);
          st, ys, leaked := RebuildBelow(files[id], xs, newBlocks);
          UncutUnsound(files, disk, old(used), used, id, From(newBlocks));
          if st != Ok { return st, [], leaked; }
          f := f.(size := Bytes(newSize), exts := ys);
          CutSound(files, disk, old(used), used, id, f, xs, From(newBlocks), leaked);
          return;
        }
      }
      SizeLoose(files, disk, used, id, f.(size := Bytes(newSize), exts := ys));
    }

    /** Beyond the new end of a shrunk file exactly the bytes of cut blocks, and those that
        were zero anyway, read as zero. */
    ghost predicate Shrunk(f: FileRec, g: FileRec, newSize: nat)
      reads this
    {
      forall o: nat :: newSize <= o ==>
        (ByteAt(g.exts, disk, o) == 0 <==>
          (Cuts(SizeOf(f), newSize) && o >= Blocks64(newSize) * BLOCK_SIZE) || ByteAt(f.exts, disk, o) == 0)
    }

    lemma ShrunkBytes(f: FileRec, g: FileRec, newSize: nat)
      requires Cuts(SizeOf(f), newSize) ==> CutFinds(Collected(f.exts), g.exts, From(Blocks64(newSize)))
      requires !Cuts(SizeOf(f), newSize) ==> g.exts == f.exts
      ensures |f.exts| <= MAX_COLLECTED ==> Shrunk(f, g, newSize)
    {
      if |f.exts| <= MAX_COLLECTED {
        forall o: nat | newSize <= o
          ensures (ByteAt(g.exts, disk, o) == 0 <==>
            (Cuts(SizeOf(f), newSize) && o >= Blocks64(newSize) * BLOCK_SIZE) || ByteAt(f.exts, disk, o) == 0)
        {
          TailAfterShrink(f.exts, g.exts, disk, SizeOf(f), newSize, o);
        }
      }
    }

    // ----- punch

    /** Keeps, splits, shrinks, moves or drops one extent. With a hole that ends before it
        starts, `gone` is what the split gives back. */
    method PunchOne(f: FileRec, e: Extent, lo: nat, hi: nat, ys: seq<Extent>)
      returns (st: Status, zs: seq<Extent>, ghost gone: set<nat>, ghost leak: set<nat>)
      requires e.count > 0
      modifies this`used
      ensures st == Ok ==> zs == ys + Punched(e, lo, hi)
      ensures leak <= gone && (st == Ok ==> used == old(used) - gone + leak) && MayStay(leak, failing)
      ensures st == Ok ==> |zs| <= |ys| + 2
      ensures lo <= hi ==> forall p :: p in gone <==> BackedInCut([e], Between(lo, hi), p)
      ensures lo <= hi ==> old(used) - gone <= used <= old(used) + gone
      ensures hi < lo && !Straddles(e, lo, hi) ==> used == old(used)
      ensures st == Ok && Straddles(e, lo, hi) ==> gone == CrossedRun(e, lo, hi)
      ensures st == Ok || (st == NoSpc && !ExtentFits(f, |ys| + 1))
    {
      var start, end := e.logical, LEnd(e);
      ghost var c := Between(lo, hi);
      zs, gone, leak := ys, {}, {};
      if end <= lo || start >= hi {
        if lo <= hi { NoneGone(e, c); }
        if !ExtentFits(f, |ys|) { return NoSpc, zs, gone, leak; }
        assert used - {} + {} == used;
        return Ok, ys + [e], gone, leak;
      }
      if start >= lo && end <= hi {
        GoneIs(e, c, start, end);
        gone := Range(e.physical, e.count);
        leak := FreeRange(e.physical, e.count);
        return Ok, ys, gone, leak;
      }
      if start < lo && end > hi {
        var left, right := lo - start, end - hi;
        var hole := if lo <= hi then hi - lo else (hi - lo) % 0x1_0000_0000;
        gone := Range(e.physical + left, hole);
        if lo <= hi { GoneIs(e, c, lo, hi); }
        if !ExtentFits(f, |ys|) { return NoSpc, zs, gone, leak; }
        zs := ys + [Extent(start, e.physical, left)];
        leak := FreeRange(e.physical + left, hole);
        if !ExtentFits(f, |zs|) { return NoSpc, zs, gone, leak; }
        zs := zs + [Extent(hi, e.physical + (hi - start), right)];
        assert zs == ys + [Extent(start, e.physical, left), Extent(hi, e.physical + (hi - start), right)];
        return Ok, zs, gone, leak;
      }
      if start < lo && end <= hi {
        var keep, free := lo - start, end - lo;
        GoneIs(e, c, lo, end);
        gone := Range(e.physical + keep, free);
        if !ExtentFits(f, |ys|) { return NoSpc, zs, gone, leak; }
        zs := ys + [Extent(start, e.physical, keep)];
        leak := FreeRange(e.physical + keep, free);
        return Ok, zs, gone, leak;
      }
      var free, keep := hi - start, end - hi;
      GoneIs(e, c, start, hi);
      gone := Range(e.physical, free);
      leak := FreeRange(e.physical, free);
      if !ExtentFits(f, |ys|) { return NoSpc, zs, gone, leak; }
      zs := ys + [Extent(hi, e.physical + free, keep)];
      return Ok, zs, gone, leak;
    }

    method RebuildAround(f: FileRec, xs: seq<Extent>, lo: nat, hi: nat)
      returns (st: Status, ys: seq<Extent>, ghost leaked: set<nat>)
      requires Solid(xs) && InUse(xs, used)
      modifies this`used
      ensures (st == Ok && !SomeStraddles(xs, lo, hi) ==> var c := Between(lo, hi);
        && CutMaps(xs, ys, c) && CutFinds(xs, ys, c) && FreedBut(xs, old(used), used, c, leaked)
        && Solid(ys) && (Disjoint(xs) ==> Disjoint(ys)))
      ensures (!SomeStraddles(xs, lo, hi) ==>
        used <= old(used) && forall p :: p in old(used) && p !in used ==> BackedInCut(xs, Between(lo, hi), p))
      ensures (st == Ok && SomeStraddles(xs, lo, hi) ==>
        SomeOverlap(ys) && forall l, p :: Maps(ys, l, p) <==> Maps(xs, l, p))
      ensures st == Ok || (st == NoSpc && !ExtentFits(f, 2 * |xs|))
      ensures MayStay(leaked, failing)
    {
      ghost var c := Between(lo, hi);
      ys, leaked := [], {};
      var i := 0;
      RebuiltStart(xs, used, c);
      CrossedStart(xs, lo, hi);
      while i < |xs|
        invariant i <= |xs| && |ys| <= 2 * i && MayStay(leaked, failing)
        invariant lo <= hi ==> used <= old(used) && RebuiltTo(xs, i, ys, old(used), used, c, leaked)
        invariant hi < lo ==> CrossedTo(xs, i, ys, lo, hi)
        invariant hi < lo && !SomeStraddles(xs, lo, hi) ==> used == old(used)
      {
        ghost var u1, ys1 := used, ys;
        ghost var gone, leak;
        st, ys, gone, leak := PunchOne(f, xs[i], lo, hi, ys);
        if lo <= hi {
          GoneUsed(xs[i], c, gone, old(used));
          forall p | p in old(used) && p !in used ensures BackedInCut(xs, c, p) { CutShort(xs, i, c, p); }
        }
        if st != Ok { return; }
        if lo <= hi {
          RebuiltStep(xs, i, ys1, Kept(xs[i], c), old(used), u1, gone, c, leaked, leak);
          leaked := leaked + leak;
        } else {
          CrossedStep(xs, i, ys1, lo, hi);
        }
        i := i + 1;
      }
      assert xs[..|xs|] == xs;
      if hi < lo {
        leaked := {};
        NothingCrossed(xs, used, lo, hi);
      }
      st := Ok;
    }

    /** On success, past the end of the file nothing changes; otherwise exactly the blocks of
        `PunchCut` are unmapped and freed, save those in `leaked`, whose release failed. A
        failure before the record is written may have freed blocks that the file still maps.
        When the hole ends before it starts inside an extent, the file keeps its mapping, two
        of its extents overlap, and blocks from the hole on are freed. */
    method PunchHole(id: nat, offset: U64, len: U64) returns (st: Status, ghost leaked: set<nat>)
      requires Usable()
      modifies this`files, this`used
      ensures !mounted || id == 0 || len == 0 ==> st == Inval
      ensures mounted && id != 0 && len > 0 && id !in files ==> st == IO
      ensures (mounted && id != 0 && len > 0 && id in old(files) ==>
        || st == (if old(files)[id].isFile then Ok else Inval) || Fault(st, failing)
        || (st == NoSpc && !ExtentFits(old(files)[id], 2 * |old(files)[id].exts|)))
      ensures MayStay(leaked, failing)
      ensures OthersSame(old(files), disk, files, disk, id)
      ensures st == Ok ==> id in old(files)
      ensures id in old(files) ==> files[id] == old(files)[id].(exts := files[id].exts)
      ensures st == Ok && offset >= SizeOf(old(files)[id]) ==> files == old(files) && used == old(used)
      ensures (st == Ok && offset < SizeOf(old(files)[id]) && !PunchCrosses(old(files)[id], offset, len) ==>
        var xs, c := Collected(old(files)[id].exts), PunchCut(old(files)[id], offset, len);
        CutMaps(xs, files[id].exts, c) && CutFinds(xs, files[id].exts, c) && FreedBut(xs, old(used), used, c, leaked))
      ensures (st == Ok && PunchCrosses(old(files)[id], offset, len) ==>
        && SomeOverlap(files[id].exts)
        && forall l, p :: Maps(files[id].exts, l, p) <==> Maps(Collected(old(files)[id].exts), l, p))
      ensures (id in old(files) && PunchCrosses(old(files)[id], offset, len) && (st == Ok || st == JournalErr) ==>
        (Valid() <==> old(Valid()) && files == old(files)))
      ensures (id in old(files) ==> !PunchCrosses(old(files)[id], offset, len)) ==> used <= old(used)
      ensures ((id in old(files) ==> !PunchCrosses(old(files)[id], offset, len)) ==>
        (Usable() <==> st == Ok || st == JournalErr || used == old(used)) && (old(Valid()) && Usable() ==> Valid()))
      ensures st != Ok && st != JournalErr ==> files == old(files)
    {
      leaked := {};
      NothingSeen(files, files, disk, id);
      if !mounted || id == 0 || len == 0 { return Inval, leaked; }
      if id !in files { return IO, leaked; }
      var failed := Fails(failing, Disk);
      if failed { return IO, leaked; }
      if !files[id].isFile { return Inval, leaked; }
      var size := SizeOf(files[id]);
      if offset >= size { return Ok, leaked; }
      var n := len;
      if (offset + n) % WORD > size { n := size - offset; }
      var lo, hi := offset / BLOCK_SIZE, (offset + n + BLOCK_SIZE - 1) % WORD / BLOCK_SIZE;
      failed := Fails(failing, Logging);
      if failed { return JournalErr, leaked; }
      var xs := Collected(files[id].exts);
      CollectedLoose(files, disk, used, id);
      ghost var crosses := SomeStraddles(xs, lo, hi);
      var ys;
      st, ys, leaked := RebuildAround(files[id], xs, lo, hi);
      if !crosses { UncutUnsound(files, disk, old(used), used, id, Between(lo, hi)); }
      if st != Ok { return st, leaked; }
      failed := Fails(failing, Disk);
      if failed { return IO, leaked; }
      ghost var f := files[id].(exts := ys);
      if crosses {
        OverlapNotDisjoint(ys);
      } else {
        CutSound(files, disk, old(used), used, id, f, xs, Between(lo, hi), leaked);
      }
      files := files[id := files[id].(exts := ys)];
      NothingSeen(old(files), files, disk, id);
      failed := Fails(failing, Logging);
      if failed { return JournalErr, leaked; }
      return Ok, leaked;
    }

    // ----- removal

    /** Gives back the blocks of the collected extents, one extent after the other and without
        looking at the results, and takes the last extent out of the record. `swept` is false
        when the record cannot be read; writing it back may fail. */
    method ReleaseAll(id: nat) returns (ghost swept: bool, ghost leaked: set<nat>)
      requires Usable() && id in files
      modifies this`files, this`used
      ensures used <= old(used) && OthersSame(old(files), disk, files, disk, id)
      ensures files[id] == old(files[id]).(exts := files[id].exts) && files[id].exts <= old(files[id].exts)
      ensures |files[id].exts| + 1 >= |old(files[id].exts)|
      ensures swept ==> FreedBut(Collected(old(files[id].exts)), old(used), used, From(0), leaked)
      ensures !swept ==> used == old(used) && Disk in failing
      ensures MayStay(leaked, failing)
      ensures old(files[id].exts) != [] && files == old(files) ==> Disk in failing
    {
      swept, leaked := false, {};
      NothingSeen(files, files, disk, id);
      var f := Fails(failing, Disk);
      if f { return; }
      var xs := Collected(files[id].exts);
      CollectedLoose(files, disk, used, id);
      ghost var c := From(0);
      swept := true;
      RebuiltStart(xs, used, c);
      var i := 0;
      while i < |xs|
        invariant i <= |xs| && files == old(files) && used <= old(used) && MayStay(leaked, failing)
        invariant RebuiltTo(xs, i, [], old(used), used, c, leaked)
      {
        ghost var u1, gone := used, Range(xs[i].physical, xs[i].count);
        GoneIs(xs[i], c, xs[i].logical, LEnd(xs[i]));
        GoneUsed(xs[i], c, gone, old(used));
        ghost var leak := FreeRange(xs[i].physical, xs[i].count);
        RebuiltStep(xs, i, [], [], old(used), u1, gone, c, leaked, leak);
        leaked := leaked + leak;
        i := i + 1;
      }
      assert xs[..|xs|] == xs;
      if |files[id].exts| > 0 {
        f := Fails(failing, Disk);
        if !f { files := files[id := files[id].(exts := files[id].exts[..|files[id].exts| - 1])]; }
      }
      NothingSeen(old(files), files, disk, id);
    }

    /** Removes a file's record after its extents. Once it is gone, exactly the blocks of the
        collected extents are free, save those in `leaked`, and nothing else has changed. When
        the slot cannot be given back, the file stays and still maps its extents, or all but the
        last one: then the volume is usable exactly if none of their blocks was freed. */
    method Remove(id: nat) returns (gone: bool, ghost swept: bool, ghost leaked: set<nat>)
      requires Usable()
      modifies this`files, this`used
      ensures id !in old(files) ==> !gone && files == old(files) && used == old(used)
      ensures gone ==> id in old(files) && files == old(files) - {id} && Usable() && (old(Valid()) ==> Valid())
      ensures gone && swept ==> FreedBut(Collected(old(files)[id].exts), old(used), used, From(0), leaked)
      ensures gone && !swept ==> used == old(used) && Disk in failing
      ensures id in old(files) && !gone ==> Disk in failing
      ensures MayStay(leaked, failing)
      ensures !gone ==> OthersSame(old(files), disk, files, disk, id)
      ensures !gone && id in old(files) ==> files[id] == old(files)[id].(exts := files[id].exts)
      ensures (!gone && id in old(files) ==>
        files[id].exts <= old(files)[id].exts && |files[id].exts| + 1 >= |old(files)[id].exts|)
      ensures !gone && id in old(files) ==> (Usable() <==> InUse(files[id].exts, used))
    {
      gone, swept, leaked := false, false, {};
      NothingSeen(files, files, disk, id);
      if id !in files { return; }
      KeptLoose(files, disk, used, used, id, files[id]);
      assert files[id := files[id]] == files;
      var failed := Fails(failing, Disk);
      if failed { return; }
      swept, leaked := ReleaseAll(id);
      ghost var f := files[id];
      KeptLoose(old(files), disk, old(used), used, id, f);
      assert old(files)[id := f] == files;
      RemovedLoose(old(files), disk, old(used), used, id);
      assert files - {id} == old(files) - {id};
      failed := Fails(failing, Disk);
      if failed { return; }
      files := files - {id};
      gone := true;
    }
  }
}
