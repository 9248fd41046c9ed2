/** The block allocator: a bitmap in bitmap blocks with cached free counts per region. Every
    read, write and journal append may fail that `failing` names, and what the source then
    undoes, or leaves behind, is part of the contracts. */
module Bitmap {
  import opened BitRuns
  import opened Faults
  import opened RegionCounts

  datatype Status = Ok | Inval | NoMem | Io | JournalErr

  /** What failed attempts left behind: nothing; region counts that may be too low; or bits
      that stayed set and counts that may be wrong. */
  datatype Trouble = Clean | Undone | Stuck

  /** The inner bit loop of both scans: up to eight bits of `byte` from address `base`. */
  method ScanByte(byte: Byte, base: nat, end: nat, n: nat, start: nat, len: nat, ghost s: seq<bool>, ghost lo: nat)
    returns (found: bool, start': nat, len': nat)
    requires lo <= end <= |s| && Scanned(s, lo, Min(base, end), n, start, len)
    requires ByteIs(s, base, end, byte)
    ensures found ==> FirstRun(s, lo, end, n, start')
    ensures !found ==> Scanned(s, lo, Min(base + 8, end), n, start', len')
  {
    found, start', len' := false, start, len;
    var k := 0;
    while k < 8
      invariant k <= 8 && Scanned(s, lo, Min(base + k, end), n, start', len')
    {
      var bit := base + k;
      if bit >= end { break; }
      assert BitIs(s, base + k, byte[k]);
      if byte[k] {
        ScannedSet(s, lo, bit, n, start', len');
        len' := 0;
      } else {
        ScannedFree(s, lo, bit, n, start', len');
        if len' == 0 { start' := bit; }
        len' := len' + 1;
        if len' >= n {
          FirstRunWider(s, lo, bit + 1, end, n, start');
          return true, start', len';
        }
      }
      k := k + 1;
    }
  }

  /** The byte loop of the linear scan over one bitmap block. */
  method ScanBlock(buf: BitBlock, base: nat, end: nat, n: nat, start: nat, len: nat, ghost s: seq<bool>)
    returns (found: bool, start': nat, len': nat)
    requires end <= |s| && Scanned(s, 0, Min(base, end), n, start, len) && BlockIs(s, base, buf)
    ensures found ==> FirstRun(s, 0, end, n, start')
    ensures !found ==> Scanned(s, 0, Min(base + BLOCK_BITS, end), n, start', len')
  {
    found, start', len' := false, start, len;
    var bo := 0;
    while bo < BYTES
      invariant bo <= BYTES && Scanned(s, 0, Min(base + 8 * bo, end), n, start', len')
    {
      ByteUpTo(s, base, end, buf, bo);
      found, start', len' := ScanByte(buf[bo], base + 8 * bo, end, n, start', len', s, 0);
      if found { return; }
      bo := bo + 1;
    }
  }

  class Allocator {
    const dataStart: nat
    const dataBlocks: nat

    /** The blocks from the first bitmap block to the end of the device. */
    var blocks: seq<BitBlock>
    var freeBlocks: int
    var regions: Regions
    var hint: nat

    /** The steps that may fail. */
    var failing: set<Failure>

    /** Reading a bitmap block into a buffer, or writing it, may fail. */
    predicate Flaky()
      reads this`failing
    {
      Memory in failing || Disk in failing
    }

    /** Holds after every operation, whatever fails. */
    ghost predicate Shaped()
      reads this
    {
      && dataStart > 0 && dataBlocks <= |blocks| * BLOCK_BITS
      && (regions.On? ==> |regions.free| == RegionCount(dataBlocks))
      && (regions.On? && dataBlocks > 0 ==> hint < RegionCount(dataBlocks))
    }

    /** The cached counts are right as well. */
    ghost predicate Valid()
      reads this
    {
      Shaped() && RegionsMatch(Flat(blocks))
    }

    /** The cached counts, if there are any, are those of `s`. */
    ghost predicate RegionsMatch(s: seq<bool>)
      reads this`regions
    {
      regions.On? ==> dataBlocks <= |s| && regions.free == FreeCounts(s, dataBlocks)
    }

    /** The bitmap as bits; bit `i` stands for block `dataStart + i`. */
    ghost function Bits(): (s: seq<bool>)
      reads this
      ensures |s| == |blocks| * BLOCK_BITS
    {
      Flat(blocks)
    }

    /** Constant over every operation inside the data area that does not fail. */
    ghost function Total(): int
      requires Shaped()
      reads this
    {
      freeBlocks + Ones(Bits(), 0, dataBlocks)
    }

    // ----- region counts from the bitmap

    constructor (dataStart: nat, dataBlocks: nat, blocks: seq<BitBlock>, freeBlocks: int)
      requires dataStart > 0 && dataBlocks <= |blocks| * BLOCK_BITS
      ensures Valid() && regions == Off && this.blocks == blocks && this.freeBlocks == freeBlocks
      ensures this.dataStart == dataStart && this.dataBlocks == dataBlocks
    {
      this.dataStart, this.dataBlocks := dataStart, dataBlocks;
      this.blocks, this.freeBlocks, this.regions, this.hint, this.failing := blocks, freeBlocks, Off, 0, {};
    }

    /** Counts the regions from the bitmap, skipping clear bytes and taking full bytes whole.
        `ok` is false when the counts exist already, or memory or a bitmap block is not to
        be had. */
    method InitRegions() returns (ok: bool)
      requires Shaped()
      modifies this`regions, this`hint
      ensures Shaped() && (ok ==> Valid() && regions.On? && hint == 0)
      ensures !ok ==> regions == old(regions) && hint == old(hint)
      ensures old(regions).On? ==> !ok
      ensures !ok ==> old(regions).On? || Flaky()
    {
      if regions.On? { return false; }
      if dataBlocks == 0 {
        regions, hint := On([]), 0;
        return true;
      }
      var f := Fails(failing, Memory);
      if f { return false; }
      ghost var s := Bits();
      var rs: seq<nat> := seq(RegionCount(dataBlocks),
                              r requires 0 <= r < RegionCount(dataBlocks) => RegionSize(r, dataBlocks));
      TallyStart(s, dataBlocks);
      var bb := 0;
      while bb < |blocks|
        invariant bb <= |blocks| && regions == old(regions) && hint == old(hint)
        invariant rs == Tally(s, dataBlocks, BLOCK_BITS * bb)
      {
        f := Fails(failing, Disk);
        if f { return false; }
        var buf := blocks[bb];
        BlockAt(blocks, bb);
        rs := CountBlock(buf, BLOCK_BITS * bb, rs, s);
        bb := bb + 1;
      }
      TallyDone(s, dataBlocks, BLOCK_BITS * bb);
      regions, hint := On(rs), 0;
      return true;
    }

    method CountBlock(buf: BitBlock, base: nat, counts: seq<nat>, ghost s: seq<bool>) returns (rs: seq<nat>)
      requires dataBlocks <= |s| && counts == Tally(s, dataBlocks, base)
      requires BlockIs(s, base, buf)
      ensures rs == Tally(s, dataBlocks, base + BLOCK_BITS)
    {
      rs := counts;
      var bo := 0;
      while bo < BYTES
        invariant bo <= BYTES && rs == Tally(s, dataBlocks, base + 8 * bo)
      {
        var byte := buf[bo];
        var bitBase := base + 8 * bo;
        assert ByteIs(s, bitBase, bitBase + 8, byte);
        if forall k :: 0 <= k < 8 ==> !byte[k] {
          assert BitIs(s, bitBase + 7, byte[7]);
          forall i | bitBase <= i < bitBase + 8 ensures !s[i] {
            assert BitIs(s, bitBase + (i - bitBase), byte[i - bitBase]);
          }
          TallyClear(s, dataBlocks, bitBase, 8);
        } else if bitBase >= dataBlocks {
          TallyPast(s, dataBlocks, bitBase, base + BLOCK_BITS);
          break;
        } else {
          rs := CountByte(byte, bitBase, rs, s);
        }
        bo := bo + 1;
      }
    }

    /** One decrement per set bit below the end of the data area. */
    method CountByte(byte: Byte, base: nat, counts: seq<nat>, ghost s: seq<bool>) returns (rs: seq<nat>)
      requires base < dataBlocks <= |s| && counts == Tally(s, dataBlocks, base) && ByteIs(s, base, base + 8, byte)
      ensures rs == Tally(s, dataBlocks, base + 8)
    {
      if forall k :: 0 <= k < 8 ==> byte[k] {
        rs := CountFullByte(byte, base, counts, s);
      } else {
        rs := CountMixedByte(byte, base, counts, s);
      }
    }

    method CountFullByte(byte: Byte, base: nat, counts: seq<nat>, ghost s: seq<bool>) returns (rs: seq<nat>)
      requires base < dataBlocks <= |s| && counts == Tally(s, dataBlocks, base) && ByteIs(s, base, base + 8, byte)
      requires forall k :: 0 <= k < 8 ==> byte[k]
      ensures rs == Tally(s, dataBlocks, base + 8)
    {
      rs := counts;
      var bits := 8;
      if base + 8 > dataBlocks { bits := dataBlocks - base; }
      var i := 0;
      while i < bits
        invariant i <= bits && rs == Tally(s, dataBlocks, base + i)
      {
        assert BitIs(s, base + i, byte[i]);
        rs := CountSetBit(base + i, rs, s);
        i := i + 1;
      }
      if bits < 8 { TallyPast(s, dataBlocks, base + bits, base + 8); }
    }

    method CountMixedByte(byte: Byte, base: nat, counts: seq<nat>, ghost s: seq<bool>) returns (rs: seq<nat>)
      requires base < dataBlocks <= |s| && counts == Tally(s, dataBlocks, base) && ByteIs(s, base, base + 8, byte)
      ensures rs == Tally(s, dataBlocks, base + 8)
    {
      rs := counts;
      var k := 0;
      while k < 8
        invariant k <= 8 && rs == Tally(s, dataBlocks, base + k)
      {
        var bit := base + k;
        if bit >= dataBlocks {
          TallyPast(s, dataBlocks, bit, base + 8);
          break;
        }
        assert BitIs(s, bit, byte[k]);
        if byte[k] {
          rs := CountSetBit(bit, rs, s);
        } else {
          TallyClear(s, dataBlocks, bit, 1);
        }
        k := k + 1;
      }
    }

    method CountSetBit(bit: nat, counts: seq<nat>, ghost s: seq<bool>) returns (rs: seq<nat>)
      requires bit < dataBlocks <= |s| && s[bit] && counts == Tally(s, dataBlocks, bit)
      ensures rs == Tally(s, dataBlocks, bit + 1)
    {
      rs := counts;
      var region := bit / REGION;
      TallySet(s, dataBlocks, bit);
      if rs[region] > 0 { rs := rs[region := rs[region] - 1]; }
    }

    // ----- single bits

    /** The block has a bit on the device. */
    predicate Inside(block: nat)
      reads this`blocks
    {
      dataStart <= block < dataStart + |blocks| * BLOCK_BITS
    }

    /** A buffer is to be had, and a bitmap block can be read into it. */
    method Readable() returns (ok: bool)
      ensures !ok ==> Flaky()
    {
      var f := Fails(failing, Memory);
      if f { return false; }
      f := Fails(failing, Disk);
      return !f;
    }

    /** Block `block` becomes allocated. The counters move first, and stay moved when the
        bitmap block then cannot be written. */
    method Set(block: nat) returns (ok: bool)
      requires Shaped()
      modifies this`blocks, this`freeBlocks, this`regions
      ensures Shaped() && |blocks| == |old(blocks)|
      ensures !Inside(block) ==> !ok && blocks == old(blocks)
      ensures !Inside(block) ==> freeBlocks == old(freeBlocks) && regions == old(regions)
      ensures Inside(block) ==> Bits() == if ok then old(Bits())[block - dataStart := true] else old(Bits())
      ensures (Inside(block) ==>
        freeBlocks == old(freeBlocks) || (freeBlocks == old(freeBlocks) - 1 && !old(Bits())[block - dataStart]))
      ensures ok ==> (freeBlocks == old(freeBlocks) <==> old(Bits())[block - dataStart])
      ensures regions == (if freeBlocks == old(freeBlocks) then old(regions)
                          else Lowered(old(regions), block - dataStart))
      ensures ok && block - dataStart < dataBlocks ==> Total() == old(Total()) && (old(Valid()) ==> Valid())
      ensures !ok && old(Valid()) ==> (Valid() <==> regions == old(regions))
      ensures !ok && Inside(block) ==> Flaky()
    {
      if block < dataStart { return false; }
      var readable := Readable();
      if !readable { return false; }
      var idx := block - dataStart;
      if idx / BLOCK_BITS >= |blocks| { return false; }
      ghost var s := Bits();
      var was := TestBit(idx);
      if !was {
        freeBlocks := freeBlocks - 1;
        DropCount(idx);
      }
      var f := Fails(failing, Disk);
      if f { return false; }
      PutBit(idx, true);
      ok := true;
      if idx < dataBlocks { FlipKeeps(old(regions), s, idx, true); }
    }

    /** What flipping a bit of the data area does to the set bits and to right counts. */
    lemma FlipKeeps(rs: Regions, s: seq<bool>, idx: nat, v: bool)
      requires idx < dataBlocks <= |s|
      ensures Ones(s[idx := v], 0, dataBlocks) ==
              Ones(s, 0, dataBlocks) + (if s[idx] == v then 0 else if v then 1 else -1)
      ensures (rs == On(FreeCounts(s, dataBlocks)) ==>
          (if s[idx] == v then rs else if v then Lowered(rs, idx) else Raised(rs, dataBlocks, idx))
          == On(FreeCounts(s[idx := v], dataBlocks)))
    {
      if s[idx] == v {
        assert s[idx := v] == s;
      } else {
        OnesFlip(s, 0, dataBlocks, idx, v);
        CountsFlip(s, dataBlocks, idx, v);
      }
    }

    method TestBit(idx: nat) returns (was: bool)
      requires idx < |blocks| * BLOCK_BITS
      ensures was == Bits()[idx]
    {
      was := blocks[idx / BLOCK_BITS][ByteOf(idx)][idx % 8];
    }

    method PutBit(idx: nat, v: bool)
      requires idx < |blocks| * BLOCK_BITS
      modifies this`blocks
      ensures |blocks| == |old(blocks)| && Bits() == old(Bits())[idx := v]
    {
      FlatSet(blocks, idx, v);
      var bb := idx / BLOCK_BITS;
      blocks := blocks[bb := WithBit(blocks[bb], idx, v)];
    }

    /** Block `block` becomes free. The counters move first, and stay moved when the bitmap
        block then cannot be written. */
    method Clear(block: nat) returns (ok: bool)
      requires Shaped()
      modifies this`blocks, this`freeBlocks, this`regions
      ensures Shaped() && |blocks| == |old(blocks)|
      ensures !Inside(block) ==> !ok && blocks == old(blocks)
      ensures !Inside(block) ==> freeBlocks == old(freeBlocks) && regions == old(regions)
      ensures Inside(block) ==> Bits() == if ok then old(Bits())[block - dataStart := false] else old(Bits())
      ensures (Inside(block) ==>
        freeBlocks == old(freeBlocks) || (freeBlocks == old(freeBlocks) + 1 && old(Bits())[block - dataStart]))
      ensures ok ==> (freeBlocks == old(freeBlocks) <==> !old(Bits())[block - dataStart])
      ensures regions == (if freeBlocks == old(freeBlocks) then old(regions)
                          else Raised(old(regions), dataBlocks, block - dataStart))
      ensures ok && block - dataStart < dataBlocks ==> Total() == old(Total()) && (old(Valid()) ==> Valid())
      ensures !ok && old(Valid()) ==> (Valid() <==> regions == old(regions))
      ensures !ok && Inside(block) ==> Flaky()
    {
      if block < dataStart { return false; }
      var readable := Readable();
      if !readable { return false; }
      var idx := block - dataStart;
      if idx / BLOCK_BITS >= |blocks| { return false; }
      ghost var s := Bits();
      var was := TestBit(idx);
      if was {
        freeBlocks := freeBlocks + 1;
        RaiseCount(idx);
      }
      var f := Fails(failing, Disk);
      if f { return false; }
      PutBit(idx, false);
      ok := true;
      if idx < dataBlocks { FlipKeeps(old(regions), s, idx, false); }
    }

    /** The region count of a bit about to be set. */
    method DropCount(idx: nat)
      modifies this`regions
      ensures regions == Lowered(old(regions), idx)
    {
      if regions.On? {
        var region := idx / REGION;
        if region < |regions.free| && regions.free[region] > 0 {
          regions := On(regions.free[region := regions.free[region] - 1]);
        }
      }
    }

    /** The region count of a bit about to be cleared. */
    method RaiseCount(idx: nat)
      modifies this`regions
      ensures regions == Raised(old(regions), dataBlocks, idx)
    {
      if regions.On? {
        var region := idx / REGION;
        if region < |regions.free| {
          if regions.free[region] < RegionSize(region, dataBlocks) {
            regions := On(regions.free[region := regions.free[region] + 1]);
          }
        }
      }
    }

    // ----- allocation

    /** No allocated block became free. */
    ghost predicate Keeps(s: seq<bool>, t: seq<bool>) {
      |t| == |s| && forall i :: 0 <= i < |s| && s[i] ==> t[i]
    }

    /** First fit inside one region, scanning and updating a single bitmap block. When the
        journal refuses the entry the bits are cleared again, and the region's count loses
        the run all the same. */
    method AllocInRegion(region: nat, count: nat) returns (block: nat, failed: bool, ghost trouble: Trouble)
      requires Shaped() && regions.On? && region < |regions.free| && count > 0
      modifies this`blocks, this`freeBlocks, this`regions
      ensures Shaped() && regions.On? && Keeps(old(Bits()), Bits())
      ensures (block == 0 && trouble == Clean ==>
        blocks == old(blocks) && freeBlocks == old(freeBlocks) && regions == old(regions))
      ensures block == 0 && !failed && old(Valid()) ==> NoRun(Bits(), Lo(region), Hi(region, dataBlocks), count)
      ensures (block != 0 ==>
        block >= dataStart && FirstRun(old(Bits()), Lo(region), Hi(region, dataBlocks), count, block - dataStart))
      ensures (block != 0 ==>
        Bits() == Marked(old(Bits()), block - dataStart, count, true) && freeBlocks == old(freeBlocks) - count)
      ensures block != 0 ==> trouble == Clean && Total() == old(Total()) && (old(Valid()) ==> Valid())
      ensures trouble == Undone ==> failed && Bits() == old(Bits()) && freeBlocks == old(freeBlocks)
      ensures (trouble == Undone && old(Valid()) ==>
        (Valid() <==> count <= Ones(Bits(), Lo(region), Hi(region, dataBlocks))))
      ensures trouble == Stuck ==> failed
      ensures failed ==> Flaky() || Logging in failing
      ensures trouble != Clean ==> Logging in failing
      ensures trouble == Stuck ==> Flaky()
    {
      block, failed, trouble := 0, false, Clean;
      ghost var s := Bits();
      var start, end := region * REGION, region * REGION + REGION;
      if end > dataBlocks { end := dataBlocks; }
      RegionInside(region, dataBlocks);
      if regions.free[region] < count {
        if Valid() {
          assert regions.free[region] == ZerosIn(s, dataBlocks, region);
          TooFewZeros(s, start, end, count);
        }
        return;
      }
      var readable := Readable();
      if !readable { return 0, true, Clean; }
      var bb := start / 8 / BYTES;
      OneBlockRegion(region, dataBlocks, start);
      forall i | start <= i < end ensures blocks[bb][ByteOf(i)][i % 8] == s[i] {
        OneBlockRegion(region, dataBlocks, i);
      }
      var found, runStart := ScanRegion(blocks[bb], region, count, s);
      if found {
        failed, trouble := Claim(region, runStart, count, s);
        if !failed { block := dataStart + runStart; }
      }
    }

    /** Marks the run in its bitmap block and logs it, or gives it back. */
    method Claim(region: nat, start: nat, count: nat, ghost s: seq<bool>) returns (failed: bool, ghost trouble: Trouble)
      requires Shaped() && regions.On? && region < |regions.free| && 0 < count <= regions.free[region] && s == Bits()
      requires Lo(region) <= start && start + count <= Hi(region, dataBlocks) <= dataBlocks && FreeRun(s, start, count)
      modifies this`blocks, this`freeBlocks, this`regions
      ensures Shaped() && regions.On? && Keeps(s, Bits())
      ensures (failed && trouble == Clean ==>
        blocks == old(blocks) && freeBlocks == old(freeBlocks) && regions == old(regions))
      ensures (!failed ==>
        trouble == Clean && Bits() == Marked(s, start, count, true) && freeBlocks == old(freeBlocks) - count)
      ensures !failed ==> Total() == old(Total()) && (old(Valid()) ==> Valid())
      ensures trouble == Undone ==> failed && Bits() == s && freeBlocks == old(freeBlocks)
      ensures trouble == Undone && old(Valid()) ==> (Valid() <==> count <= Ones(s, Lo(region), Hi(region, dataBlocks)))
      ensures trouble == Stuck ==> failed
      ensures failed ==> Flaky() || Logging in failing
      ensures trouble != Clean ==> Logging in failing
      ensures trouble == Stuck ==> Flaky()
    {
      var f := Fails(failing, Disk);
      if f { return true, Clean; }
      var logged := TakeInRegion(region, start, count);
      if logged {
        if old(Valid()) { CountsTaken(s, dataBlocks, region, start, count); }
        regions := On(regions.free[region := regions.free[region] - count]);
        return false, Clean;
      }
      ghost var all := BackOut(region, start, count, s);
      return true, if all then Undone else Stuck;
    }

    /** Gives a run just marked in `s` back, and takes it off the region's count even so. */
    method BackOut(region: nat, start: nat, count: nat, ghost s: seq<bool>) returns (ghost all: bool)
      requires Shaped() && regions.On? && region < |regions.free| && count <= regions.free[region]
      requires Lo(region) <= start && start + count <= Hi(region, dataBlocks) && FreeRun(s, start, count)
      requires Bits() == Marked(s, start, count, true)
      modifies this`blocks, this`freeBlocks, this`regions
      ensures Shaped() && regions.On? && Keeps(s, Bits())
      ensures all ==> Bits() == s && freeBlocks == old(freeBlocks) + count
      ensures (all && old(regions) == On(FreeCounts(s, dataBlocks)) ==>
        (regions == old(regions) <==> count <= Ones(s, Lo(region), Hi(region, dataBlocks))))
      ensures !all ==> Flaky()
    {
      ghost var was, right := regions, On(FreeCounts(s, dataBlocks));
      all := UndoMark(start, count);
      MarkedBack(s, Bits(), start, count);
      ghost var out := On(regions.free[region := regions.free[region] - count]);
      assert all && was == right ==> (out == right <==> count <= Ones(s, Lo(region), Hi(region, dataBlocks))) by {
        if all && was == right { UndoneInRegion(s, dataBlocks, region, start, count); }
      }
      regions := On(regions.free[region := regions.free[region] - count]);
    }

    /** Marks a free run of one region in its bitmap block, takes it off the free count and
        logs it. */
    method TakeInRegion(region: nat, start: nat, count: nat) returns (logged: bool)
      requires Shaped() && regions.On? && region < |regions.free| && count > 0
      requires Lo(region) <= start && start + count <= Hi(region, dataBlocks) <= dataBlocks
      requires FreeRun(Bits(), start, count)
      modifies this`blocks, this`freeBlocks
      ensures Shaped() && Total() == old(Total())
      ensures Bits() == Marked(old(Bits()), start, count, true) && freeBlocks == old(freeBlocks) - count
      ensures !logged ==> Logging in failing
    {
      OnesMarked(Bits(), 0, dataBlocks, start, count, true);
      MarkInBlock(region, start, count);
      freeBlocks := freeBlocks - count;
      var f := Fails(failing, Logging);
      logged := !f;
    }

    /** Clears the bits of a run one by one; the results are ignored, and `all` says whether
        they were all good. */
    method UndoMark(start: nat, count: nat) returns (ghost all: bool)
      requires Shaped() && start + count <= dataBlocks && forall i :: start <= i < start + count ==> Bits()[i]
      modifies this`blocks, this`freeBlocks, this`regions
      ensures Shaped() && regions.On? == old(regions.On?) && NotLower(old(regions), regions)
      ensures SameOutside(old(Bits()), Bits(), start, count)
      ensures all ==> Bits() == Marked(old(Bits()), start, count, false) && freeBlocks == old(freeBlocks) + count
      ensures all ==> regions == RaisedAll(old(regions), dataBlocks, old(Bits()), start, count)
      ensures !all ==> Flaky()
    {
      ghost var s, rs, free := Bits(), regions, freeBlocks;
      all := true;
      MarkedNone(s, start, false);
      var j := 0;
      while j < count
        invariant j <= count && Shaped() && regions.On? == rs.On? && NotLower(rs, regions)
        invariant SameOutside(s, Bits(), start, count) && (!all ==> Flaky())
        invariant (all ==>
          && Bits() == Marked(s, start, j, false) && freeBlocks == free + j
          && regions == RaisedAll(rs, dataBlocks, s, start, j))
      {
        ghost var ok := UndoNext(start + j, s, start, j, rs, all);
        all := all && ok;
        j := j + 1;
      }
    }

    /** The bit behind those of `s` already given back from `a` on. */
    method UndoNext(idx: nat, ghost s: seq<bool>, ghost a: nat, ghost m: nat, ghost rs: Regions, ghost all: bool)
      returns (ghost ok: bool)
      requires Shaped() && a + m == idx < |s| == |blocks| * BLOCK_BITS && idx < dataBlocks && s[idx]
      requires all ==> Bits() == Marked(s, a, m, false) && regions == RaisedAll(rs, dataBlocks, s, a, m)
      modifies this`blocks, this`freeBlocks, this`regions
      ensures Shaped() && regions.On? == old(regions.On?) && NotLower(old(regions), regions)
      ensures SameOutside(old(Bits()), Bits(), idx, 1)
      ensures all && ok ==> Bits() == Marked(s, a, m + 1, false) && freeBlocks == old(freeBlocks) + 1
      ensures all && ok ==> regions == RaisedAll(rs, dataBlocks, s, a, m + 1)
      ensures !ok ==> Flaky()
    {
      ghost var t, now, next := Bits(), regions, RaisedAll(rs, dataBlocks, s, a, m + 1);
      assert all ==> next == Raised(now, dataBlocks, idx) by {
        if all { RaisedMore(rs, dataBlocks, s, a, m, now, idx); }
      }
      if all { MarkedMore(s, a, m, false); }
      var cleared := Clear(dataStart + idx);
      ok := cleared;
      if all { assert t[idx] == s[idx]; }
    }

    ghost predicate SameOutside(s: seq<bool>, t: seq<bool>, a: nat, n: nat) {
      |t| == |s| && forall i :: 0 <= i < |s| && !(a <= i < a + n) ==> t[i] == s[i]
    }

    ghost predicate NotLower(rs: Regions, qs: Regions) {
      rs.On? && qs.On? ==> |qs.free| == |rs.free| && forall r :: 0 <= r < |rs.free| ==> rs.free[r] <= qs.free[r]
    }

    lemma MarkedBack(s: seq<bool>, t: seq<bool>, a: nat, n: nat)
      requires FreeRun(s, a, n) && SameOutside(Marked(s, a, n, true), t, a, n)
      ensures Marked(Marked(s, a, n, true), a, n, false) == s && Keeps(s, t)
    {
      forall i | 0 <= i < |s| && s[i] ensures t[i] { assert !(a <= i < a + n) && t[i] == Marked(s, a, n, true)[i]; }
    }

    method MarkInBlock(region: nat, start: nat, count: nat)
      requires Lo(region) <= start && start + count <= Hi(region, dataBlocks) <= dataBlocks <= |blocks| * BLOCK_BITS
      requires count > 0
      modifies this`blocks
      ensures |blocks| == |old(blocks)| && Bits() == Marked(old(Bits()), start, count, true)
    {
      var bb := Lo(region) / 8 / BYTES;
      OneBlockRegion(region, dataBlocks, start);
      forall i | start <= i < start + count ensures i / BLOCK_BITS == bb { OneBlockRegion(region, dataBlocks, i); }
      var buf := MarkRun(blocks[bb], region, start, count);
      WithRunFlat(blocks, bb, start, count);
      blocks := blocks[bb := buf];
    }

    method ScanRegion(buf: BitBlock, region: nat, count: nat, ghost s: seq<bool>) returns (found: bool, start: nat)
      requires region < RegionCount(dataBlocks) && count > 0 && dataBlocks <= |s|
      requires forall i :: Lo(region) <= i < Hi(region, dataBlocks) ==> buf[ByteOf(i)][i % 8] == s[i]
      ensures found ==> FirstRun(s, Lo(region), Hi(region, dataBlocks), count, start)
      ensures !found ==> NoRun(s, Lo(region), Hi(region, dataBlocks), count)
    {
      var lo, end := Lo(region), Hi(region, dataBlocks);
      RegionInside(region, dataBlocks);
      OneBlockRegion(region, dataBlocks, lo);
      var offset, bytes := lo / 8 % BYTES, (end + 7) / 8 - lo / 8;
      OneBlockRegion(region, dataBlocks, end - 1);
      var len, i := 0, 0;
      found, start := false, 0;
      while i < bytes
        invariant i <= bytes && Scanned(s, lo, Min(lo + 8 * i, end), count, start, len)
      {
        RegionByte(buf, region, s, i);
        found, start, len := ScanByte(buf[offset + i], lo + 8 * i, end, count, start, len, s, lo);
        if found { return; }
        i := i + 1;
      }
    }

    /** Bit `k` of the region's byte `i`, in the one block that holds the region. */
    lemma RegionBit(buf: BitBlock, region: nat, s: seq<bool>, i: nat, k: nat)
      requires dataBlocks <= |s| && k < 8 && Lo(region) + 8 * i + k < Hi(region, dataBlocks)
      requires forall j :: Lo(region) <= j < Hi(region, dataBlocks) ==> buf[ByteOf(j)][j % 8] == s[j]
      ensures Lo(region) / 8 % BYTES + i < BYTES
      ensures BitIs(s, Lo(region) + 8 * i + k, buf[Lo(region) / 8 % BYTES + i][k])
    {
      var j := Lo(region) + 8 * i + k;
      OneBlockRegion(region, dataBlocks, j);
      assert buf[ByteOf(j)][j % 8] == s[j];
      assert j == 8 * (32 * region + i) + k;
      assert j % 8 == k && j / 8 == Lo(region) / 8 + i;
    }

    lemma RegionByte(buf: BitBlock, region: nat, s: seq<bool>, i: nat)
      requires dataBlocks <= |s| && Lo(region) + 8 * i < Hi(region, dataBlocks)
      requires forall j :: Lo(region) <= j < Hi(region, dataBlocks) ==> buf[ByteOf(j)][j % 8] == s[j]
      ensures Lo(region) / 8 % BYTES + i < BYTES
      ensures ByteIs(s, Lo(region) + 8 * i, Hi(region, dataBlocks), buf[Lo(region) / 8 % BYTES + i])
    {
      RegionBit(buf, region, s, i, 0);
      var base, byte := Lo(region) + 8 * i, buf[Lo(region) / 8 % BYTES + i];
      forall k: nat | k < 8 && base + k < Hi(region, dataBlocks) ensures BitIs(s, base + k, byte[k]) {
        RegionBit(buf, region, s, i, k);
      }
    }

    /** Sets the run's bits in the region's one bitmap block. */
    method MarkRun(buf: BitBlock, region: nat, start: nat, count: nat) returns (r: BitBlock)
      requires Lo(region) <= start && start + count <= Hi(region, dataBlocks) && count > 0
      ensures r == WithRun(buf, start, count)
    {
      var startByte := Lo(region) / 8;
      var offset := startByte % BYTES;
      r := buf;
      var j := 0;
      while j < count
        invariant j <= count && r == WithRun(buf, start, j)
      {
        var bit := start + j;
        OneBlockRegion(region, dataBlocks, bit);
        var byteIdx := bit / 8 - startByte;
        assert offset + byteIdx == ByteOf(bit);
        r := r[offset + byteIdx := r[offset + byteIdx][bit % 8 := true]];
        j := j + 1;
      }
    }

    /** First fit over the whole data area, across regions and bitmap blocks. Bits that were
        marked before a block could not be read or written stay marked. When the journal
        refuses the entry the bits are cleared again, and the region counts lose the run all
        the same. */
    method AllocLinear(count: nat) returns (block: nat, failed: bool, ghost trouble: Trouble)
      requires Shaped()
      modifies this`blocks, this`freeBlocks, this`regions
      ensures Shaped() && regions.On? == old(regions.On?) && Keeps(old(Bits()), Bits())
      ensures (block == 0 && trouble == Clean ==>
        blocks == old(blocks) && freeBlocks == old(freeBlocks) && regions == old(regions))
      ensures block == 0 && !failed && count > 0 ==> NoRun(Bits(), 0, dataBlocks, count)
      ensures (block != 0 ==>
        count > 0 && block >= dataStart && FirstRun(old(Bits()), 0, dataBlocks, count, block - dataStart))
      ensures (block != 0 ==>
        Bits() == Marked(old(Bits()), block - dataStart, count, true) && freeBlocks == old(freeBlocks) - count)
      ensures block != 0 ==> trouble == Clean && Total() == old(Total()) && (old(Valid()) ==> Valid())
      ensures trouble == Undone ==> failed && Bits() == old(Bits()) && freeBlocks == old(freeBlocks)
      ensures (trouble == Undone && old(Valid()) && regions.On? ==>
          exists a: nat :: FirstRun(Bits(), 0, dataBlocks, count, a) && (Valid() <==> RoomToUndo(Bits(), a, count)))
      ensures trouble == Stuck ==> failed
      ensures failed ==> Flaky() || Logging in failing
      ensures trouble == Undone ==> Logging in failing
      ensures trouble == Stuck ==> Flaky()
    {
      block, failed, trouble := 0, false, Clean;
      if count == 0 { return; }
      var f := Fails(failing, Memory);
      if f { return 0, true, Clean; }
      var found, runStart;
      found, runStart, failed := ScanAll(count);
      if !found { return; }
      ghost var s, rs := Bits(), regions;
      ghost var marked;
      failed, marked := MarkEach(runStart, count);
      if failed {
        trouble := if marked == 0 then Clean else Stuck;
        return;
      }
      OnesMarked(s, 0, dataBlocks, runStart, count, true);
      freeBlocks := freeBlocks - count;
      f := Fails(failing, Logging);
      var logged := !f;
      if !logged {
        ghost var all := UndoMark(runStart, count);
        MarkedBack(s, Bits(), runStart, count);
        failed, trouble := true, if all then Undone else Stuck;
      }
      DropEach(runStart, count);
      if logged {
        block := dataStart + runStart;
        if old(Valid()) && rs.On? { LoweredCounts(s, dataBlocks, runStart, count); }
      }
      if trouble == Undone && old(Valid()) && rs.On? { UndoneCounts(s, dataBlocks, runStart, count); }
    }

    /** Every region has at least as many allocated blocks as the run has blocks in it. */
    ghost predicate RoomToUndo(s: seq<bool>, a: nat, count: nat) {
      && dataBlocks <= |s|
      && forall r: nat :: r < RegionCount(dataBlocks) ==> Overlap(a, count, r) <= Ones(s, Lo(r), Hi(r, dataBlocks))
    }

    method ScanAll(count: nat) returns (found: bool, start: nat, failed: bool)
      requires Shaped() && count > 0
      ensures found ==> FirstRun(Bits(), 0, dataBlocks, count, start)
      ensures !found && !failed ==> NoRun(Bits(), 0, dataBlocks, count)
      ensures failed ==> Disk in failing
    {
      ghost var s := Bits();
      found, start, failed := false, 0, false;
      var len, bb := 0, 0;
      while bb < |blocks|
        invariant bb <= |blocks|
        invariant Scanned(s, 0, Min(BLOCK_BITS * bb, dataBlocks), count, start, len)
      {
        var f := Fails(failing, Disk);
        if f { return false, 0, true; }
        BlockAt(blocks, bb);
        found, start, len := ScanBlock(blocks[bb], BLOCK_BITS * bb, dataBlocks, count, start, len, s);
        if found { return; }
        bb := bb + 1;
      }
    }

    /** Reads, changes and writes back one bitmap block per bit; `marked` bits are set when
        it stops. */
    method MarkEach(start: nat, count: nat) returns (failed: bool, ghost marked: nat)
      requires start + count <= |blocks| * BLOCK_BITS
      modifies this`blocks
      ensures |blocks| == |old(blocks)| && marked <= count && Bits() == Marked(old(Bits()), start, marked, true)
      ensures !failed ==> marked == count
      ensures marked == 0 ==> blocks == old(blocks)
      ensures failed ==> Disk in failing
    {
      var j := 0;
      failed, marked := false, 0;
      MarkedNone(Bits(), start, true);
      while j < count
        invariant j == marked <= count && |blocks| == |old(blocks)| && Bits() == Marked(old(Bits()), start, j, true)
        invariant j == 0 ==> blocks == old(blocks)
      {
        var f := Fails(failing, Disk);
        if f { return true, marked; }
        var idx := start + j;
        FlatSet(blocks, idx, true);
        MarkedMore(old(Bits()), start, j, true);
        blocks := blocks[idx / BLOCK_BITS := WithBit(blocks[idx / BLOCK_BITS], idx, true)];
        j := j + 1;
        marked := j;
      }
    }

    /** One region decrement per bit of a run. */
    method DropEach(start: nat, count: nat)
      modifies this`regions
      ensures regions == LoweredAll(old(regions), start, count) && regions.On? == old(regions.On?)
      ensures regions.On? ==> |regions.free| == |old(regions).free|
    {
      if regions.On? {
        var rs, j := regions.free, 0;
        while j < count
          invariant j <= count && |rs| == |regions.free| && On(rs) == LoweredAll(regions, start, j)
        {
          var region := (start + j) / REGION;
          if region < |rs| && rs[region] > 0 { rs := rs[region := rs[region] - 1]; }
          j := j + 1;
        }
        regions := On(rs);
      } else {
        LoweredOff(start, count);
      }
    }

    lemma {:induction false} LoweredOff(a: nat, m: nat)
      ensures LoweredAll(Off, a, m) == Off
    {
      if m > 0 { LoweredOff(a, m - 1); }
    }

    /** A block goes from free to allocated exactly when there is a free block, whatever the
        region counts say and however many attempts were undone on the way. */
    method Alloc() returns (block: nat, failed: bool, ghost trouble: Trouble)
      requires Shaped()
      modifies this`blocks, this`freeBlocks, this`regions, this`hint
      ensures Shaped() && Keeps(old(Bits()), Bits())
      ensures block != 0 ==> Given(old(Bits()), block, 1, Bits())
      ensures (block != 0 && trouble != Stuck ==>
        Takes(old(Bits()), block, 1, Bits()) && freeBlocks == old(freeBlocks) - 1)
      ensures block == 0 && trouble != Stuck ==> Bits() == old(Bits()) && freeBlocks == old(freeBlocks)
      ensures block == 0 && !failed && trouble != Stuck ==> !HasRun(old(Bits()), 1)
      ensures block == 0 && trouble == Clean ==> regions == old(regions)
      ensures trouble != Stuck ==> Total() == old(Total())
      ensures trouble == Clean && old(Valid()) ==> Valid()
      ensures failed ==> Flaky() || Logging in failing
      ensures trouble == Undone ==> Logging in failing
      ensures trouble == Stuck ==> Flaky()
      ensures block != 0 && trouble != Clean ==> Logging in failing
      ensures failing == {} ==> !failed && trouble == Clean && (block != 0 <==> HasRun(old(Bits()), 1))
    {
      block, failed, trouble := 0, false, Clean;
      if regions.On? {
        var n, r := |regions.free|, 0;
        var startRegion := hint;
        while r < n
          invariant r <= n && block == 0 && Shaped() && regions.On? && hint == old(hint) && Keeps(old(Bits()), Bits())
          invariant n == |regions.free|
          invariant trouble == Clean ==> regions == old(regions)
          invariant (trouble != Clean ==> Logging in failing) && (trouble == Stuck ==> Flaky())
          invariant trouble != Stuck ==> Bits() == old(Bits()) && freeBlocks == old(freeBlocks)
        {
          var region := (startRegion + r) % n;
          if regions.free[region] > 0 {
            ghost var t, worst, now := Bits(), trouble, Clean;
            block, failed, now := AllocInRegion(region, 1);
            trouble := Worse(worst, now);
            if block != 0 {
              InsideArea(t, region, 1, block - dataStart);
              GivenEarlier(old(Bits()), t, block, 1, Bits());
              hint := region;
              failed := false;
              return;
            }
          }
          r := r + 1;
        }
      }
      ghost var t, worst, now := Bits(), trouble, Clean;
      block, failed, now := AllocLinear(1);
      trouble := Worse(worst, now);
      if block != 0 { GivenEarlier(old(Bits()), t, block, 1, Bits()); }
    }

    /** A run of `count` blocks goes from free to allocated exactly when there is one, whatever
        the region counts say and however many attempts were undone on the way. */
    method AllocRange(count: nat) returns (block: nat, failed: bool, ghost trouble: Trouble)
      requires Shaped()
      modifies this`blocks, this`freeBlocks, this`regions, this`hint
      ensures Shaped() && Keeps(old(Bits()), Bits())
      ensures block != 0 ==> count > 0 && Given(old(Bits()), block, count, Bits())
      ensures (block != 0 && trouble != Stuck ==>
        Takes(old(Bits()), block, count, Bits()) && freeBlocks == old(freeBlocks) - count)
      ensures block == 0 && trouble != Stuck ==> Bits() == old(Bits()) && freeBlocks == old(freeBlocks)
      ensures block == 0 && !failed && trouble != Stuck ==> count == 0 || !HasRun(old(Bits()), count)
      ensures block == 0 && trouble == Clean ==> regions == old(regions)
      ensures trouble != Stuck ==> Total() == old(Total())
      ensures trouble == Clean && old(Valid()) ==> Valid()
      ensures failed ==> Flaky() || Logging in failing
      ensures trouble == Undone ==> Logging in failing
      ensures trouble == Stuck ==> Flaky()
      ensures block != 0 && trouble != Clean ==> Logging in failing
      ensures failing == {} ==> !failed && trouble == Clean && (block != 0 <==> count > 0 && HasRun(old(Bits()), count))
    {
      block, failed, trouble := 0, false, Clean;
      if count == 0 { return; }
      if count == 1 {
        block, failed, trouble := Alloc();
        return;
      }
      if regions.On? && count <= REGION {
        var n, r := |regions.free|, 0;
        var startRegion := hint;
        while r < n
          invariant r <= n && block == 0 && Shaped() && regions.On? && hint == old(hint) && Keeps(old(Bits()), Bits())
          invariant n == |regions.free|
          invariant trouble == Clean ==> regions == old(regions)
          invariant (trouble != Clean ==> Logging in failing) && (trouble == Stuck ==> Flaky())
          invariant trouble != Stuck ==> Bits() == old(Bits()) && freeBlocks == old(freeBlocks)
        {
          var region := (startRegion + r) % n;
          if regions.free[region] >= count {
            ghost var t, worst, now := Bits(), trouble, Clean;
            block, failed, now := AllocInRegion(region, count);
            trouble := Worse(worst, now);
            if block != 0 {
              InsideArea(t, region, count, block - dataStart);
              GivenEarlier(old(Bits()), t, block, count, Bits());
              hint := (region + 1) % n;
              failed := false;
              return;
            }
          }
          r := r + 1;
        }
      }
      ghost var t, worst, now := Bits(), trouble, Clean;
      block, failed, now := AllocLinear(count);
      trouble := Worse(worst, now);
      if block != 0 { GivenEarlier(old(Bits()), t, block, count, Bits()); }
    }

    ghost function Worse(a: Trouble, b: Trouble): Trouble {
      if a == Stuck || b == Stuck then Stuck else if a == Undone || b == Undone then Undone else Clean
    }

    /** The run at `block` was free and is allocated. */
    ghost predicate Given(s: seq<bool>, block: nat, count: nat, s': seq<bool>) {
      && block >= dataStart && block - dataStart + count <= dataBlocks && |s'| == |s|
      && FreeRun(s, block - dataStart, count)
      && forall i :: block - dataStart <= i < block - dataStart + count ==> s'[i]
    }

    lemma GivenEarlier(s: seq<bool>, t: seq<bool>, block: nat, count: nat, s': seq<bool>)
      requires block >= dataStart && block - dataStart + count <= dataBlocks <= |s|
      requires Keeps(s, t) && FreeRun(t, block - dataStart, count) && s' == Marked(t, block - dataStart, count, true)
      ensures Given(s, block, count, s') && Keeps(s, s')
    {
    }

    /** A free run of `count` bits in the data area. */
    ghost predicate HasRun(s: seq<bool>, count: nat) {
      exists a: nat :: a + count <= dataBlocks && FreeRun(s, a, count)
    }

    /** Exactly the run at `block` went from free to allocated. */
    ghost predicate Takes(s: seq<bool>, block: nat, count: nat, s': seq<bool>) {
      && block >= dataStart && block - dataStart + count <= dataBlocks
      && FreeRun(s, block - dataStart, count) && s' == Marked(s, block - dataStart, count, true)
    }

    lemma InsideArea(s: seq<bool>, region: nat, count: nat, a: nat)
      requires region < RegionCount(dataBlocks) && FirstRun(s, Lo(region), Hi(region, dataBlocks), count, a)
      ensures a + count <= dataBlocks && HasRun(s, count)
    {
      RegionInside(region, dataBlocks);
    }

    // ----- freeing

    /** Every block of the range is free afterwards; blocks before the data area are skipped.
        `freed` counts the bits that changed and is the length the journal entry records. A
        block that cannot be read or written stops the loop with `cleared` bits already clear,
        and `torn` when a region's count rose for a bit that stayed set; nothing is undone and
        the free count does not follow. A refused journal entry sets the first `freed` blocks
        of the range again, whatever was set before, and the free count drops for each. */
    method FreeRange(start: nat, count: nat)
      returns (st: Status, freed: nat, ghost cleared: nat, ghost torn: bool, ghost undone: bool)
      requires Shaped()
      modifies this`blocks, this`freeBlocks, this`regions
      ensures Shaped() && |blocks| == |old(blocks)|
      ensures count == 0 <==> st == Inval
      ensures st == Ok || st == JournalErr ==> Reaches(start, count)
      ensures (st == Inval || st == NoMem ==>
        blocks == old(blocks) && freeBlocks == old(freeBlocks) && regions == old(regions))
      ensures st == Ok ==> Bits() == Marked(old(Bits()), Index(start), Index(start + count) - Index(start), false)
      ensures (st == Ok || st == JournalErr ==>
        freed == Ones(old(Bits()), Index(start), Index(start + count)) <= count)
      ensures st == Ok ==> freeBlocks == old(freeBlocks) + freed
      ensures (st == Io ==>
        cleared < Index(start + count) - Index(start) && Bits() == Marked(old(Bits()), Index(start), cleared, false))
      ensures st == Io ==> freeBlocks == old(freeBlocks) && (torn ==> TornAt(old(Bits()), Index(start) + cleared))
      ensures (st == JournalErr ==>
          SameOutside(Marked(old(Bits()), Index(start), Index(start + count) - Index(start), false), Bits(),
                      Index(start), Index(start + freed) - Index(start)))
      ensures st == JournalErr && undone ==> Bits() == FreedAndUndone(old(Bits()), start, count, freed)
      ensures st == JournalErr && undone ==> freeBlocks == old(freeBlocks) - (Index(start + freed) - Index(start))
      ensures (old(Valid()) && start + count <= dataStart + dataBlocks ==>
        Balance(st, Valid(), regions.Off?, Total() - old(Total()), old(Bits()), Index(start), Index(start + count),
                cleared, torn, undone))
      ensures st == NoMem ==> Memory in failing
      ensures st == Io ==> Disk in failing || Index(start) + cleared >= |blocks| * BLOCK_BITS
      ensures torn ==> Disk in failing
      ensures st == JournalErr ==> Logging in failing && freed > 0 && (undone || Flaky())
      ensures failing == {} ==> st == if count == 0 then Inval else if Reaches(start, count) then Ok else Io
    {
      freed, cleared, torn, undone := 0, 0, false, false;
      ghost var s, a, b := Bits(), Index(start), Index(start + count);
      if count == 0 { return Inval, 0, 0, false, false; }
      var f := Fails(failing, Memory);
      if f { return NoMem, 0, 0, false, false; }
      var ok;
      ok, freed, cleared, torn := FreeCounted(start, count);
      if !ok { return Io, freed, cleared, torn, false; }
      st, undone := LogFreed(start, freed);
    }

    /** All blocks of the range behind the start of the data area have bits on the device. */
    predicate Reaches(start: nat, count: nat)
      reads this`blocks
    {
      Index(start + count) <= |blocks| * BLOCK_BITS
    }

    ghost predicate TornAt(s: seq<bool>, idx: nat) {
      idx < |s| && s[idx]
    }

    /** Logs what was cleared and counts it, or sets it again. */
    method LogFreed(start: nat, freed: nat) returns (st: Status, ghost undone: bool)
      requires Shaped() && Reaches(start, freed)
      requires forall i :: Index(start) <= i < Index(start + freed) ==> !Bits()[i]
      modifies this`blocks, this`freeBlocks, this`regions
      ensures Shaped() && SameOutside(old(Bits()), Bits(), Index(start), Index(start + freed) - Index(start))
      ensures st == Ok || st == JournalErr
      ensures st == Ok ==> blocks == old(blocks) && regions == old(regions) && freeBlocks == old(freeBlocks) + freed
      ensures st == Ok ==> Total() == old(Total()) + freed && (old(Valid()) ==> Valid())
      ensures (st == JournalErr && undone ==>
        Bits() == Marked(old(Bits()), Index(start), Index(start + freed) - Index(start), true))
      ensures st == JournalErr && undone ==> freeBlocks == old(freeBlocks) - (Index(start + freed) - Index(start))
      ensures (st == JournalErr && undone && Index(start + freed) <= dataBlocks ==>
        Total() == old(Total()) && (old(Valid()) ==> Valid()))
      ensures st == JournalErr ==> Logging in failing && freed > 0 && (undone || Flaky())
    {
      st, undone := Ok, false;
      if freed > 0 {
        var f := Fails(failing, Logging);
        if !f {
          freeBlocks := freeBlocks + freed;
        } else {
          st := JournalErr;
          undone := UndoFree(start, freed);
        }
      }
    }

    /** The bitmap after a free that the journal refused. */
    ghost function FreedAndUndone(s: seq<bool>, start: nat, count: nat, freed: nat): seq<bool> {
      var a := Index(start);
      Marked(Marked(s, a, Index(start + count) - a, false), a, Index(start + freed) - a, true)
    }

    /** What a free of a range of the data area leaves of right counts and of the total:
        both survive success; a failing block loses the total the bits cleared so far, and
        the region counts exactly if the write was torn; a refused journal entry keeps the
        region counts and loses the total every bit that was freed. */
    ghost predicate Balance(st: Status, right: bool, off: bool, gain: int, s: seq<bool>, a: nat, b: nat, cleared: nat,
                            torn: bool, undone: bool)
      requires b <= |s| && (st == Io ==> a + cleared <= |s|)
    {
      match st
      case Ok => right && gain == 0
      case Io => (right <==> off || !torn) && gain + Ones(s, a, a + cleared) == 0
      case JournalErr => undone ==> right && gain + Ones(s, a, b) == 0
      case _ => right && gain == 0
    }

    /** The loop, with what it leaves of right counts and of the total. */
    method FreeCounted(start: nat, count: nat) returns (ok: bool, freed: nat, ghost cleared: nat, ghost torn: bool)
      requires Shaped() && count > 0
      modifies this`blocks, this`regions
      ensures Shaped() && |blocks| == |old(blocks)|
      ensures cleared <= Index(start + count) - Index(start)
      ensures Bits() == Marked(old(Bits()), Index(start), cleared, false)
      ensures ok ==> Reaches(start, count)
      ensures (ok ==>
        && cleared == Index(start + count) - Index(start) && !torn
        && freed == Ones(old(Bits()), Index(start), Index(start + count)))
      ensures !ok ==> cleared < Index(start + count) - Index(start)
      ensures torn ==> TornAt(old(Bits()), Index(start) + cleared)
      ensures (Index(start + count) <= dataBlocks ==>
        Total() == old(Total()) - Ones(old(Bits()), Index(start), Index(start) + cleared))
      ensures Index(start + count) <= dataBlocks && old(Valid()) ==> (Valid() <==> regions.Off? || !torn)
      ensures !ok ==> Disk in failing || Index(start) + cleared >= |blocks| * BLOCK_BITS
      ensures torn ==> Disk in failing
    {
      ok, freed, cleared, torn := FreeEach(start, count, Bits(), Index(start));
      if Index(start + count) <= dataBlocks { OnesCleared(old(Bits()), 0, dataBlocks, Index(start), cleared); }
    }

    /** The set bits among `n` from `a` on, if that many are on the device. */
    ghost function OnesUpTo(s: seq<bool>, a: nat, n: nat): nat {
      if a + n <= |s| then Ones(s, a, a + n) else 0
    }

    lemma OneMore(s: seq<bool>, a: nat, n: nat)
      requires a + n < |s|
      ensures OnesUpTo(s, a, n + 1) == OnesUpTo(s, a, n) + if s[a + n] then 1 else 0
    {
    }

    method FreeEach(start: nat, count: nat, ghost s: seq<bool>, ghost a: nat)
      returns (ok: bool, freed: nat, ghost cleared: nat, ghost torn: bool)
      requires Shaped() && s == Bits() && a == Index(start) && count > 0
      modifies this`blocks, this`regions
      ensures Shaped() && |blocks| == |old(blocks)|
      ensures a + cleared <= Index(start + count) && Bits() == Marked(s, a, cleared, false)
      ensures ok ==> Reaches(start, count)
      ensures ok ==> a + cleared == Index(start + count) && !torn && freed == Ones(s, a, a + cleared)
      ensures !ok ==> a + cleared < Index(start + count)
      ensures torn ==> TornAt(s, a + cleared)
      ensures (Index(start + count) <= dataBlocks && old(RegionsMatch(Bits())) ==>
        (RegionsMatch(Bits()) <==> regions.Off? || !torn))
      ensures !ok ==> Disk in failing || Index(start) + cleared >= |blocks| * BLOCK_BITS
      ensures torn ==> Disk in failing
    {
      MarkedNone(s, a, false);
      ok, freed, cleared, torn := true, 0, 0, false;
      var i := 0;
      while i < count
        invariant i <= count && |blocks| == |old(blocks)| && Shaped() && ok && !torn && a + cleared == Index(start + i)
        invariant Bits() == Marked(s, a, cleared, false) && (cleared == 0 || a + cleared <= |s|)
        invariant freed == OnesUpTo(s, a, cleared)
        invariant Index(start + count) <= dataBlocks && old(RegionsMatch(Bits())) ==> RegionsMatch(Bits())
      {
        var block := start + i;
        if block >= dataStart {
          assert block - dataStart == a + cleared;
          if a + cleared < |s| {
            MarkedMore(s, a, cleared, false);
            OneMore(s, a, cleared);
            assert Bits()[a + cleared] == s[a + cleared];
          }
          var was;
          ok, was, torn := FreeOne(block - dataStart);
          if !ok { return; }
          cleared := cleared + 1;
          if was { freed := freed + 1; }
        }
        i := i + 1;
      }
    }

    /** Clears one bit and raises its region's count if it was set. */
    method FreeOne(idx: nat) returns (ok: bool, was: bool, ghost torn: bool)
      requires Shaped()
      modifies this`blocks, this`regions
      ensures Shaped() && |blocks| == |old(blocks)|
      ensures ok ==> idx < |blocks| * BLOCK_BITS
      ensures Bits() == if ok then old(Bits())[idx := false] else old(Bits())
      ensures ok ==> was == old(Bits())[idx] && !torn
      ensures torn ==> TornAt(old(Bits()), idx)
      ensures idx < dataBlocks && old(RegionsMatch(Bits())) ==> (RegionsMatch(Bits()) <==> regions.Off? || !torn)
      ensures !ok ==> Disk in failing || idx >= |blocks| * BLOCK_BITS
      ensures torn ==> Disk in failing
    {
      was, torn := false, false;
      var f := Fails(failing, Disk);
      if f { return false, false, false; }
      if idx / BLOCK_BITS >= |blocks| { return false, false, false; }
      ghost var s := Bits();
      was := TestBit(idx);
      if was { RaiseCount(idx); }
      if idx < dataBlocks { FlipKeeps(old(regions), s, idx, false); }
      f := Fails(failing, Disk);
      if f {
        if was && idx < dataBlocks { CountsFlip(s, dataBlocks, idx, false); }
        return false, was, was;
      }
      if was { PutBit(idx, false); } else { assert s[idx := false] == s; }
      ok := true;
    }

    /** Sets the first `freed` blocks of the range again; the results are ignored, and `all`
        says whether they were all good. */
    method UndoFree(start: nat, freed: nat) returns (ghost all: bool)
      requires Shaped() && Reaches(start, freed)
      requires forall i :: Index(start) <= i < Index(start + freed) ==> !Bits()[i]
      modifies this`blocks, this`freeBlocks, this`regions
      ensures Shaped() && SameOutside(old(Bits()), Bits(), Index(start), Index(start + freed) - Index(start))
      ensures all ==> Bits() == Marked(old(Bits()), Index(start), Index(start + freed) - Index(start), true)
      ensures all ==> freeBlocks == old(freeBlocks) - (Index(start + freed) - Index(start))
      ensures all && Index(start + freed) <= dataBlocks ==> Total() == old(Total()) && (old(Valid()) ==> Valid())
      ensures !all ==> Flaky()
    {
      ghost var s, a, free := Bits(), Index(start), freeBlocks;
      all := true;
      MarkedNone(s, a, true);
      var j := 0;
      while j < freed
        invariant j <= freed && Shaped() && |blocks| == |old(blocks)|
        invariant SameOutside(s, Bits(), a, Index(start + freed) - a) && (!all ==> Flaky())
        invariant (all ==>
          Bits() == Marked(s, a, Index(start + j) - a, true) && freeBlocks == free - (Index(start + j) - a))
        invariant all && Index(start + freed) <= dataBlocks ==> Total() == old(Total()) && (old(Valid()) ==> Valid())
      {
        if start + j >= dataStart && all { MarkedMore(s, a, start + j - dataStart - a, true); }
        var ok := Set(start + j);
        all := all && (ok || start + j < dataStart);
        j := j + 1;
      }
    }

    function Index(block: nat): nat {
      if block < dataStart then 0 else block - dataStart
    }

    /** The journal records (`start`, number of bits freed), and redo clears that many blocks
        from `start`: the same blocks as were freed exactly when no set bit of the range lies
        behind them. Blocks before the data area are counted in, so a range that starts there
        may be cut short. */
    lemma LoggedFree(s: seq<bool>, start: nat, count: nat)
      requires Index(start + count) <= |s|
      ensures var a, b := Index(start), Index(start + count);
        var u := Index(start + Ones(s, a, b));
        a <= u <= b && (Marked(s, a, u - a, false) == Marked(s, a, b - a, false) <==> forall i :: u <= i < b ==> !s[i])
    {
      var a, b := Index(start), Index(start + count);
      ClearedAlike(s, a, Index(start + Ones(s, a, b)), b);
    }

    /** A refused journal entry leaves the bitmap as it was exactly when the set bits of the
        range were the blocks that are set again. */
    lemma RestoredFree(s: seq<bool>, start: nat, count: nat)
      requires Index(start + count) <= |s|
      ensures var a, b := Index(start), Index(start + count);
        var u := Index(start + Ones(s, a, b));
        FreedAndUndone(s, start, count, Ones(s, a, b)) == s <==> forall i :: a <= i < b ==> (s[i] <==> i < u)
    {
      var a, b := Index(start), Index(start + count);
      var u := Index(start + Ones(s, a, b));
      var t := FreedAndUndone(s, start, count, Ones(s, a, b));
      forall i | a <= i < b ensures t[i] == (i < u) { }
      if t == s {
        forall i | a <= i < b ensures s[i] <==> i < u { assert t[i] == s[i]; }
      }
    }
  }
}
