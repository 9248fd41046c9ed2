/** The write-back block cache: sixteen slots in front of a disk that may fail, behaving like
    one plain array of blocks. */
module BlockCaching {
  import opened Faults

  const SLOTS := 16

  type Sector = seq<bv8>

  /** A block is its list of sectors. */
  type Data = seq<Sector>

  datatype Slot = Slot(valid: bool, dirty: bool, block: nat, data: Data)

  datatype Status = Ok | IO

  type Disk = map<nat, Data>

  // ----- the view

  ghost predicate HeldBy(s: Slot, b: nat) {
    s.valid && s.block == b
  }

  /** At most one valid slot per block; valid slots cache blocks of the disk; a clean one
      equals the disk. */
  ghost predicate Coherent(ss: seq<Slot>, d: Disk, n: nat) {
    && (forall b :: b in d ==> |d[b]| == n)
    && (forall i :: 0 <= i < |ss| ==> |ss[i].data| == n)
    && (forall i :: 0 <= i < |ss| && ss[i].valid ==> ss[i].block in d && (ss[i].dirty || d[ss[i].block] == ss[i].data))
    && (forall i, j :: 0 <= i < j < |ss| && ss[i].valid && ss[j].valid ==> ss[i].block != ss[j].block)
  }

  /** The slot holding `b`, |ss| if it is not cached. */
  ghost function Holder(ss: seq<Slot>, b: nat): (i: nat)
    ensures i <= |ss| && (i < |ss| ==> HeldBy(ss[i], b))
    ensures forall j :: 0 <= j < i ==> !HeldBy(ss[j], b)
  {
    if ss == [] || HeldBy(ss[0], b) then 0 else 1 + Holder(ss[1..], b)
  }

  lemma {:induction false} HolderIs(ss: seq<Slot>, d: Disk, n: nat, b: nat, i: nat)
    requires Coherent(ss, d, n) && i < |ss| && HeldBy(ss[i], b)
    ensures Holder(ss, b) == i
  {
    var j := Holder(ss, b);
    assert j <= i;
    assert HeldBy(ss[j], b);
  }

  ghost function ViewAt(ss: seq<Slot>, d: Disk, b: nat): Data
    requires b in d
  {
    if Holder(ss, b) < |ss| then ss[Holder(ss, b)].data else d[b]
  }

  /** The plain array of blocks that the cache and the disk together stand for. */
  ghost function ViewOf(ss: seq<Slot>, d: Disk): (v: Disk)
    ensures v.Keys == d.Keys
  {
    map b | b in d :: ViewAt(ss, d, b)
  }

  lemma {:induction false} ViewHit(ss: seq<Slot>, d: Disk, n: nat, b: nat, i: nat)
    requires Coherent(ss, d, n) && i < |ss| && HeldBy(ss[i], b)
    ensures b in d && ViewOf(ss, d)[b] == ss[i].data
  {
    HolderIs(ss, d, n, b, i);
  }

  /** Two coherent states have the same view when every block reads the same in both. */
  lemma {:induction false} ViewSame(ss: seq<Slot>, d: Disk, tt: seq<Slot>, e: Disk)
    requires d.Keys == e.Keys && forall b :: b in d ==> ViewAt(tt, e, b) == ViewAt(ss, d, b)
    ensures ViewOf(tt, e) == ViewOf(ss, d)
  {
  }

  /** The disk copy of a cached dirty block does not show. */
  lemma {:induction false} BehindDirty(ss: seq<Slot>, d: Disk, n: nat, i: nat, x: Data)
    requires Coherent(ss, d, n) && i < |ss| && ss[i].valid && ss[i].dirty && |x| == n
    ensures Coherent(ss, d[ss[i].block := x], n) && ViewOf(ss, d[ss[i].block := x]) == ViewOf(ss, d)
  {
    var e := d[ss[i].block := x];
    HolderIs(ss, d, n, ss[i].block, i);
    ViewSame(ss, d, ss, e);
  }

  /** Marking clean a slot that equals the disk. */
  lemma {:induction false} Cleaned(ss: seq<Slot>, d: Disk, n: nat, i: nat)
    requires Coherent(ss, d, n) && i < |ss| && ss[i].valid && d[ss[i].block] == ss[i].data
    ensures var tt := ss[i := ss[i].(dirty := false)]; Coherent(tt, d, n) && ViewOf(tt, d) == ViewOf(ss, d)
  {
    var tt := ss[i := ss[i].(dirty := false)];
    forall b | b in d ensures ViewAt(tt, d, b) == ViewAt(ss, d, b) {
      SameHolder(ss, tt, b);
    }
    ViewSame(ss, d, tt, d);
  }

  lemma {:induction false} SameHolder(ss: seq<Slot>, tt: seq<Slot>, b: nat)
    requires |tt| == |ss| && forall i :: 0 <= i < |ss| ==> (HeldBy(ss[i], b) <==> HeldBy(tt[i], b))
    ensures Holder(ss, b) == Holder(tt, b)
  {
    var i, j := Holder(ss, b), Holder(tt, b);
    if i < |ss| { assert HeldBy(tt[i], b); }
    if j < |ss| { assert HeldBy(ss[j], b); }
  }

  /** A clean or invalid slot emptied: its block reads from disk, as it did. */
  lemma {:induction false} Dropped(ss: seq<Slot>, d: Disk, n: nat, i: nat, s: Slot)
    requires Coherent(ss, d, n) && i < |ss| && (ss[i].valid ==> !ss[i].dirty) && !s.valid && |s.data| == n
    ensures var tt := ss[i := s]; Coherent(tt, d, n) && ViewOf(tt, d) == ViewOf(ss, d)
  {
    var tt := ss[i := s];
    forall b | b in d ensures ViewAt(tt, d, b) == ViewAt(ss, d, b) {
      if HeldBy(ss[i], b) {
        HolderIs(ss, d, n, b, i);
        NotHeld(tt, b);
      } else {
        SameHolder(ss, tt, b);
      }
    }
    ViewSame(ss, d, tt, d);
  }

  lemma {:induction false} NotHeld(ss: seq<Slot>, b: nat)
    requires forall j :: 0 <= j < |ss| ==> !HeldBy(ss[j], b)
    ensures Holder(ss, b) == |ss|
  {
    var i := Holder(ss, b);
  }

  /** An empty slot filled with an uncached block as it is on disk. */
  lemma {:induction false} Filled(ss: seq<Slot>, d: Disk, n: nat, i: nat, b: nat)
    requires Coherent(ss, d, n) && i < |ss| && !ss[i].valid && b in d
    requires forall j :: 0 <= j < |ss| ==> !HeldBy(ss[j], b)
    ensures var tt := ss[i := Slot(true, false, b, d[b])]; Coherent(tt, d, n) && ViewOf(tt, d) == ViewOf(ss, d)
  {
    var tt := ss[i := Slot(true, false, b, d[b])];
    assert Coherent(tt, d, n);
    forall c | c in d ensures ViewAt(tt, d, c) == ViewAt(ss, d, c) {
      if c == b {
        NotHeld(ss, b);
        HolderIs(tt, d, n, b, i);
      } else {
        SameHolder(ss, tt, c);
      }
    }
    ViewSame(ss, d, tt, d);
  }

  /** New data in the slot of `b`: the view changes at `b` and nowhere else. */
  lemma {:induction false} Overwritten(ss: seq<Slot>, d: Disk, n: nat, i: nat, x: Data)
    requires Coherent(ss, d, n) && i < |ss| && ss[i].valid && |x| == n
    ensures var tt := ss[i := ss[i].(data := x, dirty := true)];
      Coherent(tt, d, n) && ViewOf(tt, d) == ViewOf(ss, d)[ss[i].block := x]
  {
    var tt, b := ss[i := ss[i].(data := x, dirty := true)], ss[i].block;
    assert Coherent(tt, d, n);
    forall c | c in d ensures ViewAt(tt, d, c) == if c == b then x else ViewAt(ss, d, c) {
      SameHolder(ss, tt, c);
      if c == b {
        HolderIs(ss, d, n, b, i);
      } else {
        assert Holder(ss, c) != i;
      }
    }
  }

  ghost predicate CleanTo(ss: seq<Slot>, n: nat) {
    forall i :: 0 <= i < n <= |ss| && ss[i].valid ==> !ss[i].dirty
  }

  ghost predicate Empty(ss: seq<Slot>) {
    forall i :: 0 <= i < |ss| ==> !ss[i].valid
  }

  /** With every valid slot clean the disk is the view. */
  lemma {:induction false} AllClean(ss: seq<Slot>, d: Disk, n: nat)
    requires Coherent(ss, d, n) && forall i :: 0 <= i < |ss| && ss[i].valid ==> !ss[i].dirty
    ensures ViewOf(ss, d) == d
  {
    forall b | b in d ensures ViewAt(ss, d, b) == d[b] {
      var i := Holder(ss, b);
      if i < |ss| { assert HeldBy(ss[i], b); }
    }
  }

  class BlockCache {
    const slots: array<Slot>
    /** Sectors per block; 0 when the sector size does not divide the block size. */
    const perBlock: nat
    var disk: Disk

    /** The steps that may fail. */
    var failing: set<Failure>

    ghost predicate Valid()
      reads this, slots
    {
      slots.Length == SLOTS && Coherent(slots[..], disk, perBlock) && (perBlock == 0 ==> Empty(slots[..]))
    }

    /** The disk can transfer the block at all. */
    ghost predicate Transferable(b: nat)
      reads this`disk
    {
      perBlock > 0 && b in disk
    }

    ghost function View(): Disk
      reads this, slots
    {
      ViewOf(slots[..], disk)
    }

    /** All slots invalid: the view is the disk. */
    constructor (d: Disk, perBlock: nat)
      requires forall b :: b in d ==> |d[b]| == perBlock
      ensures Valid() && View() == d && disk == d && fresh(slots) && this.perBlock == perBlock
    {
      disk, failing, this.perBlock := d, {}, perBlock;
      var blank := seq(perBlock, _ => []);
      slots := new Slot[SLOTS](_ => Slot(false, false, 0, blank));
      new;
      AllClean(slots[..], disk, perBlock);
    }

    // ----- the disk, sector by sector

    /** A write that fails part way leaves the block with some new sectors. */
    method DiskWrite(b: nat, data: Data) returns (ok: bool)
      requires b in disk ==> |data| == perBlock == |disk[b]|
      modifies this`disk
      ensures ok ==> old(Transferable(b))
      ensures !ok ==> Disk in failing || !old(Transferable(b))
      ensures ok ==> b in old(disk) && disk == old(disk)[b := data]
      ensures (!ok ==>
        || disk == old(disk)
        || (b in old(disk) && b in disk && |disk[b]| == |old(disk)[b]| && disk == old(disk)[b := disk[b]]))
    {
      if perBlock == 0 || b !in disk { return false; }
      var i := 0;
      assert data[..0] + disk[b][0..] == disk[b] && disk == disk[b := disk[b]];
      while i < perBlock
        invariant i <= perBlock && b in old(disk) && b in disk
        invariant disk == old(disk)[b := data[..i] + old(disk)[b][i..]]
      {
        var f := Fails(failing, Disk);
        if f { return false; }
        disk := disk[b := disk[b][i := data[i]]];
        assert disk[b] == data[..i + 1] + old(disk)[b][i + 1..];
        i := i + 1;
      }
      assert data[..i] + old(disk)[b][i..] == data;
      ok := true;
    }

    /** A read that fails part way leaves the buffer with some sectors of the block. */
    method DiskRead(b: nat, into: Data) returns (ok: bool, data: Data)
      requires |into| == perBlock && (b in disk ==> |disk[b]| == perBlock)
      ensures |data| == perBlock && (ok ==> Transferable(b) && data == disk[b])
      ensures !ok ==> Disk in failing || !Transferable(b)
    {
      data := into;
      if perBlock == 0 || b !in disk { return false, data; }
      var i := 0;
      while i < perBlock
        invariant i <= perBlock && data == disk[b][..i] + into[i..]
      {
        var f := Fails(failing, Disk);
        if f { return false, data; }
        data := data[i := disk[b][i]];
        i := i + 1;
      }
      ok := true;
    }

    // ----- the cache

    /** Brings `b` into a slot. Neither a hit, a miss, an eviction nor a failure changes what
        any block reads as. */
    method Fetch(b: nat) returns (st: Status, k: nat)
      requires Valid()
      modifies this`disk, slots
      ensures Valid() && View() == old(View())
      ensures st == Ok ==> k < slots.Length && HeldBy(slots[k], b)
      ensures st == Ok ==> b in View() && slots[k].data == View()[b]
      ensures st == IO || (st == Ok && perBlock > 0)
      ensures st == IO ==> Disk in failing || perBlock == 0 || b !in View()
    {
      var hit;
      hit, k := Lookup(b);
      if hit {
        ViewHit(slots[..], disk, perBlock, b, k);
        return Ok, k;
      }
      var ok;
      ok, k := Victim(b);
      if !ok { return IO, k; }
      st := Load(b, k);
      if st == Ok { ViewHit(slots[..], disk, perBlock, b, k); }
    }

    method Lookup(b: nat) returns (hit: bool, k: nat)
      ensures hit ==> k < slots.Length && HeldBy(slots[k], b)
      ensures !hit ==> forall j :: 0 <= j < slots.Length ==> !HeldBy(slots[j], b)
    {
      k := 0;
      while k < slots.Length
        invariant k <= slots.Length && forall j :: 0 <= j < k ==> !HeldBy(slots[j], b)
      {
        if slots[k].valid && slots[k].block == b { return true, k; }
        k := k + 1;
      }
      hit := false;
    }

    /** The first invalid slot, else the first clean one, else slot 0 written back. */
    method Victim(ghost b: nat) returns (ok: bool, k: nat)
      requires Valid() && forall j :: 0 <= j < slots.Length ==> !HeldBy(slots[j], b)
      modifies this`disk, slots
      ensures Valid() && View() == old(View()) && forall j :: 0 <= j < slots.Length ==> !HeldBy(slots[j], b)
      ensures ok ==> k < slots.Length && (slots[k].valid ==> !slots[k].dirty)
      ensures !ok ==> Disk in failing
    {
      k := 0;
      while k < slots.Length
        invariant k <= slots.Length && forall j :: 0 <= j < k ==> slots[j].valid
      {
        if !slots[k].valid { return true, k; }
        k := k + 1;
      }
      k := 0;
      while k < slots.Length
        invariant k <= slots.Length && forall j :: 0 <= j < k ==> slots[j].dirty
      {
        if !slots[k].dirty { return true, k; }
        k := k + 1;
      }
      k := 0;
      ok := WriteBack(0);
    }

    /** Writes a dirty slot to disk and marks it clean; a failed write leaves it dirty. */
    method WriteBack(k: nat) returns (ok: bool)
      requires Valid() && k < slots.Length && slots[k].valid && slots[k].dirty
      modifies this`disk, slots
      ensures Valid() && View() == old(View())
      ensures slots[k] == old(slots[k]).(dirty := !ok)
      ensures !ok ==> Disk in failing
      ensures forall j :: 0 <= j < slots.Length && j != k ==> slots[j] == old(slots[j])
    {
      ghost var ss, d := slots[..], disk;
      var b := slots[k].block;
      ok := DiskWrite(b, slots[k].data);
      assert disk == d || disk == d[b := disk[b]];
      if disk != d { BehindDirty(ss, d, perBlock, k, disk[b]); }
      if ok {
        Cleaned(ss, disk, perBlock, k);
        slots[k] := slots[k].(dirty := false);
        assert slots[..] == ss[k := ss[k].(dirty := false)];
      }
    }

    /** Reads an uncached block into a slot that may be given up; a failed read leaves the
        slot invalid. */
    method Load(b: nat, k: nat) returns (st: Status)
      requires Valid() && k < slots.Length && (slots[k].valid ==> !slots[k].dirty)
      requires forall j :: 0 <= j < slots.Length ==> !HeldBy(slots[j], b)
      modifies slots
      ensures Valid() && View() == old(View())
      ensures st == Ok ==> HeldBy(slots[k], b) && Transferable(b)
      ensures st == Ok || (st == IO && (Disk in failing || !Transferable(b)))
    {
      ghost var ss := slots[..];
      var ok, data := DiskRead(b, slots[k].data);
      var s := slots[k];
      Dropped(ss, disk, perBlock, k, s.(valid := false, data := data));
      slots[k] := s.(valid := false, data := data);
      assert slots[..] == ss[k := s.(valid := false, data := data)];
      if !ok { return IO; }
      Filled(slots[..], disk, perBlock, k, b);
      ghost var tt := slots[..];
      slots[k] := Slot(true, false, b, data);
      assert slots[..] == tt[k := Slot(true, false, b, disk[b])];
      st := Ok;
    }

    /** Writes slot `i` back if it is dirty. */
    method CleanSlot(i: nat) returns (ok: bool)
      requires Valid() && i < slots.Length
      modifies this`disk, slots
      ensures Valid() && View() == old(View())
      ensures !ok ==> Disk in failing
      ensures ok && old(CleanTo(slots[..], i)) ==> CleanTo(slots[..], i + 1)
    {
      ok := true;
      ghost var ss := slots[..];
      if slots[i].valid && slots[i].dirty {
        ok := WriteBack(i);
        assert slots[..] == ss[i := ss[i].(dirty := !ok)];
      }
    }

    /** Writes back every dirty slot. When all of it succeeds the disk is the view. */
    method Flush() returns (st: Status)
      requires Valid()
      modifies this`disk, slots
      ensures Valid() && View() == old(View())
      ensures st == Ok ==> disk == View() && forall i :: 0 <= i < slots.Length && slots[i].valid ==> !slots[i].dirty
      ensures st == Ok || (st == IO && Disk in failing)
    {
      st := Ok;
      var i := 0;
      while i < slots.Length
        invariant i <= slots.Length && Valid() && View() == old(View())
        invariant if st == Ok then CleanTo(slots[..], i) else st == IO && Disk in failing
      {
        var ok := CleanSlot(i);
        if !ok { st := IO; }
        i := i + 1;
      }
      if st == Ok { AllClean(slots[..], disk, perBlock); }
    }

    // ----- the block interface

    /** Copies out what the block reads as. */
    method ReadBlock(b: nat) returns (st: Status, data: Data)
      requires Valid()
      modifies this`disk, slots
      ensures Valid() && View() == old(View())
      ensures st == Ok ==> b in View() && data == View()[b]
      ensures st == Ok || (st == IO && (Disk in failing || perBlock == 0 || b !in View()))
    {
      var k;
      data := [];
      st, k := Fetch(b);
      if st != Ok { return; }
      data := slots[k].data;
    }

    /** Changes what one block reads as, or nothing at all. */
    method WriteBlock(b: nat, data: Data) returns (st: Status)
      requires Valid() && |data| == perBlock
      modifies this`disk, slots
      ensures Valid()
      ensures st == Ok ==> b in old(View()) && View() == old(View())[b := data]
      ensures st != Ok ==> View() == old(View())
      ensures st == Ok || (st == IO && (Disk in failing || perBlock == 0 || b !in old(View())))
    {
      var k;
      st, k := Fetch(b);
      if st != Ok { return; }
      ghost var ss := slots[..];
      Overwritten(ss, disk, perBlock, k, data);
      slots[k] := slots[k].(data := data, dirty := true);
      assert slots[..] == ss[k := ss[k].(data := data, dirty := true)];
    }
  }
}
