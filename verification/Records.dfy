/** The record table and the records it names: slots are reused under a fresh generation,
    and a record image is read only under the generation it was stamped with. */
module Records {
  import opened BitRuns
  import opened Faults

  const SLOTS := 256
  const WRAP := 0x1_0000_0000
  const UNBOUND := 0xFFFF_FFFF_FFFF_FFFF

  datatype Flag = Allocated | Overflow | Deleted

  datatype Entry = Entry(phys: nat, flags: set<Flag>, generation: nat)

  datatype Status = Ok | Inval | IO | NoMem | NoSpc | JournalErr | NotFound | NotYetBound | Corrupt

  /** A record block: `intact` stands for the header, length and checksum tests. */
  datatype Image = Image(intact: bool, id: nat, generation: nat)

  /** The statuses that stand for a failing step below, and that step. */
  predicate Fault(st: Status, failing: set<Failure>) {
    match st
    case IO => Disk in failing
    case NoMem => Memory in failing
    case JournalErr => Logging in failing
    case _ => false
  }

  /** The same for an edit of the table, in a transaction or not. */
  predicate TableFault(st: Status, inTx: bool, failing: set<Failure>) {
    (st == IO && Disk in failing) || (st == JournalErr && inTx && Logging in failing)
  }

  predicate Taken(e: Entry) {
    Allocated in e.flags
  }

  // ----- the table as one sequence of slots

  type TableBlock = b: seq<Entry> | |b| == SLOTS witness seq(SLOTS, _ => Entry(UNBOUND, {}, 0))

  ghost function Flatten(t: seq<TableBlock>): (s: seq<Entry>)
    ensures |s| == SLOTS * |t|
  {
    seq(SLOTS * |t|, i requires 0 <= i < SLOTS * |t| => t[i / SLOTS][i % SLOTS])
  }

  lemma FlattenAt(t: seq<TableBlock>, i: nat, j: nat)
    requires i < |t| && j < SLOTS
    ensures i * SLOTS + j < |Flatten(t)| && Flatten(t)[i * SLOTS + j] == t[i][j]
  {
    assert (i * SLOTS + j) / SLOTS == i && (i * SLOTS + j) % SLOTS == j;
  }

  lemma FlattenSet(t: seq<TableBlock>, id: nat, e: Entry)
    requires id < SLOTS * |t|
    ensures Flatten(t[id / SLOTS := t[id / SLOTS][id % SLOTS := e]]) == Flatten(t)[id := e]
  {
    var u := t[id / SLOTS := t[id / SLOTS][id % SLOTS := e]];
    forall k | 0 <= k < SLOTS * |t| ensures Flatten(u)[k] == Flatten(t)[id := e][k] {
      if k / SLOTS == id / SLOTS && k % SLOTS == id % SLOTS { assert k == id; }
    }
  }

  ghost function TakenBits(s: seq<Entry>): (b: seq<bool>)
    ensures |b| == |s|
  {
    seq(|s|, i requires 0 <= i < |s| => Taken(s[i]))
  }

  /** The unallocated slots other than slot 0. */
  ghost function FreeSlots(s: seq<Entry>): nat
    requires |s| > 0
  {
    Zeros(TakenBits(s), 1, |s|)
  }

  /** Changing a slot moves the count only if it changes whether the slot is taken, and
      never for slot 0. */
  lemma FreeSlotsSet(s: seq<Entry>, id: nat, e: Entry)
    requires id < |s|
    ensures FreeSlots(s[id := e]) ==
      if id == 0 || Taken(e) == Taken(s[id]) then FreeSlots(s)
      else if Taken(e) then FreeSlots(s) - 1 else FreeSlots(s) + 1
  {
    var b, c := TakenBits(s), TakenBits(s[id := e]);
    if Taken(e) == Taken(s[id]) {
      assert b == c;
    } else {
      assert c == b[id := Taken(e)];
      if id == 0 { OnesSame(b, c, 1, |s|); } else { OnesFlip(b, 1, |s|, id, Taken(e)); }
    }
  }

  /** No slot but slot 0 is unallocated. */
  ghost predicate AllTaken(s: seq<Entry>) {
    forall k :: 0 < k < |s| ==> Taken(s[k])
  }

  // ----- generations

  /** The generations that a slot has been handed out with in its first `turns` turns. */
  ghost predicate Issued(turns: nat, g: nat) {
    exists k: nat :: 1 <= k <= turns && g == k % WRAP
  }

  /** A slot's next generation is a new one exactly until the 32-bit counter wraps. */
  lemma FreshUntilWrap(turns: nat)
    ensures Issued(turns, (turns + 1) % WRAP) <==> turns >= WRAP
  {
    if turns >= WRAP {
      var k := turns + 1 - WRAP;
      assert 1 <= k <= turns && k % WRAP == (turns + 1) % WRAP;
    } else {
      forall k: nat | 1 <= k <= turns ensures k % WRAP != (turns + 1) % WRAP {
      }
    }
  }

  /** An image stamped in an earlier turn of its slot carries another generation, unless a
      whole number of wraps lies between. */
  lemma StaleStamp(k: nat, turns: nat)
    requires k < turns
    ensures k % WRAP == turns % WRAP <==> (turns - k) % WRAP == 0
  {
    var d := turns - k;
    assert turns == k + d;
    if k % WRAP == turns % WRAP {
      assert d == WRAP * (turns / WRAP - k / WRAP);
    }
    if d % WRAP == 0 {
      assert turns == k + WRAP * (d / WRAP);
    }
  }

  class RecordStore {
    /** The data blocks of the volume. */
    const space: set<nat>

    var table: seq<TableBlock>
    var freeCount: int
    var images: map<nat, Image>
    var usedBlocks: set<nat>
    var recordCount: nat
    /** How often each slot has been handed out. */
    ghost var turns: seq<nat>

    /** The steps that may fail. */
    var failing: set<Failure>

    ghost function Slots(): (s: seq<Entry>)
      reads this
    {
      Flatten(table)
    }

    /** Every slot's generation counts its turns in 32 bits. */
    ghost predicate Stamped()
      reads this
    {
      && |table| > 0 && |turns| == |Slots()|
      && forall i :: 0 <= i < |turns| ==> Slots()[i].generation == turns[i] % WRAP
    }

    ghost predicate Counted()
      requires |table| > 0
      reads this
    {
      freeCount == FreeSlots(Slots())
    }

    /** Stamped holds after every operation, Counted unless an undo fails. */
    ghost predicate Valid()
      reads this
    {
      Stamped() && Counted()
    }

    /** A formatted table. */
    constructor (length: nat, space: set<nat>)
      requires length > 0
      ensures Valid() && this.space == space && |Slots()| == SLOTS * length
      ensures forall i :: 0 <= i < |turns| ==> turns[i] == 0
    {
      table := seq(length, _ => seq(SLOTS, _ => Entry(UNBOUND, {}, 0)));
      freeCount := SLOTS * length - 1;
      images, usedBlocks, recordCount, failing := map[], {}, 0, {};
      this.space := space;
      turns := seq(SLOTS * length, _ => 0);
      new;
      var b := TakenBits(Slots());
      OnesConstant(b, 1, |b|, false);
    }

    /** Writes a slot of the table back in its block. */
    method Store(id: nat, e: Entry)
      requires id < SLOTS * |table|
      modifies this`table
      ensures Slots() == old(Slots())[id := e] && |table| == |old(table)|
    {
      FlattenSet(table, id, e);
      table := table[id / SLOTS := table[id / SLOTS][id % SLOTS := e]];
    }

    // ----- the table

    /** Hands out the lowest unallocated slot but 0, `at`, under the next generation. When the
        journal refuses the entry the slot is written back; if that fails too, `left`, the
        slot stays taken and the free count does not know. */
    method AllocEntry(inTx: bool) returns (st: Status, id: nat, generation: nat, ghost at: nat, ghost left: bool)
      requires Stamped()
      modifies this`table, this`freeCount, this`turns
      ensures Stamped() && |table| == |old(table)|
      ensures (st == Ok || left ==>
        0 < at < |Slots()| && !Taken(old(Slots())[at]) && forall k :: 0 < k < at ==> Taken(old(Slots())[k]))
      ensures st == Ok || left ==> turns == old(turns)[at := old(turns)[at] + 1]
      ensures (st == Ok || left ==>
        Slots() == old(Slots())[at := Entry(UNBOUND, old(Slots())[at].flags + {Allocated}, turns[at] % WRAP)])
      ensures st == Ok || left ==> (Issued(old(turns)[at], turns[at] % WRAP) <==> old(turns)[at] >= WRAP)
      ensures st == Ok ==> id == at && generation == turns[id] % WRAP && !left
      ensures left ==> st == JournalErr && inTx
      ensures st == NoSpc ==> AllTaken(Slots())
      ensures st == Ok || st == NoSpc || TableFault(st, inTx, failing)
      ensures left ==> Disk in failing
      ensures st != Ok && !left ==> table == old(table) && turns == old(turns)
      ensures freeCount == if st == Ok then old(freeCount) - 1 else old(freeCount)
      ensures old(Counted()) ==> (Counted() <==> !left)
    {
      id, generation, at, left := 0, 0, 0, false;
      var i := 0;
      while i < |table|
        invariant i <= |table| && table == old(table) && freeCount == old(freeCount) && turns == old(turns)
        invariant forall k :: 0 < k < i * SLOTS ==> Taken(Slots()[k])
      {
        var f := Fails(failing, Disk);
        if f { return IO, 0, 0, 0, false; }
        var j := 0;
        while j < SLOTS
          invariant j <= SLOTS && table == old(table) && freeCount == old(freeCount) && turns == old(turns)
          invariant forall k :: 0 < k < i * SLOTS + j ==> Taken(Slots()[k])
        {
          var candidate := i * SLOTS + j;
          FlattenAt(table, i, j);
          if candidate != 0 && Allocated !in table[i][j].flags {
            st, generation, left := HandOut(candidate, inTx);
            id, at := candidate, candidate;
            return;
          }
          j := j + 1;
        }
        i := i + 1;
      }
      return NoSpc, 0, 0, 0, false;
    }

    method HandOut(id: nat, inTx: bool) returns (st: Status, generation: nat, ghost left: bool)
      requires Stamped() && 0 < id < SLOTS * |table| && !Taken(Slots()[id])
      modifies this`table, this`freeCount, this`turns
      ensures Stamped() && |table| == |old(table)|
      ensures st == Ok || left ==> turns == old(turns)[id := old(turns)[id] + 1]
      ensures (st == Ok || left ==>
        Slots() == old(Slots())[id := Entry(UNBOUND, old(Slots())[id].flags + {Allocated}, turns[id] % WRAP)])
      ensures st == Ok || left ==> (Issued(old(turns)[id], turns[id] % WRAP) <==> old(turns)[id] >= WRAP)
      ensures st == Ok ==> generation == turns[id] % WRAP && !left
      ensures left ==> st == JournalErr && inTx
      ensures st == Ok || TableFault(st, inTx, failing)
      ensures left ==> Disk in failing
      ensures st != Ok && !left ==> table == old(table) && turns == old(turns)
      ensures freeCount == if st == Ok then old(freeCount) - 1 else old(freeCount)
      ensures old(Counted()) ==> (Counted() <==> !left)
    {
      generation, left := 0, false;
      var f := Fails(failing, Disk);
      if f { return IO, generation, left; }
      var before := table;
      FlattenAt(table, id / SLOTS, id % SLOTS);
      var e := table[id / SLOTS][id % SLOTS];
      generation := (e.generation + 1) % WRAP;
      FreeSlotsSet(Slots(), id, Entry(UNBOUND, e.flags + {Allocated}, generation));
      FreshUntilWrap(turns[id]);
      NextTurn(turns[id]);
      Store(id, Entry(UNBOUND, e.flags + {Allocated}, generation));
      if inTx {
        f := Fails(failing, Logging);
        if f {
          f := Fails(failing, Disk);
          if !f {
            table := before;
          } else {
            left := true;
            turns := turns[id := turns[id] + 1];
          }
          return JournalErr, generation, left;
        }
      }
      freeCount := freeCount - 1;
      turns := turns[id := turns[id] + 1];
      st := Ok;
    }

    lemma NextTurn(t: nat)
      ensures (t % WRAP + 1) % WRAP == (t + 1) % WRAP
    {
    }

    /** Binds a slot to a block and adds flags. The free count stays right exactly when no
        unallocated slot but 0 is given the Allocated flag. `left`: the journal refused the
        entry and the slot could not be written back. */
    method UpdateEntry(id: nat, phys: nat, flags: set<Flag>, inTx: bool) returns (st: Status, ghost left: bool)
      requires Stamped()
      modifies this`table
      ensures Stamped() && |table| == |old(table)|
      ensures id >= |Slots()| ==> st == Inval
      ensures left ==> st == JournalErr && inTx
      ensures (st == Ok || left ==>
        && id < |Slots()|
        && Slots() == old(Slots())[id := Entry(phys, old(Slots())[id].flags + flags, old(Slots())[id].generation)])
      ensures ((st == Ok || left) && old(Counted()) ==>
        (Counted() <==> id == 0 || Taken(old(Slots())[id]) || Allocated !in flags))
      ensures st != Ok && !left ==> table == old(table)
      ensures id < |Slots()| ==> st == Ok || TableFault(st, inTx, failing)
      ensures left ==> Disk in failing
    {
      left := false;
      if id >= SLOTS * |table| { return Inval, left; }
      var f := Fails(failing, Disk);
      if f { return IO, left; }
      var before := table;
      FlattenAt(table, id / SLOTS, id % SLOTS);
      var e := table[id / SLOTS][id % SLOTS];
      FreeSlotsSet(Slots(), id, Entry(phys, e.flags + flags, e.generation));
      Store(id, Entry(phys, e.flags + flags, e.generation));
      if inTx {
        f := Fails(failing, Logging);
        if f {
          f := Fails(failing, Disk);
          if !f { table := before; } else { left := true; }
          return JournalErr, left;
        }
      }
      st := Ok;
    }

    /** Gives a slot back. The free count stays right exactly when the slot was allocated and
        is not slot 0: neither is checked. `left`: the journal refused the entry and the slot
        could not be written back, so it is free and not counted. */
    method FreeEntry(id: nat, inTx: bool) returns (st: Status, ghost left: bool)
      requires Stamped()
      modifies this`table, this`freeCount
      ensures Stamped() && |table| == |old(table)|
      ensures id >= |Slots()| ==> st == Inval
      ensures left ==> st == JournalErr && inTx
      ensures (st == Ok || left ==>
        id < |Slots()| && Slots() == old(Slots())[id := Entry(UNBOUND, {}, old(Slots())[id].generation)])
      ensures st == Ok && old(Counted()) ==> (Counted() <==> id != 0 && Taken(old(Slots())[id]))
      ensures left && old(Counted()) ==> (Counted() <==> id == 0 || !Taken(old(Slots())[id]))
      ensures st != Ok && !left ==> table == old(table)
      ensures freeCount == if st == Ok then old(freeCount) + 1 else old(freeCount)
      ensures id < |Slots()| ==> st == Ok || TableFault(st, inTx, failing)
      ensures left ==> Disk in failing
    {
      left := false;
      if id >= SLOTS * |table| { return Inval, left; }
      var f := Fails(failing, Disk);
      if f { return IO, left; }
      var before := table;
      FlattenAt(table, id / SLOTS, id % SLOTS);
      var e := table[id / SLOTS][id % SLOTS];
      FreeSlotsSet(Slots(), id, Entry(UNBOUND, {}, e.generation));
      Store(id, Entry(UNBOUND, {}, e.generation));
      if inTx {
        f := Fails(failing, Logging);
        if f {
          f := Fails(failing, Disk);
          if !f { table := before; } else { left := true; }
          return JournalErr, left;
        }
      }
      freeCount := freeCount + 1;
      st := Ok;
    }

    /** A slot resolves when it is allocated and bound. */
    ghost predicate Resolves(id: nat)
      reads this
    {
      id < |Slots()| && Taken(Slots()[id]) && Slots()[id].phys != 0 && Slots()[id].phys != UNBOUND
    }

    method Resolve(id: nat) returns (st: Status, e: Entry)
      requires Stamped()
      ensures st == Ok ==> Resolves(id) && e == Slots()[id]
      ensures Resolves(id) ==> st == Ok || (st == IO && Disk in failing)
      ensures id >= |Slots()| ==> st == Inval
      ensures id < |Slots()| && !Taken(Slots()[id]) ==> st == NotFound || (st == IO && Disk in failing)
      ensures (id < |Slots()| && Taken(Slots()[id]) && !Resolves(id) ==>
        st == NotYetBound || (st == IO && Disk in failing))
    {
      e := Entry(0, {}, 0);
      if id >= SLOTS * |table| { return Inval, e; }
      var f := Fails(failing, Disk);
      if f { return IO, e; }
      FlattenAt(table, id / SLOTS, id % SLOTS);
      e := table[id / SLOTS][id % SLOTS];
      if Allocated !in e.flags { return NotFound, e; }
      if e.phys == 0 || e.phys == UNBOUND { return NotYetBound, e; }
      st := Ok;
    }

    // ----- records

    /** A record is read only if its image is intact and stamped with its slot's current
        generation. */
    method Read(id: nat) returns (st: Status, img: Image)
      requires Stamped()
      ensures st == Ok ==> Resolves(id) && Slots()[id].phys in images && img == images[Slots()[id].phys]
      ensures st == Ok ==> img.intact && img.generation == turns[id] % WRAP
      ensures st != Ok && Resolves(id) && Slots()[id].phys in images ==> (
        var i := images[Slots()[id].phys]; Fault(st, failing) || !i.intact || i.generation != turns[id] % WRAP)
    {
      img := Image(false, 0, 0);
      var f := Fails(failing, Memory);
      if f { return NoMem, img; }
      var e;
      st, e := Resolve(id);
      if st != Ok { return; }
      f := Fails(failing, Disk);
      if f { return IO, img; }
      if e.phys !in images { return Corrupt, img; }
      img := images[e.phys];
      if !img.intact { return Corrupt, img; }
      if img.generation != e.generation { return Corrupt, img; }
    }

    /** A record image stamped `k` turns into its slot's life is rejected as long as fewer
        than 2^32 turns have passed since. */
    lemma StaleImageRejected(id: nat, k: nat)
      requires Stamped() && id < |turns| && k < turns[id]
      ensures Slots()[id].generation != k % WRAP <==> (turns[id] - k) % WRAP != 0
      ensures turns[id] - k < WRAP ==> Slots()[id].generation != k % WRAP
    {
      StaleStamp(k, turns[id]);
    }

    /** Writes a record image to the block its slot is bound to. */
    method WriteImage(id: nat, generation: nat) returns (st: Status)
      requires Stamped()
      modifies this`images
      ensures st == Ok ==> Resolves(id) && images == old(images)[Slots()[id].phys := Image(true, id, generation)]
      ensures st != Ok ==> images == old(images)
      ensures Resolves(id) ==> st == Ok || Fault(st, failing)
    {
      var f := Fails(failing, Memory);
      if f { return NoMem; }
      var e;
      st, e := Resolve(id);
      if st != Ok { return; }
      f := Fails(failing, Logging);
      if f { return JournalErr; }
      f := Fails(failing, Disk);
      if f { return IO; }
      images := images[e.phys := Image(true, id, generation)];
    }

    /** No data block is free but block 0 and the unbound mark. */
    ghost predicate SpaceGone()
      reads this`usedBlocks
    {
      forall q :: q in space && q != 0 && q != UNBOUND ==> q in usedBlocks
    }

    /** A free data block, never block 0 or the unbound mark. */
    method AllocBlock() returns (b: nat)
      modifies this`usedBlocks
      ensures b == 0 ==> usedBlocks == old(usedBlocks) && (SpaceGone() || Allocating in failing)
      ensures (b != 0 ==>
        b in space && b !in old(usedBlocks) && b != UNBOUND && usedBlocks == old(usedBlocks) + {b})
    {
      if q :| q in space && q !in usedBlocks && q != 0 && q != UNBOUND {
        var f := Fails(failing, Allocating);
        if f { return 0; }
        usedBlocks := usedBlocks + {q};
        return q;
      }
      b := 0;
    }

    /** A new record: the slot `at` was unallocated, its block is fresh, and its image carries
        the new generation, so that it reads back. On failure, 0, the source tries to give
        slot and block back and ignores whether it can: the slot may stay taken and the block
        in use. `skewed`: a slot changed hands without being counted. */
    method Alloc() returns (id: nat, ghost at: nat, ghost skewed: bool)
      requires Stamped()
      modifies this`table, this`freeCount, this`turns, this`usedBlocks, this`images, this`recordCount
      ensures Stamped() && |table| == |old(table)| && (old(Counted()) ==> (Counted() <==> !skewed))
      ensures id != 0 ==> id == at < |Slots()| && !Taken(old(Slots())[id]) && Resolves(id) && !skewed
      ensures id != 0 ==> forall k :: 0 < k < id ==> Taken(old(Slots())[k])
      ensures id != 0 ==> Slots()[id].phys !in old(usedBlocks) && usedBlocks == old(usedBlocks) + {Slots()[id].phys}
      ensures id != 0 ==> turns == old(turns)[id := old(turns)[id] + 1]
      ensures id != 0 ==> images == old(images)[Slots()[id].phys := Image(true, id, turns[id] % WRAP)]
      ensures id != 0 ==> (Issued(old(turns)[id], turns[id] % WRAP) <==> old(turns)[id] >= WRAP)
      ensures recordCount == if id != 0 then old(recordCount) + 1 else old(recordCount)
      ensures forall k :: 0 <= k < |Slots()| && k != at ==> Slots()[k] == old(Slots())[k]
      ensures id == 0 ==> images == old(images)
      ensures (id == 0 ==>
        || usedBlocks == old(usedBlocks)
        || exists b :: b !in old(usedBlocks) && usedBlocks == old(usedBlocks) + {b} && Marking(b) in failing)
      ensures id == 0 ==> old(AllTaken(Slots()) || SpaceGone()) || Fallible() || Allocating in failing
      ensures id == 0 && old(AllTaken(Slots())) ==> table == old(table) && turns == old(turns)
      ensures id == 0 && !Fallible() && !old(AllTaken(Slots())) ==> GivenBack(old(Slots()), old(turns), Slots(), at)
      ensures skewed ==> Disk in failing && Logging in failing
    {
      var st, slot, generation;
      st, slot, generation, at, skewed := AllocEntry(true);
      if st != Ok { return 0, at, skewed; }
      var block := AllocBlock();
      var bound := false;
      if block != 0 { bound := Bind(slot, block, generation); }
      if !bound {
        skewed := GiveUp(slot, block);
        return 0, at, skewed;
      }
      recordCount := recordCount + 1;
      id := slot;
    }

    /** Binds an allocated slot to its block and writes the first image there. */
    method Bind(slot: nat, block: nat, generation: nat) returns (ok: bool)
      requires Stamped() && 0 < slot < |Slots()| && Taken(Slots()[slot]) && block != 0 && block != UNBOUND
      modifies this`table, this`images
      ensures Stamped() && |table| == |old(table)| && (old(Counted()) ==> Counted())
      ensures forall k :: 0 <= k < |Slots()| && k != slot ==> Slots()[k] == old(Slots())[k]
      ensures Taken(Slots()[slot]) && Slots()[slot].generation == old(Slots())[slot].generation
      ensures ok ==> Slots()[slot].phys == block && images == old(images)[block := Image(true, slot, generation)]
      ensures !ok ==> images == old(images) && Fallible()
    {
      var st;
      ghost var unbound;
      st, unbound := UpdateEntry(slot, block, {Allocated}, true);
      if st != Ok { return false; }
      st := WriteImage(slot, generation);
      ok := st == Ok;
    }

    /** A disk access, an append or an allocation of memory may fail. */
    predicate Fallible()
      reads this`failing
    {
      Memory in failing || Disk in failing || Logging in failing
    }

    /** The lowest unallocated slot had a turn and is unallocated again. */
    ghost predicate GivenBack(s: seq<Entry>, was: seq<nat>, s': seq<Entry>, at: nat)
      requires |was| == |s|
    {
      && 0 < at < |s| && !Taken(s[at]) && (forall k :: 0 < k < at ==> Taken(s[k]))
      && s' == s[at := Entry(UNBOUND, {}, (was[at] + 1) % WRAP)]
    }

    /** Clears the block's bit and gives the slot back; neither result is looked at. */
    method GiveUp(slot: nat, block: nat) returns (ghost skewed: bool)
      requires Stamped() && 0 < slot < |Slots()| && Taken(Slots()[slot])
      modifies this`table, this`freeCount, this`usedBlocks
      ensures Stamped() && |table| == |old(table)| && (old(Counted()) ==> (Counted() <==> !skewed))
      ensures forall k :: 0 <= k < |Slots()| && k != slot ==> Slots()[k] == old(Slots())[k]
      ensures (usedBlocks == old(usedBlocks) - (if block == 0 then {} else {block})
        || (usedBlocks == old(usedBlocks) && Marking(block) in failing))
      ensures (Disk !in failing && Logging !in failing ==>
        Slots() == old(Slots())[slot := Entry(UNBOUND, {}, old(Slots())[slot].generation)])
      ensures skewed ==> Disk in failing && Logging in failing
    {
      if block != 0 {
        var f := Fails(failing, Marking(block));
        if !f { usedBlocks := usedBlocks - {block}; }
      }
      var st;
      st, skewed := FreeEntry(slot, true);
    }

    /** The image in block `p` is written again as that of record `id`, under its old stamp. */
    ghost predicate Rewritten(was: map<nat, Image>, now: map<nat, Image>, p: nat, id: nat) {
      p in was && now == was[p := Image(true, id, was[p].generation)]
    }

    /** Gives back a record that resolves, its block first and then its slot; any other id is
        ignored. The results are not looked at: `released` says whether the block's bit was
        cleared, and when the slot cannot be given back it stays taken and bound to the
        block, free or not. */
    method Free(id: nat) returns (found: bool, st: Status, ghost released: bool, ghost left: bool)
      requires Stamped()
      modifies this`table, this`freeCount, this`usedBlocks, this`recordCount, this`images
      ensures Stamped() && |table| == |old(table)|
      ensures found ==> old(Resolves(id))
      ensures old(Resolves(id)) && !found ==> st == IO && Disk in failing
      ensures found ==> st == Ok || TableFault(st, true, failing)
      ensures found && !released ==> Marking(old(Slots())[id].phys) in failing
      ensures left ==> Disk in failing
      ensures (!found ==>
        && table == old(table) && freeCount == old(freeCount) && usedBlocks == old(usedBlocks) && images == old(images)
        && recordCount == old(recordCount))
      ensures found ==> usedBlocks == if released then old(usedBlocks) - {old(Slots())[id].phys} else old(usedBlocks)
      ensures (found && (st == Ok || left) ==>
        Slots() == old(Slots())[id := Entry(UNBOUND, {}, old(Slots())[id].generation)])
      ensures (found && st != Ok && !left ==>
        table == old(table) && Resolves(id) && (released ==> Slots()[id].phys !in usedBlocks))
      ensures found ==> freeCount == (if st == Ok then old(freeCount) + 1 else old(freeCount))
      ensures found ==> recordCount == if old(recordCount) > 0 then old(recordCount) - 1 else 0
      ensures old(Counted()) ==> (Counted() <==> !found || (if st == Ok then id != 0 else left ==> id == 0))
      ensures images == old(images) || (found && Rewritten(old(images), images, old(Slots())[id].phys, id))
    {
      var e;
      found, released, left := false, false, false;
      st, e := Resolve(id);
      if st != Ok { return; }
      found := true;
      if e.phys in images {
        var _ := WriteImage(id, images[e.phys].generation);
      }
      var f := Fails(failing, Marking(e.phys));
      if !f {
        released := true;
        usedBlocks := usedBlocks - {e.phys};
      }
      st, left := FreeEntry(id, true);
      if recordCount > 0 { recordCount := recordCount - 1; }
    }
  }
}
