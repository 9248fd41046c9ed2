/** The circular redo journal of fs/smkfs/journal.c.

    `slots` are the journal blocks as the mount sees them through the block cache and
    `log` is the ghost content of the window tail..head. `history` lists every
    superblock the journal ever handed to block 0, with the window it published;
    `onDisk` are the superblocks a crash at this moment might find, and `dirty` the
    slots whose last write is not known to have reached the disk. */
module JournalLog {
  import opened Faults
  import opened Redo

  datatype Status = Ok | Io | NoMem | NoSpc | TooBig | Inval | JournalErr | Corrupt

  /** A journal block either fails the header and checksum tests or holds an entry. */
  datatype Slot = Torn | Intact(e: Entry)

  /** The journal fields of a superblock. */
  datatype Super = Super(head: nat, tail: nat, sequence: nat)

  datatype Published = Published(sb: Super, window: seq<Entry>)

  const MAX_PAYLOAD := BLOCK_SIZE - ENTRY_HEADER

  // ----- windows of the ring

  /** The slot `i` places behind `pos`. */
  function Ahead(length: nat, pos: nat, i: nat): nat
    requires pos < length && i < length
  {
    if pos + i < length then pos + i else pos + i - length
  }

  function WindowSize(length: nat, tail: nat, head: nat): nat
    requires tail < length && head < length
  {
    if tail <= head then head - tail else head - tail + length
  }

  /** The slots from `tail` up to `head`. */
  ghost function WindowOf(slots: seq<Slot>, tail: nat, head: nat): (w: seq<Slot>)
    requires tail < |slots| && head < |slots|
    ensures |w| == WindowSize(|slots|, tail, head)
  {
    seq(WindowSize(|slots|, tail, head),
        i requires 0 <= i < WindowSize(|slots|, tail, head) => slots[Ahead(|slots|, tail, i)])
  }

  ghost predicate InWindow(length: nat, tail: nat, head: nat, p: nat)
    requires tail < length && head < length
  {
    if tail <= head then tail <= p < head else tail <= p < length || p < head
  }

  ghost function AllIntact(es: seq<Entry>): (w: seq<Slot>)
    ensures |w| == |es| && forall i :: 0 <= i < |es| ==> w[i] == Intact(es[i])
  {
    seq(|es|, i requires 0 <= i < |es| => Intact(es[i]))
  }

  /** The window holds exactly the entries `es`. */
  ghost predicate Reads(slots: seq<Slot>, tail: nat, head: nat, es: seq<Entry>) {
    tail < |slots| && head < |slots| && WindowOf(slots, tail, head) == AllIntact(es)
  }

  // ----- transactions

  ghost predicate Increasing(es: seq<Entry>) {
    forall i, j :: 0 <= i < j < |es| ==> es[i].sequence < es[j].sequence
  }

  ghost predicate NoMarker(es: seq<Entry>) {
    forall i :: 0 <= i < |es| ==> es[i].op != JOP_COMMIT && es[i].op != JOP_CHECKPOINT
  }

  /** One whole transaction: its entries in order, closed by its COMMIT. */
  ghost predicate CommittedTx(es: seq<Entry>) {
    es != [] && es[|es| - 1].op == JOP_COMMIT && NoMarker(es[..|es| - 1]) && Increasing(es)
  }

  /** `w` is the transaction with entries `tx`, closed by a COMMIT. */
  ghost predicate Commits(w: seq<Entry>, tx: seq<Entry>) {
    |w| == |tx| + 1 && w[..|tx|] == tx && w[|tx|].op == JOP_COMMIT
  }

  ghost predicate GoodWindow(es: seq<Entry>) {
    es == [] || CommittedTx(es)
  }

  // ----- what replay selects

  ghost predicate HasCommit(es: seq<Entry>) {
    exists i :: 0 <= i < |es| && es[i].op == JOP_COMMIT
  }

  /** The highest sequence number that carries a COMMIT, 0 if none does. */
  ghost function LastCommit(es: seq<Entry>): nat {
    if es == [] then 0
    else
      var e, before := es[|es| - 1], LastCommit(es[..|es| - 1]);
      if e.op == JOP_COMMIT && e.sequence >= before then e.sequence else before
  }

  /** The entries numbered up to `last`, in order. */
  ghost function Upto(es: seq<Entry>, last: nat): seq<Entry> {
    if es == [] then []
    else
      var e, before := es[|es| - 1], Upto(es[..|es| - 1], last);
      if e.sequence <= last then before + [e] else before
  }

  ghost predicate RedoableUpto(lay: Layout, es: seq<Entry>, last: nat) {
    forall i :: 0 <= i < |es| && es[i].sequence <= last ==> Redoable(lay, es[i])
  }

  ghost function Selected(es: seq<Entry>): seq<Entry> {
    if HasCommit(es) then Upto(es, LastCommit(es)) else []
  }

  lemma HasCommitMore(es: seq<Entry>, e: Entry)
    ensures HasCommit(es + [e]) <==> HasCommit(es) || e.op == JOP_COMMIT
  {
    if HasCommit(es) {
      var i :| 0 <= i < |es| && es[i].op == JOP_COMMIT;
      assert (es + [e])[i].op == JOP_COMMIT;
    }
    if e.op == JOP_COMMIT { assert (es + [e])[|es|].op == JOP_COMMIT; }
  }

  /** Without a COMMIT the running maximum is still at its start value. */
  lemma {:induction false} CommitNotBelow(es: seq<Entry>)
    ensures !HasCommit(es) ==> LastCommit(es) == 0
  {
    if es != [] {
      HasCommitMore(es[..|es| - 1], es[|es| - 1]);
      assert es == es[..|es| - 1] + [es[|es| - 1]];
      CommitNotBelow(es[..|es| - 1]);
    }
  }

  lemma {:induction false} ApplyMore(lay: Layout, h: Home, es: seq<Entry>, e: Entry)
    ensures ApplyAll(lay, h, es + [e]) == Apply(lay, ApplyAll(lay, h, es), e)
  {
    assert (es + [e])[..|es|] == es;
  }

  /** The prefix grows by entry `i`, which is applied when its number is not above `last`. */
  lemma {:induction false} UptoMore(lay: Layout, h: Home, es: seq<Entry>, i: nat, last: nat)
    requires i < |es| && RedoableUpto(lay, es[..i], last) && (es[i].sequence <= last ==> Redoable(lay, es[i]))
    ensures RedoableUpto(lay, es[..i + 1], last)
    ensures ApplyAll(lay, h, Upto(es[..i + 1], last)) ==
      var g := ApplyAll(lay, h, Upto(es[..i], last));
      if es[i].sequence <= last then Apply(lay, g, es[i]) else g
  {
    assert es[..i + 1][..i] == es[..i] && es[..i + 1][i] == es[i];
    ApplyMore(lay, h, Upto(es[..i], last), es[i]);
  }

  lemma {:induction false} UptoAll(es: seq<Entry>, last: nat)
    requires forall i :: 0 <= i < |es| ==> es[i].sequence <= last
    ensures Upto(es, last) == es
  {
    if es != [] {
      UptoAll(es[..|es| - 1], last);
      assert es == es[..|es| - 1] + [es[|es| - 1]];
    }
  }

  lemma {:induction false} UptoPrefix(es: seq<Entry>, k: nat)
    requires Increasing(es) && k < |es|
    ensures Upto(es, es[k].sequence) == es[..k + 1]
  {
    var n := |es| - 1;
    if k == n {
      UptoAll(es, es[k].sequence);
      assert es[..k + 1] == es;
    } else {
      assert es[..n][k] == es[k];
      UptoPrefix(es[..n], k);
      assert es[..n][..k + 1] == es[..k + 1];
    }
  }

  lemma {:induction false} LastCommitAt(es: seq<Entry>, k: nat)
    requires Increasing(es) && k < |es| && es[k].op == JOP_COMMIT
    requires forall j :: k < j < |es| ==> es[j].op != JOP_COMMIT
    ensures LastCommit(es) == es[k].sequence
  {
    var n := |es| - 1;
    if k == n {
      LastCommitBound(es[..n], es[n].sequence);
    } else {
      assert es[..n][k] == es[k];
      LastCommitAt(es[..n], k);
    }
  }

  lemma {:induction false} LastCommitBound(es: seq<Entry>, b: nat)
    requires forall i :: 0 <= i < |es| ==> es[i].sequence <= b
    ensures LastCommit(es) <= b
  {
    if es != [] { LastCommitBound(es[..|es| - 1], b); }
  }

  /** In a window with rising sequence numbers replay redoes precisely the prefix through
      the last COMMIT, in order, and nothing behind it. */
  lemma {:induction false} ReplaySelectsPrefix(es: seq<Entry>, k: nat)
    requires Increasing(es) && k < |es| && es[k].op == JOP_COMMIT
    requires forall j :: k < j < |es| ==> es[j].op != JOP_COMMIT
    ensures Selected(es) == es[..k + 1]
  {
    LastCommitAt(es, k);
    UptoPrefix(es, k);
  }

  /** Entries that never reached a COMMIT are not redone. */
  lemma AbortedNotSelected(es: seq<Entry>)
    requires NoMarker(es)
    ensures Selected(es) == []
  {
  }

  /** A published window is redone as a whole, from any state that differs from the
      state before the transaction at logged locations only. */
  lemma {:induction false} PublishedWindowRedone(lay: Layout, before: Home, crashed: Home, w: seq<Entry>)
    requires GoodWindow(w)
    requires forall l :: !TouchedBy(lay, w, l) ==> SameAt(crashed, before, l)
    ensures Selected(w) == w
    ensures ApplyAll(lay, crashed, Selected(w)) == ApplyAll(lay, before, w)
  {
    if w != [] {
      var n := |w| - 1;
      ReplaySelectsPrefix(w, n);
      assert w[..n + 1] == w;
    }
    RedoConverges(lay, crashed, before, w);
  }

  lemma WindowIsLog(slots: seq<Slot>, tail: nat, head: nat, log: seq<Entry>)
    requires tail < |slots| && |log| < |slots| && head == Ahead(|slots|, tail, |log|)
    requires forall i :: 0 <= i < |log| ==> slots[Ahead(|slots|, tail, i)] == Intact(log[i])
    ensures WindowOf(slots, tail, head) == AllIntact(log)
  {
  }

  /** Slots outside a window do not show in it. */
  lemma WindowKept(slots: seq<Slot>, found: seq<Slot>, tail: nat, head: nat)
    requires tail < |slots| == |found| && head < |slots|
    requires forall p :: 0 <= p < |slots| && InWindow(|slots|, tail, head, p) ==> found[p] == slots[p]
    ensures WindowOf(found, tail, head) == WindowOf(slots, tail, head)
  {
  }

  lemma AllIntactOnce(a: seq<Entry>, b: seq<Entry>)
    requires AllIntact(a) == AllIntact(b)
    ensures a == b
  {
    forall i | 0 <= i < |a| ensures a[i] == b[i] {
      assert AllIntact(a)[i] == Intact(a[i]) && AllIntact(b)[i] == Intact(b[i]);
    }
  }

  /** How many appends at `head` a window that ends there survives: the slot `k` places
      on is one of the window's exactly when `k` is at least the number of other slots. */
  lemma RoomLeft(length: nat, tail: nat, head: nat, k: nat)
    requires tail < length && head < length && tail != head && k < length
    ensures InWindow(length, tail, head, Ahead(length, head, k)) <==> k >= length - WindowSize(length, tail, head)
  {
  }

  /** Two appends after a failed publication of the empty window, in a ring of four: the
      window that block 0 still names starts with the later entry, and replay takes the
      end of the transaction for the whole. */
  lemma HalfRedone(first: Entry, second: Entry, commit: Entry, fourth: Entry, fifth: Entry)
    requires CommittedTx([first, second, commit]) && first.op == second.op == fifth.op == JOP_WRITE
    requires commit.sequence < fourth.sequence < fifth.sequence
    ensures var ring := [Intact(first), Intact(second), Intact(commit), Torn];
      && WindowOf(ring, 0, 3) == AllIntact([first, second, commit])
      && Selected([first, second, commit]) == [first, second, commit]
      && Ahead(4, 3, 0) == 3 && Ahead(4, 3, 1) == 0
      && WindowOf(ring[3 := Intact(fourth)], 0, 3) == AllIntact([first, second, commit])
      && WindowOf(ring[3 := Intact(fourth)][0 := Intact(fifth)], 0, 3) == AllIntact([fifth, second, commit])
      && Selected([fifth, second, commit]) == [second, commit]
  {
    var es, late := [first, second, commit], [fifth, second, commit];
    ReplaySelectsPrefix(es, 2);
    assert es[..3] == es;
    assert late[2].op == JOP_COMMIT;
    assert late[..2] == [fifth, second] && late[..2][..1] == [fifth] && [fifth][..0] == [];
    assert es[..2] == [first, second] && es[..2][1] == second;
    assert NoMarker(es[..2]);
    assert es[1].sequence < es[2].sequence;
    assert LastCommit([]) == 0 && Upto([], commit.sequence) == [];
    assert LastCommit([fifth]) == 0 && Upto([fifth], commit.sequence) == [];
    assert LastCommit(late[..2]) == 0 && Upto(late[..2], commit.sequence) == [second];
    assert LastCommit(late) == commit.sequence && Upto(late, commit.sequence) == [second] + [commit];
  }

  /** Every slot of a window is an entry that redo accepts. */
  ghost predicate Sane(lay: Layout, w: seq<Slot>) {
    forall i :: 0 <= i < |w| ==> w[i].Intact? && Redoable(lay, w[i].e)
  }

  class Journal {
    const length: nat
    const layout: Layout

    var slots: seq<Slot>
    var head: nat
    var tail: nat
    var sequence: nat
    var nextSequence: nat
    var inTx: bool

    /** The home locations that redo writes, as the mount sees them. */
    var home: Home

    /** Block 0 as the mount sees it. */
    var block0: Super

    /** The steps that may fail. */
    var failing: set<Failure>

    ghost var log: seq<Entry>
    ghost var history: seq<Published>
    ghost var onDisk: set<Super>
    ghost var dirty: set<nat>

    /** The window tail..head holds exactly `log`, numbers rising, one slot left free. */
    ghost predicate RingValid()
      reads this
    {
      && head < length && tail < length && |slots| == length
      && |log| < length && head == Ahead(length, tail, |log|)
      && (forall i :: 0 <= i < |log| ==> slots[Ahead(length, tail, i)] == Intact(log[i]))
      && Increasing(log) && (forall i :: 0 <= i < |log| ==> log[i].sequence < nextSequence)
    }

    ghost predicate Valid()
      reads this
    {
      && RingValid()
      && (inTx ==> NoMarker(log))
      && (forall p :: p in history ==> GoodWindow(p.window))
      && block0 in onDisk
    }

    /** A crash that finds `sb` finds an empty window or one whole committed transaction,
        every slot of it on disk. */
    ghost predicate Intactly(sb: Super)
      reads this
    {
      IntactIn(slots, dirty, sb)
    }

    ghost predicate IntactIn(ring: seq<Slot>, unsure: set<nat>, sb: Super) {
      && sb.head < length && sb.tail < length && |ring| == length
      && (sb.head == sb.tail ||
          (&& (exists es :: Reads(ring, sb.tail, sb.head, es) && CommittedTx(es))
           && (forall p :: p in unsure ==> !InWindow(length, sb.tail, sb.head, p))))
    }

    /** Whatever superblock a crash finds now, its window replays. */
    ghost predicate Recoverable()
      reads this
    {
      AllIntactIn(slots, dirty, onDisk)
    }

    ghost predicate AllIntactIn(ring: seq<Slot>, unsure: set<nat>, disk: set<Super>) {
      forall sb :: sb in disk ==> IntactIn(ring, unsure, sb)
    }

    /** No window that a crash might find holds slot `p`. */
    ghost predicate Spares(p: nat)
      reads this
    {
      SparedBy(onDisk, p)
    }

    ghost predicate SparedBy(disk: set<Super>, p: nat) {
      forall sb :: sb in disk && sb.head < length && sb.tail < length && sb.head != sb.tail ==>
        !InWindow(length, sb.tail, sb.head, p)
    }

    /** What a mount starts from: positions in range, block 0 possibly on disk. */
    ghost predicate Mounted()
      reads this
    {
      && head < length && tail < length && |slots| == length
      && (forall p :: p in history ==> GoodWindow(p.window))
      && block0 in onDisk
    }

    /** Every window a crash might find ends where the next entry goes. */
    ghost predicate EndsAtHead()
      reads this
    {
      forall sb :: sb in onDisk && sb.head != sb.tail ==> sb.head == head
    }

    /** No superblock a crash could find has anything left to replay. */
    ghost predicate Settled()
      reads this
    {
      forall sb :: sb in onDisk ==> sb.head == sb.tail && sb.head < length
    }

    /** A mount of a volume whose journal is empty. */
    constructor (n: nat, lay: Layout, sb: Super)
      requires sb.head == sb.tail < n
      ensures Valid() && Settled() && length == n && layout == lay && fresh(this)
      ensures log == [] && history == [] && !inTx && nextSequence == sequence == sb.sequence
    {
      length, layout := n, lay;
      slots := seq(n, _ => Torn);
      head, tail, sequence, nextSequence, inTx := sb.head, sb.tail, sb.sequence, sb.sequence, false;
      block0 := sb;
      home, failing := map[], {};
      log, history, onDisk, dirty := [], [], {sb}, {};
    }

    /** A mount that finds `sb` in block 0, `found` in the journal blocks and `disk` in the
        home locations; `Replay` comes next. */
    constructor Mount(n: nat, lay: Layout, sb: Super, found: seq<Slot>, disk: Home, failing: set<Failure>)
      requires sb.head < n && sb.tail < n && |found| == n
      ensures Mounted() && length == n && layout == lay && fresh(this)
      ensures block0 == sb && head == sb.head && tail == sb.tail && sequence == sb.sequence && !inTx
      ensures slots == found && home == disk && history == [] && onDisk == {sb} && dirty == {}
      ensures this.failing == failing
    {
      length, layout := n, lay;
      slots, home, this.failing := found, disk, failing;
      head, tail, sequence, nextSequence, inTx := sb.head, sb.tail, sb.sequence, sb.sequence, false;
      block0 := sb;
      log, history, onDisk, dirty := [], [], {sb}, {};
    }

    function NextPos(pos: nat): (r: nat)
      requires pos < length
      ensures r < length
    {
      if pos + 1 >= length then 0 else pos + 1
    }

    /** The ring position that follows is the next one modulo the ring's length. */
    lemma NextPosIsModulo(pos: nat)
      requires pos < length
      ensures NextPos(pos) == (pos + 1) % length
    {
      if pos + 1 < length { assert pos + 1 == 0 * length + (pos + 1); } else { assert pos + 1 == length; }
    }

    /** Full when the next write would reach the tail: one slot always stays free. */
    method IsFull() returns (full: bool)
      requires Valid()
      ensures full <==> |log| == length - 1
    {
      full := NextPos(head) == tail;
    }

    // ----- the block cache below the journal

    /** Writes back everything dirty, or fails having written back some of it. */
    method Flush() returns (ok: bool)
      modifies this`onDisk, this`dirty
      ensures ok ==> onDisk == {block0} && dirty == {}
      ensures !ok ==> onDisk == old(onDisk) && dirty == old(dirty) && Disk in failing
    {
      var f := Fails(failing, Disk);
      ok := !f;
      if ok {
        onDisk, dirty := {block0}, {};
      }
    }

    /** Writes the superblock to block 0 and flushes it. */
    method PersistSuperblock() returns (st: Status)
      requires Valid() && GoodWindow(log)
      modifies this`block0, this`history, this`onDisk, this`dirty
      ensures Valid()
      ensures history == old(history) || history == old(history) + [Published(Super(head, tail, sequence), log)]
      ensures onDisk <= old(onDisk) + {Super(head, tail, sequence)} && dirty <= old(dirty)
      ensures st == Ok ==> history == old(history) + [Published(Super(head, tail, sequence), log)]
      ensures st == Ok ==> onDisk == {Super(head, tail, sequence)} && block0 == Super(head, tail, sequence)
      ensures st == Ok || (st == Io && Disk in failing)
      ensures old(Recoverable()) && (head == tail || Intactly(Super(head, tail, sequence))) ==> Recoverable()
    {
      var f := Fails(failing, Disk);
      if f { return Io; }
      block0 := Super(head, tail, sequence);
      history := history + [Published(block0, log)];
      onDisk := onDisk + {block0};
      var ok := Flush();
      return if ok then Ok else Io;
    }

    // ----- appending

    /** How an append of `len` bytes ends: the refusals come in this order, and only a failing
        step keeps anything else from the journal. */
    ghost predicate Ends(st: Status, open: bool, full: bool, len: nat)
      reads this`failing
    {
      if !open then st == JournalErr
      else if full then st == NoSpc
      else if len > MAX_PAYLOAD then st == TooBig
      else st == Ok || (st == NoMem && Memory in failing) || (st == Io && Disk in failing)
    }

    /** Appends one entry at the head. */
    method WriteEntry(op: nat, target: nat, len: nat, record: nat, payload: Bytes) returns (st: Status)
      requires Valid() && (op == JOP_CHECKPOINT ==> log == [])
      modifies this`slots, this`head, this`nextSequence, this`log, this`dirty
      ensures Ends(st, inTx, |old(log)| == length - 1, len)
      ensures st == Ok ==> inTx && log == old(log) + [Entry(old(nextSequence), op, target, len, record, payload)]
      ensures st == Ok ==> nextSequence == old(nextSequence) + 1
      ensures st == Ok ==> slots == old(slots)[old(head) := Intact(log[|log| - 1])] && dirty == old(dirty) + {old(head)}
      ensures st != Ok ==> log == old(log) && head == old(head) && slots == old(slots) && dirty == old(dirty)
      ensures old(nextSequence) <= nextSequence
      ensures st != Ok || (op != JOP_COMMIT && op != JOP_CHECKPOINT) ==> Valid()
      ensures RingValid()
      ensures st == Ok && old(Recoverable()) ==> (Recoverable() <==> old(Spares(head)))
      ensures st != Ok && old(Recoverable()) ==> Recoverable()
    {
      if !inTx { return JournalErr; }
      var full := IsFull();
      if full { return NoSpc; }
      if len > MAX_PAYLOAD { return TooBig; }
      var f := Fails(failing, Memory);
      if f { return NoMem; }
      var e := Entry(nextSequence, op, target, len, record, payload);
      nextSequence := nextSequence + 1;
      f := Fails(failing, Disk);
      if f { return Io; }
      if old(Recoverable()) { Overwriting(slots, dirty, onDisk, head, Intact(e)); }
      slots := slots[head := Intact(e)];
      dirty := dirty + {head};
      head := NextPos(head);
      log := log + [e];
      return Ok;
    }

    /** The windows survive a write to slot `p` exactly if none of them holds it. */
    lemma Overwriting(ring: seq<Slot>, unsure: set<nat>, disk: set<Super>, p: nat, s: Slot)
      requires p < length == |ring| && AllIntactIn(ring, unsure, disk)
      ensures AllIntactIn(ring[p := s], unsure + {p}, disk) <==> SparedBy(disk, p)
    {
      if SparedBy(disk, p) {
        forall sb | sb in disk ensures IntactIn(ring[p := s], unsure + {p}, sb) {
          assert IntactIn(ring, unsure, sb);
          if sb.head != sb.tail { WindowKept(ring, ring[p := s], sb.tail, sb.head); }
        }
      } else {
        var sb :| && sb in disk && sb.head < length && sb.tail < length && sb.head != sb.tail
                  && InWindow(length, sb.tail, sb.head, p);
        assert p in unsure + {p};
        assert !IntactIn(ring[p := s], unsure + {p}, sb);
      }
    }

    lemma Clobbered(ring: seq<Slot>, unsure: set<nat>, disk: set<Super>, sb: Super)
      requires sb in disk && sb.tail in unsure && sb.head != sb.tail
      ensures !AllIntactIn(ring, unsure, disk)
    {
      assert IntactIn(ring, unsure, sb) ==> InWindow(length, sb.tail, sb.head, sb.tail);
    }

    method LogWrite(block: nat, data: Bytes) returns (st: Status)
      requires Valid()
      modifies this`slots, this`head, this`nextSequence, this`log, this`dirty
      ensures Valid()
      ensures Ends(st, inTx, |old(log)| == length - 1, |data|)
      ensures st == Ok ==> inTx && log == old(log) + [Entry(old(nextSequence), JOP_WRITE, block, |data|, 0, data)]
      ensures st != Ok ==> log == old(log)
      ensures dirty == if st == Ok then old(dirty) + {old(head)} else old(dirty)
      ensures st == Ok && old(Recoverable()) ==> (Recoverable() <==> old(Spares(head)))
      ensures st != Ok && old(Recoverable()) ==> Recoverable()
    {
      st := WriteEntry(JOP_WRITE, block, |data|, 0, data);
    }

    method LogAlloc(block: nat, count: nat) returns (st: Status)
      requires Valid()
      modifies this`slots, this`head, this`nextSequence, this`log, this`dirty
      ensures Valid()
      ensures Ends(st, inTx, |old(log)| == length - 1, count)
      ensures st == Ok ==> inTx && log == old(log) + [Entry(old(nextSequence), JOP_ALLOC, block, count, 0, [])]
      ensures st != Ok ==> log == old(log)
      ensures st == Ok && old(Recoverable()) ==> (Recoverable() <==> old(Spares(head)))
      ensures st != Ok && old(Recoverable()) ==> Recoverable()
    {
      st := WriteEntry(JOP_ALLOC, block, count, 0, []);
    }

    method LogFree(block: nat, count: nat) returns (st: Status)
      requires Valid()
      modifies this`slots, this`head, this`nextSequence, this`log, this`dirty
      ensures Valid()
      ensures Ends(st, inTx, |old(log)| == length - 1, count)
      ensures st == Ok ==> inTx && log == old(log) + [Entry(old(nextSequence), JOP_FREE, block, count, 0, [])]
      ensures st != Ok ==> log == old(log)
      ensures st == Ok && old(Recoverable()) ==> (Recoverable() <==> old(Spares(head)))
      ensures st != Ok && old(Recoverable()) ==> Recoverable()
    {
      st := WriteEntry(JOP_FREE, block, count, 0, []);
    }

    method LogMrtUpdate(record: nat, entry: Bytes) returns (st: Status)
      requires Valid() && |entry| == MRT_ENTRY_SIZE
      modifies this`slots, this`head, this`nextSequence, this`log, this`dirty
      ensures Valid()
      ensures Ends(st, inTx, |old(log)| == length - 1, MRT_ENTRY_SIZE)
      ensures (st == Ok ==>
        inTx && log == old(log) + [Entry(old(nextSequence), JOP_MRT_UPDATE, 0, MRT_ENTRY_SIZE, record, entry)])
      ensures st != Ok ==> log == old(log)
      ensures st == Ok && old(Recoverable()) ==> (Recoverable() <==> old(Spares(head)))
      ensures st != Ok && old(Recoverable()) ==> Recoverable()
    {
      st := WriteEntry(JOP_MRT_UPDATE, 0, MRT_ENTRY_SIZE, record, entry);
    }

    // ----- transactions

    /** Opens a transaction on an empty window, reclaiming leftovers first. */
    method StartTransaction() returns (st: Status)
      requires Valid()
      modifies this`slots, this`head, this`tail, this`sequence, this`nextSequence, this`inTx, this`block0,
        this`log, this`history, this`onDisk, this`dirty
      ensures Valid()
      ensures old(inTx) ==> st == JournalErr && inTx && log == old(log) && history == old(history)
      ensures st == Ok ==> inTx && log == [] && length > 1
      ensures st != Ok ==> inTx == old(inTx)
      ensures !old(inTx) && length > 1 && (old(log) == [] || !(Disk in failing)) ==> st == Ok
      ensures !old(inTx) && length > 1 && st != Ok ==> st == JournalErr || |old(log)| == length - 1
      ensures forall i :: |old(history)| <= i < |history| ==> history[i].window == []
      ensures old(history) <= history
      ensures old(Settled()) ==> Settled()
      ensures st == Ok && old(log) != [] ==> Settled()
      ensures (old(log) == [] && length > 1 ==>
        head == old(head) && slots == old(slots) && onDisk == old(onDisk) && dirty == old(dirty))
      ensures old(Recoverable()) && old(Spares(head)) ==> Recoverable()
    {
      if inTx { return JournalErr; }
      if head != tail {
        st := Checkpoint();
        if st != Ok { return JournalErr; }
      }
      var full := IsFull();
      if full {
        st := Checkpoint();
        if st != Ok { return NoSpc; }
        full := IsFull();
        if full { return NoSpc; }
      }
      inTx := true;
      return Ok;
    }

    /** Flushes everything, empties the window, leaves a CHECKPOINT marker behind the tail
        and publishes the empty window. */
    method Checkpoint() returns (st: Status)
      requires Valid()
      modifies this`slots, this`head, this`tail, this`sequence, this`nextSequence, this`inTx, this`block0,
        this`log, this`history, this`onDisk, this`dirty
      ensures Valid() && inTx == old(inTx)
      ensures (old(inTx) ==>
        st == JournalErr && log == old(log) && history == old(history) && onDisk == old(onDisk) && slots == old(slots))
      ensures !old(inTx) ==> st == Ok || (st == Io && Disk in failing)
      ensures st == Ok ==> log == [] && history == old(history) + [Published(block0, [])]
      ensures st == Ok ==> block0 == Super(head, tail, sequence)
      ensures st == Ok && length > 1 && sequence != nextSequence ==> Memory in failing || Disk in failing
      ensures st == Ok && length > 1 && failing == {} ==> Marked(old(nextSequence), old(head))
      ensures forall i :: |old(history)| <= i < |history| ==> history[i].window == []
      ensures old(history) <= history
      ensures st == Ok ==> Settled()
      ensures old(Settled()) ==> Settled()
      ensures old(Recoverable()) && old(Spares(head)) ==> Recoverable()
    {
      if inTx { return JournalErr; }
      var ok := Flush();
      if !ok { return Io; }
      if head != tail {
        tail := head;
        log := [];
      }
      LeaveMarker();
      st := PersistSuperblock();
    }

    /** A CHECKPOINT marker with number `n` stands in slot `p`, and head, tail and both numbers
        have moved past it. */
    ghost predicate Marked(n: nat, p: nat)
      reads this
    {
      && p < length && p < |slots| && slots[p] == Intact(Entry(n, JOP_CHECKPOINT, 0, 0, 0, []))
      && head == tail == NextPos(p) && sequence == nextSequence == n + 1
    }

    ghost predicate Unmarked(was: seq<Slot>, p: nat, n: nat)
      reads this
    {
      slots == was && head == p && sequence == n
    }

    /** Appends a CHECKPOINT marker to an empty window and moves the tail past it. */
    method LeaveMarker()
      requires Valid() && !inTx && log == []
      modifies this`slots, this`head, this`tail, this`sequence, this`nextSequence, this`inTx, this`log, this`dirty
      ensures Valid() && !inTx && log == []
      ensures Marked(old(nextSequence), old(head)) || Unmarked(old(slots), old(head), old(sequence))
      ensures length > 1 && !Marked(old(nextSequence), old(head)) ==> Memory in failing || Disk in failing
      ensures old(Recoverable()) && old(Spares(head)) ==> Recoverable()
    {
      inTx := true;
      var st := WriteEntry(JOP_CHECKPOINT, 0, 0, 0, []);
      inTx := false;
      if st == Ok {
        tail := head;
        log := [];
        sequence := nextSequence;
      }
    }

    /** A publication whose number is above all that were used, and whose window is in its
        slots. */
    ghost predicate Above(p: Published)
      reads this
    {
      p.sb.sequence == nextSequence && Reads(slots, p.sb.tail, p.sb.head, p.window)
    }

    /** Closes the transaction with its COMMIT, makes the journal durable, publishes the
        window, and then publishes it empty. */
    method Commit() returns (st: Status)
      requires Valid()
      modifies this`slots, this`head, this`tail, this`sequence, this`nextSequence, this`inTx, this`block0,
        this`log, this`history, this`onDisk, this`dirty
      ensures Valid()
      ensures !old(inTx) ==> st == JournalErr && log == old(log) && history == old(history) && onDisk == old(onDisk)
      ensures st == Ok ==> !inTx && log == [] && |history| == |old(history)| + 2
      ensures old(history) <= history
      ensures forall i :: |old(history)| <= i < |history| ==>
        history[i].window == [] || Commits(history[i].window, old(log))
      ensures st == Ok ==> Commits(history[|old(history)|].window, old(log)) && history[|old(history)| + 1].window == []
      ensures old(Recoverable()) && old(Spares(head)) ==> Recoverable()
      ensures old(Settled()) ==> Recoverable() && (!inTx ==> EndsAtHead())
      ensures st == Ok ==> Settled()
      ensures (old(inTx) ==>
        || st == Ok || (st == NoSpc && |old(log)| == length - 1)
        || (st == NoMem && Memory in failing) || (st == Io && Disk in failing))
      ensures forall i :: |old(history)| <= i < |history| ==> Above(history[i])
      ensures old(inTx) && st != Ok ==> (inTx <==> head == old(head))
      ensures (old(inTx) && inTx ==>
        log == old(log) && slots == old(slots) && history == old(history) && onDisk == old(onDisk))
    {
      if !inTx { return JournalErr; }
      st := Seal();
      if st != Ok { return; }
      var ok := Flush();
      if !ok { return Io; }
      st := PublishWindow();
      if st != Ok { return; }
      tail := head;
      log := [];
      st := PersistSuperblock();
    }

    /** Appends the COMMIT and leaves the transaction. */
    method Seal() returns (st: Status)
      requires Valid() && inTx
      modifies this`slots, this`head, this`nextSequence, this`log, this`dirty, this`sequence, this`inTx
      ensures Valid()
      ensures st != Ok ==> inTx && log == old(log) && head == old(head) && slots == old(slots)
      ensures st == Ok ==> head != old(head)
      ensures Ends(st, true, |old(log)| == length - 1, 0)
      ensures old(Recoverable()) && (st == Ok ==> old(Spares(head))) ==> Recoverable()
      ensures st == Ok ==> !inTx && CommittedTx(log) && Commits(log, old(log)) && sequence == nextSequence
    {
      st := WriteEntry(JOP_COMMIT, 0, 0, 0, []);
      if st != Ok { return; }
      sequence := nextSequence;
      inTx := false;
      assert log[..|log| - 1] == old(log);
    }

    /** Publishes the sealed window, whose slots are all on disk. */
    method PublishWindow() returns (st: Status)
      requires Valid() && !inTx && CommittedTx(log) && dirty == {}
      modifies this`block0, this`history, this`onDisk, this`dirty
      ensures Valid() && dirty == {}
      ensures history == old(history) || history == old(history) + [Published(Super(head, tail, sequence), log)]
      ensures st == Ok ==> history == old(history) + [Published(Super(head, tail, sequence), log)]
      ensures onDisk <= old(onDisk) + {Super(head, tail, sequence)}
      ensures st == Ok || (st == Io && Disk in failing)
      ensures Reads(slots, tail, head, log)
      ensures old(Recoverable()) ==> Recoverable()
    {
      WindowIsLog(slots, tail, head, log);
      assert Intactly(Super(head, tail, sequence));
      st := PersistSuperblock();
      assert Intactly(Super(head, tail, sequence));
    }

    /** Closes the transaction without a COMMIT; its entries stay behind unpublished. */
    method Abort() returns (st: Status)
      requires Valid()
      modifies this`inTx
      ensures Valid() && !inTx && st == Ok
      ensures old(Recoverable()) ==> Recoverable()
    {
      inTx := false;
      return Ok;
    }

    // ----- recovery

    /** Writes one allocation bit; false when the bitmap block cannot be read or written. */
    method SetBit(idx: nat, v: bool) returns (ok: bool)
      modifies this`home
      ensures home == if ok && idx >= layout.dataStart then old(home)[Bit(idx) := Flag(v)] else old(home)
      ensures !ok ==> Marking(idx) in failing
    {
      var f := Fails(failing, Marking(idx));
      ok := !f;
      if ok && idx >= layout.dataStart {
        home := home[Bit(idx) := Flag(v)];
      }
    }

    /** Writes `n` bits and goes on after a failing one. `want` is what `home` should be but
        for the bits in `missed`, and `missed'` adds the bits that fail here. */
    method SetBitRange(from: nat, n: nat, v: bool, ghost want: Home, ghost missed: set<Loc>)
      returns (ghost missed': set<Loc>)
      requires AgreeOutside(home, want, missed)
      modifies this`home
      ensures AgreeOutside(home, SetBits(layout, want, from, n, v), missed')
      ensures forall l :: l in missed' && l !in missed ==> InRange(l, from, n) && Marking(l.idx) in failing
      ensures forall l :: !InRange(l, from, n) ==> SameAt(home, old(home), l)
    {
      missed' := missed;
      for i := 0 to n
        invariant AgreeOutside(home, SetBits(layout, want, from, i, v), missed')
        invariant forall l :: l in missed' && l !in missed ==> InRange(l, from, n) && Marking(l.idx) in failing
        invariant forall l :: !InRange(l, from, n) ==> SameAt(home, old(home), l)
      {
        ghost var l := Bit(from + i);
        AgreeUpdate(home, SetBits(layout, want, from, i, v), missed', l, Flag(v));
        var ok := SetBit(from + i, v);
        missed' := if from + i < layout.dataStart then missed' else if ok then missed' - {l} else missed' + {l};
      }
    }

    /** `l` is one of the data area's bits `from .. from + n`. */
    ghost predicate InRange(l: Loc, from: nat, n: nat) {
      l.Bit? && layout.dataStart <= l.idx && from <= l.idx < from + n
    }

    /** A bit whose update may fail. */
    ghost predicate Skipped(l: Loc)
      reads this`failing
    {
      l.Bit? && Marking(l.idx) in failing
    }

    /** Applies one entry to its home location. The results of the bit updates are ignored,
        so a redo that returns Ok may have left bits out: those in `missed'`. */
    method RedoEntry(e: Entry, ghost want: Home, ghost missed: set<Loc>) returns (st: Status, ghost missed': set<Loc>)
      requires AgreeOutside(home, want, missed)
      modifies this`home
      ensures st == Ok ==> Redoable(layout, e) && AgreeOutside(home, Apply(layout, want, e), missed')
      ensures forall l :: l in missed' && l !in missed ==> Skipped(l) && Touches(layout, e, l)
      ensures !Redoable(layout, e) ==> st == Corrupt && home == old(home)
      ensures Redoable(layout, e) ==> st == Ok || (st == Io && Disk in failing)
      ensures forall l :: !Touches(layout, e, l) ==> SameAt(home, old(home), l)
    {
      missed' := missed;
      if e.op == JOP_WRITE {
        if e.len == 0 { return Ok, missed'; }
        var f := Fails(failing, Disk);
        if f { return Io, missed'; }
        home := home[Block(e.target) := Image(e.payload)];
      } else if e.op == JOP_ALLOC {
        missed' := SetBitRange(e.target, e.len, true, want, missed);
      } else if e.op == JOP_FREE {
        missed' := SetBitRange(e.target, e.len, false, want, missed);
      } else if e.op == JOP_COMMIT || e.op == JOP_CHECKPOINT {
      } else if e.op == JOP_MRT_UPDATE {
        if e.len != MRT_ENTRY_SIZE { return Corrupt, missed'; }
        if e.record >= layout.mrtCapacity { return Corrupt, missed'; }
        var f := Fails(failing, Disk);
        if f { return Io, missed'; }
        home := home[Mrt(e.record) := Image(e.payload)];
      } else {
        return Corrupt, missed';
      }
      return Ok, missed';
    }

    /** Finds the last committed sequence number in the window, whatever the window holds. */
    method FindLastCommit() returns (st: Status, found: bool, last: nat, ghost es: seq<Entry>)
      requires head < length && tail < length && |slots| == length
      ensures st == Ok ==> Reads(slots, tail, head, es)
      ensures st == Ok ==> found == HasCommit(es) && last == LastCommit(es)
      ensures st == Ok || (st == Io && Disk in failing) || st == Corrupt
      ensures st == Corrupt ==> exists s :: s in WindowOf(slots, tail, head) && s.Torn?
    {
      st, found, last, es := Ok, false, 0, [];
      var pos := tail;
      while pos != head
        invariant |es| <= WindowSize(length, tail, head) && pos == Ahead(length, tail, |es|)
        invariant forall j :: 0 <= j < |es| ==> slots[Ahead(length, tail, j)] == Intact(es[j])
        invariant st == Ok && found == HasCommit(es) && last == LastCommit(es)
        decreases WindowSize(length, tail, head) - |es|
      {
        var f := Fails(failing, Disk);
        if f { return Io, false, 0, es; }
        assert WindowOf(slots, tail, head)[|es|] == slots[pos];
        if slots[pos].Torn? { return Corrupt, false, 0, es; }
        var e := slots[pos].e;
        ghost var es' := es + [e];
        assert es'[..|es|] == es;
        HasCommitMore(es, e);
        if e.op == JOP_COMMIT && e.sequence >= last {
          last, found := e.sequence, true;
        }
        CommitNotBelow(es);
        es := es';
        pos := NextPos(pos);
      }
    }

    /** Redoes every entry of the window numbered up to `last`, in order. */
    method RedoUpto(last: nat, ghost es: seq<Entry>) returns (st: Status, ghost missed: set<Loc>)
      requires head < length && tail < length && |slots| == length
      requires Reads(slots, tail, head, es)
      modifies this`home
      ensures (st == Ok ==>
        AgreeOutside(home, ApplyAll(layout, old(home), Upto(es, last)), missed) && RedoableUpto(layout, es, last))
      ensures forall l :: l in missed ==> Skipped(l) && TouchedBy(layout, es, l)
      ensures forall l :: !TouchedBy(layout, es, l) ==> SameAt(home, old(home), l)
      ensures RedoableUpto(layout, es, last) ==> st == Ok || (st == Io && Disk in failing)
    {
      st, missed := Ok, {};
      var pos := tail;
      ghost var i := 0;
      assert |es| == WindowSize(length, tail, head);
      while pos != head
        invariant i <= |es| && pos == Ahead(length, tail, i) && st == Ok
        invariant AgreeOutside(home, ApplyAll(layout, old(home), Upto(es[..i], last)), missed)
        invariant RedoableUpto(layout, es[..i], last)
        invariant forall l :: l in missed ==> Skipped(l) && TouchedBy(layout, es, l)
        invariant forall l :: !TouchedBy(layout, es, l) ==> SameAt(home, old(home), l)
        decreases |es| - i
      {
        assert WindowOf(slots, tail, head)[i] == slots[pos];
        st, missed := RedoSlot(slots[pos], last, ApplyAll(layout, old(home), Upto(es[..i], last)), missed);
        if st != Ok { return; }
        UptoMore(layout, old(home), es, i, last);
        i := i + 1;
        pos := NextPos(pos);
      }
      assert es[..i] == es;
    }

    /** One slot of the second pass: entries numbered above `last` are passed over. */
    method RedoSlot(slot: Slot, last: nat, ghost want: Home, ghost missed: set<Loc>)
      returns (st: Status, ghost missed': set<Loc>)
      requires AgreeOutside(home, want, missed)
      modifies this`home
      ensures slot.Torn? ==> st != Ok && home == old(home)
      ensures (st == Ok && slot.e.sequence <= last ==>
        AgreeOutside(home, Apply(layout, want, slot.e), missed') && Redoable(layout, slot.e))
      ensures st == Ok && slot.e.sequence > last ==> home == old(home) && missed' == missed
      ensures (slot.Intact? && (slot.e.sequence <= last ==> Redoable(layout, slot.e)) ==>
        st == Ok || (st == Io && Disk in failing))
      ensures forall l :: l in missed' && l !in missed ==> Skipped(l) && slot.Intact? && Touches(layout, slot.e, l)
      ensures slot.Intact? ==> forall l :: !Touches(layout, slot.e, l) ==> SameAt(home, old(home), l)
    {
      missed' := missed;
      var f := Fails(failing, Disk);
      if f { return Io, missed'; }
      if slot.Torn? { return Corrupt, missed'; }
      if slot.e.sequence > last { return Ok, missed'; }
      st, missed' := RedoEntry(slot.e, want, missed);
    }

    /** Recovery at mount: redo the committed part of the window, start clean in memory and
        flush. `es` is the window that was found and `missed` the bits that failing bitmap
        updates left out. Block 0 still names the window afterwards. */
    method Replay() returns (st: Status, ghost es: seq<Entry>, ghost missed: set<Loc>)
      requires Mounted()
      modifies this`home, this`tail, this`nextSequence, this`log, this`onDisk, this`dirty
      ensures Mounted() && (st == Ok ==> Valid() && log == [] && tail == head && nextSequence == sequence)
      ensures st == Ok ==> Reads(slots, old(tail), head, es)
      ensures st == Ok ==> AgreeOutside(home, ApplyAll(layout, old(home), Selected(es)), missed)
      ensures st == Ok && missed == {} ==> home == ApplyAll(layout, old(home), Selected(es))
      ensures forall l :: l in missed ==> Skipped(l) && TouchedBy(layout, es, l)
      ensures (home == old(home) && missed == {}) || Reads(slots, old(tail), head, es)
      ensures forall l :: !TouchedBy(layout, es, l) ==> SameAt(home, old(home), l)
      ensures Sane(layout, WindowOf(slots, old(tail), head)) ==> st == Ok || (st == Io && Disk in failing)
      ensures st == Ok && failing == {} ==> home == ApplyAll(layout, old(home), Selected(es))
      ensures st == Ok && failing == {} && head != old(tail) ==> onDisk == {block0} && dirty == {}
      ensures onDisk == old(onDisk) || onDisk == {block0}
      ensures old(Recoverable()) ==> Recoverable()
    {
      st, es, missed := Ok, [], {};
      if head == tail {
        nextSequence := sequence;
        log := [];
        return;
      }
      var found, last;
      st, found, last, es := FindLastCommit();
      if st != Ok { es := []; return; }
      if found {
        st, missed := RedoUpto(last, es);
        if st != Ok { return; }
      }
      tail := head;
      nextSequence := sequence;
      log := [];
      var _ := Flush();
      if missed == {} { AgreeEverywhere(home, ApplyAll(layout, old(home), Selected(es))); }
    }
  }

  /** A crash of `j` that finds `sb` in block 0, `found` in the journal blocks and `disk` in
      the home locations, then the next mount and its recovery. The window `w` that `sb`
      names belongs to a transaction that started from `before`, and some of its home
      writes may have reached the disk. Recovery ends in the state after the transaction;
      if it fails or the machine crashes again, it can be run again from what it left. */
  method CrashAndRecover(j: Journal, sb: Super, found: seq<Slot>, disk: Home, failing: set<Failure>,
                         ghost before: Home, ghost w: seq<Entry>)
    returns (k: Journal, st: Status, ghost missed: set<Loc>)
    requires j.Recoverable() && sb in j.onDisk && Reads(j.slots, sb.tail, sb.head, w)
    requires |found| == j.length && forall p :: 0 <= p < j.length && p !in j.dirty ==> found[p] == j.slots[p]
    requires forall l :: !TouchedBy(j.layout, w, l) ==> SameAt(disk, before, l)
    ensures fresh(k) && k.length == j.length && k.layout == j.layout && k.failing == failing
    ensures st == Ok ==> k.Valid() && k.log == [] && !k.inTx
    ensures (failing == {} && (forall i :: 0 <= i < |w| ==> Redoable(j.layout, w[i])) ==>
      st == Ok && k.home == ApplyAll(j.layout, before, w))
    ensures st == Ok && missed == {} ==> k.home == ApplyAll(j.layout, before, w)
    ensures st == Ok ==> AgreeOutside(k.home, ApplyAll(j.layout, before, w), missed)
    ensures forall l :: l in missed ==> k.Skipped(l) && TouchedBy(j.layout, w, l)
    ensures (forall i :: 0 <= i < |w| ==> Redoable(j.layout, w[i])) ==> st == Ok || (st == Io && Disk in failing)
    ensures k.Recoverable() && k.onDisk == {sb} && Reads(k.slots, sb.tail, sb.head, w)
    ensures forall l :: !TouchedBy(j.layout, w, l) ==> SameAt(k.home, before, l)
    ensures k.head == sb.head && k.slots == found && k.Spares(k.head)
  {
    assert j.Intactly(sb);
    if sb.head != sb.tail { RoomLeft(j.length, sb.tail, sb.head, 0); }
    k := Crash(j, sb, found, disk, failing, w);
    st, missed := Recover(k, before, w);
  }

  /** Recovery of a mount that found the whole of a published window. */
  method Recover(k: Journal, ghost before: Home, ghost w: seq<Entry>) returns (st: Status, ghost missed: set<Loc>)
    requires k.Mounted() && k.Recoverable() && Reads(k.slots, k.tail, k.head, w) && GoodWindow(w)
    requires forall l :: !TouchedBy(k.layout, w, l) ==> SameAt(k.home, before, l)
    modifies k`home, k`tail, k`nextSequence, k`log, k`onDisk, k`dirty
    ensures k.Mounted() && k.Recoverable() && (st == Ok ==> k.Valid() && k.log == [])
    ensures st == Ok ==> AgreeOutside(k.home, ApplyAll(k.layout, before, w), missed)
    ensures st == Ok && missed == {} ==> k.home == ApplyAll(k.layout, before, w)
    ensures forall l :: l in missed ==> k.Skipped(l) && TouchedBy(k.layout, w, l)
    ensures (forall i :: 0 <= i < |w| ==> Redoable(k.layout, w[i])) ==> st == Ok || (st == Io && Disk in k.failing)
    ensures forall l :: !TouchedBy(k.layout, w, l) ==> SameAt(k.home, before, l)
    ensures k.onDisk == old(k.onDisk) || k.onDisk == {k.block0}
  {
    SaneWindow(k.layout, k.slots, k.tail, k.head, w);
    PublishedWindowRedone(k.layout, before, k.home, w);
    ghost var es;
    ghost var tail := k.tail;
    st, es, missed := k.Replay();
    if es != w { ReadOnce(k.slots, tail, k.head, es, w); }
  }

  /** The mount after the crash, before its recovery. */
  method Crash(j: Journal, sb: Super, found: seq<Slot>, disk: Home, failing: set<Failure>, ghost w: seq<Entry>)
    returns (k: Journal)
    requires j.Recoverable() && sb in j.onDisk && Reads(j.slots, sb.tail, sb.head, w)
    requires |found| == j.length && forall p :: 0 <= p < j.length && p !in j.dirty ==> found[p] == j.slots[p]
    ensures fresh(k) && k.length == j.length && k.layout == j.layout && k.failing == failing
    ensures k.Mounted() && k.Recoverable() && k.onDisk == {sb} && k.block0 == sb && !k.inTx
    ensures k.home == disk && k.slots == found && k.head == sb.head && k.tail == sb.tail
    ensures Reads(found, sb.tail, sb.head, w) && GoodWindow(w)
  {
    FoundWindow(j, sb, found, w);
    k := new Journal.Mount(j.length, j.layout, sb, found, disk, failing);
  }

  lemma SaneWindow(lay: Layout, slots: seq<Slot>, tail: nat, head: nat, w: seq<Entry>)
    requires Reads(slots, tail, head, w)
    ensures (forall i :: 0 <= i < |w| ==> Redoable(lay, w[i])) ==> Sane(lay, WindowOf(slots, tail, head))
  {
  }

  lemma ReadOnce(slots: seq<Slot>, tail: nat, head: nat, es: seq<Entry>, w: seq<Entry>)
    requires Reads(slots, tail, head, w) && es != w
    ensures !Reads(slots, tail, head, es)
  {
    if Reads(slots, tail, head, es) { AllIntactOnce(es, w); }
  }

  /** The window that a crash finds is the one in the cache, and it is a good one. */
  lemma FoundWindow(j: Journal, sb: Super, found: seq<Slot>, w: seq<Entry>)
    requires j.Intactly(sb) && Reads(j.slots, sb.tail, sb.head, w)
    requires |found| == j.length && forall p :: 0 <= p < j.length && p !in j.dirty ==> found[p] == j.slots[p]
    ensures Reads(found, sb.tail, sb.head, w) && GoodWindow(w)
    ensures j.IntactIn(found, {}, sb)
  {
    if sb.head != sb.tail {
      WindowKept(j.slots, found, sb.tail, sb.head);
      var es :| Reads(j.slots, sb.tail, sb.head, es) && CommittedTx(es);
      AllIntactOnce(es, w);
    } else {
      assert |AllIntact(w)| == 0;
    }
  }

  /** `n` appends at the head leave every window that ends there whole. */
  ghost predicate LeaveWhole(disk: set<Super>, length: nat, n: nat) {
    forall sb :: sb in disk && sb.head < length && sb.tail < length && sb.head != sb.tail ==>
      n <= length - WindowSize(length, sb.tail, sb.head)
  }

  /** A transaction that logs one write after another while the windows that a crash might
      find end at the head, as they do after a recovery and after a commit whose second
      publication failed: they stay recoverable for exactly as many appends as there are
      slots outside them. */
  method LogWrites(j: Journal, blocks: seq<nat>, images: seq<Bytes>) returns (done: nat)
    requires j.Valid() && j.inTx && j.Recoverable() && j.EndsAtHead() && |blocks| == |images|
    modifies j`slots, j`head, j`nextSequence, j`log, j`dirty
    ensures j.Valid() && done <= |blocks| && |j.log| == |old(j.log)| + done
    ensures j.Recoverable() <==> LeaveWhole(j.onDisk, j.length, done)
    ensures (done < |blocks| ==>
      |images[done]| > MAX_PAYLOAD || |j.log| == j.length - 1 || Memory in j.failing || Disk in j.failing)
  {
    done := 0;
    ghost var from, disk := j.head, j.onDisk;
    LeaveNone(j);
    while done < |blocks|
      invariant j.Valid() && j.inTx && done <= |blocks| && |j.log| == |old(j.log)| + done && j.onDisk == disk
      invariant done < j.length && j.head == Ahead(j.length, from, done)
      invariant LeaveWhole(disk, j.length, done) ==> j.Recoverable()
      invariant (forall sb :: sb in disk && sb.head != sb.tail ==>
        (done > j.length - WindowSize(j.length, sb.tail, sb.head) ==> sb.tail in j.dirty))
    {
      LeaveMore(j, disk, from, done);
      var st := j.LogWrite(blocks[done], images[done]);
      if st != Ok { break; }
      done := done + 1;
    }
    if !LeaveWhole(disk, j.length, done) {
      var sb :| sb in disk && sb.head != sb.tail && done > j.length - WindowSize(j.length, sb.tail, sb.head);
      j.Clobbered(j.slots, j.dirty, disk, sb);
    }
  }

  lemma LeaveNone(j: Journal)
    requires j.Recoverable() && j.EndsAtHead()
    ensures LeaveWhole(j.onDisk, j.length, 0)
    ensures forall sb :: sb in j.onDisk ==>
      sb.tail < j.length && sb.head < j.length && (sb.head != sb.tail ==> sb.head == j.head)
  {
    forall sb | sb in j.onDisk ensures j.Intactly(sb) { }
  }

  /** One append more leaves the windows whole exactly if they spare the next slot, and the
      first one too many hits the start of a window. */
  lemma LeaveMore(j: Journal, disk: set<Super>, from: nat, n: nat)
    requires from < j.length && n < j.length
    requires forall sb :: sb in disk ==>
      sb.tail < j.length && sb.head < j.length && (sb.head != sb.tail ==> sb.head == from)
    ensures LeaveWhole(disk, j.length, n + 1) <==> j.SparedBy(disk, Ahead(j.length, from, n))
    ensures forall sb :: sb in disk && sb.head != sb.tail && n == j.length - WindowSize(j.length, sb.tail, sb.head) ==>
      Ahead(j.length, from, n) == sb.tail
  {
    forall sb | sb in disk && sb.head != sb.tail
      ensures InWindow(j.length, sb.tail, sb.head, Ahead(j.length, from, n))
           <==> n >= j.length - WindowSize(j.length, sb.tail, sb.head)
    {
      RoomLeft(j.length, sb.tail, sb.head, n);
    }
  }

  /** A commit, a new transaction and its writes. If only the second publication of the
      commit fails, the committed window is still the one that block 0 names, and the writes
      of the new transaction overwrite it exactly when they do not fit beside it. */
  method CommitThenLog(j: Journal, blocks: seq<nat>, images: seq<Bytes>)
    returns (committed: Status, st: Status, done: nat)
    requires j.Valid() && j.inTx && j.Settled() && |blocks| == |images|
    modifies j`slots, j`head, j`tail, j`sequence, j`nextSequence, j`inTx, j`block0
    modifies j`log, j`history, j`onDisk, j`dirty
    ensures j.Valid() && done <= |blocks|
    ensures committed == Ok ==> j.Recoverable()
    ensures st == Ok ==> (j.Recoverable() <==> LeaveWhole(j.onDisk, j.length, done))
    ensures st != Ok ==> done == 0
    ensures j.failing == {} && |old(j.log)| < j.length - 1 ==> committed == st == Ok
    ensures (st == Ok && done < |blocks| ==>
      |images[done]| > MAX_PAYLOAD || |j.log| == j.length - 1 || Memory in j.failing || Disk in j.failing)
  {
    done := 0;
    committed := j.Commit();
    st := j.StartTransaction();
    if st != Ok { return; }
    done := LogWrites(j, blocks, images);
  }
}
