/** Redo of journal entries over the filesystem's home locations: node and record
    blocks, allocation bits and record-table entries. */
module Redo {

  type Bytes = seq<bv8>

  const BLOCK_SIZE := 4096
  const ENTRY_HEADER := 64
  const MRT_ENTRY_SIZE := 16

  const JOP_WRITE := 1
  const JOP_ALLOC := 2
  const JOP_FREE := 3
  const JOP_COMMIT := 4
  const JOP_MRT_UPDATE := 5
  const JOP_CHECKPOINT := 6

  /** A journal entry as it stands in its slot. For ALLOC and FREE `len` is a block
      count and there is no payload. */
  datatype Entry = Entry(sequence: nat, op: nat, target: nat, len: nat, record: nat, payload: Bytes)

  /** A location that redo can write. */
  datatype Loc = Block(b: nat) | Bit(idx: nat) | Mrt(id: nat)

  datatype Val = Image(bytes: Bytes) | Flag(set_: bool)

  type Home = map<Loc, Val>

  /** The fixed layout facts redo consults. */
  datatype Layout = Layout(dataStart: nat, mrtCapacity: nat)

  /** Redo succeeds on this entry (absent I/O failure). */
  ghost predicate Redoable(lay: Layout, e: Entry) {
    if e.op == JOP_MRT_UPDATE then e.len == MRT_ENTRY_SIZE && e.record < lay.mrtCapacity
    else e.op in {JOP_WRITE, JOP_ALLOC, JOP_FREE, JOP_COMMIT, JOP_CHECKPOINT}
  }

  /** Entry `e` assigns location `l`. */
  ghost predicate Touches(lay: Layout, e: Entry, l: Loc) {
    match l
    case Block(b) => e.op == JOP_WRITE && e.len != 0 && b == e.target
    case Bit(i) => (e.op == JOP_ALLOC || e.op == JOP_FREE) && lay.dataStart <= i && e.target <= i < e.target + e.len
    case Mrt(id) => e.op == JOP_MRT_UPDATE && id == e.record
  }

  /** The value that `e` gives to the locations it touches. */
  ghost function Assigned(e: Entry): Val {
    if e.op == JOP_ALLOC then Flag(true)
    else if e.op == JOP_FREE then Flag(false)
    else Image(e.payload)
  }

  /** The bits `from .. from + n` that lie in the data area, all given value `v`. */
  ghost function SetBits(lay: Layout, h: Home, from: nat, n: nat, v: bool): Home {
    if n == 0 then h
    else
      var h' := SetBits(lay, h, from, n - 1, v);
      if from + n - 1 < lay.dataStart then h' else h'[Bit(from + n - 1) := Flag(v)]
  }

  /** The effect of redoing one entry. */
  ghost function Apply(lay: Layout, h: Home, e: Entry): Home {
    if e.op == JOP_WRITE && e.len != 0 then h[Block(e.target) := Image(e.payload)]
    else if e.op == JOP_ALLOC then SetBits(lay, h, e.target, e.len, true)
    else if e.op == JOP_FREE then SetBits(lay, h, e.target, e.len, false)
    else if e.op == JOP_MRT_UPDATE then h[Mrt(e.record) := Image(e.payload)]
    else h
  }

  ghost function ApplyAll(lay: Layout, h: Home, es: seq<Entry>): Home {
    if es == [] then h else Apply(lay, ApplyAll(lay, h, es[..|es| - 1]), es[|es| - 1])
  }

  ghost predicate TouchedBy(lay: Layout, es: seq<Entry>, l: Loc) {
    exists i :: 0 <= i < |es| && Touches(lay, es[i], l)
  }

  ghost predicate SameAt(h: Home, g: Home, l: Loc) {
    (l in h <==> l in g) && (l in h ==> h[l] == g[l])
  }

  /** The states agree at every location but those in `missed`. */
  ghost predicate AgreeOutside(h: Home, g: Home, missed: set<Loc>) {
    forall l :: l !in missed ==> SameAt(h, g, l)
  }

  lemma {:induction false} SetBitsAt(lay: Layout, h: Home, from: nat, n: nat, v: bool, l: Loc)
    ensures var g := SetBits(lay, h, from, n, v);
      if l.Bit? && lay.dataStart <= l.idx && from <= l.idx < from + n then l in g && g[l] == Flag(v)
      else SameAt(g, h, l)
  {
    if n > 0 { SetBitsAt(lay, h, from, n - 1, v, l); }
  }

  /** One entry assigns exactly the locations it touches. */
  lemma {:induction false} ApplyAt(lay: Layout, h: Home, e: Entry, l: Loc)
    ensures Touches(lay, e, l) ==> l in Apply(lay, h, e) && Apply(lay, h, e)[l] == Assigned(e)
    ensures !Touches(lay, e, l) ==> SameAt(Apply(lay, h, e), h, l)
  {
    if e.op == JOP_ALLOC { SetBitsAt(lay, h, e.target, e.len, true, l); }
    if e.op == JOP_FREE { SetBitsAt(lay, h, e.target, e.len, false, l); }
  }

  /** What a redo leaves at a location, said without redoing: the value of the last entry
      that touches it, or the old value when none does. */
  ghost predicate LastWriter(lay: Layout, h: Home, es: seq<Entry>, g: Home, l: Loc) {
    if TouchedBy(lay, es, l)
    then exists i :: 0 <= i < |es| && Touches(lay, es[i], l)
           && (forall j :: i < j < |es| ==> !Touches(lay, es[j], l)) && l in g && g[l] == Assigned(es[i])
    else SameAt(g, h, l)
  }

  lemma {:induction false} RedoIsLastWriter(lay: Layout, h: Home, es: seq<Entry>, l: Loc)
    ensures LastWriter(lay, h, es, ApplyAll(lay, h, es), l)
  {
    if es != [] {
      var n := |es| - 1;
      var pre, g := es[..n], ApplyAll(lay, h, es[..n]);
      RedoIsLastWriter(lay, h, pre, l);
      ApplyAt(lay, g, es[n], l);
      if Touches(lay, es[n], l) {
        assert TouchedBy(lay, es, l);
      } else if TouchedBy(lay, pre, l) {
        var i :| 0 <= i < |pre| && Touches(lay, pre[i], l)
          && (forall j :: i < j < |pre| ==> !Touches(lay, pre[j], l)) && g[l] == Assigned(pre[i]);
        assert Touches(lay, es[i], l);
        forall j | i < j < |es| ensures !Touches(lay, es[j], l) {
          if j < n { assert es[j] == pre[j]; }
        }
      } else {
        forall i | 0 <= i < |es| ensures !Touches(lay, es[i], l) {
          if i < n { assert es[i] == pre[i]; }
        }
      }
    }
  }

  /** Redo converges: two states that agree wherever nothing was logged become equal,
      whatever the logged locations held before. */
  lemma {:induction false} RedoConverges(lay: Layout, h: Home, g: Home, es: seq<Entry>)
    requires forall l :: !TouchedBy(lay, es, l) ==> SameAt(h, g, l)
    ensures ApplyAll(lay, h, es) == ApplyAll(lay, g, es)
  {
    var a, b := ApplyAll(lay, h, es), ApplyAll(lay, g, es);
    forall l ensures SameAt(a, b, l) {
      RedoIsLastWriter(lay, h, es, l);
      RedoIsLastWriter(lay, g, es, l);
      if TouchedBy(lay, es, l) {
        var i :| 0 <= i < |es| && Touches(lay, es[i], l)
          && (forall j :: i < j < |es| ==> !Touches(lay, es[j], l)) && a[l] == Assigned(es[i]);
        var k :| 0 <= k < |es| && Touches(lay, es[k], l)
          && (forall j :: k < j < |es| ==> !Touches(lay, es[j], l)) && b[l] == Assigned(es[k]);
        assert i == k;
      }
    }
    SameEverywhere(a, b);
  }

  lemma SameEverywhere(a: Home, b: Home)
    requires forall l :: SameAt(a, b, l)
    ensures a == b
  {
    forall l ensures l in a <==> l in b { assert SameAt(a, b, l); }
    forall l | l in a ensures a[l] == b[l] { assert SameAt(a, b, l); }
  }

  lemma AgreeEverywhere(h: Home, g: Home)
    requires AgreeOutside(h, g, {})
    ensures h == g
  {
    forall l ensures SameAt(h, g, l) { assert l !in {}; }
    SameEverywhere(h, g);
  }

  /** A write that succeeds makes up for an earlier miss, one that fails adds a miss. */
  lemma AgreeUpdate(h: Home, g: Home, missed: set<Loc>, l: Loc, v: Val)
    requires AgreeOutside(h, g, missed)
    ensures AgreeOutside(h[l := v], g[l := v], missed - {l}) && AgreeOutside(h, g[l := v], missed + {l})
    ensures AgreeOutside(h, g, missed - {l}) || l in missed
  {
    forall k | k !in missed - {l} ensures SameAt(h[l := v], g[l := v], k) { assert k == l || SameAt(h, g, k); }
    forall k | k !in missed + {l} ensures SameAt(h, g[l := v], k) { assert SameAt(h, g, k); }
    if l !in missed { assert missed - {l} == missed; }
  }

  /** A replay cut short by a crash after `k` entries, then run again from the start,
      ends where an uninterrupted replay ends. */
  lemma {:induction false} RedoAfterCrash(lay: Layout, h: Home, es: seq<Entry>, k: nat)
    requires k <= |es|
    ensures ApplyAll(lay, ApplyAll(lay, h, es[..k]), es) == ApplyAll(lay, h, es)
  {
    var g := ApplyAll(lay, h, es[..k]);
    forall l | !TouchedBy(lay, es, l) ensures SameAt(g, h, l) {
      RedoIsLastWriter(lay, h, es[..k], l);
      forall i | 0 <= i < |es[..k]| ensures !Touches(lay, es[..k][i], l) {
        assert !Touches(lay, es[i], l);
      }
    }
    RedoConverges(lay, g, h, es);
  }

  /** Some of a transaction's home writes reached the disk before the crash, in any mix
      and with any intermediate values: redo still ends in the same state. */
  lemma {:induction false} RedoFromPartialFlush(lay: Layout, before: Home, crashed: Home, es: seq<Entry>)
    requires forall l :: !TouchedBy(lay, es, l) ==> SameAt(crashed, before, l)
    ensures ApplyAll(lay, crashed, es) == ApplyAll(lay, before, es)
    ensures ApplyAll(lay, ApplyAll(lay, crashed, es), es) == ApplyAll(lay, before, es)
  {
    RedoConverges(lay, crashed, before, es);
    RedoAfterCrash(lay, crashed, es, |es|);
    assert es[..|es|] == es;
  }
}
