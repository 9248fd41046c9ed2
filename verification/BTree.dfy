/** The on-disk B+ tree of fs/smkfs/btree.c, updated block by block.

    Every directory is one tree; all trees share one store of blocks and one block
    allocator. `trees` is the ghost forest: the abstract tree behind each root. Any
    block read, block write, allocation or journal append may fail; results are promised
    for calls that return Ok or NotFound, and no other status means anything but such a
    fault. */
module BTreeStore {
  import opened SortedEntries
  import opened Callbacks
  import opened Faults
  import opened BTreeModel
  import opened BTreeSurgery
  import opened BTreeRepair
  import opened BTreeGrowth
  import opened BTreeLeaves
  import opened BTreeForest
  import opened KeyOrder

  datatype Status = Ok | Io | NoMem | NotFound | NoSpc | Inval | Corrupt | Journal | TooBig

  /** What a recursive insert hands to the parent: whether the node split and, if so,
      its new right neighbour and that neighbour's lowest key. */
  datatype Split = NoSplit | Split(right: nat, sep: nat)

  /** The statuses that stand for a failing step below, and that step. */
  predicate Fault(st: Status, failing: set<Failure>) {
    match st
    case Io => Disk in failing
    case NoMem => Memory in failing
    case NoSpc => Allocating in failing
    case Journal => Logging in failing
    case _ => false
  }

  /** Block `b` holds a node that passes the tests of a node read. */
  ghost predicate SaneAt(s: Store, b: nat) {
    b != 0 && b in s && |s[b].es| <= MAX_ENTRIES
  }

  ghost predicate SaneAll(s: Store, es: seq<Entry>) {
    forall i :: 0 <= i < |es| ==> SaneAt(s, es[i].val)
  }

  /** The node of `t` and those of its children pass the tests. */
  ghost predicate SaneNear(s: Store, t: Tree) {
    SaneAt(s, t.blk) && (t.Index? ==> SaneAll(s, Fences(t.kids)))
  }

  lemma {:induction false} SaneKids(s: Store, ks: seq<Tree>, h: nat, parent: nat, next: nat)
    requires ReprAll(s, ks, parent, next) && ShapeAll(ks, h) && forall b :: b in BlocksAll(ks) ==> b != 0
    ensures SaneAll(s, Fences(ks))
  {
    forall i | 0 <= i < |ks| ensures SaneAt(s, Fences(ks)[i].val) {
      ReprAt(s, ks, parent, next, i);
      KidBlocks(ks, i);
      RootBlock(ks[i]);
      assert Shape(ks[i], h, MIN_ENTRIES);
    }
  }

  lemma {:induction false} SaneTree(s: Store, t: Tree, h: nat, min: nat, parent: nat, next: nat, root: bool,
                                    used: set<nat>)
    requires Repr(s, t, parent, next, root) && Shape(t, h, min) && Owned(t, used)
    ensures SaneNear(s, t)
  {
    RootBlock(t);
    if t.Index? {
      KidsOwned(t.blk, t.kids, used);
      SaneKids(s, t.kids, h - 1, t.blk, next);
    }
  }

  /** Blocks that became lost left the allocated set, their release may fail, and no block was
      allocated. */
  ghost predicate Leaks(lost: set<nat>, lost': set<nat>, used: set<nat>, used': set<nat>, failing: set<Failure>) {
    && lost <= lost' && used' <= used
    && forall b :: b in lost' && b !in lost ==> b in used && b !in used' && Marking(b) in failing
  }

  /** First position whose key is not below `key`. */
  method LowerBound(es: seq<Entry>, key: nat) returns (pos: nat)
    ensures pos <= |es| && AllBelow(es[..pos], key)
    ensures pos < |es| ==> key <= es[pos].key
  {
    pos := 0;
    while pos < |es| && es[pos].key < key
      invariant pos <= |es| && AllBelow(es[..pos], key)
    {
      pos := pos + 1;
    }
  }

  /** The last child whose fence does not exceed `key`, child 0 if there is none. */
  method IndexChild(es: seq<Entry>, key: nat) returns (i: nat)
    requires es != []
    ensures i < |es|
    ensures i == 0 || es[i].key <= key
    ensures i + 1 < |es| ==> key < es[i + 1].key
    ensures forall j :: 1 <= j <= i ==> es[j].key <= key
  {
    i := 0;
    while i + 1 < |es| && es[i + 1].key <= key
      invariant i < |es|
      invariant forall j :: 1 <= j <= i ==> es[j].key <= key
    {
      i := i + 1;
    }
  }

  /** Calls back on the entries of one leaf, after those in `before`, until a call returns
      non-zero. */
  method VisitLeaf(es: seq<Entry>, before: seq<Entry>, cb: seq<Entry> -> int) returns (r: int, seen: seq<Entry>)
    requires AllZero(before, cb)
    ensures seen <= es
    ensures r == 0 ==> seen == es && AllZero(before + seen, cb)
    ensures r != 0 ==> StoppedAt(before + seen, cb, r)
  {
    r, seen := 0, [];
    assert before + [] == before;
    var i := 0;
    while i < |es|
      invariant i <= |es| && seen == es[..i] && AllZero(before + seen, cb)
    {
      Called(before + seen, es[i], cb);
      assert before + seen + [es[i]] == before + (seen + [es[i]]);
      seen := seen + [es[i]];
      r := cb(before + seen);
      if r != 0 { return; }
      i := i + 1;
    }
  }

  /** The split report names the new right neighbour and its lowest key. */
  ghost predicate SplitNames(split: Split, ts: seq<Tree>) {
    if |ts| == 2 then split == Split(ts[1].blk, Low(ts[1])) else split == NoSplit
  }

  class BTree {
    var store: Store
    var used: set<nat>

    /** Blocks that no tree uses but whose release failed: marked in the bitmap for good. */
    var lost: set<nat>

    /** The steps that may fail. */
    var failing: set<Failure>
    ghost var trees: map<nat, Tree>

    /** The invariant of the whole store: every directory is a well-formed tree. */
    ghost predicate Valid()
      reads this
    {
      Forest(store, used, trees)
    }

    /** The directory behind a root: name ranks to record ids. Root 0 is the empty tree. */
    ghost function Contents(root: nat): map<nat, nat>
      requires root == 0 || root in trees
      reads this
    {
      if root == 0 then map[] else ToMap(Flat(trees[root]))
    }

    /** The blocks of the tree at `root`. */
    ghost function BlocksAt(root: nat): multiset<nat>
      requires root == 0 || root in trees
      reads this
    {
      if root in trees then Blocks(trees[root]) else multiset{}
    }

    constructor ()
      ensures Valid() && store == map[] && used == {} && lost == {} && trees == map[]
    {
      store, used, lost, failing, trees := map[], {}, {}, {}, map[];
    }

    // ----- block access

    /** Reads a node block and checks that it is a sane node. */
    method Load(block: nat) returns (st: Status, node: Node)
      ensures st != NotFound
      ensures block == 0 ==> st == Inval
      ensures SaneAt(store, block) ==> st == Ok || Fault(st, failing)
      ensures st == Ok ==> block != 0 && block in store && node == store[block] && |node.es| <= MAX_ENTRIES
    {
      node := Node(true, false, 0, 0, []);
      if block == 0 { return Inval, node; }
      var f := Fails(failing, Memory);
      if f { return NoMem, node; }
      f := Fails(failing, Disk);
      if f { return Io, node; }
      if block !in store || |store[block].es| > MAX_ENTRIES { return Corrupt, node; }
      return Ok, store[block];
    }

    /** Journals and writes a node block. */
    method Write(block: nat, node: Node) returns (st: Status)
      modifies this`store
      ensures st != NotFound
      ensures block != 0 ==> st == Ok || Fault(st, failing)
      ensures st == Ok ==> block != 0 && store == old(store)[block := node]
      ensures st != Ok ==> store == old(store)
    {
      if block == 0 { return Inval; }
      var f := Fails(failing, Memory);
      if f { return NoMem; }
      f := Fails(failing, Logging);
      if f { return Journal; }
      f := Fails(failing, Disk);
      if f { return Io; }
      store := store[block := node];
      return Ok;
    }

    method SetParent(block: nat, parent: nat) returns (st: Status)
      modifies this`store
      ensures st != NotFound
      ensures old(SaneAt(store, block)) ==> st == Ok || Fault(st, failing)
      ensures st == Ok ==> block in old(store) && store == old(store)[block := old(store)[block].(parent := parent)]
      ensures st != Ok ==> store == old(store)
    {
      var node;
      st, node := Load(block);
      if st == Ok {
        st := Write(block, node.(parent := parent));
      }
    }

    /** Points the children named by `es` at `parent`, one after the other. */
    method SetParents(es: seq<Entry>, parent: nat) returns (st: Status)
      modifies this`store
      ensures st != NotFound
      ensures old(SaneAll(store, es)) ==> st == Ok || Fault(st, failing)
      ensures st == Ok ==> store == Reparented(old(store), es, parent)
    {
      var i := 0;
      st := Ok;
      while i < |es|
        invariant i <= |es| && st == Ok && (old(SaneAll(store, es)) ==> SaneAll(store, es))
        invariant Reparented(store, es[i..], parent) == Reparented(old(store), es, parent)
      {
        st := SetParent(es[i].val, parent);
        if st != Ok { return; }
        assert es[i..][1..] == es[i + 1..];
        i := i + 1;
      }
    }

    /** Frees one block of a node that left the tree. The callers do not look at the result;
        when the bitmap cannot be updated the block is lost. */
    method Free(block: nat)
      modifies this`used, this`lost
      ensures used == old(used) - {block} && Leaks(old(lost), lost, old(used), used, failing)
    {
      if block in used {
        var f := Fails(failing, Marking(block));
        if f { lost := lost + {block}; }
      }
      used := used - {block};
    }

    // ----- underflow repair

    method BorrowLeft(lb: nat, ln: Node, cb: nat, cn: Node, ghost l: Tree, ghost r: Tree, ghost parent: nat,
                      ghost next: nat)
      returns (st: Status, low: nat)
      requires Pair(store, l, r, parent, next) && Width(l) > 0 && Width(r) > 0
      requires lb == l.blk && cb == r.blk && ln == store[lb] && cn == store[cb]
      modifies this`store
      ensures st != NotFound
      ensures old(SaneNear(store, l) && SaneNear(store, r)) ==> st == Ok || Fault(st, failing)
      ensures st == Ok ==> var p := MoveRight(l, r);
        && Repr(store, p.0, parent, FirstLeaf(p.1), false) && Repr(store, p.1, parent, next, false)
        && OnlyIn(old(store), store, Support(Blocks(l) + Blocks(r))) && low == Low(p.1)
    {
      PairFacts(store, l, r, parent, next);
      BorrowLeftRepr(store, l, r, parent, next);
      var n := |ln.es| - 1;
      var c := cn.(es := [ln.es[n]] + cn.es);
      var s := ln.(es := ln.es[..n]);
      low := c.es[0].key;
      if !cn.leaf {
        st := SetParent(c.es[0].val, cb);
        if st != Ok { return; }
      }
      st := Write(lb, s);
      if st == Ok { st := Write(cb, c); }
      assert st == Ok ==> store == BorrowedLeft(old(store), l, r);
    }

    method BorrowRight(cb: nat, cn: Node, rb: nat, rn: Node, ghost l: Tree, ghost r: Tree, ghost parent: nat,
                       ghost next: nat)
      returns (st: Status, low: nat)
      requires Pair(store, l, r, parent, next) && Width(l) > 0 && Width(r) > 1
      requires cb == l.blk && rb == r.blk && cn == store[cb] && rn == store[rb]
      modifies this`store
      ensures st != NotFound
      ensures old(SaneNear(store, l) && SaneNear(store, r)) ==> st == Ok || Fault(st, failing)
      ensures st == Ok ==> var p := MoveLeft(l, r);
        && Repr(store, p.0, parent, FirstLeaf(p.1), false) && Repr(store, p.1, parent, next, false)
        && OnlyIn(old(store), store, Support(Blocks(l) + Blocks(r))) && low == Low(p.1)
    {
      PairFacts(store, l, r, parent, next);
      BorrowRightRepr(store, l, r, parent, next);
      var c := cn.(es := cn.es + [rn.es[0]]);
      var s := rn.(es := rn.es[1..]);
      low := s.es[0].key;
      if !cn.leaf {
        st := SetParent(c.es[|c.es| - 1].val, cb);
        if st != Ok { return; }
      }
      st := Write(cb, c);
      if st == Ok { st := Write(rb, s); }
      assert st == Ok ==> store == BorrowedRight(old(store), l, r);
    }

    /** Appends the right node's entries to the left node and frees the right block. */
    method MergeNodes(lb: nat, ln: Node, rb: nat, rn: Node, ghost l: Tree, ghost r: Tree, ghost parent: nat,
                      ghost next: nat)
      returns (st: Status)
      requires Pair(store, l, r, parent, next) && Width(l) > 0 && Width(r) > 0
      requires lb == l.blk && rb == r.blk && ln == store[lb] && rn == store[rb]
      modifies this`store, this`used, this`lost
      ensures Leaks(old(lost), lost, old(used), used, failing)
      ensures st != NotFound
      ensures old(SaneNear(store, l) && SaneNear(store, r)) ==> st == Ok || Fault(st, failing)
      ensures st == Ok ==> used == old(used) - {rb}
      ensures st == Ok ==> Repr(store, Merge(l, r), parent, next, false)
      ensures st == Ok ==> OnlyIn(old(store), store, Support(Blocks(l) + Blocks(r)))
    {
      PairFacts(store, l, r, parent, next);
      MergeRepr(store, l, r, parent, next);
      var n := ln.(es := ln.es + rn.es);
      if !ln.leaf {
        st := SetParents(rn.es, lb);
        if st != Ok { return; }
      } else {
        n := n.(right := rn.right);
      }
      Free(rb);
      st := Write(lb, n);
      assert st == Ok ==> store == Merged(old(store), l, r);
    }

    /** Brings child `c` of the parent image `pn` back to the minimum: borrow from the
        left, else from the right, else merge into the left, else absorb the right. */
    method FixUnderflow(pn: Node, c: nat, ghost ks: seq<Tree>, ghost h: nat, ghost pb: nat, ghost next: nat,
                        ghost stale: Entry)
      returns (st: Status, pn': Node, ghost ks': seq<Tree>)
      requires OneShort(ks, h, c) && FencesBut(pn.es, ks, c, stale)
      requires ReprAll(store, ks, pb, next) && OwnedAll(ks, used)
      modifies this`store, this`used, this`lost
      ensures Leaks(old(lost), lost, old(used), used, failing)
      ensures st != NotFound
      ensures |ks| > 1 ==> st == Ok || Fault(st, failing)
      ensures st == Ok ==> pn' == pn.(es := pn'.es) && FencesBut(pn'.es, ks', c, stale)
      ensures st == Ok ==> Fixed(old(store), store, ks, ks', h, pb, next)
      ensures st == Ok ==> Released(old(used), used, BlocksAll(ks), BlocksAll(ks'))
      ensures st == Ok ==> |ks| - 1 <= |ks'| <= |ks|
    {
      pn', ks' := pn, ks;
      var left := c > 0;
      var right := c + 1 < |pn.es|;
      if !left && !right { return Corrupt, pn, ks; }
      SaneChild(ks, c, h, pb, next);
      if left { SaneChild(ks, c - 1, h, pb, next); }
      if right { SaneChild(ks, c + 1, h, pb, next); }
      var cb := pn.es[c].val;
      var cn, ln, rn;
      st, cn := Load(cb);
      if st != Ok { return; }
      NodeAt(store, ks, c, pb, next);
      if left {
        st, ln := Load(pn.es[c - 1].val);
        if st != Ok { return; }
        if |ln.es| > MIN_ENTRIES {
          st, pn', ks' := FixByLeft(pn, c, cn, ln, ks, h, pb, next, stale);
          return;
        }
      }
      if right {
        st, rn := Load(pn.es[c + 1].val);
        if st != Ok { return; }
        if |rn.es| > MIN_ENTRIES {
          st, pn', ks' := FixByRight(pn, c, cn, rn, ks, h, pb, next, stale);
          return;
        }
      }
      if left {
        st, ln := Load(pn.es[c - 1].val);
        if st != Ok { return; }
        st, pn', ks' := FixByMerge(pn, c, c - 1, ln, cn, ks, h, pb, next, stale);
        return;
      }
      st, rn := Load(pn.es[c + 1].val);
      if st != Ok { return; }
      st, pn', ks' := FixByMerge(pn, c, c, cn, rn, ks, h, pb, next, stale);
    }

    lemma SaneChild(ks: seq<Tree>, i: nat, h: nat, parent: nat, next: nat)
      requires i < |ks| && Shape(ks[i], h, MIN_ENTRIES - 1) && ReprAll(store, ks, parent, next) && OwnedAll(ks, used)
      ensures SaneNear(store, ks[i])
    {
      ReprAt(store, ks, parent, next, i);
      KidOwned(ks, i, used);
      SaneTree(store, ks[i], h, MIN_ENTRIES - 1, parent, HeadLeaf(ks[i + 1..], next), false, used);
    }

    method FixByLeft(pn: Node, c: nat, cn: Node, ln: Node,
                     ghost ks: seq<Tree>, ghost h: nat, ghost pb: nat, ghost next: nat, ghost stale: Entry)
      returns (st: Status, pn': Node, ghost ks': seq<Tree>)
      requires OneShort(ks, h, c) && FencesBut(pn.es, ks, c, stale) && c > 0
      requires ReprAll(store, ks, pb, next) && OwnedAll(ks, used)
      requires ks[c].blk in store && cn == store[ks[c].blk]
      requires ks[c - 1].blk in store && ln == store[ks[c - 1].blk] && |ln.es| > MIN_ENTRIES
      modifies this`store
      ensures st != NotFound
      ensures st == Ok || Fault(st, failing)
      ensures st == Ok ==> pn' == pn.(es := pn'.es) && FencesBut(pn'.es, ks', c, stale)
      ensures st == Ok ==> Fixed(old(store), store, ks, ks', h, pb, next)
      ensures st == Ok ==> BlocksAll(ks') == BlocksAll(ks) && |ks'| == |ks|
    {
      ghost var l, r := ks[c - 1], ks[c];
      ghost var nx := HeadLeaf(ks[c + 1..], next);
      PairAt(store, ks, c - 1, h, pb, next);
      PairFacts(store, l, r, pb, nx);
      SaneChild(ks, c - 1, h, pb, next);
      SaneChild(ks, c, h, pb, next);
      ghost var p := MoveRight(l, r);
      ks' := ks[..c - 1] + [p.0, p.1] + ks[c + 1..];
      var low;
      st, low := BorrowLeft(pn.es[c - 1].val, ln, pn.es[c].val, cn, l, r, pb, nx);
      pn' := pn.(es := pn.es[c := Entry(low, pn.es[c].val)]);
      if st == Ok {
        MoveRightKeeps(l, r);
        MoveRightShape(l, r, h);
        BorrowFixes(old(store), store, ks, c, c - 1, p.0, p.1, h, pb, next);
        FencesAfterBorrow(pn.es, ks, c, stale, c - 1, p.0, p.1);
      }
    }

    method FixByRight(pn: Node, c: nat, cn: Node, rn: Node,
                      ghost ks: seq<Tree>, ghost h: nat, ghost pb: nat, ghost next: nat, ghost stale: Entry)
      returns (st: Status, pn': Node, ghost ks': seq<Tree>)
      requires OneShort(ks, h, c) && FencesBut(pn.es, ks, c, stale) && c + 1 < |ks|
      requires ReprAll(store, ks, pb, next) && OwnedAll(ks, used)
      requires ks[c].blk in store && cn == store[ks[c].blk]
      requires ks[c + 1].blk in store && rn == store[ks[c + 1].blk] && |rn.es| > MIN_ENTRIES
      modifies this`store
      ensures st != NotFound
      ensures st == Ok || Fault(st, failing)
      ensures st == Ok ==> pn' == pn.(es := pn'.es) && FencesBut(pn'.es, ks', c, stale)
      ensures st == Ok ==> Fixed(old(store), store, ks, ks', h, pb, next)
      ensures st == Ok ==> BlocksAll(ks') == BlocksAll(ks) && |ks'| == |ks|
    {
      ghost var l, r := ks[c], ks[c + 1];
      ghost var nx := HeadLeaf(ks[c + 2..], next);
      PairAt(store, ks, c, h, pb, next);
      PairFacts(store, l, r, pb, nx);
      SaneChild(ks, c, h, pb, next);
      SaneChild(ks, c + 1, h, pb, next);
      ghost var p := MoveLeft(l, r);
      ks' := ks[..c] + [p.0, p.1] + ks[c + 2..];
      var low;
      st, low := BorrowRight(pn.es[c].val, cn, pn.es[c + 1].val, rn, l, r, pb, nx);
      pn' := pn.(es := pn.es[c + 1 := Entry(low, pn.es[c + 1].val)]);
      if st == Ok {
        MoveLeftKeeps(l, r);
        MoveLeftShape(l, r, h);
        BorrowFixes(old(store), store, ks, c, c, p.0, p.1, h, pb, next);
        FencesAfterBorrow(pn.es, ks, c, stale, c, p.0, p.1);
      }
    }

    /** Merges children `i` and `i + 1`, one of which is child `c`, and drops the right
        one's fence from the parent image. */
    method FixByMerge(pn: Node, c: nat, i: nat, ln: Node, rn: Node,
                      ghost ks: seq<Tree>, ghost h: nat, ghost pb: nat, ghost next: nat, ghost stale: Entry)
      returns (st: Status, pn': Node, ghost ks': seq<Tree>)
      requires OneShort(ks, h, c) && FencesBut(pn.es, ks, c, stale) && i + 1 < |ks| && (i == c || i + 1 == c)
      requires ReprAll(store, ks, pb, next) && OwnedAll(ks, used)
      requires ks[i].blk in store && ln == store[ks[i].blk] && |ln.es| <= MIN_ENTRIES
      requires ks[i + 1].blk in store && rn == store[ks[i + 1].blk] && |rn.es| <= MIN_ENTRIES
      modifies this`store, this`used, this`lost
      ensures Leaks(old(lost), lost, old(used), used, failing)
      ensures st != NotFound
      ensures st == Ok || Fault(st, failing)
      ensures st == Ok ==> pn' == pn.(es := pn'.es) && FencesBut(pn'.es, ks', c, stale)
      ensures st == Ok ==> Fixed(old(store), store, ks, ks', h, pb, next)
      ensures st == Ok ==> Released(old(used), used, BlocksAll(ks), BlocksAll(ks')) && |ks'| == |ks| - 1
    {
      ghost var l, r := ks[i], ks[i + 1];
      ghost var nx := HeadLeaf(ks[i + 2..], next);
      PairAt(store, ks, i, h, pb, next);
      PairFacts(store, l, r, pb, nx);
      SaneChild(ks, i, h, pb, next);
      SaneChild(ks, i + 1, h, pb, next);
      ghost var m := Merge(l, r);
      ks' := ks[..i] + [m] + ks[i + 2..];
      st := MergeNodes(pn.es[i].val, ln, pn.es[i + 1].val, rn, l, r, pb, nx);
      pn' := pn.(es := pn.es[..i + 1] + pn.es[i + 2..]);
      if st == Ok {
        MergeKeeps(l, r);
        MergeShape(l, r, h);
        MergeFixes(old(store), store, ks, c, i, m, h, pb, next, old(used));
        FencesAfterMerge(pn.es, ks, c, stale, i, m);
      }
    }

    // ----- delete

    /** Re-reads child `c`'s lowest key into the parent image. */
    method RefreshFence(pn: Node, c: nat, ghost k: Tree, ghost h: nat, ghost min: nat, ghost parent: nat,
                        ghost next: nat)
      returns (st: Status, pn': Node)
      requires c < |pn.es| && pn.es[c].val == k.blk
      requires Repr(store, k, parent, next, false) && Shape(k, h, min) && min >= 1
      ensures st != NotFound
      ensures k.blk != 0 ==> st == Ok || Fault(st, failing)
      ensures st == Ok ==> pn' == pn.(es := pn.es[c := Fence(k)])
    {
      pn' := pn;
      var cn;
      st, cn := Load(pn.es[c].val);
      if st == Ok {
        if |cn.es| > 0 {
          pn' := pn.(es := pn.es[c := Entry(cn.es[0].key, pn.es[c].val)]);
        }
      }
    }

    method DeleteLeaf(block: nat, node: Node, key: nat, ghost t: Tree, ghost parent: nat, ghost next: nat,
                      ghost root: bool)
      returns (st: Status, count: nat, ghost t': Tree)
      requires t.Leaf? && t.blk == block && Repr(store, t, parent, next, root) && node == store[block]
      requires Sorted(t.es) && Owned(t, used)
      modifies this`store
      ensures st == Ok || st == NotFound || Fault(st, failing)
      ensures st == NotFound ==> store == old(store) && !HasKey(Flat(t), key)
      ensures st == Ok ==> HasKey(Flat(t), key) && t'.Leaf? && count == |t'.es| == |t.es| - 1
      ensures st == Ok ==> DeletedTo(old(store), store, used, used, t, t', key, parent, next, root)
    {
      t' := t;
      count := |node.es|;
      var pos := LowerBound(node.es, key);
      if pos >= |node.es| || node.es[pos].key != key {
        LowerBoundFinds(node.es, pos, key);
        return NotFound, count, t';
      }
      RemoveAt(node.es, key, pos);
      var n := node.(es := node.es[..pos] + node.es[pos + 1..]);
      count := |n.es|;
      st := Write(block, n);
      t' := Leaf(block, n.es);
    }

    /** Deletes `key` below `block` and says whether the node fell below the minimum. */
    method DeleteRec(block: nat, key: nat, isRoot: bool, ghost t: Tree, ghost h: nat, ghost parent: nat,
                     ghost next: nat, ghost flag: bool)
      returns (st: Status, underflow: bool, ghost t': Tree)
      requires t.blk == block && Repr(store, t, parent, next, flag)
      requires Shape(t, h, if isRoot then RootMin(h) else MIN_ENTRIES)
      requires Sorted(Flat(t)) && Owned(t, used)
      modifies this`store, this`used, this`lost
      ensures Leaks(old(lost), lost, old(used), used, failing)
      ensures st == Ok || st == NotFound || Fault(st, failing)
      ensures st == NotFound ==> store == old(store) && used == old(used) && !HasKey(Flat(t), key)
      ensures st == Ok ==> HasKey(Flat(t), key)
      ensures st == Ok ==> DeletedTo(old(store), store, old(used), used, t, t', key, parent, next, flag)
      ensures st == Ok ==> Shape(t', h, if isRoot then (if h == 0 then 0 else 1) else MIN_ENTRIES - 1)
      ensures st == Ok ==> (underflow <==> !isRoot && Width(t') < MIN_ENTRIES)
      decreases h, 1
    {
      underflow, t' := false, t;
      var node;
      st, node := Load(block);
      if st != Ok { return; }
      if node.leaf {
        var count;
        st, count, t' := DeleteLeaf(block, node, key, t, parent, next, flag);
        underflow := st == Ok && !isRoot && count < MIN_ENTRIES;
        return;
      }
      if |node.es| == 0 { return Corrupt, false, t'; }
      ghost var ks';
      st, node, ks' := DeleteIndex(block, node, key, t.kids, h, flag, parent, next);
      t' := Index(block, ks');
      underflow := st == Ok && !isRoot && |node.es| < MIN_ENTRIES;
    }

    method DeleteIndex(block: nat, node: Node, key: nat, ghost ks: seq<Tree>, ghost h: nat, ghost root: bool,
                       ghost parent: nat, ghost next: nat)
      returns (st: Status, node': Node, ghost ks': seq<Tree>)
      requires h > 0 && Repr(store, Index(block, ks), parent, next, root) && node == store[block]
      requires ShapeAll(ks, h - 1) && 2 <= |ks| <= MAX_ENTRIES && Sorted(FlatAll(ks)) && Owned(Index(block, ks), used)
      modifies this`store, this`used, this`lost
      ensures Leaks(old(lost), lost, old(used), used, failing)
      ensures st == Ok || st == NotFound || Fault(st, failing)
      ensures st == NotFound ==> store == old(store) && used == old(used) && !HasKey(FlatAll(ks), key)
      ensures st == Ok ==> HasKey(FlatAll(ks), key)
      ensures (st == Ok ==>
        DeletedTo(old(store), store, old(used), used, Index(block, ks), Index(block, ks'), key, parent, next, root))
      ensures st == Ok ==> ShapeAll(ks', h - 1) && |ks| - 1 <= |ks'| <= |ks| && |node'.es| == |ks'|
      decreases h, 0
    {
      node', ks' := node, ks;
      KidsOwned(block, ks, used);
      var c := IndexChild(node.es, key);
      var child := node.es[c].val;
      ghost var k, nx := ks[c], HeadLeaf(ks[c + 1..], next);
      Descend(store, used, ks, c, key, h - 1, block, next);
      var short;
      ghost var k';
      st, short, k' := DeleteRec(child, key, false, k, h - 1, block, nx, false);
      if st != Ok { return; }
      ghost var ks1 := ks[..c] + [k'] + ks[c + 1..];
      ghost var s1, u1 := store, used;
      DeleteReady(old(store), s1, old(used), u1, block, ks, ks1, c, k', key, h - 1, next);
      st, node', ks' := DeleteFinish(block, node, key, c, short, ks1, h - 1, next);
      if st == Ok {
        DeleteDone(old(store), s1, store, old(used), u1, used, block, ks, ks1, ks', key, parent, next, root);
      }
    }

    /** Re-reads child `c`'s fence if the deleted key is still standing there. */
    method RefreshIfStale(pn: Node, c: nat, child: nat, key: nat, ghost ks: seq<Tree>, ghost h: nat, ghost stale: Entry,
                          ghost parent: nat, ghost next: nat)
      returns (st: Status, pn': Node, refreshed: bool)
      requires FencesBut(pn.es, ks, c, stale) && (stale == Entry(key, child) || stale.val == 0)
      requires ReprAll(store, ks, parent, next) && OwnedAll(ks, used) && ShapeAll(ks, h)
      ensures st != NotFound
      ensures st == Ok || Fault(st, failing)
      ensures st == Ok ==> pn' == pn.(es := Fences(ks)) && (!refreshed ==> pn' == pn)
    {
      st, pn', refreshed := Ok, pn, false;
      if c < |ks| {
        ReprAt(store, ks, parent, next, c);
        RootBlock(ks[c]);
        KidBlocks(ks, c);
      }
      if c < |pn.es| && pn.es[c].val == child && key == pn.es[c].key {
        refreshed := true;
        st, pn' := RefreshFence(pn, c, ks[c], h, MIN_ENTRIES, parent, HeadLeaf(ks[c + 1..], next));
      }
      assert st == Ok ==> pn'.es == Fences(ks);
    }

    /** After the child's deletion: repair an underflow, refresh a stale fence, and store
        the node if either changed it. */
    method DeleteFinish(block: nat, node: Node, key: nat, c: nat, short: bool, ghost ks: seq<Tree>, ghost h: nat,
                        ghost next: nat)
      returns (st: Status, node': Node, ghost ks': seq<Tree>)
      requires ReprAll(store, ks, block, next) && OwnedAll(ks, used) && block !in BlocksAll(ks) && block != 0
      requires block in store && store[block] == node && !node.leaf
      requires if short then OneShort(ks, h, c) else c < |ks| && ShapeAll(ks, h)
      requires |node.es| == |ks| && node.es[c].val == ks[c].blk
      requires forall j :: 0 <= j < |ks| && (j != c || key != node.es[c].key) ==> node.es[j] == Fence(ks[j])
      modifies this`store, this`used, this`lost
      ensures Leaks(old(lost), lost, old(used), used, failing)
      ensures st != NotFound
      ensures (short ==> |ks| > 1) ==> st == Ok || Fault(st, failing)
      ensures st == Ok ==> block in store && store[block] == node.(es := Fences(ks')) && |node'.es| == |ks'|
      ensures st == Ok ==> ReprAll(store, ks', block, next) && HeadLeaf(ks', next) == HeadLeaf(ks, next)
      ensures st == Ok ==> FlatAll(ks') == FlatAll(ks) && ShapeAll(ks', h) && |ks| - 1 <= |ks'| <= |ks|
      ensures st == Ok ==> Released(old(used), used, BlocksAll(ks), BlocksAll(ks'))
      ensures st == Ok ==> OnlyIn(old(store), store, Support(BlocksAll(ks)) + {block})
    {
      st, node', ks' := Ok, node, ks;
      var child := node.es[c].val;
      ghost var stale := if key == node.es[c].key then node.es[c] else Entry(0, 0);
      if short {
        st, node', ks' := FixUnderflow(node, c, ks, h, block, next, stale);
        if st != Ok { return; }
        ReleasedOwned(old(used), used, BlocksAll(ks), ks');
      }
      assert FencesBut(node'.es, ks', c, stale);
      var refreshed;
      st, node', refreshed := RefreshIfStale(node', c, child, key, ks', h, stale, block, next);
      if st != Ok { return; }
      if short || refreshed {
        ghost var s1 := store;
        assert OnlyIn(old(store), s1, Support(BlocksAll(ks)));
        st := Write(block, node');
        if st != Ok { return; }
        KidsFrame(s1, store, ks', block, next, {block});
      }
    }

    // ----- insert

    /** Allocates a block, or returns 0 when none can be had. */
    method Alloc() returns (block: nat)
      modifies this`used
      ensures block == 0 ==> used == old(used) && Allocating in failing
      ensures block != 0 ==> block !in old(used) && block !in lost && used == old(used) + {block}
    {
      var f := Fails(failing, Allocating);
      if f { return 0; }
      block := FreshBlock();
      used := used + {block};
    }

    method FreshBlock() returns (block: nat)
      ensures block != 0 && block !in used && block !in lost
    {
      var rest := used + lost;
      block := 1;
      while rest != {}
        invariant block != 0 && rest <= used + lost
        invariant forall b :: b in used + lost && b !in rest ==> b < block
        decreases rest
      {
        var b :| b in rest;
        rest := rest - {b};
        if b >= block { block := b + 1; }
      }
    }

    method InsertLeaf(block: nat, node: Node, key: nat, value: nat, ghost t: Tree, ghost min: nat, ghost parent: nat,
                      ghost next: nat, ghost root: bool)
      returns (st: Status, split: Split, ghost ts: seq<Tree>)
      requires t.Leaf? && t.blk == block && Repr(store, t, parent, next, root) && node == store[block]
      requires Shape(t, 0, min) && min <= MIN_ENTRIES && Sorted(t.es) && Owned(t, used)
      modifies this`store, this`used
      ensures st == Ok || Fault(st, failing)
      ensures st == Ok ==> InsertedTo(old(store), store, old(used), used, t, ts, key, value, parent, next, root)
      ensures st == Ok ==> InsertedShape(ts, 0, min) && SplitNames(split, ts)
    {
      split, ts := NoSplit, [t];
      FlatOne(t);
      BlocksOne(t);
      var es := node.es;
      var pos := LowerBound(es, key);
      if pos < |es| && es[pos].key == key {
        PutOver(es, key, value, pos);
        st := Write(block, node.(es := es[pos := Entry(key, value)]));
        ts := [Leaf(block, es[pos := Entry(key, value)])];
        LeafKept(old(store), store, used, block, es, es[pos := Entry(key, value)], st == Ok);
        return;
      }
      PutNew(es, key, value, pos);
      var tmp := es[..pos] + [Entry(key, value)] + es[pos..];
      if |es| >= MAX_ENTRIES {
        st, split, ts := SplitLeaf(block, node, tmp, key, value, t, parent, next, root);
        return;
      }
      st := Write(block, node.(es := tmp));
      ts := [Leaf(block, tmp)];
      LeafKept(old(store), store, used, block, es, tmp, st == Ok);
    }

    /** Splits a full leaf around the new entry: the lower half stays, the upper half goes
        to a fresh block that takes over the sibling link. */
    method SplitLeaf(block: nat, node: Node, tmp: seq<Entry>, key: nat, value: nat, ghost t: Tree, ghost parent: nat,
                     ghost next: nat, ghost root: bool)
      returns (st: Status, split: Split, ghost ts: seq<Tree>)
      requires t.Leaf? && t.blk == block && Repr(store, t, parent, next, root) && node == store[block]
      requires tmp == Put(t.es, key, value) && |tmp| == MAX_ENTRIES + 1 && Owned(t, used)
      modifies this`store, this`used
      ensures st == Ok || Fault(st, failing)
      ensures st == Ok ==> InsertedTo(old(store), store, old(used), used, t, ts, key, value, parent, next, root)
      ensures st == Ok ==> |ts| == 2 && ShapeAll(ts, 0) && SplitNames(split, ts)
    {
      split, ts := NoSplit, [];
      var left := |tmp| / 2;
      var rb := Alloc();
      if rb == 0 { return NoSpc, split, ts; }
      var rn := Node(true, false, node.parent, node.right, tmp[left..]);
      split := Split(rb, rn.es[0].key);
      st := Write(block, node.(es := tmp[..left], right := rb));
      if st == Ok { st := Write(rb, rn); }
      ts := [Leaf(block, tmp[..left]), Leaf(rb, tmp[left..])];
      if st == Ok {
        LeafSplit(old(store), store, old(used), block, t.es, tmp, left, rb, key, value, parent, next, root);
      }
    }

    method InsertIndex(block: nat, node: Node, key: nat, value: nat, ghost ks: seq<Tree>, ghost h: nat,
                       ghost parent: nat, ghost next: nat, ghost root: bool)
      returns (st: Status, split: Split, ghost ts: seq<Tree>)
      requires h > 0 && Repr(store, Index(block, ks), parent, next, root) && node == store[block]
      requires ShapeAll(ks, h - 1) && 0 < |ks| <= MAX_ENTRIES && Sorted(FlatAll(ks)) && Owned(Index(block, ks), used)
      modifies this`store, this`used
      ensures st == Ok || Fault(st, failing)
      ensures (st == Ok ==>
        InsertedTo(old(store), store, old(used), used, Index(block, ks), ts, key, value, parent, next, root))
      ensures st == Ok ==> InsertedShape(ts, h, |ks|) && SplitNames(split, ts)
      decreases h, 0
    {
      split, ts := NoSplit, [];
      KidsOwned(block, ks, used);
      var c := IndexChild(node.es, key);
      Descend(store, used, ks, c, key, h - 1, block, next);
      ghost var k, nx := ks[c], HeadLeaf(ks[c + 1..], next);
      var fix := key < node.es[c].key;
      var child;
      ghost var kts;
      st, child, kts := InsertRec(node.es[c].val, key, value, k, h - 1, MIN_ENTRIES, block, nx, false);
      if st != Ok { return; }
      ghost var ks1 := ks[..c] + kts + ks[c + 1..];
      var es := if fix then node.es[c := Entry(key, node.es[c].val)] else node.es;
      InsertReady(old(store), store, old(used), used, block, ks, ks1, c, kts, es, key, value, h - 1, next);
      ghost var j := Task(block, ks, h, key, value, parent, next, root, old(store), old(used));
      st, split, ts := InsertFinish(block, node, es, fix, child, j, ks1, c, kts);
    }

    /** After the recursive insertion: store a lowered fence and absorb the child's split. */
    method InsertFinish(block: nat, node: Node, es: seq<Entry>, fix: bool, child: Split,
                        ghost j: Task, ghost ks1: seq<Tree>, ghost c: nat, ghost kts: seq<Tree>)
      returns (st: Status, split: Split, ghost ts: seq<Tree>)
      requires Pending(j, ks1, store, used) && block == j.block && node == OldNode(j)
      requires block in store && store[block] == node
      requires c < |j.kids| && 1 <= |kts| <= 2 && SplitNames(child, kts)
      requires |es| == |j.kids| && (!fix ==> es == node.es) && |ks1| == |j.kids| + |kts| - 1
      requires |kts| == 1 ==> es == Fences(ks1)
      requires |kts| == 2 ==> ks1[c + 1] == kts[1] && LacksNext(es, ks1, c)
      modifies this`store, this`used
      ensures st == Ok || Fault(st, failing)
      ensures (st == Ok ==>
        Finished(j, ts, store, used) && InsertedShape(ts, j.height, |j.kids|) && SplitNames(split, ts))
    {
      if child.NoSplit? {
        st, ts := StoreFence(block, node, es, fix, j, ks1);
        split := NoSplit;
        return;
      }
      st, split, ts := AbsorbSplit(block, node, es, child, j, ks1, c);
    }

    /** The child did not split: write the node back if its fence was lowered. */
    method StoreFence(block: nat, node: Node, es: seq<Entry>, fix: bool, ghost j: Task, ghost ks1: seq<Tree>)
      returns (st: Status, ghost ts: seq<Tree>)
      requires Pending(j, ks1, store, used) && block == j.block && node == OldNode(j)
      requires block in store && store[block] == node
      requires |ks1| == |j.kids| && (!fix ==> es == node.es) && es == Fences(ks1)
      modifies this`store
      ensures st == Ok || Fault(st, failing)
      ensures st == Ok ==> Finished(j, ts, store, used)
      ensures |ts| == 1 && Shape(ts[0], j.height, |j.kids|)
    {
      ts := [Index(block, ks1)];
      st := Ok;
      if fix {
        st := Write(block, node.(es := es));
      }
      if st == Ok { IndexGrown(j, ks1, old(store), used, store); }
    }

    /** Finds where the child's new neighbour belongs and adds it there. */
    method AbsorbSplit(block: nat, node: Node, es: seq<Entry>, child: Split, ghost j: Task, ghost ks1: seq<Tree>,
                       ghost c: nat)
      returns (st: Status, split: Split, ghost ts: seq<Tree>)
      requires Pending(j, ks1, store, used) && block == j.block && node == OldNode(j)
      requires c < |j.kids| && |ks1| == |j.kids| + 1 && child == Split(ks1[c + 1].blk, Low(ks1[c + 1]))
      requires |es| == |j.kids| && LacksNext(es, ks1, c)
      modifies this`store, this`used
      ensures st == Ok || Fault(st, failing)
      ensures (st == Ok ==>
        Finished(j, ts, store, used) && InsertedShape(ts, j.height, |j.kids|) && SplitNames(split, ts))
    {
      var pos := LowerBound(es, child.sep);
      var tmp := es[..pos] + [Entry(child.sep, child.right)] + es[pos..];
      assert tmp == Fences(ks1) by { FencesAbsorbed(j.kids, ks1, j.key, j.val, j.height - 1, c, es, pos); }
      st, split, ts := AddChild(block, node, tmp, j, ks1);
    }

    /** Stores the entries with the new child in, splitting the node when it was full. */
    method AddChild(block: nat, node: Node, tmp: seq<Entry>, ghost j: Task, ghost ks1: seq<Tree>)
      returns (st: Status, split: Split, ghost ts: seq<Tree>)
      requires Pending(j, ks1, store, used) && block == j.block && node == OldNode(j)
      requires |ks1| == |j.kids| + 1 && tmp == Fences(ks1)
      modifies this`store, this`used
      ensures st == Ok || Fault(st, failing)
      ensures (st == Ok ==>
        Finished(j, ts, store, used) && InsertedShape(ts, j.height, |j.kids|) && SplitNames(split, ts))
    {
      split, ts := NoSplit, [Index(block, ks1)];
      if |node.es| < MAX_ENTRIES {
        st := Write(block, node.(es := tmp));
        if st == Ok { IndexGrown(j, ks1, old(store), used, store); }
        return;
      }
      st, split, ts := SplitIndex(block, node, tmp, j, ks1);
    }

    /** Splits a full index node around the new child; the children that move to the fresh
        right node are pointed at it. */
    method SplitIndex(block: nat, node: Node, tmp: seq<Entry>, ghost j: Task, ghost ks1: seq<Tree>)
      returns (st: Status, split: Split, ghost ts: seq<Tree>)
      requires Pending(j, ks1, store, used) && block == j.block && node == OldNode(j)
      requires |ks1| == MAX_ENTRIES + 1 && tmp == Fences(ks1)
      modifies this`store, this`used
      ensures st == Ok || Fault(st, failing)
      ensures st == Ok ==> Finished(j, ts, store, used) && |ts| == 2 && ShapeAll(ts, j.height) && SplitNames(split, ts)
    {
      split, ts := NoSplit, [];
      var left := |tmp| / 2;
      KidsOwned(block, j.kids, j.used);
      SaneKids(store, ks1, j.height - 1, block, j.next);
      var nb := Alloc();
      if nb == 0 { return NoSpc, split, ts; }
      ts := [Index(block, ks1[..left]), Index(nb, ks1[left..])];
      assert tmp[left..] == Fences(ks1[left..]) && tmp[..left] == Fences(ks1[..left]);
      st := SetParents(tmp[left..], nb);
      if st != Ok { return; }
      split := Split(nb, tmp[left].key);
      st := Write(block, node.(es := tmp[..left]));
      if st == Ok { st := Write(nb, Node(false, false, node.parent, 0, tmp[left..])); }
      if st == Ok {
        SplitShape(block, nb, ks1, left, j.height - 1);
        IndexSplit(j, ks1, old(store), old(used), store, left, nb);
      }
    }

    /** Inserts below `block`; a split is reported to the caller, who owns the parent. */
    method InsertRec(block: nat, key: nat, value: nat, ghost t: Tree, ghost h: nat, ghost min: nat, ghost parent: nat,
                     ghost next: nat, ghost root: bool)
      returns (st: Status, split: Split, ghost ts: seq<Tree>)
      requires t.blk == block && Repr(store, t, parent, next, root)
      requires Shape(t, h, min) && min <= MIN_ENTRIES && (h > 0 ==> min > 0) && Sorted(Flat(t)) && Owned(t, used)
      modifies this`store, this`used
      ensures st == Ok || Fault(st, failing)
      ensures st == Ok ==> InsertedTo(old(store), store, old(used), used, t, ts, key, value, parent, next, root)
      ensures st == Ok ==> InsertedShape(ts, h, min) && SplitNames(split, ts)
      decreases h, 1
    {
      split, ts := NoSplit, [];
      var node;
      RootBlock(t);
      st, node := Load(block);
      if st != Ok { return; }
      if node.leaf {
        st, split, ts := InsertLeaf(block, node, key, value, t, min, parent, next, root);
      } else {
        st, split, ts := InsertIndex(block, node, key, value, t.kids, h, parent, next, root);
      }
    }

    // ----- the interface used by the directory layer

    /** Fence-guided descent to the one leaf that can hold the key. */
    method Search(root: nat, name: Name) returns (st: Status, value: nat)
      requires Valid() && (root == 0 || root in trees)
      ensures root == 0 <==> st == Inval
      ensures root != 0 ==> st == Ok || st == NotFound || Fault(st, failing)
      ensures st == Ok ==> Rank(name) in Contents(root) && value == Contents(root)[Rank(name)]
      ensures st == NotFound ==> Rank(name) !in Contents(root)
      ensures failing == {} && root != 0 ==> (st == Ok <==> Rank(name) in Contents(root))
    {
      value := 0;
      if root == 0 { return Inval, 0; }
      st, value := SearchFrom(root, Rank(name), trees[root]);
    }

    method SearchFrom(root: nat, key: nat, ghost whole: Tree) returns (st: Status, value: nat)
      requires WellFormed(store, used, root, whole)
      ensures st == Ok || st == NotFound || Fault(st, failing)
      ensures st == Ok ==> key in ToMap(Flat(whole)) && value == ToMap(Flat(whole))[key]
      ensures st == NotFound ==> key !in ToMap(Flat(whole))
    {
      value := 0;
      var block := root;
      ghost var t, parent, next, flag := whole, 0, 0, RootFlag(store, whole);
      ghost var h: nat :| Shape(t, h, RootMin(h));
      ghost var min := RootMin(h);
      while true
        invariant t.blk == block && Repr(store, t, parent, next, flag)
        invariant 0 <= min && Shape(t, h, min) && (h > 0 ==> min > 0) && Sorted(Flat(t)) && Owned(t, used)
        invariant SameBinding(Flat(whole), Flat(t), key)
        decreases h
      {
        var node;
        st, node := Load(block);
        if st != Ok { return; }
        if node.leaf {
          var pos := LowerBound(node.es, key);
          LeafMap(node.es, pos, key);
          if pos < |node.es| && node.es[pos].key == key {
            return Ok, node.es[pos].val;
          }
          return NotFound, 0;
        }
        if |node.es| == 0 {
          st := Corrupt;
          return;
        }
        var c := IndexChild(node.es, key);
        block := node.es[c].val;
        DescendSearch(store, used, t.blk, t.kids, c, key, h - 1, next);
        parent, next, flag := t.blk, HeadLeaf(t.kids[c + 1..], next), false;
        t, h, min := t.kids[c], h - 1, MIN_ENTRIES;
      }
    }

    /** The first entry of an empty tree: a leaf that is the root at once. */
    method InsertFirst(key: nat, value: nat) returns (st: Status, newRoot: nat, ghost t': Tree)
      modifies this`store, this`used
      ensures st == Ok || Fault(st, failing)
      ensures st == Ok ==> WellFormed(store, used, newRoot, t') && ToMap(Flat(t')) == map[key := value]
      ensures st == Ok ==> Grown(old(used), used, multiset{}, Blocks(t'))
      ensures st == Ok ==> Confined(old(store), store, old(used), used, multiset{}, Blocks(t'))
    {
      newRoot := Alloc();
      t' := Leaf(newRoot, [Entry(key, value)]);
      if newRoot == 0 { return NoSpc, 0, t'; }
      st := Write(newRoot, Node(true, true, 0, 0, [Entry(key, value)]));
      assert Shape(t', 0, RootMin(0));
    }

    method InsertRoot(root: nat, key: nat, value: nat, ghost t: Tree) returns (st: Status, newRoot: nat, ghost t': Tree)
      requires WellFormed(store, used, root, t)
      modifies this`store, this`used
      ensures st == Ok || Fault(st, failing)
      ensures st == Ok ==> WellFormed(store, used, newRoot, t')
      ensures st == Ok ==> ToMap(Flat(t')) == ToMap(Flat(t))[key := value]
      ensures st == Ok ==> Grown(old(used), used, Blocks(t), Blocks(t'))
      ensures st == Ok ==> Confined(old(store), store, old(used), used, Blocks(t), Blocks(t'))
    {
      ghost var h: nat :| Shape(t, h, RootMin(h));
      ghost var flag := RootFlag(store, t);
      newRoot, t' := root, t;
      var split;
      ghost var ts;
      st, split, ts := InsertRec(root, key, value, t, h, RootMin(h), 0, 0, flag);
      if st != Ok { return; }
      PutSorted(Flat(t), key, value);
      PutToMap(Flat(t), key, value);
      if split.NoSplit? {
        t' := ts[0];
        RootKept(old(store), store, old(used), used, t, ts, h, key, value, flag);
        return;
      }
      st, newRoot := GrowRoot(root, split, t, ts, h, key, value, flag, old(store), old(used));
      t' := Index(newRoot, ts);
      assert st == Ok ==> Shape(t', h + 1, RootMin(h + 1));
    }

    /** Builds a new index root over the old root and its new right neighbour. */
    method GrowRoot(root: nat, split: Split, ghost t: Tree, ghost ts: seq<Tree>, ghost h: nat, ghost key: nat,
                    ghost value: nat,
                    ghost flag: bool, ghost s0: Store, ghost u0: set<nat>)
      returns (st: Status, newRoot: nat)
      requires |ts| == 2 && SplitNames(split, ts) && ShapeAll(ts, h) && t.blk == root && Owned(t, u0)
      requires InsertedTo(s0, store, u0, used, t, ts, key, value, 0, 0, flag)
      modifies this`store, this`used
      ensures st == Ok || Fault(st, failing)
      ensures st == Ok ==> newRoot != 0 && Repr(store, Index(newRoot, ts), 0, 0, true)
      ensures st == Ok ==> Grown(u0, used, Blocks(t), Blocks(Index(newRoot, ts)))
      ensures st == Ok ==> Confined(s0, store, u0, used, Blocks(t), Blocks(Index(newRoot, ts)))
    {
      BlocksPair(ts);
      newRoot := Alloc();
      if newRoot == 0 { return NoSpc, root; }
      var node;
      st, node := Load(root);
      if st != Ok { return; }
      var low := node.es[0].key;
      st := Write(root, node.(root := false, parent := newRoot));
      if st != Ok { return; }
      st := SetParent(split.right, newRoot);
      if st != Ok { return; }
      st := Write(newRoot, Node(false, true, 0, 0, [Entry(low, root), Entry(split.sep, split.right)]));
      if st == Ok {
        assert [Entry(low, root), Entry(split.sep, split.right)] == Fences(ts);
        RootGrown(s0, old(store), store, u0, old(used), t, ts, newRoot, key, value, flag);
        GrownConfined(s0, store, u0, used, Blocks(t), Blocks(Index(newRoot, ts)));
      }
    }

    /** Records the new tree in the ghost forest. */
    ghost method Plant(s0: Store, u0: set<nat>, root: nat, newRoot: nat, t': Tree)
      requires Forest(s0, u0, trees) && (root == 0 || root in trees)
      requires WellFormed(store, used, newRoot, t') && Confined(s0, store, u0, used, BlocksAt(root), Blocks(t'))
      modifies this`trees
      ensures Valid() && trees == (old(trees) - {root})[newRoot := t']
      ensures newRoot == root || newRoot !in old(trees)
      ensures newRoot != 0 && Contents(newRoot) == ToMap(Flat(t')) && BlocksAt(newRoot) == Blocks(t')
    {
      ghost var now := (trees - {root})[newRoot := t'];
      assert Forest(store, used, now) && (newRoot == root || newRoot !in trees) && newRoot != 0 by {
        ForestStep(s0, store, u0, used, trees, root, BlocksAt(root), newRoot, t');
        RootBlock(t');
      }
      trees := now;
    }

    /** The empty leaf that a new directory starts from: without the ROOT flag below another
        directory, with it on a freshly formatted volume. When it cannot be written, its block
        is given back, or lost. */
    method NewRoot(flagged: bool) returns (st: Status, root: nat)
      requires Valid()
      modifies this`store, this`used, this`lost, this`trees
      ensures failing == {} ==> st == Ok
      ensures Valid() && (st == Ok || Fault(st, failing))
      ensures st == Ok ==> root !in old(trees) && root !in old(used) && used == old(used) + {root} && lost == old(lost)
      ensures st == Ok ==> trees == old(trees)[root := Leaf(root, [])] && Contents(root) == map[]
      ensures st == Ok ==> store == old(store)[root := Node(true, flagged, 0, 0, [])]
      ensures st != Ok ==> store == old(store) && used == old(used) && trees == old(trees)
      ensures (st != Ok ==>
        lost == old(lost) || exists b :: b !in old(used) && lost == old(lost) + {b} && Marking(b) in failing)
    {
      root := 0;
      var f := Fails(failing, Memory);
      if f { return NoMem, root; }
      root := Alloc();
      if root == 0 { return NoSpc, root; }
      st := Write(root, Node(true, flagged, 0, 0, []));
      if st != Ok {
        Free(root);
        assert used == old(used);
        return;
      }
      EmptyLeaf(old(store), old(used), root, flagged);
      RootsNotZero(old(store), old(used), trees);
      Plant(old(store), old(used), 0, root, Leaf(root, []));
    }

    /** Binds a name in the directory at `root`, growing the tree when the root splits. */
    method Insert(root: nat, name: Name, value: nat) returns (st: Status, newRoot: nat)
      requires Valid() && (root == 0 || root in trees)
      modifies this`store, this`used, this`trees
      ensures name == [] <==> st == Inval
      ensures |name| > MAX_KEY <==> st == TooBig
      ensures 0 < |name| <= MAX_KEY ==> st == Ok || Fault(st, failing)
      ensures failing == {} ==> (st == Ok <==> 0 < |name| <= MAX_KEY)
      ensures st == Inval || st == TooBig ==> store == old(store) && used == old(used) && trees == old(trees)
      ensures st == Ok ==> Valid() && newRoot in trees && trees == (old(trees) - {root})[newRoot := trees[newRoot]]
      ensures st == Ok ==> newRoot == root || newRoot !in old(trees)
      ensures st == Ok ==> Contents(newRoot) == old(Contents(root))[Rank(name) := value]
      ensures st == Ok ==> Grown(old(used), used, old(BlocksAt(root)), BlocksAt(newRoot))
    {
      newRoot := root;
      if name == [] { return Inval, root; }
      if |name| > MAX_KEY { return TooBig, root; }
      var key := Rank(name);
      ghost var t';
      if root == 0 {
        st, newRoot, t' := InsertFirst(key, value);
      } else {
        st, newRoot, t' := InsertRoot(root, key, value, trees[root]);
      }
      if st == Ok {
        Plant(old(store), old(used), root, newRoot, t');
      }
    }

    /** An index root left with a single child gives way to it. */
    method Promote(root: nat, node: Node, ghost k: Tree, ghost h: nat, ghost flag: bool)
      returns (st: Status, newRoot: nat)
      requires Repr(store, Index(root, [k]), 0, 0, flag) && node == store[root]
      requires Owned(Index(root, [k]), used) && Shape(k, h, MIN_ENTRIES)
      modifies this`store, this`used, this`lost
      ensures Leaks(old(lost), lost, old(used), used, failing)
      ensures st != NotFound
      ensures st == Ok || Fault(st, failing)
      ensures st == Ok ==> newRoot == k.blk && Repr(store, k, 0, 0, true) && Owned(k, used)
      ensures st == Ok ==> Released(old(used), used, Blocks(Index(root, [k])), Blocks(k))
      ensures st == Ok ==> OnlyIn(old(store), store, Support(Blocks(Index(root, [k]))))
    {
      newRoot := root;
      PromoteFacts(store, root, k, used, flag);
      var child := node.es[0].val;
      var cn;
      st, cn := Load(child);
      if st != Ok { return; }
      st := Write(child, cn.(root := true, parent := 0));
      if st != Ok { return; }
      Free(root);
      newRoot := child;
    }

    method DeleteRoot(root: nat, key: nat, ghost t: Tree) returns (st: Status, newRoot: nat, ghost t': Tree)
      requires WellFormed(store, used, root, t)
      modifies this`store, this`used, this`lost
      ensures Leaks(old(lost), lost, old(used), used, failing)
      ensures st == Ok || st == NotFound || Fault(st, failing)
      ensures st == NotFound ==> store == old(store) && used == old(used) && !HasKey(Flat(t), key)
      ensures st == Ok ==> HasKey(Flat(t), key)
      ensures st == Ok ==> WellFormed(store, used, newRoot, t') && Flat(t') == Remove(Flat(t), key)
      ensures st == Ok ==> Released(old(used), used, Blocks(t), Blocks(t'))
      ensures st == Ok ==> OnlyIn(old(store), store, Support(Blocks(t)))
    {
      ghost var h: nat :| Shape(t, h, RootMin(h));
      ghost var flag := RootFlag(store, t);
      newRoot := root;
      var underflow;
      st, underflow, t' := DeleteRec(root, key, true, t, h, 0, 0, flag);
      if st != Ok { return; }
      RemoveSorted(Flat(t), key);
      ReleasedTree(old(used), used, Blocks(t), t');
      ghost var u1, s1 := used, store;
      var node;
      st, node := Load(root);
      if st != Ok { return; }
      if !node.leaf && |node.es| == 1 {
        ghost var k := t'.kids[0];
        assert t' == Index(root, [k]);
        FlatOne(k);
        st, newRoot := Promote(root, node, k, h - 1, flag);
        if st == Ok {
          PromoteDone(old(store), s1, store, old(used), u1, used, Blocks(t), t', k);
          assert Shape(k, h - 1, RootMin(h - 1));
        }
        t' := k;
        return;
      }
      assert Shape(t', h, RootMin(h));
    }

    /** Removes a name from the directory at `root`. */
    method Delete(root: nat, name: Name) returns (st: Status, newRoot: nat)
      requires Valid() && (root == 0 || root in trees)
      modifies this`store, this`used, this`lost, this`trees
      ensures Leaks(old(lost), lost, old(used), used, failing)
      ensures root == 0 <==> st == Inval
      ensures root != 0 ==> st == Ok || st == NotFound || Fault(st, failing)
      ensures failing == {} && root != 0 ==> (st == Ok <==> Rank(name) in old(Contents(root)))
      ensures failing == {} ==> lost == old(lost)
      ensures st == Inval ==> store == old(store) && used == old(used) && trees == old(trees)
      ensures st == NotFound ==> store == old(store) && used == old(used) && lost == old(lost) && trees == old(trees)
      ensures st == NotFound ==> Rank(name) !in Contents(root)
      ensures st == Ok ==> Valid() && newRoot in trees && trees == (old(trees) - {root})[newRoot := trees[newRoot]]
      ensures st == Ok ==> newRoot == root || newRoot !in old(trees)
      ensures st == Ok ==> Rank(name) in old(Contents(root)) && Contents(newRoot) == old(Contents(root)) - {Rank(name)}
      ensures st == Ok ==> Released(old(used), used, old(BlocksAt(root)), BlocksAt(newRoot))
    {
      newRoot := root;
      if root == 0 { return Inval, root; }
      var key := Rank(name);
      ghost var t, t' := trees[root], trees[root];
      ToMapKeys(Flat(t), key);
      RemoveToMap(Flat(t), key);
      st, newRoot, t' := DeleteRoot(root, key, t);
      if st == Ok {
        ReleasedConfined(old(store), store, old(used), used, Blocks(t), Blocks(t'));
        Plant(old(store), old(used), root, newRoot, t');
      }
    }

    /** Visits the entries in key order until the callback, which may depend on the entries it
        has seen, returns non-zero: leftmost descent, then the leaf chain. `visited` records its
        calls. */
    method Iterate(root: nat, cb: seq<Entry> -> int) returns (st: Status, r: int, visited: seq<Entry>)
      requires Valid() && (root == 0 || root in trees)
      ensures root == 0 <==> st == Inval
      ensures root != 0 ==> st == Ok || Fault(st, failing)
      ensures failing == {} && root != 0 ==> st == Ok
      ensures st == Ok ==> root in trees && visited <= Flat(trees[root])
      ensures st == Ok && r == 0 ==> visited == Flat(trees[root]) && AllZero(visited, cb)
      ensures st == Ok && r != 0 ==> StoppedAt(visited, cb, r)
    {
      r, visited := 0, [];
      if root == 0 { return Inval, 0, []; }
      var block;
      st, block := FindFirstLeaf(root);
      if st != Ok { return; }
      ChainStart(store, used, root, trees[root]);
      st, r, visited := WalkChain(block, cb, Leaves(trees[root]));
    }

    /** Visits the leaves `ls` by following right_sibling from `start`. */
    method WalkChain(start: nat, cb: seq<Entry> -> int, ghost ls: seq<Tree>)
      returns (st: Status, r: int, visited: seq<Entry>)
      requires Chain(store, ls, 0) && start == HeadLeaf(ls, 0)
      requires forall i :: 0 <= i < |ls| ==> ls[i].Leaf? && ls[i].blk != 0
      requires forall i :: 0 <= i < |ls| ==> |ls[i].es| <= MAX_ENTRIES
      ensures st == Ok || Fault(st, failing)
      ensures st == Ok ==> visited <= FlatAll(ls)
      ensures st == Ok && r == 0 ==> visited == FlatAll(ls) && AllZero(visited, cb)
      ensures st == Ok && r != 0 ==> StoppedAt(visited, cb, r)
    {
      var block := start;
      st, r, visited := Ok, 0, [];
      ghost var rest := ls;
      while block != 0
        invariant st == Ok && r == 0 && Chain(store, rest, 0) && block == HeadLeaf(rest, 0)
        invariant forall i :: 0 <= i < |rest| ==> rest[i].Leaf? && rest[i].blk != 0 && |rest[i].es| <= MAX_ENTRIES
        invariant visited + FlatAll(rest) == FlatAll(ls)
        invariant AllZero(visited, cb)
        decreases |rest|
      {
        var node;
        st, node := Load(block);
        if st != Ok { return; }
        if !node.leaf { return Corrupt, 0, visited; }
        var seen;
        r, seen := VisitLeaf(node.es, visited, cb);
        ChainTake(visited, seen, rest, FlatAll(ls));
        visited := visited + seen;
        if r != 0 { return; }
        block := node.right;
        rest := rest[1..];
      }
      assert rest == [];
    }

    method FindFirstLeaf(root: nat) returns (st: Status, block: nat)
      requires Valid() && root in trees && root != 0
      ensures st == Ok || Fault(st, failing)
      ensures st == Ok ==> block == FirstLeaf(trees[root])
    {
      block := root;
      ghost var t, parent, next, flag := trees[root], 0, 0, RootFlag(store, trees[root]);
      ghost var h: nat :| Shape(t, h, RootMin(h));
      ghost var min := RootMin(h);
      while true
        invariant t.blk == block && Repr(store, t, parent, next, flag)
        invariant 0 <= min && Shape(t, h, min) && (h > 0 ==> min > 0)
        invariant FirstLeaf(t) == FirstLeaf(trees[root]) && Owned(t, used)
        decreases h
      {
        RootBlock(t);
        var node;
        st, node := Load(block);
        if st != Ok { return; }
        if node.leaf { return; }
        if |node.es| == 0 { return Corrupt, block; }
        block := node.es[0].val;
        ReprAt(store, t.kids, t.blk, next, 0);
        KidsOwned(t.blk, t.kids, used);
        KidOwned(t.kids, 0, used);
        parent, next, flag := t.blk, HeadLeaf(t.kids[1..], next), false;
        t, h, min := t.kids[0], h - 1, MIN_ENTRIES;
      }
    }
  }
}
