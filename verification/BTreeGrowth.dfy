/** What an insertion does to the abstract tree and to the store: the replaced child or
    pair of children, node splits, and the freshly allocated blocks. */
module BTreeGrowth {
  import opened SortedEntries
  import opened BTreeModel
  import opened BTreeSurgery
  import opened BTreeRepair

  /** The tree gains exactly the freshly allocated blocks. */
  ghost predicate Grown(before: set<nat>, after: set<nat>, was: multiset<nat>, now: multiset<nat>) {
    && was <= now && NoDup(now)
    && (forall b :: b in now && b !in was ==> b != 0 && b !in before)
    && (forall b :: b in after <==> b in before || b in now)
  }

  lemma {:induction false} GrownSame(u: set<nat>, m: multiset<nat>)
    requires NoDup(m) && forall b :: b in m ==> b in u
    ensures Grown(u, u, m, m)
  {
  }

  lemma {:induction false} GrownOne(u: set<nat>, m: multiset<nat>, b: nat)
    requires NoDup(m) && (forall x :: x in m ==> x in u) && b !in u && b != 0
    ensures Grown(u, u + {b}, m, m + multiset{b})
  {
    assert b !in m;
    forall x ensures (m + multiset{b})[x] <= 1 {
      assert m[x] <= 1;
    }
  }

  lemma {:induction false} GrownTwice(u0: set<nat>, u1: set<nat>, u2: set<nat>, m0: multiset<nat>, m1: multiset<nat>,
                                      m2: multiset<nat>)
    requires Grown(u0, u1, m0, m1) && Grown(u1, u2, m1, m2)
    ensures Grown(u0, u2, m0, m2)
  {
  }

  /** Blocks around the grown part are allocated, so a fresh block cannot clash with them. */
  lemma {:induction false} GrownAround(u: set<nat>, u': set<nat>, a: multiset<nat>, was: multiset<nat>,
                                       now: multiset<nat>)
    requires Grown(u, u', was, now) && NoDup(a + was) && forall b :: b in a ==> b in u
    ensures Grown(u, u', a + was, a + now)
  {
    forall b ensures (a + now)[b] <= 1 {
      assert (a + was)[b] <= 1;
      assert now[b] <= 1;
      if b in a && b in now { assert b in was; }
    }
  }

  /** The subtree `t` became the one or two trees `ts` with `key` bound to `val`. */
  ghost predicate InsertedTo(s: Store, s': Store, u: set<nat>, u': set<nat>, t: Tree, ts: seq<Tree>, key: nat, val: nat,
                             parent: nat, next: nat, root: bool) {
    && 1 <= |ts| <= 2 && ts[0].blk == t.blk && FirstLeaf(ts[0]) == FirstLeaf(t)
    && Repr(s', ts[0], parent, HeadLeaf(ts[1..], next), root)
    && (|ts| == 2 ==> Repr(s', ts[1], parent, next, false))
    && FlatAll(ts) == Put(Flat(t), key, val)
    && Grown(u, u', Blocks(t), BlocksAll(ts))
    && OnlyIn(s, s', Support(Blocks(t)) + (u' - u))
  }

  ghost predicate InsertedShape(ts: seq<Tree>, h: nat, min: nat) {
    if |ts| == 1 then Shape(ts[0], h, min) else ShapeAll(ts, h)
  }

  // ----- leaves

  /** A leaf rewritten in its own block. */
  lemma {:induction false} LeafKept(s: Store, s': Store, u: set<nat>, b: nat, es: seq<Entry>, es': seq<Entry>,
                                    done: bool)
    requires Owned(Leaf(b, es), u)
    requires done ==> b in s && s' == s[b := s[b].(es := es')]
    ensures FlatAll([Leaf(b, es')]) == es'
    ensures Grown(u, u, Blocks(Leaf(b, es)), BlocksAll([Leaf(b, es')]))
    ensures done ==> OnlyIn(s, s', Support(Blocks(Leaf(b, es))))
    ensures [Leaf(b, es')][1..] == []
  {
    FlatOne(Leaf(b, es'));
    BlocksOne(Leaf(b, es'));
    GrownSame(u, Blocks(Leaf(b, es)));
  }

  lemma {:induction false} LeafSplit(s: Store, s': Store, u: set<nat>, b: nat, es: seq<Entry>, tmp: seq<Entry>, n: nat,
                                     rb: nat,
                                     key: nat, val: nat, parent: nat, next: nat, root: bool)
    requires Owned(Leaf(b, es), u) && rb !in u && rb != 0
    requires 0 < n < |tmp| && tmp == Put(es, key, val)
    requires s' == s[b := Node(true, root, parent, rb, tmp[..n])][rb := Node(true, false, parent, next, tmp[n..])]
    ensures InsertedTo(s, s', u, u + {rb}, Leaf(b, es), [Leaf(b, tmp[..n]), Leaf(rb, tmp[n..])],
                       key, val, parent, next, root)
  {
    var l, r := Leaf(b, tmp[..n]), Leaf(rb, tmp[n..]);
    assert b in Blocks(Leaf(b, es));
    FlatTwo(l, r);
    BlocksTwo(l, r);
    assert tmp == tmp[..n] + tmp[n..];
    GrownOne(u, Blocks(Leaf(b, es)), rb);
  }

  // ----- child list after the recursive insertion

  /** The lowest key after binding a key. */
  lemma {:induction false} LowAfterPut(t: Tree, ts: seq<Tree>, h: nat, min: nat, key: nat, val: nat)
    requires Shape(t, h, min) && min >= 1 && ShapeAll(ts, h) && ts != []
    requires Sorted(Flat(t)) && FlatAll(ts) == Put(Flat(t), key, val)
    ensures Low(ts[0]) == if key < Low(t) then key else Low(t)
  {
    LowIsFirst(t, h, min);
    FlatHead(ts, h);
  }

  lemma {:induction false} InsertKid(s: Store, s': Store, u: set<nat>, u': set<nat>, b: nat, ks: seq<Tree>,
                                     ks1: seq<Tree>,
                                     i: nat, ts: seq<Tree>, key: nat, val: nat, h: nat, next: nat)
    requires i < |ks| && ks1 == ks[..i] + ts + ks[i + 1..]
    requires ReprAll(s, ks, b, next) && OwnedAll(ks, u) && ShapeAll(ks, h) && Sorted(FlatAll(ks))
    requires i == 0 || Low(ks[i]) <= key
    requires i + 1 < |ks| ==> key < Low(ks[i + 1])
    requires InsertedTo(s, s', u, u', ks[i], ts, key, val, b, HeadLeaf(ks[i + 1..], next), false)
    requires ShapeAll(ts, h)
    ensures ReprAll(s', ks1, b, next) && HeadLeaf(ks1, next) == HeadLeaf(ks, next)
    ensures FlatAll(ks1) == Put(FlatAll(ks), key, val)
    ensures Grown(u, u', BlocksAll(ks), BlocksAll(ks1))
    ensures OnlyIn(s, s', Support(BlocksAll(ks)) + (u' - u))
  {
    InsertKidRepr(s, s', u, u', b, ks, i, ts, next);
    InsertKidFlat(ks, i, ts, key, val, h);
    InsertKidBlocks(u, u', ks, i, ts);
    KidBlocks(ks, i);
  }

  lemma {:induction false} InsertKidRepr(s: Store, s': Store, u: set<nat>, u': set<nat>, b: nat, ks: seq<Tree>, i: nat,
                                         ts: seq<Tree>, next: nat)
    requires i < |ks| && ReprAll(s, ks, b, next) && OwnedAll(ks, u)
    requires OnlyIn(s, s', Support(Blocks(ks[i])) + (u' - u))
    requires 1 <= |ts| <= 2 && FirstLeaf(ts[0]) == FirstLeaf(ks[i])
    requires Repr(s', ts[0], b, HeadLeaf(ts[1..], HeadLeaf(ks[i + 1..], next)), false)
    requires |ts| == 2 ==> Repr(s', ts[1], b, HeadLeaf(ks[i + 1..], next), false)
    ensures var ks1 := ks[..i] + ts + ks[i + 1..];
      ReprAll(s', ks1, b, next) && HeadLeaf(ks1, next) == HeadLeaf(ks, next)
  {
    var nx := HeadLeaf(ks[i + 1..], next);
    if |ts| == 1 {
      assert ts == [ts[0]];
      ReprOne(s', ts[0], b, nx);
    } else {
      assert ts == [ts[0], ts[1]];
      ReprTwo(s', ts[0], ts[1], b, nx);
    }
    KidReplaced(s, s', ks, i, ts, b, next);
  }

  lemma {:induction false} InsertKidFlat(ks: seq<Tree>, i: nat, ts: seq<Tree>, key: nat, val: nat, h: nat)
    requires i < |ks| && ShapeAll(ks, h) && Sorted(FlatAll(ks))
    requires i == 0 || Low(ks[i]) <= key
    requires i + 1 < |ks| ==> key < Low(ks[i + 1])
    requires FlatAll(ts) == Put(Flat(ks[i]), key, val)
    ensures FlatAll(ks[..i] + ts + ks[i + 1..]) == Put(FlatAll(ks), key, val)
  {
    ChildRange(ks, h, i, key);
    PutMiddle(FlatAll(ks[..i]), Flat(ks[i]), FlatAll(ks[i + 1..]), key, val);
    SpliceParts(ks[..i], ts, ks[i + 1..]);
  }

  lemma {:induction false} InsertKidBlocks(u: set<nat>, u': set<nat>, ks: seq<Tree>, i: nat, ts: seq<Tree>)
    requires i < |ks| && OwnedAll(ks, u) && Grown(u, u', Blocks(ks[i]), BlocksAll(ts))
    ensures Grown(u, u', BlocksAll(ks), BlocksAll(ks[..i] + ts + ks[i + 1..]))
  {
    var a, m, d, n := BlocksAll(ks[..i]), Blocks(ks[i]), BlocksAll(ks[i + 1..]), BlocksAll(ts);
    KidParts(ks, i);
    SpliceParts(ks[..i], ts, ks[i + 1..]);
    assert a + m + d == (a + d) + m;
    assert a + n + d == (a + d) + n;
    GrownAround(u, u', a + d, m, n);
  }

  /** The parent image with the fence of child `i` corrected names exactly the new
      children, except that a new right neighbour is still missing. */
  lemma {:induction false} FencesAfterInsert(ks: seq<Tree>, ks1: seq<Tree>, i: nat, ts: seq<Tree>, es: seq<Entry>)
    requires i < |ks| && 1 <= |ts| <= 2 && ks1 == ks[..i] + ts + ks[i + 1..]
    requires |es| == |ks| && es[i] == Fence(ts[0])
    requires forall j :: 0 <= j < |ks| && j != i ==> es[j] == Fence(ks[j])
    ensures |ts| == 1 ==> es == Fences(ks1)
    ensures |ts| == 2 ==> LacksNext(es, ks1, i)
  {
    if |ts| == 2 {
      assert ks1[i] == ts[0];
      forall j | i < j < |es| ensures es[j] == Fence(ks1[j + 1]) {}
      forall j | 0 <= j < i ensures es[j] == Fence(ks1[j]) {}
    }
  }

  /** `es` are the fences of `ks1` without that of child `i + 1`. */
  ghost predicate LacksNext(es: seq<Entry>, ks1: seq<Tree>, i: nat) {
    && i + 1 < |ks1| == |es| + 1
    && (forall j :: 0 <= j <= i ==> es[j] == Fence(ks1[j]))
    && (forall j :: i < j < |es| ==> es[j] == Fence(ks1[j + 1]))
  }

  /** The new neighbour's fence belongs directly behind the child that split. */
  lemma {:induction false} SeparatorPosition(ks1: seq<Tree>, i: nat, es: seq<Entry>, h: nat, pos: nat)
    requires ShapeAll(ks1, h) && Sorted(FlatAll(ks1)) && LacksNext(es, ks1, i)
    requires pos <= |es| && AllBelow(es[..pos], Low(ks1[i + 1])) && (pos < |es| ==> Low(ks1[i + 1]) <= es[pos].key)
    ensures pos == i + 1 && es[..pos] + [Fence(ks1[i + 1])] + es[pos..] == Fences(ks1)
  {
    if pos < i + 1 {
      FencesAscend(ks1, h, pos, i + 1);
    }
    if pos > i + 1 {
      assert es[..pos][i + 1] == es[i + 1];
      FencesAscend(ks1, h, i + 1, i + 2);
    }
  }

  lemma {:induction false} InsertedSorted(ks: seq<Tree>, ks1: seq<Tree>, key: nat, val: nat)
    requires Sorted(FlatAll(ks)) && FlatAll(ks1) == Put(FlatAll(ks), key, val)
    ensures Sorted(FlatAll(ks1))
  {
    PutSorted(FlatAll(ks), key, val);
  }

  /** Everything the rest of an index insertion needs about the new child list. */
  lemma {:induction false} InsertReady(s: Store, s': Store, u: set<nat>, u': set<nat>, b: nat, ks: seq<Tree>,
                                       ks1: seq<Tree>,
                                       i: nat, ts: seq<Tree>, es: seq<Entry>, key: nat, val: nat, h: nat, next: nat)
    requires i < |ks| && ks1 == ks[..i] + ts + ks[i + 1..]
    requires ReprAll(s, ks, b, next) && OwnedAll(ks, u) && ShapeAll(ks, h) && Sorted(FlatAll(ks))
    requires i == 0 || Low(ks[i]) <= key
    requires i + 1 < |ks| ==> key < Low(ks[i + 1])
    requires InsertedTo(s, s', u, u', ks[i], ts, key, val, b, HeadLeaf(ks[i + 1..], next), false)
    requires InsertedShape(ts, h, MIN_ENTRIES) && b in s && b !in BlocksAll(ks) && b in u
    requires es == if key < Low(ks[i]) then Fences(ks)[i := Entry(key, ks[i].blk)] else Fences(ks)
    ensures ReprAll(s', ks1, b, next) && HeadLeaf(ks1, next) == HeadLeaf(ks, next)
    ensures FlatAll(ks1) == Put(FlatAll(ks), key, val)
    ensures Grown(u, u', BlocksAll(ks), BlocksAll(ks1))
    ensures OnlyIn(s, s', Support(BlocksAll(ks)) + (u' - u)) && b in s' && s'[b] == s[b]
    ensures |ks1| == |ks| + |ts| - 1 && ShapeAll(ks1, h)
    ensures |ts| == 1 ==> es == Fences(ks1)
    ensures |ts| == 2 ==> ks1[i + 1] == ts[1] && LacksNext(es, ks1, i)
  {
    assert ShapeAll(ts, h);
    InsertKid(s, s', u, u', b, ks, ks1, i, ts, key, val, h, next);
    Descend(s, u, ks, i, key, h, b, next);
    InsertFences(ks, ks1, i, ts, es, key, val, h);
  }

  lemma {:induction false} InsertFences(ks: seq<Tree>, ks1: seq<Tree>, i: nat, ts: seq<Tree>, es: seq<Entry>, key: nat,
                                        val: nat, h: nat)
    requires i < |ks| && ks1 == ks[..i] + ts + ks[i + 1..] && 1 <= |ts| <= 2
    requires ShapeAll(ks, h) && ShapeAll(ts, h) && Sorted(Flat(ks[i])) && ts[0].blk == ks[i].blk
    requires FlatAll(ts) == Put(Flat(ks[i]), key, val)
    requires es == if key < Low(ks[i]) then Fences(ks)[i := Entry(key, ks[i].blk)] else Fences(ks)
    ensures |ks1| == |ks| + |ts| - 1 && ShapeAll(ks1, h)
    ensures |ts| == 1 ==> es == Fences(ks1)
    ensures |ts| == 2 ==> ks1[i + 1] == ts[1] && LacksNext(es, ks1, i)
  {
    LowAfterPut(ks[i], ts, h, MIN_ENTRIES, key, val);
    FencesAfterInsert(ks, ks1, i, ts, es);
    ShapeInserted(ks, ks1, i, ts, h);
  }

  lemma {:induction false} ShapeInserted(ks: seq<Tree>, ks1: seq<Tree>, i: nat, ts: seq<Tree>, h: nat)
    requires i < |ks| && ks1 == ks[..i] + ts + ks[i + 1..] && ShapeAll(ks, h) && ShapeAll(ts, h)
    ensures ShapeAll(ks1, h)
  {
  }

  lemma {:induction false} SplitShape(b: nat, nb: nat, ks: seq<Tree>, n: nat, h: nat)
    requires ShapeAll(ks, h) && MIN_ENTRIES <= n <= MAX_ENTRIES && MIN_ENTRIES <= |ks| - n <= MAX_ENTRIES
    ensures ShapeAll([Index(b, ks[..n]), Index(nb, ks[n..])], h + 1)
  {
    assert ShapeAll(ks[..n], h) && ShapeAll(ks[n..], h);
  }

  // ----- index node growth

  /** What stays the same while an index node takes up an insertion below it: the node and its
      place, what is being inserted, and the blocks from before. */
  datatype Task = Task(block: nat, kids: seq<Tree>, height: nat, key: nat, val: nat,
                       parent: nat, next: nat, root: bool, store: Store, used: set<nat>)

  ghost function OldNode(j: Task): Node {
    Node(false, j.root, j.parent, 0, Fences(j.kids))
  }

  /** The children are done, now `ks1`; the node still has to be written. */
  ghost predicate Pending(j: Task, ks1: seq<Tree>, s: Store, u: set<nat>) {
    && j.height > 0 && 0 < |j.kids| <= MAX_ENTRIES && Owned(Index(j.block, j.kids), j.used) && Sorted(FlatAll(j.kids))
    && ReprAll(s, ks1, j.block, j.next) && HeadLeaf(ks1, j.next) == HeadLeaf(j.kids, j.next)
    && ks1 != [] && ShapeAll(ks1, j.height - 1) && FlatAll(ks1) == Put(FlatAll(j.kids), j.key, j.val)
    && Grown(j.used, u, BlocksAll(j.kids), BlocksAll(ks1))
    && OnlyIn(j.store, s, Support(BlocksAll(j.kids)) + (u - j.used))
  }

  /** The node became `ts`. */
  ghost predicate Finished(j: Task, ts: seq<Tree>, s: Store, u: set<nat>) {
    InsertedTo(j.store, s, j.used, u, Index(j.block, j.kids), ts, j.key, j.val, j.parent, j.next, j.root)
  }

  /** The new child's fence goes in at the lower bound of its lowest key. */
  lemma {:induction false} FencesAbsorbed(ks: seq<Tree>, ks1: seq<Tree>, key: nat, val: nat, h: nat,
                                          c: nat, es: seq<Entry>, pos: nat)
    requires Sorted(FlatAll(ks)) && FlatAll(ks1) == Put(FlatAll(ks), key, val) && ShapeAll(ks1, h)
    requires LacksNext(es, ks1, c)
    requires pos <= |es| && AllBelow(es[..pos], Low(ks1[c + 1])) && (pos < |es| ==> Low(ks1[c + 1]) <= es[pos].key)
    ensures es[..pos] + [Fence(ks1[c + 1])] + es[pos..] == Fences(ks1)
  {
    InsertedSorted(ks, ks1, key, val);
    SeparatorPosition(ks1, c, es, h, pos);
  }

  lemma {:induction false} IndexGrown(j: Task, ks1: seq<Tree>, s1: Store, u1: set<nat>, s2: Store)
    requires Pending(j, ks1, s1, u1) && OnlyIn(s1, s2, {j.block})
    requires j.block in s2 && s2[j.block] == OldNode(j).(es := Fences(ks1))
    ensures Finished(j, [Index(j.block, ks1)], s2, u1)
  {
    var b, ks, u0, next := j.block, j.kids, j.used, j.next;
    var t, t' := Index(b, ks), Index(b, ks1);
    KidsOwned(b, ks, u0);
    assert b !in BlocksAll(ks1);
    KidsFrame(s1, s2, ks1, b, next, {b});
    FlatOne(t');
    BlocksOne(t');
    GrownAround(u0, u1, multiset{b}, BlocksAll(ks), BlocksAll(ks1));
    assert [t'][1..] == [];
    forall x | x !in Support(Blocks(t)) + (u1 - u0)
      ensures x !in Support(BlocksAll(ks)) + (u1 - u0) && x != b
    {
      assert x !in Blocks(t);
    }
  }

  /** The upper children moved under a new node, the lower ones kept. */
  lemma {:induction false} SplitRepr(s: Store, s': Store, b: nat, nb: nat, ks: seq<Tree>, n: nat, parent: nat,
                                     next: nat, root: bool)
    requires ReprAll(s, ks, b, next) && NoDup(BlocksAll(ks)) && 0 < n < |ks|
    requires b !in BlocksAll(ks) && nb !in BlocksAll(ks) && b != nb
    requires s' == Reparented(s, Fences(ks[n..]), nb)
                     [b := Node(false, root, parent, 0, Fences(ks[..n]))]
                     [nb := Node(false, false, parent, 0, Fences(ks[n..]))]
    ensures Repr(s', Index(b, ks[..n]), parent, FirstLeaf(ks[n]), root)
    ensures Repr(s', Index(nb, ks[n..]), parent, next, false)
    ensures OnlyIn(s, s', Support(BlocksAll(ks)) + {b, nb})
  {
    var lo, hi := ks[..n], ks[n..];
    ReprSplit(s, ks, n, b, next);
    SplitBlocks(ks, n);
    var s1 := Reparented(s, Fences(hi), nb);
    MovedOnly(s, s1, hi, nb);
    KidsFrame(s, s1, lo, b, FirstLeaf(hi[0]), Support(BlocksAll(hi)));
    ReprReparented(s, hi, b, next, nb);
    KidsFrame(s1, s', lo, b, FirstLeaf(hi[0]), {b, nb});
    KidsFrame(s1, s', hi, nb, next, {b, nb});
  }

  lemma {:induction false} MovedOnly(s: Store, s1: Store, ks: seq<Tree>, p: nat)
    requires s1 == Reparented(s, Fences(ks), p)
    ensures OnlyIn(s, s1, Support(BlocksAll(ks)))
  {
    forall x: nat | x !in BlocksAll(ks)
      ensures (x in s <==> x in s1) && (x in s ==> s1[x] == s[x])
    {
      ReparentedFrame(s, ks, p, x);
    }
    forall x | x !in Support(BlocksAll(ks))
      ensures (x in s <==> x in s1) && (x in s ==> s1[x] == s[x])
    {
    }
  }

  lemma {:induction false} IndexSplit(j: Task, ks1: seq<Tree>, s1: Store, u1: set<nat>, s2: Store, n: nat, nb: nat)
    requires Pending(j, ks1, s1, u1) && 0 < n < |ks1| && nb !in u1 && nb != 0
    requires s2 == Reparented(s1, Fences(ks1[n..]), nb)
                     [j.block := OldNode(j).(es := Fences(ks1[..n]))]
                     [nb := Node(false, false, j.parent, 0, Fences(ks1[n..]))]
    ensures Finished(j, [Index(j.block, ks1[..n]), Index(nb, ks1[n..])], s2, u1 + {nb})
  {
    var b, ks, s0, u0 := j.block, j.kids, j.store, j.used;
    KidsOwned(b, ks, u0);
    SplitRepr(s1, s2, b, nb, ks1, n, j.parent, j.next, j.root);
    var l, r := Index(b, ks1[..n]), Index(nb, ks1[n..]);
    assert [l, r][1..] == [r];
    FlatTwo(l, r);
    FlatSplit(ks1, n);
    SplitGrown(u0, u1, b, nb, ks, ks1, n);
    SplitOnly(s0, s1, s2, u0, u1, b, nb, ks, ks1);
  }

  lemma {:induction false} SplitGrown(u0: set<nat>, u1: set<nat>, b: nat, nb: nat, ks: seq<Tree>, ks1: seq<Tree>,
                                      n: nat)
    requires Owned(Index(b, ks), u0) && n <= |ks1| && nb !in u1 && nb != 0
    requires Grown(u0, u1, BlocksAll(ks), BlocksAll(ks1))
    ensures Grown(u0, u1 + {nb}, Blocks(Index(b, ks)), BlocksAll([Index(b, ks1[..n]), Index(nb, ks1[n..])]))
  {
    KidsOwned(b, ks, u0);
    GrownAround(u0, u1, multiset{b}, BlocksAll(ks), BlocksAll(ks1));
    var m := multiset{b} + BlocksAll(ks1);
    GrownOne(u1, m, nb);
    GrownTwice(u0, u1, u1 + {nb}, Blocks(Index(b, ks)), m, m + multiset{nb});
    BlocksTwo(Index(b, ks1[..n]), Index(nb, ks1[n..]));
    BlocksSplit(ks1, n);
    SumSwap(multiset{b}, BlocksAll(ks1[..n]), multiset{nb}, BlocksAll(ks1[n..]));
  }

  lemma SumSwap(a: multiset<nat>, x: multiset<nat>, c: multiset<nat>, y: multiset<nat>)
    ensures (a + x) + (c + y) == (a + (x + y)) + c
  {
  }

  lemma {:induction false} SplitOnly(s0: Store, s1: Store, s2: Store, u0: set<nat>, u1: set<nat>, b: nat, nb: nat,
                                     ks: seq<Tree>, ks1: seq<Tree>)
    requires Grown(u0, u1, BlocksAll(ks), BlocksAll(ks1)) && nb !in u1 && u0 <= u1
    requires OnlyIn(s0, s1, Support(BlocksAll(ks)) + (u1 - u0))
    requires OnlyIn(s1, s2, Support(BlocksAll(ks1)) + {b, nb})
    ensures OnlyIn(s0, s2, Support(Blocks(Index(b, ks))) + ((u1 + {nb}) - u0))
  {
    forall x | x !in Support(Blocks(Index(b, ks))) + ((u1 + {nb}) - u0)
      ensures x !in Support(BlocksAll(ks)) + (u1 - u0) && x !in Support(BlocksAll(ks1)) + {b, nb}
    {
      assert x !in Blocks(Index(b, ks));
      assert x in BlocksAll(ks1) ==> x in u1;
    }
  }

  // ----- a new root above the two halves of the old one

  lemma {:induction false} RootGrown(s0: Store, s1: Store, s2: Store, u0: set<nat>, u1: set<nat>, t: Tree,
                                     ts: seq<Tree>, nb: nat,
                                     key: nat, val: nat, flag: bool)
    requires InsertedTo(s0, s1, u0, u1, t, ts, key, val, 0, 0, flag) && |ts| == 2 && Owned(t, u0)
    requires nb !in u1 && nb != 0
    requires ts[0].blk in s1 && ts[1].blk in s1
    requires s2 == s1[ts[0].blk := s1[ts[0].blk].(root := false, parent := nb)]
                     [ts[1].blk := s1[ts[1].blk].(parent := nb)]
                     [nb := Node(false, true, 0, 0, Fences(ts))]
    ensures Repr(s2, Index(nb, ts), 0, 0, true)
    ensures Grown(u0, u1 + {nb}, Blocks(t), Blocks(Index(nb, ts)))
    ensures OnlyIn(s0, s2, Support(Blocks(t)) + ((u1 + {nb}) - u0))
  {
    var l, r := ts[0], ts[1];
    assert ts == [l, r] && ts[1..] == [r];
    BlocksTwo(l, r);
    RootBlock(l);
    RootBlock(r);
    var m := BlocksAll(ts);
    assert nb !in m;
    TwoApart(l, r);
    var sl := s1[l.blk := s1[l.blk].(root := false, parent := nb)];
    ReprDemoted(s1, l, 0, FirstLeaf(r), nb, flag);
    ReprFrame(sl, s2, l, nb, FirstLeaf(r), false);
    MovedKid3(s1, s2, r, 0, 0, nb, l.blk, nb);
    ReprTwo(s2, l, r, nb, 0);
    RootBlocks(s0, s1, s2, u0, u1, t, ts, nb);
  }

  lemma {:induction false} RootBlocks(s0: Store, s1: Store, s2: Store, u0: set<nat>, u1: set<nat>, t: Tree,
                                      ts: seq<Tree>, nb: nat)
    requires Grown(u0, u1, Blocks(t), BlocksAll(ts)) && OnlyIn(s0, s1, Support(Blocks(t)) + (u1 - u0))
    requires |ts| == 2 && nb !in u1 && nb != 0 && u0 <= u1
    requires OnlyIn(s1, s2, {ts[0].blk, ts[1].blk, nb})
    requires ts[0].blk in BlocksAll(ts) && ts[1].blk in BlocksAll(ts)
    ensures Grown(u0, u1 + {nb}, Blocks(t), Blocks(Index(nb, ts)))
    ensures OnlyIn(s0, s2, Support(Blocks(t)) + ((u1 + {nb}) - u0))
  {
    var m := BlocksAll(ts);
    GrownOne(u1, m, nb);
    GrownTwice(u0, u1, u1 + {nb}, Blocks(t), m, m + multiset{nb});
    assert m + multiset{nb} == Blocks(Index(nb, ts));
    forall x | x !in Support(Blocks(t)) + ((u1 + {nb}) - u0)
      ensures x !in Support(Blocks(t)) + (u1 - u0) && x != nb && x != ts[0].blk && x != ts[1].blk
    {
      assert x !in Blocks(t);
      assert x in m ==> x in u1;
    }
  }

  lemma {:induction false} TwoApart(l: Tree, r: Tree)
    requires NoDup(Blocks(l) + Blocks(r))
    ensures NoDup(Blocks(l)) && NoDup(Blocks(r))
    ensures forall b :: b in Blocks(l) ==> b !in Blocks(r)
  {
    forall b
      ensures Blocks(l)[b] <= 1 && Blocks(r)[b] <= 1
      ensures b in Blocks(l) ==> b !in Blocks(r)
    {
      assert (Blocks(l) + Blocks(r))[b] <= 1;
    }
  }

  /** The old root block turned into an ordinary child of `p`. */
  lemma {:induction false} ReprDemoted(s: Store, t: Tree, parent: nat, next: nat, p: nat, flag: bool)
    requires Repr(s, t, parent, next, flag) && NoDup(Blocks(t))
    ensures Repr(s[t.blk := s[t.blk].(root := false, parent := p)], t, p, next, false)
  {
    if t.Index? {
      assert Blocks(t)[t.blk] <= 1;
      ReprAllFrame(s, s[t.blk := s[t.blk].(root := false, parent := p)], t.kids, t.blk, next);
    }
  }

  /** The only child of an index root turned into the root. */
  lemma {:induction false} ReprPromoted(s: Store, t: Tree, parent: nat, next: nat)
    requires Repr(s, t, parent, next, false) && NoDup(Blocks(t))
    ensures Repr(s[t.blk := s[t.blk].(root := true, parent := 0)], t, 0, next, true)
  {
    if t.Index? {
      assert Blocks(t)[t.blk] <= 1;
      ReprAllFrame(s, s[t.blk := s[t.blk].(root := true, parent := 0)], t.kids, t.blk, next);
    }
  }

  lemma {:induction false} SoleTree(ts: seq<Tree>)
    requires |ts| == 1
    ensures FlatAll(ts) == Flat(ts[0]) && BlocksAll(ts) == Blocks(ts[0]) && ts[1..] == []
  {
    assert ts == [ts[0]];
    FlatOne(ts[0]);
    BlocksOne(ts[0]);
  }

  lemma {:induction false} BlocksPair(ts: seq<Tree>)
    requires |ts| == 2 && NoDup(BlocksAll(ts))
    ensures ts == [ts[0], ts[1]] && ts[0].blk != ts[1].blk
    ensures ts[0].blk in BlocksAll(ts) && ts[1].blk in BlocksAll(ts)
  {
    assert ts == [ts[0], ts[1]];
    BlocksTwo(ts[0], ts[1]);
    RootBlock(ts[0]);
    RootBlock(ts[1]);
    assert BlocksAll(ts)[ts[0].blk] <= 1;
  }
}
