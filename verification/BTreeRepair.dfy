/** The store-level counterpart of the repairs: the block writes that
    btree_fix_underflow makes turn a store that spells out two neighbours into one
    that spells out the repaired neighbours. */
module BTreeRepair {
  import opened SortedEntries
  import opened BTreeModel
  import opened BTreeSurgery

  /** Two distinct neighbours under one parent. */
  ghost predicate Pair(s: Store, l: Tree, r: Tree, parent: nat, next: nat) {
    && SameKind(l, r)
    && Repr(s, l, parent, FirstLeaf(r), false)
    && Repr(s, r, parent, next, false)
    && NoDup(Blocks(l) + Blocks(r))
  }

  lemma {:induction false} PairFacts(s: Store, l: Tree, r: Tree, parent: nat, next: nat)
    requires Pair(s, l, r, parent, next)
    ensures l.blk != r.blk
    ensures s[l.blk] == Node(l.Leaf?, false, parent, if l.Leaf? then r.blk else 0, Entries(l))
    ensures s[r.blk] == Node(r.Leaf?, false, parent, if r.Leaf? then next else 0, Entries(r))
    ensures NoDup(Blocks(l)) && NoDup(Blocks(r))
    ensures forall b :: b in Blocks(l) ==> b !in Blocks(r)
  {
    RootBlock(l);
    RootBlock(r);
    assert (Blocks(l) + Blocks(r))[l.blk] <= 1;
    forall b
      ensures Blocks(l)[b] <= 1 && Blocks(r)[b] <= 1
      ensures b in Blocks(l) ==> b !in Blocks(r)
    {
      assert (Blocks(l) + Blocks(r))[b] <= 1;
    }
  }

  /** None of the blocks `m` belongs to the children `ks`. */
  ghost predicate Clear(m: set<nat>, ks: seq<Tree>) {
    forall b :: b in m ==> b !in BlocksAll(ks)
  }

  /** Everything below an index node keeps its representation when the writes miss it. */
  lemma {:induction false} KidsFrame(s: Store, s': Store, ks: seq<Tree>, parent: nat, next: nat, m: set<nat>)
    requires ReprAll(s, ks, parent, next) && OnlyIn(s, s', m) && Clear(m, ks)
    ensures ReprAll(s', ks, parent, next)
  {
    ReprAllFrame(s, s', ks, parent, next);
  }

  /** None of three blocks belongs to the children `ks`. */
  ghost predicate Clear3(x: nat, y: nat, z: nat, ks: seq<Tree>) {
    x !in BlocksAll(ks) && y !in BlocksAll(ks) && z !in BlocksAll(ks)
  }

  /** A child whose block was pointed at a new parent, all its other blocks untouched. */
  lemma {:induction false} MovedKid(s: Store, s': Store, m: Tree, parent: nat, next: nat, p: nat)
    requires Repr(s, m, parent, next, false) && NoDup(Blocks(m))
    requires m.blk in s' && s'[m.blk] == s[m.blk].(parent := p)
    requires forall b :: b in Blocks(m) && b != m.blk && b in s ==> b in s' && s'[b] == s[b]
    ensures Repr(s', m, p, next, false)
  {
    var s1 := s[m.blk := s[m.blk].(parent := p)];
    ReprMoved(s, m, parent, next, false, p);
    ReprFrame(s1, s', m, p, next, false);
  }

  lemma {:induction false} KidsFrame3(s: Store, s': Store, ks: seq<Tree>, parent: nat, next: nat, x: nat, y: nat,
                                      z: nat)
    requires ReprAll(s, ks, parent, next) && OnlyIn(s, s', {x, y, z}) && Clear3(x, y, z, ks)
    ensures ReprAll(s', ks, parent, next)
  {
    assert Clear({x, y, z}, ks);
    KidsFrame(s, s', ks, parent, next, {x, y, z});
  }

  lemma {:induction false} MovedKid3(s: Store, s': Store, m: Tree, parent: nat, next: nat, p: nat, y: nat, z: nat)
    requires Repr(s, m, parent, next, false) && NoDup(Blocks(m)) && OnlyIn(s, s', {m.blk, y, z})
    requires m.blk in s' && s'[m.blk] == s[m.blk].(parent := p)
    requires y !in Blocks(m) && z !in Blocks(m)
    ensures Repr(s', m, p, next, false)
  {
    MovedKid(s, s', m, parent, next, p);
  }

  /** Child `k` next to children `rest`, apart from two blocks `x`, `y` and from `other`. */
  lemma {:induction false} KidApart(k: Tree, rest: seq<Tree>, all: multiset<nat>, x: nat, y: nat, other: seq<Tree>)
    requires all == Blocks(k) + BlocksAll(rest) && NoDup(all)
    requires x !in all && y !in all && x !in BlocksAll(other) && y !in BlocksAll(other)
    requires forall b :: b in all ==> b !in BlocksAll(other)
    ensures NoDup(Blocks(k)) && x !in Blocks(k) && y !in Blocks(k)
    ensures Clear3(k.blk, x, y, rest) && Clear3(k.blk, x, y, other)
  {
    RootBlock(k);
    PartNoDup(Blocks(k), all);
    assert all[k.blk] <= 1;
    assert k.blk in all;
  }

  lemma {:induction false} LastKid(ks: seq<Tree>, x: nat, y: nat, other: seq<Tree>)
    requires ks != [] && NoDup(BlocksAll(ks))
    requires x !in BlocksAll(ks) && y !in BlocksAll(ks) && x !in BlocksAll(other) && y !in BlocksAll(other)
    requires forall b :: b in BlocksAll(ks) ==> b !in BlocksAll(other)
    ensures var n := |ks| - 1; var k := ks[n];
      && NoDup(Blocks(k)) && x !in Blocks(k) && y !in Blocks(k)
      && Clear3(k.blk, x, y, ks[..n]) && Clear3(k.blk, x, y, other)
  {
    var n := |ks| - 1;
    assert ks[n..] == [ks[n]];
    BlocksOne(ks[n]);
    BlocksSplit(ks, n);
    KidApart(ks[n], ks[..n], BlocksAll(ks), x, y, other);
  }

  lemma {:induction false} FirstKid(ks: seq<Tree>, x: nat, y: nat, other: seq<Tree>)
    requires ks != [] && NoDup(BlocksAll(ks))
    requires x !in BlocksAll(ks) && y !in BlocksAll(ks) && x !in BlocksAll(other) && y !in BlocksAll(other)
    requires forall b :: b in BlocksAll(ks) ==> b !in BlocksAll(other)
    ensures var k := ks[0];
      && NoDup(Blocks(k)) && x !in Blocks(k) && y !in Blocks(k)
      && Clear3(k.blk, x, y, ks[1..]) && Clear3(k.blk, x, y, other)
  {
    KidApart(ks[0], ks[1..], BlocksAll(ks), x, y, other);
  }

  lemma {:induction false} IndexBlocks(l: Tree, r: Tree)
    requires l.Index? && r.Index? && NoDup(Blocks(l) + Blocks(r))
    ensures l.blk !in BlocksAll(l.kids) && l.blk !in BlocksAll(r.kids)
    ensures r.blk !in BlocksAll(l.kids) && r.blk !in BlocksAll(r.kids)
    ensures forall b :: b in BlocksAll(l.kids) ==> b !in BlocksAll(r.kids)
    ensures NoDup(BlocksAll(l.kids)) && NoDup(BlocksAll(r.kids))
  {
    var m := Blocks(l) + Blocks(r);
    assert m[l.blk] <= 1 && m[r.blk] <= 1;
    forall b
      ensures BlocksAll(l.kids)[b] <= 1 && BlocksAll(r.kids)[b] <= 1
      ensures b in BlocksAll(l.kids) ==> b !in BlocksAll(r.kids)
    {
      assert m[b] <= 1;
    }
  }

  lemma {:induction false} SplitBlocks(ks: seq<Tree>, n: nat)
    requires n <= |ks| && NoDup(BlocksAll(ks))
    ensures NoDup(BlocksAll(ks[..n])) && NoDup(BlocksAll(ks[n..]))
    ensures forall b :: b in BlocksAll(ks[..n]) ==> b in BlocksAll(ks) && b !in BlocksAll(ks[n..])
    ensures forall b :: b in BlocksAll(ks[n..]) ==> b in BlocksAll(ks)
  {
    BlocksSplit(ks, n);
    forall b
      ensures BlocksAll(ks[..n])[b] <= 1 && BlocksAll(ks[n..])[b] <= 1
      ensures b in BlocksAll(ks[..n]) ==> b in BlocksAll(ks) && b !in BlocksAll(ks[n..])
      ensures b in BlocksAll(ks[n..]) ==> b in BlocksAll(ks)
    {
      assert BlocksAll(ks)[b] <= 1;
    }
  }

  // ----- borrowing from the left

  ghost function BorrowedLeft(s: Store, l: Tree, r: Tree): Store
    requires SameKind(l, r) && Width(l) > 0 && l.blk in s && r.blk in s
    requires l.Index? ==> l.kids[|l.kids| - 1].blk in s
  {
    var n := Width(l) - 1;
    var e := Entries(l)[n];
    var s1 := if l.Leaf? then s else s[e.val := s[e.val].(parent := r.blk)];
    s1[l.blk := s[l.blk].(es := Entries(l)[..n])][r.blk := s[r.blk].(es := [e] + Entries(r))]
  }

  /** Child `m` handed from the end of the left neighbour to the front of the right one. */
  lemma {:induction false} HandRight(s: Store, s': Store, lb: nat, lk: seq<Tree>, m: Tree, rb: nat, rk: seq<Tree>,
                                     parent: nat, next: nat)
    requires ReprAll(s, lk, lb, FirstLeaf(m)) && Repr(s, m, lb, HeadLeaf(rk, next), false) && ReprAll(s, rk, rb, next)
    requires NoDup(Blocks(m)) && lb != rb && lb !in Blocks(m) && rb !in Blocks(m)
    requires Clear3(m.blk, lb, rb, lk) && Clear3(m.blk, lb, rb, rk)
    requires OnlyIn(s, s', {m.blk, lb, rb})
    requires m.blk in s' && s'[m.blk] == s[m.blk].(parent := rb)
    requires lb in s' && s'[lb] == Node(false, false, parent, 0, Fences(lk))
    requires rb in s' && s'[rb] == Node(false, false, parent, 0, Fences([m] + rk))
    ensures Repr(s', Index(lb, lk), parent, FirstLeaf(m), false)
    ensures Repr(s', Index(rb, [m] + rk), parent, next, false)
  {
    KidsFrame3(s, s', lk, lb, FirstLeaf(m), m.blk, lb, rb);
    KidsFrame3(s, s', rk, rb, next, m.blk, lb, rb);
    MovedKid3(s, s', m, lb, HeadLeaf(rk, next), rb, lb, rb);
    ReprOne(s', m, rb, HeadLeaf(rk, next));
    ReprAppend(s', [m], rk, rb, next);
  }

  lemma {:induction false} LastKidRepr(s: Store, lk: seq<Tree>, m: Tree, parent: nat, next: nat)
    requires ReprAll(s, lk + [m], parent, next)
    ensures ReprAll(s, lk, parent, FirstLeaf(m)) && Repr(s, m, parent, next, false)
  {
    ReprAppend(s, lk, [m], parent, next);
    ReprOne(s, m, parent, next);
  }

  lemma {:induction false} BorrowLeftIndex(s: Store, lb: nat, lk: seq<Tree>, m: Tree, rb: nat, rk: seq<Tree>,
                                           parent: nat, next: nat)
    requires Pair(s, Index(lb, lk + [m]), Index(rb, rk), parent, next) && rk != []
    ensures m.blk in s && lb in s && rb in s
    ensures
      var s1 := s[m.blk := s[m.blk].(parent := rb)];
      var s' := s1[lb := s[lb].(es := Fences(lk))][rb := s[rb].(es := Fences([m] + rk))];
      && Repr(s', Index(lb, lk), parent, FirstLeaf(m), false)
      && Repr(s', Index(rb, [m] + rk), parent, next, false)
  {
    var l, r := Index(lb, lk + [m]), Index(rb, rk);
    PairFacts(s, l, r, parent, next);
    IndexBlocks(l, r);
    LastKidRepr(s, lk, m, lb, FirstLeaf(r));
    LastKid(l.kids, lb, rb, rk);
    assert l.kids[..|lk|] == lk;
    var s' := s[m.blk := s[m.blk].(parent := rb)][lb := s[lb].(es := Fences(lk))][rb := s[rb].(es := Fences([m] + rk))];
    HandRight(s, s', lb, lk, m, rb, rk, parent, next);
  }

  lemma {:induction false} BorrowLeftRepr(s: Store, l: Tree, r: Tree, parent: nat, next: nat)
    requires Pair(s, l, r, parent, next) && Width(l) > 0 && Width(r) > 0
    ensures l.Index? ==> l.kids[|l.kids| - 1].blk in s
    ensures var p := MoveRight(l, r);
      && Repr(BorrowedLeft(s, l, r), p.0, parent, FirstLeaf(p.1), false)
      && Repr(BorrowedLeft(s, l, r), p.1, parent, next, false)
    ensures OnlyIn(s, BorrowedLeft(s, l, r), Support(Blocks(l) + Blocks(r)))
  {
    PairFacts(s, l, r, parent, next);
    assert l.blk in Blocks(l) && r.blk in Blocks(r);
    if l.Index? {
      var n := |l.kids| - 1;
      var lk, m := l.kids[..n], l.kids[n];
      assert l.kids == lk + [m];
      BorrowLeftIndex(s, l.blk, lk, m, r.blk, r.kids, parent, next);
      assert Entries(l)[..n] == Fences(lk);
      assert [Entries(l)[n]] + Entries(r) == Fences([m] + r.kids);
      KidBlocks(l.kids, n);
      RootBlock(m);
    }
  }

  // ----- borrowing from the right

  ghost function BorrowedRight(s: Store, l: Tree, r: Tree): Store
    requires SameKind(l, r) && Width(r) > 0 && l.blk in s && r.blk in s
    requires r.Index? ==> r.kids[0].blk in s
  {
    var e := Entries(r)[0];
    var s1 := if l.Leaf? then s else s[e.val := s[e.val].(parent := l.blk)];
    s1[l.blk := s[l.blk].(es := Entries(l) + [e])][r.blk := s[r.blk].(es := Entries(r)[1..])]
  }

  /** Child `m` handed from the front of the right neighbour to the end of the left one. */
  lemma {:induction false} HandLeft(s: Store, s': Store, lb: nat, lk: seq<Tree>, m: Tree, rb: nat, rk: seq<Tree>,
                                    parent: nat, next: nat)
    requires ReprAll(s, lk, lb, FirstLeaf(m)) && Repr(s, m, rb, HeadLeaf(rk, next), false) && ReprAll(s, rk, rb, next)
    requires NoDup(Blocks(m)) && lb != rb && lb !in Blocks(m) && rb !in Blocks(m)
    requires Clear3(m.blk, lb, rb, lk) && Clear3(m.blk, lb, rb, rk)
    requires OnlyIn(s, s', {m.blk, lb, rb})
    requires m.blk in s' && s'[m.blk] == s[m.blk].(parent := lb)
    requires lb in s' && s'[lb] == Node(false, false, parent, 0, Fences(lk + [m]))
    requires rb in s' && s'[rb] == Node(false, false, parent, 0, Fences(rk))
    ensures Repr(s', Index(lb, lk + [m]), parent, HeadLeaf(rk, next), false)
    ensures Repr(s', Index(rb, rk), parent, next, false)
  {
    KidsFrame3(s, s', lk, lb, FirstLeaf(m), m.blk, lb, rb);
    KidsFrame3(s, s', rk, rb, next, m.blk, lb, rb);
    MovedKid3(s, s', m, rb, HeadLeaf(rk, next), lb, lb, rb);
    ReprOne(s', m, lb, HeadLeaf(rk, next));
    ReprAppend(s', lk, [m], lb, HeadLeaf(rk, next));
  }

  lemma {:induction false} BorrowRightRepr(s: Store, l: Tree, r: Tree, parent: nat, next: nat)
    requires Pair(s, l, r, parent, next) && Width(l) > 0 && Width(r) > 1
    ensures r.Index? ==> r.kids[0].blk in s
    ensures var p := MoveLeft(l, r);
      && Repr(BorrowedRight(s, l, r), p.0, parent, FirstLeaf(p.1), false)
      && Repr(BorrowedRight(s, l, r), p.1, parent, next, false)
    ensures OnlyIn(s, BorrowedRight(s, l, r), Support(Blocks(l) + Blocks(r)))
  {
    PairFacts(s, l, r, parent, next);
    assert l.blk in Blocks(l) && r.blk in Blocks(r);
    if l.Index? {
      var m, rest := r.kids[0], r.kids[1..];
      IndexBlocks(l, r);
      assert ReprAll(s, r.kids, r.blk, next);
      assert ReprAll(s, l.kids, l.blk, FirstLeaf(r));
      FirstKid(r.kids, l.blk, r.blk, l.kids);
      assert Repr(s, m, r.blk, HeadLeaf(rest, next), false);
      var s' := BorrowedRight(s, l, r);
      assert Fences(r.kids)[1..] == Fences(rest);
      assert Fences(l.kids) + [Fences(r.kids)[0]] == Fences(l.kids + [m]);
      HandLeft(s, s', l.blk, l.kids, m, r.blk, rest, parent, next);
    }
  }

  // ----- merging

  ghost function Merged(s: Store, l: Tree, r: Tree): Store
    requires SameKind(l, r) && l.blk in s && r.blk in s
  {
    var s1 := if l.Leaf? then s else Reparented(s, Entries(r), l.blk);
    var n := s[l.blk].(es := Entries(l) + Entries(r));
    s1[l.blk := if l.Leaf? then n.(right := s[r.blk].right) else n]
  }

  lemma {:induction false} MergeRepr(s: Store, l: Tree, r: Tree, parent: nat, next: nat)
    requires Pair(s, l, r, parent, next) && Width(l) > 0 && Width(r) > 0
    ensures Repr(Merged(s, l, r), Merge(l, r), parent, next, false)
    ensures OnlyIn(s, Merged(s, l, r), Support(Blocks(l) + Blocks(r)))
    ensures FirstLeaf(Merge(l, r)) == FirstLeaf(l)
  {
    PairFacts(s, l, r, parent, next);
    if l.Index? { MergeIndex(s, l, r, parent, next); }
    assert l.blk in Blocks(l);
  }

  lemma {:induction false} MergeIndex(s: Store, l: Tree, r: Tree, parent: nat, next: nat)
    requires Pair(s, l, r, parent, next) && Width(l) > 0 && Width(r) > 0 && l.Index?
    ensures Repr(Merged(s, l, r), Merge(l, r), parent, next, false)
    ensures OnlyIn(s, Merged(s, l, r), Support(Blocks(l) + Blocks(r)))
    ensures FirstLeaf(Merge(l, r)) == FirstLeaf(l)
  {
    PairFacts(s, l, r, parent, next);
    IndexBlocks(l, r);
    var s1 := Reparented(s, Fences(r.kids), l.blk);
    var s' := Merged(s, l, r);
    ReparentedOnly(s, r.kids, l.blk);
    assert l.blk in s1 && s1[l.blk] == s[l.blk];
    KidsFrame(s, s1, l.kids, l.blk, FirstLeaf(r), Support(BlocksAll(r.kids)));
    ReprReparented(s, r.kids, r.blk, next, l.blk);
    KidsFrame(s1, s', l.kids, l.blk, FirstLeaf(r), {l.blk});
    KidsFrame(s1, s', r.kids, l.blk, next, {l.blk});
    ReprAppend(s', l.kids, r.kids, l.blk, next);
    FencesAppend(l.kids, r.kids);
    assert l.blk in Blocks(l);
  }

  lemma {:induction false} ReparentedOnly(s: Store, ks: seq<Tree>, parent: nat)
    ensures OnlyIn(s, Reparented(s, Fences(ks), parent), Support(BlocksAll(ks)))
  {
    var s1 := Reparented(s, Fences(ks), parent);
    forall b: nat | b !in BlocksAll(ks)
      ensures b in s <==> b in s1
      ensures b in s ==> s1[b] == s[b]
    {
      ReparentedFrame(s, ks, parent, b);
    }
  }

  // ----- a pair among its siblings

  lemma {:induction false} PairParts(ks: seq<Tree>, i: nat)
    requires i + 1 < |ks|
    ensures ks == ks[..i] + [ks[i], ks[i + 1]] + ks[i + 2..]
  {
  }

  lemma {:induction false} PairAt(s: Store, ks: seq<Tree>, i: nat, h: nat, parent: nat, next: nat)
    requires i + 1 < |ks| && ReprAll(s, ks, parent, next) && NoDup(BlocksAll(ks))
    requires Shape(ks[i], h, MIN_ENTRIES - 1) && Shape(ks[i + 1], h, MIN_ENTRIES - 1)
    ensures Pair(s, ks[i], ks[i + 1], parent, HeadLeaf(ks[i + 2..], next))
    ensures Blocks(ks[i]) + Blocks(ks[i + 1]) <= BlocksAll(ks)
  {
    var l, r, pre, post := ks[i], ks[i + 1], ks[..i], ks[i + 2..];
    PairParts(ks, i);
    SpliceRepr(s, pre, [l, r], post, parent, next);
    ReprTwo(s, l, r, parent, HeadLeaf(post, next));
    SpliceParts(pre, [l, r], post);
    BlocksTwo(l, r);
    PartNoDup(Blocks(l) + Blocks(r), BlocksAll(ks));
  }

  lemma {:induction false} PairWithin(ks: seq<Tree>, i: nat)
    requires i + 1 < |ks|
    ensures Blocks(ks[i]) + Blocks(ks[i + 1]) <= BlocksAll(ks)
  {
    PairParts(ks, i);
    SpliceParts(ks[..i], [ks[i], ks[i + 1]], ks[i + 2..]);
    BlocksTwo(ks[i], ks[i + 1]);
  }

  /** The pair `i`, `i + 1` rewritten into `mid`, with the siblings around it. */
  lemma {:induction false} PairReplaced(s: Store, s': Store, ks: seq<Tree>, i: nat, mid: seq<Tree>, parent: nat,
                                        next: nat)
    requires i + 1 < |ks| && ReprAll(s, ks, parent, next) && NoDup(BlocksAll(ks))
    requires OnlyIn(s, s', Support(Blocks(ks[i]) + Blocks(ks[i + 1])))
    requires mid != [] && FirstLeaf(mid[0]) == FirstLeaf(ks[i])
    requires ReprAll(s', mid, parent, HeadLeaf(ks[i + 2..], next))
    requires FlatAll(mid) == Flat(ks[i]) + Flat(ks[i + 1])
    ensures var ks' := ks[..i] + mid + ks[i + 2..];
      && ReprAll(s', ks', parent, next)
      && FlatAll(ks') == FlatAll(ks)
      && HeadLeaf(ks', next) == HeadLeaf(ks, next)
    ensures BlocksAll(ks) == BlocksAll(ks[..i]) + (Blocks(ks[i]) + Blocks(ks[i + 1])) + BlocksAll(ks[i + 2..])
    ensures BlocksAll(ks[..i] + mid + ks[i + 2..]) == BlocksAll(ks[..i]) + BlocksAll(mid) + BlocksAll(ks[i + 2..])
  {
    var l, r, pre, post := ks[i], ks[i + 1], ks[..i], ks[i + 2..];
    PairParts(ks, i);
    SpliceParts(pre, [l, r], post);
    SpliceParts(pre, mid, post);
    FlatTwo(l, r);
    BlocksTwo(l, r);
    SpliceFrame(s, s', pre, [l, r], post);
    Splice(s, s', pre, [l, r], mid, post, parent, next);
  }

  /** The blocks of `t` are real, allocated and referenced once each. */
  ghost predicate Owned(t: Tree, used: set<nat>) {
    && NoDup(Blocks(t))
    && forall b :: b in Blocks(t) ==> b != 0 && b in used
  }

  ghost predicate OwnedAll(ks: seq<Tree>, used: set<nat>) {
    && NoDup(BlocksAll(ks))
    && forall b :: b in BlocksAll(ks) ==> b != 0 && b in used
  }

  /** Blocks leave the allocated set exactly as they leave the tree. */
  ghost predicate Released(before: set<nat>, after: set<nat>, was: multiset<nat>, now: multiset<nat>) {
    && now <= was
    && forall b :: b in after <==> b in before && (b in was ==> b in now)
  }

  /** Entry `j` is child `j` with its exact fence; entry `c` may still carry the fence
      it had before the child below it changed. */
  ghost predicate FencesBut(es: seq<Entry>, ks: seq<Tree>, c: nat, stale: Entry) {
    && |es| == |ks|
    && forall j :: 0 <= j < |ks| ==>
      es[j] == Fence(ks[j]) || (j == c && es[c] == stale && ks[c].blk == stale.val)
  }

  /** Every child is full enough except child `c`, which is one entry short. */
  ghost predicate OneShort(ks: seq<Tree>, h: nat, c: nat) {
    && c < |ks| <= MAX_ENTRIES
    && (forall j :: 0 <= j < |ks| && j != c ==> Shape(ks[j], h, MIN_ENTRIES))
    && Shape(ks[c], h, MIN_ENTRIES - 1) && Width(ks[c]) == MIN_ENTRIES - 1
  }

  /** What a repair of the children `ks` has to preserve. */
  ghost predicate Fixed(s: Store, s': Store, ks: seq<Tree>, ks': seq<Tree>, h: nat, parent: nat, next: nat) {
    && ReprAll(s', ks', parent, next)
    && HeadLeaf(ks', next) == HeadLeaf(ks, next)
    && FlatAll(ks') == FlatAll(ks)
    && ShapeAll(ks', h)
    && OnlyIn(s, s', Support(BlocksAll(ks)))
  }

  lemma {:induction false} OnlyInMore(s: Store, s': Store, m: multiset<nat>, whole: multiset<nat>)
    requires OnlyIn(s, s', Support(m)) && m <= whole
    ensures OnlyIn(s, s', Support(whole))
  {
  }

  lemma {:induction false} ShapeReplaced(ks: seq<Tree>, i: nat, mid: seq<Tree>, h: nat)
    requires i + 1 < |ks| && ShapeAll(mid, h)
    requires forall j :: 0 <= j < |ks| && j != i && j != i + 1 ==> Shape(ks[j], h, MIN_ENTRIES)
    ensures ShapeAll(ks[..i] + mid + ks[i + 2..], h)
  {
  }

  lemma {:induction false} MiddleSum(a: multiset<nat>, m: multiset<nat>, d: multiset<nat>, x: multiset<nat>,
                                     lr: multiset<nat>)
    requires m + x == lr
    ensures (a + m + d) + x == a + lr + d
    ensures lr <= a + lr + d
  {
  }

  lemma {:induction false} PairFixes(s: Store, s': Store, ks: seq<Tree>, c: nat, i: nat, mid: seq<Tree>,
                                     h: nat, parent: nat, next: nat)
    requires OneShort(ks, h, c) && i + 1 < |ks| && (c == i || c == i + 1)
    requires ReprAll(s, ks, parent, next) && NoDup(BlocksAll(ks))
    requires mid != [] && ShapeAll(mid, h) && FirstLeaf(mid[0]) == FirstLeaf(ks[i])
    requires FlatAll(mid) == Flat(ks[i]) + Flat(ks[i + 1])
    requires ReprAll(s', mid, parent, HeadLeaf(ks[i + 2..], next))
    requires OnlyIn(s, s', Support(Blocks(ks[i]) + Blocks(ks[i + 1])))
    ensures Fixed(s, s', ks, ks[..i] + mid + ks[i + 2..], h, parent, next)
  {
    PairReplaced(s, s', ks, i, mid, parent, next);
    ShapeReplaced(ks, i, mid, h);
    PairWithin(ks, i);
    OnlyInMore(s, s', Blocks(ks[i]) + Blocks(ks[i + 1]), BlocksAll(ks));
  }

  lemma {:induction false} PairBlocks(ks: seq<Tree>, i: nat, mid: seq<Tree>, gone: multiset<nat>)
    requires i + 1 < |ks| && BlocksAll(mid) + gone == Blocks(ks[i]) + Blocks(ks[i + 1])
    ensures BlocksAll(ks[..i] + mid + ks[i + 2..]) + gone == BlocksAll(ks)
  {
    PairParts(ks, i);
    SpliceParts(ks[..i], [ks[i], ks[i + 1]], ks[i + 2..]);
    BlocksTwo(ks[i], ks[i + 1]);
    SpliceParts(ks[..i], mid, ks[i + 2..]);
    MiddleSum(BlocksAll(ks[..i]), BlocksAll(mid), BlocksAll(ks[i + 2..]), gone, Blocks(ks[i]) + Blocks(ks[i + 1]));
  }

  /** Children `i` and `i + 1` replaced by two repaired ones on the same blocks. */
  lemma {:induction false} BorrowFixes(s: Store, s': Store, ks: seq<Tree>, c: nat, i: nat, l': Tree, r': Tree,
                                       h: nat, parent: nat, next: nat)
    requires OneShort(ks, h, c) && i + 1 < |ks| && (c == i || c == i + 1)
    requires ReprAll(s, ks, parent, next) && NoDup(BlocksAll(ks))
    requires Shape(l', h, MIN_ENTRIES) && Shape(r', h, MIN_ENTRIES) && FirstLeaf(l') == FirstLeaf(ks[i])
    requires Flat(l') + Flat(r') == Flat(ks[i]) + Flat(ks[i + 1])
    requires Blocks(l') + Blocks(r') == Blocks(ks[i]) + Blocks(ks[i + 1])
    requires Repr(s', l', parent, FirstLeaf(r'), false) && Repr(s', r', parent, HeadLeaf(ks[i + 2..], next), false)
    requires OnlyIn(s, s', Support(Blocks(ks[i]) + Blocks(ks[i + 1])))
    ensures var ks' := ks[..i] + [l', r'] + ks[i + 2..];
      Fixed(s, s', ks, ks', h, parent, next) && BlocksAll(ks') == BlocksAll(ks)
  {
    FlatTwo(l', r');
    BlocksTwo(l', r');
    ReprTwo(s', l', r', parent, HeadLeaf(ks[i + 2..], next));
    PairFixes(s, s', ks, c, i, [l', r'], h, parent, next);
    PairBlocks(ks, i, [l', r'], multiset{});
  }

  /** Children `i` and `i + 1` replaced by their merger; the right block is released. */
  lemma {:induction false} MergeFixes(s: Store, s': Store, ks: seq<Tree>, c: nat, i: nat, m: Tree,
                                      h: nat, parent: nat, next: nat, used: set<nat>)
    requires OneShort(ks, h, c) && i + 1 < |ks| && (c == i || c == i + 1)
    requires ReprAll(s, ks, parent, next) && OwnedAll(ks, used)
    requires Shape(m, h, MIN_ENTRIES) && FirstLeaf(m) == FirstLeaf(ks[i])
    requires Flat(m) == Flat(ks[i]) + Flat(ks[i + 1])
    requires Blocks(m) + multiset{ks[i + 1].blk} == Blocks(ks[i]) + Blocks(ks[i + 1])
    requires Repr(s', m, parent, HeadLeaf(ks[i + 2..], next), false)
    requires OnlyIn(s, s', Support(Blocks(ks[i]) + Blocks(ks[i + 1])))
    ensures var ks' := ks[..i] + [m] + ks[i + 2..];
      && Fixed(s, s', ks, ks', h, parent, next)
      && Released(used, used - {ks[i + 1].blk}, BlocksAll(ks), BlocksAll(ks'))
  {
    FlatOne(m);
    BlocksOne(m);
    ReprOne(s', m, parent, HeadLeaf(ks[i + 2..], next));
    PairFixes(s, s', ks, c, i, [m], h, parent, next);
    PairBlocks(ks, i, [m], multiset{ks[i + 1].blk});
    OneReleased(used, BlocksAll(ks), BlocksAll(ks[..i] + [m] + ks[i + 2..]), ks[i + 1].blk);
  }

  lemma {:induction false} OneReleased(used: set<nat>, was: multiset<nat>, now: multiset<nat>, b: nat)
    requires NoDup(was) && now + multiset{b} == was
    ensures Released(used, used - {b}, was, now)
  {
    assert was[b] <= 1;
    forall x ensures x in now <==> x in was && x != b {
      assert was[x] == now[x] + multiset{b}[x];
    }
  }

  // ----- the parent's fences after a repair

  lemma {:induction false} FencesAfterBorrow(es: seq<Entry>, ks: seq<Tree>, c: nat, stale: Entry, i: nat, l': Tree,
                                             r': Tree)
    requires FencesBut(es, ks, c, stale) && i + 1 < |ks| && (c == i || c == i + 1)
    requires l'.blk == ks[i].blk && r'.blk == ks[i + 1].blk && Low(l') == Low(ks[i])
    ensures FencesBut(es[i + 1 := Entry(Low(r'), es[i + 1].val)], ks[..i] + [l', r'] + ks[i + 2..], c, stale)
  {
  }

  lemma {:induction false} FencesAfterMerge(es: seq<Entry>, ks: seq<Tree>, c: nat, stale: Entry, i: nat, m: Tree)
    requires FencesBut(es, ks, c, stale) && i + 1 < |ks| && (c == i || c == i + 1)
    requires m.blk == ks[i].blk && Low(m) == Low(ks[i])
    ensures FencesBut(es[..i + 1] + es[i + 2..], ks[..i] + [m] + ks[i + 2..], c, stale)
  {
  }

  lemma {:induction false} NodeAt(s: Store, ks: seq<Tree>, i: nat, parent: nat, next: nat)
    requires ReprAll(s, ks, parent, next) && i < |ks|
    ensures ks[i].blk in s && s[ks[i].blk].es == Entries(ks[i])
    ensures |s[ks[i].blk].es| == Width(ks[i])
  {
    ReprAt(s, ks, parent, next, i);
  }

  // ----- one child replaced after a recursive call

  lemma {:induction false} KidOwned(ks: seq<Tree>, i: nat, used: set<nat>)
    requires i < |ks| && OwnedAll(ks, used)
    ensures Owned(ks[i], used)
  {
    KidBlocks(ks, i);
    PartNoDup(Blocks(ks[i]), BlocksAll(ks));
  }

  lemma {:induction false} KidsOwned(b: nat, ks: seq<Tree>, used: set<nat>)
    requires Owned(Index(b, ks), used)
    ensures OwnedAll(ks, used) && b !in BlocksAll(ks) && b != 0 && b in used
  {
    var m := Blocks(Index(b, ks));
    PartNoDup(BlocksAll(ks), m);
    assert m[b] <= 1;
    assert b in m;
  }

  /** A child rewritten into one or more nodes keeps its siblings and the leaf chain. */
  lemma {:induction false} KidReplaced(s: Store, s': Store, ks: seq<Tree>, i: nat, ts: seq<Tree>, parent: nat,
                                       next: nat)
    requires i < |ks| && ReprAll(s, ks, parent, next) && NoDup(BlocksAll(ks))
    requires SameOutside(s, s', Blocks(ks[i]), BlocksAll(ks))
    requires ts != [] && FirstLeaf(ts[0]) == FirstLeaf(ks[i])
    requires ReprAll(s', ts, parent, HeadLeaf(ks[i + 1..], next))
    ensures var ks' := ks[..i] + ts + ks[i + 1..];
      ReprAll(s', ks', parent, next) && HeadLeaf(ks', next) == HeadLeaf(ks, next)
  {
    var pre, post := ks[..i], ks[i + 1..];
    KidParts(ks, i);
    forall b | b in BlocksAll(pre) || b in BlocksAll(post)
      ensures b !in Blocks(ks[i]) && b in BlocksAll(ks)
    {
      assert BlocksAll(ks)[b] <= 1;
    }
    Splice(s, s', pre, [ks[i]], ts, post, parent, next);
  }

  /** `s'` agrees with `s` on the blocks of `whole` that are not in `part`. */
  ghost predicate SameOutside(s: Store, s': Store, part: multiset<nat>, whole: multiset<nat>) {
    forall b :: b in whole && b !in part && b in s ==> b in s' && s'[b] == s[b]
  }

  lemma {:induction false} KidBlocksReplaced(ks: seq<Tree>, i: nat, k': Tree)
    requires i < |ks|
    ensures var ks' := ks[..i] + [k'] + ks[i + 1..];
      BlocksAll(ks') == BlocksAll(ks[..i]) + Blocks(k') + BlocksAll(ks[i + 1..])
    ensures BlocksAll(ks) == BlocksAll(ks[..i]) + Blocks(ks[i]) + BlocksAll(ks[i + 1..])
  {
    KidParts(ks, i);
    SpliceParts(ks[..i], [k'], ks[i + 1..]);
    BlocksOne(k');
  }

  lemma {:induction false} ReleasedMiddle(before: set<nat>, after: set<nat>, a: multiset<nat>, was: multiset<nat>,
                                          now: multiset<nat>, d: multiset<nat>)
    requires Released(before, after, was, now) && NoDup(a + was + d)
    ensures Released(before, after, a + was + d, a + now + d) && NoDup(a + now + d)
  {
    var w := a + was + d;
    forall b
      ensures b in a || b in d ==> b !in was
      ensures (a + now + d)[b] <= 1
    {
      assert w[b] <= 1;
      assert now[b] <= was[b];
    }
  }

  lemma {:induction false} ReleasedOwned(before: set<nat>, after: set<nat>, was: multiset<nat>, ks': seq<Tree>)
    requires Released(before, after, was, BlocksAll(ks')) && NoDup(was)
    requires forall b :: b in was ==> b != 0 && b in before
    ensures OwnedAll(ks', after)
  {
    PartNoDup(BlocksAll(ks'), was);
  }

  lemma {:induction false} ReleasedTwice(u0: set<nat>, u1: set<nat>, u2: set<nat>, m0: multiset<nat>, m1: multiset<nat>,
                                         m2: multiset<nat>)
    requires Released(u0, u1, m0, m1) && Released(u1, u2, m1, m2)
    ensures Released(u0, u2, m0, m2)
  {
  }

  lemma {:induction false} ReleasedRoot(u0: set<nat>, u1: set<nat>, b: nat, ks: seq<Tree>, ks': seq<Tree>)
    requires Released(u0, u1, BlocksAll(ks), BlocksAll(ks')) && b !in BlocksAll(ks)
    ensures Released(u0, u1, Blocks(Index(b, ks)), Blocks(Index(b, ks')))
  {
  }

  // ----- the result of a deletion

  /** The subtree `t` at the same block, now without `key`, its freed blocks released. */
  ghost predicate DeletedTo(s: Store, s': Store, u: set<nat>, u': set<nat>, t: Tree, t': Tree, key: nat,
                            parent: nat, next: nat, root: bool) {
    && Repr(s', t', parent, next, root)
    && t'.blk == t.blk && FirstLeaf(t') == FirstLeaf(t)
    && Flat(t') == Remove(Flat(t), key)
    && Released(u, u', Blocks(t), Blocks(t'))
    && OnlyIn(s, s', Support(Blocks(t)))
  }

  /** Removing a key that is not the lowest leaves the lowest key as it is. */
  lemma {:induction false} LowAfterRemove(t: Tree, t': Tree, h: nat, min: nat, min': nat, key: nat)
    requires Shape(t, h, min) && Shape(t', h, min') && min >= 1 && min' >= 1
    requires Sorted(Flat(t)) && Flat(t') == Remove(Flat(t), key) && key != Low(t)
    ensures Low(t') == Low(t)
  {
    LowIsFirst(t, h, min);
    LowIsFirst(t', h, min');
  }

  /** The child list after the recursive deletion and before any repair. */
  lemma {:induction false} DeleteKid(s: Store, s': Store, u: set<nat>, u': set<nat>, ks: seq<Tree>, i: nat, k': Tree,
                                     key: nat, h: nat, parent: nat, next: nat)
    requires i < |ks| && ReprAll(s, ks, parent, next) && OwnedAll(ks, u)
    requires ShapeAll(ks, h) && Sorted(FlatAll(ks))
    requires i == 0 || Low(ks[i]) <= key
    requires i + 1 < |ks| ==> key < Low(ks[i + 1])
    requires DeletedTo(s, s', u, u', ks[i], k', key, parent, HeadLeaf(ks[i + 1..], next), false)
    ensures var ks' := ks[..i] + [k'] + ks[i + 1..];
      && ReprAll(s', ks', parent, next) && HeadLeaf(ks', next) == HeadLeaf(ks, next)
      && FlatAll(ks') == Remove(FlatAll(ks), key)
      && Released(u, u', BlocksAll(ks), BlocksAll(ks'))
      && OwnedAll(ks', u')
      && OnlyIn(s, s', Support(BlocksAll(ks)))
  {
    var ks' := ks[..i] + [k'] + ks[i + 1..];
    ReprOne(s', k', parent, HeadLeaf(ks[i + 1..], next));
    KidReplaced(s, s', ks, i, [k'], parent, next);
    ChildRange(ks, h, i, key);
    RemoveMiddle(FlatAll(ks[..i]), Flat(ks[i]), FlatAll(ks[i + 1..]), key);
    SpliceParts(ks[..i], [k'], ks[i + 1..]);
    FlatOne(k');
    KidBlocksReplaced(ks, i, k');
    ReleasedMiddle(u, u', BlocksAll(ks[..i]), Blocks(ks[i]), Blocks(k'), BlocksAll(ks[i + 1..]));
    ReleasedOwned(u, u', BlocksAll(ks), ks');
    KidBlocks(ks, i);
    OnlyInMore(s, s', Blocks(ks[i]), BlocksAll(ks));
  }

  /** A fence that is not the deleted key is still exact after the deletion. */
  lemma {:induction false} DeletedFence(k: Tree, k': Tree, h: nat, key: nat)
    requires Shape(k, h, MIN_ENTRIES) && Shape(k', h, MIN_ENTRIES - 1) && k'.blk == k.blk
    requires Sorted(Flat(k)) && Flat(k') == Remove(Flat(k), key)
    ensures key != Low(k) ==> Fence(k') == Fence(k)
  {
    if key != Low(k) {
      LowAfterRemove(k, k', h, MIN_ENTRIES, MIN_ENTRIES - 1, key);
    }
  }

  /** The replaced child is the only one that can be short or have a stale fence. */
  lemma {:induction false} OneKidChanged(ks: seq<Tree>, ks1: seq<Tree>, i: nat, k': Tree, h: nat, key: nat)
    requires i < |ks| <= MAX_ENTRIES && ks1 == ks[..i] + [k'] + ks[i + 1..] && ShapeAll(ks, h)
    requires Shape(k', h, MIN_ENTRIES - 1)
    requires key != Low(ks[i]) ==> Fence(k') == Fence(ks[i])
    ensures if Width(k') < MIN_ENTRIES then OneShort(ks1, h, i) else ShapeAll(ks1, h)
    ensures |ks1| == |ks| && ks1[i] == k'
    ensures forall j :: 0 <= j < |ks| && (j != i || key != Low(ks[i])) ==> Fences(ks)[j] == Fence(ks1[j])
  {
  }

  /** After the recursive deletion the child list is fit for the rest of the deletion. */
  lemma {:induction false} DeleteReady(s: Store, s': Store, u: set<nat>, u': set<nat>, b: nat, ks: seq<Tree>,
                                       ks1: seq<Tree>,
                                       i: nat, k': Tree, key: nat, h: nat, next: nat)
    requires i < |ks| <= MAX_ENTRIES && ks1 == ks[..i] + [k'] + ks[i + 1..]
    requires ReprAll(s, ks, b, next) && OwnedAll(ks, u) && ShapeAll(ks, h) && Sorted(FlatAll(ks))
    requires i == 0 || Low(ks[i]) <= key
    requires i + 1 < |ks| ==> key < Low(ks[i + 1])
    requires DeletedTo(s, s', u, u', ks[i], k', key, b, HeadLeaf(ks[i + 1..], next), false)
    requires Shape(k', h, MIN_ENTRIES - 1) && b !in BlocksAll(ks)
    ensures ReprAll(s', ks1, b, next) && HeadLeaf(ks1, next) == HeadLeaf(ks, next)
    ensures FlatAll(ks1) == Remove(FlatAll(ks), key)
    ensures Released(u, u', BlocksAll(ks), BlocksAll(ks1)) && OwnedAll(ks1, u')
    ensures OnlyIn(s, s', Support(BlocksAll(ks)))
    ensures (b in s ==> b in s' && s'[b] == s[b]) && b !in BlocksAll(ks1)
    ensures if Width(k') < MIN_ENTRIES then OneShort(ks1, h, i) else ShapeAll(ks1, h)
    ensures |ks1| == |ks| && ks1[i] == k' && k'.blk == ks[i].blk
    ensures forall j :: 0 <= j < |ks| && (j != i || key != Low(ks[i])) ==> Fences(ks)[j] == Fence(ks1[j])
  {
    Descend(s, u, ks, i, key, h, b, next);
    DeleteKid(s, s', u, u', ks, i, k', key, h, b, next);
    DeletedFence(ks[i], k', h, key);
    OneKidChanged(ks, ks1, i, k', h, key);
  }

  lemma {:induction false} DeleteDone(s0: Store, s1: Store, s2: Store, u0: set<nat>, u1: set<nat>, u2: set<nat>, b: nat,
                                      ks: seq<Tree>, ks1: seq<Tree>, ks': seq<Tree>,
                                      key: nat, parent: nat, next: nat, root: bool)
    requires b !in BlocksAll(ks) && ks != [] && ks' != []
    requires Released(u0, u1, BlocksAll(ks), BlocksAll(ks1)) && Released(u1, u2, BlocksAll(ks1), BlocksAll(ks'))
    requires OnlyIn(s0, s1, Support(BlocksAll(ks))) && OnlyIn(s1, s2, Support(BlocksAll(ks1)) + {b})
    requires FlatAll(ks1) == Remove(FlatAll(ks), key) && FlatAll(ks') == FlatAll(ks1)
    requires b in s2 && s2[b] == Node(false, root, parent, 0, Fences(ks'))
    requires ReprAll(s2, ks', b, next) && HeadLeaf(ks', next) == HeadLeaf(ks, next)
    ensures DeletedTo(s0, s2, u0, u2, Index(b, ks), Index(b, ks'), key, parent, next, root)
  {
    ReleasedTwice(u0, u1, u2, BlocksAll(ks), BlocksAll(ks1), BlocksAll(ks'));
    ReleasedRoot(u0, u2, b, ks, ks');
    DeleteOnly(s0, s1, s2, u0, u1, b, ks, ks1);
  }

  lemma {:induction false} DeleteOnly(s0: Store, s1: Store, s2: Store, u0: set<nat>, u1: set<nat>, b: nat,
                                      ks: seq<Tree>, ks1: seq<Tree>)
    requires Released(u0, u1, BlocksAll(ks), BlocksAll(ks1))
    requires OnlyIn(s0, s1, Support(BlocksAll(ks))) && OnlyIn(s1, s2, Support(BlocksAll(ks1)) + {b})
    ensures OnlyIn(s0, s2, Support(Blocks(Index(b, ks))))
  {
    var t := Index(b, ks);
    forall x | x !in Support(Blocks(t))
      ensures x !in BlocksAll(ks) && x != b && x !in BlocksAll(ks1)
    {
      assert Blocks(t)[x] == 0;
    }
  }

  /** What a descent into the chosen child may rely on, and that the key is in the whole
      exactly when it is in that child. */
  lemma {:induction false} Descend(s: Store, used: set<nat>, ks: seq<Tree>, i: nat, key: nat, h: nat, parent: nat,
                                   next: nat)
    requires i < |ks| && ReprAll(s, ks, parent, next) && OwnedAll(ks, used)
    requires ShapeAll(ks, h) && Sorted(FlatAll(ks))
    requires i == 0 || Low(ks[i]) <= key
    requires i + 1 < |ks| ==> key < Low(ks[i + 1])
    ensures Repr(s, ks[i], parent, HeadLeaf(ks[i + 1..], next), false)
    ensures Shape(ks[i], h, MIN_ENTRIES) && Sorted(Flat(ks[i])) && Owned(ks[i], used)
    ensures HasKey(FlatAll(ks), key) <==> HasKey(Flat(ks[i]), key)
  {
    ChildRange(ks, h, i, key);
    KidOwned(ks, i, used);
    ReprAt(s, ks, parent, next, i);
    HasKeyMiddle(FlatAll(ks[..i]), Flat(ks[i]), FlatAll(ks[i + 1..]), key);
  }
}
