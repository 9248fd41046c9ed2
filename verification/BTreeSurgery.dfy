/** What the B+ tree's local repairs do to the abstract tree: replacing a run of
    children under a parent, moving one entry between neighbours and merging two
    neighbours. None of them changes the entry list, the leaf chain or, apart from
    the merged-away node, the set of blocks. */
module BTreeSurgery {
  import opened SortedEntries
  import opened BTreeModel

  ghost function Width(t: Tree): nat {
    match t
    case Leaf(_, es) => |es|
    case Index(_, kids) => |kids|
  }

  /** The entries that the node of `t` stores. */
  ghost function Entries(t: Tree): seq<Entry> {
    match t
    case Leaf(_, es) => es
    case Index(_, kids) => Fences(kids)
  }

  ghost predicate SameKind(l: Tree, r: Tree) {
    l.Leaf? <==> r.Leaf?
  }

  // ----- neighbours

  /** The last entry of `l` moved to the front of `r`. */
  ghost function MoveRight(l: Tree, r: Tree): (Tree, Tree)
    requires SameKind(l, r) && Width(l) > 0
  {
    var n := Width(l) - 1;
    if l.Leaf? then (Leaf(l.blk, l.es[..n]), Leaf(r.blk, [l.es[n]] + r.es))
    else (Index(l.blk, l.kids[..n]), Index(r.blk, [l.kids[n]] + r.kids))
  }

  /** The first entry of `r` moved to the end of `l`. */
  ghost function MoveLeft(l: Tree, r: Tree): (Tree, Tree)
    requires SameKind(l, r) && Width(r) > 0
  {
    if l.Leaf? then (Leaf(l.blk, l.es + [r.es[0]]), Leaf(r.blk, r.es[1..]))
    else (Index(l.blk, l.kids + [r.kids[0]]), Index(r.blk, r.kids[1..]))
  }

  /** `r` absorbed into `l`; the left block survives. */
  ghost function Merge(l: Tree, r: Tree): Tree
    requires SameKind(l, r)
  {
    if l.Leaf? then Leaf(l.blk, l.es + r.es) else Index(l.blk, l.kids + r.kids)
  }

  lemma {:induction false} FlatSplit(ks: seq<Tree>, n: nat)
    requires n <= |ks|
    ensures FlatAll(ks) == FlatAll(ks[..n]) + FlatAll(ks[n..])
  {
    FlatAppend(ks[..n], ks[n..]);
    assert ks == ks[..n] + ks[n..];
  }

  lemma {:induction false} BlocksSplit(ks: seq<Tree>, n: nat)
    requires n <= |ks|
    ensures BlocksAll(ks) == BlocksAll(ks[..n]) + BlocksAll(ks[n..])
  {
    assert ks == ks[..n] + ks[n..];
    BlocksAppend(ks[..n], ks[n..]);
  }

  lemma {:induction false} ReprSplit(s: Store, ks: seq<Tree>, n: nat, parent: nat, next: nat)
    requires n <= |ks|
    ensures ReprAll(s, ks, parent, next)
       <==> ReprAll(s, ks[..n], parent, HeadLeaf(ks[n..], next)) && ReprAll(s, ks[n..], parent, next)
  {
    ReprAppend(s, ks[..n], ks[n..], parent, next);
    assert ks == ks[..n] + ks[n..];
  }

  lemma {:induction false} Regroup(a: multiset<nat>, b: multiset<nat>, c: multiset<nat>, d: multiset<nat>,
                                   e: multiset<nat>,
                                   x: multiset<nat>, y: multiset<nat>)
    requires x == b + c && y == c + e
    ensures (a + x) + (d + e) == (a + b) + (d + y)
  {
  }

  lemma {:induction false} MovedFlat(lk: seq<Tree>, m: Tree, rest: seq<Tree>)
    ensures FlatAll(lk + [m]) + FlatAll(rest) == FlatAll(lk) + FlatAll([m] + rest)
  {
    FlatAppend(lk, [m]);
    FlatAppend([m], rest);
  }

  /** Child `m` at the end of the left list or at the front of the right one. */
  lemma {:induction false} MovedKids(lb: nat, lk: seq<Tree>, rb: nat, m: Tree, rest: seq<Tree>)
    ensures FlatAll(lk + [m]) + FlatAll(rest) == FlatAll(lk) + FlatAll([m] + rest)
    ensures (multiset{lb} + BlocksAll(lk + [m])) + (multiset{rb} + BlocksAll(rest))
         == (multiset{lb} + BlocksAll(lk)) + (multiset{rb} + BlocksAll([m] + rest))
  {
    MovedFlat(lk, m, rest);
    BlocksAppend(lk, [m]);
    BlocksAppend([m], rest);
    Regroup(multiset{lb}, BlocksAll(lk), BlocksAll([m]), multiset{rb}, BlocksAll(rest),
            BlocksAll(lk + [m]), BlocksAll([m] + rest));
  }

  /** Moving an entry to the right neighbour keeps entries and blocks. */
  lemma {:induction false} MoveRightKeeps(l: Tree, r: Tree)
    requires SameKind(l, r) && Width(l) > 0
    ensures var p := MoveRight(l, r);
      && Flat(p.0) + Flat(p.1) == Flat(l) + Flat(r)
      && Blocks(p.0) + Blocks(p.1) == Blocks(l) + Blocks(r)
  {
    var n := Width(l) - 1;
    if l.Leaf? {
      assert l.es == l.es[..n] + [l.es[n]];
    } else {
      assert l.kids == l.kids[..n] + [l.kids[n]];
      MovedKids(l.blk, l.kids[..n], r.blk, l.kids[n], r.kids);
    }
  }

  lemma {:induction false} MoveLeftKeeps(l: Tree, r: Tree)
    requires SameKind(l, r) && Width(r) > 0
    ensures var p := MoveLeft(l, r);
      && Flat(p.0) + Flat(p.1) == Flat(l) + Flat(r)
      && Blocks(p.0) + Blocks(p.1) == Blocks(l) + Blocks(r)
  {
    if l.Leaf? {
      assert r.es == [r.es[0]] + r.es[1..];
    } else {
      assert r.kids == [r.kids[0]] + r.kids[1..];
      MovedKids(l.blk, l.kids, r.blk, r.kids[0], r.kids[1..]);
    }
  }

  lemma {:induction false} MergeKeeps(l: Tree, r: Tree)
    requires SameKind(l, r)
    ensures Flat(Merge(l, r)) == Flat(l) + Flat(r)
    ensures Blocks(Merge(l, r)) + multiset{r.blk} == Blocks(l) + Blocks(r)
  {
    if l.Index? {
      FlatAppend(l.kids, r.kids);
      BlocksAppend(l.kids, r.kids);
    }
  }

  // ----- sizes and lowest keys after a repair

  lemma {:induction false} MoveRightShape(l: Tree, r: Tree, h: nat)
    requires Shape(l, h, MIN_ENTRIES) && Width(l) > MIN_ENTRIES
    requires Shape(r, h, MIN_ENTRIES - 1) && Width(r) == MIN_ENTRIES - 1
    ensures var p := MoveRight(l, r);
      Shape(p.0, h, MIN_ENTRIES) && Shape(p.1, h, MIN_ENTRIES) && Low(p.0) == Low(l) && FirstLeaf(p.0) == FirstLeaf(l)
  {
  }

  lemma {:induction false} MoveLeftShape(l: Tree, r: Tree, h: nat)
    requires Shape(l, h, MIN_ENTRIES - 1) && Width(l) == MIN_ENTRIES - 1
    requires Shape(r, h, MIN_ENTRIES) && Width(r) > MIN_ENTRIES
    ensures var p := MoveLeft(l, r);
      Shape(p.0, h, MIN_ENTRIES) && Shape(p.1, h, MIN_ENTRIES) && Low(p.0) == Low(l) && FirstLeaf(p.0) == FirstLeaf(l)
  {
  }

  lemma {:induction false} MergeShape(l: Tree, r: Tree, h: nat)
    requires Shape(l, h, MIN_ENTRIES - 1) && Shape(r, h, MIN_ENTRIES - 1)
    requires MIN_ENTRIES <= Width(l) + Width(r) <= MAX_ENTRIES
    ensures Shape(Merge(l, r), h, MIN_ENTRIES) && Low(Merge(l, r)) == Low(l) && FirstLeaf(Merge(l, r)) == FirstLeaf(l)
  {
  }

  // ----- replacing a run of children

  /** `s'` agrees with `s` on every block outside `m`. */
  ghost predicate OnlyIn(s: Store, s': Store, m: set<nat>) {
    forall b :: b !in m ==> (b in s <==> b in s') && (b in s ==> s'[b] == s[b])
  }

  lemma {:induction false} PartNoDup(m: multiset<nat>, whole: multiset<nat>)
    requires NoDup(whole) && m <= whole
    ensures NoDup(m)
  {
    forall b ensures m[b] <= 1 { assert whole[b] <= 1; }
  }

  lemma {:induction false} SpliceParts(pre: seq<Tree>, mid: seq<Tree>, post: seq<Tree>)
    ensures FlatAll(pre + mid + post) == FlatAll(pre) + FlatAll(mid) + FlatAll(post)
    ensures BlocksAll(pre + mid + post) == BlocksAll(pre) + BlocksAll(mid) + BlocksAll(post)
  {
    FlatAppend(pre + mid, post);
    FlatAppend(pre, mid);
    BlocksAppend(pre + mid, post);
    BlocksAppend(pre, mid);
  }

  lemma {:induction false} SpliceRepr(s: Store, pre: seq<Tree>, mid: seq<Tree>, post: seq<Tree>, parent: nat, next: nat)
    ensures ReprAll(s, pre + mid + post, parent, next)
       <==> && ReprAll(s, pre, parent, HeadLeaf(mid, HeadLeaf(post, next)))
            && ReprAll(s, mid, parent, HeadLeaf(post, next))
            && ReprAll(s, post, parent, next)
  {
    ReprAppend(s, pre + mid, post, parent, next);
    ReprAppend(s, pre, mid, parent, HeadLeaf(post, next));
  }

  /** Rewriting only the blocks of `mid` (and blocks no sibling uses), so that they now
      spell out `mid'`, leaves the siblings on both sides and the leaf chain intact. */
  lemma {:induction false} Splice(s: Store, s': Store, pre: seq<Tree>, mid: seq<Tree>, mid': seq<Tree>, post: seq<Tree>,
               parent: nat, next: nat)
    requires ReprAll(s, pre + mid + post, parent, next)
    requires SameOn(s, s', BlocksAll(pre)) && SameOn(s, s', BlocksAll(post))
    requires HeadLeaf(mid, HeadLeaf(post, next)) == HeadLeaf(mid', HeadLeaf(post, next))
    requires ReprAll(s', mid', parent, HeadLeaf(post, next))
    ensures ReprAll(s', pre + mid' + post, parent, next)
  {
    SpliceRepr(s, pre, mid, post, parent, next);
    ReprAllFrame(s, s', pre, parent, HeadLeaf(mid, HeadLeaf(post, next)));
    ReprAllFrame(s, s', post, parent, next);
    SpliceRepr(s', pre, mid', post, parent, next);
  }

  /** With no block shared, a change confined to the middle children's blocks is
      invisible to the siblings. */
  lemma {:induction false} SpliceFrame(s: Store, s': Store, pre: seq<Tree>, mid: seq<Tree>, post: seq<Tree>)
    requires NoDup(BlocksAll(pre + mid + post))
    requires OnlyIn(s, s', Support(BlocksAll(mid)))
    ensures SameOn(s, s', BlocksAll(pre)) && SameOn(s, s', BlocksAll(post))
  {
    SpliceParts(pre, mid, post);
    forall b | b in BlocksAll(pre) || b in BlocksAll(post)
      ensures b !in BlocksAll(mid)
    {
      assert BlocksAll(pre + mid + post)[b] <= 1;
    }
  }

  // ----- where a key belongs among the children

  /** The child found by fence-key descent is the only one that can hold the key. */
  lemma {:induction false} ChildRange(ks: seq<Tree>, h: nat, i: nat, key: nat)
    requires ShapeAll(ks, h) && Sorted(FlatAll(ks)) && i < |ks|
    requires i == 0 || Low(ks[i]) <= key
    requires i + 1 < |ks| ==> key < Low(ks[i + 1])
    ensures FlatAll(ks) == FlatAll(ks[..i]) + Flat(ks[i]) + FlatAll(ks[i + 1..])
    ensures AllBelow(FlatAll(ks[..i]), key) && AllAbove(FlatAll(ks[i + 1..]), key)
    ensures Sorted(Flat(ks[i]))
  {
    var a, m, b := FlatAll(ks[..i]), Flat(ks[i]), FlatAll(ks[i + 1..]);
    KidParts(ks, i);
    SortedParts(a + m, b);
    SortedParts(a, m);
    LowIsFirst(ks[i], h, MIN_ENTRIES);
    SortedBelow(a, m);
    if i > 0 {
      BelowMore(a, Low(ks[i]), key);
    } else {
      assert ks[..i] == [];
    }
    if i + 1 < |ks| {
      FlatHead(ks[i + 1..], h);
    } else {
      assert ks[i + 1..] == [];
    }
    SortedAbove(b, key);
  }

  lemma {:induction false} KidParts(ks: seq<Tree>, i: nat)
    requires i < |ks|
    ensures ks == ks[..i] + [ks[i]] + ks[i + 1..]
    ensures FlatAll(ks) == FlatAll(ks[..i]) + Flat(ks[i]) + FlatAll(ks[i + 1..])
    ensures BlocksAll(ks) == BlocksAll(ks[..i]) + Blocks(ks[i]) + BlocksAll(ks[i + 1..])
  {
    SpliceParts(ks[..i], [ks[i]], ks[i + 1..]);
    FlatOne(ks[i]);
    BlocksOne(ks[i]);
    assert ks == ks[..i] + [ks[i]] + ks[i + 1..];
  }

  /** The first entry of a child list is the lowest key of its first child. */
  lemma {:induction false} FlatHead(ks: seq<Tree>, h: nat)
    requires ShapeAll(ks, h) && ks != []
    ensures FlatAll(ks) != [] && FlatAll(ks)[0].key == Low(ks[0])
  {
    LowIsFirst(ks[0], h, MIN_ENTRIES);
  }

  /** Fences ascend along an index node. */
  lemma {:induction false} FencesAscend(ks: seq<Tree>, h: nat, i: nat, j: nat)
    requires ShapeAll(ks, h) && Sorted(FlatAll(ks)) && i < j < |ks|
    ensures Low(ks[i]) < Low(ks[j])
  {
    FlatSplit(ks, j);
    FlatHead(ks[j..], h);
    SortedBelow(FlatAll(ks[..j]), FlatAll(ks[j..]));
    FlatSplit(ks[..j], i);
    var rest := ks[..j][i..];
    assert rest[0] == ks[i];
    FlatHead(rest, h);
    assert FlatAll(ks[..j])[|FlatAll(ks[..j][..i])|] == FlatAll(rest)[0];
  }
}
