/** The abstract B+ tree behind the blocks of a SmKFS directory.

    A node is what one block holds; a `Tree` is the shape a root block stands for.
    `Repr` says that a store of blocks spells out a given tree, with exact fence
    keys, parent links and leaf chain; `Flat` is the tree's entry list in key order
    and `Blocks` counts how often each block is referenced. */
module BTreeModel {
  import opened SortedEntries

  const BLOCK_SIZE := 4096
  const NODE_HEADER := 56
  const ENTRY_SIZE := 264

  const MAX_ENTRIES := (BLOCK_SIZE - NODE_HEADER) / ENTRY_SIZE
  const MIN_ENTRIES := MAX_ENTRIES / 2

  /** A node as stored in one block. `es` are its entries: (name, record id) in a leaf,
      (fence, child block) in an index node. */
  datatype Node = Node(leaf: bool, root: bool, parent: nat, right: nat, es: seq<Entry>)

  type Store = map<nat, Node>

  datatype Tree =
    | Leaf(blk: nat, es: seq<Entry>)
    | Index(blk: nat, kids: seq<Tree>)

  // ----- contents, blocks, first leaf, lowest key

  ghost function Flat(t: Tree): seq<Entry>
    decreases t
  {
    match t
    case Leaf(_, es) => es
    case Index(_, kids) => FlatAll(kids)
  }

  ghost function FlatAll(ks: seq<Tree>): seq<Entry>
    decreases ks
  {
    if ks == [] then [] else Flat(ks[0]) + FlatAll(ks[1..])
  }

  ghost function Blocks(t: Tree): multiset<nat>
    decreases t
  {
    match t
    case Leaf(b, _) => multiset{b}
    case Index(b, kids) => multiset{b} + BlocksAll(kids)
  }

  ghost function BlocksAll(ks: seq<Tree>): multiset<nat>
    decreases ks
  {
    if ks == [] then multiset{} else Blocks(ks[0]) + BlocksAll(ks[1..])
  }

  ghost function Support(m: multiset<nat>): set<nat> {
    set b | b in m
  }

  ghost predicate NoDup(m: multiset<nat>) {
    forall b :: m[b] <= 1
  }

  ghost function FirstLeaf(t: Tree): nat {
    match t
    case Leaf(b, _) => b
    case Index(b, kids) => if kids == [] then b else FirstLeaf(kids[0])
  }

  /** The block that the last leaf before `ks` links to. */
  ghost function HeadLeaf(ks: seq<Tree>, next: nat): nat {
    if ks == [] then next else FirstLeaf(ks[0])
  }

  ghost function Low(t: Tree): nat {
    match t
    case Leaf(_, es) => if es == [] then 0 else es[0].key
    case Index(_, kids) => if kids == [] then 0 else Low(kids[0])
  }

  ghost function Fence(t: Tree): Entry {
    Entry(Low(t), t.blk)
  }

  ghost function Fences(ks: seq<Tree>): (es: seq<Entry>)
    ensures |es| == |ks|
    ensures forall i :: 0 <= i < |ks| ==> es[i] == Fence(ks[i])
  {
    seq(|ks|, i requires 0 <= i < |ks| => Fence(ks[i]))
  }

  // ----- shape

  /** `t` has all its leaves at depth `h`, at least `min` entries in its top node, and
      between MIN_ENTRIES and MAX_ENTRIES in every other. */
  ghost predicate Shape(t: Tree, h: nat, min: nat)
    decreases h, 0
  {
    match t
    case Leaf(_, es) => h == 0 && min <= |es| <= MAX_ENTRIES
    case Index(_, kids) => h > 0 && min <= |kids| <= MAX_ENTRIES && ShapeAll(kids, h - 1)
  }

  ghost predicate ShapeAll(ks: seq<Tree>, h: nat)
    decreases h, 1
  {
    forall i :: 0 <= i < |ks| ==> Shape(ks[i], h, MIN_ENTRIES)
  }

  /** The least entry count of a root: an empty leaf is an empty directory, an index
      root with a single child is promoted away. */
  ghost function RootMin(h: nat): nat {
    if h == 0 then 0 else 2
  }

  // ----- representation in the store

  ghost predicate Repr(s: Store, t: Tree, parent: nat, next: nat, root: bool)
    decreases t
  {
    && t.blk in s
    && match t
       case Leaf(b, es) => s[b] == Node(true, root, parent, next, es)
       case Index(b, kids) => s[b] == Node(false, root, parent, 0, Fences(kids)) && ReprAll(s, kids, b, next)
  }

  ghost predicate ReprAll(s: Store, ks: seq<Tree>, parent: nat, next: nat)
    decreases ks
  {
    ks == [] ||
    (Repr(s, ks[0], parent, HeadLeaf(ks[1..], next), false) && ReprAll(s, ks[1..], parent, next))
  }

  // ----- splitting child lists

  lemma {:induction false} FlatAppend(a: seq<Tree>, b: seq<Tree>)
    ensures FlatAll(a + b) == FlatAll(a) + FlatAll(b)
  {
    if a == [] {
      assert a + b == b;
    } else {
      assert (a + b)[1..] == a[1..] + b;
      FlatAppend(a[1..], b);
    }
  }

  lemma {:induction false} BlocksAppend(a: seq<Tree>, b: seq<Tree>)
    ensures BlocksAll(a + b) == BlocksAll(a) + BlocksAll(b)
  {
    if a == [] {
      assert a + b == b;
    } else {
      assert (a + b)[1..] == a[1..] + b;
      BlocksAppend(a[1..], b);
    }
  }

  lemma {:induction false} ReprAppend(s: Store, a: seq<Tree>, b: seq<Tree>, parent: nat, next: nat)
    ensures ReprAll(s, a + b, parent, next)
       <==> ReprAll(s, a, parent, HeadLeaf(b, next)) && ReprAll(s, b, parent, next)
  {
    if a == [] {
      assert a + b == b;
    } else {
      assert (a + b)[1..] == a[1..] + b;
      ReprAppend(s, a[1..], b, parent, next);
    }
  }

  lemma {:induction false} FlatOne(t: Tree)
    ensures FlatAll([t]) == Flat(t)
  {
    assert [t][1..] == [];
  }

  lemma {:induction false} BlocksOne(t: Tree)
    ensures BlocksAll([t]) == Blocks(t)
  {
    assert [t][1..] == [];
  }

  lemma {:induction false} ReprOne(s: Store, t: Tree, parent: nat, next: nat)
    ensures ReprAll(s, [t], parent, next) <==> Repr(s, t, parent, next, false)
  {
    assert [t][1..] == [];
  }

  lemma {:induction false} FlatTwo(l: Tree, r: Tree)
    ensures FlatAll([l, r]) == Flat(l) + Flat(r)
  {
    assert [l, r][1..] == [r];
    FlatOne(r);
  }

  lemma {:induction false} BlocksTwo(l: Tree, r: Tree)
    ensures BlocksAll([l, r]) == Blocks(l) + Blocks(r)
  {
    assert [l, r][1..] == [r];
    BlocksOne(r);
  }

  lemma {:induction false} ReprTwo(s: Store, l: Tree, r: Tree, parent: nat, next: nat)
    ensures ReprAll(s, [l, r], parent, next)
       <==> Repr(s, l, parent, FirstLeaf(r), false) && Repr(s, r, parent, next, false)
  {
    assert [l, r][1..] == [r];
    ReprOne(s, r, parent, next);
  }

  lemma {:induction false} FencesAppend(a: seq<Tree>, b: seq<Tree>)
    ensures Fences(a + b) == Fences(a) + Fences(b)
  {
  }

  // ----- basic facts

  lemma {:induction false} RootBlock(t: Tree)
    ensures t.blk in Blocks(t)
    ensures Blocks(t)[t.blk] >= 1
  {
  }

  lemma {:induction false} KidBlocks(ks: seq<Tree>, i: nat)
    requires i < |ks|
    ensures Blocks(ks[i]) <= BlocksAll(ks)
  {
    if i > 0 {
      assert ks[1..][i - 1] == ks[i];
      KidBlocks(ks[1..], i - 1);
    }
  }

  /** Equal leaf depth makes the lowest key of a tree the key of its first entry. */
  lemma {:induction false} LowIsFirst(t: Tree, h: nat, min: nat)
    requires Shape(t, h, min) && min >= 1
    ensures Flat(t) != [] && Flat(t)[0].key == Low(t)
    decreases h
  {
    match t
    case Leaf(_, _) =>
    case Index(_, kids) => LowIsFirst(kids[0], h - 1, MIN_ENTRIES);
  }

  lemma {:induction false} FirstLeafBlock(t: Tree)
    ensures FirstLeaf(t) in Blocks(t)
    decreases t
  {
    match t
    case Leaf(_, _) =>
    case Index(_, kids) => if kids != [] { FirstLeafBlock(kids[0]); }
  }

  // ----- frames

  ghost predicate SameOn(s: Store, s': Store, m: multiset<nat>) {
    forall b :: b in m && b in s ==> b in s' && s'[b] == s[b]
  }

  /** A tree reads no block outside its own. */
  lemma {:induction false} ReprFrame(s: Store, s': Store, t: Tree, parent: nat, next: nat, root: bool)
    requires Repr(s, t, parent, next, root) && SameOn(s, s', Blocks(t))
    ensures Repr(s', t, parent, next, root)
    decreases t
  {
    match t
    case Leaf(_, _) =>
    case Index(b, kids) => ReprAllFrame(s, s', kids, b, next);
  }

  lemma {:induction false} ReprAllFrame(s: Store, s': Store, ks: seq<Tree>, parent: nat, next: nat)
    requires ReprAll(s, ks, parent, next) && SameOn(s, s', BlocksAll(ks))
    ensures ReprAll(s', ks, parent, next)
    decreases ks
  {
    if ks != [] {
      ReprFrame(s, s', ks[0], parent, HeadLeaf(ks[1..], next), false);
      ReprAllFrame(s, s', ks[1..], parent, next);
    }
  }

  lemma {:induction false} ReprAt(s: Store, ks: seq<Tree>, parent: nat, next: nat, i: nat)
    requires ReprAll(s, ks, parent, next) && i < |ks|
    ensures Repr(s, ks[i], parent, HeadLeaf(ks[i + 1..], next), false)
  {
    if i > 0 {
      assert ks[1..][i - 1] == ks[i];
      assert ks[1..][i..] == ks[i + 1..];
      ReprAt(s, ks[1..], parent, next, i - 1);
    }
  }

  // ----- moving nodes under another parent

  /** The store after the children named by `es` were pointed at parent `p`, in order. */
  ghost function Reparented(s: Store, es: seq<Entry>, p: nat): Store {
    if es == [] || es[0].val !in s then s
    else Reparented(s[es[0].val := s[es[0].val].(parent := p)], es[1..], p)
  }

  lemma {:induction false} ReparentedFrame(s: Store, ks: seq<Tree>, p: nat, b: nat)
    requires b !in BlocksAll(ks)
    ensures b in s <==> b in Reparented(s, Fences(ks), p)
    ensures b in s ==> Reparented(s, Fences(ks), p)[b] == s[b]
    decreases |ks|
  {
    if ks != [] && ks[0].blk in s {
      RootBlock(ks[0]);
      assert Fences(ks)[1..] == Fences(ks[1..]);
      ReparentedFrame(s[ks[0].blk := s[ks[0].blk].(parent := p)], ks[1..], p, b);
    }
  }

  lemma {:induction false} ReprMoved(s: Store, t: Tree, parent: nat, next: nat, root: bool, p: nat)
    requires Repr(s, t, parent, next, root) && NoDup(Blocks(t))
    ensures Repr(s[t.blk := s[t.blk].(parent := p)], t, p, next, root)
  {
    match t
    case Leaf(_, _) =>
    case Index(b, kids) =>
      assert Blocks(t)[b] <= 1;
      ReprAllFrame(s, s[t.blk := s[t.blk].(parent := p)], kids, b, next);
  }

  lemma {:induction false} ReprReparented(s: Store, ks: seq<Tree>, parent: nat, next: nat, p: nat)
    requires ReprAll(s, ks, parent, next) && NoDup(BlocksAll(ks))
    ensures ReprAll(Reparented(s, Fences(ks), p), ks, p, next)
    decreases |ks|
  {
    if ks != [] {
      var t := ks[0];
      var s1 := s[t.blk := s[t.blk].(parent := p)];
      RootBlock(t);
      assert NoDup(Blocks(t)) by {
        forall b ensures Blocks(t)[b] <= 1 { assert BlocksAll(ks)[b] <= 1; }
      }
      assert NoDup(BlocksAll(ks[1..])) by {
        forall b ensures BlocksAll(ks[1..])[b] <= 1 { assert BlocksAll(ks)[b] <= 1; }
      }
      ReprMoved(s, t, parent, HeadLeaf(ks[1..], next), false, p);
      assert t.blk !in BlocksAll(ks[1..]) by { assert BlocksAll(ks)[t.blk] <= 1; }
      ReprAllFrame(s, s1, ks[1..], parent, next);
      ReprReparented(s1, ks[1..], parent, next, p);
      assert Fences(ks)[1..] == Fences(ks[1..]);
      var s2 := Reparented(s1, Fences(ks[1..]), p);
      assert SameOn(s1, s2, Blocks(t)) by {
        forall b | b in Blocks(t) && b in s1 ensures b in s2 && s2[b] == s1[b] {
          assert BlocksAll(ks)[b] <= 1;
          ReparentedFrame(s1, ks[1..], p, b);
        }
      }
      ReprFrame(s1, s2, t, p, HeadLeaf(ks[1..], next), false);
    }
  }
}
