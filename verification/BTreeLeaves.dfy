/** The leaf chain: following right_sibling from the first leaf meets every leaf of the
    tree once, in key order. */
module BTreeLeaves {
  import opened SortedEntries
  import opened BTreeModel
  import opened BTreeSurgery

  ghost function Leaves(t: Tree): seq<Tree>
    decreases t
  {
    match t
    case Leaf(_, _) => [t]
    case Index(_, kids) => LeavesAll(kids)
  }

  ghost function LeavesAll(ks: seq<Tree>): seq<Tree>
    decreases ks
  {
    if ks == [] then [] else Leaves(ks[0]) + LeavesAll(ks[1..])
  }

  /** The leaves `ls` are linked one to the next, the last one to `next`. */
  ghost predicate Chain(s: Store, ls: seq<Tree>, next: nat) {
    ls == [] ||
    (&& ls[0].Leaf? && ls[0].blk in s
     && s[ls[0].blk].leaf && s[ls[0].blk].es == ls[0].es
     && s[ls[0].blk].right == HeadLeaf(ls[1..], next)
     && Chain(s, ls[1..], next))
  }

  lemma {:induction false} ChainAppend(s: Store, a: seq<Tree>, b: seq<Tree>, next: nat)
    requires Chain(s, a, HeadLeaf(b, next)) && Chain(s, b, next)
    ensures Chain(s, a + b, next)
  {
    if a == [] {
      assert a + b == b;
    } else {
      assert (a + b)[1..] == a[1..] + b;
      ChainAppend(s, a[1..], b, next);
    }
  }

  /** The leaves of a well-shaped tree start at its first leaf and hold its entries. */
  lemma {:induction false} LeavesOf(t: Tree, h: nat, min: nat)
    requires Shape(t, h, min) && (h > 0 ==> min > 0)
    ensures Leaves(t) != [] && FirstLeaf(t) == FirstLeaf(Leaves(t)[0])
    ensures FlatAll(Leaves(t)) == Flat(t)
    decreases h, 0
  {
    match t
    case Leaf(_, _) => FlatOne(t);
    case Index(_, kids) => LeavesOfAll(kids, h - 1);
  }

  lemma {:induction false} LeavesOfAll(ks: seq<Tree>, h: nat)
    requires ShapeAll(ks, h)
    ensures FlatAll(LeavesAll(ks)) == FlatAll(ks)
    ensures ks != [] ==> LeavesAll(ks) != [] && FirstLeaf(ks[0]) == FirstLeaf(LeavesAll(ks)[0])
    ensures forall next :: HeadLeaf(LeavesAll(ks), next) == HeadLeaf(ks, next)
    decreases h, 1, |ks|
  {
    if ks != [] {
      LeavesOf(ks[0], h, MIN_ENTRIES);
      LeavesOfAll(ks[1..], h);
      FlatAppend(Leaves(ks[0]), LeavesAll(ks[1..]));
    }
  }

  /** A represented tree has a linked leaf chain. */
  lemma {:induction false} ReprChain(s: Store, t: Tree, parent: nat, next: nat, root: bool, h: nat, min: nat)
    requires Repr(s, t, parent, next, root) && Shape(t, h, min)
    ensures Chain(s, Leaves(t), next)
    decreases h, 0
  {
    match t
    case Leaf(_, _) => assert [t][1..] == [];
    case Index(b, kids) => ReprChainAll(s, kids, b, next, h - 1);
  }

  lemma {:induction false} ReprChainAll(s: Store, ks: seq<Tree>, parent: nat, next: nat, h: nat)
    requires ReprAll(s, ks, parent, next) && ShapeAll(ks, h)
    ensures Chain(s, LeavesAll(ks), next)
    decreases h, 1, |ks|
  {
    if ks != [] {
      ReprChain(s, ks[0], parent, HeadLeaf(ks[1..], next), false, h, MIN_ENTRIES);
      ReprChainAll(s, ks[1..], parent, next, h);
      LeavesOfAll(ks[1..], h);
      ChainAppend(s, Leaves(ks[0]), LeavesAll(ks[1..]), next);
    }
  }

  lemma {:induction false} LeafBlock(t: Tree, i: nat)
    requires i < |Leaves(t)|
    ensures Leaves(t)[i].Leaf? && Leaves(t)[i].blk in Blocks(t)
    decreases t
  {
    match t
    case Leaf(_, _) =>
    case Index(_, kids) => LeafBlockAll(kids, i);
  }

  lemma {:induction false} LeafBlockAll(ks: seq<Tree>, i: nat)
    requires i < |LeavesAll(ks)|
    ensures LeavesAll(ks)[i].Leaf? && LeavesAll(ks)[i].blk in BlocksAll(ks)
    decreases ks
  {
    if i < |Leaves(ks[0])| {
      LeafBlock(ks[0], i);
    } else {
      LeafBlockAll(ks[1..], i - |Leaves(ks[0])|);
    }
  }

  lemma {:induction false} LeafWidth(t: Tree, h: nat, min: nat, i: nat)
    requires Shape(t, h, min) && i < |Leaves(t)|
    ensures Leaves(t)[i].Leaf? && |Leaves(t)[i].es| <= MAX_ENTRIES
    decreases t
  {
    LeafBlock(t, i);
    match t
    case Leaf(_, _) =>
    case Index(_, kids) => LeafWidthAll(kids, h - 1, i);
  }

  lemma {:induction false} LeafWidthAll(ks: seq<Tree>, h: nat, i: nat)
    requires ShapeAll(ks, h) && i < |LeavesAll(ks)|
    ensures LeavesAll(ks)[i].Leaf? && |LeavesAll(ks)[i].es| <= MAX_ENTRIES
    decreases ks
  {
    LeafBlockAll(ks, i);
    if i < |Leaves(ks[0])| {
      LeafWidth(ks[0], h, MIN_ENTRIES, i);
    } else {
      LeafWidthAll(ks[1..], h, i - |Leaves(ks[0])|);
    }
  }

  /** Entries taken from the front leaf extend the prefix already visited. */
  lemma {:induction false} ChainTake(visited: seq<Entry>, seen: seq<Entry>, ls: seq<Tree>, all: seq<Entry>)
    requires ls != [] && ls[0].Leaf? && visited + FlatAll(ls) == all && seen <= ls[0].es
    ensures visited + seen <= all
    ensures seen == ls[0].es ==> (visited + seen) + FlatAll(ls[1..]) == all
  {
    PrefixOfConcat(visited, seen, ls[0].es, FlatAll(ls[1..]));
  }

  lemma PrefixOfConcat(a: seq<Entry>, b: seq<Entry>, c: seq<Entry>, d: seq<Entry>)
    requires b <= c
    ensures a + b <= a + (c + d)
    ensures b == c ==> (a + b) + d == a + (c + d)
  {
    var rest := c[|b|..] + d;
    assert c == b + c[|b|..];
    assert a + (c + d) == (a + b) + rest;
  }
}
