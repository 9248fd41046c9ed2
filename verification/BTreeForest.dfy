/** All directories together: a forest of trees over one block store. */
module BTreeForest {
  import opened SortedEntries
  import opened BTreeModel
  import opened BTreeSurgery
  import opened BTreeRepair
  import opened BTreeGrowth
  import opened BTreeLeaves

  /** Whether the root block of `t` carries the ROOT flag. The empty leaf of a new directory
      does not; the root of a formatted volume and every root made by a split do. */
  ghost predicate RootFlag(s: Store, t: Tree) {
    t.blk in s && s[t.blk].root
  }

  /** The invariants of one tree: strictly sorted unique keys, occupancy, equal leaf
      depth, exact fences, parent links, leaf chain, each block referenced once. */
  ghost predicate WellFormed(s: Store, used: set<nat>, root: nat, t: Tree) {
    && t.blk == root
    && Repr(s, t, 0, 0, RootFlag(s, t))
    && (exists h :: Shape(t, h, RootMin(h)))
    && Sorted(Flat(t))
    && Owned(t, used)
  }

  ghost predicate Apart(t: Tree, t': Tree) {
    forall b :: b in Blocks(t) ==> b !in Blocks(t')
  }

  /** Every root names a well-formed tree and no two trees share a block. */
  ghost predicate Forest(s: Store, used: set<nat>, trees: map<nat, Tree>) {
    && (forall r :: r in trees ==> WellFormed(s, used, r, trees[r]))
    && (forall q, r :: q in trees && r in trees && q != r ==> Apart(trees[q], trees[r]))
  }

  /** What an operation on one tree may do so that the others do not notice: write only
      that tree's blocks and freshly allocated ones, keep every other block allocated. */
  ghost predicate Confined(s: Store, s': Store, u: set<nat>, u': set<nat>, was: multiset<nat>, now: multiset<nat>) {
    && OnlyIn(s, s', Support(was) + (u' - u))
    && (forall b :: b in now ==> b in was || b !in u)
    && (forall b :: b in u && b !in was ==> b in u')
  }

  lemma {:induction false} OthersKept(s: Store, s': Store, u: set<nat>, u': set<nat>, was: multiset<nat>,
                                      now: multiset<nat>, r: nat, t: Tree)
    requires WellFormed(s, u, r, t) && Confined(s, s', u, u', was, now)
    requires forall b :: b in Blocks(t) ==> b !in was
    ensures WellFormed(s', u', r, t)
    ensures forall b :: b in Blocks(t) ==> b !in now
  {
    ReprFrame(s, s', t, 0, 0, RootFlag(s, t));
    var h :| Shape(t, h, RootMin(h));
  }

  /** One tree replaced by its successor, every other directory untouched. */
  lemma {:induction false} ForestStep(s: Store, s': Store, u: set<nat>, u': set<nat>, trees: map<nat, Tree>,
                                      root: nat, was: multiset<nat>, root': nat, t': Tree)
    requires Forest(s, u, trees)
    requires was == if root in trees then Blocks(trees[root]) else multiset{}
    requires WellFormed(s', u', root', t') && Confined(s, s', u, u', was, Blocks(t'))
    ensures Forest(s', u', (trees - {root})[root' := t'])
    ensures root' == root || root' !in trees
  {
    var trees' := (trees - {root})[root' := t'];
    RootBlock(t');
    forall r | r in trees && r != root
      ensures WellFormed(s', u', r, trees[r]) && Apart(trees[r], t') && Apart(t', trees[r]) && r != root'
    {
      if root in trees { assert Apart(trees[r], trees[root]); }
      OthersKept(s, s', u, u', was, Blocks(t'), r, trees[r]);
      RootBlock(trees[r]);
    }
  }

  lemma {:induction false} GrownConfined(s: Store, s': Store, u: set<nat>, u': set<nat>, was: multiset<nat>,
                                         now: multiset<nat>)
    requires Grown(u, u', was, now) && OnlyIn(s, s', Support(was) + (u' - u))
    ensures Confined(s, s', u, u', was, now)
  {
  }

  lemma {:induction false} ReleasedConfined(s: Store, s': Store, u: set<nat>, u': set<nat>, was: multiset<nat>,
                                            now: multiset<nat>)
    requires Released(u, u', was, now) && OnlyIn(s, s', Support(was))
    ensures Confined(s, s', u, u', was, now)
  {
  }

  /** Both lists bind `key` alike. */
  ghost predicate SameBinding(whole: seq<Entry>, part: seq<Entry>, key: nat) {
    && (key in ToMap(whole) <==> key in ToMap(part))
    && (key in ToMap(part) ==> ToMap(whole)[key] == ToMap(part)[key])
  }

  /** A descent arrives at a smaller well-formed tree with the binding it looks for. */
  lemma {:induction false} DescendSearch(s: Store, used: set<nat>, b: nat, ks: seq<Tree>, i: nat, key: nat, h: nat,
                                         next: nat)
    requires ReprAll(s, ks, b, next) && Owned(Index(b, ks), used)
    requires i < |ks| && ShapeAll(ks, h) && Sorted(FlatAll(ks))
    requires i == 0 || Low(ks[i]) <= key
    requires i + 1 < |ks| ==> key < Low(ks[i + 1])
    ensures Repr(s, ks[i], b, HeadLeaf(ks[i + 1..], next), false)
    ensures Shape(ks[i], h, MIN_ENTRIES) && Sorted(Flat(ks[i])) && Owned(ks[i], used)
    ensures SameBinding(FlatAll(ks), Flat(ks[i]), key)
  {
    KidsOwned(b, ks, used);
    Descend(s, used, ks, i, key, h, b, next);
    ChildRange(ks, h, i, key);
    ToMapMiddle(FlatAll(ks[..i]), Flat(ks[i]), FlatAll(ks[i + 1..]), key);
  }

  lemma LeafMap(es: seq<Entry>, pos: nat, key: nat)
    requires Sorted(es) && pos <= |es| && AllBelow(es[..pos], key) && (pos < |es| ==> key <= es[pos].key)
    ensures key in ToMap(es) <==> pos < |es| && es[pos].key == key
    ensures pos < |es| && es[pos].key == key ==> key in ToMap(es) && ToMap(es)[key] == es[pos].val
  {
    LowerBoundFinds(es, pos, key);
    ToMapKeys(es, key);
    if pos < |es| { ToMapAt(es, pos); }
  }

  lemma {:induction false} ReleasedTree(u: set<nat>, u': set<nat>, was: multiset<nat>, t': Tree)
    requires Released(u, u', was, Blocks(t')) && NoDup(was) && forall b :: b in was ==> b != 0 && b in u
    ensures Owned(t', u')
  {
    PartNoDup(Blocks(t'), was);
  }

  lemma {:induction false} PromoteFacts(s: Store, root: nat, k: Tree, used: set<nat>, flag: bool)
    requires Repr(s, Index(root, [k]), 0, 0, flag) && Owned(Index(root, [k]), used)
    ensures Repr(s, k, root, 0, false) && Owned(k, used) && root !in Blocks(k) && k.blk in Blocks(k)
    ensures Blocks(Index(root, [k])) == multiset{root} + Blocks(k)
    ensures s[root].es == [Fence(k)]
    ensures Repr(s[k.blk := s[k.blk].(root := true, parent := 0)], k, 0, 0, true)
  {
    KidsOwned(root, [k], used);
    BlocksOne(k);
    assert ReprAll(s, [k], root, 0);
    ReprOne(s, k, root, 0);
    RootBlock(k);
    ReprPromoted(s, k, root, 0);
    assert Fences([k]) == [Fence(k)];
  }

  lemma {:induction false} PromoteDone(s0: Store, s1: Store, s2: Store, u0: set<nat>, u1: set<nat>, u2: set<nat>,
                                       was: multiset<nat>, t': Tree, k: Tree)
    requires Released(u0, u1, was, Blocks(t')) && Released(u1, u2, Blocks(t'), Blocks(k))
    requires OnlyIn(s0, s1, Support(was)) && OnlyIn(s1, s2, Support(Blocks(t')))
    ensures Released(u0, u2, was, Blocks(k)) && OnlyIn(s0, s2, Support(was))
  {
  }

  /** The leaf chain the iteration is about to walk. */
  lemma {:induction false} ChainStart(s: Store, used: set<nat>, root: nat, t: Tree)
    requires WellFormed(s, used, root, t)
    ensures Chain(s, Leaves(t), 0) && HeadLeaf(Leaves(t), 0) == FirstLeaf(t)
    ensures FlatAll(Leaves(t)) == Flat(t)
    ensures forall i :: 0 <= i < |Leaves(t)| ==>
      Leaves(t)[i].Leaf? && Leaves(t)[i].blk != 0 && |Leaves(t)[i].es| <= MAX_ENTRIES
  {
    var h: nat :| Shape(t, h, RootMin(h));
    LeavesOf(t, h, RootMin(h));
    ReprChain(s, t, 0, 0, RootFlag(s, t), h, RootMin(h));
    forall i | 0 <= i < |Leaves(t)|
      ensures Leaves(t)[i].Leaf? && Leaves(t)[i].blk != 0 && |Leaves(t)[i].es| <= MAX_ENTRIES
    {
      LeafBlock(t, i);
      LeafWidth(t, h, RootMin(h), i);
    }
  }

  /** A fresh block written as an empty leaf, with the ROOT flag or not, is an empty tree. */
  lemma EmptyLeaf(s: Store, u: set<nat>, b: nat, flagged: bool)
    requires b != 0 && b !in u
    ensures var s', t := s[b := Node(true, flagged, 0, 0, [])], Leaf(b, []);
      WellFormed(s', u + {b}, b, t) && Confined(s, s', u, u + {b}, multiset{}, Blocks(t)) && ToMap(Flat(t)) == map[]
  {
    assert Shape(Leaf(b, []), 0, RootMin(0));
  }

  /** No tree has root 0. */
  lemma {:induction false} RootsNotZero(s: Store, u: set<nat>, trees: map<nat, Tree>)
    requires Forest(s, u, trees)
    ensures 0 !in trees && trees - {0} == trees
  {
    if 0 in trees { RootBlock(trees[0]); }
  }

  /** An insertion that did not split the root. */
  lemma {:induction false} RootKept(s: Store, s': Store, u: set<nat>, u': set<nat>, t: Tree, ts: seq<Tree>, h: nat,
                                    key: nat, val: nat, flag: bool)
    requires InsertedTo(s, s', u, u', t, ts, key, val, 0, 0, flag) && |ts| == 1 && Shape(ts[0], h, RootMin(h))
    requires Sorted(Flat(t)) && Owned(t, u)
    ensures WellFormed(s', u', t.blk, ts[0]) && Flat(ts[0]) == Put(Flat(t), key, val)
    ensures Grown(u, u', Blocks(t), Blocks(ts[0]))
    ensures Confined(s, s', u, u', Blocks(t), Blocks(ts[0]))
  {
    SoleTree(ts);
    PutSorted(Flat(t), key, val);
    GrownConfined(s, s', u, u', Blocks(t), Blocks(ts[0]));
  }
}
