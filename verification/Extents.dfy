/** Extent lists: which physical block backs each logical block of a file, and what
    adding, truncating and hole punching do to that mapping. */
module Extents {

  /** Logical blocks `logical .. logical + count` live at `physical .. physical + count`. */
  datatype Extent = Extent(logical: nat, physical: nat, count: nat)

  const BLOCK_SIZE := 4096

  /** How many extents truncate and punch can take aside. */
  const MAX_COLLECTED := 32

  function LEnd(e: Extent): nat {
    e.logical + e.count
  }

  predicate Covers(e: Extent, l: nat) {
    e.logical <= l < LEnd(e)
  }

  function PhysOf(e: Extent, l: nat): nat
    requires Covers(e, l)
  {
    e.physical + (l - e.logical)
  }

  ghost predicate Backs(e: Extent, l: nat, p: nat) {
    Covers(e, l) && p == PhysOf(e, l)
  }

  /** Some extent of the list puts logical block `l` at physical block `p`. */
  ghost predicate Maps(xs: seq<Extent>, l: nat, p: nat) {
    exists i :: 0 <= i < |xs| && Backs(xs[i], l, p)
  }

  ghost predicate Mapped(xs: seq<Extent>, l: nat) {
    exists i :: 0 <= i < |xs| && Covers(xs[i], l)
  }

  ghost predicate Apart(d: Extent, e: Extent) {
    LEnd(d) <= e.logical || LEnd(e) <= d.logical
  }

  ghost predicate Solid(xs: seq<Extent>) {
    forall i :: 0 <= i < |xs| ==> xs[i].count > 0
  }

  /** No logical block is covered twice and no extent is empty. */
  ghost predicate Disjoint(xs: seq<Extent>) {
    && Solid(xs)
    && (forall i, j :: 0 <= i < j < |xs| ==> Apart(xs[i], xs[j]))
  }

  /** Different logical blocks never share a physical block. */
  ghost predicate Injective(xs: seq<Extent>) {
    forall l, m, p :: Maps(xs, l, p) && Maps(xs, m, p) ==> l == m
  }

  lemma MapsAppend(xs: seq<Extent>, ys: seq<Extent>, l: nat, p: nat)
    ensures Maps(xs + ys, l, p) <==> Maps(xs, l, p) || Maps(ys, l, p)
  {
    var zs := xs + ys;
    if Maps(xs, l, p) {
      var i :| 0 <= i < |xs| && Backs(xs[i], l, p);
      assert zs[i] == xs[i];
    }
    if Maps(ys, l, p) {
      var i :| 0 <= i < |ys| && Backs(ys[i], l, p);
      assert zs[|xs| + i] == ys[i];
    }
    if Maps(zs, l, p) {
      var i :| 0 <= i < |zs| && Backs(zs[i], l, p);
      if i < |xs| { assert xs[i] == zs[i]; } else { assert ys[i - |xs|] == zs[i]; }
    }
  }

  lemma MapsOne(e: Extent, l: nat, p: nat)
    ensures Maps([e], l, p) <==> Backs(e, l, p)
  {
    assert [e][0] == e;
  }

  lemma MapsMore(xs: seq<Extent>, e: Extent, l: nat, p: nat)
    ensures Maps(xs + [e], l, p) <==> Maps(xs, l, p) || Backs(e, l, p)
  {
    MapsAppend(xs, [e], l, p);
    MapsOne(e, l, p);
  }

  lemma MappedIsMaps(xs: seq<Extent>, l: nat)
    ensures Mapped(xs, l) <==> exists p :: Maps(xs, l, p)
  {
    if Mapped(xs, l) {
      var i :| 0 <= i < |xs| && Covers(xs[i], l);
      assert Backs(xs[i], l, PhysOf(xs[i], l));
      assert Maps(xs, l, PhysOf(xs[i], l));
    }
    if p :| Maps(xs, l, p) {
      var i :| 0 <= i < |xs| && Backs(xs[i], l, p);
      assert Covers(xs[i], l);
    }
  }

  /** In a disjoint list the mapping is a function. */
  lemma MapsUnique(xs: seq<Extent>, l: nat, p: nat, q: nat)
    requires Disjoint(xs) && Maps(xs, l, p) && Maps(xs, l, q)
    ensures p == q
  {
    var i :| 0 <= i < |xs| && Backs(xs[i], l, p);
    var j :| 0 <= j < |xs| && Backs(xs[j], l, q);
  }

  /** The mapping is a function at `l`. */
  ghost predicate Unique(xs: seq<Extent>, l: nat) {
    forall p, q :: Maps(xs, l, p) && Maps(xs, l, q) ==> p == q
  }

  // ----- resolving

  datatype Place = Hole | At(p: nat)

  /** Where the first extent covering `l` puts it. */
  function Find(xs: seq<Extent>, l: nat): Place {
    if |xs| == 0 then Hole else if Covers(xs[0], l) then At(PhysOf(xs[0], l)) else Find(xs[1..], l)
  }

  /** A block is found exactly if some extent covers it, at a place where one puts it. */
  lemma {:induction false} FindMaps(xs: seq<Extent>, l: nat)
    ensures Find(xs, l) == Hole <==> !Mapped(xs, l)
    ensures Find(xs, l).At? ==> Maps(xs, l, Find(xs, l).p)
  {
    if |xs| > 0 {
      if Covers(xs[0], l) {
        assert Backs(xs[0], l, PhysOf(xs[0], l));
      } else {
        FindMaps(xs[1..], l);
        if Find(xs[1..], l).At? {
          var i :| 0 <= i < |xs[1..]| && Backs(xs[1..][i], l, Find(xs[1..], l).p);
          assert xs[i + 1] == xs[1..][i];
          assert Covers(xs[i + 1], l);
        }
        if Mapped(xs, l) {
          var i :| 0 <= i < |xs| && Covers(xs[i], l);
          assert xs[1..][i - 1] == xs[i];
        }
      }
    }
  }

  lemma FindUnique(xs: seq<Extent>, l: nat, p: nat)
    requires Unique(xs, l)
    ensures Find(xs, l) == At(p) <==> Maps(xs, l, p)
  {
    FindMaps(xs, l);
    if Maps(xs, l, p) { MappedIsMaps(xs, l); }
  }

  lemma DisjointUnique(xs: seq<Extent>, l: nat)
    requires Disjoint(xs)
    ensures Unique(xs, l)
  {
    forall p, q | Maps(xs, l, p) && Maps(xs, l, q) ensures p == q { MapsUnique(xs, l, p, q); }
  }

  lemma {:induction false} FindAppend(xs: seq<Extent>, ys: seq<Extent>, l: nat)
    ensures Find(xs + ys, l) == if Find(xs, l).At? then Find(xs, l) else Find(ys, l)
  {
    if |xs| == 0 {
      assert xs + ys == ys;
    } else {
      assert (xs + ys)[1..] == xs[1..] + ys;
      FindAppend(xs[1..], ys, l);
    }
  }

  /** The first extent that covers `l`. */
  method Resolve(xs: seq<Extent>, l: nat) returns (found: bool, e: Extent)
    ensures found <==> Mapped(xs, l)
    ensures found ==> e in xs && Covers(e, l) && Find(xs, l) == At(PhysOf(e, l)) && Maps(xs, l, PhysOf(e, l))
  {
    found, e := false, Extent(0, 0, 0);
    var i := 0;
    while i < |xs|
      invariant i <= |xs| && !found && Find(xs, l) == Find(xs[i..], l)
      invariant forall k :: 0 <= k < i ==> !Covers(xs[k], l)
    {
      assert xs[i..][1..] == xs[i + 1..];
      if Covers(xs[i], l) {
        assert Backs(xs[i], l, PhysOf(xs[i], l));
        return true, xs[i];
      }
      i := i + 1;
    }
  }

  // ----- adding

  /** `e` directly continues, or is directly continued by, the run `l .. l + n` at `p`. */
  predicate Follows(e: Extent, l: nat, p: nat) {
    LEnd(e) == l && e.physical + e.count == p
  }

  predicate Precedes(e: Extent, l: nat, p: nat, n: nat) {
    l + n == e.logical && p + n == e.physical
  }

  function Joined(e: Extent, l: nat, p: nat, n: nat): Extent
    requires Follows(e, l, p) || Precedes(e, l, p, n)
  {
    if Follows(e, l, p) then Extent(e.logical, e.physical, e.count + n) else Extent(l, p, n + e.count)
  }

  function Without(xs: seq<Extent>, i: nat): seq<Extent>
    requires i < |xs|
  {
    xs[..i] + xs[i + 1..]
  }

  predicate Neighbour(e: Extent, l: nat, p: nat, n: nat) {
    Follows(e, l, p) || Precedes(e, l, p, n)
  }

  /** The first neighbour of the run in list order, or the length of the list. */
  function FirstNeighbour(xs: seq<Extent>, l: nat, p: nat, n: nat): (i: nat)
    ensures i <= |xs| && (i < |xs| ==> Neighbour(xs[i], l, p, n))
  {
    if |xs| == 0 || Neighbour(xs[0], l, p, n) then 0 else 1 + FirstNeighbour(xs[1..], l, p, n)
  }

  /** The list with the run added: its first neighbour gives way to the merged extent at the
      end of the list, else the run is appended on its own. */
  function Added(xs: seq<Extent>, l: nat, p: nat, n: nat): seq<Extent> {
    var i := FirstNeighbour(xs, l, p, n);
    if i < |xs| then Without(xs, i) + [Joined(xs[i], l, p, n)] else xs + [Extent(l, p, n)]
  }

  method AddExtent(xs: seq<Extent>, l: nat, p: nat, n: nat) returns (ys: seq<Extent>)
    ensures ys == Added(xs, l, p, n) && ys != []
    ensures forall k, q :: Maps(ys, k, q) <==> Maps(xs, k, q) || Backs(Extent(l, p, n), k, q)
    ensures n > 0 && Disjoint(xs) && (forall k :: l <= k < l + n ==> !Mapped(xs, k)) ==> Disjoint(ys)
  {
    forall k, q ensures Maps(Added(xs, l, p, n), k, q) <==> Maps(xs, k, q) || Backs(Extent(l, p, n), k, q) {
      AddedMaps(xs, l, p, n, k, q);
    }
    if n > 0 && Disjoint(xs) && forall k :: l <= k < l + n ==> !Mapped(xs, k) { AddedDisjoint(xs, l, p, n); }
    var i := 0;
    while i < |xs|
      invariant i <= |xs| && FirstNeighbour(xs, l, p, n) == i + FirstNeighbour(xs[i..], l, p, n)
    {
      assert xs[i..][1..] == xs[i + 1..];
      if Neighbour(xs[i], l, p, n) {
        return Without(xs, i) + [Joined(xs[i], l, p, n)];
      }
      i := i + 1;
    }
    ys := xs + [Extent(l, p, n)];
  }

  /** Whatever the list, the mapping gains exactly the run. */
  lemma AddedMaps(xs: seq<Extent>, l: nat, p: nat, n: nat, k: nat, q: nat)
    ensures Maps(Added(xs, l, p, n), k, q) <==> Maps(xs, k, q) || Backs(Extent(l, p, n), k, q)
  {
    var i := FirstNeighbour(xs, l, p, n);
    if i < |xs| {
      var m := Joined(xs[i], l, p, n);
      MapsMore(Without(xs, i), m, k, q);
      MapsSplit(xs, i, k, q);
      assert Backs(m, k, q) <==> Backs(xs[i], k, q) || Backs(Extent(l, p, n), k, q);
    } else {
      MapsMore(xs, Extent(l, p, n), k, q);
    }
  }

  lemma AddedSolid(xs: seq<Extent>, l: nat, p: nat, n: nat)
    requires Solid(xs) && n > 0
    ensures Solid(Added(xs, l, p, n))
  {
  }

  lemma AddedDisjoint(xs: seq<Extent>, l: nat, p: nat, n: nat)
    requires Disjoint(xs) && n > 0 && forall k :: l <= k < l + n ==> !Mapped(xs, k)
    ensures Disjoint(Added(xs, l, p, n))
  {
    RunApart(xs, l, p, n);
    var i := FirstNeighbour(xs, l, p, n);
    if i < |xs| { MergedApart(xs, i, l, p, n); }
  }

  /** A block that is already mapped stays where it was found: the new extent comes last, and
      the neighbour that moves there does not cover the block. */
  lemma AddedHidden(xs: seq<Extent>, l: nat, p: nat)
    requires Mapped(xs, l)
    ensures Find(Added(xs, l, p, 1), l) == Find(xs, l)
  {
    FindMaps(xs, l);
    var i := FirstNeighbour(xs, l, p, 1);
    if i < |xs| {
      assert xs == xs[..i] + ([xs[i]] + xs[i + 1..]);
      FindAppend(xs[..i], [xs[i]] + xs[i + 1..], l);
      FindAppend([xs[i]], xs[i + 1..], l);
      FindAppend(xs[..i], xs[i + 1..], l);
      FindAppend(Without(xs, i), [Joined(xs[i], l, p, 1)], l);
      assert !Covers(xs[i], l) && [xs[i]][1..] == [];
    } else {
      FindAppend(xs, [Extent(l, p, 1)], l);
    }
  }

  /** An unmapped run lies apart from every extent. */
  lemma RunApart(xs: seq<Extent>, l: nat, p: nat, n: nat)
    requires Disjoint(xs) && n > 0 && forall k :: l <= k < l + n ==> !Mapped(xs, k)
    ensures forall i :: 0 <= i < |xs| ==> Apart(xs[i], Extent(l, p, n))
  {
    forall i | 0 <= i < |xs| ensures Apart(xs[i], Extent(l, p, n)) {
      if !Apart(xs[i], Extent(l, p, n)) {
        var k := if xs[i].logical < l then l else xs[i].logical;
        assert Covers(xs[i], k) && Mapped(xs, k);
      }
    }
  }

  lemma MergedApart(xs: seq<Extent>, i: nat, l: nat, p: nat, n: nat)
    requires Disjoint(xs) && i < |xs| && n > 0 && Neighbour(xs[i], l, p, n)
    requires forall j :: 0 <= j < |xs| ==> Apart(xs[j], Extent(l, p, n))
    ensures Disjoint(Without(xs, i) + [Joined(xs[i], l, p, n)])
  {
    var rest, m := Without(xs, i), Joined(xs[i], l, p, n);
    RestDisjoint(xs, i);
    forall j | 0 <= j < |rest| ensures Apart(rest[j], m) {
      var o := if j < i then j else j + 1;
      assert rest[j] == xs[o];
      assert Apart(xs[o], Extent(l, p, n));
      ApartAt(xs, o, i);
    }
  }

  lemma ApartAt(xs: seq<Extent>, i: nat, j: nat)
    requires Disjoint(xs) && i < |xs| && j < |xs| && i != j
    ensures Apart(xs[i], xs[j])
  {
    assert if i < j then Apart(xs[i], xs[j]) else Apart(xs[j], xs[i]);
  }

  lemma MapsSplit(xs: seq<Extent>, i: nat, k: nat, q: nat)
    requires i < |xs|
    ensures Maps(xs, k, q) <==> Maps(Without(xs, i), k, q) || Backs(xs[i], k, q)
  {
    assert xs == xs[..i] + ([xs[i]] + xs[i + 1..]);
    MapsAppend(xs[..i], [xs[i]] + xs[i + 1..], k, q);
    MapsAppend([xs[i]], xs[i + 1..], k, q);
    MapsAppend(xs[..i], xs[i + 1..], k, q);
    MapsOne(xs[i], k, q);
  }

  lemma RestDisjoint(xs: seq<Extent>, i: nat)
    requires Disjoint(xs) && i < |xs|
    ensures Disjoint(Without(xs, i))
  {
    var rest := Without(xs, i);
    forall a, b | 0 <= a < b < |rest| ensures Apart(rest[a], rest[b]) {
      var x, y := if a < i then a else a + 1, if b < i then b else b + 1;
      assert rest[a] == xs[x] && rest[b] == xs[y];
    }
  }
}
