/** Taking a range of logical blocks out of an extent list: what truncation and hole
    punching leave mapped, and which physical blocks they give back. */
module ExtentCuts {
  import opened Extents

  /** The logical blocks to be unmapped: all from `lo` on, or `lo` up to `hi`. */
  datatype Cut = From(lo: nat) | Between(lo: nat, hi: nat)

  predicate InCut(c: Cut, l: nat) {
    match c
    case From(lo) => lo <= l
    case Between(lo, hi) => lo <= l < hi
  }

  /** `ys` maps what `xs` maps outside the cut, and nothing else. */
  ghost predicate CutMaps(xs: seq<Extent>, ys: seq<Extent>, c: Cut) {
    forall l, p :: Maps(ys, l, p) <==> !InCut(c, l) && Maps(xs, l, p)
  }

  /** Every block outside the cut is found where it was, and none inside. */
  ghost predicate CutFinds(xs: seq<Extent>, ys: seq<Extent>, c: Cut) {
    forall l :: Find(ys, l) == if InCut(c, l) then Hole else Find(xs, l)
  }

  ghost predicate BackedInCut(xs: seq<Extent>, c: Cut, p: nat) {
    exists l :: InCut(c, l) && Maps(xs, l, p)
  }

  /** Exactly the physical blocks that `xs` had inside the cut are given back. */
  ghost predicate Freed(xs: seq<Extent>, u: set<nat>, u': set<nat>, c: Cut) {
    forall p :: p in u' <==> p in u && !BackedInCut(xs, c, p)
  }

  /** The same, but for blocks in `leaked` whose release failed: all of `u` outside the cut
      stays, and of the blocks inside it only leaked ones do. */
  ghost predicate FreedBut(xs: seq<Extent>, u: set<nat>, u': set<nat>, c: Cut, leaked: set<nat>) {
    && u' <= u
    && (forall p :: p in u && p !in u' ==> BackedInCut(xs, c, p))
    && (forall p :: p in u' && BackedInCut(xs, c, p) ==> p in leaked)
    && (forall p :: p in leaked ==> BackedInCut(xs, c, p))
  }

  /** Nothing leaked: exactly the blocks in the cut are free. */
  lemma NothingLeaked(xs: seq<Extent>, u: set<nat>, u': set<nat>, c: Cut)
    ensures FreedBut(xs, u, u', c, {}) <==> Freed(xs, u, u', c)
  {
  }

  predicate InRun(p: nat, start: nat, n: nat) {
    start <= p < start + n
  }

  function Range(start: nat, n: nat): set<nat> {
    set p | start <= p < start + n && InRun(p, start, n)
  }

  /** A piece of an extent: its logical blocks `a .. b`. */
  function Piece(e: Extent, a: nat, b: nat): Extent
    requires e.logical <= a <= b <= LEnd(e)
  {
    Extent(a, e.physical + (a - e.logical), b - a)
  }

  /** The pieces of one extent on either side of the cut. */
  ghost function Kept(e: Extent, c: Cut): seq<Extent> {
    var a := Clip(e, c.lo);
    var b := match c case From(_) => LEnd(e) case Between(lo, hi) => Clip(e, if lo <= hi then hi else lo);
    (if e.logical < a then [Piece(e, e.logical, a)] else []) + (if b < LEnd(e) then [Piece(e, b, LEnd(e))] else [])
  }

  ghost function Clip(e: Extent, l: nat): (r: nat)
    ensures e.logical <= r <= LEnd(e)
  {
    if l < e.logical then e.logical else if l > LEnd(e) then LEnd(e) else l
  }

  lemma KeptMaps(e: Extent, c: Cut, l: nat, p: nat)
    ensures Maps(Kept(e, c), l, p) <==> Backs(e, l, p) && !InCut(c, l)
  {
    var ks := Kept(e, c);
    var a := Clip(e, c.lo);
    var b := match c case From(_) => LEnd(e) case Between(lo, hi) => Clip(e, if lo <= hi then hi else lo);
    var left := if e.logical < a then [Piece(e, e.logical, a)] else [];
    var right := if b < LEnd(e) then [Piece(e, b, LEnd(e))] else [];
    MapsAppend(left, right, l, p);
    if left != [] { MapsOne(left[0], l, p); }
    if right != [] { MapsOne(right[0], l, p); }
  }

  lemma KeptFinds(e: Extent, c: Cut, l: nat)
    ensures Find(Kept(e, c), l) == if InCut(c, l) then Hole else Find([e], l)
  {
    var ks := Kept(e, c);
    assert Find([e], l) == if Covers(e, l) then At(PhysOf(e, l)) else Hole;
    FindMaps(ks, l);
    if Find(ks, l).At? { KeptMaps(e, c, l, Find(ks, l).p); }
    if Covers(e, l) {
      KeptMaps(e, c, l, PhysOf(e, l));
      MappedIsMaps(ks, l);
    }
  }

  /** The physical blocks behind logical blocks `a .. b` of an extent are one run. */
  lemma RunOf(e: Extent, a: nat, b: nat, p: nat)
    requires e.logical <= a <= b <= LEnd(e)
    ensures p in Range(e.physical + (a - e.logical), b - a) <==> exists l :: a <= l < b && Backs(e, l, p)
  {
    if p in Range(e.physical + (a - e.logical), b - a) {
      assert Backs(e, e.logical + (p - e.physical), p);
    }
  }

  // ----- what one step of the rebuild adds

  /** The rebuilt list and the freed blocks after the first `i` extents. */
  ghost predicate RebuiltTo(xs: seq<Extent>, i: nat, ys: seq<Extent>, u: set<nat>, u': set<nat>, c: Cut,
                            leaked: set<nat>)
    requires i <= |xs|
  {
    && CutMaps(xs[..i], ys, c) && CutFinds(xs[..i], ys, c) && FreedBut(xs[..i], u, u', c, leaked) && Solid(ys)
    && (Disjoint(xs) ==> Disjoint(ys) && forall k, j :: 0 <= k < |ys| && i <= j < |xs| ==> Apart(ys[k], xs[j]))
  }

  lemma RebuiltStart(xs: seq<Extent>, u: set<nat>, c: Cut)
    ensures RebuiltTo(xs, 0, [], u, u, c, {})
  {
  }

  /** Extent `i` rebuilt: `ks` are its kept pieces, `gone` the blocks it gives back and
      `leak` those of them whose release failed. */
  lemma RebuiltStep(xs: seq<Extent>, i: nat, ys: seq<Extent>, ks: seq<Extent>, u: set<nat>, u1: set<nat>,
                    gone: set<nat>, c: Cut, leaked: set<nat>, leak: set<nat>)
    requires Solid(xs) && i < |xs| && RebuiltTo(xs, i, ys, u, u1, c, leaked) && ks == Kept(xs[i], c)
    requires leak <= gone <= u && forall p :: p in gone <==> BackedInCut([xs[i]], c, p)
    ensures RebuiltTo(xs, i + 1, ys + ks, u, u1 - gone + leak, c, leaked + leak)
  {
    assert xs[..i + 1] == xs[..i] + [xs[i]];
    forall l, p ensures Maps(ys + ks, l, p) <==> !InCut(c, l) && Maps(xs[..i + 1], l, p) {
      MapsAppend(ys, ks, l, p);
      MapsMore(xs[..i], xs[i], l, p);
      KeptMaps(xs[i], c, l, p);
    }
    forall l ensures Find(ys + ks, l) == if InCut(c, l) then Hole else Find(xs[..i + 1], l) {
      FindAppend(ys, ks, l);
      FindAppend(xs[..i], [xs[i]], l);
      KeptFinds(xs[i], c, l);
    }
    forall p ensures BackedInCut(xs[..i + 1], c, p) <==> BackedInCut(xs[..i], c, p) || p in gone {
      BackedMore(xs[..i], xs[i], c, p);
    }
    if Disjoint(xs) { StepDisjoint(xs, i, ys, ks, c); }
  }

  /** What a rebuild cut short has freed was in the cut. */
  lemma CutShort(xs: seq<Extent>, i: nat, c: Cut, p: nat)
    requires i < |xs| && (BackedInCut(xs[..i], c, p) || BackedInCut([xs[i]], c, p))
    ensures BackedInCut(xs, c, p)
  {
    BackedMore(xs[..i], xs[i], c, p);
    assert xs[..i + 1] == xs[..i] + [xs[i]];
    var l :| InCut(c, l) && Maps(xs[..i + 1], l, p);
    var k :| 0 <= k < i + 1 && Backs(xs[..i + 1][k], l, p);
    assert Backs(xs[k], l, p);
  }

  lemma BackedMore(xs: seq<Extent>, e: Extent, c: Cut, p: nat)
    ensures BackedInCut(xs + [e], c, p) <==> BackedInCut(xs, c, p) || BackedInCut([e], c, p)
  {
    forall l ensures Maps(xs + [e], l, p) <==> Maps(xs, l, p) || Maps([e], l, p) {
      MapsAppend(xs, [e], l, p);
    }
  }

  lemma StepDisjoint(xs: seq<Extent>, i: nat, ys: seq<Extent>, ks: seq<Extent>, c: Cut)
    requires Disjoint(xs) && i < |xs| && Disjoint(ys) && ks == Kept(xs[i], c)
    requires forall k, j :: 0 <= k < |ys| && i <= j < |xs| ==> Apart(ys[k], xs[j])
    ensures Disjoint(ys + ks)
    ensures forall k, j :: 0 <= k < |ys + ks| && i + 1 <= j < |xs| ==> Apart((ys + ks)[k], xs[j])
  {
    var zs := ys + ks;
    forall j | 0 <= j < |ks|
      ensures ks[j].count > 0 && xs[i].logical <= ks[j].logical && LEnd(ks[j]) <= LEnd(xs[i])
    {
    }
    forall k, j | 0 <= k < |zs| && i + 1 <= j < |xs| ensures Apart(zs[k], xs[j]) {
      assert Apart(xs[i], xs[j]);
      if k < |ys| { assert zs[k] == ys[k]; } else { assert zs[k] == ks[k - |ys|]; }
    }
    forall k, j | 0 <= k < j < |zs| ensures Apart(zs[k], zs[j]) {
      if j < |ys| {
        assert zs[k] == ys[k] && zs[j] == ys[j];
      } else if k < |ys| {
        assert zs[k] == ys[k] && zs[j] == ks[j - |ys|];
        assert Apart(ys[k], xs[i]);
      }
    }
  }

  // ----- blocks in use

  ghost predicate AllBacked(e: Extent, u: set<nat>) {
    forall l, p :: Backs(e, l, p) ==> p in u
  }

  ghost predicate InUse(xs: seq<Extent>, u: set<nat>) {
    forall i :: 0 <= i < |xs| ==> AllBacked(xs[i], u)
  }

  /** What an extent gives back was in use. */
  lemma GoneUsed(e: Extent, c: Cut, gone: set<nat>, u: set<nat>)
    requires AllBacked(e, u) && forall p :: p in gone <==> BackedInCut([e], c, p)
    ensures gone <= u
  {
    forall p | p in gone ensures p in u {
      var l :| InCut(c, l) && Maps([e], l, p);
      MapsOne(e, l, p);
    }
  }

  // ----- a hole that ends before it starts

  /** The extent reaches from before block `hi` to behind block `lo`. */
  predicate Straddles(e: Extent, lo: nat, hi: nat) {
    hi < lo && e.logical < hi && lo < LEnd(e)
  }

  /** What the source makes of such an extent: the part up to `lo` and the part from `hi` on. */
  function Crossed(e: Extent, lo: nat, hi: nat): seq<Extent>
    requires Straddles(e, lo, hi)
  {
    [Extent(e.logical, e.physical, lo - e.logical), Extent(hi, e.physical + (hi - e.logical), LEnd(e) - hi)]
  }

  /** The pieces kept of one extent, whichever way round the hole is. */
  ghost function Punched(e: Extent, lo: nat, hi: nat): seq<Extent> {
    if lo <= hi then Kept(e, Between(lo, hi)) else if Straddles(e, lo, hi) then Crossed(e, lo, hi) else [e]
  }

  /** The parts map what the extent mapped, and they overlap. */
  lemma CrossedMaps(e: Extent, lo: nat, hi: nat, l: nat, p: nat)
    requires Straddles(e, lo, hi)
    ensures Maps(Crossed(e, lo, hi), l, p) <==> Backs(e, l, p)
    ensures !Apart(Crossed(e, lo, hi)[0], Crossed(e, lo, hi)[1])
  {
    var c := Crossed(e, lo, hi);
    assert c == [c[0]] + [c[1]];
    MapsAppend([c[0]], [c[1]], l, p);
    MapsOne(c[0], l, p);
    MapsOne(c[1], l, p);
  }

  /** What it gives back for the hole: as many blocks as the negative length is in 32 bits. */
  function CrossedRun(e: Extent, lo: nat, hi: nat): set<nat>
    requires Straddles(e, lo, hi)
  {
    Range(e.physical + (lo - e.logical), (hi - lo) % 0x1_0000_0000)
  }

  /** Five blocks with a hole from block 2 to block 1. */
  lemma CrossedFive(p: nat)
    ensures var e := Extent(0, 100, 5);
      && Crossed(e, 2, 1) == [Extent(0, 100, 2), Extent(1, 101, 4)]
      && (p in CrossedRun(e, 2, 1) <==> 102 <= p < 102 + 0xFFFF_FFFF)
  {
    assert (1 - 2) % 0x1_0000_0000 == 0xFFFF_FFFF;
  }

  ghost predicate SomeStraddles(xs: seq<Extent>, lo: nat, hi: nat) {
    exists i :: 0 <= i < |xs| && Straddles(xs[i], lo, hi)
  }

  ghost predicate SomeOverlap(ys: seq<Extent>) {
    exists a, b :: 0 <= a < b < |ys| && !Apart(ys[a], ys[b])
  }

  lemma OverlapNotDisjoint(ys: seq<Extent>)
    requires SomeOverlap(ys)
    ensures !Disjoint(ys)
  {
  }

  /** The rebuilt list after the first `i` extents, when the hole ends before it starts. */
  ghost predicate CrossedTo(xs: seq<Extent>, i: nat, ys: seq<Extent>, lo: nat, hi: nat)
    requires i <= |xs|
  {
    && (forall l, p :: Maps(ys, l, p) <==> Maps(xs[..i], l, p))
    && if SomeStraddles(xs[..i], lo, hi) then SomeOverlap(ys) else ys == xs[..i]
  }

  lemma CrossedStart(xs: seq<Extent>, lo: nat, hi: nat)
    ensures CrossedTo(xs, 0, [], lo, hi)
  {
  }

  /** Without an extent that straddles, nothing is cut and nothing given back. */
  lemma NothingCrossed(xs: seq<Extent>, u: set<nat>, lo: nat, hi: nat)
    requires hi < lo
    ensures CutMaps(xs, xs, Between(lo, hi)) && CutFinds(xs, xs, Between(lo, hi))
    ensures FreedBut(xs, u, u, Between(lo, hi), {})
  {
  }

  lemma CrossedStep(xs: seq<Extent>, i: nat, ys: seq<Extent>, lo: nat, hi: nat)
    requires i < |xs| && hi < lo && CrossedTo(xs, i, ys, lo, hi)
    ensures CrossedTo(xs, i + 1, ys + Punched(xs[i], lo, hi), lo, hi)
  {
    var e, ks := xs[i], Punched(xs[i], lo, hi);
    var zs := ys + ks;
    assert xs[..i + 1] == xs[..i] + [e];
    forall l, p ensures Maps(zs, l, p) <==> Maps(xs[..i + 1], l, p) {
      MapsAppend(ys, ks, l, p);
      MapsMore(xs[..i], e, l, p);
      if Straddles(e, lo, hi) { CrossedMaps(e, lo, hi, l, p); } else { MapsOne(e, l, p); }
    }
    if SomeStraddles(xs[..i], lo, hi) {
      var k :| 0 <= k < i && Straddles(xs[..i][k], lo, hi);
      assert Straddles(xs[..i + 1][k], lo, hi);
      var a, b :| 0 <= a < b < |ys| && !Apart(ys[a], ys[b]);
      assert zs[a] == ys[a] && zs[b] == ys[b];
    } else if Straddles(e, lo, hi) {
      assert xs[..i + 1][i] == e;
      CrossedMaps(e, lo, hi, 0, 0);
      assert zs[|ys|] == ks[0] && zs[|ys| + 1] == ks[1];
    } else {
      var ws := xs[..i + 1];
      forall k | 0 <= k < |ws| ensures !Straddles(ws[k], lo, hi) {
        if k < i { assert xs[..i][k] == ws[k]; }
      }
    }
  }

  // ----- the limit on collected extents

  function Collected(xs: seq<Extent>): seq<Extent> {
    if |xs| <= MAX_COLLECTED then xs else xs[..MAX_COLLECTED]
  }

  /** Working on the collected extents only is right for the mapping and for the freed
      blocks exactly when every extent was collected. */
  lemma CollectedIsAll(xs: seq<Extent>, c: Cut)
    requires Disjoint(xs) && Injective(xs)
    ensures (&& (forall l, p :: !InCut(c, l) ==> (Maps(Collected(xs), l, p) <==> Maps(xs, l, p)))
             && (forall p :: BackedInCut(Collected(xs), c, p) <==> BackedInCut(xs, c, p)))
       <==> |xs| <= MAX_COLLECTED
  {
    if |xs| > MAX_COLLECTED {
      var e := xs[MAX_COLLECTED];
      var l, p := e.logical, e.physical;
      assert Backs(e, l, p) && Maps(xs, l, p);
      assert !Maps(Collected(xs), l, p) by { NotCollected(xs, l, p); }
      if InCut(c, l) {
        assert BackedInCut(xs, c, p);
        if BackedInCut(Collected(xs), c, p) {
          var m :| InCut(c, m) && Maps(Collected(xs), m, p);
          var i :| 0 <= i < |Collected(xs)| && Backs(Collected(xs)[i], m, p);
          assert xs[i] == Collected(xs)[i];
          assert Maps(xs, m, p);
        }
      }
    }
  }

  lemma NotCollected(xs: seq<Extent>, l: nat, p: nat)
    requires Disjoint(xs) && |xs| > MAX_COLLECTED && Backs(xs[MAX_COLLECTED], l, p)
    ensures !Maps(Collected(xs), l, p)
  {
    forall i | 0 <= i < |Collected(xs)| ensures !Backs(Collected(xs)[i], l, p) {
      assert Apart(xs[i], xs[MAX_COLLECTED]);
    }
  }

  /** 33 one-block extents, truncated to nothing: the last block stays allocated. */
  lemma ThirtyThreeLeak()
    ensures var xs := seq(33, i requires 0 <= i < 33 => Extent(2 * i, 100 + 2 * i, 1));
      Disjoint(xs) && BackedInCut(xs, From(0), 164) && !BackedInCut(Collected(xs), From(0), 164)
  {
    var xs := seq(33, i requires 0 <= i < 33 => Extent(2 * i, 100 + 2 * i, 1));
    assert Backs(xs[32], 64, 164) && Maps(xs, 64, 164);
    forall l: nat, i | 0 <= i < |Collected(xs)| ensures !Backs(Collected(xs)[i], l, 164) {
    }
  }

  // ----- the five cases of a hole against an extent

  /** No overlap; swallowed; hole inside; hole over the tail; hole over the head. */
  predicate Case(n: nat, e: Extent, lo: nat, hi: nat) {
    match n
    case 1 => LEnd(e) <= lo || e.logical >= hi
    case 2 => !(LEnd(e) <= lo || e.logical >= hi) && e.logical >= lo && LEnd(e) <= hi
    case 3 => !(LEnd(e) <= lo || e.logical >= hi) && e.logical < lo && LEnd(e) > hi
    case 4 => !(LEnd(e) <= lo || e.logical >= hi) && e.logical < lo && LEnd(e) <= hi
    case 5 => !(LEnd(e) <= lo || e.logical >= hi) && e.logical >= lo && LEnd(e) > hi
    case _ => false
  }

  /** Exactly one of the five cases applies to any extent and any hole. */
  lemma OneCase(e: Extent, lo: nat, hi: nat)
    ensures exists n :: 1 <= n <= 5 && Case(n, e, lo, hi)
    ensures forall m, n :: Case(m, e, lo, hi) && Case(n, e, lo, hi) ==> m == n
  {
    var n := if LEnd(e) <= lo || e.logical >= hi then 1
             else if e.logical >= lo && LEnd(e) <= hi then 2
             else if e.logical < lo && LEnd(e) > hi then 3
             else if e.logical < lo then 4 else 5;
    assert Case(n, e, lo, hi);
  }
}
