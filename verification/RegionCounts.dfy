/** The cached free counts of the regions: what one bit and what a run of bits does to them,
    and what is left of them when a run is taken and given back. */
module RegionCounts {
  import opened BitRuns

  datatype Regions = Off | On(free: seq<nat>)

  /** The counts after bit `idx` was set: a count of zero stays. */
  function Lowered(rs: Regions, idx: nat): Regions {
    var k := idx / REGION;
    if rs.On? && k < |rs.free| && rs.free[k] > 0 then On(rs.free[k := rs.free[k] - 1]) else rs
  }

  /** The counts after bit `idx` was cleared: the count of a whole region stays. */
  function Raised(rs: Regions, n: nat, idx: nat): Regions {
    var k := idx / REGION;
    if rs.On? && k < |rs.free| && rs.free[k] < RegionSize(k, n) then On(rs.free[k := rs.free[k] + 1]) else rs
  }

  /** One `Raised` for every set bit of `a .. a + m`, in order. */
  ghost function RaisedAll(rs: Regions, n: nat, s: seq<bool>, a: nat, m: nat): Regions
    requires a + m <= |s|
  {
    if m == 0 then rs
    else
      var r := RaisedAll(rs, n, s, a, m - 1);
      if s[a + m - 1] then Raised(r, n, a + m - 1) else r
  }

  /** One `Lowered` for every bit of `a .. a + m`, in order. */
  ghost function LoweredAll(rs: Regions, a: nat, m: nat): Regions {
    if m == 0 then rs else Lowered(LoweredAll(rs, a, m - 1), a + m - 1)
  }

  lemma {:induction false} RaisedMore(rs: Regions, n: nat, s: seq<bool>, a: nat, m: nat, now: Regions, idx: nat)
    requires a + m == idx < |s| && now == RaisedAll(rs, n, s, a, m)
    ensures RaisedAll(rs, n, s, a, m + 1) == if s[idx] then Raised(now, n, idx) else now
  {
  }

  /** Right counts stay right when free bits are set. */
  lemma {:induction false} LoweredCounts(s: seq<bool>, n: nat, a: nat, m: nat)
    requires a + m <= n <= |s| && FreeRun(s, a, m)
    ensures LoweredAll(On(FreeCounts(s, n)), a, m) == On(FreeCounts(Marked(s, a, m, true), n))
  {
    if m == 0 {
      MarkedNone(s, a, true);
    } else {
      LoweredCounts(s, n, a, m - 1);
      MarkedMore(s, a, m - 1, true);
      CountsFlip(Marked(s, a, m - 1, true), n, a + m - 1, true);
    }
  }

  lemma {:induction false} RaisedShape(rs: Regions, n: nat, s: seq<bool>, a: nat, m: nat)
    requires a + m <= |s|
    ensures var r := RaisedAll(rs, n, s, a, m); r.On? == rs.On? && (r.On? ==> |r.free| == |rs.free|)
  {
    if m > 0 { RaisedShape(rs, n, s, a, m - 1); }
  }

  // ----- taken and given back

  /** How many of the bits `a .. a + m` lie in region `r`. */
  ghost function Overlap(a: nat, m: nat, r: nat): nat {
    if m == 0 then 0 else Overlap(a, m - 1, r) + if (a + m - 1) / REGION == r then 1 else 0
  }

  lemma {:induction false} OverlapFits(a: nat, m: nat, r: nat, n: nat)
    requires a + m <= n && r < RegionCount(n)
    ensures Overlap(a, m, r) <= Clamp(a + m, Lo(r), Hi(r, n)) - Lo(r) <= RegionSize(r, n)
  {
    RegionInside(r, n);
    if m > 0 {
      OverlapFits(a, m - 1, r, n);
      if (a + m - 1) / REGION == r { RegionOf(a + m - 1, n); }
    }
  }

  lemma {:induction false} OverlapInside(a: nat, m: nat, r: nat, n: nat, k: nat)
    requires Lo(k) <= a && a + m <= Hi(k, n)
    ensures Overlap(a, m, r) == if r == k then m else 0
  {
    if m > 0 {
      OverlapInside(a, m - 1, r, n, k);
      assert (a + m - 1) / REGION == k;
    }
  }

  lemma {:induction false} RaisedAt(f: seq<nat>, n: nat, s: seq<bool>, a: nat, m: nat, r: nat)
    requires a + m <= |s| && r < |f| && f[r] <= RegionSize(r, n) && forall i :: a <= i < a + m ==> s[i]
    ensures var g := RaisedAll(On(f), n, s, a, m);
      g.On? && |g.free| == |f| && g.free[r] == Min(f[r] + Overlap(a, m, r), RegionSize(r, n))
  {
    if m > 0 { RaisedAt(f, n, s, a, m - 1, r); }
  }

  lemma {:induction false} LoweredAt(f: seq<nat>, a: nat, m: nat, r: nat)
    requires r < |f|
    ensures var g := LoweredAll(On(f), a, m);
      g.On? && |g.free| == |f| && g.free[r] == if f[r] <= Overlap(a, m, r) then 0 else f[r] - Overlap(a, m, r)
  {
    if m > 0 { LoweredAt(f, a, m - 1, r); }
  }

  /** A free run is set, cleared again with its counts raised, and then the counts are
      lowered for it: they come out right exactly when every region has as many set bits as
      the run has bits in it. Otherwise some count ends too low. */
  lemma {:induction false} UndoneCounts(s: seq<bool>, n: nat, a: nat, m: nat)
    requires a + m <= n <= |s| && FreeRun(s, a, m)
    ensures LoweredAll(RaisedAll(On(FreeCounts(s, n)), n, Marked(s, a, m, true), a, m), a, m) == On(FreeCounts(s, n))
      <==> forall r: nat :: r < RegionCount(n) ==> Overlap(a, m, r) <= Ones(s, Lo(r), Hi(r, n))
  {
    var f, t := FreeCounts(s, n), Marked(s, a, m, true);
    var g := LoweredAll(RaisedAll(On(f), n, t, a, m), a, m);
    RaisedShape(On(f), n, t, a, m);
    forall r: nat | r < |f|
      ensures g.On? && |g.free| == |f| && (g.free[r] == f[r] <==> Overlap(a, m, r) <= Ones(s, Lo(r), Hi(r, n)))
    {
      RegionInside(r, n);
      OverlapFits(a, m, r, n);
      RaisedAt(f, n, t, a, m, r);
      LoweredAt(RaisedAll(On(f), n, t, a, m).free, a, m, r);
      assert f[r] == ZerosIn(s, n, r);
    }
    if g.On? && g != On(f) { assert exists r: nat :: r < |f| && g.free[r] != f[r]; }
  }

  /** The same for a run inside region `k`, where the source subtracts the length at once. */
  lemma {:induction false} UndoneInRegion(s: seq<bool>, n: nat, k: nat, a: nat, m: nat)
    requires n <= |s| && k < RegionCount(n) && Lo(k) <= a && a + m <= Hi(k, n) && FreeRun(s, a, m)
    ensures var g := RaisedAll(On(FreeCounts(s, n)), n, Marked(s, a, m, true), a, m);
      && g.On? && |g.free| == RegionCount(n) && g.free[k] >= m
      && (On(g.free[k := g.free[k] - m]) == On(FreeCounts(s, n)) <==> m <= Ones(s, Lo(k), Hi(k, n)))
  {
    var f, t := FreeCounts(s, n), Marked(s, a, m, true);
    RegionInside(k, n);
    var g := RaisedAll(On(f), n, t, a, m);
    forall r: nat | r < |f|
      ensures g.On? && |g.free| == |f| && g.free[r] == if r == k then Min(f[r] + m, RegionSize(r, n)) else f[r]
    {
      RegionInside(r, n);
      RaisedAt(f, n, t, a, m, r);
      OverlapInside(a, m, r, n, k);
      assert f[r] == ZerosIn(s, n, r);
    }
    assert f[k] == ZerosIn(s, n, k);
    var h := g.free[k := g.free[k] - m];
    if m <= Ones(s, Lo(k), Hi(k, n)) { assert h == f; } else { assert h[k] != f[k]; }
  }
}
