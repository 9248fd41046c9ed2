/** The kernel heap's block list as an abstract sequence: how blocks tile the arena, and
    what splitting, appending, freeing and absorbing do to the tiling. */
module HeapModel {

  /** sizeof(Block) on x86-64: two words and a flag, padded to 16-byte alignment. */
  const HDR := 32
  const WORD := 0x1_0000_0000_0000_0000
  const HALF := 0x8000_0000_0000_0000

  /** The largest request whose size arithmetic does not leave the 64-bit range. */
  const MAX_REQUEST := HALF - 48

  datatype Blk = Blk(addr: nat, size: nat, free: bool)

  function End(b: Blk): nat {
    b.addr + HDR + b.size
  }

  function Payload(b: Blk): nat {
    b.addr + HDR
  }

  /** The block list covers `lo .. hi` exactly, in address order. */
  ghost predicate Tiled(bs: seq<Blk>, lo: nat, hi: nat) {
    && (forall i, j :: 0 <= i < j < |bs| && j == i + 1 ==> bs[j].addr == End(bs[i]))
    && if bs == [] then lo == hi else bs[0].addr == lo && End(bs[|bs| - 1]) == hi
  }

  /** Sizes are positive multiples of 16. */
  ghost predicate Sized(bs: seq<Blk>) {
    forall i :: 0 <= i < |bs| ==> bs[i].size % 16 == 0 && bs[i].size >= 16
  }

  ghost predicate Coalesced(bs: seq<Blk>) {
    forall i, j :: 0 <= i < j < |bs| && j == i + 1 ==> !(bs[i].free && bs[j].free)
  }

  ghost predicate WellTiled(bs: seq<Blk>, lo: nat, hi: nat) {
    Tiled(bs, lo, hi) && Sized(bs) && Coalesced(bs)
  }

  // ----- request arithmetic

  /** ALIGN16 in 64-bit arithmetic. */
  function Align16(size: nat): nat
    requires size < WORD
  {
    var s := (size + 15) % WORD;
    s - s % 16
  }

  /** The 64-bit sum BLOCK_SIZE + size read as a signed increment. */
  function Increment(size: nat): int
    requires size < WORD
  {
    var s := (HDR + size) % WORD;
    if s < HALF then s else s - WORD
  }

  /** Up to MAX_REQUEST, and only up to it, the aligned size covers the request and the
      heap is asked to grow by exactly a header and that size. */
  lemma RequestExact(size: nat)
    requires size < WORD
    ensures size <= Align16(size) < size + 16 && Increment(Align16(size)) == HDR + Align16(size)
       <==> size <= MAX_REQUEST
    ensures size <= MAX_REQUEST ==> Align16(size) % 16 == 0 && Align16(size) <= MAX_REQUEST
  {
    var s := size + 15;
    assert s - s % 16 == 16 * (s / 16);
    if size <= MAX_REQUEST {
      assert s < WORD;
      assert Align16(size) == 16 * (s / 16) <= MAX_REQUEST;
    } else if s < WORD {
      assert Align16(size) == 16 * (s / 16) >= size;
    } else {
      assert (s % WORD) < 16;
    }
  }

  /** For an aligned size the growth is exact up to the same bound. */
  lemma IncrementExact(n: nat)
    requires n < WORD && n % 16 == 0
    ensures Increment(n) == HDR + n <==> n <= MAX_REQUEST
    ensures Align16(n) == n
  {
    assert (n + 15) - (n + 15) % 16 == n;
  }

  /** Requests above the bound stay above it when they are aligned, or become 0. */
  lemma RequestWrong(size: nat)
    requires MAX_REQUEST < size < WORD
    ensures Align16(size) % 16 == 0 && (Align16(size) == 0 || MAX_REQUEST < Align16(size) < WORD)
    ensures Align16(size) == 0 <==> size > WORD - 16
  {
    var s := size + 15;
    assert s - s % 16 == 16 * (s / 16);
    if s >= WORD { assert s % WORD < 16; }
  }

  /** Two requests above the bound: one asks for the break to move back by a header, the other
      for a block of no bytes. */
  lemma WrongRequests()
    ensures Align16(WORD - 64) == WORD - 64 && Increment(WORD - 64) == -HDR
    ensures Align16(WORD - 15) == 0 && Increment(0) == HDR
  {
  }

  // ----- order and disjointness

  lemma {:induction false} Ordered(bs: seq<Blk>, lo: nat, hi: nat, i: nat, j: nat)
    requires Tiled(bs, lo, hi) && i < j < |bs|
    ensures End(bs[i]) <= bs[j].addr
    decreases j - i
  {
    if i + 1 < j { Ordered(bs, lo, hi, i, j - 1); }
  }

  lemma {:induction false} Within(bs: seq<Blk>, lo: nat, hi: nat, i: nat)
    requires Tiled(bs, lo, hi) && i < |bs|
    ensures lo <= bs[i].addr && End(bs[i]) <= hi
  {
    if i > 0 { Ordered(bs, lo, hi, 0, i); }
    if i < |bs| - 1 { Ordered(bs, lo, hi, i, |bs| - 1); }
  }

  /** Distinct blocks, headers included, do not overlap. */
  lemma BlocksDisjoint(bs: seq<Blk>, lo: nat, hi: nat, i: nat, j: nat)
    requires Tiled(bs, lo, hi) && i < |bs| && j < |bs| && i != j
    ensures End(bs[i]) <= bs[j].addr || End(bs[j]) <= bs[i].addr
    ensures bs[i].addr != bs[j].addr
  {
    if i < j { Ordered(bs, lo, hi, i, j); } else { Ordered(bs, lo, hi, j, i); }
  }

  lemma {:induction false} Aligned(bs: seq<Blk>, lo: nat, hi: nat, i: nat)
    requires Tiled(bs, lo, hi) && Sized(bs) && lo % 16 == 0 && i < |bs|
    ensures bs[i].addr % 16 == 0 && Payload(bs[i]) % 16 == 0
  {
    if i > 0 { Aligned(bs, lo, hi, i - 1); }
  }

  /** Live payloads are aligned, inside the arena, and pairwise disjoint; no header lies
      in any of them. */
  lemma LivePayloads(bs: seq<Blk>, lo: nat, hi: nat, b: Blk, c: Blk)
    requires WellTiled(bs, lo, hi) && lo % 16 == 0 && b in bs && c in bs
    ensures Payload(b) % 16 == 0 && lo <= Payload(b) && Payload(b) + b.size <= hi
    ensures b != c ==> Payload(b) + b.size <= Payload(c) || Payload(c) + c.size <= Payload(b)
    ensures c.addr + HDR <= Payload(b) || Payload(b) + b.size <= c.addr
  {
    var i :| 0 <= i < |bs| && bs[i] == b;
    var j :| 0 <= j < |bs| && bs[j] == c;
    Within(bs, lo, hi, i);
    Aligned(bs, lo, hi, i);
    if i != j { BlocksDisjoint(bs, lo, hi, i, j); }
  }

  // ----- edits of the list

  /** The `n` blocks from `i` on replaced by `mid`. */
  function Splice(bs: seq<Blk>, i: nat, n: nat, mid: seq<Blk>): seq<Blk>
    requires i + n <= |bs|
  {
    bs[..i] + mid + bs[i + n..]
  }

  lemma SpliceTiled(bs: seq<Blk>, lo: nat, hi: nat, i: nat, n: nat, mid: seq<Blk>)
    requires Tiled(bs, lo, hi) && 0 < n && i + n <= |bs| && mid != []
    requires Tiled(mid, bs[i].addr, End(bs[i + n - 1]))
    ensures Tiled(Splice(bs, i, n, mid), lo, hi)
  {
    var r := Splice(bs, i, n, mid);
    forall k | 0 <= k < |r| - 1 ensures r[k + 1].addr == End(r[k]) {
      if k + 1 < i {
        assert r[k] == bs[k] && r[k + 1] == bs[k + 1];
      } else if k + 1 == i {
        assert r[k] == bs[k] && r[k + 1] == mid[0];
      } else if k + 1 < i + |mid| {
        assert r[k] == mid[k - i] && r[k + 1] == mid[k - i + 1];
      } else if k + 1 == i + |mid| {
        assert r[k] == mid[|mid| - 1] && r[k + 1] == bs[i + n];
        assert bs[i + n].addr == End(bs[i + n - 1]);
      } else {
        assert r[k] == bs[k - |mid| + n] && r[k + 1] == bs[k - |mid| + n + 1];
      }
    }
  }

  lemma SpliceSized(bs: seq<Blk>, i: nat, n: nat, mid: seq<Blk>)
    requires i + n <= |bs| && Sized(bs) && Sized(mid)
    ensures Sized(Splice(bs, i, n, mid))
  {
  }

  /** Joining points stay coalesced when they were, or when one side is not free. */
  lemma SpliceCoalesced(bs: seq<Blk>, i: nat, n: nat, mid: seq<Blk>)
    requires i + n <= |bs| && Coalesced(bs) && Coalesced(mid) && mid != []
    requires i > 0 ==> !(bs[i - 1].free && mid[0].free)
    requires i + n < |bs| ==> !(mid[|mid| - 1].free && bs[i + n].free)
    ensures Coalesced(Splice(bs, i, n, mid))
  {
    var r := Splice(bs, i, n, mid);
    forall k | 0 <= k < |r| - 1 ensures !(r[k].free && r[k + 1].free) {
      if k + 1 < i {
        assert r[k] == bs[k] && r[k + 1] == bs[k + 1];
      } else if k + 1 == i {
        assert r[k] == bs[i - 1] && r[k + 1] == mid[0];
      } else if k + 1 < i + |mid| {
        assert r[k] == mid[k - i] && r[k + 1] == mid[k - i + 1];
      } else if k + 1 == i + |mid| {
        assert r[k] == mid[|mid| - 1] && r[k + 1] == bs[i + n];
      } else {
        assert r[k] == bs[k - |mid| + n] && r[k + 1] == bs[k - |mid| + n + 1];
      }
    }
  }

  /** Apart from the blocks starting at the addresses `except`, both lists have the same
      allocated blocks. */
  ghost predicate SameLive(bs: seq<Blk>, bs': seq<Blk>, except: set<nat>) {
    forall b: Blk :: !b.free && b.addr !in except ==> (b in bs <==> b in bs')
  }

  lemma SpliceLive(bs: seq<Blk>, i: nat, n: nat, mid: seq<Blk>, except: set<nat>)
    requires i + n <= |bs|
    requires forall k :: i <= k < i + n ==> bs[k].free || bs[k].addr in except
    requires forall k :: 0 <= k < |mid| ==> mid[k].free || mid[k].addr in except
    ensures SameLive(bs, Splice(bs, i, n, mid), except)
  {
    var r := Splice(bs, i, n, mid);
    forall b: Blk | !b.free && b.addr !in except
      ensures b in bs <==> b in r
    {
      var part := bs[i..i + n];
      assert bs == bs[..i] + part + bs[i + n..];
      forall k | 0 <= k < n ensures part[k] != b {
        assert bs[i + k] != b;
      }
    }
  }

  /** A list without free neighbours is determined by its allocated blocks and its ends. */
  lemma {:induction false} SameList(bs: seq<Blk>, cs: seq<Blk>, lo: nat, hi: nat)
    requires WellTiled(bs, lo, hi) && WellTiled(cs, lo, hi) && SameLive(bs, cs, {})
    ensures bs == cs
  {
    if bs == [] || cs == [] {
      if bs != [] { Within(bs, lo, hi, 0); }
      if cs != [] { Within(cs, lo, hi, 0); }
    } else {
      FirstNotLonger(bs, cs, lo, hi);
      FirstNotLonger(cs, bs, lo, hi);
      TailLive(bs, cs, lo, hi);
      SameList(bs[1..], cs[1..], End(bs[0]), hi);
    }
  }

  lemma FirstNotLonger(bs: seq<Blk>, cs: seq<Blk>, lo: nat, hi: nat)
    requires WellTiled(bs, lo, hi) && WellTiled(cs, lo, hi) && SameLive(bs, cs, {}) && bs != [] && cs != []
    ensures bs[0].size >= cs[0].size && (!bs[0].free ==> cs[0] == bs[0])
  {
    Within(cs, lo, hi, 0);
    if !bs[0].free {
      var k :| 0 <= k < |cs| && cs[k] == bs[0];
      if k > 0 { BlocksDisjoint(cs, lo, hi, 0, k); }
    } else if bs[0].size < cs[0].size {
      assert |bs| > 1 && !bs[1].free && bs[1] in bs;
      var k :| 0 <= k < |cs| && cs[k] == bs[1];
      if k > 0 { BlocksDisjoint(cs, lo, hi, 0, k); }
    }
  }

  lemma TailLive(bs: seq<Blk>, cs: seq<Blk>, lo: nat, hi: nat)
    requires WellTiled(bs, lo, hi) && WellTiled(cs, lo, hi) && SameLive(bs, cs, {}) && bs != [] && cs != []
    requires bs[0].size == cs[0].size
    ensures SameLive(bs[1..], cs[1..], {})
    ensures WellTiled(bs[1..], End(bs[0]), hi) && WellTiled(cs[1..], End(bs[0]), hi)
  {
    forall b: Blk | b in bs[1..] || b in cs[1..] ensures b.addr != lo {
      if b in bs[1..] {
        var k :| 0 <= k < |bs[1..]| && bs[1..][k] == b;
        BlocksDisjoint(bs, lo, hi, 0, k + 1);
      } else {
        var k :| 0 <= k < |cs[1..]| && cs[1..][k] == b;
        BlocksDisjoint(cs, lo, hi, 0, k + 1);
      }
    }
    assert bs == [bs[0]] + bs[1..] && cs == [cs[0]] + cs[1..];
  }

  /** Only block `i` and its left neighbour may both be free. */
  ghost predicate NearlyCoalesced(bs: seq<Blk>, i: nat) {
    forall k, j :: 0 <= k < j < |bs| && j == k + 1 && j != i ==> !(bs[k].free && bs[j].free)
  }

  lemma SpliceNearly(bs: seq<Blk>, i: nat, n: nat, b: Blk)
    requires 0 < n && i + n <= |bs| && Coalesced(bs)
    requires i + n < |bs| ==> !bs[i + n].free
    ensures NearlyCoalesced(Splice(bs, i, n, [b]), i)
  {
    var r := Splice(bs, i, n, [b]);
    forall k | 0 <= k < |r| - 1 && k + 1 != i ensures !(r[k].free && r[k + 1].free) {
      if k + 1 < i {
        assert r[k] == bs[k] && r[k + 1] == bs[k + 1];
      } else if k == i {
        assert r[k + 1] == bs[i + n];
      } else {
        assert r[k] == bs[k - 1 + n] && r[k + 1] == bs[k + n];
      }
    }
  }

  lemma SpliceSettles(bs: seq<Blk>, i: nat, b: Blk)
    requires 0 < i < |bs| && NearlyCoalesced(bs, i) && bs[i - 1].free && bs[i].free
    ensures Coalesced(Splice(bs, i - 1, 2, [b]))
  {
    var r := Splice(bs, i - 1, 2, [b]);
    forall k | 0 <= k < |r| - 1 ensures !(r[k].free && r[k + 1].free) {
      if k + 1 < i - 1 {
        assert r[k] == bs[k] && r[k + 1] == bs[k + 1];
      } else if k + 1 == i - 1 {
        assert r[k] == bs[k] && bs[k + 1].free;
        assert !bs[k].free;
      } else if k == i - 1 {
        assert r[k + 1] == bs[i + 1] && !(bs[i].free && bs[i + 1].free);
      } else {
        assert r[k] == bs[k + 1] && r[k + 1] == bs[k + 2];
      }
    }
  }
}
