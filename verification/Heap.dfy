/** The kernel heap of mm/heap.c: one arena of contiguous virtual addresses, a linked list
    of block headers inside it, first-fit allocation with splitting, and coalescing.

    `hdr` are the headers in memory and `mem` the other bytes; writing a header destroys
    whatever bytes its 32 addresses held. `blocks` is the ghost list behind the links. */
module KernelHeap {
  import opened Faults
  import opened HeapModel

  const PAGE_SIZE := 4096
  const HEAP_SIZE := 32 * 1024 * 1024
  const INITIAL_PAGES := 8

  /** A block header in memory; `next` is 0 for NULL. */
  datatype Header = Header(size: nat, next: nat, free: bool)

  type Memory = map<nat, bv8>

  ghost predicate SameByte(m: Memory, m': Memory, x: nat) {
    (x in m <==> x in m') && (x in m ==> m[x] == m'[x])
  }

  function HeadAddr(bs: seq<Blk>, next: nat): nat {
    if bs == [] then next else bs[0].addr
  }

  /** The headers in memory describe `bs` and link it, the last block to `next`. */
  ghost predicate LinkedTo(hdr: map<nat, Header>, bs: seq<Blk>, next: nat) {
    && (forall i :: 0 <= i < |bs| ==> bs[i].addr in hdr)
    && (forall i :: 0 <= i < |bs| ==> hdr[bs[i].addr].size == bs[i].size && hdr[bs[i].addr].free == bs[i].free)
    && (forall i, j :: 0 <= i < j < |bs| && j == i + 1 ==> hdr[bs[i].addr].next == bs[j].addr)
    && (bs != [] ==> hdr[bs[|bs| - 1].addr].next == next)
  }

  ghost predicate Linked(hdr: map<nat, Header>, bs: seq<Blk>) {
    LinkedTo(hdr, bs, 0)
  }

  lemma LinkedAppend(hdr: map<nat, Header>, a: seq<Blk>, b: seq<Blk>, next: nat)
    ensures LinkedTo(hdr, a + b, next) <==> LinkedTo(hdr, a, HeadAddr(b, next)) && LinkedTo(hdr, b, next)
  {
    if LinkedTo(hdr, a, HeadAddr(b, next)) && LinkedTo(hdr, b, next) { LinkedJoin(hdr, a, b, next); }
    if LinkedTo(hdr, a + b, next) { LinkedPart(hdr, a, b, next); }
  }

  lemma LinkedJoin(hdr: map<nat, Header>, a: seq<Blk>, b: seq<Blk>, next: nat)
    requires LinkedTo(hdr, a, HeadAddr(b, next)) && LinkedTo(hdr, b, next)
    ensures LinkedTo(hdr, a + b, next)
  {
    var c := a + b;
    forall i, j | 0 <= i < j < |c| && j == i + 1
      ensures c[i].addr in hdr && hdr[c[i].addr].next == c[j].addr
    {
      if j < |a| {
        assert c[i] == a[i] && c[j] == a[j];
      } else if i < |a| {
        assert c[i] == a[|a| - 1] && c[j] == b[0];
      } else {
        assert c[i] == b[i - |a|] && c[j] == b[j - |a|];
      }
    }
  }

  lemma LinkedPart(hdr: map<nat, Header>, a: seq<Blk>, b: seq<Blk>, next: nat)
    requires LinkedTo(hdr, a + b, next)
    ensures LinkedTo(hdr, a, HeadAddr(b, next)) && LinkedTo(hdr, b, next)
  {
    var c := a + b;
    forall i | 0 <= i < |a| ensures a[i] == c[i] {}
    forall i | 0 <= i < |b| ensures b[i] == c[|a| + i] {}
    if a != [] && b != [] { assert c[|a| - 1] == a[|a| - 1] && c[|a|] == b[0]; }
  }

  lemma LinkedOne(hdr: map<nat, Header>, b: Blk, next: nat)
    ensures LinkedTo(hdr, [b], next) <==> b.addr in hdr && hdr[b.addr] == Header(b.size, next, b.free)
  {
    assert [b][0] == b;
  }

  lemma LinkedPair(hdr: map<nat, Header>, b: Blk, c: Blk, next: nat)
    ensures LinkedTo(hdr, [b, c], next) <==>
      (&& b.addr in hdr && hdr[b.addr] == Header(b.size, c.addr, b.free)
       && c.addr in hdr && hdr[c.addr] == Header(c.size, next, c.free))
  {
    LinkedAppend(hdr, [b], [c], next);
    assert [b, c] == [b] + [c];
    LinkedOne(hdr, b, c.addr);
    LinkedOne(hdr, c, next);
  }

  /** Headers of `bs` at addresses other than `x` and `y` did not change. */
  lemma LinkedFrame(hdr: map<nat, Header>, hdr': map<nat, Header>, bs: seq<Blk>, next: nat, x: nat, y: nat)
    requires LinkedTo(hdr, bs, next)
    requires forall a :: a in hdr && a != x && a != y ==> a in hdr' && hdr'[a] == hdr[a]
    requires forall k :: 0 <= k < |bs| ==> bs[k].addr != x && bs[k].addr != y
    ensures LinkedTo(hdr', bs, next)
  {
  }

  /** Only bytes of the headers at `a` and `b` changed. */
  ghost predicate OnlyHeaders(m: Memory, m': Memory, a: nat, b: nat) {
    forall x: nat :: !(a <= x < a + HDR) && !(b <= x < b + HDR) ==> SameByte(m, m', x)
  }

  ghost predicate PayloadKept(m: Memory, m': Memory, b: Blk) {
    forall x: nat :: Payload(b) <= x < Payload(b) + b.size ==> SameByte(m, m', x)
  }

  /** Every allocated block of `bs` outside `except` has the bytes it had. */
  ghost predicate LiveKept(m: Memory, m': Memory, bs: seq<Blk>, except: set<nat>) {
    forall b: Blk :: b in bs && !b.free && b.addr !in except ==> PayloadKept(m, m', b)
  }

  /** Header writes at blocks of the new list spare every payload the lists share. */
  lemma HeadersSparePayloads(bs: seq<Blk>, bs': seq<Blk>, lo: nat, hi: nat, m: Memory, m': Memory, a: Blk, b: Blk,
                             except: set<nat>)
    requires WellTiled(bs', lo, hi) && lo % 16 == 0 && a in bs' && b in bs'
    requires SameLive(bs, bs', except) && OnlyHeaders(m, m', a.addr, b.addr)
    ensures LiveKept(m, m', bs, except)
  {
    forall c: Blk | c in bs && !c.free && c.addr !in except
      ensures PayloadKept(m, m', c)
    {
      assert c in bs';
      LivePayloads(bs', lo, hi, c, a);
      LivePayloads(bs', lo, hi, c, b);
    }
  }

  // ----- first fit

  ghost predicate Fits(b: Blk, n: nat) {
    b.free && b.size >= n
  }

  /** The index of the first free block of at least `n` bytes, |bs| if there is none. */
  ghost function FirstFit(bs: seq<Blk>, n: nat): (i: nat)
    ensures i <= |bs|
    ensures i < |bs| ==> Fits(bs[i], n)
    ensures forall k :: 0 <= k < i ==> !Fits(bs[k], n)
  {
    if bs == [] || Fits(bs[0], n) then 0 else 1 + FirstFit(bs[1..], n)
  }

  lemma FirstFitIs(bs: seq<Blk>, n: nat, i: nat)
    requires i <= |bs| && (forall k :: 0 <= k < i ==> !Fits(bs[k], n)) && (i < |bs| ==> Fits(bs[i], n))
    ensures FirstFit(bs, n) == i
  {
  }

  // ----- list edits and their links

  lemma Distinct(bs: seq<Blk>, lo: nat, hi: nat)
    requires Tiled(bs, lo, hi)
    ensures forall i, j :: 0 <= i < |bs| && 0 <= j < |bs| && i != j ==> bs[i].addr != bs[j].addr
  {
    forall i, j | 0 <= i < |bs| && 0 <= j < |bs| && i != j
      ensures bs[i].addr != bs[j].addr
    {
      BlocksDisjoint(bs, lo, hi, i, j);
    }
  }

  /** Block `i` split: the front keeps `n` bytes and becomes allocated, the rest is free. */
  function SplitBlock(b: Blk, n: nat): seq<Blk>
    requires n + HDR <= b.size
  {
    [Blk(b.addr, n, false), Blk(b.addr + HDR + n, b.size - n - HDR, true)]
  }

  /** What an allocation of `n` bytes makes of a free block: the rest becomes a free block when
      more than a header and 8 bytes are left over, else the block is handed out whole. */
  function HandedOut(b: Blk, n: nat): (mid: seq<Blk>)
    requires b.size >= n
    ensures mid != []
  {
    if b.size - n > HDR + 8 then SplitBlock(b, n) else [b.(free := false)]
  }

  /** The list after an allocation: the first block that fits is handed out, else a block of
      exactly `n` bytes is appended at the break. */
  ghost function GivenOut(bs: seq<Blk>, n: nat, brk: nat): (bs': seq<Blk>)
    ensures FirstFit(bs, n) < |bs'|
  {
    var i := FirstFit(bs, n);
    if i < |bs| then Splice(bs, i, 1, HandedOut(bs[i], n)) else bs + [Blk(brk, n, false)]
  }

  ghost predicate FreeRight(bs: seq<Blk>, i: nat) {
    i + 1 < |bs| && bs[i + 1].free
  }

  /** Block `i` can be resized to `n` bytes where it is: it is large enough, or is together
      with a free right neighbour. */
  ghost predicate StaysPut(bs: seq<Blk>, i: nat, n: nat)
    requires i < |bs|
  {
    bs[i].size >= n || (FreeRight(bs, i) && bs[i].size + HDR + bs[i + 1].size >= n)
  }

  /** The list then: a shrunk block leaves a free one, joined with a free right neighbour, when
      more than a header and 16 bytes are left over; a grown one takes its neighbour whole. */
  ghost function InPlace(bs: seq<Blk>, i: nat, n: nat): seq<Blk>
    requires i < |bs| && StaysPut(bs, i, n)
  {
    var b := bs[i];
    if b.size < n then Splice(bs, i, 2, [Blk(b.addr, b.size + HDR + bs[i + 1].size, false)])
    else if b.size - n <= HDR + 16 then bs
    else
      var cnt, more := if FreeRight(bs, i) then 2 else 1, if FreeRight(bs, i) then HDR + bs[i + 1].size else 0;
      Splice(bs, i, cnt, [Blk(b.addr, n, false), Blk(Payload(b) + n, b.size - n - HDR + more, true)])
  }

  /** The block that an allocation hands out. */
  ghost function Handed(bs: seq<Blk>, n: nat, brk: nat): Blk {
    GivenOut(bs, n, brk)[FirstFit(bs, n)]
  }

  /** Where the payload of block `i` is when it was resized to `n` bytes: in place whenever it
      can stay, else in the block that an allocation hands out. `r` is 0, and it is not resized,
      only when the arena is exhausted. */
  ghost predicate ResizedTo(bs: seq<Blk>, bs': seq<Blk>, i: nat, n: nat, r: nat, brk: nat, exhausted: bool)
    requires i < |bs|
  {
    if StaysPut(bs, i, n) then r == Payload(bs[i]) && bs' == InPlace(bs, i, n)
    else if r == 0 then exhausted
    else r == Payload(Handed(bs, n, brk)) && Handed(bs, n, brk) in bs'
  }

  /** The same for the allocated block whose payload is at `ptr`. */
  ghost predicate PayloadResized(bs: seq<Blk>, bs': seq<Blk>, ptr: nat, n: nat, r: nat, brk: nat, exhausted: bool) {
    forall i: nat :: i < |bs| && !bs[i].free && Payload(bs[i]) == ptr ==> ResizedTo(bs, bs', i, n, r, brk, exhausted)
  }

  lemma SoleResized(bs: seq<Blk>, bs': seq<Blk>, lo: nat, hi: nat, i: nat, n: nat, r: nat, brk: nat, exhausted: bool)
    requires Tiled(bs, lo, hi) && i < |bs| && ResizedTo(bs, bs', i, n, r, brk, exhausted)
    ensures PayloadResized(bs, bs', Payload(bs[i]), n, r, brk, exhausted)
  {
    Distinct(bs, lo, hi);
  }

  /** The block handed out is at most a header and eight bytes longer than asked for. */
  lemma HandedSize(bs: seq<Blk>, n: nat, brk: nat)
    ensures var b := Handed(bs, n, brk); b in GivenOut(bs, n, brk) && !b.free && n <= b.size <= n + HDR + 8
    ensures Payload(Handed(bs, n, brk)) == if FirstFit(bs, n) < |bs| then Payload(bs[FirstFit(bs, n)]) else brk + HDR
  {
    var i := FirstFit(bs, n);
    if i < |bs| { assert GivenOut(bs, n, brk)[i] == HandedOut(bs[i], n)[0]; }
  }

  lemma LinkedThree(hdr: map<nat, Header>, pre: seq<Blk>, mid: seq<Blk>, post: seq<Blk>)
    requires mid != []
    ensures LinkedTo(hdr, pre + mid + post, 0)
      <==> LinkedTo(hdr, pre, mid[0].addr) && LinkedTo(hdr, mid, HeadAddr(post, 0)) && LinkedTo(hdr, post, 0)
  {
    LinkedAppend(hdr, pre + mid, post, 0);
    LinkedAppend(hdr, pre, mid, HeadAddr(post, 0));
  }

  /** The parts on either side of an edit stay linked. */
  lemma LinkedEnds(hdr: map<nat, Header>, hdr': map<nat, Header>, bs: seq<Blk>, lo: nat, hi: nat, i: nat, n: nat,
                   x: nat, y: nat)
    requires Linked(hdr, bs) && Tiled(bs, lo, hi) && 0 < n && i + n <= |bs|
    requires forall a :: a in hdr && a != x && a != y ==> a in hdr' && hdr'[a] == hdr[a]
    requires forall k :: 0 <= k < |bs| && !(i <= k < i + n) ==> bs[k].addr != x && bs[k].addr != y
    ensures LinkedTo(hdr', bs[..i], bs[i].addr) && LinkedTo(hdr', bs[i + n..], 0)
  {
    var pre, was, post := bs[..i], bs[i..i + n], bs[i + n..];
    assert bs == pre + was + post;
    LinkedThree(hdr, pre, was, post);
    LinkedFrame(hdr, hdr', pre, bs[i].addr, x, y);
    LinkedFrame(hdr, hdr', post, 0, x, y);
  }

  /** Headers changed at two addresses only spell out the edited list exactly when they
      spell out the edited part. */
  lemma LinkedSplice(hdr: map<nat, Header>, hdr': map<nat, Header>, bs: seq<Blk>, lo: nat, hi: nat, i: nat, n: nat,
                     mid: seq<Blk>, x: nat, y: nat)
    requires Linked(hdr, bs) && Tiled(bs, lo, hi) && 0 < n && i + n <= |bs| && mid != [] && mid[0].addr == bs[i].addr
    requires forall a :: a in hdr && a != x && a != y ==> a in hdr' && hdr'[a] == hdr[a]
    requires forall k :: 0 <= k < |bs| && !(i <= k < i + n) ==> bs[k].addr != x && bs[k].addr != y
    ensures Linked(hdr', Splice(bs, i, n, mid)) <==> LinkedTo(hdr', mid, HeadAddr(bs[i + n..], 0))
  {
    LinkedEnds(hdr, hdr', bs, lo, hi, i, n, x, y);
    LinkedThree(hdr', bs[..i], mid, bs[i + n..]);
  }

  lemma TwoHeaders(m0: Memory, m1: Memory, m2: Memory, a: nat, b: nat)
    requires OnlyHeaders(m0, m1, a, a) && OnlyHeaders(m1, m2, b, b)
    ensures OnlyHeaders(m0, m2, a, b)
  {
    forall x: nat | !(a <= x < a + HDR) && !(b <= x < b + HDR)
      ensures SameByte(m0, m2, x)
    {
      assert SameByte(m0, m1, x) && SameByte(m1, m2, x);
    }
  }

  /** The split-off rest starts at no other block's address. */
  lemma SplitApart(bs: seq<Blk>, lo: nat, hi: nat, i: nat, n: nat)
    requires Tiled(bs, lo, hi) && i < |bs| && n + HDR <= bs[i].size
    ensures forall k :: 0 <= k < |bs| ==> bs[k].addr != bs[i].addr + HDR + n
  {
    forall k | 0 <= k < |bs| ensures bs[k].addr != bs[i].addr + HDR + n {
      if k != i { BlocksDisjoint(bs, lo, hi, i, k); }
    }
  }

  /** The new list after block `i` was handed out as the first block of `mid`. */
  lemma TakenBlock(bs: seq<Blk>, lo: nat, hi: nat, i: nat, mid: seq<Blk>, hdr: map<nat, Header>, hdr': map<nat, Header>,
                   m: Memory, m': Memory, second: nat)
    requires WellTiled(bs, lo, hi) && lo % 16 == 0 && Linked(hdr, bs) && i < |bs| && bs[i].free
    requires 1 <= |mid| <= 2 && Tiled(mid, bs[i].addr, End(bs[i])) && Sized(mid)
    requires !mid[0].free && (|mid| == 2 ==> mid[1].free)
    requires second == mid[|mid| - 1].addr
    requires forall a :: a in hdr && a != second && a != bs[i].addr ==> a in hdr' && hdr'[a] == hdr[a]
    requires forall k :: 0 <= k < |bs| && k != i ==> bs[k].addr != second
    requires LinkedTo(hdr', mid, HeadAddr(bs[i + 1..], 0))
    requires OnlyHeaders(m, m', second, bs[i].addr)
    ensures var bs' := Splice(bs, i, 1, mid);
      && WellTiled(bs', lo, hi) && Linked(hdr', bs') && bs' != []
      && (bs'[0].addr == bs[0].addr) && mid[0] in bs'
      && SameLive(bs, bs', {bs[i].addr}) && LiveKept(m, m', bs, {})
    ensures forall b :: b in bs && b.addr == bs[i].addr ==> b.free
  {
    var bs' := Splice(bs, i, 1, mid);
    SpliceTiled(bs, lo, hi, i, 1, mid);
    SpliceSized(bs, i, 1, mid);
    SpliceCoalesced(bs, i, 1, mid);
    Distinct(bs, lo, hi);
    LinkedSplice(hdr, hdr', bs, lo, hi, i, 1, mid, second, bs[i].addr);
    SpliceLive(bs, i, 1, mid, {bs[i].addr});
    assert bs'[i] == mid[0] && bs'[i + |mid| - 1] == mid[|mid| - 1];
    HeadersSparePayloads(bs, bs', lo, hi, m, m', mid[|mid| - 1], mid[0], {bs[i].addr});
  }

  /** The result of handing out a block that is split. */
  lemma SplitTaken(bs: seq<Blk>, lo: nat, hi: nat, i: nat, n: nat, hdr: map<nat, Header>, hdr': map<nat, Header>,
                   m: Memory, m': Memory)
    returns (bs': seq<Blk>)
    requires WellTiled(bs, lo, hi) && lo % 16 == 0 && Linked(hdr, bs) && i < |bs| && bs[i].free
    requires n % 16 == 0 && n >= 16 && bs[i].size >= n && bs[i].size - n > HDR + 8
    requires hdr' == hdr[bs[i].addr + HDR + n := Header(bs[i].size - n - HDR, hdr[bs[i].addr].next, true)]
                        [bs[i].addr := Header(n, bs[i].addr + HDR + n, false)]
    requires OnlyHeaders(m, m', bs[i].addr + HDR + n, bs[i].addr)
    ensures Taken(bs, lo, hi, i, bs', n, hdr', m, m') && bs' == Splice(bs, i, 1, SplitBlock(bs[i], n))
  {
    SplitApart(bs, lo, hi, i, n);
    var mid := SplitBlock(bs[i], n);
    SplitSizes(bs[i], n);
    LinkedPair(hdr', mid[0], mid[1], HeadAddr(bs[i + 1..], 0));
    TakenBlock(bs, lo, hi, i, mid, hdr, hdr', m, m', mid[1].addr);
    bs' := Splice(bs, i, 1, mid);
  }

  lemma SplitSizes(b: Blk, n: nat)
    requires b.size % 16 == 0 && n % 16 == 0 && n >= 16 && b.size >= n && b.size - n > HDR + 8
    ensures Sized(SplitBlock(b, n)) && Tiled(SplitBlock(b, n), b.addr, End(b))
  {
    assert (b.size - n - HDR) % 16 == 0;
  }

  /** The result of handing out a block whole. */
  lemma WholeTaken(bs: seq<Blk>, lo: nat, hi: nat, i: nat, hdr: map<nat, Header>, hdr': map<nat, Header>, m: Memory,
                   m': Memory)
    returns (bs': seq<Blk>)
    requires WellTiled(bs, lo, hi) && lo % 16 == 0 && Linked(hdr, bs) && i < |bs| && bs[i].free
    requires hdr' == hdr[bs[i].addr := hdr[bs[i].addr].(free := false)]
    requires OnlyHeaders(m, m', bs[i].addr, bs[i].addr)
    ensures Taken(bs, lo, hi, i, bs', bs[i].size, hdr', m, m') && bs' == Splice(bs, i, 1, [bs[i].(free := false)])
  {
    var mid := [bs[i].(free := false)];
    Distinct(bs, lo, hi);
    LinkedOne(hdr', mid[0], HeadAddr(bs[i + 1..], 0));
    TakenBlock(bs, lo, hi, i, mid, hdr, hdr', m, m', bs[i].addr);
    bs' := Splice(bs, i, 1, mid);
  }

  /** `bs'` is `bs` with block `i` handed out with at least `n` bytes. */
  ghost predicate Taken(bs: seq<Blk>, lo: nat, hi: nat, i: nat, bs': seq<Blk>, n: nat, hdr': map<nat, Header>,
                        m: Memory, m': Memory)
    requires i < |bs|
  {
    && WellTiled(bs', lo, hi) && Linked(hdr', bs') && bs' != [] && bs'[0].addr == bs[0].addr
    && (exists b :: b in bs' && b.addr == bs[i].addr && !b.free && b.size >= n)
    && (forall b :: b in bs && b.addr == bs[i].addr ==> b.free)
    && SameLive(bs, bs', {bs[i].addr}) && LiveKept(m, m', bs, {})
  }

  /** The result of appending an allocated block at the old break `hi`. */
  lemma Appended(bs: seq<Blk>, lo: nat, hi: nat, n: nat, hdr: map<nat, Header>, hdr': map<nat, Header>, m: Memory,
                 m': Memory)
    returns (bs': seq<Blk>)
    requires WellTiled(bs, lo, hi) && lo % 16 == 0 && Linked(hdr, bs) && bs != [] && n % 16 == 0 && n >= 16
    requires var l := bs[|bs| - 1]; hdr' == hdr[hi := Header(n, 0, false)][l.addr := Header(l.size, hi, l.free)]
    requires OnlyHeaders(m, m', hi, bs[|bs| - 1].addr)
    ensures WellTiled(bs', lo, hi + HDR + n) && Linked(hdr', bs') && bs' != []
    ensures bs' == bs + [Blk(hi, n, false)]
    ensures exists b :: b in bs' && b.addr == hi && !b.free && b.size >= n
    ensures forall b :: b in bs && b.addr == hi ==> b.free
    ensures SameLive(bs, bs', {hi}) && LiveKept(m, m', bs, {})
  {
    var l, e := bs[|bs| - 1], Blk(hi, n, false);
    bs' := bs + [e];
    LastApart(bs, lo, hi);
    AppendedLinks(bs, lo, hi, n, hdr, hdr');
    assert bs'[|bs|] == e && bs'[|bs| - 1] == l;
    HeadersSparePayloads(bs, bs', lo, hi + HDR + n, m, m', e, l, {hi});
  }

  lemma LastApart(bs: seq<Blk>, lo: nat, hi: nat)
    requires Tiled(bs, lo, hi)
    ensures forall b :: b in bs ==> b.addr != hi
  {
    forall b | b in bs ensures b.addr != hi {
      var k :| 0 <= k < |bs| && bs[k] == b;
      Within(bs, lo, hi, k);
    }
  }

  lemma AppendedLinks(bs: seq<Blk>, lo: nat, hi: nat, n: nat, hdr: map<nat, Header>, hdr': map<nat, Header>)
    requires Tiled(bs, lo, hi) && Linked(hdr, bs) && bs != []
    requires var l := bs[|bs| - 1]; hdr' == hdr[hi := Header(n, 0, false)][l.addr := Header(l.size, hi, l.free)]
    ensures Linked(hdr', bs + [Blk(hi, n, false)])
  {
    var l, e, pre := bs[|bs| - 1], Blk(hi, n, false), bs[..|bs| - 1];
    assert bs == pre + [l];
    LastApart(bs, lo, hi);
    Distinct(bs, lo, hi);
    LinkedAppend(hdr, pre, [l], 0);
    LinkedFrame(hdr, hdr', pre, l.addr, hi, l.addr);
    LinkedPair(hdr', l, e, 0);
    LinkedAppend(hdr', pre, [l, e], 0);
    assert bs + [e] == pre + [l, e];
  }

  /** Both lists agree on allocated blocks, whose bytes survived, except at `except`. */
  ghost predicate LiveSame(bs: seq<Blk>, bs': seq<Blk>, m: Memory, m': Memory, except: set<nat>) {
    SameLive(bs, bs', except) && LiveKept(m, m', bs, except)
  }

  lemma LiveTwice(b0: seq<Blk>, b1: seq<Blk>, b2: seq<Blk>, m0: Memory, m1: Memory, m2: Memory, e: set<nat>)
    requires LiveSame(b0, b1, m0, m1, e) && LiveSame(b1, b2, m1, m2, e)
    ensures LiveSame(b0, b2, m0, m2, e)
  {
    forall b: Blk | b in b0 && !b.free && b.addr !in e ensures PayloadKept(m0, m2, b) {
      assert b in b1;
      assert PayloadKept(m0, m1, b) && PayloadKept(m1, m2, b);
      forall x: nat | Payload(b) <= x < Payload(b) + b.size ensures SameByte(m0, m2, x) {
        assert SameByte(m0, m1, x) && SameByte(m1, m2, x);
      }
    }
  }

  /** The `n` blocks from `i` on became the single block `b` at the first one's address. */
  lemma Joined(bs: seq<Blk>, lo: nat, hi: nat, i: nat, n: nat, b: Blk, hdr: map<nat, Header>, hdr': map<nat, Header>,
               m: Memory, m': Memory, except: set<nat>)
    returns (bs': seq<Blk>)
    requires Tiled(bs, lo, hi) && Sized(bs) && lo % 16 == 0 && Linked(hdr, bs) && 0 < n && i + n <= |bs|
    requires b.addr == bs[i].addr && End(b) == End(bs[i + n - 1]) && b.size % 16 == 0 && b.size >= 16
    requires hdr' == hdr[b.addr := Header(b.size, HeadAddr(bs[i + n..], 0), b.free)]
    requires OnlyHeaders(m, m', b.addr, b.addr)
    requires forall k :: i <= k < i + n ==> bs[k].free || bs[k].addr in except
    requires b.free || b.addr in except
    ensures bs' == Splice(bs, i, n, [b])
    ensures Tiled(bs', lo, hi) && Sized(bs') && Linked(hdr', bs') && LiveSame(bs, bs', m, m', except)
    ensures bs'[0].addr == bs[0].addr && bs'[i] == b && |bs'| == |bs| - n + 1
  {
    bs' := Splice(bs, i, n, [b]);
    SpliceTiled(bs, lo, hi, i, n, [b]);
    SpliceSized(bs, i, n, [b]);
    SpliceLive(bs, i, n, [b], except);
    Distinct(bs, lo, hi);
    LinkedOne(hdr', b, HeadAddr(bs[i + n..], 0));
    LinkedSplice(hdr, hdr', bs, lo, hi, i, n, [b], b.addr, b.addr);
    assert bs'[i] == b;
    SparePayloads(bs, bs', lo, hi, m, m', b, except);
  }

  lemma SparePayloads(bs: seq<Blk>, bs': seq<Blk>, lo: nat, hi: nat, m: Memory, m': Memory, a: Blk, except: set<nat>)
    requires Tiled(bs', lo, hi) && Sized(bs') && a in bs'
    requires SameLive(bs, bs', except) && OnlyHeaders(m, m', a.addr, a.addr)
    ensures LiveKept(m, m', bs, except)
  {
    forall c: Blk | c in bs && !c.free && c.addr !in except
      ensures PayloadKept(m, m', c)
    {
      assert c in bs';
      var i :| 0 <= i < |bs'| && bs'[i] == a;
      var j :| 0 <= j < |bs'| && bs'[j] == c;
      if i != j { BlocksDisjoint(bs', lo, hi, i, j); }
    }
  }

  /** The link of block `k` names block `i` exactly when `k` comes directly before it. */
  lemma NextIs(bs: seq<Blk>, lo: nat, hi: nat, k: nat, i: nat)
    requires Tiled(bs, lo, hi) && lo > 0 && k < |bs| && i < |bs|
    ensures HeadAddr(bs[k..], 0) == bs[k].addr != 0
    ensures HeadAddr(bs[k + 1..], 0) == bs[i].addr <==> k + 1 == i
  {
    Distinct(bs, lo, hi);
    Within(bs, lo, hi, k);
    Within(bs, lo, hi, i);
  }

  lemma AloneFree(bs: seq<Blk>, lo: nat, hi: nat, i: nat)
    requires Tiled(bs, lo, hi) && i < |bs| && bs[i].free
    ensures forall b :: b in bs && b.addr == bs[i].addr ==> b.free
    ensures NearlyCoalesced(bs, i) && (i > 0 ==> !bs[i - 1].free) ==> Coalesced(bs)
  {
    Distinct(bs, lo, hi);
  }

  lemma MergedLeft(bs: seq<Blk>, lo: nat, hi: nat, i: nat, hdr: map<nat, Header>, hdr': map<nat, Header>, m: Memory,
                   m': Memory)
    returns (bs': seq<Blk>)
    requires Tiled(bs, lo, hi) && Sized(bs) && lo % 16 == 0 && Linked(hdr, bs) && NearlyCoalesced(bs, i)
    requires 0 < i < |bs| && bs[i - 1].free && bs[i].free
    requires var h, p := hdr[bs[i].addr], hdr[bs[i - 1].addr];
      hdr' == hdr[bs[i - 1].addr := Header(p.size + HDR + h.size, h.next, true)]
    requires OnlyHeaders(m, m', bs[i - 1].addr, bs[i - 1].addr)
    ensures WellTiled(bs', lo, hi) && Linked(hdr', bs') && bs' != [] && bs'[0].addr == bs[0].addr
    ensures LiveSame(bs, bs', m, m', {bs[i].addr})
    ensures forall b :: b in bs' && b.addr == bs[i].addr ==> b.free
  {
    var b := Blk(bs[i - 1].addr, bs[i - 1].size + HDR + bs[i].size, true);
    assert bs[i].addr == End(bs[i - 1]);
    bs' := Joined(bs, lo, hi, i - 1, 2, b, hdr, hdr', m, m', {bs[i].addr});
    SpliceSettles(bs, i, b);
    GoneFrom(bs', lo, hi, i - 1, bs[i].addr);
  }

  lemma ReleasedRight(bs: seq<Blk>, lo: nat, hi: nat, i: nat, n: nat, hdr: map<nat, Header>, hdr': map<nat, Header>,
                      m: Memory, m': Memory)
    returns (bs': seq<Blk>)
    requires WellTiled(bs, lo, hi) && lo % 16 == 0 && Linked(hdr, bs) && i < |bs| && 1 <= n <= 2 && i + n <= |bs|
    requires n == 2 ==> bs[i + 1].free
    requires n == 1 && i + 1 < |bs| ==> !bs[i + 1].free
    requires OnlyHeaders(m, m', bs[i].addr, bs[i].addr)
    requires hdr' == hdr[bs[i].addr := Header(End(bs[i + n - 1]) - Payload(bs[i]), HeadAddr(bs[i + n..], 0), true)]
    requires End(bs[i + n - 1]) >= Payload(bs[i])
    ensures Tiled(bs', lo, hi) && Sized(bs') && Linked(hdr', bs') && NearlyCoalesced(bs', i)
    ensures i < |bs'| && bs'[i].addr == bs[i].addr && bs'[i].free && bs'[0].addr == bs[0].addr
    ensures LiveSame(bs, bs', m, m', {bs[i].addr})
  {
    if n == 2 { assert bs[i + 1].addr == End(bs[i]); }
    var b := Blk(bs[i].addr, End(bs[i + n - 1]) - Payload(bs[i]), true);
    bs' := Joined(bs, lo, hi, i, n, b, hdr, hdr', m, m', {bs[i].addr});
    SpliceNearly(bs, i, n, b);
  }

  /** The right neighbour of block `i` as its header tells it. */
  lemma LastHeader(hdr: map<nat, Header>, bs: seq<Blk>)
    requires Linked(hdr, bs) && bs != []
    ensures var l := bs[|bs| - 1]; l.addr in hdr && hdr[l.addr] == Header(l.size, 0, l.free)
  {
  }

  lemma NextHeader(hdr: map<nat, Header>, bs: seq<Blk>, lo: nat, hi: nat, i: nat)
    requires Tiled(bs, lo, hi) && lo > 0 && Linked(hdr, bs) && i < |bs|
    ensures bs[i].addr in hdr && hdr[bs[i].addr].next == (if i + 1 < |bs| then bs[i + 1].addr else 0)
    ensures hdr[bs[i].addr] == Header(bs[i].size, HeadAddr(bs[i + 1..], 0), bs[i].free)
    ensures hdr[bs[i].addr].next != 0 <==> i + 1 < |bs|
    ensures i + 1 < |bs| ==> bs[i + 1].addr == End(bs[i]) && bs[i + 1].addr in hdr
    ensures i + 1 < |bs| ==> hdr[bs[i + 1].addr] == Header(bs[i + 1].size, HeadAddr(bs[i + 2..], 0), bs[i + 1].free)
  {
    if i + 1 < |bs| { Within(bs, lo, hi, i + 1); }
  }

  /** The `cnt` blocks from the allocated block `i` on became that block with `n` bytes and
      one free block behind it. */
  lemma Shrunk(bs: seq<Blk>, lo: nat, hi: nat, i: nat, n: nat, cnt: nat, hdr: map<nat, Header>, hdr': map<nat, Header>,
               m: Memory, m': Memory)
    returns (bs': seq<Blk>)
    requires WellTiled(bs, lo, hi) && lo % 16 == 0 && Linked(hdr, bs) && i < |bs| && 1 <= cnt <= 2 && i + cnt <= |bs|
    requires !bs[i].free && n % 16 == 0 && 16 <= n && n + HDR + 16 <= bs[i].size
    requires cnt == 2 ==> bs[i + 1].free
    requires cnt == 1 && i + 1 < |bs| ==> !bs[i + 1].free
    requires End(bs[i + cnt - 1]) >= Payload(bs[i]) + n + HDR
    requires hdr' == hdr[Payload(bs[i]) + n :=
                         Header(End(bs[i + cnt - 1]) - Payload(bs[i]) - n - HDR, HeadAddr(bs[i + cnt..], 0), true)]
                        [bs[i].addr := Header(n, Payload(bs[i]) + n, false)]
    requires OnlyHeaders(m, m', Payload(bs[i]) + n, bs[i].addr)
    ensures WellTiled(bs', lo, hi) && Linked(hdr', bs') && bs' != [] && bs'[0].addr == bs[0].addr
    ensures Resized(bs, bs', m, m', Payload(bs[i]), Payload(bs[i]), n, n)
    ensures bs[i].size - n > HDR + 16 ==> StaysPut(bs, i, n) && bs' == InPlace(bs, i, n)
  {
    var b := Blk(bs[i].addr, n, false);
    var c := Blk(Payload(bs[i]) + n, End(bs[i + cnt - 1]) - Payload(bs[i]) - n - HDR, true);
    ShrunkLinks(bs, lo, hi, i, cnt, b, c, hdr, hdr');
    RestSize(bs, i, n, cnt, c.size);
    bs' := ShrunkList(bs, lo, hi, i, n, cnt, b, c, hdr');
    HeadersSparePayloads(bs, bs', lo, hi, m, m', c, b, {bs[i].addr});
    ResizedInPlace(bs, bs', m, m', b, n, b, n);
    assert bs[i].size - n > HDR + 16 ==> StaysPut(bs, i, n) && bs' == InPlace(bs, i, n) by {
      ShrunkInPlace(bs, lo, hi, i, n, cnt, b, c);
    }
  }

  lemma ShrunkInPlace(bs: seq<Blk>, lo: nat, hi: nat, i: nat, n: nat, cnt: nat, b: Blk, c: Blk)
    requires Tiled(bs, lo, hi) && i < |bs| && n <= bs[i].size && cnt == if FreeRight(bs, i) then 2 else 1
    requires b == Blk(bs[i].addr, n, false) && End(c) == End(bs[i + cnt - 1])
    requires c.addr == Payload(bs[i]) + n && c.free
    ensures bs[i].size - n > HDR + 16 ==> Splice(bs, i, cnt, [b, c]) == InPlace(bs, i, n)
  {
  }

  lemma RestSize(bs: seq<Blk>, i: nat, n: nat, cnt: nat, rest: nat)
    requires i < |bs| && 1 <= cnt <= 2 && i + cnt <= |bs| && Sized(bs)
    requires cnt == 2 ==> bs[i + 1].addr == End(bs[i])
    requires n % 16 == 0 && n + HDR + 16 <= bs[i].size && rest == End(bs[i + cnt - 1]) - Payload(bs[i]) - n - HDR
    ensures rest % 16 == 0 && rest >= 16
  {
    if cnt == 2 {
      assert rest == (bs[i].size - n - HDR) + (HDR + bs[i + 1].size);
    } else {
      assert rest == bs[i].size - n - HDR;
    }
  }

  lemma ShrunkLinks(bs: seq<Blk>, lo: nat, hi: nat, i: nat, cnt: nat, b: Blk, c: Blk, hdr: map<nat, Header>,
                    hdr': map<nat, Header>)
    requires Tiled(bs, lo, hi) && Linked(hdr, bs) && 0 < cnt && i + cnt <= |bs|
    requires b.addr == bs[i].addr < c.addr < End(bs[i])
    requires hdr' == hdr[c.addr := Header(c.size, HeadAddr(bs[i + cnt..], 0), c.free)]
                        [b.addr := Header(b.size, c.addr, b.free)]
    ensures Linked(hdr', Splice(bs, i, cnt, [b, c]))
  {
    InnerApart(bs, lo, hi, i, cnt, c.addr);
    LinkedPair(hdr', b, c, HeadAddr(bs[i + cnt..], 0));
    LinkedSplice(hdr, hdr', bs, lo, hi, i, cnt, [b, c], c.addr, b.addr);
  }

  lemma ShrunkList(bs: seq<Blk>, lo: nat, hi: nat, i: nat, n: nat, cnt: nat, b: Blk, c: Blk, hdr': map<nat, Header>)
    returns (bs': seq<Blk>)
    requires WellTiled(bs, lo, hi) && i < |bs| && 1 <= cnt <= 2 && i + cnt <= |bs|
    requires !bs[i].free && n % 16 == 0 && 16 <= n && n + HDR + 16 <= bs[i].size
    requires cnt == 2 ==> bs[i + 1].free
    requires cnt == 1 && i + 1 < |bs| ==> !bs[i + 1].free
    requires b == Blk(bs[i].addr, n, false) && c.free && c.addr == End(b) && End(c) == End(bs[i + cnt - 1])
    requires c.size % 16 == 0 && c.size >= 16
    requires Linked(hdr', Splice(bs, i, cnt, [b, c]))
    ensures WellTiled(bs', lo, hi) && Linked(hdr', bs') && bs' != [] && bs'[0].addr == bs[0].addr
    ensures SameLive(bs, bs', {bs[i].addr}) && b in bs' && c in bs' && bs' == Splice(bs, i, cnt, [b, c])
  {
    bs' := Splice(bs, i, cnt, [b, c]);
    assert [b, c][0] == b && [b, c][1] == c;
    SpliceTiled(bs, lo, hi, i, cnt, [b, c]);
    SpliceSized(bs, i, cnt, [b, c]);
    SpliceCoalesced(bs, i, cnt, [b, c]);
    SpliceLive(bs, i, cnt, [b, c], {bs[i].addr});
    assert bs'[i] == b && bs'[i + 1] == c;
  }

  /** An address inside block `i` is no address of a block outside the run from `i`. */
  lemma InnerApart(bs: seq<Blk>, lo: nat, hi: nat, i: nat, cnt: nat, x: nat)
    requires Tiled(bs, lo, hi) && i + cnt <= |bs| && 0 < cnt && bs[i].addr < x < End(bs[i])
    ensures forall k :: 0 <= k < |bs| && !(i <= k < i + cnt) ==> bs[k].addr != x && bs[k].addr != bs[i].addr
  {
    forall k | 0 <= k < |bs| && !(i <= k < i + cnt) ensures bs[k].addr != x && bs[k].addr != bs[i].addr {
      BlocksDisjoint(bs, lo, hi, i, k);
    }
  }

  /** A free right neighbour absorbed into the allocated block `i`. */
  lemma Absorbed(bs: seq<Blk>, lo: nat, hi: nat, i: nat, n: nat, hdr: map<nat, Header>, hdr': map<nat, Header>,
                 m: Memory, m': Memory)
    returns (bs': seq<Blk>)
    requires WellTiled(bs, lo, hi) && lo % 16 == 0 && Linked(hdr, bs) && i + 1 < |bs|
    requires bs[i].size < n <= bs[i].size + HDR + bs[i + 1].size && !bs[i].free && bs[i + 1].free
    requires hdr' == hdr[bs[i].addr := Header(bs[i].size + HDR + bs[i + 1].size, HeadAddr(bs[i + 2..], 0), false)]
    requires OnlyHeaders(m, m', bs[i].addr, bs[i].addr)
    ensures WellTiled(bs', lo, hi) && Linked(hdr', bs') && bs' != [] && bs'[0].addr == bs[0].addr
    ensures Resized(bs, bs', m, m', Payload(bs[i]), Payload(bs[i]), n, bs[i].size)
    ensures StaysPut(bs, i, n) && bs' == InPlace(bs, i, n)
  {
    var b := Blk(bs[i].addr, bs[i].size + HDR + bs[i + 1].size, false);
    bs' := AbsorbedList(bs, lo, hi, i, b, hdr, hdr', m, m');
    AbsorbedKept(bs[i], m, m');
    ResizedInPlace(bs, bs', m, m', b, n, bs[i], bs[i].size);
  }

  lemma AbsorbedList(bs: seq<Blk>, lo: nat, hi: nat, i: nat, b: Blk, hdr: map<nat, Header>, hdr': map<nat, Header>,
                     m: Memory, m': Memory)
    returns (bs': seq<Blk>)
    requires WellTiled(bs, lo, hi) && lo % 16 == 0 && Linked(hdr, bs) && i + 1 < |bs| && !bs[i].free && bs[i + 1].free
    requires b == Blk(bs[i].addr, bs[i].size + HDR + bs[i + 1].size, false)
    requires hdr' == hdr[b.addr := Header(b.size, HeadAddr(bs[i + 2..], 0), false)]
    requires OnlyHeaders(m, m', b.addr, b.addr)
    ensures WellTiled(bs', lo, hi) && Linked(hdr', bs') && bs' != [] && bs'[0].addr == bs[0].addr
    ensures b in bs' && LiveSame(bs, bs', m, m', {b.addr}) && bs' == Splice(bs, i, 2, [b])
  {
    assert bs[i + 1].addr == End(bs[i]);
    bs' := Joined(bs, lo, hi, i, 2, b, hdr, hdr', m, m', {b.addr});
    SpliceCoalesced(bs, i, 2, [b]);
  }

  lemma AbsorbedKept(b: Blk, m: Memory, m': Memory)
    requires OnlyHeaders(m, m', b.addr, b.addr)
    ensures PayloadKept(m, m', b)
  {
  }

  ghost predicate ByteCopied(m: Memory, from: nat, m': Memory, to: nat, k: nat) {
    (from + k in m <==> to + k in m') && (from + k in m ==> m[from + k] == m'[to + k])
  }

  /** The first `n` bytes at `to` in `m'` are those that were at `from` in `m`. */
  ghost predicate Copied(m: Memory, from: nat, m': Memory, to: nat, n: nat) {
    forall k: nat :: k < n ==> ByteCopied(m, from, m', to, k)
  }

  ghost predicate OnlyRange(m: Memory, m': Memory, lo: nat, n: nat) {
    forall x: nat :: !(lo <= x < lo + n) ==> SameByte(m, m', x)
  }

  /** The payload at `ptr` lives on at `r` with at least `size` bytes and its first
      min(old, new) bytes. */
  ghost predicate ReallocDone(bs: seq<Blk>, bs': seq<Blk>, m: Memory, m': Memory, ptr: nat, r: nat, size: nat)
    requires size < WORD
  {
    forall b :: b in bs && !b.free && Payload(b) == ptr ==>
      Resized(bs, bs', m, m', ptr, r, Align16(size), Least(b.size, Align16(size)))
  }

  lemma LiveWeaken(b0: seq<Blk>, b1: seq<Blk>, m0: Memory, m1: Memory, e: set<nat>, e': set<nat>)
    requires LiveSame(b0, b1, m0, m1, e) && e <= e'
    ensures LiveSame(b0, b1, m0, m1, e')
  {
  }

  /** Bytes written into one allocated payload spare all the others. */
  ghost predicate PayloadsApart(b: Blk, c: Blk) {
    Payload(b) + b.size <= Payload(c) || Payload(c) + c.size <= Payload(b)
  }

  ghost predicate ApartFromAll(bs: seq<Blk>, b: Blk) {
    forall c: Blk :: c in bs && c.addr != b.addr ==> PayloadsApart(b, c)
  }

  lemma AllApart(bs: seq<Blk>, lo: nat, hi: nat, b: Blk)
    requires WellTiled(bs, lo, hi) && lo % 16 == 0 && b in bs
    ensures ApartFromAll(bs, b)
  {
    forall c: Blk | c in bs && c.addr != b.addr ensures PayloadsApart(b, c) {
      LivePayloads(bs, lo, hi, b, c);
    }
  }

  lemma RangeSpares(bs: seq<Blk>, b: Blk, n: nat, m: Memory, m': Memory)
    requires ApartFromAll(bs, b) && n <= b.size && OnlyRange(m, m', Payload(b), n)
    ensures LiveSame(bs, bs, m, m', {b.addr})
  {
    forall c: Blk | c in bs && !c.free && c.addr !in {b.addr} ensures PayloadKept(m, m', c) {
      assert PayloadsApart(b, c);
    }
  }

  /** Copy, then free the source: the copy and everybody else's bytes stay. */
  lemma CopyDone(b1: seq<Blk>, b3: seq<Blk>, m1: Memory, m2: Memory, m3: Memory, p: Blk, q: Blk)
    requires q in b1 && !q.free && p.addr != q.addr && p.size <= q.size
    requires LiveSame(b1, b1, m1, m2, {q.addr}) && LiveSame(b1, b3, m2, m3, {p.addr})
    requires Copied(m1, Payload(p), m2, Payload(q), p.size)
    ensures q in b3 && LiveSame(b1, b3, m1, m3, {p.addr, q.addr})
    ensures Copied(m1, Payload(p), m3, Payload(q), p.size)
  {
    LiveWeaken(b1, b1, m1, m2, {q.addr}, {p.addr, q.addr});
    LiveWeaken(b1, b3, m2, m3, {p.addr}, {p.addr, q.addr});
    LiveTwice(b1, b1, b3, m1, m2, m3, {p.addr, q.addr});
    assert PayloadKept(m2, m3, q);
    forall k: nat | k < p.size ensures ByteCopied(m1, Payload(p), m3, Payload(q), k) {
      assert ByteCopied(m1, Payload(p), m2, Payload(q), k);
      assert SameByte(m2, m3, Payload(q) + k);
    }
  }

  /** Allocate, then copy and free: the moved payload, and everybody else's. */
  lemma MoveDone(b0: seq<Blk>, b1: seq<Blk>, b3: seq<Blk>, m0: Memory, m1: Memory, m3: Memory, p: Blk, q: Blk)
    requires p in b0 && !p.free && q in b3 && !q.free && p.size <= q.size && p.addr != q.addr
    requires SameLive(b0, b1, {q.addr}) && LiveKept(m0, m1, b0, {})
    requires LiveSame(b1, b3, m1, m3, {p.addr, q.addr})
    requires Copied(m1, Payload(p), m3, Payload(q), p.size)
    requires forall b :: b in b3 && Payload(b) == Payload(p) ==> b.free
    ensures Resized(b0, b3, m0, m3, Payload(p), Payload(q), q.size, p.size)
  {
    LiveWeaken(b0, b1, m0, m1, {q.addr}, {p.addr, q.addr});
    LiveTwice(b0, b1, b3, m0, m1, m3, {p.addr, q.addr});
    assert PayloadKept(m0, m1, p);
    forall k: nat | k < p.size ensures ByteCopied(m0, Payload(p), m3, Payload(q), k) {
      assert ByteCopied(m1, Payload(p), m3, Payload(q), k);
      assert SameByte(m0, m1, Payload(p) + k);
    }
  }

  /** The allocated payload at `ptr` became one of at least `n` bytes at `r` that starts
      with its first `keep` bytes; every other allocated payload is as it was. */
  ghost predicate Resized(bs: seq<Blk>, bs': seq<Blk>, m: Memory, m': Memory, ptr: nat, r: nat, n: nat, keep: nat) {
    && (exists b :: b in bs' && !b.free && Payload(b) == r && b.size >= n)
    && LiveSame(bs, bs', m, m', {BlockOf(ptr), BlockOf(r)})
    && Copied(m, ptr, m', r, keep)
    && (r != ptr ==> forall b :: b in bs' && Payload(b) == ptr ==> b.free)
  }

  lemma ResizedInPlace(bs: seq<Blk>, bs': seq<Blk>, m: Memory, m': Memory, b: Blk, n: nat, kept: Blk, keep: nat)
    requires b in bs' && !b.free && b.size >= n && LiveSame(bs, bs', m, m', {b.addr})
    requires PayloadKept(m, m', kept) && kept.addr == b.addr && keep <= kept.size
    ensures Resized(bs, bs', m, m', Payload(b), Payload(b), n, keep)
  {
    LiveWeaken(bs, bs', m, m', {b.addr}, {BlockOf(Payload(b)), BlockOf(Payload(b))});
    forall k: nat | k < keep ensures ByteCopied(m, Payload(b), m', Payload(b), k) {
      assert SameByte(m, m', Payload(b) + k);
    }
  }

  function BlockOf(ptr: nat): nat {
    if ptr < HDR then 0 else ptr - HDR
  }

  function Least(a: nat, b: nat): nat {
    if a < b then a else b
  }

  lemma SoleOwner(bs: seq<Blk>, bs': seq<Blk>, m: Memory, m': Memory, i: nat, r: nat, size: nat)
    requires i < |bs| && size < WORD
    requires forall b :: b in bs && Payload(b) == Payload(bs[i]) ==> b == bs[i]
    requires Resized(bs, bs', m, m', Payload(bs[i]), r, Align16(size), Least(bs[i].size, Align16(size)))
    ensures ReallocDone(bs, bs', m, m', Payload(bs[i]), r, size)
  {
  }

  class Heap {
    const base: nat

    var heapEnd: nat
    var brk: nat
    var head: nat
    var hdr: map<nat, Header>
    var mem: Memory
    ghost var blocks: seq<Blk>

    /** The steps that may fail. */
    var failing: set<Failure>

    /** The blocks tile base..brk, no two free neighbours, links exact, all committed. */
    ghost predicate Valid()
      reads this
    {
      && base > 0 && base % PAGE_SIZE == 0 && base % 16 == 0
      && WellTiled(blocks, base, brk) && Linked(hdr, blocks)
      && brk <= heapEnd <= base + HEAP_SIZE && heapEnd % PAGE_SIZE == 0
      && head == (if blocks == [] then 0 else base)
    }

    /** An initialised heap with its first pages committed. */
    constructor (b: nat)
      requires b > 0 && b % PAGE_SIZE == 0
      ensures Valid() && base == b && blocks == []
    {
      base := b;
      heapEnd := b + INITIAL_PAGES * PAGE_SIZE;
      brk, head, hdr, mem, blocks, failing := b, 0, map[], map[], [], {};
    }

    // ----- arena growth

    /** Commits page after page up to `target`; stops early, with some pages added, when a frame
        cannot be had or mapped. */
    method CommitTo(target: nat) returns (ok: bool)
      requires heapEnd % PAGE_SIZE == 0 && heapEnd <= base + HEAP_SIZE
      requires target % PAGE_SIZE == 0 && target <= base + HEAP_SIZE
      modifies this`heapEnd
      ensures heapEnd % PAGE_SIZE == 0 && old(heapEnd) <= heapEnd <= base + HEAP_SIZE
      ensures ok ==> heapEnd == if target <= old(heapEnd) then old(heapEnd) else target
      ensures !ok ==> Paging in failing && heapEnd < target
    {
      var page := heapEnd;
      while page < target
        invariant page == heapEnd && heapEnd % PAGE_SIZE == 0
        invariant old(heapEnd) <= heapEnd <= base + HEAP_SIZE && (heapEnd == old(heapEnd) || heapEnd <= target)
        decreases target - page
      {
        NextPage(page, target);
        var f := Fails(failing, Paging);
        if f { return false; }
        page := page + PAGE_SIZE;
        heapEnd := page;
      }
      return true;
    }

    /** Moves the break by `n`, committing pages as needed; a negative `n` gives nothing back
        to the machine and fails only below the base. */
    method Sbrk(n: int) returns (ok: bool)
      requires Valid()
      modifies this`heapEnd, this`brk
      ensures ok ==> brk == old(brk) + n && base <= brk <= heapEnd <= base + HEAP_SIZE && heapEnd % PAGE_SIZE == 0
      ensures !ok ==> Valid() && brk == old(brk)
      ensures !(base <= old(brk) + n <= base + HEAP_SIZE) ==> !ok
      ensures base <= old(brk) + n <= old(heapEnd) ==> ok && heapEnd == old(heapEnd)
      ensures base <= old(brk) + n <= base + HEAP_SIZE ==> ok || Paging in failing
      ensures ok && brk > old(heapEnd) ==> heapEnd < brk + PAGE_SIZE
    {
      if blocks != [] { Within(blocks, base, brk, 0); }
      if n == 0 { return true; }
      var newBreak := brk + n;
      if newBreak < base { return false; }
      if newBreak > base + HEAP_SIZE { return false; }
      if newBreak > heapEnd {
        var target := (newBreak + PAGE_SIZE - 1) / PAGE_SIZE * PAGE_SIZE;
        PageRound(newBreak, base);
        ok := CommitTo(target);
        if !ok { return false; }
      }
      brk := newBreak;
      return true;
    }

    /** Writes a header; its bytes are no longer payload bytes of anything. */
    method WriteHeader(a: nat, h: Header)
      modifies this`hdr, this`mem
      ensures hdr == old(hdr)[a := h]
      ensures OnlyHeaders(old(mem), mem, a, a)
    {
      hdr := hdr[a := h];
      for i := 0 to HDR
        invariant hdr == old(hdr)[a := h]
        invariant forall x: nat :: !(a <= x < a + HDR) ==> SameByte(old(mem), mem, x)
      {
        var v: bv8 := *;
        ghost var m := mem;
        mem := mem[a + i := v];
        forall x: nat | !(a <= x < a + HDR) ensures SameByte(old(mem), mem, x) {
          assert SameByte(old(mem), m, x);
        }
      }
    }

    /** Writes two headers, one after the other. */
    method WriteHeaders(a: nat, ha: Header, b: nat, hb: Header)
      modifies this`hdr, this`mem
      ensures hdr == old(hdr)[a := ha][b := hb]
      ensures OnlyHeaders(old(mem), mem, a, b)
    {
      WriteHeader(a, ha);
      ghost var m := mem;
      WriteHeader(b, hb);
      TwoHeaders(old(mem), m, mem, a, b);
    }

    // ----- malloc

    /** Takes a block of at least `size` bytes: the first free block that fits, or fresh
        arena behind the last block. The bytes handed out lie in the heap, and the heap stays
        valid, exactly if the size is within the bound or nothing is handed out. */
    method Malloc(size: nat) returns (ptr: nat)
      requires Valid() && size < WORD
      modifies this`heapEnd, this`brk, this`head, this`hdr, this`mem, this`blocks
      ensures size == 0 ==> ptr == 0
      ensures ptr == 0 ==> Valid() && blocks == old(blocks) && mem == old(mem) && hdr == old(hdr)
      ensures Valid() && Backed(ptr, size) <==> ptr == 0 || size <= MAX_REQUEST
      ensures 0 < size <= MAX_REQUEST && ptr == 0 ==> old(Exhausted(Align16(size)))
      ensures (size <= MAX_REQUEST && ptr != 0 ==>
        Allocated(ptr, Align16(size), old(blocks)) && LiveKept(old(mem), mem, old(blocks), {}))
      ensures size <= MAX_REQUEST && ptr != 0 ==> Placed(ptr, Align16(size), old(blocks), old(brk))
      ensures size <= MAX_REQUEST && ptr != 0 ==> blocks == GivenOut(old(blocks), Align16(size), old(brk))
      ensures size > MAX_REQUEST && !old(Misread(size)) ==> ptr == 0
      ensures size > MAX_REQUEST && old(SurelyMisread(size)) ==> ptr != 0
    {
      if size == 0 { return 0; }
      RequestExact(size);
      if size > MAX_REQUEST { RequestWrong(size); }
      var n := Align16(size);
      if head == 0 {
        ptr := AllocFirst(n);
      } else {
        var found, current;
        ghost var i;
        found, current, i := FindFit(n);
        FirstFitIs(blocks, n, i);
        if found {
          FitsSmall(i, n);
          ptr := TakeFree(current, n, i);
        } else {
          ptr := Extend(current, n);
        }
      }
      if size <= MAX_REQUEST && ptr != 0 { AllocatedBacked(ptr, n, old(blocks)); }
    }

    /** No free block has `n` bytes, and no committed page either: the arena cannot grow that far,
        or not surely. */
    ghost predicate Exhausted(n: nat)
      reads this
    {
      && FirstFit(blocks, n) == |blocks| && brk + HDR + n > heapEnd
      && (brk + HDR + n > base + HEAP_SIZE || Paging in failing)
    }

    /** The `size` bytes at `ptr` lie inside the heap. */
    predicate Backed(ptr: nat, size: nat)
      reads this
    {
      ptr != 0 ==> base + HDR <= ptr && ptr + size <= brk
    }

    /** A size above the bound that is taken for 0, or for which the break moves to a place it
        may have. */
    predicate Misread(size: nat)
      requires size < WORD
      reads this
    {
      var n := Align16(size);
      n == 0 || base <= brk + Increment(n) <= base + HEAP_SIZE
    }

    /** The same, where no page has to be committed for it. */
    ghost predicate SurelyMisread(size: nat)
      requires size < WORD
      reads this
    {
      var n := Align16(size);
      if n == 0 then FirstFit(blocks, 0) < |blocks| || brk + HDR <= heapEnd else base <= brk + Increment(n) <= heapEnd
    }

    lemma FitsSmall(i: nat, n: nat)
      requires Valid() && i < |blocks| && Fits(blocks[i], n)
      ensures n <= HEAP_SIZE < MAX_REQUEST
    {
      Within(blocks, base, brk, i);
    }

    lemma AllocatedBacked(ptr: nat, n: nat, was: seq<Blk>)
      requires Valid() && Allocated(ptr, n, was)
      ensures Backed(ptr, n)
    {
      var b :| b in blocks && b.addr == ptr - HDR && !b.free && b.size >= n;
      var k :| 0 <= k < |blocks| && blocks[k] == b;
      Within(blocks, base, brk, k);
    }

    /** `ptr` is now an allocated payload of at least `n` bytes; no other allocated block
        appeared or vanished. */
    ghost predicate Allocated(ptr: nat, n: nat, was: seq<Blk>)
      reads this
    {
      && ptr >= HDR
      && (exists b :: b in blocks && b.addr == ptr - HDR && !b.free && b.size >= n)
      && (forall b :: b in was && b.addr == ptr - HDR ==> b.free)
      && SameLive(was, blocks, {ptr - HDR})
    }

    /** First fit: the lowest free block that is large enough, else the old break. */
    ghost predicate Placed(ptr: nat, n: nat, was: seq<Blk>, oldBreak: nat)
      reads this
    {
      var i := FirstFit(was, n);
      if i < |was| then ptr == Payload(was[i]) && brk == oldBreak
      else ptr == oldBreak + HDR && brk == ptr + n
    }

    method AllocFirst(n: nat) returns (ptr: nat)
      requires Valid() && head == 0 && n % 16 == 0 && n < WORD
      modifies this`heapEnd, this`brk, this`head, this`hdr, this`mem, this`blocks
      ensures ptr == 0 || ptr == base + HDR
      ensures ptr == 0 ==> Valid() && blocks == old(blocks) && mem == old(mem) && hdr == old(hdr)
      ensures FirstFit(old(blocks), n) == |old(blocks)| && brk <= base + HEAP_SIZE
      ensures 0 < n <= MAX_REQUEST && ptr == 0 ==> old(Exhausted(n))
      ensures ptr != 0 ==> blocks == [Blk(base, n, false)] && old(brk) == base && old(blocks) == []
      ensures (0 < n <= MAX_REQUEST && ptr != 0 ==>
        Valid() && Allocated(ptr, n, old(blocks)) && LiveKept(old(mem), mem, old(blocks), {}))
      ensures 0 < n <= MAX_REQUEST && ptr != 0 ==> Placed(ptr, n, old(blocks), old(brk))
      ensures !(base <= old(brk) + Increment(n) <= base + HEAP_SIZE) ==> ptr == 0
      ensures base <= old(brk) + Increment(n) <= old(heapEnd) ==> ptr != 0
    {
      IncrementExact(n);
      var ok := Sbrk(Increment(n));
      if !ok { return 0; }
      head := base;
      WriteHeader(base, Header(n, 0, false));
      blocks := [Blk(base, n, false)];
      assert blocks[0] in blocks;
      return base + HDR;
    }

    /** Hands out block `i`, splitting off the rest when it can hold a block of its own. */
    method TakeFree(current: nat, n: nat, ghost i: nat) returns (ptr: nat)
      requires Valid() && n % 16 == 0
      requires i < |blocks| && Fits(blocks[i], n) && current == blocks[i].addr
      modifies this`heapEnd, this`brk, this`head, this`hdr, this`mem, this`blocks
      ensures brk == old(brk) && ptr == Payload(old(blocks)[i]) && ptr >= base + HDR
      ensures n > 0 ==> Valid() && Allocated(ptr, n, old(blocks)) && LiveKept(old(mem), mem, old(blocks), {})
      ensures blocks == Splice(old(blocks), i, 1, HandedOut(old(blocks)[i], n))
    {
      Within(blocks, base, brk, i);
      var leftover := hdr[current].size - n;
      if leftover > HDR + 8 {
        SplitFree(current, n, i);
      } else {
        TakeWhole(current, n, i);
      }
      return current + HDR;
    }

    method SplitFree(current: nat, n: nat, ghost i: nat)
      requires Valid() && n % 16 == 0
      requires i < |blocks| && Fits(blocks[i], n) && current == blocks[i].addr && blocks[i].size - n > HDR + 8
      modifies this`heapEnd, this`brk, this`head, this`hdr, this`mem, this`blocks
      ensures brk == old(brk)
      ensures n > 0 ==> Valid() && Allocated(current + HDR, n, old(blocks)) && LiveKept(old(mem), mem, old(blocks), {})
      ensures blocks == Splice(old(blocks), i, 1, SplitBlock(old(blocks)[i], n))
    {
      ghost var bs, hdr0, m0 := blocks, hdr, mem;
      var h := hdr[current];
      var rest := current + HDR + n;
      WriteHeaders(rest, Header(h.size - n - HDR, h.next, true), current, Header(n, rest, false));
      if n > 0 {
        blocks := SplitTaken(bs, base, brk, i, n, hdr0, hdr, m0, mem);
      } else {
        blocks := Splice(bs, i, 1, SplitBlock(bs[i], n));
      }
    }

    method TakeWhole(current: nat, n: nat, ghost i: nat)
      requires Valid() && i < |blocks| && Fits(blocks[i], n) && current == blocks[i].addr
      modifies this`heapEnd, this`brk, this`head, this`hdr, this`mem, this`blocks
      ensures Valid() && brk == old(brk)
      ensures Allocated(current + HDR, n, old(blocks)) && LiveKept(old(mem), mem, old(blocks), {})
      ensures blocks == Splice(old(blocks), i, 1, [old(blocks)[i].(free := false)])
    {
      ghost var bs, hdr0, m0 := blocks, hdr, mem;
      WriteHeader(current, hdr[current].(free := false));
      blocks := WholeTaken(bs, base, brk, i, hdr0, hdr, m0, mem);
    }

    /** Appends a block of `n` bytes behind the last one. */
    method Extend(current: nat, n: nat) returns (ptr: nat)
      requires Valid() && n % 16 == 0 && n < WORD && blocks != [] && current == blocks[|blocks| - 1].addr
      modifies this`heapEnd, this`brk, this`head, this`hdr, this`mem, this`blocks
      ensures ptr == 0 || ptr == old(brk) + HDR
      ensures ptr == 0 ==> Valid() && blocks == old(blocks) && mem == old(mem) && hdr == old(hdr)
      ensures base <= old(brk) && brk <= base + HEAP_SIZE
      ensures (0 < n <= MAX_REQUEST && ptr != 0 ==>
        Valid() && Allocated(ptr, n, old(blocks)) && LiveKept(old(mem), mem, old(blocks), {}))
      ensures 0 < n <= MAX_REQUEST && ptr != 0 ==> brk == ptr + n
      ensures ptr != 0 ==> blocks == old(blocks) + [Blk(old(brk), n, false)]
      ensures (0 < n <= MAX_REQUEST && ptr == 0 ==>
        old(brk) + HDR + n > old(heapEnd) && (old(brk) + HDR + n > base + HEAP_SIZE || Paging in failing))
      ensures !(base <= old(brk) + Increment(n) <= base + HEAP_SIZE) ==> ptr == 0
      ensures base <= old(brk) + Increment(n) <= old(heapEnd) ==> ptr != 0
    {
      IncrementExact(n);
      Within(blocks, base, brk, 0);
      var next := current + HDR + hdr[current].size;
      var ok := Sbrk(Increment(n));
      if !ok { return 0; }
      AppendBlock(current, next, n);
      return next + HDR;
    }

    /** Writes the new last block, into arena that the break already covers if the growth was
        exact. */
    method AppendBlock(current: nat, next: nat, n: nat)
      requires base > 0 && base % PAGE_SIZE == 0 && base % 16 == 0 && head == base && heapEnd % PAGE_SIZE == 0
      requires n % 16 == 0 && brk <= heapEnd <= base + HEAP_SIZE && (0 < n <= MAX_REQUEST ==> next + HDR + n == brk)
      requires WellTiled(blocks, base, next) && Linked(hdr, blocks)
      requires blocks != [] && current == blocks[|blocks| - 1].addr
      modifies this`hdr, this`mem, this`blocks
      ensures (0 < n <= MAX_REQUEST ==>
        Valid() && Allocated(next + HDR, n, old(blocks)) && LiveKept(old(mem), mem, old(blocks), {}))
      ensures blocks == old(blocks) + [Blk(next, n, false)]
    {
      ghost var bs, hdr0, m0 := blocks, hdr, mem;
      LastHeader(hdr, bs);
      var last := hdr[current];
      WriteHeaders(next, Header(n, 0, false), current, last.(next := next));
      if 0 < n <= MAX_REQUEST {
        blocks := Appended(bs, base, next, n, hdr0, hdr, m0, mem);
      } else {
        blocks := bs + [Blk(next, n, false)];
      }
    }

    /** Walks the list to the first block that fits, or to the last block. */
    method FindFit(n: nat) returns (found: bool, current: nat, ghost i: nat)
      requires Valid() && blocks != []
      ensures i <= |blocks| && forall k :: 0 <= k < i ==> !Fits(blocks[k], n)
      ensures found ==> i < |blocks| && Fits(blocks[i], n) && current == blocks[i].addr
      ensures !found ==> i == |blocks| && current == blocks[i - 1].addr
    {
      current, i := head, 0;
      while true
        invariant i < |blocks| && current == blocks[i].addr
        invariant forall k :: 0 <= k < i ==> !Fits(blocks[k], n)
        decreases |blocks| - i
      {
        var h := hdr[current];
        if h.free && h.size >= n { return true, current, i; }
        NextHeader(hdr, blocks, base, brk, i);
        i := i + 1;
        if h.next == 0 { return false, current, i; }
        current := h.next;
      }
    }

    // ----- free

    /** Frees an allocated payload and merges the block with free neighbours. NULL,
        misaligned, foreign and already free pointers are ignored. */
    method Free(ptr: nat)
      requires Valid()
      requires ptr == 0 || ptr % 16 != 0 || Foreign(ptr) || exists b :: b in blocks && Payload(b) == ptr
      modifies this`hdr, this`mem, this`blocks
      ensures Valid()
      ensures ((forall b :: b in old(blocks) && Payload(b) == ptr ==> b.free) ==>
        blocks == old(blocks) && mem == old(mem))
      ensures forall b :: b in blocks && Payload(b) == ptr ==> b.free
      ensures LiveSame(old(blocks), blocks, old(mem), mem, {BlockOf(ptr)})
    {
      if ptr == 0 || ptr % 16 != 0 {
        NotAPayload(ptr);
        return;
      }
      if Foreign(ptr) {
        NotAPayload(ptr);
        return;
      }
      ghost var i: nat :| i < |blocks| && Payload(blocks[i]) == ptr;
      PayloadsDistinct(i);
      var block := ptr - HDR;
      if hdr[block].free { return; }
      FreeBlock(block, i);
    }

    method FreeBlock(block: nat, ghost i: nat)
      requires Valid() && i < |blocks| && !blocks[i].free && block == blocks[i].addr
      modifies this`hdr, this`mem, this`blocks
      ensures Valid()
      ensures forall b :: b in blocks && b.addr == block ==> b.free
      ensures LiveSame(old(blocks), blocks, old(mem), mem, {block})
    {
      var bs1 := ReleaseRight(block, i);
      ghost var m1 := mem;
      JoinLeft(block, i, bs1);
      LiveTwice(old(blocks), bs1, blocks, old(mem), m1, mem, {block});
    }

    /** The header of `ptr` would lie outside the committed arena. */
    predicate Foreign(ptr: nat)
      reads this
    {
      ptr < base + HDR || ptr >= heapEnd + HDR
    }

    /** Marks block `i` free and absorbs a free right neighbour. `bs1` is the list then. */
    method ReleaseRight(block: nat, ghost i: nat) returns (ghost bs1: seq<Blk>)
      requires Valid() && i < |blocks| && !blocks[i].free && block == blocks[i].addr
      modifies this`hdr, this`mem
      ensures Tiled(bs1, base, brk) && Sized(bs1) && Linked(hdr, bs1) && NearlyCoalesced(bs1, i)
      ensures i < |bs1| && bs1[i].addr == block && bs1[i].free && bs1[0].addr == head
      ensures LiveSame(blocks, bs1, old(mem), mem, {block})
    {
      ghost var hdr0, m0 := hdr, mem;
      var h := hdr[block];
      NextHeader(hdr, blocks, base, brk, i);
      if h.next != 0 && hdr[h.next].free {
        var next := hdr[h.next];
        var joined := Header(h.size + HDR + next.size, next.next, true);
        assert joined == Header(End(blocks[i + 1]) - Payload(blocks[i]), HeadAddr(blocks[i + 2..], 0), true);
        WriteHeader(block, joined);
        bs1 := ReleasedRight(blocks, base, brk, i, 2, hdr0, hdr, m0, mem);
      } else {
        assert h.(free := true) == Header(End(blocks[i]) - Payload(blocks[i]), HeadAddr(blocks[i + 1..], 0), true);
        WriteHeader(block, h.(free := true));
        bs1 := ReleasedRight(blocks, base, brk, i, 1, hdr0, hdr, m0, mem);
      }
    }

    /** Finds the block before `block` and, if it is free, merges `block` into it. */
    method JoinLeft(block: nat, ghost i: nat, ghost bs1: seq<Blk>)
      requires Arena() && Tiled(bs1, base, brk) && Sized(bs1) && Linked(hdr, bs1) && NearlyCoalesced(bs1, i)
      requires i < |bs1| && bs1[i].addr == block && bs1[i].free && head == base
      modifies this`hdr, this`mem, this`blocks
      ensures Valid() && LiveSame(bs1, blocks, old(mem), mem, {block})
      ensures forall b :: b in blocks && b.addr == block ==> b.free
    {
      var prev := FindPrev(block, i, bs1);
      if prev != 0 && hdr[prev].free {
        MergeInto(prev, block, i, bs1);
      } else {
        if i > 0 {
          NextHeader(hdr, bs1, base, brk, i - 1);
          NextIs(bs1, base, brk, i - 1, i);
        }
        AloneFree(bs1, base, brk, i);
        blocks := bs1;
      }
    }

    method MergeInto(prev: nat, block: nat, ghost i: nat, ghost bs1: seq<Blk>)
      requires Arena() && Tiled(bs1, base, brk) && Sized(bs1) && Linked(hdr, bs1) && NearlyCoalesced(bs1, i)
      requires 0 < i < |bs1| && bs1[i].addr == block && bs1[i].free && head == base
      requires prev == bs1[i - 1].addr && hdr[prev].free
      modifies this`hdr, this`mem, this`blocks
      ensures Valid() && LiveSame(bs1, blocks, old(mem), mem, {block})
      ensures forall b :: b in blocks && b.addr == block ==> b.free
    {
      ghost var hdr0, m0 := hdr, mem;
      var h, p := hdr[block], hdr[prev];
      WriteHeader(prev, Header(p.size + HDR + h.size, h.next, true));
      blocks := MergedLeft(bs1, base, brk, i, hdr0, hdr, m0, mem);
    }

    /** The fixed facts about the arena. */
    ghost predicate Arena()
      reads this
    {
      && base > 0 && base % PAGE_SIZE == 0 && base % 16 == 0
      && brk <= heapEnd <= base + HEAP_SIZE && heapEnd % PAGE_SIZE == 0
    }

    /** Walks the links to the block whose successor is `block`; 0 when it is the first. */
    method FindPrev(block: nat, ghost i: nat, ghost bs1: seq<Blk>) returns (prev: nat)
      requires Linked(hdr, bs1) && Tiled(bs1, base, brk) && base > 0 && head == base
      requires i < |bs1| && bs1[i].addr == block
      ensures prev == if i == 0 then 0 else bs1[i - 1].addr
    {
      prev := head;
      ghost var k := 0;
      assert bs1[0..][0] == bs1[0];
      while prev != 0 && hdr[prev].next != block
        invariant k <= |bs1| && prev == HeadAddr(bs1[k..], 0)
        invariant i > 0 ==> k < i
        decreases |bs1| - k
      {
        NextIs(bs1, base, brk, k, i);
        prev := hdr[prev].next;
        k := k + 1;
      }
      if k < |bs1| { NextIs(bs1, base, brk, k, i); }
    }

    lemma PayloadsDistinct(i: nat)
      requires Valid() && i < |blocks|
      ensures forall b :: b in blocks && Payload(b) == Payload(blocks[i]) ==> b == blocks[i]
    {
      Distinct(blocks, base, brk);
    }

    lemma NotAPayload(ptr: nat)
      requires Valid() && (ptr == 0 || ptr % 16 != 0 || Foreign(ptr))
      ensures forall b :: b in blocks ==> Payload(b) != ptr
    {
      assert base % 16 == 0;
      forall b | b in blocks ensures Payload(b) != ptr {
        LivePayloads(blocks, base, brk, b, b);
        var k :| 0 <= k < |blocks| && blocks[k] == b;
        Within(blocks, base, brk, k);
      }
    }

    // ----- realloc

    /** Resizes an allocated payload: in place when it shrinks or its free right neighbour
        has the room, else by moving it. On failure nothing changed. */
    method Realloc(ptr: nat, size: nat) returns (r: nat)
      requires Valid() && size < WORD && (size <= MAX_REQUEST || !Misread(size))
      requires ptr == 0 || Foreign(ptr) || exists b :: b in blocks && !b.free && Payload(b) == ptr
      modifies this`heapEnd, this`brk, this`head, this`hdr, this`mem, this`blocks
      ensures Valid()
      ensures ptr != 0 && size == 0 ==> r == 0 && LiveSame(old(blocks), blocks, old(mem), mem, {BlockOf(ptr)})
      ensures ptr != 0 && size == 0 ==> forall b :: b in blocks && Payload(b) == ptr ==> b.free
      ensures ptr != 0 && size > 0 && old(Foreign(ptr)) ==> r == 0
      ensures size > MAX_REQUEST ==> r == 0
      ensures size > 0 && r == 0 ==> blocks == old(blocks) && mem == old(mem)
      ensures (ptr == 0 && r != 0 ==>
        Allocated(r, Align16(size), old(blocks)) && LiveKept(old(mem), mem, old(blocks), {}))
      ensures ptr != 0 && size > 0 && r != 0 ==> ReallocDone(old(blocks), blocks, old(mem), mem, ptr, r, size)
      ensures ptr == 0 && r != 0 ==> blocks == GivenOut(old(blocks), Align16(size), old(brk))
      ensures ptr == 0 && 0 < size <= MAX_REQUEST && r == 0 ==> old(Exhausted(Align16(size)))
      ensures (ptr != 0 && 0 < size <= MAX_REQUEST && !old(Foreign(ptr)) ==>
        PayloadResized(old(blocks), blocks, ptr, Align16(size), r, old(brk), old(Exhausted(Align16(size)))))
    {
      if ptr == 0 {
        r := Malloc(size);
        return;
      }
      if size == 0 {
        Free(ptr);
        LiveWeaken(old(blocks), blocks, old(mem), mem, {BlockOf(ptr)}, {BlockOf(ptr)});
        return 0;
      }
      r := ReallocAt(ptr, size);
    }

    method ReallocAt(ptr: nat, size: nat) returns (r: nat)
      requires Valid() && 0 < size < WORD && (size <= MAX_REQUEST || !Misread(size)) && ptr != 0
      requires Foreign(ptr) || exists b :: b in blocks && !b.free && Payload(b) == ptr
      modifies this`heapEnd, this`brk, this`head, this`hdr, this`mem, this`blocks
      ensures Valid()
      ensures old(Foreign(ptr)) || size > MAX_REQUEST ==> r == 0
      ensures r == 0 ==> blocks == old(blocks) && mem == old(mem)
      ensures r != 0 ==> ReallocDone(old(blocks), blocks, old(mem), mem, ptr, r, size)
      ensures (size <= MAX_REQUEST && !old(Foreign(ptr)) ==>
        PayloadResized(old(blocks), blocks, ptr, Align16(size), r, old(brk), old(Exhausted(Align16(size)))))
    {
      RequestExact(size);
      if size > MAX_REQUEST { RequestWrong(size); }
      IncrementExact(Align16(size));
      if Foreign(ptr) {
        NotAPayload(ptr);
        return 0;
      }
      ghost var i: nat :| i < |blocks| && !blocks[i].free && Payload(blocks[i]) == ptr;
      PayloadsDistinct(i);
      ghost var bs, m := blocks, mem;
      r := Resize(ptr, Align16(size), i);
      if r != 0 { SoleOwner(bs, blocks, m, mem, i, r, size); }
      if size <= MAX_REQUEST {
        SoleResized(bs, blocks, base, old(brk), i, Align16(size), r, old(brk), old(Exhausted(Align16(size))));
      }
    }

    /** Realloc of the allocated block `i` to the aligned size `n`. */
    method Resize(ptr: nat, n: nat, ghost i: nat) returns (r: nat)
      requires Valid() && n % 16 == 0 && 16 <= n < WORD && (n <= MAX_REQUEST || !Misread(n))
      requires i < |blocks| && !blocks[i].free && ptr == Payload(blocks[i])
      modifies this`heapEnd, this`brk, this`head, this`hdr, this`mem, this`blocks
      ensures Valid()
      ensures r == 0 ==> blocks == old(blocks) && mem == old(mem)
      ensures r != 0 ==> Resized(old(blocks), blocks, old(mem), mem, ptr, r, n, Least(old(blocks)[i].size, n))
      ensures old(blocks)[i].size >= n ==> r == ptr
      ensures n > MAX_REQUEST ==> r == 0
      ensures n <= MAX_REQUEST ==> ResizedTo(old(blocks), blocks, i, n, r, old(brk), old(Exhausted(n)))
    {
      var block := ptr - HDR;
      var h := hdr[block];
      NextHeader(hdr, blocks, base, brk, i);
      Within(blocks, base, brk, i);
      if i + 1 < |blocks| { Within(blocks, base, brk, i + 1); }
      if h.size >= n {
        if h.size - n > HDR + 16 {
          ShrinkBlock(block, n, i);
        } else {
          ResizedInPlace(blocks, blocks, mem, mem, blocks[i], n, blocks[i], n);
        }
        return ptr;
      }
      if h.next != 0 && hdr[h.next].free {
        if h.size + HDR + hdr[h.next].size >= n {
          AbsorbNext(block, n, i);
          return ptr;
        }
      }
      r := Move(ptr, h.size, n, i);
    }

    method ShrinkBlock(block: nat, n: nat, ghost i: nat)
      requires Valid() && i < |blocks| && !blocks[i].free && block == blocks[i].addr
      requires n % 16 == 0 && n >= 16 && blocks[i].size >= n && blocks[i].size - n > HDR + 16
      modifies this`hdr, this`mem, this`blocks
      ensures Valid()
      ensures Resized(old(blocks), blocks, old(mem), mem, block + HDR, block + HDR, n, n)
      ensures blocks == InPlace(old(blocks), i, n)
    {
      ghost var bs, hdr0, m0 := blocks, hdr, mem;
      var rest := block + HDR + n;
      var tail;
      ghost var cnt;
      tail, cnt := RestHeader(block, n, i);
      WriteHeaders(rest, tail, block, Header(n, rest, false));
      blocks := Shrunk(bs, base, brk, i, n, cnt, hdr0, hdr, m0, mem);
    }

    /** The header of the free block that a shrink leaves, a free right neighbour included. */
    method RestHeader(block: nat, n: nat, ghost i: nat) returns (tail: Header, ghost cnt: nat)
      requires Valid() && i < |blocks| && block == blocks[i].addr && blocks[i].size >= n + HDR
      ensures 1 <= cnt <= 2 && i + cnt <= |blocks|
      ensures cnt == 2 ==> blocks[i + 1].free
      ensures cnt == 1 && i + 1 < |blocks| ==> !blocks[i + 1].free
      ensures End(blocks[i + cnt - 1]) >= Payload(blocks[i]) + n + HDR
      ensures tail ==
              Header(End(blocks[i + cnt - 1]) - Payload(blocks[i]) - n - HDR, HeadAddr(blocks[i + cnt..], 0), true)
    {
      var h := hdr[block];
      NextHeader(hdr, blocks, base, brk, i);
      tail, cnt := Header(h.size - n - HDR, h.next, true), 1;
      if h.next != 0 && hdr[h.next].free {
        var next := hdr[h.next];
        tail, cnt := Header(tail.size + HDR + next.size, next.next, true), 2;
      }
    }

    method AbsorbNext(block: nat, ghost n: nat, ghost i: nat)
      requires Valid() && i + 1 < |blocks| && !blocks[i].free && blocks[i + 1].free && block == blocks[i].addr
      requires blocks[i].size < n <= blocks[i].size + HDR + blocks[i + 1].size
      modifies this`hdr, this`mem, this`blocks
      ensures Valid()
      ensures Resized(old(blocks), blocks, old(mem), mem, block + HDR, block + HDR, n, old(blocks)[i].size)
      ensures blocks == InPlace(old(blocks), i, n)
    {
      ghost var bs, hdr0, m0 := blocks, hdr, mem;
      var h := hdr[block];
      NextHeader(hdr, blocks, base, brk, i);
      var next := hdr[h.next];
      WriteHeader(block, Header(h.size + HDR + next.size, next.next, false));
      blocks := Absorbed(bs, base, brk, i, n, hdr0, hdr, m0, mem);
    }

    /** memcpy between disjoint ranges. */
    method CopyBytes(to: nat, from: nat, n: nat)
      requires to + n <= from || from + n <= to
      modifies this`mem
      ensures Copied(old(mem), from, mem, to, n) && OnlyRange(old(mem), mem, to, n)
    {
      for i := 0 to n
        invariant Copied(old(mem), from, mem, to, i) && OnlyRange(old(mem), mem, to, i)
      {
        assert SameByte(old(mem), mem, from + i);
        ghost var m := mem;
        mem := if from + i in mem then mem[to + i := mem[from + i]] else mem - {to + i};
        forall x: nat | !(to <= x < to + i + 1) ensures SameByte(old(mem), mem, x) {
          assert SameByte(old(mem), m, x);
        }
        forall k: nat | k < i + 1 ensures ByteCopied(old(mem), from, mem, to, k) {
          assert k < i ==> ByteCopied(old(mem), from, m, to, k);
        }
      }
    }

    /** Moves the allocated block `i` into a fresh one of at least `n` bytes. */
    method Move(ptr: nat, oldSize: nat, n: nat, ghost i: nat) returns (r: nat)
      requires Valid() && n % 16 == 0 && 16 <= n < WORD && (n <= MAX_REQUEST || !Misread(n))
      requires i < |blocks| && !blocks[i].free && ptr == Payload(blocks[i]) && oldSize == blocks[i].size < n
      modifies this`heapEnd, this`brk, this`head, this`hdr, this`mem, this`blocks
      ensures Valid()
      ensures r == 0 ==> blocks == old(blocks) && mem == old(mem)
      ensures r != 0 ==> Resized(old(blocks), blocks, old(mem), mem, ptr, r, n, oldSize)
      ensures n > MAX_REQUEST ==> r == 0
      ensures n <= MAX_REQUEST && r == 0 ==> old(Exhausted(n))
      ensures r != 0 ==> r == Payload(Handed(old(blocks), n, old(brk))) && Handed(old(blocks), n, old(brk)) in blocks
    {
      ghost var b0, m0, p := blocks, mem, blocks[i];
      IncrementExact(n);
      r := Malloc(n);
      if r == 0 { return; }
      ghost var b1, m1 := blocks, mem;
      ghost var q := Handed(b0, n, old(brk));
      HandedSize(b0, n, old(brk));
      assert p in b1;
      CopyAndFree(r, ptr, oldSize, p, q);
      MoveDone(b0, b1, blocks, m0, m1, mem, p, q);
    }

    method CopyPayload(r: nat, ptr: nat, oldSize: nat, ghost p: Blk, ghost q: Blk)
      requires ptr == Payload(p) && r == Payload(q) && p.size == oldSize <= q.size
      requires PayloadsApart(p, q) && ApartFromAll(blocks, q)
      modifies this`mem
      ensures LiveSame(blocks, blocks, old(mem), mem, {q.addr}) && Copied(old(mem), ptr, mem, r, oldSize)
    {
      ghost var m1 := mem;
      CopyBytes(r, ptr, oldSize);
      RangeSpares(blocks, q, oldSize, m1, mem);
    }

    lemma MoveApart(p: Blk, q: Blk)
      requires Valid() && p in blocks && q in blocks && p.addr != q.addr
      ensures PayloadsApart(p, q) && ApartFromAll(blocks, q)
    {
      LivePayloads(blocks, base, brk, p, q);
      AllApart(blocks, base, brk, q);
    }

    method CopyAndFree(r: nat, ptr: nat, oldSize: nat, ghost p: Blk, ghost q: Blk)
      requires Valid() && p in blocks && q in blocks && !p.free && !q.free && p.addr != q.addr
      requires ptr == Payload(p) && r == Payload(q) && p.size == oldSize <= q.size
      modifies this`hdr, this`mem, this`blocks
      ensures Valid() && q in blocks
      ensures LiveSame(old(blocks), blocks, old(mem), mem, {p.addr, q.addr})
      ensures Copied(old(mem), ptr, mem, r, oldSize)
      ensures forall b :: b in blocks && Payload(b) == ptr ==> b.free
    {
      ghost var b1, m1 := blocks, mem;
      MoveApart(p, q);
      CopyPayload(r, ptr, oldSize, p, q);
      ghost var m2 := mem;
      Free(ptr);
      CopyDone(b1, blocks, m1, m2, mem, p, q);
    }
  }

  lemma GoneFrom(bs: seq<Blk>, lo: nat, hi: nat, i: nat, block: nat)
    requires Tiled(bs, lo, hi) && i < |bs| && bs[i].free && bs[i].addr < block < End(bs[i])
    ensures forall b :: b in bs ==> b.addr != block
  {
    forall b | b in bs ensures b.addr != block {
      var k :| 0 <= k < |bs| && bs[k] == b;
      if k != i { BlocksDisjoint(bs, lo, hi, i, k); }
    }
  }

  lemma NextPage(page: nat, target: nat)
    requires page % PAGE_SIZE == 0 && target % PAGE_SIZE == 0 && page < target
    ensures page + PAGE_SIZE <= target && (page + PAGE_SIZE) % PAGE_SIZE == 0
  {
  }

  lemma PageRound(x: nat, base: nat)
    requires base % PAGE_SIZE == 0 && x <= base + HEAP_SIZE
    ensures var t := (x + PAGE_SIZE - 1) / PAGE_SIZE * PAGE_SIZE;
      x <= t <= base + HEAP_SIZE && t % PAGE_SIZE == 0
  {
  }
}
