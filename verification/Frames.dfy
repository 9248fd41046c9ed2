/** The physical frame allocator of mm/pmm.c: a bitmap with one bit per frame, set for used,
    and a count of the used frames. */
module Frames {
  import opened BitRuns
  import opened BitTricks

  const FRAME := 4096

  datatype Found = None | Some(frame: nat)

  /** All bits of a byte array in address order. */
  ghost function FlatBytes(bs: seq<Byte>): (s: seq<bool>)
    ensures |s| == 8 * |bs|
  {
    seq(8 * |bs|, i requires 0 <= i < 8 * |bs| => bs[i / 8][i % 8])
  }

  lemma FlatBytesSet(bs: seq<Byte>, i: nat, v: bool)
    requires i < 8 * |bs|
    ensures FlatBytes(bs[i / 8 := bs[i / 8][i % 8 := v]]) == FlatBytes(bs)[i := v]
  {
    var cs := bs[i / 8 := bs[i / 8][i % 8 := v]];
    forall j | 0 <= j < 8 * |bs| ensures FlatBytes(cs)[j] == FlatBytes(bs)[i := v][j] {
      if j / 8 == i / 8 && j % 8 == i % 8 { assert j == i; }
    }
  }

  /** No aligned run of `n` frees starts below `i`. */
  ghost predicate NoAligned(s: seq<bool>, a: nat, n: nat, i: nat)
    requires a > 0
  {
    forall b: nat :: b < i && Aligned(b, a) ==> !FreeRun(s, b, n)
  }

  /** `b` is the lowest multiple of `a` at which `n` frames in a row below `end` are free. */
  ghost predicate LowestAligned(s: seq<bool>, a: nat, n: nat, end: nat, b: nat)
    requires a > 0
  {
    Aligned(b, a) && b + n <= end && FreeRun(s, b, n) && NoAligned(s, a, n, b)
  }

  ghost predicate HasAligned(s: seq<bool>, a: nat, n: nat, end: nat)
    requires a > 0
  {
    exists b: nat :: Aligned(b, a) && b + n <= end && FreeRun(s, b, n)
  }

  /** A used frame is no start. */
  lemma SkipUsed(s: seq<bool>, a: nat, n: nat, i: nat)
    requires a > 0 && n > 0 && i < |s| && s[i] && NoAligned(s, a, n, i)
    ensures NoAligned(s, a, n, i + 1)
  {
  }

  /** `b` is the lowest aligned frame that is not below `i`. */
  ghost predicate NextAligned(a: nat, i: nat, b: nat)
    requires a > 0
  {
    i <= b && Aligned(b, a) && forall c: nat :: i <= c < b ==> !Aligned(c, a)
  }

  /** Skipping past a used frame inside the run at the next aligned frame misses no run. */
  lemma SkipBlocked(s: seq<bool>, a: nat, n: nat, i: nat, b: nat, j: nat)
    requires a > 0 && j < n && b + j < |s| && s[b + j] && NoAligned(s, a, n, i) && NextAligned(a, i, b)
    ensures NoAligned(s, a, n, b + j + 1)
  {
    forall c: nat | c < b + j + 1 && Aligned(c, a) ensures !FreeRun(s, c, n) {
      if c >= b { assert c <= b + j < c + n; }
    }
  }

  /** When the next aligned frame leaves no room, no later one has any. */
  lemma NoRoom(s: seq<bool>, a: nat, n: nat, i: nat, b: nat, end: nat)
    requires a > 0 && NoAligned(s, a, n, i) && NextAligned(a, i, b) && b + n > end
    ensures !HasAligned(s, a, n, end)
  {
  }

  lemma NoneBelow(s: seq<bool>, n: nat)
    requires n <= |s| && forall b :: 0 <= b < n ==> s[b]
    ensures NoRun(s, 0, n, 1) && forall b: nat :: b < n ==> !FreeRun(s, b, 1)
  {
    forall b: nat | b < n ensures !FreeRun(s, b, 1) { assert s[b]; }
  }

  /** With alignment 1 an aligned run is any run. */
  lemma AnyRunAligned(s: seq<bool>, n: nat, end: nat)
    ensures HasAligned(s, 1, n, end) <==> !NoRun(s, 0, end, n)
    ensures forall b: nat :: FirstRun(s, 0, end, n, b) ==> LowestAligned(s, 1, n, end, b)
  {
    if !NoRun(s, 0, end, n) {
      var b: nat :| b + n <= end && FreeRun(s, b, n);
      assert Aligned(b, 1);
    }
  }

  predicate InFrame(x: nat, k: nat) {
    k * FRAME <= x < (k + 1) * FRAME
  }

  /** Some byte of the range lies in frame `k`. */
  ghost predicate Touches(start: nat, length: nat, k: nat) {
    exists x: nat :: start <= x < start + length && InFrame(x, k)
  }

  lemma TouchedFrames(start: nat, length: nat, k: nat)
    requires length > 0
    ensures Touches(start, length, k) <==> start / FRAME <= k < (start + length + FRAME - 1) / FRAME
  {
    if start / FRAME <= k < (start + length + FRAME - 1) / FRAME {
      assert InFrame(if start < k * FRAME then k * FRAME else start, k);
    }
  }

  class PhysMem {
    const total: nat
    const bitmap: array<Byte>
    var used: int

    ghost predicate Valid()
      reads this, bitmap
    {
      total <= 8 * bitmap.Length && used == Ones(Bits(), 0, total)
    }

    ghost function Bits(): (s: seq<bool>)
      reads this, bitmap
      ensures |s| == 8 * bitmap.Length
    {
      FlatBytes(bitmap[..])
    }

    /** Everything starts out used. */
    constructor (frames: nat)
      ensures Valid() && total == frames && fresh(bitmap) && used == frames
      ensures forall i :: 0 <= i < |Bits()| ==> Bits()[i]
    {
      total, used := frames, frames;
      bitmap := new Byte[(frames + 7) / 8](_ => [true, true, true, true, true, true, true, true]);
      new;
      OnesConstant(Bits(), 0, total, true);
    }

    method Test(i: nat) returns (on: bool)
      requires i < 8 * bitmap.Length
      ensures on == Bits()[i]
    {
      on := bitmap[i / 8][i % 8];
    }

    /** Sets or clears a bit that had the other value, and moves the count along. */
    method Flip(i: nat, v: bool)
      requires Valid() && i < total && Bits()[i] != v
      modifies this`used, bitmap
      ensures Valid() && Bits() == old(Bits())[i := v]
      ensures used == if v then old(used) + 1 else old(used) - 1
    {
      FlatBytesSet(bitmap[..], i, v);
      OnesFlip(Bits(), 0, total, i, v);
      ghost var bs := bitmap[..];
      bitmap[i / 8] := bitmap[i / 8][i % 8 := v];
      assert bitmap[..] == bs[i / 8 := bs[i / 8][i % 8 := v]];
      used := if v then used + 1 else used - 1;
    }

    // ----- searching

    /** The lowest free frame, skipping full bytes. */
    method FindFirstFree() returns (r: Found)
      requires Valid()
      ensures r.Some? ==> FirstRun(Bits(), 0, total, 1, r.frame)
      ensures r.None? ==> NoRun(Bits(), 0, total, 1)
    {
      var i := 0;
      while i < bitmap.Length
        invariant i <= bitmap.Length && AllUsed(Min(8 * i, total))
      {
        if forall k :: 0 <= k < 8 ==> bitmap[i][k] {
          forall b | 8 * i <= b < 8 * i + 8 ensures Bits()[b] { assert bitmap[i][b - 8 * i]; }
        } else {
          var j := 0;
          while j < 8
            invariant j <= 8 && AllUsed(Min(8 * i + j, total))
          {
            var frame := 8 * i + j;
            if frame >= total {
              NoneBelow(Bits(), total);
              return None;
            }
            assert Bits()[frame] == bitmap[i][j];
            if !bitmap[i][j] {
              NoneBelow(Bits(), frame);
              return Some(frame);
            }
            j := j + 1;
          }
        }
        i := i + 1;
      }
      NoneBelow(Bits(), total);
      return None;
    }

    ghost predicate AllUsed(n: nat)
      reads this, bitmap
    {
      n <= |Bits()| && forall b :: 0 <= b < n ==> Bits()[b]
    }

    /** The lowest run of `count` free frames. */
    method FindFirstFreeN(count: nat) returns (r: Found)
      requires Valid()
      ensures count == 0 ==> r.None?
      ensures r.Some? ==> FirstRun(Bits(), 0, total, count, r.frame)
      ensures r.None? && count > 0 ==> NoRun(Bits(), 0, total, count)
    {
      if count == 0 { return None; }
      if count == 1 {
        r := FindFirstFree();
        return;
      }
      var start, len, i := 0, 0, 0;
      while i < total
        invariant i <= total && Scanned(Bits(), 0, i, count, start, len)
      {
        var on := Test(i);
        if !on {
          ScannedFree(Bits(), 0, i, count, start, len);
          if len == 0 { start := i; }
          len := len + 1;
          if len >= count {
            FirstRunWider(Bits(), 0, i + 1, total, count, start);
            return Some(start);
          }
        } else {
          ScannedSet(Bits(), 0, i, count, start, len);
          len := 0;
        }
        i := i + 1;
      }
      return None;
    }

    // ----- marking ranges

    /** Marks the frames of a free run used, one by one. */
    method Take(start: nat, count: nat)
      requires Valid() && start + count <= total && FreeRun(Bits(), start, count)
      modifies this`used, bitmap
      ensures Valid() && Bits() == Marked(old(Bits()), start, count, true) && used == old(used) + count
    {
      var i := 0;
      ghost var s := Bits();
      MarkedNone(s, start, true);
      while i < count
        invariant i <= count && Valid() && Bits() == Marked(s, start, i, true) && used == old(used) + i
      {
        MarkedMore(s, start, i, true);
        Flip(start + i, true);
        i := i + 1;
      }
    }

    /** Gives every frame of `a .. b` the value `v`; only real changes are counted. */
    method SetRange(a: nat, b: nat, v: bool)
      requires Valid() && b <= total
      modifies this`used, bitmap
      ensures Valid() && Bits() == Marked(old(Bits()), a, if a <= b then b - a else 0, v)
    {
      var i := a;
      ghost var s := Bits();
      MarkedNone(s, a, v);
      while i < b
        invariant a <= i <= b || i == a >= b
        invariant Valid() && Bits() == Marked(s, a, i - a, v)
      {
        MarkedMore(s, a, i - a, v);
        var on := Test(i);
        if on != v {
          Flip(i, v);
        } else {
          assert Bits()[i := v] == Bits();
        }
        i := i + 1;
      }
    }

    /** The frames of memory that a byte range touches get the value `v`. */
    ghost predicate Changed(s: seq<bool>, t: seq<bool>, start: nat, length: nat, v: bool) {
      && |t| == |s|
      && forall k :: 0 <= k < |s| ==> t[k] == if k < total && Touches(start, length, k) then v else s[k]
    }

    lemma MarkedTouched(s: seq<bool>, start: nat, length: nat, v: bool)
      requires total <= |s|
      ensures (length != 0 ==>
        Changed(s, Marked(s, FirstFrame(start), Width(start, length), v), start, length, v))
      ensures Changed(s, s, start, 0, v)
    {
      if length != 0 {
        forall k: nat | k < |s|
          ensures Touches(start, length, k) <==> start / FRAME <= k < (start + length + FRAME - 1) / FRAME
        {
          TouchedFrames(start, length, k);
        }
      }
    }

    /** The frames a byte range touches, cut off at the end of memory. */
    function FirstFrame(start: nat): nat {
      start / FRAME
    }

    function EndFrame(start: nat, length: nat): nat {
      Min((start + length + FRAME - 1) / FRAME, total)
    }

    function Width(start: nat, length: nat): nat {
      if FirstFrame(start) <= EndFrame(start, length) then EndFrame(start, length) - FirstFrame(start) else 0
    }

    method Reserve(start: nat, length: nat)
      requires Valid()
      modifies this`used, bitmap
      ensures Valid()
      ensures Changed(old(Bits()), Bits(), start, length, true)
    {
      MarkedTouched(Bits(), start, length, true);
      if length == 0 { return; }
      SetRange(FirstFrame(start), EndFrame(start, length), true);
    }

    method Unreserve(start: nat, length: nat)
      requires Valid()
      modifies this`used, bitmap
      ensures Valid()
      ensures Changed(old(Bits()), Bits(), start, length, false)
    {
      MarkedTouched(Bits(), start, length, false);
      if length == 0 { return; }
      SetRange(FirstFrame(start), EndFrame(start, length), false);
    }

    /** The byte range touches existing, free frames only. */
    method IsRegionFree(start: nat, length: nat) returns (free: bool)
      requires Valid()
      ensures free <==> length > 0 && forall k: nat :: Touches(start, length, k) ==> k < total && !Bits()[k]
    {
      forall k: nat
        ensures length > 0 ==>
                (Touches(start, length, k) <==> start / FRAME <= k < (start + length + FRAME - 1) / FRAME)
      {
        if length > 0 { TouchedFrames(start, length, k); }
      }
      if length == 0 { return false; }
      var end := (start + length + FRAME - 1) / FRAME;
      if end > total {
        assert Touches(start, length, end - 1);
        return false;
      }
      var i := start / FRAME;
      while i < end
        invariant start / FRAME <= i <= end && forall k :: start / FRAME <= k < i ==> !Bits()[k]
      {
        var on := Test(i);
        if on { return false; }
        i := i + 1;
      }
      free := true;
    }

    // ----- allocating

    /** What an allocation does: either no frame fits and nothing changes, or the run found
        becomes used. The address of frame 0 is the failure value, so a run found there is
        taken and lost to the caller. */
    twostate predicate Allocates(addr: nat, r: Found, count: nat)
      reads this, bitmap
    {
      match r
      case None => addr == 0 && Bits() == old(Bits()) && used == old(used)
      case Some(frame) =>
        && addr == frame * FRAME
        && Bits() == Marked(old(Bits()), frame, count, true) && used == old(used) + count
    }

    ghost predicate ZeroUsed()
      reads this, bitmap
    {
      bitmap.Length > 0 ==> Bits()[0]
    }

    /** The lowest free frame becomes used. With frame 0 in use the result is 0 exactly when
        no frame is free. */
    method AllocFrame() returns (addr: nat, ghost r: Found)
      requires Valid()
      modifies this`used, bitmap
      ensures Valid() && Allocates(addr, r, 1)
      ensures r.None? ==> NoRun(old(Bits()), 0, total, 1)
      ensures r.Some? ==> FirstRun(old(Bits()), 0, total, 1, r.frame)
      ensures old(ZeroUsed()) ==> (addr == 0 <==> NoRun(old(Bits()), 0, total, 1)) && ZeroUsed()
    {
      var f := FindFirstFree();
      r := f;
      if f.None? { return 0, r; }
      Take(f.frame, 1);
      addr := f.frame * FRAME;
    }

    /** The lowest run of `count` free frames becomes used. */
    method AllocFrames(count: nat) returns (addr: nat, ghost r: Found)
      requires Valid()
      modifies this`used, bitmap
      ensures Valid() && Allocates(addr, r, count)
      ensures r.None? ==> count == 0 || NoRun(old(Bits()), 0, total, count)
      ensures r.Some? ==> count > 0 && FirstRun(old(Bits()), 0, total, count, r.frame)
      ensures old(ZeroUsed()) && count > 0 ==> (addr == 0 <==> NoRun(old(Bits()), 0, total, count)) && ZeroUsed()
    {
      var f := FindFirstFreeN(count);
      r := f;
      if f.None? { return 0, r; }
      Take(f.frame, count);
      addr := f.frame * FRAME;
    }

    /** Frees a used frame; address zero, frames beyond memory and free frames are ignored. */
    method FreeFrame(addr: nat)
      requires Valid()
      modifies this`used, bitmap
      ensures Valid()
      ensures Bits() == if addr == 0 || addr / FRAME >= total then old(Bits()) else old(Bits())[addr / FRAME := false]
    {
      if addr == 0 { return; }
      var f := addr / FRAME;
      if f >= total { return; }
      var on := Test(f);
      if on {
        Flip(f, false);
      } else {
        assert Bits()[f := false] == Bits();
      }
    }

    method FreeFrames(addr: nat, count: nat)
      requires Valid()
      modifies this`used, bitmap
      ensures Valid()
      ensures Bits() == if addr == 0 || count == 0 || addr / FRAME + count > total then old(Bits())
                        else Marked(old(Bits()), addr / FRAME, count, false)
    {
      if addr == 0 || count == 0 { return; }
      var f := addr / FRAME;
      if f + count > total { return; }
      SetRange(f, f + count, false);
    }

    /** For a power-of-two alignment: takes the lowest aligned run, and fails only when no
        aligned run of `count` free frames exists. */
    method AllocAligned(count: nat, align: nat) returns (addr: nat, ghost r: Found)
      requires Valid()
      modifies this`used, bitmap
      ensures Valid() && Allocates(addr, r, count)
      ensures count == 0 || !IsPow2(align) ==> r.None?
      ensures r.None? && count > 0 && IsPow2(align) ==> !HasAligned(old(Bits()), align, count, total)
      ensures r.Some? ==> align > 0 && LowestAligned(old(Bits()), align, count, total, r.frame)
      ensures (old(ZeroUsed()) && count > 0 && IsPow2(align) ==>
        (addr != 0 <==> HasAligned(old(Bits()), align, count, total)) && ZeroUsed())
    {
      if count == 0 || align == 0 { return 0, None; }
      Pow2Test(align);
      if And(align, align - 1) != 0 { return 0, None; }
      if align == 1 {
        addr, r := AllocFrames(count);
        AnyRunAligned(old(Bits()), count, total);
        return;
      }
      var f := FindAligned(count, align);
      r := f;
      if f.None? { return 0, r; }
      Take(f.frame, count);
      addr := f.frame * FRAME;
    }

    method FindAligned(count: nat, align: nat) returns (r: Found)
      requires Valid() && count > 0 && IsPow2(align)
      ensures r.Some? ==> LowestAligned(Bits(), align, count, total, r.frame)
      ensures r.None? ==> !HasAligned(Bits(), align, count, total)
    {
      var i := 0;
      while i < total
        invariant NoAligned(Bits(), align, count, i)
      {
        i := SkipUsedFrames(i, count, align);
        if i >= total { break; }
        var aligned := i + align - 1 - And(i + align - 1, align - 1);
        RoundUp(i, align);
        if aligned + count > total {
          NoRoom(Bits(), align, count, i, aligned, total);
          return None;
        }
        var ok, j := RunIsFree(aligned, count);
        if ok { return Some(aligned); }
        SkipBlocked(Bits(), align, count, i, aligned, j);
        i := aligned + j + 1;
      }
      return None;
    }

    method SkipUsedFrames(from: nat, count: nat, align: nat) returns (i: nat)
      requires Valid() && align > 0 && count > 0 && from < total && NoAligned(Bits(), align, count, from)
      ensures from <= i <= total && NoAligned(Bits(), align, count, i)
    {
      i := from;
      while i < total
        invariant from <= i <= total && NoAligned(Bits(), align, count, i)
      {
        var on := Test(i);
        if !on { break; }
        SkipUsed(Bits(), align, count, i);
        i := i + 1;
      }
    }

    /** The inner scan: stops at the first used frame of the run. */
    method RunIsFree(start: nat, count: nat) returns (ok: bool, j: nat)
      requires Valid() && start + count <= total
      ensures ok ==> FreeRun(Bits(), start, count)
      ensures !ok ==> j < count && Bits()[start + j]
    {
      j := 0;
      while j < count
        invariant j <= count && FreeRun(Bits(), start, j)
      {
        var on := Test(start + j);
        if on { return false, j; }
        j := j + 1;
      }
      ok := true;
    }

    /** Takes exactly the frames asked for, when they exist and are all free. */
    method AllocAt(addr: nat, count: nat) returns (ok: bool)
      requires Valid()
      modifies this`used, bitmap
      ensures Valid()
      ensures ok <==> addr / FRAME + count <= total && FreeRun(old(Bits()), addr / FRAME, count)
      ensures Bits() == if ok then Marked(old(Bits()), addr / FRAME, count, true) else old(Bits())
    {
      var start := addr / FRAME;
      if start + count > total { return false; }
      var j;
      ok, j := RunIsFree(start, count);
      if !ok { return; }
      Take(start, count);
    }
  }
}
