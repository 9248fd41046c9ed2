/** The attribute buffer of a record: attributes packed into a byte array and edited in
    place. */
module Attributes {
  import opened AttrCodec
  import opened AttrLists
  import opened Callbacks

  datatype Status = Ok | Inval | NoSpc | NotFound

  class AttrBuffer {
    const buf: array<Byte>

    /** The bytes decode to a list of attributes and an END header, all inside the buffer. */
    ghost predicate Valid()
      reads this, buf
    {
      Decode(buf[..], 0).Good?
    }

    ghost function Attrs(): (xs: seq<Attr>)
      requires Valid()
      reads this, buf
      ensures Holds(buf[..], 0, xs)
    {
      DecodeIsHolds(buf[..], 0, Decode(buf[..], 0).attrs);
      Decode(buf[..], 0).attrs
    }

    /** What the END header says about its own length. */
    ghost function EndLength(): nat
      requires Valid()
      reads this, buf
    {
      LengthAt(buf[..], |Encode(Attrs())|)
    }

    /** A new record's buffer: the END header alone. */
    constructor (size: nat)
      requires size >= HEADER
      ensures Valid() && Attrs() == [] && EndLength() == 0 && buf.Length == size && fresh(buf)
    {
      var end := Header(END, 0, 0, 0);
      buf := new Byte[size](i requires 0 <= i => if i < HEADER then end[i] else 0);
      new;
      assert buf[..][0..HEADER] == end;
      HeaderReads(buf[..], 0, END, 0, 0, 0);
      assert buf[..][0..0] == Encode([]);
      Gives([]);
    }

    lemma {:induction false} Gives(xs: seq<Attr>)
      requires Holds(buf[..], 0, xs)
      ensures Valid() && Attrs() == xs
    {
      DecodeIsHolds(buf[..], 0, xs);
    }

    // ----- reading

    /** The first attribute of a kind: where its data is and how long. */
    method Find(kind: nat) returns (st: Status, at: nat, len: nat, ghost i: nat)
      requires Valid()
      ensures st == Ok || st == NotFound
      ensures (st == Ok ==>
        FirstIs(Attrs(), kind, i) && at + len <= buf.Length && buf[..][at..at + len] == Attrs()[i].data)
      ensures st == NotFound ==> forall i :: 0 <= i < |Attrs()| ==> Attrs()[i].kind != kind
    {
      ghost var s, xs := buf[..], Attrs();
      var ptr := 0;
      i := 0;
      OffsetEnds(xs);
      EncodeSize(xs);
      while true
        invariant i <= |xs| && ptr == Offset(xs, i)
        invariant forall j :: 0 <= j < i ==> xs[j].kind != kind
        decreases |xs| - i
      {
        StepAt(s, xs, i);
        if KindAt(buf[..], ptr) == END { return NotFound, 0, 0, i; }
        var n := LengthAt(buf[..], ptr);
        if KindAt(buf[..], ptr) == kind {
          At(s, xs, i);
          return Ok, ptr + HEADER, n, i;
        }
        ptr := ptr + HEADER + n;
        i := i + 1;
      }
    }

    /** Visits the attributes of a kind in buffer order until the callback returns non-zero.
        `visited` records the callback's calls. */
    method Iterate(kind: nat, cb: seq<Attr> -> int) returns (r: int, visited: seq<Attr>)
      requires Valid()
      ensures visited <= OfKindIn(Attrs(), kind)
      ensures r == 0 ==> visited == OfKindIn(Attrs(), kind) && AllZero(visited, cb)
      ensures r != 0 ==> StoppedAt(visited, cb, r)
    {
      ghost var s, xs, i := buf[..], Attrs(), 0;
      var ptr := 0;
      r, visited := 0, [];
      OffsetEnds(xs);
      EncodeSize(xs);
      while true
        invariant i <= |xs| && ptr == Offset(xs, i) && visited == OfKindIn(xs[..i], kind)
        invariant r == 0 && AllZero(visited, cb)
        decreases |xs| - i
      {
        StepAt(s, xs, i);
        if KindAt(buf[..], ptr) == END {
          assert xs[..i] == xs;
          return;
        }
        var n := LengthAt(buf[..], ptr);
        OfKindMore(xs, i, kind);
        if KindAt(buf[..], ptr) == kind {
          var a := AttrAt(ptr, xs, i);
          Called(visited, a, cb);
          visited := visited + [a];
          r := cb(visited);
          if r != 0 {
            OfKindPrefix(xs, i + 1, kind);
            return;
          }
        }
        ptr := ptr + HEADER + n;
        i := i + 1;
      }
    }

    /** The attribute at a position, header and data. */
    method AttrAt(ptr: nat, ghost xs: seq<Attr>, ghost i: nat) returns (a: Attr)
      requires Holds(buf[..], 0, xs) && i < |xs| && ptr == Offset(xs, i)
      ensures a == xs[i]
    {
      HoldsFrom(buf[..], xs, i);
      HoldsTail(buf[..], ptr, xs[i..]);
      a := Attr(KindAt(buf[..], ptr), FlagsAt(buf[..], ptr), IdAt(buf[..], ptr),
                buf[..][ptr + HEADER..ptr + HEADER + LengthAt(buf[..], ptr)]);
    }

    /** The bytes in use: the encoding, the END header, and what that header claims. */
    method TotalLength() returns (total: nat)
      requires Valid()
      ensures total == |Encode(Attrs())| + HEADER + EndLength()
    {
      ghost var s, xs, i := buf[..], Attrs(), 0;
      var ptr := 0;
      total := 0;
      OffsetEnds(xs);
      EncodeSize(xs);
      while true
        invariant i <= |xs| && ptr == Offset(xs, i) && total == ptr
        decreases |xs| - i
      {
        StepAt(s, xs, i);
        total := total + HEADER + LengthAt(buf[..], ptr);
        if KindAt(buf[..], ptr) == END { return; }
        ptr := ptr + HEADER + LengthAt(buf[..], ptr);
        i := i + 1;
      }
    }

    /** The position of the END header. */
    method FindEnd() returns (ptr: nat)
      requires Valid()
      ensures ptr == |Encode(Attrs())| == Size(Attrs()) && ptr + HEADER <= buf.Length
    {
      ghost var s, xs, i := buf[..], Attrs(), 0;
      ptr := 0;
      OffsetEnds(xs);
      EncodeSize(xs);
      while true
        invariant i <= |xs| && ptr == Offset(xs, i)
        decreases |xs| - i
      {
        StepAt(s, xs, i);
        if KindAt(buf[..], ptr) == END { return; }
        ptr := ptr + HEADER + LengthAt(buf[..], ptr);
        i := i + 1;
      }
    }

    /** The id for a new attribute of a kind that may repeat. */
    method FreshId(kind: nat) returns (id: nat)
      requires Valid() && !Unique(kind)
      ensures id == NextId(Attrs(), kind)
    {
      ghost var s, xs, i := buf[..], Attrs(), 0;
      var ptr, max, any := 0, 0, false;
      OffsetEnds(xs);
      EncodeSize(xs);
      while true
        invariant i <= |xs| && ptr == Offset(xs, i)
        invariant MaxId(xs[..i], kind) == if any then max else -1
        decreases |xs| - i
      {
        StepAt(s, xs, i);
        if KindAt(buf[..], ptr) == END {
          assert xs[..i] == xs;
          break;
        }
        MaxIdMore(xs, i, kind);
        if KindAt(buf[..], ptr) == kind {
          if !any || IdAt(buf[..], ptr) > max { max := IdAt(buf[..], ptr); }
          any := true;
        }
        ptr := ptr + HEADER + LengthAt(buf[..], ptr);
        i := i + 1;
      }
      id := if any then (max + 1) % U32 else 0;
    }

    // ----- editing

    /** Takes out the last attribute of a kind. */
    method Remove(kind: nat)
      requires Valid()
      modifies buf
      ensures Valid() && Attrs() == Removed(old(Attrs()), OfKind(kind)) && EndLength() == old(EndLength())
      ensures Removed(old(Attrs()), OfKind(kind)) == old(Attrs()) ==> buf[..] == old(buf[..])
    {
      RemoveMatch(OfKind(kind));
    }

    /** Takes out the attribute with a kind and an id. */
    method RemoveId(kind: nat, id: nat)
      requires Valid()
      modifies buf
      ensures Valid() && Attrs() == Removed(old(Attrs()), Instance(kind, id)) && EndLength() == old(EndLength())
      ensures Removed(old(Attrs()), Instance(kind, id)) == old(Attrs()) ==> buf[..] == old(buf[..])
    {
      RemoveMatch(Instance(kind, id));
    }

    method RemoveMatch(m: Match)
      requires Valid()
      modifies buf
      ensures Valid() && Attrs() == Removed(old(Attrs()), m) && EndLength() == old(EndLength())
      ensures Removed(old(Attrs()), m) == old(Attrs()) ==> buf[..] == old(buf[..])
    {
      ghost var s, xs := buf[..], Attrs();
      var has, found, foundLen, ptr;
      ghost var f;
      has, found, foundLen, ptr, f := FindLast(m, xs);
      if !has { return; }
      CloseGap(found, found + foundLen, ptr + HEADER - (found + foundLen), xs, f);
      Gives(Without(xs, f));
    }

    method CloseGap(to: nat, from: nat, n: nat, ghost xs: seq<Attr>, ghost f: nat)
      requires Holds(buf[..], 0, xs) && f < |xs| && to == Offset(xs, f) && from == Offset(xs, f + 1)
      requires n == |Encode(xs[f + 1..])| + HEADER
      modifies buf
      ensures Holds(buf[..], 0, Without(xs, f))
      ensures LengthAt(buf[..], |Encode(Without(xs, f))|) == old(LengthAt(buf[..], |Encode(xs)|))
    {
      ghost var s := buf[..];
      OffsetStep(xs, f);
      HoldsFrom(s, xs, f + 1);
      MoveDown(to, from, n);
      RemovedHolds(s, buf[..], xs, f);
    }

    /** Walks the whole buffer remembering the last match; `ptr` ends at the END header. */
    method FindLast(m: Match, ghost xs: seq<Attr>)
      returns (has: bool, found: nat, foundLen: nat, ptr: nat, ghost f: nat)
      requires Holds(buf[..], 0, xs)
      ensures has <==> f < |xs|
      ensures f == LastOf(xs, m)
      ensures has ==> found == Offset(xs, f) && found + foundLen == Offset(xs, f + 1)
      ensures has ==> ptr == Offset(xs, f + 1) + |Encode(xs[f + 1..])| && ptr + HEADER <= buf.Length
    {
      ghost var s, i := buf[..], 0;
      has, found, foundLen, ptr, f := false, 0, 0, 0, 0;
      OffsetEnds(xs);
      EncodeSize(xs);
      while true
        invariant i <= |xs| && ptr == Offset(xs, i) && f == LastOf(xs[..i], m) && (has <==> f < i)
        invariant has ==> found == Offset(xs, f) && found + foundLen == Offset(xs, f + 1)
        decreases |xs| - i
      {
        StepAt(s, xs, i);
        if KindAt(buf[..], ptr) == END { break; }
        var n := LengthAt(buf[..], ptr);
        LastOfMore(xs, i, m);
        if KindAt(buf[..], ptr) == m.kind && (m.Instance? ==> IdAt(buf[..], ptr) == m.id) {
          has, found, foundLen, f := true, ptr, HEADER + n, i;
        } else if !has {
          f := i + 1;
        }
        ptr := ptr + HEADER + n;
        i := i + 1;
      }
      assert xs[..i] == xs;
      if has { OffsetRest(xs, f + 1); }
    }

    /** memmove towards the front. */
    method MoveDown(to: nat, from: nat, n: nat)
      requires to <= from && from + n <= buf.Length
      modifies buf
      ensures MovedDown(old(buf[..]), buf[..], to, from, n)
    {
      ghost var s := buf[..];
      forall i | to <= i < to + n { buf[i] := buf[i + (from - to)]; }
      ghost var t, u := buf[..][to..to + n], s[from..from + n];
      forall k | 0 <= k < |t| ensures t[k] == u[k] {
        assert buf[to + k] == s[to + k + (from - to)];
      }
    }

    method Write(at: nat, bs: seq<Byte>)
      requires at + |bs| <= buf.Length
      modifies buf
      ensures Wrote(old(buf[..]), buf[..], at, bs)
    {
      forall i | at <= i < at + |bs| { buf[i] := bs[i - at]; }
      assert buf[..][at..at + |bs|] == bs;
    }

    /** Appends an attribute. An instance of a unique kind is taken out first, even if there
        turns out to be no room; the room asked for is one header more than is needed. */
    method Add(kind: nat, data: seq<Byte>) returns (st: Status)
      requires Valid() && |data| < U32
      modifies buf
      ensures Valid()
      ensures st == AddStatus(old(Attrs()), kind, |data|)
      ensures st == Ok && kind != END ==> Attrs() == Added(old(Attrs()), kind, data) && EndLength() == 0
      ensures st == Ok && kind == END ==> Attrs() == old(Attrs()) && EndLength() == |data|
      ensures st == Ok && kind != END && kind != EXTENTS && old(Tidy(Attrs())) ==> Once(Attrs(), kind)
      ensures st != Ok ==> EndLength() == old(EndLength())
      ensures (st != Ok ==>
        Attrs() == if buf.Length < 2 * HEADER + |data| || !Known(kind) then old(Attrs()) else Base(old(Attrs()), kind))
    {
      if buf.Length < 2 * HEADER + |data| { return NoSpc; }
      if kind > LAST_KIND { return Inval; }
      ghost var xs := Attrs();
      var id := 0;
      if kind != EXTENTS {
        Remove(kind);
      } else {
        id := FreshId(kind);
      }
      var ptr := FindEnd();
      if ptr + HEADER + (HEADER + |data| + HEADER) > buf.Length { return NoSpc; }
      if kind == END { NoEnds(xs); } else if Tidy(xs) { AddedOnce(xs, kind, data); }
      Append(kind, id, data, ptr);
      st := Ok;
    }

    /** Writes the attribute and a fresh END header over the old END header. */
    method Append(kind: nat, id: nat, data: seq<Byte>, ptr: nat)
      requires Valid() && Known(kind) && id < U32 && |data| < U32 && (kind == END ==> id == 0)
      requires ptr == |Encode(Attrs())| && ptr + HEADER + |data| + HEADER <= buf.Length
      modifies buf
      ensures Valid()
      ensures Attrs() == if kind == END then old(Attrs()) else old(Attrs()) + [Attr(kind, 0, id, data)]
      ensures EndLength() == if kind == END then |data| else 0
    {
      ghost var s, xs := buf[..], Attrs();
      Write(ptr, Header(kind, 0, id, |data|));
      ghost var t := buf[..];
      Write(ptr + HEADER, data);
      ghost var u := buf[..];
      WroteTwice(s, t, u, ptr, Header(kind, 0, id, |data|), data);
      Write(ptr + HEADER + |data|, Header(END, 0, 0, 0));
      ghost var one := Header(kind, 0, id, |data|) + data;
      WroteTwice(s, u, buf[..], ptr, one, Header(END, 0, 0, 0));
      Appended(s, kind, id, data, xs);
    }

    lemma {:induction false} Appended(s: seq<Byte>, kind: nat, id: nat, data: seq<Byte>, xs: seq<Attr>)
      requires Holds(s, 0, xs) && Known(kind) && id < U32 && |data| < U32 && (kind == END ==> id == 0)
      requires Wrote(s, buf[..], |Encode(xs)|, Header(kind, 0, id, |data|) + data + Header(END, 0, 0, 0))
      ensures Valid() && Attrs() == if kind == END then xs else xs + [Attr(kind, 0, id, data)]
      ensures EndLength() == if kind == END then |data| else 0
    {
      var h, e := Header(kind, 0, id, |data|), Header(END, 0, 0, 0);
      if kind == END {
        assert h == Header(END, 0, 0, |data|);
        assert h + data + e == h + (data + e);
        EndedHolds(s, buf[..], xs, |data|, data + e);
        Gives(xs);
      } else {
        AppendedHolds(s, buf[..], xs, Attr(kind, 0, id, data));
        Gives(xs + [Attr(kind, 0, id, data)]);
      }
    }

    /** No attribute in the list is of kind END, so none is removed for one. */
    lemma {:induction false} NoEnds(xs: seq<Attr>)
      requires AllFit(xs)
      ensures Removed(xs, OfKind(END)) == xs
    {
      LastOfFinds(xs, OfKind(END));
    }

    /** Which status `Add` gives. */
    ghost function AddStatus(xs: seq<Attr>, kind: nat, len: nat): Status {
      if buf.Length < 2 * HEADER + len then NoSpc
      else if !Known(kind) then Inval
      else if !HasRoom(buf.Length, Size(Base(xs, kind)), len) then NoSpc
      else Ok
    }
  }
}
