/** The attribute encoding: twelve-byte little-endian headers, each followed by its data,
    up to a header of type END. */
module AttrCodec {

  type Byte = x: int | 0 <= x < 256

  const HEADER := 12
  const END: nat := 0
  const U16 := 0x1_0000
  const U32 := 0x1_0000_0000

  datatype Attr = Attr(kind: nat, flags: nat, id: nat, data: seq<Byte>)

  predicate Fits(a: Attr) {
    END < a.kind < U16 && a.flags < U16 && a.id < U32 && |a.data| < U32
  }

  function Put16(n: nat): (s: seq<Byte>)
    requires n < U16
    ensures |s| == 2
  {
    [n % 256, n / 256]
  }

  function Put32(n: nat): (s: seq<Byte>)
    requires n < U32
    ensures |s| == 4
  {
    Put16(n % U16) + Put16(n / U16)
  }

  function Get16(s: seq<Byte>, at: nat): (n: nat)
    requires at + 2 <= |s|
    ensures n < U16
  {
    var lo: nat, hi: nat := s[at], s[at + 1];
    lo + 256 * hi
  }

  function Get32(s: seq<Byte>, at: nat): (n: nat)
    requires at + 4 <= |s|
    ensures n < U32
  {
    Get16(s, at) + U16 * Get16(s, at + 2)
  }

  function Header(kind: nat, flags: nat, id: nat, len: nat): (s: seq<Byte>)
    requires kind < U16 && flags < U16 && id < U32 && len < U32
    ensures |s| == HEADER
  {
    Put16(kind) + Put16(flags) + Put32(id) + Put32(len)
  }

  function KindAt(s: seq<Byte>, at: nat): nat
    requires at + HEADER <= |s|
  {
    Get16(s, at)
  }

  function FlagsAt(s: seq<Byte>, at: nat): nat
    requires at + HEADER <= |s|
  {
    Get16(s, at + 2)
  }

  function IdAt(s: seq<Byte>, at: nat): nat
    requires at + HEADER <= |s|
  {
    Get32(s, at + 4)
  }

  /** Adding `len` bytes behind `base` bytes of attributes: the source asks for one header
      more than the new attribute and the END header take. */
  predicate HasRoom(space: nat, base: nat, len: nat) {
    base + HEADER + (HEADER + len + HEADER) <= space
  }

  function LengthAt(s: seq<Byte>, at: nat): nat
    requires at + HEADER <= |s|
  {
    Get32(s, at + 8)
  }

  lemma {:induction false} Get16Put16(s: seq<Byte>, at: nat, n: nat)
    requires at + 2 <= |s| && n < U16
    ensures s[at..at + 2] == Put16(n) <==> Get16(s, at) == n
  {
    var t := s[at..at + 2];
    assert t[0] == s[at] && t[1] == s[at + 1];
    assert n == n % 256 + 256 * (n / 256);
  }

  lemma {:induction false} Get32Put32(s: seq<Byte>, at: nat, n: nat)
    requires at + 4 <= |s| && n < U32
    ensures s[at..at + 4] == Put32(n) <==> Get32(s, at) == n
  {
    Get16Put16(s, at, n % U16);
    Get16Put16(s, at + 2, n / U16);
    assert s[at..at + 4] == s[at..at + 2] + s[at + 2..at + 4];
    Split16(n);
    var lo, hi := Get16(s, at), Get16(s, at + 2);
    if lo + U16 * hi == n { assert n % U16 == lo && n / U16 == hi; }
    if s[at..at + 4] == Put32(n) {
      assert s[at..at + 2] == s[at..at + 4][..2] == Put16(n % U16);
      assert s[at + 2..at + 4] == s[at..at + 4][2..] == Put16(n / U16);
    }
  }

  lemma {:induction false} Split16(n: nat)
    ensures n == n % U16 + U16 * (n / U16)
  {
  }

  /** The bytes at `at` are a header exactly when its four fields read back. */
  lemma {:induction false} HeaderReads(s: seq<Byte>, at: nat, kind: nat, flags: nat, id: nat, len: nat)
    requires at + HEADER <= |s| && kind < U16 && flags < U16 && id < U32 && len < U32
    ensures s[at..at + HEADER] == Header(kind, flags, id, len)
       <==> KindAt(s, at) == kind && FlagsAt(s, at) == flags && IdAt(s, at) == id && LengthAt(s, at) == len
  {
    Get16Put16(s, at, kind);
    Get16Put16(s, at + 2, flags);
    Get32Put32(s, at + 4, id);
    Get32Put32(s, at + 8, len);
    var h, t := Header(kind, flags, id, len), s[at..at + HEADER];
    assert t == s[at..at + 2] + s[at + 2..at + 4] + s[at + 4..at + 8] + s[at + 8..at + 12];
    if t == h {
      assert s[at..at + 2] == t[..2] == h[..2] == Put16(kind);
      assert s[at + 2..at + 4] == t[2..4] == h[2..4] == Put16(flags);
      assert s[at + 4..at + 8] == t[4..8] == h[4..8] == Put32(id);
      assert s[at + 8..at + 12] == t[8..12] == h[8..12] == Put32(len);
    }
  }

  // ----- lists of attributes

  function EncodeOne(a: Attr): (s: seq<Byte>)
    requires Fits(a)
    ensures |s| == HEADER + |a.data|
  {
    Header(a.kind, a.flags, a.id, |a.data|) + a.data
  }

  ghost predicate AllFit(xs: seq<Attr>) {
    forall i :: 0 <= i < |xs| ==> Fits(xs[i])
  }

  /** The encoded length of a list. */
  function Size(xs: seq<Attr>): nat {
    if xs == [] then 0 else Size(xs[..|xs| - 1]) + HEADER + |xs[|xs| - 1].data|
  }

  function Encode(xs: seq<Attr>): seq<Byte>
    requires AllFit(xs)
  {
    if xs == [] then [] else EncodeOne(xs[0]) + Encode(xs[1..])
  }

  lemma {:induction false} FitAppend(a: seq<Attr>, b: seq<Attr>)
    requires AllFit(a) && AllFit(b)
    ensures AllFit(a + b)
  {
  }

  lemma {:induction false} EncodeAppend(a: seq<Attr>, b: seq<Attr>)
    requires AllFit(a) && AllFit(b)
    ensures AllFit(a + b) && Encode(a + b) == Encode(a) + Encode(b)
  {
    FitAppend(a, b);
    EncodeConcat(a, b);
  }

  lemma {:induction false} EncodeConcat(a: seq<Attr>, b: seq<Attr>)
    requires AllFit(a) && AllFit(b) && AllFit(a + b)
    ensures Encode(a + b) == Encode(a) + Encode(b)
  {
    if a == [] {
      assert a + b == b;
    } else {
      FitAppend(a[1..], b);
      EncodeConcat(a[1..], b);
      assert (a + b)[1..] == a[1..] + b && (a + b)[0] == a[0];
      var e, x, y := EncodeOne(a[0]), Encode(a[1..]), Encode(b);
      assert e + (x + y) == (e + x) + y;
    }
  }

  lemma {:induction false} EncodeMore(a: seq<Attr>, x: Attr)
    requires AllFit(a) && Fits(x)
    ensures AllFit(a + [x]) && Encode(a + [x]) == Encode(a) + EncodeOne(x)
  {
    EncodeAppend(a, [x]);
    assert [x][1..] == [];
  }

  // ----- decoding

  datatype Decoded = Bad | Good(attrs: seq<Attr>)

  /** Reads headers from `at` on up to the first of type END. */
  function Decode(s: seq<Byte>, at: nat): Decoded
    decreases |s| - at
  {
    if at + HEADER > |s| then Bad
    else if KindAt(s, at) == END then Good([])
    else
      var next := at + HEADER + LengthAt(s, at);
      if next > |s| then Bad
      else
        match Decode(s, next)
        case Bad => Bad
        case Good(rest) => Good([Attr(KindAt(s, at), FlagsAt(s, at), IdAt(s, at), s[at + HEADER..next])] + rest)
  }

  /** `s` holds the encoding of `xs` at `at`, followed by an END header. */
  ghost predicate Holds(s: seq<Byte>, at: nat, xs: seq<Attr>) {
    && AllFit(xs) && at + |Encode(xs)| + HEADER <= |s|
    && s[at..at + |Encode(xs)|] == Encode(xs)
    && KindAt(s, at + |Encode(xs)|) == END
  }

  /** Decoding inverts encoding, and gives a list only if its encoding is there. */
  lemma {:induction false} DecodeIsHolds(s: seq<Byte>, at: nat, xs: seq<Attr>)
    requires at <= |s|
    ensures Decode(s, at) == Good(xs) <==> Holds(s, at, xs)
  {
    if Holds(s, at, xs) { HoldsDecodes(s, at, xs); }
    if Decode(s, at) == Good(xs) { DecodesHolds(s, at, xs); }
  }

  lemma {:induction false} DecodeStep(s: seq<Byte>, at: nat, x: Attr, rest: seq<Attr>)
    requires at + HEADER <= |s| && KindAt(s, at) != END && LengthAt(s, at) == |x.data| && at + HEADER + |x.data| <= |s|
    requires KindAt(s, at) == x.kind && FlagsAt(s, at) == x.flags && IdAt(s, at) == x.id
    requires s[at + HEADER..at + HEADER + |x.data|] == x.data
    requires Decode(s, at + HEADER + |x.data|) == Good(rest)
    ensures Decode(s, at) == Good([x] + rest)
  {
  }

  lemma {:induction false} HoldsDecodes(s: seq<Byte>, at: nat, xs: seq<Attr>)
    requires Holds(s, at, xs)
    ensures Decode(s, at) == Good(xs)
    decreases |xs|
  {
    if xs != [] {
      HoldsTail(s, at, xs);
      HoldsDecodes(s, at + HEADER + |xs[0].data|, xs[1..]);
      DecodeStep(s, at, xs[0], xs[1..]);
      assert xs == [xs[0]] + xs[1..];
    }
  }

  lemma {:induction false} DecodesHolds(s: seq<Byte>, at: nat, xs: seq<Attr>)
    requires at <= |s| && Decode(s, at) == Good(xs)
    ensures Holds(s, at, xs)
    decreases |xs|
  {
    if xs != [] {
      var next := at + HEADER + LengthAt(s, at);
      DecodesHolds(s, next, xs[1..]);
      HoldsMore(s, at, next, xs);
    }
  }

  lemma {:induction false} SubSlice(s: seq<Byte>, at: nat, end: nat, a: nat, b: nat)
    requires at <= end <= |s| && a <= b <= end - at
    ensures s[at..end][a..b] == s[at + a..at + b]
  {
    forall i | 0 <= i < b - a ensures s[at..end][a..b][i] == s[at + a..at + b][i] {
    }
  }

  /** The first attribute's fields read back and the rest follows it. */
  lemma {:induction false} HoldsTail(s: seq<Byte>, at: nat, xs: seq<Attr>)
    requires xs != [] && Holds(s, at, xs)
    ensures var next := at + HEADER + |xs[0].data|;
      && next + HEADER <= |s| && Holds(s, next, xs[1..])
      && KindAt(s, at) == xs[0].kind && FlagsAt(s, at) == xs[0].flags && IdAt(s, at) == xs[0].id
      && LengthAt(s, at) == |xs[0].data| && s[at + HEADER..next] == xs[0].data
  {
    var x, rest := xs[0], Encode(xs[1..]);
    var next := at + HEADER + |x.data|;
    var body := s[at..at + |Encode(xs)|];
    assert body == Header(x.kind, x.flags, x.id, |x.data|) + x.data + rest;
    SubSlice(s, at, at + |body|, 0, HEADER);
    SubSlice(s, at, at + |body|, HEADER, HEADER + |x.data|);
    SubSlice(s, at, at + |body|, HEADER + |x.data|, |body|);
    assert body[..HEADER] == Header(x.kind, x.flags, x.id, |x.data|);
    assert body[HEADER..HEADER + |x.data|] == x.data;
    assert body[HEADER + |x.data|..] == rest;
    HeaderReads(s, at, x.kind, x.flags, x.id, |x.data|);
  }

  lemma {:induction false} HoldsMore(s: seq<Byte>, at: nat, next: nat, xs: seq<Attr>)
    requires xs != [] && at + HEADER <= next <= |s| && next == at + HEADER + LengthAt(s, at) && Holds(s, next, xs[1..])
    requires KindAt(s, at) != END && xs[0] == Attr(KindAt(s, at), FlagsAt(s, at), IdAt(s, at), s[at + HEADER..next])
    ensures Holds(s, at, xs)
  {
    var x, rest := xs[0], xs[1..];
    HeaderReads(s, at, x.kind, x.flags, x.id, |x.data|);
    forall i | 0 <= i < |xs| ensures Fits(xs[i]) {
      if i > 0 { assert xs[i] == rest[i - 1]; }
    }
    assert Encode(xs) == Header(x.kind, x.flags, x.id, |x.data|) + x.data + Encode(rest);
    var end := next + |Encode(rest)|;
    assert s[at..end] == s[at..at + HEADER] + s[at + HEADER..next] + s[next..end];
  }

  // ----- positions

  lemma {:induction false} SizeFront(xs: seq<Attr>)
    requires xs != []
    ensures Size(xs) == HEADER + |xs[0].data| + Size(xs[1..])
  {
    var n := |xs| - 1;
    if n > 0 {
      SizeFront(xs[..n]);
      assert xs[..n][1..] == xs[1..][..n - 1];
    }
  }

  lemma {:induction false} EncodeSize(xs: seq<Attr>)
    requires AllFit(xs)
    ensures |Encode(xs)| == Size(xs)
  {
    if xs != [] {
      SizeFront(xs);
      EncodeSize(xs[1..]);
    }
  }

  /** Where attribute `i`, or the END header for i == |xs|, starts. */
  function Offset(xs: seq<Attr>, i: nat): nat
    requires i <= |xs|
  {
    Size(xs[..i])
  }

  lemma {:induction false} OffsetStep(xs: seq<Attr>, i: nat)
    requires i < |xs|
    ensures Offset(xs, i + 1) == Offset(xs, i) + HEADER + |xs[i].data|
  {
    assert xs[..i + 1][..i] == xs[..i];
  }

  lemma {:induction false} OffsetEnds(xs: seq<Attr>)
    ensures Offset(xs, 0) == 0 && Offset(xs, |xs|) == Size(xs)
  {
    assert xs[..|xs|] == xs;
  }

  lemma {:induction false} OffsetRest(xs: seq<Attr>, i: nat)
    requires AllFit(xs) && i <= |xs|
    ensures |Encode(xs)| == Offset(xs, i) + |Encode(xs[i..])|
  {
    EncodeAppend(xs[..i], xs[i..]);
    EncodeSize(xs[..i]);
    assert xs == xs[..i] + xs[i..];
  }

  lemma {:induction false} HoldsFrom(s: seq<Byte>, xs: seq<Attr>, i: nat)
    requires Holds(s, 0, xs) && i <= |xs|
    ensures Holds(s, Offset(xs, i), xs[i..]) && s[..Offset(xs, i)] == Encode(xs[..i])
  {
    var pre, post := xs[..i], xs[i..];
    assert xs == pre + post;
    EncodeAppend(pre, post);
    EncodeSize(pre);
    var whole := s[0..|Encode(xs)|];
    assert whole == Encode(pre) + Encode(post);
    assert s[..|Encode(pre)|] == whole[..|Encode(pre)|];
    assert s[|Encode(pre)|..|Encode(pre)| + |Encode(post)|] == whole[|Encode(pre)|..];
  }

  ghost predicate ReadsAt(s: seq<Byte>, at: nat, x: Attr, next: nat)
    requires at + HEADER <= |s|
  {
    && KindAt(s, at) == x.kind && IdAt(s, at) == x.id && LengthAt(s, at) == |x.data|
    && next == at + HEADER + |x.data| <= |s| && s[at + HEADER..next] == x.data
  }

  /** What a walk of the buffer reads at the position of attribute `i`. */
  lemma {:induction false} At(s: seq<Byte>, xs: seq<Attr>, i: nat)
    requires Holds(s, 0, xs) && i <= |xs|
    ensures var at := Offset(xs, i);
      && at + HEADER <= |s| && (KindAt(s, at) == END <==> i == |xs|)
      && (i < |xs| ==> ReadsAt(s, at, xs[i], Offset(xs, i + 1)))
  {
    HoldsFrom(s, xs, i);
    if i < |xs| {
      HoldsTail(s, Offset(xs, i), xs[i..]);
      OffsetStep(xs, i);
    }
  }

  /** The part of it that moves the walk on. */
  lemma {:induction false} StepAt(s: seq<Byte>, xs: seq<Attr>, i: nat)
    requires Holds(s, 0, xs) && i <= |xs|
    ensures Offset(xs, i) + HEADER <= |s| && (KindAt(s, Offset(xs, i)) == END <==> i == |xs|)
    ensures i < |xs| ==> KindAt(s, Offset(xs, i)) == xs[i].kind && IdAt(s, Offset(xs, i)) == xs[i].id
    ensures (i < |xs| ==>
      LengthAt(s, Offset(xs, i)) == |xs[i].data| && Offset(xs, i + 1) == Offset(xs, i) + HEADER + |xs[i].data| <= |s|)
  {
    At(s, xs, i);
  }
}
