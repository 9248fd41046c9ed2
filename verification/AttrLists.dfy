/** What the attribute edits mean for the list of attributes, and for the bytes that hold
    its encoding. */
module AttrLists {
  import opened AttrCodec

  const EXTENTS: nat := 8
  const LAST_KIND: nat := 10

  /** The registry: eleven kinds, of which only EXTENTS may occur more than once. */
  predicate Known(kind: nat) {
    kind <= LAST_KIND
  }

  predicate Unique(kind: nat) {
    kind != EXTENTS
  }

  // ----- removing

  datatype Match = OfKind(kind: nat) | Instance(kind: nat, id: nat)

  predicate Matches(a: Attr, m: Match) {
    a.kind == m.kind && (m.Instance? ==> a.id == m.id)
  }

  /** The index of the last match, |xs| if there is none. */
  function LastOf(xs: seq<Attr>, m: Match): (r: nat)
    ensures r <= |xs|
  {
    if xs == [] then 0
    else
      var n := |xs| - 1;
      if Matches(xs[n], m) then n
      else
        var r := LastOf(xs[..n], m);
        if r == n then |xs| else r
  }

  lemma {:induction false} LastOfFinds(xs: seq<Attr>, m: Match)
    ensures var r := LastOf(xs, m);
      && (r < |xs| ==> Matches(xs[r], m) && forall j :: r < j < |xs| ==> !Matches(xs[j], m))
      && (r == |xs| ==> forall j :: 0 <= j < |xs| ==> !Matches(xs[j], m))
  {
    if xs != [] {
      var n := |xs| - 1;
      LastOfFinds(xs[..n], m);
      assert forall j :: 0 <= j < n ==> xs[..n][j] == xs[j];
    }
  }

  lemma {:induction false} LastOfIs(xs: seq<Attr>, m: Match, f: nat)
    requires f < |xs| && Matches(xs[f], m) && forall j :: f < j < |xs| ==> !Matches(xs[j], m)
    ensures LastOf(xs, m) == f
  {
    LastOfFinds(xs, m);
  }

  /** The last match among one attribute more. */
  lemma {:induction false} LastOfMore(xs: seq<Attr>, i: nat, m: Match)
    requires i < |xs|
    ensures LastOf(xs[..i + 1], m) == if Matches(xs[i], m) then i
                                      else if LastOf(xs[..i], m) == i then i + 1 else LastOf(xs[..i], m)
  {
    assert xs[..i + 1][..i] == xs[..i];
  }

  function Without(xs: seq<Attr>, i: nat): seq<Attr>
    requires i < |xs|
  {
    xs[..i] + xs[i + 1..]
  }

  /** Removing takes the last match out, if there is one. */
  function Removed(xs: seq<Attr>, m: Match): seq<Attr> {
    var i := LastOf(xs, m);
    if i < |xs| then Without(xs, i) else xs
  }

  // ----- ids

  /** The highest id among the attributes of a kind, -1 if there are none. */
  function MaxId(xs: seq<Attr>, kind: nat): (r: int)
    ensures r >= -1
  {
    if xs == [] then -1
    else
      var a, r := xs[|xs| - 1], MaxId(xs[..|xs| - 1], kind);
      if a.kind == kind && a.id > r then a.id else r
  }

  lemma {:induction false} MaxIdMore(xs: seq<Attr>, i: nat, kind: nat)
    requires i < |xs|
    ensures MaxId(xs[..i + 1], kind) ==
      if xs[i].kind == kind && xs[i].id > MaxId(xs[..i], kind) then xs[i].id else MaxId(xs[..i], kind)
  {
    assert xs[..i + 1][..i] == xs[..i];
  }

  /** The id a new attribute gets, in 32-bit arithmetic. */
  function NextId(xs: seq<Attr>, kind: nat): nat {
    if Unique(kind) then 0 else (MaxId(xs, kind) + 1) % U32
  }

  // ----- adding

  /** The list once an old instance of a unique kind is gone. */
  function Base(xs: seq<Attr>, kind: nat): seq<Attr> {
    if Unique(kind) then Removed(xs, OfKind(kind)) else xs
  }

  function Added(xs: seq<Attr>, kind: nat, data: seq<Byte>): seq<Attr> {
    Base(xs, kind) + [Attr(kind, 0, NextId(xs, kind), data)]
  }

  /** The list holds the kind exactly once, at its end. */
  ghost predicate Once(xs: seq<Attr>, kind: nat) {
    xs != [] && forall j :: 0 <= j < |xs| ==> (xs[j].kind == kind <==> j == |xs| - 1)
  }

  // ----- what every edit keeps

  /** Kinds that must be unique occur at most once, instances of others have distinct ids. */
  ghost predicate Tidy(xs: seq<Attr>) {
    forall i, j :: 0 <= i < j < |xs| && xs[i].kind == xs[j].kind ==> !Unique(xs[i].kind) && xs[i].id != xs[j].id
  }

  lemma {:induction false} WithoutTidy(xs: seq<Attr>, i: nat)
    requires Tidy(xs) && i < |xs|
    ensures Tidy(Without(xs, i))
  {
    var ys := Without(xs, i);
    forall a, b | 0 <= a < b < |ys| && ys[a].kind == ys[b].kind ensures !Unique(ys[a].kind) && ys[a].id != ys[b].id {
      var x, y := if a < i then a else a + 1, if b < i then b else b + 1;
      assert ys[a] == xs[x] && ys[b] == xs[y];
    }
  }

  /** A kind other than END and EXTENTS replaces its old instance; EXTENTS come in addition. */
  lemma {:induction false} AddedOnce(xs: seq<Attr>, kind: nat, data: seq<Byte>)
    requires Tidy(xs)
    ensures kind != END && kind != EXTENTS ==> Once(Added(xs, kind, data), kind)
    ensures kind == EXTENTS ==> Added(xs, kind, data)[..|xs|] == xs && |Added(xs, kind, data)| == |xs| + 1
  {
    if kind != END && kind != EXTENTS {
      LastOfFinds(xs, OfKind(kind));
      var ys, n := Added(xs, kind, data), |Base(xs, kind)|;
      assert ys[n].kind == kind;
      forall j: nat | j < n ensures ys[j].kind != kind {
        var r := LastOf(xs, OfKind(kind));
        assert ys[j] == if r < |xs| && j >= r then xs[j + 1] else xs[j];
      }
    }
  }

  /** Removing by kind and id takes out that one attribute. */
  lemma {:induction false} RemovedInstance(xs: seq<Attr>, i: nat)
    requires Tidy(xs) && i < |xs|
    ensures Removed(xs, Instance(xs[i].kind, xs[i].id)) == Without(xs, i) && Tidy(Without(xs, i))
  {
    LastOfIs(xs, Instance(xs[i].kind, xs[i].id), i);
    WithoutTidy(xs, i);
  }

  lemma {:induction false} KindGone(xs: seq<Attr>, kind: nat)
    requires Tidy(xs) && Unique(kind)
    ensures Tidy(Base(xs, kind)) && forall i :: 0 <= i < |Base(xs, kind)| ==> Base(xs, kind)[i].kind != kind
  {
    var f, ys := LastOf(xs, OfKind(kind)), Base(xs, kind);
    LastOfFinds(xs, OfKind(kind));
    if f < |xs| {
      WithoutTidy(xs, f);
      forall i | 0 <= i < |ys| ensures ys[i].kind != kind {
        var x := if i < f then i else i + 1;
        assert ys[i] == xs[x] && x != f;
      }
    }
  }

  /** Adding keeps the list tidy except when the 32-bit id counter wraps onto a live id. */
  lemma {:induction false} AddedTidy(xs: seq<Attr>, kind: nat, data: seq<Byte>)
    requires Tidy(xs) && AllFit(xs)
    ensures Tidy(Added(xs, kind, data)) <==>
      (Unique(kind) || MaxId(xs, kind) < U32 - 1 || forall i :: 0 <= i < |xs| && xs[i].kind == kind ==> xs[i].id != 0)
  {
    var base, ys := Base(xs, kind), Added(xs, kind, data);
    var id, n := NextId(xs, kind), |base|;
    if Unique(kind) { KindGone(xs, kind); }
    assert ys[..n] == base && ys[n] == Attr(kind, 0, id, data);
    if forall i :: 0 <= i < n && base[i].kind == kind ==> !Unique(kind) && base[i].id != id {
      forall i, j | 0 <= i < j < |ys| && ys[i].kind == ys[j].kind ensures !Unique(ys[i].kind) && ys[i].id != ys[j].id {
        assert ys[i] == base[i];
        if j < n { assert ys[j] == base[j]; }
      }
    } else {
      var i :| 0 <= i < n && base[i].kind == kind && !(!Unique(kind) && base[i].id != id);
      assert ys[i] == base[i] && ys[i].kind == ys[n].kind;
    }
    if !Unique(kind) { NextIdFresh(xs, kind); }
  }

  /** Below the wrap the next id is above every live one; at the wrap it is zero. */
  lemma {:induction false} NextIdFresh(xs: seq<Attr>, kind: nat)
    requires AllFit(xs) && !Unique(kind)
    ensures MaxId(xs, kind) <= U32 - 1
    ensures (MaxId(xs, kind) < U32 - 1 ==>
      forall i :: 0 <= i < |xs| && xs[i].kind == kind ==> xs[i].id < NextId(xs, kind))
    ensures MaxId(xs, kind) == U32 - 1 ==> NextId(xs, kind) == 0
  {
    var m := MaxId(xs, kind);
    MaxIdIsTop(xs, kind);
    if m >= 0 {
      var i :| 0 <= i < |xs| && xs[i].kind == kind && xs[i].id == m;
      assert Fits(xs[i]);
    }
  }

  /** Removing an instance sets the id counter back, so that ids come again, exactly when it
      had the highest id. */
  lemma {:induction false} IdsComeAgain(xs: seq<Attr>, i: nat)
    requires Tidy(xs) && AllFit(xs) && i < |xs| && xs[i].kind == EXTENTS && MaxId(xs, EXTENTS) < U32 - 1
    ensures NextId(Without(xs, i), EXTENTS) < NextId(xs, EXTENTS) <==> xs[i].id == MaxId(xs, EXTENTS)
  {
    var k, m := MaxId(Without(xs, i), EXTENTS), MaxId(xs, EXTENTS);
    MaxIdIsTop(xs, EXTENTS);
    MaxIdIsTop(Without(xs, i), EXTENTS);
    TopWithout(xs, Without(xs, i), i, k, m);
  }

  /** `m` is the highest id of a kind, -1 for none. */
  ghost predicate Top(xs: seq<Attr>, kind: nat, m: int) {
    && m >= -1 && (forall i :: 0 <= i < |xs| && xs[i].kind == kind ==> xs[i].id <= m)
    && (m == -1 || exists i :: 0 <= i < |xs| && xs[i].kind == kind && xs[i].id == m)
  }

  lemma {:induction false} MaxIdIsTop(xs: seq<Attr>, kind: nat)
    ensures Top(xs, kind, MaxId(xs, kind))
  {
    if xs != [] {
      var n := |xs| - 1;
      MaxIdIsTop(xs[..n], kind);
      TopMore(xs, kind, MaxId(xs[..n], kind), MaxId(xs, kind));
    }
  }

  lemma {:induction false} TopMore(xs: seq<Attr>, kind: nat, r: int, m: int)
    requires xs != [] && Top(xs[..|xs| - 1], kind, r)
    requires var a := xs[|xs| - 1]; m == if a.kind == kind && a.id > r then a.id else r
    ensures Top(xs, kind, m)
  {
    var n := |xs| - 1;
    if m == r && r != -1 {
      var i :| 0 <= i < n && xs[..n][i].kind == kind && xs[..n][i].id == r;
      assert xs[i] == xs[..n][i];
    }
    forall i | 0 <= i < n && xs[i].kind == kind ensures xs[i].id <= m { assert xs[..n][i] == xs[i]; }
  }

  lemma {:induction false} TopWithout(xs: seq<Attr>, ys: seq<Attr>, i: nat, k: int, m: int)
    requires Tidy(xs) && i < |xs| && xs[i].kind == EXTENTS && ys == Without(xs, i) && Top(xs, EXTENTS, m)
    requires Top(ys, EXTENTS, k)
    ensures -1 <= k <= m && (k < m <==> xs[i].id == m)
  {
    forall j | 0 <= j < |ys| ensures var x := if j < i then j else j + 1; ys[j] == xs[x] && x != i {
    }
    if xs[i].id != m {
      var x :| 0 <= x < |xs| && xs[x].kind == EXTENTS && xs[x].id == m;
      assert ys[if x < i then x else x - 1] == xs[x];
    }
  }

  /** Two extents, the second removed and another added: id 1 is used twice. */
  lemma {:induction false} IdUsedTwice()
    ensures var two := Added(Added([], EXTENTS, []), EXTENTS, []);
      var again := Added(Removed(two, Instance(EXTENTS, 1)), EXTENTS, []);
      two[1].id == 1 && |again| == 2 && again[1].id == 1
  {
    var a, b: Attr := Attr(EXTENTS, 0, 0, []), Attr(EXTENTS, 0, 1, []);
    assert MaxId([a], EXTENTS) == 0;
    var two := [a, b];
    assert Added(Added([], EXTENTS, []), EXTENTS, []) == two;
    LastOfIs(two, Instance(EXTENTS, 1), 1);
    assert Without(two, 1) == [a];
  }

  // ----- the bytes behind an edit

  /** `n` bytes were copied from `from` down to `to` and nothing else changed. */
  ghost predicate MovedDown(s: seq<Byte>, s': seq<Byte>, to: nat, from: nat, n: nat) {
    && to <= from && from + n <= |s| && |s'| == |s|
    && s'[..to] == s[..to] && s'[to..to + n] == s[from..from + n]
  }

  /** Closing the gap of attribute `f` leaves the encoding of the others. */
  lemma {:induction false} RemovedHolds(s: seq<Byte>, s': seq<Byte>, xs: seq<Attr>, f: nat)
    requires Holds(s, 0, xs) && f < |xs|
    requires MovedDown(s, s', Offset(xs, f), Offset(xs, f + 1), |Encode(xs[f + 1..])| + HEADER)
    ensures Holds(s', 0, Without(xs, f)) && LengthAt(s', |Encode(Without(xs, f))|) == LengthAt(s, |Encode(xs)|)
  {
    HoldsFrom(s, xs, f);
    HoldsFrom(s, xs, f + 1);
    OffsetRest(xs, f + 1);
    GapClosed(s, s', xs[..f], xs[f + 1..], Offset(xs, f), Offset(xs, f + 1));
  }

  lemma {:induction false} GapClosed(s: seq<Byte>, s': seq<Byte>, pre: seq<Attr>, post: seq<Attr>, to: nat, from: nat)
    requires AllFit(pre) && to == |Encode(pre)| && to <= |s| && s[..to] == Encode(pre) && Holds(s, from, post)
    requires MovedDown(s, s', to, from, |Encode(post)| + HEADER)
    ensures Holds(s', 0, pre + post) && LengthAt(s', |Encode(pre + post)|) == LengthAt(s, from + |Encode(post)|)
  {
    var e, p := Encode(pre), Encode(post);
    BytesMoved(s, s', to, from, e, p);
    EncodeAppend(pre, post);
    HoldsIf(s', pre + post, e + p);
  }

  lemma {:induction false} HoldsIf(s: seq<Byte>, xs: seq<Attr>, e: seq<Byte>)
    requires AllFit(xs) && Encode(xs) == e && |e| + HEADER <= |s| && s[0..|e|] == e && KindAt(s, |e|) == END
    ensures Holds(s, 0, xs)
  {
  }

  lemma {:induction false} BytesMoved(s: seq<Byte>, s': seq<Byte>, to: nat, from: nat, e: seq<Byte>, p: seq<Byte>)
    requires to == |e| && MovedDown(s, s', to, from, |p| + HEADER) && s[..to] == e && s[from..from + |p|] == p
    ensures s'[0..to + |p|] == e + p
    ensures KindAt(s', to + |p|) == KindAt(s, from + |p|) && LengthAt(s', to + |p|) == LengthAt(s, from + |p|)
  {
    var n := |p|;
    SubSlice(s, from, from + n + HEADER, 0, n);
    SubSlice(s', to, to + n + HEADER, 0, n);
    assert s'[0..to + n] == s'[..to] + s'[to..to + n];
    EndMoved(s, s', to, from, n);
  }

  /** The END header moves down as it is. */
  lemma {:induction false} EndMoved(s: seq<Byte>, s': seq<Byte>, to: nat, from: nat, n: nat)
    requires MovedDown(s, s', to, from, n + HEADER)
    ensures KindAt(s', to + n) == KindAt(s, from + n) && LengthAt(s', to + n) == LengthAt(s, from + n)
  {
    var moved, t := s[from..from + n + HEADER], s'[to..to + n + HEADER];
    assert s'[to + n] == t[n] == moved[n] == s[from + n];
    assert s'[to + n + 1] == t[n + 1] == moved[n + 1] == s[from + n + 1];
    assert s'[to + n + 8] == t[n + 8] == moved[n + 8] == s[from + n + 8];
    assert s'[to + n + 9] == t[n + 9] == moved[n + 9] == s[from + n + 9];
    assert s'[to + n + 10] == t[n + 10] == moved[n + 10] == s[from + n + 10];
    assert s'[to + n + 11] == t[n + 11] == moved[n + 11] == s[from + n + 11];
  }

  /** `bs` was written at `at` and nothing else changed. */
  ghost predicate Wrote(s: seq<Byte>, s': seq<Byte>, at: nat, bs: seq<Byte>) {
    && at + |bs| <= |s| && |s'| == |s|
    && s'[..at] == s[..at] && s'[at..at + |bs|] == bs && s'[at + |bs|..] == s[at + |bs|..]
  }

  lemma {:induction false} WroteTwice(s: seq<Byte>, t: seq<Byte>, u: seq<Byte>, at: nat, a: seq<Byte>, b: seq<Byte>)
    requires Wrote(s, t, at, a) && Wrote(t, u, at + |a|, b)
    ensures Wrote(s, u, at, a + b)
  {
    assert u[..at] == u[..at + |a|][..at] == t[..at + |a|][..at];
    assert u[at..at + |a|] == u[..at + |a|][at..] == t[..at + |a|][at..];
    assert u[at..at + |a + b|] == u[at..at + |a|] + u[at + |a|..at + |a| + |b|];
    assert u[at + |a + b|..] == t[at + |a|..][|b|..] == s[at + |a|..][|b|..];
  }

  /** An attribute and an END header written over the old END header. */
  lemma {:induction false} AppendedHolds(s: seq<Byte>, s': seq<Byte>, xs: seq<Attr>, x: Attr)
    requires Holds(s, 0, xs) && Fits(x)
    requires Wrote(s, s', |Encode(xs)|, EncodeOne(x) + Header(END, 0, 0, 0))
    ensures Holds(s', 0, xs + [x]) && LengthAt(s', |Encode(xs + [x])|) == 0
  {
    var n, e, h := |Encode(xs)|, EncodeOne(x), Header(END, 0, 0, 0);
    EncodeMore(xs, x);
    assert s'[..n] == s[0..n];
    SubSlice(s', n, n + |e| + HEADER, 0, |e|);
    SubSlice(s', n, n + |e| + HEADER, |e|, |e| + HEADER);
    assert (e + h)[..|e|] == e && (e + h)[|e|..] == h;
    assert s'[0..n + |e|] == s'[..n] + s'[n..n + |e|];
    HeaderReads(s', n + |e|, END, 0, 0, 0);
  }

  /** An END header written over the old END header changes nothing. */
  lemma {:induction false} EndedHolds(s: seq<Byte>, s': seq<Byte>, xs: seq<Attr>, len: nat, more: seq<Byte>)
    requires Holds(s, 0, xs) && len < U32
    requires Wrote(s, s', |Encode(xs)|, Header(END, 0, 0, len) + more)
    ensures Holds(s', 0, xs) && LengthAt(s', |Encode(xs)|) == len
  {
    var n, h := |Encode(xs)|, Header(END, 0, 0, len);
    assert s'[0..n] == s'[..n] == s[..n] == s[0..n];
    SubSlice(s', n, n + HEADER + |more|, 0, HEADER);
    assert (h + more)[..HEADER] == h;
    HeaderReads(s', n, END, 0, 0, len);
  }

  // ----- walking

  ghost predicate FirstIs(xs: seq<Attr>, kind: nat, i: nat) {
    i < |xs| && xs[i].kind == kind && forall j :: 0 <= j < i ==> xs[j].kind != kind
  }

  lemma {:induction false} OfKindMore(xs: seq<Attr>, i: nat, kind: nat)
    requires i < |xs|
    ensures OfKindIn(xs[..i + 1], kind) ==
            OfKindIn(xs[..i], kind) + if xs[i].kind == kind then [xs[i]] else []
  {
    assert xs[..i + 1][..i] == xs[..i];
  }

  lemma {:induction false} OfKindPrefix(xs: seq<Attr>, i: nat, kind: nat)
    requires i <= |xs|
    ensures OfKindIn(xs[..i], kind) <= OfKindIn(xs, kind)
    decreases |xs| - i
  {
    if i < |xs| {
      OfKindMore(xs, i, kind);
      OfKindPrefix(xs, i + 1, kind);
    } else {
      assert xs[..i] == xs;
    }
  }

  /** The attributes of a kind, in order. */
  function OfKindIn(xs: seq<Attr>, kind: nat): seq<Attr> {
    if xs == [] then []
    else
      var a, before := xs[|xs| - 1], OfKindIn(xs[..|xs| - 1], kind);
      if a.kind == kind then before + [a] else before
  }
}
