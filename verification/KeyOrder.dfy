/** Directory names as B+ tree keys.

    A name is stored in a zero-padded buffer of SMKFS_NAME_LEN bytes and compared with
    strcmp. Reading the padded buffer as one big-endian number, and putting a name too
    long for the buffer just above its stored part, gives the name's rank. Ranks compare
    as numbers exactly as names compare with strcmp, so the tree can be reasoned about
    with integer keys. */
module KeyOrder {

  const NAME_LEN := 256
  const MAX_KEY := 255

  /** A C string without its terminator: bytes 1..255. */
  newtype NameByte = b: int | 1 <= b < 256 witness 1

  type Name = seq<NameByte>

  function Pow256(w: nat): nat {
    if w == 0 then 1 else 256 * Pow256(w - 1)
  }

  /** The number spelled by the first `w` bytes of the zero-padded name. */
  function RankIn(a: Name, w: nat): nat {
    if w == 0 then 0
    else if a == [] then 0
    else a[0] as nat * Pow256(w - 1) + RankIn(a[1..], w - 1)
  }

  function RankPast(a: Name, w: nat): nat {
    2 * RankIn(a, w) + (if |a| > w then 1 else 0)
  }

  function Rank(a: Name): nat {
    RankPast(a, NAME_LEN - 1)
  }

  /** strcmp: the difference of the first differing bytes, the terminator counting as 0. */
  function StrCmp(a: Name, b: Name): int {
    if a != [] && b != [] && a[0] == b[0] then StrCmp(a[1..], b[1..])
    else (if a == [] then 0 else a[0] as int) - (if b == [] then 0 else b[0] as int)
  }

  lemma {:induction false} RankBound(a: Name, w: nat)
    ensures RankIn(a, w) < Pow256(w)
  {
    if w > 0 && a != [] {
      RankBound(a[1..], w - 1);
      assert a[0] as nat * Pow256(w - 1) <= 255 * Pow256(w - 1) by {
        MulMono(a[0] as nat, 255, Pow256(w - 1));
      }
    } else {
      PowPositive(w);
    }
  }

  lemma {:induction false} PowPositive(w: nat)
    ensures Pow256(w) > 0
  {
    if w > 0 { PowPositive(w - 1); }
  }

  lemma MulMono(x: nat, y: nat, p: nat)
    requires x <= y
    ensures x * p <= y * p
  {
  }

  /** Leading digits decide: a smaller first byte gives a smaller number. */
  lemma LeadingDigit(x: nat, y: nat, p: nat, r: nat, q: nat)
    requires x < y && r < p
    ensures x * p + r < y * p + q
  {
    MulMono(x + 1, y, p);
    assert (x + 1) * p == x * p + p;
  }

  /** Ranks order a storable name and any other name exactly as strcmp does. */
  lemma {:induction false} RankOrder(a: Name, b: Name, w: nat)
    requires |a| <= w
    ensures RankPast(a, w) < RankPast(b, w) <==> StrCmp(a, b) < 0
    ensures RankPast(a, w) == RankPast(b, w) <==> StrCmp(a, b) == 0
    ensures StrCmp(a, b) == 0 <==> a == b
  {
    if w == 0 {
    } else if a == [] || b == [] {
      if a != [] { PositiveRank(a, w); }
      if b != [] { PositiveRank(b, w); }
    } else {
      var x, y, p := a[0] as nat, b[0] as nat, Pow256(w - 1);
      RankBound(a[1..], w - 1);
      RankBound(b[1..], w - 1);
      if x == y {
        RankOrder(a[1..], b[1..], w - 1);
        assert a == [a[0]] + a[1..] && b == [b[0]] + b[1..];
      } else if x < y {
        LeadingDigit(x, y, p, RankIn(a[1..], w - 1), RankIn(b[1..], w - 1));
      } else {
        LeadingDigit(y, x, p, RankIn(b[1..], w - 1), RankIn(a[1..], w - 1));
      }
    }
  }

  lemma PositiveRank(a: Name, w: nat)
    requires a != [] && w > 0
    ensures RankIn(a, w) > 0
  {
    PowPositive(w - 1);
    MulMono(1, a[0] as nat, Pow256(w - 1));
  }

  /** Distinct names have distinct ranks, so a map keyed by rank is a map keyed by name;
      `a` is a stored name, `b` any name looked up. */
  lemma RankIsStrcmp(a: Name, b: Name)
    requires |a| <= MAX_KEY
    ensures Rank(a) < Rank(b) <==> StrCmp(a, b) < 0
    ensures Rank(a) == Rank(b) <==> a == b
  {
    RankOrder(a, b, NAME_LEN - 1);
  }
}
