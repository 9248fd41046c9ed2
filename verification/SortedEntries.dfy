/** Key-value entries of a B+ tree node, kept in strictly ascending key order.
    Leaf entries pair a name with a record id and index entries pair a fence key
    with a child block; on disk the two have the same 264-byte layout, so one type
    serves both. A key is the rank of a name (see `KeyOrder`), so comparing keys
    with `<` is comparing the names with strcmp. */
module SortedEntries {

  datatype Entry = Entry(key: nat, val: nat)

  ghost predicate Sorted(s: seq<Entry>) {
    forall i, j :: 0 <= i < j < |s| ==> s[i].key < s[j].key
  }

  ghost predicate AllBelow(s: seq<Entry>, k: nat) {
    forall i :: 0 <= i < |s| ==> s[i].key < k
  }

  ghost predicate AllAbove(s: seq<Entry>, k: nat) {
    forall i :: 0 <= i < |s| ==> k < s[i].key
  }

  /** The list with key `k` bound to `v`: an entry with that key is overwritten in
      place, otherwise a new entry goes where the order wants it. */
  ghost function Put(s: seq<Entry>, k: nat, v: nat): seq<Entry> {
    if s == [] || k < s[0].key then [Entry(k, v)] + s
    else if s[0].key == k then [Entry(k, v)] + s[1..]
    else [s[0]] + Put(s[1..], k, v)
  }

  /** The list without the entry of key `k`. */
  ghost function Remove(s: seq<Entry>, k: nat): seq<Entry> {
    if s == [] || k < s[0].key then s
    else if s[0].key == k then s[1..]
    else [s[0]] + Remove(s[1..], k)
  }

  ghost predicate HasKey(s: seq<Entry>, k: nat) {
    exists i :: 0 <= i < |s| && s[i].key == k
  }

  /** The finite map that a sorted list stands for. */
  ghost function ToMap(s: seq<Entry>): map<nat, nat> {
    if s == [] then map[] else ToMap(s[1..])[s[0].key := s[0].val]
  }

  // ----- Put and Remove touch only the part of the list that the key belongs to

  lemma {:induction false} PutSkip(a: seq<Entry>, s: seq<Entry>, k: nat, v: nat)
    requires AllBelow(a, k)
    ensures Put(a + s, k, v) == a + Put(s, k, v)
  {
    if a == [] {
      assert a + s == s;
    } else {
      assert (a + s)[1..] == a[1..] + s;
      PutSkip(a[1..], s, k, v);
      assert [a[0]] + (a[1..] + Put(s, k, v)) == a + Put(s, k, v);
    }
  }

  lemma {:induction false} PutKeep(s: seq<Entry>, b: seq<Entry>, k: nat, v: nat)
    requires AllAbove(b, k)
    ensures Put(s + b, k, v) == Put(s, k, v) + b
  {
    if s == [] {
      assert s + b == b;
    } else {
      assert (s + b)[1..] == s[1..] + b;
      if s[0].key < k {
        PutKeep(s[1..], b, k, v);
      }
    }
  }

  lemma PutMiddle(a: seq<Entry>, s: seq<Entry>, b: seq<Entry>, k: nat, v: nat)
    requires AllBelow(a, k) && AllAbove(b, k)
    ensures Put(a + s + b, k, v) == a + Put(s, k, v) + b
  {
    PutSkip(a, s, k, v);
    PutKeep(a + s, b, k, v);
  }

  lemma {:induction false} RemoveSkip(a: seq<Entry>, s: seq<Entry>, k: nat)
    requires AllBelow(a, k)
    ensures Remove(a + s, k) == a + Remove(s, k)
  {
    if a == [] {
      assert a + s == s;
    } else {
      assert (a + s)[1..] == a[1..] + s;
      RemoveSkip(a[1..], s, k);
      assert [a[0]] + (a[1..] + Remove(s, k)) == a + Remove(s, k);
    }
  }

  lemma {:induction false} RemoveKeep(s: seq<Entry>, b: seq<Entry>, k: nat)
    requires AllAbove(b, k)
    ensures Remove(s + b, k) == Remove(s, k) + b
  {
    if s == [] {
      assert s + b == b;
      assert Remove(b, k) == b;
    } else {
      assert (s + b)[1..] == s[1..] + b;
      if s[0].key < k {
        RemoveKeep(s[1..], b, k);
      }
    }
  }

  lemma RemoveMiddle(a: seq<Entry>, s: seq<Entry>, b: seq<Entry>, k: nat)
    requires AllBelow(a, k) && AllAbove(b, k)
    ensures Remove(a + s + b, k) == a + Remove(s, k) + b
  {
    RemoveSkip(a, s, k);
    RemoveKeep(a + s, b, k);
  }

  // ----- what Put and Remove do at the position of the key

  /** Inserting at the lower bound of an absent key. */
  lemma PutNew(s: seq<Entry>, k: nat, v: nat, p: nat)
    requires p <= |s| && AllBelow(s[..p], k) && (p == |s| || k < s[p].key)
    ensures Put(s, k, v) == s[..p] + [Entry(k, v)] + s[p..]
  {
    PutSkip(s[..p], s[p..], k, v);
    assert s == s[..p] + s[p..];
  }

  /** Overwriting at the lower bound of a present key. */
  lemma PutOver(s: seq<Entry>, k: nat, v: nat, p: nat)
    requires p < |s| && AllBelow(s[..p], k) && s[p].key == k
    ensures Put(s, k, v) == s[p := Entry(k, v)]
  {
    PutSkip(s[..p], s[p..], k, v);
    assert s == s[..p] + s[p..];
    assert s[p..][1..] == s[p + 1..];
    assert s[p := Entry(k, v)] == s[..p] + ([Entry(k, v)] + s[p + 1..]);
  }

  lemma RemoveAt(s: seq<Entry>, k: nat, p: nat)
    requires p < |s| && AllBelow(s[..p], k) && s[p].key == k
    ensures Remove(s, k) == s[..p] + s[p + 1..]
  {
    RemoveSkip(s[..p], s[p..], k);
    assert s == s[..p] + s[p..];
    assert s[p..][1..] == s[p + 1..];
  }

  lemma {:induction false} RemoveAbsent(s: seq<Entry>, k: nat)
    requires !HasKey(s, k)
    ensures Remove(s, k) == s
  {
    if s != [] && s[0].key < k {
      HasKeyTail(s, k);
      RemoveAbsent(s[1..], k);
    }
  }

  /** A key is present exactly when it sits at its lower bound. */
  lemma LowerBoundFinds(s: seq<Entry>, p: nat, k: nat)
    requires Sorted(s) && p <= |s| && AllBelow(s[..p], k) && (p < |s| ==> k <= s[p].key)
    ensures HasKey(s, k) <==> p < |s| && s[p].key == k
  {
    forall i | 0 <= i < p ensures s[i].key != k {
      assert s[..p][i] == s[i];
    }
    if HasKey(s, k) {
      var i :| 0 <= i < |s| && s[i].key == k;
      assert i >= p;
    }
  }

  /** Every key has a lower bound, the first position whose key is not smaller. */
  lemma {:induction false} LowerBoundExists(s: seq<Entry>, k: nat) returns (p: nat)
    requires Sorted(s)
    ensures p <= |s| && AllBelow(s[..p], k) && (p < |s| ==> k <= s[p].key)
    ensures HasKey(s, k) <==> p < |s| && s[p].key == k
  {
    p := 0;
    while p < |s| && s[p].key < k
      invariant p <= |s| && AllBelow(s[..p], k)
    {
      p := p + 1;
    }
    LowerBoundFinds(s, p, k);
  }

  lemma PutSorted(s: seq<Entry>, k: nat, v: nat)
    requires Sorted(s)
    ensures Sorted(Put(s, k, v))
    ensures HasKey(Put(s, k, v), k)
    ensures |Put(s, k, v)| == if HasKey(s, k) then |s| else |s| + 1
  {
    var p := LowerBoundExists(s, k);
    if p < |s| && s[p].key == k {
      PutOver(s, k, v, p);
    } else {
      PutNew(s, k, v, p);
      assert Put(s, k, v)[p].key == k;
    }
  }

  lemma RemoveSorted(s: seq<Entry>, k: nat)
    requires Sorted(s)
    ensures Sorted(Remove(s, k))
    ensures !HasKey(Remove(s, k), k)
    ensures |Remove(s, k)| == if HasKey(s, k) then |s| - 1 else |s|
  {
    var p := LowerBoundExists(s, k);
    if p < |s| && s[p].key == k {
      RemoveAt(s, k, p);
    } else {
      RemoveAbsent(s, k);
    }
  }

  lemma HasKeyTail(s: seq<Entry>, k: nat)
    requires s != []
    ensures HasKey(s, k) <==> s[0].key == k || HasKey(s[1..], k)
  {
    if HasKey(s, k) && s[0].key != k {
      var i :| 0 <= i < |s| && s[i].key == k;
      assert s[1..][i - 1].key == k;
    }
    if HasKey(s[1..], k) {
      var i :| 0 <= i < |s[1..]| && s[1..][i].key == k;
      assert s[i + 1].key == k;
    }
  }

  lemma HasKeyAppend(a: seq<Entry>, b: seq<Entry>, k: nat)
    ensures HasKey(a + b, k) <==> HasKey(a, k) || HasKey(b, k)
  {
    if HasKey(a, k) {
      var i :| 0 <= i < |a| && a[i].key == k;
      assert (a + b)[i].key == k;
    }
    if HasKey(b, k) {
      var i :| 0 <= i < |b| && b[i].key == k;
      assert (a + b)[|a| + i].key == k;
    }
  }

  /** In a list split around a key's position only the middle part can hold the key. */
  lemma HasKeyMiddle(a: seq<Entry>, s: seq<Entry>, b: seq<Entry>, k: nat)
    requires AllBelow(a, k) && AllAbove(b, k)
    ensures HasKey(a + s + b, k) <==> HasKey(s, k)
  {
    HasKeyAppend(a, s, k);
    HasKeyAppend(a + s, b, k);
  }

  // ----- parts of a sorted list

  lemma SortedParts(a: seq<Entry>, b: seq<Entry>)
    requires Sorted(a + b)
    ensures Sorted(a) && Sorted(b)
  {
    var f := a + b;
    forall i, j | 0 <= i < j < |a| ensures a[i].key < a[j].key {
      assert f[i] == a[i] && f[j] == a[j];
    }
    forall i, j | 0 <= i < j < |b| ensures b[i].key < b[j].key {
      assert f[|a| + i] == b[i] && f[|a| + j] == b[j];
    }
  }

  lemma SortedBelow(a: seq<Entry>, b: seq<Entry>)
    requires Sorted(a + b) && b != []
    ensures AllBelow(a, b[0].key)
  {
    var f := a + b;
    assert f[|a|] == b[0];
    forall i | 0 <= i < |a| ensures a[i].key < b[0].key {
      assert f[i] == a[i];
    }
  }

  lemma SortedAbove(b: seq<Entry>, k: nat)
    requires Sorted(b) && (b != [] ==> k < b[0].key)
    ensures AllAbove(b, k)
  {
  }

  lemma BelowMore(a: seq<Entry>, k: nat, k': nat)
    requires AllBelow(a, k) && k <= k'
    ensures AllBelow(a, k')
  {
  }

  // ----- the list as a map

  lemma {:induction false} ToMapKeys(s: seq<Entry>, k: nat)
    ensures k in ToMap(s) <==> HasKey(s, k)
  {
    if s != [] {
      HasKeyTail(s, k);
      ToMapKeys(s[1..], k);
    }
  }

  lemma {:induction false} ToMapAt(s: seq<Entry>, i: nat)
    requires Sorted(s) && i < |s|
    ensures s[i].key in ToMap(s) && ToMap(s)[s[i].key] == s[i].val
  {
    if i > 0 {
      assert s[1..][i - 1] == s[i];
      ToMapAt(s[1..], i - 1);
    }
  }

  lemma ToMapEmpty(s: seq<Entry>)
    ensures ToMap(s) == map[] <==> s == []
  {
    if s != [] { assert s[0].key in ToMap(s); }
  }

  /** Binding a key in the list binds it in the map, and binds nothing else. */
  lemma {:induction false} PutToMap(s: seq<Entry>, k: nat, v: nat)
    requires Sorted(s)
    ensures ToMap(Put(s, k, v)) == ToMap(s)[k := v]
  {
    if s == [] || k < s[0].key {
      assert ([Entry(k, v)] + s)[1..] == s;
    } else if s[0].key == k {
      assert ([Entry(k, v)] + s[1..])[1..] == s[1..];
    } else {
      assert ([s[0]] + Put(s[1..], k, v))[1..] == Put(s[1..], k, v);
      PutToMap(s[1..], k, v);
    }
  }

  /** Removing a key from the list removes it from the map, and removes nothing else. */
  lemma {:induction false} RemoveToMap(s: seq<Entry>, k: nat)
    requires Sorted(s)
    ensures ToMap(Remove(s, k)) == ToMap(s) - {k}
  {
    if s == [] {
    } else if k < s[0].key {
      ToMapKeys(s, k);
    } else if s[0].key == k {
      ToMapKeys(s[1..], k);
    } else {
      assert ([s[0]] + Remove(s[1..], k))[1..] == Remove(s[1..], k);
      RemoveToMap(s[1..], k);
    }
  }

  /** A sorted list is determined by its map, so statements about the list and about
      the map have the same strength. */
  lemma {:induction false} ToMapInjective(s: seq<Entry>, t: seq<Entry>)
    requires Sorted(s) && Sorted(t) && ToMap(s) == ToMap(t)
    ensures s == t
  {
    if s == [] || t == [] {
      ToMapEmpty(s);
      ToMapEmpty(t);
    } else {
      ToMapKeys(s, t[0].key);
      ToMapKeys(t, s[0].key);
      ToMapAt(s, 0);
      ToMapAt(t, 0);
      assert s[0] == t[0];
      ToMapKeys(s[1..], s[0].key);
      ToMapKeys(t[1..], s[0].key);
      assert ToMap(s[1..]) == ToMap(s) - {s[0].key};
      assert ToMap(t[1..]) == ToMap(t) - {s[0].key};
      ToMapInjective(s[1..], t[1..]);
      assert s == [s[0]] + s[1..];
      assert t == [t[0]] + t[1..];
    }
  }

  /** Looking a key up in the part of the list it belongs to is looking it up in the list. */
  lemma ToMapMiddle(a: seq<Entry>, m: seq<Entry>, b: seq<Entry>, k: nat)
    requires Sorted(a + m + b) && AllBelow(a, k) && AllAbove(b, k)
    ensures k in ToMap(a + m + b) <==> k in ToMap(m)
    ensures k in ToMap(m) ==> ToMap(a + m + b)[k] == ToMap(m)[k]
  {
    var f := a + m + b;
    SortedParts(a + m, b);
    SortedParts(a, m);
    ToMapKeys(f, k);
    ToMapKeys(m, k);
    HasKeyMiddle(a, m, b, k);
    if HasKey(m, k) {
      var i :| 0 <= i < |m| && m[i].key == k;
      assert f[|a| + i] == m[i];
      ToMapAt(m, i);
      ToMapAt(f, |a| + i);
    }
  }
}
