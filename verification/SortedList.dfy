/** Sorted key/data lists: the reference that the tree is compared with. */
module SortedList {
  import opened KeyOrder
  import opened Wrappers
  import opened Sequences

  type Data = int
  datatype Item = Item(key: Key, data: Data)

  ghost predicate Sorted(cmp: Eval, s: seq<Item>) {
    forall i, j :: 0 <= i < j < |s| ==> cmp(s[i].key, s[j].key) < 0
  }

  /** Insertion into a sorted list; an equal key stays as it is. */
  function InsertItem(cmp: Eval, s: seq<Item>, x: Item): seq<Item> {
    if s == [] then [x]
    else
      var c := cmp(x.key, s[0].key);
      if c < 0 then [x] + s
      else if c == 0 then s
      else [s[0]] + InsertItem(cmp, s[1..], x)
  }

  /** Removal from a sorted list, if the key is there. */
  function RemoveKey(cmp: Eval, s: seq<Item>, k: Key): seq<Item> {
    if s == [] then []
    else
      var c := cmp(k, s[0].key);
      if c < 0 then s
      else if c == 0 then s[1..]
      else [s[0]] + RemoveKey(cmp, s[1..], k)
  }

  /** Where a key is in a sorted list, or -1. */
  function Find(cmp: Eval, s: seq<Item>, k: Key): (i: int)
    ensures -1 <= i < |s|
    ensures i >= 0 ==> cmp(k, s[i].key) == 0
  {
    if s == [] then -1
    else if cmp(k, s[0].key) == 0 then 0
    else var i := Find(cmp, s[1..], k); if i < 0 then -1 else i + 1
  }

  // Every key of s is smaller than k.
  ghost predicate Below(cmp: Eval, s: seq<Item>, k: Key) {
    forall i :: 0 <= i < |s| ==> cmp(k, s[i].key) > 0
  }

  ghost predicate Above(cmp: Eval, s: seq<Item>, k: Key) {
    forall i :: 0 <= i < |s| ==> cmp(k, s[i].key) < 0
  }

  lemma {:induction false} SortedParts(cmp: Eval, a: seq<Item>, x: Item, b: seq<Item>)
    requires Sorted(cmp, a + [x] + b)
    ensures Sorted(cmp, a) && Sorted(cmp, b)
    ensures forall i :: 0 <= i < |a| ==> cmp(a[i].key, x.key) < 0
    ensures forall i :: 0 <= i < |b| ==> cmp(x.key, b[i].key) < 0
  {
    var s := a + [x] + b;
    assert forall i :: 0 <= i < |a| ==> a[i] == s[i];
    assert forall i :: 0 <= i < |b| ==> b[i] == s[|a| + 1 + i];
    assert s[|a|] == x;
  }

  // Where a key lies relative to the parts of a sorted list.
  lemma {:induction false} Sides(cmp: Eval, a: seq<Item>, x: Item, b: seq<Item>, k: Key)
    requires TotalOrder(cmp) && Sorted(cmp, a + [x] + b)
    ensures cmp(k, x.key) >= 0 ==> Below(cmp, a, k)
    ensures cmp(k, x.key) <= 0 ==> Above(cmp, b, k)
  {
    SortedParts(cmp, a, x, b);
  }

  lemma {:induction false} InsertBeyond(cmp: Eval, a: seq<Item>, b: seq<Item>, x: Item)
    requires Below(cmp, a, x.key)
    ensures InsertItem(cmp, a + b, x) == a + InsertItem(cmp, b, x)
    decreases |a|
  {
    if a == [] {
      assert a + b == b;
    } else {
      assert cmp(x.key, a[0].key) > 0;
      assert (a + b)[1..] == a[1..] + b && (a + b)[0] == a[0];
      InsertBeyond(cmp, a[1..], b, x);
    }
  }

  lemma {:induction false} InsertBefore(cmp: Eval, a: seq<Item>, y: Item, b: seq<Item>, x: Item)
    requires cmp(x.key, y.key) < 0
    ensures InsertItem(cmp, a + [y] + b, x) == InsertItem(cmp, a, x) + [y] + b
    decreases |a|
  {
    if a != [] {
      assert (a + [y] + b)[1..] == a[1..] + [y] + b;
      InsertBefore(cmp, a[1..], y, b, x);
    }
  }

  // The three-way descent of a search tree, on sorted lists.
  lemma {:induction false} InsertSplit(cmp: Eval, a: seq<Item>, y: Item, b: seq<Item>, x: Item)
    requires TotalOrder(cmp) && Sorted(cmp, a + [y] + b)
    ensures InsertItem(cmp, a + [y] + b, x) ==
            var c := cmp(x.key, y.key);
            if c < 0 then InsertItem(cmp, a, x) + [y] + b
            else if c == 0 then a + [y] + b
            else a + [y] + InsertItem(cmp, b, x)
  {
    Sides(cmp, a, y, b, x.key);
    if cmp(x.key, y.key) < 0 {
      InsertBefore(cmp, a, y, b, x);
    } else {
      assert a + ([y] + b) == a + [y] + b;
      assert ([y] + b)[1..] == b;
      InsertBeyond(cmp, a, [y] + b, x);
    }
  }

  lemma {:induction false} RemoveBeyond(cmp: Eval, a: seq<Item>, b: seq<Item>, k: Key)
    requires Below(cmp, a, k)
    ensures RemoveKey(cmp, a + b, k) == a + RemoveKey(cmp, b, k)
    decreases |a|
  {
    if a == [] {
      assert a + b == b;
    } else {
      assert cmp(k, a[0].key) > 0;
      assert (a + b)[1..] == a[1..] + b && (a + b)[0] == a[0];
      RemoveBeyond(cmp, a[1..], b, k);
    }
  }

  lemma {:induction false} RemoveBefore(cmp: Eval, a: seq<Item>, y: Item, b: seq<Item>, k: Key)
    requires cmp(k, y.key) < 0
    ensures RemoveKey(cmp, a + [y] + b, k) == RemoveKey(cmp, a, k) + [y] + b
    decreases |a|
  {
    if a == [] {
    } else {
      assert (a + [y] + b)[1..] == a[1..] + [y] + b;
      RemoveBefore(cmp, a[1..], y, b, k);
      if cmp(k, a[0].key) == 0 { assert (a + [y] + b)[1..] == a[1..] + [y] + b; }
    }
  }

  lemma {:induction false} RemoveSplit(cmp: Eval, a: seq<Item>, y: Item, b: seq<Item>, k: Key)
    requires TotalOrder(cmp) && Sorted(cmp, a + [y] + b)
    ensures RemoveKey(cmp, a + [y] + b, k) ==
            var c := cmp(k, y.key);
            if c < 0 then RemoveKey(cmp, a, k) + [y] + b
            else if c == 0 then a + b
            else a + [y] + RemoveKey(cmp, b, k)
  {
    Sides(cmp, a, y, b, k);
    var c := cmp(k, y.key);
    if c < 0 {
      RemoveBefore(cmp, a, y, b, k);
    } else {
      Regroup(a, [y], b);
      RemoveBeyond(cmp, a, [y] + b, k);
      RemoveFront(cmp, y, b, k);
      if c > 0 { Regroup(a, [y], RemoveKey(cmp, b, k)); }
    }
  }

  lemma {:induction false} RemoveFront(cmp: Eval, y: Item, b: seq<Item>, k: Key)
    requires cmp(k, y.key) >= 0
    ensures RemoveKey(cmp, [y] + b, k) == if cmp(k, y.key) == 0 then b else [y] + RemoveKey(cmp, b, k)
  {
    assert ([y] + b)[1..] == b;
  }

  lemma {:induction false} FindBeyond(cmp: Eval, a: seq<Item>, b: seq<Item>, k: Key)
    requires Below(cmp, a, k)
    ensures Find(cmp, a + b, k) == if Find(cmp, b, k) < 0 then -1 else |a| + Find(cmp, b, k)
    decreases |a|
  {
    if a == [] {
      assert a + b == b;
    } else {
      assert cmp(k, a[0].key) > 0;
      assert (a + b)[1..] == a[1..] + b;
      FindBeyond(cmp, a[1..], b, k);
    }
  }

  lemma {:induction false} FindBefore(cmp: Eval, a: seq<Item>, b: seq<Item>, k: Key)
    requires Above(cmp, b, k)
    ensures Find(cmp, a + b, k) == Find(cmp, a, k)
    decreases |a| + |b|
  {
    if a != [] {
      assert (a + b)[1..] == a[1..] + b;
      FindBefore(cmp, a[1..], b, k);
    } else if b != [] {
      assert (a + b)[1..] == a + b[1..];
      FindBefore(cmp, a, b[1..], k);
    }
  }

  lemma {:induction false} FindSplit(cmp: Eval, a: seq<Item>, y: Item, b: seq<Item>, k: Key)
    requires TotalOrder(cmp) && Sorted(cmp, a + [y] + b)
    ensures Find(cmp, a + [y] + b, k) ==
            var c := cmp(k, y.key);
            if c < 0 then Find(cmp, a, k)
            else if c == 0 then |a|
            else if Find(cmp, b, k) < 0 then -1 else |a| + 1 + Find(cmp, b, k)
  {
    Sides(cmp, a, y, b, k);
    assert a + ([y] + b) == a + [y] + b;
    assert ([y] + b)[1..] == b;
    if cmp(k, y.key) < 0 {
      FindBefore(cmp, a, [y] + b, k);
    } else {
      FindBeyond(cmp, a, [y] + b, k);
    }
  }

  // ---- Range searches ----

  // Whether a key counts as lesser (or lesser-or-equal) than the one searched for, and its mirror.
  predicate Under(cmp: Eval, k: Key, key: Key, equal: bool) {
    if equal then cmp(k, key) >= 0 else cmp(k, key) > 0
  }

  predicate Over(cmp: Eval, k: Key, key: Key, equal: bool) {
    if equal then cmp(k, key) <= 0 else cmp(k, key) < 0
  }

  /** i is the last position with a key under k; -1 if there is none. */
  ghost predicate IsFloor(cmp: Eval, s: seq<Item>, k: Key, equal: bool, i: int) {
    && -1 <= i < |s|
    && (forall j :: 0 <= j <= i ==> Under(cmp, k, s[j].key, equal))
    && (forall j :: i < j < |s| ==> !Under(cmp, k, s[j].key, equal))
  }

  /** i is the first position with a key over k; |s| if there is none. */
  ghost predicate IsCeiling(cmp: Eval, s: seq<Item>, k: Key, equal: bool, i: int) {
    && 0 <= i <= |s|
    && (forall j :: 0 <= j < i ==> !Over(cmp, k, s[j].key, equal))
    && (forall j :: i <= j < |s| ==> Over(cmp, k, s[j].key, equal))
  }

  // Comparing with one key of a sorted list settles all keys on one side of it.
  lemma {:induction false} Settled(cmp: Eval, s: seq<Item>, k: Key, m: int)
    requires TotalOrder(cmp) && Sorted(cmp, s) && 0 <= m < |s|
    ensures cmp(k, s[m].key) >= 0 ==> forall j :: 0 <= j < m ==> cmp(k, s[j].key) > 0
    ensures cmp(k, s[m].key) <= 0 ==> forall j :: m < j < |s| ==> cmp(k, s[j].key) < 0
  {
  }

  /** Searching strictly from a key of the list finds its neighbours. */
  lemma {:induction false} StrictNeighbour(cmp: Eval, s: seq<Item>, at: nat, i: int)
    requires TotalOrder(cmp) && Sorted(cmp, s) && at < |s|
    ensures IsFloor(cmp, s, s[at].key, false, i) ==> i == at - 1
    ensures IsCeiling(cmp, s, s[at].key, false, i) ==> i == at + 1
  {
    Settled(cmp, s, s[at].key, at);
    assert cmp(s[at].key, s[at].key) == 0;
    if at > 0 { assert cmp(s[at].key, s[at - 1].key) > 0; }
    if at + 1 < |s| { assert cmp(s[at].key, s[at + 1].key) < 0; }
  }

  // ---- What the operations mean ----

  lemma {:induction false} Head(cmp: Eval, s: seq<Item>)
    requires Sorted(cmp, s) && s != []
    ensures s == [] + [s[0]] + s[1..] == [s[0]] + s[1..] && Sorted(cmp, s[1..])
    ensures forall i :: 0 <= i < |s[1..]| ==> cmp(s[0].key, s[1..][i].key) < 0
  {
    assert s == [] + [s[0]] + s[1..];
    SortedParts(cmp, [], s[0], s[1..]);
  }

  lemma {:induction false} HeadFind(cmp: Eval, s: seq<Item>, k: Key)
    requires TotalOrder(cmp) && Sorted(cmp, s) && s != []
    ensures Find(cmp, s, k) ==
            var c := cmp(k, s[0].key);
            if c < 0 then -1
            else if c == 0 then 0
            else if Find(cmp, s[1..], k) < 0 then -1 else 1 + Find(cmp, s[1..], k)
  {
    Head(cmp, s);
    FindSplit(cmp, [], s[0], s[1..], k);
  }

  lemma {:induction false} ConsSorted(cmp: Eval, y: Item, s: seq<Item>)
    requires Sorted(cmp, s) && forall i :: 0 <= i < |s| ==> cmp(y.key, s[i].key) < 0
    ensures Sorted(cmp, [y] + s)
  {
  }

  lemma {:induction false} InsertItemMembers(cmp: Eval, s: seq<Item>, x: Item)
    ensures forall y :: y in InsertItem(cmp, s, x) ==> y == x || y in s
    decreases |s|
  {
    if s != [] { InsertItemMembers(cmp, s[1..], x); }
  }

  lemma {:induction false} InsertSorted(cmp: Eval, s: seq<Item>, x: Item)
    requires TotalOrder(cmp) && Sorted(cmp, s)
    ensures Sorted(cmp, InsertItem(cmp, s, x))
    decreases |s|
  {
    if s == [] { return; }
    Head(cmp, s);
    var c := cmp(x.key, s[0].key);
    if c < 0 {
      ConsSorted(cmp, x, s);
    } else if c > 0 {
      InsertSorted(cmp, s[1..], x);
      var w := InsertItem(cmp, s[1..], x);
      InsertItemMembers(cmp, s[1..], x);
      forall i | 0 <= i < |w| ensures cmp(s[0].key, w[i].key) < 0 {
        assert w[i] in w;
      }
      ConsSorted(cmp, s[0], w);
    }
  }

  lemma {:induction false} InsertedBehind(y: Item, r: seq<Item>, q: nat, x: Item)
    requires q <= |r|
    ensures [y] + (r[..q] + [x] + r[q..]) == ([y] + r)[..q + 1] + [x] + ([y] + r)[q + 1..]
  {
    assert ([y] + r)[..q + 1] == [y] + r[..q] && ([y] + r)[q + 1..] == r[q..];
  }

  lemma {:induction false} InsertedFront(s: seq<Item>, x: Item)
    ensures s[..0] + [x] + s[0..] == [x] + s
  {
  }

  lemma {:induction false} InsertPosition(cmp: Eval, s: seq<Item>, x: Item) returns (p: nat)
    requires TotalOrder(cmp) && Sorted(cmp, s)
    ensures Find(cmp, s, x.key) >= 0 ==> InsertItem(cmp, s, x) == s
    ensures Find(cmp, s, x.key) < 0 ==> p <= |s| && InsertItem(cmp, s, x) == s[..p] + [x] + s[p..]
    decreases |s|
  {
    if s == [] { return 0; }
    var y, r := s[0], s[1..];
    Head(cmp, s);
    HeadFind(cmp, s, x.key);
    var c := cmp(x.key, y.key);
    if c < 0 {
      p := 0;
      InsertedFront(s, x);
    } else if c == 0 {
      p := 0;
    } else {
      var q := InsertPosition(cmp, r, x);
      p := q + 1;
      if Find(cmp, r, x.key) < 0 { InsertedBehind(y, r, q, x); }
    }
  }

  /** Insertion adds exactly one item, at one place, and keeps the order; a duplicate changes nothing. */
  lemma {:induction false} InsertItemMeans(cmp: Eval, s: seq<Item>, x: Item)
    requires TotalOrder(cmp) && Sorted(cmp, s)
    ensures Sorted(cmp, InsertItem(cmp, s, x))
    ensures Find(cmp, s, x.key) >= 0 ==> InsertItem(cmp, s, x) == s
    ensures Find(cmp, s, x.key) < 0 ==>
      |InsertItem(cmp, s, x)| == |s| + 1 &&
      exists p :: 0 <= p <= |s| && InsertItem(cmp, s, x) == s[..p] + [x] + s[p..]
  {
    InsertSorted(cmp, s, x);
    var p := InsertPosition(cmp, s, x);
  }

  lemma {:induction false} RemoveSorted(cmp: Eval, s: seq<Item>, k: Key)
    requires TotalOrder(cmp) && Sorted(cmp, s)
    ensures Sorted(cmp, RemoveKey(cmp, s, k))
    decreases |s|
  {
    if s == [] { return; }
    Head(cmp, s);
    if cmp(k, s[0].key) > 0 {
      var w := RemoveKey(cmp, s[1..], k);
      RemoveSorted(cmp, s[1..], k);
      RemoveMembers(cmp, s[1..], k);
      forall j | 0 <= j < |w| ensures cmp(s[0].key, w[j].key) < 0 {
        assert w[j] in w;
      }
      ConsSorted(cmp, s[0], w);
    }
  }

  // A cut behind the head
  lemma {:induction false} CutBehind(s: seq<Item>, i: nat)
    requires i + 1 < |s|
    ensures [s[0]] + (s[1..][..i] + s[1..][i + 1..]) == s[..i + 1] + s[i + 2..]
  {
    assert s[..i + 1] == [s[0]] + s[1..][..i] && s[i + 2..] == s[1..][i + 1..];
  }

  lemma {:induction false} RemovePosition(cmp: Eval, s: seq<Item>, k: Key) returns (i: int)
    requires TotalOrder(cmp) && Sorted(cmp, s)
    ensures i == Find(cmp, s, k)
    ensures RemoveKey(cmp, s, k) == if i < 0 then s else s[..i] + s[i + 1..]
    decreases |s|
  {
    i := Find(cmp, s, k);
    if s == [] { return; }
    Head(cmp, s);
    HeadFind(cmp, s, k);
    if cmp(k, s[0].key) > 0 {
      var j := RemovePosition(cmp, s[1..], k);
      if j >= 0 { CutBehind(s, j); }
    }
  }

  /** Removal takes out exactly the item with the key, or nothing. */
  lemma {:induction false} RemoveKeyMeans(cmp: Eval, s: seq<Item>, k: Key)
    requires TotalOrder(cmp) && Sorted(cmp, s)
    ensures Sorted(cmp, RemoveKey(cmp, s, k))
    ensures Find(cmp, s, k) < 0 ==> RemoveKey(cmp, s, k) == s
    ensures Find(cmp, s, k) >= 0 ==> RemoveKey(cmp, s, k) == s[..Find(cmp, s, k)] + s[Find(cmp, s, k) + 1..]
  {
    RemoveSorted(cmp, s, k);
    var i := RemovePosition(cmp, s, k);
  }

  lemma {:induction false} RemoveMembers(cmp: Eval, s: seq<Item>, k: Key)
    ensures forall y :: y in RemoveKey(cmp, s, k) ==> y in s
    decreases |s|
  {
    if s != [] { RemoveMembers(cmp, s[1..], k); }
  }

  function Lookup(cmp: Eval, s: seq<Item>, k: Key): Option<Data> {
    var i := Find(cmp, s, k);
    if i < 0 then None else Some(s[i].data)
  }

  lemma {:induction false} HeadLookup(cmp: Eval, s: seq<Item>, k: Key)
    requires TotalOrder(cmp) && Sorted(cmp, s) && s != []
    ensures Lookup(cmp, s, k) ==
            var c := cmp(k, s[0].key);
            if c < 0 then None else if c == 0 then Some(s[0].data) else Lookup(cmp, s[1..], k)
  {
    HeadFind(cmp, s, k);
  }

  /** Lookups after an insertion: the new data under its key if the key was not there, all else as before. */
  lemma {:induction false} LookupAfterInsert(cmp: Eval, s: seq<Item>, x: Item, k: Key)
    requires TotalOrder(cmp) && Sorted(cmp, s)
    ensures Lookup(cmp, InsertItem(cmp, s, x), k) ==
            if Lookup(cmp, s, k).None? && cmp(k, x.key) == 0 then Some(x.data) else Lookup(cmp, s, k)
    decreases |s|
  {
    InsertSorted(cmp, s, x);
    var w := InsertItem(cmp, s, x);
    HeadLookup(cmp, w, k);
    if s != [] {
      HeadLookup(cmp, s, k);
      var c := cmp(x.key, s[0].key);
      if c < 0 {
        assert w[1..] == s;
      } else if c > 0 {
        assert w[1..] == InsertItem(cmp, s[1..], x);
        Head(cmp, s);
        LookupAfterInsert(cmp, s[1..], x, k);
      }
    }
  }

  /** Lookups after a removal: the key is gone, all else as before. */
  lemma {:induction false} LookupAfterRemove(cmp: Eval, s: seq<Item>, k: Key, j: Key)
    requires TotalOrder(cmp) && Sorted(cmp, s)
    ensures Lookup(cmp, RemoveKey(cmp, s, k), j) == if cmp(j, k) == 0 then None else Lookup(cmp, s, j)
    decreases |s|
  {
    if s == [] { return; }
    Head(cmp, s);
    HeadLookup(cmp, s, j);
    var c := cmp(k, s[0].key);
    if c == 0 {
      if s[1..] != [] { HeadLookup(cmp, s[1..], j); }
    } else if c > 0 {
      RemoveKeyMeans(cmp, s, k);
      var w := RemoveKey(cmp, s, k);
      assert w[1..] == RemoveKey(cmp, s[1..], k);
      HeadLookup(cmp, w, j);
      LookupAfterRemove(cmp, s[1..], k, j);
    }
  }
}
