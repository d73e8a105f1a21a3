/** The request table that the code generator lays out in one static array (v1.c:546-670), so that a program
    starts with its dispatch hash already built. */
module HashImage {
  import opened KeyOrder
  import opened HashModel
  import opened HashTable
  import opened Wrappers
  import opened Sequences

  // An entry of the static array; NULL as next is -1. The handler of a request goes by the request's name.
  datatype Entry = Zero | Entry(key: Key, next: int)

  // ---- Where each element goes ----

  // How many elements of the buckets from d on are not the first of their bucket.
  function OverFrom<N>(t: Table<N>, d: nat): nat
    decreases |t| - d
  {
    if d >= |t| then 0 else (if t[d] == [] then 0 else |t[d]| - 1) + OverFrom(t, d + 1)
  }

  // The first overflow slot of bucket b.
  function Bottom<N>(t: Table<N>, b: nat): int {
    |t| + OverFrom(t, 0) - OverFrom(t, b)
  }

  /** The slot of element k of bucket b: first elements keep their bucket's number, the others follow in
      the order in which they are met. */
  function At<N>(t: Table<N>, b: nat, k: nat): int {
    if k == 0 then b else Bottom(t, b) + k - 1
  }

  lemma {:induction false} OverShrinks<N>(t: Table<N>, b: nat, d: nat)
    requires b <= d
    ensures OverFrom(t, d) <= OverFrom(t, b)
    decreases d - b
  {
    if b < d { OverShrinks(t, b + 1, d); }
  }

  lemma {:induction false} AtBounds<N>(t: Table<N>, b: nat, k: nat)
    requires b < |t| && k < |t[b]|
    ensures if k == 0 then At(t, b, k) == b else |t| <= Bottom(t, b) <= At(t, b, k) < Bottom(t, b + 1)
    ensures 0 <= At(t, b, k) < |t| + OverFrom(t, 0)
  {
    OverShrinks(t, 0, b);
    OverShrinks(t, b + 1, |t|);
  }

  lemma {:induction false} AtApart<N>(t: Table<N>, b: nat, k: nat, d: nat, j: nat)
    requires b < |t| && k < |t[b]| && d < |t| && j < |t[d]| && (b != d || k != j)
    ensures At(t, b, k) != At(t, d, j)
  {
    AtBounds(t, b, k);
    AtBounds(t, d, j);
    if b < d { OverShrinks(t, b + 1, d); }
    if d < b { OverShrinks(t, d + 1, b); }
  }

  /** No slot is wasted: each belongs to an element or to an empty bucket. */
  lemma {:induction false} AtOnto<N>(t: Table<N>, x: nat)
    requires x < |t| + OverFrom(t, 0)
    ensures (x < |t| && t[x] == []) || exists b: nat, k: nat :: b < |t| && k < |t[b]| && At(t, b, k) == x
  {
    if x < |t| {
      if t[x] != [] { assert At(t, x, 0) == x; }
    } else {
      OntoFrom(t, 0, x);
    }
  }

  lemma {:induction false} OntoFrom<N>(t: Table<N>, d: nat, x: nat)
    requires d <= |t| && Bottom(t, d) <= x < |t| + OverFrom(t, 0)
    ensures exists b: nat, k: nat :: b < |t| && k < |t[b]| && At(t, b, k) == x
    decreases |t| - d
  {
    if d < |t| {
      if x < Bottom(t, d + 1) {
        assert At(t, d, (x - Bottom(t, d)) + 1) == x;
      } else {
        OntoFrom(t, d + 1, x);
      }
    }
  }

  // ---- How many slots there are ----

  function EmptyFrom<N>(t: Table<N>, d: nat): nat
    decreases |t| - d
  {
    if d >= |t| then 0 else (if t[d] == [] then 1 else 0) + EmptyFrom(t, d + 1)
  }

  lemma {:induction false} SlotCount<N>(t: Table<N>, d: nat)
    requires d <= |t|
    ensures |Flat(t, d)| + EmptyFrom(t, d) == |t| - d + OverFrom(t, d)
    decreases |t| - d
  {
    if d < |t| { SlotCount(t, d + 1); }
  }

  lemma {:induction false} CountKeys<N>(s: seq<Cell<N>>)
    requires NoRepeat(s)
    ensures |KeySet(s)| == |s|
    decreases |s|
  {
    if s != [] { CountKeys(s[1..]); }
  }

  /** The stored total and the empty buckets make up exactly the slots. */
  lemma {:induction false} ImageSize<N>(t: Table<N>, m: map<Key, Pair>)
    requires Good(t) && Represents(t, m)
    ensures |m| + EmptyFrom(t, 0) == |t| + OverFrom(t, 0)
  {
    SlotCount(t, 0);
    FlatKeys(t, 0);
    FlatWithin(t, m, 0);
    CountKeys(Flat(t, 0));
    forall key ensures key in m.Keys <==> key in KeySet(Flat(t, 0)) {
      Lookup(t, m, key);
    }
    assert m.Keys == KeySet(Flat(t, 0));
  }

  // ---- The image and what it means ----

  ghost predicate Laid<N>(s: seq<Entry>, t: Table<N>, b: nat, k: nat)
    requires b < |t| && k < |t[b]|
  {
    && 0 <= At(t, b, k) < |s|
    && s[At(t, b, k)] == Entry(t[b][k].pair.key, if k + 1 < |t[b]| then At(t, b, k + 1) else -1)
  }

  // Every element up to element k of bucket b is laid out.
  ghost predicate LaidTo<N>(s: seq<Entry>, t: Table<N>, b: nat, k: nat) {
    forall d: nat, j: nat :: d < |t| && j < |t[d]| && (d < b || (d == b && j < k)) ==> Laid(s, t, d, j)
  }

  /** Following `next` in the array from slot x gives the keys. */
  ghost predicate Follows(s: seq<Entry>, x: int, keys: seq<Key>)
    decreases |keys|
  {
    if keys == [] then x == -1
    else 0 <= x < |s| && s[x].Entry? && s[x].key == keys[0] && Follows(s, s[x].next, keys[1..])
  }

  function ChainKeysOf<N>(c: Chain<N>): (r: seq<Key>)
    ensures |r| == |c| && forall k :: 0 <= k < |c| ==> r[k] == c[k].pair.key
  {
    if c == [] then [] else [c[0].pair.key] + ChainKeysOf(c[1..])
  }

  // The head of a bucket in the array of pointers.
  function Head<N>(t: Table<N>, b: nat): int
    requires b < |t|
  {
    if t[b] == [] then -1 else b
  }

  lemma {:induction false} ChainFollows<N>(s: seq<Entry>, t: Table<N>, b: nat, k: nat)
    requires LaidTo(s, t, |t|, 0) && b < |t| && k <= |t[b]|
    ensures Follows(s, if k < |t[b]| then At(t, b, k) else -1, ChainKeysOf(t[b][k..]))
    decreases |t[b]| - k
  {
    if k < |t[b]| {
      assert Laid(s, t, b, k);
      ChainFollows(s, t, b, k + 1);
      assert t[b][k..][1..] == t[b][k + 1..];
    }
  }

  /** The static list of a bucket has the same keys, in the same order, as the dynamic chain. */
  lemma {:induction false} ImageFollows<N>(s: seq<Entry>, t: Table<N>, b: nat)
    requires LaidTo(s, t, |t|, 0) && b < |t|
    ensures Follows(s, Head(t, b), ChainKeysOf(t[b]))
  {
    ChainFollows(s, t, b, 0);
    assert t[b][0..] == t[b];
  }

  lemma {:induction false} LayOne<N>(s: seq<Entry>, t: Table<N>, b: nat, k: nat)
    requires b < |t| && k < |t[b]| && LaidTo(s, t, b, k) && |s| >= |t| + OverFrom(t, 0)
    ensures 0 <= At(t, b, k) < |s|
    ensures var e := Entry(t[b][k].pair.key, if k + 1 < |t[b]| then At(t, b, k + 1) else -1);
            LaidTo(s[At(t, b, k) := e], t, b, k + 1)
  {
    AtBounds(t, b, k);
    var e := Entry(t[b][k].pair.key, if k + 1 < |t[b]| then At(t, b, k + 1) else -1);
    var u := s[At(t, b, k) := e];
    forall d: nat, j: nat | d < |t| && j < |t[d]| && (d < b || (d == b && j < k + 1)) ensures Laid(u, t, d, j) {
      if d != b || j != k {
        assert Laid(s, t, d, j);
        AtApart(t, b, k, d, j);
      }
    }
  }

  /** The array and the pointers to its buckets are the image of the table. */
  ghost predicate Image<N>(s: seq<Entry>, heads: seq<int>, t: Table<N>) {
    && |t| > 0 && |s| == |t| + OverFrom(t, 0) + 1 && |heads| == |s| - 1
    && LaidTo(s, t, |t|, 0)
    && (forall b :: 0 <= b < |t| && t[b] == [] ==> s[b] == Zero)
    && s[|s| - 1] == Entry([], -1)
    && (forall b :: 0 <= b < |heads| ==> heads[b] == if b < |t| then Head(t, b) else -1)
  }

  /** The list a key is looked for in, in a table of n buckets, has the key or not. */
  ghost predicate Reaches(s: seq<Entry>, heads: seq<int>, n: nat, key: Key, present: bool)
    requires 0 < n <= |heads|
  {
    exists keys :: Follows(s, heads[Bucket(key, n)], keys) && (key in keys <==> present)
  }

  /** A request is found at run time exactly if it is in the table and the run-time number of buckets n puts
      it in the bucket it was built into. */
  lemma {:induction false} RequestFound<N>(s: seq<Entry>, heads: seq<int>, t: Table<N>, m: map<Key, Pair>, n: nat,
                           key: Key)
    requires Good(t) && Represents(t, m) && Image(s, heads, t) && 0 < n <= |heads|
    ensures Reaches(s, heads, n, key, key in m && Bucket(key, n) == Bucket(key, |t|))
  {
    var b := Bucket(key, n);
    Lookup(t, m, key);
    if b < |t| {
      ImageFollows(s, t, b);
      var keys := ChainKeysOf(t[b]);
      assert GoodChain(t[b], b, |t|) && Within(t[b], m);
      if Bucket(key, |t|) == b && key in m { assert keys[Find(t[b], key)] == key; }
      assert key in keys <==> key in m && b == Bucket(key, |t|);
    } else {
      assert Follows(s, heads[b], []);
    }
  }

  /** The number of buckets the program creates the table with at run time. */
  function RunTimeBuckets(tot: int): nat {
    if tot < MIN_BUCKETS then MIN_BUCKETS else tot
  }

  lemma {:induction false} OneMoreName(names: seq<Key>, i: nat)
    requires i < |names|
    ensures forall key :: key in names[..i + 1] <==> key in names[..i] || key == names[i]
  {
    assert names[..i + 1] == names[..i] + [names[i]];
  }

  /** Reading the request list: a stated count, then the names. */
  method BuildDispatch(count: int, names: seq<Key>) returns (h: Hash)
    ensures h.Valid() && fresh(h) && fresh(h.all)
    ensures |h.t| == RunTimeBuckets(count)
    ensures forall key :: key in h.m <==> key in names
  {
    h := new Hash(count);
    for i := 0 to |names|
      invariant h.Valid() && fresh(h) && fresh(h.all) && |h.t| == RunTimeBuckets(count)
      invariant forall key :: key in h.m <==> key in names[..i]
    {
      var _ := h.AddHash(Pair(i, names[i], 0), None);
      OneMoreName(names, i);
    }
    assert names[..|names|] == names;
  }

  // How many buckets are empty (v1.c:594-600)
  method CountEmpty(h: Hash) returns (empty: nat)
    requires h.Valid()
    ensures empty == EmptyFrom(h.t, 0)
  {
    empty := 0;
    for i := 0 to h.numBuckets
      invariant empty + EmptyFrom(h.t, i) == EmptyFrom(h.t, 0)
    {
      assert Linked(h.table[i], h.t[i], h.all);
      if h.table[i] == null { empty := empty + 1; }
    }
  }

  // The entries of one bucket's chain (v1.c:618-646)
  method EmitChain(h: Hash, i: nat, start: int, img: array<Entry>) returns (bottom: int)
    requires h.Valid() && i < |h.t| && start == Bottom(h.t, i) && img.Length == |h.t| + OverFrom(h.t, 0) + 1
    requires LaidTo(img[..], h.t, i, 0) && forall b :: 0 <= b < |h.t| && h.t[b] == [] ==> img[b] == Zero
    modifies img
    ensures LaidTo(img[..], h.t, i + 1, 0) && bottom == Bottom(h.t, i + 1)
    ensures forall b :: 0 <= b < |h.t| && h.t[b] == [] ==> img[b] == Zero
  {
    ghost var c, k := h.t[i], 0;
    assert Linked(h.table[i], c, h.all);
    var t := h.table[i];
    var currI: int := i;
    bottom := start;
    while t != null
      invariant k <= |c| && t == IdAt(c, k) && LaidTo(img[..], h.t, i, k)
      invariant k < |c| ==> currI == At(h.t, i, k) && bottom == Bottom(h.t, i) + k
      invariant k == |c| ==> bottom == Bottom(h.t, i + 1)
      invariant forall b :: 0 <= b < |h.t| && h.t[b] == [] ==> img[b] == Zero
      decreases |c| - k
    {
      assert LinkAt(c, k, h.all);
      var nx := -1;
      if t.next != null {
        nx := bottom;
        bottom := bottom + 1;
      }
      AtBounds(h.t, i, k);
      LayOne(img[..], h.t, i, k);
      ghost var was := img[..];
      img[currI] := Entry(t.key, nx);
      assert img[..] == was[currI := Entry(t.key, nx)];
      currI := nx;
      t := t.next;
      k := k + 1;
    }
  }

  // The chains of all buckets
  method EmitChains(h: Hash, img: array<Entry>)
    requires h.Valid() && img.Length == |h.t| + OverFrom(h.t, 0) + 1
    requires forall b :: 0 <= b < img.Length ==> img[b] == Zero
    modifies img
    ensures LaidTo(img[..], h.t, |h.t|, 0)
    ensures forall b :: 0 <= b < |h.t| && h.t[b] == [] ==> img[b] == Zero
  {
    var bottom: int := h.numBuckets;
    for i := 0 to h.numBuckets
      invariant bottom == Bottom(h.t, i) && LaidTo(img[..], h.t, i, 0)
      invariant forall b :: 0 <= b < |h.t| && h.t[b] == [] ==> img[b] == Zero
    {
      bottom := EmitChain(h, i, bottom, img);
    }
  }

  /** The generated image of the table. */
  method Emit(h: Hash) returns (img: array<Entry>, heads: seq<int>)
    requires h.Valid() && |h.t| >= MIN_BUCKETS
    ensures fresh(img) && Image(img[..], heads, h.t)
    ensures 0 < RunTimeBuckets(h.tot) <= |heads|
  {
    ImageSize(h.t, h.m);
    var empty := CountEmpty(h);
    var harr := h.tot + 1 + empty;
    img := new Entry[harr](_ => Zero);
    EmitChains(h, img);
    LayEnd(img[..], h.t, Entry([], -1));
    ghost var was := img[..];
    img[harr - 1] := Entry([], -1);
    assert img[..] == was[harr - 1 := Entry([], -1)];
    heads := EmitHeads(h, harr - 1);
  }

  // The array of pointers to the buckets (v1.c:657-663); what is not listed is NULL.
  method EmitHeads(h: Hash, n: nat) returns (heads: seq<int>)
    requires h.Valid() && |h.t| <= n
    ensures |heads| == n && forall b :: 0 <= b < n ==> heads[b] == if b < |h.t| then Head(h.t, b) else -1
  {
    heads := seq(n, _ => -1);
    for i := 0 to h.numBuckets
      invariant |heads| == n && forall b :: 0 <= b < n ==> heads[b] == if b < i then Head(h.t, b) else -1
    {
      assert Linked(h.table[i], h.t[i], h.all);
      if h.table[i] != null { heads := heads[i := i]; }
    }
  }

  // The terminating entry is beyond all others.
  lemma {:induction false} LayEnd<N>(s: seq<Entry>, t: Table<N>, e: Entry)
    requires LaidTo(s, t, |t|, 0) && |s| == |t| + OverFrom(t, 0) + 1
    ensures LaidTo(s[|s| - 1 := e], t, |t|, 0)
  {
    var u := s[|s| - 1 := e];
    forall d: nat, j: nat | d < |t| && j < |t[d]| ensures Laid(u, t, d, j) {
      assert Laid(s, t, d, j);
      AtBounds(t, d, j);
    }
  }

  /** The names of a list are counted right by its first line and different, as in the lists that vv writes. */
  ghost predicate Counted(count: int, names: seq<Key>) {
    count == |names| && Distinct(names)
  }

  lemma {:induction false} DistinctCount(names: seq<Key>, keys: set<Key>)
    requires Distinct(names) && forall key :: key in keys <==> key in names
    ensures |keys| == |names|
    decreases |names|
  {
    if names == [] {
      assert keys == {};
    } else {
      var init, last := names[..|names| - 1], names[|names| - 1];
      assert names == init + [last] && last !in init;
      DistinctCount(init, keys - {last});
    }
  }

  /** The dispatch table of a list of requests. Where the number of buckets at run time is the one it was built
      with, as with every list counted right, exactly the listed names are found; with another number a listed
      name is found exactly if it falls into the same bucket under both. */
  method SetupReqHash(count: int, names: seq<Key>)
    returns (img: array<Entry>, heads: seq<int>, tot: int, ghost requests: set<Key>)
    ensures fresh(img) && 0 < RunTimeBuckets(tot) <= |heads|
    ensures tot == |requests| && forall key :: key in requests <==> key in names
    ensures Counted(count, names) ==> RunTimeBuckets(count) == RunTimeBuckets(tot)
    ensures RunTimeBuckets(count) == RunTimeBuckets(tot) ==>
              forall key :: Reaches(img[..], heads, RunTimeBuckets(tot), key, key in names)
    ensures var n, built := RunTimeBuckets(tot), RunTimeBuckets(count);
            forall key :: Reaches(img[..], heads, n, key, key in names && Bucket(key, n) == Bucket(key, built))
  {
    var h := BuildDispatch(count, names);
    img, heads := Emit(h);
    tot := h.tot;
    requests := h.m.Keys;
    ghost var n, built := RunTimeBuckets(tot), RunTimeBuckets(count);
    forall key ensures Reaches(img[..], heads, n, key, key in names && Bucket(key, n) == Bucket(key, built)) {
      RequestFound(img[..], heads, h.t, h.m, n, key);
    }
    if Counted(count, names) { DistinctCount(names, requests); }
  }
}
