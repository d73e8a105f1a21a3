/** Chained hash tables of hash.c as values: the hash function, lookup, insertion, removal and traversal.
    An item carries the identity of the list element that holds it. */
module HashModel {
  import opened KeyOrder
  import opened Wrappers
  import opened Sequences

  const OFFSET_BASIS: nat := 2166136261
  const PRIME: nat := 16777619
  const MIN_BUCKETS: nat := 10

  // A char is signed on the supported platforms: a byte from 128 up is extended with ones.
  function Extended(c: Byte): nat {
    if c < 128 then c else c + 0xFFFF_FF00
  }

  function Xor(a: nat, b: nat): nat {
    if a == 0 then b else if b == 0 then a else (a + b) % 2 + 2 * Xor(a / 2, b / 2)
  }

  // One round of the hash function, over 32 bits.
  function Mix(h: nat, c: Byte): nat {
    Xor(h, Extended(c)) * PRIME % 0x1_0000_0000
  }

  /** FNV-1a, starting from h. */
  function Fnv(h: nat, d: Key): nat {
    if |d| == 0 then h else Mix(Fnv(h, d[..|d| - 1]), d[|d| - 1])
  }

  /** A key given in fragments hashes like the whole. */
  lemma {:induction false} FnvFragments(h: nat, a: Key, b: Key)
    ensures Fnv(h, a + b) == Fnv(Fnv(h, a), b)
    decreases |b|
  {
    if |b| == 0 {
      assert a + b == a;
    } else {
      FnvFragments(h, a, b[..|b| - 1]);
      assert (a + b)[..|a + b| - 1] == a + b[..|b| - 1];
    }
  }

  // The fragments of a key list put together.
  function Joined(l: seq<Key>): Key {
    if |l| == 0 then [] else Joined(l[..|l| - 1]) + l[|l| - 1]
  }

  function Bucket(key: Key, size: nat): (r: nat)
    requires size > 0
    ensures r < size
  {
    Fnv(OFFSET_BASIS, key) % size
  }

  // What the user put in: where the key is, the key itself, and the data.
  datatype Pair = Pair(at: nat, key: Key, data: int)
  datatype Cell<N> = Cell(id: N, pair: Pair)
  type Chain<N> = seq<Cell<N>>
  type Table<N> = seq<Chain<N>>

  /** The position of the key in a chain, or the chain's length. */
  function Find<N>(c: Chain<N>, key: Key): (r: nat)
    ensures r <= |c| && (r < |c| ==> c[r].pair.key == key)
    ensures forall k :: 0 <= k < r ==> c[k].pair.key != key
  {
    if c == [] || c[0].pair.key == key then 0 else 1 + Find(c[1..], key)
  }

  // Every item is in the bucket its key selects, and a chain has a key once.
  ghost predicate GoodChain<N>(c: Chain<N>, b: nat, size: nat)
    requires size > 0
  {
    && (forall k :: 0 <= k < |c| ==> Bucket(c[k].pair.key, size) == b)
    && (forall i, j :: 0 <= i < j < |c| ==> c[i].pair.key != c[j].pair.key)
  }

  ghost predicate Good<N>(t: Table<N>) {
    |t| > 0 && forall b {:trigger GoodChain(t[b], b, |t|)} :: 0 <= b < |t| ==> GoodChain(t[b], b, |t|)
  }

  ghost predicate Within<N>(c: Chain<N>, m: map<Key, Pair>) {
    forall k :: 0 <= k < |c| ==> c[k].pair.key in m && m[c[k].pair.key] == c[k].pair
  }

  predicate Has<N>(t: Table<N>, key: Key)
    requires |t| > 0
  {
    Find(t[Bucket(key, |t|)], key) < |t[Bucket(key, |t|)]|
  }

  /** The table holds exactly the pairs of the map. */
  ghost predicate Represents<N>(t: Table<N>, m: map<Key, Pair>) {
    && |t| > 0
    && (forall b {:trigger Within(t[b], m)} :: 0 <= b < |t| ==> Within(t[b], m))
    && (forall key {:trigger Has(t, key)} :: key in m ==> Has(t, key))
  }

  function Blank<N>(size: nat): Table<N> { seq(size, _ => []) }

  /** Insertion: a new key goes to the front of its chain, a known one keeps its place and element. */
  function Put<N>(t: Table<N>, id: N, p: Pair): Table<N>
    requires |t| > 0
  {
    var b := Bucket(p.key, |t|);
    var i := Find(t[b], p.key);
    if i < |t[b]| then t[b := t[b][i := Cell(t[b][i].id, p)]] else t[b := [Cell(id, p)] + t[b]]
  }

  function Remove<N>(t: Table<N>, b: nat, i: nat): Table<N>
    requires b < |t| && i < |t[b]|
  {
    t[b := t[b][..i] + t[b][i + 1..]]
  }

  // ---- Refinement of a finite map ----

  lemma {:induction false} FindSome<N>(c: Chain<N>, key: Key, i: nat)
    requires i < |c| && c[i].pair.key == key
    ensures Find(c, key) < |c|
  {
  }

  lemma {:induction false} FindIs<N>(c: Chain<N>, key: Key, i: nat)
    requires i < |c| && c[i].pair.key == key
    requires forall j :: 0 <= j < i ==> c[j].pair.key != key
    ensures Find(c, key) == i
  {
  }

  lemma {:induction false} FindNot<N>(c: Chain<N>, key: Key)
    requires forall j :: 0 <= j < |c| ==> c[j].pair.key != key
    ensures Find(c, key) == |c|
  {
  }

  lemma {:induction false} Lookup<N>(t: Table<N>, m: map<Key, Pair>, key: Key)
    requires Good(t) && Represents(t, m)
    ensures Has(t, key) <==> key in m
    ensures Has(t, key) ==> var c := t[Bucket(key, |t|)]; c[Find(c, key)].pair == m[key]
  {
    assert Within(t[Bucket(key, |t|)], m);
  }

  // ---- Looking for a list of fragments ----

  /** What a search takes for a match: with a list of fragments any key that starts with them, and nothing if
      there are none. */
  predicate Matches(stored: Key, key: Key, list: Option<seq<Key>>) {
    match list
    case None => stored == key
    case Some(l) => l != [] && Joined(l) <= stored
  }

  function Sought(key: Key, list: Option<seq<Key>>): Key { if list.None? then key else Joined(list.value) }

  /** The position of the first match in a chain, or the chain's length. */
  function FindMatch<N>(c: Chain<N>, key: Key, list: Option<seq<Key>>): (r: nat)
    ensures r <= |c| && (r < |c| ==> Matches(c[r].pair.key, key, list))
    ensures forall k :: 0 <= k < r ==> !Matches(c[k].pair.key, key, list)
  {
    if c == [] || Matches(c[0].pair.key, key, list) then 0 else 1 + FindMatch(c[1..], key, list)
  }

  lemma {:induction false} MatchIs<N>(c: Chain<N>, key: Key, list: Option<seq<Key>>, i: nat)
    requires i <= |c| && (i < |c| ==> Matches(c[i].pair.key, key, list))
    requires forall j :: 0 <= j < i ==> !Matches(c[j].pair.key, key, list)
    ensures FindMatch(c, key, list) == i
  {
  }

  lemma {:induction false} MatchOfKey<N>(c: Chain<N>, key: Key)
    ensures FindMatch(c, key, None) == Find(c, key)
  {
    MatchIs(c, key, None, Find(c, key));
  }

  /** What a search by key or by list finds in a table. */
  function Answer<N>(t: Table<N>, key: Key, list: Option<seq<Key>>): Option<Pair>
    requires |t| > 0
  {
    var c := t[Bucket(Sought(key, list), |t|)];
    var k := FindMatch(c, key, list);
    if k < |c| then Some(c[k].pair) else None
  }

  function LookedUp(m: map<Key, Pair>, key: Key): Option<Pair> { if key in m then Some(m[key]) else None }

  lemma {:induction false} KeyExact<N>(t: Table<N>, m: map<Key, Pair>, key: Key)
    requires Good(t) && Represents(t, m)
    ensures Answer(t, key, None) == LookedUp(m, key)
  {
    MatchOfKey(t[Bucket(key, |t|)], key);
    Lookup(t, m, key);
  }

  /** A search by list finds what a search by the joined key does exactly if no item that comes before it in
      its bucket, or none in the bucket if it is absent, has a longer key starting with it; without fragments,
      exactly if the empty key is absent. */
  lemma {:induction false} ListExact<N>(t: Table<N>, m: map<Key, Pair>, l: seq<Key>)
    requires Good(t) && Represents(t, m)
    ensures var s := Joined(l);
            var c := t[Bucket(s, |t|)];
            Answer(t, s, Some(l)) == LookedUp(m, s) <==>
              if l == [] then s !in m else forall j :: 0 <= j < Find(c, s) ==> !(s <= c[j].pair.key)
  {
    var s := Joined(l);
    var c := t[Bucket(s, |t|)];
    var k := FindMatch(c, s, Some(l));
    Lookup(t, m, s);
    if l != [] {
      if k < Find(c, s) {
        assert c[k].pair.key != s;
        assert Answer(t, s, Some(l)) == Some(c[k].pair);
      } else if s in m {
        MatchIs(c, s, Some(l), Find(c, s));
      }
    }
  }

  /** So a table with the empty key does not find it by a list without fragments. */
  lemma {:induction false} EmptyListFails<N>(t: Table<N>, m: map<Key, Pair>)
    requires Good(t) && Represents(t, m) && [] in m
    ensures Answer(t, [], Some([])) == None != LookedUp(m, [])
  {
  }

  // Keys of any length, each the start of the longer ones
  function Letters(n: nat): Key { seq(n, _ => 97) }

  function Below(n: nat): (s: set<nat>)
    ensures |s| == n && forall b: nat :: b in s <==> b < n
  {
    if n == 0 then {} else Below(n - 1) + {n - 1}
  }

  lemma {:induction false} SubsetSize(a: set<nat>, b: set<nat>)
    requires a <= b
    ensures |a| <= |b|
  {
    assert b == a + (b - a);
  }

  // One of the first n keys is in the bucket.
  ghost predicate Used(b: nat, n: nat, size: nat)
    requires size > 0
  {
    exists k: nat :: k < n && Bucket(Letters(k), size) == b
  }

  // Of more keys than buckets two are in the same one.
  lemma {:induction false} TwoInABucket(size: nat, n: nat, seen: set<nat>) returns (i: nat, j: nat)
    requires size > 0 && |seen| == n && forall b :: b in seen ==> b < size && Used(b, n, size)
    ensures i < j && Bucket(Letters(i), size) == Bucket(Letters(j), size)
    decreases size + 1 - n
  {
    SubsetSize(seen, Below(size));
    var b := Bucket(Letters(n), size);
    if b in seen {
      i :| i < n && Bucket(Letters(i), size) == b;
      j := n;
    } else {
      forall c | c in seen + {b} ensures c < size && Used(c, n + 1, size) {
        if c != b { assert Used(c, n, size); }
      }
      i, j := TwoInABucket(size, n + 1, seen + {b});
    }
  }

  /** And tables of any size can have a longer key found by the fragments of a key that they have. */
  lemma {:induction false} LongerKeyFound<N>(size: nat, x: N, y: N) returns (p: Pair, q: Pair)
    requires size > 0
    ensures p.key < q.key
    ensures var t := Put(Put(Blank(size), x, p), y, q);
            Answer(t, p.key, None) == Some(p) && Answer(t, p.key, Some([p.key])) == Some(q)
  {
    var i, j := TwoInABucket(size, 0, {});
    p, q := Pair(0, Letters(i), 0), Pair(1, Letters(j), 1);
    var b := Bucket(p.key, size);
    var t: Table<N> := Put(Put(Blank(size), x, p), y, q);
    assert t[b] == [Cell(y, q), Cell(x, p)];
    assert [p.key][..0] == [] && Joined([p.key]) == p.key;
    assert p.key <= q.key by { assert Letters(j)[..i] == Letters(i); }
  }

  // Another bucket's chain knows nothing of the key.
  lemma {:induction false} OtherChain<N>(c: Chain<N>, d: nat, size: nat, m: map<Key, Pair>, p: Pair)
    requires size > 0 && GoodChain(c, d, size) && Within(c, m) && Bucket(p.key, size) != d
    ensures Within(c, m[p.key := p]) && Within(c, m - {p.key})
  {
  }

  // A chain with the pair of a known key replaced.
  lemma {:induction false} ReplaceChain<N>(c: Chain<N>, b: nat, size: nat, m: map<Key, Pair>, i: nat, p: Pair)
    requires size > 0 && GoodChain(c, b, size) && Within(c, m) && i < |c| && c[i].pair.key == p.key
    ensures var u := c[i := Cell(c[i].id, p)];
            && GoodChain(u, b, size) && Within(u, m[p.key := p])
            && (forall key :: Find(c, key) < |c| ==> Find(u, key) < |u|)
  {
    var u := c[i := Cell(c[i].id, p)];
    assert forall k :: 0 <= k < |u| ==> u[k].pair.key == c[k].pair.key;
    forall key | Find(c, key) < |c| ensures Find(u, key) < |u| {
      FindSome(u, key, Find(c, key));
    }
  }

  // A chain with a new key in front.
  lemma {:induction false} PrependChain<N>(c: Chain<N>, b: nat, size: nat, m: map<Key, Pair>, id: N, p: Pair)
    requires size > 0 && GoodChain(c, b, size) && Within(c, m) && Bucket(p.key, size) == b && Find(c, p.key) == |c|
    ensures var u := [Cell(id, p)] + c;
            && GoodChain(u, b, size) && Within(u, m[p.key := p])
            && Find(u, p.key) < |u|
            && (forall key :: Find(c, key) < |c| ==> Find(u, key) < |u|)
  {
    var u := [Cell(id, p)] + c;
    assert forall k :: 1 <= k < |u| ==> u[k] == c[k - 1];
    forall key | Find(c, key) < |c| ensures Find(u, key) < |u| {
      FindSome(u, key, Find(c, key) + 1);
    }
  }

  lemma {:induction false} PutMeans<N>(t: Table<N>, m: map<Key, Pair>, id: N, p: Pair)
    requires Good(t) && Represents(t, m)
    ensures Good(Put(t, id, p)) && Represents(Put(t, id, p), m[p.key := p])
  {
    var b := Bucket(p.key, |t|);
    var u := Put(t, id, p);
    assert GoodChain(t[b], b, |t|) && Within(t[b], m);
    if Has(t, p.key) {
      ReplaceChain(t[b], b, |t|, m, Find(t[b], p.key), p);
    } else {
      PrependChain(t[b], b, |t|, m, id, p);
    }
    forall d | 0 <= d < |u| ensures GoodChain(u[d], d, |u|) && Within(u[d], m[p.key := p]) {
      assert GoodChain(t[d], d, |t|) && Within(t[d], m);
      if d != b { OtherChain(t[d], d, |t|, m, p); }
    }
    forall key | key in m[p.key := p] ensures Has(u, key) {
      assert key != p.key ==> Has(t, key);
    }
  }

  lemma {:induction false} RemoveChain<N>(c: Chain<N>, b: nat, size: nat, m: map<Key, Pair>, i: nat)
    requires size > 0 && GoodChain(c, b, size) && Within(c, m) && i < |c|
    ensures var u := c[..i] + c[i + 1..];
            GoodChain(u, b, size) && Within(u, m - {c[i].pair.key})
  {
    var u := c[..i] + c[i + 1..];
    assert forall k :: 0 <= k < |u| ==> u[k] == if k < i then c[k] else c[k + 1];
  }

  lemma {:induction false} RemoveFind<N>(c: Chain<N>, i: nat, key: Key)
    requires i < |c| && key != c[i].pair.key && Find(c, key) < |c|
    ensures Find(c[..i] + c[i + 1..], key) < |c| - 1
  {
    var u, j := c[..i] + c[i + 1..], Find(c, key);
    var k := if j < i then j else j - 1;
    assert u[k] == c[j];
    FindSome(u, key, k);
  }

  lemma {:induction false} RemoveGood<N>(t: Table<N>, b: nat, i: nat)
    requires Good(t) && b < |t| && i < |t[b]|
    ensures Good(Remove(t, b, i))
  {
    var u := Remove(t, b, i);
    assert forall k :: 0 <= k < |u[b]| ==> u[b][k] == if k < i then t[b][k] else t[b][k + 1];
    forall d | 0 <= d < |u| ensures GoodChain(u[d], d, |u|) {
      assert GoodChain(t[d], d, |t|);
    }
  }

  lemma {:induction false} RemoveMeans<N>(t: Table<N>, m: map<Key, Pair>, b: nat, i: nat)
    requires Good(t) && Represents(t, m) && b < |t| && i < |t[b]|
    ensures Good(Remove(t, b, i)) && Represents(Remove(t, b, i), m - {t[b][i].pair.key})
    ensures |m - {t[b][i].pair.key}| == |m| - 1
  {
    var u, p := Remove(t, b, i), t[b][i].pair;
    assert GoodChain(t[b], b, |t|) && Within(t[b], m);
    assert (m - {p.key}).Keys == m.Keys - {p.key};
    RemoveChain(t[b], b, |t|, m, i);
    forall d | 0 <= d < |u| ensures GoodChain(u[d], d, |u|) && Within(u[d], m - {p.key}) {
      assert GoodChain(t[d], d, |t|) && Within(t[d], m);
      if d != b { OtherChain(t[d], d, |t|, m, p); }
    }
    forall key | key in m && key != p.key ensures Has(u, key) {
      assert Has(t, key);
      if Bucket(key, |t|) == b { RemoveFind(t[b], i, key); }
    }
  }

  // ---- Traversal ----

  // The items from bucket d on.
  function Flat<N>(t: Table<N>, d: nat): seq<Cell<N>>
    decreases |t| - d
  {
    if d >= |t| then [] else t[d] + Flat(t, d + 1)
  }

  /** Where a traversal is: in bucket d, before the item at pos of its chain. */
  datatype Place = Place(d: nat, pos: nat)

  predicate Placed<N>(t: Table<N>, w: Place) {
    w.d <= |t| && (w.d < |t| ==> w.pos <= |t[w.d]|)
  }

  /** What a traversal is still going to give. */
  function Pending<N>(t: Table<N>, w: Place): seq<Cell<N>>
    requires Placed(t, w)
  {
    if w.d == |t| then [] else t[w.d][w.pos..] + Flat(t, w.d + 1)
  }

  /** Past exhausted buckets. */
  function Skip<N>(t: Table<N>, w: Place): (r: Place)
    requires Placed(t, w)
    ensures Placed(t, r)
    decreases |t| - w.d
  {
    if w.d == |t| || w.pos < |t[w.d]| then w else Skip(t, Place(w.d + 1, 0))
  }

  function Advance<N>(t: Table<N>, w: Place): (r: Place)
    requires Placed(t, w)
    ensures Placed(t, r)
  {
    var s := Skip(t, w);
    if s.d == |t| || s.pos == |t[s.d]| then s else Place(s.d, s.pos + 1)
  }

  lemma {:induction false} SkipPending<N>(t: Table<N>, w: Place)
    requires Placed(t, w)
    ensures Pending(t, Skip(t, w)) == Pending(t, w)
    ensures Skip(t, w).d < |t| ==> Skip(t, w).pos < |t[Skip(t, w).d]|
    decreases |t| - w.d
  {
    if w.d < |t| && w.pos == |t[w.d]| {
      assert Pending(t, w) == Flat(t, w.d + 1);
      if w.d + 1 < |t| {
        assert Pending(t, Place(w.d + 1, 0)) == Flat(t, w.d + 1);
      }
      SkipPending(t, Place(w.d + 1, 0));
    }
  }

  lemma {:induction false} TailBehind<T>(a: seq<T>, pos: nat, b: seq<T>)
    requires pos < |a|
    ensures (a[pos..] + b)[0] == a[pos] && (a[pos..] + b)[1..] == a[pos + 1..] + b
  {
  }

  /** One step takes the first of what is still to come; with nothing to come the place is the end. */
  lemma {:induction false} AdvancePending<N>(t: Table<N>, w: Place)
    requires Placed(t, w)
    ensures var s := Skip(t, w); var p := Pending(t, w);
            && (s.d == |t| <==> p == [])
            && (p != [] ==> s.pos < |t[s.d]| && p[0] == t[s.d][s.pos])
            && Pending(t, Advance(t, w)) == if p == [] then [] else p[1..]
  {
    SkipPending(t, w);
    var s := Skip(t, w);
    if s.d < |t| {
      TailBehind(t[s.d], s.pos, Flat(t, s.d + 1));
    }
  }

  /** Removing an item moves the place along with the item it is before. */
  function AfterRemove(w: Place, b: nat, i: nat): Place {
    if b == w.d && i < w.pos then w.(pos := w.pos - 1) else w
  }

  // The items other than the key's.
  function Without<N>(s: seq<Cell<N>>, key: Key): (r: seq<Cell<N>>)
    ensures forall i :: 0 <= i < |r| ==> r[i] in s && r[i].pair.key != key
  {
    if s == [] then [] else if s[0].pair.key == key then Without(s[1..], key) else [s[0]] + Without(s[1..], key)
  }

  lemma {:induction false} WithoutNone<N>(s: seq<Cell<N>>, key: Key)
    requires forall i :: 0 <= i < |s| ==> s[i].pair.key != key
    ensures Without(s, key) == s
    decreases |s|
  {
    if s != [] {
      assert s[0].pair.key != key;
      WithoutNone(s[1..], key);
    }
  }

  lemma {:induction false} WithoutJoins<N>(s: seq<Cell<N>>, u: seq<Cell<N>>, key: Key)
    ensures Without(s + u, key) == Without(s, key) + Without(u, key)
    decreases |s|
  {
    if s == [] {
      assert s + u == u;
    } else {
      assert (s + u)[1..] == s[1..] + u;
      WithoutJoins(s[1..], u, key);
    }
  }

  // A chain without the item at i, seen from a position behind it
  lemma {:induction false} WithoutEarlier<N>(c: Chain<N>, i: nat, p: nat)
    requires i < p <= |c|
    requires forall k :: 0 <= k < |c| && k != i ==> c[k].pair.key != c[i].pair.key
    ensures (c[..i] + c[i + 1..])[p - 1..] == Without(c[p..], c[i].pair.key)
  {
    WithoutNone(c[p..], c[i].pair.key);
    assert (c[..i] + c[i + 1..])[p - 1..] == c[p..];
  }

  // The same, seen from a position not behind it
  lemma {:induction false} WithoutLater<N>(c: Chain<N>, i: nat, p: nat)
    requires p <= i < |c|
    requires forall k :: 0 <= k < |c| && k != i ==> c[k].pair.key != c[i].pair.key
    ensures (c[..i] + c[i + 1..])[p..] == Without(c[p..], c[i].pair.key)
  {
    var key, a, b := c[i].pair.key, c[p..i], c[i + 1..];
    assert Without(c[p..], key) == a + b by {
      assert c[p..] == a + ([c[i]] + b);
      WithoutJoins(a, [c[i]] + b, key);
      WithoutNone(a, key);
      WithoutNone(b, key);
      assert ([c[i]] + b)[1..] == b;
    }
    assert (c[..i] + b)[p..] == a + b;
  }

  lemma {:induction false} WithoutOne<N>(c: Chain<N>, i: nat, p: nat)
    requires i < |c| && p <= |c|
    requires forall k :: 0 <= k < |c| && k != i ==> c[k].pair.key != c[i].pair.key
    ensures (c[..i] + c[i + 1..])[if i < p then p - 1 else p..] == Without(c[p..], c[i].pair.key)
  {
    if i < p { WithoutEarlier(c, i, p); } else { WithoutLater(c, i, p); }
  }

  // The part of a chain from position p on, and another chain, when an item is removed.
  lemma {:induction false} ChainRemove<N>(t: Table<N>, b: nat, i: nat, d: nat, p: nat)
    requires Good(t) && b < |t| && i < |t[b]| && d < |t| && p <= |t[d]|
    ensures var q := if d == b && i < p then p - 1 else p;
            q <= |Remove(t, b, i)[d]| && Remove(t, b, i)[d][q..] == Without(t[d][p..], t[b][i].pair.key)
  {
    var key := t[b][i].pair.key;
    assert GoodChain(t[b], b, |t|) && GoodChain(t[d], d, |t|);
    if d == b {
      WithoutOne(t[b], i, p);
    } else {
      WithoutNone(t[d][p..], key);
    }
  }

  lemma {:induction false} FlatRemove<N>(t: Table<N>, b: nat, i: nat, d: nat)
    requires Good(t) && b < |t| && i < |t[b]|
    ensures Flat(Remove(t, b, i), d) == Without(Flat(t, d), t[b][i].pair.key)
    decreases |t| - d
  {
    if d < |t| {
      FlatRemove(t, b, i, d + 1);
      WithoutJoins(t[d], Flat(t, d + 1), t[b][i].pair.key);
      ChainRemove(t, b, i, d, 0);
      assert t[d][0..] == t[d] && Remove(t, b, i)[d][0..] == Remove(t, b, i)[d];
    }
  }

  /** Removing any item while traversing takes just that item from what is still going to come. */
  lemma {:induction false} RemovePending<N>(t: Table<N>, w: Place, b: nat, i: nat)
    requires Good(t) && Placed(t, w) && b < |t| && i < |t[b]|
    ensures Placed(Remove(t, b, i), AfterRemove(w, b, i))
    ensures Pending(Remove(t, b, i), AfterRemove(w, b, i)) == Without(Pending(t, w), t[b][i].pair.key)
  {
    if w.d < |t| {
      FlatRemove(t, b, i, w.d + 1);
      WithoutJoins(t[w.d][w.pos..], Flat(t, w.d + 1), t[b][i].pair.key);
      ChainRemove(t, b, i, w.d, w.pos);
    }
  }

  // A place keeps before its item when a key is put.
  function AfterPut<N>(t: Table<N>, w: Place, key: Key): Place
    requires |t| > 0
  {
    if !Has(t, key) && w.d == Bucket(key, |t|) then w.(pos := w.pos + 1) else w
  }

  // ---- Whole traversals ----

  function KeySet<N>(s: seq<Cell<N>>): set<Key> {
    if s == [] then {} else {s[0].pair.key} + KeySet(s[1..])
  }

  predicate NoRepeat<N>(s: seq<Cell<N>>) {
    s == [] || (s[0].pair.key !in KeySet(s[1..]) && NoRepeat(s[1..]))
  }

  lemma {:induction false} ChainKeys<N>(c: Chain<N>, key: Key)
    ensures key in KeySet(c) <==> Find(c, key) < |c|
    decreases |c|
  {
    if c != [] { ChainKeys(c[1..], key); }
  }

  lemma {:induction false} ChainNoRepeat<N>(c: Chain<N>)
    requires forall i, j :: 0 <= i < j < |c| ==> c[i].pair.key != c[j].pair.key
    ensures NoRepeat(c)
    decreases |c|
  {
    if c != [] {
      ChainNoRepeat(c[1..]);
      ChainKeys(c[1..], c[0].pair.key);
    }
  }

  lemma {:induction false} JoinKeys<N>(a: seq<Cell<N>>, b: seq<Cell<N>>)
    ensures KeySet(a + b) == KeySet(a) + KeySet(b)
    ensures NoRepeat(a) && NoRepeat(b) && KeySet(a) !! KeySet(b) ==> NoRepeat(a + b)
    decreases |a|
  {
    if a == [] {
      assert a + b == b;
    } else {
      assert (a + b)[1..] == a[1..] + b;
      JoinKeys(a[1..], b);
    }
  }

  lemma {:induction false} BucketKeys<N>(t: Table<N>, d: nat)
    requires |t| > 0 && d < |t| && GoodChain(t[d], d, |t|)
    ensures forall key :: key in KeySet(t[d]) <==> Has(t, key) && Bucket(key, |t|) == d
  {
    forall key ensures key in KeySet(t[d]) <==> Has(t, key) && Bucket(key, |t|) == d {
      ChainKeys(t[d], key);
    }
  }

  /** The items from bucket d on have different keys: those of the table that belong there. */
  lemma {:induction false} FlatKeys<N>(t: Table<N>, d: nat)
    requires Good(t)
    ensures NoRepeat(Flat(t, d))
    ensures forall key :: key in KeySet(Flat(t, d)) <==> Has(t, key) && Bucket(key, |t|) >= d
    decreases |t| - d
  {
    if d < |t| {
      FlatKeys(t, d + 1);
      assert GoodChain(t[d], d, |t|);
      ChainNoRepeat(t[d]);
      BucketKeys(t, d);
      JoinKeys(t[d], Flat(t, d + 1));
    }
  }

  lemma {:induction false} WithoutKeys<N>(s: seq<Cell<N>>, key: Key)
    requires NoRepeat(s)
    ensures NoRepeat(Without(s, key)) && KeySet(Without(s, key)) == KeySet(s) - {key}
    decreases |s|
  {
    if s != [] {
      WithoutKeys(s[1..], key);
      if s[0].pair.key != key {
        assert Without(s, key)[1..] == Without(s[1..], key);
      }
    }
  }

  // The items of a chain from a position on: those found there or later
  lemma {:induction false} ChainSuffix<N>(c: Chain<N>, pos: nat, key: Key)
    requires pos <= |c| && forall i, j :: 0 <= i < j < |c| ==> c[i].pair.key != c[j].pair.key
    ensures key in KeySet(c[pos..]) <==> pos <= Find(c, key) < |c|
    ensures NoRepeat(c[pos..])
  {
    var u := c[pos..];
    ChainNoRepeat(u);
    ChainKeys(u, key);
    if Find(u, key) < |u| {
      assert c[pos + Find(u, key)].pair.key == key;
      FindIs(c, key, pos + Find(u, key));
    } else if pos <= Find(c, key) < |c| {
      FindSome(u, key, Find(c, key) - pos);
    }
  }

  /** A key is still to come exactly if it is in the table and the traversal is not past it. */
  ghost predicate Ahead<N>(t: Table<N>, w: Place, key: Key)
    requires |t| > 0
  {
    var b := Bucket(key, |t|);
    Has(t, key) && (w.d < b || (w.d == b && w.pos <= Find(t[b], key)))
  }

  lemma {:induction false} PendingKey<N>(t: Table<N>, w: Place, key: Key)
    requires Good(t) && Placed(t, w)
    ensures NoRepeat(Pending(t, w))
    ensures key in KeySet(Pending(t, w)) <==> Ahead(t, w, key)
  {
    FlatKeys(t, w.d + 1);
    if w.d < |t| {
      assert GoodChain(t[w.d], w.d, |t|);
      var c, u := t[w.d], Flat(t, w.d + 1);
      forall k ensures k in KeySet(c[w.pos..]) ==> w.d == Bucket(k, |t|) {
        ChainSuffix(c, w.pos, k);
      }
      ChainSuffix(c, w.pos, key);
      JoinKeys(c[w.pos..], u);
    }
  }

  lemma {:induction false} SkipOn<N>(t: Table<N>, w: Place)
    requires Placed(t, w)
    ensures w.d <= Skip(t, w).d
    decreases |t| - w.d
  {
    if w.d < |t| && w.pos == |t[w.d]| { SkipOn(t, Place(w.d + 1, 0)); }
  }

  /** A step gives a key that was ahead, and nothing else changes. */
  lemma {:induction false} NextAhead<N>(t: Table<N>, w: Place, key: Key)
    requires Good(t) && Placed(t, w)
    ensures var p, v := Pending(t, w), Advance(t, w);
            && w.d <= v.d
            && (Ahead(t, v, key) <==> Ahead(t, w, key) && p != [] && key != p[0].pair.key)
            && (p != [] ==> Ahead(t, w, p[0].pair.key) && Bucket(p[0].pair.key, |t|) == v.d)
            && (p == [] ==> !Ahead(t, w, key))
  {
    var p, v := Pending(t, w), Advance(t, w);
    AdvancePending(t, w);
    SkipOn(t, w);
    PendingKey(t, w, key);
    PendingKey(t, v, key);
    if p != [] {
      PendingKey(t, w, p[0].pair.key);
      assert GoodChain(t[v.d], v.d, |t|);
    }
  }

  /** What is done between two calls: a step of the traversal, a deletion, or an addition. */
  datatype Event<N> = Next | Drop(key: Key) | Add(id: N, p: Pair)

  /** A traversal: the table, the place in it, and the keys given so far. */
  datatype Walk<N> = Walk(t: Table<N>, w: Place, given: seq<Key>)

  // The items still to come.
  function Left<N>(x: Walk<N>): seq<Cell<N>>
    requires Placed(x.t, x.w)
  {
    Pending(x.t, x.w)
  }

  /** No key was given twice, and none is going to be given again: the traversal is past it, wherever it is put. */
  ghost predicate Walking<N>(x: Walk<N>) {
    && Good(x.t) && Placed(x.t, x.w) && Distinct(x.given)
    && (forall key {:trigger Ahead(x.t, x.w, key)} ::
          key in x.given ==> Bucket(key, |x.t|) <= x.w.d && !Ahead(x.t, x.w, key))
  }

  ghost predicate Accounted<N>(x: Walk<N>, key: Key)
    requires |x.t| > 0
  {
    key in x.given || Ahead(x.t, x.w, key)
  }

  function StepWalk<N>(x: Walk<N>, e: Event<N>): Walk<N>
    requires |x.t| > 0 && Placed(x.t, x.w)
  {
    match e
    case Next =>
      Walk(x.t, Advance(x.t, x.w), if Left(x) == [] then x.given else x.given + [Left(x)[0].pair.key])
    case Drop(key) =>
      var b := Bucket(key, |x.t|);
      if Has(x.t, key)
      then Walk(Remove(x.t, b, Find(x.t[b], key)), AfterRemove(x.w, b, Find(x.t[b], key)), x.given)
      else x
    case Add(id, p) => Walk(Put(x.t, id, p), AfterPut(x.t, x.w, p.key), x.given)
  }

  lemma {:induction false} GiveOne(given: seq<Key>, key: Key)
    requires Distinct(given) && key !in given
    ensures Distinct(given + [key]) && forall k :: k in given + [key] <==> k in given || k == key
  {
  }

  lemma {:induction false} NextWalks<N>(x: Walk<N>)
    requires Walking(x)
    ensures var y := StepWalk(x, Next);
            && Walking(y) && x.given <= y.given
            && (forall key {:trigger Accounted(y, key)} :: Accounted(x, key) ==> Accounted(y, key))
  {
    var y, p := StepWalk(x, Next), Left(x);
    NextAhead(x.t, x.w, []);
    if p != [] { GiveOne(x.given, p[0].pair.key); }
    forall key
      ensures key in y.given ==> Bucket(key, |y.t|) <= y.w.d && !Ahead(y.t, y.w, key)
      ensures Accounted(x, key) ==> Accounted(y, key)
    {
      NextAhead(x.t, x.w, key);
    }
  }

  lemma {:induction false} DropAhead<N>(t: Table<N>, w: Place, b: nat, i: nat, key: Key)
    requires Good(t) && Placed(t, w) && b < |t| && i < |t[b]|
    ensures Placed(Remove(t, b, i), AfterRemove(w, b, i)) && AfterRemove(w, b, i).d == w.d
    ensures Ahead(Remove(t, b, i), AfterRemove(w, b, i), key) <==> Ahead(t, w, key) && key != t[b][i].pair.key
  {
    RemoveGood(t, b, i);
    RemovePending(t, w, b, i);
    PendingKey(t, w, key);
    WithoutKeys(Pending(t, w), t[b][i].pair.key);
    PendingKey(Remove(t, b, i), AfterRemove(w, b, i), key);
  }

  lemma {:induction false} DropWalks<N>(x: Walk<N>, key: Key)
    requires Walking(x)
    ensures var y := StepWalk(x, Drop(key));
            && Walking(y) && x.given == y.given
            && (forall k {:trigger Accounted(y, k)} :: Accounted(x, k) && k != key ==> Accounted(y, k))
  {
    if Has(x.t, key) {
      var b := Bucket(key, |x.t|);
      var i := Find(x.t[b], key);
      var y := StepWalk(x, Drop(key));
      RemoveGood(x.t, b, i);
      DropAhead(x.t, x.w, b, i, key);
      forall k
        ensures k in y.given ==> Bucket(k, |y.t|) <= y.w.d && !Ahead(y.t, y.w, k)
        ensures Accounted(x, k) && k != key ==> Accounted(y, k)
      {
        DropAhead(x.t, x.w, b, i, k);
        assert Accounted(x, k) <==> k in x.given || Ahead(x.t, x.w, k);
      }
    }
  }

  lemma {:induction false} PutGood<N>(t: Table<N>, id: N, p: Pair)
    requires Good(t)
    ensures Good(Put(t, id, p))
  {
    var b := Bucket(p.key, |t|);
    var u: Table<N> := Put(t, id, p);
    assert GoodChain(t[b], b, |t|);
    if Has(t, p.key) {
      assert forall k :: 0 <= k < |u[b]| ==> u[b][k].pair.key == t[b][k].pair.key;
    } else {
      assert forall k :: 1 <= k < |u[b]| ==> u[b][k] == t[b][k - 1];
    }
    forall d | 0 <= d < |u| ensures GoodChain(u[d], d, |u|) {
      assert GoodChain(t[d], d, |t|);
    }
  }

  // Two chains with the same keys in the same places
  lemma {:induction false} SameKeys<N>(c: Chain<N>, u: Chain<N>, key: Key)
    requires |c| == |u| && forall k :: 0 <= k < |c| ==> c[k].pair.key == u[k].pair.key
    ensures Find(c, key) == Find(u, key)
    decreases |c|
  {
    if c != [] { SameKeys(c[1..], u[1..], key); }
  }

  /** An addition changes nothing about the other keys. A new key is going to come exactly if its bucket has not
      been reached yet; a known one stays where it is. */
  lemma {:induction false} PutAhead<N>(t: Table<N>, w: Place, id: N, p: Pair, key: Key)
    requires Good(t) && Placed(t, w)
    ensures Placed(Put(t, id, p), AfterPut(t, w, p.key)) && |Put(t, id, p)| == |t| && AfterPut(t, w, p.key).d == w.d
    ensures Ahead(Put(t, id, p), AfterPut(t, w, p.key), key) <==>
              if key == p.key && !Has(t, key) then w.d < Bucket(key, |t|) else Ahead(t, w, key)
  {
    var b := Bucket(p.key, |t|);
    var u := Put(t, id, p);
    if Has(t, p.key) {
      SameKeys(t[b], u[b], key);
    } else {
      assert u[b][1..] == t[b];
    }
  }

  lemma {:induction false} AddWalks<N>(x: Walk<N>, id: N, p: Pair)
    requires Walking(x)
    ensures var y := StepWalk(x, Add(id, p));
            && Walking(y) && x.given == y.given
            && (forall k {:trigger Accounted(y, k)} :: Accounted(x, k) ==> Accounted(y, k))
  {
    var y := StepWalk(x, Add(id, p));
    PutGood(x.t, id, p);
    PutAhead(x.t, x.w, id, p, p.key);
    forall k
      ensures k in y.given ==> Bucket(k, |y.t|) <= y.w.d && !Ahead(y.t, y.w, k)
      ensures Accounted(x, k) ==> Accounted(y, k)
    {
      assert k in x.given ==> Bucket(k, |x.t|) <= x.w.d && !Ahead(x.t, x.w, k);
      PutAhead(x.t, x.w, id, p, k);
      assert Accounted(x, k) <==> k in x.given || Ahead(x.t, x.w, k);
    }
  }

  lemma {:induction false} StepWalks<N>(x: Walk<N>, e: Event<N>)
    requires Walking(x)
    ensures var y := StepWalk(x, e);
            && Walking(y) && x.given <= y.given
            && (forall key {:trigger Accounted(y, key)} :: Accounted(x, key) && e != Drop(key) ==> Accounted(y, key))
  {
    match e
    case Next => NextWalks(x);
    case Drop(key) => DropWalks(x, key);
    case Add(id, p) => AddWalks(x, id, p);
  }

  ghost function RunWalk<N>(x: Walk<N>, es: seq<Event<N>>): (y: Walk<N>)
    requires Walking(x)
    ensures Walking(y) && x.given <= y.given
    decreases |es|
  {
    if es == [] then x
    else
      StepWalks(x, es[0]);
      RunWalk(StepWalk(x, es[0]), es[1..])
  }

  lemma {:induction false} RunAccounts<N>(x: Walk<N>, es: seq<Event<N>>, key: Key)
    requires Walking(x) && Accounted(x, key) && Drop(key) !in es
    ensures Accounted(RunWalk(x, es), key)
    decreases |es|
  {
    if es != [] {
      StepWalks(x, es[0]);
      assert es[0] in es && forall e :: e in es[1..] ==> e in es;
      assert Accounted(StepWalk(x, es[0]), key);
      RunAccounts(StepWalk(x, es[0]), es[1..], key);
    }
  }

  function Rewound<N>(t: Table<N>): Walk<N> { Walk(t, Place(0, 0), []) }

  lemma {:induction false} RewoundWalks<N>(t: Table<N>)
    requires Good(t)
    ensures Walking(Rewound(t))
    ensures forall key :: Has(t, key) <==> Ahead(t, Place(0, 0), key)
  {
  }

  /** However deletions and additions are mixed into a traversal: no key comes twice, and once nothing is left to
      come, every key that the table had at the start and that was not deleted has come. */
  lemma {:induction false} TraversalComplete<N>(t: Table<N>, es: seq<Event<N>>)
    requires Good(t)
    ensures Walking(Rewound(t))
    ensures var y := RunWalk(Rewound(t), es);
            && Distinct(y.given)
            && (Left(y) == [] ==>
                  forall key {:trigger key in y.given} :: Has(t, key) && Drop(key) !in es ==> key in y.given)
  {
    RewoundWalks(t);
    var y := RunWalk(Rewound(t), es);
    forall key | Left(y) == [] && Has(t, key) && Drop(key) !in es ensures key in y.given {
      assert Accounted(Rewound(t), key);
      RunAccounts(Rewound(t), es, key);
      PendingKey(y.t, y.w, key);
    }
  }

  // ---- Copying a table item by item ----

  // What has been copied when some of the items are left
  function Copied<N>(m: map<Key, Pair>, left: seq<Cell<N>>): map<Key, Pair> {
    map key | key in m && key !in KeySet(left) :: m[key]
  }

  lemma {:induction false} FlatWithin<N>(t: Table<N>, m: map<Key, Pair>, d: nat)
    requires Good(t) && Represents(t, m)
    ensures Within(Flat(t, d), m)
    decreases |t| - d
  {
    if d < |t| {
      FlatWithin(t, m, d + 1);
      assert Within(t[d], m);
    }
  }

  lemma {:induction false} PendingWithin<N>(t: Table<N>, m: map<Key, Pair>, w: Place)
    requires Good(t) && Represents(t, m) && Placed(t, w)
    ensures Within(Pending(t, w), m)
  {
    if w.d < |t| {
      FlatWithin(t, m, w.d + 1);
      assert Within(t[w.d], m);
    }
  }

  lemma {:induction false} CopyStart<N>(t: Table<N>, m: map<Key, Pair>)
    requires Good(t) && Represents(t, m)
    ensures Copied(m, Pending(t, Place(0, 0))) == map[]
  {
    FlatKeys(t, 0);
    assert Pending(t, Place(0, 0)) == Flat(t, 0);
    assert forall key :: key in m ==> Has(t, key);
  }

  lemma {:induction false} OneCopied<N>(m: map<Key, Pair>, left: seq<Cell<N>>)
    requires Within(left, m) && NoRepeat(left) && left != []
    ensures var p := left[0].pair; Copied(m, left[1..]) == Copied(m, left)[p.key := p]
  {
    assert left[0].pair.key in m;
    assert KeySet(left) == {left[0].pair.key} + KeySet(left[1..]);
  }

  // One step of the traversal, whose item is copied
  lemma {:induction false} CopyStep<N>(t: Table<N>, m: map<Key, Pair>, w: Place)
    requires Good(t) && Represents(t, m) && Placed(t, w)
    ensures var left := Pending(t, w); var more := Pending(t, Advance(t, w));
            if left == [] then more == []
            else |more| < |left| && Copied(m, more) == Copied(m, left)[left[0].pair.key := left[0].pair]
  {
    AdvancePending(t, w);
    PendingWithin(t, m, w);
    if Pending(t, w) != [] {
      PendingKey(t, w, Pending(t, w)[0].pair.key);
      OneCopied(m, Pending(t, w));
    }
  }

  lemma {:induction false} CopyEnd<N>(m: map<Key, Pair>, left: seq<Cell<N>>)
    requires left == []
    ensures Copied(m, left) == m
  {
  }
}
