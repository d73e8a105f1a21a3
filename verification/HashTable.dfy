/** The hash table of hash.c: buckets of linked elements, changed in place. */
module HashTable {
  import opened KeyOrder
  import opened HashModel
  import opened Wrappers

  // vely_hash_table, an element of a bucket's list
  class Element {
    var at: nat
    var key: Key
    var data: int
    var next: Element?

    constructor (p: Pair, n: Element?)
      ensures Carries(this, p) && next == n
    {
      at, key, data, next := p.at, p.key, p.data, n;
    }
  }

  predicate Carries(e: Element, p: Pair)
    reads e
  {
    e.at == p.at && e.key == p.key && e.data == p.data
  }

  /** The element at a position of a chain; NULL past its end. */
  function IdAt(c: Chain<Element>, k: nat): Element? {
    if k < |c| then c[k].id else null
  }

  // Position k of a chain as it is in the heap.
  ghost predicate LinkAt(c: Chain<Element>, k: nat, all: set<Element>)
    requires k < |c|
    reads all
  {
    c[k].id in all && Carries(c[k].id, c[k].pair) && c[k].id.next == IdAt(c, k + 1)
  }

  /** The list starting at e is the chain. */
  ghost predicate Linked(e: Element?, c: Chain<Element>, all: set<Element>)
    reads all
  {
    e == IdAt(c, 0) && forall k: nat :: k < |c| ==> LinkAt(c, k, all)
  }

  // An element is in one place of one chain.
  lemma {:induction false} Apart(t: Table<Element>, all: set<Element>, b: nat, i: nat, d: nat, j: nat)
    requires Good(t) && b < |t| && i < |t[b]| && d < |t| && j < |t[d]|
    requires LinkAt(t[b], i, all) && LinkAt(t[d], j, all) && t[b][i].id == t[d][j].id
    ensures b == d && i == j
  {
    assert GoodChain(t[b], b, |t|) && GoodChain(t[d], d, |t|);
    assert t[b][i].pair.key == t[d][j].pair.key;
  }

  lemma {:induction false} ApartFromAll(table: seq<Element?>, t: Table<Element>, all: set<Element>, b: nat, i: nat)
    requires Good(t) && |table| == |t| && (forall d :: 0 <= d < |t| ==> Linked(table[d], t[d], all))
    requires b < |t| && i < |t[b]|
    ensures forall d, j :: 0 <= d < |t| && 0 <= j < |t[d]| && t[d][j].id == t[b][i].id ==> d == b && j == i
  {
    forall d, j | 0 <= d < |t| && 0 <= j < |t[d]| && t[d][j].id == t[b][i].id ensures d == b && j == i {
      assert Linked(table[b], t[b], all) && Linked(table[d], t[d], all);
      assert LinkAt(t[b], i, all) && LinkAt(t[d], j, all);
      Apart(t, all, b, i, d, j);
    }
  }

  // What a place is before, when an item is removed.
  lemma {:induction false} CurrentAfterRemove(t: Table<Element>, w: Place, b: nat, i: nat)
    requires Placed(t, w) && b < |t| && i < |t[b]|
    ensures Placed(Remove(t, b, i), AfterRemove(w, b, i))
    ensures w.d < |t| ==> IdAt(Remove(t, b, i)[w.d], AfterRemove(w, b, i).pos)
                          == IdAt(t[w.d], if w == Place(b, i) then i + 1 else w.pos)
  {
  }

  // What a place is before, when a new key is put.
  lemma {:induction false} CurrentAfterPut(t: Table<Element>, w: Place, e: Element, p: Pair)
    requires |t| > 0 && Placed(t, w) && !Has(t, p.key)
    ensures Placed(Put(t, e, p), AfterPut(t, w, p.key)) && AfterPut(t, w, p.key).d == w.d
    ensures w.d < |t| ==> IdAt(Put(t, e, p)[w.d], AfterPut(t, w, p.key).pos) == IdAt(t[w.d], w.pos)
  {
  }

  /** vely_compute_hash: over the key, or over the fragments of a key list if there is one. */
  method ComputeHash(d: Key, dlist: Option<seq<Key>>, size: nat) returns (r: nat)
    requires size > 0
    ensures r == Bucket(if dlist.None? then d else Joined(dlist.value), size)
  {
    var h := OFFSET_BASIS;
    if dlist.None? {
      h := HashOne(h, d);
    } else {
      var l := dlist.value;
      for k := 0 to |l|
        invariant h == Fnv(OFFSET_BASIS, Joined(l[..k]))
      {
        FnvFragments(OFFSET_BASIS, Joined(l[..k]), l[k]);
        h := HashOne(h, l[k]);
        assert l[..k + 1][..k] == l[..k];
      }
      assert l[..|l|] == l;
    }
    return h % size;
  }

  method HashOne(start: nat, d: Key) returns (h: nat)
    ensures h == Fnv(start, d)
  {
    h := start;
    for i := 0 to |d|
      invariant h == Fnv(start, d[..i])
    {
      h := Mix(h, d[i]);
      assert d[..i + 1][..i] == d[..i];
    }
    assert d[..|d|] == d;
  }

  // Whether an element matches (hash.c:144-167)
  method IsMatch(stored: Key, key: Key, list: Option<seq<Key>>) returns (r: bool)
    ensures r == Matches(stored, key, list)
  {
    if list.None? { return key == stored; }
    var l := list.value;
    if l == [] { return false; }
    var totLen := 0;
    for di := 0 to |l|
      invariant totLen == |Joined(l[..di])| && Joined(l[..di]) <= stored
    {
      var end := totLen + |l[di]|;
      assert l[..di + 1][..di] == l[..di];
      if end > |stored| || stored[totLen..end] != l[di] {
        PrefixGrows(l, di + 1);
        assert Joined(l[..di + 1])[totLen..] == l[di];
        return false;
      }
      assert stored[..end] == stored[..totLen] + stored[totLen..end];
      totLen := end;
    }
    assert l[..|l|] == l;
    r := true;
  }

  lemma {:induction false} PrefixGrows(l: seq<Key>, n: nat)
    requires n <= |l|
    ensures Joined(l[..n]) <= Joined(l)
    decreases |l| - n
  {
    if n == |l| {
      assert l[..n] == l;
    } else {
      assert l[..n + 1][..n] == l[..n];
      PrefixGrows(l, n + 1);
    }
  }

  class Hash {
    var numBuckets: nat
    var table: seq<Element?>
    var dnext: nat
    var dcurr: Element?
    var tot: int
    var hits: nat
    var reads_: nat
    ghost var t: Table<Element>       // the chains
    ghost var m: map<Key, Pair>       // what the table means
    ghost var w: Place                // where the traversal is
    ghost var all: set<Element>       // the elements in use

    // The buckets' lists are the chains, and no element in use is outside of them.
    ghost predicate Stored()
      reads this`numBuckets, this`table, this`tot, this`t, this`m, this`all, all
    {
      && Good(t) && Represents(t, m) && tot == |m| == |all|
      && numBuckets == |table| == |t|
      && (forall b :: 0 <= b < |t| ==> Linked(table[b], t[b], all))
    }

    // The current element is the one the traversal is before.
    ghost predicate Traversing()
      reads this`dnext, this`dcurr, this`t, this`w
    {
      Placed(t, w) && dnext == w.d && dcurr == if w.d < |t| then IdAt(t[w.d], w.pos) else null
    }

    ghost predicate Valid()
      reads this`numBuckets, this`table, this`tot, this`t, this`m, this`all, all
      reads this`dnext, this`dcurr, this`w
    {
      Stored() && Traversing()
    }

    // vely_create_hash
    constructor (size: int)
      ensures Valid() && m == map[] && w == Place(0, 0) && all == {}
      ensures numBuckets == (if size < MIN_BUCKETS then MIN_BUCKETS else size) && t == Blank(numBuckets)
      ensures hits == reads_ == 0
    {
      var n: nat := if size < MIN_BUCKETS then MIN_BUCKETS else size;
      numBuckets, table, tot, hits, reads_ := n, seq(n, _ => null), 0, 0, 0;
      dnext, dcurr := 0, null;
      t, m, w, all := Blank(n), map[], Place(0, 0), {};
    }

    // vely_rewind_hash
    method Rewind()
      requires Valid()
      modifies this`dnext, this`dcurr, this`w
      ensures Valid() && w == Place(0, 0)
    {
      dnext := 0;
      dcurr := table[0];
      w := Place(0, 0);
    }

    // The loop of vely_next_hash (hash.c:278-283), past exhausted buckets
    method SkipEmpty()
      requires Traversing() && w.d < |t| && numBuckets == |table| == |t|
      requires forall b :: 0 <= b < |t| ==> table[b] == IdAt(t[b], 0)
      modifies this`dnext, this`dcurr, this`w
      ensures Traversing() && w == Skip(t, old(w))
    {
      while dcurr == null
        invariant Traversing() && w.d < |t| && Skip(t, w) == Skip(t, old(w))
        decreases |t| - w.d
      {
        dnext := dnext + 1;
        w := Place(w.d + 1, 0);
        if dnext == numBuckets { return; }
        dcurr := table[dnext];
      }
    }

    /** vely_next_hash: the next pair of the traversal, or nothing at its end. */
    method Next() returns (r: Option<Pair>)
      requires Valid()
      modifies this`dnext, this`dcurr, this`w
      ensures Valid() && w == Advance(t, old(w))
      ensures r == if Pending(t, old(w)) == [] then None else Some(Pending(t, old(w))[0].pair)
    {
      AdvancePending(t, w);
      if dnext == numBuckets { return None; }
      SkipEmpty();
      if dnext == numBuckets { return None; }
      assert Linked(table[w.d], t[w.d], all) && LinkAt(t[w.d], w.pos, all);
      r := Some(Pair(dcurr.at, dcurr.key, dcurr.data));
      dcurr := dcurr.next;
      w := Place(w.d, w.pos + 1);
    }

    // The first element of bucket b goes (hash.c:98-104)
    method UnlinkFirst(todel: Element, ghost b: nat, ind: nat)
      requires Stored() && b < |t| && 0 < |t[b]| && todel == t[b][0].id && ind == b
      modifies this`table, this`tot, this`t, this`m, this`all
      ensures Stored()
      ensures t == Remove(old(t), b, 0) && m == old(m) - {old(t)[b][0].pair.key} && all == old(all) - {todel}
    {
      ghost var u, s := t, all;
      ApartFromAll(table, u, s, b, 0);
      assert LinkAt(u[b], 0, s);
      table := table[ind := todel.next];
      tot := tot - 1;
      RemoveMeans(t, m, b, 0);
      t, m, all := Remove(t, b, 0), m - {t[b][0].pair.key}, all - {todel};
      forall d | 0 <= d < |t| ensures Linked(table[d], t[d], all) {
        forall k: nat | k < |t[d]| ensures LinkAt(t[d], k, all) {
          var j := if d == b then k + 1 else k;
          assert LinkAt(u[d], j, s);
        }
      }
    }

    // The element after prev goes (hash.c:105-109)
    method UnlinkAfter(todel: Element, prev: Element, ghost b: nat, ghost i: nat)
      requires Stored() && b < |t| && 0 < i < |t[b]| && todel == t[b][i].id && prev == t[b][i - 1].id
      modifies this`tot, this`t, this`m, this`all, prev`next
      ensures Stored()
      ensures t == Remove(old(t), b, i) && m == old(m) - {old(t)[b][i].pair.key} && all == old(all) - {todel}
    {
      ghost var u, s := t, all;
      ApartFromAll(table, u, s, b, i);
      ApartFromAll(table, u, s, b, i - 1);
      assert LinkAt(u[b], i, s) && LinkAt(u[b], i - 1, s);
      RemoveMeans(t, m, b, i);
      label before:
      prev.next := todel.next;
      tot := tot - 1;
      t, m, all := Remove(t, b, i), m - {t[b][i].pair.key}, all - {todel};
      forall d | 0 <= d < |t| ensures Linked(table[d], t[d], all) {
        forall k: nat | k < |t[d]| ensures LinkAt(t[d], k, all) {
          var j := if d == b && k >= i then k + 1 else k;
          assert old@before(LinkAt(u[d], j, s));
        }
      }
    }

    // The element goes from its bucket, whose number is computed where it is not known and needed (hash.c:95-109).
    method Unlink(todel: Element, prev: Element?, hashind: int, ghost b: nat, ghost i: nat)
      requires Stored() && b < |t| && i < |t[b]|
      requires todel == t[b][i].id && prev == (if i == 0 then null else t[b][i - 1].id) && (hashind == b
               || hashind == -1)
      modifies this`table, this`tot, this`t, this`m, this`all, all`next
      ensures Stored()
      ensures t == Remove(old(t), b, i) && m == old(m) - {old(t)[b][i].pair.key} && all == old(all) - {todel}
    {
      assert Linked(table[b], t[b], all) && GoodChain(t[b], b, |t|);
      if prev == null {
        assert LinkAt(t[b], 0, all);
        var ind := hashind;
        if ind == -1 { ind := ComputeHash(todel.key, None, numBuckets); }
        UnlinkFirst(todel, b, ind);
      } else {
        assert LinkAt(t[b], i - 1, all);
        UnlinkAfter(todel, prev, b, i);
      }
    }

    /** vely_del_hash_entry: the element goes, the traversal steps over it if it was next, and the element
        is freed. */
    method DelEntry(todel: Element, prev: Element?, hashind: int, ghost b: nat, ghost i: nat)
      requires Valid() && b < |t| && i < |t[b]|
      requires todel == t[b][i].id && prev == (if i == 0 then null else t[b][i - 1].id) && (hashind == b
               || hashind == -1)
      modifies this`table, this`tot, this`t, this`m, this`all, this`dcurr, this`w, all`next
      ensures Valid()
      ensures t == Remove(old(t), b, i) && m == old(m) - {old(t)[b][i].pair.key} && all == old(all) - {todel}
      ensures w == AfterRemove(old(w), b, i)
    {
      ghost var at := NextAfter(todel, b, i, Remove(t, b, i));
      var next := todel.next;
      Unlink(todel, prev, hashind, b, i);
      Pass(todel, next, at);
    }

    // hash.c:114-118
    method Pass(todel: Element, next: Element?, ghost at: Place)
      requires Placed(t, at) && dnext == at.d
      requires (if dcurr == todel then next else dcurr) == if at.d < |t| then IdAt(t[at.d], at.pos) else null
      modifies this`dcurr, this`w
      ensures Traversing() && w == at
    {
      if dcurr == todel { dcurr := next; }
      w := at;
    }

    // Where the traversal is going to be when an element has gone
    lemma {:induction false} NextAfter(todel: Element, b: nat, i: nat, u: Table<Element>) returns (at: Place)
      requires Valid() && b < |t| && i < |t[b]| && todel == t[b][i].id && u == Remove(t, b, i)
      ensures at == AfterRemove(w, b, i) && Placed(u, at) && at.d == dnext
      ensures (if dcurr == todel then todel.next else dcurr) == if at.d < |u| then IdAt(u[at.d], at.pos) else null
    {
      at := AfterRemove(w, b, i);
      assert LinkAt(t[b], i, all);
      CurrentAfterRemove(t, w, b, i);
      if dcurr == todel {
        assert LinkAt(t[w.d], w.pos, all);
        Apart(t, all, b, i, w.d, w.pos);
      }
    }

    // The search loop of vely_find_hash (hash.c:141-175)
    method Locate(key: Key, list: Option<seq<Key>>, hashind: nat) returns (curr: Element?, prev: Element?)
      requires Stored() && hashind == Bucket(Sought(key, list), |t|)
      modifies this`reads_
      ensures var c := t[hashind]; var k := FindMatch(c, key, list);
              && curr == IdAt(c, k) && prev == (if k == 0 then null else c[k - 1].id)
              && reads_ == old(reads_) + if k < |c| then k + 1 else k
    {
      ghost var c := t[hashind];
      ghost var k := 0;
      assert Linked(table[hashind], c, all);
      prev, curr := null, table[hashind];
      while curr != null
        invariant k <= |c| && curr == IdAt(c, k) && prev == if k == 0 then null else c[k - 1].id
        invariant reads_ == old(reads_) + k
        invariant forall j :: 0 <= j < k ==> !Matches(c[j].pair.key, key, list)
        decreases |c| - k
      {
        reads_ := reads_ + 1;
        assert LinkAt(c, k, all);
        var isMatch := IsMatch(curr.key, key, list);
        if isMatch {
          MatchIs(c, key, list, k);
          return;
        }
        prev := curr;
        curr := curr.next;
        k := k + 1;
      }
      MatchIs(c, key, list, k);
    }

    // The search in the bucket, and the deletion (hash.c:138-205)
    method SearchBucket(key: Key, list: Option<seq<Key>>, del: bool) returns (r: Option<Pair>)
      requires Valid()
      modifies this`table, this`tot, this`t, this`m, this`all, this`dcurr, this`w, this`reads_, all`next
      ensures Valid()
      ensures r == Answer(old(t), key, list)
      ensures m == if del && r.Some? then old(m) - {r.value.key} else old(m)
      ensures var c := old(t)[Bucket(Sought(key, list), |old(t)|)];
              reads_ == old(reads_) + if r.Some? then FindMatch(c, key, list) + 1 else |c|
      ensures if del && r.Some?
              then var b := Bucket(Sought(key, list), |old(t)|); var i := FindMatch(old(t)[b], key, list);
                   t == Remove(old(t), b, i) && w == AfterRemove(old(w), b, i) && all == old(all) - {old(t)[b][i].id}
              else t == old(t) && w == old(w) && all == old(all)
    {
      var hashind := ComputeHash(key, list, numBuckets);
      ghost var k := FindMatch(t[hashind], key, list);
      assert Answer(t, key, list) == if k < |t[hashind]| then Some(t[hashind][k].pair) else None;
      var curr, prev := Locate(key, list, hashind);
      if curr == null { return None; }
      var p := Take(curr, prev, hashind, k, del);
      r := Some(p);
    }

    /** vely_find_hash: the first match in the bucket, which is deleted if asked for. */
    method FindHash(key: Key, list: Option<seq<Key>>, del: bool) returns (r: Option<Pair>)
      requires Valid()
      modifies this`table, this`tot, this`t, this`m, this`all, this`dcurr, this`w, this`hits, this`reads_, all`next
      ensures Valid()
      ensures r == Answer(old(t), key, list) && (list.None? ==> r == LookedUp(old(m), key))
      ensures m == if del && r.Some? then old(m) - {r.value.key} else old(m)
      ensures hits == old(hits) + 1
      ensures var c := old(t)[Bucket(Sought(key, list), |old(t)|)];
              reads_ == old(reads_) + if r.Some? then FindMatch(c, key, list) + 1 else |c|
      ensures if del && r.Some?
              then var b := Bucket(Sought(key, list), |old(t)|); var i := FindMatch(old(t)[b], key, list);
                   t == Remove(old(t), b, i) && w == AfterRemove(old(w), b, i) && all == old(all) - {old(t)[b][i].id}
              else t == old(t) && w == old(w) && all == old(all)
    {
      if list.None? { KeyExact(t, m, key); }
      hits := hits + 1;
      r := SearchBucket(key, list, del);
    }

    // The pair of an element, which is deleted if asked for (hash.c:186-195)
    method Take(curr: Element, prev: Element?, hashind: nat, ghost k: nat, del: bool) returns (p: Pair)
      requires Valid() && hashind < |t| && k < |t[hashind]|
      requires curr == t[hashind][k].id && prev == (if k == 0 then null else t[hashind][k - 1].id)
      modifies this`table, this`tot, this`t, this`m, this`all, this`dcurr, this`w, all`next
      ensures Valid() && p == old(t)[hashind][k].pair && m == if del then old(m) - {p.key} else old(m)
      ensures if del
              then t == Remove(old(t), hashind, k) && w == AfterRemove(old(w), hashind, k) && all == old(all) - {curr}
              else t == old(t) && w == old(w) && all == old(all)
    {
      assert LinkAt(t[hashind], k, all);
      p := Pair(curr.at, curr.key, curr.data);
      if del { DelEntry(curr, prev, hashind, hashind, k); }
    }

    // A new element at the head of its bucket's list
    method LinkFront(p: Pair, hashind: nat)
      requires Stored() && hashind == Bucket(p.key, |t|) && !Has(t, p.key)
      modifies this`table, this`tot, this`t, this`m, this`all
      ensures Stored() && old(all) <= all && forall e :: e in all ==> e in old(all) || fresh(e)
      ensures |t| == |old(t)| && (exists e :: t == Put(old(t), e, p)) && m == old(m)[p.key := p]
    {
      ghost var u, s := t, all;
      Lookup(t, m, p.key);
      assert Linked(table[hashind], u[hashind], s);
      var e := new Element(p, table[hashind]);
      PutMeans(t, m, e, p);
      table := table[hashind := e];
      tot := tot + 1;
      t, m, all := Put(t, e, p), m[p.key := p], all + {e};
      forall d | 0 <= d < |t| ensures Linked(table[d], t[d], all) {
        assert Linked(if d == hashind then e.next else table[d], u[d], s);
        forall k: nat | k < |t[d]| ensures LinkAt(t[d], k, all) {
          assert d != hashind || k > 0 ==> LinkAt(u[d], if d == hashind then k - 1 else k, s);
        }
      }
    }

    // A new element (hash.c:331-338, 360-370, 392-402); the traversal stays where it is.
    method PushFront(p: Pair, hashind: nat)
      requires Valid() && hashind == Bucket(p.key, |t|) && !Has(t, p.key)
      modifies this`table, this`tot, this`t, this`m, this`all, this`w
      ensures Valid() && old(all) <= all && forall e :: e in all ==> e in old(all) || fresh(e)
      ensures |t| == |old(t)| && (exists e :: t == Put(old(t), e, p)) && m == old(m)[p.key := p]
      ensures w == AfterPut(old(t), old(w), p.key)
    {
      ghost var u, v := t, w;
      LinkFront(p, hashind);
      w := AfterPut(u, v, p.key);
      ghost var e :| t == Put(u, e, p);
      CurrentAfterPut(u, v, e, p);
    }

    // The pair of a known key is replaced in its element (hash.c:345-357).
    method Rewrite(e: Element, p: Pair, ghost b: nat)
      requires Stored() && b == Bucket(p.key, |t|) && Has(t, p.key) && e == t[b][Find(t[b], p.key)].id
      modifies this`t, this`m, e
      ensures Stored()
      ensures t == Put(old(t), e, p) && m == old(m)[p.key := p]
    {
      ghost var u, i := t, Find(t[b], p.key);
      ApartFromAll(table, u, all, b, i);
      Lookup(t, m, p.key);
      PutMeans(t, m, e, p);
      label before:
      e.data := p.data;
      e.key := p.key;
      e.at := p.at;
      t, m := Put(t, e, p), m[p.key := p];
      forall d | 0 <= d < |t| ensures Linked(table[d], t[d], all) {
        assert old@before(Linked(table[d], u[d], all));
        forall k: nat | k < |t[d]| ensures LinkAt(t[d], k, all) {
          assert old@before(LinkAt(u[d], k, all));
        }
      }
    }

    // The traversal stays where it is.
    method Replace(e: Element, p: Pair, ghost b: nat)
      requires Valid() && b == Bucket(p.key, |t|) && Has(t, p.key) && e == t[b][Find(t[b], p.key)].id
      modifies this`t, this`m, e
      ensures Valid()
      ensures t == Put(old(t), e, p) && m == old(m)[p.key := p]
    {
      Rewrite(e, p, b);
    }

    /** vely_add_hash: a known key gets a new pair and the old one is returned. A list has the key's fragments. */
    method AddHash(p: Pair, list: Option<seq<Key>>) returns (old_: Option<Pair>)
      requires Valid() && Sought(p.key, list) == p.key
      modifies this`table, this`tot, this`t, this`m, this`all, this`w, all
      ensures Valid() && forall e :: e in all ==> e in old(all) || fresh(e)
      ensures m == old(m)[p.key := p] && old_ == if p.key in old(m) then Some(old(m)[p.key]) else None
      ensures |t| == |old(t)| && (exists e :: t == Put(old(t), e, p)) && w == AfterPut(old(t), old(w), p.key)
    {
      Lookup(t, m, p.key);
      var hashind := ComputeHash(p.key, list, numBuckets);
      ghost var c := t[hashind];
      assert Linked(table[hashind], c, all);
      if table[hashind] == null {
        PushFront(p, hashind);
        return None;
      }
      ghost var k := 0;
      var bucket := table[hashind];
      while bucket != null
        invariant k <= |c| && bucket == IdAt(c, k)
        invariant forall j :: 0 <= j < k ==> c[j].pair.key != p.key
        decreases |c| - k
      {
        assert LinkAt(c, k, all);
        if p.key == bucket.key {
          FindIs(c, p.key, k);
          old_ := Some(Pair(bucket.at, bucket.key, bucket.data));
          Replace(bucket, p, hashind);
          return;
        }
        bucket := bucket.next;
        k := k + 1;
      }
      FindNot(c, p.key);
      PushFront(p, hashind);
      return None;
    }

    // The call of vely_add_hash for an item that is copied (hash.c:215)
    method Receive(p: Pair)
      requires Valid()
      modifies this`table, this`tot, this`t, this`m, this`all, this`w, all
      ensures Valid() && m == old(m)[p.key := p] && |t| == |old(t)|
      ensures forall e :: e in all ==> e in old(all) || fresh(e)
    {
      var _ := AddHash(p, None);
    }

    // One round of the copying loop of vely_resize_hash (hash.c:210-216)
    method CopyOne(nh: Hash) returns (r: Option<Pair>)
      requires Valid() && nh.Valid() && nh != this && nh.all !! all
      modifies this`dnext, this`dcurr, this`w
      modifies nh`table, nh`tot, nh`t, nh`m, nh`all, nh`w, nh.all
      ensures Valid() && w == Advance(t, old(w))
      ensures r == if Pending(t, old(w)) == [] then None else Some(Pending(t, old(w))[0].pair)
      ensures nh.Valid() && nh.m == if r.None? then old(nh.m) else old(nh.m)[r.value.key := r.value]
      ensures nh.all !! all && |nh.t| == |old(nh.t)| && forall e :: e in nh.all ==> e in old(nh.all) || fresh(e)
    {
      r := Next();
      if r.Some? { nh.Receive(r.value); }
    }

    // Copying into another table
    method CopyInto(nh: Hash)
      requires Valid() && nh.Valid() && nh.m == map[] && nh != this && nh.all !! all
      modifies this`dnext, this`dcurr, this`w
      modifies nh`table, nh`tot, nh`t, nh`m, nh`all, nh`w, nh.all
      ensures nh.Valid() && nh.m == m && |nh.t| == |old(nh.t)|
      ensures forall e :: e in nh.all ==> e in old(nh.all) || fresh(e)
    {
      Rewind();
      CopyStart(t, m);
      var more := true;
      ghost var left := Pending(t, w);
      while more
        invariant Valid() && nh.Valid() && left == Pending(t, w) && nh.m == Copied(m, left)
        invariant |nh.t| == |old(nh.t)| && nh.all !! all && forall e :: e in nh.all ==> e in old(nh.all) || fresh(e)
        invariant !more ==> left == []
        decreases more, |left|
      {
        CopyStep(t, m, w);
        var r := CopyOne(nh);
        left := Pending(t, w);
        more := r.Some?;
      }
      CopyEnd(m, left);
    }

    // The top structure takes over another's table (hash.c:217-227); the current element was reset by
    // creating an empty table first.
    method TakeOver(nh: Hash)
      requires |nh.t| > 0 && nh != this
      modifies this
      ensures numBuckets == nh.numBuckets && table == nh.table && tot == nh.tot && hits == nh.hits
              && reads_ == nh.reads_
      ensures t == nh.t && m == nh.m && all == nh.all && w == Place(0, |t[0]|)
      ensures dnext == 0 && dcurr == null
    {
      table, tot, hits, reads_, numBuckets := nh.table, nh.tot, nh.hits, nh.reads_, nh.numBuckets;
      dnext, dcurr := 0, null;
      t, m, all, w := nh.t, nh.m, nh.all, Place(0, |nh.t[0]|);
    }

    /** vely_resize_hash: the same map in a table of another size; the statistics start again, and a
        traversal not rewound skips the first bucket. */
    method Resize(newsize: int)
      requires Valid()
      modifies this
      ensures Valid() && m == old(m) && fresh(all)
      ensures numBuckets == if newsize < MIN_BUCKETS then MIN_BUCKETS else newsize
      ensures hits == reads_ == 0
      ensures Pending(t, w) == Flat(t, 1)
    {
      var nh := new Hash(newsize);
      CopyInto(nh);
      TakeOver(nh);
    }
  }
}
