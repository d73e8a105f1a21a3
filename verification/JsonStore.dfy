/** The parsed document of json.c: the nodes of the parser, and the hash table of hash.c through which they are
    read by name. */
module JsonStore {
  import opened Wrappers
  import opened KeyOrder
  import opened HashModel
  import opened HashTable
  import opened Octets
  import D = JsonDoc
  import P = JsonParse

  // ---- Nodes by name ----

  /** A name as the hash table takes it: a C string, up to the first zero. */
  function AsKey(name: seq<Octet>): (k: Key)
    ensures 0 !in name ==> k == name
  {
    if name == [] || name[0] == 0 then [] else [name[0]] + AsKey(name[1..])
  }

  /** The last node that has a name, or -1. */
  function LastNode(nodes: seq<P.Node>, key: Key): (k: int)
    ensures -1 <= k < |nodes| && (k >= 0 ==> AsKey(nodes[k].name) == key)
  {
    if nodes == [] then -1
    else if AsKey(nodes[|nodes| - 1].name) == key then |nodes| - 1
    else LastNode(nodes[..|nodes| - 1], key)
  }

  /** The last leaf that has a name, or -1. */
  function LastLeaf(leaves: seq<D.Leaf>, key: Key): (k: int)
    ensures -1 <= k < |leaves|
  {
    if leaves == [] then -1
    else if D.NormalName(leaves[|leaves| - 1].path) == key then |leaves| - 1
    else LastLeaf(leaves[..|leaves| - 1], key)
  }

  predicate HasName(leaf: D.Leaf, key: Key) { D.NormalName(leaf.path) == key }

  /** It has the name, and none behind it has. */
  lemma {:induction false} LastLeafIs(leaves: seq<D.Leaf>, key: Key)
    ensures var k := LastLeaf(leaves, key); k >= 0 ==> HasName(leaves[k], key)
    ensures forall j :: LastLeaf(leaves, key) < j < |leaves| ==> !HasName(leaves[j], key)
  {
    if leaves != [] {
      var n := |leaves| - 1;
      var init := leaves[..n];
      if HasName(leaves[n], key) {
        assert LastLeaf(leaves, key) == n;
      } else {
        LastLeafIs(init, key);
        assert LastLeaf(leaves, key) == LastLeaf(init, key);
        forall j | LastLeaf(init, key) < j <= n ensures !HasName(leaves[j], key) {
          if j < n { assert init[j] == leaves[j]; }
        }
      }
    }
  }

  lemma {:induction false} LastIsLast(v: seq<Octet>, nodes: seq<P.Node>, leaves: seq<D.Leaf>, key: Key)
    requires P.Listed(v, nodes, leaves)
    ensures LastNode(nodes, key) == LastLeaf(leaves, key)
    decreases |nodes|
  {
    if nodes != [] {
      var n := |nodes| - 1;
      assert P.IsNodeOf(v, nodes[n], leaves[n]);
      assert P.Listed(v, nodes[..n], leaves[..n]);
      LastIsLast(v, nodes[..n], leaves[..n], key);
    }
  }

  /** The table has every name of a node, with the last node that has it. */
  ghost predicate HashOf(m: map<Key, Pair>, nodes: seq<P.Node>) {
    forall key: Key :: if LastNode(nodes, key) >= 0 then key in m && m[key] == Entry(nodes, LastNode(nodes, key))
                       else key !in m
  }

  // What is added for a node: its own name, and the node as data
  function Entry(nodes: seq<P.Node>, k: int): Pair
    requires 0 <= k < |nodes|
  {
    Pair(k, AsKey(nodes[k].name), k)
  }

  lemma {:induction false} HashGrows(m: map<Key, Pair>, nodes: seq<P.Node>, k: nat)
    requires k < |nodes| && HashOf(m, nodes[..k])
    ensures HashOf(m[AsKey(nodes[k].name) := Entry(nodes, k)], nodes[..k + 1])
  {
    assert nodes[..k + 1][..k] == nodes[..k];
  }

  /** The name of a leaf as a key. */
  function LeafKey(leaf: D.Leaf): Key { AsKey(D.NormalName(leaf.path)) }

  /** No leaf has a longer name that starts with the key. */
  ghost predicate Unextended(key: Key, leaves: seq<D.Leaf>) {
    forall i :: 0 <= i < |leaves| ==> !(key < LeafKey(leaves[i]))
  }

  // The number of buckets for a size asked for
  function Least(size: int): int { if size < MIN_BUCKETS then MIN_BUCKETS else size }

  // ---- The document ----

  class Json {
    const maxHash: int
    var nodes: seq<P.Node>
    var doc: array?<Octet>   // the document's text, in which the nodes' texts stand
    var hash: Hash?

    // vely_set_json, with a hash
    constructor (maxhash: int)
      ensures nodes == [] && doc == null && hash == null
      ensures maxHash == if maxhash == -1 then 10000 else if maxhash < 10 then 10 else maxhash
    {
      var size := if maxhash == -1 then 10000 else maxhash;
      maxHash := if size < 10 then 10 else size;
      nodes, doc, hash := [], null, null;
    }

    ghost predicate Filled()
      reads this, hash, if hash == null then {} else hash.all
    {
      hash != null && hash.Valid() && HashOf(hash.m, nodes)
    }

    /** vely_add_json_hash: every node by its name, a later one in place of an earlier one, in a table made for
        their number. */
    method AddHash()
      modifies this`hash
      ensures Filled() && fresh(hash) && forall e :: e in hash.all ==> fresh(e)
      ensures |hash.t| == if |nodes| > maxHash then Least(maxHash) else Least(|nodes|)
    {
      var h := new Hash(if |nodes| > maxHash then maxHash else |nodes|);
      ghost var size := |h.t|;
      for k := 0 to |nodes|
        invariant fresh(h) && h.Valid() && HashOf(h.m, nodes[..k]) && |h.t| == size
        invariant forall e :: e in h.all ==> fresh(e)
      {
        HashGrows(h.m, nodes, k);
        var _ := h.AddHash(Entry(nodes, k), None);
      }
      assert nodes[..|nodes|] == nodes;
      hash := h;
    }

    /** vely_json_new for a document: reads it, makes the hash of its leaves and looks at what is left. */
    method NewJson(parser: P.JsonParser, text: array<Octet>,
                   ghost w0: seq<Octet>, ghost v: D.Value, ghost w1: seq<Octet>)
      requires text.Length > 0 && text[text.Length - 1] == 0
      modifies this, parser, text
      ensures doc == text && nodes == parser.nodes && Filled() && fresh(hash) && forall e :: e in hash.all ==> fresh(e)
      ensures old(parser.nulled == 0 && P.IsDocument(text[..], w0, v, w1)) ==>
                && P.Listed(text[..], nodes, D.Leaves(v, []))
                && (parser.ec == -1 <==> v.Object? || v.Text? || w1 == [])
                && (parser.ec == -1 <==> parser.nulled == 0)
    {
      ghost var given := parser.nulled == 0 && P.IsDocument(text[..], w0, v, w1);
      parser.Reset(text);
      parser.ReadDocument(given, w0, v, w1);
      nodes, doc := parser.nodes, text;
      AddHash();
      parser.FinishDocument(given, v, w1);
    }

    /** It is refused, and the space stays behind for the next document. */
    method RefuseNullAndSpace(parser: P.JsonParser, text: array<Octet>)
      requires text[..] == [110, 117, 108, 108, 32, 0] && parser.nulled == 0
      modifies this, parser, text
      ensures parser.ec != -1 && parser.nulled != 0
      ensures P.Listed(text[..], nodes, [D.Leaf([], D.NullKind, D.NULL_TEXT)])
    {
      P.NullAndSpace();
      assert text[text.Length - 1] == text[..][5];
      NewJson(parser, text, [], D.Null, [32]);
    }

    /** vely_read_json: the text and the kind of the last leaf that has the name. With a list of fragments it is
        the leaf, if any, that the table finds by them, the last one of its name; and that is the one with the
        joined name if no longer name starts with it. */
    method ReadJson(key: Key, list: Option<seq<Key>>, ghost leaves: seq<D.Leaf>)
      returns (found: bool, at: nat, kind: D.Kind, ghost k: int)
      requires Filled() && doc != null && P.Listed(doc[..], nodes, leaves)
      modifies hash, hash.all
      ensures Filled() && hash.t == old(hash.t) && hash.m == old(hash.m)
      ensures found ==> 0 <= k < |leaves| && P.CString(doc[..], at) == leaves[k].text && kind == leaves[k].kind
      ensures list.None? ==> k == LastLeaf(leaves, key) && (found <==> k >= 0)
      ensures list.Some? ==> found == Answer(hash.t, key, list).Some?
      ensures list.Some? && found ==>
                Matches(LeafKey(leaves[k]), key, list) && k == LastLeaf(leaves, LeafKey(leaves[k]))
      ensures list.Some? && list.value != [] && Unextended(Joined(list.value), leaves) ==>
                k == LastLeaf(leaves, Joined(list.value)) && (found <==> k >= 0)
    {
      if list.Some? && list.value != [] && Unextended(Joined(list.value), leaves) {
        FragmentsExact(list.value, leaves);
      }
      var r := hash.FindHash(key, list, false);
      found := r.Some?;
      if found {
        k := Found(key, list, r.value, leaves);
        at, kind := nodes[r.value.data].at, nodes[r.value.data].kind;
      } else {
        at, kind, k := 0, D.StringKind, -1;
        LastIsLast(doc[..], nodes, leaves, Sought(key, list));
      }
    }

    // No item in front of the joined name starts with it.
    lemma {:induction false} FragmentsExact(l: seq<Key>, leaves: seq<D.Leaf>)
      requires Filled() && doc != null && P.Listed(doc[..], nodes, leaves)
      requires l != [] && Unextended(Joined(l), leaves)
      ensures forall key :: Answer(hash.t, key, Some(l)) == LookedUp(hash.m, Joined(l))
    {
      var s := Joined(l);
      var c := hash.t[Bucket(s, |hash.t|)];
      forall j | 0 <= j < Find(c, s) ensures !(s <= c[j].pair.key) {
        assert Within(c, hash.m) && c[j].pair.key in hash.m;
        var k := LastNode(nodes, c[j].pair.key);
        assert P.IsNodeOf(doc[..], nodes[k], leaves[k]);
        assert !(s < LeafKey(leaves[k]));
      }
      ListExact(hash.t, hash.m, l);
      forall key ensures Answer(hash.t, key, Some(l)) == Answer(hash.t, s, Some(l)) {
        SameMatches(c, key, s, l);
      }
    }

    // A search by fragments does not look at the key.
    static lemma {:induction false} SameMatches(c: Chain<Element>, key: Key, s: Key, l: seq<Key>)
      ensures FindMatch(c, key, Some(l)) == FindMatch(c, s, Some(l))
    {
      if c != [] { SameMatches(c[1..], key, s, l); }
    }

    // What the table finds is the last node of its name.
    lemma {:induction false} Found(key: Key, list: Option<seq<Key>>, p: Pair, leaves: seq<D.Leaf>) returns (k: int)
      requires Filled() && doc != null && P.Listed(doc[..], nodes, leaves) && Answer(hash.t, key, list) == Some(p)
      ensures 0 <= k < |leaves| && k == p.data && P.IsNodeOf(doc[..], nodes[k], leaves[k])
      ensures p.key == LeafKey(leaves[k]) && k == LastLeaf(leaves, p.key) && Matches(p.key, key, list)
    {
      var b := Bucket(Sought(key, list), |hash.t|);
      var i := FindMatch(hash.t[b], key, list);
      assert Within(hash.t[b], hash.m) && hash.t[b][i].pair == p;
      k := LastNode(nodes, p.key);
      LastIsLast(doc[..], nodes, leaves, p.key);
      assert P.IsNodeOf(doc[..], nodes[k], leaves[k]);
    }
  }
}
