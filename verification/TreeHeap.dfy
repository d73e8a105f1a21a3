/** The tree on the heap: nodes linked through child pointers and, in a sorted tree, through a doubly
    linked list. Each method is proved to turn a heap that holds a tree value into one that holds
    the corresponding function of AvlModel applied to it. */
module TreeHeap {
  import opened KeyOrder
  import opened SortedList
  import M = AvlModel
  import opened AvlModel
  import opened Wrappers

  datatype Dir = Lesser | Greater

  class Node {
    var key: Key
    var data: Data
    var keyPresent: bool
    var height: nat
    var lesser: Node?
    var greater: Node?
    var prev: Node?  // dlist[VV_TREE_LESSER_LIST]
    var next: Node?  // dlist[VV_TREE_GREATER_LIST]

    // vv_tree_node_create: zeroed memory
    constructor ()
      ensures !keyPresent && height == 0 && lesser == null && greater == null && prev == null && next == null
    {
      key, data, keyPresent, height := [], 0, false, 0;
      lesser, greater, prev, next := null, null, null, null;
    }
  }

  // ---- A heap node holds a tree value ----

  /** What one node of a tree value must contain. */
  datatype Fields = Fields(key: Key, data: Data, height: nat, lesser: Node?, greater: Node?)

  ghost function RootOf(t: Tree<Node>): Node? {
    if t.Leaf? then null else t.e.id
  }

  ghost function Field(t: Tree<Node>, o: Node): Fields
    requires o in Nodes(t)
  {
    if o == t.e.id then Fields(t.e.key, t.e.data, t.height, RootOf(t.left), RootOf(t.right))
    else if o in Nodes(t.left) then Field(t.left, o)
    else Field(t.right, o)
  }

  ghost predicate Holds(n: Node?, t: Tree<Node>)
    reads Nodes(t)`key, Nodes(t)`data, Nodes(t)`keyPresent, Nodes(t)`height, Nodes(t)`lesser, Nodes(t)`greater
  {
    && n == RootOf(t) && Separate(t)
    && forall o :: o in Nodes(t) ==> o.keyPresent && Fields(o.key, o.data, o.height, o.lesser, o.greater) == Field(t, o)
  }

  // A tree is held when its root node and both its subtrees are.
  lemma {:induction false} Unfold(n: Node?, t: Tree<Node>)
    requires t.Fork? && Holds(n, t)
    ensures n == t.e.id && n.keyPresent && n !in Nodes(t.left) && n !in Nodes(t.right)
    ensures Nodes(t) == Nodes(t.left) + {n} + Nodes(t.right) && Nodes(t.left) !! Nodes(t.right)
    ensures n.key == t.e.key && n.data == t.e.data && n.height == t.height
    ensures Holds(n.lesser, t.left) && Holds(n.greater, t.right)
    ensures allocated(Nodes(t)) && allocated(Nodes(t.left)) && allocated(Nodes(t.right))
  {
    assert Field(t, t.e.id).lesser == RootOf(t.left) && Field(t, t.e.id).greater == RootOf(t.right);
    assert forall o :: o in Nodes(t.left) ==> o in Nodes(t) && Field(t, o) == Field(t.left, o);
    assert forall o :: o in Nodes(t.right) ==> o in Nodes(t) && Field(t, o) == Field(t.right, o);
  }

  lemma {:induction false} Fold(n: Node, t: Tree<Node>)
    requires t.Fork? && n == t.e.id && n.keyPresent && n !in Nodes(t.left) && n !in Nodes(t.right)
    requires Nodes(t.left) !! Nodes(t.right)
    requires n.key == t.e.key && n.data == t.e.data && n.height == t.height
    requires Holds(n.lesser, t.left) && Holds(n.greater, t.right)
    ensures Holds(n, t) && Nodes(t) == Nodes(t.left) + {n} + Nodes(t.right)
  {
    assert forall o :: o in Nodes(t.left) ==> Field(t, o) == Field(t.left, o);
    assert forall o :: o in Nodes(t.right) ==> Field(t, o) == Field(t.right, o);
  }

  function Child(p: Node, dir: Dir): Node?
    reads p`lesser, p`greater
  {
    if dir.Lesser? then p.lesser else p.greater
  }

  function Other(p: Node, dir: Dir): Node?
    reads p`lesser, p`greater
  {
    if dir.Lesser? then p.greater else p.lesser
  }

  function HeightAt(n: Node?): nat
    reads if n == null then {} else {n}
  {
    if n == null then 0 else n.height
  }

  /** The same tree, but for the stored height of its root. */
  predicate SameButHeight(t: Tree<Node>, u: Tree<Node>) {
    u == t || (t.Fork? && u == t.(height := Height(t)))
  }

  // ---- Balancing ----

  method SetChild(p: Node, dir: Dir, r: Node?)
    modifies p`lesser, p`greater
    ensures Child(p, dir) == r && Other(p, dir) == old(Other(p, dir))
  {
    if dir.Lesser? { p.lesser := r; } else { p.greater := r; }
  }

  method UpdateHeight(n: Node) returns (factor: int)
    modifies n`height
    ensures n.height == old(FieldHeight(HeightAt(n.lesser), HeightAt(n.greater)))
    ensures factor == old(HeightAt(n.lesser) - HeightAt(n.greater))
  {
    var left := if n.lesser == null then 0 else n.lesser.height;
    var right := if n.greater == null then 0 else n.greater.height;
    factor := left - right;
    n.height := if left > right then (left + 1) % HEIGHT_LIMIT else (right + 1) % HEIGHT_LIMIT;
  }

  method RotateRight(parent: Node, dir: Dir, tree: Node, ghost t: Tree<Node>)
    requires t.Fork? && t.left.Fork? && Holds(tree, t)
    requires parent !in Nodes(t) && Child(parent, dir) == tree
    modifies parent`lesser, parent`greater, parent`height
    modifies Nodes(t)`lesser, Nodes(t)`greater, Nodes(t)`height
    ensures Holds(Child(parent, dir), M.RotateRight(t)) && Other(parent, dir) == old(Other(parent, dir))
    ensures tree.height == FieldHeight(HeightAt(tree.lesser), HeightAt(tree.greater))
  {
    ghost var l, ll, lr := t.left.e.id, t.left.left, t.left.right;
    Unfold(tree, t);
    Unfold(l, t.left);
    assert Holds(l.lesser, ll) && Holds(l.greater, lr) && Holds(tree.greater, t.right);
    assert parent !in Nodes(ll) && parent !in Nodes(lr) && parent !in Nodes(t.right);
    assert tree !in Nodes(ll) && tree !in Nodes(lr) && l !in Nodes(t.right);
    assert parent != tree && parent != l && l in Nodes(t.left);
    SetChild(parent, dir, tree.lesser);
    assert Holds(l.greater, lr);
    var t' := tree.lesser.greater;
    tree.lesser.greater := tree;
    tree.lesser := t';
    var _ := UpdateHeight(tree);
    Fold(tree, M.RotateRight(t).right);
    var _ := UpdateHeight(parent);
    Fold(l, M.RotateRight(t));
  }

  method RotateLeft(parent: Node, dir: Dir, tree: Node, ghost t: Tree<Node>)
    requires t.Fork? && t.right.Fork? && Holds(tree, t)
    requires parent !in Nodes(t) && Child(parent, dir) == tree
    modifies parent`lesser, parent`greater, parent`height
    modifies Nodes(t)`lesser, Nodes(t)`greater, Nodes(t)`height
    ensures Holds(Child(parent, dir), M.RotateLeft(t)) && Other(parent, dir) == old(Other(parent, dir))
    ensures tree.height == FieldHeight(HeightAt(tree.lesser), HeightAt(tree.greater))
  {
    ghost var r, rl, rr := t.right.e.id, t.right.left, t.right.right;
    Unfold(tree, t);
    Unfold(r, t.right);
    assert Holds(r.lesser, rl) && Holds(r.greater, rr) && Holds(tree.lesser, t.left);
    assert parent !in Nodes(rl) && parent !in Nodes(rr) && parent !in Nodes(t.left);
    assert tree !in Nodes(rl) && tree !in Nodes(rr) && r !in Nodes(t.left);
    assert parent != tree && parent != r && r in Nodes(t.right);
    SetChild(parent, dir, tree.greater);
    assert Holds(r.lesser, rl);
    var t' := tree.greater.lesser;
    tree.greater.lesser := tree;
    tree.greater := t';
    var _ := UpdateHeight(tree);
    Fold(tree, M.RotateLeft(t).left);
    var _ := UpdateHeight(parent);
    Fold(r, M.RotateLeft(t));
  }

  // The first half of a double rotation, when the inner grandchild is the higher one (tree.c:212-215).
  method LeanLeft(tree: Node, ghost t: Tree<Node>)
    requires t.Fork? && t.left.Fork? && Holds(tree, t)
    modifies Nodes(t)`lesser, Nodes(t)`greater, Nodes(t)`height
    ensures Holds(tree, t.(left := FirstRight(t.left), height := tree.height))
    ensures Nodes(FirstRight(t.left)) == Nodes(t.left)
  {
    ghost var l, r := t.left, t.right;
    Unfold(tree, t);
    Unfold(tree.lesser, l);
    assert HeightAt(tree.lesser.greater) == Stored(l.right) && HeightAt(tree.lesser.lesser) == Stored(l.left) by {
      if l.left.Fork? { Unfold(tree.lesser.lesser, l.left); }
      if l.right.Fork? { Unfold(tree.lesser.greater, l.right); }
    }
    var lg := if tree.lesser.greater != null then tree.lesser.greater.height else 0;
    var ll := if tree.lesser.lesser != null then tree.lesser.lesser.height else 0;
    if lg > ll {
      RotateLeft(tree, Lesser, tree.lesser, l);
      RotateLeftKeeps(l);
      Fold(tree, Fork(M.RotateLeft(l), t.e, tree.height, r));
    }
  }

  // Its mirror image (tree.c:224-227).
  method LeanRight(tree: Node, ghost t: Tree<Node>)
    requires t.Fork? && t.right.Fork? && Holds(tree, t)
    modifies Nodes(t)`lesser, Nodes(t)`greater, Nodes(t)`height
    ensures Holds(tree, t.(right := FirstLeft(t.right), height := tree.height))
    ensures Nodes(FirstLeft(t.right)) == Nodes(t.right)
  {
    ghost var l, r := t.left, t.right;
    Unfold(tree, t);
    Unfold(tree.greater, r);
    assert HeightAt(tree.greater.lesser) == Stored(r.left) && HeightAt(tree.greater.greater) == Stored(r.right) by {
      if r.left.Fork? { Unfold(tree.greater.lesser, r.left); }
      if r.right.Fork? { Unfold(tree.greater.greater, r.right); }
    }
    var gl := if tree.greater.lesser != null then tree.greater.lesser.height else 0;
    var gg := if tree.greater.greater != null then tree.greater.greater.height else 0;
    if gl > gg {
      RotateRight(tree, Greater, tree.greater, r);
      RotateRightKeeps(r);
      Fold(tree, Fork(l, t.e, tree.height, M.RotateRight(r)));
    }
  }

  // vv_tree_height as the first step of balancing: the node's stored height becomes that of Refresh.
  method RefreshNode(tree: Node, ghost t: Tree<Node>) returns (factor: int)
    requires t.Fork? && Holds(tree, t)
    modifies tree`height
    ensures Holds(tree, Refresh(t)) && factor == Stored(t.left) - Stored(t.right)
  {
    Unfold(tree, t);
    if t.left.Fork? { Unfold(tree.lesser, t.left); }
    if t.right.Fork? { Unfold(tree.greater, t.right); }
    factor := UpdateHeight(tree);
    Fold(tree, Refresh(t));
  }

  // vv_tree_height once more on the node just rotated down (tree.c:218, 230): it finds nothing to change.
  method Recheck(tree: Node, root: Node, ghost t: Tree<Node>)
    requires Holds(root, t) && tree in Nodes(t)
    requires tree.height == FieldHeight(HeightAt(tree.lesser), HeightAt(tree.greater))
    modifies tree`height
    ensures Holds(root, t)
  {
    assert allocated(Nodes(t));
    var _ := UpdateHeight(tree);
  }

  method Balance(parent: Node, dir: Dir, tree: Node, ghost t: Tree<Node>)
    requires t.Fork? && Holds(tree, t)
    requires parent !in Nodes(t) && Child(parent, dir) == tree
    modifies parent`lesser, parent`greater, parent`height
    modifies Nodes(t)`lesser, Nodes(t)`greater, Nodes(t)`height
    ensures Holds(Child(parent, dir), M.Balance(t)) && Other(parent, dir) == old(Other(parent, dir))
  {
    assert tree in Nodes(t) && allocated(Nodes(t));
    var factor := RefreshNode(tree, t);
    if factor >= 2 {
      LeanLeft(tree, Refresh(t));
      ghost var t1 := t.(left := FirstRight(t.left), height := tree.height);
      RotateRight(parent, dir, tree, t1);
      Recheck(tree, Child(parent, dir), M.RotateRight(t1));
    } else if factor <= -2 {
      LeanRight(tree, Refresh(t));
      ghost var t1 := t.(right := FirstLeft(t.right), height := tree.height);
      RotateLeft(parent, dir, tree, t1);
      Recheck(tree, Child(parent, dir), M.RotateLeft(t1));
    }
  }

  // Balancing sets the height of the node it starts at, so the stored one plays no part.
  lemma {:induction false} HeightUnused(t: Tree<Node>, h: nat)
    requires t.Fork?
    ensures M.Balance(t.(height := h)) == M.Balance(t)
  {
    assert Refresh(t.(height := h)) == Refresh(t);
  }

  // On the way back up: the child just visited is balanced if it is there, then the node itself
  // (tree.c:288-289, 557-558, 617-618). The node's own height plays no part.
  method RebalanceLesser(parent: Node, dir: Dir, tree: Node, ghost t: Tree<Node>)
    requires t.Fork? && tree == t.e.id && tree.keyPresent && tree.key == t.e.key && tree.data == t.e.data
    requires Holds(tree.lesser, t.left) && Holds(tree.greater, t.right)
    requires tree !in Nodes(t.left) && tree !in Nodes(t.right) && Nodes(t.left) !! Nodes(t.right)
    requires parent !in Nodes(t) && Child(parent, dir) == tree
    modifies parent`lesser, parent`greater, parent`height
    modifies Nodes(t)`lesser, Nodes(t)`greater, Nodes(t)`height
    ensures Holds(Child(parent, dir), M.Balance(t.(left := Mend(t.left))))
    ensures Other(parent, dir) == old(Other(parent, dir))
  {
    ghost var l, r := t.left, t.right;
    assert allocated(Nodes(l)) && allocated(Nodes(r)) && Nodes(t) == Nodes(l) + {tree} + Nodes(r);
    if tree.lesser != null {
      Balance(tree, Lesser, tree.lesser, l);
      assert Holds(tree.greater, r);
    }
    MendKeeps(l);
    ghost var t1 := t.(left := Mend(l));
    HeightUnused(t1, tree.height);
    Fold(tree, t1.(height := tree.height));
    Balance(parent, dir, tree, t1.(height := tree.height));
  }

  // tree.c:318-319, 600-601, 625-626
  method RebalanceGreater(parent: Node, dir: Dir, tree: Node, ghost t: Tree<Node>)
    requires t.Fork? && tree == t.e.id && tree.keyPresent && tree.key == t.e.key && tree.data == t.e.data
    requires Holds(tree.lesser, t.left) && Holds(tree.greater, t.right)
    requires tree !in Nodes(t.left) && tree !in Nodes(t.right) && Nodes(t.left) !! Nodes(t.right)
    requires parent !in Nodes(t) && Child(parent, dir) == tree
    modifies parent`lesser, parent`greater, parent`height
    modifies Nodes(t)`lesser, Nodes(t)`greater, Nodes(t)`height
    ensures Holds(Child(parent, dir), M.Balance(t.(right := Mend(t.right))))
    ensures Other(parent, dir) == old(Other(parent, dir))
  {
    ghost var l, r := t.left, t.right;
    assert allocated(Nodes(l)) && allocated(Nodes(r)) && Nodes(t) == Nodes(l) + {tree} + Nodes(r);
    if tree.greater != null {
      Balance(tree, Greater, tree.greater, r);
      assert Holds(tree.lesser, l);
    }
    MendKeeps(r);
    ghost var t1 := t.(right := Mend(r));
    HeightUnused(t1, tree.height);
    Fold(tree, t1.(height := tree.height));
    Balance(parent, dir, tree, t1.(height := tree.height));
  }

  // ---- The threaded list ----

  // The neighbours of a position in a list.
  ghost function Before(s: seq<Node>, i: int): Node? {
    if 0 < i <= |s| then s[i - 1] else null
  }

  ghost function After(s: seq<Node>, i: int): Node? {
    if -1 <= i < |s| - 1 then s[i + 1] else null
  }

  /** The nodes of s, in this order, form a doubly linked list; all of them are in `all`. */
  ghost predicate Threaded(s: seq<Node>, all: set<Node>)
    reads all`prev, all`next
  {
    && (forall i :: 0 <= i < |s| ==> s[i] in all)
    && (forall i, j :: 0 <= i < j < |s| ==> s[i] != s[j])
    && (forall i :: 0 <= i < |s| ==> s[i].prev == Before(s, i))
    && (forall i :: 0 <= i < |s| ==> s[i].next == After(s, i))
  }

  ghost function InsertAt(s: seq<Node>, i: int, n: Node): seq<Node>
    requires 0 <= i <= |s|
  {
    s[..i] + [n] + s[i..]
  }

  // Positions and neighbours after an insertion.
  lemma {:induction false} InsertedAt(s: seq<Node>, i: int, n: Node, w: seq<Node>)
    requires 0 <= i <= |s| && w == InsertAt(s, i, n)
    ensures |w| == |s| + 1
    ensures forall k :: 0 <= k < |w| ==> w[k] == if k < i then s[k] else if k == i then n else s[k - 1]
    ensures forall k :: 0 <= k < |w| ==>
      Before(w, k) == if k <= i then Before(s, k) else if k == i + 1 then n else Before(s, k - 1)
    ensures forall k :: 0 <= k < |w| ==>
      After(w, k) == if k < i - 1 then After(s, k) else if k == i - 1 then n else if k < |s| then s[k] else null
  {
  }

  lemma {:induction false} InsertedEnds(s: seq<Node>, i: int, n: Node, w: seq<Node>)
    requires 0 <= i <= |s| && w == InsertAt(s, i, n)
    ensures After(w, -1) == if i == 0 then n else After(s, -1)
    ensures Before(w, |w|) == if i == |s| then n else Before(s, |s|)
    ensures Before(w, i) == Before(s, i) && After(w, i) == (if i < |s| then s[i] else null)
    ensures |w| == |s| + 1 && w[i] == n
  {
  }

  lemma {:induction false} InsertedApart(s: seq<Node>, i: int, n: Node, w: seq<Node>)
    requires 0 <= i <= |s| && w == InsertAt(s, i, n) && n !in s
    requires forall j, k :: 0 <= j < k < |s| ==> s[j] != s[k]
    ensures forall j, k :: 0 <= j < k < |w| ==> w[j] != w[k]
  {
    forall j, k | 0 <= j < k < |w| ensures w[j] != w[k] {
      assert w[j] == if j < i then s[j] else if j == i then n else s[j - 1];
      assert w[k] == if k < i then s[k] else if k == i then n else s[k - 1];
    }
  }

  ghost function RemoveAt(s: seq<Node>, i: int): seq<Node>
    requires 0 <= i < |s|
  {
    s[..i] + s[i + 1..]
  }

  // Positions and neighbours after a removal.
  lemma {:induction false} RemovedAt(s: seq<Node>, i: int, w: seq<Node>)
    requires 0 <= i < |s| && w == RemoveAt(s, i)
    ensures |w| == |s| - 1
    ensures forall k :: 0 <= k < |w| ==> w[k] == if k < i then s[k] else s[k + 1]
    ensures forall k :: 0 <= k <= |w| ==>
      Before(w, k) == if k <= i then Before(s, k) else s[k]
    ensures forall k :: -1 <= k < |w| ==>
      After(w, k) == if k < i - 1 then After(s, k) else if k + 2 < |s| then s[k + 2] else null
  {
  }

  lemma {:induction false} RemovedEnds(s: seq<Node>, i: int, w: seq<Node>)
    requires 0 <= i < |s| && w == RemoveAt(s, i)
    ensures After(w, -1) == if i == 0 then After(s, 0) else After(s, -1)
    ensures Before(w, |w|) == if i == |s| - 1 then Before(s, i) else Before(s, |s|)
  {
    RemovedAt(s, i, w);
  }

  // Two nodes in a row, the first removed and then put in place of the second.
  lemma {:induction false} TwoInARow(pre: seq<Node>, f: Node, n: Node, post: seq<Node>, s: seq<Node>, w: seq<Node>)
    requires s == pre + [f, n] + post && w == pre + [n] + post
    ensures |s| == |pre| + 2 + |post| && s[|pre|] == f && w[|pre|] == n
    ensures RemoveAt(s, |pre|) == w && w[|pre| := f] == pre + [f] + post
    ensures (forall i, j :: 0 <= i < j < |s| ==> s[i] != s[j]) ==> f !in w
  {
    assert forall k :: 0 <= k < |w| ==> w[k] == if k < |pre| then s[k] else s[k + 1];
  }

  // The list without the root node of a subtree that has no greater branch.
  lemma {:induction false} RemovedRoot(pre: seq<Node>, t: Tree<Node>, post: seq<Node>)
    requires t.Fork? && t.right.Leaf?
    ensures |pre| + |Ids(t.left)| < |pre + Ids(t) + post| && (pre + Ids(t) + post)[|pre| + |Ids(t.left)|] == t.e.id
    ensures RemoveAt(pre + Ids(t) + post, |pre| + |Ids(t.left)|) == pre + Ids(t.left) + post
  {
    var a := pre + Ids(t.left);
    assert pre + Ids(t) + post == a + [t.e.id] + post by {
      AroundLeft(pre, t, post);
      assert Ids(t.right) == [];
    }
    assert RemoveAt(a + [t.e.id] + post, |a|) == a + post;
  }

  ghost function ToOption(n: Node?): Option<Node> {
    if n == null then None else var m: Node := n; Some(m)
  }

  datatype Status = Okay | ErrExist

  class Cursor {
    var current: Node?
    var status: Status
    var key: Key    // the key of the operation
    var res: Data   // data and key of a deleted entry
    var rkey: Key

    constructor (k: Key)
      ensures key == k
    {
      current, status, key, res, rkey := null, Okay, k, 0, [];
    }
  }

  class VelyTree {
    const eval: Eval
    const sorted: bool
    const top: Node  // never holds a key; its lesser child is the root of the tree
    var min: Node?
    var max: Node?
    var count: int
    var hops: nat    // comparisons made by the operation

    ghost var shape: Tree<Node>

    // The list and its two ends.
    ghost predicate Listed(s: seq<Node>, all: set<Node>)
      reads this`min, this`max, all`prev, all`next
    {
      sorted ==>
        && Threaded(s, all)
        && min == After(s, -1)
        && max == Before(s, |s|)
    }

    /** The heap holds the tree value and, in a sorted tree, the list of its nodes. */
    ghost predicate Formed()
      reads this`min, this`max, this`shape, top, top.lesser, Nodes(shape)
    {
      && top !in Nodes(shape) && top.lesser != null && top.lesser != top
      && Rooted(top.lesser, shape)
      && (shape.Leaf? ==> top.lesser.lesser == null && top.lesser.greater == null)
      && (shape.Leaf? ==> top.lesser.prev == null && top.lesser.next == null)
      && Listed(Ids(shape), Nodes(shape))
    }

    /** What holds between the operations: search order, lazy heights, the list and the count. */
    ghost predicate Valid()
      reads this`min, this`max, this`count, this`shape, top, top.lesser, Nodes(shape)
    {
      && Formed()
      && TotalOrder(eval) && Sorted(eval, Items(shape)) && Lazy(shape)
      && count == |Items(shape)| < COUNT_LIMIT
    }

    // The root as the operations find it: without a key when the tree is empty.
    ghost predicate Rooted(tree: Node?, t: Tree<Node>)
      reads if tree == null then {} else {tree}
      reads Nodes(t)`key, Nodes(t)`data, Nodes(t)`keyPresent, Nodes(t)`height, Nodes(t)`lesser, Nodes(t)`greater
    {
      if t.Leaf? then tree != null && !tree.keyPresent else Holds(tree, t)
    }

    // vv_tree_create and vv_tree_create_root
    constructor (ef: Eval, isSorted: bool)
      requires TotalOrder(ef)
      ensures Valid() && Items(shape) == [] && eval == ef && sorted == isSorted
      ensures fresh(top) && fresh(top.lesser)
    {
      eval, sorted, min, max, count, hops, shape := ef, isSorted, null, null, 0, 0, Leaf;
      var dummy := new Node();
      var root := new Node();
      dummy.lesser := root;
      top := dummy;
    }

    // Link a new node between two neighbours of the list, in front of s[i] or behind s[i - 1].
    lemma {:induction false} Linking(n: Node, s: seq<Node>, i: int, all: set<Node>)
      requires 0 <= i <= |s| && n !in s && n in all
      requires forall k :: 0 <= k < |s| ==> s[k] in all
      requires forall j, k :: 0 <= j < k < |s| ==> s[j] != s[k]
      requires forall k :: 0 <= k < |s| ==> s[k].prev == if k == i then n else Before(s, k)
      requires forall k :: 0 <= k < |s| ==> s[k].next == if k == i - 1 then n else After(s, k)
      requires n.prev == Before(s, i) && n.next == After(s, i - 1)
      ensures Threaded(InsertAt(s, i, n), all)
    {
      var w := InsertAt(s, i, n);
      InsertedAt(s, i, n, w);
      InsertedApart(s, i, n, w);
      forall k | 0 <= k < |w| ensures w[k] in all && w[k].prev == Before(w, k) && w[k].next == After(w, k) {
        if k < i { assert w[k] == s[k]; } else if k > i { assert w[k] == s[k - 1]; }
      }
    }

    // tree.c:279-282
    method LinkBefore(n: Node, tree: Node, ghost s: seq<Node>, ghost i: nat, ghost all: set<Node>)
      requires Threaded(s, all) && i < |s| && s[i] == tree && n !in s
      modifies all`prev, all`next, n`prev, n`next
      ensures Threaded(InsertAt(s, i, n), all + {n})
    {
      assert allocated(all);
      if tree.prev != null { tree.prev.next := n; }
      n.prev := tree.prev;
      tree.prev := n;
      n.next := tree;
      Linking(n, s, i, all + {n});
    }

    // tree.c:309-312
    method LinkAfter(n: Node, tree: Node, ghost s: seq<Node>, ghost i: nat, ghost all: set<Node>)
      requires Threaded(s, all) && i < |s| && s[i] == tree && n !in s
      modifies all`prev, all`next, n`prev, n`next
      ensures Threaded(InsertAt(s, i + 1, n), all + {n})
    {
      assert allocated(all);
      if tree.next != null { tree.next.prev := n; }
      n.next := tree.next;
      tree.next := n;
      n.prev := tree;
      Linking(n, s, i + 1, all + {n});
    }

    // The list without s[i], when only its two neighbours have been changed.
    lemma {:induction false} Unlinking(s: seq<Node>, i: int, all: set<Node>)
      requires 0 <= i < |s| && forall k :: 0 <= k < |s| ==> s[k] in all
      requires forall j, k :: 0 <= j < k < |s| ==> s[j] != s[k]
      requires forall k :: 0 <= k < |s| && k != i ==> s[k].prev == if k == i + 1 then Before(s, i) else Before(s, k)
      requires forall k :: 0 <= k < |s| && k != i ==> s[k].next == if k == i - 1 then After(s, i) else After(s, k)
      ensures Threaded(RemoveAt(s, i), all)
    {
      var w := RemoveAt(s, i);
      RemovedAt(s, i, w);
      forall k | 0 <= k < |w| ensures w[k].prev == Before(w, k) && w[k].next == After(w, k) {
        if k < i { assert w[k] == s[k]; } else { assert w[k] == s[k + 1]; }
      }
    }

    // Take a node out of the list (tree.c:587-588, and the first half of tree.c:535-540).
    method Unlink(tree: Node, ghost s: seq<Node>, ghost i: nat, ghost all: set<Node>)
      requires sorted && Listed(s, all) && i < |s| && s[i] == tree
      modifies all`prev, all`next, this`min, this`max
      ensures Listed(RemoveAt(s, i), all)
    {
      assert allocated(all);
      assert s[i].prev == Before(s, i) && s[i].next == After(s, i);
      if tree.prev != null { tree.prev.next := tree.next; } else { min := tree.next; }
      if tree.next != null { tree.next.prev := tree.prev; } else { max := tree.prev; }
      Unlinking(s, i, all);
      RemovedEnds(s, i, RemoveAt(s, i));
    }

    // The list with found in place of s[i], when only the links of found and its neighbours were set.
    lemma {:induction false} Replacing(s: seq<Node>, i: int, found: Node, all: set<Node>)
      requires 0 <= i < |s| && found !in s && found in all && forall k :: 0 <= k < |s| ==> s[k] in all
      requires forall j, k :: 0 <= j < k < |s| ==> s[j] != s[k]
      requires forall k :: 0 <= k < |s| && k != i ==> s[k].prev == if k == i + 1 then found else Before(s, k)
      requires forall k :: 0 <= k < |s| && k != i ==> s[k].next == if k == i - 1 then found else After(s, k)
      requires found.prev == Before(s, i) && found.next == After(s, i)
      ensures Threaded(s[i := found], all)
      ensures After(s[i := found], -1) == if i == 0 then found else After(s, -1)
      ensures Before(s[i := found], |s|) == if i == |s| - 1 then found else Before(s, |s|)
    {
      var w := s[i := found];
      forall k | 0 <= k < |w|
        ensures Before(w, k) == if k == i + 1 then found else Before(s, k)
        ensures After(w, k) == if k == i - 1 then found else After(s, k)
      {
      }
      forall k | 0 <= k < |w| ensures w[k].prev == Before(w, k) && w[k].next == After(w, k) {
        if k != i { assert w[k] == s[k]; }
      }
    }

    // The lesser neighbour of next, or min, now leads to found.
    method PointLesser(found: Node, next: Node, ghost s: seq<Node>, ghost i: nat, ghost all: set<Node>)
      requires Threaded(s, all) && i < |s| && s[i] == next
      modifies all`next, this`min
      ensures forall k :: 0 <= k < |s| ==> s[k].next == if k == i - 1 then found else After(s, k)
      ensures forall n :: n in all && n !in s ==> n.next == old(n.next)
      ensures min == if i == 0 then found else old(min)
    {
      assert allocated(all);
      assert next.prev == Before(s, i);
      if next.prev != null { next.prev.next := found; } else { min := found; }
    }

    method PointGreater(found: Node, next: Node, ghost s: seq<Node>, ghost i: nat, ghost all: set<Node>)
      requires i < |s| && s[i] == next && next.next == After(s, i)
      requires forall k :: 0 <= k < |s| ==> s[k] in all
      requires forall j, k :: 0 <= j < k < |s| ==> s[j] != s[k]
      requires forall k :: 0 <= k < |s| ==> s[k].prev == Before(s, k)
      modifies all`prev, this`max
      ensures forall k :: 0 <= k < |s| ==> s[k].prev == if k == i + 1 then found else Before(s, k)
      ensures forall n :: n in all && n !in s ==> n.prev == old(n.prev)
      ensures max == if i == |s| - 1 then found else old(max)
    {
      assert allocated(all);
      if next.next != null { next.next.prev := found; } else { max := found; }
    }

    // A node outside the list takes the place of a listed one (the second half of tree.c:535-540).
    method TakePlace(found: Node, next: Node, ghost s: seq<Node>, ghost i: nat, ghost all: set<Node>)
      requires sorted && Listed(s, all) && i < |s| && s[i] == next && found !in s && found in all
      modifies all`prev, all`next, this`min, this`max
      ensures Listed(s[i := found], all)
    {
      assert allocated(all);
      assert next.prev == Before(s, i) && next.next == After(s, i);
      found.prev := next.prev;
      found.next := next.next;
      assert Threaded(s, all);
      PointLesser(found, next, s, i, all);
      PointGreater(found, next, s, i, all);
      Replacing(s, i, found, all);
    }

    // RebalanceLesser, seen from the list: the nodes keep their places in it.
    method RiseLesser(parent: Node, dir: Dir, tree: Node,
                   ghost t: Tree<Node>, ghost pre: seq<Node>, ghost post: seq<Node>, ghost all: set<Node>)
      requires t.Fork? && tree == t.e.id && tree.keyPresent && tree.key == t.e.key && tree.data == t.e.data
      requires Holds(tree.lesser, t.left) && Holds(tree.greater, t.right)
      requires tree !in Nodes(t.left) && tree !in Nodes(t.right) && Nodes(t.left) !! Nodes(t.right)
      requires parent !in Nodes(t) && Child(parent, dir) == tree
      requires Listed(pre + Ids(t.left) + ([tree] + Ids(t.right) + post), all)
      modifies parent`lesser, parent`greater, parent`height
      modifies Nodes(t)`lesser, Nodes(t)`greater, Nodes(t)`height
      ensures Holds(Child(parent, dir), M.Balance(t.(left := Mend(t.left))))
      ensures Listed(pre + Ids(M.Balance(t.(left := Mend(t.left)))) + post, all)
      ensures Other(parent, dir) == old(Other(parent, dir))
    {
      ghost var s := pre + Ids(t.left) + ([tree] + Ids(t.right) + post);
      RebalanceLesser(parent, dir, tree, t);
      assert Listed(s, all);
      RiseLeft(pre, t, post);
    }

    // RebalanceGreater, seen from the list: the nodes keep their places in it.
    method RiseGreater(parent: Node, dir: Dir, tree: Node,
                   ghost t: Tree<Node>, ghost pre: seq<Node>, ghost post: seq<Node>, ghost all: set<Node>)
      requires t.Fork? && tree == t.e.id && tree.keyPresent && tree.key == t.e.key && tree.data == t.e.data
      requires Holds(tree.lesser, t.left) && Holds(tree.greater, t.right)
      requires tree !in Nodes(t.left) && tree !in Nodes(t.right) && Nodes(t.left) !! Nodes(t.right)
      requires parent !in Nodes(t) && Child(parent, dir) == tree
      requires Listed((pre + Ids(t.left) + [tree]) + Ids(t.right) + post, all)
      modifies parent`lesser, parent`greater, parent`height
      modifies Nodes(t)`lesser, Nodes(t)`greater, Nodes(t)`height
      ensures Holds(Child(parent, dir), M.Balance(t.(right := Mend(t.right))))
      ensures Listed(pre + Ids(M.Balance(t.(right := Mend(t.right)))) + post, all)
      ensures Other(parent, dir) == old(Other(parent, dir))
    {
      ghost var s := (pre + Ids(t.left) + [tree]) + Ids(t.right) + post;
      RebalanceGreater(parent, dir, tree, t);
      assert Listed(s, all);
      RiseRight(pre, t, post);
    }

    // ---- Insert ----

    // tree.c:253-258: a node without a neighbour on one side is that end of the list.
    method SetEnds(tree: Node, ghost w: seq<Node>, ghost p: nat, ghost all: set<Node>)
      requires Threaded(w, all) && p < |w| && w[p] == tree
      requires (p > 0 ==> min == w[0]) && (p < |w| - 1 ==> max == w[|w| - 1])
      modifies this`min, this`max
      ensures Listed(w, all)
    {
      assert tree.prev == Before(w, p) && tree.next == After(w, p);
      if tree.prev == null { min := tree; }
      if tree.next == null { max := tree; }
      assert Threaded(w, all);
    }

    // Key and data make an unlinked node a tree of one.
    method SetEntry(tree: Node, key: Key, data: Data)
      requires tree.lesser == null && tree.greater == null
      modifies tree`key, tree`data, tree`height, tree`keyPresent
      ensures Holds(tree, NewLeaf(Entry(tree, key, data))) && tree.key == key && tree.data == data
    {
      tree.key := key;
      tree.data := data;
      tree.height := 1;
      tree.keyPresent := true;
      Fold(tree, NewLeaf(Entry(tree, key, data)));
    }

    // vv_tree_insert at a node without a key (tree.c:246-263): the node, already linked in the list w,
    // receives key and data.
    method FillNode(cur: Cursor, tree: Node, data: Data, ghost w: seq<Node>, ghost p: nat, ghost all: set<Node>)
      requires tree.lesser == null && tree.greater == null
      requires sorted ==>
        && Threaded(w, all) && p < |w| && w[p] == tree
        && (p > 0 ==> min == w[0]) && (p < |w| - 1 ==> max == w[|w| - 1])
      modifies tree`key, tree`data, tree`height, tree`keyPresent, this`min, this`max, this`count
      modifies cur`current, cur`status
      ensures Holds(tree, NewLeaf(Entry(tree, cur.key, data))) && Listed(w, all)
      ensures tree.key == cur.key && tree.data == data
      ensures count == old(count) + 1 && cur.current == tree && cur.status == Okay
    {
      assert allocated(all);
      SetEntry(tree, cur.key, data);
      if sorted {
        assert Threaded(w, all);
        SetEnds(tree, w, p, all);
      }
      cur.current := tree;
      cur.status := Okay;
      count := count + 1;
    }

    // Link a new child of a listed node beside it.
    method LinkLeaf(n: Node, tree: Node, dir: Dir, ghost s: seq<Node>, ghost i: nat, ghost all: set<Node>)
      requires Threaded(s, all) && i < |s| && s[i] == tree && n !in s
      modifies all`prev, all`next, n`prev, n`next
      ensures Threaded(InsertAt(s, if dir.Lesser? then i else i + 1, n), all + {n})
    {
      if dir.Lesser? { LinkBefore(n, tree, s, i, all); } else { LinkAfter(n, tree, s, i, all); }
    }

    // A missing child is created and linked into the list beside its parent (tree.c:271-284, 302-314).
    method NewChild(tree: Node, dir: Dir, ghost s: seq<Node>, ghost i: nat, ghost all: set<Node>) returns (n: Node)
      requires Child(tree, dir) == null && i < |s| && s[i] == tree && tree in all && Listed(s, all)
      modifies tree`lesser, tree`greater, all`prev, all`next
      ensures fresh(n) && n.lesser == null && n.greater == null
      ensures dir.Lesser? ==> tree.lesser == n && tree.greater == old(tree.greater)
      ensures dir.Greater? ==> tree.greater == n && tree.lesser == old(tree.lesser)
      ensures sorted ==> Threaded(InsertAt(s, if dir.Lesser? then i else i + 1, n), all + {n})
    {
      assert allocated(all);
      n := new Node();
      assert n !in all;
      if dir.Lesser? { tree.lesser := n; } else { tree.greater := n; }
      if sorted {
        LinkLeaf(n, tree, dir, s, i, all);
      }
    }

    // A new leaf: created, linked and filled (tree.c:246-263 is the call that fills it).
    method AddLeaf(cur: Cursor, tree: Node, dir: Dir, data: Data, ghost s: seq<Node>, ghost i: nat,
            ghost all: set<Node>)
      returns (n: Node)
      requires Child(tree, dir) == null && i < |s| && s[i] == tree && tree in all && Listed(s, all)
      modifies tree`lesser, tree`greater, all`prev, all`next, this`min, this`max, this`count
      modifies cur`current, cur`status
      ensures fresh(n)
      ensures dir.Lesser? ==> tree.lesser == n && tree.greater == old(tree.greater)
      ensures dir.Greater? ==> tree.greater == n && tree.lesser == old(tree.lesser)
      ensures Holds(n, NewLeaf(Entry(n, cur.key, data))) && n.key == cur.key && n.data == data
      ensures Listed(InsertAt(s, if dir.Lesser? then i else i + 1, n), all + {n})
      ensures count == old(count) + 1 && cur.current == n && cur.status == Okay
    {
      ghost var p := if dir.Lesser? then i else i + 1;
      n := NewChild(tree, dir, s, i, all);
      ghost var w := InsertAt(s, p, n);
      InsertedEnds(s, p, n, w);
      FillNode(cur, n, data, w, p, all + {n});
    }

    // The new key belongs in an empty lesser place of the node.
    method AddLesser(cur: Cursor, tree: Node, data: Data,
                  ghost t: Tree<Node>, ghost pre: seq<Node>, ghost post: seq<Node>, ghost all: set<Node>)
      returns (n: Node)
      requires t.Fork? && t.left.Leaf? && Holds(tree, t) && eval(cur.key, t.e.key) < 0
      requires Listed(pre + Ids(t) + post, all) && Nodes(t) <= all
      modifies tree`lesser, tree`greater
      modifies all`prev, all`next, this`min, this`max, this`count, cur`current, cur`status
      ensures fresh(n) && cur.status == Okay && cur.current == n && count == old(count) + 1
      ensures n.key == cur.key && n.data == data
      ensures !Present(eval, t, cur.key)
      ensures var t1 := M.Insert(eval, t, Entry(n, cur.key, data));
              Holds(tree, t1) && Listed(pre + Ids(t1) + post, all + {n})
    {
      assert !Present(eval, t.left, cur.key);
      Unfold(tree, t);
      assert allocated(all);
      ghost var s, i := pre + Ids(t) + post, |pre| + |Ids(t.left)|;
      assert i < |s| && s[i] == tree by { LeafBefore(pre, t, post, t.e); }
      n := AddLeaf(cur, tree, Lesser, data, s, i, all);
      ghost var t1 := t.(left := NewLeaf(Entry(n, cur.key, data)));
      assert Holds(tree, t1) by { Fold(tree, t1); }
      assert pre + Ids(t1) + post == InsertAt(s, i, n) by { LeafBefore(pre, t, post, Entry(n, cur.key, data)); }
    }

    // The new key belongs in an empty greater place of the node.
    method AddGreater(cur: Cursor, tree: Node, data: Data,
                  ghost t: Tree<Node>, ghost pre: seq<Node>, ghost post: seq<Node>, ghost all: set<Node>)
      returns (n: Node)
      requires t.Fork? && t.right.Leaf? && Holds(tree, t) && eval(cur.key, t.e.key) > 0
      requires Listed(pre + Ids(t) + post, all) && Nodes(t) <= all
      modifies tree`lesser, tree`greater
      modifies all`prev, all`next, this`min, this`max, this`count, cur`current, cur`status
      ensures fresh(n) && cur.status == Okay && cur.current == n && count == old(count) + 1
      ensures n.key == cur.key && n.data == data
      ensures !Present(eval, t, cur.key)
      ensures var t1 := M.Insert(eval, t, Entry(n, cur.key, data));
              Holds(tree, t1) && Listed(pre + Ids(t1) + post, all + {n})
    {
      assert !Present(eval, t.right, cur.key);
      Unfold(tree, t);
      assert allocated(all);
      ghost var s, i := pre + Ids(t) + post, |pre| + |Ids(t.left)|;
      assert i < |s| && s[i] == tree by { LeafAfter(pre, t, post, t.e); }
      n := AddLeaf(cur, tree, Greater, data, s, i, all);
      ghost var t1 := t.(right := NewLeaf(Entry(n, cur.key, data)));
      assert Holds(tree, t1) by { Fold(tree, t1); }
      assert pre + Ids(t1) + post == InsertAt(s, i + 1, n) by { LeafAfter(pre, t, post, Entry(n, cur.key, data)); }
    }

    // A branch may get a node more: the parts of the tree stay apart.
    static lemma {:induction false} ApartLesser(t: Tree<Node>, l: Tree<Node>, n: Node, parent: Node)
      requires t.Fork? && Separate(t) && parent !in Nodes(t)
      requires Nodes(l) <= Nodes(t.left) + {n} && n !in Nodes(t.right) && n != t.e.id && n != parent
      ensures var t1 := t.(left := l);
              && t.e.id !in Nodes(l) && t.e.id !in Nodes(t.right) && Nodes(l) !! Nodes(t.right)
              && parent !in Nodes(t1) && Nodes(t1) <= Nodes(t) + {n}
    {
    }

    static lemma {:induction false} ApartGreater(t: Tree<Node>, r: Tree<Node>, n: Node, parent: Node)
      requires t.Fork? && Separate(t) && parent !in Nodes(t)
      requires Nodes(r) <= Nodes(t.right) + {n} && n !in Nodes(t.left) && n != t.e.id && n != parent
      ensures var t1 := t.(right := r);
              && t.e.id !in Nodes(t.left) && t.e.id !in Nodes(r) && Nodes(t.left) !! Nodes(r)
              && parent !in Nodes(t1) && Nodes(t1) <= Nodes(t) + {n}
    {
    }

    // The call for the lesser child
    method InsertDownLesser(cur: Cursor, tree: Node, data: Data,
                  ghost t: Tree<Node>, ghost pre: seq<Node>, ghost post: seq<Node>, ghost all: set<Node>)
      returns (ghost n: Node)
      requires t.Fork? && Holds(tree, t) && t.left.Fork?
      requires Listed(pre + Ids(t) + post, all) && Nodes(t) <= all
      modifies tree`lesser, tree`greater, tree`height
      modifies Nodes(t.left)`lesser, Nodes(t.left)`greater, Nodes(t.left)`height
      modifies all`prev, all`next, this`min, this`max, this`count, this`hops, cur`current, cur`status
      ensures var u := M.Insert(eval, t.left, Entry(n, cur.key, data));
              && Holds(tree.lesser, u) && Holds(tree.greater, t.right) && Nodes(u) <= Nodes(t.left) + {n}
              && Listed(pre + Ids(u) + ([tree] + Ids(t.right) + post), all + {n})
      ensures n !in Nodes(t.right) && n != t.e.id && (n in Nodes(t.left) || fresh(n))
      ensures hops <= old(hops) + Height(t.left)
      ensures if Present(eval, t.left, cur.key) then n in Nodes(t.left)
              else fresh(n) && n.key == cur.key && n.data == data
      ensures cur.status == if Present(eval, t.left, cur.key) then ErrExist else Okay
      ensures cur.current == if Present(eval, t.left, cur.key) then old(cur.current) else n
      ensures count == if Present(eval, t.left, cur.key) then old(count) else old(count) + 1
      decreases t, 0
    {
      Unfold(tree, t);
      assert allocated(all);
      ghost var pre1, post1 := pre, [tree] + Ids(t.right) + post;
      assert pre1 + Ids(t.left) + post1 == pre + Ids(t) + post by { AroundLeft(pre, t, post); }
      n := Insert(cur, tree, Lesser, tree.lesser, data, t.left, pre1, post1, all);
      InsertNodes(eval, t.left, Entry(n, cur.key, data));
    }

    // The new key belongs below the lesser child; afterwards the node rises again.
    method InsertBelowLesser(cur: Cursor, parent: Node, dir: Dir, tree: Node, data: Data,
                  ghost t: Tree<Node>, ghost pre: seq<Node>, ghost post: seq<Node>, ghost all: set<Node>)
      returns (ghost n: Node)
      requires t.Fork? && Holds(tree, t) && parent !in Nodes(t) && Child(parent, dir) == tree
      requires t.left.Fork?
      requires Listed(pre + Ids(t) + post, all) && Nodes(t) <= all
      modifies parent`lesser, parent`greater, parent`height
      modifies Nodes(t)`lesser, Nodes(t)`greater, Nodes(t)`height
      modifies all`prev, all`next, this`min, this`max, this`count, this`hops, cur`current, cur`status
      ensures var t1 := M.Balance(t.(left := Mend(M.Insert(eval, t.left, Entry(n, cur.key, data)))));
              Holds(Child(parent, dir), t1) && Listed(pre + Ids(t1) + post, all + {n})
      ensures Other(parent, dir) == old(Other(parent, dir)) && hops <= old(hops) + Height(t.left)
      ensures if Present(eval, t.left, cur.key) then n in Nodes(t) else fresh(n) && n.key == cur.key && n.data == data
      ensures cur.status == if Present(eval, t.left, cur.key) then ErrExist else Okay
      ensures cur.current == if Present(eval, t.left, cur.key) then old(cur.current) else n
      ensures count == if Present(eval, t.left, cur.key) then old(count) else old(count) + 1
      decreases t, 1
    {
      Unfold(tree, t);
      assert allocated(Nodes(t));
      n := InsertDownLesser(cur, tree, data, t, pre, post, all);
      ghost var t1 := t.(left := M.Insert(eval, t.left, Entry(n, cur.key, data)));
      assert n != parent;
      ApartLesser(t, t1.left, n, parent);
      RiseLesser(parent, dir, tree, t1, pre, post, all + {n});
    }

    // The call for the greater child
    method InsertDownGreater(cur: Cursor, tree: Node, data: Data,
                  ghost t: Tree<Node>, ghost pre: seq<Node>, ghost post: seq<Node>, ghost all: set<Node>)
      returns (ghost n: Node)
      requires t.Fork? && Holds(tree, t) && t.right.Fork?
      requires Listed(pre + Ids(t) + post, all) && Nodes(t) <= all
      modifies tree`lesser, tree`greater, tree`height
      modifies Nodes(t.right)`lesser, Nodes(t.right)`greater, Nodes(t.right)`height
      modifies all`prev, all`next, this`min, this`max, this`count, this`hops, cur`current, cur`status
      ensures var u := M.Insert(eval, t.right, Entry(n, cur.key, data));
              && Holds(tree.greater, u) && Holds(tree.lesser, t.left) && Nodes(u) <= Nodes(t.right) + {n}
              && Listed((pre + Ids(t.left) + [tree]) + Ids(u) + post, all + {n})
      ensures n !in Nodes(t.left) && n != t.e.id && (n in Nodes(t.right) || fresh(n))
      ensures hops <= old(hops) + Height(t.right)
      ensures if Present(eval, t.right, cur.key) then n in Nodes(t.right)
              else fresh(n) && n.key == cur.key && n.data == data
      ensures cur.status == if Present(eval, t.right, cur.key) then ErrExist else Okay
      ensures cur.current == if Present(eval, t.right, cur.key) then old(cur.current) else n
      ensures count == if Present(eval, t.right, cur.key) then old(count) else old(count) + 1
      decreases t, 0
    {
      Unfold(tree, t);
      assert allocated(all);
      ghost var pre1, post1 := pre + Ids(t.left) + [tree], post;
      assert pre1 + Ids(t.right) + post1 == pre + Ids(t) + post by { AroundRight(pre, t, post); }
      n := Insert(cur, tree, Greater, tree.greater, data, t.right, pre1, post1, all);
      InsertNodes(eval, t.right, Entry(n, cur.key, data));
    }

    // The new key belongs below the greater child; afterwards the node rises again.
    method InsertBelowGreater(cur: Cursor, parent: Node, dir: Dir, tree: Node, data: Data,
                  ghost t: Tree<Node>, ghost pre: seq<Node>, ghost post: seq<Node>, ghost all: set<Node>)
      returns (ghost n: Node)
      requires t.Fork? && Holds(tree, t) && parent !in Nodes(t) && Child(parent, dir) == tree
      requires t.right.Fork?
      requires Listed(pre + Ids(t) + post, all) && Nodes(t) <= all
      modifies parent`lesser, parent`greater, parent`height
      modifies Nodes(t)`lesser, Nodes(t)`greater, Nodes(t)`height
      modifies all`prev, all`next, this`min, this`max, this`count, this`hops, cur`current, cur`status
      ensures var t1 := M.Balance(t.(right := Mend(M.Insert(eval, t.right, Entry(n, cur.key, data)))));
              Holds(Child(parent, dir), t1) && Listed(pre + Ids(t1) + post, all + {n})
      ensures Other(parent, dir) == old(Other(parent, dir)) && hops <= old(hops) + Height(t.right)
      ensures if Present(eval, t.right, cur.key) then n in Nodes(t) else fresh(n) && n.key == cur.key && n.data == data
      ensures cur.status == if Present(eval, t.right, cur.key) then ErrExist else Okay
      ensures cur.current == if Present(eval, t.right, cur.key) then old(cur.current) else n
      ensures count == if Present(eval, t.right, cur.key) then old(count) else old(count) + 1
      decreases t, 1
    {
      Unfold(tree, t);
      assert allocated(Nodes(t));
      n := InsertDownGreater(cur, tree, data, t, pre, post, all);
      ghost var t1 := t.(right := M.Insert(eval, t.right, Entry(n, cur.key, data)));
      assert n != parent;
      ApartGreater(t, t1.right, n, parent);
      RiseGreater(parent, dir, tree, t1, pre, post, all + {n});
    }

    method InsertLesser(cur: Cursor, parent: Node, dir: Dir, tree: Node, data: Data,
                  ghost t: Tree<Node>, ghost pre: seq<Node>, ghost post: seq<Node>, ghost all: set<Node>)
      returns (ghost n: Node)
      requires t.Fork? && Holds(tree, t) && parent !in Nodes(t) && Child(parent, dir) == tree
      requires eval(cur.key, t.e.key) < 0
      requires Listed(pre + Ids(t) + post, all) && Nodes(t) <= all
      modifies parent`lesser, parent`greater, parent`height
      modifies Nodes(t)`lesser, Nodes(t)`greater, Nodes(t)`height
      modifies all`prev, all`next, this`min, this`max, this`count, this`hops, cur`current, cur`status
      ensures var t1 := M.Insert(eval, t, Entry(n, cur.key, data));
              Holds(Child(parent, dir), t1) && Listed(pre + Ids(t1) + post, all + {n})
      ensures Other(parent, dir) == old(Other(parent, dir)) && hops <= old(hops) + Height(t) - 1
      ensures if Present(eval, t, cur.key) then n in Nodes(t) else fresh(n) && n.key == cur.key && n.data == data
      ensures cur.status == if Present(eval, t, cur.key) then ErrExist else Okay
      ensures cur.current == if Present(eval, t, cur.key) then old(cur.current) else n
      ensures count == if Present(eval, t, cur.key) then old(count) else old(count) + 1
      decreases t, 2
    {
      Unfold(tree, t);
      assert tree in Nodes(t);
      if tree.lesser == null {
        n := AddLesser(cur, tree, data, t, pre, post, all);
      } else {
        n := InsertBelowLesser(cur, parent, dir, tree, data, t, pre, post, all);
      }
    }

    method InsertGreater(cur: Cursor, parent: Node, dir: Dir, tree: Node, data: Data,
                  ghost t: Tree<Node>, ghost pre: seq<Node>, ghost post: seq<Node>, ghost all: set<Node>)
      returns (ghost n: Node)
      requires t.Fork? && Holds(tree, t) && parent !in Nodes(t) && Child(parent, dir) == tree
      requires eval(cur.key, t.e.key) > 0
      requires Listed(pre + Ids(t) + post, all) && Nodes(t) <= all
      modifies parent`lesser, parent`greater, parent`height
      modifies Nodes(t)`lesser, Nodes(t)`greater, Nodes(t)`height
      modifies all`prev, all`next, this`min, this`max, this`count, this`hops, cur`current, cur`status
      ensures var t1 := M.Insert(eval, t, Entry(n, cur.key, data));
              Holds(Child(parent, dir), t1) && Listed(pre + Ids(t1) + post, all + {n})
      ensures Other(parent, dir) == old(Other(parent, dir)) && hops <= old(hops) + Height(t) - 1
      ensures if Present(eval, t, cur.key) then n in Nodes(t) else fresh(n) && n.key == cur.key && n.data == data
      ensures cur.status == if Present(eval, t, cur.key) then ErrExist else Okay
      ensures cur.current == if Present(eval, t, cur.key) then old(cur.current) else n
      ensures count == if Present(eval, t, cur.key) then old(count) else old(count) + 1
      decreases t, 2
    {
      Unfold(tree, t);
      assert tree in Nodes(t);
      if tree.greater == null {
        n := AddGreater(cur, tree, data, t, pre, post, all);
      } else {
        n := InsertBelowGreater(cur, parent, dir, tree, data, t, pre, post, all);
      }
    }

    // vv_tree_insert at a node with a key. The list around the subtree is pre and post.
    method Insert(cur: Cursor, parent: Node, dir: Dir, tree: Node, data: Data,
                  ghost t: Tree<Node>, ghost pre: seq<Node>, ghost post: seq<Node>, ghost all: set<Node>)
      returns (ghost n: Node)
      requires t.Fork? && Holds(tree, t) && parent !in Nodes(t) && Child(parent, dir) == tree
      requires Listed(pre + Ids(t) + post, all) && Nodes(t) <= all
      modifies parent`lesser, parent`greater, parent`height
      modifies Nodes(t)`lesser, Nodes(t)`greater, Nodes(t)`height
      modifies all`prev, all`next, this`min, this`max, this`count, this`hops, cur`current, cur`status
      ensures var t1 := M.Insert(eval, t, Entry(n, cur.key, data));
              Holds(Child(parent, dir), t1) && Listed(pre + Ids(t1) + post, all + {n})
      ensures Other(parent, dir) == old(Other(parent, dir)) && hops <= old(hops) + Height(t)
      ensures if Present(eval, t, cur.key) then n in Nodes(t) else fresh(n) && n.key == cur.key && n.data == data
      ensures cur.status == if Present(eval, t, cur.key) then ErrExist else Okay
      ensures cur.current == if Present(eval, t, cur.key) then old(cur.current) else n
      ensures count == if Present(eval, t, cur.key) then old(count) else old(count) + 1
      decreases t, 3
    {
      Unfold(tree, t);
      assert tree in Nodes(t);
      hops := hops + 1;
      var comparison := eval(cur.key, tree.key);
      if comparison < 0 {
        n := InsertLesser(cur, parent, dir, tree, data, t, pre, post, all);
      } else if comparison == 0 {
        cur.status := ErrExist;
        n := tree;
        assert all + {n} == all;
      } else {
        n := InsertGreater(cur, parent, dir, tree, data, t, pre, post, all);
      }
    }

    // ---- Delete ----

    // tree.c:532-541: found takes over the place in the list of next, its successor there.
    method Succeed(found: Node, next: Node, ghost pre: seq<Node>, ghost post: seq<Node>, ghost all: set<Node>)
      requires Listed(pre + [found, next] + post, all) && found in all
      modifies all`prev, all`next, this`min, this`max
      ensures Listed(pre + [found] + post, all)
    {
      if sorted {
        ghost var s, w := pre + [found, next] + post, pre + [next] + post;
        TwoInARow(pre, found, next, post, s, w);
        Unlink(found, s, |pre|, all);
        TakePlace(found, next, w, |pre|, all);
      }
    }

    static lemma {:induction false} LeastInRow(pre: seq<Node>, found: Node, t: Tree<Node>, post: seq<Node>)
      requires t.Fork? && t.left.Leaf?
      ensures pre + [found] + Ids(t) + post == pre + [found, t.e.id] + (Ids(t.right) + post)
      ensures pre + [found] + (Ids(t.right) + post) == pre + [found] + Ids(t.right) + post
    {
      assert Ids(t.left) == [];
    }

    method TakeEntry(found: Node, tree: Node)
      modifies found`key, found`data
      ensures found.key == old(tree.key) && found.data == old(tree.data)
    {
      found.key, found.data := tree.key, tree.data;
    }

    // The end of the descent of vv_tree_find_leaf_del: tree is the successor of found in the list. It
    // leaves the tree, and found takes over its key, its data and its place in the list.
    method TakeOver(parent: Node, dir: Dir, tree: Node, found: Node,
                    ghost t: Tree<Node>, ghost pre: seq<Node>, ghost post: seq<Node>, ghost all: set<Node>)
      requires t.Fork? && t.left.Leaf? && Holds(tree, t) && parent !in Nodes(t) && Child(parent, dir) == tree
      requires found !in Nodes(t) && found in all && Nodes(t) <= all
      requires Listed(pre + [found] + Ids(t) + post, all)
      modifies parent`lesser, parent`greater, found`key, found`data
      modifies all`prev, all`next, this`min, this`max
      ensures Holds(Child(parent, dir), t.right) && Other(parent, dir) == old(Other(parent, dir))
      ensures found.key == t.e.key && found.data == t.e.data
      ensures Listed(pre + [found] + Ids(t.right) + post, all)
    {
      Unfold(tree, t);
      assert allocated(all);
      LeastInRow(pre, found, t, post);
      Succeed(found, tree, pre, Ids(t.right) + post, all);
      assert Holds(tree.greater, t.right);
      TakeEntry(found, tree);
      assert Holds(tree.greater, t.right);
      SetChild(parent, dir, tree.greater);
    }

    // vv_tree_find_leaf_del
    method FindLeafDel(parent: Node, dir: Dir, tree: Node, found: Node,
                       ghost t: Tree<Node>, ghost pre: seq<Node>, ghost post: seq<Node>, ghost all: set<Node>)
      requires t.Fork? && Holds(tree, t) && parent !in Nodes(t) && Child(parent, dir) == tree
      requires found !in Nodes(t) && found in all && Nodes(t) <= all
      requires Listed(pre + [found] + Ids(t) + post, all)
      modifies parent`lesser, parent`greater, parent`height, found`key, found`data
      modifies Nodes(t)`lesser, Nodes(t)`greater, Nodes(t)`height
      modifies all`prev, all`next, this`min, this`max
      ensures Holds(Child(parent, dir), DropLeast(t)) && Other(parent, dir) == old(Other(parent, dir))
      ensures found.key == Least(t).key && found.data == Least(t).data
      ensures Listed(pre + [found] + Ids(DropLeast(t)) + post, all)
      decreases t
    {
      Unfold(tree, t);
      assert allocated(all);
      if tree.lesser == null {
        TakeOver(parent, dir, tree, found, t, pre, post, all);
      } else {
        ghost var post1 := [tree] + Ids(t.right) + post;
        assert pre + [found] + Ids(t) + post == pre + [found] + Ids(t.left) + post1 by {
          AroundLeft(pre + [found], t, post);
        }
        FindLeafDel(tree, Lesser, tree.lesser, found, t.left, pre, post1, all);
        assert Nodes(DropLeast(t.left)) <= Nodes(t.left) by { DropLeastKeeps(t.left); }
        RiseLesser(parent, dir, tree, t.(left := DropLeast(t.left)), pre + [found], post, all);
      }
    }

    // The key's node has no greater branch: its lesser child takes its place (tree.c:580-592).
    method CutOut(parent: Node, dir: Dir, tree: Node,
                  ghost t: Tree<Node>, ghost pre: seq<Node>, ghost post: seq<Node>, ghost all: set<Node>)
      requires t.Fork? && Holds(tree, t) && parent !in Nodes(t) && Child(parent, dir) == tree
      requires t.right.Leaf?
      requires Listed(pre + Ids(t) + post, all) && Nodes(t) <= all
      modifies parent`lesser, parent`greater, all`prev, all`next, this`min, this`max
      ensures Holds(Child(parent, dir), t.left)
      ensures Listed(pre + Ids(t.left) + post, all)
      ensures Other(parent, dir) == old(Other(parent, dir))
    {
      Unfold(tree, t);
      assert allocated(all);
      ghost var s, i, w := pre + Ids(t) + post, |pre| + |Ids(t.left)|, pre + Ids(t.left) + post;
      assert i < |s| && s[i] == tree && RemoveAt(s, i) == w by { RemovedRoot(pre, t, post); }
      SetChild(parent, dir, tree.lesser);
      LeaveList(tree, s, i, w, all);
    }

    // In a sorted tree the node leaves the list.
    method LeaveList(tree: Node, ghost s: seq<Node>, ghost i: nat, ghost w: seq<Node>, ghost all: set<Node>)
      requires Listed(s, all) && i < |s| && s[i] == tree && RemoveAt(s, i) == w
      modifies all`prev, all`next, this`min, this`max
      ensures Listed(w, all)
    {
      if sorted { Unlink(tree, s, i, all); }
    }

    // The key's node has a greater branch: it takes over the least entry there (tree.c:598-601).
    method CopyUp(parent: Node, dir: Dir, tree: Node,
                  ghost t: Tree<Node>, ghost pre: seq<Node>, ghost post: seq<Node>, ghost all: set<Node>)
      requires t.Fork? && Holds(tree, t) && parent !in Nodes(t) && Child(parent, dir) == tree
      requires t.right.Fork?
      requires Listed(pre + Ids(t) + post, all) && Nodes(t) <= all
      modifies parent`lesser, parent`greater, parent`height
      modifies Nodes(t)`lesser, Nodes(t)`greater, Nodes(t)`height, Nodes(t)`key, Nodes(t)`data
      modifies all`prev, all`next, this`min, this`max
      ensures Holds(Child(parent, dir), M.Balance(Fork(t.left, Entry(t.e.id, Least(t.right).key, Least(t.right).data),
              t.height, Mend(DropLeast(t.right)))))
      ensures Listed(pre + Ids(M.Balance(Fork(t.left, Entry(t.e.id, Least(t.right).key, Least(t.right).data),
              t.height, Mend(DropLeast(t.right))))) + post, all)
      ensures Other(parent, dir) == old(Other(parent, dir))
    {
      Unfold(tree, t);
      assert allocated(all);
      ghost var l, r, next := t.left, t.right, Least(t.right);
      ghost var pre1 := pre + Ids(l);
      assert pre + Ids(t) + post == pre1 + [tree] + Ids(r) + post by { AroundRight(pre, t, post); }
      FindLeafDel(tree, Greater, tree.greater, tree, r, pre1, post, all);
      assert Nodes(DropLeast(r)) <= Nodes(r) by { DropLeastKeeps(r); }
      RiseGreater(parent, dir, tree, Fork(l, Entry(tree, next.key, next.data), t.height, DropLeast(r)), pre, post, all);
    }

    // The two ways to remove a node's entry (tree.c:580-601).
    method Detach(parent: Node, dir: Dir, tree: Node, ghost k: Key,
                  ghost t: Tree<Node>, ghost pre: seq<Node>, ghost post: seq<Node>, ghost all: set<Node>)
      requires t.Fork? && Holds(tree, t) && parent !in Nodes(t) && Child(parent, dir) == tree
      requires eval(k, t.e.key) == 0
      requires Listed(pre + Ids(t) + post, all) && Nodes(t) <= all
      modifies parent`lesser, parent`greater, parent`height
      modifies Nodes(t)`lesser, Nodes(t)`greater, Nodes(t)`height, Nodes(t)`key, Nodes(t)`data
      modifies all`prev, all`next, this`min, this`max
      ensures Holds(Child(parent, dir), M.Delete(eval, t, k))
      ensures Listed(pre + Ids(M.Delete(eval, t, k)) + post, all)
      ensures Other(parent, dir) == old(Other(parent, dir))
    {
      Unfold(tree, t);
      if tree.greater == null {
        CutOut(parent, dir, tree, t, pre, post, all);
        assert M.Delete(eval, t, k) == t.left;
      } else {
        CopyUp(parent, dir, tree, t, pre, post, all);
      }
    }

    // tree.c:604-607
    method SetResult(cur: Cursor, res: Data, rkey: Key)
      modifies this`count, cur`status, cur`res, cur`rkey
      ensures cur.status == Okay && count == old(count) - 1 && cur.res == res && cur.rkey == rkey
    {
      cur.status := Okay;
      count := count - 1;
      cur.res := res;
      cur.rkey := rkey;
    }

    // vv_tree_delete at the node with the key (tree.c:575-609).
    method DeleteHere(cur: Cursor, parent: Node, dir: Dir, tree: Node,
                  ghost t: Tree<Node>, ghost pre: seq<Node>, ghost post: seq<Node>, ghost all: set<Node>)
      requires t.Fork? && Holds(tree, t) && parent !in Nodes(t) && Child(parent, dir) == tree
      requires eval(cur.key, t.e.key) == 0
      requires Listed(pre + Ids(t) + post, all) && Nodes(t) <= all
      modifies parent`lesser, parent`greater, parent`height
      modifies Nodes(t)`lesser, Nodes(t)`greater, Nodes(t)`height, Nodes(t)`key, Nodes(t)`data
      modifies all`prev, all`next, this`min, this`max, this`count, cur`status, cur`res, cur`rkey
      ensures Holds(Child(parent, dir), M.Delete(eval, t, cur.key))
      ensures Listed(pre + Ids(M.Delete(eval, t, cur.key)) + post, all)
      ensures Other(parent, dir) == old(Other(parent, dir))
      ensures cur.status == Okay && count == old(count) - 1
      ensures cur.rkey == t.e.key && cur.res == t.e.data
    {
      Unfold(tree, t);
      assert allocated(all);
      var res := tree.data;
      var rkey := tree.key;
      Detach(parent, dir, tree, cur.key, t, pre, post, all);
      assert allocated(Nodes(M.Delete(eval, t, cur.key))) by { DeleteNodes(eval, t, cur.key); }
      SetResult(cur, res, rkey);
    }

    // The call for the lesser child
    method DeleteDownLesser(cur: Cursor, tree: Node,
                  ghost t: Tree<Node>, ghost pre: seq<Node>, ghost post: seq<Node>, ghost all: set<Node>)
      requires t.Fork? && Holds(tree, t) && t.left.Fork?
      requires Listed(pre + Ids(t) + post, all) && Nodes(t) <= all
      modifies tree`lesser, tree`greater, tree`height
      modifies Nodes(t.left)`lesser, Nodes(t.left)`greater, Nodes(t.left)`height
      modifies Nodes(t.left)`key, Nodes(t.left)`data
      modifies all`prev, all`next, this`min, this`max, this`count, this`hops, cur`status, cur`res, cur`rkey
      ensures var u := M.Delete(eval, t.left, cur.key);
              && Holds(tree.lesser, u) && Holds(tree.greater, t.right) && Nodes(u) <= Nodes(t.left)
              && Listed(pre + Ids(u) + ([tree] + Ids(t.right) + post), all)
      ensures cur.status == if Present(eval, t.left, cur.key) then Okay else ErrExist
      ensures count == if Present(eval, t.left, cur.key) then old(count) - 1 else old(count)
      ensures Present(eval, t.left, cur.key) ==> Item(cur.rkey, cur.res) == Located(eval, t.left, cur.key)
      ensures hops <= old(hops) + Height(t.left)
      decreases t, 0
    {
      Unfold(tree, t);
      assert allocated(all);
      ghost var pre1, post1 := pre, [tree] + Ids(t.right) + post;
      assert pre1 + Ids(t.left) + post1 == pre + Ids(t) + post by { AroundLeft(pre, t, post); }
      Delete(cur, tree, Lesser, tree.lesser, t.left, pre1, post1, all);
      DeleteNodes(eval, t.left, cur.key);
    }

    // vv_tree_delete below the lesser child; afterwards the node rises again.
    method DeleteBelowLesser(cur: Cursor, parent: Node, dir: Dir, tree: Node,
                  ghost t: Tree<Node>, ghost pre: seq<Node>, ghost post: seq<Node>, ghost all: set<Node>)
      requires t.Fork? && Holds(tree, t) && parent !in Nodes(t) && Child(parent, dir) == tree
      requires t.left.Fork?
      requires Listed(pre + Ids(t) + post, all) && Nodes(t) <= all
      modifies parent`lesser, parent`greater, parent`height
      modifies Nodes(t)`lesser, Nodes(t)`greater, Nodes(t)`height, Nodes(t)`key, Nodes(t)`data
      modifies all`prev, all`next, this`min, this`max, this`count, this`hops, cur`status, cur`res, cur`rkey
      ensures Holds(Child(parent, dir), M.Balance(t.(left := Mend(M.Delete(eval, t.left, cur.key)))))
      ensures Listed(pre + Ids(M.Balance(t.(left := Mend(M.Delete(eval, t.left, cur.key))))) + post, all)
      ensures Other(parent, dir) == old(Other(parent, dir))
      ensures cur.status == if Present(eval, t.left, cur.key) then Okay else ErrExist
      ensures count == if Present(eval, t.left, cur.key) then old(count) - 1 else old(count)
      ensures Present(eval, t.left, cur.key) ==> Item(cur.rkey, cur.res) == Located(eval, t.left, cur.key)
      ensures hops <= old(hops) + Height(t.left)
      decreases t, 1
    {
      Unfold(tree, t);
      assert allocated(Nodes(t));
      DeleteDownLesser(cur, tree, t, pre, post, all);
      RiseLesser(parent, dir, tree, t.(left := M.Delete(eval, t.left, cur.key)), pre, post, all);
    }

    // The call for the greater child
    method DeleteDownGreater(cur: Cursor, tree: Node,
                  ghost t: Tree<Node>, ghost pre: seq<Node>, ghost post: seq<Node>, ghost all: set<Node>)
      requires t.Fork? && Holds(tree, t) && t.right.Fork?
      requires Listed(pre + Ids(t) + post, all) && Nodes(t) <= all
      modifies tree`lesser, tree`greater, tree`height
      modifies Nodes(t.right)`lesser, Nodes(t.right)`greater, Nodes(t.right)`height
      modifies Nodes(t.right)`key, Nodes(t.right)`data
      modifies all`prev, all`next, this`min, this`max, this`count, this`hops, cur`status, cur`res, cur`rkey
      ensures var u := M.Delete(eval, t.right, cur.key);
              && Holds(tree.greater, u) && Holds(tree.lesser, t.left) && Nodes(u) <= Nodes(t.right)
              && Listed((pre + Ids(t.left) + [tree]) + Ids(u) + post, all)
      ensures cur.status == if Present(eval, t.right, cur.key) then Okay else ErrExist
      ensures count == if Present(eval, t.right, cur.key) then old(count) - 1 else old(count)
      ensures Present(eval, t.right, cur.key) ==> Item(cur.rkey, cur.res) == Located(eval, t.right, cur.key)
      ensures hops <= old(hops) + Height(t.right)
      decreases t, 0
    {
      Unfold(tree, t);
      assert allocated(all);
      ghost var pre1, post1 := pre + Ids(t.left) + [tree], post;
      assert pre1 + Ids(t.right) + post1 == pre + Ids(t) + post by { AroundRight(pre, t, post); }
      Delete(cur, tree, Greater, tree.greater, t.right, pre1, post1, all);
      DeleteNodes(eval, t.right, cur.key);
    }

    // vv_tree_delete below the greater child; afterwards the node rises again.
    method DeleteBelowGreater(cur: Cursor, parent: Node, dir: Dir, tree: Node,
                  ghost t: Tree<Node>, ghost pre: seq<Node>, ghost post: seq<Node>, ghost all: set<Node>)
      requires t.Fork? && Holds(tree, t) && parent !in Nodes(t) && Child(parent, dir) == tree
      requires t.right.Fork?
      requires Listed(pre + Ids(t) + post, all) && Nodes(t) <= all
      modifies parent`lesser, parent`greater, parent`height
      modifies Nodes(t)`lesser, Nodes(t)`greater, Nodes(t)`height, Nodes(t)`key, Nodes(t)`data
      modifies all`prev, all`next, this`min, this`max, this`count, this`hops, cur`status, cur`res, cur`rkey
      ensures Holds(Child(parent, dir), M.Balance(t.(right := Mend(M.Delete(eval, t.right, cur.key)))))
      ensures Listed(pre + Ids(M.Balance(t.(right := Mend(M.Delete(eval, t.right, cur.key))))) + post, all)
      ensures Other(parent, dir) == old(Other(parent, dir))
      ensures cur.status == if Present(eval, t.right, cur.key) then Okay else ErrExist
      ensures count == if Present(eval, t.right, cur.key) then old(count) - 1 else old(count)
      ensures Present(eval, t.right, cur.key) ==> Item(cur.rkey, cur.res) == Located(eval, t.right, cur.key)
      ensures hops <= old(hops) + Height(t.right)
      decreases t, 1
    {
      Unfold(tree, t);
      assert allocated(Nodes(t));
      DeleteDownGreater(cur, tree, t, pre, post, all);
      RiseGreater(parent, dir, tree, t.(right := M.Delete(eval, t.right, cur.key)), pre, post, all);
    }

    // The key of the node is another one (tree.c:610-635).
    method DeleteBeside(cur: Cursor, parent: Node, dir: Dir, tree: Node,
                  ghost t: Tree<Node>, ghost pre: seq<Node>, ghost post: seq<Node>, ghost all: set<Node>)
      requires t.Fork? && Holds(tree, t) && parent !in Nodes(t) && Child(parent, dir) == tree
      requires eval(cur.key, t.e.key) != 0
      requires Listed(pre + Ids(t) + post, all) && Nodes(t) <= all
      modifies parent`lesser, parent`greater, parent`height
      modifies Nodes(t)`lesser, Nodes(t)`greater, Nodes(t)`height, Nodes(t)`key, Nodes(t)`data
      modifies all`prev, all`next, this`min, this`max, this`count, this`hops, cur`status, cur`res, cur`rkey
      ensures Holds(Child(parent, dir), M.Delete(eval, t, cur.key))
      ensures Listed(pre + Ids(M.Delete(eval, t, cur.key)) + post, all)
      ensures Other(parent, dir) == old(Other(parent, dir))
      ensures cur.status == if Present(eval, t, cur.key) then Okay else ErrExist
      ensures count == if Present(eval, t, cur.key) then old(count) - 1 else old(count)
      ensures Present(eval, t, cur.key) ==> Item(cur.rkey, cur.res) == Located(eval, t, cur.key)
      ensures hops <= old(hops) + Height(t) - 1
      decreases t, 2
    {
      Unfold(tree, t);
      assert tree in Nodes(t);
      var cmp := eval(cur.key, tree.key);
      if cmp < 0 && tree.lesser != null {
        DeleteBelowLesser(cur, parent, dir, tree, t, pre, post, all);
      } else if cmp > 0 && tree.greater != null {
        DeleteBelowGreater(cur, parent, dir, tree, t, pre, post, all);
      } else {
        assert !Present(eval, if cmp < 0 then t.left else t.right, cur.key);
        cur.status := ErrExist;
      }
    }

    // vv_tree_delete
    method Delete(cur: Cursor, parent: Node, dir: Dir, tree: Node,
                  ghost t: Tree<Node>, ghost pre: seq<Node>, ghost post: seq<Node>, ghost all: set<Node>)
      requires t.Fork? && Holds(tree, t) && parent !in Nodes(t) && Child(parent, dir) == tree
      requires Listed(pre + Ids(t) + post, all) && Nodes(t) <= all
      modifies parent`lesser, parent`greater, parent`height
      modifies Nodes(t)`lesser, Nodes(t)`greater, Nodes(t)`height, Nodes(t)`key, Nodes(t)`data
      modifies all`prev, all`next, this`min, this`max, this`count, this`hops, cur`status, cur`res, cur`rkey
      ensures Holds(Child(parent, dir), M.Delete(eval, t, cur.key))
      ensures Listed(pre + Ids(M.Delete(eval, t, cur.key)) + post, all)
      ensures Other(parent, dir) == old(Other(parent, dir))
      ensures cur.status == if Present(eval, t, cur.key) then Okay else ErrExist
      ensures count == if Present(eval, t, cur.key) then old(count) - 1 else old(count)
      ensures Present(eval, t, cur.key) ==> Item(cur.rkey, cur.res) == Located(eval, t, cur.key)
      ensures hops <= old(hops) + Height(t)
      decreases t, 3
    {
      Unfold(tree, t);
      assert tree in Nodes(t);
      hops := hops + 1;
      var cmp := eval(cur.key, tree.key);
      if cmp == 0 {
        DeleteHere(cur, parent, dir, tree, t, pre, post, all);
      } else {
        DeleteBeside(cur, parent, dir, tree, t, pre, post, all);
      }
    }

    // ---- Searches ----

    // vv_tree_search_lesser_equal
    method SearchLesserEqual(cur: Cursor, tree: Node?, equal: bool, ghost t: Tree<Node>)
      requires Rooted(tree, t)
      modifies this`hops, cur`status, cur`current
      ensures var found := FloorSearch(eval, t, cur.key, equal, None);
              && cur.status == (if found.Some? then Okay else ErrExist)
              && cur.current == (if found.Some? then found.value else old(cur.current))
      ensures hops <= old(hops) + Height(t)
    {
      var prevLesser: Node? := null;
      ghost var u := t;
      if tree != null && tree.keyPresent {
        var n: Node? := tree;
        while n != null
          invariant Holds(n, u)
          invariant FloorSearch(eval, u, cur.key, equal, ToOption(prevLesser))
                    == FloorSearch(eval, t, cur.key, equal, None)
          invariant hops + Height(u) <= old(hops) + Height(t)
          invariant cur.status == old(cur.status) && cur.current == old(cur.current)
          decreases u
        {
          Unfold(n, u);
          hops := hops + 1;
          var cmp := eval(cur.key, n.key);
          if cmp == 0 {
            if !equal {
              cmp := -1;
            } else {
              cur.status := Okay;
              cur.current := n;
              return;
            }
          }
          if cmp < 0 {
            n := n.lesser;
            u := u.left;
          } else {
            prevLesser := n;
            n := n.greater;
            u := u.right;
          }
        }
      }
      if prevLesser != null {
        cur.status := Okay;
        cur.current := prevLesser;
      } else {
        cur.status := ErrExist;
      }
    }

    // vv_tree_search_greater_equal
    method SearchGreaterEqual(cur: Cursor, tree: Node?, equal: bool, ghost t: Tree<Node>)
      requires Rooted(tree, t)
      modifies this`hops, cur`status, cur`current
      ensures var found := CeilingSearch(eval, t, cur.key, equal, None);
              && cur.status == (if found.Some? then Okay else ErrExist)
              && cur.current == (if found.Some? then found.value else old(cur.current))
      ensures hops <= old(hops) + Height(t)
    {
      var prevGreater: Node? := null;
      ghost var u := t;
      if tree != null && tree.keyPresent {
        var n: Node? := tree;
        while n != null
          invariant Holds(n, u)
          invariant CeilingSearch(eval, u, cur.key, equal, ToOption(prevGreater))
                    == CeilingSearch(eval, t, cur.key, equal, None)
          invariant hops + Height(u) <= old(hops) + Height(t)
          invariant cur.status == old(cur.status) && cur.current == old(cur.current)
          decreases u
        {
          Unfold(n, u);
          hops := hops + 1;
          var cmp := eval(cur.key, n.key);
          if cmp == 0 {
            if !equal {
              cmp := 1;
            } else {
              cur.status := Okay;
              cur.current := n;
              return;
            }
          }
          if cmp < 0 {
            prevGreater := n;
            n := n.lesser;
            u := u.left;
          } else {
            n := n.greater;
            u := u.right;
          }
        }
      }
      if prevGreater != null {
        cur.status := Okay;
        cur.current := prevGreater;
      } else {
        cur.status := ErrExist;
      }
    }

    // vv_tree_search
    method Search(cur: Cursor, tree: Node?, ghost t: Tree<Node>)
      requires Rooted(tree, t)
      modifies this`hops, cur`status, cur`current
      ensures var found := ExactSearch(eval, t, cur.key);
              && cur.status == (if found.Some? then Okay else ErrExist)
              && cur.current == (if found.Some? then found.value else old(cur.current))
      ensures hops <= old(hops) + Height(t)
    {
      ghost var u := t;
      if tree != null && tree.keyPresent {
        var n: Node? := tree;
        while n != null
          invariant Holds(n, u)
          invariant ExactSearch(eval, u, cur.key) == ExactSearch(eval, t, cur.key)
          invariant hops + Height(u) <= old(hops) + Height(t)
          invariant cur.status == old(cur.status) && cur.current == old(cur.current)
          decreases u
        {
          Unfold(n, u);
          hops := hops + 1;
          var cmp := eval(cur.key, n.key);
          if cmp == 0 {
            cur.status := Okay;
            cur.current := n;
            return;
          }
          if cmp < 0 {
            n := n.lesser;
            u := u.left;
          } else {
            n := n.greater;
            u := u.right;
          }
        }
      }
      cur.status := ErrExist;
    }

    // ---- The entry points ----

    lemma {:induction false} RootHasKey()
      requires Valid()
      ensures top.lesser.keyPresent <==> shape.Fork?
    {
      assert shape.Fork? ==> shape.e.id in Nodes(shape);
    }

    // The list around the whole tree is empty.
    static lemma {:induction false} Alone(t: Tree<Node>)
      ensures [] + Ids(t) + [] == Ids(t)
    {
    }

    // A list whose nodes all are in a set stays one when only that set is looked at.
    lemma {:induction false} Relist(s: seq<Node>, all: set<Node>, t: Tree<Node>)
      requires Listed(s, all) && s == Ids(t)
      ensures Listed(Ids(t), Nodes(t))
    {
      IdsAreNodes(t);
    }

    // The first key of an empty tree goes into its empty root node.
    method InsertFirst(cur: Cursor, data: Data)
      requires Valid() && shape.Leaf?
      modifies this`min, this`max, this`count, this`shape, cur`current, cur`status, top.lesser
      ensures Valid() && Items(shape) == InsertItem(eval, old(Items(shape)), Item(cur.key, data))
      ensures cur.status == Okay && cur.current == top.lesser
      ensures Nodes(shape) == {top.lesser} && top.lesser.key == cur.key && top.lesser.data == data
    {
      FillNode(cur, top.lesser, data, [top.lesser], 0, {top.lesser});
      shape := NewLeaf(Entry(top.lesser, cur.key, data));
      assert Ids(shape) == [top.lesser] && Nodes(shape) == {top.lesser};
    }

    // The root below the dummy node holds another tree from now on.
    ghost method Reshape(t: Tree<Node>, all: set<Node>)
      requires top !in Nodes(t) && top.lesser != null && top.lesser != top
      requires if t.Fork? then Holds(top.lesser, t)
               else !top.lesser.keyPresent && top.lesser.lesser == null && top.lesser.greater == null
                    && top.lesser.prev == null && top.lesser.next == null
      requires Listed([] + Ids(t) + [], all)
      modifies this`shape
      ensures Formed() && shape == t
    {
      assert allocated(Nodes(t));
      assert Listed(Ids(t), Nodes(t)) by {
        Alone(t);
        Relist([] + Ids(t) + [], all, t);
      }
      shape := t;
    }

    // Insertion below the dummy node on top of the tree.
    method InsertBelowTop(cur: Cursor, data: Data) returns (ghost n: Node)
      requires Valid() && shape.Fork? && count + 1 < COUNT_LIMIT
      modifies this`min, this`max, this`count, this`hops, this`shape, cur`current, cur`status
      modifies top`lesser, top`greater, top`height
      modifies Nodes(shape)`lesser, Nodes(shape)`greater, Nodes(shape)`height, Nodes(shape)`prev, Nodes(shape)`next
      ensures Formed() && shape == M.Insert(eval, old(shape), Entry(n, cur.key, data))
      ensures cur.status == if Present(eval, old(shape), cur.key) then ErrExist else Okay
      ensures cur.current == if Present(eval, old(shape), cur.key) then old(cur.current) else n
      ensures count == old(count) + if Present(eval, old(shape), cur.key) then 0 else 1
      ensures !Present(eval, old(shape), cur.key) ==> fresh(n) && n.key == cur.key && n.data == data
      ensures hops <= old(hops) + Height(old(shape))
    {
      ghost var t := shape;
      Alone(t);
      assert allocated(Nodes(t));
      n := Insert(cur, top, Lesser, top.lesser, data, t, [], [], Nodes(t));
      ghost var t1 := M.Insert(eval, t, Entry(n, cur.key, data));
      assert t1.Fork? && Nodes(t1) <= Nodes(t) + {n} && n != top by { InsertNodes(eval, t, Entry(n, cur.key, data)); }
      Reshape(t1, Nodes(t) + {n});
    }

    method InsertMore(cur: Cursor, data: Data)
      requires Valid() && shape.Fork? && count + 1 < COUNT_LIMIT
      modifies this`min, this`max, this`count, this`hops, this`shape, cur`current, cur`status
      modifies top`lesser, top`greater, top`height
      modifies Nodes(shape)`lesser, Nodes(shape)`greater, Nodes(shape)`height, Nodes(shape)`prev, Nodes(shape)`next
      ensures Valid() && Items(shape) == InsertItem(eval, old(Items(shape)), Item(cur.key, data))
      ensures cur.status == if Find(eval, old(Items(shape)), cur.key) < 0 then Okay else ErrExist
      ensures if cur.status == Okay
              then cur.current != null && cur.current in Nodes(shape)
                   && cur.current.key == cur.key && cur.current.data == data
              else cur.current == old(cur.current)
      ensures fresh(Nodes(shape) - old(Nodes(shape)))
      ensures cur.status == ErrExist ==> SameButHeight(old(shape), shape)
      ensures hops <= old(hops) + old(Height(shape))
    {
      ghost var t := shape;
      ghost var n := InsertBelowTop(cur, data);
      NothingChanges(eval, t, Entry(n, cur.key, data), cur.key);
      InsertCorrect(eval, t, Entry(n, cur.key, data));
    }

    // vv_tree_insert at the root
    method InsertAtRoot(cur: Cursor, data: Data)
      requires Valid() && count + 1 < COUNT_LIMIT
      modifies this`min, this`max, this`count, this`hops, this`shape, cur`current, cur`status
      modifies top`lesser, top`greater, top`height, top.lesser
      modifies Nodes(shape)`lesser, Nodes(shape)`greater, Nodes(shape)`height, Nodes(shape)`prev, Nodes(shape)`next
      ensures Valid() && Items(shape) == InsertItem(eval, old(Items(shape)), Item(cur.key, data))
      ensures cur.status == if Find(eval, old(Items(shape)), cur.key) < 0 then Okay else ErrExist
      ensures if cur.status == Okay
              then cur.current != null && cur.current in Nodes(shape)
                   && cur.current.key == cur.key && cur.current.data == data
              else cur.current == old(cur.current)
      ensures forall n :: n in Nodes(shape) ==> n in old(Nodes(shape)) || n == old(top.lesser) || fresh(n)
      ensures cur.status == ErrExist ==> SameButHeight(old(shape), shape)
      ensures hops <= old(hops) + old(Height(shape))
    {
      RootHasKey();
      if top.lesser.keyPresent {
        InsertMore(cur, data);
      } else {
        InsertFirst(cur, data);
      }
    }

    // The cursor carries the key of the operation.
    method Begin(cur: Cursor, key: Key)
      modifies this`hops, cur`key
      ensures hops == 0 && cur.key == key
    {
      hops := 0;
      cur.key := key;
    }

    // vv_tree_insert_f
    method InsertKey(cur: Cursor, key: Key, data: Data)
      requires Valid() && count + 1 < COUNT_LIMIT
      modifies this, cur, top, top.lesser, Nodes(shape)
      ensures Valid() && Items(shape) == InsertItem(eval, old(Items(shape)), Item(key, data))
      ensures cur.status == if Find(eval, old(Items(shape)), key) < 0 then Okay else ErrExist
      ensures if cur.status == Okay
              then cur.current != null && cur.current in Nodes(shape)
                   && cur.current.key == key && cur.current.data == data
              else cur.current == old(cur.current)
      ensures forall n :: n in Nodes(shape) ==> n in old(Nodes(shape)) || n == old(top.lesser) || fresh(n)
      ensures cur.status == ErrExist ==> SameButHeight(old(shape), shape)
      ensures hops <= old(Height(shape))
    {
      assert allocated(Nodes(shape));
      Begin(cur, key);
      assert Valid();
      InsertAtRoot(cur, data);
    }

    // vv_tree_create_root
    method CreateRoot()
      modifies top`lesser
      ensures fresh(top.lesser) && top.lesser != null && !top.lesser.keyPresent
      ensures top.lesser.lesser == null && top.lesser.greater == null
      ensures top.lesser.prev == null && top.lesser.next == null
    {
      var root := new Node();
      top.lesser := root;
    }

    // Deletion below the dummy node; a tree emptied by it gets a new empty root.
    method DeleteBelowTop(cur: Cursor)
      requires Valid() && shape.Fork?
      modifies this`min, this`max, this`count, this`hops, this`shape, cur`status, cur`res, cur`rkey
      modifies top`lesser, top`greater, top`height
      modifies Nodes(shape)`lesser, Nodes(shape)`greater, Nodes(shape)`height, Nodes(shape)`key, Nodes(shape)`data
      modifies Nodes(shape)`prev, Nodes(shape)`next
      ensures Formed() && shape == M.Delete(eval, old(shape), cur.key)
      ensures cur.status == if Present(eval, old(shape), cur.key) then Okay else ErrExist
      ensures count == old(count) - if Present(eval, old(shape), cur.key) then 1 else 0
      ensures Present(eval, old(shape), cur.key) ==> Item(cur.rkey, cur.res) == Located(eval, old(shape), cur.key)
      ensures top.lesser in old(Nodes(shape)) || fresh(top.lesser)
      ensures hops <= old(hops) + Height(old(shape))
    {
      ghost var t := shape;
      Alone(t);
      assert allocated(Nodes(t));
      Delete(cur, top, Lesser, top.lesser, t, [], [], Nodes(t));
      ghost var t1 := M.Delete(eval, t, cur.key);
      assert Nodes(t1) <= Nodes(t) by { DeleteNodes(eval, t, cur.key); }
      assert t1.Fork? ==> t1.e.id in Nodes(t1);
      if top.lesser == null { CreateRoot(); }
      Reshape(t1, Nodes(t));
    }

    method DeleteMore(cur: Cursor)
      requires Valid() && shape.Fork?
      modifies this`min, this`max, this`count, this`hops, this`shape, cur`status, cur`res, cur`rkey
      modifies top`lesser, top`greater, top`height
      modifies Nodes(shape)`lesser, Nodes(shape)`greater, Nodes(shape)`height, Nodes(shape)`key, Nodes(shape)`data
      modifies Nodes(shape)`prev, Nodes(shape)`next
      ensures Valid() && Items(shape) == RemoveKey(eval, old(Items(shape)), cur.key)
      ensures var i := Find(eval, old(Items(shape)), cur.key);
              && cur.status == (if i >= 0 then Okay else ErrExist)
              && (i >= 0 ==> Item(cur.rkey, cur.res) == old(Items(shape))[i])
      ensures Nodes(shape) <= old(Nodes(shape))
      ensures cur.status == ErrExist ==> SameButHeight(old(shape), shape)
      ensures hops <= old(hops) + old(Height(shape))
    {
      ghost var t := shape;
      DeleteBelowTop(cur);
      NothingChanges(eval, t, t.e, cur.key);
      DeleteCorrect(eval, t, cur.key);
    }

    // vv_tree_delete at the root
    method DeleteAtRoot(cur: Cursor)
      requires Valid()
      modifies this`min, this`max, this`count, this`hops, this`shape, cur`status, cur`res, cur`rkey
      modifies top`lesser, top`greater, top`height
      modifies Nodes(shape)`lesser, Nodes(shape)`greater, Nodes(shape)`height, Nodes(shape)`key, Nodes(shape)`data
      modifies Nodes(shape)`prev, Nodes(shape)`next
      ensures Valid() && Items(shape) == RemoveKey(eval, old(Items(shape)), cur.key)
      ensures var i := Find(eval, old(Items(shape)), cur.key);
              && cur.status == (if i >= 0 then Okay else ErrExist)
              && (i >= 0 ==> Item(cur.rkey, cur.res) == old(Items(shape))[i])
      ensures Nodes(shape) <= old(Nodes(shape))
      ensures cur.status == ErrExist ==> SameButHeight(old(shape), shape)
      ensures hops <= old(hops) + old(Height(shape))
    {
      RootHasKey();
      if top.lesser != null && top.lesser.keyPresent {
        DeleteMore(cur);
      } else {
        cur.status := ErrExist;
      }
    }

    // vv_tree_delete_f
    method DeleteKey(cur: Cursor, key: Key)
      requires Valid()
      modifies this, cur, top, top.lesser, Nodes(shape)
      ensures Valid() && Items(shape) == RemoveKey(eval, old(Items(shape)), key)
      ensures var i := Find(eval, old(Items(shape)), key);
              && cur.status == (if i >= 0 then Okay else ErrExist)
              && (i >= 0 ==> Item(cur.rkey, cur.res) == old(Items(shape))[i])
      ensures Nodes(shape) <= old(Nodes(shape))
      ensures cur.status == ErrExist ==> SameButHeight(old(shape), shape)
      ensures hops <= old(Height(shape))
    {
      assert allocated(Nodes(shape));
      Begin(cur, key);
      assert Valid();
      DeleteAtRoot(cur);
    }

    // The searches, the ends and the cursor steps change nothing that Valid depends on.

    // vv_tree_search_f
    method SearchKey(cur: Cursor, key: Key)
      requires Valid()
      modifies this`hops, cur`key, cur`status, cur`current
      ensures var i := Find(eval, Items(shape), key);
              && cur.status == (if i >= 0 then Okay else ErrExist)
              && cur.current == (if i >= 0 then Ids(shape)[i] else old(cur.current))
      ensures hops <= Height(shape)
    {
      assert allocated(Nodes(shape));
      Begin(cur, key);
      assert Rooted(top.lesser, shape);
      Search(cur, top.lesser, shape);
      ExactFound(eval, shape, key);
    }

    // vv_tree_search_lesser_equal_f: the greatest key that is lesser (or equal, if asked for).
    method SearchLesser(cur: Cursor, equal: bool, key: Key) returns (ghost i: int)
      requires Valid()
      modifies this`hops, cur`key, cur`status, cur`current
      ensures IsFloor(eval, Items(shape), key, equal, i)
      ensures cur.status == if i >= 0 then Okay else ErrExist
      ensures cur.current == if i >= 0 then Ids(shape)[i] else old(cur.current)
      ensures hops <= Height(shape)
    {
      assert allocated(Nodes(shape));
      Begin(cur, key);
      assert Rooted(top.lesser, shape);
      SearchLesserEqual(cur, top.lesser, equal, shape);
      i := FloorFound(eval, shape, key, equal, None);
    }

    // vv_tree_search_greater_equal_f: the least key that is greater (or equal, if asked for).
    method SearchGreater(cur: Cursor, equal: bool, key: Key) returns (ghost i: int)
      requires Valid()
      modifies this`hops, cur`key, cur`status, cur`current
      ensures IsCeiling(eval, Items(shape), key, equal, i)
      ensures cur.status == if i < |Items(shape)| then Okay else ErrExist
      ensures cur.current == if i < |Items(shape)| then Ids(shape)[i] else old(cur.current)
      ensures hops <= Height(shape)
    {
      assert allocated(Nodes(shape));
      Begin(cur, key);
      assert Rooted(top.lesser, shape);
      SearchGreaterEqual(cur, top.lesser, equal, shape);
      i := CeilingFound(eval, shape, key, equal, None);
    }

    // The descent to the least node (tree.c, vv_tree_min_f) and to the greatest
    static method Leftmost(root: Node, ghost t: Tree<Node>) returns (n: Node)
      requires t.Fork? && Holds(root, t)
      ensures n == Ids(t)[0]
    {
      n := root;
      ghost var u := t;
      while n.lesser != null
        invariant u.Fork? && Holds(n, u) && Ids(u)[0] == Ids(t)[0]
        decreases u
      {
        Unfold(n, u);
        n := n.lesser;
        u := u.left;
      }
      Unfold(n, u);
    }

    static method Rightmost(root: Node, ghost t: Tree<Node>) returns (n: Node)
      requires t.Fork? && Holds(root, t)
      ensures n == Ids(t)[|Ids(t)| - 1]
    {
      n := root;
      ghost var u := t;
      while n.greater != null
        invariant u.Fork? && Holds(n, u) && Ids(u)[|Ids(u)| - 1] == Ids(t)[|Ids(t)| - 1]
        decreases u
      {
        Unfold(n, u);
        n := n.greater;
        u := u.right;
      }
      Unfold(n, u);
    }

    // vv_tree_min_f
    method Min(cur: Cursor)
      requires Valid()
      modifies cur`status, cur`current
      ensures cur.status == if Items(shape) == [] then ErrExist else Okay
      ensures cur.current == if Items(shape) == [] then old(cur.current) else Ids(shape)[0]
    {
      if sorted {
        if count == 0 { cur.status := ErrExist; return; }
        cur.status := Okay;
        cur.current := min;
      } else {
        if count == 0 { cur.status := ErrExist; return; }
        cur.status := Okay;
        cur.current := Leftmost(top.lesser, shape);
      }
    }

    // vv_tree_max_f
    method Max(cur: Cursor)
      requires Valid()
      modifies cur`status, cur`current
      ensures cur.status == if Items(shape) == [] then ErrExist else Okay
      ensures cur.current == if Items(shape) == [] then old(cur.current) else Ids(shape)[|Ids(shape)| - 1]
    {
      if sorted {
        if count == 0 { cur.status := ErrExist; return; }
        cur.status := Okay;
        cur.current := max;
      } else {
        if count == 0 { cur.status := ErrExist; return; }
        cur.status := Okay;
        cur.current := Rightmost(top.lesser, shape);
      }
    }

    // A listed node has the key and data of its place.
    lemma {:induction false} NodeAt(i: nat)
      requires Valid() && i < |Ids(shape)|
      ensures Ids(shape)[i].key == Items(shape)[i].key && Ids(shape)[i].data == Items(shape)[i].data
    {
      HeldAt(top.lesser, shape, i);
    }

    static lemma {:induction false} HeldAt(n: Node, t: Tree<Node>, i: nat)
      requires t.Fork? && Holds(n, t) && i < |Ids(t)|
      ensures Ids(t)[i].key == Items(t)[i].key && Ids(t)[i].data == Items(t)[i].data
      decreases t
    {
      Unfold(n, t);
      Positions(t);
      var m := |Items(t.left)|;
      if i < m {
        HeldAt(n.lesser, t.left, i);
      } else if i > m {
        HeldAt(n.greater, t.right, i - m - 1);
      }
    }

    // use-cursor get-lesser (v1.c:6143): a list step in a sorted tree, a strict search otherwise;
    // either way the entry just before the current one.
    method StepLesser(cur: Cursor, ghost at: nat)
      requires Valid() && at < |Ids(shape)| && cur.current == Ids(shape)[at]
      modifies this`hops, cur`key, cur`status, cur`current
      ensures cur.status == if at > 0 then Okay else ErrExist
      ensures cur.current == if at > 0 then Ids(shape)[at - 1] else old(cur.current)
    {
      if sorted {
        assert cur.current.prev == Before(Ids(shape), at);
        if cur.current.prev != null {
          cur.current := cur.current.prev;
          cur.status := Okay;
        } else {
          cur.status := ErrExist;
        }
      } else {
        NodeAt(at);
        ghost var i := SearchLesser(cur, false, cur.current.key);
        StrictNeighbour(eval, Items(shape), at, i);
      }
    }

    // use-cursor get-greater (v1.c:6147)
    method StepGreater(cur: Cursor, ghost at: nat)
      requires Valid() && at < |Ids(shape)| && cur.current == Ids(shape)[at]
      modifies this`hops, cur`key, cur`status, cur`current
      ensures cur.status == if at < |Ids(shape)| - 1 then Okay else ErrExist
      ensures cur.current == if at < |Ids(shape)| - 1 then Ids(shape)[at + 1] else old(cur.current)
    {
      if sorted {
        assert cur.current.next == After(Ids(shape), at);
        if cur.current.next != null {
          cur.current := cur.current.next;
          cur.status := Okay;
        } else {
          cur.status := ErrExist;
        }
      } else {
        NodeAt(at);
        ghost var i := SearchGreater(cur, false, cur.current.key);
        StrictNeighbour(eval, Items(shape), at, i);
      }
    }
  }
}
