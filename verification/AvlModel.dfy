/** The tree algorithms of tree.c as functions on values.

    A `Tree` is what the heap holds: node identities, keys, data and the STORED heights, which
    are not always the true ones. Balancing recomputes the height of the nodes it looks at, but a
    rotation leaves the node it moves up with its old height (tree.c:161-166, 187-192), and linking
    a new leaf leaves its parent's height alone (tree.c:286). So every recursive call may return a
    subtree whose root height is stale; the caller balances that subtree once more before itself. */
module AvlModel {
  import opened KeyOrder
  import opened SortedList
  import opened Sequences
  import opened Wrappers

  datatype Entry<N> = Entry(id: N, key: Key, data: Data)
  datatype Tree<N> = Leaf | Fork(left: Tree<N>, e: Entry<N>, height: nat, right: Tree<N>)

  // The count of a tree is a C `long long`, the height field has 7 bits.
  const COUNT_LIMIT: nat := 0x8000_0000_0000_0000
  const HEIGHT_LIMIT: nat := 128

  // ---- Observations ----

  function Stored<N>(t: Tree<N>): nat {
    if t.Leaf? then 0 else t.height
  }

  function Max(a: nat, b: nat): nat {
    if a > b then a else b
  }

  /** True height; a node without children has height 1. */
  function Height<N>(t: Tree<N>): nat {
    if t.Leaf? then 0 else 1 + Max(Height(t.left), Height(t.right))
  }

  /** The key/data pairs in tree order. */
  function Items<N>(t: Tree<N>): (s: seq<Item>) {
    if t.Leaf? then [] else Items(t.left) + [Item(t.e.key, t.e.data)] + Items(t.right)
  }

  /** The nodes in tree order: what the threaded list of a sorted tree must link. */
  function Ids<N>(t: Tree<N>): (s: seq<N>)
    ensures |s| == |Items(t)|
  {
    if t.Leaf? then [] else Ids(t.left) + [t.e.id] + Ids(t.right)
  }

  ghost function Nodes<N>(t: Tree<N>): set<N> {
    if t.Leaf? then {} else Nodes(t.left) + {t.e.id} + Nodes(t.right)
  }

  /** No node occurs twice. */
  ghost predicate Separate<N>(t: Tree<N>) {
    t.Leaf? ||
    (Separate(t.left) && Separate(t.right) && Nodes(t.left) !! Nodes(t.right) &&
     t.e.id !in Nodes(t.left) && t.e.id !in Nodes(t.right))
  }

  // ---- Balancing ----

  /** What vv_tree_height stores in a node with these children: 7 bits of it. */
  function FieldHeight(l: nat, r: nat): nat {
    (1 + Max(l, r)) % HEIGHT_LIMIT
  }

  function Refresh<N>(t: Tree<N>): Tree<N>
    requires t.Fork?
  {
    t.(height := FieldHeight(Stored(t.left), Stored(t.right)))
  }

  function RotateRight<N>(t: Tree<N>): Tree<N>
    requires t.Fork? && t.left.Fork?
  {
    Fork(t.left.left, t.left.e, t.left.height, Refresh(Fork(t.left.right, t.e, t.height, t.right)))
  }

  function RotateLeft<N>(t: Tree<N>): Tree<N>
    requires t.Fork? && t.right.Fork?
  {
    Fork(Refresh(Fork(t.left, t.e, t.height, t.right.left)), t.right.e, t.right.height, t.right.right)
  }

  function LeftHeavy<N>(t: Tree<N>): bool
    requires t.Fork?
  {
    Stored(t.left) - Stored(t.right) >= 2
  }

  function RightHeavy<N>(t: Tree<N>): bool
    requires t.Fork?
  {
    Stored(t.right) - Stored(t.left) >= 2
  }

  /** The left child as the rotation of a left-heavy node finds it. */
  function FirstRight<N>(l: Tree<N>): Tree<N>
    requires l.Fork?
  {
    if Stored(l.right) > Stored(l.left) then RotateLeft(l) else l
  }

  function FirstLeft<N>(r: Tree<N>): Tree<N>
    requires r.Fork?
  {
    if Stored(r.left) > Stored(r.right) then RotateRight(r) else r
  }

  /** vv_tree_balance. */
  function Balance<N>(t: Tree<N>): Tree<N>
    requires t.Fork?
  {
    if LeftHeavy(t) then RotateRight(t.(left := FirstRight(t.left)))
    else if RightHeavy(t) then RotateLeft(t.(right := FirstLeft(t.right)))
    else Refresh(t)
  }

  /** The guarded call the delete paths make: balance the child if there is one. */
  function Mend<N>(t: Tree<N>): Tree<N> {
    if t.Leaf? then t else Balance(t)
  }

  // ---- Insert ----

  function NewLeaf<N>(e: Entry<N>): Tree<N> {
    Fork(Leaf, e, 1, Leaf)
  }

  /** vv_tree_insert at a node that has a key. */
  function Insert<N>(cmp: Eval, t: Tree<N>, e: Entry<N>): Tree<N>
    requires t.Fork?
    decreases t
  {
    var c := cmp(e.key, t.e.key);
    if c < 0 then
      if t.left.Leaf? then t.(left := NewLeaf(e))
      else Balance(t.(left := Mend(Insert(cmp, t.left, e))))
    else if c == 0 then t
    else
      if t.right.Leaf? then t.(right := NewLeaf(e))
      else Balance(t.(right := Mend(Insert(cmp, t.right, e))))
  }

  // ---- Delete ----

  function Least<N>(t: Tree<N>): Entry<N>
    requires t.Fork?
  {
    if t.left.Leaf? then t.e else Least(t.left)
  }

  /** vv_tree_find_leaf_del: the tree without its least entry. */
  function DropLeast<N>(t: Tree<N>): Tree<N>
    requires t.Fork?
  {
    if t.left.Leaf? then t.right
    else Balance(t.(left := Mend(DropLeast(t.left))))
  }

  /** vv_tree_delete. The deleted key's node survives when it has a greater branch: it takes over the
      key and data of the least node there, and that node goes. */
  function Delete<N>(cmp: Eval, t: Tree<N>, k: Key): Tree<N>
    requires t.Fork?
    decreases t
  {
    var c := cmp(k, t.e.key);
    if c == 0 then
      if t.right.Leaf? then t.left
      else
        var next := Least(t.right);
        Balance(Fork(t.left, Entry(t.e.id, next.key, next.data), t.height, Mend(DropLeast(t.right))))
    else if c < 0 && t.left.Fork? then Balance(t.(left := Mend(Delete(cmp, t.left, k))))
    else if c > 0 && t.right.Fork? then Balance(t.(right := Mend(Delete(cmp, t.right, k))))
    else t
  }

  // ---- The lazy-height invariant ----

  /** Every stored height is the true one. */
  predicate Exact<N>(t: Tree<N>) {
    t.Leaf? || (t.height == Height(t) && Exact(t.left) && Exact(t.right))
  }

  /** Balanced by true heights at every node. */
  predicate Balanced<N>(t: Tree<N>) {
    t.Leaf? ||
    (-1 <= Height(t.left) - Height(t.right) <= 1 && Balanced(t.left) && Balanced(t.right))
  }

  predicate Avl<N>(t: Tree<N>) {
    Exact(t) && Balanced(t)
  }

  /** What holds between calls: balanced, and exact everywhere except possibly at the root. */
  predicate Lazy<N>(t: Tree<N>) {
    Balanced(t) && (t.Fork? ==> Exact(t.left) && Exact(t.right))
  }

  // Two subtrees a balancing step can repair.
  predicate Repairable<N>(t: Tree<N>) {
    && t.Fork? && Avl(t.left) && Avl(t.right)
    && -2 <= Height(t.left) - Height(t.right) <= 2
    && Height(t.left) <= 126 && Height(t.right) <= 126
  }

  lemma {:induction false} RefreshExact<N>(t: Tree<N>)
    requires t.Fork? && Avl(t.left) && Avl(t.right)
    requires Height(t.left) <= 126 && Height(t.right) <= 126
    ensures Exact(Refresh(t)) && Refresh(t) == t.(height := Height(t)) && Height(Refresh(t)) == Height(t)
    ensures -1 <= Height(t.left) - Height(t.right) <= 1 ==> Avl(Refresh(t))
  {
  }

  // One level of the definitions.
  lemma {:induction false} AvlParts<N>(t: Tree<N>)
    requires Avl(t)
    ensures Stored(t) == Height(t)
    ensures t.Fork? ==> Avl(t.left) && Avl(t.right) && -1 <= Height(t.left) - Height(t.right) <= 1
    ensures t.Fork? ==> Height(t) == 1 + Max(Height(t.left), Height(t.right))
  {
  }

  lemma {:induction false} RightRotationRepairs<N>(t: Tree<N>)
    requires Repairable(t) && Height(t.left) == Height(t.right) + 2
    ensures Lazy(Balance(t)) && Balance(t).Fork?
    ensures Height(t.left) <= Height(Balance(t)) <= Height(t)
  {
    AvlParts(t.left);
    if Height(t.left.right) > Height(t.left.left) {
      LeftRightRepairs(t);
    } else {
      RefreshExact(Fork(t.left.right, t.e, t.height, t.right));
    }
  }

  lemma {:induction false} LeftRightRepairs<N>(t: Tree<N>)
    requires Repairable(t) && Height(t.left) == Height(t.right) + 2 && Height(t.left.right) > Height(t.left.left)
    ensures Lazy(Balance(t)) && Balance(t).Fork?
    ensures Height(t.left) <= Height(Balance(t)) <= Height(t)
  {
    var l := t.left;
    AvlParts(l);
    AvlParts(l.left);
    AvlParts(l.right);
    RefreshExact(Fork(l.left, l.e, l.height, l.right.left));
    RefreshExact(Fork(l.right.right, t.e, t.height, t.right));
  }

  lemma {:induction false} LeftRotationRepairs<N>(t: Tree<N>)
    requires Repairable(t) && Height(t.right) == Height(t.left) + 2
    ensures Lazy(Balance(t)) && Balance(t).Fork?
    ensures Height(t.right) <= Height(Balance(t)) <= Height(t)
  {
    var r := t.right;
    AvlParts(r);
    AvlParts(r.left);
    AvlParts(r.right);
    if Height(r.left) > Height(r.right) {
      RefreshExact(Fork(r.left.right, r.e, r.height, r.right));
      RefreshExact(Fork(t.left, t.e, t.height, r.left.left));
    } else {
      RefreshExact(Fork(t.left, t.e, t.height, r.left));
    }
  }

  /** One balancing step: whatever the node's own stored height was, the result is balanced, exact
      below its root, and at most one lower; a node that needs no rotation only gets its height. */
  lemma {:induction false} BalanceRepairs<N>(t: Tree<N>)
    requires Repairable(t)
    ensures Lazy(Balance(t)) && Balance(t).Fork?
    ensures Max(Height(t.left), Height(t.right)) <= Height(Balance(t)) <= Height(t)
    ensures Balanced(t) ==> Balance(t) == t.(height := Height(t)) && Avl(Balance(t))
  {
    RefreshExact(t);
    AvlParts(t.left);
    AvlParts(t.right);
    if Height(t.left) == Height(t.right) + 2 {
      RightRotationRepairs(t);
    } else if Height(t.right) == Height(t.left) + 2 {
      LeftRotationRepairs(t);
    }
  }

  /** The extra balancing of a child only repairs its root height. */
  lemma {:induction false} MendLazy<N>(t: Tree<N>)
    requires Lazy(t) && Height(t) <= 127
    ensures Avl(Mend(t)) && Height(Mend(t)) == Height(t)
    ensures t.Fork? ==> Mend(t) == t.(height := Height(t))
  {
    if t.Fork? { BalanceRepairs(t); }
  }

  // ---- Size against height ----

  function Pow2(n: nat): nat {
    if n == 0 then 1 else 2 * Pow2(n - 1)
  }

  lemma {:induction false} Pow2Monotone(m: nat, n: nat)
    requires m <= n
    ensures Pow2(m) <= Pow2(n)
    decreases n
  {
    if m < n { Pow2Monotone(m, n - 1); }
  }

  lemma {:induction false} SizeFromHeight<N>(t: Tree<N>)
    requires Balanced(t)
    ensures |Items(t)| >= Pow2(Height(t) / 2) - 1
    decreases t
  {
    if t.Fork? {
      SizeFromHeight(t.left);
      SizeFromHeight(t.right);
      var h := Height(t);
      if h >= 2 {
        Pow2Monotone((h - 2) / 2, Height(t.left) / 2);
        Pow2Monotone((h - 2) / 2, Height(t.right) / 2);
        assert h / 2 == (h - 2) / 2 + 1;
      }
    }
  }

  lemma {:induction false} Pow2Sum(m: nat, n: nat)
    ensures Pow2(m + n) == Pow2(m) * Pow2(n)
    decreases m
  {
    if m > 0 {
      Pow2Sum(m - 1, n);
      assert 2 * (Pow2(m - 1) * Pow2(n)) == (2 * Pow2(m - 1)) * Pow2(n);
    }
  }

  lemma {:induction false} Pow2Of63()
    ensures Pow2(63) == COUNT_LIMIT
    ensures Pow2(64) == 2 * COUNT_LIMIT
  {
    assert Pow2(7) == 0x80;
    Pow2Sum(7, 7);
    Pow2Sum(14, 7);
    Pow2Sum(21, 21);
    Pow2Sum(42, 21);
  }

  /** No tree whose size fits the count field is higher than 127, so the 7-bit field never truncates;
      a child of such a tree is at most 126 high. */
  lemma {:induction false} HeightFits<N>(t: Tree<N>)
    requires |Items(t)| < COUNT_LIMIT
    ensures Balanced(t) ==> Height(t) <= 127
    ensures t.Fork? && Balanced(t.left) ==> Height(t.left) <= 126
    ensures t.Fork? && Balanced(t.right) ==> Height(t.right) <= 126
  {
    Pow2Of63();
    if Balanced(t) { SizeFromHeight(t); if Height(t) >= 128 { Pow2Monotone(64, Height(t) / 2); } }
    if t.Fork? && Balanced(t.left) {
      SizeFromHeight(t.left);
      if Height(t.left) >= 127 { Pow2Monotone(63, Height(t.left) / 2); }
    }
    if t.Fork? && Balanced(t.right) {
      SizeFromHeight(t.right);
      if Height(t.right) >= 127 { Pow2Monotone(63, Height(t.right) / 2); }
    }
  }

  // ---- What balancing keeps ----

  lemma {:induction false} RotateRightKeeps<N>(t: Tree<N>)
    requires t.Fork? && t.left.Fork?
    ensures Items(RotateRight(t)) == Items(t) && Ids(RotateRight(t)) == Ids(t)
    ensures Nodes(RotateRight(t)) == Nodes(t)
    ensures Separate(t) ==> Separate(RotateRight(t))
  {
    var down := RotateRight(t).right;
    assert Nodes(down) == Nodes(t.left.right) + {t.e.id} + Nodes(t.right);
    if Separate(t) { assert Separate(t.left) && Separate(down); }
  }

  lemma {:induction false} RotateLeftKeeps<N>(t: Tree<N>)
    requires t.Fork? && t.right.Fork?
    ensures Items(RotateLeft(t)) == Items(t) && Ids(RotateLeft(t)) == Ids(t)
    ensures Nodes(RotateLeft(t)) == Nodes(t)
    ensures Separate(t) ==> Separate(RotateLeft(t))
  {
    var down := RotateLeft(t).left;
    assert Nodes(down) == Nodes(t.left) + {t.e.id} + Nodes(t.right.left);
    if Separate(t) { assert Separate(t.right) && Separate(down); }
  }

  /** Balancing only rearranges: same order, same nodes, each node once. */
  lemma {:induction false} BalanceKeeps<N>(t: Tree<N>)
    requires t.Fork?
    ensures Items(Balance(t)) == Items(t) && Ids(Balance(t)) == Ids(t)
    ensures Nodes(Balance(t)) == Nodes(t)
    ensures Separate(t) ==> Separate(Balance(t))
    ensures Balance(t).Fork?
  {
    if LeftHeavy(t) {
      if Stored(t.left.right) > Stored(t.left.left) { RotateLeftKeeps(t.left); }
      RotateRightKeeps(t.(left := FirstRight(t.left)));
    } else if RightHeavy(t) {
      if Stored(t.right.left) > Stored(t.right.right) { RotateRightKeeps(t.right); }
      RotateLeftKeeps(t.(right := FirstLeft(t.right)));
    }
  }

  lemma {:induction false} MendKeeps<N>(t: Tree<N>)
    ensures Items(Mend(t)) == Items(t) && Ids(Mend(t)) == Ids(t)
    ensures Nodes(Mend(t)) == Nodes(t)
    ensures Separate(t) ==> Separate(Mend(t))
    ensures Mend(t).Fork? == t.Fork?
  {
    if t.Fork? { BalanceKeeps(t); }
  }

  // ---- Insert ----

  lemma {:induction false} SortedSides<N>(cmp: Eval, t: Tree<N>)
    requires t.Fork? && Sorted(cmp, Items(t))
    ensures Sorted(cmp, Items(t.left)) && Sorted(cmp, Items(t.right))
  {
    SortedParts(cmp, Items(t.left), Item(t.e.key, t.e.data), Items(t.right));
  }

  // What balancing leaves of a node whose left side was changed
  lemma {:induction false} RebuiltLeft<N>(t: Tree<N>, l: Tree<N>)
    requires t.Fork?
    ensures var u := Balance(t.(left := Mend(l)));
            && Items(u) == Items(l) + [Item(t.e.key, t.e.data)] + Items(t.right) && u.Fork?
            && Nodes(u) == Nodes(l) + {t.e.id} + Nodes(t.right)
            && (Separate(t.(left := l)) ==> Separate(u))
  {
    MendKeeps(l);
    BalanceKeeps(t.(left := Mend(l)));
  }

  lemma {:induction false} RebuiltRight<N>(t: Tree<N>, r: Tree<N>)
    requires t.Fork?
    ensures var u := Balance(t.(right := Mend(r)));
            && Items(u) == Items(t.left) + [Item(t.e.key, t.e.data)] + Items(r) && u.Fork?
            && Nodes(u) == Nodes(t.left) + {t.e.id} + Nodes(r)
            && (Separate(t.(right := r)) ==> Separate(u))
  {
    MendKeeps(r);
    BalanceKeeps(t.(right := Mend(r)));
  }

  lemma {:induction false} NewLeafItems<N>(e: Entry<N>)
    ensures Items(NewLeaf(e)) == [Item(e.key, e.data)]
  {
  }

  /** Insert is insertion into the sorted sequence, on any tree whose keys are in order. */
  lemma {:induction false} InsertRefines<N>(cmp: Eval, t: Tree<N>, e: Entry<N>)
    requires t.Fork? && TotalOrder(cmp) && Sorted(cmp, Items(t))
    ensures Items(Insert(cmp, t, e)) == InsertItem(cmp, Items(t), Item(e.key, e.data))
    ensures Insert(cmp, t, e).Fork?
    decreases t
  {
    var x, y := Item(e.key, e.data), Item(t.e.key, t.e.data);
    InsertSplit(cmp, Items(t.left), y, Items(t.right), x);
    SortedSides(cmp, t);
    NewLeafItems(e);
    var c := cmp(e.key, t.e.key);
    if c < 0 {
      if t.left.Fork? {
        InsertRefines(cmp, t.left, e);
        RebuiltLeft(t, Insert(cmp, t.left, e));
      }
    } else if c > 0 {
      if t.right.Fork? {
        InsertRefines(cmp, t.right, e);
        RebuiltRight(t, Insert(cmp, t.right, e));
      }
    }
  }

  lemma {:induction false} InsertNodes<N>(cmp: Eval, t: Tree<N>, e: Entry<N>)
    requires t.Fork?
    ensures Nodes(Insert(cmp, t, e)) == if Present(cmp, t, e.key) then Nodes(t) else Nodes(t) + {e.id}
    ensures Separate(t) && e.id !in Nodes(t) ==> Separate(Insert(cmp, t, e))
    ensures |Items(Insert(cmp, t, e))| == |Items(t)| + if Present(cmp, t, e.key) then 0 else 1
    ensures Insert(cmp, t, e).Fork?
    decreases t
  {
    var c := cmp(e.key, t.e.key);
    if c < 0 && t.left.Fork? {
      InsertNodes(cmp, t.left, e);
      RebuiltLeft(t, Insert(cmp, t.left, e));
    } else if c > 0 && t.right.Fork? {
      InsertNodes(cmp, t.right, e);
      RebuiltRight(t, Insert(cmp, t.right, e));
    }
  }

  /** Insert keeps the lazy-height invariant and raises the tree by at most one. */
  lemma {:induction false} InsertKeepsLazy<N>(cmp: Eval, t: Tree<N>, e: Entry<N>)
    requires t.Fork? && Lazy(t) && |Items(t)| + 1 < COUNT_LIMIT
    ensures Lazy(Insert(cmp, t, e)) && Insert(cmp, t, e).Fork?
    ensures Height(t) <= Height(Insert(cmp, t, e)) <= Height(t) + 1
    decreases t
  {
    var c := cmp(e.key, t.e.key);
    if c < 0 && t.left.Fork? {
      InsertKeepsLazy(cmp, t.left, e);
      InsertNodes(cmp, t.left, e);
      var l := Insert(cmp, t.left, e);
      MendStep(t, l, t.right);
    } else if c > 0 && t.right.Fork? {
      InsertKeepsLazy(cmp, t.right, e);
      InsertNodes(cmp, t.right, e);
      var r := Insert(cmp, t.right, e);
      MendStep(t, t.left, r);
    }
  }

  // One level of the way back up: a child is mended, then its parent balanced.
  lemma {:induction false} MendStep<N>(t: Tree<N>, l: Tree<N>, r: Tree<N>)
    requires t.Fork? && Lazy(l) && Lazy(r)
    requires -2 <= Height(l) - Height(r) <= 2
    requires |Items(l)| + 1 + |Items(r)| < COUNT_LIMIT
    ensures Lazy(Balance(Fork(Mend(l), t.e, t.height, Mend(r))))
    ensures Balance(Fork(Mend(l), t.e, t.height, Mend(r))).Fork?
    ensures Avl(l) ==> Mend(l) == l
    ensures Avl(r) ==> Mend(r) == r
    ensures var h := Height(Balance(Fork(Mend(l), t.e, t.height, Mend(r))));
            Max(Height(l), Height(r)) <= h <= 1 + Max(Height(l), Height(r)) &&
            (-1 <= Height(l) - Height(r) <= 1 ==> h == 1 + Max(Height(l), Height(r)))
  {
    HeightFits(Fork(l, t.e, t.height, r));
    MendLazy(l);
    MendLazy(r);
    BalanceRepairs(Fork(Mend(l), t.e, t.height, Mend(r)));
  }

  // ---- Delete ----

  lemma {:induction false} HeadFirst<T>(x: T, a: seq<T>, y: T, b: seq<T>)
    ensures ([x] + a) + [y] + b == [x] + (a + [y] + b)
  {
  }

  lemma {:induction false} DropLeastKeeps<N>(t: Tree<N>)
    requires t.Fork?
    ensures Items(t) == [Item(Least(t).key, Least(t).data)] + Items(DropLeast(t))
    ensures Ids(t) == [Least(t).id] + Ids(DropLeast(t))
    ensures Nodes(t) == {Least(t).id} + Nodes(DropLeast(t))
    ensures Separate(t) ==> Separate(DropLeast(t)) && Least(t).id !in Nodes(DropLeast(t))
    decreases t
  {
    if t.left.Fork? {
      DropLeastKeeps(t.left);
      MendKeeps(DropLeast(t.left));
      BalanceKeeps(t.(left := Mend(DropLeast(t.left))));
      HeadFirst(Item(Least(t).key, Least(t).data), Items(DropLeast(t.left)), Item(t.e.key, t.e.data), Items(t.right));
      HeadFirst(Least(t).id, Ids(DropLeast(t.left)), t.e.id, Ids(t.right));
    }
  }

  lemma {:induction false} DropLeastLazy<N>(t: Tree<N>)
    requires t.Fork? && Lazy(t) && |Items(t)| < COUNT_LIMIT
    ensures Lazy(DropLeast(t))
    ensures Height(t) - 1 <= Height(DropLeast(t)) <= Height(t)
    decreases t
  {
    if t.left.Fork? {
      DropLeastLazy(t.left);
      DropLeastKeeps(t.left);
      MendStep(t, DropLeast(t.left), t.right);
    } else {
      HeightFits(t);
    }
  }

  // The copy-up of the successor
  lemma {:induction false} CopiedUp<N>(cmp: Eval, t: Tree<N>, k: Key)
    requires t.Fork? && t.right.Fork? && cmp(k, t.e.key) == 0
    ensures Items(Delete(cmp, t, k)) == Items(t.left) + Items(t.right)
    ensures Nodes(Delete(cmp, t, k)) <= Nodes(t)
    ensures Separate(t) ==> Separate(Delete(cmp, t, k))
  {
    var next := Least(t.right);
    var u := t.(e := Entry(t.e.id, next.key, next.data));
    var d := DropLeast(t.right);
    DropLeastKeeps(t.right);
    RebuiltRight(u, d);
    assert Delete(cmp, t, k) == Balance(u.(right := Mend(d)));
    Regroup(Items(t.left), [Item(next.key, next.data)], Items(d));
  }

  /** Delete is removal from the sorted sequence, on any tree whose keys are in order. */
  lemma {:induction false} DeleteRefines<N>(cmp: Eval, t: Tree<N>, k: Key)
    requires t.Fork? && TotalOrder(cmp) && Sorted(cmp, Items(t))
    ensures Items(Delete(cmp, t, k)) == RemoveKey(cmp, Items(t), k)
    decreases t
  {
    var y := Item(t.e.key, t.e.data);
    RemoveSplit(cmp, Items(t.left), y, Items(t.right), k);
    SortedSides(cmp, t);
    var c := cmp(k, t.e.key);
    if c == 0 && t.right.Fork? {
      CopiedUp(cmp, t, k);
    } else if c < 0 && t.left.Fork? {
      DeleteRefines(cmp, t.left, k);
      RebuiltLeft(t, Delete(cmp, t.left, k));
    } else if c > 0 && t.right.Fork? {
      DeleteRefines(cmp, t.right, k);
      RebuiltRight(t, Delete(cmp, t.right, k));
    }
  }

  lemma {:induction false} DeleteNodes<N>(cmp: Eval, t: Tree<N>, k: Key)
    requires t.Fork?
    ensures Nodes(Delete(cmp, t, k)) <= Nodes(t)
    ensures Separate(t) ==> Separate(Delete(cmp, t, k))
    ensures |Items(Delete(cmp, t, k))| == |Items(t)| - if Present(cmp, t, k) then 1 else 0
    decreases t
  {
    var c := cmp(k, t.e.key);
    if c == 0 && t.right.Fork? {
      CopiedUp(cmp, t, k);
    } else if c < 0 && t.left.Fork? {
      DeleteNodes(cmp, t.left, k);
      RebuiltLeft(t, Delete(cmp, t.left, k));
    } else if c > 0 && t.right.Fork? {
      DeleteNodes(cmp, t.right, k);
      RebuiltRight(t, Delete(cmp, t.right, k));
    }
  }

  // The entry is replaced by its successor's.
  lemma {:induction false} CopyUpLazy<N>(cmp: Eval, t: Tree<N>, k: Key)
    requires t.Fork? && t.right.Fork? && cmp(k, t.e.key) == 0 && Lazy(t) && |Items(t)| < COUNT_LIMIT
    ensures Lazy(Delete(cmp, t, k))
    ensures Height(t) - 1 <= Height(Delete(cmp, t, k)) <= Height(t)
  {
    var next := Least(t.right);
    DropLeastKeeps(t.right);
    DropLeastLazy(t.right);
    MendStep(t.(e := Entry(t.e.id, next.key, next.data)), t.left, DropLeast(t.right));
  }

  /** Delete keeps the lazy-height invariant and lowers the tree by at most one. */
  lemma {:induction false} DeleteKeepsLazy<N>(cmp: Eval, t: Tree<N>, k: Key)
    requires t.Fork? && Lazy(t) && |Items(t)| < COUNT_LIMIT
    ensures Lazy(Delete(cmp, t, k))
    ensures Height(t) - 1 <= Height(Delete(cmp, t, k)) <= Height(t)
    decreases t
  {
    var c := cmp(k, t.e.key);
    if c == 0 && t.right.Fork? {
      CopyUpLazy(cmp, t, k);
    } else if c < 0 && t.left.Fork? {
      DeleteKeepsLazy(cmp, t.left, k);
      DeleteNodes(cmp, t.left, k);
      MendStep(t, Delete(cmp, t.left, k), t.right);
    } else if c > 0 && t.right.Fork? {
      DeleteKeepsLazy(cmp, t.right, k);
      DeleteNodes(cmp, t.right, k);
      MendStep(t, t.left, Delete(cmp, t.right, k));
    }
  }

  // ---- Looking a key up ----

  /** Whether the descent from the root meets an equal key. */
  predicate Present<N>(cmp: Eval, t: Tree<N>, k: Key) {
    t.Fork? &&
    var c := cmp(k, t.e.key);
    if c < 0 then Present(cmp, t.left, k)
    else if c == 0 then true
    else Present(cmp, t.right, k)
  }

  lemma {:induction false} PresentRefines<N>(cmp: Eval, t: Tree<N>, k: Key)
    requires TotalOrder(cmp) && Sorted(cmp, Items(t))
    ensures Present(cmp, t, k) <==> Find(cmp, Items(t), k) >= 0
    decreases t
  {
    if t.Fork? {
      FindSplit(cmp, Items(t.left), Item(t.e.key, t.e.data), Items(t.right), k);
      SortedParts(cmp, Items(t.left), Item(t.e.key, t.e.data), Items(t.right));
      PresentRefines(cmp, t.left, k);
      PresentRefines(cmp, t.right, k);
    }
  }

  /** A duplicate insert, or a delete that finds nothing, changes nothing but a stale root height. */
  lemma {:induction false} NothingChanges<N>(cmp: Eval, t: Tree<N>, e: Entry<N>, k: Key)
    requires t.Fork? && Lazy(t) && |Items(t)| < COUNT_LIMIT
    ensures Present(cmp, t, e.key) ==> Insert(cmp, t, e) == t || Insert(cmp, t, e) == t.(height := Height(t))
    ensures !Present(cmp, t, k) ==> Delete(cmp, t, k) == t || Delete(cmp, t, k) == t.(height := Height(t))
    decreases t
  {
    HeightFits(t);
    if t.left.Fork? {
      NothingChanges(cmp, t.left, e, k);
      MendLazy(t.left);
      assert t.left.(height := Height(t.left)) == t.left;
    }
    if t.right.Fork? {
      NothingChanges(cmp, t.right, e, k);
      MendLazy(t.right);
      assert t.right.(height := Height(t.right)) == t.right;
    }
    MendLazy(t);
    var c := cmp(e.key, t.e.key);
    if Present(cmp, t, e.key) && c < 0 {
      assert Present(cmp, t.left, e.key) && Mend(Insert(cmp, t.left, e)) == t.left;
    } else if Present(cmp, t, e.key) && c > 0 {
      assert Present(cmp, t.right, e.key) && Mend(Insert(cmp, t.right, e)) == t.right;
    }
  }

  /** The entry the descent meets. */
  function Located<N>(cmp: Eval, t: Tree<N>, k: Key): Item
    requires Present(cmp, t, k)
  {
    var c := cmp(k, t.e.key);
    if c < 0 then Located(cmp, t.left, k)
    else if c == 0 then Item(t.e.key, t.e.data)
    else Located(cmp, t.right, k)
  }

  lemma {:induction false} LocatedRefines<N>(cmp: Eval, t: Tree<N>, k: Key)
    requires TotalOrder(cmp) && Sorted(cmp, Items(t)) && Present(cmp, t, k)
    ensures Find(cmp, Items(t), k) >= 0 && Located(cmp, t, k) == Items(t)[Find(cmp, Items(t), k)]
    decreases t
  {
    FindSplit(cmp, Items(t.left), Item(t.e.key, t.e.data), Items(t.right), k);
    SortedParts(cmp, Items(t.left), Item(t.e.key, t.e.data), Items(t.right));
    var c := cmp(k, t.e.key);
    if c < 0 { LocatedRefines(cmp, t.left, k); }
    if c > 0 { LocatedRefines(cmp, t.right, k); }
  }

  // ---- A subtree inside a longer list of nodes ----

  lemma {:induction false} AroundLeft<N>(pre: seq<N>, t: Tree<N>, post: seq<N>)
    requires t.Fork?
    ensures pre + Ids(t) + post == pre + Ids(t.left) + ([t.e.id] + Ids(t.right) + post)
  {
  }

  lemma {:induction false} AroundRight<N>(pre: seq<N>, t: Tree<N>, post: seq<N>)
    requires t.Fork?
    ensures pre + Ids(t) + post == (pre + Ids(t.left) + [t.e.id]) + Ids(t.right) + post
  {
  }

  // The steps on the way back up keep the list.
  lemma {:induction false} RiseLeft<N>(pre: seq<N>, t: Tree<N>, post: seq<N>)
    requires t.Fork?
    ensures pre + Ids(Balance(t.(left := Mend(t.left)))) + post == pre + Ids(t.left) + ([t.e.id] + Ids(t.right) + post)
  {
    MendKeeps(t.left);
    BalanceKeeps(t.(left := Mend(t.left)));
    AroundLeft(pre, t.(left := Mend(t.left)), post);
  }

  lemma {:induction false} RiseRight<N>(pre: seq<N>, t: Tree<N>, post: seq<N>)
    requires t.Fork?
    ensures pre + Ids(Balance(t.(right := Mend(t.right)))) + post
         == (pre + Ids(t.left) + [t.e.id]) + Ids(t.right) + post
  {
    MendKeeps(t.right);
    BalanceKeeps(t.(right := Mend(t.right)));
    AroundRight(pre, t.(right := Mend(t.right)), post);
  }

  lemma {:induction false} CutAt<N>(a: seq<N>, b: seq<N>)
    ensures (a + b)[..|a|] == a && (a + b)[|a|..] == b
  {
  }

  // A new leaf in an empty place of a node stands next to it: before it on the lesser side,
  lemma {:induction false} LeafBefore<N>(pre: seq<N>, t: Tree<N>, post: seq<N>, e: Entry<N>)
    requires t.Fork?
    ensures var s, i := pre + Ids(t) + post, |pre| + |Ids(t.left)|;
            && i < |s| && s[i] == t.e.id
            && (t.left.Leaf? ==> pre + Ids(t.(left := NewLeaf(e))) + post == s[..i] + [e.id] + s[i..])
  {
    AroundLeft(pre, t, post);
    CutAt(pre + Ids(t.left), [t.e.id] + Ids(t.right) + post);
    if t.left.Leaf? {
      AroundLeft(pre, t.(left := NewLeaf(e)), post);
      assert Ids(NewLeaf(e)) == [e.id] && pre + Ids(t.left) == pre;
    }
  }

  // after it on the greater side.
  lemma {:induction false} LeafAfter<N>(pre: seq<N>, t: Tree<N>, post: seq<N>, e: Entry<N>)
    requires t.Fork?
    ensures var s, i := pre + Ids(t) + post, |pre| + |Ids(t.left)|;
            && i < |s| && s[i] == t.e.id
            && (t.right.Leaf? ==> pre + Ids(t.(right := NewLeaf(e))) + post == s[..i + 1] + [e.id] + s[i + 1..])
  {
    var a := pre + Ids(t.left) + [t.e.id];
    AroundRight(pre, t, post);
    assert a + Ids(t.right) + post == a + (Ids(t.right) + post);
    CutAt(a, Ids(t.right) + post);
    if t.right.Leaf? {
      AroundRight(pre, t.(right := NewLeaf(e)), post);
      assert Ids(NewLeaf(e)) == [e.id] && Ids(t.right) + post == post;
    }
  }

  // ---- Searches ----

  /** The node the lesser search ends at, best being the last lesser node passed. */
  function FloorSearch<N>(cmp: Eval, t: Tree<N>, k: Key, equal: bool, best: Option<N>): Option<N> {
    if t.Leaf? then best
    else
      var c := cmp(k, t.e.key);
      if c == 0 && equal then Some(t.e.id)
      else if c <= 0 then FloorSearch(cmp, t.left, k, equal, best)
      else FloorSearch(cmp, t.right, k, equal, Some(t.e.id))
  }

  function CeilingSearch<N>(cmp: Eval, t: Tree<N>, k: Key, equal: bool, best: Option<N>): Option<N> {
    if t.Leaf? then best
    else
      var c := cmp(k, t.e.key);
      if c == 0 && equal then Some(t.e.id)
      else if c < 0 then CeilingSearch(cmp, t.left, k, equal, Some(t.e.id))
      else CeilingSearch(cmp, t.right, k, equal, best)
  }

  function ExactSearch<N>(cmp: Eval, t: Tree<N>, k: Key): Option<N> {
    if t.Leaf? then None
    else
      var c := cmp(k, t.e.key);
      if c == 0 then Some(t.e.id)
      else if c < 0 then ExactSearch(cmp, t.left, k)
      else ExactSearch(cmp, t.right, k)
  }

  // The positions of the parts of a tree in its sequences.
  lemma {:induction false} Positions<N>(t: Tree<N>)
    requires t.Fork?
    ensures var m := |Items(t.left)|;
            && |Items(t)| == m + 1 + |Items(t.right)|
            && (forall j :: 0 <= j < m ==> Items(t)[j] == Items(t.left)[j] && Ids(t)[j] == Ids(t.left)[j])
            && Items(t)[m] == Item(t.e.key, t.e.data) && Ids(t)[m] == t.e.id
            && (forall j :: m < j < |Items(t)| ==>
                  Items(t)[j] == Items(t.right)[j - m - 1] && Ids(t)[j] == Ids(t.right)[j - m - 1])
  {
  }

  // The node at a position
  lemma {:induction false} IdAt<N>(t: Tree<N>, j: nat)
    requires t.Fork? && j < |Items(t)|
    ensures var m := |Items(t.left)|;
            && m < |Items(t)| == m + 1 + |Items(t.right)|
            && Ids(t)[j] == if j < m then Ids(t.left)[j] else if j == m then t.e.id else Ids(t.right)[j - m - 1]
  {
    Positions(t);
  }

  /** The lesser search ends at the greatest key under the one searched for. */
  lemma {:induction false} FloorFound<N>(cmp: Eval, t: Tree<N>, k: Key, equal: bool, best: Option<N>) returns (i: int)
    requires TotalOrder(cmp) && Sorted(cmp, Items(t))
    ensures IsFloor(cmp, Items(t), k, equal, i)
    ensures FloorSearch(cmp, t, k, equal, best) == if i >= 0 then Some(Ids(t)[i]) else best
    decreases t
  {
    if t.Leaf? {
      return -1;
    }
    SortedSides(cmp, t);
    var m := |Items(t.left)|;
    var c := cmp(k, t.e.key);
    if c == 0 && equal {
      i := m;
      MiddleFound(cmp, t, k);
    } else if c <= 0 {
      i := FloorFound(cmp, t.left, k, equal, best);
      FloorLeft(cmp, t, k, equal, i);
    } else {
      i := FloorFound(cmp, t.right, k, equal, Some(t.e.id));
      FloorRight(cmp, t, k, equal, i);
      i := i + m + 1;
    }
    if i >= 0 { IdAt(t, i); }
  }

  // A key that the root has is its own floor and ceiling.
  lemma {:induction false} MiddleFound<N>(cmp: Eval, t: Tree<N>, k: Key)
    requires t.Fork? && TotalOrder(cmp) && Sorted(cmp, Items(t)) && cmp(k, t.e.key) == 0
    ensures IsFloor(cmp, Items(t), k, true, |Items(t.left)|) && IsCeiling(cmp, Items(t), k, true, |Items(t.left)|)
    ensures |Items(t.left)| < |Items(t)|
  {
    Positions(t);
    Settled(cmp, Items(t), k, |Items(t.left)|);
  }

  lemma {:induction false} FloorLeft<N>(cmp: Eval, t: Tree<N>, k: Key, equal: bool, i: int)
    requires t.Fork? && TotalOrder(cmp) && Sorted(cmp, Items(t))
    requires cmp(k, t.e.key) < 0 || (cmp(k, t.e.key) == 0 && !equal)
    requires IsFloor(cmp, Items(t.left), k, equal, i)
    ensures IsFloor(cmp, Items(t), k, equal, i)
  {
    Positions(t);
    Settled(cmp, Items(t), k, |Items(t.left)|);
  }

  lemma {:induction false} FloorRight<N>(cmp: Eval, t: Tree<N>, k: Key, equal: bool, i: int)
    requires t.Fork? && TotalOrder(cmp) && Sorted(cmp, Items(t)) && cmp(k, t.e.key) > 0
    requires IsFloor(cmp, Items(t.right), k, equal, i)
    ensures IsFloor(cmp, Items(t), k, equal, i + |Items(t.left)| + 1)
  {
    Positions(t);
    Settled(cmp, Items(t), k, |Items(t.left)|);
  }

  /** The greater search ends at the least key over the one searched for. */
  lemma {:induction false} CeilingFound<N>(cmp: Eval, t: Tree<N>, k: Key, equal: bool, best: Option<N>) returns (i: int)
    requires TotalOrder(cmp) && Sorted(cmp, Items(t))
    ensures IsCeiling(cmp, Items(t), k, equal, i)
    ensures CeilingSearch(cmp, t, k, equal, best) == if i < |Items(t)| then Some(Ids(t)[i]) else best
    decreases t
  {
    if t.Leaf? {
      return 0;
    }
    SortedSides(cmp, t);
    var m := |Items(t.left)|;
    var c := cmp(k, t.e.key);
    if c == 0 && equal {
      i := m;
      MiddleFound(cmp, t, k);
    } else if c < 0 {
      i := CeilingFound(cmp, t.left, k, equal, Some(t.e.id));
      CeilingLeft(cmp, t, k, equal, i);
    } else {
      i := CeilingFound(cmp, t.right, k, equal, best);
      CeilingRight(cmp, t, k, equal, i);
      i := i + m + 1;
    }
    if i < |Items(t)| { IdAt(t, i); } else { Positions(t); }
  }

  lemma {:induction false} CeilingLeft<N>(cmp: Eval, t: Tree<N>, k: Key, equal: bool, i: int)
    requires t.Fork? && TotalOrder(cmp) && Sorted(cmp, Items(t)) && cmp(k, t.e.key) < 0
    requires IsCeiling(cmp, Items(t.left), k, equal, i)
    ensures IsCeiling(cmp, Items(t), k, equal, i)
  {
    Positions(t);
    Settled(cmp, Items(t), k, |Items(t.left)|);
  }

  lemma {:induction false} CeilingRight<N>(cmp: Eval, t: Tree<N>, k: Key, equal: bool, i: int)
    requires t.Fork? && TotalOrder(cmp) && Sorted(cmp, Items(t))
    requires cmp(k, t.e.key) > 0 || (cmp(k, t.e.key) == 0 && !equal)
    requires IsCeiling(cmp, Items(t.right), k, equal, i)
    ensures IsCeiling(cmp, Items(t), k, equal, i + |Items(t.left)| + 1)
  {
    Positions(t);
    Settled(cmp, Items(t), k, |Items(t.left)|);
  }

  /** The exact search ends at the key, if it is there. */
  lemma {:induction false} ExactFound<N>(cmp: Eval, t: Tree<N>, k: Key)
    requires TotalOrder(cmp) && Sorted(cmp, Items(t))
    ensures var i := Find(cmp, Items(t), k);
            ExactSearch(cmp, t, k) == if i >= 0 then Some(Ids(t)[i]) else None
    decreases t
  {
    if t.Fork? {
      Positions(t);
      FindSplit(cmp, Items(t.left), Item(t.e.key, t.e.data), Items(t.right), k);
      SortedParts(cmp, Items(t.left), Item(t.e.key, t.e.data), Items(t.right));
      if cmp(k, t.e.key) < 0 { ExactFound(cmp, t.left, k); }
      if cmp(k, t.e.key) > 0 { ExactFound(cmp, t.right, k); }
    }
  }

  lemma {:induction false} IdsAreNodes<N>(t: Tree<N>)
    ensures forall i :: 0 <= i < |Ids(t)| ==> Ids(t)[i] in Nodes(t)
    decreases t
  {
    if t.Fork? {
      Positions(t);
      IdsAreNodes(t.left);
      IdsAreNodes(t.right);
    }
  }

  // ---- The two updates, all their effects together ----

  lemma {:induction false} InsertCorrect<N>(cmp: Eval, t: Tree<N>, e: Entry<N>)
    requires t.Fork? && TotalOrder(cmp) && Sorted(cmp, Items(t)) && Lazy(t) && |Items(t)| + 1 < COUNT_LIMIT
    ensures var t1 := Insert(cmp, t, e);
            && t1.Fork? && Lazy(t1) && Sorted(cmp, Items(t1))
            && Items(t1) == InsertItem(cmp, Items(t), Item(e.key, e.data))
            && |Items(t1)| == |Items(t)| + (if Present(cmp, t, e.key) then 0 else 1)
            && Nodes(t1) == if Present(cmp, t, e.key) then Nodes(t) else Nodes(t) + {e.id}
    ensures Present(cmp, t, e.key) <==> Find(cmp, Items(t), e.key) >= 0
  {
    InsertRefines(cmp, t, e);
    InsertKeepsLazy(cmp, t, e);
    InsertNodes(cmp, t, e);
    PresentRefines(cmp, t, e.key);
    InsertItemMeans(cmp, Items(t), Item(e.key, e.data));
  }

  lemma {:induction false} DeleteCorrect<N>(cmp: Eval, t: Tree<N>, k: Key)
    requires t.Fork? && TotalOrder(cmp) && Sorted(cmp, Items(t)) && Lazy(t) && |Items(t)| < COUNT_LIMIT
    ensures var t1 := Delete(cmp, t, k);
            && Lazy(t1) && Sorted(cmp, Items(t1)) && Nodes(t1) <= Nodes(t)
            && Items(t1) == RemoveKey(cmp, Items(t), k)
            && |Items(t1)| == |Items(t)| - (if Present(cmp, t, k) then 1 else 0)
    ensures Present(cmp, t, k) <==> Find(cmp, Items(t), k) >= 0
    ensures Present(cmp, t, k) ==> Located(cmp, t, k) == Items(t)[Find(cmp, Items(t), k)]
  {
    DeleteRefines(cmp, t, k);
    DeleteKeepsLazy(cmp, t, k);
    DeleteNodes(cmp, t, k);
    PresentRefines(cmp, t, k);
    if Present(cmp, t, k) { LocatedRefines(cmp, t, k); }
    RemoveKeyMeans(cmp, Items(t), k);
  }
}
