/** Whole histories of inserts and deletes, from the empty tree. */
module TreeRuns {
  import opened KeyOrder
  import opened SortedList
  import opened AvlModel
  import opened Wrappers

  datatype Op = Put(key: Key, data: Data) | Drop(key: Key)

  /** One operation on the tree; a new node's identity is the number of the operation. */
  function Apply(cmp: Eval, t: Tree<nat>, op: Op, id: nat): Tree<nat> {
    match op
    case Put(k, d) => if t.Leaf? then NewLeaf(Entry(id, k, d)) else Insert(cmp, t, Entry(id, k, d))
    case Drop(k) => if t.Leaf? then t else Delete(cmp, t, k)
  }

  function Run(cmp: Eval, ops: seq<Op>): Tree<nat> {
    if ops == [] then Leaf else Apply(cmp, Run(cmp, ops[..|ops| - 1]), ops[|ops| - 1], |ops| - 1)
  }

  // What one operation does to the data under a key k.
  function Effect(cmp: Eval, op: Op, k: Key, before: Option<Data>): Option<Data> {
    match op
    case Put(key, data) => if before.None? && cmp(k, key) == 0 then Some(data) else before
    case Drop(key) => if cmp(k, key) == 0 then None else before
  }

  /** The data a history leaves under a key: the first insert since the last delete of it counts. */
  function Meaning(cmp: Eval, ops: seq<Op>, k: Key): Option<Data> {
    if ops == [] then None else Effect(cmp, ops[|ops| - 1], k, Meaning(cmp, ops[..|ops| - 1], k))
  }

  /** What a history keeps of the tree. */
  ghost predicate Kept(cmp: Eval, t: Tree<nat>, n: nat) {
    && Lazy(t) && Sorted(cmp, Items(t)) && |Items(t)| <= n
    && Separate(t) && forall id :: id in Nodes(t) ==> id < n
  }

  lemma {:induction false} OneStep(cmp: Eval, t: Tree<nat>, op: Op, n: nat)
    requires TotalOrder(cmp) && Kept(cmp, t, n) && n + 1 < COUNT_LIMIT
    ensures Kept(cmp, Apply(cmp, t, op, n), n + 1)
  {
    assert n !in Nodes(t);
    match op
    case Put(key, data) =>
      if t.Leaf? {
        assert Items(NewLeaf(Entry(n, key, data))) == [Item(key, data)];
      } else {
        InsertCorrect(cmp, t, Entry(n, key, data));
        InsertNodes(cmp, t, Entry(n, key, data));
      }
    case Drop(key) =>
      if t.Fork? {
        DeleteCorrect(cmp, t, key);
        DeleteNodes(cmp, t, key);
      }
  }

  lemma {:induction false} OneLookup(cmp: Eval, t: Tree<nat>, op: Op, n: nat, k: Key)
    requires TotalOrder(cmp) && Kept(cmp, t, n) && n + 1 < COUNT_LIMIT
    ensures Lookup(cmp, Items(Apply(cmp, t, op, n)), k) == Effect(cmp, op, k, Lookup(cmp, Items(t), k))
  {
    match op
    case Put(key, data) =>
      LookupAfterInsert(cmp, Items(t), Item(key, data), k);
      if t.Leaf? {
        assert Items(NewLeaf(Entry(n, key, data))) == [Item(key, data)];
      } else {
        InsertCorrect(cmp, t, Entry(n, key, data));
      }
    case Drop(key) =>
      LookupAfterRemove(cmp, Items(t), key, k);
      if t.Fork? { DeleteCorrect(cmp, t, key); }
  }

  /** Every history keeps the tree in order, balanced, with exact heights below the root, and at most
      127 high; no node occurs twice in it. */
  lemma {:induction false} RunKeeps(cmp: Eval, ops: seq<Op>)
    requires TotalOrder(cmp) && |ops| < COUNT_LIMIT
    ensures Kept(cmp, Run(cmp, ops), |ops|) && Height(Run(cmp, ops)) <= 127
    decreases |ops|
  {
    if ops != [] {
      var n := |ops| - 1;
      RunKeeps(cmp, ops[..n]);
      OneStep(cmp, Run(cmp, ops[..n]), ops[n], n);
    }
    HeightFits(Run(cmp, ops));
  }

  /** After every history the tree answers every lookup as the history says. */
  lemma {:induction false} RunAnswers(cmp: Eval, ops: seq<Op>, k: Key)
    requires TotalOrder(cmp) && |ops| < COUNT_LIMIT
    ensures Lookup(cmp, Items(Run(cmp, ops)), k) == Meaning(cmp, ops, k)
    decreases |ops|
  {
    if ops != [] {
      var n := |ops| - 1;
      RunAnswers(cmp, ops[..n], k);
      RunKeeps(cmp, ops[..n]);
      OneLookup(cmp, Run(cmp, ops[..n]), ops[n], n, k);
    }
  }
}
