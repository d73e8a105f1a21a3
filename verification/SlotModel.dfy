/** The slot table of velymem.c seen from outside: which slots are free and in which order they will be
    reused, which OS block sits in which slot, which slots are marked as process memory. */
module SlotModel {
  import opened Sequences

  type Ptr = nat      // an address; 0 is NULL
  const NULL: Ptr := 0

  datatype View = View(
    stack: seq<nat>,          // freed slots, the next one to be reused first
    next: nat,                // slots from here on were never used
    sticky: set<nat>,         // slots with the process bit, which nothing clears
    blocks: map<nat, Ptr>,    // slots with an OS block that is not freed yet
    files: map<nat, Ptr>)     // slots of registered files: where the FILE pointer is, or NULL once closed

  const EMPTY: View := View([], 0, {}, map[], map[])

  // ---- The operations ----

  function NextSlot(v: View): nat {
    if v.stack == [] then v.next else v.stack[0]
  }

  /** vely_add_mem: the last freed slot is reused first. */
  function Take(v: View, mark: bool): View {
    v.(stack := if v.stack == [] then [] else v.stack[1..],
       next := if v.stack == [] then v.next + 1 else v.next,
       sticky := if mark then v.sticky + {NextSlot(v)} else v.sticky)
  }

  function Alloc(v: View, p: Ptr, mark: bool): View {
    Take(v, mark).(blocks := v.blocks[NextSlot(v) := p])
  }

  function Release(v: View, r: nat): View {
    v.(blocks := v.blocks - {r}, stack := [r] + v.stack)
  }

  /** realloc of the block in slot r, the OS having moved it to q. */
  function Resize(v: View, r: nat, q: Ptr, mark: bool): View {
    Alloc(Release(v, r), q, mark)
  }

  function Mark(v: View, r: nat): View {
    v.(sticky := v.sticky + {r})
  }

  function Register(v: View, f: Ptr, mark: bool): View {
    Take(v, mark).(files := v.files[NextSlot(v) := f])
  }

  function CloseSlot(v: View, i: nat): View {
    v.(files := v.files[i := NULL])
  }

  /** vely_done having looked at the slots below i: unmarked blocks are released, lowest slot first. */
  function Sweep(v: View, i: nat): View {
    if i == 0 then v
    else
      var w := Sweep(v, i - 1);
      if i - 1 in v.blocks && i - 1 !in v.sticky then Release(w, i - 1) else w
  }

  /** The end of a request: the whole table goes unless a marked block is left. */
  function EndRequest(v: View): View {
    var w := Sweep(v, v.next);
    if w.blocks == map[] then EMPTY else w
  }

  // ---- What every operation keeps ----

  /** The used slots are split among the freed ones, the blocks' and the files'; no block is in two slots. */
  ghost predicate Sound(v: View) {
    && Distinct(v.stack)
    && (forall i :: i in v.stack ==> i < v.next && i !in v.files && i !in v.blocks)
    && (forall i :: i in v.blocks ==> i < v.next && i !in v.files && v.blocks[i] != NULL)
    && (forall i, j :: i in v.blocks && j in v.blocks && i != j ==> v.blocks[i] != v.blocks[j])
    && (forall i :: i in v.files ==> i < v.next)
    && (forall i :: i in v.sticky ==> i < v.next)
    && (forall i: nat :: i < v.next ==> i in v.stack || i in v.files || i in v.blocks)
  }

  // The slot taken was free, and the other free slots stay free.
  lemma {:induction false} TakenSlot(v: View, mark: bool)
    requires Sound(v)
    ensures NextSlot(v) !in v.blocks && NextSlot(v) !in v.files && NextSlot(v) < Take(v, mark).next
    ensures Distinct(Take(v, mark).stack)
    ensures forall i: nat :: i in Take(v, mark).stack <==> i in v.stack && i != NextSlot(v)
    ensures v.next <= Take(v, mark).next <= v.next + 1 && (Take(v, mark).next > v.next ==> NextSlot(v) == v.next)
  {
    if v.stack != [] {
      assert v.stack == [v.stack[0]] + v.stack[1..];
    }
  }

  lemma {:induction false} AllocSound(v: View, p: Ptr, mark: bool)
    requires Sound(v) && p != NULL && p !in v.blocks.Values
    ensures Sound(Alloc(v, p, mark))
    ensures NextSlot(v) !in v.blocks && NextSlot(v) !in v.files
  {
    TakenSlot(v, mark);
    var w := Alloc(v, p, mark);
    assert forall i :: i in v.blocks ==> v.blocks[i] in v.blocks.Values && v.blocks[i] != p;
    forall i: nat | i < w.next ensures i in w.stack || i in w.files || i in w.blocks {
      assert i < v.next || i == NextSlot(v);
    }
  }

  lemma {:induction false} AllocAdds(v: View, p: Ptr, mark: bool)
    requires Sound(v)
    ensures Alloc(v, p, mark).blocks.Values == v.blocks.Values + {p}
  {
    TakenSlot(v, mark);
    var w := Alloc(v, p, mark);
    assert w.blocks[NextSlot(v)] == p;
    assert forall i :: i in v.blocks ==> i in w.blocks && w.blocks[i] == v.blocks[i];
  }

  lemma {:induction false} RegisterSound(v: View, f: Ptr, mark: bool)
    requires Sound(v)
    ensures Sound(Register(v, f, mark))
  {
    TakenSlot(v, mark);
  }

  lemma {:induction false} ReleaseSound(v: View, r: nat)
    requires Sound(v) && r in v.blocks
    ensures Sound(Release(v, r))
    ensures Release(v, r).blocks.Values == v.blocks.Values - {v.blocks[r]}
  {
    var w := Release(v, r);
    assert w.stack[1..] == v.stack;
    assert forall i :: i in w.blocks ==> i in v.blocks && i != r && w.blocks[i] == v.blocks[i];
    assert forall i :: i in v.blocks && i != r ==> i in w.blocks;
  }

  lemma {:induction false} MarkSound(v: View, r: nat)
    requires Sound(v) && r in v.blocks
    ensures Sound(Mark(v, r))
  {
  }

  /** A block that is resized keeps its slot and the order in which slots are reused. */
  lemma {:induction false} ResizeInPlace(v: View, r: nat, q: Ptr, mark: bool)
    requires Sound(v) && r in v.blocks && q != NULL && (q in v.blocks.Values ==> q == v.blocks[r])
    ensures Sound(Resize(v, r, q, mark))
    ensures Resize(v, r, q, mark) == v.(blocks := v.blocks[r := q], sticky := if mark then v.sticky + {r} else v.sticky)
  {
    ReleaseSound(v, r);
    AllocSound(Release(v, r), q, mark);
    assert ([r] + v.stack)[1..] == v.stack;
    assert (v.blocks - {r})[r := q] == v.blocks[r := q];
  }

  // ---- The end of a request ----

  // The state with the unmarked blocks below slot i released.
  ghost predicate Swept(v: View, w: View, i: nat) {
    && w.next == v.next && w.sticky == v.sticky && w.files == v.files
    && (forall j :: j in w.blocks <==> j in v.blocks && (j >= i || j in v.sticky))
    && (forall j :: j in w.blocks ==> w.blocks[j] == v.blocks[j])
  }

  lemma {:induction false} SweptOne(v: View, w: View, i: nat)
    requires Sound(w) && Swept(v, w, i)
    ensures var w1 := if i in v.blocks && i !in v.sticky then Release(w, i) else w;
            Sound(w1) && Swept(v, w1, i + 1)
  {
    if i in v.blocks && i !in v.sticky {
      assert i in w.blocks;
      ReleaseSound(w, i);
    }
  }

  lemma {:induction false} SweepKeeps(v: View, i: nat)
    requires Sound(v)
    ensures Sound(Sweep(v, i)) && Swept(v, Sweep(v, i), i)
    decreases i
  {
    if i > 0 {
      SweepKeeps(v, i - 1);
      SweptOne(v, Sweep(v, i - 1), i - 1);
    }
  }

  // There is a marked block in a slot below i.
  predicate MarkedBelow(v: View, i: nat) {
    i > 0 && (MarkedBelow(v, i - 1) || (i - 1 in v.blocks && i - 1 in v.sticky))
  }

  lemma {:induction false} MarkedIs(v: View, i: nat)
    ensures MarkedBelow(v, i) <==> exists j :: j < i && j in v.blocks && j in v.sticky
    decreases i
  {
    if i > 0 { MarkedIs(v, i - 1); }
  }

  lemma {:induction false} MarkedStay(v: View, i: nat)
    requires Sound(v) && i == v.next
    ensures MarkedBelow(v, i) <==> Sweep(v, i).blocks != map[]
  {
    SweepKeeps(v, i);
    MarkedIs(v, i);
    var b := Sweep(v, i).blocks;
    assert b != map[] <==> exists j :: j in b by {
      if b.Keys == {} { assert b == map[]; }
    }
  }

  /** Exactly the blocks in marked slots outlive a request, in their slots. */
  lemma {:induction false} EndRequestKeeps(v: View)
    requires Sound(v)
    ensures Sound(EndRequest(v))
    ensures EndRequest(v).blocks == map j | j in v.blocks && j in v.sticky :: v.blocks[j]
    ensures (exists j :: j in v.blocks && j in v.sticky) ==>
      EndRequest(v).next == v.next && EndRequest(v).sticky == v.sticky && EndRequest(v).files == v.files
    ensures (forall j :: j in v.blocks ==> j !in v.sticky) ==> EndRequest(v) == EMPTY
  {
    SweepKeeps(v, v.next);
    if j :| j in v.blocks && j in v.sticky { assert j in Sweep(v, v.next).blocks; }
  }

  /** Memory of a request dies with it exactly if the slot it got had never been process memory. */
  lemma {:induction false} RequestLifetime(v: View, p: Ptr)
    requires Sound(v) && p != NULL && p !in v.blocks.Values
    ensures p in EndRequest(Alloc(v, p, false)).blocks.Values <==> NextSlot(v) in v.sticky
  {
    AllocSound(v, p, false);
    var w, r := Alloc(v, p, false), NextSlot(v);
    EndRequestKeeps(w);
    var e := EndRequest(w);
    if r in v.sticky { assert r in e.blocks && e.blocks[r] == p; }
    if p in e.blocks.Values {
      var j :| j in e.blocks && e.blocks[j] == p;
      assert j == r;
    }
  }

  /** The other case happens: a slot freed by process memory carries its mark over to a request. */
  lemma {:induction false} StaleMark(p: Ptr, q: Ptr)
    requires p != NULL && q != NULL
    ensures q in EndRequest(Alloc(Release(Alloc(EMPTY, p, true), 0), q, false)).blocks.Values
  {
    var v := Release(Alloc(EMPTY, p, true), 0);
    AllocSound(EMPTY, p, true);
    assert Alloc(EMPTY, p, true).blocks == map[0 := p];
    ReleaseSound(Alloc(EMPTY, p, true), 0);
    RequestLifetime(v, q);
  }
}
