/** The memory manager of velymem.c: a table of pointers whose free slots are chained through the table
    itself, and the OS blocks, each carrying the number of its slot in front of the user's bytes. */
module SlotTable {
  import opened SlotModel

  const ALIGN: nat := 16        // bytes in front of the user's memory
  const TABLE_STEP: nat := 512  // the table grows by this many slots

  datatype Slot = Slot(ptr: Ptr, free: bool, file: bool, process: bool, nextFree: int)

  const BLANK: Slot := Slot(NULL, false, false, false, 0)

  /** The chain of free slots from `first` on: the stack, top first; -1 ends it. */
  ghost predicate Chained(vm: seq<Slot>, first: int, stack: seq<nat>)
    decreases |stack|
  {
    if stack == [] then first == -1
    else
      && first == stack[0] < |vm|
      && vm[first].free && !vm[first].file && vm[first].ptr == NULL
      && Chained(vm, vm[first].nextFree, stack[1..])
  }

  /** The table represents a view: the chain of free slots is the stack, each other entry has the pointer
      and the status bits of its slot, and slots never used are blank. */
  ghost predicate Matches(vm: seq<Slot>, curr: nat, first: int, v: View) {
    && curr == v.next <= |vm| && Chained(vm, first, v.stack)
    && (forall i :: i in v.blocks ==> i < |vm| && vm[i].ptr == v.blocks[i] && !vm[i].free && !vm[i].file)
    && (forall i :: i in v.files ==> i < |vm| && vm[i].ptr == v.files[i] && !vm[i].free && vm[i].file)
    && (forall i :: 0 <= i < |vm| ==> (vm[i].process <==> i in v.sticky))
    && (forall i :: curr <= i < |vm| ==> !vm[i].free && !vm[i].file)
  }

  // Entries outside of the chain do not matter to it.
  lemma {:induction false} ChainApart(vm: seq<Slot>, first: int, stack: seq<nat>, vm': seq<Slot>)
    requires Chained(vm, first, stack) && |vm| <= |vm'|
    requires forall i :: i in stack && i < |vm| ==> vm'[i] == vm[i]
    ensures Chained(vm', first, stack)
    decreases |stack|
  {
    if stack != [] {
      assert stack[0] in stack && forall i :: i in stack[1..] ==> i in stack;
      ChainApart(vm, vm[first].nextFree, stack[1..], vm');
    }
  }

  lemma {:induction false} ChainFree(vm: seq<Slot>, first: int, stack: seq<nat>, i: nat)
    requires Chained(vm, first, stack) && i in stack
    ensures i < |vm| && vm[i].free && vm[i].ptr == NULL
    decreases |stack|
  {
    if i != stack[0] { ChainFree(vm, vm[first].nextFree, stack[1..], i); }
  }

  /** The OS blocks outstanding are those of the view, each headed by its slot. */
  ghost predicate Heads(heads: map<Ptr, nat>, v: View) {
    && (forall i :: i in v.blocks ==> v.blocks[i] in heads && heads[v.blocks[i]] == i)
    && (forall p :: p in heads ==> heads[p] in v.blocks && v.blocks[heads[p]] == p)
  }

  // No registered FILE pointer is at p.
  ghost predicate NoFile(v: View, p: Ptr) {
    forall i :: i in v.files ==> v.files[i] != p
  }

  function Filled(s: Slot, p: Ptr, mark: bool): Slot {
    s.(ptr := p, free := false, process := s.process || mark)
  }

  // Taking the first slot of the chain.
  lemma {:induction false} ReuseMatches(vm: seq<Slot>, curr: nat, first: int, v: View, p: Ptr, mark: bool)
    requires Sound(v) && Matches(vm, curr, first, v) && first != -1
    ensures first == NextSlot(v) < curr
    ensures Matches(vm[first := Filled(vm[first], p, mark)], curr, vm[first].nextFree, Alloc(v, p, mark))
  {
    TakenSlot(v, mark);
    assert v.stack[0] in v.stack;
    ChainApart(vm, vm[first].nextFree, v.stack[1..], vm[first := Filled(vm[first], p, mark)]);
  }

  // Taking the first slot never used, in a table that has room beyond it.
  lemma {:induction false} ExtendMatches(vm: seq<Slot>, curr: nat, v: View, p: Ptr, mark: bool)
    requires Sound(v) && Matches(vm, curr, -1, v) && curr < |vm|
    ensures curr == NextSlot(v)
    ensures Matches(vm[curr := Filled(vm[curr], p, mark)], curr + 1, -1, Alloc(v, p, mark))
  {
  }

  lemma {:induction false} ReleaseMatches(vm: seq<Slot>, curr: nat, first: int, v: View, r: nat)
    requires Sound(v) && Matches(vm, curr, first, v) && r in v.blocks
    ensures Matches(vm[r := vm[r].(ptr := NULL, free := true, nextFree := first)], curr, r, Release(v, r))
  {
    ChainApart(vm, first, v.stack, vm[r := vm[r].(ptr := NULL, free := true, nextFree := first)]);
    assert Release(v, r).stack[1..] == v.stack;
  }

  lemma {:induction false} MarkMatches(vm: seq<Slot>, curr: nat, first: int, v: View, r: nat)
    requires Sound(v) && Matches(vm, curr, first, v) && r in v.blocks
    ensures Matches(vm[r := vm[r].(process := true)], curr, first, Mark(v, r))
  {
    ChainApart(vm, first, v.stack, vm[r := vm[r].(process := true)]);
  }

  // Growing the table by blank slots.
  lemma {:induction false} GrowMatches(vm: seq<Slot>, curr: nat, first: int, v: View, n: nat)
    requires Sound(v) && Matches(vm, curr, first, v)
    ensures Matches(vm + seq(n, _ => BLANK), curr, first, v)
  {
    ChainApart(vm, first, v.stack, vm + seq(n, _ => BLANK));
  }

  // A block's slot becomes a file's.
  lemma {:induction false} FileMatches(vm: seq<Slot>, curr: nat, first: int, v: View, r: nat)
    requires Matches(vm, curr, first, v) && r in v.blocks && r !in v.files && r !in v.stack && r < v.next
    ensures Matches(vm[r := vm[r].(file := true)], curr, first,
                    v.(blocks := v.blocks - {r}, files := v.files[r := v.blocks[r]]))
  {
    ChainApart(vm, first, v.stack, vm[r := vm[r].(file := true)]);
  }

  // Registering a file takes a slot as for a block and turns it into a file's.
  lemma {:induction false} RegisterAsAlloc(v: View, f: Ptr, mark: bool)
    requires Sound(v)
    ensures var r, w := NextSlot(v), Alloc(v, f, mark);
            && r in w.blocks && r !in w.files && r !in w.stack && r < w.next
            && Register(v, f, mark) == w.(blocks := w.blocks - {r}, files := w.files[r := w.blocks[r]])
  {
    TakenSlot(v, mark);
    assert v.blocks[NextSlot(v) := f] - {NextSlot(v)} == v.blocks;
  }

  // A registered file is no block, and the blocks are those there were.
  lemma {:induction false} RegisterHeads(v: View, f: Ptr, mark: bool, heads: map<Ptr, nat>)
    requires Heads(heads, v) && f !in heads && forall i :: i in v.files ==> v.files[i] !in heads
    ensures var w := Register(v, f, mark);
            Heads(heads, w) && forall i :: i in w.files ==> w.files[i] !in heads
  {
  }

  lemma {:induction false} CloseMatches(vm: seq<Slot>, curr: nat, first: int, v: View, i: nat)
    requires Sound(v) && Matches(vm, curr, first, v) && i in v.files
    ensures Matches(vm[i := vm[i].(ptr := NULL)], curr, first, CloseSlot(v, i))
  {
    ChainApart(vm, first, v.stack, vm[i := vm[i].(ptr := NULL)]);
  }

  // What the status bits of a used slot say.
  lemma {:induction false} SlotKind(vm: seq<Slot>, curr: nat, first: int, v: View, i: nat)
    requires Sound(v) && Matches(vm, curr, first, v) && i < curr
    ensures vm[i].free <==> i in v.stack
    ensures !vm[i].free && vm[i].file <==> i in v.files
    ensures !vm[i].free && !vm[i].file <==> i in v.blocks
    ensures !vm[i].free ==> vm[i].ptr == if vm[i].file then v.files[i] else v.blocks[i]
  {
    if i in v.stack { ChainFree(vm, first, v.stack, i); }
  }

  // Blocks of the view and blocks of the OS are the same.
  lemma {:induction false} BlocksAreHeads(heads: map<Ptr, nat>, v: View, p: Ptr)
    requires Heads(heads, v)
    ensures p in heads <==> p in v.blocks.Values
  {
    if p in heads { assert v.blocks[heads[p]] == p; }
  }

  lemma {:induction false} ReleaseHeads(heads: map<Ptr, nat>, v: View, r: nat)
    requires Sound(v) && Heads(heads, v) && r in v.blocks
    ensures Heads(heads - {v.blocks[r]}, Release(v, r))
  {
  }

  lemma {:induction false} AllocHeads(heads: map<Ptr, nat>, v: View, p: Ptr, mark: bool)
    requires Sound(v) && Heads(heads, v) && p !in heads
    ensures Heads(heads[p := NextSlot(v)], Alloc(v, p, mark))
  {
    TakenSlot(v, mark);
  }

  // The OS blocks left when some slots of a view have been released.
  lemma {:induction false} HeadsLeft(heads: map<Ptr, nat>, v: View, heads': map<Ptr, nat>, v': View)
    requires Heads(heads, v) && Heads(heads', v')
    requires v'.blocks == map i | i in v.blocks && i in v.sticky :: v.blocks[i]
    ensures heads' == map p | p in heads && heads[p] in v.sticky :: heads[p]
  {
    forall p | p in heads' ensures p in heads && heads[p] in v.sticky && heads'[p] == heads[p] {
      assert v.blocks[heads'[p]] == p;
    }
    forall p | p in heads && heads[p] in v.sticky ensures p in heads' {
      assert v'.blocks[heads[p]] == p;
    }
  }

  /** The FILE pointers of s left once the files in the slots below i are closed. */
  ghost function StillOpen(v: View, s: set<Ptr>, i: nat): (r: set<Ptr>)
    ensures forall p :: p in r <==> p in s && forall j :: j < i && j in v.files ==> v.files[j] != p
  {
    if i == 0 then s
    else if i - 1 in v.files then StillOpen(v, s, i - 1) - {v.files[i - 1]}
    else StillOpen(v, s, i - 1)
  }

  // The two checks on a slot number recognise exactly the blocks of ours.
  lemma {:induction false} Recognised(vm: seq<Slot>, curr: nat, first: int, v: View, heads: map<Ptr, nat>, p: Ptr,
                           word: int)
    requires Sound(v) && Matches(vm, curr, first, v) && Heads(heads, v)
    requires p != NULL && NoFile(v, p) && (p in heads ==> word == heads[p])
    ensures p in heads <==> 0 <= word < curr && vm[word].ptr == p
    ensures p in heads ==> word in v.blocks && v.blocks[word] == p && !vm[word].free
  {
    if 0 <= word < curr && vm[word].ptr == p {
      if word in v.stack { ChainFree(vm, first, v.stack, word); }
      assert word !in v.files;
    }
  }

  class Memory {
    var vm: seq<Slot>
    var curr: nat
    var firstFree: int
    var process: bool          // vely_mem_process
    var heads: map<Ptr, nat>   // the OS heap: blocks not freed yet, and the slot number written at their start
    var open: set<Ptr>         // FILE pointers that are not NULL
    const emptyString: Ptr
    ghost var view: View

    ghost predicate Valid()
      reads this
    {
      && Sound(view) && Matches(vm, curr, firstFree, view) && Heads(heads, view)
      && (|vm| > 0 ==> curr < |vm|)
      && (forall i :: i in view.files ==> view.files[i] !in heads)
      && (forall p :: p in heads ==> p + ALIGN != emptyString)
      && NULL !in open
    }

    // What a successful malloc or realloc gives: memory that is in no other use.
    ghost predicate Unused(p: Ptr)
      reads this
    {
      p != NULL && p !in heads && p + ALIGN != emptyString && NoFile(view, p)
    }

    constructor (empty: Ptr)
      ensures Valid() && view == EMPTY && heads == map[] && open == {} && !process && emptyString == empty
    {
      vm, curr, firstFree, process, heads, open, emptyString := [], 0, -1, false, map[], {}, empty;
      view := EMPTY;
    }

    // vely_add_mem
    method AddMem(p: Ptr) returns (r: nat)
      requires Sound(view) && Matches(vm, curr, firstFree, view) && (|vm| > 0 ==> curr < |vm|)
      modifies this`vm, this`curr, this`firstFree, this`view
      ensures r == NextSlot(old(view)) && view == Alloc(old(view), p, process)
      ensures Matches(vm, curr, firstFree, view) && curr < |vm|
    {
      if firstFree != -1 {
        r := firstFree;
        ReuseMatches(vm, curr, firstFree, view, p, process);
        firstFree := vm[firstFree].nextFree;
      } else {
        r := curr;
        curr := curr + 1;
        if curr >= |vm| {
          GrowMatches(vm, curr - 1, -1, view, TABLE_STEP);
          vm := vm + seq(TABLE_STEP, _ => BLANK);
        }
        ExtendMatches(vm, curr - 1, view, p, process);
      }
      vm := vm[r := Filled(vm[r], p, process)];
      view := Alloc(view, p, process);
    }

    // vely_malloc and vely_calloc, the OS having returned p: the slot number goes in front of the user's bytes.
    method Malloc(p: Ptr) returns (u: Ptr)
      requires Valid() && Unused(p)
      modifies this`vm, this`curr, this`firstFree, this`heads, this`view
      ensures Valid() && view == Alloc(old(view), p, process)
      ensures u == p + ALIGN && heads == old(heads)[p := NextSlot(old(view))]
    {
      BlocksAreHeads(heads, view, p);
      AllocSound(view, p, process);
      AllocHeads(heads, view, p, process);
      var r := AddMem(p);
      heads := heads[p := r];
      u := p + ALIGN;
    }

    // _vely_set_free
    method SetFree(r: nat)
      requires Sound(view) && Matches(vm, curr, firstFree, view) && r in view.blocks
      modifies this`vm, this`firstFree, this`view
      ensures view == Release(old(view), r) && Sound(view) && Matches(vm, curr, firstFree, view) && |vm| == old(|vm|)
    {
      ReleaseSound(view, r);
      ReleaseMatches(vm, curr, firstFree, view, r);
      vm := vm[r := vm[r].(ptr := NULL, free := true, nextFree := firstFree)];
      firstFree := r;
      view := Release(view, r);
    }

    // The end of _vely_free: the slot joins the chain, and the OS gets its block back (velymem.c:366-368).
    method FreeBlock(p: Ptr, r: nat)
      requires Valid() && p in heads && r == heads[p]
      modifies this`vm, this`firstFree, this`heads, this`view
      ensures Valid() && view == Release(old(view), r) && heads == old(heads) - {p}
    {
      ReleaseHeads(heads, view, r);
      SetFree(r);
      heads := heads - {p};
    }

    // _vely_free. word is what is read in front of the user's memory: the slot number if it is a block of ours.
    method Free(u: Ptr, check: bool, word: int) returns (ok: bool)
      requires Valid()
      requires u != NULL && u != emptyString ==>
        && u > ALIGN && NoFile(view, u - ALIGN)
        && (u - ALIGN in heads ==> word == heads[u - ALIGN])
        && (!check ==> u - ALIGN in heads)
      modifies this`vm, this`firstFree, this`heads, this`view
      ensures Valid()
      ensures ok == (u == NULL || u == emptyString || u - ALIGN in old(heads))
      ensures if ok && u != NULL && u != emptyString
              then view == Release(old(view), old(heads)[u - ALIGN]) && heads == old(heads) - {u - ALIGN}
              else view == old(view) && heads == old(heads) && vm == old(vm)
    {
      if u == emptyString || u == NULL { return true; }
      var p := u - ALIGN;
      Recognised(vm, curr, firstFree, view, heads, p, word);
      if check {
        if word < 0 || word >= curr { return false; }
        if vm[word].ptr != p { return false; }
      }
      if vm[word].free { return false; }
      FreeBlock(p, word);
      return true;
    }

    // _vely_realloc of the block at p, the OS having moved it to q (velymem.c:299-307)
    method MoveBlock(p: Ptr, q: Ptr) returns (u: Ptr)
      requires Valid() && p in heads && (Unused(q) || q == p)
      modifies this`vm, this`curr, this`firstFree, this`heads, this`view
      ensures Valid() && u == q + ALIGN
      ensures view == Resize(old(view), old(heads)[p], q, process)
      ensures heads == (old(heads) - {p})[q := old(heads)[p]]
    {
      var r := heads[p];
      assert q != NULL && q + ALIGN != emptyString && NoFile(view, q);
      FreeBlock(p, r);
      assert NextSlot(view) == r;
      u := Malloc(q);
    }

    // _vely_realloc; with NULL or the empty string it is an allocation. word is what is read in front of the
    // user's memory. A false result is the reported error of the checks made with safe, which ends the request.
    method Realloc(u: Ptr, q: Ptr, safe: bool, word: int) returns (ok: bool, u': Ptr)
      requires Valid()
      requires if u == emptyString || u == NULL then Unused(q)
               else
                 && u > ALIGN && NoFile(view, u - ALIGN) && (!safe ==> u - ALIGN in heads)
                 && (u - ALIGN in heads ==> word == heads[u - ALIGN] && (Unused(q) || q == u - ALIGN))
      modifies this`vm, this`curr, this`firstFree, this`heads, this`view
      ensures Valid()
      ensures ok == (u == NULL || u == emptyString || u - ALIGN in old(heads))
      ensures ok ==> u' == q + ALIGN
      ensures !ok ==> view == old(view) && heads == old(heads) && vm == old(vm)
      ensures ok ==> if u == emptyString || u == NULL
              then view == Alloc(old(view), q, process) && heads == old(heads)[q := NextSlot(old(view))]
              else view == Resize(old(view), old(heads)[u - ALIGN], q, process)
                   && heads == (old(heads) - {u - ALIGN})[q := old(heads)[u - ALIGN]]
    {
      if u == emptyString || u == NULL {
        u' := Malloc(q);
        return true, u';
      }
      Recognised(vm, curr, firstFree, view, heads, u - ALIGN, word);
      if safe {
        if word < 0 || word >= curr || vm[word].ptr != u - ALIGN { return false, NULL; }
      }
      u' := MoveBlock(u - ALIGN, q);
      ok := true;
    }

    // vely_set_mem_status with the process bit
    method SetMark(r: nat)
      requires Sound(view) && Matches(vm, curr, firstFree, view) && r in view.blocks
      modifies this`vm, this`view
      ensures view == Mark(old(view), r) && Sound(view) && Matches(vm, curr, firstFree, view) && |vm| == old(|vm|)
    {
      MarkSound(view, r);
      MarkMatches(vm, curr, firstFree, view, r);
      vm := vm[r := vm[r].(process := true)];
      view := Mark(view, r);
    }

    // _vely_mem_set_process of the user's pointer p + ALIGN, word being what is read at p; a false result
    // is the reported error, which ends the request
    method SetProcess(p: Ptr, word: int) returns (ok: bool)
      requires Valid() && p != NULL && NoFile(view, p)
      requires p in heads ==> word == heads[p]
      modifies this`vm, this`view
      ensures Valid() && ok == (!process || p in heads)
      ensures view == if process && ok then Mark(old(view), heads[p]) else old(view)
    {
      if !process { return true; }
      assert p in heads <==> 0 <= word < curr && vm[word].ptr == p by {
        Recognised(vm, curr, firstFree, view, heads, p, word);
      }
      if word < 0 || word >= curr || vm[word].ptr != p { return false; }
      SetMark(word);
      return true;
    }

    // vely_reg_file (velyrtc.c:960-967)
    method RegFile(f: Ptr) returns (r: nat)
      requires Valid() && f != NULL && f !in heads
      modifies this`vm, this`curr, this`firstFree, this`view, this`open
      ensures Valid() && view == Register(old(view), f, process) && r == NextSlot(old(view))
      ensures open == old(open) + {f}
    {
      RegisterSound(view, f, process);
      RegisterHeads(view, f, process, heads);
      r := TakeFileSlot(f);
      open := open + {f};
    }

    // A slot is taken as for a block, and becomes a file's.
    method TakeFileSlot(f: Ptr) returns (r: nat)
      requires Sound(view) && Matches(vm, curr, firstFree, view) && (|vm| > 0 ==> curr < |vm|)
      modifies this`vm, this`curr, this`firstFree, this`view
      ensures view == Register(old(view), f, process) && r == NextSlot(old(view))
      ensures Matches(vm, curr, firstFree, view) && curr < |vm|
    {
      RegisterAsAlloc(view, f, process);
      r := AddMem(f);
      SetFile(r);
    }

    // vely_set_mem_status with the file bit, on a slot just taken
    method SetFile(r: nat)
      requires Matches(vm, curr, firstFree, view) && r in view.blocks && r !in view.files && r !in view.stack
               && r < view.next
      modifies this`vm, this`view
      ensures view == old(view).(blocks := old(view).blocks - {r}, files := old(view).files[r := old(view).blocks[r]])
      ensures Matches(vm, curr, firstFree, view) && |vm| == old(|vm|)
    {
      FileMatches(vm, curr, firstFree, view, r);
      vm := vm[r := vm[r].(file := true)];
      view := view.(blocks := view.blocks - {r}, files := view.files[r := view.blocks[r]]);
    }

    // vely_clear_mem
    method ClearMem(i: nat)
      requires Sound(view) && Matches(vm, curr, firstFree, view) && i in view.files
      modifies this`vm, this`view
      ensures view == CloseSlot(old(view), i) && Sound(view) && Matches(vm, curr, firstFree, view) && |vm| == old(|vm|)
    {
      CloseMatches(vm, curr, firstFree, view, i);
      vm := vm[i := vm[i].(ptr := NULL)];
      view := CloseSlot(view, i);
    }

    // close-file (v1.c:6282-6283): the FILE pointer becomes NULL, and vely_clear_mem forgets it
    method CloseFile(i: nat)
      requires Valid() && i in view.files && view.files[i] != NULL
      modifies this`vm, this`view, this`open
      ensures Valid() && view == CloseSlot(old(view), i) && open == old(open) - {old(view).files[i]}
    {
      open := open - {vm[i].ptr};
      ClearMem(i);
    }

    // One round of the loop of vely_done; a true result says that the table has to stay.
    method SweepSlot(i: nat) returns (keep: bool)
      requires Valid() && i < curr
      modifies this`vm, this`firstFree, this`heads, this`view, this`open
      ensures Valid()
      ensures view == if i in old(view).blocks && i !in old(view).sticky then Release(old(view), i) else old(view)
      ensures keep <==> i in old(view).blocks && i in old(view).sticky
      ensures open == if i in view.files then old(open) - {view.files[i]} else old(open)
    {
      keep := false;
      SlotKind(vm, curr, firstFree, view, i);
      if !vm[i].free {
        if vm[i].ptr != NULL {
          if vm[i].file {
            open := open - {vm[i].ptr};
          } else if !vm[i].process {
            assert NoFile(view, vm[i].ptr);
            var _ := Free(vm[i].ptr + ALIGN, false, heads[vm[i].ptr]);
          } else {
            keep := true;
          }
        }
      }
    }

    // The loop of vely_done (velymem.c:401-420)
    method SweepAll() returns (keep: bool)
      requires Valid()
      modifies this`vm, this`firstFree, this`heads, this`view, this`open
      ensures Valid() && view == Sweep(old(view), old(view).next)
      ensures keep <==> view.blocks != map[]
      ensures open == StillOpen(old(view), old(open), old(view).next)
    {
      ghost var v := view;
      keep := false;
      for i := 0 to curr
        invariant Valid() && view == Sweep(v, i) && Swept(v, view, i)
        invariant keep == MarkedBelow(v, i)
        invariant open == StillOpen(v, old(open), i)
      {
        SweptOne(v, view, i);
        var k := SweepSlot(i);
        keep := keep || k;
      }
      MarkedStay(v, v.next);
    }

    /** vely_done: the unmarked blocks go back to the OS, every registered file is closed, and the table
        starts afresh unless a marked block is left. */
    method Done()
      requires Valid()
      modifies this`vm, this`curr, this`firstFree, this`heads, this`view, this`open
      ensures Valid() && view == EndRequest(old(view))
      ensures heads == map p | p in old(heads) && old(heads)[p] in old(view).sticky :: old(heads)[p]
      ensures open == StillOpen(old(view), old(open), old(view).next)
    {
      ghost var v := view;
      var keep := SweepAll();
      EndRequestKeeps(v);
      HeadsLeft(old(heads), v, heads, view);
      if !keep {
        vm, curr, firstFree := seq(TABLE_STEP, _ => BLANK), 0, -1;
        view := EMPTY;
      }
    }
  }
}
