/** Whole histories of the memory manager. */
module SlotRuns {
  import opened SlotModel

  datatype Event =
    | Get(p: Ptr, mark: bool)             // malloc, calloc
    | Give(r: nat)                        // free of the block in slot r
    | Move(r: nat, q: Ptr, mark: bool)    // realloc of the block in slot r
    | Keep(r: nat)                        // set-process of the block in slot r
    | Open(f: Ptr, mark: bool)            // a file is registered
    | Close(i: nat)                       // the file of slot i is closed
    | End                                 // the request ends

  /** The OS hands out memory that is in no use; the caller names blocks and files of its own. */
  ghost predicate Legal(v: View, e: Event) {
    match e
    case Get(p, _) => p != NULL && p !in v.blocks.Values
    case Give(r) => r in v.blocks
    case Move(r, q, _) => r in v.blocks && q != NULL && (q in v.blocks.Values ==> q == v.blocks[r])
    case Keep(r) => r in v.blocks
    case Open(_, _) => true
    case Close(i) => i in v.files
    case End => true
  }

  function Step(v: View, e: Event): View {
    match e
    case Get(p, mark) => Alloc(v, p, mark)
    case Give(r) => Release(v, r)
    case Move(r, q, mark) => Resize(v, r, q, mark)
    case Keep(r) => Mark(v, r)
    case Open(f, mark) => Register(v, f, mark)
    case Close(i) => CloseSlot(v, i)
    case End => EndRequest(v)
  }

  function Run(v: View, es: seq<Event>): View
    decreases |es|
  {
    if es == [] then v else Run(Step(v, es[0]), es[1..])
  }

  ghost predicate LegalRun(v: View, es: seq<Event>)
    decreases |es|
  {
    es == [] || (Legal(v, es[0]) && LegalRun(Step(v, es[0]), es[1..]))
  }

  lemma {:induction false} StepSound(v: View, e: Event)
    requires Sound(v) && Legal(v, e)
    ensures Sound(Step(v, e))
  {
    match e
    case Get(p, mark) => AllocSound(v, p, mark);
    case Give(r) => ReleaseSound(v, r);
    case Move(r, q, mark) => ResizeInPlace(v, r, q, mark);
    case Keep(r) => MarkSound(v, r);
    case Open(f, mark) => RegisterSound(v, f, mark);
    case Close(i) =>
    case End => EndRequestKeeps(v);
  }

  /** In every history no slot is in two uses, none is lost, and no block is in two slots. */
  lemma {:induction false} RunSound(v: View, es: seq<Event>)
    requires Sound(v) && LegalRun(v, es)
    ensures Sound(Run(v, es))
    decreases |es|
  {
    if es != [] {
      StepSound(v, es[0]);
      RunSound(Step(v, es[0]), es[1..]);
    }
  }

  ghost predicate Touches(e: Event, r: nat) {
    (e.Give? || e.Move?) && e.r == r
  }

  lemma {:induction false} StepSpares(v: View, e: Event, r: nat)
    requires Sound(v) && Legal(v, e) && r in v.blocks && r in v.sticky && !Touches(e, r)
    ensures var w := Step(v, e); r in w.blocks && w.blocks[r] == v.blocks[r] && r in w.sticky
  {
    match e
    case Get(p, mark) => TakenSlot(v, mark);
    case Give(_) =>
    case Move(s, q, mark) => ResizeInPlace(v, s, q, mark);
    case Keep(_) =>
    case Open(f, mark) => TakenSlot(v, mark);
    case Close(_) =>
    case End => EndRequestKeeps(v);
  }

  /** Process memory that the program neither frees nor resizes stays where it is, however many requests end. */
  lemma {:induction false} ProcessMemoryStays(v: View, es: seq<Event>, r: nat)
    requires Sound(v) && LegalRun(v, es) && r in v.blocks && r in v.sticky
    requires forall i :: 0 <= i < |es| ==> !Touches(es[i], r)
    ensures r in Run(v, es).blocks && Run(v, es).blocks[r] == v.blocks[r]
    decreases |es|
  {
    if es != [] {
      StepSpares(v, es[0], r);
      StepSound(v, es[0]);
      ProcessMemoryStays(Step(v, es[0]), es[1..], r);
    }
  }

  ghost predicate Marks(e: Event) {
    e.Keep? || ((e.Get? || e.Move? || e.Open?) && e.mark)
  }

  lemma {:induction false} NoMarks(v: View, es: seq<Event>)
    requires Sound(v) && LegalRun(v, es) && v.sticky == {}
    requires forall i :: 0 <= i < |es| ==> !Marks(es[i])
    ensures Run(v, es).sticky == {}
    decreases |es|
  {
    if es != [] {
      StepSound(v, es[0]);
      assert !Marks(es[0]);
      if es[0].End? { EndRequestKeeps(v); }
      NoMarks(Step(v, es[0]), es[1..]);
    }
  }

  /** In a program without process memory the end of a request returns everything to the OS. */
  lemma {:induction false} RequestsLeaveNothing(es: seq<Event>)
    requires LegalRun(EMPTY, es)
    requires forall i :: 0 <= i < |es| ==> !Marks(es[i])
    ensures EndRequest(Run(EMPTY, es)) == EMPTY
  {
    RunSound(EMPTY, es);
    NoMarks(EMPTY, es);
    EndRequestKeeps(Run(EMPTY, es));
  }
}
