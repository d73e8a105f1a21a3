/** The recursive JSON parser of json.c: it cuts the document into strings in place and lists its leaves by
    their full names. */
module JsonParse {
  import opened Utf8
  import opened JsonDoc
  import opened JsonPhases
  import opened JsonScan
  import opened Octets

  // The outcome where the original would use an array element or a name it does not have
  const UNDEFINED := -2

  datatype Node = Node(name: Str, kind: Kind, at: nat)

  // ---- What stands in the buffer ----

  /** A text stands before i as a string of its own. */
  predicate Standing(v: Str, at: int, t: Str, i: int) {
    0 <= at && at + |t| <= i < |v| && v[at..at + |t|] == t && v[at + |t|] == 0
  }

  predicate LevelStands(v: Str, orig: Str, l: Level, i: int) {
    l.index >= -1
    && (l.name >= 0 ==> l.name + l.len <= |orig| && Standing(v, l.name, orig[l.name..l.name + l.len], i))
  }

  /** A node has the name, the kind and the text of a leaf. */
  predicate Shows(v: Str, n: Node, leaf: Leaf, i: int) {
    n.name == NormalName(leaf.path) && n.kind == leaf.kind && Standing(v, n.at, leaf.text, i)
  }

  // Behind the position nothing has changed; before it stand the names in use and the texts of the nodes.
  predicate Sound(v: Str, s: State, nodes: seq<Node>) {
    && |v| == |s.orig| && s.i < |v| && |s.list| == MAX_NESTED && Ended(v)
    && (forall k :: s.i < k < |v| ==> v[k] == s.orig[k]) && (v[s.i] == s.orig[s.i] || v[s.i] == 0)
    && (forall k :: 0 <= k < |s.list| ==> LevelStands(v, s.orig, s.list[k], s.i))
    && |nodes| == |s.out| && (forall k :: 0 <= k < |nodes| ==> Shows(v, nodes[k], s.out[k], s.i))
  }

  lemma {:induction false} StillStands(v: Str, u: Str, at: int, t: Str, i: int, next: int)
    requires Standing(v, at, t, i) && |u| == |v| && i <= next < |u| && forall k :: 0 <= k <= i ==> u[k] == v[k]
    ensures Standing(u, at, t, next)
  {
    assert u[at..at + |t|] == v[at..at + |t|];
  }

  lemma {:induction false} SoundOn(v: Str, s: State, nodes: seq<Node>, u: Str, next: nat)
    requires Sound(v, s, nodes) && |u| == |v| && Ended(u) && s.i <= next < |u|
    requires forall k :: 0 <= k <= s.i ==> u[k] == v[k]
    requires forall k :: next < k < |u| ==> u[k] == v[k]
    requires u[next] == v[next] || u[next] == 0
    ensures Sound(u, s.(i := next), nodes)
  {
    forall k | 0 <= k < |s.list| ensures LevelStands(u, s.orig, s.list[k], next) {
      var l := s.list[k];
      assert LevelStands(v, s.orig, l, s.i);
      if l.name >= 0 { StillStands(v, u, l.name, s.orig[l.name..l.name + l.len], s.i, next); }
    }
    forall k | 0 <= k < |nodes| ensures Shows(u, nodes[k], s.out[k], next) {
      assert Shows(v, nodes[k], s.out[k], s.i);
      StillStands(v, u, nodes[k].at, s.out[k].text, s.i, next);
    }
  }

  // A piece of the text that ends where a zero has been put
  lemma {:induction false} Ends(v: Str, u: Str, orig: Str, i: nat, at: nat, n: nat, next: nat)
    requires |u| == |v| == |orig| && i <= at && at + n <= next < |v| && i < at + n
    requires forall k :: i < k < |v| ==> v[k] == orig[k]
    requires n == 0 || v[at] == orig[at]
    requires u == v[at + n := 0]
    ensures Standing(u, at, Cut(orig, at, n), next)
  {
    assert u[at..at + n] == orig[at..at + n];
  }

  lemma {:induction false} NamesRead(v: Str, s: State, nodes: seq<Node>, n: nat)
    requires Sound(v, s, nodes) && n <= MAX_NESTED && Named(s.list, n)
    ensures forall k :: 0 <= k < n ==> Readable(v, s.list[k])
    ensures PathOf(v, s.list[..n]) == PathOf(s.orig, s.list[..n])
  {
    forall k | 0 <= k < n ensures Readable(v, s.list[k]) && StepOf(v, s.list[k]) == StepOf(s.orig, s.list[k]) {
      assert LevelStands(v, s.orig, s.list[k], s.i);
    }
  }

  // The bytes of a leaf are in order: they start at the position or behind it, and a place for their zero is left.
  predicate Fits(v: Str, s: State, at: nat, n: nat, next: nat) {
    && |v| == |s.orig| && s.i <= at && s.i < at + n <= next < |v| && at < |v|
    && (n == 0 || v[at] == s.orig[at])
  }

  lemma {:induction false} LeafSound(v: Str, s: State, nodes: seq<Node>, u: Str, leaf: Leaf, at: nat, n: nat, next: nat)
    requires Sound(v, s, nodes) && Fits(v, s, at, n, next) && u == v[at + n := 0]
    requires leaf.text == Cut(s.orig, at, n)
    ensures Sound(u, s.(i := next, out := s.out + [leaf]), nodes + [Node(NormalName(leaf.path), leaf.kind, at)])
  {
    var r := s.(i := next);
    SoundOn(v, s, nodes, u, next);
    Ends(v, u, s.orig, s.i, at, n, next);
    var node := Node(NormalName(leaf.path), leaf.kind, at);
    forall k | 0 <= k < |nodes| + 1 ensures Shows(u, (nodes + [node])[k], (s.out + [leaf])[k], next) {
      if k < |nodes| { assert Shows(u, nodes[k], r.out[k], r.i); }
    }
  }

  // ---- What a document's nodes say ----

  /** The C string at a place. */
  function CString(v: Str, at: nat): Str
    decreases |v| - at
  {
    if at >= |v| || v[at] == 0 then [] else [v[at]] + CString(v, at + 1)
  }

  lemma {:induction false} CStringIs(v: Str, at: nat, t: Str)
    requires at + |t| < |v| && v[at..at + |t|] == t && v[at + |t|] == 0 && 0 !in t
    ensures CString(v, at) == t
    decreases |t|
  {
    if t != [] {
      assert v[at] == t[0] && t[0] in t;
      assert v[at + 1..at + |t|] == t[1..];
      CStringIs(v, at + 1, t[1..]);
    }
  }

  /** The nodes are the leaves: names, kinds and texts, in the same order. */
  predicate Listed(v: Str, nodes: seq<Node>, leaves: seq<Leaf>) {
    && |nodes| == |leaves|
    && forall k :: 0 <= k < |nodes| ==> IsNodeOf(v, nodes[k], leaves[k])
  }

  predicate IsNodeOf(v: Str, n: Node, leaf: Leaf) {
    && n.name == NormalName(leaf.path) && 0 !in n.name
    && n.kind == leaf.kind && CString(v, n.at) == leaf.text
  }

  /** A document: a value that is no array, not too deep, in white space, and the terminating zero. */
  predicate IsDocument(t: Str, w0: Str, v: Value, w1: Str) {
    && t == w0 + Print(v) + w1 + [0] && White(w0) && White(w1)
    && Good(v) && !v.Array? && Depth(v) < MAX_NESTED
  }

  /** The shortest refused document with white space behind a word: null and a space. */
  lemma {:induction false} NullAndSpace()
    ensures IsDocument([110, 117, 108, 108, 32, 0], [], Null, [32])
    ensures !(Null.Object? || Null.Text? || [32] == [])
  {
    assert [] + Print(Null) + [32] + [0] == [110, 117, 108, 108, 32, 0];
  }

  // The state in which a document's call is made
  function NoLevels(): (r: seq<Level>)
    ensures |r| == MAX_NESTED && CleanAbove(r, -1)
  {
    seq(MAX_NESTED, _ => Level(-1, 0, -1))
  }

  function Opened(t: Str): State { State(t, 0, NoLevels(), -1, 0, []) }

  lemma {:induction false} DocumentReady(t: Str, w0: Str, v: Value, w1: Str)
    requires IsDocument(t, w0, v, w1)
    ensures Ready(Opened(t), w0, v, w1 + [0])
  {
    var tail := w1 + [0];
    PrintAhead(v, tail);
    assert w0 + (Print(v) + tail) == w0 + Print(v) + w1 + [0];
    assert t[0..] == w0 + Ahead(v, tail);
    Delimited(w1, [0]);
  }

  lemma {:induction false} DocumentDone(t: Str, v: Value, tail: Str, s: State)
    requires t != [] && Done(s, JobFor(Opened(t), v, tail))
    ensures s.out == Leaves(v, []) && s.orig[s.i..] == tail
  {
    var path := PathOf(t, NoLevels()[..0]);
    assert path == [];
    assert [] + Leaves(v, path) == Leaves(v, path);
  }

  predicate Clear(path: seq<Step>) { forall k :: 0 <= k < |path| ==> 0 !in path[k].name }

  // No text and no name has a zero inside.
  predicate ZeroFree(leaves: seq<Leaf>) {
    forall k :: 0 <= k < |leaves| ==> 0 !in leaves[k].text && Clear(leaves[k].path)
  }

  lemma {:induction false} DecimalClear(n: nat)
    ensures 0 !in Decimal(n)
  {
    if n >= 10 { DecimalClear(n / 10); }
  }

  lemma {:induction false} StepClear(s: Step)
    requires 0 !in s.name
    ensures 0 !in StepName(s)
  {
    if s.index >= 0 { DecimalClear(s.index); }
  }

  lemma {:induction false} NameClear(path: seq<Step>)
    requires Clear(path)
    ensures 0 !in NormalName(path)
    decreases |path|
  {
    if path != [] {
      StepClear(path[|path| - 1]);
      NameClear(path[..|path| - 1]);
    }
  }

  lemma {:induction false} RawZeroFree(t: Str)
    requires Raw(t)
    ensures 0 !in t
    decreases |t|
  {
    if t == [] {
    } else if t[0] == BACKSLASH {
      RawZeroFree(t[2..]);
      assert t == [t[0], t[1]] + t[2..];
    } else {
      RawZeroFree(t[1..]);
      assert t == [t[0]] + t[1..];
    }
  }

  lemma {:induction false} LeavesZeroFree(v: Value, path: seq<Step>)
    requires Good(v) && Clear(path)
    ensures ZeroFree(Leaves(v, path))
    decreases v
  {
    match v
    case Text(t) => RawZeroFree(t);
    case Num(n) =>
      assert n.frac.Some? ==> 0 !in n.frac.value;
      assert n.exp.Some? ==> GoodExponent(n.exp.value) && 0 !in n.exp.value.digits && 0 !in ExponentText(n.exp);
      assert 0 !in n.whole;
    case Bool(_) =>
    case Null =>
    case Object(ms) => MembersZeroFree(ms, path);
    case Array(es) => ElementsZeroFree(es, path, 0);
  }

  lemma {:induction false} MembersZeroFree(ms: Members, path: seq<Step>)
    requires GoodMembers(ms) && Clear(path)
    ensures ZeroFree(MembersLeaves(ms, path))
    decreases ms
  {
    assert GoodMember(ms.m);
    RawZeroFree(ms.m.name);
    LeavesZeroFree(ms.m.value, path + [Step(ms.m.name, -1)]);
    if ms.MoreMembers? { MembersZeroFree(ms.rest, path); }
  }

  lemma {:induction false} ElementsZeroFree(es: Elements, path: seq<Step>, k: nat)
    requires GoodElements(es) && Clear(path)
    ensures ZeroFree(ElementsLeaves(es, path, k))
    decreases es
  {
    assert GoodElement(es.e);
    LeavesZeroFree(es.e.value, AtIndex(path, k));
    if es.MoreElements? { ElementsZeroFree(es.rest, path, k + 1); }
  }

  lemma {:induction false} SoundLists(v: Str, s: State, nodes: seq<Node>)
    requires Sound(v, s, nodes) && ZeroFree(s.out)
    ensures Listed(v, nodes, s.out)
  {
    forall k | 0 <= k < |nodes| ensures IsNodeOf(v, nodes[k], s.out[k]) {
      assert Shows(v, nodes[k], s.out[k], s.i);
      CStringIs(v, nodes[k].at, s.out[k].text);
      NameClear(s.out[k].path);
    }
  }

  // What a call is expected to find; nothing is expected of a text that is no document.
  datatype Expect = Nothing | Expect(w: Str, v: Value, tail: Str)

  // ---- The parser ----

  class JsonParser {
    var val: array<Octet>
    var i: nat
    var list: seq<Level>
    var listC: int
    var depth: int
    var nulled: Octet
    var nodes: seq<Node>
    var ec: int
    var errm: Trouble
    ghost var orig: Str
    ghost var out: seq<Leaf>

    ghost function S(): State
      reads this
    {
      State(orig, i, list, listC, depth, out)
    }

    ghost predicate Valid()
      reads this, val
    {
      Sound(val[..], S(), nodes)
    }

    /** The character at the position can still be read, from the buffer or from where it was saved. */
    ghost predicate Fresh(ph: Phase)
      reads this, val
      requires Valid()
    {
      if ph.AfterMember? || ph.AfterElement? then (if nulled != 0 then nulled else val[i]) == orig[i]
      else nulled == 0 && val[i] == orig[i]
    }

    // How a value leaves the character behind it: the words and the numbers put a zero over it.
    ghost predicate Left(v: Value)
      reads this, val
      requires Valid()
    {
      if v.Num? || v.Bool? || v.Null? then val[i] == 0 && nulled == orig[i] else val[i] == orig[i] && nulled == 0
    }

    // The level never falls below that of the call while there is text ahead.
    ghost predicate Bounded(f: Flags, base: int)
      reads this`listC
    {
      && -1 <= base && (if f.isArr then base else base + 1) <= listC
      && (f.isArr ==> f.commaArr && !f.isObj) && (f.isObj ==> f.name || f.colon || f.commaObj)
    }

    ghost predicate Running(f: Flags, base: int, given: bool, ph: Phase, j: Job)
      reads this, val
    {
      && Valid() && ec == -1 && listC <= MAX_NESTED - 2 && -1 <= base
      && (i + 1 < val.Length ==> Bounded(f, base))
      && (given ==> Sits(S(), f, ph, j) && Fresh(ph))
    }

    // A character that is not refused has been taken.
    ghost predicate Met(c: Octet, f: Flags, base: int, given: bool, ph: Phase, j: Job)
      reads this, val
    {
      && Valid() && ec == -1 && listC <= MAX_NESTED - 2 && nulled == 0
      && i + 1 < val.Length && Bounded(f, base) && Complaint(c, f) == NoTrouble
      && (given ==> Sits(S(), f, ph, j) && orig[i] == c && (ph.Start? ==> val[i] == orig[i]))
    }

    ghost predicate Finished(base: int, given: bool, j: Job)
      reads this, val
    {
      && Valid()
      && (ec == -1 ==> listC <= MAX_NESTED - 2 && (i + 1 < val.Length ==> base <= listC))
      && (given ==> ec == -1 && Done(S(), j) && Left(j.v))
    }

    method Step()
      requires Valid() && i + 1 < val.Length
      modifies this`i
      ensures Valid() && i == old(i) + 1 && val[i] == orig[i]
    {
      SoundOn(val[..], S(), nodes, val[..], i + 1);
      i := i + 1;
    }

    method OpenObject(f: Flags, ghost base: int, ghost given: bool, ghost ph: Phase, ghost j: Job)
      returns (g: Flags, ghost next: Phase)
      requires Met(OPEN_OBJECT, f, base, given, ph, j)
      modifies this`i
      ensures i == old(i) + 1 && Running(g, base, given, next, j)
    {
      next := ph;
      if given {
        AtOpenObject(S(), f, ph, j);
        next := Name(ph.v.ms.m.w0, ph.v.ms);
      }
      g := f.(name := true, isObj := true);
      Step();
    }

    method CloseObject(f: Flags, ghost base: int, ghost given: bool, ghost ph: Phase, ghost j: Job)
      requires Met(CLOSE_OBJECT, f, base, given, ph, j)
      modifies this`i, this`listC
      ensures i == old(i) + 1 && Finished(base, given, j)
    {
      if given { AtCloseObject(S(), f, ph, j); }
      listC := listC - 1;
      Step();
    }

    method SkipWhite(c: Octet, f: Flags, ghost base: int, ghost given: bool, ghost ph: Phase, ghost j: Job)
      returns (ghost next: Phase)
      requires Met(c, f, base, given, ph, j) && IsWhite(c)
      modifies this`i
      ensures i == old(i) + 1 && Running(f, base, given, next, j)
    {
      next := ph;
      if given {
        Meets(S(), f, ph, j);
        NoSpace(ph);
        AtWhite(S(), f, ph, j);
        next := ph.(w := ph.w[1..]);
      }
      Step();
    }

    // ---- Arrays ----

    // Goes on, to the level l, whose place in its array is now k.
    method StepCount(l: int, k: int)
      requires Valid() && i + 1 < val.Length && 0 <= l < MAX_NESTED && k >= -1
      modifies this`i, this`listC, this`list
      ensures Valid() && val[i] == orig[i]
      ensures S() == old(S()).(i := old(i) + 1, listC := l, list := Counted(old(list), l, k))
    {
      Step();
      assert LevelStands(val[..], orig, list[l], i);
      listC := l;
      list := list[l := list[l].(index := k)];
      assert forall m :: 0 <= m < |list| ==> LevelStands(val[..], orig, list[m], i);
    }

    method CloseArray(f: Flags, ghost base: int, ghost given: bool, ghost ph: Phase, ghost j: Job)
      requires Met(CLOSE_ARRAY, f, base, given, ph, j)
      modifies this`i, this`listC, this`list, this`ec
      ensures i == old(i) + 1 && Finished(base, given, j)
    {
      if given { AtCloseArray(S(), f, ph, j); }
      if listC >= 0 {
        StepCount(listC, -1);
      } else {
        Step();
        ec := UNDEFINED;
      }
    }

    // The call for an element that is ahead
    method Element(ghost base: int, ghost given: bool, ghost es: Elements, ghost k: nat, ghost j: Job)
      returns (on: bool)
      requires Before(base, given, es, k, j)
      modifies this, val
      ensures val == old(val) && orig == old(orig) && depth == old(depth) && i >= old(i) && Valid()
      ensures on <==> ec == -1
      ensures on ==> listC <= MAX_NESTED - 2 && (i + 1 < val.Length ==> base <= listC)
      ensures given ==> on && Fresh(AfterElement(es.e.w1, es, k))
                        && Sits(S(), FlagsOf(AfterElement(es.e.w1, es, k)), AfterElement(es.e.w1, es, k), j)
      decreases val.Length - i, 6
    {
      ghost var s := S();
      ghost var g := Nothing;
      if given {
        ElementReady(s, es, k, j);
        g := Expect(es.e.w0, es.e.value, ElementsTail(es, j.tail));
      }
      JsonNew(g);
      on := ec == -1;
      if given { ElementRead(s, es, k, j, S()); }
    }

    // A position in an array at which an element is to be read
    ghost predicate Before(base: int, given: bool, es: Elements, k: nat, j: Job)
      reads this, val
    {
      && Valid() && ec == -1 && 0 <= listC <= MAX_NESTED - 2 && base <= listC
      && (given ==> nulled == 0 && val[i] == orig[i] && AtElement(S(), es, k, j))
    }

    // The state at an array's first element, in a document
    lemma {:induction false} ArrayKnown(f: Flags, base: int, ph: Phase, j: Job, l: int, k: int) returns (es: Elements)
      requires Met(OPEN_ARRAY, f, base, true, ph, j) && listC >= 1 && l == listC - 1 && k == list[l].index + 1
      ensures f == NO_FLAGS && val[i + 1] == orig[i + 1] && base <= l
      ensures AtElement(S().(i := i + 1, listC := l, list := Counted(list, l, k)), es, 0, j)
    {
      AtOpenArray(S(), f, ph, j, l, k);
      es := ph.v.es;
    }

    method BeginArray(f: Flags, ghost base: int, ghost given: bool, ghost ph: Phase, ghost j: Job)
      returns (ghost es: Elements)
      requires Met(OPEN_ARRAY, f, base, given, ph, j) && listC >= 1
      modifies this`i, this`listC, this`list
      ensures i == old(i) + 1 && Before(base, given, es, 0, j)
      ensures given ==> f == NO_FLAGS
    {
      var l := listC - 1;
      var k := list[l].index + 1;
      if given {
        es := ArrayKnown(f, base, ph, j, l, k);
      } else {
        es := *;
      }
      StepCount(l, k);
    }

    method OpenArray(f: Flags, ghost base: int, ghost given: bool, ghost ph: Phase, ghost j: Job)
      returns (on: bool, g: Flags, ghost next: Phase)
      requires Met(OPEN_ARRAY, f, base, given, ph, j)
      modifies this, val
      ensures val == old(val) && orig == old(orig) && depth == old(depth) && i > old(i)
      ensures if on then Running(g, base, given, next, j) else Finished(base, given, j)
      decreases val.Length - i, 0
    {
      g, next := f.(isArr := true, commaArr := true), ph;
      if listC >= 1 {
        ghost var es := BeginArray(f, base, given, ph, j);
        next := AfterElement(es.e.w1, es, 0);
        on := Element(base, given, es, 0, j);
      } else {
        if given { AtOpenArray(S(), f, ph, j, 0, 0); }
        Step();
        on, ec := false, UNDEFINED;
      }
    }

    // ---- Members ----

    // The call for a member's value, which is ahead; s is the state at the colon before it.
    method Member(g: Flags, ghost base: int, ghost given: bool, ghost s: State, ghost ms: Members, ghost j: Job)
      returns (on: bool, ghost next: Phase)
      requires Valid() && ec == -1 && listC <= MAX_NESTED - 2 && Bounded(g, base)
      requires given ==> g == FlagsOf(AfterMember([], ms)) && AtValue(s, ms, j) && S() == s.(i := s.i + 1)
                         && nulled == 0 && val[i] == orig[i]
      modifies this, val
      ensures val == old(val) && orig == old(orig) && depth == old(depth) && i >= old(i)
      ensures if on then Running(g, base, given, next, j) else Finished(base, given, j)
      decreases val.Length - i, 6
    {
      ghost var x := if given then Expect(ms.m.w2, ms.m.value, MembersTail(ms, j.tail)) else Nothing;
      next := AfterMember(ms.m.w3, ms);
      JsonNew(x);
      on := ec == -1;
      if given { MemberRead(s, ms, j, S()); }
    }

    // The state at a member's colon, in a document
    lemma {:induction false} ColonKnown(f: Flags, g: Flags, base: int, ph: Phase, j: Job) returns (ms: Members)
      requires Met(COLON, f, base, true, ph, j) && g == f.(colon := false, commaObj := true)
      ensures g == FlagsOf(AfterMember([], ms)) && AtValue(S(), ms, j)
    {
      ms := AtColon(S(), f, ph, j);
    }

    method Colon(f: Flags, ghost base: int, ghost given: bool, ghost ph: Phase, ghost j: Job)
      returns (on: bool, g: Flags, ghost next: Phase)
      requires Met(COLON, f, base, given, ph, j)
      modifies this, val
      ensures val == old(val) && orig == old(orig) && depth == old(depth) && i > old(i)
      ensures if on then Running(g, base, given, next, j) else Finished(base, given, j)
      decreases val.Length - i, 0
    {
      g := f.(colon := false, commaObj := true);
      ghost var s, ms := S(), *;
      if given { ms := ColonKnown(f, g, base, ph, j); }
      Step();
      assert S() == s.(i := s.i + 1);
      on, next := Member(g, base, given, s, ms, j);
    }

    method CommaObject(f: Flags, ghost base: int, ghost given: bool, ghost ph: Phase, ghost j: Job)
      returns (g: Flags, ghost next: Phase)
      requires Met(COMMA, f, base, given, ph, j) && f.isObj
      modifies this`i
      ensures i == old(i) + 1 && Running(g, base, given, next, j)
    {
      next := ph;
      if given {
        AtCommaObject(S(), f, ph, j);
        next := Name(ph.ms.rest.m.w0, ph.ms.rest);
      }
      g := f.(commaArr := false, commaObj := false, name := true);
      Step();
    }

    // The state at a further element of an array, in a document
    lemma {:induction false} CommaKnown(f: Flags, base: int, ph: Phase, j: Job, l: int, m: int)
      returns (es: Elements, k: nat)
      requires Met(COMMA, f, base, true, ph, j) && !f.isObj && listC >= 0 && l == listC && m == list[l].index + 1
      ensures k == m && f == FlagsOf(AfterElement([], es, k)) && val[i + 1] == orig[i + 1]
      ensures AtElement(S().(i := i + 1, listC := l, list := Counted(list, l, m)), es, k, j)
    {
      es, k := AtCommaArray(S(), f, ph, j);
    }

    method NextInArray(f: Flags, ghost base: int, ghost given: bool, ghost ph: Phase, ghost j: Job)
      returns (ghost es: Elements, ghost k: nat)
      requires Met(COMMA, f, base, given, ph, j) && !f.isObj && f.isArr && listC >= 0
      modifies this`i, this`listC, this`list
      ensures i == old(i) + 1 && Before(base, given, es, k, j)
      ensures given ==> f == FlagsOf(AfterElement([], es, k))
    {
      var l := listC;
      var m := list[l].index + 1;
      if given {
        es, k := CommaKnown(f, base, ph, j, l, m);
      } else {
        es, k := *, 0;
      }
      StepCount(l, m);
    }

    method CommaArray(f: Flags, ghost base: int, ghost given: bool, ghost ph: Phase, ghost j: Job)
      returns (on: bool, g: Flags, ghost next: Phase)
      requires Met(COMMA, f, base, given, ph, j) && !f.isObj && f.isArr
      modifies this, val
      ensures val == old(val) && orig == old(orig) && depth == old(depth) && i > old(i)
      ensures if on then Running(g, base, given, next, j) else Finished(base, given, j)
      decreases val.Length - i, 0
    {
      g, next := f.(commaObj := false), ph;
      if listC >= 0 {
        ghost var es, k := NextInArray(f, base, given, ph, j);
        next := AfterElement(es.e.w1, es, k);
        on := Element(base, given, es, k, j);
      } else {
        if given { var es, k := AtCommaArray(S(), f, ph, j); }
        Step();
        on, ec := false, UNDEFINED;
      }
    }

    // A comma in neither an object nor an array
    method LoneComma(f: Flags, ghost base: int, ghost given: bool, ghost ph: Phase, ghost j: Job)
      requires Met(COMMA, f, base, given, ph, j) && !f.isObj && !f.isArr
      modifies this`i, this`ec, this`errm
      ensures i == old(i) + 1 && Finished(base, given, j)
    {
      if given { var es, k := AtCommaArray(S(), f, ph, j); }
      Step();
      ec, errm := i, Unrecognized;
    }

    // ---- Strings, numbers and words ----

    // Takes the n bytes behind a quote for the name of the current level.
    method TakeName(n: nat, next: nat)
      requires Valid() && 0 <= listC <= MAX_NESTED - 2 && next == i + n + 2 < val.Length
      modifies val, this`i, this`list
      ensures Valid() && val[i] == orig[i]
      ensures i == next && S() == old(NameTaken(S(), n, next))
    {
      ghost var v, s, at := val[..], S(), i + 1;
      var l := Level(i + 1, n, list[listC].index);
      assert LevelStands(v, orig, list[listC], i);
      val[i + 1 + n] := 0;
      i := next;
      SoundOn(v, s, nodes, val[..], i);
      Ends(v, val[..], orig, s.i, at, n, i);
      list := list[listC := l];
      assert forall m :: 0 <= m < |list| ==> LevelStands(val[..], orig, list[m], i);
    }

    // What a quote starts, in a document: a name
    lemma {:induction false} NameKnown(n: nat, at: nat, f: Flags, base: int, ph: Phase, j: Job) returns (next: Phase)
      requires Met(QUOTE, f, base, true, ph, j) && f.name && n == ScanString(orig[i + 1..]) && at == i + n + 2
      ensures at < |orig| && orig[at - 1] == QUOTE && listC >= 0 && next.Colon?
      ensures Sits(NameTaken(S(), n, at), f.(name := false, colon := true), next, j)
    {
      var m, e := AtName(S(), f, ph, j, orig[i + 1..]);
      next := JsonPhases.Colon(ph.ms.m.w1, ph.ms);
    }

    // What a quote starts, in a document: a value
    lemma {:induction false} TextKnown(n: nat, at: nat, f: Flags, base: int, ph: Phase, j: Job)
      requires Met(QUOTE, f, base, true, ph, j) && !f.name && n == ScanString(orig[i + 1..]) && at == i + n + 2
      ensures at < |orig| && orig[at - 1] == QUOTE && listC >= 0 && j.v.Text? && Named(list, listC)
      ensures Done(AfterLeaf(S(), StringKind, i + 1, n, at), j)
    {
      var m, e := AtText(S(), f, ph, j, orig[i + 1..]);
    }

    // A name: it is put into its level, and a colon is expected.
    method MemberName(n: nat, at: nat, f: Flags, ghost base: int, ghost given: bool, ghost ph: Phase, ghost j: Job)
      returns (g: Flags, ghost next: Phase)
      requires Met(QUOTE, f, base, given, ph, j) && f.name
      requires n == ScanString(orig[i + 1..]) && at == i + n + 2 < val.Length
      modifies val, this`i, this`list
      ensures i > old(i) && Running(g, base, given, next, j)
    {
      next := ph;
      if given { next := NameKnown(n, at, f, base, ph, j); }
      g := f.(name := false, colon := true);
      TakeName(n, at);
    }

    // Adds a leaf of a given name whose text of n bytes is ended with a zero, and leaves its level.
    method PutLeaf(name: Str, kind: Kind, at: nat, n: nat, next: nat)
      requires Valid() && 0 <= listC <= MAX_NESTED - 2 && name == NormalName(PathOf(orig, list[..listC]))
      requires Fits(val[..], S(), at, n, next)
      modifies val, this`i, this`listC, this`nodes, this`out
      ensures Valid() && i == next && S() == old(AfterLeaf(S(), kind, at, n, next))
      ensures if next == at + n then val[next] == 0 else val[next] == orig[next]
    {
      ghost var v, s := val[..], S();
      ghost var leaf := Leaf(PathOf(orig, list[..listC]), kind, Cut(orig, at, n));
      val[at + n] := 0;
      LeafSound(v, s, nodes, val[..], leaf, at, n, next);
      nodes := nodes + [Node(name, kind, at)];
      out := out + [leaf];
      i := next;
      listC := listC - 1;
    }

    // Adds a leaf, if the levels up to its own have names.
    method TakeLeaf(kind: Kind, at: nat, n: nat, next: nat) returns (ghost after: State)
      requires Valid() && ec == -1 && 0 <= listC <= MAX_NESTED - 2
      requires Fits(val[..], S(), at, n, next)
      modifies val, this`i, this`listC, this`ec, this`nodes, this`out
      ensures Valid() && i >= old(i)
      ensures after == old(AfterLeaf(S(), kind, at, n, next)) && (ec == -1 ==> S() == after)
      ensures ec == -1 ==> if next == at + n then val[next] == 0 else val[next] == orig[next]
      ensures ec == -1 <==> old(Named(list, listC))
    {
      after := AfterLeaf(S(), kind, at, n, next);
      if exists k :: 0 <= k < listC && list[k].name < 0 {
        ec := UNDEFINED;
        return;
      }
      NamesRead(val[..], S(), nodes, listC);
      var name := FullName(val, list, listC);
      PutLeaf(name, kind, at, n, next);
    }

    // A string that is a value
    method TextValue(n: nat, at: nat, f: Flags, ghost base: int, ghost given: bool, ghost ph: Phase, ghost j: Job)
      requires Met(QUOTE, f, base, given, ph, j) && !f.name
      requires n == ScanString(orig[i + 1..]) && at == i + n + 2 < val.Length
      modifies val, this`i, this`listC, this`ec, this`nodes, this`out
      ensures i >= old(i) && Finished(base, given, j)
    {
      if given { TextKnown(n, at, f, base, ph, j); }
      ghost var after := TakeLeaf(StringKind, i + 1, n, at);
    }

    // A string without a closing quote: the call ends without an error, but where it stands.
    method Unclosed(n: nat, f: Flags, ghost base: int, ghost given: bool, ghost ph: Phase, ghost j: Job)
      requires Met(QUOTE, f, base, given, ph, j) && n == ScanString(orig[i + 1..]) && i + 1 + n < val.Length
               && val[i + 1 + n] == 0
      modifies this`errm
      ensures Finished(base, given, j)
    {
      if given {
        if f.name {
          var next := NameKnown(n, i + n + 2, f, base, ph, j);
        } else {
          TextKnown(n, i + n + 2, f, base, ph, j);
        }
      }
      errm := NoClosingQuote;
    }

    // What is ahead is still the document's text.
    lemma {:induction false} SameAhead()
      requires Valid() && val[i] == orig[i]
      ensures val[i..] == orig[i..]
    {
    }

    lemma {:induction false} SameBehind()
      requires Valid() && i + 1 < val.Length
      ensures val[i + 1..] == orig[i + 1..]
    {
    }

    lemma {:induction false} SameTo(at: nat)
      requires Valid() && val[i] == orig[i] && i <= at <= val.Length
      ensures val[..][i..at] == orig[i..at]
    {
    }

    // The length of a text whose opening quote is here; its closing quote is before the last zero.
    method QuotedLength() returns (n: nat)
      requires Valid() && i + 1 < val.Length
      ensures n == ScanString(orig[i + 1..]) && i + 1 + n < val.Length
      ensures val[i + 1 + n] != 0 ==> i + n + 2 < val.Length
    {
      SameBehind();
      n := TextEnd(val, i + 1);
    }

    method Quote(f: Flags, ghost base: int, ghost given: bool, ghost ph: Phase, ghost j: Job)
      returns (on: bool, g: Flags, ghost next: Phase)
      requires Met(QUOTE, f, base, given, ph, j)
      modifies val, this`i, this`listC, this`list, this`ec, this`errm, this`nodes, this`out
      ensures i >= old(i) && (on ==> i > old(i))
      ensures if on then Running(g, base, given, next, j) else Finished(base, given, j)
    {
      g, next, on := f, ph, false;
      var n := QuotedLength();
      if val[i + 1 + n] == 0 {
        Unclosed(n, f, base, given, ph, j);
      } else if f.name {
        g, next := MemberName(n, i + n + 2, f, base, given, ph, j);
        on := true;
      } else {
        TextValue(n, i + n + 2, f, base, given, ph, j);
      }
    }

    // A number or a word that has been scanned: the character behind it is saved before a zero is put over it.
    method Bare(kind: Kind, n: nat, next: nat, ghost base: int, ghost given: bool, ghost j: Job)
      requires Valid() && ec == -1 && 0 <= base + 1 <= listC <= MAX_NESTED - 2
      requires next == i + n && Fits(val[..], S(), i, n, next)
      requires given ==> Named(list, listC) && Done(AfterLeaf(S(), kind, i, n, next), j)
                         && (j.v.Num? || j.v.Bool? || j.v.Null?)
      modifies val, this`i, this`listC, this`ec, this`nodes, this`out, this`nulled
      ensures i >= old(i) && Finished(base, given, j)
    {
      nulled := val[next];
      ghost var after := TakeLeaf(kind, i, n, next);
    }

    function NumberKind(isReal: bool): Kind { if isReal then RealKind else JsonDoc.NumberKind }

    // What a digit or a sign starts, in a document
    lemma {:induction false} NumberKnown(c: Octet, r: Scanned, f: Flags, base: int, ph: Phase, j: Job)
      requires Met(c, f, base, true, ph, j) && StartsNumber(c) && r == ScanNumber(val[i..])
      ensures r.Scanned? && listC >= 0 && Named(list, listC) && j.v.Num?
      ensures Done(AfterLeaf(S(), NumberKind(r.isReal), i, r.len, i + r.len), j)
    {
      MeetsNumber(S(), f, ph, j);
      SameAhead();
      var n, isReal, next := AtNumber(S(), f, ph, j, val[i..]);
    }

    // The number ahead, and the place behind it
    method ScanAhead() returns (r: Scanned)
      requires Valid() && i + 1 < val.Length
      ensures r == ScanNumber(val[i..]) && (r.Scanned? ==> Fits(val[..], S(), i, r.len, i + r.len))
    {
      r := NumberAt(val, i);
    }

    method NumberValue(c: Octet, f: Flags, ghost base: int, ghost given: bool, ghost ph: Phase, ghost j: Job)
      requires Met(c, f, base, given, ph, j) && StartsNumber(c)
      modifies val, this`i, this`listC, this`ec, this`errm, this`nodes, this`out, this`nulled
      ensures i >= old(i) && Finished(base, given, j)
    {
      var r := ScanAhead();
      if given { NumberKnown(c, r, f, base, ph, j); }
      if r.Scanned? {
        Bare(NumberKind(r.isReal), r.len, i + r.len, base, given, j);
      } else {
        ec, errm := i, BadNumberText;
      }
    }

    // What the first letter of a word starts, in a document
    lemma {:induction false} WordKnown(c: Octet, n: nat, at: nat, f: Flags, base: int, ph: Phase, j: Job)
      requires Met(c, f, base, true, ph, j) && (c == 116 || c == 102 || c == 110) && n == |Word(c)| && at == i + n
      ensures at < val.Length && val[..][i..at] == Word(c) && listC >= 0 && Named(list, listC)
      ensures (j.v.Bool? || j.v.Null?) && Done(AfterLeaf(S(), WordKind(c), i, n, at), j)
    {
      AtWord(S(), f, ph, j, c, n, at);
      SameTo(at);
    }

    method WordValue(c: Octet, f: Flags, ghost base: int, ghost given: bool, ghost ph: Phase, ghost j: Job)
      requires Met(c, f, base, given, ph, j) && (c == 116 || c == 102 || c == 110)
      modifies val, this`i, this`listC, this`ec, this`errm, this`nodes, this`out, this`nulled
      ensures i >= old(i) && Finished(base, given, j)
    {
      var w := Word(c);
      var n := |w|;
      var at := i + n;
      if given { WordKnown(c, n, at, f, base, ph, j); }
      if at < val.Length && val[..][i..at] == w {
        Bare(WordKind(c), n, at, base, given, j);
      } else {
        ec, errm := i, UnknownWord;
      }
    }

    // ---- One turn of the loop, and the call ----

    // The character at the position, saved or not
    method Take(f: Flags, ghost base: int, ghost given: bool, ghost ph: Phase, ghost j: Job) returns (c: Octet)
      requires Running(f, base, given, ph, j) && i + 1 < val.Length
      modifies this`nulled, this`ec, this`errm
      ensures c == old(if nulled != 0 then nulled else val[i])
      ensures if Complaint(c, f) == NoTrouble then Met(c, f, base, given, ph, j)
              else Finished(base, given, j) && ec == i && errm == Complaint(c, f)
    {
      if given { Meets(S(), f, ph, j); }
      if nulled != 0 {
        c := nulled;
        nulled := 0;
      } else {
        c := val[i];
      }
      if Complaint(c, f) != NoTrouble { ec, errm := i, Complaint(c, f); }
    }

    // An array or an object, and what separates their parts
    method Punctuation(c: Octet, f: Flags, ghost base: int, ghost given: bool, ghost ph: Phase, ghost j: Job)
      returns (on: bool, g: Flags, ghost next: Phase)
      requires Met(c, f, base, given, ph, j)
      requires c == COLON || c == COMMA || c == OPEN_OBJECT || c == CLOSE_OBJECT || c == OPEN_ARRAY || c == CLOSE_ARRAY
      modifies this, val
      ensures val == old(val) && orig == old(orig) && depth == old(depth) && i > old(i)
      ensures if on then Running(g, base, given, next, j) else Finished(base, given, j)
      decreases val.Length - i, 2
    {
      on, g, next := false, f, ph;
      if c == OPEN_OBJECT {
        g, next := OpenObject(f, base, given, ph, j);
        on := true;
      } else if c == CLOSE_OBJECT {
        CloseObject(f, base, given, ph, j);
      } else if c == OPEN_ARRAY {
        on, g, next := OpenArray(f, base, given, ph, j);
      } else if c == CLOSE_ARRAY {
        CloseArray(f, base, given, ph, j);
      } else if c == COLON {
        on, g, next := Colon(f, base, given, ph, j);
      } else {
        on, g, next := Commas(f, base, given, ph, j);
      }
    }

    method Commas(f: Flags, ghost base: int, ghost given: bool, ghost ph: Phase, ghost j: Job)
      returns (on: bool, g: Flags, ghost next: Phase)
      requires Met(COMMA, f, base, given, ph, j)
      modifies this, val
      ensures val == old(val) && orig == old(orig) && depth == old(depth) && i > old(i)
      ensures if on then Running(g, base, given, next, j) else Finished(base, given, j)
      decreases val.Length - i, 1
    {
      on, g, next := false, f, ph;
      if f.isObj {
        g, next := CommaObject(f, base, given, ph, j);
        on := true;
      } else if f.isArr {
        on, g, next := CommaArray(f, base, given, ph, j);
      } else {
        LoneComma(f, base, given, ph, j);
      }
    }

    // A string, a number or a word
    method Scalar(c: Octet, f: Flags, ghost base: int, ghost given: bool, ghost ph: Phase, ghost j: Job)
      returns (on: bool, g: Flags, ghost next: Phase)
      requires Met(c, f, base, given, ph, j)
      requires c == QUOTE || StartsNumber(c) || c == 116 || c == 102 || c == 110
      modifies val, this`i, this`listC, this`list, this`ec, this`errm, this`nodes, this`out, this`nulled
      ensures i >= old(i) && (on ==> i > old(i))
      ensures if on then Running(g, base, given, next, j) else Finished(base, given, j)
    {
      on, g, next := false, f, ph;
      if c == QUOTE {
        on, g, next := Quote(f, base, given, ph, j);
      } else if StartsNumber(c) {
        NumberValue(c, f, base, given, ph, j);
      } else {
        WordValue(c, f, base, given, ph, j);
      }
    }

    /** One character, and the calls it needs. */
    method Turn(f: Flags, ghost base: int, ghost given: bool, ghost ph: Phase, ghost j: Job)
      returns (on: bool, g: Flags, ghost next: Phase)
      requires Running(f, base, given, ph, j) && i + 1 < val.Length
      modifies this, val
      ensures val == old(val) && orig == old(orig) && depth == old(depth)
      ensures i >= old(i) && (on ==> i > old(i))
      ensures if on then Running(g, base, given, next, j) else Finished(base, given, j)
      ensures var c := old(if nulled != 0 then nulled else val[i]);
              Complaint(c, f) != NoTrouble ==> !on && ec == old(i) && errm == Complaint(c, f)
      decreases val.Length - i, 3
    {
      on, g, next := false, f, ph;
      var c := Take(f, base, given, ph, j);
      if Complaint(c, f) != NoTrouble { return; }
      if c == COLON || c == COMMA || c == OPEN_OBJECT || c == CLOSE_OBJECT || c == OPEN_ARRAY || c == CLOSE_ARRAY {
        on, g, next := Punctuation(c, f, base, given, ph, j);
      } else if IsWhite(c) {
        next := SkipWhite(c, f, base, given, ph, j);
        on := true;
      } else {
        on, g, next := Scalar(c, f, base, given, ph, j);
      }
    }

    // Enters a call: one deeper, one level up.
    method Enter(ghost x: Expect)
      requires Valid() && ec == -1 && -1 <= listC <= MAX_NESTED - 2
      requires x.Expect? ==> Ready(S(), x.w, x.v, x.tail)
      modifies this`depth, this`listC, this`ec, this`errm
      ensures depth == old(depth) + 1
      ensures ec == -1 ==> S() == old(S().(depth := depth + 1, listC := listC + 1)) && listC <= MAX_NESTED - 2
      ensures x.Expect? ==> ec == -1
    {
      if x.Expect? { DepthPositive(x.v); }
      depth := depth + 1;
      if depth >= MAX_NESTED {
        ec, errm := i, TooDeep;
        return;
      }
      listC := listC + 1;
      if listC >= MAX_NESTED - 1 { ec, errm := i, TooDeep; }
    }

    // The loop of a call, and what is done at the end of the text
    method Loop(ghost base: int, ghost given: bool, ghost first: Phase, ghost j: Job)
      requires Running(NO_FLAGS, base, given, first, j)
      modifies this, val
      ensures val == old(val) && orig == old(orig) && depth == old(depth) && i >= old(i)
      ensures Finished(base, given, j)
      decreases val.Length - i, 4
    {
      ghost var ph := first;
      var f, on := NO_FLAGS, true;
      while on && i + 1 < val.Length
        invariant val == old(val) && orig == old(orig) && depth == old(depth) && i >= old(i)
        invariant if on then Running(f, base, given, ph, j) else Finished(base, given, j)
        decreases val.Length - i + if on then 1 else 0
      {
        on, f, ph := Turn(f, base, given, ph, j);
      }
      if on {
        if given { Meets(S(), f, ph, j); }
        listC := listC - 1;
      }
    }

    /** vely_json_new, below the call for the document: reads one value. */
    method JsonNew(ghost x: Expect)
      requires Valid() && ec == -1 && -1 <= listC <= MAX_NESTED - 2
      requires x.Expect? ==> Ready(S(), x.w, x.v, x.tail) && nulled == 0 && val[i] == orig[i]
      modifies this, val
      ensures val == old(val) && orig == old(orig) && depth == old(depth) && i >= old(i) && Valid()
      ensures ec == -1 ==> listC <= MAX_NESTED - 2 && (i + 1 < val.Length ==> old(listC) <= listC)
      ensures x.Expect? ==> ec == -1 && Done(S(), old(JobFor(S(), x.v, x.tail))) && Left(x.v)
      decreases val.Length - i, 5
    {
      ghost var given, base := x.Expect?, listC;
      ghost var j := Job(Null, 0, [], [], [], []);
      ghost var ph := Start([], Null);
      if given {
        j, ph := JobFor(S(), x.v, x.tail), Start(x.w, x.v);
        Entered(S(), x.w, x.v, x.tail);
      }
      Enter(x);
      if ec == -1 { Loop(base, given, ph, j); }
      depth := depth - 1;
    }

    // ---- The call for a document ----

    // The start of the call for a document; whatever the last call saved is still there.
    method Reset(text: array<Octet>)
      requires text.Length > 0 && text[text.Length - 1] == 0
      modifies this
      ensures val == text && orig == text[..] && nulled == old(nulled) && ec == -1 && nodes == []
      ensures Valid() && S() == Opened(text[..])
    {
      val, i, list, listC, depth, nodes, ec, errm := text, 0, NoLevels(), -1, 0, [], -1, NoTrouble;
      orig, out := text[..], [];
    }

    // White space behind the value is passed over; anything else there is an error.
    method Finish()
      requires Valid()
      modifies this`i, this`ec, this`errm
      ensures old(i) <= i < val.Length && (forall k :: old(i) <= k < i ==> IsSpace(val[k])) && !IsSpace(val[i])
      ensures old(ec) != -1 ==> ec == old(ec)
      ensures old(ec) == -1 ==> (ec == -1 <==> i + 1 == val.Length)
    {
      while IsSpace(val[i])
        invariant ec == old(ec) && old(i) <= i < val.Length && forall k :: old(i) <= k < i ==> IsSpace(val[k])
        decreases val.Length - i
      {
        i := i + 1;
      }
      if ec == -1 && i + 1 < val.Length { ec, errm := i, Leftover; }
    }

    // What is left behind a document's value: a number or a word hides white space behind it under its zero.
    method FinishDocument(ghost given: bool, ghost v: Value, ghost w1: Str)
      requires Valid()
      requires given ==> ec == -1 && orig[i..] == w1 + [0] && White(w1) && Left(v)
                         && !v.Array?
      modifies this`i, this`ec, this`errm
      ensures given ==> (ec == -1 <==> v.Object? || v.Text? || w1 == []) && (ec == -1 <==> nulled == 0)
    {
      ghost var j := i;
      assert given ==> val.Length == j + |w1| + 1 && forall k :: 0 <= k <= |w1| ==> orig[j + k] == (w1 + [0])[k] by {
        if given { assert forall k :: 0 <= k <= |w1| ==> orig[j + k] == orig[j..][k]; }
      }
      Finish();
      if given {
        if v.Object? || v.Text? {
          assert i == j + |w1|;
        } else {
          assert i == j;
        }
      }
    }

    // The call itself, on the state of a new document
    method ReadDocument(ghost given: bool, ghost w0: Str, ghost v: Value, ghost w1: Str)
      requires Valid() && val.Length > 0 && ec == -1 && nodes == [] && S() == Opened(val[..])
      requires given ==> nulled == 0 && IsDocument(val[..], w0, v, w1)
      modifies this, val
      ensures val == old(val) && Valid()
      ensures given ==> Listed(val[..], nodes, Leaves(v, []))
      ensures given ==> ec == -1 && orig[i..] == w1 + [0] && Left(v)
    {
      ghost var t := val[..];
      ghost var x := Nothing;
      if given {
        DocumentReady(t, w0, v, w1);
        x := Expect(w0, v, w1 + [0]);
      }
      JsonNew(x);
      if given {
        DocumentDone(t, v, w1 + [0], S());
        LeavesZeroFree(v, []);
        SoundLists(val[..], S(), nodes);
      }
    }
  }
}
