/** Where a call of the JSON parser stands inside the value it was called for, and how one character moves it on. */
module JsonPhases {
  import opened Utf8
  import opened JsonDoc
  import opened Octets
  import opened Sequences

  const MAX_NESTED := 32

  // ---- The parser's levels ----

  // A level of names: where the name stands (-1 for none), how long it is, and the place in its array or -1.
  datatype Level = Level(name: int, len: nat, index: int)

  function Cut(s: Str, at: int, n: nat): Str {
    if 0 <= at && at + n <= |s| then s[at..at + n] else []
  }

  function StepOf(orig: Str, l: Level): Step { Step(Cut(orig, l.name, l.len), l.index) }

  /** The way to a leaf that the levels say. */
  function PathOf(orig: Str, levels: seq<Level>): (p: seq<Step>)
    ensures |p| == |levels|
  {
    seq(|levels|, k requires 0 <= k < |levels| => StepOf(orig, levels[k]))
  }

  /** The part of the parser's state a document is told by. */
  datatype State = State(orig: Str, i: nat, list: seq<Level>, listC: int, depth: int, out: seq<Leaf>)

  predicate InRange(s: State) {
    s.i < |s.orig| && |s.list| == MAX_NESTED && -1 <= s.listC <= MAX_NESTED - 2
  }

  // ---- Flags ----

  datatype Flags = Flags(commaArr: bool, commaObj: bool, colon: bool, name: bool, isArr: bool, isObj: bool)

  const NO_FLAGS := Flags(false, false, false, false, false, false)

  datatype Trouble =
    | NoTrouble | TooDeep | ColonExpected | CommaOrEndArray | CommaOrEndObject | NameExpected
    | BadNumberText | UnknownWord | Unrecognized | NoClosingQuote | Leftover

  predicate StartsNumber(c: Octet) { c == 45 || IsDigit(c) }

  /** Which error a character meets, by what is expected. */
  function Complaint(c: Octet, f: Flags): Trouble {
    var colon := if f.colon then ColonExpected else NoTrouble;
    var name := if f.name then NameExpected else NoTrouble;
    var arr := if f.commaArr then CommaOrEndArray else NoTrouble;
    var obj := if f.commaObj then CommaOrEndObject else NoTrouble;
    if c == OPEN_OBJECT then First(colon, First(name, First(arr, obj)))
    else if c == CLOSE_OBJECT then First(colon, First(arr, name))
    else if c == OPEN_ARRAY then First(colon, First(arr, First(obj, name)))
    else if c == CLOSE_ARRAY then First(colon, First(obj, name))
    else if c == COLON then First(arr, First(obj, name))
    else if c == COMMA then First(colon, name)
    else if IsWhite(c) then NoTrouble
    else if c == QUOTE then First(colon, First(arr, obj))
    else if StartsNumber(c) || c == 116 || c == 102 || c == 110 then First(colon, First(arr, First(obj, name)))
    else Unrecognized
  }

  function First(a: Trouble, b: Trouble): Trouble { if a == NoTrouble then b else a }

  // ---- Phases ----

  // White space still ahead, and what follows it
  datatype Phase =
    | Start(w: Str, v: Value)
    | Name(w: Str, ms: Members)
    | Colon(w: Str, ms: Members)
    | AfterMember(w: Str, ms: Members)
    | AfterElement(w: Str, es: Elements, k: nat)

  function FlagsOf(ph: Phase): Flags {
    match ph
    case Start(_, _) => NO_FLAGS
    case Name(_, _) => NO_FLAGS.(name := true, isObj := true)
    case Colon(_, _) => NO_FLAGS.(colon := true, isObj := true)
    case AfterMember(_, _) => NO_FLAGS.(commaObj := true, isObj := true)
    case AfterElement(_, _, _) => NO_FLAGS.(commaArr := true, isArr := true)
  }

  function Behind(ph: Phase, tail: Str): Str {
    match ph
    case Start(_, v) => Ahead(v, tail)
    case Name(_, ms) => NameAhead(ms, tail)
    case Colon(_, ms) => ColonAhead(ms, tail)
    case AfterMember(_, ms) => MoreMembersAhead(ms, tail)
    case AfterElement(_, es, _) => MoreElementsAhead(es, tail)
  }

  predicate GoodPhase(ph: Phase) {
    && White(ph.w)
    && match ph
       case Start(_, v) => Good(v)
       case Name(_, ms) => GoodMembers(ms)
       case Colon(_, ms) => GoodMembers(ms)
       case AfterMember(_, ms) => GoodMembers(ms)
       case AfterElement(_, es, _) => GoodElements(es)
  }

  // How many calls deep the parser will still go
  function Need(ph: Phase): nat {
    match ph
    case Start(_, v) => Depth(v) - 1
    case Name(_, ms) => MembersDepth(ms)
    case Colon(_, ms) => MembersDepth(ms)
    case AfterMember(_, ms) => MembersDepth(ms)
    case AfterElement(_, es, _) => ElementsDepth(es)
  }

  function OtherMembers(ms: Members, path: seq<Step>): seq<Leaf> {
    if ms.MoreMembers? then MembersLeaves(ms.rest, path) else []
  }

  function OtherElements(es: Elements, path: seq<Step>, k: nat): seq<Leaf> {
    if es.MoreElements? then ElementsLeaves(es.rest, path, k + 1) else []
  }

  // The leaves still to come
  function Coming(ph: Phase, path: seq<Step>): seq<Leaf> {
    match ph
    case Start(_, v) => Leaves(v, path)
    case Name(_, ms) => MembersLeaves(ms, path)
    case Colon(_, ms) => MembersLeaves(ms, path)
    case AfterMember(_, ms) => OtherMembers(ms, path)
    case AfterElement(_, es, k) => OtherElements(es, path, k)
  }

  /** What a call is to do: its value, the levels on entry, the way to the value, the leaves there will be, the
      text behind it. */
  datatype Job = Job(v: Value, level: int, levels: seq<Level>, path: seq<Step>, target: seq<Leaf>, tail: Str)

  predicate GoodJob(j: Job) {
    && -1 <= j.level <= MAX_NESTED - 3 && |j.levels| == MAX_NESTED && |j.path| == j.level + 1
    && j.tail != [] && Delimits(j.tail[0])
  }

  // Levels above n are not in any array.
  predicate CleanAbove(list: seq<Level>, n: int) {
    forall k :: n < k < |list| && 0 <= k ==> list[k].index == -1
  }

  predicate Named(list: seq<Level>, n: int) {
    forall k :: 0 <= k < n && k < |list| ==> list[k].name >= 0
  }

  // The levels of the entry, as they are when the call is done
  predicate SameLevels(s: State, j: Job)
    requires GoodJob(j) && |s.list| == MAX_NESTED
  {
    && s.list[..j.level + 1] == j.levels[..j.level + 1]
    && PathOf(s.orig, s.list[..j.level + 1]) == j.path
    && CleanAbove(s.list, j.level) && Named(s.list, j.level + 1)
  }

  // The same within an array: the last level counts its elements.
  predicate Counting(s: State, j: Job, k: nat)
    requires GoodJob(j) && |s.list| == MAX_NESTED
  {
    && j.level >= 0 && j.levels[j.level].index == -1
    && s.list[j.level].index == k
    && s.list[..j.level + 1] == j.levels[..j.level + 1][j.level := j.levels[j.level].(index := k)]
    && PathOf(s.orig, j.levels[..j.level + 1]) == j.path
    && CleanAbove(s.list, j.level) && Named(s.list, j.level + 1)
  }

  predicate Placed(s: State, ph: Phase, j: Job)
    requires GoodJob(j) && |s.list| == MAX_NESTED
  {
    if ph.AfterElement? then s.listC == j.level && Counting(s, j, ph.k)
    else
      && s.listC == j.level + 1 && SameLevels(s, j)
      && (ph.Colon? ==> NameIs(s.orig, s.list[j.level + 1], ph.ms.m.name))
      && (ph.Start? && ph.v.Array? ==> j.level >= 0 && j.levels[j.level].index == -1)
  }

  predicate NameIs(orig: Str, l: Level, name: Str) {
    l.name >= 0 && Cut(orig, l.name, l.len) == name
  }

  // The phase is one of reading v.
  predicate Within(ph: Phase, v: Value) {
    if ph.Start? then ph.v == v else if ph.AfterElement? then v.Array? else v.Object?
  }

  /** The parser stands at a phase of its job. */
  predicate Sits(s: State, f: Flags, ph: Phase, j: Job) {
    && InRange(s) && GoodJob(j) && GoodPhase(ph) && Within(ph, j.v)
    && f == FlagsOf(ph)
    && s.orig[s.i..] == ph.w + Behind(ph, j.tail)
    && s.out + Coming(ph, j.path) == j.target
    && s.depth + Need(ph) < MAX_NESTED && j.level + 2 <= s.depth
    && Placed(s, ph, j)
  }

  /** The job is done. */
  predicate Done(s: State, j: Job) {
    && InRange(s) && GoodJob(j)
    && s.orig[s.i..] == j.tail
    && s.out == j.target
    && s.listC == j.level && SameLevels(s, j)
  }

  /** A call may be made for the value v ahead. */
  predicate Ready(s: State, w: Str, v: Value, tail: Str) {
    && InRange(s)
    && White(w) && Good(v)
    && s.orig[s.i..] == w + Ahead(v, tail)
    && tail != [] && Delimits(tail[0])
    && s.depth + Depth(v) < MAX_NESTED && s.listC + 1 <= s.depth
    && CleanAbove(s.list, s.listC) && Named(s.list, s.listC + 1)
    && (v.Array? ==> s.listC >= 0 && s.list[s.listC].index == -1)
  }

  /** The job of a call for v. */
  function JobFor(s: State, v: Value, tail: Str): (j: Job)
    requires InRange(s)
  {
    var path := PathOf(s.orig, s.list[..s.listC + 1]);
    Job(v, s.listC, s.list, path, s.out + Leaves(v, path), tail)
  }

  lemma {:induction false} DepthPositive(v: Value)
    ensures Depth(v) >= 1
  {
  }

  lemma {:induction false} Entered(s: State, w: Str, v: Value, tail: Str)
    requires Ready(s, w, v, tail)
    ensures Sits(s.(depth := s.depth + 1, listC := s.listC + 1), NO_FLAGS, Start(w, v), JobFor(s, v, tail))
  {
    DepthPositive(v);
  }

  // ---- Moving on ----

  lemma {:induction false} Onward(orig: Str, i: nat, a: Str, b: Str)
    requires i <= |orig| && orig[i..] == a + b
    ensures i + |a| <= |orig| && orig[i + |a|..] == b && orig[i..i + |a|] == a
  {
    assert (a + b)[|a|..] == b;
    assert orig[i..][|a|..] == orig[i + |a|..];
    assert orig[i..][..|a|] == orig[i..i + |a|];
    assert (a + b)[..|a|] == a;
  }

  lemma {:induction false} OneOn(orig: Str, i: nat, c: Octet, b: Str)
    requires i <= |orig| && orig[i..] == [c] + b
    ensures i < |orig| && orig[i] == c && orig[i + 1..] == b
  {
    assert orig[i..][0] == ([c] + b)[0];
    Onward(orig, i, [c], b);
  }

  // The character a phase meets when no white space is ahead
  function FrontOf(ph: Phase): Octet
    requires GoodPhase(ph)
  {
    if ph.w != [] then ph.w[0]
    else
      match ph
      case Start(_, v) => Opening(v)
      case Name(_, _) => QUOTE
      case Colon(_, _) => COLON
      case AfterMember(_, ms) => if ms.MoreMembers? then COMMA else CLOSE_OBJECT
      case AfterElement(_, es, _) => if es.MoreElements? then COMMA else CLOSE_ARRAY
  }

  function Opening(v: Value): Octet
    requires Good(v)
  {
    match v
    case Text(_) => QUOTE
    case Num(n) => if n.sign == [] then n.whole[0] else 45
    case Bool(b) => if b then 116 else 102
    case Null => 110
    case Object(_) => OPEN_OBJECT
    case Array(_) => OPEN_ARRAY
  }

  lemma {:induction false} OpeningAhead(v: Value, tail: Str)
    requires Good(v) && tail != []
    ensures |Ahead(v, tail)| >= 2 && Ahead(v, tail)[0] == Opening(v)
    decreases v
  {
    match v
    case Text(_) =>
    case Num(n) => NumberParts(n, tail);
    case Bool(_) =>
    case Null =>
    case Object(ms) => assert NameAhead(ms, tail)[0] == QUOTE;
    case Array(es) => ElementOpens(es, tail);
  }

  lemma {:induction false} ElementOpens(es: Elements, tail: Str)
    requires GoodElements(es) && tail != []
    ensures ElementAhead(es, tail) != []
    decreases es
  {
    assert GoodElement(es.e);
    assert MoreElementsAhead(es, tail) != [];
    OpeningAhead(es.e.value, ElementsTail(es, tail));
  }

  lemma {:induction false} BehindPhase(ph: Phase, tail: Str)
    requires GoodPhase(ph) && tail != []
    ensures |Behind(ph, tail)| >= 2
    ensures ph.w == [] ==> Behind(ph, tail)[0] == FrontOf(ph)
  {
    match ph
    case Start(_, v) => OpeningAhead(v, tail);
    case Name(_, _) =>
    case Colon(_, ms) =>
      assert GoodMember(ms.m) && MembersTail(ms, tail) != [];
      OpeningAhead(ms.m.value, MembersTail(ms, tail));
    case AfterMember(_, ms) =>
      if ms.MoreMembers? { assert NameAhead(ms.rest, tail)[0] == QUOTE; }
    case AfterElement(_, es, _) =>
      if es.MoreElements? { ElementOpens(es.rest, tail); }
  }

  // What the parser meets: never the end of the text, and never a character it refuses
  lemma {:induction false} Meets(s: State, f: Flags, ph: Phase, j: Job)
    requires Sits(s, f, ph, j)
    ensures s.i + 1 < |s.orig| && s.orig[s.i] == FrontOf(ph)
    ensures Complaint(s.orig[s.i], f) == NoTrouble
  {
    var r := ph.w + Behind(ph, j.tail);
    BehindPhase(ph, j.tail);
    assert s.orig[s.i] == s.orig[s.i..][0] == r[0];
  }

  // White space is passed over.
  lemma {:induction false} AtWhite(s: State, f: Flags, ph: Phase, j: Job)
    requires Sits(s, f, ph, j) && ph.w != []
    ensures IsWhite(s.orig[s.i]) && s.i + 1 < |s.orig|
    ensures Sits(s.(i := s.i + 1), f, ph.(w := ph.w[1..]), j)
  {
    var w := ph.w;
    assert w + Behind(ph, j.tail) == [w[0]] + (w[1..] + Behind(ph, j.tail));
    OneOn(s.orig, s.i, w[0], w[1..] + Behind(ph, j.tail));
    BehindPhase(ph, j.tail);
  }

  // The front character tells the phase.
  lemma {:induction false} NoSpace(ph: Phase)
    requires GoodPhase(ph)
    ensures ph.w != [] <==> IsWhite(FrontOf(ph))
  {
  }

  lemma {:induction false} AtOpenObject(s: State, f: Flags, ph: Phase, j: Job)
    requires Sits(s, f, ph, j) && s.orig[s.i] == OPEN_OBJECT
    ensures ph.Start? && ph.v.Object?
    ensures var next := Name(ph.v.ms.m.w0, ph.v.ms); Sits(s.(i := s.i + 1), FlagsOf(next), next, j)
  {
    Meets(s, f, ph, j);
    NoSpace(ph);
    var ms := ph.v.ms;
    assert GoodMembers(ms) && GoodMember(ms.m);
    OneOn(s.orig, s.i, OPEN_OBJECT, ms.m.w0 + NameAhead(ms, j.tail));
  }

  lemma {:induction false} AtCloseObject(s: State, f: Flags, ph: Phase, j: Job)
    requires Sits(s, f, ph, j) && s.orig[s.i] == CLOSE_OBJECT
    ensures Done(s.(i := s.i + 1, listC := s.listC - 1), j)
  {
    Meets(s, f, ph, j);
    NoSpace(ph);
    assert ph.AfterMember? && !ph.ms.MoreMembers?;
    OneOn(s.orig, s.i, CLOSE_OBJECT, j.tail);
  }

  lemma {:induction false} AtCommaObject(s: State, f: Flags, ph: Phase, j: Job)
    requires Sits(s, f, ph, j) && s.orig[s.i] == COMMA && f.isObj
    ensures ph.AfterMember? && ph.ms.MoreMembers?
    ensures var next := Name(ph.ms.rest.m.w0, ph.ms.rest); Sits(s.(i := s.i + 1), FlagsOf(next), next, j)
  {
    Meets(s, f, ph, j);
    NoSpace(ph);
    var ms := ph.ms.rest;
    assert GoodMembers(ms) && GoodMember(ms.m);
    OneOn(s.orig, s.i, COMMA, ms.m.w0 + NameAhead(ms, j.tail));
  }

  // ---- A member's value ----

  lemma {:induction false} Delimited(w: Str, more: Str)
    requires White(w) && more != [] && Delimits(more[0])
    ensures w + more != [] && Delimits((w + more)[0])
  {
    if w != [] { assert (w + more)[0] == w[0]; }
  }

  // At the colon before a member's value; behind it the call for the value may be made.
  predicate AtValue(s: State, ms: Members, j: Job) {
    && Sits(s, FlagsOf(Colon([], ms)), Colon([], ms), j) && s.i + 1 < |s.orig|
    && Ready(s.(i := s.i + 1), ms.m.w2, ms.m.value, MembersTail(ms, j.tail))
  }

  lemma {:induction false} FacesColon(ph: Phase, tail: Str)
    requires GoodPhase(ph) && FrontOf(ph) == COLON
    ensures ph.Colon? && ph == Colon([], ph.ms) && GoodMember(ph.ms.m)
    ensures Behind(ph, tail) == [COLON] + (ph.ms.m.w2 + Ahead(ph.ms.m.value, MembersTail(ph.ms, tail)))
  {
    NoSpace(ph);
    assert GoodMembers(ph.ms);
  }

  lemma {:induction false} AtColon(s: State, f: Flags, ph: Phase, j: Job) returns (ms: Members)
    requires Sits(s, f, ph, j) && s.orig[s.i] == COLON
    ensures f == FlagsOf(Colon([], ms)) && AtValue(s, ms, j)
  {
    Meets(s, f, ph, j);
    FacesColon(ph, j.tail);
    ms := ph.ms;
    OneOn(s.orig, s.i, COLON, ms.m.w2 + Ahead(ms.m.value, MembersTail(ms, j.tail)));
    Delimited(ms.m.w3, MoreMembersAhead(ms, j.tail));
  }

  lemma {:induction false} PathGrows(orig: Str, list: seq<Level>, n: nat, name: Str)
    requires n < |list| && NameIs(orig, list[n], name) && list[n].index == -1
    ensures PathOf(orig, list[..n + 1]) == PathOf(orig, list[..n]) + [Step(name, -1)]
  {
  }

  lemma {:induction false} MemberRead(s: State, ms: Members, j: Job, r: State)
    requires AtValue(s, ms, j) && r.orig == s.orig && r.depth == s.depth
    requires Done(r, JobFor(s.(i := s.i + 1), ms.m.value, MembersTail(ms, j.tail)))
    ensures var next := AfterMember(ms.m.w3, ms); Sits(r, FlagsOf(next), next, j)
  {
    var n := j.level + 1;
    assert GoodMembers(ms) && GoodMember(ms.m);
    PathGrows(s.orig, s.list, n, ms.m.name);
    assert r.list[..n + 1] == s.list[..n + 1];
    assert r.list[..n] == r.list[..n + 1][..n] == s.list[..n + 1][..n] == s.list[..n];
    assert r.list[n] == r.list[..n + 1][n] == s.list[n];
    var mine := Leaves(ms.m.value, j.path + [Step(ms.m.name, -1)]);
    Regroup(s.out, mine, OtherMembers(ms, j.path));
  }

  // ---- An array's elements ----

  /** The parser is about to call itself for the element k of an array. */
  predicate AtElement(s: State, es: Elements, k: nat, j: Job) {
    && InRange(s) && GoodJob(j) && GoodElements(es) && j.v.Array?
    && s.orig[s.i..] == ElementAhead(es, j.tail)
    && s.out + ElementsLeaves(es, j.path, k) == j.target
    && s.depth + ElementsDepth(es) < MAX_NESTED && j.level + 2 <= s.depth
    && s.listC == j.level && Counting(s, j, k)
  }

  function Counted(list: seq<Level>, n: int, k: int): seq<Level> {
    if 0 <= n < |list| then list[n := list[n].(index := k)] else list
  }

  lemma {:induction false} AtOpenArray(s: State, f: Flags, ph: Phase, j: Job, l: int, k: int)
    requires Sits(s, f, ph, j) && s.orig[s.i] == OPEN_ARRAY
    ensures ph.Start? && ph.v.Array? && j.level >= 0 && s.listC == j.level + 1 && s.list[j.level].index == -1
    ensures l == j.level && k == s.list[l].index + 1 ==>
      AtElement(s.(i := s.i + 1, listC := l, list := Counted(s.list, l, k)), ph.v.es, 0, j)
  {
    Meets(s, f, ph, j);
    NoSpace(ph);
    OneOn(s.orig, s.i, OPEN_ARRAY, ElementAhead(ph.v.es, j.tail));
    var m := j.level;
    assert s.list[m] == s.list[..m + 1][m] == j.levels[..m + 1][m] == j.levels[m];
    assert Counted(s.list, m, 0)[..m + 1] == j.levels[..m + 1][m := j.levels[m].(index := 0)];
    assert s.list[..m + 1] == j.levels[..m + 1];
  }

  // The last level set to another count
  lemma {:induction false} Recount(list: seq<Level>, levels: seq<Level>, l: nat, k: int, m: int)
    requires l < |list| && |levels| == |list|
    requires list[..l + 1] == levels[..l + 1][l := levels[l].(index := k)]
    ensures list[l].index == k
    ensures Counted(list, l, m)[l].index == m
    ensures Counted(list, l, m)[..l + 1] == levels[..l + 1][l := levels[l].(index := m)]
    ensures CleanAbove(list, l) ==> CleanAbove(Counted(list, l, m), l)
    ensures Named(list, l + 1) ==> Named(Counted(list, l, m), l + 1)
  {
    assert list[l] == list[..l + 1][l];
  }

  lemma {:induction false} FacesArray(ph: Phase, tail: Str)
    requires GoodPhase(ph) && (FrontOf(ph) == CLOSE_ARRAY || (FrontOf(ph) == COMMA && !FlagsOf(ph).isObj))
    ensures ph.w == [] && ph.AfterElement? && (ph.es.MoreElements? <==> FrontOf(ph) == COMMA)
    ensures Behind(ph, tail) == if ph.es.MoreElements? then [COMMA] + ElementAhead(ph.es.rest, tail)
                                else [CLOSE_ARRAY] + tail
  {
    NoSpace(ph);
  }

  lemma {:induction false} AtCommaArray(s: State, f: Flags, ph: Phase, j: Job) returns (es: Elements, k: nat)
    requires Sits(s, f, ph, j) && s.orig[s.i] == COMMA && !f.isObj
    ensures f == FlagsOf(AfterElement([], es, k)) && s.listC == j.level >= 0 && s.list[j.level].index + 1 == k
    ensures AtElement(s.(i := s.i + 1, listC := j.level, list := Counted(s.list, j.level, k)), es, k, j)
  {
    Meets(s, f, ph, j);
    FacesArray(ph, j.tail);
    es, k := ph.es.rest, ph.k + 1;
    OneOn(s.orig, s.i, COMMA, ElementAhead(es, j.tail));
    Recount(s.list, j.levels, j.level, ph.k, k);
  }

  lemma {:induction false} PathCounts(orig: Str, levels: seq<Level>, n: nat, k: nat)
    requires n < |levels|
    ensures PathOf(orig, levels[..n + 1][n := levels[n].(index := k)]) == AtIndex(PathOf(orig, levels[..n + 1]), k)
  {
  }

  lemma {:induction false} ElementReady(s: State, es: Elements, k: nat, j: Job)
    requires AtElement(s, es, k, j)
    ensures Ready(s, es.e.w0, es.e.value, ElementsTail(es, j.tail))
  {
    assert GoodElement(es.e);
    Delimited(es.e.w1, MoreElementsAhead(es, j.tail));
  }

  lemma {:induction false} ElementRead(s: State, es: Elements, k: nat, j: Job, r: State)
    requires AtElement(s, es, k, j) && r.orig == s.orig && r.depth == s.depth
    requires Done(r, JobFor(s, es.e.value, ElementsTail(es, j.tail)))
    ensures var next := AfterElement(es.e.w1, es, k); Sits(r, FlagsOf(next), next, j)
  {
    assert GoodElement(es.e);
    var l := j.level;
    PathCounts(s.orig, j.levels, l, k);
    assert r.list[l] == r.list[..l + 1][l] == s.list[..l + 1][l] == s.list[l];
    Regroup(s.out, Leaves(es.e.value, AtIndex(j.path, k)), OtherElements(es, j.path, k));
  }

  // At the end of an array its level is again as it was on entry.
  lemma {:induction false} Restored(list: seq<Level>, levels: seq<Level>, l: nat, k: int)
    requires l < |list| && |levels| == |list| && levels[l].index == -1
    requires list[..l + 1] == levels[..l + 1][l := levels[l].(index := k)] && CleanAbove(list, l) && Named(list, l + 1)
    ensures Counted(list, l, -1)[..l + 1] == levels[..l + 1]
    ensures CleanAbove(Counted(list, l, -1), l) && Named(Counted(list, l, -1), l + 1)
  {
    Recount(list, levels, l, k, -1);
    assert levels[l].(index := -1) == levels[l];
  }

  lemma {:induction false} CloseArray(s: State, es: Elements, k: nat, j: Job)
    requires Sits(s, FlagsOf(AfterElement([], es, k)), AfterElement([], es, k), j) && !es.MoreElements?
    ensures s.listC == j.level >= 0
    ensures Done(s.(i := s.i + 1, list := Counted(s.list, j.level, -1)), j)
  {
    OneOn(s.orig, s.i, CLOSE_ARRAY, j.tail);
    Restored(s.list, j.levels, j.level, k);
  }

  lemma {:induction false} AtCloseArray(s: State, f: Flags, ph: Phase, j: Job)
    requires Sits(s, f, ph, j) && s.orig[s.i] == CLOSE_ARRAY
    ensures s.listC == j.level >= 0
    ensures Done(s.(i := s.i + 1, list := Counted(s.list, j.level, -1)), j)
  {
    Meets(s, f, ph, j);
    FacesArray(ph, j.tail);
    assert ph == AfterElement([], ph.es, ph.k);
    CloseArray(s, ph.es, ph.k, j);
  }

  // ---- Names and leaves ----

  lemma {:induction false} ScanName(orig: Str, i: nat, name: Str, rest: Str, body: Str) returns (n: nat, next: nat)
    requires i < |orig| && orig[i..] == [QUOTE] + (name + ([QUOTE] + rest)) && Raw(name) && body == orig[i + 1..]
    ensures n == ScanString(body) && next == i + n + 2 <= |orig| && orig[next - 1] == QUOTE
    ensures Cut(orig, i + 1, n) == name && orig[next..] == rest
  {
    OneOn(orig, i, QUOTE, name + ([QUOTE] + rest));
    ScanRaw(name, [QUOTE] + rest);
    n, next := |name|, i + |name| + 2;
    ClosedBehind(orig, i + 1, name, rest);
  }

  lemma {:induction false} ClosedBehind(orig: Str, at: nat, name: Str, rest: Str)
    requires at <= |orig| && orig[at..] == name + ([QUOTE] + rest)
    ensures at + |name| < |orig| && orig[at + |name|] == QUOTE
    ensures Cut(orig, at, |name|) == name && orig[at + |name| + 1..] == rest
  {
    Onward(orig, at, name, [QUOTE] + rest);
    OneOn(orig, at + |name|, QUOTE, rest);
  }

  lemma {:induction false} ScanOfText(orig: Str, i: nat, text: Str, tail: Str, isReal: bool) returns (n: nat, next: nat)
    requires i < |orig| && orig[i..] == text + tail && tail != []
    requires ScanNumber(text + tail) == Scanned(|text|, isReal)
    ensures ScanNumber(orig[i..]) == Scanned(n, isReal) && next == i + n < |orig|
    ensures Cut(orig, i, n) == text && orig[next..] == tail
  {
    Onward(orig, i, text, tail);
    n, next := |text|, i + |text|;
  }

  function NameTaken(s: State, n: nat, next: nat): State
    requires InRange(s) && s.listC >= 0
  {
    s.(i := next, list := s.list[s.listC := Level(s.i + 1, n, s.list[s.listC].index)])
  }

  lemma {:induction false} LevelNamed(s: State, j: Job, n: nat, next: nat, name: Str)
    requires InRange(s) && GoodJob(j) && s.listC == j.level + 1 && SameLevels(s, j) && Cut(s.orig, s.i + 1, n) == name
    ensures SameLevels(NameTaken(s, n, next), j) && NameIs(s.orig, NameTaken(s, n, next).list[s.listC], name)
  {
    assert NameTaken(s, n, next).list[..s.listC] == s.list[..s.listC];
  }

  lemma {:induction false} FacesName(ph: Phase, tail: Str)
    requires GoodPhase(ph) && FrontOf(ph) == QUOTE && FlagsOf(ph).name
    ensures ph.w == [] && ph.Name? && GoodMember(ph.ms.m)
    ensures Behind(ph, tail) == [QUOTE] + (ph.ms.m.name + ([QUOTE] + (ph.ms.m.w1 + ColonAhead(ph.ms, tail))))
  {
    NoSpace(ph);
    assert GoodMembers(ph.ms);
  }

  // Behind the name the parser waits for the colon.
  lemma {:induction false} NameRead(s: State, f: Flags, ph: Phase, j: Job, r: State)
    requires Sits(s, f, ph, j) && ph.Name? && InRange(r) && r == s.(i := r.i, list := r.list)
    requires White(ph.ms.m.w1) && r.orig[r.i..] == ph.ms.m.w1 + ColonAhead(ph.ms, j.tail)
    requires SameLevels(r, j) && NameIs(r.orig, r.list[r.listC], ph.ms.m.name)
    ensures Sits(r, FlagsOf(Colon(ph.ms.m.w1, ph.ms)), Colon(ph.ms.m.w1, ph.ms), j)
  {
  }

  /** A name goes to the level of its member. */
  lemma {:induction false} AtName(s: State, f: Flags, ph: Phase, j: Job, body: Str) returns (n: nat, next: nat)
    requires Sits(s, f, ph, j) && s.orig[s.i] == QUOTE && f.name && body == s.orig[s.i + 1..]
    ensures ph.Name? && 0 <= s.listC
    ensures n == ScanString(body) && next == s.i + n + 2 < |s.orig| && s.orig[s.i + n + 1] == QUOTE
    ensures Sits(NameTaken(s, n, next), FlagsOf(Colon(ph.ms.m.w1, ph.ms)), Colon(ph.ms.m.w1, ph.ms), j)
  {
    Meets(s, f, ph, j);
    FacesName(ph, j.tail);
    n, next := ScanName(s.orig, s.i, ph.ms.m.name, ph.ms.m.w1 + ColonAhead(ph.ms, j.tail), body);
    LevelNamed(s, j, n, next, ph.ms.m.name);
    NameRead(s, f, ph, j, NameTaken(s, n, next));
  }

  /** The state after a leaf: n bytes of text from a place on, and where to go on. */
  function AfterLeaf(s: State, kind: Kind, at: nat, n: nat, next: nat): State
    requires InRange(s) && 0 <= s.listC
  {
    s.(i := next, listC := s.listC - 1,
       out := s.out + [Leaf(PathOf(s.orig, s.list[..s.listC]), kind, Cut(s.orig, at, n))])
  }

  lemma {:induction false} LeafDone(s: State, f: Flags, ph: Phase, j: Job, kind: Kind, text: Str,
                                    at: nat, n: nat, next: nat)
    requires Sits(s, f, ph, j) && ph.Start? && next < |s.orig|
    requires Leaves(ph.v, j.path) == [Leaf(j.path, kind, text)] && Cut(s.orig, at, n) == text
    requires s.orig[next..] == j.tail
    ensures s.listC >= 0 && Done(AfterLeaf(s, kind, at, n, next), j)
  {
  }

  lemma {:induction false} AtText(s: State, f: Flags, ph: Phase, j: Job, body: Str) returns (n: nat, next: nat)
    requires Sits(s, f, ph, j) && s.orig[s.i] == QUOTE && !f.name && body == s.orig[s.i + 1..]
    ensures s.listC >= 0 && j.v.Text?
    ensures && n == ScanString(body)
            && next == s.i + n + 2 < |s.orig| && s.orig[s.i + n + 1] == QUOTE
            && Done(AfterLeaf(s, StringKind, s.i + 1, n, next), j)
  {
    Meets(s, f, ph, j);
    NoSpace(ph);
    var t := ph.v.s;
    n, next := ScanName(s.orig, s.i, t, j.tail, body);
    LeafDone(s, f, ph, j, StringKind, t, s.i + 1, n, next);
  }

  lemma {:induction false} FacesNumber(ph: Phase)
    requires GoodPhase(ph) && StartsNumber(FrontOf(ph))
    ensures ph.w == [] && ph.Start? && ph.v.Num?
  {
    NoSpace(ph);
  }

  lemma {:induction false} MeetsNumber(s: State, f: Flags, ph: Phase, j: Job)
    requires Sits(s, f, ph, j) && StartsNumber(s.orig[s.i])
    ensures ph.w == [] && ph.Start? && ph.v.Num?
  {
    Meets(s, f, ph, j);
    FacesNumber(ph);
  }

  lemma {:induction false} AtNumber(s: State, f: Flags, ph: Phase, j: Job, body: Str)
    returns (n: nat, isReal: bool, next: nat)
    requires Sits(s, f, ph, j) && StartsNumber(s.orig[s.i]) && body == s.orig[s.i..]
    ensures ph.Start? && j.v.Num?
    ensures s.listC >= 0 && ScanNumber(body) == Scanned(n, isReal) && next == s.i + n < |s.orig|
    ensures Done(AfterLeaf(s, if isReal then RealKind else NumberKind, s.i, n, next), j)
  {
    MeetsNumber(s, f, ph, j);
    var x := ph.v.n;
    var text := PrintNumber(x);
    ScanPrinted(text + j.tail, x, j.tail);
    n, next := ScanOfText(s.orig, s.i, text, j.tail, NumberKindOf(x) == RealKind);
    isReal := NumberKindOf(x) == RealKind;
    LeafDone(s, f, ph, j, NumberKindOf(x), text, s.i, n, next);
  }

  /** The words true, false and null: their text and kind, by their first letter. */
  function Word(c: Octet): Str { if c == 116 then TRUE_TEXT else if c == 102 then FALSE_TEXT else NULL_TEXT }

  function WordKind(c: Octet): Kind { if c == 110 then NullKind else BoolKind }

  lemma {:induction false} FacesWord(ph: Phase, c: Octet, tail: Str)
    requires GoodPhase(ph) && FrontOf(ph) == c && (c == 116 || c == 102 || c == 110)
    ensures ph.w == [] && ph.Start? && (ph.v.Bool? || ph.v.Null?)
    ensures Behind(ph, tail) == Word(c) + tail
  {
    NoSpace(ph);
  }

  // A word is one leaf, whose text is the word.
  lemma {:induction false} WordLeaf(v: Value, c: Octet, path: seq<Step>)
    requires Good(v) && (v.Bool? || v.Null?) && Opening(v) == c
    ensures Leaves(v, path) == [Leaf(path, WordKind(c), Word(c))]
  {
  }

  lemma {:induction false} AtWord(s: State, f: Flags, ph: Phase, j: Job, c: Octet, n: nat, next: nat)
    requires Sits(s, f, ph, j) && s.orig[s.i] == c && (c == 116 || c == 102 || c == 110)
    requires n == |Word(c)| && next == s.i + n
    ensures next < |s.orig| && s.orig[s.i..next] == Word(c) && s.listC >= 0
    ensures ph.Start? && (j.v.Bool? || j.v.Null?)
    ensures Done(AfterLeaf(s, WordKind(c), s.i, n, next), j)
  {
    Meets(s, f, ph, j);
    FacesWord(ph, c, j.tail);
    Onward(s.orig, s.i, Word(c), j.tail);
    WordLeaf(ph.v, c, j.path);
    LeafDone(s, f, ph, j, WordKind(c), Word(c), s.i, n, next);
  }
}
