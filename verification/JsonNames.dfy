/** The names of a document's leaves, read back: from a name the way to the leaf, and by that way the leaf's value. */
module JsonNames {
  import opened Utf8
  import opened JsonDoc
  import opened Octets
  import opened Sequences
  import opened Wrappers

  // ---- Decimal numerals ----

  /** The number a numeral stands for, its highest digit first, when those before it stand for acc. */
  function ReadNumeral(acc: int, s: Str): int
    decreases |s|
  {
    if s == [] then acc else ReadNumeral(acc * 10 + (s[0] as int - 48), s[1..])
  }

  /** A numeral: digits, the first one no zero unless it is the only one. */
  predicate IsNumeral(s: Str) {
    s != [] && (forall k :: 0 <= k < |s| ==> 48 <= s[k] <= 57) && (s[0] == 48 ==> |s| == 1)
  }

  lemma {:induction false} ReadOn(acc: int, s: Str, d: Octet)
    ensures ReadNumeral(acc, s + [d]) == ReadNumeral(acc, s) * 10 + (d as int - 48)
    decreases |s|
  {
    if s == [] {
      assert (s + [d])[1..] == [];
    } else {
      assert (s + [d])[1..] == s[1..] + [d];
      ReadOn(acc * 10 + (s[0] as int - 48), s[1..], d);
    }
  }

  /** The digits written for a number are its numeral. */
  lemma {:induction false} DecimalIs(n: nat)
    ensures IsNumeral(Decimal(n)) && ReadNumeral(0, Decimal(n)) == n && (Decimal(n)[0] == 48 <==> n == 0)
  {
    if n < 10 {
      assert [48 + n][1..] == [];
    } else {
      DecimalIs(n / 10);
      ReadOn(0, Decimal(n / 10), 48 + n % 10);
    }
  }

  // ---- Names ----

  // How far a quoted text goes, behind its opening quote
  function Quoted(v: Str): (n: nat)
    ensures n <= |v|
    decreases |v|
  {
    if v == [] || v[0] == 34 then 0
    else if v[0] == 92 && |v| >= 2 then 2 + Quoted(v[2..])
    else 1 + Quoted(v[1..])
  }

  function Until(v: Str, c: Octet): (n: nat)
    ensures n <= |v|
  {
    if v == [] || v[0] == c then 0 else 1 + Until(v[1..], c)
  }

  /** The steps of a name: quoted texts, each perhaps with a number in brackets, with dots between them. */
  function ReadSteps(v: Str): seq<Step>
    decreases |v|
  {
    if v == [] || v[0] != 34 || Quoted(v[1..]) == |v| - 1 then []
    else
      var n := Quoted(v[1..]);
      var name, rest := v[1..][..n], v[n + 2..];
      if rest != [] && rest[0] == 91 && Until(rest[1..], 93) < |rest| - 1 then
        var m := Until(rest[1..], 93);
        [Step(name, ReadNumeral(0, rest[1..][..m]))] + ReadBehindDot(rest[m + 2..])
      else [Step(name, -1)] + ReadBehindDot(rest)
  }

  function ReadBehindDot(v: Str): seq<Step>
    decreases |v|
  {
    if v != [] && v[0] == 46 then ReadSteps(v[1..]) else []
  }

  // A step of a document: the text of a name, and a place in an array or -1
  predicate GoodStep(s: Step) { Raw(s.name) && s.index >= -1 }

  predicate GoodPath(path: seq<Step>) { forall k :: 0 <= k < |path| ==> GoodStep(path[k]) }

  lemma {:induction false} QuotedRaw(t: Str, tail: Str)
    requires Raw(t)
    ensures Quoted(t + ([34] + tail)) == |t|
    decreases |t|
  {
    var v := t + ([34] + tail);
    if t == [] {
      assert v == [34] + tail;
    } else if t[0] == BACKSLASH {
      assert v[2..] == t[2..] + ([34] + tail);
      QuotedRaw(t[2..], tail);
    } else {
      assert v[1..] == t[1..] + ([34] + tail);
      QuotedRaw(t[1..], tail);
    }
  }

  lemma {:induction false} UntilBracket(t: Str, tail: Str)
    requires forall k :: 0 <= k < |t| ==> t[k] != 93
    ensures Until(t + ([93] + tail), 93) == |t|
    decreases |t|
  {
    var v := t + ([93] + tail);
    if t == [] {
      assert v == [93] + tail;
    } else {
      assert v[1..] == t[1..] + ([93] + tail);
      UntilBracket(t[1..], tail);
    }
  }

  lemma {:induction false} NameApart(v: Str, name: Str, rest: Str)
    requires Raw(name) && v == [34] + (name + ([34] + rest))
    ensures Quoted(v[1..]) == |name| < |v| - 1 && v[1..][..|name|] == name && v[|name| + 2..] == rest
  {
    assert v[1..] == name + ([34] + rest);
    QuotedRaw(name, rest);
  }

  lemma {:induction false} BracketApart(v: Str, d: Str, rest: Str)
    requires v == [91] + (d + ([93] + rest)) && forall k :: 0 <= k < |d| ==> d[k] != 93
    ensures Until(v[1..], 93) == |d| < |v| - 1 && v[1..][..|d|] == d && v[|d| + 2..] == rest
  {
    assert v[1..] == d + ([93] + rest);
    UntilBracket(d, rest);
  }

  lemma {:induction false} StepParts(s: Step, tail: Str)
    ensures StepName(s) + tail ==
            [34] + (s.name + ([34] + if s.index >= 0 then [91] + (Decimal(s.index) + ([93] + tail)) else tail))
  {
  }

  lemma {:induction false} PlainRead(v: Str, name: Str, rest: Str)
    requires Raw(name) && v == [34] + (name + ([34] + rest)) && (rest == [] || rest[0] != 91)
    ensures ReadSteps(v) == [Step(name, -1)] + ReadBehindDot(rest)
  {
    NameApart(v, name, rest);
  }

  lemma {:induction false} PlaceRead(v: Str, name: Str, rest: Str, d: Str, tail: Str)
    requires Raw(name) && v == [34] + (name + ([34] + rest)) && rest == [91] + (d + ([93] + tail))
    requires forall k :: 0 <= k < |d| ==> d[k] != 93
    ensures ReadSteps(v) == [Step(name, ReadNumeral(0, d))] + ReadBehindDot(tail)
  {
    NameApart(v, name, rest);
    BracketApart(rest, d, tail);
  }

  // A step is read, whatever follows it that is no bracket.
  lemma {:induction false} StepBack(s: Step, tail: Str)
    requires GoodStep(s) && (tail == [] || tail[0] == 46)
    ensures ReadSteps(StepName(s) + tail) == [s] + ReadBehindDot(tail)
  {
    StepParts(s, tail);
    if s.index >= 0 {
      var d := Decimal(s.index);
      DecimalIs(s.index);
      PlaceRead(StepName(s) + tail, s.name, [91] + (d + ([93] + tail)), d, tail);
    } else {
      PlainRead(StepName(s) + tail, s.name, tail);
    }
  }

  lemma {:induction false} JoinedFront(s: Step, rest: seq<Step>)
    requires rest != []
    ensures JoinedSteps([s] + rest) == StepName(s) + ([46] + JoinedSteps(rest))
    decreases |rest|
  {
    var path, init, last := [s] + rest, rest[..|rest| - 1], rest[|rest| - 1];
    assert path[..|path| - 1] == [s] + init && path[|path| - 1] == last;
    if init == [] {
      assert rest == [last] && [s] + init == [s];
    } else {
      JoinedFront(s, init);
      assert JoinedSteps(rest) == JoinedSteps(init) + [DOT] + StepName(last);
      assert StepName(s) + ([46] + JoinedSteps(init)) + [DOT] + StepName(last)
             == StepName(s) + ([46] + (JoinedSteps(init) + [DOT] + StepName(last)));
    }
  }

  lemma {:induction false} StepsBack(path: seq<Step>)
    requires GoodPath(path) && path != []
    ensures ReadSteps(JoinedSteps(path)) == path
    decreases |path|
  {
    var s, rest := path[0], path[1..];
    if rest == [] {
      assert path == [s] && StepName(s) + [] == StepName(s);
      StepBack(s, []);
    } else {
      assert path == [s] + rest;
      JoinedFront(s, rest);
      StepsBack(rest);
      var tail := [46] + JoinedSteps(rest);
      assert tail[1..] == JoinedSteps(rest);
      StepBack(s, tail);
    }
  }

  /** From the name of a leaf below the root its way is read back. */
  lemma {:induction false} NameBack(path: seq<Step>)
    requires GoodPath(path) && path != []
    ensures ReadSteps(NormalName(path)) == path
  {
    StepsBack(path);
  }

  /** So different ways have different names, above all different places in an array. */
  lemma {:induction false} NamesDiffer(p: seq<Step>, q: seq<Step>)
    requires GoodPath(p) && GoodPath(q) && p != [] && q != [] && p != q
    ensures NormalName(p) != NormalName(q)
  {
    NameBack(p);
    NameBack(q);
  }

  // ---- Where the leaves are ----

  function MembersOf(ms: Members): (s: seq<Member>)
    ensures s != []
  {
    [ms.m] + if ms.MoreMembers? then MembersOf(ms.rest) else []
  }

  function ValuesOf(es: Elements): (s: seq<Value>)
    ensures s != []
  {
    [es.e.value] + if es.MoreElements? then ValuesOf(es.rest) else []
  }

  /** A way leads from a value to another: each step to a member of that name, and from there, if it has a place,
      to the element of the array at that place, the first one being at 0. */
  ghost predicate Leads(v: Value, path: seq<Step>, x: Value)
    decreases |path|
  {
    if path == [] then x == v
    else v.Object? && exists i :: 0 <= i < |MembersOf(v.ms)| && StepsTo(MembersOf(v.ms)[i], path, x)
  }

  ghost predicate StepsTo(m: Member, path: seq<Step>, x: Value)
    requires path != []
    decreases |path|, 0
  {
    && m.name == path[0].name
    && if path[0].index < 0 then path[0].index == -1 && !m.value.Array? && Leads(m.value, path[1..], x)
       else m.value.Array? && path[0].index < |ValuesOf(m.value.es)|
            && Leads(ValuesOf(m.value.es)[path[0].index], path[1..], x)
  }

  predicate IsScalar(x: Value) { !x.Object? && !x.Array? }

  /** The leaf that a scalar at the end of a way is. */
  function LeafOf(path: seq<Step>, x: Value): Leaf
    requires IsScalar(x)
  {
    match x
    case Text(s) => Leaf(path, StringKind, s)
    case Num(n) => Leaf(path, if n.frac.None? && n.exp.None? then NumberKind else RealKind, PrintNumber(n))
    case Bool(b) => Leaf(path, BoolKind, if b then [116, 114, 117, 101] else [102, 97, 108, 115, 101])
    case Null => Leaf(path, NullKind, [110, 117, 108, 108])
  }

  lemma {:induction false} AtLast(p: seq<Step>, name: Str, k: int, q: seq<Step>)
    ensures AtIndex(p + [Step(name, -1)], k) == p + [Step(name, k)]
    ensures p + [Step(name, k)] + q == p + ([Step(name, k)] + q)
    ensures ([Step(name, k)] + q)[1..] == q
  {
  }

  lemma {:induction false} LeafLeads(v: Value, p: seq<Step>, k: nat) returns (q: seq<Step>, x: Value)
    requires Good(v) && !v.Array? && k < |Leaves(v, p)|
    ensures IsScalar(x) && Leads(v, q, x) && Leaves(v, p)[k] == LeafOf(p + q, x)
    decreases v
  {
    if v.Object? {
      var i;
      i, q, x := MemberLeads(v.ms, p, k);
    } else {
      q, x := [], v;
      assert p + [] == p;
    }
  }

  lemma {:induction false} MemberLeads(ms: Members, p: seq<Step>, k: nat)
    returns (i: nat, q: seq<Step>, x: Value)
    requires GoodMembers(ms) && k < |MembersLeaves(ms, p)|
    ensures i < |MembersOf(ms)| && q != [] && StepsTo(MembersOf(ms)[i], q, x)
    ensures IsScalar(x) && MembersLeaves(ms, p)[k] == LeafOf(p + q, x)
    decreases ms, 0
  {
    assert GoodMember(ms.m);
    var mine := |Leaves(ms.m.value, p + [Step(ms.m.name, -1)])|;
    if k < mine {
      i := 0;
      q, x := ValueLeads(ms.m, p, k);
    } else {
      i, q, x := MemberLeads(ms.rest, p, k - mine);
      i := i + 1;
    }
  }

  lemma {:induction false} ValueLeads(m: Member, p: seq<Step>, k: nat) returns (q: seq<Step>, x: Value)
    requires GoodMember(m) && k < |Leaves(m.value, p + [Step(m.name, -1)])|
    ensures q != [] && StepsTo(m, q, x)
    ensures IsScalar(x) && Leaves(m.value, p + [Step(m.name, -1)])[k] == LeafOf(p + q, x)
    decreases m, 0
  {
    var path := p + [Step(m.name, -1)];
    var more;
    if m.value.Array? {
      var j, at;
      j, at, more, x := ElementLeads(m.value.es, path, 0, k);
      q := [Step(m.name, j)] + more;
      AtLast(p, m.name, j, more);
    } else {
      more, x := LeafLeads(m.value, path, k);
      q := [Step(m.name, -1)] + more;
      AtLast(p, m.name, -1, more);
    }
  }

  // A leaf of the elements is one of the first element's or one of the others'.
  lemma {:induction false} LeafAmong(es: Elements, path: seq<Step>, base: nat, k: nat)
    requires k < |ElementsLeaves(es, path, base)|
    ensures var first := Leaves(es.e.value, AtIndex(path, base));
            var all := ElementsLeaves(es, path, base);
            if k < |first| then all[k] == first[k]
            else es.MoreElements?
                 && var rest := ElementsLeaves(es.rest, path, base + 1);
                    k - |first| < |rest| && all[k] == rest[k - |first|]
  {
  }

  lemma {:induction false} NextValue(es: Elements, j: nat)
    requires es.MoreElements? && j < |ValuesOf(es.rest)|
    ensures j + 1 < |ValuesOf(es)| && ValuesOf(es)[j + 1] == ValuesOf(es.rest)[j]
  {
  }

  lemma {:induction false} ElementLeads(es: Elements, path: seq<Step>, base: nat, k: nat)
    returns (j: nat, at: nat, q: seq<Step>, x: Value)
    requires GoodElements(es) && k < |ElementsLeaves(es, path, base)|
    ensures j < |ValuesOf(es)| && at == base + j && Leads(ValuesOf(es)[j], q, x)
    ensures IsScalar(x) && ElementsLeaves(es, path, base)[k] == LeafOf(AtIndex(path, at) + q, x)
    decreases es, 0
  {
    assert GoodElement(es.e);
    var first := Leaves(es.e.value, AtIndex(path, base));
    LeafAmong(es, path, base, k);
    if k < |first| {
      j, at := 0, base;
      q, x := LeafLeads(es.e.value, AtIndex(path, base), k);
    } else {
      j, at, q, x := ElementLeads(es.rest, path, base + 1, k - |first|);
      NextValue(es, j);
      j := j + 1;
    }
  }

  lemma {:induction false} LeafFound(v: Value, p: seq<Step>, q: seq<Step>, x: Value)
    requires Good(v) && !v.Array? && Leads(v, q, x) && IsScalar(x)
    ensures LeafOf(p + q, x) in Leaves(v, p)
    decreases v
  {
    if q == [] {
      assert p + [] == p;
    } else {
      var i :| 0 <= i < |MembersOf(v.ms)| && StepsTo(MembersOf(v.ms)[i], q, x);
      MemberFound(v.ms, p, i, q, x);
    }
  }

  lemma {:induction false} MemberFound(ms: Members, p: seq<Step>, i: nat, q: seq<Step>, x: Value)
    requires GoodMembers(ms) && i < |MembersOf(ms)| && q != [] && StepsTo(MembersOf(ms)[i], q, x) && IsScalar(x)
    ensures LeafOf(p + q, x) in MembersLeaves(ms, p)
    decreases ms, 0
  {
    assert GoodMember(ms.m);
    if i > 0 { MemberFound(ms.rest, p, i - 1, q, x); } else { ValueFound(ms.m, p, q, x); }
  }

  lemma {:induction false} ValueFound(m: Member, p: seq<Step>, q: seq<Step>, x: Value)
    requires GoodMember(m) && q != [] && StepsTo(m, q, x) && IsScalar(x)
    ensures LeafOf(p + q, x) in Leaves(m.value, p + [Step(m.name, -1)])
    decreases m, 0
  {
    var path := p + [Step(m.name, -1)];
    AtLast(p, m.name, q[0].index, q[1..]);
    assert q == [Step(m.name, q[0].index)] + q[1..];
    if q[0].index < 0 {
      LeafFound(m.value, path, q[1..], x);
    } else {
      ElementFound(m.value.es, path, 0, q[0].index, q[0].index, q[1..], x);
    }
  }

  lemma {:induction false} ElementFound(es: Elements, path: seq<Step>, base: nat, j: nat, at: nat,
                                        q: seq<Step>, x: Value)
    requires GoodElements(es) && j < |ValuesOf(es)| && at == base + j
    requires Leads(ValuesOf(es)[j], q, x) && IsScalar(x)
    ensures LeafOf(AtIndex(path, at) + q, x) in ElementsLeaves(es, path, base)
    decreases es, 0
  {
    assert GoodElement(es.e);
    if j > 0 {
      assert ValuesOf(es)[j] == ValuesOf(es.rest)[j - 1];
      ElementFound(es.rest, path, base + 1, j - 1, at, q, x);
    } else {
      LeafFound(es.e.value, AtIndex(path, base), q, x);
    }
  }

  /** The leaves of a document are its scalars, each with the way that leads to it. */
  lemma {:induction false} LeavesAre(v: Value, leaf: Leaf)
    requires Good(v) && !v.Array?
    ensures leaf in Leaves(v, []) <==> exists x: Value :: IsLeaf(v, leaf, x)
  {
    if leaf in Leaves(v, []) {
      var k :| 0 <= k < |Leaves(v, [])| && Leaves(v, [])[k] == leaf;
      var q, x := LeafLeads(v, [], k);
      assert [] + q == q && IsLeaf(v, leaf, x);
    }
    if x: Value :| IsLeaf(v, leaf, x) {
      LeafFound(v, [], leaf.path, x);
      assert [] + leaf.path == leaf.path;
    }
  }

  ghost predicate IsLeaf(v: Value, leaf: Leaf, x: Value) {
    IsScalar(x) && Leads(v, leaf.path, x) && leaf == LeafOf(leaf.path, x)
  }

  // ---- An example ----

  lemma {:induction false} ExampleArray() returns (v: Value)
    ensures v.Array? && Good(v) && Print(v) == [91, 49, 44, 32, 116, 114, 117, 101, 93]
  {
    var one := Num(Number([], [49], None, None));
    var two := OneElement(Element([32], Bool(true), []));
    assert Print(one) == [49];
    assert PrintElements(two) == [32, 116, 114, 117, 101, 93];
    v := Array(MoreElements(Element([], one, []), two));
  }

  lemma {:induction false} ExampleMembers() returns (first: Member, last: Members)
    ensures GoodMember(first) && PrintMember(first) == [34, 97, 34, 58, 91, 49, 44, 32, 116, 114, 117, 101, 93]
    ensures GoodMembers(last) && PrintMembers(last) == [34, 98, 34, 32, 58, 32, 34, 120, 34, 125]
  {
    var places := ExampleArray();
    first := Member([], [97], [], [], places, []);
    last := OneMember(Member([], [98], [32], [32], Text([120]), []));
    assert PrintMember(last.m) == [34, 98, 34, 32, 58, 32, 34, 120, 34];
  }

  /** {"a":[1, true],"b" : "x"} is the text of a value. */
  lemma {:induction false} Example() returns (v: Value)
    ensures Good(v) && v.Object?
    ensures Print(v) == [123, 34, 97, 34, 58, 91, 49, 44, 32, 116, 114, 117, 101, 93, 44,
                         34, 98, 34, 32, 58, 32, 34, 120, 34, 125]
  {
    var first, last := ExampleMembers();
    v := Object(MoreMembers(first, last));
  }
}
