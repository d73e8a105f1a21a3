/** JSON documents, how they are written, and the leaves a parser is to find in them. */
module JsonDoc {
  import opened Utf8
  import opened Wrappers
  import opened Octets
  import opened Sequences

  type Str = seq<Octet>

  const COMMA: Octet := 44
  const COLON: Octet := 58
  const OPEN_OBJECT: Octet := 123
  const CLOSE_OBJECT: Octet := 125
  const OPEN_ARRAY: Octet := 91
  const CLOSE_ARRAY: Octet := 93
  const DOT: Octet := 46
  const TRUE_TEXT: Str := [116, 114, 117, 101]
  const FALSE_TEXT: Str := [102, 97, 108, 115, 101]
  const NULL_TEXT: Str := [110, 117, 108, 108]

  predicate IsWhite(c: Octet) { c == 32 || c == 9 || c == 10 || c == 13 }

  predicate White(s: Str) { forall k :: 0 <= k < |s| ==> IsWhite(s[k]) }

  predicate IsDigit(c: Octet) { 48 <= c <= 57 }

  predicate Digits(s: Str) { s != [] && forall k :: 0 <= k < |s| ==> IsDigit(s[k]) }

  // ---- Documents ----

  // A number: sign, integer part, fraction, exponent mark with its sign, and exponent
  datatype Number = Number(sign: Str, whole: Str, frac: Option<Str>, exp: Option<Exponent>)
  datatype Exponent = Exponent(mark: Octet, sign: Str, digits: Str)

  datatype Value =
    | Text(s: Str)                  // what stands between the quotes, escapes included
    | Num(n: Number)
    | Bool(b: bool)
    | Null
    | Object(ms: Members)
    | Array(es: Elements)

  // White space goes before the name, before and after the colon, and after the value.
  datatype Member = Member(w0: Str, name: Str, w1: Str, w2: Str, value: Value, w3: Str)
  datatype Members = OneMember(m: Member) | MoreMembers(m: Member, rest: Members)
  datatype Element = Element(w0: Str, value: Value, w1: Str)
  datatype Elements = OneElement(e: Element) | MoreElements(e: Element, rest: Elements)

  /** The text of a string: no zero, no bare quote, and every backslash is followed by something. */
  predicate Raw(t: Str)
    decreases |t|
  {
    t == []
    || (t[0] != 0 && t[0] != QUOTE && t[0] != BACKSLASH && Raw(t[1..]))
    || (|t| >= 2 && t[0] == BACKSLASH && t[1] != 0 && Raw(t[2..]))
  }

  predicate GoodNumber(n: Number) {
    && (n.sign == [] || n.sign == [45])
    && Digits(n.whole) && (n.whole[0] == 48 ==> |n.whole| == 1)
    && (n.frac.Some? ==> Digits(n.frac.value))
    && (n.exp.Some? ==> GoodExponent(n.exp.value))
  }

  predicate GoodExponent(e: Exponent) {
    (e.mark == 101 || e.mark == 69) && (e.sign == [] || e.sign == [43] || e.sign == [45]) && Digits(e.digits)
  }

  /** Documents whose arrays have no arrays as elements. */
  predicate Good(v: Value) {
    match v
    case Text(s) => Raw(s)
    case Num(n) => GoodNumber(n)
    case Bool(_) => true
    case Null => true
    case Object(ms) => GoodMembers(ms)
    case Array(es) => GoodElements(es)
  }

  predicate GoodMember(m: Member) {
    White(m.w0) && Raw(m.name) && White(m.w1) && White(m.w2) && White(m.w3) && Good(m.value)
  }

  predicate GoodMembers(ms: Members) {
    GoodMember(ms.m) && (ms.MoreMembers? ==> GoodMembers(ms.rest))
  }

  predicate GoodElement(e: Element) {
    White(e.w0) && White(e.w1) && Good(e.value) && !e.value.Array?
  }

  predicate GoodElements(es: Elements) {
    GoodElement(es.e) && (es.MoreElements? ==> GoodElements(es.rest))
  }

  // ---- Writing them ----

  function ExponentText(e: Option<Exponent>): Str {
    if e.Some? then [e.value.mark] + e.value.sign + e.value.digits else []
  }

  function PrintNumber(n: Number): Str {
    n.sign + n.whole + (if n.frac.Some? then [DOT] + n.frac.value else [])
    + ExponentText(n.exp)
  }

  function Print(v: Value): Str
    decreases v, 0
  {
    match v
    case Text(s) => [QUOTE] + s + [QUOTE]
    case Num(n) => PrintNumber(n)
    case Bool(b) => if b then TRUE_TEXT else FALSE_TEXT
    case Null => NULL_TEXT
    case Object(ms) => [OPEN_OBJECT] + PrintMembers(ms)
    case Array(es) => [OPEN_ARRAY] + PrintElements(es)
  }

  function PrintMember(m: Member): Str
    decreases m, 1
  {
    m.w0 + [QUOTE] + m.name + [QUOTE] + m.w1 + [COLON] + m.w2 + Print(m.value) + m.w3
  }

  // The members of an object and its end
  function PrintMembers(ms: Members): Str
    decreases ms, 1
  {
    PrintMember(ms.m) + if ms.MoreMembers? then [COMMA] + PrintMembers(ms.rest) else [CLOSE_OBJECT]
  }

  function PrintElements(es: Elements): Str
    decreases es, 1
  {
    es.e.w0 + Print(es.e.value) + es.e.w1
    + if es.MoreElements? then [COMMA] + PrintElements(es.rest) else [CLOSE_ARRAY]
  }

  // ---- The same texts, cut where a parser stops ----

  /** A value and what comes behind it. */
  function Ahead(v: Value, tail: Str): Str
    decreases v, 0
  {
    match v
    case Text(s) => [QUOTE] + (s + ([QUOTE] + tail))
    case Num(n) => PrintNumber(n) + tail
    case Bool(b) => (if b then TRUE_TEXT else FALSE_TEXT) + tail
    case Null => NULL_TEXT + tail
    case Object(ms) => [OPEN_OBJECT] + (ms.m.w0 + NameAhead(ms, tail))
    case Array(es) => [OPEN_ARRAY] + ElementAhead(es, tail)
  }

  // From the quote before the name of the first member
  function NameAhead(ms: Members, tail: Str): Str
    decreases ms, 3
  {
    [QUOTE] + (ms.m.name + ([QUOTE] + (ms.m.w1 + ColonAhead(ms, tail))))
  }

  function ColonAhead(ms: Members, tail: Str): Str
    decreases ms, 2
  {
    [COLON] + (ms.m.w2 + Ahead(ms.m.value, MembersTail(ms, tail)))
  }

  // What follows the value of the first member
  function MembersTail(ms: Members, tail: Str): Str
    decreases ms, 1
  {
    ms.m.w3 + MoreMembersAhead(ms, tail)
  }

  function MoreMembersAhead(ms: Members, tail: Str): Str
    decreases ms, 0
  {
    if ms.MoreMembers? then [COMMA] + (ms.rest.m.w0 + NameAhead(ms.rest, tail)) else [CLOSE_OBJECT] + tail
  }

  function ElementAhead(es: Elements, tail: Str): Str
    decreases es, 2
  {
    es.e.w0 + Ahead(es.e.value, ElementsTail(es, tail))
  }

  function ElementsTail(es: Elements, tail: Str): Str
    decreases es, 1
  {
    es.e.w1 + MoreElementsAhead(es, tail)
  }

  function MoreElementsAhead(es: Elements, tail: Str): Str
    decreases es, 0
  {
    if es.MoreElements? then [COMMA] + ElementAhead(es.rest, tail) else [CLOSE_ARRAY] + tail
  }

  /** Cut or not, the text is the same. */
  lemma {:induction false} PrintAhead(v: Value, tail: Str)
    ensures Ahead(v, tail) == Print(v) + tail
    decreases v
  {
    match v
    case Text(s) =>
    case Num(n) =>
    case Bool(b) =>
    case Null =>
    case Object(ms) => MembersPrintAhead(ms, tail);
      Regroup([OPEN_OBJECT], PrintMembers(ms), tail);
    case Array(es) => ElementsPrintAhead(es, tail);
      Regroup([OPEN_ARRAY], PrintElements(es), tail);
  }

  lemma {:induction false} MemberRegroup(m: Member, value: Str, more: Str, tail: Str)
    ensures m.w0 + [QUOTE] + m.name + [QUOTE] + m.w1 + [COLON] + m.w2 + value + m.w3 + more + tail
            == m.w0 + ([QUOTE] + (m.name + ([QUOTE] + (m.w1 + ([COLON] + (m.w2 + (value + (m.w3 + (more + tail)))))))))
  {
  }

  lemma {:induction false} MembersPrintAhead(ms: Members, tail: Str)
    ensures ms.m.w0 + NameAhead(ms, tail) == PrintMembers(ms) + tail
    decreases ms
  {
    var m := ms.m;
    var more := if ms.MoreMembers? then [COMMA] + PrintMembers(ms.rest) else [CLOSE_OBJECT];
    assert MoreMembersAhead(ms, tail) == more + tail by {
      if ms.MoreMembers? {
        MembersPrintAhead(ms.rest, tail);
        Regroup([COMMA], PrintMembers(ms.rest), tail);
      }
    }
    PrintAhead(m.value, MembersTail(ms, tail));
    MemberRegroup(m, Print(m.value), more, tail);
  }

  lemma {:induction false} ElementsPrintAhead(es: Elements, tail: Str)
    ensures ElementAhead(es, tail) == PrintElements(es) + tail
    decreases es
  {
    var e := es.e;
    var more := if es.MoreElements? then [COMMA] + PrintElements(es.rest) else [CLOSE_ARRAY];
    assert MoreElementsAhead(es, tail) == more + tail by {
      if es.MoreElements? {
        ElementsPrintAhead(es.rest, tail);
        Regroup([COMMA], PrintElements(es.rest), tail);
      }
    }
    PrintAhead(e.value, ElementsTail(es, tail));
    assert e.w0 + Print(e.value) + e.w1 + more + tail == e.w0 + (Print(e.value) + (e.w1 + (more + tail)));
  }

  // ---- Their leaves ----

  /** One step of the way to a leaf: a name, and the place in the array under it, or -1. */
  datatype Step = Step(name: Str, index: int)

  datatype Kind = StringKind | NumberKind | RealKind | BoolKind | NullKind

  datatype Leaf = Leaf(path: seq<Step>, kind: Kind, text: Str)

  function NumberKindOf(n: Number): Kind {
    if n.frac.Some? || n.exp.Some? then RealKind else NumberKind
  }

  /** The leaves below a value reached by a path, in the order of the document. */
  function Leaves(v: Value, path: seq<Step>): seq<Leaf> {
    match v
    case Text(s) => [Leaf(path, StringKind, s)]
    case Num(n) => [Leaf(path, NumberKindOf(n), PrintNumber(n))]
    case Bool(b) => [Leaf(path, BoolKind, if b then TRUE_TEXT else FALSE_TEXT)]
    case Null => [Leaf(path, NullKind, NULL_TEXT)]
    case Object(ms) => MembersLeaves(ms, path)
    case Array(es) => ElementsLeaves(es, path, 0)
  }

  function MembersLeaves(ms: Members, path: seq<Step>): seq<Leaf> {
    Leaves(ms.m.value, path + [Step(ms.m.name, -1)])
    + if ms.MoreMembers? then MembersLeaves(ms.rest, path) else []
  }

  // The path to an element of the array that a path leads to
  function AtIndex(path: seq<Step>, k: int): seq<Step> {
    if path == [] then [] else path[|path| - 1 := path[|path| - 1].(index := k)]
  }

  function ElementsLeaves(es: Elements, path: seq<Step>, k: nat): seq<Leaf> {
    Leaves(es.e.value, AtIndex(path, k))
    + if es.MoreElements? then ElementsLeaves(es.rest, path, k + 1) else []
  }

  function MaxOf(a: nat, b: nat): nat { if a > b then a else b }

  /** How many calls deep a parser goes for a value. */
  function Depth(v: Value): nat {
    match v
    case Object(ms) => 1 + MembersDepth(ms)
    case Array(es) => 1 + ElementsDepth(es)
    case _ => 1
  }

  function MembersDepth(ms: Members): nat {
    if ms.MoreMembers? then MaxOf(Depth(ms.m.value), MembersDepth(ms.rest)) else Depth(ms.m.value)
  }

  function ElementsDepth(es: Elements): nat {
    if es.MoreElements? then MaxOf(Depth(es.e.value), ElementsDepth(es.rest)) else Depth(es.e.value)
  }

  /** Normalized names: "a"."b"[2]."c" */
  function Decimal(n: nat): Str {
    if n < 10 then [48 + n] else Decimal(n / 10) + [48 + n % 10]
  }

  function StepName(s: Step): Str {
    [QUOTE] + s.name + [QUOTE] + if s.index >= 0 then [OPEN_ARRAY] + Decimal(s.index) + [CLOSE_ARRAY] else []
  }

  function JoinedSteps(path: seq<Step>): Str {
    if path == [] then []
    else if |path| == 1 then StepName(path[0])
    else JoinedSteps(path[..|path| - 1]) + [DOT] + StepName(path[|path| - 1])
  }

  function NormalName(path: seq<Step>): Str {
    if path == [] then [QUOTE, QUOTE] else JoinedSteps(path)
  }

  // ---- Scanning strings and numbers ----

  /** Where the closing quote of a string is, counted from behind the opening one; the end if there is none. */
  function ScanString(v: Str): (n: nat)
    ensures n <= |v|
    decreases |v|
  {
    if v == [] || v[0] == 0 || v[0] == QUOTE then 0
    else if v[0] == BACKSLASH && ByteAt(v, 1) != 0 then 2 + ScanString(v[2..])
    else 1 + ScanString(v[1..])
  }

  lemma {:induction false} ScanRaw(t: Str, tail: Str)
    requires Raw(t) && tail != [] && tail[0] == QUOTE
    ensures ScanString(t + tail) == |t|
    decreases |t|
  {
    var v := t + tail;
    if t == [] {
      assert v == tail;
    } else if t[0] == BACKSLASH {
      assert v[2..] == t[2..] + tail && ByteAt(v, 1) == t[1];
      ScanRaw(t[2..], tail);
    } else {
      assert v[1..] == t[1..] + tail;
      ScanRaw(t[1..], tail);
    }
  }

  // How many digits stand at a place of a text
  function DigitsAt(v: Str, p: nat): (n: nat)
    ensures n > 0 <==> IsDigit(ByteAt(v, p))
    ensures p <= |v| ==> p + n <= |v|
    decreases |v| - p
  {
    if p < |v| && IsDigit(v[p]) then 1 + DigitsAt(v, p + 1) else 0
  }

  lemma {:induction false} RunAt(v: Str, p: nat, d: Str)
    requires p + |d| <= |v| && v[p..p + |d|] == d && (forall k :: 0 <= k < |d| ==> IsDigit(d[k]))
    requires !IsDigit(ByteAt(v, p + |d|))
    ensures DigitsAt(v, p) == |d|
    decreases |d|
  {
    if d != [] {
      assert v[p] == d[0];
      assert v[p + 1..p + |d|] == d[1..];
      RunAt(v, p + 1, d[1..]);
    }
  }

  // The fraction at a place of a text: its length, 0 if there is none, -1 if it is bad
  function FractionAt(v: Str, p: nat): (r: int)
    ensures r >= -1 && (p <= |v| ==> p + r <= |v|)
  {
    if ByteAt(v, p) != DOT then 0
    else if DigitsAt(v, p + 1) == 0 then -1
    else 1 + DigitsAt(v, p + 1)
  }

  function AfterSign(v: Str, p: nat): nat {
    if ByteAt(v, p) == 43 || ByteAt(v, p) == 45 then p + 1 else p
  }

  // The exponent at a place of a text: likewise
  function ExponentAt(v: Str, p: nat): (r: int)
    ensures r >= -1 && (p <= |v| ==> p + r <= |v|)
  {
    if ByteAt(v, p) != 101 && ByteAt(v, p) != 69 then 0
    else
      var k := AfterSign(v, p + 1);
      if DigitsAt(v, k) == 0 then -1 else k + DigitsAt(v, k) - p
  }

  datatype Scanned = Scanned(len: nat, isReal: bool) | BadNumber

  /** The number at the start of a text: its length, and whether it has a fraction or an exponent. */
  function ScanNumber(v: Str): Scanned {
    var dig := if ByteAt(v, 0) == 45 then 1 else 0;
    var n := DigitsAt(v, dig);
    if n == 0 || (ByteAt(v, dig) == 48 && n != 1) then BadNumber
    else
      var f := FractionAt(v, dig + n);
      if f < 0 then BadNumber
      else
        var e := ExponentAt(v, dig + n + f);
        if e < 0 then BadNumber else Scanned(dig + n + f + e, f > 0 || e > 0)
  }

  /** What may follow a value inside a document. */
  predicate Delimits(c: Octet) {
    IsWhite(c) || c == COMMA || c == CLOSE_OBJECT || c == CLOSE_ARRAY || c == 0
  }

  // The fraction of a number
  function FracText(n: Number): Str { if n.frac.Some? then [DOT] + n.frac.value else [] }

  lemma {:induction false} NumberParts(n: Number, tail: Str)
    ensures PrintNumber(n) + tail == n.sign + (n.whole + (FracText(n) + (ExponentText(n.exp) + tail)))
  {
  }

  predicate At(v: Str, p: nat, t: Str) { p + |t| <= |v| && v[p..p + |t|] == t }

  lemma {:induction false} Sides(v: Str, p: nat, a: Str, b: Str)
    requires p <= |v| && v[p..] == a + b
    ensures At(v, p, a) && v[p + |a|..] == b && (b != [] ==> ByteAt(v, p + |a|) == b[0])
  {
    assert (a + b)[..|a|] == a && (a + b)[|a|..] == b;
    assert v[p..][..|a|] == v[p..p + |a|];
    assert v[p..][|a|..] == v[p + |a|..];
  }

  lemma {:induction false} ScanFractionOf(v: Str, p: nat, n: Number, t: Str)
    requires GoodNumber(n) && p <= |v| && v[p..] == FracText(n) + t
    requires t != [] && !IsDigit(t[0]) && t[0] != DOT
    ensures FractionAt(v, p) == |FracText(n)| && !IsDigit(ByteAt(v, p))
  {
    Sides(v, p, FracText(n), t);
    if n.frac.Some? {
      var d := n.frac.value;
      assert v[p] == DOT by { assert v[p..][0] == FracText(n)[0]; }
      assert At(v, p + 1, d) by { assert v[p..p + |FracText(n)|][1..] == v[p + 1..p + 1 + |d|]; }
      RunAt(v, p + 1, d);
    }
  }

  // Where the parts of an exponent stand
  lemma {:induction false} ExponentLies(v: Str, p: nat, e: Exponent, tail: Str) returns (k: nat)
    requires p <= |v| && v[p..] == [e.mark] + e.sign + e.digits + tail
    ensures ByteAt(v, p) == e.mark && At(v, p + 1, e.sign) && k == p + 1 + |e.sign|
    ensures At(v, k, e.digits) && v[k + |e.digits|..] == tail
  {
    var rest := e.sign + (e.digits + tail);
    assert v[p..] == [e.mark] + rest;
    Sides(v, p, [e.mark], rest);
    assert v[p] == v[p..p + 1][0];
    Sides(v, p + 1, e.sign, e.digits + tail);
    k := p + 1 + |e.sign|;
    Sides(v, k, e.digits, tail);
  }

  lemma {:induction false} ScanExponentOf(v: Str, p: nat, x: Option<Exponent>, tail: Str)
    requires x.Some? ==> GoodExponent(x.value)
    requires p <= |v| && v[p..] == ExponentText(x) + tail && tail != [] && Delimits(tail[0])
    ensures ExponentAt(v, p) == |ExponentText(x)|
  {
    if x.Some? {
      var e := x.value;
      var k := ExponentLies(v, p, e, tail);
      assert AfterSign(v, p + 1) == k by {
        assert ByteAt(v, k) == e.digits[0];
        if e.sign != [] { assert v[p + 1] == e.sign[0]; }
      }
      assert ByteAt(v, k + |e.digits|) == tail[0];
      RunAt(v, k, e.digits);
    } else {
      assert v[p..] == tail;
      assert ByteAt(v, p) == v[p..][0];
    }
  }

  // Where three texts in a row stand
  lemma {:induction false} InARow(v: Str, a: Str, b: Str, c: Str, t: Str) returns (p: nat, q: nat, m: nat)
    requires v == a + (b + (c + t))
    ensures p == |a| && q == p + |b| && m == q + |c| <= |v|
    ensures At(v, 0, a) && At(v, p, b) && v[q..] == c + t && v[m..] == t
  {
    assert v[0..] == v;
    Sides(v, 0, a, b + (c + t));
    p := |a|;
    Sides(v, p, b, c + t);
    q := p + |b|;
    Sides(v, q, c, t);
    m := q + |c|;
  }

  // Where the parts of a number stand
  lemma {:induction false} NumberLies(v: Str, n: Number, tail: Str) returns (dig: nat, edig: nat, m: nat)
    requires v == PrintNumber(n) + tail && GoodNumber(n)
    ensures dig == |n.sign| && edig == dig + |n.whole| && m == edig + |FracText(n)| <= |v|
    ensures At(v, 0, n.sign) && At(v, dig, n.whole) && v[edig..] == FracText(n) + (ExponentText(n.exp) + tail)
    ensures v[m..] == ExponentText(n.exp) + tail && |PrintNumber(n)| == m + |ExponentText(n.exp)|
  {
    NumberParts(n, tail);
    dig, edig, m := InARow(v, n.sign, n.whole, FracText(n), ExponentText(n.exp) + tail);
  }

  lemma {:induction false} ExponentStarts(x: Option<Exponent>, tail: Str)
    requires x.Some? ==> GoodExponent(x.value)
    requires tail != [] && Delimits(tail[0])
    ensures ExponentText(x) + tail != []
    ensures !IsDigit((ExponentText(x) + tail)[0]) && (ExponentText(x) + tail)[0] != DOT
    ensures |ExponentText(x)| > 0 <==> x.Some?
  {
  }

  lemma {:induction false} ScanOfParts(v: Str, dig: nat, edig: nat, m: nat, e: nat)
    requires dig == (if ByteAt(v, 0) == 45 then 1 else 0) && dig < edig <= m
    requires DigitsAt(v, dig) == edig - dig && (ByteAt(v, dig) == 48 ==> edig == dig + 1)
    requires FractionAt(v, edig) == m - edig && ExponentAt(v, m) == e
    ensures ScanNumber(v) == Scanned(m + e, m > edig || e > 0)
  {
  }

  // The sign and the digits of a number's whole part
  lemma {:induction false} ScanWhole(v: Str, dig: nat, n: Number)
    requires GoodNumber(n) && At(v, 0, n.sign) && dig == |n.sign| && At(v, dig, n.whole)
    requires !IsDigit(ByteAt(v, dig + |n.whole|))
    ensures dig == (if ByteAt(v, 0) == 45 then 1 else 0) && DigitsAt(v, dig) == |n.whole|
    ensures ByteAt(v, dig) == 48 ==> |n.whole| == 1
  {
    RunAt(v, dig, n.whole);
    assert v[dig] == n.whole[0];
    assert n.sign != [] ==> v[0] == n.sign[0];
  }

  /** The scanner finds the end of a number wherever something follows that may follow a value. */
  lemma {:induction false} ScanPrinted(v: Str, n: Number, tail: Str)
    requires GoodNumber(n) && tail != [] && Delimits(tail[0]) && v == PrintNumber(n) + tail
    ensures ScanNumber(v) == Scanned(|PrintNumber(n)|, NumberKindOf(n) == RealKind)
  {
    var dig, edig, m := NumberLies(v, n, tail);
    ExponentStarts(n.exp, tail);
    ScanFractionOf(v, edig, n, ExponentText(n.exp) + tail);
    ScanExponentOf(v, m, n.exp, tail);
    ScanWhole(v, dig, n);
    ScanOfParts(v, dig, edig, m, |ExponentText(n.exp)|);
  }
}
