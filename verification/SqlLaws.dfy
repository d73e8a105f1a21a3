/** What the functions of SqlText mean, told without them: trimming, escaping, counting and replacing, and when a
    text is built at all. */
module SqlLaws {
  import opened KeyOrder
  import opened Octets
  import opened Sequences
  import opened SqlText

  // ---- Trimming ----

  /** One of the six characters of white space in C */
  predicate Blank(c: Byte) { 9 <= c <= 13 || c == 32 }

  predicate AllBlank(s: Str) { forall i :: 0 <= i < |s| ==> Blank(s[i]) }

  lemma {:induction false} TrimRightIs(s: Str) returns (r: Str)
    ensures s == TrimRight(s) + r && AllBlank(r)
    ensures TrimRight(s) == [] || !Blank(TrimRight(s)[|TrimRight(s)| - 1])
    decreases |s|
  {
    if s != [] && IsSpace(s[|s| - 1]) {
      r := TrimRightIs(s[..|s| - 1]);
      r := r + [s[|s| - 1]];
    } else {
      r := [];
    }
  }

  lemma {:induction false} TrimLeftIs(s: Str) returns (l: Str)
    ensures s == l + TrimLeft(s) && AllBlank(l)
    ensures TrimLeft(s) == [] || !Blank(TrimLeft(s)[0])
    decreases |s|
  {
    if s != [] && IsSpace(s[0]) {
      l := TrimLeftIs(s[1..]);
      l := [s[0]] + l;
    } else {
      l := [];
    }
  }

  /** Trimming takes away white space on both sides, and all of it. */
  lemma {:induction false} TrimIs(s: Str) returns (l: Str, r: Str)
    ensures s == l + Trim(s) + r && AllBlank(l) && AllBlank(r)
    ensures Trim(s) == [] || (!Blank(Trim(s)[0]) && !Blank(Trim(s)[|Trim(s)| - 1]))
  {
    r := TrimRightIs(s);
    var t := TrimRight(s);
    l := TrimLeftIs(t);
    if Trim(s) != [] { assert t[|t| - 1] == Trim(s)[|Trim(s)| - 1]; }
  }

  // ---- Escaping ----

  /** How a literal of SQLite is read: two single quotes stand for one, and so do two backslashes; a single one
      of them is no part of it. */
  function Literal(s: Str): (r: Read)
    decreases |s|
  {
    if s == [] then Stands([])
    else if s[0] == 39 || s[0] == 92 then
      if |s| >= 2 && s[1] == s[0] then Before(s[0], Literal(s[2..])) else Breaks
    else Before(s[0], Literal(s[1..]))
  }

  datatype Read = Stands(s: Str) | Breaks

  function Before(c: Byte, r: Read): Read { if r.Stands? then Stands([c] + r.s) else Breaks }

  /** The escaped value is read as the value, and no quote of it ends the literal. */
  lemma {:induction false} EscapeReads(s: Str)
    ensures Literal(Escape(s)) == Stands(s)
    decreases |s|
  {
    if s != [] {
      EscapeReads(s[1..]);
      var e: Str := if s[0] == 92 || s[0] == 39 then [s[0], s[0]] else [s[0]];
      assert Escape(s) == e + Escape(s[1..]);
      assert Escape(s)[|e|..] == Escape(s[1..]);
      assert [s[0]] + s[1..] == s;
    }
  }

  // ---- Values ----

  /** Each argument that is not NULL gives one value, in order. */
  lemma {:induction false} ValuesOf(a: seq<Arg>, b: seq<Arg>, s: Str)
    ensures Values(a + b) == Values(a) + Values(b)
    ensures Values([Null]) == [] && Values([Arg.Arg(s)]) == [Trim(Escape(s))]
    decreases |b|
  {
    assert [Arg.Arg(s)][..0] == [] && [Arg.Null][..0] == [];
    if b == [] {
      assert a + b == a;
    } else {
      var init := b[..|b| - 1];
      assert (a + b)[..|a + b| - 1] == a + init;
      ValuesOf(a, init, s);
    }
  }

  /** In a woven text the value k stands behind the part k and in front of the part k + 1. */
  lemma {:induction false} WeaveAt(parts: seq<Str>, vals: seq<Str>, k: nat)
    requires |parts| == |vals| + 1 && k < |vals|
    ensures Weave(parts, vals) == Weave(parts[..k + 1], vals[..k]) + vals[k] + Weave(parts[k + 1..], vals[k + 1..])
    ensures Weave([parts[0]], []) == parts[0]
    decreases k
  {
    if k > 0 {
      WeaveAt(parts[1..], vals[1..], k - 1);
      assert parts[..k + 1][1..] == parts[1..][..k] && vals[..k][1..] == vals[1..][..k - 1];
      assert parts[1..][k..] == parts[k + 1..] && vals[1..][k..] == vals[k + 1..];
    }
  }

  // ---- Replacing and counting ----

  function Joined(parts: seq<Str>, t: Str): Str
    requires parts != []
  {
    if |parts| == 1 then parts[0] else parts[0] + t + Joined(parts[1..], t)
  }

  // The text f occurs in s nowhere before i.
  ghost predicate NotBefore(s: Str, f: Str, i: int) {
    forall k: nat :: k < i ==> !OccursAt(s, f, k)
  }

  // The part ends where f first occurs.
  ghost predicate EndsBefore(part: Str, f: Str) { NotBefore(part + f, f, |part|) }

  /** The parts between the occurrences of f, the leftmost ones, none overlapping another */
  ghost predicate LeftmostParts(parts: seq<Str>, f: Str) {
    && parts != []
    && (forall k: nat :: k + 1 < |parts| ==> EndsBefore(parts[k], f))
    && NotBefore(parts[|parts| - 1], f, |parts[|parts| - 1]|)
  }

  lemma {:induction false} OccursIn(s: Str, n: nat, f: Str, k: nat)
    requires n <= |s| && OccursAt(s[..n], f, k)
    ensures OccursAt(s, f, k)
  {
    assert s[..n][k..k + |f|] == s[k..k + |f|];
  }

  lemma {:induction false} FirstIsFirst(s: Str, f: Str)
    requires f != []
    ensures var i := IndexOf(s, f); NotBefore(s, f, if i < 0 then |s| else i)
    ensures var i := IndexOf(s, f); i >= 0 ==> s == s[..i] + f + s[i + |f|..] && EndsBefore(s[..i], f)
  {
    var i := IndexOf(s, f);
    forall k: nat | OccursAt(s, f, k) ensures 0 <= i <= k {
      IndexIsFirst(s, f, k);
    }
    if i >= 0 {
      assert s[..i] + f == s[..i + |f|];
      forall k: nat | k < i && OccursAt(s[..i] + f, f, k) ensures OccursAt(s, f, k) {
        OccursIn(s, i + |f|, f, k);
      }
    }
  }

  /** Replacing puts the new text in place of the leftmost occurrences, counting counts them. */
  lemma {:induction false} ReplaceAllIs(s: Str, f: Str, t: Str) returns (parts: seq<Str>)
    requires f != []
    ensures LeftmostParts(parts, f) && s == Joined(parts, f)
    ensures ReplaceAll(s, f, t) == Joined(parts, t) && Count(s, f) == |parts| - 1
    decreases |s|
  {
    var i := IndexOf(s, f);
    FirstIsFirst(s, f);
    if i < 0 {
      parts := [s];
    } else {
      var more := ReplaceAllIs(s[i + |f|..], f, t);
      parts := [s[..i]] + more;
      assert parts[1..] == more;
      forall k: nat | k + 1 < |parts| ensures EndsBefore(parts[k], f) {
        if k > 0 { assert parts[k] == more[k - 1]; }
      }
    }
  }

  /** A single byte is counted wherever it is. */
  lemma {:induction false} CountBytes(s: Str, b: Byte)
    ensures Count(s, [b]) == multiset(s)[b]
    decreases |s|
  {
    if s != [] {
      FirstFurther(s, b);
      CountBytes(s[1..], b);
      assert s == [s[0]] + s[1..];
      if s[0] != b { CountFurther(s, b); }
    }
  }

  lemma {:induction false} CountFurther(s: Str, b: Byte)
    requires s != [] && s[0] != b
    ensures Count(s, [b]) == Count(s[1..], [b])
  {
    FirstFurther(s, b);
    var r := IndexOf(s[1..], [b]);
    if r >= 0 { assert s[r + 2..] == s[1..][r + 1..]; }
  }

  // ---- Quoted placeholders ----

  /** Each placeholder, between two parts, has a single quote in front of it and one behind it, and no two
      placeholders share a quote. */
  predicate AllQuoted(parts: seq<Str>) {
    forall k: nat :: k + 1 < |parts| ==> Quotes(parts, k)
  }

  predicate Quotes(parts: seq<Str>, k: nat)
    requires k + 1 < |parts|
  {
    var a, b := parts[k], parts[k + 1];
    a != [] && a[|a| - 1] == 39 && b != [] && b[0] == 39 && (k > 0 ==> |a| >= 2)
  }

  lemma {:induction false} OccursBehind(s: Str, f: Str, d: nat, k: nat)
    requires d <= |s|
    ensures OccursAt(s, f, d + k) <==> OccursAt(s[d..], f, k)
  {
    if d + k + |f| <= |s| { assert s[d..][k..k + |f|] == s[d + k..d + k + |f|]; }
  }

  lemma {:induction false} IndexBehind(s: Str, f: Str, d: nat)
    requires f != [] && d <= |s| && NotBefore(s, f, d)
    ensures IndexOf(s, f) == if IndexOf(s[d..], f) < 0 then -1 else d + IndexOf(s[d..], f)
  {
    var i, j := IndexOf(s, f), IndexOf(s[d..], f);
    if i >= 0 {
      OccursBehind(s, f, d, i - d);
      IndexIsFirst(s[d..], f, i - d);
    }
    if j >= 0 {
      OccursBehind(s, f, d, j);
      IndexIsFirst(s, f, d + j);
    }
  }

  lemma {:induction false} DropTwice(s: Str, d: nat, k: nat)
    requires d + k <= |s|
    ensures s[d..][k..] == s[d + k..]
  {
  }

  lemma {:induction false} SameCount(s: Str, u: Str, f: Str, i: int, j: int)
    requires f != [] && i == IndexOf(s, f) && j == IndexOf(u, f) && (i < 0 <==> j < 0)
    requires i >= 0 ==> s[i + |f|..] == u[j + |f|..]
    ensures Count(s, f) == Count(u, f)
  {
  }

  lemma {:induction false} CountBehind(s: Str, f: Str, d: nat)
    requires f != [] && d <= |s| && NotBefore(s, f, d)
    ensures Count(s, f) == Count(s[d..], f)
  {
    IndexBehind(s, f, d);
    var u := s[d..];
    var i, j := IndexOf(s, f), IndexOf(u, f);
    if j >= 0 { DropTwice(s, d, j + |f|); }
    SameCount(s, u, f, i, j);
  }

  // A quoted placeholder is one of the placeholders.
  lemma {:induction false} QuotedAt(s: Str, q: nat)
    requires OccursAt(s, QUOTED_PLACE, q)
    ensures OccursAt(s, PLACE, q + 1) && s[q] == 39 && s[q + 3] == 39
  {
    assert s[q..q + 4][1..3] == s[q + 1..q + 3];
    assert s[q] == s[q..q + 4][0] && s[q + 3] == s[q..q + 4][3];
  }

  lemma {:induction false} PlaceAt(s: Str, i: nat)
    requires OccursAt(s, PLACE, i)
    ensures s[i] == 37 && s[i + 1] == 115
  {
    assert s[i] == s[i..i + 2][0] && s[i + 1] == s[i..i + 2][1];
  }

  predicate QuotedHere(s: Str, i: int) {
    1 <= i && i + 2 < |s| && s[i - 1] == 39 && s[i + 2] == 39
  }

  lemma {:induction false} NotQuotedBefore(s: Str, i: nat, q: nat)
    requires i == IndexOf(s, PLACE) && OccursAt(s, QUOTED_PLACE, q)
    ensures q >= i + 2 || (q + 1 == i && QuotedHere(s, i))
  {
    PlaceAt(s, i);
    QuotedAt(s, q);
    IndexIsFirst(s, PLACE, q + 1);
  }

  lemma {:induction false} QuotedHereIs(s: Str, i: nat)
    requires QuotedHere(s, i) && s[i] == 37 && s[i + 1] == 115
    requires forall q: nat | OccursAt(s, QUOTED_PLACE, q) :: q >= i - 1
    ensures IndexOf(s, QUOTED_PLACE) == i - 1
  {
    assert s[i - 1..i + 3] == [39, 37, 115, 39];
    IndexIsFirst(s, QUOTED_PLACE, i - 1);
  }

  // Where the first placeholder is quoted, so is the first quoted one; otherwise it is none.
  lemma {:induction false} FirstQuoted(s: Str)
    requires IndexOf(s, PLACE) >= 0
    ensures var i := IndexOf(s, PLACE);
            if QuotedHere(s, i) then Count(s, QUOTED_PLACE) == 1 + Count(s[i + 3..], QUOTED_PLACE)
            else Count(s, QUOTED_PLACE) == Count(s[i + 2..], QUOTED_PLACE)
  {
    var i := IndexOf(s, PLACE);
    PlaceAt(s, i);
    forall q: nat | OccursAt(s, QUOTED_PLACE, q) ensures q >= i + 2 || (q + 1 == i && QuotedHere(s, i)) {
      NotQuotedBefore(s, i, q);
    }
    if QuotedHere(s, i) {
      QuotedHereIs(s, i);
    } else {
      CountBehind(s, QUOTED_PLACE, i + 2);
    }
  }

  // A quote in front of a text belongs to its first part.
  lemma {:induction false} QuoteInFront(x: Str)
    ensures Split([39] + x) == [[39] + Split(x)[0]] + Split(x)[1..]
    ensures Count([39] + x, PLACE) == Count(x, PLACE)
  {
    var s: Str := [39] + x;
    assert s[1..] == x;
    assert NotBefore(s, PLACE, 1) by {
      if OccursAt(s, PLACE, 0) { PlaceAt(s, 0); }
    }
    IndexBehind(s, PLACE, 1);
    CountBehind(s, PLACE, 1);
    var j := IndexOf(x, PLACE);
    if j >= 0 {
      assert s[..j + 1] == [39] + x[..j] && s[j + 3..] == x[j + 2..];
    }
  }

  lemma {:induction false} QuotedParts(a: Str, p: seq<Str>, ps: seq<Str>)
    requires p != [] && |ps| == |p| + 1 && ps[0] == a && ps[1] == [39] + p[0]
    requires forall k :: 2 <= k < |ps| ==> ps[k] == p[k - 1]
    ensures AllQuoted(ps) <==> a != [] && a[|a| - 1] == 39 && AllQuoted(p)
  {
    if AllQuoted(ps) {
      assert Quotes(ps, 0);
      forall k: nat | k + 1 < |p| ensures Quotes(p, k) {
        assert Quotes(ps, k + 1);
        LastBehind(p[0]);
      }
    }
    if a != [] && a[|a| - 1] == 39 && AllQuoted(p) {
      forall k: nat | k + 1 < |ps| ensures Quotes(ps, k) {
        if k > 0 { assert Quotes(p, k - 1); }
        LastBehind(p[0]);
      }
    }
  }

  lemma {:induction false} LastBehind(a: Str)
    ensures a != [] ==> ([39] + a)[|a|] == a[|a| - 1]
  {
  }

  lemma {:induction false} NoneQuoted(format: Str)
    requires IndexOf(format, PLACE) < 0
    ensures IndexOf(format, QUOTED_PLACE) < 0
  {
    var q := IndexOf(format, QUOTED_PLACE);
    if q >= 0 {
      QuotedAt(format, q);
      IndexIsFirst(format, PLACE, q + 1);
    }
  }

  // The parts behind a quoted placeholder
  lemma {:induction false} PartsBehind(format: Str, i: nat, x: Str)
    requires i == IndexOf(format, PLACE) && QuotedHere(format, i) && x == format[i + 3..]
    ensures Count(format, PLACE) == 1 + Count(x, PLACE)
    ensures AllQuoted(Split(format)) <==> AllQuoted(Split(x))
  {
    assert format[i + 2..] == [39] + x;
    QuoteInFront(x);
    QuotedParts(format[..i], Split(x), Split(format));
  }

  /** As many quoted placeholders as placeholders means that all of them are quoted. */
  lemma {:induction false} QuotedExactly(format: Str)
    ensures Count(format, QUOTED_PLACE) <= Count(format, PLACE)
    ensures Count(format, QUOTED_PLACE) == Count(format, PLACE) <==> AllQuoted(Split(format))
    decreases |format|
  {
    var i := IndexOf(format, PLACE);
    if i < 0 {
      NoneQuoted(format);
    } else {
      FirstQuoted(format);
      if QuotedHere(format, i) {
        QuotedExactly(format[i + 3..]);
        PartsBehind(format, i, format[i + 3..]);
      } else {
        QuotedExactly(format[i + 2..]);
        NotAllQuoted(format, i);
      }
    }
  }

  lemma {:induction false} FrontOfSplit(s: Str)
    ensures Split(s)[0] <= s
  {
  }

  lemma {:induction false} NotAllQuoted(format: Str, i: int)
    requires i == IndexOf(format, PLACE) >= 0 && !QuotedHere(format, i)
    ensures !AllQuoted(Split(format))
  {
    var ps := Split(format);
    var rest := format[i + 2..];
    FrontOfSplit(rest);
    assert ps == [format[..i]] + Split(rest);
    assert !Quotes(ps, 0);
  }

  // ---- When a text is built ----

  /** A text is built exactly if the single quotes of the format are even in number, each placeholder is quoted
      and there are as many values as placeholders; the first of these that fails is the error. */
  lemma {:induction false} BuildExactly(format: Str, args: seq<Arg>)
    ensures var b := Build(format, args); var n := |Values(args)|;
            var even := multiset(format)[39] % 2 == 0; var parts := Split(format);
            && (b == Bad(OddQuotes) <==> !even)
            && (b == Bad(Unquoted) <==> even && !AllQuoted(parts))
            && (b == Bad(TooMany) <==> even && AllQuoted(parts) && n > |parts| - 1)
            && (b == Bad(TooFew) <==> even && AllQuoted(parts) && n < |parts| - 1)
            && (b.Sql? <==> even && AllQuoted(parts) && n == |parts| - 1)
  {
    CountBytes(format, 39);
    QuotedExactly(format);
    SplitCount(format);
  }
}
