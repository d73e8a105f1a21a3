/** Building SQL text (db.c:1088-1202) as a function of the format and the arguments. */
module SqlText {
  import opened KeyOrder
  import opened Octets

  type Str = Key   // a C string

  const QUOTE: Str := [39]
  const BACKSLASH: Str := [92]
  const PLACE: Str := [37, 115]               // %s
  const QUOTED_PLACE: Str := [39, 37, 115, 39]  // '%s'

  // ---- Searching ----

  predicate OccursAt(s: seq<int>, f: seq<int>, i: nat) {
    i + |f| <= |s| && s[i..i + |f|] == f
  }

  /** strstr: where f first occurs in s, or -1. */
  function IndexOf(s: seq<int>, f: seq<int>): (r: int)
    requires f != []
    ensures -1 <= r
    ensures r >= 0 ==> OccursAt(s, f, r)
  {
    if |s| < |f| then -1
    else if s[..|f|] == f then 0
    else
      var r := IndexOf(s[1..], f);
      assert r >= 0 ==> s[r + 1..r + 1 + |f|] == s[1..][r..r + |f|];
      if r < 0 then -1 else r + 1
  }

  lemma {:induction false} IndexIsFirst(s: seq<int>, f: seq<int>, j: nat)
    requires f != [] && OccursAt(s, f, j)
    ensures 0 <= IndexOf(s, f) <= j
    decreases |s|
  {
    if s[..|f|] != f {
      assert s[0..|f|] == s[..|f|] && j > 0;
      assert s[1..][j - 1..j - 1 + |f|] == s[j..j + |f|];
      IndexIsFirst(s[1..], f, j - 1);
    }
  }

  /** vely_count_substring */
  function Count(s: Str, f: Str): nat
    requires f != []
  {
    var i := IndexOf(s, f);
    if i < 0 then 0 else 1 + Count(s[i + |f|..], f)
  }

  // ---- Replacing ----

  /** vely_replace_string with all: non-overlapping occurrences, from the left. */
  function ReplaceAll(s: Str, f: Str, t: Str): Str
    requires f != []
    decreases |s|
  {
    var i := IndexOf(s, f);
    if i < 0 then s else s[..i] + t + ReplaceAll(s[i + |f|..], f, t)
  }

  // Replacing by a longer text never makes a string shorter, by a shorter one never longer.
  lemma {:induction false} ReplaceAllGrows(s: Str, f: Str, t: Str)
    requires f != []
    ensures |f| <= |t| ==> |s| <= |ReplaceAll(s, f, t)|
    ensures |t| <= |f| ==> |ReplaceAll(s, f, t)| <= |s|
    decreases |s|
  {
    var i := IndexOf(s, f);
    if i >= 0 { ReplaceAllGrows(s[i + |f|..], f, t); }
  }

  function ReplaceFirst(s: Str, f: Str, t: Str): Str
    requires f != []
  {
    var i := IndexOf(s, f);
    if i < 0 then s else s[..i] + t + s[i + |f|..]
  }

  /** The placeholders of a format replaced one after another, each search starting behind the last value. */
  function Substitute(format: Str, vals: seq<Str>): Str
    decreases |vals|
  {
    var i := IndexOf(format, PLACE);
    if vals == [] || i < 0 then format
    else format[..i] + vals[0] + Substitute(format[i + 2..], vals[1..])
  }

  // ---- Simultaneous substitution ----

  /** The parts of a format between its placeholders. */
  function Split(format: Str): (ps: seq<Str>)
    ensures ps != []
    decreases |format|
  {
    var i := IndexOf(format, PLACE);
    if i < 0 then [format] else [format[..i]] + Split(format[i + 2..])
  }

  /** Parts and values put together in turn. */
  function Weave(parts: seq<Str>, vals: seq<Str>): Str
    requires |parts| == |vals| + 1
    decreases |vals|
  {
    if vals == [] then parts[0] else parts[0] + vals[0] + Weave(parts[1..], vals[1..])
  }

  lemma {:induction false} SplitCount(format: Str)
    ensures |Split(format)| == Count(format, PLACE) + 1
    decreases |format|
  {
    var i := IndexOf(format, PLACE);
    if i >= 0 { SplitCount(format[i + 2..]); }
  }

  lemma {:induction false} NoneBefore(format: Str)
    requires IndexOf(format, PLACE) >= 0
    ensures IndexOf(format[..IndexOf(format, PLACE)], PLACE) < 0
  {
    var i := IndexOf(format, PLACE);
    var j := IndexOf(format[..i], PLACE);
    if j >= 0 {
      assert format[..i][j..j + 2] == format[j..j + 2];
      IndexIsFirst(format, PLACE, j);
    }
  }

  /** The parts are what stands between the placeholders, and none of them has one. */
  lemma {:induction false} SplitMeans(format: Str)
    ensures |Split(format)| == Count(format, PLACE) + 1
    ensures Weave(Split(format), seq(Count(format, PLACE), _ => PLACE)) == format
    ensures forall k :: 0 <= k < |Split(format)| ==> IndexOf(Split(format)[k], PLACE) < 0
    decreases |format|
  {
    SplitCount(format);
    var i := IndexOf(format, PLACE);
    if i >= 0 {
      var rest := format[i + 2..];
      SplitMeans(rest);
      var n := Count(rest, PLACE);
      assert seq(n + 1, _ => PLACE)[1..] == seq(n, _ => PLACE);
      assert Split(format)[1..] == Split(rest);
      assert format == format[..i] + PLACE + rest;
      NoneBefore(format);
    }
  }

  /** With as many values as placeholders the result is the format with all placeholders replaced at once;
      the values themselves are never searched, whatever they contain. */
  lemma {:induction false} SubstituteIsSimultaneous(format: Str, vals: seq<Str>)
    requires |vals| == Count(format, PLACE)
    ensures |Split(format)| == |vals| + 1 && Substitute(format, vals) == Weave(Split(format), vals)
    decreases |vals|
  {
    SplitCount(format);
    var i := IndexOf(format, PLACE);
    if i >= 0 {
      SubstituteIsSimultaneous(format[i + 2..], vals[1..]);
      assert Split(format)[1..] == Split(format[i + 2..]);
    }
  }

  // ---- Escaping for SQLite ----

  /** One pass that doubles backslashes and single quotes. */
  function Escape(s: Str): Str {
    if s == [] then []
    else (if s[0] == 92 || s[0] == 39 then [s[0], s[0]] else [s[0]]) + Escape(s[1..])
  }

  // One pass that doubles one character.
  function Double(s: Str, b: Byte): Str {
    if s == [] then [] else (if s[0] == b then [b, b] else [s[0]]) + Double(s[1..], b)
  }

  // The first occurrence of one character, seen from one place further on.
  lemma {:induction false} FirstFurther(s: Str, b: Byte)
    requires s != []
    ensures s[0] == b ==> IndexOf(s, [b]) == 0
    ensures s[0] != b ==> var r := IndexOf(s[1..], [b]);
              IndexOf(s, [b]) == if r < 0 then -1 else r + 1
  {
    assert s[..1] == [s[0]];
  }

  lemma {:induction false} ReplaceFurther(s: Str, b: Byte)
    requires s != [] && s[0] != b
    ensures ReplaceAll(s, [b], [b, b]) == [s[0]] + ReplaceAll(s[1..], [b], [b, b])
  {
    FirstFurther(s, b);
    var r := IndexOf(s[1..], [b]);
    if r >= 0 {
      assert s[r + 1 + 1..] == s[1..][r + 1..];
      assert s[..r + 1] == [s[0]] + s[1..][..r];
    }
  }

  lemma {:induction false} ReplaceIsDouble(s: Str, b: Byte)
    ensures ReplaceAll(s, [b], [b, b]) == Double(s, b)
    decreases |s|
  {
    if s != [] {
      FirstFurther(s, b);
      ReplaceIsDouble(s[1..], b);
      if s[0] == b {
        assert s[..0] + [b, b] == [b, b];
      } else {
        ReplaceFurther(s, b);
      }
    }
  }

  lemma {:induction false} DoubleJoins(s: Str, t: Str, b: Byte)
    ensures Double(s + t, b) == Double(s, b) + Double(t, b)
    decreases |s|
  {
    if s == [] {
      assert s + t == t;
    } else {
      assert (s + t)[1..] == s[1..] + t;
      DoubleJoins(s[1..], t, b);
    }
  }

  // Doubling the one and then the other character is the one pass.
  lemma {:induction false} DoubleTwice(s: Str)
    ensures Double(Double(s, 92), 39) == Escape(s) && |Double(s, 92)| <= |Escape(s)| <= 2 * |s|
    decreases |s|
  {
    if s != [] {
      var head: Str := if s[0] == 92 then [92, 92] else [s[0]];
      DoubleTwice(s[1..]);
      DoubleJoins(head, Double(s[1..], 92), 39);
      DoubleHead(s[0], head);
    }
  }

  lemma {:induction false} DoubleHead(c: Byte, head: Str)
    requires head == if c == 92 then [92, 92] else [c]
    ensures Double(head, 39) == if c == 92 || c == 39 then [c, c] else [c]
  {
    if c == 92 {
      assert head[1..] == [92] && [92][1..] == [];
    } else {
      assert head[1..] == [];
    }
  }

  /** vely_lite_escape, which replaces backslashes in a first pass and quotes in a second one, is the one pass. */
  lemma {:induction false} TwoPassesAreOne(s: Str)
    ensures ReplaceAll(ReplaceAll(s, BACKSLASH, BACKSLASH + BACKSLASH), QUOTE, QUOTE + QUOTE) == Escape(s)
    ensures |ReplaceAll(s, BACKSLASH, BACKSLASH + BACKSLASH)| <= |Escape(s)| <= 2 * |s|
  {
    assert BACKSLASH + BACKSLASH == [92, 92] && QUOTE + QUOTE == [39, 39];
    ReplaceIsDouble(s, 92);
    ReplaceIsDouble(Double(s, 92), 39);
    DoubleTwice(s);
  }

  // ---- The whole construction ----

  function TrimRight(s: Str): (r: Str)
    ensures r <= s
  {
    if s != [] && IsSpace(s[|s| - 1]) then TrimRight(s[..|s| - 1]) else s
  }

  function TrimLeft(s: Str): (r: Str)
    ensures |r| <= |s|
  {
    if s != [] && IsSpace(s[0]) then TrimLeft(s[1..]) else s
  }

  function Trim(s: Str): Str { TrimLeft(TrimRight(s)) }

  datatype Arg = Null | Arg(s: Str)

  /** The values of the arguments that are not NULL, escaped and trimmed. */
  function Values(args: seq<Arg>): seq<Str> {
    if args == [] then []
    else Values(args[..|args| - 1]) + (if args[|args| - 1].Null? then [] else [Trim(Escape(args[|args| - 1].s))])
  }

  datatype SqlError = OddQuotes | Unquoted | TooMany | TooFew | TooLarge

  datatype Built = Sql(text: Str) | Bad(error: SqlError)

  function Build(format: Str, args: seq<Arg>): Built {
    var n := Count(format, PLACE);
    if Count(format, QUOTE) % 2 != 0 then Bad(OddQuotes)
    else if Count(format, QUOTED_PLACE) != n then Bad(Unquoted)
    else if |Values(args)| > n then Bad(TooMany)
    else if |Values(args)| < n then Bad(TooFew)
    else Sql(Substitute(format, Values(args)))
  }

  /** What is built is the format with all its placeholders replaced at once by the arguments' values. */
  lemma {:induction false} BuildIsSimultaneous(format: Str, args: seq<Arg>)
    requires Build(format, args).Sql?
    ensures |Split(format)| == |Values(args)| + 1
    ensures Build(format, args).text == Weave(Split(format), Values(args))
  {
    SubstituteIsSimultaneous(format, Values(args));
  }

  lemma {:induction false} EscapeJoins(s: Str, t: Str)
    ensures Escape(s + t) == Escape(s) + Escape(t)
    decreases |s|
  {
    if s == [] {
      assert s + t == t;
    } else {
      assert (s + t)[1..] == s[1..] + t;
      EscapeJoins(s[1..], t);
    }
  }

  lemma {:induction false} EscapeTrimRight(s: Str)
    ensures TrimRight(Escape(s)) == Escape(TrimRight(s))
    decreases |s|
  {
    if s != [] {
      var init, last := s[..|s| - 1], s[|s| - 1];
      assert s == init + [last];
      EscapeJoins(init, [last]);
      assert [last][1..] == [];
      var e := Escape([last]);
      assert Escape(s) == Escape(init) + e && Escape(s)[|Escape(s)| - 1] == last;
      if IsSpace(last) {
        assert e == [last] && Escape(s)[..|Escape(s)| - 1] == Escape(init);
        EscapeTrimRight(init);
      }
    }
  }

  lemma {:induction false} EscapeTrimLeft(s: Str)
    ensures TrimLeft(Escape(s)) == Escape(TrimLeft(s))
    decreases |s|
  {
    if s != [] {
      assert Escape(s)[0] == s[0];
      if IsSpace(s[0]) {
        assert Escape(s)[1..] == Escape(s[1..]);
        EscapeTrimLeft(s[1..]);
      }
    }
  }

  /** Trimming the escaped value, as the code does, is escaping the trimmed one. */
  lemma {:induction false} TrimEscaped(s: Str)
    ensures Trim(Escape(s)) == Escape(Trim(s))
  {
    EscapeTrimRight(s);
    EscapeTrimLeft(TrimRight(s));
  }
}
