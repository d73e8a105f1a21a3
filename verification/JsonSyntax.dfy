/** What the scanners and the flags of the JSON parser accept, and nothing else: quoted texts, numbers by section 6
    of RFC 7159, and the characters that may come next. */
module JsonSyntax {
  import opened Utf8
  import opened JsonDoc
  import opened JsonPhases
  import opened Octets
  import opened Sequences
  import opened Wrappers

  // ---- Quoted texts ----

  /** How many backslashes stand directly in front of a place. */
  function Backslashes(v: Str, k: nat): nat
    requires k <= |v|
  {
    if k == 0 || v[k - 1] != 92 then 0 else 1 + Backslashes(v, k - 1)
  }

  /** A double quote with an even number of backslashes in front */
  predicate BareQuote(v: Str, k: nat)
    requires k < |v|
  {
    v[k] == 34 && Backslashes(v, k) % 2 == 0
  }

  // An even number of backslashes in front of a place is as good as none.
  lemma {:induction false} BackslashesBehind(v: Str, d: nat, k: nat)
    requires d <= k <= |v| && Backslashes(v, d) % 2 == 0
    ensures Backslashes(v, k) % 2 == Backslashes(v[d..], k - d) % 2
    decreases k
  {
    if k > d {
      assert v[d..][k - d - 1] == v[k - 1];
      BackslashesBehind(v, d, k - 1);
    }
  }

  // The places of v from d on, seen from d
  lemma {:induction false} BareBehind(v: Str, d: nat, n: nat)
    requires d <= |v| && Backslashes(v, d) % 2 == 0 && n <= |v| - d
    ensures d + n < |v| ==> (BareQuote(v[d..], n) <==> BareQuote(v, d + n))
  {
    if d + n < |v| { BackslashesBehind(v, d, d + n); }
  }

  /** A text is scanned to its first bare quote, or to the zero that comes before it. */
  lemma {:induction false} ScanStringIs(v: Str)
    ensures var n := ScanString(v);
            && (n < |v| ==> v[n] == 0 || BareQuote(v, n))
            && forall k: nat :: k < n ==> v[k] != 0 && !BareQuote(v, k)
    decreases |v|
  {
    if v != [] && v[0] != 0 && v[0] != QUOTE {
      var d := if v[0] == BACKSLASH && ByteAt(v, 1) != 0 then 2 else 1;
      if d == 1 && v[0] == BACKSLASH {
        assert ScanString(v) == 1;
      } else {
        TokenOver(v, d);
        ScanStringIs(v[d..]);
        ScanFrom(v, d);
      }
    }
  }

  lemma {:induction false} TokenOver(v: Str, d: nat)
    requires v != [] && v[0] != 0 && v[0] != QUOTE
    requires d == if v[0] == BACKSLASH && ByteAt(v, 1) != 0 then 2 else 1
    requires v[0] == BACKSLASH ==> d == 2
    ensures d <= |v| && Backslashes(v, d) % 2 == 0 && ScanString(v) == d + ScanString(v[d..])
    ensures forall k: nat :: k < d ==> v[k] != 0 && !BareQuote(v, k)
  {
    assert Backslashes(v, 0) == 0;
    assert Backslashes(v, 1) == if v[0] == 92 then 1 else 0;
  }

  lemma {:induction false} ScanFrom(v: Str, d: nat)
    requires d <= |v| && Backslashes(v, d) % 2 == 0 && ScanString(v) == d + ScanString(v[d..])
    requires forall k: nat :: k < d ==> v[k] != 0 && !BareQuote(v, k)
    requires var n := ScanString(v[d..]);
             && (n < |v[d..]| ==> v[d..][n] == 0 || BareQuote(v[d..], n))
             && forall k: nat :: k < n ==> v[d..][k] != 0 && !BareQuote(v[d..], k)
    ensures var n := ScanString(v);
            && (n < |v| ==> v[n] == 0 || BareQuote(v, n))
            && forall k: nat :: k < n ==> v[k] != 0 && !BareQuote(v, k)
  {
    var m := ScanString(v[d..]);
    BareBehind(v, d, m);
    forall k: nat | k < d + m ensures v[k] != 0 && !BareQuote(v, k) {
      if k >= d {
        assert v[d..][k - d] == v[k];
        BareBehind(v, d, k - d);
      }
    }
  }

  // ---- Numbers ----

  /** The number cannot be read any further at this character. */
  predicate Ended(n: Number, c: Octet) {
    && !(48 <= c <= 57)
    && (n.exp.None? ==> c != 101 && c != 69)
    && (n.exp.None? && n.frac.None? ==> c != 46)
  }

  predicate AllDigits(s: Str) { forall k :: 0 <= k < |s| ==> IsDigit(s[k]) }

  lemma {:induction false} RunIs(v: Str, p: nat)
    requires p <= |v|
    ensures var n := DigitsAt(v, p); AllDigits(v[p..p + n]) && !IsDigit(ByteAt(v, p + n))
    decreases |v| - p
  {
    if p < |v| && IsDigit(v[p]) {
      RunIs(v, p + 1);
      var n := DigitsAt(v, p + 1);
      assert v[p..p + n + 1] == [v[p]] + v[p + 1..p + 1 + n];
    }
  }

  lemma {:induction false} Assembled(v: Str, p: nat, q: nat, m: nat, end: nat, n: Number)
    requires p <= q <= m <= end <= |v|
    requires n.sign == v[..p] && n.whole == v[p..q] && FracText(n) == v[q..m] && ExponentText(n.exp) == v[m..end]
    ensures PrintNumber(n) == v[..end]
  {
    assert PrintNumber(n) == v[..p] + v[p..q] + v[q..m] + v[m..end];
  }

  lemma {:induction false} OneThen(v: Str, p: nat, k: nat, end: nat)
    requires p < k <= end <= |v|
    ensures v[p..end] == [v[p]] + v[p + 1..k] + v[k..end]
    ensures k == p + 2 ==> v[p + 1..k] == [v[p + 1]]
  {
  }

  lemma {:induction false} FractionIs(v: Str, p: nat) returns (x: Option<Str>)
    requires p <= |v| && FractionAt(v, p) >= 0
    ensures var e := p + FractionAt(v, p);
            && e <= |v| && (x.Some? ==> JsonDoc.Digits(x.value)) && (x.Some? <==> e > p)
            && v[p..e] == (if x.Some? then [46] + x.value else [])
            && (x.Some? ==> !IsDigit(ByteAt(v, e))) && (x.None? ==> ByteAt(v, p) != 46)
  {
    if ByteAt(v, p) != DOT {
      x := None;
    } else {
      RunIs(v, p + 1);
      var n := DigitsAt(v, p + 1);
      x := Some(v[p + 1..p + 1 + n]);
      assert v[p..p + 1 + n] == [v[p]] + v[p + 1..p + 1 + n];
    }
  }

  lemma {:induction false} ExponentIs(v: Str, p: nat) returns (x: Option<Exponent>)
    requires p <= |v| && ExponentAt(v, p) >= 0
    ensures var e := p + ExponentAt(v, p);
            && e <= |v| && (x.Some? ==> GoodExponent(x.value)) && (x.Some? <==> e > p)
            && v[p..e] == ExponentText(x)
            && (x.Some? ==> !IsDigit(ByteAt(v, e))) && (x.None? ==> ByteAt(v, p) != 101 && ByteAt(v, p) != 69)
  {
    if ByteAt(v, p) != 101 && ByteAt(v, p) != 69 {
      x := None;
    } else {
      var k := AfterSign(v, p + 1);
      RunIs(v, k);
      var n := DigitsAt(v, k);
      x := Some(Exponent(v[p], v[p + 1..k], v[k..k + n]));
      OneThen(v, p, k, k + n);
    }
  }

  // The sign and the whole part that a scanned number starts with
  lemma {:induction false} WholeIs(v: Str) returns (dig: nat, p: nat)
    requires ScanNumber(v).Scanned?
    ensures dig <= 1 && dig < p <= |v| && p == dig + DigitsAt(v, dig)
    ensures dig == (if ByteAt(v, 0) == 45 then 1 else 0) && (v[..dig] == [] || v[..dig] == [45])
    ensures JsonDoc.Digits(v[dig..p]) && (v[dig..p][0] == 48 ==> p == dig + 1) && !IsDigit(ByteAt(v, p))
  {
    dig := if ByteAt(v, 0) == 45 then 1 else 0;
    RunIs(v, dig);
    p := dig + DigitsAt(v, dig);
    assert v[dig..p][0] == v[dig];
    assert dig == 1 ==> v[..1] == [v[0]];
  }

  /** What is scanned is the longest number of the grammar that the text starts with. */
  lemma {:induction false} ScannedIs(v: Str) returns (n: Number)
    requires ScanNumber(v).Scanned?
    ensures GoodNumber(n) && |PrintNumber(n)| == ScanNumber(v).len <= |v|
    ensures PrintNumber(n) == v[..ScanNumber(v).len] && Ended(n, ByteAt(v, ScanNumber(v).len))
    ensures ScanNumber(v).isReal <==> n.frac.Some? || n.exp.Some?
  {
    var dig, p := WholeIs(v);
    var f := FractionIs(v, p);
    var q := p + FractionAt(v, p);
    var e := ExponentIs(v, q);
    var end := q + ExponentAt(v, q);
    n := Number(v[..dig], v[dig..p], f, e);
    Assembled(v, dig, p, q, end, n);
  }

  // The parts of a number at the start of a text
  lemma {:induction false} NumberStands(v: Str, n: Number) returns (p: nat, q: nat, m: nat)
    requires GoodNumber(n) && PrintNumber(n) <= v
    ensures p == |n.sign| && q == p + |n.whole| && m == q + |FracText(n)|
    ensures m + |ExponentText(n.exp)| == |PrintNumber(n)|
    ensures At(v, 0, n.sign) && At(v, p, n.whole) && At(v, q, FracText(n)) && At(v, m, ExponentText(n.exp))
  {
    var tail := v[|PrintNumber(n)|..];
    assert v == PrintNumber(n) + tail;
    NumberParts(n, tail);
    p, q, m := InARow(v, n.sign, n.whole, FracText(n), ExponentText(n.exp) + tail);
    Sides(v, q, FracText(n), ExponentText(n.exp) + tail);
    Sides(v, m, ExponentText(n.exp), tail);
  }

  lemma {:induction false} FractionScanned(v: Str, q: nat, n: Number)
    requires GoodNumber(n) && At(v, q, FracText(n))
    requires if n.frac.Some? then !IsDigit(ByteAt(v, q + |FracText(n)|)) else ByteAt(v, q) != 46
    ensures FractionAt(v, q) == |FracText(n)|
  {
    if n.frac.Some? {
      var d := n.frac.value;
      assert v[q] == v[q..q + |FracText(n)|][0] && v[q + 1..q + 1 + |d|] == v[q..q + |FracText(n)|][1..] == d;
      RunAt(v, q + 1, d);
    }
  }

  lemma {:induction false} ExponentScanned(v: Str, m: nat, x: Option<Exponent>)
    requires (x.Some? ==> GoodExponent(x.value)) && At(v, m, ExponentText(x))
    requires if x.Some? then !IsDigit(ByteAt(v, m + |ExponentText(x)|)) else ByteAt(v, m) != 101 && ByteAt(v, m) != 69
    ensures ExponentAt(v, m) == |ExponentText(x)|
  {
    if x.Some? {
      var e := x.value;
      var t := v[m..m + |ExponentText(x)|];
      var k := m + 1 + |e.sign|;
      assert v[m] == t[0] && v[m + 1] == t[1];
      assert v[k..k + |e.digits|] == t[1 + |e.sign|..] == e.digits && v[k] == e.digits[0];
      RunAt(v, k, e.digits);
    }
  }

  /** Every number of the grammar is scanned as a whole, wherever it ends. */
  lemma {:induction false} IsScanned(v: Str, n: Number)
    requires GoodNumber(n) && PrintNumber(n) <= v && Ended(n, ByteAt(v, |PrintNumber(n)|))
    ensures ScanNumber(v) == Scanned(|PrintNumber(n)|, n.frac.Some? || n.exp.Some?)
  {
    var p, q, m := NumberStands(v, n);
    PartsEnd(v, n, q, m);
    ScanWhole(v, p, n);
    FractionScanned(v, q, n);
    ExponentScanned(v, m, n.exp);
    ScanOfParts(v, p, q, m, |ExponentText(n.exp)|);
  }

  // What stands behind each part of a number
  lemma {:induction false} PartsEnd(v: Str, n: Number, q: nat, m: nat)
    requires GoodNumber(n) && m == q + |FracText(n)| && At(v, q, FracText(n)) && At(v, m, ExponentText(n.exp))
    requires Ended(n, ByteAt(v, m + |ExponentText(n.exp)|))
    ensures !IsDigit(ByteAt(v, q))
    ensures if n.frac.Some? then !IsDigit(ByteAt(v, m)) else ByteAt(v, q) != 46
    ensures if n.exp.Some? then !IsDigit(ByteAt(v, m + |ExponentText(n.exp)|))
            else ByteAt(v, m) != 101 && ByteAt(v, m) != 69
  {
    if n.frac.Some? { assert v[q] == v[q..m][0]; }
    if n.exp.Some? { assert v[m] == v[m..m + |ExponentText(n.exp)|][0]; }
  }

  // ---- The next character ----

  /** The characters after which the parser goes on at a phase. At the start of a value it is lax: closing
      brackets, colons and commas do not stop it there. */
  predicate Expected(ph: Phase, c: Octet) {
    || c == 32 || c == 9 || c == 10 || c == 13
    || match ph
       case Start(_, _) => c in [123, 125, 91, 93, 58, 44, 34, 45, 116, 102, 110] || 48 <= c <= 57
       case Name(_, _) => c == 34
       case Colon(_, _) => c == 58
       case AfterMember(_, _) => c == 44 || c == 125
       case AfterElement(_, _, _) => c == 44 || c == 93
  }

  /** What is missing, when another character of the syntax comes. */
  function Missing(ph: Phase): Trouble {
    match ph
    case Start(_, _) => NoTrouble
    case Name(_, _) => NameExpected
    case Colon(_, _) => ColonExpected
    case AfterMember(_, _) => CommaOrEndObject
    case AfterElement(_, _, _) => CommaOrEndArray
  }

  /** The flags of a phase let exactly the expected characters through, and name what is missing otherwise. */
  lemma {:induction false} ComplaintIs(ph: Phase, c: Octet)
    ensures Complaint(c, FlagsOf(ph)) == NoTrouble <==> Expected(ph, c)
    ensures Complaint(c, FlagsOf(ph)) == if Expected(ph, c) then NoTrouble
                                         else if Expected(Start([], Null), c) then Missing(ph)
                                         else Unrecognized
  {
  }
}
