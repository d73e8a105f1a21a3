/** The parser's scanners of json.c, and the buffer in which it puts a leaf's name together. */
module JsonScan {
  import opened Utf8
  import opened JsonDoc
  import opened JsonPhases
  import opened Octets

  // ---- Strings and numbers ----

  // A text that ends with a zero stops every scanner.
  predicate Ended(v: Str) { v != [] && v[|v| - 1] == 0 }

  // One turn of the string scanner
  lemma {:induction false} StringTurn(v: Str, k: nat)
    requires k < |v| && Ended(v) && v[k] != 0 && v[k] != QUOTE
    ensures k + 1 < |v|
    ensures var d := if v[k] == BACKSLASH && v[k + 1] != 0 then 2 else 1;
            k + d < |v| && ScanString(v[k..]) == d + ScanString(v[k + d..])
  {
    var u := v[k..];
    assert u[1..] == v[k + 1..];
    if k + 1 < |v| && v[k] == BACKSLASH && v[k + 1] != 0 {
      assert u[2..] == v[k + 2..];
    }
  }

  /** The scan of a string without decoding: how far its closing quote, or else the end of the text, is away. */
  method TextEnd(val: array<Octet>, at: nat) returns (n: nat)
    requires at < val.Length && Ended(val[..])
    ensures n == ScanString(val[at..]) && at + n < val.Length && (val[at + n] == 0 || val[at + n] == QUOTE)
  {
    ghost var v := val[..];
    var i := at;
    while val[i] != 0 && val[i] != QUOTE
      invariant at <= i < val.Length && at + ScanString(v[at..]) == i + ScanString(v[i..])
      decreases val.Length - i
    {
      StringTurn(v, i);
      if val[i] == BACKSLASH && val[i + 1] != 0 { i := i + 2; } else { i := i + 1; }
    }
    n := i - at;
    assert v[at..] == val[at..];
  }

  /** vely_json_num: where the number ends, and whether it has a fraction or an exponent. */
  method NumberAt(val: array<Octet>, at: nat) returns (r: Scanned)
    requires at < val.Length && Ended(val[..])
    ensures r == ScanNumber(val[at..])
    ensures r.Scanned? ==> r.len > 0 && at + r.len < val.Length && val[at] != 0
  {
    var dig := at;
    if val[dig] == 45 { dig := dig + 1; }
    var edig := SkipDigits(val, at, dig);
    if !IsDigit(val[dig]) { return BadNumber; }
    if val[dig] == 48 && edig != dig + 1 { return BadNumber; }
    var f := SkipFraction(val, at, edig);
    if f < 0 { return BadNumber; }
    var e := SkipExponent(val, at, edig + f);
    if e < 0 { return BadNumber; }
    r := Scanned(edig + f + e - at, f > 0 || e > 0);
  }

  method SkipFraction(val: array<Octet>, ghost at: nat, i: nat) returns (f: int)
    requires at <= i < val.Length && Ended(val[..])
    ensures f == FractionAt(val[at..], i - at) && i + f < val.Length
  {
    if val[i] != DOT { return 0; }
    var e := SkipDigits(val, at, i + 1);
    f := if !IsDigit(val[i + 1]) then -1 else e - i;
  }

  method SkipExponent(val: array<Octet>, ghost at: nat, i: nat) returns (e: int)
    requires at <= i < val.Length && Ended(val[..])
    ensures e == ExponentAt(val[at..], i - at) && i + e < val.Length
  {
    if val[i] != 101 && val[i] != 69 { return 0; }
    var exp := i + 1;
    if val[exp] == 43 { exp := exp + 1; } else if val[exp] == 45 { exp := exp + 1; }
    var end := SkipDigits(val, at, exp);
    e := if !IsDigit(val[exp]) then -1 else end - i;
  }

  // The end of the digits at a place
  method SkipDigits(val: array<Octet>, ghost at: nat, i: nat) returns (e: nat)
    requires at <= i < val.Length && Ended(val[..])
    ensures i <= e < val.Length && e == i + DigitsAt(val[at..], i - at)
    ensures e > i <==> IsDigit(val[i])
  {
    ghost var v := val[at..];
    e := i;
    while IsDigit(val[e])
      invariant i <= e < val.Length && i + DigitsAt(v, i - at) == e + DigitsAt(v, e - at)
      invariant e == i || IsDigit(val[i])
      decreases val.Length - e
    {
      e := e + 1;
    }
  }

  // ---- Names ----

  // Room for the names of levels, with their quotes, dots, brackets and numbers
  function NameSpace(levels: seq<Level>): nat {
    if levels == [] then 0
    else
      var l := levels[|levels| - 1];
      NameSpace(levels[..|levels| - 1]) + 3 + l.len + if l.index == -1 then 0 else 2 + |Decimal(Abs(l.index))|
  }

  function Abs(n: int): nat { if n < 0 then -n else n }

  /** How many digits a number has. */
  method DigitCount(a: nat) returns (len: nat)
    ensures len == |Decimal(a)|
  {
    if a == 0 { return 1; }
    var b := a;
    len := 0;
    while b != 0
      invariant len + (if b == 0 then 0 else |Decimal(b)|) == |Decimal(a)|
      decreases b
    {
      len := len + 1;
      b := b / 10;
    }
  }

  /** Puts the digits of a number at a place, the last one first. */
  method PutDecimal(buf: array<Octet>, at: nat, a: nat, len: nat)
    requires len == |Decimal(a)| && at + len <= buf.Length
    modifies buf
    ensures buf[..] == old(buf[..at]) + Decimal(a) + old(buf[at + len..])
  {
    if a == 0 {
      buf[at] := 48;
      return;
    }
    var b, k := a, 0;
    while b != 0
      invariant k <= len && (b == 0 <==> k == len)
      invariant b != 0 ==> |Decimal(b)| + k == len && Decimal(b) + buf[at + len - k..at + len] == Decimal(a)
      invariant b == 0 ==> buf[at..at + len] == Decimal(a)
      invariant buf[..at] == old(buf[..at]) && buf[at + len..] == old(buf[at + len..])
      decreases b
    {
      ghost var was := buf[at + len - k..at + len];
      buf[at + len - 1 - k] := 48 + b % 10;
      assert buf[at + len - (k + 1)..at + len] == [48 + b % 10] + was;
      k := k + 1;
      b := b / 10;
    }
  }

  /** Puts a text at a place. */
  method Put(buf: array<Octet>, at: nat, t: Str)
    requires at + |t| <= buf.Length
    modifies buf
    ensures buf[..] == old(buf[..at]) + t + old(buf[at + |t|..])
  {
    for k := 0 to |t|
      invariant buf[..at] == old(buf[..at]) && buf[at..at + k] == t[..k] && buf[at + k..] == old(buf[at + k..])
    {
      buf[at + k] := t[k];
    }
  }

  // The name of a level can be read.
  predicate Readable(v: Str, l: Level) { 0 <= l.name && l.name + l.len <= |v| && l.index >= -1 }

  function RoomFor(l: Level): nat { 3 + l.len + if l.index == -1 then 0 else 2 + |Decimal(Abs(l.index))| }

  lemma {:induction false} StepRoom(v: Str, l: Level)
    requires Readable(v, l)
    ensures 1 + |StepName(StepOf(v, l))| == RoomFor(l)
  {
  }

  lemma {:induction false} SpaceGrows(levels: seq<Level>, k: nat, n: nat)
    requires k <= n <= |levels|
    ensures NameSpace(levels[..k]) <= NameSpace(levels[..n])
    decreases n - k
  {
    if k < n {
      assert levels[..n][..n - 1] == levels[..n - 1];
      SpaceGrows(levels, k, n - 1);
    }
  }

  lemma {:induction false} Joining(v: Str, levels: seq<Level>, k: nat)
    requires k < |levels|
    ensures JoinedSteps(PathOf(v, levels[..k + 1]))
            == JoinedSteps(PathOf(v, levels[..k])) + (if k == 0 then [] else [DOT]) + StepName(StepOf(v, levels[k]))
    ensures NameSpace(levels[..k + 1]) == NameSpace(levels[..k]) + RoomFor(levels[k])
  {
    var p := PathOf(v, levels[..k + 1]);
    assert p[..k] == PathOf(v, levels[..k]) && p[k] == StepOf(v, levels[k]);
    assert levels[..k + 1][..k] == levels[..k];
  }

  // A text put behind what is there
  method Append(buf: array<Octet>, at: nat, t: Str) returns (n: nat)
    requires at + |t| <= buf.Length
    modifies buf
    ensures n == at + |t| && buf[..n] == old(buf[..at]) + t
  {
    Put(buf, at, t);
    n := at + |t|;
  }

  method AppendIndex(buf: array<Octet>, at: nat, k: nat) returns (n: nat)
    requires at + |Decimal(k)| + 2 <= buf.Length
    modifies buf
    ensures n == at + |Decimal(k)| + 2 && buf[..n] == old(buf[..at]) + ([OPEN_ARRAY] + Decimal(k) + [CLOSE_ARRAY])
  {
    n := Append(buf, at, [OPEN_ARRAY]);
    var len := DigitCount(k);
    PutDecimal(buf, n, k, len);
    n := Append(buf, n + len, [CLOSE_ARRAY]);
  }

  // One step of a name: "x", and [k] if it is the place k of an array
  method AppendStep(buf: array<Octet>, at: nat, v: Str, l: Level, dot: bool) returns (n: nat)
    requires Readable(v, l) && at + RoomFor(l) <= buf.Length
    modifies buf
    ensures at <= n <= at + RoomFor(l)
    ensures buf[..n] == old(buf[..at]) + (if dot then [DOT] else []) + StepName(StepOf(v, l))
  {
    StepRoom(v, l);
    n := Append(buf, at, if dot then [DOT, QUOTE] else [QUOTE]);
    n := Append(buf, n, v[l.name..l.name + l.len]);
    n := Append(buf, n, [QUOTE]);
    ghost var start := old(buf[..at]) + if dot then [DOT] else [];
    assert buf[..n] == start + ([QUOTE] + v[l.name..l.name + l.len] + [QUOTE]);
    if l.index != -1 {
      n := AppendIndex(buf, n, l.index);
      assert buf[..n] == start + ([QUOTE] + v[l.name..l.name + l.len] + [QUOTE]
                                  + ([OPEN_ARRAY] + Decimal(l.index) + [CLOSE_ARRAY]));
    }
  }

  /** vely_json_fullname: the name of a leaf below the first lc levels, in a block measured beforehand. */
  method FullName(val: array<Octet>, list: seq<Level>, lc: nat) returns (name: Str)
    requires lc <= |list| && forall k :: 0 <= k < lc ==> Readable(val[..], list[k])
    ensures name == NormalName(PathOf(val[..], list[..lc]))
  {
    if lc == 0 { return [QUOTE, QUOTE]; }
    var v := val[..];
    var nlen := 0;
    for k := 0 to lc
      invariant nlen == NameSpace(list[..k])
    {
      Joining(v, list, k);
      if list[k].index == -1 {
        nlen := nlen + 3 + list[k].len;
      } else {
        var alen := DigitCount(list[k].index);
        nlen := nlen + 3 + list[k].len + 2 + alen;
      }
    }
    var buf := new Octet[nlen + 1];
    var n := 0;
    for k := 0 to lc
      invariant n <= NameSpace(list[..k]) && n <= nlen
      invariant buf[..n] == JoinedSteps(PathOf(v, list[..k]))
    {
      Joining(v, list, k);
      SpaceGrows(list, k + 1, lc);
      n := AppendStep(buf, n, v, list[k], k != 0);
    }
    buf[n] := 0;
    name := buf[..n];
  }
}
