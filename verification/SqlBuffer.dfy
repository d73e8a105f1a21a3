/** The in-place replacement of velyrtc.c, the escaping of lite.c and the growing buffer of db.c that build SQL text. */
module SqlBuffer {
  import opened KeyOrder
  import opened SqlText
  import opened Octets
  import opened Sequences

  /** The C string at a place of a buffer. */
  ghost predicate IsString(mem: seq<Octet>, at: nat, s: Str) {
    at + |s| < |mem| && mem[at..at + |s|] == s && mem[at + |s|] == 0
  }

  // A buffer with lenf bytes at f replaced by a text, what follows up to the zero at end being moved.
  function SpliceOf(now: seq<Octet>, f: nat, lenf: nat, subst: Str, end: nat): seq<Octet>
    requires f + lenf <= end < |now| && end - lenf + |subst| < |now|
  {
    now[..f] + subst + now[f + lenf..end + 1] + now[end + 1 - lenf + |subst|..]
  }

  // memmove of the tail f + lenf .. by lens - lenf, and memcpy of the new text
  method Splice(mem: array<Octet>, f: nat, lenf: nat, subst: Str, end: nat)
    requires f + lenf <= end < mem.Length && end - lenf + |subst| < mem.Length
    modifies mem
    ensures mem[..] == SpliceOf(old(mem[..]), f, lenf, subst, end)
  {
    var lens := |subst|;
    forall k | 0 <= k < end + 1 - (f + lenf) { mem[f + lens + k] := mem[f + lenf + k]; }
    forall k | 0 <= k < lens { mem[f + k] := subst[k]; }
  }

  // A part of the string in the buffer
  lemma {:induction false} PartOf(mem: seq<Octet>, base: nat, str: Str, i: nat, j: nat)
    requires IsString(mem, base, str) && i <= j <= |str|
    ensures base + j < |mem| && mem[base + i..base + j] == str[i..j]
  {
    var s := mem[base..base + |str|];
    forall k | i <= k < j ensures mem[base + k] == str[k] { assert s[k] == str[k]; }
  }

  // What a splice does to the string in the buffer, and to what stands before it.
  lemma {:induction false} Spliced(now: seq<Octet>, next: seq<Octet>, base: nat, str: Str, i: nat, j: nat, subst: Str,
                           f: nat, end: nat)
    returns (result: Str)
    requires IsString(now, base, str) && i <= j <= |str| && f == base + i && end == base + |str| && |next| == |now|
    requires end - (j - i) + |subst| < |now| && next == SpliceOf(now, f, j - i, subst, end)
    ensures result == str[..i] + subst + str[j..] && IsString(next, base, result)
    ensures next[..base] == now[..base]
  {
    var a, c, d := now[..f], now[base + j..end + 1], now[end + 1 - (j - i) + |subst|..];
    Window(a, subst, c, d, base);
    PartOf(now, base, str, 0, i);
    PartOf(now, base, str, j, |str|);
    assert a[base..] == str[..i];
    assert c[..|c| - 1] == str[j..];
    assert next[..base] == now[..base];
    result := str[..i] + subst + str[j..];
  }

  lemma {:induction false} Window(a: seq<Octet>, b: seq<Octet>, c: seq<Octet>, d: seq<Octet>, base: nat)
    requires base <= |a| && c != []
    ensures var s, e := a + b + c + d, |a| + |b| + |c| - 1;
            s[base..e] == a[base..] + b + c[..|c| - 1] && s[e] == c[|c| - 1] && s[..base] == a[..base]
  {
  }

  lemma {:induction false} JoinedSplice(done: Str, rest: Str, i: nat, n: nat, subst: Str)
    requires i + n <= |rest|
    ensures (done + rest)[..|done| + i] + subst + (done + rest)[|done| + i + n..]
            == (done + rest[..i] + subst) + rest[i + n..]
  {
    assert (done + rest)[..|done| + i] == done + rest[..i];
    assert (done + rest)[|done| + i + n..] == rest[i + n..];
  }

  /** The string in the buffer has its occurrences replaced up to the part rest. */
  ghost predicate Partly(mem: seq<Octet>, base: nat, done: Str, rest: Str, s: Str, find: Str, subst: Str)
    requires find != []
  {
    && IsString(mem, base, done + rest)
    && done + ReplaceAll(rest, find, subst) == ReplaceAll(s, find, subst)
  }

  // The string of the buffer after one more replacement, at f
  lemma {:induction false} SplicedMore(now: seq<Octet>, next: seq<Octet>, base: nat, done: Str, rest: Str, i: nat,
                           n: nat,
                                       subst: Str, f: nat, end: nat)
    requires IsString(now, base, done + rest) && i + n <= |rest| && |next| == |now|
    requires f == base + |done| + i && end == base + |done| + |rest|
    requires end - n + |subst| < |now| && next == SpliceOf(now, f, n, subst, end)
    ensures IsString(next, base, (done + rest[..i] + subst) + rest[i + n..]) && next[..base] == now[..base]
  {
    var result := Spliced(now, next, base, done + rest, |done| + i, |done| + i + n, subst, f, end);
    JoinedSplice(done, rest, i, n, subst);
  }

  lemma {:induction false} ReplacedMore(rest: Str, find: Str, subst: Str)
    returns (i: nat, head: Str, tail: Str, more: Str)
    requires find != [] && IndexOf(rest, find) >= 0
    ensures i == IndexOf(rest, find) && i + |find| <= |rest| && head == rest[..i] && tail == rest[i + |find|..]
    ensures more == ReplaceAll(tail, find, subst) && ReplaceAll(rest, find, subst) == head + subst + more
  {
    i := IndexOf(rest, find);
    var all := ReplaceAll(rest, find, subst);
    head, tail := rest[..i], rest[i + |find|..];
    more := ReplaceAll(tail, find, subst);
    assert all == head + subst + more;
  }

  lemma {:induction false} PartlyMore(now: seq<Octet>, next: seq<Octet>, base: nat, done: Str, rest: Str, s: Str,
                                      find: Str, subst: Str, f: nat, end: nat)
    returns (d: Str, t: Str)
    requires find != [] && Partly(now, base, done, rest, s, find, subst) && |next| == |now|
    requires IndexOf(rest, find) >= 0 && f == base + |done| + IndexOf(rest, find) && end == base + |done| + |rest|
    requires end - |find| + |subst| < |now| && next == SpliceOf(now, f, |find|, subst, end)
    ensures Partly(next, base, d, t, s, find, subst) && next[..base] == now[..base]
    ensures var i := IndexOf(rest, find); |d| == |done| + i + |subst| && |t| == |rest| - i - |find|
  {
    var i, head, more;
    i, head, t, more := ReplacedMore(rest, find, subst);
    d := done + head + subst;
    SplicedMore(now, next, base, done, rest, i, |find|, subst, f, end);
    Regroup4(done, head, subst, more);
  }

  /** The greatest length on the way, if anything is replaced: the first one where the texts get shorter, and
      the last one otherwise. */
  function Longest(s: Str, find: Str, subst: Str): int
    requires find != []
  {
    if |subst| < |find| then |s| - |find| + |subst| else |ReplaceAll(s, find, subst)|
  }

  // Where the texts do not get shorter, no length on the way is beyond the last one.
  lemma {:induction false} Growing(done: Str, rest: Str, s: Str, find: Str, subst: Str)
    requires find != [] && IndexOf(rest, find) >= 0 && |find| <= |subst|
    requires done + ReplaceAll(rest, find, subst) == ReplaceAll(s, find, subst)
    ensures |done| + |rest| - |find| + |subst| <= Longest(s, find, subst)
  {
    var i := IndexOf(rest, find);
    ReplaceAllGrows(rest[i + |find|..], find, subst);
    assert |ReplaceAll(s, find, subst)| == |done| + |ReplaceAll(rest, find, subst)|;
  }

  // One replacement in the string in the buffer
  method ReplaceNext(mem: array<Octet>, base: nat, f: nat, len: nat, find: Str, subst: Str,
                     ghost done: Str, ghost rest: Str, ghost s: Str)
    returns (ghost d: Str, ghost t: Str)
    requires find != [] && Partly(mem[..], base, done, rest, s, find, subst) && IndexOf(rest, find) >= 0
    requires f == base + |done| + IndexOf(rest, find) && len == |done| + |rest|
    requires base + len - |find| + |subst| < mem.Length
    modifies mem
    ensures Partly(mem[..], base, d, t, s, find, subst)
    ensures |d| == f - base + |subst| && |t| == |rest| - IndexOf(rest, find) - |find|
    ensures mem[..base] == old(mem[..base])
  {
    ghost var now := mem[..];
    Splice(mem, f, |find|, subst, base + len);
    d, t := PartlyMore(now, mem[..], base, done, rest, s, find, subst, f, base + len);
    assert mem[..][..base] == now[..base];
  }

  /** vely_replace_string with all, searching with case: every occurrence is replaced where the string stands.
      The result is -1 exactly if there is one and the string does not fit the available size all the way;
      then the occurrences are replaced up to the part rest. */
  method ReplaceEvery(mem: array<Octet>, base: nat, strsize: int, find: Str, subst: Str, ghost s: Str)
    returns (r: int, ghost done: Str, ghost rest: Str)
    requires find != [] && IsString(mem[..], base, s) && base + strsize <= mem.Length
    modifies mem
    ensures mem[..base] == old(mem[..base]) && Partly(mem[..], base, done, rest, s, find, subst)
    ensures r == -1 <==> IndexOf(s, find) >= 0 && Longest(s, find, subst) >= strsize
    ensures var target := ReplaceAll(s, find, subst); r != -1 ==> r == |target| && IsString(mem[..], base, target)
  {
    var len := StrLen(mem, base, s);
    var currsize := len + 1;
    var curr := base;
    ghost var none := true;
    done, rest := [], s;
    assert [] + s == s && [] + ReplaceAll(s, find, subst) == ReplaceAll(s, find, subst);
    while true
      invariant Partly(mem[..], base, done, rest, s, find, subst) && mem[..base] == old(mem[..base])
      invariant len == |done| + |rest| && currsize == len + 1 && curr == base + |done|
      invariant if none then done == [] && rest == s
                else IndexOf(s, find) >= 0 && len < strsize && (|subst| < |find| ==> Longest(s, find, subst) < strsize)
      decreases |rest|
    {
      var i := StrStr(mem, base, curr, len, find, done, rest);
      if i < 0 { break; }
      var f := curr + i;
      currsize := currsize - |find|;
      currsize := currsize + |subst|;
      if |find| <= |subst| { Growing(done, rest, s, find, subst); }
      if currsize > strsize { return -1, done, rest; }
      done, rest := ReplaceNext(mem, base, f, len, find, subst, done, rest, s);
      len := len - |find| + |subst|;
      curr := f + |subst|;
      none := false;
    }
    r := len;
  }

  /** vely_replace_string without all: the first occurrence is replaced, and last is the place behind it; -1
      if there is none. */
  method ReplaceOne(mem: array<Octet>, base: nat, strsize: int, find: Str, subst: Str, ghost s: Str)
    returns (r: int, last: int)
    requires find != [] && IsString(mem[..], base, s) && base + strsize <= mem.Length
    modifies mem
    ensures mem[..base] == old(mem[..base])
    ensures var i, target := IndexOf(s, find), ReplaceFirst(s, find, subst);
            && (r == -1 <==> i >= 0 && |target| >= strsize)
            && (r != -1 ==> r == |target| && IsString(mem[..], base, target)
                            && last == if i < 0 then -1 else base + i + |subst|)
  {
    var len := StrLen(mem, base, s);
    var currsize := len + 1;
    last := -1;
    assert [] + s == s;
    var i := StrStr(mem, base, base, len, find, [], s);
    if i < 0 { return len, last; }
    currsize := currsize - |find|;
    currsize := currsize + |subst|;
    if currsize > strsize { return -1, last; }
    ghost var now := mem[..];
    var f, end := base + i, base + len;
    Splice(mem, f, |find|, subst, end);
    SplicedFirst(now, mem[..], base, s, find, subst, f, end);
    return len - |find| + |subst|, f + |subst|;
  }

  lemma {:induction false} SplicedFirst(now: seq<Octet>, next: seq<Octet>, base: nat, s: Str, find: Str, subst: Str,
                           f: nat, end: nat)
    requires find != [] && IsString(now, base, s) && IndexOf(s, find) >= 0 && |next| == |now|
    requires f == base + IndexOf(s, find) && end == base + |s| && end - |find| + |subst| < |now|
    requires next == SpliceOf(now, f, |find|, subst, end)
    ensures IsString(next, base, ReplaceFirst(s, find, subst)) && next[..base] == now[..base]
    ensures |ReplaceFirst(s, find, subst)| == |s| - |find| + |subst|
  {
    var i := IndexOf(s, find);
    var result := Spliced(now, next, base, s, i, i + |find|, subst, f, end);
    assert result == ReplaceFirst(s, find, subst);
  }

  // strstr from curr on
  method StrStr(mem: array<Octet>, base: nat, curr: nat, len: nat, find: Str, ghost done: Str, ghost rest: Str)
    returns (i: int)
    requires find != [] && IsString(mem[..], base, done + rest) && curr == base + |done| && len == |done| + |rest|
    ensures i == IndexOf(rest, find)
  {
    assert mem[curr..base + len] == (done + rest)[|done|..] == rest;
    i := IndexOf(mem[curr..base + len], find);
  }

  // strlen
  method StrLen(mem: array<Octet>, base: nat, ghost s: Str) returns (n: nat)
    requires IsString(mem[..], base, s)
    ensures n == |s|
  {
    n := 0;
    while mem[base + n] != 0
      invariant n <= |s|
      decreases |s| - n
    {
      n := n + 1;
    }
  }

  // ---- Escaping an argument ----

  /** vely_lite_escape: in a buffer of twice the length and one it always succeeds. */
  method LiteEscape(from: Str, to: array<Octet>) returns (ok: bool, len: int)
    requires to.Length == 2 * |from| + 1
    modifies to
    ensures ok && len == |Escape(from)| && IsString(to[..], 0, Escape(from))
  {
    forall k | 0 <= k < |from| { to[k] := from[k]; }
    to[|from|] := 0;
    assert to[..][0..|from|] == from;
    TwoPassesAreOne(from);
    ghost var once := ReplaceAll(from, BACKSLASH, BACKSLASH + BACKSLASH);
    ghost var done, rest;
    len, done, rest := ReplaceEvery(to, 0, 2 * |from| + 1, BACKSLASH, BACKSLASH + BACKSLASH, from);
    if len == -1 { return false, len; }
    len, done, rest := ReplaceEvery(to, 0, 2 * |from| + 1, QUOTE, QUOTE + QUOTE, once);
    ok := len != -1;
  }

  /** The trimming of a value where it stands (db.c:1167-1177): where the value starts. */
  method TrimInPlace(mem: array<Octet>, len: nat, ghost s: Str) returns (val: nat, lenOf: nat)
    requires IsString(mem[..], 0, s) && len == |s|
    modifies mem
    ensures IsString(mem[..], val, Trim(s)) && |Trim(s)| <= lenOf
  {
    lenOf := len;
    assert s[..len] == s;
    if lenOf != 0 {
      while lenOf != 0 && IsSpace(mem[lenOf - 1])
        invariant lenOf <= |s| && TrimRight(s[..lenOf]) == TrimRight(s)
      {
        assert mem[..][0..|s|][lenOf - 1] == s[lenOf - 1];
        assert s[..lenOf][..lenOf - 1] == s[..lenOf - 1];
        lenOf := lenOf - 1;
      }
      if lenOf != 0 { assert mem[..][0..|s|][lenOf - 1] == s[lenOf - 1]; }
      ghost var now := mem[..];
      mem[lenOf] := 0;
      assert mem[..][0..lenOf] == now[0..|s|][..lenOf] == s[..lenOf];
    }
    ghost var t := s[..lenOf];
    assert t == TrimRight(s) && IsString(mem[..], 0, t);
    val := 0;
    assert t[0..] == t;
    while mem[val] != 0 && IsSpace(mem[val])
      invariant val <= |t| && TrimLeft(t[val..]) == TrimLeft(t)
      invariant mem[..][0..|t|] == t && mem[|t|] == 0
      decreases |t| - val
    {
      assert val < |t|;
      assert mem[..][0..|t|][val] == t[val] && t[val..][1..] == t[val + 1..];
      val := val + 1;
    }
    if val < |t| { assert mem[..][0..|t|][val] == t[val]; }
    assert mem[..][val..|t|] == mem[..][0..|t|][val..] == t[val..];
  }

  // ---- Building the text ----

  /** The text built so far: values have been put in up to the part rest of the format, which still has n places. */
  ghost predicate Building(mem: seq<Octet>, done: Str, rest: Str, n: int, format: Str, used: seq<Str>)
  {
    && IsString(mem, 0, done + rest) && n == Count(rest, PLACE)
    && n + |used| == Count(format, PLACE)
    && (forall more :: Substitute(format, used + more) == done + Substitute(rest, more))
  }

  lemma {:induction false} BuildingStarts(mem: seq<Octet>, format: Str)
    requires IsString(mem, 0, format)
    ensures Building(mem, [], format, Count(format, PLACE), format, [])
  {
    assert [] + format == format;
    forall more ensures Substitute(format, [] + more) == [] + Substitute(format, more) {
      assert [] + more == more;
    }
  }

  lemma {:induction false} BuildingGoesOn(now: seq<Octet>, next: seq<Octet>, done: Str, rest: Str, n: int,
                           format: Str, used: seq<Str>, val: Str)
    returns (d: Str, t: Str)
    requires Building(now, done, rest, n, format, used) && n > 0
    requires IsString(next, |done|, ReplaceFirst(rest, PLACE, val)) && next[..|done|] == now[..|done|]
    ensures Building(next, d, t, n - 1, format, used + [val])
    ensures |d| == |done| + IndexOf(rest, PLACE) + |val| && IndexOf(rest, PLACE) >= 0
  {
    var i := IndexOf(rest, PLACE);
    d, t := done + rest[..i] + val, rest[i + 2..];
    Together(now, next, done, rest, d, t, ReplaceFirst(rest, PLACE, val));
    forall more ensures Substitute(format, used + [val] + more) == d + Substitute(t, more) {
      assert used + [val] + more == used + ([val] + more);
      assert ([val] + more)[1..] == more;
      assert Substitute(rest, [val] + more) == rest[..i] + val + Substitute(t, more);
      Regroup4(done, rest[..i], val, Substitute(t, more));
    }
  }

  lemma {:induction false} Together(now: seq<Octet>, next: seq<Octet>, done: Str, rest: Str, d: Str, t: Str, r: Str)
    requires IsString(now, 0, done + rest) && IsString(next, |done|, r) && next[..|done|] == now[..|done|]
    requires d + t == done + r
    ensures IsString(next, 0, d + t)
  {
    assert now[..|done|] == now[0..|done + rest|][..|done|] == done;
    assert next[0..|done + r|] == next[..|done|] + next[|done|..|done| + |r|];
  }

  // realloc of the text
  method Enlarge(mem: array<Octet>, size: nat) returns (m: array<Octet>)
    requires mem.Length <= size
    ensures fresh(m) && m.Length == size && m[..mem.Length] == mem[..]
  {
    m := new Octet[size];
    forall k | 0 <= k < mem.Length { m[k] := mem[k]; }
  }

  // One argument put in its place (db.c:1146-1187); the buffer grows by the value's length and one
  method PutArgument(mem: array<Octet>, curr: nat, arg: Str, ghost done: Str, ghost rest: Str, ghost n: int,
          ghost format: Str, ghost used: seq<Str>)
    returns (ok: bool, m: array<Octet>, next: int, ghost d: Str, ghost t: Str)
    requires Building(mem[..], done, rest, n, format, used) && n > 0 && curr == |done|
    ensures ok && fresh(m) && next == |d|
    ensures Building(m[..], d, t, n - 1, format, used + [Trim(Escape(arg))])
  {
    var currSqlArg := new Octet[2 * |arg| + 1];
    var esc, l := LiteEscape(arg, currSqlArg);
    assert esc;
    var val, lenOf := TrimInPlace(currSqlArg, l, Escape(arg));
    ghost var v := Trim(Escape(arg));
    var vl := StrLen(currSqlArg, val, v);
    assert currSqlArg[val..val + vl] == v;
    var subst := ReadString(currSqlArg, val, vl, v);
    m := Enlarge(mem, mem.Length + (lenOf + 1));
    ghost var was := m[..];
    assert was[..mem.Length] == mem[..];
    RestThere(mem[..], was, done, rest);
    PlaceThere(rest);
    var r, last := ReplaceOne(m, curr, m.Length - 1 - (curr + 1), PLACE, subst, rest);
    assert r != -1;
    next := last;
    d, t := BuildingGoesOn(mem[..], m[..], done, rest, n, format, used, v);
    ok := true;
  }

  lemma {:induction false} PlaceThere(rest: Str)
    ensures Count(rest, PLACE) > 0 <==> IndexOf(rest, PLACE) >= 0
  {
  }

  lemma {:induction false} RestThere(mem: seq<Octet>, m: seq<Octet>, done: Str, rest: Str)
    requires IsString(mem, 0, done + rest) && |mem| <= |m| && m[..|mem|] == mem
    ensures IsString(m, |done|, rest) && m[..|done|] == mem[..|done|]
  {
    var all := done + rest;
    assert m == mem + m[|mem|..];
    assert m[|done|..|done| + |rest|] == mem[0..|all|][|done|..] == all[|done|..] == rest;
  }

  // The characters of a string in a buffer
  method ReadString(mem: array<Octet>, at: nat, len: nat, ghost s: Str) returns (r: Str)
    requires IsString(mem[..], at, s) && len == |s|
    ensures r == s
  {
    r := [];
    for k := 0 to len
      invariant r == s[..k]
    {
      assert mem[..][at..at + |s|][k] == s[k];
      r := r + [mem[at + k]];
    }
  }

  /** vely_make_SQL for SQLite: the buffer always suffices, so the text is never too large. */
  method MakeSql(format: Str, args: seq<Arg>) returns (error: SqlError, ok: bool, dest: array<Octet>)
    ensures match Build(format, args)
            case Sql(text) => ok && IsString(dest[..], 0, text)
            case Bad(e) => !ok && error == e
  {
    error, ok := TooLarge, false;
    var numOfPercents: int := Count(format, PLACE);
    dest := new Octet[|format| + 1];
    forall k | 0 <= k < |format| { dest[k] := format[k]; }
    dest[|format|] := 0;
    assert dest[..][0..|format|] == format;
    if Count(format, QUOTE) % 2 != 0 { return OddQuotes, false, dest; }
    if Count(format, QUOTED_PLACE) != numOfPercents { return Unquoted, false, dest; }
    var curr := 0;
    ghost var done, rest: Str, used: seq<Str> := [], format, [];
    BuildingStarts(dest[..], format);
    for i := 0 to |args|
      invariant numOfPercents >= 0 && curr == |done|
      invariant Building(dest[..], done, rest, numOfPercents, format, used) && used == Values(args[..i])
    {
      ValuesNext(args, i);
      if args[i].Arg? {
        numOfPercents := numOfPercents - 1;
        if numOfPercents < 0 {
          ValuesGrow(args, i + 1);
          return TooMany, false, dest;
        }
        var fits;
        fits, dest, curr, done, rest := PutArgument(dest, curr, args[i].s, done, rest, numOfPercents + 1, format, used);
        used := used + [Trim(Escape(args[i].s))];
        if !fits { return TooLarge, false, dest; }
      }
    }
    assert args[..|args|] == args;
    if numOfPercents != 0 { return TooFew, false, dest; }
    BuildingEnds(dest[..], done, rest, format, used);
    ok := true;
  }

  lemma {:induction false} BuildingEnds(mem: seq<Octet>, done: Str, rest: Str, format: Str, used: seq<Str>)
    requires Building(mem, done, rest, 0, format, used)
    ensures IsString(mem, 0, Substitute(format, used))
  {
    assert used + [] == used;
    assert Substitute(format, used + []) == done + Substitute(rest, []);
  }

  lemma {:induction false} ValuesNext(args: seq<Arg>, i: nat)
    requires i < |args|
    ensures Values(args[..i + 1]) == if args[i].Null? then Values(args[..i])
            else Values(args[..i]) + [Trim(Escape(args[i].s))]
  {
    assert args[..i + 1][..i] == args[..i];
  }

  lemma {:induction false} ValuesGrow(args: seq<Arg>, i: nat)
    requires i <= |args|
    ensures |Values(args[..i])| <= |Values(args)|
    decreases |args| - i
  {
    if i == |args| {
      assert args[..i] == args;
    } else {
      assert args[..i + 1][..i] == args[..i];
      ValuesGrow(args, i + 1);
    }
  }
}
