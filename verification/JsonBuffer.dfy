/** The escaper and the unescaper of json.c as they work on buffers: the first into a buffer of three times
    the length, the second in place. */
module JsonBuffer {
  import opened Utf8
  import opened JsonText
  import opened Octets

  // ---- Hexadecimal digits ----

  function Power16(n: nat): nat { if n == 0 then 1 else 16 * Power16(n - 1) }

  // What the first k digits contribute.
  function HexSum(v: seq<Octet>, k: nat): int
    requires k <= 4
  {
    if k == 0 then 0 else HexSum(v, k - 1) + HexValue(ByteAt(v, k - 1)) * Power16(4 - k)
  }

  lemma {:induction false} HexSumIs(v: seq<Octet>)
    requires forall k :: 0 <= k < 4 ==> HexValue(ByteAt(v, k)) >= 0
    ensures GetHex(v) == HexSum(v, 4)
  {
    assert Power16(3) == 0x1000 && Power16(2) == 0x100 && Power16(1) == 0x10 && Power16(0) == 1;
    assert HexSum(v, 1) == HexValue(ByteAt(v, 0)) * 0x1000;
    assert HexSum(v, 2) == HexSum(v, 1) + HexValue(ByteAt(v, 1)) * 0x100;
    assert HexSum(v, 3) == HexSum(v, 2) + HexValue(ByteAt(v, 2)) * 0x10;
    assert HexSum(v, 4) == HexSum(v, 3) + HexValue(ByteAt(v, 3));
  }

  /** vely_get_hex, on a string that ends at z: the terminating zero is never passed. */
  method GetHexAt(val: array<Octet>, at: nat, ghost z: nat) returns (r: int)
    requires at <= z < val.Length && val[z] == 0
    ensures r == GetHex(val[at..])
    ensures r >= 0 ==> at + 4 <= z
  {
    ghost var v := val[at..];
    r := 0;
    for k := 0 to 4
      invariant at + k <= z && r == HexSum(v, k)
      invariant forall j :: 0 <= j < k ==> HexValue(ByteAt(v, j)) >= 0
    {
      assert ByteAt(v, k) == val[at + k];
      var d := HexValue(val[at + k]);
      if d < 0 { return -1; }
      r := r + d * Power16(3 - k);
    }
    HexSumIs(v);
  }

  // ---- Unescaping in place ----

  /** The text before i has been handled: its result stands before i - pull, and what follows is untouched. */
  ghost predicate Progress(now: seq<Octet>, was: seq<Octet>, start: nat, i: nat, pull: nat) {
    && |now| == |was| && pull <= i && start <= i - pull && i <= |was|
    && now[i..] == was[i..]
    && Unescape(was[start..]) == Then(now[start..i - pull], i - start, Unescape(was[i..]))
  }

  lemma {:induction false} ThenThen(a: seq<Octet>, m: nat, s: seq<Octet>, len: nat, t: Text)
    ensures Then(a, m, Then(s, len, t)) == Then(a + s, m + len, t)
  {
    if t.Text? { assert a + (s + t.s) == a + s + t.s; }
  }

  lemma {:induction false} Extended(next: seq<Octet>, now: seq<Octet>, start: nat, j: nat, s: seq<Octet>)
    requires start <= j <= |now| && j + |s| <= |next|
    requires next[..j] == now[..j] && next[j..j + |s|] == s
    ensures next[start..j + |s|] == now[start..j] + s
  {
    assert next[start..j] == next[..j][start..] && now[start..j] == now[..j][start..];
    assert next[start..j + |s|] == next[start..j] + next[j..j + |s|];
  }

  lemma {:induction false} SameEnd(a: seq<Octet>, b: seq<Octet>, i: nat, len: nat)
    requires |a| == |b| && i + len <= |a| && a[i..] == b[i..]
    ensures a[i + len..] == b[i + len..]
  {
    assert a[i + len..] == a[i..][len..] && b[i + len..] == b[i..][len..];
  }

  /** The bytes s have been written at j, and nothing else. */
  ghost predicate Wrote(now: seq<Octet>, next: seq<Octet>, j: nat, s: seq<Octet>) {
    && |next| == |now| && j + |s| <= |now|
    && next == now[..j] + s + now[j + |s|..]
  }

  // One more piece of text, whose result s has been written behind the earlier ones.
  lemma {:induction false} Handled(now: seq<Octet>, was: seq<Octet>, start: nat, i: nat, pull: nat,
                                   s: seq<Octet>, len: nat, next: seq<Octet>)
    requires Progress(now, was, start, i, pull) && |s| <= len && i + len <= |was|
    requires Wrote(now, next, i - pull, s)
    requires Unescape(was[i..]) == Then(s, len, Unescape(was[i..][len..]))
    ensures Progress(next, was, start, i + len, pull + len - |s|)
  {
    var j := i - pull;
    WroteParts(now, next, j, s, i + len);
    Extended(next, now, start, j, s);
    SameEnd(now, was, i, len);
    ThenThen(now[start..j], i - start, s, len, Unescape(was[i + len..]));
    assert was[i..][len..] == was[i + len..];
  }

  lemma {:induction false} WroteParts(now: seq<Octet>, next: seq<Octet>, j: nat, s: seq<Octet>, e: nat)
    requires Wrote(now, next, j, s) && j + |s| <= e <= |now|
    ensures next[..j] == now[..j] && next[j..j + |s|] == s && next[e..] == now[e..]
  {
  }

  // An escape whose bytes have been written
  lemma {:induction false} EscapeHandled(now: seq<Octet>, was: seq<Octet>, start: nat, i: nat, pull: nat,
                                         u: Unit, next: seq<Octet>, to: nat, p: nat)
    requires Progress(now, was, start, i, pull) && i < |now| && now[i] == BACKSLASH
    requires u == EscapeUnit(now[i..]) && u.Unit? && Wrote(now, next, i - pull, u.s)
    requires to == i + u.len && p == pull + u.len - |u.s|
    ensures Progress(next, was, start, to, p)
  {
    var v := now[i..];
    assert v == was[i..] && v[0] == now[i];
    assert Unescape(v) == Then(u.s, u.len, Unescape(v[u.len..]));
    Handled(now, was, start, i, pull, u.s, u.len, next);
  }

  // An escape that is an error
  lemma {:induction false} EscapeFails(now: seq<Octet>, was: seq<Octet>, start: nat, i: nat, pull: nat, error: Error)
    requires Progress(now, was, start, i, pull) && i < |now| && now[i] == BACKSLASH
    requires EscapeUnit(now[i..]) == BadUnit(error)
    ensures Unescape(was[start..]) == BadText(error)
  {
    var v := now[i..];
    assert v == was[i..] && v[0] == now[i];
    assert Unescape(v) == BadText(error);
  }

  /** vely_decode_utf8 into a buffer. */
  method WriteInto(val: array<Octet>, at: nat, u: nat) returns (w: Written)
    requires at + 4 <= val.Length
    modifies val
    ensures w == WriteUtf8(u)
    ensures if w.Bytes? then Wrote(old(val[..]), val[..], at, w.s) else val[..] == old(val[..])
  {
    w := WriteUtf8(u);
    if w.Bytes? {
      forall k | 0 <= k < |w.s| { val[at + k] := w.s[k]; }
    }
  }

  datatype Outcome = Done(end: nat) | Error(error: Error)

  // The text after a \u, i being the place of the u (json.c:748-776); the result goes to i - 1 - pull.
  method UnescapeCode(val: array<Octet>, i: nat, pull: nat, ghost z: nat) returns (w: Written, totjv: nat)
    requires 1 <= i <= z < val.Length && val[z] == 0 && pull <= i - 1
    requires val[i - 1] == BACKSLASH && val[i] == LOWER_U
    modifies val
    ensures old(val[i - 1..])[0] == BACKSLASH && EscapeUnit(old(val[i - 1..])) == Wrap(w, totjv)
    ensures if w.Bytes? then i - 1 + totjv <= z && |w.s| < totjv && Wrote(old(val[..]), val[..], i - 1 - pull, w.s)
            else val[..] == old(val[..])
  {
    ghost var v := val[i - 1..];
    var c := i + 1;
    totjv := 6;
    assert Suffix(v, 2) == val[c..] && ByteAt(v, 1) == LOWER_U;
    var r := GetHexAt(val, c, z);
    if r < 0 { return Refused(BadHex), totjv; }
    var rtot := r;
    if 0xD800 <= r <= 0xDFFF {
      totjv := totjv + 6;
      c := c + 4;
      assert ByteAt(v, 6) == val[c];
      if val[c] != BACKSLASH { return Refused(NoSurrogate), totjv; }
      assert ByteAt(v, 7) == val[c + 1];
      if val[c + 1] != LOWER_U { return Refused(NoSurrogate), totjv; }
      assert Suffix(v, 8) == val[c + 2..];
      var r1 := GetHexAt(val, c + 2, z);
      if r1 < 0 { return Refused(BadHex), totjv; }
      rtot := FromSurrogates(r, r1);
    }
    w := WriteInto(val, i - 1 - pull, rtot);
  }

  lemma {:induction false} WroteBefore(now: seq<Octet>, next: seq<Octet>, j: nat, s: seq<Octet>, k: nat)
    requires Wrote(now, next, j, s) && j + |s| <= k < |now|
    ensures next[k] == now[k]
  {
  }

  // A backslash at `at` and what follows it; the result goes to at - pull.
  method Interpret(val: array<Octet>, at: nat, pull: nat, ghost z: nat) returns (u: Unit)
    requires at < z < val.Length && val[z] == 0 && pull <= at && val[at] == BACKSLASH
    modifies val
    ensures old(val[at..])[0] == BACKSLASH && u == EscapeUnit(old(val[at..]))
    ensures u.Unit? ==> at + u.len <= z && Wrote(old(val[..]), val[..], at - pull, u.s)
  {
    ghost var now, v := val[..], val[at..];
    var i := at + 1;
    assert ByteAt(v, 1) == val[i];
    var x := Plain(val[i]);
    if x >= 0 {
      val[i - 1 - pull] := x;
      return Unit([x], 2);
    } else if val[i] == LOWER_U {
      var w, totjv := UnescapeCode(val, i, pull, z);
      return Wrap(w, totjv);
    } else {
      return BadUnit(BadEscape);
    }
  }

  // One escape of the text (json.c:733-780); a false result is an error.
  method UnescapeOne(val: array<Octet>, at: nat, p: nat, ghost z: nat, ghost was: seq<Octet>, ghost start: nat)
    returns (ok: bool, i: nat, pull: nat, error: Error)
    requires Progress(val[..], was, start, at, p) && at < z < val.Length && val[z] == 0 && val[at] == BACKSLASH
    modifies val
    ensures if ok then at < i <= z && Progress(val[..], was, start, i, pull) && val[z] == 0
            else Unescape(was[start..]) == BadText(error)
  {
    ghost var now := val[..];
    assert val[at..] == now[at..];
    var u := Interpret(val, at, p, z);
    if u.BadUnit? {
      EscapeFails(now, was, start, at, p, u.error);
      return false, at, p, u.error;
    }
    ok, i, pull, error := true, at + u.len, p + u.len - |u.s|, BadEscape;
    WroteBefore(now, val[..], at - p, u.s, z);
    EscapeHandled(now, was, start, at, p, u, val[..], i, pull);
  }

  // A byte that is no escape (json.c:781-786)
  method KeepByte(val: array<Octet>, i: nat, pull: nat, ghost z: nat, ghost was: seq<Octet>, ghost start: nat)
    requires Progress(val[..], was, start, i, pull) && i < z < val.Length && val[z] == 0
    requires !Ends(was[i..]) && val[i] != BACKSLASH
    modifies val
    ensures Progress(val[..], was, start, i + 1, pull) && val[z] == 0
  {
    ghost var now := val[..];
    assert was[i..][0] == now[i..][0] == now[i];
    if pull != 0 { val[i - pull] := val[i]; }
    assert Wrote(now, val[..], i - pull, [now[i]]);
    Handled(now, was, start, i, pull, [now[i]], 1, val[..]);
  }

  // The end of the text (json.c:789-794)
  method EndText(val: array<Octet>, quoted: bool, i: nat, pull: nat, ghost was: seq<Octet>, ghost start: nat)
    returns (r: Outcome)
    requires Progress(val[..], was, start, i, pull) && i < val.Length && Ends(val[i..])
    modifies val
    ensures var t := Unescape(was[start..]);
            && t.Text? && t.end == i - start && |t.s| == i - pull - start && val[start..start + |t.s|] == t.s
            && (|t.s| < t.end ==> val[start + |t.s|] == 0)
            && val[i..] == was[i..]
            && r == if quoted && was[i] == 0 then Error(NoQuote) else Done(i)
  {
    ghost var s := val[start..i - pull];
    assert Unescape(was[i..]) == Text([], 0) && Unescape(was[start..]) == Text(s, i - start);
    assert val[i] == val[i..][0] == was[i..][0] == was[i];
    if pull != 0 { val[i - pull] := 0; }
    assert val[start..i - pull] == s;
    return if val[i] == 0 && quoted then Error(NoQuote) else Done(i);
  }

  /** vely_json_to_utf8 with conversion: the string that ends at z is replaced by the text it stands for,
      writing never overtaking reading. */
  method JsonToUtf8(val: array<Octet>, quoted: bool, ghost z: nat) returns (r: Outcome)
    requires z < val.Length && val[z] == 0 && (quoted ==> 1 <= z)
    modifies val
    ensures var start, was := if quoted then 1 else 0, old(val[..]);
            match Unescape(was[start..])
            case BadText(error) => r == Error(error)
            case Text(s, n) =>
              && |s| <= n && start + n <= z && val[start..start + |s|] == s
              && (|s| < n ==> val[start + |s|] == 0)
              && val[start + n..] == was[start + n..]
              && r == if quoted && was[start + n] == 0 then Error(NoQuote) else Done(start + n)
  {
    ghost var was := val[..];
    ghost var start := if quoted then 1 else 0;
    var i: nat := if quoted then 1 else 0;
    var pull: nat := 0;
    ThenNothing(Unescape(was[start..]), val[start..start]);
    while val[i] != QUOTE && val[i] != 0
      invariant start <= i <= z && val[z] == 0 && Progress(val[..], was, start, i, pull)
      decreases z - i
    {
      assert val[i] == val[i..][0] == was[i..][0];
      if val[i] == BACKSLASH {
        var ok, i1, pull1, error := UnescapeOne(val, i, pull, z, was, start);
        if !ok { return Error(error); }
        i, pull := i1, pull1;
      } else {
        KeepByte(val, i, pull, z, was, start);
        i := i + 1;
      }
    }
    r := EndText(val, quoted, i, pull, was, start);
  }

  lemma {:induction false} ThenNothing(t: Text, s: seq<Octet>)
    requires s == []
    ensures Then(s, 0, t) == t
  {
    if t.Text? { assert [] + t.s == t.s; }
  }

  // ---- Escaping into a buffer ----

  method Append(res: array<Octet>, r: nat, e: seq<Octet>) returns (r1: nat)
    requires r + |e| <= res.Length
    modifies res
    ensures r1 == r + |e| && res[..r1] == old(res[..r]) + e
  {
    forall k | 0 <= k < |e| { res[r + k] := e[k]; }
    r1 := r + |e|;
  }

  lemma {:induction false} PrependTwice(a: seq<Octet>, b: seq<Octet>, x: Escaped)
    ensures Prepend(a, Prepend(b, x)) == Prepend(a + b, x)
  {
    if x.Out? { assert a + (b + x.s) == a + b + x.s; }
  }

  /** vely_utf8_to_json: three bytes for each and one to end the text are always enough room. */
  method Utf8ToJson(val: seq<Octet>) returns (res: array<Octet>, r: int, error: Error)
    ensures res.Length == 3 * |val| + 1
    ensures match Escape(val)
            case Failed(e) => r == -1 && error == e
            case Out(s) => r == |s| <= 3 * |val| && res[..r] == s && res[r] == 0
  {
    res, error := new Octet[3 * |val| + 1], InvalidLead;
    var i, n := 0, 0;
    while i < |val|
      invariant 0 <= i <= |val| && 0 <= n <= 3 * i
      invariant Escape(val) == Prepend(res[..n], Escape(val[i..]))
      decreases |val| - i
    {
      ghost var before := res[..n];
      if val[i] >= 192 {
        var c := ReadUtf8(val[i..]);
        if c.Bad? { return res, -1, c.error; }
        assert val[i..][c.len..] == val[i + c.len..];
        PrependTwice(before, EscapeCode(c.u), Escape(val[i + c.len..]));
        n := Append(res, n, EscapeCode(c.u));
        i := i + c.len;
      } else {
        assert val[i..][1..] == val[i + 1..];
        PrependTwice(before, EscapeByte(val[i]), Escape(val[i + 1..]));
        n := Append(res, n, EscapeByte(val[i]));
        i := i + 1;
      }
    }
    assert val[i..] == [] && Escape(val) == Out(res[..n] + []);
    res[n] := 0;
    r := n;
  }
}
