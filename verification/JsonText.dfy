/** JSON string escapes (json.c:670-884): the escaper, the in-place unescaper, and when one undoes the other. */
module JsonText {
  import opened Utf8
  import opened Octets
  import opened Sequences

  const LOWER_U: Octet := 117

  function Suffix(v: seq<Octet>, k: nat): seq<Octet> {
    if k <= |v| then v[k..] else []
  }

  // ---- Four hexadecimal digits ----

  function HexDigit(x: nat): Octet
    requires x < 16
  {
    if x <= 9 then 48 + x else 97 - 10 + x
  }

  // -1 if the byte is no digit
  function HexValue(b: Octet): (r: int)
    ensures -1 <= r < 16
  {
    if 48 <= b <= 57 then b - 48
    else if 97 <= b <= 102 then b - 97 + 10
    else if 65 <= b <= 70 then b - 65 + 10
    else -1
  }

  function Hex4(u: nat): (h: seq<Octet>)
    requires u < 0x10000
    ensures |h| == 4
  {
    [HexDigit(u / 0x1000), HexDigit(u / 0x100 % 16), HexDigit(u / 0x10 % 16), HexDigit(u % 16)]
  }

  /** vely_get_hex: the number four digits stand for, or -1. */
  function GetHex(v: seq<Octet>): (r: int)
    ensures -1 <= r < 0x10000
    ensures r >= 0 ==> |v| >= 4
  {
    var a, b, c, d := HexValue(ByteAt(v, 0)), HexValue(ByteAt(v, 1)), HexValue(ByteAt(v, 2)), HexValue(ByteAt(v, 3));
    if a < 0 || b < 0 || c < 0 || d < 0 then -1 else a * 0x1000 + b * 0x100 + c * 0x10 + d
  }

  lemma {:induction false} DigitBack(x: nat)
    requires x < 16
    ensures HexValue(HexDigit(x)) == x
  {
  }

  lemma {:induction false} FourDigits(u: nat)
    requires u < 0x10000
    ensures u / 0x1000 < 16
    ensures u == u / 0x1000 * 0x1000 + u / 0x100 % 16 * 0x100 + u / 0x10 % 16 * 0x10 + u % 16
  {
    assert u / 0x100 == u / 0x1000 * 16 + u / 0x100 % 16;
    assert u / 0x10 == u / 0x100 * 16 + u / 0x10 % 16;
  }

  lemma {:induction false} HexBack(u: nat, rest: seq<Octet>)
    requires u < 0x10000
    ensures GetHex(Hex4(u) + rest) == u
  {
    FourDigits(u);
    DigitBack(u / 0x1000);
    DigitBack(u / 0x100 % 16);
    DigitBack(u / 0x10 % 16);
    DigitBack(u % 16);
    FirstFour(Hex4(u), rest);
  }

  lemma {:induction false} FirstFour(h: seq<Octet>, rest: seq<Octet>)
    requires |h| == 4
    ensures ByteAt(h + rest, 0) == h[0] && ByteAt(h + rest, 1) == h[1]
    ensures ByteAt(h + rest, 2) == h[2] && ByteAt(h + rest, 3) == h[3]
  {
  }

  // ---- Escaping ----

  function EscapeByte(b: Octet): (e: seq<Octet>)
    ensures 1 <= |e| <= 2
  {
    if b == QUOTE || b == BACKSLASH then [BACKSLASH, b]
    else if b == 8 then [BACKSLASH, 98]
    else if b == 12 then [BACKSLASH, 102]
    else if b == 10 then [BACKSLASH, 110]
    else if b == 13 then [BACKSLASH, 114]
    else if b == 9 then [BACKSLASH, 116]
    else [b]
  }

  function Unicode(u: nat): (e: seq<Octet>)
    requires u < 0x10000
    ensures |e| == 6
  {
    [BACKSLASH, LOWER_U] + Hex4(u)
  }

  function EscapeCode(u: nat): (e: seq<Octet>)
    requires u < 0x200000
    ensures |e| == if u >= 0x10000 then 12 else 6
  {
    if u >= 0x10000 then Unicode(HighSurrogate(u)) + Unicode(LowSurrogate(u)) else Unicode(u)
  }

  datatype Escaped = Out(s: seq<Octet>) | Failed(error: Error)

  function Prepend(e: seq<Octet>, x: Escaped): Escaped {
    if x.Out? then Out(e + x.s) else x
  }

  /** vely_utf8_to_json */
  function Escape(s: seq<Octet>): Escaped
    decreases |s|
  {
    if s == [] then Out([])
    else if s[0] >= 192 then
      match ReadUtf8(s)
      case Bad(error) => Failed(error)
      case Char(u, n) => Prepend(EscapeCode(u), Escape(s[n..]))
    else Prepend(EscapeByte(s[0]), Escape(s[1..]))
  }

  // ---- Unescaping ----

  datatype Unit = Unit(s: seq<Octet>, len: nat) | BadUnit(error: Error)

  function Wrap(w: Written, len: nat): Unit {
    if w.Bytes? then Unit(w.s, len) else BadUnit(w.error)
  }

  // What a backslash and this byte stand for, or -1
  function Plain(c: Octet): (r: int)
    ensures -1 <= r < 256
  {
    if c == QUOTE || c == BACKSLASH || c == 47 then c
    else if c == 98 then 8
    else if c == 102 then 12
    else if c == 110 then 10
    else if c == 114 then 13
    else if c == 116 then 9
    else -1
  }

  /** The escape at the start of the string. */
  function EscapeUnit(v: seq<Octet>): (r: Unit)
    requires v != [] && v[0] == BACKSLASH
    ensures r.Unit? ==> 1 <= |r.s| < r.len <= |v|
  {
    var c := ByteAt(v, 1);
    if Plain(c) >= 0 then Unit([Plain(c)], 2)
    else if c == LOWER_U then
      var r := GetHex(Suffix(v, 2));
      if r < 0 then BadUnit(BadHex)
      else if IsSurrogate(r) then
        if ByteAt(v, 6) != BACKSLASH || ByteAt(v, 7) != LOWER_U then BadUnit(NoSurrogate)
        else
          var r1 := GetHex(Suffix(v, 8));
          if r1 < 0 then BadUnit(BadHex) else Wrap(WriteUtf8(FromSurrogates(r, r1)), 12)
      else Wrap(WriteUtf8(r), 6)
    else BadUnit(BadEscape)
  }

  datatype Text = Text(s: seq<Octet>, end: nat) | BadText(error: Error)

  function Then(s: seq<Octet>, n: nat, t: Text): Text {
    if t.Text? then Text(s + t.s, n + t.end) else t
  }

  predicate Ends(v: seq<Octet>) {
    ByteAt(v, 0) == 0 || ByteAt(v, 0) == QUOTE
  }

  /** vely_json_to_utf8: the text up to the zero or the first bare quote, and where that is. */
  function Unescape(v: seq<Octet>): Text
    decreases |v|
  {
    if Ends(v) then Text([], 0)
    else if v[0] != BACKSLASH then Then([v[0]], 1, Unescape(v[1..]))
    else
      match EscapeUnit(v)
      case BadUnit(error) => BadText(error)
      case Unit(s, n) => Then(s, n, Unescape(v[n..]))
  }

  // ---- One undoes the other ----

  lemma {:induction false} ByteBack(b: Octet, rest: seq<Octet>)
    requires 0 < b < 192
    ensures Unescape(EscapeByte(b) + rest) == Then([b], |EscapeByte(b)|, Unescape(rest))
  {
    var v := EscapeByte(b) + rest;
    assert v[|EscapeByte(b)|..] == rest;
    if |EscapeByte(b)| == 2 {
      assert v[0] == BACKSLASH && ByteAt(v, 1) == EscapeByte(b)[1];
      assert EscapeUnit(v) == Unit([b], 2);
    }
  }

  // A \uXXXX whose code is no surrogate
  lemma {:induction false} UnicodeUnit(u: nat, rest: seq<Octet>)
    requires u < 0x10000 && !IsSurrogate(u)
    ensures EscapeUnit(Unicode(u) + rest) == Wrap(WriteUtf8(u), 6)
  {
    var v := Unicode(u) + rest;
    assert Suffix(v, 2) == Hex4(u) + rest;
    HexBack(u, rest);
  }

  lemma {:induction false} PairUnit(u0: nat, u1: nat, rest: seq<Octet>)
    requires IsSurrogate(u0) && u1 < 0x10000
    ensures EscapeUnit(Unicode(u0) + (Unicode(u1) + rest)) == Wrap(WriteUtf8(FromSurrogates(u0, u1)), 12)
  {
    var v := Unicode(u0) + (Unicode(u1) + rest);
    assert Suffix(v, 2) == Hex4(u0) + (Unicode(u1) + rest);
    HexBack(u0, Unicode(u1) + rest);
    assert Suffix(v, 8) == Hex4(u1) + rest;
    HexBack(u1, rest);
  }

  lemma {:induction false} CodeUnit(u: nat, rest: seq<Octet>)
    requires u < 0x200000 && !IsSurrogate(u)
    ensures EscapeUnit(EscapeCode(u) + rest) == Wrap(WriteUtf8(u), |EscapeCode(u)|)
  {
    if u >= 0x10000 {
      SurrogatePair(u);
      var a, b := Unicode(HighSurrogate(u)), Unicode(LowSurrogate(u));
      PairUnit(HighSurrogate(u), LowSurrogate(u), rest);
      assert a + b + rest == a + (b + rest);
    } else {
      UnicodeUnit(u, rest);
    }
  }

  lemma {:induction false} CodeBack(u: nat, rest: seq<Octet>)
    requires u < 0x200000 && !IsSurrogate(u)
    ensures Unescape(EscapeCode(u) + rest) ==
            match WriteUtf8(u)
            case Bytes(s) => Then(s, |EscapeCode(u)|, Unescape(rest))
            case Refused(error) => BadText(error)
  {
    var v := EscapeCode(u) + rest;
    CodeUnit(u, rest);
    assert v[|EscapeCode(u)|..] == rest;
  }

  /** Text as the program means it: well-formed UTF-8 without NUL and U+FEFF. */
  predicate Proper(s: seq<Octet>)
    decreases |s|
  {
    s == [] || (CharLength(s) > 0 && s[0] != 0 && !IsFEFF(s) && Proper(s[CharLength(s)..]))
  }

  /** Only the sequences that start like a character of several bytes need be characters. */
  predicate ProperLeads(s: seq<Octet>)
    decreases |s|
  {
    if s == [] then true
    else if s[0] >= 192 then CharLength(s) > 0 && !IsFEFF(s) && ProperLeads(s[CharLength(s)..])
    else ProperLeads(s[1..])
  }

  lemma {:induction false} ProperHasProperLeads(s: seq<Octet>)
    requires Proper(s)
    ensures ProperLeads(s) && 0 !in s
    decreases |s|
  {
    if s != [] {
      var n := CharLength(s);
      ProperHasProperLeads(s[n..]);
      assert s == s[..n] + s[n..];
      assert 0 !in s[..n];
    }
  }

  lemma {:induction false} EscapeWorks(s: seq<Octet>)
    requires ProperLeads(s)
    ensures Escape(s).Out?
    decreases |s|
  {
    if s != [] {
      if s[0] >= 192 {
        CanonicalIsWellFormed(s);
        EscapeWorks(s[CharLength(s)..]);
      } else {
        EscapeWorks(s[1..]);
      }
    }
  }

  /** The escaped text is at most three times as long, whatever the bytes. */
  lemma {:induction false} EscapeLength(s: seq<Octet>)
    requires Escape(s).Out?
    ensures |Escape(s).s| <= 3 * |s|
    decreases |s|
  {
    if s != [] {
      EscapeLength(if s[0] >= 192 then s[ReadUtf8(s).len..] else s[1..]);
    }
  }

  lemma {:induction false} CodeStep(s: seq<Octet>, tail: seq<Octet>)
    requires s != [] && s[0] >= 192 && Canonical(s) && Escape(s).Out?
    ensures var u, n := ReadUtf8(s).u, ReadUtf8(s).len;
            Unescape(Escape(s).s + tail) == Then(s[..n], |EscapeCode(u)|, Unescape(Escape(s[n..]).s + tail))
  {
    var u, n := ReadUtf8(s).u, ReadUtf8(s).len;
    var r := Escape(s[n..]).s;
    assert Escape(s).s + tail == EscapeCode(u) + (r + tail) by { Regroup(EscapeCode(u), r, tail); }
    CodeBack(u, r + tail);
  }

  lemma {:induction false} ByteStep(s: seq<Octet>, tail: seq<Octet>)
    requires s != [] && 0 < s[0] < 192 && Escape(s).Out?
    ensures Unescape(Escape(s).s + tail) == Then([s[0]], |EscapeByte(s[0])|, Unescape(Escape(s[1..]).s + tail))
  {
    var r := Escape(s[1..]).s;
    assert Escape(s).s + tail == EscapeByte(s[0]) + (r + tail) by { Regroup(EscapeByte(s[0]), r, tail); }
    ByteBack(s[0], r + tail);
  }

  /** Unescaping undoes escaping for all strings without NUL whose leading bytes start characters. */
  lemma {:induction false} Undone(s: seq<Octet>, tail: seq<Octet>)
    requires ProperLeads(s) && 0 !in s && Ends(tail)
    ensures Escape(s).Out? && Unescape(Escape(s).s + tail) == Text(s, |Escape(s).s|)
    decreases |s|
  {
    EscapeWorks(s);
    if s == [] {
      assert [] + tail == tail;
    } else if s[0] >= 192 {
      var n := CharLength(s);
      assert Canonical(s) && n == ReadUtf8(s).len by { CanonicalIsWellFormed(s); }
      CodeStep(s, tail);
      NoZero(s, n);
      Undone(s[n..], tail);
      Rejoined(s, n);
    } else {
      ByteStep(s, tail);
      NoZero(s, 1);
      Undone(s[1..], tail);
      Rejoined(s, 1);
    }
  }

  lemma {:induction false} NoZero(s: seq<Octet>, n: nat)
    requires 0 !in s && n <= |s|
    ensures 0 !in s[n..]
  {
  }

  lemma {:induction false} Rejoined(s: seq<Octet>, n: nat)
    requires n <= |s|
    ensures s[..n] + s[n..] == s && (n == 1 ==> s[..n] == [s[0]])
  {
  }

  /** The promise: proper text comes back, before the terminating zero or before a closing quote. */
  lemma {:induction false} RoundTrip(s: seq<Octet>, tail: seq<Octet>)
    requires Proper(s) && Ends(tail)
    ensures Escape(s).Out? && |Escape(s).s| <= 3 * |s|
    ensures Unescape(Escape(s).s + tail) == Text(s, |Escape(s).s|)
  {
    ProperHasProperLeads(s);
    Undone(s, tail);
    EscapeLength(s);
  }

  // ---- Nothing else comes back ----

  predicate IsUnicode(v: seq<Octet>) {
    ByteAt(v, 0) == BACKSLASH && ByteAt(v, 1) == LOWER_U && GetHex(Suffix(v, 2)) >= 0
  }

  /** How many bytes an escaped text gives at most, a surrogate counting for two. */
  function Weight(v: seq<Octet>): nat
    decreases |v|
  {
    if Ends(v) then 0
    else if IsUnicode(v) then
      var r := GetHex(Suffix(v, 2));
      (if r <= 0x7FF || IsSurrogate(r) then 2 else 3) + Weight(v[6..])
    else if v[0] == BACKSLASH && |v| >= 2 then 1 + Weight(v[2..])
    else 1 + Weight(v[1..])
  }

  // An escape counts for the bytes it gives.
  lemma {:induction false} UnitWeight(v: seq<Octet>)
    requires v != [] && v[0] == BACKSLASH && EscapeUnit(v).Unit?
    ensures |EscapeUnit(v).s| + Weight(v[EscapeUnit(v).len..]) <= Weight(v)
  {
    if ByteAt(v, 1) == LOWER_U {
      assert IsUnicode(v);
      if IsSurrogate(GetHex(Suffix(v, 2))) {
        assert Suffix(v[6..], 2) == Suffix(v, 8);
        assert v[6..][6..] == v[12..];
      }
    }
  }

  lemma {:induction false} UnescapeWeight(v: seq<Octet>)
    requires Unescape(v).Text?
    ensures |Unescape(v).s| <= Weight(v)
    decreases |v|
  {
    if !Ends(v) {
      if v[0] == BACKSLASH {
        UnitWeight(v);
        UnescapeWeight(v[EscapeUnit(v).len..]);
      } else {
        UnescapeWeight(v[1..]);
      }
    }
  }

  lemma {:induction false} UnicodeWeight(u: nat, rest: seq<Octet>)
    requires u < 0x10000
    ensures Weight(Unicode(u) + rest) == (if u <= 0x7FF || IsSurrogate(u) then 2 else 3) + Weight(rest)
  {
    var v := Unicode(u) + rest;
    assert Suffix(v, 2) == Hex4(u) + rest;
    HexBack(u, rest);
    assert v[6..] == rest;
  }

  lemma {:induction false} CodeWeight(s: seq<Octet>, rest: seq<Octet>)
    requires s != [] && s[0] >= 192 && ReadUtf8(s).Char?
    ensures Weight(EscapeCode(ReadUtf8(s).u) + rest) <= ReadUtf8(s).len + Weight(rest)
  {
    var u := ReadUtf8(s).u;
    if u >= 0x10000 {
      SurrogatePair(u);
      var a, b := Unicode(HighSurrogate(u)), Unicode(LowSurrogate(u));
      UnicodeWeight(HighSurrogate(u), b + rest);
      UnicodeWeight(LowSurrogate(u), rest);
      assert a + b + rest == a + (b + rest);
    } else {
      UnicodeWeight(u, rest);
    }
  }

  lemma {:induction false} ByteWeight(b: Octet, rest: seq<Octet>)
    ensures Weight(EscapeByte(b) + rest) <= 1 + Weight(rest)
  {
    var v := EscapeByte(b) + rest;
    assert v[|EscapeByte(b)|..] == rest;
  }

  lemma {:induction false} EscapeWeight(s: seq<Octet>, tail: seq<Octet>)
    requires Escape(s).Out? && Ends(tail)
    ensures Weight(Escape(s).s + tail) <= |s|
    decreases |s|
  {
    if s == [] {
      assert [] + tail == tail;
    } else if s[0] >= 192 {
      var n := ReadUtf8(s).len;
      EscapeWeight(s[n..], tail);
      Regroup(EscapeCode(ReadUtf8(s).u), Escape(s[n..]).s, tail);
      CodeWeight(s, Escape(s[n..]).s + tail);
    } else {
      EscapeWeight(s[1..], tail);
      Regroup(EscapeByte(s[0]), Escape(s[1..]).s, tail);
      ByteWeight(s[0], Escape(s[1..]).s + tail);
    }
  }

  // A surrogate joined with whatever follows gives too few bytes.
  lemma {:induction false} LoneSurrogate(u: nat, rest: seq<Octet>)
    requires IsSurrogate(u)
    ensures var t := Unescape(Unicode(u) + rest); t.Text? ==> |t.s| <= 2 + Weight(rest)
  {
    var v := Unicode(u) + rest;
    UnicodeWeight(u, rest);
    if Unescape(v).Text? { UnescapeWeight(v); }
  }

  // A sequence that is no character does not come back, whatever follows.
  lemma {:induction false} BadLead(s: seq<Octet>, rest: seq<Octet>)
    requires s != [] && s[0] >= 192 && ReadUtf8(s).Char? && !Canonical(s)
    requires Weight(rest) <= |s| - ReadUtf8(s).len
    ensures var t := Unescape(EscapeCode(ReadUtf8(s).u) + rest); !(t.Text? && t.s == s)
  {
    var u, n := ReadUtf8(s).u, ReadUtf8(s).len;
    var t := Unescape(EscapeCode(u) + rest);
    if IsSurrogate(u) {
      LoneSurrogate(u, rest);
    } else if t.Text? {
      CodeBack(u, rest);
      UnescapeWeight(rest);
      var w := WriteUtf8(u).s;
      assert |w| <= n;
      assert t.s[..|w|] == w;
    }
  }

  /** Exactly these strings come back: those whose leading bytes all start well-formed characters other than
      U+FEFF. */
  lemma {:induction false} UndoneExactly(s: seq<Octet>, tail: seq<Octet>)
    requires 0 !in s && Ends(tail) && Escape(s).Out?
    ensures var t := Unescape(Escape(s).s + tail);
            t.Text? && t.s == s <==> ProperLeads(s)
    decreases |s|
  {
    if ProperLeads(s) {
      Undone(s, tail);
    } else if s[0] >= 192 {
      CanonicalIsWellFormed(s);
      var u, n := ReadUtf8(s).u, ReadUtf8(s).len;
      if Canonical(s) {
        CodeStep(s, tail);
        UndoneExactly(s[n..], tail);
        NotJoined(s, n, Unescape(Escape(s[n..]).s + tail), |EscapeCode(u)|);
      } else {
        EscapeWeight(s[n..], tail);
        BadLead(s, Escape(s[n..]).s + tail);
        Regroup(EscapeCode(u), Escape(s[n..]).s, tail);
      }
    } else {
      ByteStep(s, tail);
      UndoneExactly(s[1..], tail);
      assert s[..1] == [s[0]];
      NotJoined(s, 1, Unescape(Escape(s[1..]).s + tail), |EscapeByte(s[0])|);
    }
  }

  /** For instance U+FEFF and an encoded surrogate do not. */
  lemma {:induction false} NotUndone(tail: seq<Octet>)
    requires Ends(tail)
    ensures forall s :: s == [239, 187, 191] || s == [237, 160, 128] ==>
              Escape(s).Out? && var t := Unescape(Escape(s).s + tail); !(t.Text? && t.s == s)
  {
    forall s | s == [239, 187, 191] || s == [237, 160, 128]
      ensures Escape(s).Out? && var t := Unescape(Escape(s).s + tail); !(t.Text? && t.s == s)
    {
      assert s[3..] == [];
      UndoneExactly(s, tail);
    }
  }

  lemma {:induction false} NotJoined(s: seq<Octet>, n: nat, t: Text, k: nat)
    requires n <= |s| && !(t.Text? && t.s == s[n..])
    ensures var j := Then(s[..n], k, t); !(j.Text? && j.s == s)
  {
    if t.Text? {
      assert (s[..n] + t.s)[n..] == t.s;
    }
  }
}
