/** JSON strings by section 7 of RFC 7159 and UTF-8 by section 3 of RFC 3629, and that the escaper and the unescaper
    of json.c follow them. */
module JsonStrings {
  import opened Utf8
  import opened JsonText
  import opened Octets
  import opened Sequences

  // ---- UTF-8 ----

  predicate Continues(b: Octet) { 0x80 <= b < 0xC0 }

  /** The bytes of a character number (the table of section 3 of RFC 3629, the shortest form only) */
  predicate Encodes(s: seq<Octet>, u: int) {
    || (|s| == 1 && 0 <= u < 0x80 && s[0] as int == u)
    || (|s| == 2 && 0x80 <= u < 0x800 && 0xC0 <= s[0] < 0xE0 && Continues(s[1])
        && u == (s[0] as int - 0xC0) * 0x40 + (s[1] as int - 0x80))
    || (|s| == 3 && 0x800 <= u < 0x10000 && 0xE0 <= s[0] < 0xF0 && Continues(s[1]) && Continues(s[2])
        && u == (s[0] as int - 0xE0) * 0x1000 + (s[1] as int - 0x80) * 0x40 + (s[2] as int - 0x80))
    || (|s| == 4 && 0x10000 <= u <= 0x10FFFF && 0xF0 <= s[0] < 0xF8
        && Continues(s[1]) && Continues(s[2]) && Continues(s[3])
        && u == (s[0] as int - 0xF0) * 0x40000 + (s[1] as int - 0x80) * 0x1000
                + (s[2] as int - 0x80) * 0x40 + (s[3] as int - 0x80))
  }

  lemma {:induction false} WriteIs2(u: nat, s: seq<Octet>)
    requires 0x80 <= u < 0x800
    ensures WriteUtf8(u) == Bytes(s) <==> Encodes(s, u)
  {
    if |s| == 2 { assert s == [s[0], s[1]]; }
  }

  lemma {:induction false} WriteIs3(u: nat, s: seq<Octet>)
    requires 0x800 <= u < 0x10000 && u != 0xFEFF
    ensures WriteUtf8(u) == Bytes(s) <==> Encodes(s, u)
  {
    var x, y, z := u / 0x1000, u / 0x40 % 0x40, u % 0x40;
    assert u == x * 0x1000 + y * 0x40 + z by { assert u / 0x40 == x * 0x40 + y; }
    if Encodes(s, u) {
      Digits3(s[0] as int - 0xE0, s[1] as int - 0x80, s[2] as int - 0x80);
      assert s == [s[0], s[1], s[2]];
    }
  }

  lemma {:induction false} WriteIs4(u: nat, s: seq<Octet>)
    requires 0x10000 <= u <= 0x10FFFF
    ensures WriteUtf8(u) == Bytes(s) <==> Encodes(s, u)
  {
    var w, x, y, z := u / 0x40000, u / 0x1000 % 0x40, u / 0x40 % 0x40, u % 0x40;
    assert u == w * 0x40000 + x * 0x1000 + y * 0x40 + z by {
      assert u / 0x1000 == w * 0x40 + x && u / 0x40 == u / 0x1000 * 0x40 + y;
    }
    if Encodes(s, u) {
      Digits4(s[0] as int - 0xF0, s[1] as int - 0x80, s[2] as int - 0x80, s[3] as int - 0x80);
      assert s == [s[0], s[1], s[2], s[3]];
    }
  }

  /** What is written for a character number is its encoding, and nothing else is one. */
  lemma {:induction false} WriteIs(u: nat, s: seq<Octet>)
    requires u <= 0x10FFFF && u != 0xFEFF
    ensures WriteUtf8(u) == Bytes(s) <==> Encodes(s, u)
  {
    if u < 0x80 {
      if |s| == 1 { assert s == [s[0]]; }
    } else if u < 0x800 {
      WriteIs2(u, s);
    } else if u < 0x10000 {
      WriteIs3(u, s);
    } else {
      WriteIs4(u, s);
    }
  }

  lemma {:induction false} ReadIs4(u: nat, s: seq<Octet>, rest: seq<Octet>)
    requires Encodes(s, u) && |s| == 4
    ensures ReadUtf8(s + rest) == Char(u, 4)
  {
    var w := s + rest;
    assert ByteAt(w, 0) == s[0] && ByteAt(w, 1) == s[1] && ByteAt(w, 2) == s[2] && ByteAt(w, 3) == s[3];
  }

  lemma {:induction false} ReadIs3(u: nat, s: seq<Octet>, rest: seq<Octet>)
    requires Encodes(s, u) && |s| == 3
    ensures ReadUtf8(s + rest) == Char(u, 3)
  {
    var w := s + rest;
    assert ByteAt(w, 0) == s[0] && ByteAt(w, 1) == s[1] && ByteAt(w, 2) == s[2];
  }

  /** And it is read as that number, whatever follows. */
  lemma {:induction false} ReadIs(u: nat, s: seq<Octet>, rest: seq<Octet>)
    requires Encodes(s, u)
    ensures ReadUtf8(s + rest) == Char(u, |s|)
  {
    if |s| == 4 {
      ReadIs4(u, s, rest);
    } else if |s| == 3 {
      ReadIs3(u, s, rest);
    }
  }

  // ---- The meaning of a string's text ----

  // What a hexadecimal digit counts for, or -1
  function Nibble(c: Octet): int {
    if '0' as int <= c as int <= '9' as int then c as int - '0' as int
    else if 'a' as int <= c as int <= 'f' as int then 10 + c as int - 'a' as int
    else if 'A' as int <= c as int <= 'F' as int then 10 + c as int - 'A' as int
    else -1
  }

  // The number of hexadecimal digits, the highest first, or -1
  function HexOf(h: seq<Octet>): int {
    if h == [] then 0
    else
      var most, last := HexOf(h[..|h| - 1]), Nibble(h[|h| - 1]);
      if most < 0 || last < 0 then -1 else 16 * most + last
  }

  // The eight escapes of two characters: the letter and what it stands for
  predicate ShortEscape(c: Octet, b: Octet) {
    (c, b) in [(34, 34), (92, 92), (47, 47), (98, 8), (102, 12), (110, 10), (114, 13), (116, 9)]
  }

  // A \u escape of this number
  predicate Numbered(x: seq<Octet>, u: int) {
    |x| == 6 && x[0] == 92 && x[1] == 117 && u >= 0 && HexOf(x[2..6]) == u
  }

  predicate High(u: int) { 0xD800 <= u < 0xDC00 }

  predicate Low(u: int) { 0xDC00 <= u < 0xE000 }

  /** One character or escape and the bytes it stands for; a character of several bytes goes byte by byte */
  predicate Stands(x: seq<Octet>, y: seq<Octet>) {
    || (|x| == 1 && y == x && x[0] != 0 && x[0] != 34 && x[0] != 92)
    || (|x| == 2 && |y| == 1 && x[0] == 92 && ShortEscape(x[1], y[0]))
    || (|x| == 6 && var u := HexOf(x[2..6]); Numbered(x, u) && !High(u) && !Low(u) && Encodes(y, u))
    || (|x| == 12 && var u, l := HexOf(x[2..6]), HexOf(x[8..12]);
        Numbered(x[..6], u) && Numbered(x[6..], l) && High(u) && Low(l)
        && Encodes(y, 0x10000 + (u - 0xD800) * 0x400 + (l - 0xDC00)))
  }

  predicate Step(v: seq<Octet>, s: seq<Octet>, k: nat, n: nat) {
    0 < k <= |v| && n <= |s| && Stands(v[..k], s[..n])
  }

  /** The text between the quotes of a string stands for these bytes. */
  ghost predicate Means(v: seq<Octet>, s: seq<Octet>)
    decreases |v|
  {
    || (v == [] && s == [])
    || exists k: nat, n: nat :: Step(v, s, k, n) && Means(v[k..], s[n..])
  }

  predicate Escaped(v: seq<Octet>) { |v| >= 6 && v[0] == 92 && v[1] == 117 && HexOf(v[2..6]) >= 0 }

  // Some escape is the one of U+FEFF.
  predicate Marks(v: seq<Octet>)
    decreases |v|
  {
    v != [] &&
    if v[0] != 92 || |v| == 1 then Marks(v[1..])
    else (Escaped(v) && HexOf(v[2..6]) == 0xFEFF) || Marks(v[2..])
  }

  // The surrogates come in pairs, the high one first.
  predicate Paired(v: seq<Octet>)
    decreases |v|
  {
    if v == [] then true
    else if v[0] != 92 || |v| == 1 then Paired(v[1..])
    else if Escaped(v) && (High(HexOf(v[2..6])) || Low(HexOf(v[2..6]))) then
      High(HexOf(v[2..6])) && Escaped(v[6..]) && Low(HexOf(v[8..12])) && Paired(v[12..])
    else Paired(v[2..])
  }

  lemma {:induction false} HexAgrees(h: seq<Octet>, rest: seq<Octet>)
    requires |h| == 4
    ensures GetHex(h + rest) == HexOf(h)
  {
    FirstFour(h, rest);
    assert h[..3][..2] == h[..2] && h[..2][..1] == h[..1] && h[..1][..0] == [];
    assert HexOf([]) == 0;
    assert HexOf(h[..1]) == Nibble(h[0]);
    assert HexOf(h[..2]) == if Nibble(h[0]) < 0 || Nibble(h[1]) < 0 then -1 else 16 * Nibble(h[0]) + Nibble(h[1]);
    assert HexOf(h[..3]) == if HexOf(h[..2]) < 0 || Nibble(h[2]) < 0 then -1 else 16 * HexOf(h[..2]) + Nibble(h[2]);
  }

  lemma {:induction false} HexOfFour(u: nat)
    requires u < 0x10000
    ensures HexOf(Hex4(u)) == u
  {
    HexBack(u, []);
    HexAgrees(Hex4(u), []);
  }

  // ---- The unescaper gives exactly that meaning ----

  lemma {:induction false} Ahead(x: seq<Octet>, rest: seq<Octet>)
    requires |x| >= 6
    ensures ByteAt(x + rest, 1) == x[1] && GetHex(Suffix(x + rest, 2)) == HexOf(x[2..6])
    ensures |x| >= 12 ==> ByteAt(x + rest, 6) == x[6] && ByteAt(x + rest, 7) == x[7]
                          && GetHex(Suffix(x + rest, 8)) == HexOf(x[8..12])
  {
    assert Suffix(x + rest, 2) == x[2..6] + (x[6..] + rest);
    HexAgrees(x[2..6], x[6..] + rest);
    if |x| >= 12 {
      assert Suffix(x + rest, 8) == x[8..12] + (x[12..] + rest);
      HexAgrees(x[8..12], x[12..] + rest);
    }
  }

  lemma {:induction false} Lengths(y: seq<Octet>, u: int)
    requires Encodes(y, u)
    ensures 0 <= u <= 0x10FFFF && |y| >= 1
  {
  }

  // An escape that stands for something is read as that.
  lemma {:induction false} UnitStands(x: seq<Octet>, y: seq<Octet>, rest: seq<Octet>)
    requires Stands(x, y) && x[0] == 92
    ensures |x| == 6 && HexOf(x[2..6]) == 0xFEFF ==> EscapeUnit(x + rest) == BadUnit(IllegalFEFF)
    ensures !(|x| == 6 && HexOf(x[2..6]) == 0xFEFF) ==> EscapeUnit(x + rest) == Unit(y, |x|)
  {
    if |x| == 2 {
      assert y == [y[0]];
      assert ByteAt(x + rest, 1) == x[1];
    } else {
      Ahead(x, rest);
      var u := HexOf(x[2..6]);
      if |x| == 6 {
        Lengths(y, u);
        if u != 0xFEFF { WriteIs(u, y); }
      } else {
        var l := HexOf(x[8..12]);
        assert x[6..][2..6] == x[8..12] && x[..6][2..6] == x[2..6];
        assert FromSurrogates(u, l) == 0x10000 + (u - 0xD800) * 0x400 + (l - 0xDC00);
        WriteIs(FromSurrogates(u, l), y);
      }
    }
  }

  // And the other way round
  lemma {:induction false} StandsUnit(x: seq<Octet>, y: seq<Octet>, rest: seq<Octet>)
    requires x != [] && x[0] == 92 && EscapeUnit(x + rest) == Unit(y, |x|)
    requires |x| == 12 ==> Paired(x)
    ensures Stands(x, y)
  {
    var c := ByteAt(x + rest, 1);
    if |x| == 2 {
      assert c == x[1];
    } else {
      assert |x| == 6 || |x| == 12;
      Ahead(x, rest);
      var u := HexOf(x[2..6]);
      if |x| == 6 {
        WriteIs(u, y);
      } else {
        var l := HexOf(x[8..12]);
        assert x[6..][2..6] == x[8..12] && x[..6][2..6] == x[2..6];
        assert FromSurrogates(u, l) == 0x10000 + (u - 0xD800) * 0x400 + (l - 0xDC00);
        WriteIs(FromSurrogates(u, l), y);
      }
    }
  }

  // ---- Whole texts ----

  // Bytes that are no backslash are passed.
  lemma {:induction false} Passed(v: seq<Octet>, n: nat)
    requires n <= |v| && 92 !in v[..n]
    ensures Marks(v) == Marks(v[n..]) && Paired(v) == Paired(v[n..])
  {
    if n == 0 {
      assert v[0..] == v;
    } else {
      assert v[0] == v[..n][0];
      assert v[1..][..n - 1] == v[..n][1..] && v[1..][n - 1..] == v[n..];
      Passed(v[1..], n - 1);
    }
  }

  lemma {:induction false} AllDigits(h: seq<Octet>)
    requires HexOf(h) >= 0
    ensures 92 !in h
    decreases |h|
  {
    if h != [] {
      AllDigits(h[..|h| - 1]);
      assert h == h[..|h| - 1] + [h[|h| - 1]];
    }
  }

  lemma {:induction false} NumberPassed(v: seq<Octet>)
    requires Escaped(v)
    ensures Marks(v) <==> HexOf(v[2..6]) == 0xFEFF || Marks(v[6..])
    ensures !High(HexOf(v[2..6])) && !Low(HexOf(v[2..6])) ==> Paired(v) == Paired(v[6..])
  {
    AllDigits(v[2..6]);
    assert v[2..][..4] == v[2..6] && v[2..][4..] == v[6..];
    Passed(v[2..], 4);
  }

  lemma {:induction false} PairPassed(v: seq<Octet>)
    requires |v| >= 12 && Escaped(v) && Escaped(v[6..]) && High(HexOf(v[2..6])) && Low(HexOf(v[8..12]))
    ensures Marks(v) == Marks(v[12..]) && Paired(v) == Paired(v[12..])
  {
    assert v[6..][2..6] == v[8..12] && v[6..][6..] == v[12..];
    NumberPassed(v);
    NumberPassed(v[6..]);
  }

  lemma {:induction false} TwoNumbers(v: seq<Octet>)
    requires |v| >= 12
    ensures var x := v[..12];
            && x[..6][2..6] == v[2..6] && x[2..6] == v[2..6] && x[..6][0] == v[0] && x[..6][1] == v[1]
            && x[6..][2..6] == v[8..12] && x[8..12] == v[8..12] && x[6..][0] == v[6] && x[6..][1] == v[7]
            && v[6..][2..6] == v[8..12]
  {
  }

  lemma {:induction false} PiecePassed(v: seq<Octet>, k: nat, y: seq<Octet>)
    requires k <= |v| && Stands(v[..k], y)
    ensures Marks(v) <==> (k == 6 && HexOf(v[2..6]) == 0xFEFF) || Marks(v[k..])
    ensures Paired(v) == Paired(v[k..])
  {
    var x := v[..k];
    assert x[0] == v[0];
    if k == 1 {
      Passed(v, 1);
    } else if k == 2 {
      assert x[1] == v[1];
    } else if k == 6 {
      assert x[2..6] == v[2..6] && x[1] == v[1];
      NumberPassed(v);
    } else {
      TwoNumbers(v);
      PairPassed(v);
    }
  }

  lemma {:induction false} Cut(v: seq<Octet>, k: nat, tail: seq<Octet>)
    requires k <= |v|
    ensures v[..k] + (v[k..] + tail) == v + tail && (v + tail)[k..] == v[k..] + tail
    ensures v[..k] + v[k..] == v
  {
  }

  // What the first character or escape stands for comes first.
  lemma {:induction false} FirstRead(v: seq<Octet>, k: nat, y: seq<Octet>, tail: seq<Octet>)
    requires 0 < k <= |v| && Stands(v[..k], y)
    ensures Unescape(v + tail) == if k == 6 && HexOf(v[2..6]) == 0xFEFF then BadText(IllegalFEFF)
                                  else Then(y, k, Unescape(v[k..] + tail))
  {
    var x := v[..k];
    Cut(v, k, tail);
    assert (v + tail)[0] == x[0];
    if x[0] == 92 {
      if k == 6 { assert x[2..6] == v[2..6]; }
      UnitStands(x, y, v[k..] + tail);
    } else {
      assert y == [v[0]];
    }
  }

  lemma {:induction false} ReadAsMeant(v: seq<Octet>, s: seq<Octet>, tail: seq<Octet>)
    requires Means(v, s) && Ends(tail)
    ensures Paired(v)
    ensures Unescape(v + tail) == if Marks(v) then BadText(IllegalFEFF) else Text(s, |v|)
    decreases |v|
  {
    if v == [] {
      assert [] + tail == tail;
    } else {
      var k: nat, n: nat :| Step(v, s, k, n) && Means(v[k..], s[n..]);
      FirstRead(v, k, s[..n], tail);
      PiecePassed(v, k, s[..n]);
      ReadAsMeant(v[k..], s[n..], tail);
      Rejoined(s, n);
    }
  }

  // The first escape of a text that is read
  lemma {:induction false} FirstMeant(v: seq<Octet>, k: nat, y: seq<Octet>, tail: seq<Octet>)
    requires k <= |v| && v != [] && v[0] == 92 && EscapeUnit(v + tail) == Unit(y, k) && Paired(v)
    ensures Stands(v[..k], y)
  {
    var x := v[..k];
    Cut(v, k, tail);
    if k == 12 {
      Ahead(v, tail);
      PairInFront(v);
    }
    StandsUnit(x, y, v[k..] + tail);
  }

  lemma {:induction false} PairInFront(v: seq<Octet>)
    requires |v| >= 12 && v[0] == 92 && v[1] == 117 && (High(HexOf(v[2..6])) || Low(HexOf(v[2..6]))) && Paired(v)
    ensures Paired(v[..12])
  {
    TwoNumbers(v);
    assert v[..12][12..] == [];
  }

  lemma {:induction false} MeantAsRead(v: seq<Octet>, s: seq<Octet>, tail: seq<Octet>)
    requires Unescape(v + tail) == Text(s, |v|) && Paired(v)
    ensures Means(v, s)
    decreases |v|
  {
    if v != [] {
      var w := v + tail;
      assert w[0] == v[0];
      var y := if v[0] == 92 then EscapeUnit(w).s else [v[0]];
      var k := if v[0] == 92 then EscapeUnit(w).len else 1;
      assert k <= |v|;
      if v[0] == 92 {
        FirstMeant(v, k, y, tail);
      } else {
        assert v[..1] == [v[0]];
      }
      Cut(v, k, tail);
      PiecePassed(v, k, y);
      var t := Unescape(v[k..] + tail);
      assert s == y + t.s;
      Behind(y, t.s);
      assert Step(v, s, k, |y|);
      MeantAsRead(v[k..], s[|y|..], tail);
    }
  }

  lemma {:induction false} Behind(y: seq<Octet>, z: seq<Octet>)
    ensures (y + z)[..|y|] == y && (y + z)[|y|..] == z
  {
  }

  /** A string's text is read to its end as exactly what it stands for, where its surrogates are paired and no
      escape is the one of U+FEFF. */
  lemma {:induction false} ReadsExactly(v: seq<Octet>, s: seq<Octet>, tail: seq<Octet>)
    requires Ends(tail)
    ensures Unescape(v + tail) == Text(s, |v|) && Paired(v) <==> Means(v, s) && !Marks(v)
  {
    if Unescape(v + tail) == Text(s, |v|) && Paired(v) {
      MeantAsRead(v, s, tail);
    }
    if Means(v, s) {
      ReadAsMeant(v, s, tail);
    }
  }

  // ---- The escaper writes a text with that meaning ----

  lemma {:induction false} NumberWritten(u: nat)
    requires u < 0x10000
    ensures Numbered(Unicode(u), u)
  {
    HexOfFour(u);
    assert Unicode(u)[2..6] == Hex4(u);
  }

  lemma {:induction false} PairWritten(a: nat, b: nat)
    requires a < 0x10000 && b < 0x10000
    ensures var x := Unicode(a) + Unicode(b);
            Numbered(x[..6], a) && Numbered(x[6..], b) && HexOf(x[2..6]) == a && HexOf(x[8..12]) == b
  {
    var x := Unicode(a) + Unicode(b);
    NumberWritten(a);
    NumberWritten(b);
    assert x[..6] == Unicode(a) && x[6..] == Unicode(b) && x[..12] == x;
    TwoNumbers(x);
  }

  lemma {:induction false} CodeStands(u: nat, y: seq<Octet>)
    requires Encodes(y, u) && !IsSurrogate(u) && u <= 0x10FFFF
    ensures Stands(EscapeCode(u), y)
  {
    if u < 0x10000 {
      NumberWritten(u);
    } else {
      SurrogatePair(u);
      PairWritten(HighSurrogate(u), LowSurrogate(u));
    }
  }

  lemma {:induction false} ByteStands(b: Octet)
    requires b != 0
    ensures Stands(EscapeByte(b), [b])
  {
  }

  lemma {:induction false} Put(x: seq<Octet>, y: seq<Octet>, v: seq<Octet>, s: seq<Octet>)
    requires x != [] && Stands(x, y) && Means(v, s)
    ensures Means(x + v, y + s)
  {
    Behind(x, v);
    Behind(y, s);
    assert Step(x + v, y + s, |x|, |y|);
  }

  /** The text written for a string stands for it. */
  lemma {:induction false} EscapeMeans(s: seq<Octet>)
    requires ProperLeads(s) && 0 !in s
    ensures Escape(s).Out? && Means(Escape(s).s, s)
    decreases |s|
  {
    if s != [] {
      var n := if s[0] >= 192 then CharLength(s) else 1;
      NoZero(s, n);
      EscapeMeans(s[n..]);
      Rejoined(s, n);
      if s[0] >= 192 {
        CanonicalIsWellFormed(s);
        var u := ReadUtf8(s).u;
        WriteIs(u, s[..n]);
        CodeStands(u, s[..n]);
        Put(EscapeCode(u), s[..n], Escape(s[n..]).s, s[n..]);
      } else {
        ByteStands(s[0]);
        Put(EscapeByte(s[0]), [s[0]], Escape(s[1..]).s, s[1..]);
      }
    }
  }

  // ---- Which bytes are in it ----

  // No control character, as section 7 of RFC 7159 asks of a string
  predicate NoControls(v: seq<Octet>) { forall k :: 0 <= k < |v| ==> v[k] >= 32 }

  predicate Ascii(v: seq<Octet>) { forall k :: 0 <= k < |v| ==> v[k] < 128 }

  // Every control character is one of those with an escape of two characters.
  predicate FiveControls(s: seq<Octet>) {
    forall k :: 0 <= k < |s| ==> s[k] >= 32 || s[k] in [8, 9, 10, 12, 13]
  }

  lemma {:induction false} Halves(x: seq<Octet>, v: seq<Octet>)
    ensures NoControls(x + v) <==> NoControls(x) && NoControls(v)
    ensures Ascii(x + v) <==> Ascii(x) && Ascii(v)
    ensures FiveControls(x + v) <==> FiveControls(x) && FiveControls(v)
  {
    var w := x + v;
    assert forall k :: 0 <= k < |x| ==> x[k] == w[k];
    assert forall k :: 0 <= k < |v| ==> v[k] == w[|x| + k];
  }

  lemma {:induction false} CodeBytes(u: nat)
    requires u < 0x200000
    ensures NoControls(EscapeCode(u)) && Ascii(EscapeCode(u))
  {
    if u >= 0x10000 {
      Halves(Unicode(HighSurrogate(u)), Unicode(LowSurrogate(u)));
    }
  }

  // The bytes a character is read from are no control characters.
  lemma {:induction false} ReadBytes(s: seq<Octet>)
    requires s != [] && s[0] >= 192 && ReadUtf8(s).Char?
    ensures ReadUtf8(s).len > 0 && FiveControls(s[..ReadUtf8(s).len]) && ReadUtf8(s).u < 0x200000
  {
  }

  lemma {:induction false} ByteBytes(b: Octet)
    ensures NoControls(EscapeByte(b)) <==> FiveControls([b])
    ensures b < 128 ==> Ascii(EscapeByte(b))
  {
  }

  // What is written for the first character
  lemma {:induction false} FirstWritten(s: seq<Octet>) returns (e: seq<Octet>, n: nat)
    requires s != [] && Escape(s).Out?
    ensures 0 < n <= |s| && Escape(s[n..]).Out? && Escape(s).s == e + Escape(s[n..]).s
    ensures NoControls(e) <==> FiveControls(s[..n])
    ensures s[0] < 128 || s[0] >= 192 ==> Ascii(e)
    ensures n == if s[0] >= 192 then ReadUtf8(s).len else 1
  {
    if s[0] >= 192 {
      ReadBytes(s);
      var u := ReadUtf8(s).u;
      e, n := EscapeCode(u), ReadUtf8(s).len;
      CodeBytes(u);
    } else {
      e, n := EscapeByte(s[0]), 1;
      ByteBytes(s[0]);
      assert s[..1] == [s[0]];
    }
  }

  /** It has no control character exactly if every control character has an escape of two characters: others are
      written as they are. */
  lemma {:induction false} ControlsEscaped(s: seq<Octet>)
    requires Escape(s).Out?
    ensures NoControls(Escape(s).s) <==> FiveControls(s)
    decreases |s|
  {
    if s != [] {
      var e, n := FirstWritten(s);
      Halves(e, Escape(s[n..]).s);
      ControlsEscaped(s[n..]);
      Rejoined(s, n);
      Halves(s[..n], s[n..]);
    }
  }

  /** Well-formed text is written in ASCII. */
  lemma {:induction false} AsciiOnly(s: seq<Octet>)
    requires Proper(s)
    ensures Escape(s).Out? && Ascii(Escape(s).s)
    decreases |s|
  {
    ProperHasProperLeads(s);
    EscapeWorks(s);
    if s != [] {
      if s[0] >= 192 { CanonicalIsWellFormed(s); }
      var e, n := FirstWritten(s);
      assert n == CharLength(s);
      AsciiOnly(s[n..]);
      Halves(e, Escape(s[n..]).s);
    }
  }

  // ---- A text that is left as it is ----

  predicate Bare(s: seq<Octet>) { forall k :: 0 <= k < |s| ==> 32 <= s[k] < 192 && s[k] != 34 && s[k] != 92 }

  /** A text without anything to escape is written as it is. */
  lemma {:induction false} BareStays(s: seq<Octet>)
    requires Bare(s)
    ensures Escape(s) == Out(s)
    decreases |s|
  {
    if s != [] {
      BareStays(s[1..]);
      assert s == [s[0]] + s[1..];
    }
  }

  // ---- What is refused ----

  predicate Letter(c: Octet) { c in [34, 92, 47, 98, 102, 110, 114, 116] }

  lemma {:induction false} HexAt(w: seq<Octet>, k: nat)
    ensures GetHex(Suffix(w, k)) == if |w| >= k + 4 then HexOf(w[k..k + 4]) else -1
  {
    if |w| >= k + 4 {
      assert w[k..] == w[k..k + 4] + w[k + 4..];
      HexAgrees(w[k..k + 4], w[k + 4..]);
    } else if k <= |w| {
      TooShort(w[k..]);
    }
  }

  lemma {:induction false} TooShort(h: seq<Octet>)
    requires |h| < 4
    ensures GetHex(h) == -1
  {
    assert ByteAt(h, 3) == 0 && HexValue(0) == -1;
  }

  /** Any other letter behind a backslash is refused, and a \u without four hexadecimal digits. A surrogate, high or
      low, is joined with whatever number of four digits follows as \uXXXX, and refused if none does or if the code
      is too large or that of U+FEFF. */
  lemma {:induction false} EscapesRefused(w: seq<Octet>)
    requires |w| >= 2 && w[0] == 92
    ensures !Letter(w[1]) && w[1] != 117 ==> Unescape(w) == BadText(BadEscape)
    ensures w[1] == 117 && !Escaped(w) ==> Unescape(w) == BadText(BadHex)
    ensures Escaped(w) && (High(HexOf(w[2..6])) || Low(HexOf(w[2..6]))) ==>
              if |w| < 8 || w[6] != 92 || w[7] != 117 then Unescape(w) == BadText(NoSurrogate)
              else if !Escaped(w[6..]) then Unescape(w) == BadText(BadHex)
              else Surrogates(w, 0x10000 + (HexOf(w[2..6]) - 0xD800) * 0x400 + (HexOf(w[8..12]) - 0xDC00))
  {
    HexAt(w, 2);
    if Escaped(w) && (High(HexOf(w[2..6])) || Low(HexOf(w[2..6]))) && |w| >= 8 && w[6] == 92 && w[7] == 117 {
      HexAt(w, 8);
      if |w| >= 12 {
        assert w[6..][2..6] == w[8..12];
        if Escaped(w[6..]) { SurrogatesRead(w); }
      }
    }
  }

  ghost predicate Surrogates(w: seq<Octet>, u: int)
    requires |w| >= 12
  {
    if u > 0x10FFFF then Unescape(w) == BadText(OutOfRange)
    else if u == 0xFEFF then Unescape(w) == BadText(IllegalFEFF)
    else exists y :: Encodes(y, u) && Unescape(w) == Then(y, 12, Unescape(w[12..]))
  }

  lemma {:induction false} JoinedCode(a: nat, b: nat)
    requires a >= 0xD800
    ensures FromSurrogates(a, b) == 0x10000 + (a - 0xD800) * 0x400 + (b - 0xDC00)
  {
  }

  lemma {:induction false} SurrogatesRead(w: seq<Octet>)
    requires |w| >= 12 && Escaped(w) && (High(HexOf(w[2..6])) || Low(HexOf(w[2..6])))
    requires w[6] == 92 && w[7] == 117 && HexOf(w[8..12]) >= 0
    ensures Surrogates(w, 0x10000 + (HexOf(w[2..6]) - 0xD800) * 0x400 + (HexOf(w[8..12]) - 0xDC00))
  {
    HexAt(w, 2);
    HexAt(w, 8);
    var a, b := HexOf(w[2..6]), HexOf(w[8..12]);
    JoinedCode(a, b);
    var u := FromSurrogates(a, b);
    assert EscapeUnit(w) == Wrap(WriteUtf8(u), 12);
    if u <= 0x10FFFF && u != 0xFEFF { WriteIs(u, WriteUtf8(u).s); }
  }

  /** A leading byte of a character is refused, by the first place that has no byte from 128 up, and otherwise read. */
  lemma {:induction false} LeadsRefused(s: seq<Octet>)
    requires s != [] && s[0] >= 192
    ensures var n := if s[0] < 224 then 2 else if s[0] < 240 then 3 else 4;
            if Lacks(s, 1) then Escape(s) == Failed(SecondByte)
            else if n > 2 && Lacks(s, 2) then Escape(s) == Failed(ThirdByte)
            else if n > 3 && Lacks(s, 3) then Escape(s) == Failed(FourthByte)
            else |s| >= n && (Escape(s).Out? <==> Escape(s[n..]).Out?)
  {
  }

  predicate Lacks(s: seq<Octet>, k: nat) { |s| <= k || s[k] < 128 }
}
