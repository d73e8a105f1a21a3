/** UTF-8 as utf8.c reads and writes it, against the syntax of section 4 of RFC 3629. */
module Utf8 {
  import opened Octets

  const QUOTE: Octet := 34
  const BACKSLASH: Octet := 92

  datatype Error =
    | SecondByte | ThirdByte | FourthByte | InvalidLead | IllegalFEFF | OutOfRange    // utf8.c
    | BadHex | NoSurrogate | BadEscape | NoQuote                                     // json.c

  // The byte of a C string at an index: the terminating zero past the end.
  function ByteAt(s: seq<Octet>, k: nat): Octet {
    if k < |s| then s[k] else 0
  }

  predicate Tail(b: Octet) { 128 <= b < 192 }

  // ---- Reading and writing one character ----

  datatype Read = Char(u: nat, len: nat) | Bad(error: Error)

  // A following byte is only asked for its top bit.
  predicate Follow(b: Octet) { b >= 128 }

  /** vely_encode_utf8: the code of the character at the start of the string, and its number of bytes. */
  function ReadUtf8(s: seq<Octet>): (r: Read)
    ensures r.Char? ==> r.len <= |s| || (s == [] && r.len == 1)
  {
    var a, b, c, d := ByteAt(s, 0), ByteAt(s, 1), ByteAt(s, 2), ByteAt(s, 3);
    if a < 128 then Char(a, 1)
    else if a >= 240 then
      if !Follow(b) then Bad(SecondByte)
      else if !Follow(c) then Bad(ThirdByte)
      else if !Follow(d) then Bad(FourthByte)
      else Char(a % 8 * 0x40000 + b % 64 * 0x1000 + c % 64 * 0x40 + d % 64, 4)
    else if a >= 224 then
      if !Follow(b) then Bad(SecondByte)
      else if !Follow(c) then Bad(ThirdByte)
      else Char(a % 16 * 0x1000 + b % 64 * 0x40 + c % 64, 3)
    else if a >= 192 then
      if !Follow(b) then Bad(SecondByte)
      else Char(a % 32 * 0x40 + b % 64, 2)
    else Bad(InvalidLead)
  }

  datatype Written = Bytes(s: seq<Octet>) | Refused(error: Error)

  /** vely_decode_utf8: the bytes of a code. */
  function WriteUtf8(u: nat): (r: Written)
    ensures r.Bytes? ==> 1 <= |r.s| <= 4
  {
    if u <= 0x7F then Bytes([u])
    else if u <= 0x7FF then Bytes([192 + u / 0x40, 128 + u % 0x40])
    else if u <= 0xFFFF then
      if u == 0xFEFF then Refused(IllegalFEFF)
      else Bytes([224 + u / 0x1000, 128 + u / 0x40 % 0x40, 128 + u % 0x40])
    else if u <= 0x10FFFF then
      Bytes([240 + u / 0x40000, 128 + u / 0x1000 % 0x40, 128 + u / 0x40 % 0x40, 128 + u % 0x40])
    else Refused(OutOfRange)
  }

  predicate IsSurrogate(u: nat) { 0xD800 <= u <= 0xDFFF }

  // vely_get_utf8_surrogate
  function HighSurrogate(u: nat): int { 0xD800 - 0x10000 / 0x400 + u / 0x400 }

  function LowSurrogate(u: nat): int { 0xDC00 + u % 0x400 }

  /** vely_make_from_utf8_surrogate */
  function FromSurrogates(u0: nat, u1: nat): (r: int)
    requires u0 >= 0xD800
    ensures r >= 0
  {
    u0 * 0x400 + u1 + (0x10000 - 0xD800 * 0x400 - 0xDC00)
  }

  /** A code beyond 16 bits is split into a pair of surrogates that gives it back. */
  lemma {:induction false} SurrogatePair(u: nat)
    requires 0x10000 <= u < 0x200000
    ensures 0xD800 <= HighSurrogate(u) <= 0xDFFF && 0xDC00 <= LowSurrogate(u) <= 0xDFFF
    ensures FromSurrogates(HighSurrogate(u), LowSurrogate(u)) == u
    ensures u <= 0x10FFFF <==> HighSurrogate(u) <= 0xDBFF
  {
  }

  // ---- The syntax of UTF-8 ----

  /** The length of the well-formed character at the start (UTF8-char of section 4 of RFC 3629), or 0. */
  function CharLength(s: seq<Octet>): (n: nat)
    ensures n <= 4 && n <= |s|
  {
    var a, b, c, d := ByteAt(s, 0), ByteAt(s, 1), ByteAt(s, 2), ByteAt(s, 3);
    if s == [] then 0
    else if a < 0x80 then 1
    else if 0xC2 <= a <= 0xDF && Tail(b) then 2
    else if a == 0xE0 && 0xA0 <= b <= 0xBF && Tail(c) then 3
    else if 0xE1 <= a <= 0xEC && Tail(b) && Tail(c) then 3
    else if a == 0xED && 0x80 <= b <= 0x9F && Tail(c) then 3
    else if 0xEE <= a <= 0xEF && Tail(b) && Tail(c) then 3
    else if a == 0xF0 && 0x90 <= b <= 0xBF && Tail(c) && Tail(d) then 4
    else if 0xF1 <= a <= 0xF3 && Tail(b) && Tail(c) && Tail(d) then 4
    else if a == 0xF4 && 0x80 <= b <= 0x8F && Tail(c) && Tail(d) then 4
    else 0
  }

  /** U+FEFF at the start of the string. */
  predicate IsFEFF(s: seq<Octet>) {
    ByteAt(s, 0) == 0xEF && ByteAt(s, 1) == 0xBB && ByteAt(s, 2) == 0xBF
  }

  // A character is read as its code exactly if writing the code gives its bytes back.
  predicate Canonical(s: seq<Octet>) {
    var r := ReadUtf8(s);
    r.Char? && r.len <= |s| && !IsSurrogate(r.u) && WriteUtf8(r.u) == Bytes(s[..r.len])
  }

  lemma {:induction false} Canonical2(s: seq<Octet>)
    requires |s| >= 2 && 192 <= s[0] < 224
    ensures Canonical(s) <==> CharLength(s) > 0
    ensures Canonical(s) ==> CharLength(s) == 2 == ReadUtf8(s).len
  {
    if Follow(s[1]) {
      var a: int, b: int := s[0], s[1];
      var u := a % 32 * 0x40 + b % 64;
      assert ReadUtf8(s) == Char(u, 2);
      assert s[..2] == [s[0], s[1]];
    }
  }

  lemma {:induction false} Digits3(x: nat, y: nat, z: nat)
    requires y < 0x40 && z < 0x40
    ensures var u := x * 0x1000 + y * 0x40 + z;
            u / 0x1000 == x && u / 0x40 % 0x40 == y && u % 0x40 == z
  {
    assert x * 0x1000 + y * 0x40 + z == (x * 0x40 + y) * 0x40 + z;
  }

  lemma {:induction false} Canonical3(s: seq<Octet>)
    requires |s| >= 3 && 224 <= s[0] < 240
    ensures Canonical(s) <==> CharLength(s) > 0 && !IsFEFF(s)
    ensures Canonical(s) ==> CharLength(s) == 3 == ReadUtf8(s).len
  {
    if Follow(s[1]) && Follow(s[2]) {
      var a: int, b: int, c: int := s[0], s[1], s[2];
      var x, y, z := a % 16, b % 64, c % 64;
      var u := x * 0x1000 + y * 0x40 + z;
      Digits3(x, y, z);
      assert ReadUtf8(s) == Char(u, 3) && x == a - 224;
      assert s[..3] == [s[0], s[1], s[2]];
      assert b == 128 + y <==> Tail(s[1]);
      assert c == 128 + z <==> Tail(s[2]);
      if u >= 0x800 && u != 0xFEFF {
        assert WriteUtf8(u) == Bytes([224 + x, 128 + y, 128 + z]);
        assert WriteUtf8(u) == Bytes(s[..3]) <==> Tail(s[1]) && Tail(s[2]);
      }
    }
  }

  lemma {:induction false} Digits4(x: nat, y: nat, z: nat, w: nat)
    requires y < 0x40 && z < 0x40 && w < 0x40
    ensures var u := x * 0x40000 + y * 0x1000 + z * 0x40 + w;
            u / 0x40000 == x && u / 0x1000 % 0x40 == y && u / 0x40 % 0x40 == z && u % 0x40 == w
  {
    Digits3(x * 0x40 + y, z, w);
    var u := x * 0x40000 + y * 0x1000 + z * 0x40 + w;
    assert u / 0x1000 == x * 0x40 + y;
    assert u / 0x40000 == x;
  }

  lemma {:induction false} Canonical4(s: seq<Octet>)
    requires |s| >= 4 && 240 <= s[0]
    ensures Canonical(s) <==> CharLength(s) > 0
    ensures Canonical(s) ==> CharLength(s) == 4 == ReadUtf8(s).len
  {
    if Follow(s[1]) && Follow(s[2]) && Follow(s[3]) {
      var a: int, b: int, c: int, d: int := s[0], s[1], s[2], s[3];
      var x, y, z, w := a % 8, b % 64, c % 64, d % 64;
      var u := x * 0x40000 + y * 0x1000 + z * 0x40 + w;
      Digits4(x, y, z, w);
      assert ReadUtf8(s) == Char(u, 4);
      assert s[..4] == [s[0], s[1], s[2], s[3]];
      assert a == 240 + x <==> a < 248;
      assert b == 128 + y <==> Tail(s[1]);
      assert c == 128 + z <==> Tail(s[2]);
      assert d == 128 + w <==> Tail(s[3]);
      if 0x10000 <= u <= 0x10FFFF {
        assert WriteUtf8(u) == Bytes([240 + x, 128 + y, 128 + z, 128 + w]);
        assert WriteUtf8(u) == Bytes(s[..4]) <==> a < 248 && Tail(s[1]) && Tail(s[2]) && Tail(s[3]);
      }
    }
  }

  /** Reading and writing agree with RFC 3629, except that U+FEFF is refused: a character that is not ASCII
      goes through unchanged exactly if it is well-formed. */
  lemma {:induction false} CanonicalIsWellFormed(s: seq<Octet>)
    requires s != [] && s[0] >= 192
    ensures Canonical(s) <==> CharLength(s) > 0 && !IsFEFF(s)
    ensures Canonical(s) ==> CharLength(s) == ReadUtf8(s).len
  {
    if s[0] < 224 {
      if |s| >= 2 { Canonical2(s); }
    } else if s[0] < 240 {
      if |s| >= 3 { Canonical3(s); }
    } else {
      if |s| >= 4 { Canonical4(s); }
    }
  }

  // The digits of a number in base 64.
  lemma {:induction false} Digits(u: nat)
    ensures u == u / 0x40 * 0x40 + u % 0x40
    ensures u / 0x1000 == u / 0x40 / 0x40 && u / 0x40000 == u / 0x1000 / 0x40
    ensures u / 0x40 == u / 0x1000 * 0x40 + u / 0x40 % 0x40
    ensures u / 0x1000 == u / 0x40000 * 0x40 + u / 0x1000 % 0x40
  {
  }

  lemma {:induction false} WriteRead3(u: nat, s: seq<Octet>)
    requires 0x800 <= u <= 0xFFFF && u != 0xFEFF && |s| >= 3 && s[..3] == WriteUtf8(u).s
    ensures ReadUtf8(s) == Char(u, 3)
  {
    Digits(u);
    assert s[0] == s[..3][0] && s[1] == s[..3][1] && s[2] == s[..3][2];
    assert s[0] % 16 == u / 0x1000 && s[1] % 64 == u / 0x40 % 0x40 && s[2] % 64 == u % 0x40;
  }

  lemma {:induction false} WriteRead4(u: nat, s: seq<Octet>)
    requires 0x10000 <= u <= 0x10FFFF && |s| >= 4 && s[..4] == WriteUtf8(u).s
    ensures ReadUtf8(s) == Char(u, 4)
  {
    Digits(u);
    assert s[0] == s[..4][0] && s[1] == s[..4][1] && s[2] == s[..4][2] && s[3] == s[..4][3];
    assert s[0] % 8 == u / 0x40000 && s[1] % 64 == u / 0x1000 % 0x40;
    assert s[2] % 64 == u / 0x40 % 0x40 && s[3] % 64 == u % 0x40;
  }

  /** The other way round: what is written for a code is read as that code. */
  lemma {:induction false} WriteRead(u: nat, rest: seq<Octet>)
    requires u <= 0x10FFFF && u != 0xFEFF
    ensures WriteUtf8(u).Bytes? && ReadUtf8(WriteUtf8(u).s + rest) == Char(u, |WriteUtf8(u).s|)
  {
    var w := WriteUtf8(u).s;
    assert (w + rest)[..|w|] == w;
    if u >= 0x10000 {
      WriteRead4(u, w + rest);
    } else if u >= 0x800 {
      WriteRead3(u, w + rest);
    } else {
      assert forall k :: 0 <= k < |w| ==> ByteAt(w + rest, k) == w[k];
      assert u > 0x7F ==> w[0] % 32 == u / 0x40 && w[1] % 64 == u % 0x40;
    }
  }
}
