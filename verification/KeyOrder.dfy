/** Key comparison of the tree (tree.c:42-73): the abstract order every tree operation relies on,
    and the two built-in orders, both shown to be instances of it. */
module KeyOrder {

  // A byte of a C string. Zero ends the string, so it is never inside a key.
  type Byte = b: int | 1 <= b < 256 witness 1
  type Key = seq<Byte>

  // An evaluation function gives the sign of "searched key compared with node key".
  type Eval = (Key, Key) -> int

  /** What a tree needs of its evaluation function: a total preorder. Different keys may compare equal. */
  ghost predicate TotalOrder(cmp: Eval) {
    && (forall a, b :: cmp(a, b) < 0 <==> cmp(b, a) > 0)
    && (forall a, b, c :: cmp(a, b) <= 0 && cmp(b, c) <= 0 ==> cmp(a, c) <= 0)
  }

  // The byte of a C string at an index: the terminating zero just past the end.
  function At(k: Key, i: nat): int {
    if i < |k| then k[i] else 0
  }

  /** strncmp over at most n bytes, from byte i on; only the sign of the result is used. */
  function StrNCmp(a: Key, b: Key, i: nat, n: nat): int
    decreases n - i
  {
    if i >= n then 0
    else if At(a, i) != At(b, i) then At(a, i) - At(b, i)
    else if At(a, i) == 0 then 0
    else StrNCmp(a, b, i + 1, n)
  }

  /** String order: compare over the searched key's length, then require the node key to end there too. */
  function StrCompare(k1: Key, k2: Key): int {
    var res := StrNCmp(k1, k2, 0, |k1|);
    if res < 0 then -1
    else if res == 0 then (if At(k2, |k1|) != 0 then -1 else 0)
    else 1
  }

  /** Positive-integer order: the shorter numeral is smaller, equal lengths compare as strings. */
  function NumCompare(k1: Key, k2: Key): int {
    if |k1| < |k2| then -1
    else if |k1| > |k2| then 1
    else StrNCmp(k1, k2, 0, |k1|)
  }

  /** Reference definition: unsigned lexicographic order, a proper prefix being smaller. */
  predicate LexLess(a: Key, b: Key) {
    if |b| == 0 then false
    else if |a| == 0 then true
    else a[0] < b[0] || (a[0] == b[0] && LexLess(a[1..], b[1..]))
  }

  lemma {:induction false} LexTransitive(a: Key, b: Key, c: Key)
    requires LexLess(a, b) && LexLess(b, c)
    ensures LexLess(a, c)
    decreases |a|
  {
    if |a| > 0 && a[0] == b[0] == c[0] {
      LexTransitive(a[1..], b[1..], c[1..]);
    }
  }

  lemma {:induction false} LexTrichotomy(a: Key, b: Key)
    ensures LexLess(a, b) || LexLess(b, a) || a == b
    ensures !(LexLess(a, b) && LexLess(b, a))
    ensures a == b ==> !LexLess(a, b)
    decreases |a|
  {
    if |a| > 0 && |b| > 0 && a[0] == b[0] {
      LexTrichotomy(a[1..], b[1..]);
      if a[1..] == b[1..] { assert a == [a[0]] + a[1..] && b == [b[0]] + b[1..]; }
    }
  }

  // strncmp over a common prefix of the two keys is the lexicographic comparison of the rests.
  lemma {:induction false} StrNCmpIsLex(a: Key, b: Key, i: nat)
    requires i <= |a|
    requires i <= |b|
    ensures StrNCmp(a, b, i, |a|) > 0 <==> LexLess(b[i..], a[i..])
    ensures StrNCmp(a, b, i, |a|) == 0 <==> a[i..] <= b[i..]
    ensures StrNCmp(a, b, i, |a|) < 0 ==> LexLess(a[i..], b[i..])
    decreases |a| - i
  {
    if i < |a| && i < |b| && a[i] == b[i] {
      StrNCmpIsLex(a, b, i + 1);
      assert a[i..][1..] == a[i + 1..] && b[i..][1..] == b[i + 1..];
      assert a[i..] == [a[i]] + a[i + 1..] && b[i..] == [b[i]] + b[i + 1..];
    } else if i < |a| && i < |b| {
      assert a[i..][0] != b[i..][0];
    } else if i < |a| {
      assert b[i..] == [];
    } else {
      assert a[i..] == [];
    }
  }

  /** The string comparison is exactly the lexicographic order, in all three outcomes. */
  lemma {:induction false} StrCompareIsLex(a: Key, b: Key)
    ensures StrCompare(a, b) < 0 <==> LexLess(a, b)
    ensures StrCompare(a, b) == 0 <==> a == b
    ensures StrCompare(a, b) > 0 <==> LexLess(b, a)
  {
    StrNCmpIsLex(a, b, 0);
    LexTrichotomy(a, b);
    assert a[0..] == a && b[0..] == b;
    if a <= b && a != b {
      PrefixLess(a, b);
    }
  }

  lemma {:induction false} PrefixLess(a: Key, b: Key)
    requires a <= b && a != b
    ensures LexLess(a, b)
    decreases |a|
  {
    if |a| > 0 {
      assert a[0] == b[0];
      assert a == [a[0]] + a[1..] && b == [b[0]] + b[1..];
      PrefixLess(a[1..], b[1..]);
    }
  }

  lemma {:induction false} StrCompareTotal()
    ensures TotalOrder(StrCompare)
  {
    forall a: Key, b: Key ensures StrCompare(a, b) < 0 <==> StrCompare(b, a) > 0 {
      StrCompareIsLex(a, b);
      StrCompareIsLex(b, a);
    }
    forall a: Key, b: Key, c: Key | StrCompare(a, b) <= 0 && StrCompare(b, c) <= 0
      ensures StrCompare(a, c) <= 0
    {
      StrCompareIsLex(a, b);
      StrCompareIsLex(b, c);
      StrCompareIsLex(a, c);
      LexTrichotomy(a, c);
      if a != b && b != c { LexTransitive(a, b, c); }
    }
  }

  // On equal lengths the numeral order is the string order.
  lemma {:induction false} NumCompareSameLength(a: Key, b: Key)
    requires |a| == |b|
    ensures NumCompare(a, b) < 0 <==> LexLess(a, b)
    ensures NumCompare(a, b) == 0 <==> a == b
    ensures NumCompare(a, b) > 0 <==> LexLess(b, a)
  {
    StrNCmpIsLex(a, b, 0);
    LexTrichotomy(a, b);
    assert a[0..] == a && b[0..] == b;
  }

  lemma {:induction false} NumCompareTotal()
    ensures TotalOrder(NumCompare)
  {
    forall a: Key, b: Key ensures NumCompare(a, b) < 0 <==> NumCompare(b, a) > 0 {
      if |a| == |b| {
        NumCompareSameLength(a, b);
        NumCompareSameLength(b, a);
      }
    }
    forall a: Key, b: Key, c: Key | NumCompare(a, b) <= 0 && NumCompare(b, c) <= 0
      ensures NumCompare(a, c) <= 0
    {
      if |a| == |b| == |c| {
        NumCompareSameLength(a, b);
        NumCompareSameLength(b, c);
        NumCompareSameLength(a, c);
        LexTrichotomy(a, c);
        if a != b && b != c { LexTransitive(a, b, c); }
      }
    }
  }

  // ---- Agreement with numeric value ----

  /** A reading of digits: any base, any alphabet whose digits ascend in character order. */
  datatype Base = Base(radix: nat, digit: map<Byte, nat>)

  ghost predicate Ascending(base: Base) {
    && base.radix >= 2
    && (forall c :: c in base.digit ==> base.digit[c] < base.radix)
    && (forall c, d :: c in base.digit && d in base.digit && c < d ==> base.digit[c] < base.digit[d])
  }

  ghost predicate Numeral(base: Base, k: Key) {
    forall i :: 0 <= i < |k| ==> k[i] in base.digit
  }

  // At least one digit, and no leading zero except in the numeral for zero itself.
  ghost predicate Canonical(base: Base, k: Key)
    requires Numeral(base, k)
  {
    |k| > 0 && (|k| > 1 ==> base.digit[k[0]] != 0)
  }

  function Power(b: nat, e: nat): nat {
    if e == 0 then 1 else b * Power(b, e - 1)
  }

  /** The value of a numeral, most significant digit first. */
  ghost function Value(base: Base, k: Key): nat
    requires Numeral(base, k)
  {
    if |k| == 0 then 0
    else base.digit[k[0]] * Power(base.radix, |k| - 1) + Value(base, k[1..])
  }

  lemma {:induction false} PowerPositive(b: nat, e: nat)
    requires b >= 1
    ensures Power(b, e) >= 1
  {
    if e > 0 {
      PowerPositive(b, e - 1);
      assert b * Power(b, e - 1) >= 1 * 1;
    }
  }

  lemma {:induction false} PowerMonotone(b: nat, e: nat, f: nat)
    requires b >= 1 && e <= f
    ensures Power(b, e) <= Power(b, f)
    decreases f
  {
    if e < f {
      PowerMonotone(b, e, f - 1);
      PowerPositive(b, f - 1);
      assert Power(b, f) == b * Power(b, f - 1) >= Power(b, f - 1);
    }
  }

  lemma {:induction false} StepUp(d: nat, e: nat, p: nat)
    requires d < e
    ensures d * p + p <= e * p
  {
    assert e * p == (d + 1) * p + (e - d - 1) * p;
  }

  lemma {:induction false} ValueBelow(base: Base, k: Key)
    requires Ascending(base) && Numeral(base, k)
    ensures Value(base, k) < Power(base.radix, |k|)
    decreases |k|
  {
    if |k| > 0 {
      ValueBelow(base, k[1..]);
      var p := Power(base.radix, |k| - 1);
      var d := base.digit[k[0]];
      StepUp(d, base.radix, p);
      assert Power(base.radix, |k|) == base.radix * p;
    }
  }

  lemma {:induction false} ValueAtLeast(base: Base, k: Key)
    requires Ascending(base) && Numeral(base, k) && |k| > 0 && base.digit[k[0]] != 0
    ensures Value(base, k) >= Power(base.radix, |k| - 1)
  {
    StepUp(0, base.digit[k[0]], Power(base.radix, |k| - 1));
  }

  lemma {:induction false} SameLengthValue(base: Base, a: Key, b: Key)
    requires Ascending(base) && Numeral(base, a) && Numeral(base, b) && |a| == |b|
    requires LexLess(a, b)
    ensures Value(base, a) < Value(base, b)
    decreases |a|
  {
    var p := Power(base.radix, |a| - 1);
    if a[0] == b[0] {
      SameLengthValue(base, a[1..], b[1..]);
    } else {
      var d, e := base.digit[a[0]], base.digit[b[0]];
      ValueBelow(base, a[1..]);
      StepUp(d, e, p);
    }
  }

  /** Positive-integer mode orders numerals without leading zeros by their value, in every base. */
  lemma {:induction false} NumCompareIsNumeric(base: Base, a: Key, b: Key)
    requires Ascending(base) && Numeral(base, a) && Numeral(base, b)
    requires Canonical(base, a) && Canonical(base, b)
    ensures NumCompare(a, b) < 0 <==> Value(base, a) < Value(base, b)
    ensures NumCompare(a, b) == 0 <==> Value(base, a) == Value(base, b)
    ensures NumCompare(a, b) > 0 <==> Value(base, a) > Value(base, b)
  {
    if |a| < |b| {
      ShorterIsSmaller(base, a, b);
    } else if |b| < |a| {
      ShorterIsSmaller(base, b, a);
    } else {
      NumCompareSameLength(a, b);
      LexTrichotomy(a, b);
      if LexLess(a, b) { SameLengthValue(base, a, b); }
      if LexLess(b, a) { SameLengthValue(base, b, a); }
    }
  }

  lemma {:induction false} ShorterIsSmaller(base: Base, a: Key, b: Key)
    requires Ascending(base) && Numeral(base, a) && Numeral(base, b)
    requires |a| < |b| && |b| > 0 && base.digit[b[0]] != 0
    ensures Value(base, a) < Value(base, b)
  {
    ValueBelow(base, a);
    ValueAtLeast(base, b);
    PowerMonotone(base.radix, |a|, |b| - 1);
  }
}
