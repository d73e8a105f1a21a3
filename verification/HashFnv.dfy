/** The hash function of hash.c against the description of 32-bit FNV-1a: bit by bit an exclusive or with the
    character, then a multiplication, modulo 2 to the 32. */
module HashFnv {
  import opened KeyOrder
  import opened HashModel

  function Bit(a: nat, k: nat): (r: nat)
    ensures r <= 1
  {
    if k == 0 then a % 2 else Bit(a / 2, k - 1)
  }

  function Pow2(n: nat): (r: nat)
    ensures r > 0
  {
    if n == 0 then 1 else 2 * Pow2(n - 1)
  }

  // A signed char as an unsigned number of 32 bits
  function Widened(c: Byte): nat { ((c + 128) % 256 - 128) % 0x1_0000_0000 }

  /** The bits of x are the exclusive or of those of a and b. */
  ghost predicate Exclusive(x: nat, a: nat, b: nat) {
    forall k: nat :: k < 32 ==> (Bit(x, k) == 1 <==> Bit(a, k) != Bit(b, k))
  }

  /** A number of 32 bits times the prime, modulo 2 to the 32 */
  predicate Times(x: nat, g: nat) {
    x < 0x1_0000_0000 && g < 0x1_0000_0000 && (x * 16777619 - g) % 0x1_0000_0000 == 0
  }

  /** One round takes the hash h to g: the exclusive or with the character, times the prime. */
  ghost predicate Round(h: nat, c: Byte, g: nat) {
    exists x: nat :: Exclusive(x, h, Widened(c)) && Times(x, g)
  }

  ghost predicate RoundAt(hs: seq<nat>, key: Key, k: nat)
    requires k < |key| && |hs| == |key| + 1
  {
    Round(hs[k], key[k], hs[k + 1])
  }

  /** The hashes before, between and behind the rounds for the key's characters, in their order */
  ghost predicate Rounds(hs: seq<nat>, key: Key) {
    |hs| == |key| + 1 && hs[0] == 2166136261 && forall k: nat :: k < |key| ==> RoundAt(hs, key, k)
  }

  lemma {:induction false} NoBits(k: nat)
    ensures Bit(0, k) == 0
  {
    if k > 0 { NoBits(k - 1); }
  }

  lemma {:induction false} XorBit(a: nat, b: nat, k: nat)
    ensures Bit(Xor(a, b), k) == 1 <==> Bit(a, k) != Bit(b, k)
  {
    NoBits(k);
    if a != 0 && b != 0 {
      var x := Xor(a / 2, b / 2);
      assert Xor(a, b) % 2 == (a + b) % 2 && Xor(a, b) / 2 == x;
      if k > 0 { XorBit(a / 2, b / 2, k - 1); }
    }
  }

  lemma {:induction false} XorBound(a: nat, b: nat, n: nat)
    requires a < Pow2(n) && b < Pow2(n)
    ensures Xor(a, b) < Pow2(n)
  {
    if a != 0 && b != 0 { XorBound(a / 2, b / 2, n - 1); }
  }

  lemma {:induction false} SameBits(x: nat, y: nat, n: nat)
    requires x < Pow2(n) && y < Pow2(n)
    requires forall k: nat :: k < n ==> Bit(x, k) == Bit(y, k)
    ensures x == y
  {
    if n > 0 {
      assert Bit(x, 0) == Bit(y, 0);
      forall k: nat | k < n - 1 ensures Bit(x / 2, k) == Bit(y / 2, k) {
        assert Bit(x, k + 1) == Bit(y, k + 1);
      }
      SameBits(x / 2, y / 2, n - 1);
    }
  }

  lemma {:induction false} Pow2Of32()
    ensures Pow2(32) == 0x1_0000_0000
  {
    assert Pow2(8) == 256;
    assert Pow2(16) == 256 * Pow2(8);
    assert Pow2(24) == 256 * Pow2(16);
    assert Pow2(32) == 256 * Pow2(24);
  }

  lemma {:induction false} XorFits(a: nat, b: nat)
    requires a < 0x1_0000_0000 && b < 0x1_0000_0000
    ensures Xor(a, b) < 0x1_0000_0000
  {
    Pow2Of32();
    XorBound(a, b, 32);
  }

  /** The exclusive or, and no other number of 32 bits is. */
  lemma {:induction false} XorIs(a: nat, b: nat, x: nat)
    requires a < 0x1_0000_0000 && b < 0x1_0000_0000 && x < 0x1_0000_0000
    ensures x == Xor(a, b) <==> Exclusive(x, a, b)
  {
    Pow2Of32();
    XorFits(a, b);
    forall k: nat | k < 32 ensures Bit(Xor(a, b), k) == 1 <==> Bit(a, k) != Bit(b, k) {
      XorBit(a, b, k);
    }
    if Exclusive(x, a, b) { SameBits(x, Xor(a, b), 32); }
  }

  lemma {:induction false} Residue(m: nat, g: nat)
    requires g < 0x1_0000_0000
    ensures g == m % 0x1_0000_0000 <==> (m - g) % 0x1_0000_0000 == 0
  {
  }

  lemma {:induction false} TimesIs(x: nat, g: nat)
    requires x < 0x1_0000_0000
    ensures Times(x, g) <==> g == x * 16777619 % 0x1_0000_0000
  {
    if g < 0x1_0000_0000 { Residue(x * 16777619, g); }
  }

  lemma {:induction false} RoundIs(h: nat, c: Byte, g: nat)
    requires h < 0x1_0000_0000
    ensures g == Mix(h, c) <==> Round(h, c, g)
  {
    var w := Widened(c);
    assert w == Extended(c);
    var y := Xor(h, w);
    XorFits(h, w);
    XorIs(h, w, y);
    TimesIs(y, g);
    if Round(h, c, g) {
      var x: nat :| Exclusive(x, h, w) && Times(x, g);
      XorIs(h, w, x);
    }
  }

  lemma {:induction false} FnvIs(hs: seq<nat>, key: Key, k: nat)
    requires Rounds(hs, key) && k <= |key|
    ensures hs[k] == Fnv(2166136261, key[..k]) && hs[k] < 0x1_0000_0000
  {
    if k > 0 {
      FnvIs(hs, key, k - 1);
      assert key[..k][..k - 1] == key[..k - 1];
      assert RoundAt(hs, key, k - 1);
      RoundIs(hs[k - 1], key[k - 1], hs[k]);
    }
  }

  lemma {:induction false} HasRounds(key: Key) returns (hs: seq<nat>)
    ensures Rounds(hs, key)
  {
    if key == [] {
      hs := [2166136261];
    } else {
      var most := key[..|key| - 1];
      var before := HasRounds(most);
      FnvIs(before, most, |most|);
      var g := Mix(before[|most|], key[|most|]);
      hs := before + [g];
      RoundIs(before[|most|], key[|most|], g);
      forall k: nat | k < |key| ensures RoundAt(hs, key, k) {
        if k < |most| { assert RoundAt(before, most, k); }
      }
    }
  }

  /** The bucket of a key is its FNV-1a hash modulo the number of buckets: what the rounds lead to. */
  lemma {:induction false} BucketIs(key: Key, size: nat)
    requires size > 0
    ensures exists hs :: Rounds(hs, key)
    ensures forall hs :: Rounds(hs, key) ==> Bucket(key, size) == hs[|key|] % size
  {
    var has := HasRounds(key);
    forall hs | Rounds(hs, key) ensures Bucket(key, size) == hs[|key|] % size {
      FnvIs(hs, key, |key|);
      assert key[..|key|] == key;
    }
  }

  /** For instance the published hash of the text a */
  lemma {:induction false} Published()
    ensures Fnv(2166136261, [97]) == 0xE40C292C
  {
    assert Xor(16922939, 0) == 16922939;
    assert Xor(33845879, 1) == 33845878;
    assert Xor(67691758, 3) == 67691757;
    assert Xor(135383516, 6) == 135383514;
    assert Xor(270767032, 12) == 270767028;
    assert Xor(541534065, 24) == 541534057;
    assert Xor(1083068130, 48) == 1083068114;
    assert Xor(2166136261, 97) == 2166136228;
    assert [97][..0] == [];
  }
}
