/** How a key finds its shard: the 32-bit FNV-1a hash of the key, masked with the shard count less one. */
module Sharding {

  function BitAnd(a: nat, b: nat): (r: nat)
    ensures r <= b
  {
    if a == 0 || b == 0 then 0 else 2 * BitAnd(a / 2, b / 2) + (if a % 2 == 1 && b % 2 == 1 then 1 else 0)
  }

  function BitXor(a: nat, b: nat): nat
    decreases a + b
  {
    if a == 0 then b
    else if b == 0 then a
    else 2 * BitXor(a / 2, b / 2) + (if a % 2 == b % 2 then 0 else 1)
  }

  const WORD := 0x1_0000_0000

  function Fnv32a(key: string): (h: nat)
    ensures h < WORD
  {
    if key == "" then 2166136261
    else BitXor(Fnv32a(key[..|key| - 1]), key[|key| - 1] as int) * 16777619 % WORD
  }

  function ShardIndex(key: string, mask: nat): (i: nat)
    ensures i <= mask
  {
    BitAnd(Fnv32a(key), mask)
  }

  // ---------- Why the shard count has to be a power of two ----------

  function Pow2(k: nat): (p: nat)
    ensures p > 0
  {
    if k == 0 then 1 else 2 * Pow2(k - 1)
  }

  function Bit(n: nat, k: nat): nat {
    n / Pow2(k) % 2
  }

  lemma BitOfHalf(n: nat, k: nat)
    requires k > 0
    ensures Bit(n, k) == Bit(n / 2, k - 1)
  {
    Halves(n, Pow2(k - 1));
  }

  /** Both bits are set. */
  lemma {:induction false} AndBitByBit(a: nat, b: nat, k: nat)
    ensures Bit(BitAnd(a, b), k) == 1 <==> Bit(a, k) == 1 && Bit(b, k) == 1
  {
    if k > 0 {
      AndBitByBit(a / 2, b / 2, k - 1);
      AndHalves(a, b);
      BitOfHalf(a, k);
      BitOfHalf(b, k);
      BitOfHalf(BitAnd(a, b), k);
    } else {
      AndHalves(a, b);
    }
  }

  /** Exactly one of the bits is set. */
  lemma {:induction false} XorBitByBit(a: nat, b: nat, k: nat)
    ensures Bit(BitXor(a, b), k) == 1 <==> Bit(a, k) != Bit(b, k)
  {
    if k > 0 {
      XorBitByBit(a / 2, b / 2, k - 1);
      XorHalves(a, b);
      BitOfHalf(a, k);
      BitOfHalf(b, k);
      BitOfHalf(BitXor(a, b), k);
    } else {
      XorHalves(a, b);
    }
  }

  lemma AndHalves(a: nat, b: nat)
    ensures BitAnd(a, b) / 2 == BitAnd(a / 2, b / 2)
    ensures BitAnd(a, b) % 2 == 1 <==> a % 2 == 1 && b % 2 == 1
  {
  }

  lemma XorHalves(a: nat, b: nat)
    ensures BitXor(a, b) / 2 == BitXor(a / 2, b / 2)
    ensures BitXor(a, b) % 2 == 1 <==> a % 2 != b % 2
  {
  }

  lemma Halves(n: nat, p: nat)
    requires p > 0
    ensures n / (2 * p) == n / 2 / p
  {
    var q, r := n / 2 / p, n / 2 % p;
    UniqueQuotient(n, 2 * p, q, 2 * r + n % 2);
  }

  lemma UniqueQuotient(n: nat, d: nat, q: nat, r: nat)
    requires n == d * q + r && r < d
    ensures n / d == q
  {
    var gap := q - n / d;
    assert d * gap == n % d - r;
    assert 0 - d < d * gap < d;
    assert d * gap >= d || d * gap <= 0 - d || gap == 0;
  }

  ghost predicate IsPowerOfTwo(count: nat) {
    exists k: nat :: Pow2(k) == count
  }

  lemma {:induction false} AndOfPowers(k: nat)
    ensures BitAnd(Pow2(k), Pow2(k) - 1) == 0
  {
    if k > 0 {
      AndOfPowers(k - 1);
    }
  }

  lemma {:induction false} AndWithItself(a: nat)
    ensures BitAnd(a, a) == a
  {
    if a > 0 {
      AndWithItself(a / 2);
    }
  }

  lemma DoubledPower(half: nat)
    requires IsPowerOfTwo(half)
    ensures IsPowerOfTwo(2 * half)
  {
    var k: nat :| Pow2(k) == half;
    assert Pow2(k + 1) == 2 * half;
  }

  lemma {:induction false} ClearedBitMeansPower(count: nat)
    requires count > 0 && BitAnd(count, count - 1) == 0
    ensures IsPowerOfTwo(count)
  {
    if count == 1 {
      assert Pow2(0) == 1;
    } else if count % 2 == 1 {
      assert (count - 1) / 2 == count / 2;
      AndWithItself(count / 2);
    } else {
      assert (count - 1) / 2 == count / 2 - 1;
      ClearedBitMeansPower(count / 2);
      DoubledPower(count / 2);
    }
  }

  /** The validation `count & (count - 1) == 0` accepts exactly the powers of two. */
  lemma PowerOfTwoTest(count: nat)
    requires count > 0
    ensures BitAnd(count, count - 1) == 0 <==> IsPowerOfTwo(count)
  {
    if BitAnd(count, count - 1) == 0 {
      ClearedBitMeansPower(count);
    }
    if IsPowerOfTwo(count) {
      var k: nat :| Pow2(k) == count;
      AndOfPowers(k);
    }
  }

  lemma {:induction false} MaskOfPower(h: nat, k: nat)
    ensures BitAnd(h, Pow2(k) - 1) == h % Pow2(k)
  {
    if k > 0 {
      MaskOfPower(h / 2, k - 1);
      ModuloOfDouble(h, Pow2(k - 1));
    }
  }

  lemma ModuloOfDouble(h: nat, p: nat)
    requires p > 0
    ensures h % (2 * p) == 2 * (h / 2 % p) + h % 2
  {
    var q, r := h / 2 / p, h / 2 % p;
    assert h == (2 * p) * q + (2 * r + h % 2);
    UniqueRemainder(h, 2 * p, q, 2 * r + h % 2);
  }

  lemma UniqueRemainder(n: nat, d: nat, q: nat, r: nat)
    requires n == d * q + r && r < d
    ensures n % d == r
  {
    var gap := q - n / d;
    assert d * gap == n % d - r;
    assert 0 - d < d * gap < d;
    assert d * gap >= d || d * gap <= 0 - d || gap == 0;
  }

  lemma {:induction false} AndIsIdempotent(h: nat, mask: nat)
    ensures BitAnd(BitAnd(h, mask), mask) == BitAnd(h, mask)
  {
    if h > 0 && mask > 0 {
      AndIsIdempotent(h / 2, mask / 2);
    }
  }

  lemma {:induction false} FullMaskMeansPower(mask: nat)
    requires forall r: nat :: r <= mask ==> BitAnd(r, mask) == r
    ensures IsPowerOfTwo(mask + 1)
  {
    if mask == 0 {
      assert Pow2(0) == 1;
    } else {
      assert BitAnd(1, mask) == 1;
      assert mask == 2 * (mask / 2) + 1;
      forall r: nat | r <= mask / 2 ensures BitAnd(r, mask / 2) == r {
        assert BitAnd(2 * r + 1, mask) == 2 * r + 1;
      }
      FullMaskMeansPower(mask / 2);
      DoubledPower(mask / 2 + 1);
    }
  }

  ghost predicate Reaches(mask: nat, i: nat) {
    exists h: nat :: BitAnd(h, mask) == i
  }

  /** Masking can reach every shard exactly when the count is a power of two; it then is the remainder. */
  lemma EveryShardIsReachable(mask: nat)
    ensures IsPowerOfTwo(mask + 1) <==> forall i: nat :: i <= mask ==> Reaches(mask, i)
    ensures IsPowerOfTwo(mask + 1) ==> forall h: nat :: BitAnd(h, mask) == h % (mask + 1)
  {
    if IsPowerOfTwo(mask + 1) {
      var k: nat :| Pow2(k) == mask + 1;
      forall h: nat ensures BitAnd(h, mask) == h % (mask + 1) {
        MaskOfPower(h, k);
      }
      forall i: nat | i <= mask ensures Reaches(mask, i) {
        UniqueRemainder(i, mask + 1, 0, i);
        assert BitAnd(i, mask) == i;
      }
    }
    if forall i: nat :: i <= mask ==> Reaches(mask, i) {
      forall i: nat | i <= mask ensures BitAnd(i, mask) == i {
        assert Reaches(mask, i);
        var h: nat :| BitAnd(h, mask) == i;
        AndIsIdempotent(h, mask);
      }
      FullMaskMeansPower(mask);
    }
  }
}
