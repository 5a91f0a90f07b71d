/** Rounding an address up with a mask, `(x + a - 1) & ~(a - 1)`, for any `a`: what
    it does when `a` is no power of two. */
module Masks {

  /** The bits that `x` and `m` share. */
  function And(x: nat, m: nat): nat {
    if m == 0 then 0 else 2 * And(x / 2, m / 2) + (if m % 2 == 1 then x % 2 else 0)
  }

  /** `(x + a - 1) & ~(a - 1)`. */
  function AlignUp(x: nat, a: nat): (r: nat)
    requires a > 0
    ensures x <= r < x + a
  {
    AndIsSmall(x + a - 1, a - 1);
    x + a - 1 - And(x + a - 1, a - 1)
  }

  predicate IsPowerOfTwo(a: nat) { a == 1 || (a > 0 && a % 2 == 0 && IsPowerOfTwo(a / 2)) }

  lemma {:induction false} AndIsSmall(x: nat, m: nat)
    ensures And(x, m) <= m && And(x, m) <= x
  {
    if m > 0 { AndIsSmall(x / 2, m / 2); }
  }

  lemma {:induction false} AndItself(x: nat)
    ensures And(x, x) == x
  {
    if x > 0 { AndItself(x / 2); }
  }

  lemma TwiceMod(x: nat, b: nat, p: nat)
    requires p > 0 && b < 2
    ensures (2 * x + b) % (2 * p) == 2 * (x % p) + b
  {
    var q, r := x / p, x % p;
    assert 2 * x + b == 2 * p * q + (2 * r + b) && 2 * r + b < 2 * p;
    ModIsUnique(2 * x + b, 2 * p, q, 2 * r + b);
  }

  lemma ModIsUnique(x: nat, a: nat, q: nat, r: nat)
    requires r < a && x == a * q + r
    ensures x % a == r
  {
    var d := x / a - q;
    assert a * d == r - x % a by { assert x == a * (x / a) + x % a; }
    assert d > 0 ==> a * d >= a;
    assert d < 0 ==> a * d + a <= 0;
  }

  /** The mask keeps the bits below a power of two that divides `m + 1`. */
  lemma {:induction false} AndLow(x: nat, m: nat, p: nat)
    requires IsPowerOfTwo(p) && (m + 1) % p == 0
    ensures And(x, m) % p == x % p
    decreases p
  {
    if p > 1 {
      var q := p / 2;
      HalfDivides(m, q);
      AndLow(x / 2, m / 2, q);
      assert And(x, m) == 2 * And(x / 2, m / 2) + x % 2;
      TwiceMod(And(x / 2, m / 2), x % 2, q);
      TwiceMod(x / 2, x % 2, q);
    }
  }

  lemma HalfDivides(m: nat, q: nat)
    requires q > 0 && (m + 1) % (2 * q) == 0
    ensures m % 2 == 1 && (m / 2 + 1) % q == 0
  {
    var k := (m + 1) / (2 * q);
    assert m + 1 == 2 * (q * k) by { assert m + 1 == 2 * q * k; }
    assert m / 2 + 1 == q * k;
    ModIsUnique(m / 2 + 1, q, k, 0);
  }

  lemma SameRemainder(x: nat, y: nat, p: nat)
    requires y <= x && p > 0 && x % p == y % p
    ensures (x - y) % p == 0
  {
    var k := x / p - y / p;
    assert x - y == p * k by { assert x == p * (x / p) + x % p && y == p * (y / p) + y % p; }
    assert k < 0 ==> p * k + p <= 0;
    ModIsUnique(x - y, p, k, 0);
  }

  /** Aligning to a multiple of a power of two is aligning at least to that power. */
  lemma AlignsToFactor(x: nat, a: nat, p: nat)
    requires a > 0 && IsPowerOfTwo(p) && a % p == 0
    ensures AlignUp(x, a) % p == 0
  {
    var y := x + a - 1;
    AndIsSmall(y, a - 1);
    AndLow(y, a - 1, p);
    SameRemainder(y, And(y, a - 1), p);
  }

  function LowBit(a: nat): (r: nat)
    requires a > 0
    ensures 0 < r <= a
  {
    if a % 2 == 1 then 1 else 2 * LowBit(a / 2)
  }

  lemma {:induction false} AndBelow(a: nat)
    requires a > 0
    ensures And(a, a - 1) + LowBit(a) == a
    ensures LowBit(a) == a <==> IsPowerOfTwo(a)
  {
    if a % 2 == 0 {
      assert (a - 1) / 2 == a / 2 - 1;
      AndBelow(a / 2);
    } else if a > 1 {
      assert (a - 1) / 2 == a / 2;
      AndItself(a / 2);
    }
  }

  /** The mask gives multiples of `a` for every address if and only if `a` is a
      power of two. */
  lemma AlignsIff(a: nat)
    requires a > 0
    ensures (forall x: nat :: AlignUp(x, a) % a == 0) <==> IsPowerOfTwo(a)
  {
    if IsPowerOfTwo(a) {
      forall x: nat ensures AlignUp(x, a) % a == 0 {
        assert a % a == 0;
        AlignsToFactor(x, a, a);
      }
    } else {
      AndBelow(a);
      assert AlignUp(1, a) == LowBit(a) && LowBit(a) < a;
      assert AlignUp(1, a) % a != 0 by { ModIsUnique(LowBit(a), a, 0, LowBit(a)); }
    }
  }

  /** Alignment 48, 24 bytes into a pool at 0x21000000. */
  lemma FortyEightIsMissed()
    ensures AlignUp(0x2100_0018, 48) == 0x2100_0040 && 0x2100_0040 % 48 == 16
  {
    assert And(0x0210_0004, 2) == 0 && And(0x0420_0008, 5) == 0;
    assert And(0x0840_0011, 11) == 1 && And(0x1080_0023, 23) == 3;
    assert And(0x2100_0047, 47) == 7;
  }
}
