/** The power-of-two arithmetic of src/hash_map.c over C's `size_t`, with `&`, `|` and `>>`
    defined bit by bit on natural numbers.
 */
module PowersOfTwo {
  import opened Numbers

  function Pow2(n: nat): (p: nat)
    ensures 1 <= p
  {
    if n == 0 then 1 else 2 * Pow2(n - 1)
  }

  ghost predicate IsPow2(v: nat) {
    exists n: nat :: v == Pow2(n)
  }

  function And(a: nat, b: nat): nat
    decreases a
  {
    if a == 0 then 0 else 2 * And(a / 2, b / 2) + (if a % 2 == 1 && b % 2 == 1 then 1 else 0)
  }

  function Or(a: nat, b: nat): nat
    decreases a + b
  {
    if a == 0 && b == 0 then 0 else 2 * Or(a / 2, b / 2) + (if a % 2 == 1 || b % 2 == 1 then 1 else 0)
  }

  function Shr(a: nat, n: nat): nat
    decreases n
  {
    if n == 0 then a else Shr(a / 2, n - 1)
  }

  /** Bit `k` of a number, counted from the lowest. */
  predicate Bit(a: nat, k: nat) {
    if k == 0 then a % 2 == 1 else Bit(a / 2, k - 1)
  }

  lemma {:induction false} AndBit(a: nat, b: nat, k: nat)
    ensures Bit(And(a, b), k) <==> Bit(a, k) && Bit(b, k)
    decreases k
  {
    if a == 0 {
      NoBits(k);
    } else if k > 0 {
      AndBit(a / 2, b / 2, k - 1);
    }
  }

  lemma {:induction false} OrBit(a: nat, b: nat, k: nat)
    ensures Bit(Or(a, b), k) <==> Bit(a, k) || Bit(b, k)
    decreases k
  {
    if a == 0 && b == 0 {
      NoBits(k);
    } else if k > 0 {
      OrBit(a / 2, b / 2, k - 1);
    }
  }

  lemma {:induction false} ShrBit(a: nat, n: nat, k: nat)
    ensures Bit(Shr(a, n), k) <==> Bit(a, n + k)
    decreases n
  {
    if n > 0 {
      ShrBit(a / 2, n - 1, k);
    }
  }

  lemma {:induction false} NoBits(k: nat)
    ensures !Bit(0, k)
  {
    if k > 0 {
      NoBits(k - 1);
    }
  }

  /** A number is known from its bits. */
  lemma {:induction false} BitsTell(a: nat, b: nat)
    requires forall k: nat :: Bit(a, k) == Bit(b, k)
    ensures a == b
    decreases a + b
  {
    assert Bit(a, 0) == Bit(b, 0);
    if a != b {
      forall k: nat ensures Bit(a / 2, k) == Bit(b / 2, k) {
        assert Bit(a, k + 1) == Bit(b, k + 1);
      }
      BitsTell(a / 2, b / 2);
    }
  }

  // ----- the lookup mask and the test for a power of two

  lemma MulAtLeast(x: int, m: nat)
    requires 1 <= x
    ensures m <= x * m
  {
  }

  lemma Distribute(a: int, b: int, m: int)
    ensures (a - b) * m == a * m - b * m
  {
  }

  lemma ModUnique(a: int, q: int, m: nat, r: nat)
    requires r < m && a == q * m + r
    ensures a % m == r
  {
    var k, s := a / m, a % m;
    Distribute(k, q, m);
    if k > q {
      MulAtLeast(k - q, m);
    } else if k < q {
      Distribute(q, k, m);
      MulAtLeast(q - k, m);
    }
  }

  lemma {:induction false} MaskWitness(h: nat, n: nat) returns (q: nat)
    ensures h == q * Pow2(n) + And(h, Pow2(n) - 1) && And(h, Pow2(n) - 1) < Pow2(n)
    decreases n
  {
    if n == 0 {
      AndZero(h);
      q := h;
    } else if h == 0 {
      q := 0;
    } else {
      q := MaskWitness(h / 2, n - 1);
      AndOnes(h, Pow2(n - 1));
      Double(q, Pow2(n - 1));
    }
  }

  lemma Double(q: nat, p: nat)
    ensures q * (2 * p) == 2 * (q * p)
  {
  }

  lemma AndOnes(h: nat, p: nat)
    requires 1 <= h && 1 <= p
    ensures And(h, 2 * p - 1) == 2 * And(h / 2, p - 1) + h % 2
  {
    assert (2 * p - 1) / 2 == p - 1 && (2 * p - 1) % 2 == 1;
  }

  /** The mask `h & (capacity - 1)` of a lookup is the remainder `h % capacity` of a rehash. */
  lemma MaskIsMod(h: nat, capacity: nat)
    requires IsPow2(capacity)
    ensures 1 <= capacity && And(h, capacity - 1) == h % capacity
  {
    var n: nat :| capacity == Pow2(n);
    var q := MaskWitness(h, n);
    ModUnique(h, q, capacity, And(h, capacity - 1));
  }

  lemma {:induction false} AndZero(h: nat)
    ensures And(h, 0) == 0
  {
    if h > 0 {
      AndZero(h / 2);
    }
  }

  lemma {:induction false} AndSelf(h: nat)
    ensures And(h, h) == h
  {
    if h > 0 {
      AndSelf(h / 2);
    }
  }

  /** `v & (v - 1)` is zero exactly for the powers of two. */
  lemma {:induction false} PowerTest(v: nat)
    requires 1 <= v
    ensures And(v, v - 1) == 0 <==> IsPow2(v)
  {
    if v == 1 {
      assert v == Pow2(0);
    } else if v % 2 == 1 {
      AndSelf(v / 2);
      assert (v - 1) / 2 == v / 2;
      if n: nat :| v == Pow2(n) {
        assert false;
      }
    } else {
      PowerTest(v / 2);
      assert (v - 1) / 2 == v / 2 - 1;
      if IsPow2(v / 2) {
        var n: nat :| v / 2 == Pow2(n);
        assert v == Pow2(n + 1);
      }
      if n: nat :| v == Pow2(n) {
        assert v / 2 == Pow2(n - 1);
      }
    }
  }

  // ----- bit smearing

  lemma {:induction false} Pow2Monotone(m: nat, n: nat)
    requires m <= n
    ensures Pow2(m) <= Pow2(n)
  {
    if m < n {
      Pow2Monotone(m, n - 1);
    }
  }

  lemma {:induction false} ShrShr(a: nat, m: nat, n: nat)
    ensures Shr(Shr(a, m), n) == Shr(a, m + n)
    decreases m
  {
    if m > 0 {
      ShrShr(a / 2, m - 1, n);
    }
  }

  lemma {:induction false} ShrOr(a: nat, b: nat, n: nat)
    ensures Shr(Or(a, b), n) == Or(Shr(a, n), Shr(b, n))
    decreases n
  {
    if n > 0 {
      assert Or(a, b) / 2 == Or(a / 2, b / 2);
      ShrOr(a / 2, b / 2, n - 1);
    }
  }

  lemma {:induction false} ShrOnes(s: nat, k: nat)
    requires k <= s
    ensures Shr(Pow2(s) - 1, k) == Pow2(s - k) - 1
    decreases k
  {
    if k > 0 {
      assert (Pow2(s) - 1) / 2 == Pow2(s - 1) - 1;
      ShrOnes(s - 1, k - 1);
    }
  }

  lemma {:induction false} OrZero(a: nat)
    ensures Or(a, 0) == a
  {
    if a > 0 {
      OrZero(a / 2);
    }
  }

  lemma {:induction false} OrOnes(a: nat, p: nat, q: nat)
    requires Shr(a, p) == Pow2(q) - 1
    ensures Or(a, Pow2(p) - 1) == Pow2(p + q) - 1
    decreases p
  {
    if p == 0 {
      OrZero(a);
    } else {
      assert (Pow2(p) - 1) / 2 == Pow2(p - 1) - 1;
      OrOnes(a / 2, p - 1, q);
    }
  }

  function BitLength(w: nat): nat {
    if w == 0 then 0 else 1 + BitLength(w / 2)
  }

  lemma {:induction false} BitLengthBounds(w: nat)
    requires 1 <= w
    ensures 1 <= BitLength(w) && Pow2(BitLength(w) - 1) <= w < Pow2(BitLength(w))
    ensures Shr(w, BitLength(w) - 1) == 1
  {
    if w > 1 {
      BitLengthBounds(w / 2);
    }
  }

  /** The leading `s` of the `t` bits of `w` are all ones. */
  ghost predicate TopOnes(w: nat, t: nat, s: nat) {
    s <= t && Shr(w, t - s) == Pow2(s) - 1
  }

  /** One step `w | (w >> s)` lengthens the run of leading ones by any `p <= s`. */
  lemma SmearStep(w: nat, t: nat, s: nat, p: nat)
    requires TopOnes(w, t, s) && p <= s && s + p <= t
    ensures TopOnes(Or(w, Shr(w, s)), t, s + p)
  {
    var n := t - s - p;
    assert Shr(Or(w, Shr(w, s)), n) == Or(Shr(w, n), Shr(w, s + n)) by {
      ShrOr(w, Shr(w, s), n);
      ShrShr(w, s, n);
    }
    assert Shr(Shr(w, n), p) == Pow2(s) - 1 by {
      ShrShr(w, n, p);
    }
    assert Shr(w, s + n) == Pow2(p) - 1 by {
      ShrShr(w, t - s, s - p);
      ShrOnes(s, s - p);
    }
    OrOnes(Shr(w, n), p, s);
  }

  lemma {:induction false} ShrZero(n: nat)
    ensures Shr(0, n) == 0
  {
    if n > 0 {
      ShrZero(n - 1);
    }
  }

  /** Once all `t` bits are ones, a longer shift changes nothing. */
  lemma SmearDone(w: nat, t: nat, s: nat)
    requires TopOnes(w, t, t) && t <= s
    ensures Or(w, Shr(w, s)) == w
  {
    ShrShr(w, t, s - t);
    ShrOnes(t, t);
    ShrZero(s - t);
    OrZero(w);
  }

  /** One iteration of the C loop, whichever of the two cases applies. */
  lemma SmearIteration(w: nat, t: nat, s: nat)
    requires TopOnes(w, t, Min(s, t))
    ensures TopOnes(Or(w, Shr(w, s)), t, Min(2 * s, t))
  {
    hide TopOnes, Or, Shr;
    if t <= s {
      SmearDone(w, t, s);
    } else {
      SmearStep(w, t, s, Min(s, t - s));
    }
  }

  lemma {:induction false} Pow2Add(m: nat, n: nat)
    ensures Pow2(m + n) == Pow2(m) * Pow2(n)
  {
    if m > 0 {
      Pow2Add(m - 1, n);
    }
  }

  lemma Pow2Of64()
    ensures Pow2(64) == SIZE_MODULUS
  {
    assert Pow2(8) == 256;
    hide Pow2;
    Pow2Add(8, 8);
    Pow2Add(16, 16);
    Pow2Add(32, 32);
  }

  lemma SixtyFourBits(w: nat)
    requires 1 <= w < SIZE_MODULUS
    ensures BitLength(w) <= 64
  {
    BitLengthBounds(w);
    if BitLength(w) > 64 {
      Pow2Monotone(64, BitLength(w) - 1);
      Pow2Of64();
    }
  }

  /** From the smeared value: one more is the least power of two above `w`. */
  lemma SmearedIsLeast(w: nat, p: nat)
    requires 1 <= w && IsPow2(p) && w < p
    ensures Pow2(BitLength(w)) <= p
  {
    BitLengthBounds(w);
    var k: nat :| p == Pow2(k);
    if k < BitLength(w) {
      Pow2Monotone(k, BitLength(w) - 1);
    } else {
      Pow2Monotone(BitLength(w), k);
    }
  }

  /** After six iterations every bit below the leading one is set, and one more is a power of two. */
  lemma SmearedIsNextPower(w: nat, v: nat)
    requires 1 <= w < SIZE_MODULUS && TopOnes(v, BitLength(w), Min(64, BitLength(w)))
    ensures IsPow2(v + 1) && w < v + 1 <= SIZE_MODULUS
    ensures v + 1 == SIZE_MODULUS <==> SIZE_MODULUS / 2 <= w
    ensures forall p: nat :: IsPow2(p) && w < p ==> v + 1 <= p
  {
    var t := BitLength(w);
    BitLengthBounds(w);
    SixtyFourBits(w);
    Pow2Of64();
    Pow2Monotone(t, 64);
    if t < 64 {
      Pow2Monotone(t, 63);
    }
    forall p: nat | IsPow2(p) && w < p ensures v + 1 <= p {
      SmearedIsLeast(w, p);
    }
  }

  /** `r` is the least power of two that is at least `value`. */
  ghost predicate LeastPowerFrom(value: nat, r: nat) {
    IsPow2(r) && value <= r && forall p: nat :: IsPow2(p) && value <= p ==> r <= p
  }

  lemma SmallPowers(i: nat)
    requires i <= 6
    ensures Pow2(i) == [1, 2, 4, 8, 16, 32, 64][i]
  {
  }

  lemma TopBit(w: nat)
    ensures 1 <= w ==> TopOnes(w, BitLength(w), Min(1, BitLength(w)))
  {
    hide Shr, BitLength;
    if w > 0 {
      BitLengthBounds(w);
      assert Pow2(1) == 2;
    }
  }

  lemma OneIsPower()
    ensures LeastPowerFrom(1, 1)
  {
    assert IsPow2(1) by {
      assert 1 == Pow2(0);
    }
  }

  lemma LeastAbove(w: nat, p: nat)
    requires IsPow2(p) && w < p && forall q: nat :: IsPow2(q) && w < q ==> p <= q
    ensures LeastPowerFrom(w + 1, p)
  {
  }

  /** The C loop: shifts 1, 2, 4, .. 32 over a 64-bit `size_t`, with both wrap-arounds written out. */
  method NextPowerOfTwo(value: nat) returns (r: nat)
    requires value < SIZE_MODULUS
    ensures 1 <= value <= SIZE_MODULUS / 2 ==> LeastPowerFrom(value, r)
    ensures value == 0 || value > SIZE_MODULUS / 2 ==> r == 1
  {
    var v: nat := if value == 0 then SIZE_MODULUS - 1 else value - 1;
    ghost var w, t := v, BitLength(v);
    hide TopOnes, Or, Shr, BitLength, Pow2, IsPow2, LeastPowerFrom;
    TopBit(v);
    var shf: nat, i: nat := 0, 0;
    ghost var run := 1;
    while shf < 32
      invariant i <= 6 && run == [1, 2, 4, 8, 16, 32, 64][i] && shf == run / 2
      invariant w == 0 ==> v == 0
      invariant w > 0 ==> TopOnes(v, t, Min(run, t))
      decreases 6 - i
    {
      shf := Pow2(i);
      SmallPowers(i);
      if w > 0 {
        SmearIteration(v, t, shf);
      } else {
        ShrZero(shf);
      }
      v := Or(v, Shr(v, shf));
      i, run := i + 1, 2 * run;
    }
    OneIsPower();
    if w > 0 {
      SmearedIsNextPower(w, v);
      LeastAbove(w, v + 1);
    }
    v := if v == SIZE_MODULUS - 1 then 0 else v + 1;
    r := if v > 1 then v else 1;
  }

  lemma PowersAreBelowHalf(v: nat)
    requires IsPow2(v) && v < SIZE_MODULUS
    ensures v <= SIZE_MODULUS / 2
  {
    var k: nat :| v == Pow2(k);
    Pow2Of64();
    if k >= 64 {
      Pow2Monotone(64, k);
    } else {
      Pow2Monotone(k, 63);
    }
  }
}
