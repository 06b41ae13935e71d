/** Python's unbounded non-negative integers as bit strings: shifts, masks and exclusive or,
    each defined one bit at a time, and the laws that tie them together. */
module Bits {

  /** `a << k` */
  function Shl(a: nat, k: nat): nat {
    if k == 0 then a else 2 * Shl(a, k - 1)
  }

  /** `a >> k` */
  function Shr(a: nat, k: nat): nat {
    if k == 0 then a else Shr(a / 2, k - 1)
  }

  /** `a & ((1 << k) - 1)` */
  function Low(a: nat, k: nat): nat {
    if k == 0 then 0 else 2 * Low(a / 2, k - 1) + a % 2
  }

  /** `a ^ b` */
  function Xor(a: nat, b: nat): nat
    decreases a + b
  {
    if a == 0 && b == 0 then 0
    else 2 * Xor(a / 2, b / 2) + (if a % 2 == b % 2 then 0 else 1)
  }

  /** `a` has at most `k` bits. */
  predicate Fits(a: nat, k: nat) {
    Shr(a, k) == 0
  }

  // ---- Exclusive or is a commutative group in which every element is its own inverse ----

  lemma XorHalves(a: nat, b: nat)
    ensures Xor(a, b) / 2 == Xor(a / 2, b / 2)
    ensures Xor(a, b) % 2 == if a % 2 == b % 2 then 0 else 1
  {
  }

  lemma {:induction false} XorCommutes(a: nat, b: nat)
    ensures Xor(a, b) == Xor(b, a)
    decreases a + b
  {
    if a + b > 0 { XorCommutes(a / 2, b / 2); }
  }

  lemma {:induction false} XorAssociates(a: nat, b: nat, c: nat)
    ensures Xor(Xor(a, b), c) == Xor(a, Xor(b, c))
    decreases a + b + c
  {
    if a + b + c > 0 {
      XorAssociates(a / 2, b / 2, c / 2);
      XorHalves(a, b);
      XorHalves(b, c);
      XorHalves(Xor(a, b), c);
      XorHalves(a, Xor(b, c));
    }
  }

  lemma {:induction false} XorZero(a: nat)
    ensures Xor(a, 0) == a == Xor(0, a)
  {
    if a > 0 { XorZero(a / 2); }
  }

  lemma {:induction false} XorSelf(a: nat)
    ensures Xor(a, a) == 0
  {
    if a > 0 { XorSelf(a / 2); }
  }

  lemma XorExchange(a: nat, b: nat, c: nat, d: nat)
    ensures Xor(Xor(a, b), Xor(c, d)) == Xor(Xor(a, c), Xor(b, d))
  {
    calc {
      Xor(Xor(a, b), Xor(c, d));
      { XorAssociates(a, b, Xor(c, d)); }
      Xor(a, Xor(b, Xor(c, d)));
      { XorAssociates(b, c, d); XorCommutes(b, c); XorAssociates(c, b, d); }
      Xor(a, Xor(c, Xor(b, d)));
      { XorAssociates(a, c, Xor(b, d)); }
      Xor(Xor(a, c), Xor(b, d));
    }
  }

  // ---- Shifts and masks distribute over exclusive or ----

  lemma {:induction false} XorShl(a: nat, b: nat, k: nat)
    ensures Shl(Xor(a, b), k) == Xor(Shl(a, k), Shl(b, k))
  {
    if k > 0 {
      var p, q := Shl(a, k - 1), Shl(b, k - 1);
      XorShl(a, b, k - 1);
      XorHalves(2 * p, 2 * q);
      assert (2 * p) / 2 == p && (2 * q) / 2 == q;
    }
  }

  lemma {:induction false} XorShr(a: nat, b: nat, k: nat)
    ensures Shr(Xor(a, b), k) == Xor(Shr(a, k), Shr(b, k))
  {
    if k > 0 {
      XorHalves(a, b);
      XorShr(a / 2, b / 2, k - 1);
    }
  }

  lemma LowHalves(a: nat, k: nat)
    requires k > 0
    ensures Low(a, k) / 2 == Low(a / 2, k - 1) && Low(a, k) % 2 == a % 2
  {
  }

  lemma {:induction false} XorLow(a: nat, b: nat, k: nat)
    ensures Low(Xor(a, b), k) == Xor(Low(a, k), Low(b, k))
  {
    if k > 0 {
      XorLow(a / 2, b / 2, k - 1);
      XorHalves(a, b);
      LowHalves(a, k);
      LowHalves(b, k);
      LowHalves(Xor(a, b), k);
      XorHalves(Low(a, k), Low(b, k));
      SameHalves(Low(Xor(a, b), k), Xor(Low(a, k), Low(b, k)));
    }
  }

  lemma SameHalves(x: nat, y: nat)
    requires x / 2 == y / 2 && x % 2 == y % 2
    ensures x == y
  {
  }

  /** One doubled value with a bit and more below it. */
  lemma Halve(p: nat, c: nat)
    ensures (2 * p + c) / 2 == p + c / 2 && (2 * p + c) % 2 == c % 2 && 2 * (c / 2) + c % 2 == c
  {
  }

  /** Filling the bits a left shift vacated is addition. */
  lemma {:induction false} XorFill(a: nat, c: nat, k: nat)
    requires Fits(c, k)
    ensures Xor(Shl(a, k), c) == Shl(a, k) + c
  {
    if k == 0 {
      XorZero(a);
    } else {
      Halve(Shl(a, k - 1), c);
      Halve(Shl(a, k - 1), 0);
      XorFill(a, c / 2, k - 1);
      XorHalves(Shl(a, k), c);
    }
  }

  lemma {:induction false} XorFits(a: nat, b: nat, k: nat)
    requires Fits(a, k) && Fits(b, k)
    ensures Fits(Xor(a, b), k)
  {
    XorShr(a, b, k);
  }

  // ---- Widths ----

  lemma LowOne(a: nat)
    ensures Low(a, 1) == a % 2
  {
  }

  lemma {:induction false} LowFits(a: nat, k: nat)
    ensures Fits(Low(a, k), k)
  {
    if k > 0 { LowFits(a / 2, k - 1); }
  }

  lemma {:induction false} LowOfFitting(a: nat, k: nat)
    requires Fits(a, k)
    ensures Low(a, k) == a
  {
    if k > 0 { LowOfFitting(a / 2, k - 1); }
  }

  lemma {:induction false} ShrZero(k: nat)
    ensures Shr(0, k) == 0
  {
    if k > 0 { ShrZero(k - 1); }
  }

  lemma {:induction false} LowZero(k: nat)
    ensures Low(0, k) == 0
  {
    if k > 0 { LowZero(k - 1); }
  }

  lemma {:induction false} ShrShr(a: nat, j: nat, k: nat)
    ensures Shr(Shr(a, j), k) == Shr(a, j + k)
  {
    if j > 0 { ShrShr(a / 2, j - 1, k); }
  }

  lemma {:induction false} FitsMore(a: nat, j: nat, k: nat)
    requires Fits(a, j) && j <= k
    ensures Fits(a, k)
  {
    ShrShr(a, j, k - j);
    ShrZero(k - j);
  }

  /** A shifted value with its vacated bits filled is as wide as both parts together. */
  lemma {:induction false} FillShr(a: nat, c: nat, k: nat)
    requires Fits(c, k)
    ensures Shr(Shl(a, k) + c, k) == a
  {
    if k > 0 {
      Halve(Shl(a, k - 1), c);
      FillShr(a, c / 2, k - 1);
    }
  }

  /** A value is its high part shifted back plus its low part. */
  lemma {:induction false} SplitAt(a: nat, k: nat)
    ensures Shl(Shr(a, k), k) + Low(a, k) == a
  {
    if k > 0 { SplitAt(a / 2, k - 1); }
  }

  lemma {:induction false} ShlShr(a: nat, j: nat, k: nat)
    ensures Shr(Shl(a, j), j + k) == Shr(a, k)
  {
    ShrZero(j);
    FillShr(a, 0, j);
    ShrShr(Shl(a, j), j, k);
  }

  lemma {:induction false} ShlPositive(a: nat, k: nat)
    ensures Shl(a, k) == 0 <==> a == 0
  {
    if k > 0 { ShlPositive(a, k - 1); }
  }

  lemma {:induction false} LowShl(a: nat, j: nat, k: nat)
    ensures Low(Shl(a, j), j + k) == Shl(Low(a, k), j)
  {
    if j > 0 {
      Halve(Shl(a, j - 1), 0);
      LowShl(a, j - 1, k);
    }
  }

  lemma {:induction false} FitsBelow(a: nat, k: nat)
    ensures Fits(a, k) <==> a < Shl(1, k)
  {
    if k > 0 { FitsBelow(a / 2, k - 1); }
  }

  // ---- Digits ----

  /** Every digit has at most `k` bits. */
  ghost predicate Digits(ds: seq<nat>, k: nat) {
    forall i :: 0 <= i < |ds| ==> Fits(ds[i], k)
  }

  /** The number `acc` continued by `k`-bit digits, most significant first. */
  function Read(acc: nat, ds: seq<nat>, k: nat): nat
    decreases |ds|
  {
    if ds == [] then acc else Read(Shl(acc, k) + ds[0], ds[1..], k)
  }

  lemma {:induction false} ReadLast(acc: nat, ds: seq<nat>, d: nat, k: nat)
    ensures Read(acc, ds + [d], k) == Shl(Read(acc, ds, k), k) + d
    decreases |ds|
  {
    if ds != [] {
      assert (ds + [d])[1..] == ds[1..] + [d];
      ReadLast(Shl(acc, k) + ds[0], ds[1..], d, k);
    }
  }

  /** Digits and starting value can be read back from the number. */
  lemma {:induction false} ReadInjective(x: nat, y: nat, a: seq<nat>, b: seq<nat>, k: nat)
    requires Digits(a, k) && Digits(b, k) && |a| == |b|
    requires Read(x, a, k) == Read(y, b, k)
    ensures x == y && a == b
    decreases |a|
  {
    if a != [] {
      ReadInjective(Shl(x, k) + a[0], Shl(y, k) + b[0], a[1..], b[1..], k);
      FillShr(x, a[0], k);
      FillShr(y, b[0], k);
      assert a == [a[0]] + a[1..] && b == [b[0]] + b[1..];
    }
  }
}
