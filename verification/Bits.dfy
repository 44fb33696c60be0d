/** Machine words as natural numbers.  A `uint32_t` is a `nat` below 2^32, and the
    C bit operators are written out on binary digits, so that every mask, shift and
    bit scan in the kernel sources can be stated and reasoned about as arithmetic. */
module Bits {

  const WORD: nat := 0x1_0000_0000

  function Pow2(n: nat): (r: nat)
    ensures r >= 1
  {
    if n == 0 then 1 else 2 * Pow2(n - 1)
  }

  /** `v >> n` */
  function Shr(v: nat, n: nat): (r: nat)
  {
    if n == 0 then v else Shr(v / 2, n - 1)
  }

  /** Bit `i` of `v`. */
  predicate Bit(v: nat, i: nat)
  {
    if i == 0 then v % 2 == 1 else Bit(v / 2, i - 1)
  }

  function Digit(b: bool): (r: nat) { if b then 1 else 0 }

  /** `a & b` */
  function And(a: nat, b: nat): (r: nat)
  {
    if a == 0 || b == 0 then 0
    else 2 * And(a / 2, b / 2) + Digit(a % 2 == 1 && b % 2 == 1)
  }

  /** `a & ~b` */
  function AndNot(a: nat, b: nat): (r: nat)
  {
    if a == 0 then 0
    else 2 * AndNot(a / 2, b / 2) + Digit(a % 2 == 1 && b % 2 == 0)
  }

  /** `a | b` */
  function Or(a: nat, b: nat): (r: nat)
    decreases a + b
  {
    if a == 0 && b == 0 then 0
    else 2 * Or(a / 2, b / 2) + Digit(a % 2 == 1 || b % 2 == 1)
  }

  /** `a ^ b` */
  function Xor(a: nat, b: nat): (r: nat)
    decreases a + b
  {
    if a == 0 && b == 0 then 0
    else 2 * Xor(a / 2, b / 2) + Digit(a % 2 != b % 2)
  }

  /** `__builtin_ctz`: the position of the lowest set bit. */
  function Ctz(v: nat): (r: nat)
    requires v > 0
  {
    if v % 2 == 1 then 0 else 1 + Ctz(v / 2)
  }

  /** `31 - __builtin_clz(v)`: the position of the highest set bit. */
  function Log2(v: nat): (r: nat)
    requires v > 0
  {
    if v == 1 then 0 else 1 + Log2(v / 2)
  }

  // ------------------------------------------------------------ digits

  lemma {:induction false} ZeroBit(i: nat)
    ensures !Bit(0, i)
  {
    if i > 0 { ZeroBit(i - 1); }
  }

  lemma {:induction false} AndNotBit(a: nat, b: nat, i: nat)
    ensures Bit(AndNot(a, b), i) == (Bit(a, i) && !Bit(b, i))
  {
    if a == 0 {
      ZeroBit(i);
    } else if i > 0 {
      AndNotBit(a / 2, b / 2, i - 1);
    }
  }

  lemma {:induction false} OrBit(a: nat, b: nat, i: nat)
    ensures Bit(Or(a, b), i) == (Bit(a, i) || Bit(b, i))
  {
    if a == 0 && b == 0 {
      ZeroBit(i);
    } else if i > 0 {
      OrBit(a / 2, b / 2, i - 1);
    }
  }

  lemma {:induction false} Pow2Bit(k: nat, i: nat)
    ensures Bit(Pow2(k), i) == (i == k)
  {
    if k == 0 {
      if i > 0 { ZeroBit(i - 1); }
    } else if i > 0 {
      Pow2Bit(k - 1, i - 1);
    }
  }

  /** The mask `(1 << k) - 1` holds exactly the bits below `k`. */
  lemma {:induction false} MaskBit(k: nat, i: nat)
    ensures Bit(Pow2(k) - 1, i) == (i < k)
  {
    if k == 0 {
      ZeroBit(i);
    } else if i > 0 {
      assert (Pow2(k) - 1) / 2 == Pow2(k - 1) - 1;
      MaskBit(k - 1, i - 1);
    }
  }

  /** A word is zero exactly when no bit is set; the lowest set bit is `Ctz`. */
  lemma {:induction false} CtzIsLowest(v: nat)
    requires v > 0
    ensures Bit(v, Ctz(v))
    ensures forall i :: 0 <= i < Ctz(v) ==> !Bit(v, i)
  {
    if v % 2 == 0 {
      CtzIsLowest(v / 2);
      forall i | 0 <= i < Ctz(v) ensures !Bit(v, i) {
        if i > 0 { assert Bit(v, i) == Bit(v / 2, i - 1); }
      }
    }
  }

  // ------------------------------------------------------------ shifts and masks

  lemma MulShuffle(q: nat, m: nat)
    ensures q * (2 * m) == 2 * (q * m)
  {}

  lemma DivUnique(v: nat, m: nat, q: nat, r: nat)
    requires m > 0 && r < m && v == q * m + r
    ensures v / m == q && v % m == r
  {
    var q', r' := v / m, v % m;
    assert (q - q') * m == r' - r;
    if q > q' { MulMono(1, q - q', m); }
    if q < q' { MulMono(1, q' - q, m); }
  }

  lemma WrapMod(s: nat, i: nat, n: nat)
    requires s < n && i < n
    ensures (s + i) % n == if s + i < n then s + i else s + i - n
  {
    if s + i < n { DivUnique(s + i, n, 0, s + i); } else { DivUnique(s + i, n, 1, s + i - n); }
  }

  /** Reducing modulo a multiple first changes nothing. */
  lemma ModMod(x: nat, n: nat, d: nat, c: nat)
    requires n == d * c && n > 0 && d > 0
    ensures (x % n) % d == x % d
  {
    var q, r := x / n, x % n;
    var q', r' := r / d, r % d;
    Multiples(q, n, d, c, q');
    DivUnique(x, d, q * c + q', r');
  }

  lemma Multiples(q: nat, n: nat, d: nat, c: nat, q': nat)
    requires n == d * c
    ensures q * n + q' * d == (q * c + q') * d
  {
    calc {
      q * n + q' * d;
      q * (c * d) + q' * d;
      (q * c) * d + q' * d;
      (q * c + q') * d;
    }
  }

  lemma MulMono(a: nat, b: nat, m: nat)
    requires a <= b
    ensures a * m <= b * m
  {
    assert (b - a) * m >= 0;
    assert b * m - a * m == (b - a) * m;
  }

  lemma {:induction false} MaskSplit(v: nat, k: nat)
    ensures v == Shr(v, k) * Pow2(k) + And(v, Pow2(k) - 1)
    ensures And(v, Pow2(k) - 1) < Pow2(k)
  {
    hide Shr, Pow2, And;
    if k == 0 {
      MaskNone(v);
    } else {
      MaskSplit(v / 2, k - 1);
      MaskDigit(v, k);
      SplitStep(v, Shr(v, k), Pow2(k - 1), Pow2(k), And(v / 2, Pow2(k - 1) - 1));
    }
  }

  lemma MaskNone(v: nat)
    ensures Shr(v, 0) * Pow2(0) == v && Pow2(0) == 1 && And(v, Pow2(0) - 1) == 0
  {}

  lemma SplitStep(v: nat, q: nat, m: nat, p: nat, r: nat)
    requires v / 2 == q * m + r && r < m && p == 2 * m
    ensures v == q * p + (2 * r + v % 2) && 2 * r + v % 2 < p
  {
    MulShuffle(q, m);
    assert v == 2 * (v / 2) + v % 2;
  }

  /** One digit less on both sides. */
  lemma MaskDigit(v: nat, k: nat)
    requires k > 0
    ensures Pow2(k) == 2 * Pow2(k - 1) && Shr(v, k) == Shr(v / 2, k - 1)
    ensures And(v, Pow2(k) - 1) == 2 * And(v / 2, Pow2(k - 1) - 1) + v % 2
  {
    var m, w := Pow2(k - 1), Pow2(k) - 1;
    assert w / 2 == m - 1 && w % 2 == 1;
  }

  /** `v & ((1 << k) - 1)` is the remainder modulo 2^k, and `v >> k` the quotient:
      how every ring and bucket index wraps. */
  lemma MaskIsMod(v: nat, k: nat)
    ensures And(v, Pow2(k) - 1) == v % Pow2(k) && Shr(v, k) == v / Pow2(k)
  {
    MaskSplit(v, k);
    DivUnique(v, Pow2(k), Shr(v, k), And(v, Pow2(k) - 1));
  }

  lemma {:induction false} AndNotRest(a: nat, b: nat)
    ensures AndNot(a, b) + And(a, b) == a
  {
    if b == 0 {
      if a > 0 { AndNotRest(a / 2, 0); }
    } else if a > 0 {
      AndNotRest(a / 2, b / 2);
    }
  }

  lemma {:induction false} XorUndone(a: nat, b: nat)
    ensures Xor(a, Xor(a, b)) == b
    decreases a + b
  {
    if a != 0 || b != 0 {
      XorUndone(a / 2, b / 2);
      XorParts(a, b);
      XorParts(a, Xor(a, b));
    }
  }

  lemma XorParts(a: nat, b: nat)
    ensures Xor(a, b) / 2 == Xor(a / 2, b / 2) && (Xor(a, b) % 2 == 1 <==> a % 2 != b % 2)
  {}

  /** The low digits of an exclusive or depend on the low digits only. */
  lemma {:induction false} XorLow(a: nat, b: nat, k: nat)
    requires a < Pow2(k)
    ensures Xor(a, b) % Pow2(k) == Xor(a, b % Pow2(k))
    decreases k
  {
    if k > 0 {
      XorLow(a / 2, b / 2, k - 1);
      XorParts(a, b);
      XorParts(a, b % Pow2(k));
      LowParts(b, Pow2(k - 1));
      LowParts(Xor(a, b), Pow2(k - 1));
    }
  }

  lemma LowParts(v: nat, p: nat)
    requires p > 0
    ensures (v % (2 * p)) / 2 == (v / 2) % p && (v % (2 * p)) % 2 == v % 2
  {
    var q, r := (v / 2) / p, (v / 2) % p;
    assert v == 2 * (q * p + r) + v % 2;
    MulShuffle(q, p);
    DivUnique(v, 2 * p, q, 2 * r + v % 2);
  }

  lemma {:induction false} Log2Bounds(v: nat)
    requires v > 0
    ensures Pow2(Log2(v)) <= v < 2 * Pow2(Log2(v))
  {
    if v > 1 { Log2Bounds(v / 2); }
  }

  lemma {:induction false} Pow2Mono(a: nat, b: nat)
    requires a <= b
    ensures Pow2(a) <= Pow2(b)
    decreases b
  {
    if a < b { Pow2Mono(a, b - 1); }
  }

  lemma {:induction false} Pow2Add(a: nat, b: nat)
    ensures Pow2(a + b) == Pow2(a) * Pow2(b)
  {
    if a > 0 {
      Pow2Add(a - 1, b);
      assert Pow2(a + b) == 2 * Pow2(a - 1 + b);
      MulShuffle(Pow2(b), Pow2(a - 1));
    }
  }

  /** `v & (1 << i)` */
  lemma {:induction false} AndOne(v: nat, i: nat)
    ensures And(v, Pow2(i)) == if Bit(v, i) then Pow2(i) else 0
  {
    if v == 0 {
      ZeroBit(i);
    } else if i > 0 {
      AndOne(v / 2, i - 1);
    } else {
      AndNone(v / 2);
    }
  }

  lemma AndNone(v: nat)
    ensures And(v, 0) == 0
  {}
}
