/** The two-level size mapping of kernel/kernel/memory/tlsf.c.

    A class (fl, sl) is also named by the single index 4 * fl + sl, in which the
    bitmap search walks upwards. */
module TlsfMapping {
  import opened Bits

  const FL_COUNT: nat := 16
  const SL_COUNT: nat := 4
  const CLASSES: nat := 64
  const MIN_BLOCK: nat := 16
  const MAX_REQUEST: nat := 65535   // TLSF_MAX_BLOCK_SIZE
  const LARGEST_FIT: nat := 57344   // 7 * 2^13, the floor of class (15, 3)

  /** `mapping_insert`: the class a block of this size is filed under. */
  function Insert(size: nat): (r: (nat, nat))
  {
    if size < 8 then
      (0, if size / 4 >= SL_COUNT then SL_COUNT - 1 else size / 4)
    else
      var fl := Log2(size);
      var sl := if fl >= 2 then Xor(Shr(size, fl - 2), 4) else 0;
      if fl >= FL_COUNT then (FL_COUNT - 1, SL_COUNT - 1) else (fl, sl)
  }

  /** What `mapping_search` adds before mapping, so that every block of the class fits. */
  function RoundedUp(size: nat): nat
  {
    if size >= 8 && Log2(size) >= 2 then size + (Pow2(Log2(size) - 2) - 1) else size
  }

  function Index(c: (nat, nat)): nat { SL_COUNT * c.0 + c.1 }

  function Class(size: nat): (c: nat)
    ensures c < CLASSES
  {
    assert Insert(size).0 < FL_COUNT && Insert(size).1 < SL_COUNT by { if size >= 8 { InsertBounds(size); } }
    Index(Insert(size))
  }

  /** `mapping_search`: the first class whose blocks are all large enough. */
  function SearchClass(size: nat): (c: nat)
    ensures c < CLASSES
  {
    Class(RoundedUp(size))
  }

  lemma ClassParts(size: nat)
    ensures Insert(size).0 < FL_COUNT && Insert(size).1 < SL_COUNT
    ensures Class(size) == SL_COUNT * Insert(size).0 + Insert(size).1
  {
    if size >= 8 { InsertBounds(size); }
  }

  /** The smallest size filed in a class of the second regime. */
  function Floor(fl: nat, sl: nat): nat
  {
    if fl < 2 then 0 else
    var m := Pow2(fl - 2);
    4 * m + (if sl >= 3 then 3 * m else if sl == 2 then 2 * m else if sl == 1 then m else 0)
  }

  lemma XorFour(q: nat)
    requires 4 <= q < 8
    ensures Xor(q, 4) == q - 4
  {
    assert Xor(0, 0) == 0;
    assert Xor(1, 1) == 0;
    var h := q / 2;
    assert h == 2 || h == 3;
    assert Xor(h, 2) == 2 * Xor(1, 1) + Digit(h % 2 != 0);
    assert Xor(q, 4) == 2 * Xor(h, 2) + Digit(q % 2 != 0);
  }

  /** The quotient that selects the second level. */
  lemma Quotient(v: nat, fl: nat)
    requires fl >= 2 && Pow2(fl) <= v < 2 * Pow2(fl)
    ensures var q := Shr(v, fl - 2);
            4 <= q < 8 && Floor(fl, q - 4) <= v < Floor(fl, q - 4) + Pow2(fl - 2)
  {
    var m, q := Pow2(fl - 2), Shr(v, fl - 2);
    assert Pow2(fl) == 2 * Pow2(fl - 1) == 4 * m;
    MaskSplit(v, fl - 2);
    hide Shr, Pow2, Floor;
    QuotientRange(v, m, q);
    FloorIsProduct(fl, q);
  }

  lemma FloorIsProduct(fl: nat, q: nat)
    requires fl >= 2 && 4 <= q < 8
    ensures Floor(fl, q - 4) == q * Pow2(fl - 2)
  {
    hide Pow2;
    var m := Pow2(fl - 2);
    if q == 4 { assert q * m == 4 * m; }
    else if q == 5 { assert q * m == 5 * m; }
    else if q == 6 { assert q * m == 6 * m; }
    else { assert q * m == 7 * m; }
  }

  lemma QuotientRange(v: nat, m: nat, q: nat)
    requires m > 0 && 4 * m <= v < 8 * m && q * m <= v < q * m + m
    ensures 4 <= q < 8
  {
    assert (q + 1) * m == q * m + m;
    if q < 4 { MulMono(q + 1, 4, m); }
    if q >= 8 { MulMono(8, q, m); }
  }

  lemma Double(n: nat)
    ensures Pow2(n + 1) == 2 * Pow2(n)
  {}

  lemma SmallPowers()
    ensures Pow2(3) == 8 && Pow2(13) == 8192 && Pow2(15) == 32768 && Pow2(16) == 65536 && Pow2(17) == 131072
  {
    assert Pow2(6) == 64 && Pow2(9) == 512 && Pow2(12) == 4096;
  }

  /** Where the logarithm of a size lies against the representable range. */
  lemma LogRange(size: nat)
    requires 8 <= size
    ensures Log2(size) >= 3 && Pow2(Log2(size)) <= size < 2 * Pow2(Log2(size))
    ensures size >= 65536 <==> Log2(size) >= FL_COUNT
  {
    var fl := Log2(size);
    Log2Bounds(size);
    SmallPowers();
    Double(fl);
    hide Pow2, Log2;
    if fl < 3 { Pow2Mono(fl + 1, 3); }
    if fl >= 16 { Pow2Mono(16, fl); } else { Pow2Mono(fl + 1, 16); }
  }

  /** A size is filed in the class whose floor is the last one at or below it. */
  lemma InsertBounds(size: nat)
    requires 8 <= size
    ensures var (fl, sl) := Insert(size);
            && 3 <= fl < FL_COUNT && sl < SL_COUNT
            && Floor(fl, sl) <= size
            && (size < 65536 ==> fl == Log2(size) && size < Floor(fl, sl) + Pow2(fl - 2))
            && (size >= 65536 ==> fl == 15 && sl == 3)
  {
    hide Pow2, Shr, Xor, Log2;
    LogRange(size);
    var fl := Log2(size);
    Quotient(size, fl);
    XorFour(Shr(size, fl - 2));
    SmallPowers();
  }

  /** Floor of the class with a given index. */
  function FloorAt(c: nat): nat { Floor(c / 4, c % 4) }

  lemma FloorStep(c: nat)
    requires c >= 12
    ensures FloorAt(c + 1) == FloorAt(c) + Pow2(c / 4 - 2)
  {
    var fl, sl := c / 4, c % 4;
    assert Pow2(fl - 1) == 2 * Pow2(fl - 2);
    if sl < 3 {
      assert (c + 1) / 4 == fl && (c + 1) % 4 == sl + 1;
    } else {
      assert (c + 1) / 4 == fl + 1 && (c + 1) % 4 == 0;
    }
  }

  lemma {:induction false} FloorMono(c: nat, d: nat)
    requires 12 <= c <= d
    ensures FloorAt(c) <= FloorAt(d)
    decreases d
  {
    hide FloorAt;
    if c < d {
      FloorMono(c, d - 1);
      FloorStep(d - 1);
    }
  }

  /** The bracket of a class, by index. */
  lemma ClassBounds(size: nat)
    requires 8 <= size
    ensures 12 <= Class(size) < CLASSES
    ensures Insert(size).0 == Class(size) / 4 && Insert(size).1 == Class(size) % 4
    ensures FloorAt(Class(size)) <= size
    ensures size < 65536 ==> size < FloorAt(Class(size) + 1)
    ensures size >= 65536 ==> Class(size) == CLASSES - 1
  {
    InsertBounds(size);
    hide Insert, Pow2, Log2;
    var (fl, sl) := Insert(size);
    assert (4 * fl + sl) / 4 == fl && (4 * fl + sl) % 4 == sl;
    FloorStep(Class(size));
  }

  /** Larger blocks are never filed lower. */
  lemma ClassMono(a: nat, b: nat)
    requires 8 <= a <= b
    ensures Class(a) <= Class(b)
  {
    ClassBounds(a);
    ClassBounds(b);
    hide Class, FloorAt;
    if Class(b) < Class(a) {
      FloorMono(Class(b) + 1, Class(a));
    }
  }

  lemma RoundedRange(n: nat)
    requires 8 <= n <= MAX_REQUEST + 1
    ensures Log2(n) >= 3 && n <= RoundedUp(n) == n + (Pow2(Log2(n) - 2) - 1)
    ensures RoundedUp(n) < 65536 <==> n <= LARGEST_FIT
  {
    hide Pow2, Log2;
    LogRange(n);
    SmallPowers();
    var fl := Log2(n);
    Double(fl);
    if fl <= 14 {
      Pow2Mono(fl + 1, 15);
      Pow2Mono(fl - 2, 13);
    } else {
      Pow2Mono(15, fl);
      Pow2Mono(13, fl - 2);
      if fl >= 17 { Pow2Mono(17, fl); }
    }
  }

  /** Search soundness: up to 57344 bytes, every block filed at or above the searched
      class is large enough. */
  lemma SearchIsSound(n: nat, s: nat)
    requires 8 <= n <= LARGEST_FIT && 8 <= s && Class(s) >= SearchClass(n)
    ensures s >= n
  {
    RoundedRange(n);
    var r := RoundedUp(n);
    ClassBounds(r);
    ClassBounds(s);
    FloorMono(Class(r), Class(s));
    FloorAboveRequest(n);
  }

  lemma FloorAboveRequest(n: nat)
    requires 8 <= n <= LARGEST_FIT
    ensures n <= FloorAt(SearchClass(n))
  {
    hide Pow2, Log2, RoundedUp, Insert;
    RoundedRange(n);
    var r, fl := RoundedUp(n), Log2(n);
    ClassBounds(r);
    InsertBounds(r);
    LogRange(n);
    LogRange(r);
    var fl' := Log2(r);
    Double(fl - 2);
    Double(fl - 1);
    Double(fl');
    if fl' < fl { Pow2Mono(fl' + 1, fl); }
    if fl' > fl { Pow2Mono(fl - 1, fl' - 2); }
  }

  /** Search completeness: a block of the rounded-up size is filed high enough. */
  lemma SearchIsComplete(n: nat, s: nat)
    requires 8 <= n <= MAX_REQUEST + 1 && s >= RoundedUp(n)
    ensures Class(s) >= SearchClass(n)
  {
    RoundedRange(n);
    ClassMono(RoundedUp(n), s);
  }

  lemma TopFloor()
    ensures FloorAt(CLASSES - 1) == LARGEST_FIT
  {
    SmallPowers();
  }

  lemma TopClass(n: nat)
    requires n == LARGEST_FIT
    ensures Class(n) == CLASSES - 1
  {
    hide Class, FloorAt;
    TopFloor();
    ClassBounds(n);
    if Class(n) < CLASSES - 1 { FloorMono(Class(n) + 1, CLASSES - 1); }
  }

  /** Above 57344 the rounded size leaves the representable range and the clamp of
      `mapping_insert` answers with the top class, whose floor is smaller. */
  lemma SearchIsClamped(n: nat)
    requires LARGEST_FIT < n <= MAX_REQUEST + 1
    ensures SearchClass(n) == CLASSES - 1 && FloorAt(CLASSES - 1) == LARGEST_FIT < n
  {
    RoundedRange(n);
    ClassBounds(RoundedUp(n));
    TopFloor();
  }
}
