/** The binary tree behind the buddy allocator of kernel/arch/i386/cpu/pmm.c.

    A block of order `o` is the set of page indices that agree once their low `o`
    bits are shifted away, so alignment is built in and two blocks either nest or
    are disjoint.  This module proves what coalescing buys: a fully coalesced set
    of free blocks is a function of the free pages alone. */
module BuddyTree {
  import opened Bits

  const MAX_ORDER: nat := 18
  const PAGES: nat := 0x40000   // PMM_MAX_PHYS_ADDR / PAGE_SIZE

  datatype Block = Block(idx: nat, order: nat)

  function Root(): Block { Block(0, MAX_ORDER) }

  predicate In(p: nat, b: Block) { Shr(p, b.order) == b.idx }

  /** First page of a block. */
  function Base(b: Block): nat
    decreases b.order
  {
    if b.order == 0 then b.idx else Base(Left(b))
  }

  function BlockAt(p: nat, order: nat): Block { Block(Shr(p, order), order) }

  function Sibling(b: Block): Block
  {
    Block(if b.idx % 2 == 0 then b.idx + 1 else b.idx - 1, b.order)
  }

  function Parent(b: Block): Block { Block(b.idx / 2, b.order + 1) }
  function Left(b: Block): Block requires b.order > 0 { Block(2 * b.idx, b.order - 1) }
  function Right(b: Block): Block requires b.order > 0 { Block(2 * b.idx + 1, b.order - 1) }

  /** `b` lies inside `a`. */
  predicate Contains(a: Block, b: Block)
  {
    b.order <= a.order && Shr(b.idx, a.order - b.order) == a.idx
  }

  // ------------------------------------------------------------ tree facts

  lemma {:induction false} ShrShr(v: nat, m: nat, n: nat)
    ensures Shr(Shr(v, m), n) == Shr(v, m + n)
  {
    if m > 0 { ShrShr(v / 2, m - 1, n); }
  }

  lemma ShrHalf(v: nat, n: nat)
    ensures Shr(v, n + 1) == Shr(v, n) / 2
  {
    ShrShr(v, n, 1);
    assert Shr(Shr(v, n), 1) == Shr(Shr(v, n) / 2, 0);
  }

  lemma {:induction false} ShrBase(i: nat, n: nat, p: nat)
    ensures (Shr(p, n) == i) == (i * Pow2(n) <= p < i * Pow2(n) + Pow2(n))
  {
    if n > 0 {
      ShrBase(i, n - 1, p / 2);
      MulShuffle(i, Pow2(n - 1));
    }
  }

  lemma {:induction false} BaseIsProduct(b: Block)
    ensures Base(b) == b.idx * Pow2(b.order)
    decreases b.order
  {
    if b.order > 0 {
      BaseIsProduct(Left(b));
      MulShuffle(b.idx, Pow2(b.order - 1));
    }
  }

  /** The pages of a block are the interval that starts at its base. */
  lemma InIsInterval(b: Block, p: nat)
    ensures In(p, b) == (Base(b) <= p < Base(b) + Pow2(b.order))
  {
    BaseIsProduct(b);
    ShrBase(b.idx, b.order, p);
  }

  lemma BaseIn(b: Block)
    ensures In(Base(b), b) && BlockAt(Base(b), b.order) == b
  {
    InIsInterval(b, Base(b));
  }

  /** Two blocks that share a page nest. */
  lemma Nested(a: Block, b: Block, p: nat)
    requires In(p, a) && In(p, b) && b.order <= a.order
    ensures Contains(a, b)
  {
    ShrShr(p, b.order, a.order - b.order);
  }

  lemma ContainsPages(a: Block, b: Block, p: nat)
    requires Contains(a, b) && In(p, b)
    ensures In(p, a)
  {
    ShrShr(p, b.order, a.order - b.order);
  }

  lemma ContainsTrans(a: Block, b: Block, c: Block)
    requires Contains(a, b) && Contains(b, c)
    ensures Contains(a, c)
  {
    ShrShr(c.idx, b.order - c.order, a.order - b.order);
  }

  /** Whatever strictly contains a block contains its parent. */
  lemma ContainsParent(a: Block, b: Block)
    requires Contains(a, b) && a != b
    ensures Contains(a, Parent(b))
  {
    assert Shr(b.idx, a.order - b.order) == Shr(b.idx / 2, a.order - b.order - 1);
  }

  lemma ParentContains(b: Block)
    ensures Contains(Parent(b), b)
  {
    assert Shr(b.idx, 1) == Shr(b.idx / 2, 0);
  }

  /** A page is in a block of positive order exactly when it is in one of the halves. */
  lemma Halves(b: Block, p: nat)
    requires b.order > 0
    ensures In(p, b) == (In(p, Left(b)) || In(p, Right(b)))
    ensures !(In(p, Left(b)) && In(p, Right(b)))
  {
    ShrHalf(p, b.order - 1);
  }

  /** The address arithmetic of splitting and merging, on page indices. */
  lemma HalfBases(b: Block)
    requires b.order > 0
    ensures Base(Left(b)) == Base(b)
    ensures Base(Right(b)) == Base(b) + Pow2(b.order - 1)
  {
    NextBase(Left(b), Right(b));
  }

  lemma NextBase(l: Block, r: Block)
    requires r == Block(l.idx + 1, l.order)
    ensures Base(r) == Base(l) + Pow2(l.order)
  {
    hide Base, Pow2;
    BaseIsProduct(l);
    BaseIsProduct(r);
    NextMultiple(l.idx, Pow2(l.order));
  }

  lemma NextMultiple(i: nat, m: nat)
    ensures (i + 1) * m == i * m + m
  {}

  /** `base ^ (1 << order)` is the base of the sibling, and the smaller of the two
      bases is the base of the merged block. */
  lemma BuddyAddress(b: Block)
    ensures Xor(Base(b), Pow2(b.order)) == Base(Sibling(b))
    ensures Base(Parent(b)) == if Base(Sibling(b)) < Base(b) then Base(Sibling(b)) else Base(b)
  {
    XorPow2(b.idx, b.order);
    BaseIsProduct(b);
    BaseIsProduct(Sibling(b));
    HalfBases(Parent(b));
    SiblingFacts(b);
    hide Base, Xor;
  }

  lemma {:induction false} XorPow2(i: nat, n: nat)
    ensures Xor(i * Pow2(n), Pow2(n)) == Sibling(Block(i, n)).idx * Pow2(n)
  {
    var s := Sibling(Block(i, n)).idx;
    if n == 0 {
      XorZero(i / 2);
    } else {
      XorPow2(i, n - 1);
      MulShuffle(i, Pow2(n - 1));
      MulShuffle(s, Pow2(n - 1));
    }
  }

  lemma {:induction false} XorZero(a: nat)
    ensures Xor(a, 0) == a
  {
    if a > 0 { XorZero(a / 2); }
  }

  lemma SiblingFacts(b: Block)
    ensures Sibling(b) != b && Sibling(Sibling(b)) == b && Parent(Sibling(b)) == Parent(b)
    ensures {b, Sibling(b)} == {Left(Parent(b)), Right(Parent(b))}
  {}

  // ------------------------------------------------------------ free block sets

  ghost predicate FreePage(f: set<Block>, p: nat)
  {
    exists b :: b in f && In(p, b)
  }

  ghost predicate AllFree(f: set<Block>, b: Block)
  {
    forall p :: In(p, b) ==> FreePage(f, p)
  }

  /** Blocks lie below the root and no block contains another. */
  ghost predicate Tiles(f: set<Block>)
  {
    && (forall b :: b in f ==> Contains(Root(), b))
    && (forall a, b {:trigger Contains(a, b)} :: a in f && b in f && Contains(a, b) ==> a == b)
  }

  ghost predicate Coalesced(f: set<Block>)
  {
    forall b :: b in f && b.order < MAX_ORDER ==> Sibling(b) !in f
  }

  ghost predicate Canonical(f: set<Block>)
  {
    Tiles(f) && Coalesced(f)
  }

  lemma OneOwner(f: set<Block>, a: Block, b: Block, p: nat)
    requires Tiles(f) && a in f && b in f && In(p, a) && In(p, b)
    ensures a == b
  {
    if a.order <= b.order { Nested(b, a, p); } else { Nested(a, b, p); }
  }

  lemma JoinHalves(f: set<Block>, b: Block, x: Block, y: Block)
    requires Coalesced(f) && 0 < b.order <= MAX_ORDER && x in f && y in f
    requires Contains(x, Left(b)) && Contains(y, Right(b))
    ensures Contains(x, b) || Contains(y, b)
  {
    assert Parent(Left(b)) == b && Parent(Right(b)) == b && Sibling(Left(b)) == Right(b);
    if x != Left(b) { ContainsParent(x, Left(b)); }
    else if y != Right(b) { ContainsParent(y, Right(b)); }
  }

  lemma HalvesFree(f: set<Block>, b: Block)
    requires b.order > 0 && AllFree(f, b) && Contains(Root(), b)
    ensures AllFree(f, Left(b)) && AllFree(f, Right(b))
    ensures Contains(Root(), Left(b)) && Contains(Root(), Right(b))
  {
    forall p | In(p, Left(b)) || In(p, Right(b)) ensures FreePage(f, p) { Halves(b, p); }
    ParentContains(Left(b));
    ParentContains(Right(b));
    ContainsTrans(Root(), b, Left(b));
    ContainsTrans(Root(), b, Right(b));
  }

  /** In a coalesced set, an aligned run of free pages lies inside a single block. */
  lemma {:induction false} CoveringBlock(f: set<Block>, b: Block)
    requires Canonical(f) && Contains(Root(), b) && AllFree(f, b)
    ensures exists a :: a in f && Contains(a, b)
    decreases b.order
  {
    BaseIn(b);
    var o :| o in f && In(Base(b), o);
    if b.order <= o.order {
      Nested(o, b, Base(b));
    } else {
      HalvesFree(f, b);
      CoveringBlock(f, Left(b));
      CoveringBlock(f, Right(b));
      var x :| x in f && Contains(x, Left(b));
      var y :| y in f && Contains(y, Right(b));
      JoinHalves(f, b, x, y);
    }
  }

  /** The blocks of a coalesced set are exactly the maximal aligned free runs. */
  lemma BlocksAreMaximalRuns(f: set<Block>, b: Block)
    requires Canonical(f)
    ensures b in f <==> Contains(Root(), b) && AllFree(f, b) && (b == Root() || !AllFree(f, Parent(b)))
  {
    if b in f {
      forall p | In(p, b) ensures FreePage(f, p) {}
      if b != Root() && AllFree(f, Parent(b)) {
        ContainsParent(Root(), b);
        CoveringBlock(f, Parent(b));
        var a :| a in f && Contains(a, Parent(b));
        ParentContains(b);
        ContainsTrans(a, Parent(b), b);
      }
    } else if Contains(Root(), b) && AllFree(f, b) {
      CoveringBlock(f, b);
      var a :| a in f && Contains(a, b);
      ContainsParent(a, b);
      forall p | In(p, Parent(b)) ensures FreePage(f, p) { ContainsPages(a, Parent(b), p); }
      assert Contains(Root(), a);
    }
  }

  /** Uniqueness: the free blocks are a function of the set of free pages. */
  lemma CanonicalIsUnique(f: set<Block>, g: set<Block>)
    requires Canonical(f) && Canonical(g)
    requires forall p :: FreePage(f, p) <==> FreePage(g, p)
    ensures f == g
  {
    forall b ensures b in f <==> b in g {
      BlocksAreMaximalRuns(f, b);
      BlocksAreMaximalRuns(g, b);
    }
  }

  /** Search completeness: a free aligned run of order `r` exists exactly when some
      free block has order at least `r`. */
  lemma RunExistsIffBlock(f: set<Block>, r: nat)
    requires Canonical(f) && r <= MAX_ORDER
    ensures (exists b :: Contains(Root(), b) && b.order == r && AllFree(f, b)) <==> (exists a :: a in f && a.order >= r)
  {
    if b :| Contains(Root(), b) && b.order == r && AllFree(f, b) {
      CoveringBlock(f, b);
    }
    if a :| a in f && a.order >= r {
      var b := BlockAt(Base(a), r);
      BaseIn(a);
      Nested(a, b, Base(a));
      ContainsTrans(Root(), a, b);
      forall p | In(p, b) ensures FreePage(f, p) { ContainsPages(a, b, p); }
      assert b.order == r;
    }
  }

  // ------------------------------------------------------------ merging and splitting

  ghost predicate Apart(a: Block, b: Block) { !Contains(a, b) && !Contains(b, a) }

  lemma TilesAdd(f: set<Block>, b: Block)
    requires Tiles(f) && Contains(Root(), b)
    requires forall a :: a in f ==> Apart(a, b)
    ensures Tiles(f + {b}) && b !in f
  {
    assert Contains(b, b);
  }

  lemma TilesSubset(f: set<Block>, g: set<Block>)
    requires Tiles(g) && f <= g
    ensures Tiles(f)
  {}

  lemma TilesApart(f: set<Block>, cur: Block)
    requires Tiles(f + {cur}) && cur !in f
    ensures Contains(Root(), cur)
    ensures forall a :: a in f ==> Apart(a, cur)
  {
    assert cur in f + {cur};
    forall a | a in f ensures Apart(a, cur) { assert a in f + {cur}; }
  }

  /** A block whose pages are all taken can join the free blocks. */
  lemma AddDisjoint(f: set<Block>, b: Block)
    requires Tiles(f) && Contains(Root(), b)
    requires forall p :: In(p, b) ==> !FreePage(f, p)
    ensures Tiles(f + {b}) && b !in f
  {
    BaseIn(b);
    forall a | a in f ensures Apart(a, b) {
      BaseIn(a);
      if Contains(a, b) { ContainsPages(a, b, Base(b)); }
      if Contains(b, a) { ContainsPages(b, a, Base(a)); }
    }
    TilesAdd(f, b);
  }

  lemma AddPages(f: set<Block>, b: Block, p: nat)
    ensures FreePage(f + {b}, p) <==> FreePage(f, p) || In(p, b)
  {}

  /** What lies under the parent of `b` is the parent, or lies under `b` or its sibling. */
  lemma UnderParent(b: Block, a: Block)
    requires Contains(Parent(b), a)
    ensures a == Parent(b) || Contains(b, a) || Contains(Sibling(b), a)
  {
    if a.order <= b.order {
      ShrHalf(a.idx, b.order - a.order);
    }
  }

  lemma OverParent(a: Block, b: Block)
    requires Contains(a, Parent(b))
    ensures Contains(a, b)
  {
    ParentContains(b);
    ContainsTrans(a, Parent(b), b);
  }

  /** One round of upward coalescing. */
  lemma MergeStep(f: set<Block>, cur: Block)
    requires Tiles(f + {cur}) && cur !in f && Sibling(cur) in f && cur.order < MAX_ORDER
    ensures Tiles(f - {Sibling(cur)} + {Parent(cur)}) && Parent(cur) !in f - {Sibling(cur)}
  {
    var s, up := Sibling(cur), Parent(cur);
    TilesApart(f, cur);
    TilesSubset(f, f + {cur});
    TilesSubset(f - {s}, f);
    ContainsParent(Root(), cur);
    forall a | a in f - {s} ensures Apart(a, up) {
      assert Apart(a, cur);
      if Contains(a, up) { OverParent(a, cur); }
      if Contains(up, a) {
        UnderParent(cur, a);
        if a == up { ParentContains(cur); }
      }
    }
    TilesAdd(f - {s}, up);
  }

  lemma MergePages(f: set<Block>, cur: Block, p: nat)
    requires Tiles(f) && Sibling(cur) in f
    ensures FreePage(f - {Sibling(cur)} + {Parent(cur)}, p) <==> FreePage(f + {cur}, p)
  {
    SiblingFacts(cur);
    Halves(Parent(cur), p);
    RemovePages(f, Sibling(cur), p);
    AddPages(f - {Sibling(cur)}, Parent(cur), p);
    AddPages(f, cur, p);
    if In(p, Sibling(cur)) { assert FreePage(f, p); }
  }

  /** Neither half of a block meets the rest of the tiling. */
  lemma HalfApart(cur: Block, half: Block, a: Block)
    requires Apart(a, cur) && Parent(half) == cur
    ensures Apart(a, half)
  {
    ParentContains(half);
    if Contains(half, a) { ContainsTrans(cur, half, a); }
    if Contains(a, half) { OverHalf(a, cur, half); }
  }

  lemma HalfFits(f: set<Block>, cur: Block, half: Block)
    requires Tiles(f + {cur}) && cur !in f && Parent(half) == cur
    ensures Contains(Root(), half)
    ensures forall a :: a in f ==> Apart(a, half)
  {
    TilesApart(f, cur);
    ParentContains(half);
    ContainsTrans(Root(), cur, half);
    forall a | a in f ensures Apart(a, half) { HalfApart(cur, half, a); }
  }

  lemma HalvesApart(cur: Block)
    requires cur.order > 0
    ensures Apart(Right(cur), Left(cur)) && Parent(Left(cur)) == cur && Parent(Right(cur)) == cur
  {}

  /** One round of downward splitting: the right half is filed, the left is kept. */
  lemma SplitTiles(f: set<Block>, cur: Block)
    requires Tiles(f + {cur}) && cur !in f && cur.order > 0
    ensures Tiles(f + {Right(cur)} + {Left(cur)})
    ensures Right(cur) !in f && Left(cur) !in f + {Right(cur)}
  {
    hide Contains, Tiles, Shr, Parent, Apart;
    var l, r := Left(cur), Right(cur);
    HalvesApart(cur);
    HalfFits(f, cur, l);
    HalfFits(f, cur, r);
    TilesSubset(f, f + {cur});
    TilesAdd(f, r);
    TilesAdd(f + {r}, l);
  }

  lemma SplitCoalesced(f: set<Block>, cur: Block)
    requires Coalesced(f) && cur.order > 0 && Left(cur) !in f
    ensures Coalesced(f + {Right(cur)})
  {
    assert Sibling(Right(cur)) == Left(cur);
    forall b | b in f ensures Sibling(b) != Right(cur) { SiblingFacts(b); }
  }

  lemma SplitPages(f: set<Block>, cur: Block, p: nat)
    requires cur.order > 0
    ensures FreePage(f + {Right(cur)} + {Left(cur)}, p) <==> FreePage(f + {cur}, p)
  {
    Halves(cur, p);
    AddPages(f + {Right(cur)}, Left(cur), p);
    AddPages(f, Right(cur), p);
    AddPages(f, cur, p);
  }

  lemma OverHalf(a: Block, cur: Block, half: Block)
    requires Contains(a, half) && Parent(half) == cur
    ensures Contains(a, cur) || Contains(cur, a)
  {
    if a == half { ParentContains(half); } else { ContainsParent(a, half); }
  }

  lemma RemovePages(f: set<Block>, b: Block, p: nat)
    requires Tiles(f) && b in f
    ensures FreePage(f - {b}, p) <==> FreePage(f, p) && !In(p, b)
  {
    if In(p, b) && FreePage(f - {b}, p) {
      var a :| a in f - {b} && In(p, a);
      OneOwner(f, a, b, p);
    }
    if a :| a in f && In(p, a) && a != b { assert a in f - {b}; }
  }

  // ------------------------------------------------------------ page counts

  /** Sum of 2^order over a set of blocks. */
  ghost function Weight(f: set<Block>): nat
  {
    if f == {} then 0 else
      var b :| b in f;
      Pow2(b.order) + Weight(f - {b})
  }

  lemma {:induction false} WeightRemove(f: set<Block>, b: Block)
    requires b in f
    ensures Weight(f) == Pow2(b.order) + Weight(f - {b})
    decreases f
  {
    var c :| c in f && Weight(f) == Pow2(c.order) + Weight(f - {c});
    if c != b {
      WeightRemove(f - {c}, b);
      WeightRemove(f - {b}, c);
      assert f - {c} - {b} == f - {b} - {c};
    }
  }

  lemma WeightAdd(f: set<Block>, b: Block)
    requires b !in f
    ensures Weight(f + {b}) == Weight(f) + Pow2(b.order)
  {
    WeightRemove(f + {b}, b);
    assert f + {b} - {b} == f;
  }

  /** Both halves of a proper block lie below the root. */
  lemma SiblingInRange(b: Block)
    requires Contains(Root(), b) && b.order < MAX_ORDER
    ensures Contains(Root(), Sibling(b)) && Contains(Root(), Parent(b))
  {
    ContainsParent(Root(), b);
    SiblingFacts(b);
    ParentContains(Sibling(b));
    ContainsTrans(Root(), Parent(b), Sibling(b));
  }

  lemma AddedPages(f: set<Block>, b: Block)
    ensures forall p :: FreePage(f + {b}, p) <==> FreePage(f, p) || In(p, b)
  {
    forall p ensures FreePage(f + {b}, p) <==> FreePage(f, p) || In(p, b) { AddPages(f, b, p); }
  }

  /** One merge round, with everything the loop carries. */
  lemma MergeRound(f: set<Block>, cur: Block)
    requires Tiles(f) && Coalesced(f) && Tiles(f + {cur}) && cur !in f && Sibling(cur) in f && cur.order < MAX_ORDER
    ensures var g := f - {Sibling(cur)};
            && Tiles(g + {Parent(cur)}) && Parent(cur) !in g && Coalesced(g)
            && Weight(g) + Pow2(cur.order + 1) == Weight(f) + Pow2(cur.order)
            && forall p :: FreePage(g + {Parent(cur)}, p) <==> FreePage(f + {cur}, p)
  {
    MergeStep(f, cur);
    WeightRemove(f, Sibling(cur));
    forall p ensures FreePage(f - {Sibling(cur)} + {Parent(cur)}, p) <==> FreePage(f + {cur}, p) {
      MergePages(f, cur, p);
    }
  }

  lemma CoalescedAdd(f: set<Block>, b: Block)
    requires Coalesced(f) && (b.order < MAX_ORDER ==> Sibling(b) !in f)
    ensures Coalesced(f + {b})
  {
    SiblingFacts(b);
    forall a | a in f && a.order < MAX_ORDER ensures Sibling(a) != b { SiblingFacts(a); }
  }

  /** One split round, with everything the loop carries. */
  lemma SplitRound(f: set<Block>, cur: Block)
    requires Tiles(f + {cur}) && cur !in f && Coalesced(f) && cur.order > 0
    ensures var l, r := Left(cur), Right(cur);
            && Contains(Root(), r) && Base(l) == Base(cur) && Base(r) == Base(cur) + Pow2(cur.order - 1)
            && r !in f && Tiles(f + {r}) && Coalesced(f + {r}) && l !in f + {r} && Tiles(f + {r} + {l})
            && Weight(f + {r}) + Pow2(cur.order - 1) == Weight(f) + Pow2(cur.order)
            && (forall p :: FreePage(f + {r} + {l}, p) <==> FreePage(f + {cur}, p))
            && (forall p :: In(p, cur) <==> In(p, l) || In(p, r))
            && (forall p :: !(In(p, l) && In(p, r)))
  {
    hide In, Base, Weight, FreePage, Contains, Tiles, Coalesced;
    var l, r := Left(cur), Right(cur);
    SplitTiles(f, cur);
    TilesSubset(f + {r}, f + {r} + {l});
    SplitCoalesced(f, cur);
    HalfBases(cur);
    HalfFits(f, cur, r);
    WeightAdd(f, r);
    forall p ensures FreePage(f + {r} + {l}, p) <==> FreePage(f + {cur}, p) { SplitPages(f, cur, p); }
    forall p ensures (In(p, cur) <==> In(p, l) || In(p, r)) && !(In(p, l) && In(p, r)) { Halves(cur, p); }
  }

  /** What taking one block out of a tiling means for its pages. */
  lemma Handed(f0: set<Block>, f: set<Block>, b: Block)
    requires b !in f && Tiles(f + {b})
    requires forall p :: FreePage(f + {b}, p) <==> FreePage(f0, p)
    ensures Contains(Root(), b) && AllFree(f0, b)
    ensures forall p :: FreePage(f, p) <==> FreePage(f0, p) && !In(p, b)
  {
    TilesApart(f, b);
    forall p ensures FreePage(f, p) <==> FreePage(f0, p) && !In(p, b) {
      RemovePages(f + {b}, b, p);
      assert f + {b} - {b} == f;
    }
    forall p | In(p, b) ensures FreePage(f0, p) { AddPages(f, b, p); }
  }

  lemma MemberPages(f: set<Block>, b: Block)
    requires b in f
    ensures forall p :: In(p, b) ==> FreePage(f, p)
  {}

  lemma CoalescedSubset(f: set<Block>, g: set<Block>)
    requires Coalesced(g) && f <= g
    ensures Coalesced(f)
  {}

  /** Freeing what was just allocated restores exactly the same free blocks, however
      the allocator split and merged on the way. */
  lemma FreeUndoesAllocate(before: set<Block>, between: set<Block>, after: set<Block>, b: Block)
    requires Canonical(before) && Canonical(after) && AllFree(before, b)
    requires forall p :: FreePage(between, p) <==> FreePage(before, p) && !In(p, b)
    requires forall p :: FreePage(after, p) <==> FreePage(between, p) || In(p, b)
    ensures after == before
  {
    CanonicalIsUnique(after, before);
  }

  ghost function PageSet(f: set<Block>): set<nat>
  {
    set p | 0 <= p < PAGES && FreePage(f, p)
  }

  ghost function BlockPages(b: Block): set<nat>
  {
    set p | 0 <= p < PAGES && In(p, b)
  }

  lemma LeafPages(b: Block)
    requires Contains(Root(), b) && b.order == 0
    ensures BlockPages(b) == {b.idx}
  {
    BlockFits(b);
  }

  lemma HalvesInRange(b: Block)
    requires Contains(Root(), b) && b.order > 0
    ensures Contains(Root(), Left(b)) && Contains(Root(), Right(b))
  {
    hide Contains, Shr;
    HalvesApart(b);
    ParentContains(Left(b));
    ParentContains(Right(b));
    ContainsTrans(Root(), b, Left(b));
    ContainsTrans(Root(), b, Right(b));
  }

  lemma HalvesPages(b: Block)
    requires b.order > 0
    ensures |BlockPages(b)| == |BlockPages(Left(b))| + |BlockPages(Right(b))|
  {
    hide In;
    forall p: nat
      ensures (In(p, b) <==> In(p, Left(b)) || In(p, Right(b))) && !(In(p, Left(b)) && In(p, Right(b)))
    {
      Halves(b, p);
    }
    SumOfParts(BlockPages(b), BlockPages(Left(b)), BlockPages(Right(b)));
  }

  lemma {:induction false} BlockSize(b: Block)
    requires Contains(Root(), b)
    ensures |BlockPages(b)| == Pow2(b.order)
    decreases b.order
  {
    hide Contains, BlockPages;
    if b.order == 0 {
      LeafPages(b);
    } else {
      HalvesInRange(b);
      HalvesPages(b);
      BlockSize(Left(b));
      BlockSize(Right(b));
    }
  }

  /** The sum of 2^order over the free blocks is the number of free pages. */
  lemma {:induction false} WeightCountsPages(f: set<Block>)
    requires Tiles(f)
    ensures |PageSet(f)| == Weight(f)
    decreases f
  {
    if f == {} {
      assert PageSet(f) == {};
    } else {
      var b :| b in f;
      TilesSubset(f - {b}, f);
      WeightCountsPages(f - {b});
      WeightRemove(f, b);
      BlockSize(b);
      forall p: nat ensures FreePage(f - {b}, p) <==> FreePage(f, p) && !In(p, b) { RemovePages(f, b, p); }
      MemberPages(f, b);
      hide In, FreePage, Contains, Weight;
      SumOfParts(PageSet(f), PageSet(f - {b}), BlockPages(b));
    }
  }

  lemma SumOfParts(whole: set<nat>, a: set<nat>, b: set<nat>)
    requires forall p :: p in whole <==> p in a || p in b
    requires forall p :: !(p in a && p in b)
    ensures |whole| == |a| + |b|
  {
    assert whole == a + b && a !! b;
  }

  /** Blocks under the root end within the page array. */
  lemma BlockFits(b: Block)
    requires Contains(Root(), b)
    ensures Base(b) + Pow2(b.order) <= PAGES
  {
    var last := Base(b) + Pow2(b.order) - 1;
    InIsInterval(b, last);
    ContainsPages(Root(), b, last);
    InIsInterval(Root(), last);
    BaseIsProduct(Root());
    PagesIsPow2();
  }

  lemma PagesIsPow2()
    ensures Pow2(18) == PAGES
  {
    assert Pow2(9) == 512;
    Pow2Add(9, 9);
  }
}
