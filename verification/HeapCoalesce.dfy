/** What coalescing does to the free list of kernel/kernel/memory/heap.c, as a function of
    the list and of the blocks it threads. */
module HeapCoalesce {
  import opened HeapSpace
  import opened HeapState
  import opened HeapLedger
  import opened Sequences

  /** What `kernel_heap_coalesce_around` does to position `i`: it absorbs what follows,
      then its predecessor absorbs what follows. */
  ghost function Around(f: Free, i: nat): Free
  {
    var g := Settle(f, i);
    if i == 0 then g else Settle(g, i - 1)
  }

  ghost predicate FreeWf(f: Free)
  {
    && Ascending(f.fl) && Apart(f.m)
    && (forall x :: x in f.fl ==> x in f.m && f.m[x].role == InFree)
  }

  lemma FreeWfOf(s: State)
    requires Sound(s)
    ensures FreeWf(Free(s.m, s.fl))
  {}

  ghost function FuseAt(f: Free, i: nat): Free
    requires i + 1 < |f.fl| && f.fl[i] in f.m && f.fl[i + 1] in f.m
  {
    Free(Fused(f.m, f.fl[i], f.fl[i + 1]), RemoveAt(f.fl, i + 1))
  }

  lemma FusedCovers(m: Space, a: nat, b: nat, s: seq<nat>, t: seq<nat>, x: nat)
    requires a in m && b in m && a + m[a].size == b && a in s && b in s && m[a].size > 0
    requires forall y :: y in t <==> y in s && y != b
    ensures Covered(Fused(m, a, b), t, x) <==> Covered(m, s, x)
  {
    var g := Fused(m, a, b);
    assert a in t && g[a].size == m[a].size + m[b].size;
    if Covered(m, s, x) {
      var y :| y in s && y in m && y <= x < y + m[y].size;
      if y == a || y == b { assert a <= x < a + g[a].size; } else { assert y in t && y in g && g[y] == m[y]; }
    }
    if Covered(g, t, x) {
      var y :| y in t && y in g && y <= x < y + g[y].size;
      if y == a { assert a <= x < a + m[a].size || b <= x < b + m[b].size; } else { assert y in s && m[y] == g[y]; }
    }
  }

  lemma TouchingPair(f: Free, i: nat)
    requires FreeWf(f) && Touching(f.m, f.fl, i)
    ensures f.fl[i] in f.fl && f.fl[i + 1] in f.fl && f.fl[i] in f.m && f.fl[i + 1] in f.m
    ensures f.m[f.fl[i]].role == InFree && f.m[f.fl[i + 1]].role == InFree && f.m[f.fl[i]].size > 0
    ensures f.fl[i] < f.fl[i + 1]
  {}

  lemma FuseCovers(f: Free, i: nat, x: nat)
    requires FreeWf(f) && Touching(f.m, f.fl, i) && f.fl[i] in f.m && f.fl[i + 1] in f.m
    ensures Covered(FuseAt(f, i).m, FuseAt(f, i).fl, x) <==> Covered(f.m, f.fl, x)
  {
    TouchingPair(f, i);
    RemoveMembers(f.fl, i + 1);
    hide Ascending, Apart, Covered, RemoveAt, Fused;
    FusedCovers(f.m, f.fl[i], f.fl[i + 1], f.fl, RemoveAt(f.fl, i + 1), x);
  }

  lemma FuseKeeps(f: Free, i: nat)
    requires FreeWf(f) && Touching(f.m, f.fl, i)
    ensures f.fl[i] in f.m && f.fl[i + 1] in f.m
    ensures FreeWf(FuseAt(f, i)) && SameOthers(f.m, FuseAt(f, i).m) && SameBefore(f, FuseAt(f, i), i)
    ensures |FuseAt(f, i).fl| < |f.fl|
  {
    hide RemoveAt, Ascending, Apart;
    TouchingPair(f, i);
    RemoveMembers(f.fl, i + 1);
    RemoveKeeps(f.fl, i);
    MergeApart(f.m, f.fl[i], f.fl[i + 1]);
    BeforePair(f, i);
    FusedOthers(f.m, f.fl[i], f.fl[i + 1]);
    hide SameOthers;
    FuseBefore(f, FuseAt(f, i), i);
    hide SameBefore;
  }

  lemma FusedOthers(m: Space, a: nat, b: nat)
    requires a in m && b in m && m[a].role == InFree && m[b].role == InFree
    ensures SameOthers(m, Fused(m, a, b))
  {}

  lemma FuseBefore(f: Free, g: Free, i: nat)
    requires i + 1 < |f.fl| && i < |g.fl| && g.fl[..i + 1] == f.fl[..i + 1]
    requires f.fl[i] in f.m && f.fl[i + 1] in f.m && g.m == Fused(f.m, f.fl[i], f.fl[i + 1])
    requires forall k :: 0 <= k < i ==> f.fl[k] in f.m && f.fl[k] != f.fl[i] && f.fl[k] != f.fl[i + 1]
    ensures SameBefore(f, g, i)
  {
    forall k | 0 <= k < i ensures g.fl[k] in g.m && f.fl[k] in f.m && g.m[g.fl[k]] == f.m[f.fl[k]] {
      assert g.fl[k] == g.fl[..i + 1][k] == f.fl[..i + 1][k] == f.fl[k];
    }
  }

  /** The two lists agree up to and including position `i`, and on the blocks before it. */
  ghost predicate SameBefore(f: Free, g: Free, i: nat)
  {
    && i < |g.fl| && i < |f.fl| && g.fl[..i + 1] == f.fl[..i + 1]
    && (forall k :: 0 <= k < i ==> g.fl[k] in g.m && f.fl[k] in f.m && g.m[g.fl[k]] == f.m[f.fl[k]])
  }

  lemma SameBeforeTrans(f: Free, g: Free, h: Free, i: nat)
    requires SameBefore(f, g, i) && SameBefore(g, h, i)
    ensures SameBefore(f, h, i)
  {}

  lemma SameOthersTrans(f: Space, g: Space, h: Space)
    requires SameOthers(f, g) && SameOthers(g, h)
    ensures SameOthers(f, h)
  {}

  lemma BeforePair(f: Free, i: nat)
    requires FreeWf(f) && i + 1 < |f.fl|
    ensures forall k :: 0 <= k < i ==> f.fl[k] in f.m && f.fl[k] != f.fl[i] && f.fl[k] != f.fl[i + 1]
  {
    forall k | 0 <= k < i ensures f.fl[k] in f.m && f.fl[k] != f.fl[i] && f.fl[k] != f.fl[i + 1] {
      assert f.fl[k] in f.fl;
    }
  }

  /** Settling a position keeps everything before it and every other role. */
  lemma {:induction false} SettleKeeps(f: Free, i: nat)
    requires FreeWf(f) && i < |f.fl|
    ensures var g := Settle(f, i);
            && FreeWf(g) && |g.fl| <= |f.fl| && !Touching(g.m, g.fl, i) && SameBefore(f, g, i) && SameOthers(f.m, g.m)
    decreases |f.fl|
  {
    forall k | 0 <= k < |f.fl| ensures f.fl[k] in f.m { assert f.fl[k] in f.fl; }
    if Touching(f.m, f.fl, i) {
      FuseKeeps(f, i);
      var h, g := FuseAt(f, i), Settle(f, i);
      assert g == Settle(h, i);
      hide Settle, FuseAt, FreeWf, Touching, SameOthers;
      assert i < |h.fl|;
      hide SameBefore;
      SettleKeeps(h, i);
      SameBeforeTrans(f, h, g, i);
      SameOthersTrans(f.m, h.m, g.m);
    }
  }

  /** Settling changes no covered byte. */
  lemma {:induction false} SettleCovers(f: Free, i: nat, x: nat)
    requires FreeWf(f) && i < |f.fl|
    ensures Covered(Settle(f, i).m, Settle(f, i).fl, x) <==> Covered(f.m, f.fl, x)
    decreases |f.fl|
  {
    if Touching(f.m, f.fl, i) {
      FuseKeeps(f, i);
      FuseCovers(f, i, x);
      SettleCovers(FuseAt(f, i), i, x);
      hide Covered, FuseAt, FreeWf;
    }
  }

  /** Coalescing around a block keeps every covered byte, and leaves the merged block
      touching nothing on its right.  On its left it is left touching exactly when the
      predecessor it joined was itself already touching its own predecessor: the code
      does not look further back. */
  lemma AroundLeaves(f: Free, i: nat)
    requires FreeWf(f) && i < |f.fl|
    ensures var g, j := Around(f, i), if i > 0 && Touching(f.m, f.fl, i - 1) then i - 1 else i;
            && FreeWf(g) && SameOthers(f.m, g.m) && SameBefore(f, g, j) && !Touching(g.m, g.fl, j)
            && ((j > 0 && Touching(g.m, g.fl, j - 1)) <==>
                (i >= 2 && Touching(f.m, f.fl, i - 1) && Touching(f.m, f.fl, i - 2)))
  {
    hide Settle, FreeWf, Touching, SameOthers;
    var h, g := Settle(f, i), Around(f, i);
    SettleKeeps(f, i);
    assert i < |h.fl|;
    hide SameBefore;
    PrefixTouching(f, h, i);
    if i > 0 {
      SettleKeeps(h, i - 1);
      SameOthersTrans(f.m, h.m, g.m);
      PrefixTouching(h, g, i - 1);
      SameBeforeLess(f, h, i);
      SameBeforeTrans(f, h, g, i - 1);
      NotTouchingStays(h, i);
    }
  }

  lemma SameBeforeLess(f: Free, g: Free, i: nat)
    requires SameBefore(f, g, i) && i > 0
    ensures SameBefore(f, g, i - 1)
  {
    assert g.fl[..i] == g.fl[..i + 1][..i] && f.fl[..i] == f.fl[..i + 1][..i];
  }

  lemma NotTouchingStays(h: Free, i: nat)
    requires i > 0
    ensures !Touching(h.m, h.fl, i - 1) ==> Settle(h, i - 1) == h
  {}

  lemma AroundCovers(f: Free, i: nat, x: nat)
    requires FreeWf(f) && i < |f.fl|
    ensures Covered(Around(f, i).m, Around(f, i).fl, x) <==> Covered(f.m, f.fl, x)
  {
    hide Settle, FreeWf, Touching, SameOthers, Covered;
    SettleKeeps(f, i);
    SettleCovers(f, i, x);
    if i > 0 { SettleCovers(Settle(f, i), i - 1, x); }
  }

  /** Settling position `i` does not change who touches whom before it. */
  lemma PrefixTouching(f: Free, h: Free, i: nat)
    requires SameBefore(f, h, i)
    ensures forall k :: 0 <= k < i ==> (Touching(h.m, h.fl, k) <==> Touching(f.m, f.fl, k))
  {
    forall k | 0 <= k <= i ensures h.fl[k] == f.fl[k] { assert h.fl[..i + 1][k] == f.fl[..i + 1][k]; }
  }

  /** A live block joins the free list, before any merging. */
  ghost function Freed(f: Free, a: nat): Free
  {
    if a in f.m then Free(f.m[a := Blk(f.m[a].size, InFree)], InsertAt(f.fl, Rank(f.fl, a), a)) else f
  }

  lemma InsertedAt(fl: seq<nat>, i: nat, a: nat)
    requires i <= |fl|
    ensures i < |InsertAt(fl, i, a)| && InsertAt(fl, i, a)[i] == a
  {}

  lemma RankLast(fl: seq<nat>, a: nat)
    requires forall i :: 0 <= i < |fl| ==> fl[i] < a
    ensures Rank(fl, a) == |fl|
  {
    hide Rank;
    var r := Rank(fl, a);
  }

  /** Pages 4096 and 8192 were grown one after the other and so lie in the list unmerged,
      touching; page 12288 was handed out whole. */
  ghost function ThreePages(): Free
  {
    Free(map[4096 := Blk(4096, InFree), 8192 := Blk(4096, InFree), 12288 := Blk(4096, Live(Plain))], [4096, 8192])
  }

  lemma ThreePagesFreed()
    ensures Rank(ThreePages().fl, 12288) == 2
    ensures Freed(ThreePages(), 12288) ==
              Free(ThreePages().m[12288 := Blk(4096, InFree)], [4096, 8192, 12288])
  {
    RankLast(ThreePages().fl, 12288);
    hide Rank;
  }

  lemma ThreePagesWf()
    ensures FreeWf(ThreePages())
  {}

  lemma FreedPagesWf()
    ensures FreeWf(Free(ThreePages().m[12288 := Blk(4096, InFree)], [4096, 8192, 12288]))
  {}

  /** The left side is not always settled: freeing the third page merges it into the second
      and leaves the first alone. */
  lemma LeftNeighbourStays()
    ensures var f := ThreePages();
            var g := Around(Freed(f, 12288), Rank(f.fl, 12288));
            FreeWf(f) && FreeWf(g) && Touching(g.m, g.fl, 0) && g.fl[0] == 4096 && g.fl[1] == 8192
  {
    ThreePagesFreed();
    ThreePagesWf();
    FreedPagesWf();
    hide FreeWf, Rank, InsertAt, Freed;
    var e := Freed(ThreePages(), 12288);
    assert Touching(e.m, e.fl, 0) && Touching(e.m, e.fl, 1);
    AroundLeaves(e, 2);
    var g := Around(e, 2);
    hide Around, Touching;
    assert g.fl[..2] == e.fl[..2];
    assert g.fl[0] == g.fl[..2][0] && g.fl[1] == g.fl[..2][1];
  }

  /** Two free neighbours in the list with no byte between them. */
  ghost predicate Touching(m: Space, fl: seq<nat>, i: nat)
  {
    i + 1 < |fl| && fl[i] in m && fl[i] + m[fl[i]].size == fl[i + 1]
  }

  ghost function Fused(m: Space, a: nat, b: nat): Space
    requires a in m && b in m
  {
    (m - {b})[a := Blk(m[a].size + m[b].size, InFree)]
  }

  /** The free list with the blocks it threads. */
  datatype Free = Free(m: Space, fl: seq<nat>)

  /** Position `i` absorbs its successor as long as they touch. */
  ghost function Settle(f: Free, i: nat): Free
    decreases |f.fl|
  {
    if Touching(f.m, f.fl, i) && f.fl[i + 1] in f.m then
      Settle(FuseAt(f, i), i)
    else f
  }

  lemma RemoveKeeps(fl: seq<nat>, i: nat)
    requires i + 1 < |fl|
    ensures |RemoveAt(fl, i + 1)| == |fl| - 1 && RemoveAt(fl, i + 1)[..i + 1] == fl[..i + 1]
    ensures RemoveAt(fl, i + 1)[i] == fl[i]
  {}

  /** Live blocks and size-class blocks are the same in both. */
  ghost predicate SameOthers(m: Space, m': Space)
  {
    && (forall x :: x in m && m[x].role != InFree ==> x in m' && m'[x] == m[x])
    && (forall x :: x in m' && m'[x].role != InFree ==> x in m && m'[x] == m[x])
  }

  /** Fusing keeps the pages apart and the books balanced. */
  lemma FuseLedger(f: Free, i: nat, pages: set<nat>, cut: seq<nat>, large: nat, bytes: nat)
    requires FreeWf(f) && Touching(f.m, f.fl, i) && PagesOk(pages, f.m) && Books(f.m, cut, large, bytes)
    ensures f.fl[i] in f.m && f.fl[i + 1] in f.m
    ensures PagesOk(pages, FuseAt(f, i).m) && Books(FuseAt(f, i).m, cut, large, bytes)
  {
    hide Books, FreeWf, PagesOk;
    TouchingPair(f, i);
    var a, b := f.fl[i], f.fl[i + 1];
    BooksFuse(f.m, cut, large, bytes, a, b);
    PagesDrop(pages, f.m, a);
    PagesDrop(pages, f.m, b);
    PagesAdd(pages, f.m - {b}, a, Blk(f.m[a].size + f.m[b].size, InFree));
  }

  lemma {:induction false} SettleLedger(f: Free, i: nat, pages: set<nat>, cut: seq<nat>, large: nat, bytes: nat)
    requires FreeWf(f) && i < |f.fl| && PagesOk(pages, f.m) && Books(f.m, cut, large, bytes)
    ensures PagesOk(pages, Settle(f, i).m) && Books(Settle(f, i).m, cut, large, bytes)
    decreases |f.fl|
  {
    hide Books, PagesOk, FreeWf, SameOthers;
    if Touching(f.m, f.fl, i) {
      FuseLedger(f, i, pages, cut, large, bytes);
      FuseKeeps(f, i);
      SettleLedger(FuseAt(f, i), i, pages, cut, large, bytes);
    }
  }

  lemma AroundLedger(f: Free, i: nat, pages: set<nat>, cut: seq<nat>, large: nat, bytes: nat)
    requires FreeWf(f) && i < |f.fl| && PagesOk(pages, f.m) && Books(f.m, cut, large, bytes)
    ensures PagesOk(pages, Around(f, i).m) && Books(Around(f, i).m, cut, large, bytes)
  {
    hide Books, PagesOk, FreeWf, SameOthers, Settle;
    SettleLedger(f, i, pages, cut, large, bytes);
    SettleKeeps(f, i);
    if i > 0 { SettleLedger(Settle(f, i), i - 1, pages, cut, large, bytes); }
  }
}
