/** How many frames mapping a run of pages takes, kernel/kernel/memory/vmm.c over
    kernel/arch/i386/cpu/paging.c: one for each page, and one for each page table that is
    missing, where a table takes the spare frame or leaves a new spare behind.  Which free
    frame the page allocator hands out is left open. */
module FrameSupply {
  import opened PageTables

  ghost predicate IsPair(free: set<nat>, g: nat) { g % 2 == 0 && g + 1 in free }

  /** Lower frames of the free aligned pairs. */
  ghost function Pairs(free: set<nat>): set<nat> { set g | g in free && IsPair(free, g) }

  ghost function One(b: bool): nat { if b then 1 else 0 }

  /** Frames at hand: the free ones and the spare. */
  ghost function AtHand(free: set<nat>, spare: bool): nat { |free| + One(spare) }

  /** How a page table gets its frame: the spare if there is one; else half of a pair, the
      other half becoming the spare; else a single frame. */
  ghost predicate TableTaken(free: set<nat>, spare: bool, free': set<nat>, spare': bool)
  {
    if spare then free' == free && !spare'
    else if Pairs(free) != {} then spare' && exists g :: g in Pairs(free) && free' == free - {g, g + 1}
    else !spare' && exists f :: f in free && free' == free - {f}
  }

  /** A page takes a free frame, and then its table takes one if it is missing. */
  ghost predicate PageTaken(free: set<nat>, spare: bool, free': set<nat>, spare': bool, table: bool)
  {
    exists f :: f in free && Then(free - {f}, spare, free', spare', table)
  }

  ghost predicate Then(free: set<nat>, spare: bool, free': set<nat>, spare': bool, table: bool)
  {
    if table then TableTaken(free, spare, free', spare') else free' == free && spare' == spare
  }

  ghost predicate CanTake(free: set<nat>, spare: bool, table: bool)
  {
    free != {} && (!table || spare || |free| >= 2)
  }

  // ------------------------------------------------------------ pairs

  lemma PairsShrink(free: set<nat>, free': set<nat>)
    requires free' <= free
    ensures Pairs(free') <= Pairs(free) && |Pairs(free')| <= |Pairs(free)|
  {
    SubsetCount(Pairs(free'), Pairs(free));
  }

  lemma SubsetCount(a: set<nat>, b: set<nat>)
    requires a <= b
    ensures |a| <= |b|
  {
    assert b == a + (b - a);
    assert |b| == |a| + |b - a|;
  }

  lemma PairGone(free: set<nat>, g: nat)
    requires g in Pairs(free)
    ensures Pairs(free - {g, g + 1}) == Pairs(free) - {g} && |Pairs(free - {g, g + 1})| == |Pairs(free)| - 1
    ensures |free - {g, g + 1}| == |free| - 2
  {
    assert |free - {g}| == |free| - 1 && free - {g, g + 1} == free - {g} - {g + 1};
  }

  /** A frame can be taken without going below `k` pairs, if there are frames beyond them. */
  lemma KeepPairs(free: set<nat>, k: nat) returns (f: nat)
    requires k <= |Pairs(free)| && |free| > 2 * k
    ensures f in free && |Pairs(free - {f})| >= k
  {
    if k < |Pairs(free)| {
      f :| f in free;
      PairsAfter(free, f);
    } else {
      var upper := set g | g in Pairs(free) :: g + 1;
      UpperCount(Pairs(free), upper);
      var inPairs := Pairs(free) + upper;
      UnionCount(Pairs(free), upper);
      if free <= inPairs { SubsetCount(free, inPairs); }
      f :| f in free && f !in inPairs;
      assert Pairs(free - {f}) == Pairs(free) by {
        forall g | g in Pairs(free) ensures g + 1 != f { assert g + 1 in upper; }
      }
    }
  }

  lemma UnionCount(a: set<nat>, b: set<nat>)
    ensures |a + b| <= |a| + |b|
  {
    assert a + b == a + (b - a);
    assert |a + b| == |a| + |b - a|;
    SubsetCount(b - a, b);
  }

  lemma {:induction false} UpperCount(a: set<nat>, upper: set<nat>)
    requires upper == set g | g in a :: g + 1
    ensures |upper| <= |a|
    decreases |a|
  {
    if g :| g in a {
      var rest := set x | x in a - {g} :: x + 1;
      UpperCount(a - {g}, rest);
      forall y ensures y in upper <==> y in rest + {g + 1} {
        if y in upper {
          var x :| x in a && x + 1 == y;
          assert x != g ==> x in a - {g};
        }
        if y == g + 1 { assert g in a; }
      }
      assert upper == rest + {g + 1};
      UnionCount(rest, {g + 1});
    } else {
      assert upper == {};
    }
  }

  lemma PairsAfter(free: set<nat>, f: nat)
    requires f in free
    ensures |Pairs(free - {f})| + 1 >= |Pairs(free)| && |free - {f}| == |free| - 1
  {
    var g := PairOf(f);
    forall h | h in Pairs(free) ensures h in Pairs(free - {f}) + {g} { OnePair(free, f, h); }
    hide Pairs;
    assert |free| == |free - {f}| + 1;
    SubsetCount(Pairs(free), Pairs(free - {f}) + {g});
    UnionCount(Pairs(free - {f}), {g});
  }

  /** The lower frame of the aligned pair that `f` is in. */
  function PairOf(f: nat): nat { if f % 2 == 1 then f - 1 else f }

  lemma OnePair(free: set<nat>, f: nat, h: nat)
    requires h in Pairs(free)
    ensures h == PairOf(f) || h in Pairs(free - {f})
  {
    if h == f || h + 1 == f { assert h == PairOf(f); }
  }

  // ------------------------------------------------------------ what one page takes

  lemma TableFacts(free: set<nat>, spare: bool, free': set<nat>, spare': bool)
    requires TableTaken(free, spare, free', spare')
    ensures free' <= free && AtHand(free', spare') + 1 == AtHand(free, spare)
    ensures spare ==> !spare' && |Pairs(free')| <= |Pairs(free)|
    ensures !spare && spare' ==> |Pairs(free')| + 1 <= |Pairs(free)|
    ensures !spare && !spare' ==> Pairs(free') == {}
  {
    if !spare {
      if spare' {
        var g :| g in Pairs(free) && free' == free - {g, g + 1};
        PairGone(free, g);
      } else {
        PairsShrink(free, free');
      }
    }
  }

  lemma PageFacts(free: set<nat>, spare: bool, free': set<nat>, spare': bool, table: bool)
    requires PageTaken(free, spare, free', spare', table)
    ensures free' <= free && AtHand(free', spare') + 1 + One(table) == AtHand(free, spare)
    ensures |Pairs(free')| <= |Pairs(free)| && (!table ==> spare' == spare) && (table && spare ==> !spare')
    ensures table && !spare && spare' ==> |Pairs(free')| + 1 <= |Pairs(free)|
    ensures table && !spare && !spare' ==> Pairs(free') == {}
  {
    var f :| f in free && Then(free - {f}, spare, free', spare', table);
    PairsShrink(free, free - {f});
    hide Pairs;
    if table { TableFacts(free - {f}, spare, free', spare'); }
  }

  lemma TakeTable(free: set<nat>, spare: bool) returns (free': set<nat>, spare': bool)
    requires spare || free != {}
    ensures TableTaken(free, spare, free', spare') && AtHand(free', spare') + 1 == AtHand(free, spare)
    ensures spare ==> !spare' && free' == free
    ensures !spare && Pairs(free) != {} ==> spare' && |Pairs(free')| == |Pairs(free)| - 1
  {
    if spare {
      free', spare' := free, false;
    } else if Pairs(free) != {} {
      var g :| g in Pairs(free);
      PairGone(free, g);
      free', spare' := free - {g, g + 1}, true;
    } else {
      var f :| f in free;
      free', spare' := free - {f}, false;
    }
  }

  // ------------------------------------------------------------ a run of pages

  /** Page tables that mapping the pages [p, p + n) has to make. */
  ghost function Missing(present: seq<bool>, p: nat, n: nat): nat
    decreases n
  {
    if n == 0 then 0
    else if p / ENTRIES < |present| && !present[p / ENTRIES] then
      1 + Missing(present[p / ENTRIES := true], p + 1, n - 1)
    else Missing(present, p + 1, n - 1)
  }

  ghost predicate NeedsTable(present: seq<bool>, p: nat) { p / ENTRIES < |present| && !present[p / ENTRIES] }

  ghost function Made(present: seq<bool>, p: nat): seq<bool>
  {
    if p / ENTRIES < |present| then present[p / ENTRIES := true] else present
  }

  /** The last of the pages [p, p + n) needs a table of its own. */
  ghost predicate LastNeeds(present: seq<bool>, p: nat, n: nat)
  {
    n > 0 && Missing(present, p, n) > Missing(present, p, n - 1)
  }

  lemma MissingStep(b: seq<bool>, p: nat, n: nat)
    requires n > 0
    ensures Missing(b, p, n) == One(NeedsTable(b, p)) + Missing(Made(b, p), p + 1, n - 1)
    ensures n > 1 ==> (LastNeeds(b, p, n) <==> LastNeeds(Made(b, p), p + 1, n - 1))
    ensures n == 1 ==> Missing(b, p, n) == One(NeedsTable(b, p)) && (LastNeeds(b, p, n) <==> NeedsTable(b, p))
  {
    if p / ENTRIES < |b| && b[p / ENTRIES] { assert Made(b, p) == b; }
  }

  /** The frames at hand are enough for the pages [p, p + n) and their missing tables.  With
      not one left over, no spare may be left at the end: none is when the tables and the spare
      come out even, when the last page makes the last table, or when the free pairs run out. */
  ghost predicate Enough(free: set<nat>, spare: bool, n: nat, present: seq<bool>, p: nat)
  {
    Suffices(AtHand(free, spare), One(spare), |Pairs(free)|, n + Missing(present, p, n), Missing(present, p, n),
             LastNeeds(present, p, n))
  }

  predicate Suffices(hand: nat, spare: nat, pairs: nat, need: nat, tables: nat, last: bool)
  {
    hand > need || (hand == need && ((tables + spare) % 2 == 0 || last || 2 * pairs + spare <= tables))
  }

  /** What every allocation of the pages [p, p + n) needs. */
  ghost predicate Needs(free: set<nat>, spare: bool, n: nat, present: seq<bool>, p: nat)
  {
    var tables := Missing(present, p, n);
    AtHand(free, spare) >= n + tables && (tables == 0 ==> |free| >= n)
  }

  /** Whichever frames are handed out, every page gets its own and every table too. */
  ghost predicate AlwaysServed(free: set<nat>, spare: bool, n: nat, present: seq<bool>, p: nat)
    decreases n
  {
    n == 0 || (
      var table := NeedsTable(present, p);
      && CanTake(free, spare, table)
      && forall free', spare' :: PageTaken(free, spare, free', spare', table) ==>
           AlwaysServed(free', spare', n - 1, Made(present, p), p + 1))
  }

  /** With enough frames the next page gets its own. */
  lemma EnoughFrames(free: set<nat>, spare: bool, n: nat, b: seq<bool>, p: nat)
    requires n > 0 && Enough(free, spare, n, b, p)
    ensures CanTake(free, spare, NeedsTable(b, p))
  {
    MissingStep(b, p, n);
    hide Missing, Pairs, LastNeeds, NeedsTable, Made;
    assert free == {} ==> |free| == 0;
  }

  /** What one page takes leaves enough for the others, and they need no less than before. */
  lemma EnoughStep(free: set<nat>, spare: bool, free': set<nat>, spare': bool, n: nat, b: seq<bool>, p: nat)
    requires n > 0 && PageTaken(free, spare, free', spare', NeedsTable(b, p))
    ensures Enough(free, spare, n, b, p) ==> Enough(free', spare', n - 1, Made(b, p), p + 1)
    ensures Needs(free', spare', n - 1, Made(b, p), p + 1) ==> Needs(free, spare, n, b, p)
  {
    MissingStep(b, p, n);
    PageFacts(free, spare, free', spare', NeedsTable(b, p));
    hide Missing, Pairs, LastNeeds, NeedsTable, Made, PageTaken;
  }

  /** Without enough frames, the next page gets none or may get one that leaves too few. */
  lemma ShortStep(free: set<nat>, spare: bool, n: nat, b: seq<bool>, p: nat) returns (free': set<nat>, spare': bool)
    requires n > 0 && !Enough(free, spare, n, b, p) && CanTake(free, spare, NeedsTable(b, p))
    ensures PageTaken(free, spare, free', spare', NeedsTable(b, p))
    ensures !Enough(free', spare', n - 1, Made(b, p), p + 1)
  {
    MissingStep(b, p, n);
    hide Missing, Pairs, LastNeeds, NeedsTable, Made, TableTaken, Suffices;
    var tables, table := Missing(b, p, n), NeedsTable(b, p);
    var f := KeepWhatMatters(free, spare, n, tables, LastNeeds(b, p, n));
    free', spare' := TakeRest(free, spare, f, table);
    hide PageTaken, AtHand;
    var after := Missing(Made(b, p), p + 1, n - 1);
    ShortAfter(n, tables, after, table, LastNeeds(b, p, n), LastNeeds(Made(b, p), p + 1, n - 1),
               One(spare), One(spare'), AtHand(free, spare), |Pairs(free)|, |Pairs(free - {f})|, |Pairs(free')|);
  }

  /** A page takes frame `f`, and its table what it then finds. */
  lemma TakeRest(free: set<nat>, spare: bool, f: nat, table: bool) returns (free': set<nat>, spare': bool)
    requires f in free && CanTake(free, spare, table)
    ensures PageTaken(free, spare, free', spare', table)
    ensures AtHand(free', spare') + 1 + One(table) == AtHand(free, spare) && AtHand(free, spare) >= 1 + One(spare)
    ensures !table ==> spare' == spare && Pairs(free') == Pairs(free - {f})
    ensures table && spare ==> !spare' && Pairs(free') == Pairs(free - {f})
    ensures table && !spare && |Pairs(free - {f})| > 0 ==> spare' && |Pairs(free')| == |Pairs(free - {f})| - 1
  {
    hide Pairs, TableTaken;
    assert |free - {f}| == |free| - 1;
    assert free - {f} == {} ==> |free - {f}| == 0;
    free', spare' := free - {f}, spare;
    if table { free', spare' := TakeTable(free - {f}, spare); }
    assert Then(free - {f}, spare, free', spare', table);
  }

  /** The counts behind `ShortStep`: `kept` pairs are left once the page has its frame. */
  lemma ShortAfter(n: nat, tables: nat, tables': nat, table: bool, last: bool, last': bool, spare: nat, spare': nat,
                   hand: nat, pairs: nat, kept: nat, pairs': nat)
    requires n > 0 && spare <= 1 && tables == One(table) + tables' && hand >= 1 + spare && hand >= 1 + One(table)
    requires !Suffices(hand, spare, pairs, n + tables, tables, last)
    requires hand == n + tables ==> 2 * kept + spare > tables
    requires if n > 1 then last' == last else tables == One(table) && last == table
    requires !table ==> spare' == spare && pairs' == kept
    requires table && spare == 1 ==> spare' == 0 && pairs' == kept
    requires table && spare == 0 && kept > 0 ==> spare' == 1 && pairs' == kept - 1
    ensures !Suffices(hand - 1 - One(table), spare', pairs', n - 1 + tables', tables', last')
  {}

  /** A frame whose loss leaves the pairs that make the run fail. */
  lemma KeepWhatMatters(free: set<nat>, spare: bool, n: nat, tables: nat, last: bool) returns (f: nat)
    requires n > 0 && free != {} && !Suffices(AtHand(free, spare), One(spare), |Pairs(free)|, n + tables, tables, last)
    requires n == 1 ==> tables <= 1 && (tables == 1 ==> last)
    ensures f in free && AtHand(free - {f}, spare) == AtHand(free, spare) - 1
    ensures AtHand(free, spare) == n + tables ==> 2 * |Pairs(free - {f})| + One(spare) > tables
  {
    hide Pairs;
    if AtHand(free, spare) == n + tables {
      f := KeepPairs(free, (tables + 1 - One(spare)) / 2);
    } else {
      f :| f in free;
    }
    assert |free - {f}| == |free| - 1;
  }

  /** `Enough` is exact: it holds just when no choice of frames can make the run fail. */
  lemma {:induction false} EnoughExact(free: set<nat>, spare: bool, n: nat, b: seq<bool>, p: nat)
    ensures Enough(free, spare, n, b, p) <==> AlwaysServed(free, spare, n, b, p)
    decreases n
  {
    hide Enough, PageTaken, CanTake, NeedsTable, Made;
    if n == 0 {
      EnoughForNone(free, spare, b, p);
    } else if Enough(free, spare, n, b, p) {
      EnoughFrames(free, spare, n, b, p);
      forall free', spare' | PageTaken(free, spare, free', spare', NeedsTable(b, p))
        ensures AlwaysServed(free', spare', n - 1, Made(b, p), p + 1)
      {
        EnoughStep(free, spare, free', spare', n, b, p);
        EnoughExact(free', spare', n - 1, Made(b, p), p + 1);
      }
    } else if CanTake(free, spare, NeedsTable(b, p)) {
      var free', spare' := ShortStep(free, spare, n, b, p);
      EnoughExact(free', spare', n - 1, Made(b, p), p + 1);
    }
  }

  lemma EnoughForNone(free: set<nat>, spare: bool, b: seq<bool>, p: nat)
    ensures Enough(free, spare, 0, b, p) && Needs(free, spare, 0, b, p)
  {}
}
