/** Two-level translation as kernel/arch/i386/cpu/paging.c keeps it: a directory of 1024
    entries, each pointing at a table of 1024 entries (32-bit paging, section 4.3 of the
    Intel SDM Volume 3A).  Pages and frames are numbers, addresses divided by 4096. */
module PageTables {
  import opened Bits
  import opened Counting

  const ENTRIES: nat := 1024
  const PAGE: nat := 4096

  datatype Option<T> = None | Some(value: T)

  /** `flags` are the permission and cache bits; `frame` is the base field. */
  datatype Entry = Entry(present: bool, flags: nat, frame: nat)

  type Tables = map<nat, seq<Entry>>

  /** The macros PAGE_DIRECTORY_INDEX and PAGE_TABLE_INDEX. */
  function DirIndex(v: nat): nat { And(Shr(v, 22), 1023) }

  function TabIndex(v: nat): nat { And(Shr(v, 12), 1023) }

  function Page(v: nat): nat { v / PAGE }

  /** The two indices are the two ten-bit halves of the page number. */
  lemma IndicesSplitPage(v: nat)
    requires v < WORD
    ensures DirIndex(v) == Page(v) / ENTRIES == v / 0x40_0000 < 1024
    ensures TabIndex(v) == Page(v) % ENTRIES == (v / 4096) % 1024
    ensures DirIndex(v) * ENTRIES + TabIndex(v) == Page(v)
  {
    Powers();
    MaskIsMod(v, 22);
    MaskIsMod(v, 12);
    hide And, Shr, Pow2;
    MaskIsMod(v / 4194304, 10);
    MaskIsMod(v / 4096, 10);
    SmallParts(v);
  }

  lemma SmallParts(v: nat)
    requires v < WORD
    ensures (v / 4194304) % 1024 == v / 4194304 == (v / 4096) / 1024 < 1024
  {}

  lemma Powers()
    ensures Pow2(10) == 1024 && Pow2(12) == 4096 && Pow2(22) == 4194304
  {
    assert Pow2(10) == 1024 && Pow2(2) == 4;
    Pow2Add(10, 2);
    Pow2Add(10, 12);
  }

  /** The table entry the processor finds for page `p`. */
  ghost function Walk(d: seq<Entry>, t: Tables, p: nat): Option<Entry>
  {
    var i := p / ENTRIES;
    if i < |d| && d[i].present && d[i].frame in t && p % ENTRIES < |t[d[i].frame]| && t[d[i].frame][p % ENTRIES].present
    then Some(t[d[i].frame][p % ENTRIES])
    else None
  }

  /** Page `p` translates to `e` now, every other page as before. */
  ghost predicate Rewalks(d: seq<Entry>, t: Tables, d': seq<Entry>, t': Tables, p: nat, e: Option<Entry>)
  {
    forall q: nat :: Walk(d', t', q) == if q == p then e else Walk(d, t, q)
  }

  /** Every page translates as before. */
  ghost predicate SameWalk(d: seq<Entry>, t: Tables, d': seq<Entry>, t': Tables)
  {
    forall q: nat :: Walk(d', t', q) == Walk(d, t, q)
  }

  /** Which directory entries are present. */
  ghost function Present(d: seq<Entry>): seq<bool> { seq(|d|, i requires 0 <= i < |d| => d[i].present) }

  /** Present directory entries point at whole tables, no two at the same one. */
  ghost predicate WellFormed(d: seq<Entry>, t: Tables)
  {
    && |d| == ENTRIES
    && (forall i :: 0 <= i < ENTRIES && d[i].present ==> d[i].frame in t && |t[d[i].frame]| == ENTRIES)
    && (forall i, j :: 0 <= i < j < ENTRIES && d[i].present && d[j].present ==> d[i].frame != d[j].frame)
  }

  lemma PageSplits(p: nat, i: nat, k: nat)
    requires k < ENTRIES
    ensures (p / ENTRIES == i && p % ENTRIES == k) <==> p == i * ENTRIES + k
  {}

  /** One table entry written: one page changes, all others translate as before. */
  lemma WalkInstall(d: seq<Entry>, t: Tables, i: nat, k: nat, e: Entry, q: nat)
    requires WellFormed(d, t) && i < ENTRIES && k < ENTRIES && d[i].present
    ensures d[i].frame in t && |t[d[i].frame]| == ENTRIES
    ensures var t' := t[d[i].frame := t[d[i].frame][k := e]];
            Walk(d, t', q) == if q == i * ENTRIES + k then (if e.present then Some(e) else None) else Walk(d, t, q)
  {
    PageSplits(q, i, k);
  }

  lemma InstallWellFormed(d: seq<Entry>, t: Tables, i: nat, k: nat, e: Entry)
    requires WellFormed(d, t) && i < ENTRIES && k < ENTRIES && d[i].present
    ensures d[i].frame in t && |t[d[i].frame]| == ENTRIES
    ensures WellFormed(d, t[d[i].frame := t[d[i].frame][k := e]])
  {}

  /** A new all-absent table changes no translation. */
  lemma WalkCreate(d: seq<Entry>, t: Tables, i: nat, f: nat, flags: nat, zeros: seq<Entry>, q: nat)
    requires WellFormed(d, t) && i < ENTRIES && !d[i].present && |zeros| == ENTRIES
    requires (forall j :: 0 <= j < ENTRIES ==> !zeros[j].present)
    requires forall j :: 0 <= j < ENTRIES && d[j].present ==> d[j].frame != f
    ensures Walk(d[i := Entry(true, flags, f)], t[f := zeros], q) == Walk(d, t, q)
  {}

  lemma CreateWellFormed(d: seq<Entry>, t: Tables, i: nat, f: nat, flags: nat, zeros: seq<Entry>)
    requires WellFormed(d, t) && i < ENTRIES && !d[i].present && |zeros| == ENTRIES
    requires forall j :: 0 <= j < ENTRIES && d[j].present ==> d[j].frame != f
    ensures WellFormed(d[i := Entry(true, flags, f)], t[f := zeros])
  {}

  /** New flags for a directory entry change no translation. */
  lemma WalkReflag(d: seq<Entry>, t: Tables, i: nat, flags: nat, q: nat)
    requires WellFormed(d, t) && i < ENTRIES && d[i].present
    ensures WellFormed(d[i := d[i].(flags := flags)], t) && Walk(d[i := d[i].(flags := flags)], t, q) == Walk(d, t, q)
  {}

  /** Dropping a table without present entries changes no translation. */
  lemma WalkDrop(d: seq<Entry>, t: Tables, i: nat, e: Entry, q: nat)
    requires WellFormed(d, t) && i < ENTRIES && d[i].present && !e.present
    requires forall j :: 0 <= j < ENTRIES ==> !t[d[i].frame][j].present
    ensures Walk(d[i := e], t, q) == Walk(d, t, q)
  {}

  lemma DropWellFormed(d: seq<Entry>, t: Tables, i: nat, e: Entry)
    requires WellFormed(d, t) && i < ENTRIES && !e.present
    ensures WellFormed(d[i := e], t)
  {}

  // ------------------------------------------------------------ tables made at run time

  /** Frames of the tables the kernel allocated itself. */
  ghost function OwnFrames(d: seq<Entry>, owned: seq<bool>): set<nat>
    requires |owned| <= |d|
  {
    set i | 0 <= i < |owned| && owned[i] :: d[i].frame
  }

  lemma {:induction false} OwnCount(d: seq<Entry>, owned: seq<bool>)
    requires |owned| <= |d| && forall i, j :: 0 <= i < j < |owned| && owned[i] && owned[j] ==> d[i].frame != d[j].frame
    ensures |OwnFrames(d, owned)| == CountTrue(owned)
    decreases |owned|
  {
    if owned == [] {
      assert OwnFrames(d, owned) == {};
    } else {
      OwnCount(d[1..], owned[1..]);
      var rest := OwnFrames(d[1..], owned[1..]);
      OwnSplit(d, owned);
      assert owned[0] ==> d[0].frame !in rest;
    }
  }

  lemma OwnSplit(d: seq<Entry>, owned: seq<bool>)
    requires 0 < |owned| <= |d|
    ensures OwnFrames(d, owned) == OwnFrames(d[1..], owned[1..]) + if owned[0] then {d[0].frame} else {}
  {
    var rest := OwnFrames(d[1..], owned[1..]) + if owned[0] then {d[0].frame} else {};
    forall f | f in OwnFrames(d, owned) ensures f in rest {
      var i :| 0 <= i < |owned| && owned[i] && d[i].frame == f;
      if i > 0 { assert owned[1..][i - 1] && d[1..][i - 1].frame == f; }
    }
    forall f | f in rest ensures f in OwnFrames(d, owned) {
      if f in OwnFrames(d[1..], owned[1..]) {
        var i :| 0 <= i < |owned[1..]| && owned[1..][i] && d[1..][i].frame == f;
        assert owned[i + 1] && d[i + 1].frame == f;
      }
    }
  }

  lemma OwnAdd(d: seq<Entry>, owned: seq<bool>, i: nat, e: Entry)
    requires i < |owned| <= |d| && !owned[i]
    ensures OwnFrames(d[i := e], owned[i := true]) == OwnFrames(d, owned) + {e.frame}
  {
    var d', o' := d[i := e], owned[i := true];
    forall f | f in OwnFrames(d', o') ensures f in OwnFrames(d, owned) + {e.frame} {
      var j :| 0 <= j < |o'| && o'[j] && d'[j].frame == f;
      assert j != i ==> owned[j] && d[j].frame == f;
    }
    forall f | f in OwnFrames(d, owned) + {e.frame} ensures f in OwnFrames(d', o') {
      if f == e.frame {
        assert o'[i] && d'[i].frame == f;
      } else {
        var j :| 0 <= j < |owned| && owned[j] && d[j].frame == f;
        assert o'[j] && d'[j].frame == f;
      }
    }
  }

  lemma OwnDrop(d: seq<Entry>, owned: seq<bool>, i: nat, e: Entry)
    requires i < |owned| <= |d| && owned[i] && forall j :: 0 <= j < |owned| && owned[j] && j != i ==>
              d[j].frame != d[i].frame
    ensures OwnFrames(d[i := e], owned[i := false]) == OwnFrames(d, owned) - {d[i].frame}
    ensures d[i].frame in OwnFrames(d, owned)
  {
    var d', o' := d[i := e], owned[i := false];
    forall f | f in OwnFrames(d', o') ensures f in OwnFrames(d, owned) - {d[i].frame} {
      var j :| 0 <= j < |o'| && o'[j] && d'[j].frame == f;
      assert owned[j] && d[j].frame == f && j != i;
    }
    forall f | f in OwnFrames(d, owned) - {d[i].frame} ensures f in OwnFrames(d', o') {
      var j :| 0 <= j < |owned| && owned[j] && d[j].frame == f;
      assert o'[j] && d'[j].frame == f;
    }
  }

  lemma OwnSame(d: seq<Entry>, d': seq<Entry>, owned: seq<bool>)
    requires |owned| <= |d| == |d'| && forall j :: 0 <= j < |owned| ==> d'[j].frame == d[j].frame
    ensures OwnFrames(d', owned) == OwnFrames(d, owned)
  {}

  lemma OwnHas(d: seq<Entry>, owned: seq<bool>, i: nat)
    requires i < |owned| <= |d| && owned[i]
    ensures d[i].frame in OwnFrames(d, owned)
  {}

  // ------------------------------------------------------------ whose frame is whose

  ghost function Spare(cached: nat): set<nat> { if cached == 0 then {} else {cached} }

  /** Frames not handed to anyone: free, the spare for the next table, and the run-time
      tables, all different.  The tables made at boot are outside the managed memory. */
  ghost predicate Frames(d: seq<Entry>, owned: seq<bool>, cached: nat, free: set<nat>, managed: set<nat>)
  {
    && |owned| == |d| == ENTRIES && 0 !in managed
    && free + Spare(cached) + OwnFrames(d, owned) <= managed
    && free !! Spare(cached) && free !! OwnFrames(d, owned) && Spare(cached) !! OwnFrames(d, owned)
    && (forall i :: 0 <= i < ENTRIES && owned[i] ==> d[i].present)
    && (forall i :: 0 <= i < ENTRIES && d[i].present && !owned[i] ==> d[i].frame !in managed)
  }

  ghost function Ours(d: seq<Entry>, owned: seq<bool>, cached: nat, free: set<nat>): set<nat>
    requires |owned| <= |d|
  {
    free + Spare(cached) + OwnFrames(d, owned)
  }

  /** A frame that is neither free nor ours yet is no table's. */
  lemma FreshFrame(d: seq<Entry>, owned: seq<bool>, cached: nat, free: set<nat>, managed: set<nat>, f: nat)
    requires Frames(d, owned, cached, free, managed) && f in managed && f !in Ours(d, owned, cached, free)
    ensures forall j :: 0 <= j < ENTRIES && d[j].present ==> d[j].frame != f
    ensures forall j :: 0 <= j < ENTRIES && owned[j] ==> d[j].present
  {
    forall j | 0 <= j < ENTRIES && d[j].present ensures d[j].frame != f { if owned[j] { OwnHas(d, owned, j); } }
  }

  lemma FramesCreate(d: seq<Entry>, owned: seq<bool>, cached: nat, free: set<nat>, managed: set<nat>, i: nat, e: Entry)
    requires Frames(d, owned, cached, free, managed) && i < ENTRIES && !d[i].present && e.present
    requires e.frame in managed && e.frame !in Ours(d, owned, cached, free)
    ensures Frames(d[i := e], owned[i := true], cached, free, managed)
    ensures Ours(d[i := e], owned[i := true], cached, free) == Ours(d, owned, cached, free) + {e.frame}
  {
    OwnAdd(d, owned, i, e);
    hide OwnFrames;
  }

  lemma FramesDrop(d: seq<Entry>, t: Tables, owned: seq<bool>, cached: nat, free: set<nat>, managed: set<nat>, i: nat,
                   e: Entry)
    requires WellFormed(d, t) && Frames(d, owned, cached, free, managed) && i < ENTRIES && owned[i] && !e.present
    ensures Frames(d[i := e], owned[i := false], cached, free + {d[i].frame}, managed)
    ensures Ours(d[i := e], owned[i := false], cached, free + {d[i].frame}) == Ours(d, owned, cached, free)
  {
    forall j | 0 <= j < ENTRIES && owned[j] && j != i ensures d[j].frame != d[i].frame {
      assert d[i].present && d[j].present;
    }
    OwnDrop(d, owned, i, e);
    hide OwnFrames;
  }

  /** A free pair becomes one table frame and the spare. */
  lemma FramesPair(d: seq<Entry>, owned: seq<bool>, free: set<nat>, managed: set<nat>, g: nat)
    requires Frames(d, owned, 0, free, managed) && g in free && g + 1 in free
    ensures var free' := free - {g, g + 1};
            && Frames(d, owned, g + 1, free', managed) && g in managed && g > 0 && g !in Ours(d, owned, g + 1, free')
            && Ours(d, owned, 0, free) == Ours(d, owned, g + 1, free') + {g}
            && |free'| + |Spare(g + 1)| + 1 == |free|
  {
    hide OwnFrames;
    assert free - {g, g + 1} == free - {g} - {g + 1};
  }

  /** The spare becomes a table frame. */
  lemma FramesSpare(d: seq<Entry>, owned: seq<bool>, cached: nat, free: set<nat>, managed: set<nat>)
    requires Frames(d, owned, cached, free, managed) && cached != 0
    ensures Frames(d, owned, 0, free, managed) && cached in managed && cached !in Ours(d, owned, 0, free)
    ensures Ours(d, owned, cached, free) == Ours(d, owned, 0, free) + {cached}
  {
    hide OwnFrames;
  }

  lemma FramesReflag(d: seq<Entry>, owned: seq<bool>, cached: nat, free: set<nat>, managed: set<nat>, i: nat,
                     flags: nat)
    requires Frames(d, owned, cached, free, managed) && i < ENTRIES
    ensures Frames(d[i := d[i].(flags := flags)], owned, cached, free, managed)
    ensures Ours(d[i := d[i].(flags := flags)], owned, cached, free) == Ours(d, owned, cached, free)
  {
    OwnSame(d, d[i := d[i].(flags := flags)], owned);
    hide OwnFrames;
  }

  /** The frames add up: their number is the free ones, the run-time tables and the spare. */
  lemma OursCount(d: seq<Entry>, t: Tables, owned: seq<bool>, cached: nat, free: set<nat>, managed: set<nat>)
    requires WellFormed(d, t) && Frames(d, owned, cached, free, managed)
    ensures |Ours(d, owned, cached, free)| == |free| + CountTrue(owned) + if cached == 0 then 0 else 1
  {
    OwnCount(d, owned);
    hide OwnFrames;
    assert |free + Spare(cached)| == |free| + |Spare(cached)|;
    assert |Ours(d, owned, cached, free)| == |free + Spare(cached)| + |OwnFrames(d, owned)|;
  }

  /** The table has an entry that is present. */
  ghost predicate InUse(t: seq<Entry>) { exists k :: 0 <= k < |t| && t[k].present }

  /** No page of directory entry `i` translates, page `p` aside. */
  ghost predicate NoOther(d: seq<Entry>, t: Tables, i: nat, p: nat)
  {
    forall q: nat :: q / 1024 == i && q != p ==> Walk(d, t, q) == None
  }

  /** A table is in use exactly when some page of it translates. */
  lemma InUseWalk(d: seq<Entry>, t: Tables, i: nat)
    requires WellFormed(d, t) && i < ENTRIES && d[i].present
    ensures d[i].frame in t
    ensures InUse(t[d[i].frame]) <==> exists q: nat :: q / 1024 == i && Walk(d, t, q).Some?
  {
    var e := t[d[i].frame];
    if InUse(e) {
      var k :| 0 <= k < |e| && e[k].present;
      PageSplits(i * ENTRIES + k, i, k);
      assert Walk(d, t, i * ENTRIES + k).Some?;
    }
  }

  lemma LastOfTable(d: seq<Entry>, t: Tables, t': Tables, i: nat, p: nat)
    requires WellFormed(d, t) && WellFormed(d, t') && i < ENTRIES && d[i].present
    requires forall q: nat :: Walk(d, t', q) == if q == p then None else Walk(d, t, q)
    ensures d[i].frame in t' && (InUse(t'[d[i].frame]) <==> !NoOther(d, t, i, p))
  {
    InUseWalk(d, t', i);
    hide Walk, WellFormed, InUse;
    if NoOther(d, t, i, p) {
      forall q: nat | q / 1024 == i ensures Walk(d, t', q) == None {}
    } else {
      var q: nat :| q / 1024 == i && q != p && Walk(d, t, q) != None;
      assert Walk(d, t', q).Some?;
    }
  }

  /** Every run-time table holds something. */
  ghost predicate NoneEmpty(d: seq<Entry>, t: Tables, owned: seq<bool>)
  {
    forall i :: 0 <= i < |owned| && i < |d| && owned[i] ==> d[i].frame in t && InUse(t[d[i].frame])
  }
}
