/** The dynamic virtual range of kernel/kernel/memory/vmm.c: a bitmap of its pages, and the
    frames mapped there, over kernel/arch/i386/cpu/paging.c. */
module Vmm {
  import opened Bits
  import opened Counting
  import opened FrameSupply
  import opened PageTables
  import opened Paging

  const RANGE_START: nat := 0xD000_0000
  const RANGE_END: nat := 0xF000_0000
  const FIRST: nat := 0xD_0000     // the page number of RANGE_START
  const COUNT: nat := 0x2_0000     // pages in the range
  const WRITABLE: nat := 1         // supervisor, read and write

  /** `vmm_bitmap_test` */
  ghost predicate Used(b: seq<nat>, i: nat) { i / 8 < |b| && Bit(b[i / 8], i % 8) }

  /** Pages [i, i + n) are all unused. */
  ghost predicate FreeRun(b: seq<nat>, i: nat, n: nat)
  {
    i + n <= COUNT && forall j :: i <= j < i + n ==> !Used(b, j)
  }

  lemma SetBit(b: seq<nat>, i: nat, j: nat)
    requires i / 8 < |b|
    ensures Used(b[i / 8 := Or(b[i / 8], Pow2(i % 8))], j) <==> Used(b, j) || j == i
  {
    OrBit(b[i / 8], Pow2(i % 8), j % 8);
    Pow2Bit(i % 8, j % 8);
    hide Or, Pow2, Bit;
    assert j == i <==> j / 8 == i / 8 && j % 8 == i % 8;
  }

  lemma ClearBit(b: seq<nat>, i: nat, j: nat)
    requires i / 8 < |b|
    ensures Used(b[i / 8 := AndNot(b[i / 8], Pow2(i % 8))], j) <==> Used(b, j) && j != i
  {
    AndNotBit(b[i / 8], Pow2(i % 8), j % 8);
    Pow2Bit(i % 8, j % 8);
    hide AndNot, Pow2, Bit;
    assert j == i <==> j / 8 == i / 8 && j % 8 == i % 8;
  }

  class Range {
    const bitmap: array<nat>

    ghost predicate Shape() reads bitmap { bitmap.Length == COUNT / 8 }

    method Test(i: nat) returns (used: bool)
      requires Shape() && i < COUNT
      ensures used <==> Used(bitmap[..], i)
    {
      AndOne(bitmap[i / 8], i % 8);
      used := And(bitmap[i / 8], Pow2(i % 8)) != 0;
    }

    method Set(i: nat)
      requires Shape() && i < COUNT
      modifies bitmap
      ensures forall j: nat :: Used(bitmap[..], j) <==> Used(old(bitmap[..]), j) || j == i
    {
      ghost var b := bitmap[..];
      forall j: nat ensures Used(b[i / 8 := Or(b[i / 8], Pow2(i % 8))], j) <==> Used(b, j) || j == i {
        SetBit(b, i, j);
      }
      bitmap[i / 8] := Or(bitmap[i / 8], Pow2(i % 8));
      assert bitmap[..] == b[i / 8 := Or(b[i / 8], Pow2(i % 8))];
    }

    method Clear(i: nat)
      requires Shape() && i < COUNT
      modifies bitmap
      ensures forall j: nat :: Used(bitmap[..], j) <==> Used(old(bitmap[..]), j) && j != i
    {
      ghost var b := bitmap[..];
      forall j: nat ensures Used(b[i / 8 := AndNot(b[i / 8], Pow2(i % 8))], j) <==> Used(b, j) && j != i {
        ClearBit(b, i, j);
      }
      bitmap[i / 8] := AndNot(bitmap[i / 8], Pow2(i % 8));
      assert bitmap[..] == b[i / 8 := AndNot(b[i / 8], Pow2(i % 8))];
    }

    constructor ()
      ensures Shape() && fresh(bitmap) && forall j: nat :: !Used(bitmap[..], j)
    {
      bitmap := new nat[COUNT / 8](i => 0);
      new;
      forall j: nat ensures !Used(bitmap[..], j) {
        ZeroBit(j % 8);
        assert j / 8 < COUNT / 8 ==> bitmap[..][j / 8] == 0;
      }
    }

    /** The inner loop of the search: the first used page of [i, i + n), or that there is none. */
    method FirstUsed(i: nat, n: nat) returns (j: nat)
      requires Shape() && (i + n <= COUNT || UsedFrom(bitmap[..], i))
      ensures j <= n && (j < n ==> i + j < COUNT)
      ensures j <= n && (forall k :: i <= k < i + j ==> !Used(bitmap[..], k)) && (j < n ==> Used(bitmap[..], i + j))
    {
      ghost var stop := if i + n > COUNT then UsedOne(bitmap[..], i) else i + n;
      hide Used;
      j := 0;
      while j < n
        invariant j <= n && (forall k :: i <= k < i + j ==> !Used(bitmap[..], k)) && i + j <= stop
      {
        var used := Test(i + j);
        if used {
          return;
        }
        j := j + 1;
      }
    }

    /** The search of `kernel_vmm_reserve_pages`: skipping past a used page misses no run, so
        what it finds is the lowest free run, and it fails exactly when there is none. */
    method FindRun(n: nat) returns (found: bool, start: nat)
      requires Shape() && 0 < n <= COUNT
      ensures found <==> exists i: nat :: FreeRun(bitmap[..], i, n)
      ensures found ==> FreeRun(bitmap[..], start, n) && forall k: nat :: k < start ==> !FreeRun(bitmap[..], k, n)
    {
      hide Used;
      start := 0;
      while start <= COUNT - n
        invariant forall k: nat :: k < start ==> !FreeRun(bitmap[..], k, n)
        decreases COUNT - n + 1 - start
      {
        var j := FirstUsed(start, n);
        if j == n {
          assert FreeRun(bitmap[..], start, n);
          return true, start;
        }
        forall k: nat | k < start + j + 1 ensures !FreeRun(bitmap[..], k, n) {
          if k >= start { assert k <= start + j < k + n; }
        }
        start := start + j + 1;
      }
      return false, start;
    }

    /** Marking the pages of a run. */
    method SetRun(start: nat, n: nat)
      requires Shape() && start + n <= COUNT
      modifies bitmap
      ensures MarkedRun(old(bitmap[..]), bitmap[..], start, start + n)
    {
      hide Used;
      var i := 0;
      while i < n
        invariant i <= n && MarkedRun(old(bitmap[..]), bitmap[..], start, start + i)
      {
        Set(start + i);
        i := i + 1;
      }
    }

    /** `kernel_vmm_reserve_pages` */
    method ReservePages(n: nat) returns (addr: nat)
      requires Shape()
      modifies bitmap
      ensures addr == 0 <==> n == 0 || n > COUNT || !exists i: nat :: FreeRun(old(bitmap[..]), i, n)
      ensures addr == 0 ==> bitmap[..] == old(bitmap[..])
      ensures addr != 0 ==> addr >= RANGE_START && addr % PAGE == 0 && addr + n * PAGE <= RANGE_END
      ensures addr != 0 ==> var i := (addr - RANGE_START) / PAGE;
                LowestRun(old(bitmap[..]), i, n) && MarkedRun(old(bitmap[..]), bitmap[..], i, i + n)
    {
      hide Used;
      if n == 0 || n > COUNT {
        return 0;
      }
      var found: bool, start: nat;
      found, start := FindRun(n);
      assert bitmap[..] == old(bitmap[..]);
      if !found {
        return 0;
      }
      SetRun(start, n);
      return RANGE_START + start * PAGE;
    }

    /** `kernel_vmm_reserve_at`.  The end is compared modulo 2^32, so an end that wraps passes
        the comparison; the search then stays within the bitmap exactly when it meets a
        used page before the end of the range, and refuses. */
    method ReserveAt(virt: nat, n: nat) returns (ok: bool)
      requires Shape() && virt < WORD
      requires n > 0 && virt >= RANGE_START && (virt + n * PAGE) % WORD <= RANGE_END < virt + n * PAGE ==>
                 UsedFrom(bitmap[..], (virt - RANGE_START) / PAGE)
      modifies bitmap
      ensures ok <==> n > 0 && RANGE_START <= virt && virt + n * PAGE <= RANGE_END
                      && FreeRun(old(bitmap[..]), (virt - RANGE_START) / PAGE, n)
      ensures !ok ==> bitmap[..] == old(bitmap[..])
      ensures ok ==> var i := (virt - RANGE_START) / PAGE; MarkedRun(old(bitmap[..]), bitmap[..], i, i + n)
    {
      hide Used;
      if virt == 0 || n == 0 {
        return false;
      }
      if virt < RANGE_START || (virt + n * PAGE) % WORD > RANGE_END {
        return false;
      }
      var start := (virt - RANGE_START) / PAGE;
      var j := FirstUsed(start, n);
      assert bitmap[..] == old(bitmap[..]);
      assert j < n ==> !FreeRun(bitmap[..], start, n);
      if j < n {
        return false;
      }
      assert start + n <= COUNT;
      assert FreeRun(bitmap[..], start, n);
      SetRun(start, n);
      return true;
    }
  }

  /** Some page of the range from `i` on is used. */
  ghost predicate UsedFrom(b: seq<nat>, i: nat) { exists k: nat :: i <= k < COUNT && Used(b, k) }

  ghost function UsedOne(b: seq<nat>, i: nat): (k: nat)
    requires UsedFrom(b, i)
    ensures i <= k < COUNT && Used(b, k)
  {
    var k: nat :| i <= k < COUNT && Used(b, k);
    k
  }

  ghost predicate Injective(m: map<nat, nat>) { forall i, j :: i in m && j in m && i != j ==> m[i] != m[j] }

  /** Every managed frame is in nobody's hands, mapped at one page of the range, or lost. */
  ghost predicate Accounted(managed: set<nat>, held: set<nat>, dyn: map<nat, nat>, lost: set<nat>)
  {
    && Injective(dyn) && held + dyn.Values + lost == managed
    && held !! dyn.Values && held !! lost && dyn.Values !! lost
  }

  lemma AccountedMap(managed: set<nat>, held: set<nat>, dyn: map<nat, nat>, lost: set<nat>, f: nat, i: nat)
    requires Accounted(managed, held, dyn, lost) && f in held && i !in dyn
    ensures Accounted(managed, held - {f}, dyn[i := f], lost)
  {
    var d' := dyn[i := f];
    assert d'.Values == dyn.Values + {f} by {
      assert d'[i] == f;
      forall g | g in dyn.Values ensures g in d'.Values { var j :| j in dyn && dyn[j] == g; assert d'[j] == g; }
    }
  }

  lemma ValuesDrop(m: map<nat, nat>, i: nat)
    requires Injective(m) && i in m
    ensures (m - {i}).Values == m.Values - {m[i]} && m[i] in m.Values
  {
    var r := m - {i};
    forall g | g in m.Values - {m[i]} ensures g in r.Values { var j :| j in m && m[j] == g; assert r[j] == g; }
    forall g | g in r.Values ensures g in m.Values - {m[i]} { var j :| j in r && r[j] == g; assert m[j] == g; }
  }

  /** A page is unmapped; its frame comes back or is lost. */
  lemma AccountedUnmap(managed: set<nat>, held: set<nat>, dyn: map<nat, nat>, lost: set<nat>, i: nat)
    requires Accounted(managed, held, dyn, lost) && i in dyn
    ensures dyn[i] in managed && dyn[i] !in held && dyn[i] !in lost
    ensures Accounted(managed, held + {dyn[i]}, dyn - {i}, lost) && Accounted(managed, held, dyn - {i}, lost + {dyn[i]})
  {
    ValuesDrop(dyn, i);
  }

  lemma {:induction false} InjectiveCount(m: map<nat, nat>)
    requires Injective(m)
    ensures |m.Values| == |m|
    decreases |m|
  {
    if i :| i in m {
      var r := m - {i};
      ValuesDrop(m, i);
      assert r.Keys == m.Keys - {i} && |r| == |r.Keys| && |m| == |m.Keys|;
      InjectiveCount(r);
    } else {
      assert m == map[];
      assert m.Values == {};
    }
  }

  /** Free frames, mapped frames, run-time tables, the spare and the lost ones add up to all
      there are. */
  lemma FramesConserved(d: seq<Entry>, t: Tables, owned: seq<bool>, cached: nat, free: set<nat>, managed: set<nat>,
                        dyn: map<nat, nat>, lost: set<nat>)
    requires WellFormed(d, t) && Frames(d, owned, cached, free, managed)
    requires Accounted(managed, Ours(d, owned, cached, free), dyn, lost)
    ensures |free| + |dyn| + CountTrue(owned) + (if cached == 0 then 0 else 1) + |lost| == |managed|
  {
    OursCount(d, t, owned, cached, free, managed);
    hide Ours;
    InjectiveCount(dyn);
    var held := Ours(d, owned, cached, free);
    assert |held + dyn.Values| == |held| + |dyn.Values|;
    assert |managed| == |held + dyn.Values| + |lost|;
  }

  // ------------------------------------------------------------ the range and the tables

  ghost predicate InRange(q: nat) { FIRST <= q < FIRST + COUNT }

  /** In the range the tables translate exactly the pages of `dyn`. */
  ghost predicate Mirrors(d: seq<Entry>, t: Tables, dyn: map<nat, nat>)
  {
    && (forall q :: q in dyn ==> InRange(q))
    && (forall q: nat :: InRange(q) ==> Walk(d, t, q) == if q in dyn then Some(Entry(true, WRITABLE, dyn[q])) else None)
  }

  /** The directory entry of every mapped page is there and allows writing. */
  ghost predicate Opens(d: seq<Entry>, dyn: map<nat, nat>)
  {
    forall q :: q in dyn ==> q / 1024 < |d| && d[q / 1024].present && d[q / 1024].flags == 1
  }

  lemma OpensMore(d: seq<Entry>, d': seq<Entry>, dyn: map<nat, nat>, p: nat, f: nat)
    requires Opens(d, dyn) && |d| == |d'| && p / 1024 < |d|
    requires d'[p / 1024].present && d'[p / 1024].flags == 1
    requires forall i :: 0 <= i < |d| && i != p / 1024 ==> d'[i] == d[i]
    ensures Opens(d', dyn[p := f])
  {}

  /** A page that still translates has kept its directory entry. */
  lemma OpensLess(d: seq<Entry>, d': seq<Entry>, t': Tables, dyn: map<nat, nat>, p: nat, i: nat)
    requires Opens(d, dyn) && Mirrors(d', t', dyn - {p}) && |d| == |d'| && i < |d|
    requires d' == d || d' == d[i := Entry(false, 0, 0)]
    ensures Opens(d', dyn - {p})
  {
    forall q | q in dyn - {p} ensures q / 1024 < |d'| && d'[q / 1024].present && d'[q / 1024].flags == 1 {
      assert q in dyn && Walk(d', t', q).Some?;
    }
  }

  /** Mapped pages are reserved. */
  ghost predicate Reserved(b: seq<nat>, dyn: map<nat, nat>)
  {
    forall q :: q in dyn ==> q >= FIRST && Used(b, q - FIRST)
  }

  /** Outside the range nothing translates differently. */
  ghost predicate SameOutside(d: seq<Entry>, t: Tables, d': seq<Entry>, t': Tables)
  {
    forall q: nat :: !InRange(q) ==> Walk(d', t', q) == Walk(d, t, q)
  }

  lemma OutsideRefl(d: seq<Entry>, t: Tables)
    ensures SameOutside(d, t, d, t)
  {}

  lemma OutsideTrans(d: seq<Entry>, t: Tables, d1: seq<Entry>, t1: Tables, d2: seq<Entry>, t2: Tables)
    requires SameOutside(d, t, d1, t1) && SameOutside(d1, t1, d2, t2)
    ensures SameOutside(d, t, d2, t2)
  {
    hide Walk;
  }

  /** Page `p` of the range gets entry `e`, or none, and no other page changes. */
  lemma MirrorsStep(d: seq<Entry>, t: Tables, d': seq<Entry>, t': Tables, dyn: map<nat, nat>, p: nat, e: Option<Entry>)
    requires Mirrors(d, t, dyn) && InRange(p) && (e.Some? ==> e.value.present && e.value.flags == WRITABLE)
    requires Rewalks(d, t, d', t', p, e)
    ensures Mirrors(d', t', if e.Some? then dyn[p := e.value.frame] else dyn - {p}) && SameOutside(d, t, d', t')
  {
    hide Walk;
  }

  lemma MirrorsSame(d: seq<Entry>, t: Tables, d': seq<Entry>, t': Tables, dyn: map<nat, nat>)
    requires Mirrors(d, t, dyn) && SameWalk(d, t, d', t')
    ensures Mirrors(d', t', dyn) && SameOutside(d, t, d', t')
  {
    hide Walk;
  }

  /** Exactly the pages [lo, hi) of the range are newly marked. */
  ghost predicate MarkedRun(b: seq<nat>, b': seq<nat>, lo: nat, hi: nat)
  {
    forall j: nat :: Used(b', j) <==> Used(b, j) || lo <= j < hi
  }

  /** Exactly the pages [lo, hi) of the range are cleared. */
  ghost predicate ClearedRun(b: seq<nat>, b': seq<nat>, lo: nat, hi: nat)
  {
    forall j: nat :: Used(b', j) <==> Used(b, j) && !(lo <= j < hi)
  }

  /** What is mapped outside the pages [p, p + n). */
  ghost function Kept(dyn: map<nat, nat>, p: nat, n: nat): map<nat, nat>
  {
    map q | q in dyn && !(p <= q < p + n) :: dyn[q]
  }

  lemma KeptNext(dyn: map<nat, nat>, p: nat, n: nat)
    ensures Kept(dyn, p, 0) == dyn && Kept(dyn, p, n + 1) == Kept(dyn, p, n) - {p + n}
    ensures p + n in Kept(dyn, p, n) <==> p + n in dyn
    ensures p + n in dyn ==> Kept(dyn, p, n)[p + n] == dyn[p + n]
  {}

  lemma ClearedNone(b: seq<nat>, lo: nat)
    ensures ClearedRun(b, b, lo, lo)
  {}

  lemma ClearedNext(b: seq<nat>, b1: seq<nat>, b2: seq<nat>, lo: nat, hi: nat)
    requires ClearedRun(b, b1, lo, hi) && ClearedRun(b1, b2, hi, hi + 1) && lo <= hi
    ensures ClearedRun(b, b2, lo, hi + 1)
  {
    hide Used;
  }

  lemma ReservedKept(b: seq<nat>, b': seq<nat>, dyn: map<nat, nat>, i: nat)
    requires Reserved(b, dyn) && ClearedRun(b, b', i, i + 1)
    ensures Reserved(b', dyn - {FIRST + i})
  {
    hide Used;
  }

  /** `dyn` with the pages [p, p + n) mapped besides. */
  ghost predicate Extends(was: map<nat, nat>, dyn: map<nat, nat>, p: nat, n: nat)
  {
    && (forall q :: q in dyn <==> q in was || p <= q < p + n)
    && (forall q :: q in was ==> q in dyn && dyn[q] == was[q])
  }

  lemma ExtendsNext(was: map<nat, nat>, dyn: map<nat, nat>, p: nat, n: nat, f: nat)
    requires Extends(was, dyn, p, n) && p + n !in was
    ensures Extends(was, dyn[p + n := f], p, n + 1) && p + n !in dyn
  {}

  lemma ExtendsFree(was: map<nat, nat>, dyn: map<nat, nat>, p: nat, n: nat)
    requires Extends(was, dyn, p, n) && p + n !in was
    ensures p + n !in dyn
  {}

  /** Taking the new pages away again leaves what was there. */
  lemma ExtendsUndo(was: map<nat, nat>, dyn: map<nat, nat>, p: nat, n: nat)
    requires Extends(was, dyn, p, n) && forall q :: q in was ==> !(p <= q < p + n)
    ensures Kept(dyn, p, n) == was
  {}

  /** Marking a run and clearing its front leaves its back marked. */
  lemma MarkThenClear(b: seq<nat>, b1: seq<nat>, b2: seq<nat>, lo: nat, mid: nat, hi: nat)
    requires MarkedRun(b, b1, lo, hi) && ClearedRun(b1, b2, lo, mid) && lo <= mid <= hi && FreeRun(b, lo, hi - lo)
    ensures MarkedRun(b, b2, mid, hi)
  {
    hide Used;
  }

  lemma ReservedMore(b: seq<nat>, b': seq<nat>, dyn: map<nat, nat>, lo: nat, hi: nat)
    requires Reserved(b, dyn) && MarkedRun(b, b', lo, hi)
    ensures Reserved(b', dyn)
  {
    hide Used;
  }

  class Manager {
    const range: Range
    const space: AddressSpace
    ghost var dyn: map<nat, nat>   // the pages mapped in the range, and their frames
    ghost var lost: set<nat>       // frames that no one can reach any more

    ghost predicate Valid()
      reads this, range, range.bitmap, space, space.directory, space.owned
    {
      && range.Shape() && space.Valid() && Accounted(space.managed, space.Held(), dyn, lost)
      && Mirrors(space.directory[..], space.tables, dyn) && Opens(space.directory[..], dyn)
      && Reserved(range.bitmap[..], dyn)
    }

    /** `kernel_vmm_initialize` over an address space with nothing in the range. */
    constructor (space: AddressSpace)
      requires space.Valid() && space.Held() == space.managed
      requires forall q: nat :: InRange(q) ==> space.Mapped(q) == None
      ensures Valid() && this.space == space && dyn == map[] && lost == {} && fresh(range) && fresh(range.bitmap)
      ensures forall j: nat :: !Used(range.bitmap[..], j)
    {
      hide WellFormed, Frames, NoneEmpty, Used, CountTrue, Ours;
      this.space := space;
      range := new Range();
      dyn := map[];
      lost := {};
    }

    /** In every reachable state the frames add up. */
    lemma Conserved()
      requires Valid()
      ensures |space.free| + |dyn| + space.ownedCount + (if space.cached == 0 then 0 else 1) + |lost| == |space.managed|
    {
      hide WellFormed, Frames, NoneEmpty, Walk, Used, CountTrue, Ours, Accounted, Mirrors;
      FramesConserved(space.directory[..], space.tables, space.owned[..], space.cached,
                      space.free, space.managed, dyn, lost);
    }

    /** The directory entry of page `i` of the range is there. */
    ghost predicate HasTable(i: nat)
      requires i < COUNT && space.directory.Length == ENTRIES
      reads this, space, space.directory
    {
      space.directory[(FIRST + i) / ENTRIES].present
    }

    /** One turn of the loop of `kernel_vmm_alloc_pages`, for page `i` of the range: it works
        exactly when there is a frame for the page and one for the table it may need. */
    method MapOne(i: nat) returns (ok: bool, ghost f: nat)
      requires Valid() && i < COUNT && FIRST + i !in dyn && Used(range.bitmap[..], i)
      modifies this`dyn, space`tables, space`free, space`cached, space`ownedCount, space.directory, space.owned
      ensures Valid() && dyn == if ok then old(dyn)[FIRST + i := f] else old(dyn)
      ensures ok <==> old(space.free) != {} && (old(HasTable(i)) || old(space.cached) != 0 || |old(space.free)| >= 2)
      ensures ok ==>
                PageTaken(old(space.free), old(space.cached) != 0, space.free, space.cached != 0, !old(HasTable(i)))
      ensures ok ==> Present(space.directory[..]) == old(Present(space.directory[..]))[(FIRST + i) / ENTRIES := true]
      ensures SameOutside(old(space.directory[..]), old(space.tables), space.directory[..], space.tables)
    {
      hide WellFormed, Frames, NoneEmpty, Walk, Used, CountTrue, Ours, Accounted, Mirrors, SameOutside, Rewalks;
      hide SameWalk, PageTaken, Opens;
      ghost var d, t := space.directory[..], space.tables;
      PageAddress(i);
      ok, f := space.MapFresh(RANGE_START + i * PAGE, WRITABLE);
      if !ok {
        assert space.directory[..] == d;
        MirrorsSame(d, t, space.directory[..], space.tables, dyn);
        return;
      }
      MirrorsStep(d, t, space.directory[..], space.tables, dyn, FIRST + i, Some(Entry(true, WRITABLE, f)));
      OpensMore(d, space.directory[..], dyn, FIRST + i, f);
      AccountedMap(space.managed, old(space.Held()), dyn, lost, f, FIRST + i);
      dyn := dyn[FIRST + i := f];
    }

    /** The frame of page `i`, if it has one, goes back to the page allocator, which takes it
        only from the address of its start. */
    method GiveBack(virt: nat, i: nat)
      requires Valid() && RANGE_START <= virt < RANGE_END && i == (virt - RANGE_START) / PAGE
      modifies this`lost, space`free
      ensures space.Valid() && Accounted(space.managed, space.Held(), dyn - {FIRST + i}, lost)
      ensures lost == old(lost) + if virt % PAGE != 0 && FIRST + i in dyn then {dyn[FIRST + i]} else {}
    {
      hide WellFormed, Frames, NoneEmpty, Walk, Used, CountTrue, Ours, Accounted, Reserved, Opens;
      AddressPage(virt, i);
      assert space.Mapped(FIRST + i) == if FIRST + i in dyn then Some(Entry(true, WRITABLE, dyn[FIRST + i])) else None;
      hide Mirrors;
      var mapped: bool, phys: nat;
      mapped, phys := space.GetPhysical(virt);
      if mapped {
        AccountedUnmap(space.managed, space.Held(), dyn, lost, FIRST + i);
        space.FreeFrame(phys);
        if virt % PAGE == 0 {
          assert space.Held() == old(space.Held()) + {dyn[FIRST + i]};
        } else {
          assert space.Held() == old(space.Held());
          lost := lost + {dyn[FIRST + i]};
        }
      } else {
        assert dyn - {FIRST + i} == dyn;
      }
    }

    /** One turn of the loop of `kernel_vmm_free_pages`: the page goes, and its frame comes
        back only if the address is the start of the page. */
    method FreeOne(virt: nat, i: nat)
      requires Valid() && RANGE_START <= virt < RANGE_END && i == (virt - RANGE_START) / PAGE
      modifies this`dyn, this`lost, range.bitmap
      modifies space`tables, space`free, space`ownedCount, space.directory, space.owned
      ensures Valid() && dyn == old(dyn) - {FIRST + i} && ClearedRun(old(range.bitmap[..]), range.bitmap[..], i, i + 1)
      ensures lost == old(lost) + if virt % PAGE != 0 && FIRST + i in old(dyn) then {old(dyn)[FIRST + i]} else {}
      ensures SameOutside(old(space.directory[..]), old(space.tables), space.directory[..], space.tables)
    {
      hide WellFormed, Frames, NoneEmpty, Walk, Used, CountTrue, Ours, Accounted, SameOutside, Reserved, Rewalks, Opens;
      hide NoOther, Mirrors;
      ghost var d, t := space.directory[..], space.tables;
      AddressPage(virt, i);
      GiveBack(virt, i);
      var unmapped := space.UnmapPage(virt);
      MirrorsStep(d, t, space.directory[..], space.tables, dyn, FIRST + i, None);
      OpensLess(d, space.directory[..], space.tables, dyn, FIRST + i, (FIRST + i) / ENTRIES);
      range.Clear(i);
      ReservedKept(old(range.bitmap[..]), range.bitmap[..], dyn, i);
      dyn := dyn - {FIRST + i};
    }

    /** `kernel_vmm_free_pages`.  From an address that is the start of a page every frame
        comes back; from any other, every frame that was mapped there is lost. */
    method FreePages(ptr: nat, n: nat)
      requires Valid() && (0xD000_0000 <= ptr < 0xF000_0000 ==> (ptr - 0xD000_0000) / 4096 + n <= 0x2_0000)
      modifies this`dyn, this`lost, range.bitmap
      modifies space`tables, space`free, space`ownedCount, space.directory, space.owned
      ensures Valid() && SameOutside(old(space.directory[..]), old(space.tables), space.directory[..], space.tables)
      ensures !(0xD000_0000 <= ptr < 0xF000_0000) ==>
                dyn == old(dyn) && lost == old(lost) && range.bitmap[..] == old(range.bitmap[..])
      ensures 0xD000_0000 <= ptr < 0xF000_0000 ==> dyn == Kept(old(dyn), Page(ptr), n)
      ensures 0xD000_0000 <= ptr < 0xF000_0000 ==>
                lost == old(lost) + if ptr % 4096 == 0 then {} else FramesAt(old(dyn), Page(ptr), n)
      ensures 0xD000_0000 <= ptr < 0xF000_0000 ==>
                ClearedRun(old(range.bitmap[..]), range.bitmap[..], Page(ptr) - 0xD_0000, Page(ptr) - 0xD_0000 + n)
      ensures 0xD000_0000 <= ptr < 0xF000_0000 ==>
                (lost == old(lost) <==>
                   ptr % 4096 == 0 || forall q :: Page(ptr) <= q < Page(ptr) + n ==> q !in old(dyn))
    {
      hide WellFormed, Frames, NoneEmpty, Walk, Used, CountTrue, Ours, Accounted, Mirrors, Reserved, SameOutside, Kept;
      hide FramesAt, Opens;
      hide ClearedRun;
      OutsideRefl(space.directory[..], space.tables);
      if RANGE_START <= ptr < RANGE_END { ClearedNone(range.bitmap[..], Page(ptr) - FIRST); }
      FramesAtNone(dyn, Page(ptr));
      LostExactly(space.managed, space.Held(), dyn, lost, Page(ptr), n);
      KeptNext(dyn, Page(ptr), 0);
      if ptr == 0 || n == 0 {
        return;
      }
      if ptr < RANGE_START || ptr >= RANGE_END {
        return;
      }
      var start := (ptr - RANGE_START) / PAGE;
      NextAddress(ptr, 0, start);
      var i := 0;
      while i < n
        invariant i <= n && Valid() && dyn == Kept(old(dyn), FIRST + start, i)
        invariant ClearedRun(old(range.bitmap[..]), range.bitmap[..], start, start + i)
        invariant SameOutside(old(space.directory[..]), old(space.tables), space.directory[..], space.tables)
        invariant lost == old(lost) + if ptr % PAGE == 0 then {} else FramesAt(old(dyn), FIRST + start, i)
      {
        ghost var d, t, b := space.directory[..], space.tables, range.bitmap[..];
        NextAddress(ptr, i, start);
        FramesAtNext(old(dyn), FIRST + start, i);
        KeptNext(old(dyn), FIRST + start, i);
        FreeOne(ptr + i * PAGE, start + i);
        OutsideTrans(old(space.directory[..]), old(space.tables), d, t, space.directory[..], space.tables);
        ClearedNext(old(range.bitmap[..]), b, range.bitmap[..], start, start + i);
        i := i + 1;
      }
    }

    /** The loop of `kernel_vmm_alloc_pages`: pages [first, first + n) of the range are mapped
        until one fails. */
    method MapRun(first: nat, n: nat) returns (i: nat)
      requires Valid() && first + n <= COUNT
      requires forall j: nat :: first <= j < first + n ==> FIRST + j !in dyn && Used(range.bitmap[..], j)
      modifies this`dyn, space`tables, space`free, space`cached, space`ownedCount, space.directory, space.owned
      ensures Valid() && i <= n && Extends(old(dyn), dyn, FIRST + first, i)
      ensures SameOutside(old(space.directory[..]), old(space.tables), space.directory[..], space.tables)
      ensures Supplied(i == n, old(space.free), old(space.cached) != 0, n, old(Present(space.directory[..])),
                       FIRST + first)
    {
      hide WellFormed, Frames, NoneEmpty, Walk, Used, CountTrue, Ours, Accounted, Mirrors, SameOutside, Reserved;
      hide Missing, Present, Enough, Needs, PageTaken, Opens;
      OutsideRefl(space.directory[..], space.tables);
      i := 0;
      ghost var b0 := Present(space.directory[..]);
      assert Extends(dyn, dyn, FIRST + first, 0);
      hide Extends;
      while i < n
        invariant i <= n && Valid() && Extends(old(dyn), dyn, FIRST + first, i)
        invariant SameOutside(old(space.directory[..]), old(space.tables), space.directory[..], space.tables)
        invariant Enough(old(space.free), old(space.cached) != 0, n, b0, FIRST + first) ==>
                    Enough(space.free, space.cached != 0, n - i, Present(space.directory[..]), FIRST + first + i)
        invariant Needs(space.free, space.cached != 0, n - i, Present(space.directory[..]), FIRST + first + i) ==>
                    Needs(old(space.free), old(space.cached) != 0, n, b0, FIRST + first)
      {
        ghost var d, t, free, spare := space.directory[..], space.tables, space.free, space.cached != 0;
        PresentAt(d, FIRST + first + i);
        ghost var before := dyn;
        assert Used(old(range.bitmap[..]), first + i);
        ExtendsFree(old(dyn), dyn, FIRST + first, i);
        var ok: bool;
        ghost var f: nat;
        ok, f := MapOne(first + i);
        OutsideTrans(old(space.directory[..]), old(space.tables), d, t, space.directory[..], space.tables);
        if !ok {
          if Enough(free, spare, n - i, Present(d), FIRST + first + i) {
            EnoughFrames(free, spare, n - i, Present(d), FIRST + first + i);
          }
          return;
        }
        EnoughStep(free, spare, space.free, space.cached != 0, n - i, Present(d), FIRST + first + i);
        ExtendsNext(old(dyn), before, FIRST + first, i, f);
        i := i + 1;
      }
      EnoughForNone(space.free, space.cached != 0, Present(space.directory[..]), FIRST + first + n);
    }

    /** `kernel_vmm_alloc_pages`.  On success the run of pages the search picks is mapped to
        frames of its own.  When frames run out after `done` pages, those are given back
        and nothing stays mapped, but the pages from the failing one on stay reserved. */
    method AllocPages(n: nat) returns (addr: nat, ghost start: nat, ghost done: nat)
      requires Valid()
      modifies this`dyn, this`lost, range.bitmap
      modifies space`tables, space`free, space`cached, space`ownedCount, space.directory, space.owned
      ensures Valid() && lost == old(lost)
      ensures SameOutside(old(space.directory[..]), old(space.tables), space.directory[..], space.tables)
      ensures addr != 0 || done < n ==> start + n <= 0x2_0000
      ensures addr != 0 ==>
                done == n > 0 && addr == 0xD000_0000 + start * 4096 && Extends(old(dyn), dyn, 0xD_0000 + start, n)
      ensures addr != 0 ==> forall q :: 0xD_0000 + start <= q < 0xD_0000 + start + n ==> q !in old(dyn)
      ensures addr == 0 ==> dyn == old(dyn) && done <= n
      ensures addr == 0 && done == n <==>
                n == 0 || n > 0x2_0000 || !exists i: nat :: FreeRun(old(range.bitmap[..]), i, n)
      ensures addr != 0 || done < n ==> LowestRun(old(range.bitmap[..]), start, n)
      ensures addr != 0 || done < n ==>
                Supplied(addr != 0, old(space.free), old(space.cached) != 0, n, old(Present(space.directory[..])),
                         0xD_0000 + start)
      ensures MarkedRun(old(range.bitmap[..]), range.bitmap[..], if addr != 0 then start else start + done, start + n)
    {
      hide WellFormed, Frames, NoneEmpty, Walk, Used, CountTrue, Ours, Accounted, Mirrors, SameOutside, FreeRun;
      hide Missing, Present, Extends, Kept, FramesAt, ClearedRun, Reserved, Opens;
      OutsideRefl(space.directory[..], space.tables);
      addr := range.ReservePages(n);
      if addr == 0 {
        start, done := 0, n;
        return;
      }
      var first := (addr - RANGE_START) / PAGE;
      start := first;
      ghost var marked := range.bitmap[..];
      RunUnmapped(old(range.bitmap[..]), start, n, dyn);
      ReservedMore(old(range.bitmap[..]), marked, dyn, start, start + n);
      hide MarkedRun;
      var mapped := MapRun(first, n);
      done := mapped;
      if mapped < n {
        ExtendsUndo(old(dyn), dyn, FIRST + start, done);
        ghost var d, t := space.directory[..], space.tables;
        FreePages(addr, mapped);
        OutsideTrans(old(space.directory[..]), old(space.tables), d, t, space.directory[..], space.tables);
        MarkThenClear(old(range.bitmap[..]), marked, range.bitmap[..], start, start + done, start + n);
        addr := 0;
      }
    }

    /** With fewer frames at hand than pages wanted, the last page of the run that was found
        stays reserved although nothing is mapped there. */
    method RunsShort(n: nat) returns (ghost page: nat)
      requires Valid() && n > space.Pool() && exists i: nat :: FreeRun(range.bitmap[..], i, n)
      modifies this`dyn, this`lost, range.bitmap
      modifies space`tables, space`free, space`cached, space`ownedCount, space.directory, space.owned
      ensures Valid() && dyn == old(dyn) && lost == old(lost)
      ensures page < COUNT && FIRST + page !in dyn && !Used(old(range.bitmap[..]), page) && Used(range.bitmap[..], page)
    {
      hide WellFormed, Frames, NoneEmpty, Walk, Used, CountTrue, Ours, Accounted, Mirrors, SameOutside;
      hide Present, Extends, Kept, FramesAt, ClearedRun, Reserved, Missing, Enough;
      RunInRange(range.bitmap[..], n);
      RunsUnmapped(range.bitmap[..], n, dyn);
      var addr: nat;
      ghost var start: nat, done: nat;
      addr, start, done := AllocPages(n);
      page := start + n - 1;
    }

    /** An instance: a page freed through any address but its start takes its frame with it. */
    method FreeUnaligned(offset: nat)
      requires Valid() && 0 < offset < PAGE && (exists i: nat :: FreeRun(range.bitmap[..], i, 1)) && space.Pool() >= 3
      modifies this`dyn, this`lost, range.bitmap
      modifies space`tables, space`free, space`cached, space`ownedCount, space.directory, space.owned
      ensures Valid() && dyn == old(dyn) && |lost| == |old(lost)| + 1
    {
      hide WellFormed, Frames, NoneEmpty, Walk, Used, CountTrue, Ours, Accounted, Mirrors, SameOutside, FreeRun;
      hide Reserved, Present, LowestRun, MarkedRun, ClearedRun, Extends, Kept, FramesAt;
      MissingOne(Present(space.directory[..]));
      hide Missing;
      var addr: nat;
      ghost var start: nat, done: nat;
      RunInRange(range.bitmap[..], 1);
      addr, start, done := AllocPages(1);
      LostApart(space.managed, space.Held(), dyn, lost);
      OnePage(old(dyn), dyn, start);
      OffsetPage(start, offset);
      FreePages(addr + offset, 1);
    }
  }

  /** The run at `start` is free and no lower one is. */
  ghost predicate LowestRun(b: seq<nat>, start: nat, n: nat)
  {
    FreeRun(b, start, n) && forall k: nat :: k < start ==> !FreeRun(b, k, n)
  }

  /** An allocation works when its frames suffice whichever the page allocator hands out, and
      only when it has a frame for each page and each missing table. */
  ghost predicate Supplied(ok: bool, free: set<nat>, spare: bool, n: nat, present: seq<bool>, p: nat)
  {
    (Enough(free, spare, n, present, p) ==> ok) && (ok ==> Needs(free, spare, n, present, p))
  }

  lemma PresentAt(d: seq<Entry>, p: nat)
    requires p / ENTRIES < |d|
    ensures |Present(d)| == |d| && Present(d)[p / ENTRIES] == d[p / ENTRIES].present
  {}

  lemma MissingOne(b: seq<bool>)
    ensures forall p: nat :: Missing(b, p, 1) <= 1
  {}

  lemma RunInRange(b: seq<nat>, n: nat)
    ensures (exists i: nat :: FreeRun(b, i, n)) ==> n <= COUNT
  {}

  lemma LostApart(managed: set<nat>, held: set<nat>, dyn: map<nat, nat>, lost: set<nat>)
    requires Accounted(managed, held, dyn, lost)
    ensures forall q :: q in dyn ==> dyn[q] !in lost
  {
    forall q | q in dyn ensures dyn[q] !in lost { assert dyn[q] in dyn.Values; }
  }

  lemma OnePage(was: map<nat, nat>, dyn: map<nat, nat>, start: nat)
    requires Extends(was, dyn, FIRST + start, 1) && FIRST + start !in was
    ensures FIRST + start in dyn && FramesAt(dyn, FIRST + start, 1) == {dyn[FIRST + start]}
    ensures Kept(dyn, FIRST + start, 1) == was
  {
    var f := dyn[FIRST + start];
    assert f in FramesAt(dyn, FIRST + start, 1);
  }

  lemma OffsetPage(i: nat, offset: nat)
    requires i < COUNT && offset < PAGE
    ensures var ptr := RANGE_START + i * PAGE + offset;
            && RANGE_START <= ptr < RANGE_END && Page(ptr) == FIRST + i
            && ptr % PAGE == offset && (ptr - RANGE_START) / PAGE == i
  {}

  /** The frames mapped at pages [p, p + n). */
  ghost function FramesAt(dyn: map<nat, nat>, p: nat, n: nat): set<nat>
  {
    set q | q in dyn && p <= q < p + n :: dyn[q]
  }

  /** Losing the frames of a run costs something exactly when the run has a mapped page. */
  lemma LostExactly(managed: set<nat>, held: set<nat>, dyn: map<nat, nat>, lost: set<nat>, p: nat, n: nat)
    requires Accounted(managed, held, dyn, lost)
    ensures lost + FramesAt(dyn, p, n) == lost <==> forall q :: p <= q < p + n ==> q !in dyn
  {
    if q :| p <= q < p + n && q in dyn {
      assert dyn[q] in dyn.Values && dyn[q] in FramesAt(dyn, p, n);
    }
  }

  lemma FramesAtNone(dyn: map<nat, nat>, p: nat)
    ensures FramesAt(dyn, p, 0) == {}
  {}

  lemma FramesAtNext(dyn: map<nat, nat>, p: nat, n: nat)
    ensures FramesAt(dyn, p, n + 1) == FramesAt(dyn, p, n) + if p + n in dyn then {dyn[p + n]} else {}
  {
    var a, b := FramesAt(dyn, p, n + 1), FramesAt(dyn, p, n) + if p + n in dyn then {dyn[p + n]} else {};
    forall f | f in a ensures f in b { var q :| q in dyn && p <= q < p + n + 1 && dyn[q] == f; }
  }

  lemma AddressPage(virt: nat, i: nat)
    requires RANGE_START <= virt < RANGE_END && i == (virt - RANGE_START) / PAGE
    ensures i < COUNT && Page(virt) == FIRST + i && virt < WORD
  {}

  lemma NextAddress(ptr: nat, i: nat, start: nat)
    requires RANGE_START <= ptr < RANGE_END && start == (ptr - RANGE_START) / PAGE && start + i < COUNT
    ensures RANGE_START <= ptr + i * PAGE < RANGE_END && start + i == (ptr + i * PAGE - RANGE_START) / PAGE
    ensures (ptr + i * PAGE) % PAGE == ptr % PAGE && FIRST + start == Page(ptr)
  {}

  lemma RunUnmapped(b: seq<nat>, start: nat, n: nat, dyn: map<nat, nat>)
    requires FreeRun(b, start, n) && Reserved(b, dyn)
    ensures start + n <= COUNT && forall q :: q in dyn ==> !(FIRST + start <= q < FIRST + start + n)
  {}

  lemma RunsUnmapped(b: seq<nat>, n: nat, dyn: map<nat, nat>)
    requires Reserved(b, dyn)
    ensures forall start: nat, q :: FreeRun(b, start, n) && q in dyn ==> !(FIRST + start <= q < FIRST + start + n)
  {
    hide Used;
    forall start: nat, q | FreeRun(b, start, n) && q in dyn ensures !(FIRST + start <= q < FIRST + start + n) {
      RunUnmapped(b, start, n, dyn);
    }
  }

  lemma PageAddress(i: nat)
    requires i < COUNT
    ensures Page(RANGE_START + i * PAGE) == FIRST + i && RANGE_START + i * PAGE < WORD
  {}

  /** A directory with one empty table, for the first pages of the range. */
  function BootDirectory(): seq<Entry>
  {
    seq(ENTRIES, i => Entry(i == FIRST / ENTRIES, 0, if i == FIRST / ENTRIES then 9 else 0))
  }

  function BootTables(): Tables { map[9 := seq(ENTRIES, k => Entry(false, 0, 0))] }

  lemma BootWellFormed()
    ensures WellFormed(BootDirectory(), BootTables())
    ensures forall q: nat :: Walk(BootDirectory(), BootTables(), q) == None
  {}

  /** An instance: one free frame and a table for the page at hand.  A request for two pages
      fails, and leaves a page reserved that nothing is mapped to. */
  method LeavesReserved() returns (m: Manager, ghost page: nat)
    ensures m.Valid() && m.dyn == map[] && page < COUNT && Used(m.range.bitmap[..], page)
  {
    hide WellFormed, Walk, Used;
    BootWellFormed();
    var d, t := BootDirectory(), BootTables();
    assert |d| == ENTRIES;
    var space := new AddressSpace(d, t, {5});
    m := new Manager(space);
    assert FreeRun(m.range.bitmap[..], 0, 2);
    page := m.RunsShort(2);
  }
}
