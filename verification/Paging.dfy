/** Run-time paging, kernel/arch/i386/cpu/paging.c, in the build that keeps a spare frame
    for the next page table.  The page allocator is the set of frames it has free: it
    answers 0 exactly when it has no free frame, or no free aligned pair. */
module Paging {
  import opened Bits
  import opened Counting
  import opened FrameSupply
  import opened PageTables

  class AddressSpace {
    const directory: array<Entry>
    const owned: array<bool>
    var tables: Tables
    var ownedCount: nat
    var cached: nat
    var free: set<nat>
    ghost const managed: set<nat>

    ghost predicate Shape()
      reads this, directory, owned
    {
      && directory.Length == owned.Length == ENTRIES && WellFormed(directory[..], tables)
      && Frames(directory[..], owned[..], cached, free, managed) && ownedCount == CountTrue(owned[..])
    }

    ghost predicate Valid()
      reads this, directory, owned
    {
      Shape() && NoneEmpty(directory[..], tables, owned[..])
    }

    ghost function Mapped(q: nat): Option<Entry>
      reads this`tables, directory
    {
      Walk(directory[..], tables, q)
    }

    /** Frames in nobody's hands. */
    ghost function Held(): set<nat>
      requires directory.Length == owned.Length
      reads this, directory, owned
    {
      Ours(directory[..], owned[..], cached, free)
    }

    /** Frames at hand: the free ones and the spare. */
    ghost function Pool(): nat
      reads this`free, this`cached
    {
      AtHand(free, cached != 0)
    }

    /** `paging_initialize_runtime` over the directory and tables set up at boot. */
    constructor (d: seq<Entry>, t: Tables, frames: set<nat>)
      requires WellFormed(d, t) && 0 !in frames
      requires forall i :: 0 <= i < ENTRIES && d[i].present ==> d[i].frame !in frames
      ensures Valid() && fresh(directory) && fresh(owned) && managed == free == Held() == frames
      ensures forall q :: Mapped(q) == Walk(d, t, q)
    {
      directory := new Entry[ENTRIES](i requires 0 <= i < |d| => d[i]);
      owned := new bool[ENTRIES](i => false);
      tables, ownedCount, cached, free, managed := t, 0, 0, frames, frames;
      new;
      assert directory[..] == d;
      CountNone(owned[..]);
      assert OwnFrames(d, owned[..]) == {};
    }

    /** `physical_memory_manager_page_frame_allocate` */
    method AllocateFrame() returns (f: nat)
      requires Shape()
      modifies this`free
      ensures Shape() && (f == 0 <==> old(free) == {})
      ensures f == 0 ==> free == old(free)
      ensures f != 0 ==> f in old(free) && free == old(free) - {f} && f in managed
      ensures f != 0 ==> f !in Held() && old(Held()) == Held() + {f}
    {
      hide WellFormed, OwnFrames, CountTrue;
      if free == {} {
        return 0;
      }
      f :| f in free;
      free := free - {f};
    }

    /** `physical_memory_manager_page_frame_free` of an address in a frame that was handed
        out: an address that is not the start of its frame is refused. */
    method FreeFrame(phys: nat)
      requires Shape() && Page(phys) in managed && Page(phys) !in Held()
      modifies this`free
      ensures Shape() && (old(Valid()) ==> Valid())
      ensures free == old(free) + if phys % PAGE == 0 then {Page(phys)} else {}
      ensures Held() == old(Held()) + if phys % PAGE == 0 then {Page(phys)} else {}
    {
      hide WellFormed, OwnFrames, CountTrue;
      if phys % PAGE == 0 {
        free := free + {Page(phys)};
      }
    }

    /** `paging_allocate_page_table_frame` */
    method AllocateTableFrame() returns (f: nat)
      requires Shape()
      modifies this`free, this`cached
      ensures Shape() && (f == 0 <==> old(free) == {} && old(cached) == 0)
      ensures f == 0 ==> free == old(free) && cached == old(cached)
      ensures f != 0 ==> f in managed && f !in Held() && old(Held()) == Held() + {f} && Pool() + 1 == old(Pool())
      ensures f != 0 ==> TableTaken(old(free), old(cached) != 0, free, cached != 0)
    {
      hide WellFormed, OwnFrames, CountTrue, Frames, Ours;
      if cached != 0 {
        FramesSpare(directory[..], owned[..], cached, free, managed);
        f := cached;
        cached := 0;
        return;
      }
      if g :| g in free && g % 2 == 0 && g + 1 in free {
        assert g in Pairs(free);
        FramesPair(directory[..], owned[..], free, managed, g);
        free := free - {g, g + 1};
        cached := g + 1;
        return g;
      }
      f := AllocateFrame();
    }

    /** `paging_create_page_table` and the ownership mark that goes with it. */
    method CreateTable(i: nat, flags: nat) returns (ok: bool)
      requires Valid() && i < ENTRIES && !directory[i].present
      modifies this`tables, this`free, this`cached, this`ownedCount, directory, owned
      ensures Shape() && Held() == old(Held()) && (!ok <==> old(free) == {} && old(cached) == 0)
      ensures forall q :: Mapped(q) == old(Mapped(q))
      ensures !ok ==> Valid() && free == {} && cached == 0
      ensures !ok ==> ownedCount == old(ownedCount) && directory[i] == old(directory[i])
      ensures Pool() + (if ok then 1 else 0) == old(Pool())
      ensures ok ==> TableTaken(old(free), old(cached) != 0, free, cached != 0)
      ensures ok ==> directory[i].present && directory[i].flags == flags && owned[i]
      ensures ok ==> NoneEmptyBut(directory[..], tables, owned[..], i)
      ensures forall j :: 0 <= j < ENTRIES && j != i ==> directory[j] == old(directory[j])
    {
      hide WellFormed, CountTrue, OwnFrames, Frames, NoneEmpty, Walk, NoneEmptyBut, TableTaken, AtHand;
      ghost var d, t, o := directory[..], tables, owned[..];
      var f := AllocateTableFrame();
      if f == 0 {
        assert directory[..] == d && owned[..] == o;
        return false;
      }
      var zeros := seq(ENTRIES, k => Entry(false, 0, 0));
      FreshFrame(d, o, cached, free, managed, f);
      CreateWellFormed(d, t, i, f, flags, zeros);
      FramesCreate(d, o, cached, free, managed, i, Entry(true, flags, f));
      forall q ensures Walk(d[i := Entry(true, flags, f)], t[f := zeros], q) == Walk(d, t, q) {
        WalkCreate(d, t, i, f, flags, zeros, q);
      }
      CountSet(o, i, true);
      CreateNoneEmpty(d, t, o, i, Entry(true, flags, f), zeros);
      tables := tables[f := zeros];
      directory[i] := Entry(true, flags, f);
      owned[i] := true;
      ownedCount := ownedCount + 1;
      assert directory[..] == d[i := Entry(true, flags, f)] && owned[..] == o[i := true];
      return true;
    }

    /** `paging_update_pde_flags` */
    method UpdateFlags(i: nat, flags: nat)
      requires Valid() && i < ENTRIES && directory[i].present
      modifies directory
      ensures Valid() && Held() == old(Held()) && directory[i].present && forall q :: Mapped(q) == old(Mapped(q))
      ensures directory[i].flags == flags
      ensures forall j :: 0 <= j < ENTRIES && j != i ==> directory[j] == old(directory[j])
    {
      hide WellFormed, CountTrue, OwnFrames, Frames, Walk;
      ghost var d := directory[..];
      forall q ensures Walk(d[i := d[i].(flags := flags)], tables, q) == Walk(d, tables, q) {
        WalkReflag(d, tables, i, flags, q);
      }
      WalkReflag(d, tables, i, flags, 0);
      FramesReflag(d, owned[..], cached, free, managed, i, flags);
      directory[i] := directory[i].(flags := flags);
      assert directory[..] == d[i := d[i].(flags := flags)];
    }

    /** `paging_install_pte` or `paging_clear_pte` in the table of directory entry `i`. */
    method WriteEntry(i: nat, k: nat, e: Entry)
      requires Shape() && i < ENTRIES && k < ENTRIES && directory[i].present
      requires NoneEmptyBut(directory[..], tables, owned[..], i)
      modifies this`tables
      ensures Shape() && NoneEmptyBut(directory[..], tables, owned[..], i) && (e.present ==> Valid())
      ensures directory[i].frame in tables && directory[i].frame in old(tables)
      ensures |old(tables)[directory[i].frame]| == ENTRIES
      ensures tables[directory[i].frame] == old(tables)[directory[i].frame][k := e]
      ensures forall q :: Mapped(q) ==
                if q == i * ENTRIES + k then (if e.present then Some(e) else None) else old(Mapped(q))
    {
      hide WellFormed, CountTrue, OwnFrames, Frames, Walk, NoneEmpty, NoneEmptyBut;
      ghost var d, t := directory[..], tables;
      InstallWellFormed(d, t, i, k, e);
      ghost var t' := t[d[i].frame := t[d[i].frame][k := e]];
      forall q
        ensures Walk(d, t', q) ==
                  if q == i * ENTRIES + k then (if e.present then Some(e) else None) else Walk(d, t, q)
      {
        WalkInstall(d, t, i, k, e, q);
      }
      InstallNoneEmpty(d, t, owned[..], cached, free, managed, i, k, e);
      var f := directory[i].frame;
      tables := tables[f := tables[f][k := e]];
    }

    /** `paging_map_page`: one page is mapped as the flags say, or nothing changes because no
        table could be made for it.  A directory entry that is there keeps its table only
        if the flags given for it have the present bit. */
    method MapPage(v: nat, phys: nat, pde: Entry, pte: Entry) returns (ok: bool)
      requires Valid() && v < WORD && (pde.present || !directory[Page(v) / ENTRIES].present)
      modifies this`tables, this`free, this`cached, this`ownedCount, directory, owned
      ensures Shape() && Held() == old(Held()) && (pte.present || !ok ==> Valid())
      ensures forall q :: Mapped(q) ==
                if ok && q == Page(v) then (if pte.present then Some(Entry(true, pte.flags, Page(phys))) else None)
                else old(Mapped(q))
      ensures !ok <==> !old(directory[Page(v) / ENTRIES]).present && old(free) == {} && old(cached) == 0
      ensures !ok ==> free == old(free) && cached == old(cached) && ownedCount == old(ownedCount)
      ensures Pool() + (if ok && !old(directory[Page(v) / ENTRIES]).present then 1 else 0) == old(Pool())
      ensures old(directory[Page(v) / ENTRIES]).present ==> free == old(free) && cached == old(cached)
      ensures ok && !old(directory[Page(v) / ENTRIES]).present ==>
                TableTaken(old(free), old(cached) != 0, free, cached != 0)
      ensures ok ==> directory[Page(v) / ENTRIES].present && directory[Page(v) / ENTRIES].flags == pde.flags
      ensures forall i :: 0 <= i < ENTRIES && (!ok || i != Page(v) / ENTRIES) ==> directory[i] == old(directory[i])
    {
      hide WellFormed, CountTrue, OwnFrames, Frames, Walk, NoneEmpty, NoneEmptyBut, DirIndex, TabIndex, TableTaken;
      IndicesSplitPage(v);
      var i, k := DirIndex(v), TabIndex(v);
      if !directory[i].present {
        var made := CreateTable(i, pde.flags);
        if !made {
          return false;
        }
      } else {
        UpdateFlags(i, pde.flags);
        ButOne(directory[..], tables, owned[..], i);
      }
      WriteEntry(i, k, Entry(pte.present, pte.flags, Page(phys)));
      return true;
    }

    /** A frame is taken and mapped at page `p`, or given back because no table could be made:
        it works exactly when there is a frame for the page and one for the table it needs. */
    method MapFresh(v: nat, flags: nat) returns (ok: bool, ghost f: nat)
      requires Valid() && v < WORD
      modifies this`tables, this`free, this`cached, this`ownedCount, directory, owned
      ensures Valid()
      ensures ok <==>
                old(free) != {} && (old(directory[Page(v) / ENTRIES]).present || old(cached) != 0 || |old(free)| >= 2)
      ensures ok ==> f in old(Held()) && Held() == old(Held()) - {f}
      ensures ok ==>
                PageTaken(old(free), old(cached) != 0, free, cached != 0, !old(directory[Page(v) / ENTRIES]).present)
      ensures ok ==> Present(directory[..]) == old(Present(directory[..]))[Page(v) / ENTRIES := true]
      ensures ok ==> directory[Page(v) / ENTRIES].present && directory[Page(v) / ENTRIES].flags == flags
      ensures forall i :: 0 <= i < ENTRIES && (!ok || i != Page(v) / ENTRIES) ==> directory[i] == old(directory[i])
      ensures ok ==>
                Rewalks(old(directory[..]), old(tables), directory[..], tables, Page(v), Some(Entry(true, flags, f)))
      ensures !ok ==> Held() == old(Held()) && SameWalk(old(directory[..]), old(tables), directory[..], tables)
    {
      hide WellFormed, CountTrue, OwnFrames, Frames, Walk, NoneEmpty, Ours, DirIndex, TabIndex, TableTaken;
      ghost var d, t := directory[..], tables;
      var frame := AllocateFrame();
      f := frame;
      if frame == 0 {
        return false, f;
      }
      ok := MapPage(v, frame * PAGE, Entry(true, flags, 0), Entry(true, flags, 0));
      forall q: nat
        ensures Walk(directory[..], tables, q) ==
                  if ok && q == Page(v) then Some(Entry(true, flags, f)) else Walk(d, t, q)
      {
        assert Mapped(q) == if ok && q == Page(v) then Some(Entry(true, flags, f)) else old(Mapped(q));
      }
      if !ok {
        assert free == {} && |old(free)| == 1;
        FreeFrame(frame * PAGE);
        assert Held() == old(Held());
        return;
      }
      assert Held() == old(Held()) - {f};
      assert Then(old(free) - {f}, old(cached) != 0, free, cached != 0, !d[Page(v) / ENTRIES].present);
    }

    /** `paging_get_physical_address` */
    method GetPhysical(v: nat) returns (ok: bool, phys: nat)
      requires Valid() && v < WORD
      ensures ok <==> Mapped(Page(v)).Some?
      ensures ok ==> Mapped(Page(v)).value.frame == Page(phys) && phys % PAGE == v % PAGE
    {
      hide CountTrue, OwnFrames, Frames, NoneEmpty, DirIndex, TabIndex;
      IndicesSplitPage(v);
      var i, k := DirIndex(v), TabIndex(v);
      if !directory[i].present {
        return false, 0;
      }
      var e := tables[directory[i].frame][k];
      if !e.present {
        return false, 0;
      }
      return true, e.frame * PAGE + v % PAGE;
    }

    /** `paging_is_page_table_empty` */
    method TableEmpty(t: seq<Entry>) returns (empty: bool)
      ensures empty <==> !InUse(t)
    {
      var k := 0;
      while k < |t|
        invariant k <= |t| && forall j :: 0 <= j < k ==> !t[j].present
      {
        if t[k].present {
          return false;
        }
        k := k + 1;
      }
      return true;
    }

    /** The run-time table of directory entry `i` goes back to the page allocator. */
    method DropTable(i: nat)
      requires Shape() && i < ENTRIES && owned[i] && NoneEmptyBut(directory[..], tables, owned[..], i)
      requires directory[i].present && directory[i].frame in tables && !InUse(tables[directory[i].frame])
      modifies this`free, this`ownedCount, directory, owned
      ensures Valid() && Held() == old(Held()) && forall q :: Mapped(q) == old(Mapped(q))
      ensures directory[..] == old(directory[..])[i := Entry(false, 0, 0)] && owned[..] == old(owned[..])[i := false]
      ensures free == old(free) + {old(directory[i]).frame}
    {
      hide WellFormed, CountTrue, OwnFrames, Frames, Walk, NoneEmpty, NoneEmptyBut, InUse;
      ghost var d, o, e := directory[..], owned[..], Entry(false, 0, 0);
      forall q ensures Walk(d[i := e], tables, q) == Walk(d, tables, q) { DropUnused(d, tables, i, e, q); }
      DropWellFormed(d, tables, i, e);
      FramesDrop(d, tables, o, cached, free, managed, i, e);
      CountSet(o, i, false);
      DropNoneEmpty(d, tables, o, i, e);
      var f := directory[i].frame;
      directory[i] := Entry(false, 0, 0);
      owned[i] := false;
      if ownedCount > 0 {
        ownedCount := ownedCount - 1;
      }
      free := free + {f};
      assert directory[..] == d[i := e] && owned[..] == o[i := false];
    }

    /** `paging_unmap_page`: one page is gone, and with it its table, exactly when that was
        made at run time and holds no other page. */
    method UnmapPage(v: nat) returns (ok: bool)
      requires Valid() && v < WORD
      modifies this`tables, this`free, this`ownedCount, directory, owned
      ensures Valid() && Held() == old(Held()) && (ok <==> old(Mapped(Page(v))).Some?)
      ensures forall q :: Mapped(q) == if q == Page(v) then None else old(Mapped(q))
      ensures Rewalks(old(directory[..]), old(tables), directory[..], tables, Page(v), None)
      ensures var i := Page(v) / ENTRIES;
              if ok && old(owned[i]) && NoOther(old(directory[..]), old(tables), i, Page(v)) then
                && directory[..] == old(directory[..])[i := Entry(false, 0, 0)]
                && owned[..] == old(owned[..])[i := false] && free == old(free) + {old(directory[i]).frame}
              else directory[..] == old(directory[..]) && owned[..] == old(owned[..]) && free == old(free)
    {
      hide CountTrue, OwnFrames, Frames, NoneEmpty, NoneEmptyBut, DirIndex, TabIndex;
      IndicesSplitPage(v);
      var i, k := DirIndex(v), TabIndex(v);
      if !directory[i].present {
        return false;
      }
      if !tables[directory[i].frame][k].present {
        return false;
      }
      hide WellFormed, Walk;
      ButOne(directory[..], tables, owned[..], i);
      ghost var d, t, o := directory[..], tables, owned[..];
      WriteEntry(i, k, Entry(false, 0, 0));
      forall q: nat ensures Walk(d, tables, q) == if q == Page(v) then None else Walk(d, t, q) {
        assert Mapped(q) == if q == Page(v) then None else old(Mapped(q));
      }
      LastOfTable(d, t, tables, i, Page(v));
      hide NoOther;
      var empty := TableEmpty(tables[directory[i].frame]);
      if owned[i] && empty {
        DropTable(i);
      } else {
        AllButOne(directory[..], tables, owned[..], i);
      }
      forall q: nat
        ensures Walk(directory[..], tables, q) ==
                  if q == Page(v) then None else Walk(old(directory[..]), old(tables), q)
      {
        assert Mapped(q) == if q == Page(v) then None else old(Mapped(q));
      }
      return true;
    }
  }

  lemma ButOne(d: seq<Entry>, t: Tables, owned: seq<bool>, i: nat)
    requires NoneEmpty(d, t, owned)
    ensures NoneEmptyBut(d, t, owned, i)
  {}

  lemma AllButOne(d: seq<Entry>, t: Tables, owned: seq<bool>, i: nat)
    requires NoneEmptyBut(d, t, owned, i) && i < |d| == |owned|
    ensures (owned[i] ==> d[i].frame in t && InUse(t[d[i].frame])) ==> NoneEmpty(d, t, owned)
  {}

  lemma DropUnused(d: seq<Entry>, t: Tables, i: nat, e: Entry, q: nat)
    requires WellFormed(d, t) && i < ENTRIES && d[i].present && !e.present && !InUse(t[d[i].frame])
    ensures Walk(d[i := e], t, q) == Walk(d, t, q)
  {
    WalkDrop(d, t, i, e, q);
  }

  lemma DropNoneEmpty(d: seq<Entry>, t: Tables, owned: seq<bool>, i: nat, e: Entry)
    requires NoneEmptyBut(d, t, owned, i) && i < |d| == |owned|
    ensures NoneEmpty(d[i := e], t, owned[i := false])
  {}

  lemma InstallNoneEmpty(d: seq<Entry>, t: Tables, owned: seq<bool>, cached: nat, free: set<nat>, managed: set<nat>,
                         i: nat, k: nat, e: Entry)
    requires WellFormed(d, t) && Frames(d, owned, cached, free, managed) && NoneEmptyBut(d, t, owned, i)
    requires i < ENTRIES && k < ENTRIES && d[i].present
    ensures d[i].frame in t && |t[d[i].frame]| == ENTRIES
    ensures var t' := t[d[i].frame := t[d[i].frame][k := e]];
            NoneEmptyBut(d, t', owned, i) && (e.present ==> NoneEmpty(d, t', owned))
  {
    hide InUse, OwnFrames;
    var t' := t[d[i].frame := t[d[i].frame][k := e]];
    forall j | 0 <= j < ENTRIES && j != i && owned[j] ensures d[j].frame in t' && t'[d[j].frame] == t[d[j].frame] {
      assert d[j].present;
    }
    if e.present { HasOne(t'[d[i].frame], k); }
  }

  lemma HasOne(t: seq<Entry>, k: nat)
    requires k < |t| && t[k].present
    ensures InUse(t)
  {}

  /** Every run-time table but number `i` holds something. */
  ghost predicate NoneEmptyBut(d: seq<Entry>, t: Tables, owned: seq<bool>, i: nat)
  {
    forall j :: 0 <= j < |owned| && j < |d| && j != i && owned[j] ==> d[j].frame in t && InUse(t[d[j].frame])
  }

  lemma CreateNoneEmpty(d: seq<Entry>, t: Tables, owned: seq<bool>, i: nat, e: Entry, zeros: seq<Entry>)
    requires NoneEmpty(d, t, owned) && i < |d| == |owned| == ENTRIES
    requires forall j :: 0 <= j < ENTRIES && d[j].present ==> d[j].frame != e.frame
    requires forall j :: 0 <= j < ENTRIES && owned[j] ==> d[j].present
    ensures NoneEmptyBut(d[i := e], t[e.frame := zeros], owned[i := true], i)
  {}
}
