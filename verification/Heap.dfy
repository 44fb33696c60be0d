/** The server heap of kernel/kernel/memory/heap.c, in the build with poisoning (the only
    one that writes the canary `kfree` tests): an address-ordered first-fit list with
    coalescing that feeds batch-refilled size-class lists, one set per domain.

    The page allocator is the set of pages it can still hand out; the virtual memory
    manager's reply to a large request is a parameter. */
module Heap {
  import opened Bits
  import opened HeapSpace
  import opened HeapState
  import opened HeapCoalesce
  import opened HeapLedger
  import opened HeapSizes
  import opened Sequences

  class KernelHeap {
    var mem: Memory
    var freeHead: nat
    var smallBlocks: nat
    var smallBytes: nat
    var largeCount: nat
    var rejectedFrees: nat
    var doubleFrees: nat
    var heads: seq<nat>
    var counts: seq<nat>
    var refillAttempts: seq<nat>
    var pages: set<nat>
    ghost var m: Space
    ghost var fl: seq<nat>
    ghost var classes: seq<seq<nat>>
    ghost var cut: seq<nat>       // blocks ever cut for each size-class list
    ghost var refills: seq<nat>   // batches ever cut for each size-class list
    ghost var batches: nat        // all batches
    ghost var grown: nat          // pages taken from the page allocator
    ghost var lost: nat           // bytes that left the books for good

    ghost function S(): State
      reads this`mem, this`freeHead, this`heads, this`m, this`fl, this`classes
    {
      State(mem, freeHead, heads, m, fl, classes)
    }

    /** Lists and headers agree, and the two free-list counters are its length and bytes. */
    ghost predicate Listed()
      reads this`mem, this`freeHead, this`heads, this`m, this`fl, this`classes, this`smallBlocks, this`smallBytes
    {
      Sound(S()) && smallBlocks == |fl| && smallBytes == Bytes(m, fl)
    }

    ghost predicate Counted()
      reads this`classes, this`counts
    {
      |counts| == |classes| == LISTS && forall k :: 0 <= k < LISTS ==> counts[k] == |classes[k]|
    }

    /** Every page the heap took is in its blocks, but for `owed` bytes and the lost ones. */
    ghost predicate Ledger(owed: nat)
      reads this`m, this`pages, this`cut, this`largeCount, this`grown, this`lost
    {
      PagesOk(pages, m) && owed + lost <= PAGE * grown && Books(m, cut, largeCount, PAGE * grown - lost - owed)
    }

    /** Each size-class list was cut in fours, and a batch loses fewer than 32 bytes. */
    ghost predicate Batched()
      reads this`cut, this`refills, this`refillAttempts, this`lost, this`batches
    {
      && |cut| == |refills| == |refillAttempts| == LISTS && lost <= 24 * batches
      && (forall k :: 0 <= k < LISTS ==> cut[k] == 4 * refills[k] && refills[k] <= refillAttempts[k])
    }

    ghost predicate Valid()
      reads this
    {
      Listed() && Counted() && Batched() && Ledger(0)
    }

    /** The bytes [lo, hi) are nobody's for the moment. */
    ghost predicate Owing(lo: nat, hi: nat)
      requires lo <= hi
      reads this
    {
      Listed() && Counted() && Batched() && Ledger(hi - lo) && Gap(m, lo, hi) && Clear(pages, lo, hi)
    }

    /** `kernel_heap_initialize` over the pages the page allocator holds. */
    constructor (pages: set<nat>)
      requires PagesOk(pages, map[])
      ensures Valid() && m == map[] && fl == [] && this.pages == pages
      ensures rejectedFrees == 0 && doubleFrees == 0 && grown == 0 && lost == 0
      ensures |classes| == LISTS && forall k :: 0 <= k < LISTS ==> classes[k] == []
    {
      mem, freeHead, smallBlocks, smallBytes, largeCount, rejectedFrees, doubleFrees := map[], 0, 0, 0, 0, 0, 0;
      heads, counts, refillAttempts := seq(LISTS, i => 0), seq(LISTS, i => 0), seq(LISTS, i => 0);
      this.pages := pages;
      m, fl, classes := map[], [], seq(LISTS, i => []);
      cut, refills, batches, grown, lost := seq(LISTS, i => 0), seq(LISTS, i => 0), 0, 0, 0;
      new;
      EmptyBooks();
    }

    /** In every reachable state: blocks of all three kinds keep clear of each other. */
    lemma NeverOverlap(a: nat, b: nat)
      requires Valid() && a in m && b in m && a < b
      ensures a + m[a].size <= b
    {
      hide Headers, FreeOk, ClassesOk;
    }

    /** For each domain and class, the blocks waiting and the blocks out are four per refill. */
    lemma ClassBalance(k: nat)
      requires Valid() && k < LISTS
      ensures k < |classes| && k < |counts| && k < |refills|
      ensures counts[k] == |classes[k]| && |classes[k]| + |LiveOf(m, k)| == 4 * refills[k]
    {
      hide Sound, Books, PagesOk, LiveOf, Bytes;
      PiecesSplit(S(), cut, largeCount, PAGE * grown - lost, k);
    }

    /** Every byte taken from the page allocator is in some block, but for what batches lost. */
    lemma BytesBalance()
      requires Valid()
      ensures Mass(m) + lost == PAGE * grown && lost <= 24 * batches
    {
      hide Listed, Counted, PagesOk, Mass;
    }

    /** The walk of `kernel_heap_add_free_block`: the last free block below `a`. */
    method LastBelow(a: nat) returns (current: nat, ghost i: nat)
      requires Sound(S()) && freeHead != 0 && freeHead < a
      ensures i < |fl| && current == fl[i] && fl[i] < a && (i + 1 < |fl| ==> a <= fl[i + 1])
      ensures current in mem && mem[current].next == Nth(fl, i + 1)
    {
      hide Sound;
      FreeHeadFacts(S());
      current, i := freeHead, 0;
      FreeAt(S(), 0);
      while mem[current].next != 0 && mem[current].next < a
        invariant i < |fl| && current == fl[i] && fl[i] < a && current in mem && mem[current].next == Nth(fl, i + 1)
        decreases |fl| - i
      {
        current := mem[current].next;
        i := i + 1;
        FreeAt(S(), i);
      }
      if i + 1 < |fl| { FreeAt(S(), i + 1); }
    }

    /** The linking of `kernel_heap_add_free_block`. */
    method LinkFree(a: nat) returns (ghost i: nat)
      requires Sound(S()) && a in mem && a !in fl
      modifies this`mem, this`freeHead
      ensures i == Rank(fl, a) && freeHead == if i == 0 then a else old(freeHead)
      ensures Touches(old(mem), mem, a, if i > 0 then fl[i - 1] else a) && mem.Keys == old(mem.Keys)
      ensures mem[a] == old(mem[a]).(magic := MAGIC, flags := FREE, order := 0, next := Nth(fl, i))
      ensures i > 0 ==> fl[i - 1] in mem && mem[fl[i - 1]].next == a
    {
      hide Sound, Rank, Ascending;
      FreeHeadFacts(S());
      i := 0;
      if freeHead == 0 || a < freeHead {
        RankIs(fl, a, 0);
        mem := mem[a := mem[a].(magic := MAGIC, flags := FREE, order := 0, next := freeHead)];
        freeHead := a;
      } else {
        FreeAt(S(), 0);
        var current: nat;
        current, i := LastBelow(a);
        i := i + 1;
        RankIs(fl, a, i);
        mem := mem[a := mem[a].(magic := MAGIC, flags := FREE, order := 0, next := mem[current].next)];
        mem := mem[current := mem[current].(next := a)];
      }
    }

    /** `kernel_heap_add_free_block` */
    method AddFreeBlock(a: nat)
      requires Listed() && a in mem && Shaped(a, Blk(mem[a].size, InFree)) && (a in m ==> m[a].role.Live?)
      requires Apart(m[a := Blk(mem[a].size, InFree)])
      modifies this`mem, this`freeHead, this`smallBlocks, this`smallBytes, this`m, this`fl
      ensures Listed()
      ensures m == old(m)[a := Blk(old(mem[a].size), InFree)]
      ensures fl == InsertAt(old(fl), Rank(old(fl), a), a)
      ensures smallBlocks == old(smallBlocks) + 1 && smallBytes == old(smallBytes) + old(mem[a].size)
      ensures mem.Keys == old(mem.Keys)
    {
      hide Sound, Shaped, Apart, Rank, Bytes, InsertAt, Marked, Touches;
      ghost var s, b := S(), Blk(mem[a].size, InFree);
      FreeNotListed(s, a);
      ghost var i := LinkFree(a);
      fl := InsertAt(fl, i, a);
      m := m[a := b];
      smallBlocks := smallBlocks + 1;
      smallBytes := smallBytes + mem[a].size;
      FreedMark(mem[a]);
      AddFreeSound(s, S(), a, b, i);
      AddFreeBytes(s.m, s.fl, a, b, i);
    }

    /** `kernel_heap_merge_adjacent_blocks` */
    method MergeAdjacent(left: nat, ghost i: nat) returns (merged: bool)
      requires Listed() && (left != 0 ==> i < |fl| && left == fl[i])
      modifies this`mem, this`smallBlocks, this`m, this`fl
      ensures Listed() && smallBytes == old(smallBytes) && mem.Keys == old(mem.Keys)
      ensures merged <==> left != 0 && Touching(old(m), old(fl), i)
      ensures !merged ==> m == old(m) && fl == old(fl) && mem == old(mem)
      ensures merged ==>
                i + 1 < |old(fl)| && m == Fused(old(m), old(fl)[i], old(fl)[i + 1]) && fl == RemoveAt(old(fl), i + 1)
    {
      hide Sound, Bytes, RemoveAt;
      if left == 0 {
        return false;
      }
      ghost var s := S();
      FreeAt(s, i);
      if mem[left].next == 0 {
        return false;
      }
      FreeAt(s, i + 1);
      if left + mem[left].size != mem[left].next {
        return false;
      }
      var next := mem[left].next;
      mem := mem[left := mem[left].(size := mem[left].size + mem[next].size, next := mem[next].next)];
      m := Fused(m, fl[i], fl[i + 1]);
      fl := RemoveAt(fl, i + 1);
      smallBlocks := smallBlocks - 1;
      MergeSound(s, S(), i);
      FusedBytes(s, i);
      return true;
    }

    /** The repeated merge of `kernel_heap_coalesce_around` at one block. */
    method MergeRun(left: nat, ghost i: nat)
      requires Listed() && left != 0 && i < |fl| && left == fl[i]
      modifies this`mem, this`smallBlocks, this`m, this`fl
      ensures Listed() && smallBytes == old(smallBytes) && mem.Keys == old(mem.Keys)
      ensures Free(m, fl) == Settle(Free(old(m), old(fl)), i)
    {
      hide Sound, Bytes, Fused, RemoveAt;
      var merged := true;
      while merged
        invariant Listed() && smallBytes == old(smallBytes) && mem.Keys == old(mem.Keys)
        invariant i < |fl| && left == fl[i] && Settle(Free(m, fl), i) == Settle(Free(old(m), old(fl)), i)
        invariant !merged ==> !Touching(m, fl, i)
        decreases |fl|, merged
      {
        ghost var s := S();
        FreeAt(s, i);
        if i + 1 < |fl| { FreeAt(s, i + 1); }
        merged := MergeAdjacent(left, i);
        if merged { RemoveKeeps(s.fl, i); }
      }
    }

    /** The walk of `kernel_heap_coalesce_around` to the predecessor of `block`. */
    method FindPrev(block: nat, ghost i: nat) returns (prev: nat)
      requires Sound(S()) && i < |fl| && fl[i] == block
      ensures prev == if i == 0 then 0 else fl[i - 1]
    {
      hide Sound, Ascending;
      FreeHeadFacts(S());
      prev := 0;
      var current := freeHead;
      ghost var j := 0;
      while current != 0 && current != block
        invariant j <= i && current == fl[j] && prev == if j == 0 then 0 else fl[j - 1]
        decreases i - j
      {
        FreeAt(S(), j);
        AscendingDistinct(fl);
        prev := current;
        current := mem[current].next;
        j := j + 1;
      }
      FreeAt(S(), j);
      AscendingDistinct(fl);
      assert j == i;
    }

    /** `kernel_heap_coalesce_around` */
    method CoalesceAround(block: nat, ghost i: nat)
      requires Listed() && block != 0 && i < |fl| && fl[i] == block
      modifies this`mem, this`smallBlocks, this`m, this`fl
      ensures Listed() && smallBytes == old(smallBytes) && mem.Keys == old(mem.Keys)
      ensures Free(m, fl) == Around(Free(old(m), old(fl)), i)
    {
      hide Sound, Bytes, Settle;
      FreeWfOf(S());
      SettleKeeps(Free(m, fl), i);
      MergeRun(block, i);
      var prev := FindPrev(block, i);
      if prev == 0 {
        if i > 0 { FreeAt(S(), i - 1); }
        return;
      }
      MergeRun(prev, i - 1);
    }

    /** A header is written where there was none, and its block joins the free list; the
        canary field keeps whatever the memory held. */
    method PlaceFree(a: nat, size: nat)
      requires Listed() && a !in m && Shaped(a, Blk(size, InFree)) && Apart(m[a := Blk(size, InFree)])
      modifies this`mem, this`freeHead, this`smallBlocks, this`smallBytes, this`m, this`fl
      ensures Listed() && m == old(m)[a := Blk(size, InFree)] && smallBytes == old(smallBytes) + size
    {
      hide Sound, Rank, Bytes, InsertAt, Apart, Shaped;
      ghost var s := S();
      var canary: nat := *;
      mem := mem[a := Header(size, MAGIC, 0, 0, 0, canary, 0)];
      UntrackedWriteSound(s, a, mem[a]);
      AddFreeBlock(a);
    }

    /** `kernel_heap_grow_small_pool` */
    method GrowSmallPool() returns (ok: bool, ghost p: nat)
      requires Valid()
      modifies this`mem, this`freeHead, this`smallBlocks, this`smallBytes, this`m, this`fl, this`pages, this`grown
      ensures Valid() && (ok <==> old(pages) != {})
      ensures !ok ==> m == old(m) && fl == old(fl) && pages == old(pages)
      ensures ok ==> p in old(pages) && p !in old(m) && pages == old(pages) - {p} && m == old(m)[p := Blk(PAGE, InFree)]
    {
      hide Sound, Rank, Bytes, InsertAt, Apart, Gap, Clear, PagesOk, Books, Shaped;
      p := 0;
      if pages == {} {
        return false, p;
      }
      var page :| page in pages;
      GrowthBooks(S(), pages, cut, largeCount, PAGE * grown - lost, page);
      pages := pages - {page};
      grown := grown + 1;
      PlaceFree(page, PAGE);
      return true, page;
    }

    /** The inner walk of first fit: the first block of the list that is large enough. */
    method Scan(total: nat) returns (prev: nat, current: nat, ghost i: nat)
      requires Sound(S())
      ensures NoneBefore(m, fl, i, total) && i <= |fl| && (current == 0 <==> i == |fl|)
      ensures i < |fl| ==> Fits(m, fl, i, total) && current == fl[i] && prev == if i == 0 then 0 else fl[i - 1]
    {
      hide Sound;
      FreeHeadFacts(S());
      prev, current, i := 0, freeHead, 0;
      while current != 0
        invariant i <= |fl| && current == Nth(fl, i) && NoneBefore(m, fl, i, total)
        invariant i < |fl| ==> prev == if i == 0 then 0 else fl[i - 1]
        decreases |fl| - i
      {
        if i < |fl| { FreeAt(S(), i); }
        if mem[current].size >= total {
          return;
        }
        prev := current;
        current := mem[current].next;
        i := i + 1;
      }
      if i < |fl| { FreeAt(S(), i); }
    }

    /** First fit with growth: the lowest block that is large enough, growing the pool a
        page at a time while there is none.  It fails exactly when nothing fits and no page
        is left, or none would be large enough. */
    method FindFit(total: nat) returns (prev: nat, current: nat, ghost i: nat)
      requires Valid()
      modifies this`mem, this`freeHead, this`smallBlocks, this`smallBytes, this`m, this`fl, this`pages, this`grown
      ensures Valid() && Grown(old(m), m, old(pages), pages)
      ensures NoneBefore(m, fl, i, total) && i <= |fl| && (current == 0 <==> i == |fl|)
      ensures i < |fl| ==> Fits(m, fl, i, total) && current == fl[i] && prev == if i == 0 then 0 else fl[i - 1]
      ensures current == 0 ==> pages == {}
      ensures current == 0 <==> !HasFit(old(m), old(fl), total) && (total > PAGE || old(pages) == {})
      ensures current != 0 ==> current in m && Served(old(m), old(fl), old(pages), total, current, m[current].size)
      ensures current != 0 ==> m == Stock(old(m), current)
      ensures HasFit(old(m), old(fl), total) ==> pages == old(pages)
      ensures current != 0 && !HasFit(old(m), old(fl), total) ==> pages == old(pages) - {current}
    {
      hide Sound, Bytes, Books, PagesOk, Grown, NoneBefore, Counted, Batched, Ledger, HasFit, LowestFit;
      GrownRefl(m, pages);
      ghost var s0, page: nat := S(), 0;
      while true
        invariant Valid() && Grown(old(m), m, old(pages), pages)
        invariant HasFit(old(m), old(fl), total) ==> m == old(m) && pages == old(pages) && fl == old(fl)
        invariant total <= PAGE ==> OneGrown(s0, S(), old(pages), pages, page)
        decreases |pages|
      {
        prev, current, i := Scan(total);
        if current != 0 {
          FitMeans(s0, S(), old(pages), pages, total, page, i);
          return;
        }
        NothingFits(s0, S(), old(pages), pages, total, page);
        ghost var m0, pages0 := m, pages;
        var ok: bool;
        ghost var p: nat;
        ok, p := GrowSmallPool();
        if !ok {
          return;
        }
        page := p;
        GrownStep(old(m), m0, old(pages), pages0, p);
      }
    }

    /** Unlinking the chosen block. */
    method Unlink(prev: nat, current: nat, ghost i: nat) returns (size: nat)
      requires Listed() && i < |fl| && current == fl[i] && prev == if i == 0 then 0 else fl[i - 1]
      modifies this`mem, this`freeHead, this`smallBlocks, this`smallBytes, this`m, this`fl
      ensures current in old(m) && size == old(m)[current].size && Gap(m, current, current + size)
      ensures Listed() && m == old(m) - {current} && fl == RemoveAt(old(fl), i) && smallBytes + size == old(smallBytes)
    {
      hide Sound, Bytes, RemoveAt, Gap;
      ghost var s := S();
      FreeAt(s, i);
      if i > 0 { FreeAt(s, i - 1); }
      TakeFreeBytes(s, i);
      var next := mem[current].next;
      if prev != 0 {
        mem := mem[prev := mem[prev].(next := next)];
      } else {
        freeHead := next;
      }
      size := mem[current].size;
      smallBlocks := smallBlocks - 1;
      smallBytes := smallBytes - size;
      m := m - {current};
      fl := RemoveAt(fl, i);
      TakeFreeSound(s, S(), i);
    }

    /** The chosen block leaves the free list; its bytes are owed. */
    method TakeFit(prev: nat, current: nat, ghost i: nat) returns (size: nat)
      requires Valid() && i < |fl| && current == fl[i] && prev == if i == 0 then 0 else fl[i - 1]
      modifies this`mem, this`freeHead, this`smallBlocks, this`smallBytes, this`m, this`fl
      ensures current in old(m) && size == old(m)[current].size && Shaped(current, Blk(size, InFree))
      ensures Owing(current, current + size) && m == old(m) - {current} && smallBytes + size == old(smallBytes)
    {
      hide Sound, Bytes, RemoveAt, Gap, Clear, PagesOk, Books;
      FreeAt(S(), i);
      FreeShape(S(), current);
      BooksDrop(m, cut, largeCount, PAGE * grown - lost, current);
      PagesDrop(pages, m, current);
      size := Unlink(prev, current, i);
    }

    /** The tail split of `kmalloc`. */
    method SplitTail(a: nat, size: nat, total: nat) returns (kept: nat)
      requires a > 0 && a % 8 == 0 && size % 8 == 0 && total % 8 == 0 && HEADER < total <= size && Owing(a, a + size)
      modifies this`mem, this`freeHead, this`smallBlocks, this`smallBytes, this`m, this`fl
      ensures kept == (if size - total >= 32 then total else size) && Owing(a, a + kept)
      ensures m == if kept == size then old(m) else old(m)[a + total := Blk(size - total, InFree)]
      ensures kept != size ==> a + total !in old(m)
    {
      hide Sound, Bytes, Rank, InsertAt, Apart, Gap, Clear, PagesOk, Books, CutBy, IsLarge, Weight, Shaped;
      if size - total < MIN_SPLIT {
        return size;
      }
      var tail, rest := a + total, size - total;
      TailShaped(a, size, total);
      ghost var s, b := S(), Blk(rest, InFree);
      SoundApart(s);
      AddInGap(m, tail, b, a, a + size);
      ClearPart(pages, a, a + size, tail, a + size);
      ClearPart(pages, a, a + size, a, tail);
      BooksAddFree(m, cut, largeCount, PAGE * grown - lost - size, tail, rest);
      PagesAdd(pages, m, tail, b);
      PlaceFree(tail, rest);
      return total;
    }

    /** A header is written in a gap, and its block is live. */
    method PlaceLive(a: nat, h: Header, ghost b: Blk)
      requires Listed() && b.role.Live? && Shaped(a, b) && Marked(h, b) && Gap(m, a, a + b.size)
      modifies this`mem, this`m
      ensures Listed() && a !in old(m) && m == old(m)[a := b]
    {
      hide Sound, Bytes, Gap, Shaped, Marked;
      ghost var s := S();
      mem := mem[a := h];
      m := m[a := b];
      HandOutSound(s, S(), a, b);
      FreeBytesKept(s, a, b);
    }

    /** The owed bytes become a live block of their own size. */
    method HandPlain(a: nat, kept: nat)
      requires Shaped(a, Blk(kept, Live(Plain))) && Owing(a, a + kept)
      modifies this`mem, this`m
      ensures Valid() && a !in old(m) && m == old(m)[a := Blk(kept, Live(Plain))]
    {
      hide Listed, Gap, Clear, PagesOk, Books, Shaped, Canary;
      ghost var m0, b := m, Blk(kept, Live(Plain));
      var owner: nat := *;
      PlaceLive(a, Header(kept, MAGIC, 0, 0, owner, Canary(kept), 0), b);
      BooksAdd(m0, cut, largeCount, PAGE * grown - lost - kept, a, b);
      PagesAdd(pages, m0, a, b);
    }

    /** A new block in a gap goes on size-class list `k`. */
    method PushFresh(a: nat, k: nat)
      requires k < LISTS && Listed() && Counted()
      requires Shaped(a, Blk(Full(k), InClass(k))) && Gap(m, a, a + Full(k))
      modifies this`mem, this`heads, this`counts, this`m, this`classes
      ensures Listed() && Counted() && a !in old(m) && m == old(m)[a := Blk(Full(k), InClass(k))]
      ensures classes == old(classes)[k := [a] + old(classes)[k]]
    {
      hide Sound, Bytes, Gap, Shaped, Full, Apart;
      ghost var s, b := S(), Blk(Full(k), InClass(k));
      SoundLists(s);
      SoundApart(s);
      AddInGap(m, a, b, a, a + Full(k));
      FreeBytesKept(s, a, b);
      var canary: nat := *;
      mem := mem[a := Header(Full(k), MAGIC, SC + FREE, k % CLASS_COUNT, k / CLASS_COUNT, canary, heads[k])];
      heads := heads[k := a];
      counts := counts[k := counts[k] + 1];
      m := m[a := b];
      classes := classes[k := [a] + classes[k]];
      PushClassSound(s, S(), k, a);
    }

    /** One further block of a batch, out of the owed bytes. */
    method CutPiece(a: nat, k: nat, ghost owed: nat)
      requires k < LISTS && Listed() && Counted() && |cut| == LISTS && Ledger(owed + Full(k))
      requires Shaped(a, Blk(Full(k), InClass(k))) && Gap(m, a, a + Full(k)) && Clear(pages, a, a + Full(k))
      modifies this`mem, this`heads, this`counts, this`m, this`classes, this`cut
      ensures Listed() && Counted() && Ledger(owed) && a !in old(m) && m == old(m)[a := Blk(Full(k), InClass(k))]
      ensures classes == old(classes)[k := [a] + old(classes)[k]] && cut == old(cut)[k := old(cut)[k] + 1]
    {
      hide Sound, Bytes, Gap, Clear, PagesOk, Books, Shaped, Full, Listed, Counted;
      ghost var m0 := m;
      PushFresh(a, k);
      BooksAdd(m0, cut, largeCount, PAGE * grown - lost - owed - Full(k), a, m[a]);
      PagesAdd(pages, m0, a, m[a]);
      cut := cut[k := cut[k] + 1];
    }

    /** One block of a batch is cut at the front of the gap [piece, hi), behind the bytes
        [a, a + f) that are kept for the caller. */
    method CutNext(a: nat, piece: nat, hi: nat, k: nat, f: nat, ghost owed: nat)
      requires k < LISTS && f == Full(k) && a + f <= piece && piece + f <= hi && Shaped(piece, Blk(f, InClass(k)))
      requires Listed() && Counted() && |classes| == |cut| == LISTS && Ledger(owed + f) && Clear(pages, piece, hi)
      requires Gap(m, a, a + f) && Gap(m, piece, hi)
      modifies this`mem, this`heads, this`counts, this`m, this`classes, this`cut
      ensures Listed() && Counted() && Ledger(owed) && Gap(m, a, a + f) && Gap(m, piece + f, hi)
      ensures m == old(m)[piece := Blk(f, InClass(k))]
      ensures classes == old(classes)[k := [piece] + old(classes)[k]] && cut == old(cut)[k := old(cut)[k] + 1]
    {
      hide Gap, Clear, PagesOk, Books, Shaped, Full, Listed, Counted, Ledger;
      GapNarrow(m, piece, hi, piece, piece + f);
      GapNarrow(m, piece, hi, piece + f, hi);
      ClearPart(pages, piece, hi, piece, piece + f);
      ghost var m0 := m;
      CutPiece(piece, k, owed);
      GapKeptByAdd(m0, piece, m[piece], a, a + f);
      GapKeptByAdd(m0, piece, m[piece], piece + f, hi);
    }

    /** The loop of the batch: three further blocks behind the one `kmalloc` hands out. */
    method CutPieces(a: nat, kept: nat, k: nat, f: nat)
      requires k < LISTS && f == Full(k) && 4 * f <= kept && Shaped(a, Blk(kept, InFree))
      requires Listed() && Counted() && |cut| == LISTS
      requires Ledger(kept) && Gap(m, a, a + kept) && Clear(pages, a, a + kept)
      modifies this`mem, this`heads, this`counts, this`m, this`classes, this`cut
      ensures Listed() && Counted() && Ledger(kept - 3 * f) && Gap(m, a, a + f)
      ensures m == Batch(old(m), a, k, 4) && classes == Pushed(old(classes), k, Stack(a, f, 4))
      ensures cut == old(cut)[k := old(cut)[k] + 3]
    {
      hide Sound, Gap, Clear, PagesOk, Books, Shaped, Full, Listed, Ledger, Off, Pushed, Batch, Stack;
      assert |classes| == LISTS;
      hide Counted;
      var i := 1;
      OffStep(f, 0);
      PushedNone(classes, k);
      BatchStep(m, a, k, f, 0);
      GapNarrow(m, a, a + kept, a, a + f);
      GapNarrow(m, a, a + kept, a + f, a + kept);
      while i < 4
        invariant 1 <= i <= 4 && f <= Off(f, i) <= 4 * f && Listed() && Counted() && |cut| == LISTS
        invariant Ledger(kept - Off(f, i) + f) && Gap(m, a, a + f) && Gap(m, a + Off(f, i), a + kept)
        invariant m == Batch(old(m), a, k, i) && classes == Pushed(old(classes), k, Stack(a, f, i))
        invariant cut == old(cut)[k := old(cut)[k] + i - 1]
      {
        OffStep(f, i);
        if kept < Off(f, i + 1) {
          break;
        }
        PushedStep(old(classes), k, Stack(a, f, i), a + Off(f, i));
        BatchStep(old(m), a, k, f, i);
        PieceShape(a, kept, k, i);
        ClearPart(pages, a, a + kept, a + Off(f, i), a + kept);
        CutNext(a, a + Off(f, i), a + kept, k, f, kept - Off(f, i));
        i := i + 1;
      }
      OffStep(f, 3);
    }

    /** The batch of `kmalloc`.  What a refused tail split left behind the fourth block
        belongs to no block any more. */
    method CutBatch(a: nat, kept: nat, k: nat)
      requires k < LISTS && 4 * Full(k) <= kept <= 4 * Full(k) + 24
      requires Shaped(a, Blk(kept, InFree)) && Owing(a, a + kept) && refillAttempts[k] > refills[k]
      modifies this`mem, this`heads, this`counts, this`m, this`classes, this`cut, this`refills, this`batches, this`lost
      ensures Valid() && m == Batch(old(m), a, k, 4)[a := Blk(Full(k), Live(OfClass(k)))]
      ensures classes == Pushed(old(classes), k, Stack(a, Full(k), 4))
      ensures refills == old(refills)[k := old(refills)[k] + 1] && lost == old(lost) + kept - 4 * Full(k)
    {
      hide Listed, Gap, Clear, PagesOk, Books, Shaped, Full, Counted, Batch, Canary, Pushed, Stack, Marked;
      hide CutBy, IsLarge, Weight;
      CutPieces(a, kept, k, Full(k));
      ghost var m0, b := m, Blk(Full(k), Live(OfClass(k)));
      var h := Header(Full(k), MAGIC, SC, k % CLASS_COUNT, k / CLASS_COUNT, Canary(Full(k)), 0);
      ClassMark(h, k);
      FirstShape(a, kept, k);
      PlaceLive(a, h, b);
      BooksAddPiece(m0, cut, largeCount, PAGE * grown - lost - (kept - 3 * Full(k)), a, k, Full(k));
      ClearPart(pages, a, a + kept, a, a + Full(k));
      PagesAdd(pages, m0, a, b);
      cut := cut[k := cut[k] + 1];
      refills := refills[k := refills[k] + 1];
      lost := lost + (kept - 4 * Full(k));
      batches := batches + 1;
    }

    /** The head of size-class list `k` is handed out. */
    method PopClass(k: nat) returns (block: nat)
      requires k < LISTS && Valid() && |heads| == |classes| == LISTS && heads[k] != 0
      modifies this`mem, this`heads, this`counts, this`m, this`classes
      ensures Valid() && old(classes)[k] != [] && block == old(classes)[k][0] && block != 0
      ensures block in old(m) && old(m)[block].role == InClass(k)
      ensures m == old(m)[block := Blk(Full(k), Live(OfClass(k)))]
      ensures classes == old(classes)[k := old(classes)[k][1..]]
    {
      hide Sound, Bytes, PagesOk, Books, Full, Canary, Marked, Clear;
      ghost var s, b := S(), Blk(Full(k), Live(OfClass(k)));
      ClassHead(s, k);
      block := heads[k];
      var next := mem[block].next;
      mem := mem[block := Header(Full(k), MAGIC, SC, k % CLASS_COUNT, k / CLASS_COUNT, Canary(Full(k)), 0)];
      heads := heads[k := next];
      counts := counts[k := counts[k] - 1];
      m := m[block := b];
      classes := classes[k := classes[k][1..]];
      ClassMark(mem[block], k);
      PopClassSound(s, S(), k);
      FreeBytesKept(s, block, b);
      BooksRecast(s.m, cut, largeCount, PAGE * grown - lost, block, b);
      PagesDrop(pages, s.m, block);
      PagesAdd(pages, s.m, block, b);
    }

    /** `kernel_heap_server_try_pop_remote_bucket`: another domain whose list has a block,
        domains of the same node first. */
    method FindRemote(local: nat, sc: nat, nodes: seq<nat>) returns (domain: nat)
      requires local < DOMAINS && sc < CLASS_COUNT && |nodes| == DOMAINS && |heads| == LISTS
      ensures domain <= DOMAINS && domain != local
      ensures domain < DOMAINS ==> heads[CLASS_COUNT * domain + sc] != 0
      ensures domain == DOMAINS ==> forall d :: 0 <= d < DOMAINS && d != local ==> heads[CLASS_COUNT * d + sc] == 0
      ensures domain < DOMAINS ==>
                forall d :: 0 <= d < DOMAINS && d != local && heads[CLASS_COUNT * d + sc] != 0 ==>
                  Nearer(nodes, local, domain, d)
    {
      domain := 0;
      while domain < DOMAINS
        invariant domain <= DOMAINS
        invariant forall d :: 0 <= d < domain && d != local && nodes[d] == nodes[local] ==>
                  heads[CLASS_COUNT * d + sc] == 0
      {
        if domain != local && nodes[domain] == nodes[local] && heads[CLASS_COUNT * domain + sc] != 0 {
          return;
        }
        domain := domain + 1;
      }
      domain := 0;
      while domain < DOMAINS
        invariant domain <= DOMAINS
        invariant forall d :: 0 <= d < DOMAINS && d != local && nodes[d] == nodes[local] ==>
                  heads[CLASS_COUNT * d + sc] == 0
        invariant forall d :: 0 <= d < domain && d != local ==> heads[CLASS_COUNT * d + sc] == 0
      {
        if domain != local && nodes[domain] != nodes[local] && heads[CLASS_COUNT * domain + sc] != 0 {
          return;
        }
        domain := domain + 1;
      }
    }

    /** The large path: the reply of the virtual memory manager becomes a live block. */
    method GiveLarge(a: nat, count: nat)
      requires Valid() && count > 0 && VmmReply(pages, m, a, count)
      modifies this`mem, this`m, this`largeCount
      ensures Valid() && a !in old(m) && m == old(m)[a := Blk(count * PAGE, Live(Large(count)))]
    {
      hide Listed, PagesOk, Books, Gap, Clear, Canary, Marked, Shaped;
      ghost var m0, b := m, Blk(count * PAGE, Live(Large(count)));
      var h := Header(count * PAGE, MAGIC, VMM, 0, count % 0x1_0000, Canary(count * PAGE), 0);
      LargeMark(a, h, count);
      PlaceLive(a, h, b);
      BooksAdd(m0, cut, largeCount, PAGE * grown - lost, a, b);
      PagesAdd(pages, m0, a, b);
      largeCount := largeCount + 1;
    }

    /** First fit, unlinking and tail split: the owed bytes a request of `total` gets. */
    method Obtain(total: nat) returns (a: nat, kept: nat, ghost size: nat)
      requires Valid() && total % 8 == 0 && total > HEADER
      modifies this`mem, this`freeHead, this`smallBlocks, this`smallBytes, this`m, this`fl, this`pages, this`grown
      ensures a == 0 ==> Valid() && pages == {} && NoneBefore(m, fl, |fl|, total)
      ensures a != 0 ==> total <= kept < total + MIN_SPLIT && Shaped(a, Blk(kept, InFree)) && Owing(a, a + kept)
      ensures Lives(m) == old(Lives(m)) && a !in Lives(m)
      ensures a == 0 <==> !HasFit(old(m), old(fl), total) && (total > PAGE || old(pages) == {})
      ensures HasFit(old(m), old(fl), total) ==> pages == old(pages)
      ensures a != 0 && !HasFit(old(m), old(fl), total) ==> pages == old(pages) - {a}
      ensures a != 0 ==>
                Served(old(m), old(fl), old(pages), total, a, size) && size >= total && kept == Keep(size, total)
      ensures a != 0 ==> m == Carved(Stock(old(m), a), a, size, total)
    {
      hide Sound, Bytes, PagesOk, Books, Clear, Gap, Grown, Lives, NoneBefore, Counted, Batched, Ledger;
      hide HasFit, Served, Stock;
      var prev: nat, got: nat;
      ghost var i: nat;
      size := 0;
      prev, a, i := FindFit(total);
      LivesGrown(old(m), m, old(pages), pages);
      if a == 0 {
        ZeroUntracked(S());
        return 0, 0, size;
      }
      LivesDrop(m, a);
      FreeAt(S(), i);
      FreeIsNotLive(m, a);
      got := TakeFit(prev, a, i);
      size := got;
      ghost var m1 := m;
      kept := SplitTail(a, got, total);
      if kept != got { LivesOther(m1, a + total, Blk(got - total, InFree)); }
    }

    /** A batch for size-class list `k`, whose first block is handed out. */
    method CutFresh(k: nat) returns (block: nat, ghost size: nat)
      requires k < LISTS && Valid() && |refills| == |refillAttempts| == LISTS && refillAttempts[k] > refills[k]
      modifies this
      ensures Valid() && rejectedFrees == old(rejectedFrees) && doubleFrees == old(doubleFrees)
      ensures refillAttempts == old(refillAttempts)
      ensures block == 0 ==> Lives(m) == old(Lives(m)) && pages == {} && NoneBefore(m, fl, |fl|, 4 * Full(k))
      ensures block == 0 <==> !HasFit(old(m), old(fl), 4 * Full(k)) && old(pages) == {}
      ensures block != 0 ==> block % 8 == 0 && block > 0
      ensures block != 0 ==> block !in old(Lives(m))
      ensures block != 0 ==> Lives(m) == old(Lives(m))[block := Blk(Full(k), Live(OfClass(k)))]
      ensures block != 0 ==> classes == Pushed(old(classes), k, Stack(block, Full(k), 4))
      ensures HasFit(old(m), old(fl), 4 * Full(k)) ==> LowestFit(old(m), old(fl), 4 * Full(k), block)
      ensures lost == old(lost) + Slack(old(m), old(fl), 4 * Full(k))
      ensures block != 0 ==> CutOut(old(m), old(fl), old(pages), k, block, size, m, pages)
    {
      hide CutOut;
      hide Sound, Bytes, PagesOk, Books, Clear, Gap, Lives, NoneBefore, Counted, Ledger, Batched, Batch, Pushed, Stack;
      hide HasFit, LowestFit, Full, Shaped, Slack, Stock, Carved, Served, Keep;
      FourFull(k);
      var kept: nat;
      block, kept, size := Obtain(4 * Full(k));
      if block != 0 {
        ghost var m1 := m;
        ShapeAligned(block, kept);
        BatchLives(S(), block, kept, k);
        SlackIs(old(m), old(fl), old(pages), 4 * Full(k), block, size, kept);
        CutBatch(block, kept, k);
        LivesAdd(Batch(m1, block, k, 4), block, Blk(Full(k), Live(OfClass(k))));
        CutOutIs(old(m), old(fl), old(pages), k, block, size, m, pages);
      } else {
        NoSlack(old(m), old(fl), 4 * Full(k));
      }
    }

    /** A refill is counted before it is tried. */
    method Refill(k: nat) returns (block: nat, ghost size: nat)
      requires k < LISTS && Valid()
      modifies this
      ensures Valid() && rejectedFrees == old(rejectedFrees) && doubleFrees == old(doubleFrees)
      ensures block == 0 ==> Lives(m) == old(Lives(m)) && pages == {} && NoneBefore(m, fl, |fl|, 4 * Full(k))
      ensures block == 0 <==> !HasFit(old(m), old(fl), 4 * Full(k)) && old(pages) == {}
      ensures block != 0 ==> block % 8 == 0 && block > 0
      ensures block != 0 ==> block !in old(Lives(m))
      ensures block != 0 ==> Lives(m) == old(Lives(m))[block := Blk(Full(k), Live(OfClass(k)))]
      ensures block != 0 ==> classes == Pushed(old(classes), k, Stack(block, Full(k), 4))
      ensures HasFit(old(m), old(fl), 4 * Full(k)) ==> LowestFit(old(m), old(fl), 4 * Full(k), block)
      ensures refillAttempts == old(refillAttempts)[k := old(refillAttempts)[k] + 1]
      ensures lost == old(lost) + Slack(old(m), old(fl), 4 * Full(k))
      ensures block != 0 ==> CutOut(old(m), old(fl), old(pages), k, block, size, m, pages)
    {
      hide Listed, Lives, NoneBefore, Counted, Ledger, Pushed, Stack, Full, HasFit, LowestFit, Slack, CutOut;
      refillAttempts := refillAttempts[k := refillAttempts[k] + 1];
      block, size := CutFresh(k);
    }

    /** A block of class `sc`: from the local list, else from another domain's, else from
        a batch cut for the local list. */
    method FromClass(sc: nat, local: nat, nodes: seq<nat>) returns (block: nat, ghost k: nat)
      requires sc < CLASS_COUNT && local < DOMAINS && |nodes| == DOMAINS && Valid()
      modifies this
      ensures Valid() && rejectedFrees == old(rejectedFrees) && doubleFrees == old(doubleFrees)
      ensures block == 0 ==> Lives(m) == old(Lives(m)) && pages == {} && NoneBefore(m, fl, |fl|, 4 * Full(sc))
      ensures k < LISTS && k % CLASS_COUNT == sc
      ensures block != 0 ==>
                block !in old(Lives(m)) && Lives(m) == old(Lives(m))[block := Blk(Full(k), Live(OfClass(k)))]
      ensures block != 0 ==> block % 8 == 0
      ensures block == 0 ==> forall d :: 0 <= d < DOMAINS ==> ListAt(old(classes), d, sc) == []
      ensures ListAt(old(classes), local, sc) != [] ==>
                k == CLASS_COUNT * local + sc && block == ListAt(old(classes), local, sc)[0]
      ensures block != 0 && k != CLASS_COUNT * local + sc ==>
                ListAt(old(classes), local, sc) == [] && old(classes)[k] != [] && block == old(classes)[k][0]
      ensures lost == old(lost) + if AllEmpty(old(classes), sc) then Slack(old(m), old(fl), 4 * Full(sc)) else 0
      ensures block == 0 <==> AllEmpty(old(classes), sc) && !HasFit(old(m), old(fl), 4 * Full(sc)) && old(pages) == {}
      ensures !AllEmpty(old(classes), sc) ==>
                && fl == old(fl) && pages == old(pages)
                && FromWaiting(old(classes), classes, nodes, local, sc, block)
      ensures AllEmpty(old(classes), sc) && block != 0 ==>
                && NewBatch(old(classes), classes, local, sc, block, Full(sc))
                && Refilled(old(m), old(fl), old(pages), sc, block, m, pages)
    {
      hide Sound, Bytes, PagesOk, Books, Lives, NoneBefore, Counted, Ledger, Full, Pushed, Stack, Slack, HasFit, CutOut;
      hide FromWaiting, NewBatch, Nearer, Refilled;
      ghost var s := S();
      ClassIndex(local, sc);
      ClassHead(s, CLASS_COUNT * local + sc);
      k := CLASS_COUNT * local + sc;
      var domain := local;
      if heads[CLASS_COUNT * local + sc] == 0 {
        domain := FindRemote(local, sc, nodes);
        if domain == DOMAINS {
          EmptyEverywhere(s, local, sc);
          FullOf(k, sc);
          ghost var size: nat;
          block, size := Refill(CLASS_COUNT * local + sc);
          if block != 0 { RefilledBy(s.m, s.fl, old(pages), k, block, size, m, pages); }
          BatchPushed(old(classes), local, sc, block, Full(sc));
          return;
        }
      }
      ClassIndex(domain, sc);
      k := CLASS_COUNT * domain + sc;
      ClassHead(s, k);
      NotAllEmpty(classes, domain, sc);
      WaitingIs(s, nodes, local, sc, domain);
      block := PopClass(CLASS_COUNT * domain + sc);
      LivesAdd(s.m, block, Blk(Full(k), Live(OfClass(k))));
      FreeShape(s, block);
    }

    /** A block of its own for a payload above the largest class. */
    method FromFit(total: nat) returns (block: nat, ghost size: nat)
      requires Valid() && total % 8 == 0 && total > HEADER
      modifies this
      ensures Valid() && rejectedFrees == old(rejectedFrees) && doubleFrees == old(doubleFrees)
      ensures lost == old(lost) && classes == old(classes)
      ensures block == 0 ==> Lives(m) == old(Lives(m)) && pages == {} && NoneBefore(m, fl, |fl|, total)
      ensures block == 0 <==> !HasFit(old(m), old(fl), total) && (total > PAGE || old(pages) == {})
      ensures HasFit(old(m), old(fl), total) ==> pages == old(pages)
      ensures block != 0 && !HasFit(old(m), old(fl), total) ==> pages == old(pages) - {block}
      ensures block != 0 ==> block % 8 == 0 && block !in old(Lives(m)) && block in m
      ensures block != 0 ==> m[block] == Blk(Keep(size, total), Live(Plain)) && size >= total
      ensures block != 0 ==> Served(old(m), old(fl), old(pages), total, block, size)
      ensures block != 0 ==> m == Carved(Stock(old(m), block), block, size, total)[block := m[block]]
      ensures block != 0 ==> Lives(m) == old(Lives(m))[block := m[block]]
    {
      hide Listed, PagesOk, Books, Clear, Gap, Lives, NoneBefore, Counted, Ledger, HasFit, Served, Stock, Carved, Keep;
      var kept: nat;
      block, kept, size := Obtain(total);
      if block != 0 {
        ghost var m1 := m;
        HandPlain(block, kept);
        LivesAdd(m1, block, m[block]);
      }
    }

    /** A request that a size class holds. */
    method FromLists(size: nat, local: nat, nodes: seq<nat>) returns (r: nat)
      requires Valid() && 0 < size < WORD && Payload(size) <= 512 && local < DOMAINS && |nodes| == DOMAINS
      modifies this
      ensures Valid() && rejectedFrees == old(rejectedFrees) && doubleFrees == old(doubleFrees)
      ensures r == 0 ==> Lives(m) == old(Lives(m)) && pages == {} && NoneBefore(m, fl, |fl|, Needed(size))
      ensures r != 0 ==> r > HEADER && r % 8 == 0 && r - HEADER in m
      ensures r != 0 ==> (m[r - HEADER].size >= HEADER + size <==> size <= WORD - 24)
      ensures r != 0 ==> r - HEADER !in old(Lives(m)) && Lives(m) == old(Lives(m))[r - HEADER := m[r - HEADER]]
      ensures r != 0 ==>
                && m[r - HEADER].role.Live? && m[r - HEADER].role.kind.OfClass?
                && m[r - HEADER].role.kind.k % CLASS_COUNT == ClassFor(Payload(size))
      ensures !AllEmpty(old(classes), ClassFor(Payload(size))) ==>
                && r > 16 && fl == old(fl) && pages == old(pages)
                && FromWaiting(old(classes), classes, nodes, local, ClassFor(Payload(size)), r - 16)
      ensures AllEmpty(old(classes), ClassFor(Payload(size))) && r != 0 ==>
                && NewBatch(old(classes), classes, local, ClassFor(Payload(size)), r - 16,
                            Full(ClassFor(Payload(size))))
                && Refilled(old(m), old(fl), old(pages), ClassFor(Payload(size)), r - 16, m, pages)
      ensures lost == old(lost) + Lost(old(m), old(fl), old(classes), size)
    {
      hide HasFit, LowestFit, ListAt, Slack, AllEmpty;
      hide Listed, PagesOk, Books, Clear, Gap, Lives, NoneBefore, Counted, Ledger, Batched;
      hide Payload, Total, ClassFor, Full;
      ghost var k: nat;
      var block: nat;
      block, k := FromClass(ClassFor(Payload(size)), local, nodes);
      LiveEntry(m, block);
      NeededClass(size, k);
      return if block == 0 then 0 else block + HEADER;
    }

    /** A request beyond the size classes that no large block answers. */
    method FromSpace(size: nat) returns (r: nat)
      requires Valid() && 0 < size < WORD && Payload(size) > 512 && Cuttable(size)
      modifies this
      ensures Valid() && rejectedFrees == old(rejectedFrees) && doubleFrees == old(doubleFrees)
      ensures r == 0 ==> Lives(m) == old(Lives(m)) && pages == {} && NoneBefore(m, fl, |fl|, Needed(size))
      ensures r != 0 ==> r > HEADER && r % 8 == 0 && r - HEADER in m && m[r - HEADER].size >= HEADER + size
      ensures r != 0 ==> r - HEADER !in old(Lives(m)) && Lives(m) == old(Lives(m))[r - HEADER := m[r - HEADER]]
      ensures OfItsOwn(old(m), old(fl), old(pages), Total(size), r, m, pages)
      ensures classes == old(classes) && lost == old(lost)
      ensures size <= WORD - 24
    {
      hide HasFit, Served, Stock, Carved, Keep;
      hide Listed, PagesOk, Books, Clear, Gap, Lives, NoneBefore, Counted, Ledger, Batched;
      hide Payload, Total, ClassFor, Full;
      TotalFits(size);
      WrappedTotal(size);
      ghost var s: nat;
      var block: nat;
      block, s := FromFit(Total(size));
      KeepHolds(s, Total(size));
      if block != 0 { CutDownIs(old(m), old(fl), old(pages), Total(size), block, s, m, pages); }
      return if block == 0 then 0 else block + HEADER;
    }

    /** `kmalloc`: `slot` is the caller's logical processor, `nodes` the memory node of each
        domain, `vmm` what the virtual memory manager answers a request for
        `PageCount(Total(size))` pages, 0 when it refuses.  Sizes whose total wraps below a
        header, and that no large block answers, would be cut over their own header. */
    method Kmalloc(size: nat, slot: nat, nodes: seq<nat>, vmm: nat) returns (r: nat)
      requires Valid() && size < WORD && |nodes| == DOMAINS
      requires Cuttable(size) || ((Total(size) > 4096 || Payload(size) > 1024) && vmm != 0)
      requires vmm != 0 ==> PageCount(Total(size)) > 0 && VmmReply(pages, m, vmm, PageCount(Total(size)))
      modifies this
      ensures Valid() && rejectedFrees == old(rejectedFrees) && doubleFrees == old(doubleFrees)
      ensures size == 0 ==> r == 0 && m == old(m) && fl == old(fl) && classes == old(classes) && pages == old(pages)
      ensures r == 0 ==> Lives(m) == old(Lives(m))
      ensures r == 0 && size > 0 ==> pages == {} && NoneBefore(m, fl, |fl|, Needed(size))
      ensures r != 0 ==> r > HEADER && r % 8 == 0 && r - HEADER in m
      ensures r != 0 ==> (m[r - HEADER].size >= HEADER + size <==> size <= WORD - 24)
      ensures r != 0 ==> r - HEADER !in old(Lives(m)) && Lives(m) == old(Lives(m))[r - HEADER := m[r - HEADER]]
      ensures r != 0 && Payload(size) <= 512 ==>
                m[r - HEADER].role.Live? && m[r - HEADER].role.kind.OfClass?
                && m[r - HEADER].role.kind.k % CLASS_COUNT == ClassFor(Payload(size))
      ensures size > 0 && Payload(size) <= 512 && !AllEmpty(old(classes), ClassFor(Payload(size))) ==>
                && r > 16 && fl == old(fl) && pages == old(pages)
                && FromWaiting(old(classes), classes, nodes, if slot >= 2 then 0 else slot,
                               ClassFor(Payload(size)), r - 16)
      ensures size > 0 && Payload(size) <= 512 && AllEmpty(old(classes), ClassFor(Payload(size))) && r != 0 ==>
                && NewBatch(old(classes), classes, if slot >= 2 then 0 else slot, ClassFor(Payload(size)), r - 16,
                            Full(ClassFor(Payload(size))))
                && Refilled(old(m), old(fl), old(pages), ClassFor(Payload(size)), r - 16, m, pages)
      ensures size > 0 && (Total(size) > 4096 || Payload(size) > 1024) && vmm != 0 ==>
                && r == vmm + 16 && fl == old(fl) && classes == old(classes) && pages == old(pages)
                && m == old(m)[vmm := Blk(PageCount(Total(size)) * 4096, Live(Large(PageCount(Total(size)))))]
      ensures size > 0 && Payload(size) > 512 && (vmm == 0 || (Total(size) <= 4096 && Payload(size) <= 1024)) ==>
                OfItsOwn(old(m), old(fl), old(pages), Total(size), r, m, pages) && classes == old(classes)
      ensures lost == old(lost) + Lost(old(m), old(fl), old(classes), size)
    {
      hide HasFit, LowestFit, ListAt, Slack, AllEmpty, Served, Stock, Carved, Keep;
      hide Listed, PagesOk, Books, Clear, Gap, Lives, NoneBefore, Counted, Ledger, Batched, Payload, Total, PageCount;
      hide ClassFor, Full;
      if size == 0 {
        return 0;
      }
      TotalFits(size);
      WrappedTotal(size);
      var payload, total := Payload(size), Total(size);
      if total > PAGE || payload > 1024 {
        var count := PageCount(total);
        if vmm != 0 {
          PageCountIs(total);
          ghost var m0 := m;
          GiveLarge(vmm, count);
          LivesAdd(m0, vmm, m[vmm]);
          return vmm + HEADER;
        }
      }
      if payload <= 512 {
        r := FromLists(size, if slot >= DOMAINS then 0 else slot, nodes);
      } else {
        r := FromSpace(size);
      }
    }

    /** A live size-class block goes back on the list it was cut for. */
    method PushBack(a: nat, k: nat)
      requires Listed() && Counted() && k < LISTS && a in m && m[a] == Blk(Full(k), Live(OfClass(k))) && a in mem
      modifies this`mem, this`heads, this`counts, this`m, this`classes
      ensures Listed() && Counted() && m == old(m)[a := Blk(Full(k), InClass(k))]
      ensures classes == old(classes)[k := [a] + old(classes)[k]]
    {
      hide Sound, Bytes, Full, Canary, Marked, Apart, Or, Gap;
      ghost var s, b := S(), Blk(Full(k), InClass(k));
      SoundLists(s);
      LiveHeader(s, a);
      ReturnedMark(mem[a], k);
      SoundApart(s);
      Recast(m, a, b);
      FreeBytesKept(s, a, b);
      mem := mem[a := mem[a].(flags := Or(mem[a].flags, FREE), next := heads[k])];
      heads := heads[k := a];
      counts := counts[k := counts[k] + 1];
      m := m[a := b];
      classes := classes[k := [a] + classes[k]];
      PushClassSound(s, S(), k, a);
    }

    /** A size-class block returns to the list it was cut for. */
    method ReturnPiece(a: nat, k: nat)
      requires Valid() && k < LISTS && a in m && m[a] == Blk(Full(k), Live(OfClass(k))) && a in mem
      modifies this`mem, this`heads, this`counts, this`m, this`classes
      ensures Valid() && m == old(m)[a := Blk(Full(k), InClass(k))]
      ensures classes == old(classes)[k := [a] + old(classes)[k]]
    {
      hide Listed, PagesOk, Books, Full, Clear;
      ghost var m0 := m;
      PushBack(a, k);
      BooksRecast(m0, cut, largeCount, PAGE * grown - lost, a, m[a]);
      PagesDrop(pages, m0, a);
      PagesAdd(pages, m0, a, m[a]);
    }

    /** A block of its own returns to the free list and is merged with its neighbours. */
    method ReturnPlain(a: nat)
      requires Valid() && a in m && m[a].role == Live(Plain) && a in mem
      modifies this`mem, this`freeHead, this`smallBlocks, this`smallBytes, this`m, this`fl
      ensures Valid() && a in old(m) && smallBytes == old(smallBytes) + old(m)[a].size
      ensures Free(m, fl) == Around(Freed(Free(old(m), old(fl)), a), Rank(old(fl), a))
      ensures Lives(m) == old(Lives(m)) - {a}
    {
      hide Sound, Bytes, Rank, InsertAt, PagesOk, Books, Clear, Apart, Shaped, Lives, Around, FreeWf, SameOthers;
      hide SameBefore;
      ghost var s, b, i := S(), Blk(m[a].size, InFree), Rank(fl, a);
      LiveHeader(s, a);
      SoundApart(s);
      Recast(m, a, b);
      BooksRecast(m, cut, largeCount, PAGE * grown - lost, a, b);
      PagesDrop(pages, m, a);
      PagesAdd(pages, m, a, b);
      AddFreeBlock(a);
      ghost var f := Free(m, fl);
      InsertedAt(s.fl, i, a);
      FreeWfOf(S());
      AroundLedger(f, i, pages, cut, largeCount, PAGE * grown - lost);
      AroundLeaves(f, i);
      CoalesceAround(a, i);
      LivesReturn(s.m, a, b);
      LivesSameOthers(f.m, m);
    }

    /** A large block goes back to the virtual memory manager; the page count comes from a
        16-bit field. */
    method ReturnLarge(a: nat) returns (released: nat)
      requires Valid() && a in m && a in mem && m[a].role.Live? && m[a].role.kind.Large?
      modifies this`m, this`largeCount
      ensures Valid() && m == old(m) - {a}
      ensures released == old(m)[a].role.kind.pages % 0x1_0000
    {
      hide Sound, Bytes, PagesOk, Books, Clear, Gap;
      ghost var s := S();
      LiveHeader(s, a);
      LargeHeader(s, a);
      BooksDrop(m, cut, largeCount, PAGE * grown - lost, a);
      PagesDrop(pages, m, a);
      ForgetLiveSound(s, a);
      FreeBytesKept(s, a, m[a]);
      released := mem[a].owner;
      if largeCount > 0 {
        largeCount := largeCount - 1;
      }
      m := m - {a};
    }

    /** `kfree`.  The pointer is null, or was handed out by `kmalloc`, or carries a header
        that is refused.  `released` is the number of pages given back to the virtual
        memory manager. */
    method Kfree(ptr: nat) returns (released: nat)
      requires Valid()
      requires ptr != 0 ==> ptr >= HEADER && ptr - HEADER in mem && (ptr - HEADER in m || Refused(mem[ptr - HEADER]))
      modifies this
      ensures Valid() && pages == old(pages)
      ensures ptr != 0 && ptr - HEADER in old(m) ==>
                (Refused(old(mem)[ptr - HEADER]) <==> ptr - HEADER !in old(Lives(m)))
      ensures ptr != 0 && ptr - HEADER in old(Lives(m)) ==>
                && Lives(m) == old(Lives(m)) - {ptr - HEADER}
                && rejectedFrees == old(rejectedFrees) && doubleFrees == old(doubleFrees)
                && released == PagesOf(old(m)[ptr - HEADER]) % 0x1_0000
      ensures ptr == 0 || ptr - HEADER !in old(Lives(m)) ==>
                S() == old(S()) && counts == old(counts) && released == 0
      ensures ptr == 0 ==> rejectedFrees == old(rejectedFrees) && doubleFrees == old(doubleFrees)
      ensures ptr != 0 && ptr - HEADER !in old(Lives(m)) ==> rejectedFrees == old(rejectedFrees) + 1
      ensures ptr != 0 && ptr - HEADER in old(Lives(m)) && old(m)[ptr - HEADER].role == Live(Plain) ==>
                && Free(m, fl) == Around(Freed(Free(old(m), old(fl)), ptr - HEADER), Rank(old(fl), ptr - HEADER))
                && classes == old(classes)
      ensures ptr != 0 && ptr - HEADER in old(Lives(m)) && old(m)[ptr - HEADER].role.kind.Large? ==>
                m == old(m) - {ptr - HEADER} && fl == old(fl) && classes == old(classes)
      ensures ptr != 0 && ptr - HEADER in old(Lives(m)) && old(m)[ptr - HEADER].role.kind.OfClass? ==>
                classes == Pushed(old(classes), old(m)[ptr - HEADER].role.kind.k, [ptr - HEADER]) && fl == old(fl)
      ensures ptr != 0 && ptr - HEADER !in old(Lives(m)) ==>
                var h := old(mem)[ptr - HEADER];
                doubleFrees == old(doubleFrees) + if h.magic == 0x4C50 && h.canary == Canary(h.size) then 1 else 0
    {
      hide Sound, Bytes, PagesOk, Books, Counted, Ledger, Batched, Full, Canary, Lives, Around, Rank, Freed, HasFlag;
      released := 0;
      if ptr == 0 {
        return;
      }
      var a := ptr - HEADER;
      var h := mem[a];
      ghost var s := S();
      HeaderTells(s, a);
      SoundLists(s);
      if h.magic != MAGIC || h.canary != Canary(h.size) {
        rejectedFrees := rejectedFrees + 1;
        return;
      }
      if HasFlag(h, FREE) {
        rejectedFrees := rejectedFrees + 1;
        doubleFrees := doubleFrees + 1;
        return;
      }
      if HasFlag(h, VMM) {
        released := ReturnLarge(a);
        LivesDrop(s.m, a);
        return;
      }
      if HasFlag(h, SC) && h.order < CLASS_COUNT && h.owner < DOMAINS {
        ReturnPiece(a, CLASS_COUNT * h.owner + h.order);
        LivesReturn(s.m, a, m[a]);
        return;
      }
      ReturnPlain(a);
    }

    /** An instance, from a new heap over one page: a request of 3976 bytes leaves a tail of
        104, and a request of 8 then cuts its batch of 96 out of it and loses 8 bytes. */
    static method LoseEight() returns (h: KernelHeap)
      ensures fresh(h) && h.Valid() && h.lost == 8
    {
      hide Sound, Bytes, Books, Lives, NoneBefore, Full, ClassFor, Payload, Total, PageCount;
      hide HasFit, LowestFit, Slack, AllEmpty, Served, Carved, Keep, OfItsOwn, PagesOk, Lost;
      OnePageOk();
      h := new KernelHeap({4096});
      SmallSizes(3976, 8);
      BigLosesNothing(h.m, h.fl, h.classes, 3976);
      var r := h.Kmalloc(3976, 0, [0, 0], 0);
      FirstServed(r, h.m, h.pages);
      OneFree(h.S());
      EightLost(h.m, h.fl, h.classes, 8);
      var q := h.Kmalloc(8, 0, [0, 0], 0);
    }
  }

  lemma OnePageOk()
    ensures PagesOk({4096}, map[])
  {}

  lemma BigLosesNothing(m: Space, fl: seq<nat>, classes: seq<seq<nat>>, size: nat)
    requires Payload(size) > 512
    ensures Lost(m, fl, classes, size) == 0
  {}

  lemma SmallSizes(a: nat, b: nat)
    requires a == 3976 && b == 8
    ensures Payload(a) == 3976 && Total(a) == 3992 && Payload(b) == 8 && Total(b) == 24
    ensures !HasFit(map[], [], 3992)
  {
    hide Total, Payload;
    TotalFits(a);
    TotalFits(b);
  }

  /** The state after the first request. */
  ghost function Halved(): Space { map[4096 := Blk(3992, Live(Plain)), 8088 := Blk(104, InFree)] }

  lemma FirstServed(r: nat, m: Space, pages: set<nat>)
    requires OfItsOwn(map[], [], {4096}, 3992, r, m, pages)
    ensures m == Halved()
  {
    assert !HasFit(map[], [], 3992);
    assert 4096 in {4096} && r != 0;
    var size: nat :| CutDown(map[], [], {4096}, 3992, r - 16, size, m, pages);
  }

  lemma OneFree(s: State)
    requires Sound(s) && s.m == Halved()
    ensures s.fl == [8088]
  {
    assert 8088 in s.fl && forall x :: x in s.fl ==> x == 8088;
    hide Headers, ClassesOk, Apart;
    forall i | 0 <= i < |s.fl| ensures s.fl[i] == 8088 { assert s.fl[i] in s.fl; }
  }

  lemma EightLost(m: Space, fl: seq<nat>, classes: seq<seq<nat>>, size: nat)
    requires m == Halved() && fl == [8088] && size == 8 && Payload(size) == 8
    requires |classes| == LISTS && forall k :: 0 <= k < LISTS ==> classes[k] == []
    ensures Lost(m, fl, classes, size) == 8
  {
    hide Payload, Total;
    assert Full(0) == 24 && Needed(size) == 96;
    assert Fits(m, fl, 0, 96);
    FitSizeAt(m, fl, 96, 0);
    assert AllEmpty(classes, 0);
  }

  /** Every block ever cut for size-class list `k` waits there or is out: for a valid heap
      `cut[k]` is four times its refills. */
  lemma PiecesSplit(s: State, cut: seq<nat>, large: nat, bytes: nat, k: nat)
    requires Sound(s) && Books(s.m, cut, large, bytes) && k < LISTS
    ensures k < |s.classes| && k < |cut| && |s.classes[k]| + |LiveOf(s.m, k)| == cut[k]
  {
    SoundLists(s);
    assert Distinct(s.classes[k]) && Lists(s.m, s.classes[k], InClass(k));
    hide Sound;
    PiecesParts(s.m, s.classes[k], k);
    hide Distinct, Lists, Pieces, LiveOf;
  }

  lemma PiecesParts(m: Space, s: seq<nat>, k: nat)
    requires Distinct(s) && Lists(m, s, InClass(k))
    ensures |Pieces(m, k)| == |s| + |LiveOf(m, k)|
  {
    DistinctCount(s);
    hide Distinct;
    assert Pieces(m, k) == Members(s) + LiveOf(m, k);
    assert Members(s) !! LiveOf(m, k);
  }

  ghost function LiveOf(m: Space, k: nat): set<nat> { set a | a in m && m[a].role == Live(OfClass(k)) }

  /** Freeing a live block adds exactly its bytes to the free ones, whatever merges. */
  lemma FreedCovers(f: Free, a: nat, x: nat)
    requires FreeWf(f) && a in f.m && f.m[a].role.Live?
    ensures var g := Around(Freed(f, a), Rank(f.fl, a));
            Covered(g.m, g.fl, x) <==> Covered(f.m, f.fl, x) || a <= x < a + f.m[a].size
  {
    hide FreeWf, Rank, InsertAt, Around, Covered;
    var g, i := Freed(f, a), Rank(f.fl, a);
    FreedWf(f, a);
    AroundCovers(g, i, x);
    JoinedCovers(f.m, f.fl, g.fl, a, x);
  }

  lemma FreedWf(f: Free, a: nat)
    requires FreeWf(f) && a in f.m && f.m[a].role.Live?
    ensures var g, i := Freed(f, a), Rank(f.fl, a);
            FreeWf(g) && i < |g.fl| && g.fl[i] == a && a !in f.fl && forall y :: y in g.fl <==> y in f.fl || y == a
  {
    assert f.m[a].size > 0 && a !in f.fl;
    hide Rank, InsertAt, Ascending, Apart, Gap;
    var i := Rank(f.fl, a);
    RankFits(f.fl, a);
    InsertMembers(f.fl, i, a);
    InsertAscending(f.fl, i, a);
    InsertedAt(f.fl, i, a);
    Recast(f.m, a, Blk(f.m[a].size, InFree));
  }

  lemma JoinedCovers(m: Space, fl: seq<nat>, t: seq<nat>, a: nat, x: nat)
    requires a in m && a !in fl && forall y :: y in t <==> y in fl || y == a
    ensures Covered(m[a := Blk(m[a].size, InFree)], t, x) <==> Covered(m, fl, x) || a <= x < a + m[a].size
  {
    var m' := m[a := Blk(m[a].size, InFree)];
    if Covered(m', t, x) {
      var y :| y in t && y in m' && y <= x < y + m'[y].size;
      assert y != a ==> y in fl && y in m && m[y] == m'[y];
    }
    if Covered(m, fl, x) {
      var y :| y in fl && y in m && y <= x < y + m[y].size;
      assert y in t && m'[y] == m[y];
    }
    assert a in t && m'[a].size == m[a].size;
  }

  /** Pages of a large block. */
  ghost function PagesOf(b: Blk): nat { if IsLarge(b) then b.role.kind.pages else 0 }

  /** Magic number and canary are in place. */
  predicate Sealed(h: Header) { h.magic == MAGIC && h.canary == Canary(h.size) }

  /** Overwriting the size of a sealed header breaks the seal exactly when its low 16 bits
      change: the canary does not see the others. */
  lemma CanaryCatches(h: Header, size: nat)
    requires Sealed(h)
    ensures Sealed(h.(size := size)) <==> size % 0x1_0000 == h.size % 0x1_0000
  {
    hide Canary;
    CanaryTells(h.size);
    CanaryTells(size);
  }

  /** The headers `kfree` turns away. */
  predicate Refused(h: Header) { !Sealed(h) || HasFlag(h, FREE) }

  lemma HeaderTells(s: State, a: nat)
    requires Sound(s) && a in s.mem && (a in s.m || Refused(s.mem[a]))
    ensures a in Lives(s.m) ==> a in s.m && s.m[a].role.Live?
    ensures a in s.m ==> (Refused(s.mem[a]) <==> a !in Lives(s.m))
    ensures !Refused(s.mem[a]) ==> a in s.m && MarkTells(s.mem[a], s.m[a])
  {
    if a in s.m {
      TrackedHeader(s.mem, s.m, a);
      hide Sound, Refused, Marked;
      MarkedTells(s.mem[a], s.m[a]);
    }
  }

  /** What the flags of an accepted header say about its block. */
  ghost predicate MarkTells(h: Header, b: Blk)
  {
    && b.role.Live? && (HasFlag(h, VMM) <==> b.role.kind.Large?) && (HasFlag(h, SC) <==> b.role.kind.OfClass?)
    && (HasFlag(h, SC) ==>
          && h.order < CLASS_COUNT && h.owner < DOMAINS && CLASS_COUNT * h.owner + h.order < LISTS
          && b == Blk(Full(CLASS_COUNT * h.owner + h.order), Live(OfClass(CLASS_COUNT * h.owner + h.order))))
  }

  lemma MarkedTells(h: Header, b: Blk)
    requires Marked(h, b)
    ensures Refused(h) <==> !b.role.Live?
    ensures b.role.Live? ==> MarkTells(h, b)
  {
    hide HasFlag, Full, Canary;
    FlagsTell(h, b);
    if b.role.Live? && b.role.kind.OfClass? { SplitIndex(b.role.kind.k); }
  }

  lemma SplitIndex(k: nat)
    requires k < LISTS
    ensures k % CLASS_COUNT < CLASS_COUNT && k / CLASS_COUNT < DOMAINS
    ensures CLASS_COUNT * (k / CLASS_COUNT) + k % CLASS_COUNT == k
  {}

  lemma LiveHeader(s: State, a: nat)
    requires Sound(s) && a in s.m && a in s.mem
    ensures Marked(s.mem[a], s.m[a]) && Shaped(a, s.m[a]) && s.mem[a].size == s.m[a].size
    ensures Shaped(a, Blk(s.m[a].size, InFree))
    ensures forall k :: s.m[a] == Blk(Full(k), Live(OfClass(k))) ==> Shaped(a, Blk(Full(k), InClass(k)))
  {
    TrackedHeader(s.mem, s.m, a);
  }

  lemma LargeHeader(s: State, a: nat)
    requires Sound(s) && a in s.m && a in s.mem && s.m[a].role.Live? && s.m[a].role.kind.Large?
    ensures s.mem[a].owner == s.m[a].role.kind.pages % 0x1_0000
  {
    TrackedHeader(s.mem, s.m, a);
  }

  lemma ReturnedMark(h: Header, k: nat)
    requires k < LISTS && Marked(h, Blk(Full(k), Live(OfClass(k))))
    ensures forall next :: Marked(h.(flags := Or(h.flags, FREE), next := next), Blk(Full(k), InClass(k)))
  {
    assert Or(4, 1) == 5;
  }

  lemma LivesSameOthers(m: Space, m': Space)
    requires SameOthers(m, m')
    ensures Lives(m) == Lives(m')
  {}

  /** A total that leaves room for a header. */
  predicate Cuttable(size: nat) { Total(size) >= HEADER }

  /** `r` is null exactly when nothing fits and no page would do; otherwise it is behind the
      header of the block served from, whose tail is free again when it is long enough. */
  ghost predicate OfItsOwn(m: Space, fl: seq<nat>, pages: set<nat>, total: nat, r: nat, m': Space, pages': set<nat>)
  {
    && (r == 0 <==> !HasFit(m, fl, total) && (total > 4096 || pages == {}))
    && (r != 0 ==> r > 16 && Granted(m, fl, pages, total, r - 16, m', pages'))
  }

  ghost predicate Granted(m: Space, fl: seq<nat>, pages: set<nat>, total: nat, a: nat, m': Space, pages': set<nat>)
  {
    exists size: nat :: CutDown(m, fl, pages, total, a, size, m', pages')
  }

  /** `a` is the lowest block that holds `total`, or a new page when there is none; it is cut
      down to `total` bytes if 32 or more would be left over, and those become a free block. */
  ghost predicate CutDown(m: Space, fl: seq<nat>, pages: set<nat>, total: nat, a: nat, size: nat, m': Space,
                          pages': set<nat>)
  {
    && size >= total && Served(m, fl, pages, total, a, size)
    && pages' == (if HasFit(m, fl, total) then pages else pages - {a})
    && m' == if size >= total + 32 then (m - {a})[a + total := Blk(size - total, InFree)][a := Blk(total, Live(Plain))]
             else m[a := Blk(size, Live(Plain))]
  }

  lemma CutDownIs(m: Space, fl: seq<nat>, pages: set<nat>, total: nat, a: nat, size: nat, m': Space, pages': set<nat>)
    requires size >= total > 0 && Served(m, fl, pages, total, a, size)
    requires pages' == if HasFit(m, fl, total) then pages else pages - {a}
    requires m' == Carved(Stock(m, a), a, size, total)[a := Blk(Keep(size, total), Live(Plain))]
    ensures CutDown(m, fl, pages, total, a, size, m', pages')
  {
    hide Served, HasFit;
    assert Stock(m, a) - {a} == m - {a};
    assert (m - {a})[a := Blk(size, Live(Plain))] == m[a := Blk(size, Live(Plain))];
  }

  /** `a` is the lowest block that holds four blocks of the class, or a new page when there is
      none; a tail of 32 bytes or more becomes a free block.  The first of the four is live
      and the others wait. */
  ghost predicate CutOut(m: Space, fl: seq<nat>, pages: set<nat>, k: nat, a: nat, size: nat, m': Space,
                         pages': set<nat>)
  {
    var f := Full(k);
    && size >= 4 * f && Served(m, fl, pages, 4 * f, a, size)
    && pages' == (if HasFit(m, fl, 4 * f) then pages else pages - {a})
    && m' == (if size >= 4 * f + 32 then (m - {a})[a + 4 * f := Blk(size - 4 * f, InFree)] else m - {a})
             [a + f := Blk(f, InClass(k))][a + 2 * f := Blk(f, InClass(k))][a + 3 * f := Blk(f, InClass(k))]
             [a := Blk(f, Live(OfClass(k)))]
  }

  ghost predicate Refilled(m: Space, fl: seq<nat>, pages: set<nat>, sc: nat, a: nat, m': Space, pages': set<nat>)
  {
    exists k: nat, size: nat :: k % 7 == sc && CutOut(m, fl, pages, k, a, size, m', pages')
  }

  lemma RefilledBy(m: Space, fl: seq<nat>, pages: set<nat>, k: nat, a: nat, size: nat, m': Space, pages': set<nat>)
    requires CutOut(m, fl, pages, k, a, size, m', pages')
    ensures Refilled(m, fl, pages, k % CLASS_COUNT, a, m', pages')
  {}

  lemma CutOutIs(m: Space, fl: seq<nat>, pages: set<nat>, k: nat, a: nat, size: nat, m': Space, pages': set<nat>)
    requires size >= 4 * Full(k) && Served(m, fl, pages, 4 * Full(k), a, size)
    requires pages' == if HasFit(m, fl, 4 * Full(k)) then pages else pages - {a}
    requires m' == Batch(Carved(Stock(m, a), a, size, 4 * Full(k)), a, k, 4)[a := Blk(Full(k), Live(OfClass(k)))]
    ensures CutOut(m, fl, pages, k, a, size, m', pages')
  {
    hide Served, HasFit, Full;
    assert Stock(m, a) - {a} == m - {a};
    BatchIs(Carved(Stock(m, a), a, size, 4 * Full(k)), a, k);
  }

  /** A block of class `sc` was taken off the head of the list of domain `d`. */
  ghost predicate Popped(classes: seq<seq<nat>>, classes': seq<seq<nat>>, d: nat, sc: nat, block: nat)
  {
    && 7 * d + sc < |classes| && classes[7 * d + sc] != [] && block == classes[7 * d + sc][0]
    && classes' == classes[7 * d + sc := classes[7 * d + sc][1..]]
  }

  /** The block that was waiting: on the local list, else on that of the nearest other domain. */
  ghost predicate FromWaiting(classes: seq<seq<nat>>, classes': seq<seq<nat>>, nodes: seq<nat>, local: nat, sc: nat,
                              block: nat)
    requires |nodes| == 2 && local < 2
  {
    if ListAt(classes, local, sc) != [] then Popped(classes, classes', local, sc, block)
    else exists d: nat :: d < 2 && d != local && Popped(classes, classes', d, sc, block)
           && forall e: nat :: e < 2 && e != local && ListAt(classes, e, sc) != [] ==> Nearer(nodes, local, d, e)
  }

  lemma WaitingIs(s: State, nodes: seq<nat>, local: nat, sc: nat, d: nat)
    requires Sound(s) && |nodes| == DOMAINS && local < DOMAINS && sc < CLASS_COUNT && d < DOMAINS && |s.heads| == LISTS
    requires s.heads[CLASS_COUNT * d + sc] != 0 && (d != local ==> s.heads[CLASS_COUNT * local + sc] == 0)
    requires d != local ==>
               forall e :: 0 <= e < DOMAINS && e != local && s.heads[CLASS_COUNT * e + sc] != 0 ==>
                 Nearer(nodes, local, d, e)
    ensures |s.classes| == LISTS && s.classes[CLASS_COUNT * d + sc] != []
    ensures var l := s.classes[CLASS_COUNT * d + sc];
            FromWaiting(s.classes, s.classes[CLASS_COUNT * d + sc := l[1..]], nodes, local, sc, l[0])
  {
    hide Sound, Nearer;
    ClassHead(s, CLASS_COUNT * d + sc);
    ClassHead(s, CLASS_COUNT * local + sc);
    forall e: nat | e < 2 && e != local && ListAt(s.classes, e, sc) != [] ensures s.heads[CLASS_COUNT * e + sc] != 0 {
      ClassHead(s, CLASS_COUNT * e + sc);
    }
    var l := s.classes[CLASS_COUNT * d + sc];
    assert Popped(s.classes, s.classes[CLASS_COUNT * d + sc := l[1..]], d, sc, l[0]);
  }

  /** The last three blocks of a batch wait on the local list, the last of them first. */
  ghost predicate NewBatch(classes: seq<seq<nat>>, classes': seq<seq<nat>>, local: nat, sc: nat, block: nat, f: nat)
  {
    && 7 * local + sc < |classes|
    && classes' == classes[7 * local + sc := [block + 3 * f, block + 2 * f, block + f] + classes[7 * local + sc]]
  }

  lemma BatchIs(m: Space, a: nat, k: nat)
    ensures var f := Full(k);
            Batch(m, a, k, 4) ==
              m[a + f := Blk(f, InClass(k))][a + 2 * f := Blk(f, InClass(k))][a + 3 * f := Blk(f, InClass(k))]
  {
    OffIs(Full(k));
    BatchStep(m, a, k, Full(k), 1);
    BatchStep(m, a, k, Full(k), 2);
    BatchStep(m, a, k, Full(k), 3);
    hide Batch, Full, Off;
  }

  lemma BatchPushed(classes: seq<seq<nat>>, local: nat, sc: nat, block: nat, f: nat)
    requires |classes| == LISTS && local < DOMAINS && sc < CLASS_COUNT
    ensures NewBatch(classes, Pushed(classes, CLASS_COUNT * local + sc, Stack(block, f, 4)), local, sc, block, f)
  {
    StackIs(block, f);
  }

  lemma StackIs(a: nat, f: nat)
    ensures Stack(a, f, 4) == [a + 3 * f, a + 2 * f, a + f]
  {
    OffIs(f);
    hide Off;
    assert Stack(a, f, 1) == [];
    assert Stack(a, f, 2) == [a + Off(f, 1)] + Stack(a, f, 1);
    assert Stack(a, f, 3) == [a + Off(f, 2)] + Stack(a, f, 2);
  }

  lemma OffIs(f: nat)
    ensures Off(f, 1) == f && Off(f, 2) == 2 * f && Off(f, 3) == 3 * f
  {
    assert Off(f, 1) == Off(f, 0) + f;
    assert Off(f, 2) == Off(f, 1) + f;
    assert Off(f, 3) == Off(f, 2) + f;
  }

  /** Bytes that leave the books: only a refill loses any, and then what is behind the batch
      in the lowest block that holds it, when that is less than 32 bytes. */
  ghost function Lost(m: Space, fl: seq<nat>, classes: seq<seq<nat>>, size: nat): nat
  {
    if size > 0 && Payload(size) <= 512 && AllEmpty(classes, ClassFor(Payload(size)))
    then Slack(m, fl, Needed(size)) else 0
  }

  lemma TailShaped(a: nat, size: nat, total: nat)
    requires a % 8 == 0 && size % 8 == 0 && total % 8 == 0 && 0 < total && size - total >= 32
    ensures Shaped(a + total, Blk(size - total, InFree))
  {}

  lemma KeepHolds(size: nat, total: nat)
    ensures size >= total ==> total <= Keep(size, total) < total + 32
  {}

  function Needed(size: nat): nat
  {
    if Payload(size) <= 512 then 4 * Full(ClassFor(Payload(size))) else Total(size)
  }

  lemma NeededClass(size: nat, k: nat)
    requires 0 < size < WORD && Payload(size) <= 512 && k % CLASS_COUNT == ClassFor(Payload(size))
    ensures Full(k) == Full(ClassFor(Payload(size))) && Needed(size) == 4 * Full(k)
    ensures Full(k) >= HEADER + size <==> size <= WORD - 24
  {
    hide Payload, Total, ClassFor, ClassSize, Full;
    TotalFits(size);
    FullOf(k, ClassFor(Payload(size)));
    WrappedTotal(size);
  }

  lemma LiveEntry(m: Space, a: nat)
    ensures a in Lives(m) ==> a in m && m[a] == Lives(m)[a]
  {}

  ghost function ListAt(classes: seq<seq<nat>>, d: nat, sc: nat): seq<nat>
  {
    if CLASS_COUNT * d + sc < |classes| then classes[CLASS_COUNT * d + sc] else []
  }

  lemma ClassIndex(d: nat, sc: nat)
    requires d < DOMAINS && sc < CLASS_COUNT
    ensures CLASS_COUNT * d + sc < LISTS && (CLASS_COUNT * d + sc) % CLASS_COUNT == sc
    ensures (CLASS_COUNT * d + sc) / CLASS_COUNT == d
  {}

  lemma FullOf(k: nat, sc: nat)
    requires k % CLASS_COUNT == sc && sc < CLASS_COUNT
    ensures Full(k) == Full(sc) == ClassSize(sc) + HEADER
  {
    hide ClassSize;
  }

  lemma ShapeAligned(a: nat, kept: nat)
    requires Shaped(a, Blk(kept, InFree))
    ensures a % 8 == 0 && kept % 8 == 0
  {}

  lemma FourFull(k: nat)
    ensures (4 * Full(k)) % 8 == 0 && 4 * Full(k) > HEADER
  {}

  lemma EmptyEverywhere(s: State, local: nat, sc: nat)
    requires Sound(s) && |s.heads| == LISTS && sc < CLASS_COUNT && local < DOMAINS
    requires s.heads[CLASS_COUNT * local + sc] == 0
    requires forall d :: 0 <= d < DOMAINS && d != local ==> s.heads[CLASS_COUNT * d + sc] == 0
    ensures forall d :: 0 <= d < DOMAINS ==> ListAt(s.classes, d, sc) == []
  {
    forall d | 0 <= d < DOMAINS ensures ListAt(s.classes, d, sc) == [] { ClassHead(s, CLASS_COUNT * d + sc); }
  }

  /** Cutting a batch out of a gap leaves the live blocks alone. */
  lemma BatchLives(s: State, a: nat, kept: nat, k: nat)
    requires Sound(s) && Gap(s.m, a, a + kept) && 4 * Full(k) <= kept && kept > 0
    ensures Lives(Batch(s.m, a, k, 4)) == Lives(s.m) && a !in Batch(s.m, a, k, 4)
  {
    SoundApart(s);
    hide Sound, Gap, Lives, Full, Off, Apart;
    OffStep(Full(k), 3);
    BatchLivesUpTo(s.m, a, kept, k, 4);
  }

  lemma {:induction false} BatchLivesUpTo(m: Space, a: nat, kept: nat, k: nat, n: nat)
    requires Apart(m) && Gap(m, a, a + kept) && Off(Full(k), n) <= kept && kept > 0
    ensures Lives(Batch(m, a, k, n)) == Lives(m)
    ensures forall x :: x in Batch(m, a, k, n) ==> x in m || (a < x && !Batch(m, a, k, n)[x].role.Live?)
    ensures a !in Batch(m, a, k, n)
  {
    hide Lives, Full, Off, Apart, Gap;
    NotInGap(m, a, kept, a);
    if n > 1 {
      var f, x := Full(k), a + Off(Full(k), n - 1);
      OffStep(f, n - 1);
      OffPositive(f, n - 1);
      BatchLivesUpTo(m, a, kept, k, n - 1);
      NotInGap(m, a, kept, x);
      LivesOther(Batch(m, a, k, n - 1), x, Blk(f, InClass(k)));
    }
  }

  lemma {:induction false} OffPositive(f: nat, i: nat)
    requires i > 0 && f > 0
    ensures Off(f, i) > 0
  {
    OffStep(f, i - 1);
  }

  lemma NotInGap(m: Space, a: nat, kept: nat, x: nat)
    requires Apart(m) && Gap(m, a, a + kept) && a <= x < a + kept
    ensures x !in m
  {}

  lemma LivesGrown(m: Space, m': Space, pages: set<nat>, pages': set<nat>)
    requires Grown(m, m', pages, pages')
    ensures Lives(m') == Lives(m)
  {}

  lemma FreeIsNotLive(m: Space, a: nat)
    requires a in m && m[a].role == InFree
    ensures a !in Lives(m)
  {}

  lemma ZeroUntracked(s: State)
    requires Sound(s)
    ensures 0 !in s.m && 0 !in Lives(s.m)
  {
    assert forall a :: a in s.m ==> Shaped(a, s.m[a]);
  }

  /** Domain `a` is tried no later than `b`: domains of the local node first, then by number. */
  predicate Nearer(nodes: seq<nat>, local: nat, a: nat, b: nat)
    requires local < |nodes| && a < |nodes| && b < |nodes|
  {
    if (nodes[a] == nodes[local]) == (nodes[b] == nodes[local]) then a <= b else nodes[a] == nodes[local]
  }

  /** What the virtual memory manager answers: a range apart from every block and page. */
  ghost predicate VmmReply(pages: set<nat>, m: Space, a: nat, count: nat)
  {
    a > 0 && a % 8 == 0 && Gap(m, a, a + count * PAGE) && Clear(pages, a, a + count * PAGE)
  }

  lemma ClassHead(s: State, k: nat)
    requires Sound(s) && k < LISTS
    ensures |s.heads| == |s.classes| == LISTS
    ensures (s.heads[k] == 0 <==> s.classes[k] == [])
    ensures s.classes[k] != [] ==> var a := s.classes[k][0];
              && a == s.heads[k] && a in s.m && s.m[a] == Blk(Full(k), InClass(k))
              && a in s.mem && s.mem[a].next == Nth(s.classes[k], 1)
  {
    ClassMember(s.mem, s.heads, s.classes, s.m, k);
    if s.classes[k] != [] { TrackedHeader(s.mem, s.m, s.classes[k][0]); }
  }

  lemma LargeMark(a: nat, h: Header, count: nat)
    requires a > 0 && a % 8 == 0 && count > 0
    requires h.size == count * PAGE && h.magic == MAGIC && h.flags == VMM
    requires h.owner == count % 0x1_0000 && h.canary == Canary(h.size)
    ensures Marked(h, Blk(count * PAGE, Live(Large(count)))) && Shaped(a, Blk(count * PAGE, Live(Large(count))))
  {
    hide Canary;
    PagesAligned(count);
  }

  lemma PagesAligned(count: nat)
    ensures (count * PAGE) % 8 == 0 && count * PAGE >= count
  {
    assert count * PAGE == (count * 512) * 8;
  }

  lemma ClassMark(h: Header, k: nat)
    requires k < LISTS && h.size == Full(k) && h.magic == MAGIC && h.flags == SC && h.canary == Canary(h.size)
    requires h.order == k % CLASS_COUNT && h.owner == k / CLASS_COUNT
    ensures Marked(h, Blk(Full(k), Live(OfClass(k))))
  {}

  lemma FirstShape(a: nat, kept: nat, k: nat)
    requires Shaped(a, Blk(kept, InFree))
    ensures Shaped(a, Blk(Full(k), Live(OfClass(k))))
  {}

  ghost function Pushed(c: seq<seq<nat>>, k: nat, s: seq<nat>): seq<seq<nat>>
  {
    if k < |c| then c[k := s + c[k]] else c
  }

  lemma PushedNone(c: seq<seq<nat>>, k: nat)
    ensures Pushed(c, k, []) == c
  {
    if k < |c| { assert [] + c[k] == c[k]; }
  }

  lemma PushedStep(c: seq<seq<nat>>, k: nat, s: seq<nat>, x: nat)
    ensures |Pushed(c, k, s)| == |c|
    ensures k < |c| ==> Pushed(c, k, s)[k := [x] + Pushed(c, k, s)[k]] == Pushed(c, k, [x] + s)
  {
    if k < |c| { assert [x] + (s + c[k]) == [x] + s + c[k]; }
  }

  /** Where block `i` of a batch starts, from its first. */
  function Off(f: nat, i: nat): nat { if i == 0 then 0 else Off(f, i - 1) + f }

  lemma OffStep(f: nat, i: nat)
    ensures Off(f, 0) == 0 && Off(f, 1) == f && Off(f, 4) == 4 * f && Off(f, i + 1) == Off(f, i) + f
    ensures i < 4 ==> Off(f, i + 1) <= 4 * f
  {
    assert Off(f, 1) == Off(f, 0) + f;
    assert Off(f, 2) == Off(f, 1) + f;
    assert Off(f, 3) == Off(f, 2) + f;
    assert Off(f, 4) == Off(f, 3) + f;
  }

  lemma PieceShape(a: nat, kept: nat, k: nat, i: nat)
    requires Shaped(a, Blk(kept, InFree))
    ensures Shaped(a + Off(Full(k), i), Blk(Full(k), InClass(k)))
  {
    OffAligned(Full(k), i);
  }

  lemma {:induction false} OffAligned(f: nat, i: nat)
    requires f % 8 == 0
    ensures Off(f, i) % 8 == 0
  {
    if i > 0 { OffAligned(f, i - 1); OffStep(f, i - 1); }
  }

  /** The space after blocks 1 to n-1 of a batch starting at `a` went to list `k`. */
  ghost function Batch(m: Space, a: nat, k: nat, n: nat): Space
  {
    if n <= 1 then m else Batch(m, a, k, n - 1)[a + Off(Full(k), n - 1) := Blk(Full(k), InClass(k))]
  }

  lemma BatchStep(m: Space, a: nat, k: nat, f: nat, i: nat)
    requires f == Full(k)
    ensures Batch(m, a, k, 1) == m && Stack(a, f, 1) == []
    ensures i > 0 ==> Batch(m, a, k, i + 1) == Batch(m, a, k, i)[a + Off(f, i) := Blk(f, InClass(k))]
    ensures i > 0 ==> Stack(a, f, i + 1) == [a + Off(f, i)] + Stack(a, f, i)
  {}

  ghost function Stack(a: nat, f: nat, n: nat): seq<nat>
  {
    if n <= 1 then [] else [a + Off(f, n - 1)] + Stack(a, f, n - 1)
  }

  lemma FreeBytesKept(s: State, a: nat, b: Blk)
    requires Sound(s) && (a in s.m ==> s.m[a].role != InFree)
    ensures Bytes(s.m[a := b], s.fl) == Bytes(s.m, s.fl) && Bytes(s.m - {a}, s.fl) == Bytes(s.m, s.fl)
  {
    hide Bytes, Apart, Headers, ClassesOk;
    assert a !in s.fl;
    BytesFrame(s.m, s.m[a := b], s.fl);
    BytesFrame(s.m, s.m - {a}, s.fl);
  }

  lemma SoundLists(s: State)
    requires Sound(s)
    ensures |s.heads| == |s.classes| == LISTS
  {}

  /** Position `i` holds at least `total` bytes. */
  ghost predicate Fits(m: Space, fl: seq<nat>, i: nat, total: nat)
  {
    i < |fl| && fl[i] in m && m[fl[i]].size >= total
  }

  ghost predicate NoneBefore(m: Space, fl: seq<nat>, i: nat, total: nat)
  {
    forall k: nat :: k < i ==> !Fits(m, fl, k, total)
  }

  ghost predicate HasFit(m: Space, fl: seq<nat>, total: nat) { !NoneBefore(m, fl, |fl|, total) }

  /** `a` is the lowest-address free block that is large enough. */
  ghost predicate LowestFit(m: Space, fl: seq<nat>, total: nat, a: nat)
  {
    exists i: nat :: Fits(m, fl, i, total) && fl[i] == a && NoneBefore(m, fl, i, total)
  }

  /** What a request of `total` is served from: the lowest free block that is large enough,
      or, when there is none, one new page. */
  ghost predicate Served(m: Space, fl: seq<nat>, pages: set<nat>, total: nat, a: nat, size: nat)
  {
    if HasFit(m, fl, total) then LowestFit(m, fl, total, a) && a in m && size == m[a].size
    else total <= PAGE && a in pages && a !in m && size == PAGE
  }

  /** The space once the block served from is in it. */
  ghost function Stock(m: Space, a: nat): Space { if a in m then m else m[a := Blk(PAGE, InFree)] }

  /** What stays with a block of `size` bytes that serves `total`. */
  function Keep(size: nat, total: nat): nat { if size >= total + MIN_SPLIT then total else size }

  /** The space once the block is taken and its tail, if any, is free again. */
  ghost function Carved(m: Space, a: nat, size: nat, total: nat): Space
  {
    if size >= total + MIN_SPLIT then (m - {a})[a + total := Blk(size - total, InFree)] else m - {a}
  }

  /** Size of the lowest block that is large enough, 0 if there is none. */
  ghost function FitSize(m: Space, fl: seq<nat>, total: nat): nat
  {
    if fl == [] then 0
    else if fl[0] in m && m[fl[0]].size >= total then m[fl[0]].size
    else FitSize(m, fl[1..], total)
  }

  /** Bytes a batch of `total` leaves to nobody: what is behind it in the lowest block that is
      large enough, when that is too short for a block of its own. */
  ghost function Slack(m: Space, fl: seq<nat>, total: nat): nat
  {
    if HasFit(m, fl, total) && FitSize(m, fl, total) >= total && FitSize(m, fl, total) - total < 32
    then FitSize(m, fl, total) - total else 0
  }

  lemma {:induction false} FitSizeAt(m: Space, fl: seq<nat>, total: nat, i: nat)
    requires Fits(m, fl, i, total) && NoneBefore(m, fl, i, total)
    ensures FitSize(m, fl, total) == m[fl[i]].size
  {
    if i > 0 {
      assert !Fits(m, fl, 0, total);
      assert fl[1..][i - 1] == fl[i];
      forall k: nat | k < i - 1 ensures !Fits(m, fl[1..], k, total) { assert !Fits(m, fl, k + 1, total); }
      FitSizeAt(m, fl[1..], total, i - 1);
    }
  }

  lemma SlackIs(m: Space, fl: seq<nat>, pages: set<nat>, total: nat, a: nat, size: nat, kept: nat)
    requires Served(m, fl, pages, total, a, size) && size >= total && kept == Keep(size, total) && total <= 2112
    ensures kept == total + Slack(m, fl, total) && (HasFit(m, fl, total) ==> LowestFit(m, fl, total, a))
  {
    if HasFit(m, fl, total) {
      var i: nat :| Fits(m, fl, i, total) && fl[i] == a && NoneBefore(m, fl, i, total);
      FitSizeAt(m, fl, total, i);
    }
    hide HasFit, FitSize;
  }

  lemma NoSlack(m: Space, fl: seq<nat>, total: nat)
    ensures !HasFit(m, fl, total) ==> Slack(m, fl, total) == 0
  {}

  /** No domain has a block of class `sc` waiting. */
  ghost predicate AllEmpty(classes: seq<seq<nat>>, sc: nat)
  {
    forall d: nat :: d < DOMAINS ==> ListAt(classes, d, sc) == []
  }

  lemma NotAllEmpty(classes: seq<seq<nat>>, d: nat, sc: nat)
    requires d < DOMAINS && ListAt(classes, d, sc) != []
    ensures !AllEmpty(classes, sc)
  {}

  /** Nothing has been grown, or exactly one page has. */
  ghost predicate OneGrown(s0: State, s: State, pages0: set<nat>, pages: set<nat>, p: nat)
  {
    || (s.m == s0.m && s.fl == s0.fl && pages == pages0)
    || (p in pages0 && p !in s0.m && pages == pages0 - {p} && s.m == s0.m[p := Blk(PAGE, InFree)])
  }

  /** A free block that is large enough is a fit. */
  lemma ListedFits(s: State, a: nat, total: nat)
    requires Sound(s) && a in s.m && s.m[a].role == InFree && s.m[a].size >= total
    ensures HasFit(s.m, s.fl, total)
  {
    assert a in s.fl;
    var i :| 0 <= i < |s.fl| && s.fl[i] == a;
    assert Fits(s.m, s.fl, i, total);
  }

  /** The block found is the lowest fit there was, or the page that was grown. */
  lemma FitMeans(s0: State, s: State, pages0: set<nat>, pages: set<nat>, total: nat, p: nat, i: nat)
    requires Sound(s0) && Sound(s) && Grown(s0.m, s.m, pages0, pages)
    requires HasFit(s0.m, s0.fl, total) ==> s.m == s0.m && s.fl == s0.fl
    requires total <= PAGE ==> OneGrown(s0, s, pages0, pages, p)
    requires Fits(s.m, s.fl, i, total) && NoneBefore(s.m, s.fl, i, total)
    ensures var a := s.fl[i]; a in s.m && Served(s0.m, s0.fl, pages0, total, a, s.m[a].size) && s.m == Stock(s0.m, a)
    ensures HasFit(s0.m, s0.fl, total) || (total <= PAGE && pages0 != {} && pages == pages0 - {s.fl[i]})
  {
    var a := s.fl[i];
    FreeAt(s, i);
    if !HasFit(s0.m, s0.fl, total) {
      if a in s0.m && s0.m[a].role == InFree && s0.m[a].size >= total { ListedFits(s0, a, total); }
      hide Sound, HasFit, NoneBefore;
    } else {
      FitFound(s0.m, s0.fl, s.m, s.fl, total, i);
      hide Sound, HasFit, NoneBefore;
    }
  }

  lemma NothingFits(s0: State, s: State, pages0: set<nat>, pages: set<nat>, total: nat, p: nat)
    requires Sound(s0) && Sound(s) && NoneBefore(s.m, s.fl, |s.fl|, total)
    requires HasFit(s0.m, s0.fl, total) ==> s.m == s0.m && s.fl == s0.fl
    requires total <= PAGE ==> OneGrown(s0, s, pages0, pages, p)
    ensures !HasFit(s0.m, s0.fl, total) && (total <= PAGE ==> s.m == s0.m && s.fl == s0.fl && pages == pages0)
  {
    if total <= PAGE && p in s.m && s.m[p] == Blk(PAGE, InFree) { ListedFits(s, p, total); }
    hide Sound, Fits;
  }

  lemma FitFound(m0: Space, fl0: seq<nat>, m: Space, fl: seq<nat>, total: nat, i: nat)
    requires NoneBefore(m, fl, i, total) && i <= |fl| && (i < |fl| ==> Fits(m, fl, i, total))
    requires HasFit(m0, fl0, total) ==> m == m0 && fl == fl0
    ensures HasFit(m0, fl0, total) ==> i < |fl| && LowestFit(m0, fl0, total, fl[i])
  {}

  /** Growth only adds whole pages the page allocator had. */
  ghost predicate Grown(m: Space, m': Space, pages: set<nat>, pages': set<nat>)
  {
    && pages' <= pages && (forall a :: a in m ==> a in m' && m'[a] == m[a])
    && (forall a :: a in m' && a !in m ==> a in pages && a !in pages' && m'[a] == Blk(PAGE, InFree))
  }

  lemma GrownRefl(m: Space, pages: set<nat>)
    ensures Grown(m, m, pages, pages)
  {}

  lemma GrownStep(m0: Space, m: Space, pages0: set<nat>, pages: set<nat>, p: nat)
    requires Grown(m0, m, pages0, pages) && p in pages && p !in m
    ensures Grown(m0, m[p := Blk(PAGE, InFree)], pages0, pages - {p})
  {}

  lemma EmptyBooks()
    ensures Books(map[], seq(LISTS, i => 0), 0, 0)
  {
    forall k | 0 <= k < LISTS ensures |Pieces(map[], k)| == 0 { assert Pieces(map[], k) == {}; }
    assert Larges(map[]) == {};
  }

  lemma SoundApart(s: State)
    requires Sound(s)
    ensures Apart(s.m)
  {}

  lemma GrowthBooks(s: State, pages: set<nat>, cut: seq<nat>, large: nat, bytes: nat, p: nat)
    requires Sound(s) && PagesOk(pages, s.m) && Books(s.m, cut, large, bytes) && p in pages
    ensures p !in s.m && Apart(s.m[p := Blk(PAGE, InFree)]) && Shaped(p, Blk(PAGE, InFree))
    ensures PagesOk(pages - {p}, s.m[p := Blk(PAGE, InFree)])
    ensures Books(s.m[p := Blk(PAGE, InFree)], cut, large, bytes + PAGE)
  {
    hide Sound, Apart, Gap, Clear, PagesOk, Books;
    var b := Blk(PAGE, InFree);
    PagesTake(pages, s.m, p);
    SoundApart(s);
    AddInGap(s.m, p, b, p, p + PAGE);
    BooksAdd(s.m, cut, large, bytes, p, b);
    PagesAdd(pages - {p}, s.m, p, b);
    PageShape(pages, s.m, p);
  }

  lemma PageShape(pages: set<nat>, m: Space, p: nat)
    requires PagesOk(pages, m) && p in pages
    ensures Shaped(p, Blk(PAGE, InFree))
  {}

  lemma FreeShape(s: State, a: nat)
    requires Sound(s) && a in s.m
    ensures s.m[a].size % 8 == 0 && s.m[a].size > HEADER && a > 0 && a % 8 == 0
  {}

  lemma TakeFreeBytes(s: State, i: nat)
    requires Sound(s) && i < |s.fl| && s.fl[i] in s.m
    ensures Bytes(s.m, s.fl) == Bytes(s.m - {s.fl[i]}, RemoveAt(s.fl, i)) + s.m[s.fl[i]].size
    ensures |RemoveAt(s.fl, i)| == |s.fl| - 1
  {
    hide Bytes, Apart, Headers, ClassesOk;
    RemoveBytes(s.m, s.fl, i);
    RemoveMembers(s.fl, i);
    BytesFrame(s.m, s.m - {s.fl[i]}, RemoveAt(s.fl, i));
  }

  lemma FusedBytes(s: State, i: nat)
    requires Sound(s) && i + 1 < |s.fl| && s.fl[i] in s.m && s.fl[i + 1] in s.m
    ensures Bytes(Fused(s.m, s.fl[i], s.fl[i + 1]), RemoveAt(s.fl, i + 1)) == Bytes(s.m, s.fl)
    ensures |RemoveAt(s.fl, i + 1)| == |s.fl| - 1
  {
    var a, b := s.fl[i], s.fl[i + 1];
    var m', t := Fused(s.m, a, b), RemoveAt(s.fl, i + 1);
    assert t[i] == a;
    RemoveBytes(s.m, s.fl, i + 1);
    RemoveBytes(s.m, t, i);
    RemoveBytes(m', t, i);
    RemoveMembers(s.fl, i + 1);
    assert Ascending(t);
    RemoveMembers(t, i);
    hide Bytes, RemoveAt, Ascending, Sound;
    BytesFrame(s.m, m', RemoveAt(t, i));
  }

  lemma FreeHeadFacts(s: State)
    requires Sound(s)
    ensures s.head == Nth(s.fl, 0) && (s.head == 0 <==> s.fl == []) && Ascending(s.fl)
  {
    if s.fl != [] { FreeMember(s.mem, s.head, s.fl, s.m, 0); }
  }

  lemma FreeNotListed(s: State, a: nat)
    requires Sound(s) && (a in s.m ==> s.m[a].role.Live?)
    ensures a !in s.fl
  {}

  lemma FreeAt(s: State, i: nat)
    requires Sound(s) && i < |s.fl|
    ensures s.fl[i] in s.m && s.m[s.fl[i]].role == InFree && s.fl[i] in s.mem && s.fl[i] != 0
    ensures s.mem[s.fl[i]].next == Nth(s.fl, i + 1) && s.mem[s.fl[i]].size == s.m[s.fl[i]].size
    ensures i + 1 < |s.fl| ==> s.fl[i] < s.fl[i + 1]
  {
    FreeMember(s.mem, s.head, s.fl, s.m, i);
  }

  lemma RankIs(fl: seq<nat>, a: nat, i: nat)
    requires Ascending(fl) && i <= |fl| && (i > 0 ==> fl[i - 1] < a) && (i < |fl| ==> a <= fl[i])
    ensures Rank(fl, a) == i
  {
    var r := Rank(fl, a);
    hide Rank;
  }

  lemma FreedMark(h: Header)
    requires h.magic == MAGIC && h.flags == FREE
    ensures Marked(h, Blk(h.size, InFree))
  {}

  lemma AddFreeBytes(m: Space, fl: seq<nat>, a: nat, b: Blk, i: nat)
    requires i <= |fl| && a !in fl
    ensures Bytes(m[a := b], InsertAt(fl, i, a)) == Bytes(m, fl) + b.size && |InsertAt(fl, i, a)| == |fl| + 1
  {
    InsertBytes(m[a := b], fl, i, a);
    BytesFrame(m, m[a := b], fl);
  }
}
