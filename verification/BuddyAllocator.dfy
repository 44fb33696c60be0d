/** The server build's physical page allocator, kernel/arch/i386/cpu/pmm.c.

    Every address the allocator stores is page aligned, so addresses are kept as
    page indices; page 0 plays the null address.  The ghost fields name what the
    link words and the per-page tags encode: the set of free blocks, and the
    sequence of bases threaded through each list. */
module BuddyAllocator {
  import opened Bits
  import opened BuddyTree
  import opened Sequences

  const PAGE_SIZE: nat := 4096
  const MAX_NODES: nat := 8
  const MAX_PHYS: nat := 0x4000_0000

  /** What the kernel keeps per page: the link word in its first bytes, the two
      free-block tags, and the ownership mark. */
  datatype Frame = Frame(link: nat, isFree: bool, order: nat, owned: bool)

  datatype Slot = Slot(node: nat, order: nat)

  /** The whole allocator state at one instant, with its two ghost readings. */
  datatype State = State(fs: seq<Frame>, heads: map<Slot, nat>, blocks: set<Block>, lists: map<Slot, seq<nat>>)

  /** The link words thread exactly `s`, starting from `head`. */
  ghost predicate Linked(fs: seq<Frame>, head: nat, s: seq<nat>)
  {
    && head == Nth(s, 0)
    && (forall i :: 0 <= i < |s| ==> 0 < s[i] < |fs| && fs[s[i]].link == Nth(s, i + 1))
  }

  ghost predicate AllSlots(k: set<Slot>)
  {
    forall n, o :: 0 <= n < MAX_NODES && 0 <= o <= MAX_ORDER ==> Slot(n, o) in k
  }

  ghost predicate Threaded(s: State)
  {
    && s.heads.Keys == s.lists.Keys && AllSlots(s.lists.Keys)
    && (forall k :: k in s.lists ==> Linked(s.fs, s.heads[k], s.lists[k]))
  }

  /** The per-page tags mark exactly the bases of the free blocks. */
  ghost predicate Tagged(fs: seq<Frame>, blocks: set<Block>)
  {
    && (forall b :: b in blocks ==> Base(b) < |fs| && fs[Base(b)].isFree && fs[Base(b)].order == b.order)
    && (forall p :: 0 <= p < |fs| && fs[p].isFree ==>
          fs[p].order <= MAX_ORDER && BlockAt(p, fs[p].order) in blocks && Base(BlockAt(p, fs[p].order)) == p)
  }

  /** Each list holds the free bases of its own node and order, each once. */
  ghost predicate Filed(fs: seq<Frame>, lists: map<Slot, seq<nat>>, node: nat -> nat)
  {
    && (forall k :: k in lists ==> Distinct(lists[k]))
    && (forall k, p {:trigger p in lists[k]} :: k in lists && p in lists[k] ==>
          p < |fs| && fs[p].isFree && fs[p].order == k.order && node(p) == k.node)
    && (forall p :: 0 <= p < |fs| && fs[p].isFree ==>
          Slot(node(p), fs[p].order) in lists && p in lists[Slot(node(p), fs[p].order)])
  }

  /** No page is both free and handed out; page 0 is neither. */
  ghost predicate Exclusive(fs: seq<Frame>, blocks: set<Block>)
  {
    && (forall p :: 0 <= p < |fs| && fs[p].owned ==> !FreePage(blocks, p))
    && !FreePage(blocks, 0) && |fs| > 0 && !fs[0].owned
  }

  /** Every managed page is free or handed out, and no other page is either. */
  ghost predicate Managed(managed: set<nat>, fs: seq<Frame>, blocks: set<Block>)
  {
    forall p: nat :: p in managed <==> FreePage(blocks, p) || (p < |fs| && fs[p].owned)
  }

  /** Pages on their way from handed out to free stay managed; populating adds pages. */
  lemma ManagedAdds(managed: set<nat>, fs: seq<Frame>, fs': seq<Frame>, f: set<Block>, f': set<Block>, b: Block)
    requires Managed(managed, fs, f) && |fs| == |fs'| == PAGES && Contains(Root(), b)
    requires forall p :: FreePage(f', p) <==> FreePage(f, p) || In(p, b)
    requires forall p :: 0 <= p < PAGES ==> fs'[p].owned == (fs[p].owned && !In(p, b))
    ensures Managed(managed + BlockPages(b), fs', f')
  {
    hide FreePage, In;
    forall p: nat | In(p, b) ensures p < PAGES {
      BlockFits(b);
      InIsInterval(b, p);
    }
  }

  lemma ManagedKeeps(managed: set<nat>, fs: seq<Frame>, fs': seq<Frame>, f: set<Block>, f': set<Block>, b: Block)
    requires Managed(managed, fs, f) && |fs| == |fs'| == PAGES && Contains(Root(), b) && AllFree(f, b)
    requires forall p :: FreePage(f', p) <==> FreePage(f, p) && !In(p, b)
    requires forall p :: 0 <= p < PAGES ==> fs'[p].owned == (fs[p].owned || In(p, b))
    ensures Managed(managed, fs', f')
  {
    hide FreePage, In;
    forall p: nat | In(p, b) ensures p < PAGES {
      BlockFits(b);
      InIsInterval(b, p);
    }
  }

  /** Freeing pages that were handed out manages no new page. */
  lemma ManagedAlready(managed: set<nat>, fs: seq<Frame>, f: set<Block>, b: Block)
    requires Managed(managed, fs, f) && |fs| == PAGES
    requires forall p :: 0 <= p < PAGES && In(p, b) ==> fs[p].owned
    ensures managed + BlockPages(b) == managed
  {
    hide FreePage, In;
    forall p | p in BlockPages(b) ensures p in managed {}
  }

  /** What every helper keeps, whether or not the set is coalesced. */
  ghost predicate Consistent(s: State, node: nat -> nat)
  {
    && |s.fs| == PAGES
    && (forall p :: node(p) < MAX_NODES)
    && Threaded(s)
    && Tiles(s.blocks)
    && Tagged(s.fs, s.blocks)
    && Filed(s.fs, s.lists, node)
    && Exclusive(s.fs, s.blocks)
  }

  // ------------------------------------------------------------ list push

  /** The state after `buddy_list_push`. */
  ghost predicate Pushed(s: State, t: State, node: nat -> nat, b: Block)
    requires Slot(node(Base(b)), b.order) in s.lists && Slot(node(Base(b)), b.order) in s.heads
    requires |s.fs| == |t.fs| == PAGES && Base(b) < PAGES
  {
    var k, page := Slot(node(Base(b)), b.order), Base(b);
    && t.blocks == s.blocks + {b}
    && t.lists == s.lists[k := [page] + s.lists[k]]
    && t.heads == s.heads[k := page]
    && (forall p :: 0 <= p < PAGES && p != page ==> t.fs[p] == s.fs[p].(owned := s.fs[p].owned && !In(p, b)))
    && t.fs[page] == Frame(s.heads[k], true, b.order, false)
  }

  lemma PushConsistent(s: State, t: State, node: nat -> nat, b: Block)
    requires Consistent(s, node) && b.order <= MAX_ORDER && b !in s.blocks && Tiles(s.blocks + {b}) && !In(0, b)
    requires |t.fs| == PAGES && Base(b) < PAGES && Slot(node(Base(b)), b.order) in s.lists
    requires Pushed(s, t, node, b)
    ensures Consistent(t, node)
  {
    hide Threaded, Tagged, Filed, Exclusive, Tiles, Contains, In, Base, FreePage;
    var page := Base(b);
    FreshBase(s.fs, s.blocks, b);
    BaseIn(b);
    PushFiled(s.fs, t.fs, s.lists, node, page, b.order);
    FreshUnlisted(s.fs, s.lists, node, page);
    PushThreaded(s, t, Slot(node(page), b.order), page);
    PushTagged(s.fs, t.fs, s.blocks, b);
    PushExclusive(s.fs, t.fs, s.blocks, b);
  }

  lemma FreshUnlisted(fs: seq<Frame>, lists: map<Slot, seq<nat>>, node: nat -> nat, page: nat)
    requires Filed(fs, lists, node) && page < |fs| && !fs[page].isFree
    ensures forall k :: k in lists ==> page !in lists[k]
  {}

  lemma PushTagged(fs: seq<Frame>, fs': seq<Frame>, blocks: set<Block>, b: Block)
    requires Tagged(fs, blocks) && |fs'| == |fs| && Base(b) < |fs| && !fs[Base(b)].isFree && b.order <= MAX_ORDER
    requires forall p :: 0 <= p < |fs| && p != Base(b) ==> fs'[p].isFree == fs[p].isFree && fs'[p].order == fs[p].order
    requires fs'[Base(b)].isFree && fs'[Base(b)].order == b.order
    ensures Tagged(fs', blocks + {b})
  {
    BaseIn(b);
  }

  lemma PushExclusive(fs: seq<Frame>, fs': seq<Frame>, blocks: set<Block>, b: Block)
    requires Exclusive(fs, blocks) && |fs'| == |fs| && !In(0, b)
    requires forall p :: 0 <= p < |fs| ==> fs'[p].owned == (fs[p].owned && !In(p, b))
    ensures Exclusive(fs', blocks + {b})
  {
    forall p: nat ensures FreePage(blocks + {b}, p) <==> FreePage(blocks, p) || In(p, b) { AddPages(blocks, b, p); }
  }

  lemma PushThreaded(s: State, t: State, slot: Slot, page: nat)
    requires Threaded(s) && |t.fs| == |s.fs| && 0 < page < |s.fs| && slot in s.lists
    requires forall k :: k in s.lists ==> page !in s.lists[k]
    requires forall p :: 0 <= p < |s.fs| && p != page ==> t.fs[p].link == s.fs[p].link
    requires t.fs[page].link == s.heads[slot]
    requires t.heads == s.heads[slot := page] && t.lists == s.lists[slot := [page] + s.lists[slot]]
    ensures Threaded(t)
  {
    assert t.heads.Keys == s.heads.Keys && t.lists.Keys == s.lists.Keys;
    forall k | k in t.lists ensures Linked(t.fs, t.heads[k], t.lists[k]) {
      LinkedFrame(s.fs, t.fs, s.heads[k], s.lists[k]);
      if k == slot { LinkedCons(t.fs, s.heads[k], s.lists[k], page); }
    }
  }

  lemma LinkedCons(fs: seq<Frame>, head: nat, s: seq<nat>, page: nat)
    requires Linked(fs, head, s) && 0 < page < |fs| && fs[page].link == head
    ensures Linked(fs, page, [page] + s)
  {
    var s' := [page] + s;
    forall i | 0 <= i < |s'| ensures 0 < s'[i] < |fs| && fs[s'[i]].link == Nth(s', i + 1) {
      if i > 0 { assert s'[i] == s[i - 1]; }
    }
  }

  /** A list keeps its thread while the link words of its members stay put. */
  lemma LinkedFrame(fs: seq<Frame>, fs': seq<Frame>, head: nat, s: seq<nat>)
    requires Linked(fs, head, s) && |fs'| == |fs|
    requires forall p :: p in s && p < |fs| ==> fs'[p].link == fs[p].link
    ensures Linked(fs', head, s)
  {}

  lemma PushFiled(fs: seq<Frame>, fs': seq<Frame>, lists: map<Slot, seq<nat>>, node: nat -> nat, page: nat, order: nat)
    requires Filed(fs, lists, node) && |fs'| == |fs| && page < |fs| && !fs[page].isFree
    requires Slot(node(page), order) in lists
    requires forall p :: 0 <= p < |fs| && p != page ==> fs'[p].isFree == fs[p].isFree && fs'[p].order == fs[p].order
    requires fs'[page].isFree && fs'[page].order == order
    ensures var slot := Slot(node(page), order); Filed(fs', lists[slot := [page] + lists[slot]], node)
  {
    var slot := Slot(node(page), order);
    var l' := lists[slot := [page] + lists[slot]];
    assert page !in lists[slot];
    assert page in l'[slot];
    forall p | p in lists[slot] ensures p in l'[slot] {}
  }

  // ------------------------------------------------------------ list removal

  /** The state after entry `i` of list `k` has been unlinked; `mark` also hands the
      block's pages out, as `buddy_list_pop_from_node` does. */
  ghost predicate Taken(s: State, t: State, k: Slot, i: nat, mark: bool)
    requires k in s.lists && i < |s.lists[k]| && |t.fs| == |s.fs|
  {
    var l := s.lists[k];
    var b := BlockAt(l[i], k.order);
    && t.blocks == s.blocks - {b}
    && t.lists == s.lists[k := RemoveAt(l, i)]
    && t.heads == (if i == 0 then s.heads[k := Nth(l, 1)] else s.heads)
    && (forall p :: 0 <= p < |s.fs| ==>
          && t.fs[p].isFree == (s.fs[p].isFree && p != l[i])
          && t.fs[p].order == s.fs[p].order
          && t.fs[p].owned == (s.fs[p].owned || (mark && In(p, b)))
          && t.fs[p].link == if i > 0 && p == l[i - 1] then Nth(l, i + 1) else s.fs[p].link)
  }

  lemma TakeConsistent(s: State, t: State, node: nat -> nat, k: Slot, i: nat, mark: bool)
    requires Consistent(s, node) && k in s.lists && i < |s.lists[k]| && |t.fs| == PAGES
    requires Taken(s, t, k, i, mark)
    ensures Consistent(t, node)
    ensures BlockAt(s.lists[k][i], k.order) in s.blocks && Base(BlockAt(s.lists[k][i], k.order)) == s.lists[k][i]
  {
    hide Threaded, Tagged, Filed, Exclusive, Tiles, Contains, In, Base, FreePage;
    var page := s.lists[k][i];
    ListedBlock(s, node, k, i);
    var b := BlockAt(page, k.order);
    TilesSubset(t.blocks, s.blocks);
    TakeTagged(s.fs, t.fs, s.blocks, b);
    TakeFiled(s.fs, t.fs, s.lists, node, k, i);
    if i > 0 { OneList(s.fs, s.lists, node, k, i - 1); }
    TakeThreaded(s, t, k, i);
    TakeExclusive(s.fs, t.fs, s.blocks, b, mark);
  }

  lemma ListedBlock(s: State, node: nat -> nat, k: Slot, i: nat)
    requires Consistent(s, node) && k in s.lists && i < |s.lists[k]|
    ensures BlockAt(s.lists[k][i], k.order) in s.blocks && Base(BlockAt(s.lists[k][i], k.order)) == s.lists[k][i]
    ensures 0 < s.lists[k][i] < PAGES && s.fs[s.lists[k][i]].isFree && k.order <= MAX_ORDER && k.node < MAX_NODES
    ensures Distinct(s.lists[k]) && Contains(Root(), BlockAt(s.lists[k][i], k.order))
    ensures |s.fs| == PAGES && s.fs[s.lists[k][i]].link == Nth(s.lists[k], i + 1)
    ensures k in s.heads && (i > 0 ==> s.lists[k][i - 1] != s.lists[k][i])
  {
    var page := s.lists[k][i];
    assert page in s.lists[k];
    assert Linked(s.fs, s.heads[k], s.lists[k]);
  }

  lemma SlotKnown(s: State, node: nat -> nat, k: Slot)
    requires Consistent(s, node) && k.node < MAX_NODES && k.order <= MAX_ORDER
    ensures |s.fs| == PAGES && k in s.lists && k in s.heads && Linked(s.fs, s.heads[k], s.lists[k])
  {
    assert Slot(k.node, k.order) in s.lists.Keys;
  }

  /** `buddy_can_merge` decides membership in the set of free blocks, and a free
      block is always found in the list of its own node. */
  lemma TagsDecide(s: State, node: nat -> nat, b: Block)
    requires Consistent(s, node) && b.order <= MAX_ORDER && Base(b) < PAGES
    ensures (s.fs[Base(b)].isFree && s.fs[Base(b)].order == b.order) <==> b in s.blocks
    ensures b in s.blocks ==> var k := Slot(node(Base(b)), b.order);
              k.node < MAX_NODES && k in s.lists && Base(b) in s.lists[k]
  {
    BaseIn(b);
  }

  /** Pages that are handed out are disjoint from the free blocks. */
  lemma OwnedBlockFits(s: State, node: nat -> nat, b: Block)
    requires Consistent(s, node) && Contains(Root(), b)
    requires forall p :: 0 <= p < PAGES && In(p, b) ==> s.fs[p].owned
    ensures !In(0, b) && forall p :: In(p, b) ==> !FreePage(s.blocks, p)
  {
    BlockFits(b);
    forall p | In(p, b) ensures !FreePage(s.blocks, p) { InIsInterval(b, p); }
  }

  /** If the lists of order `r` and above are empty on every node, no free block has such an order. */
  lemma EmptyLists(s: State, node: nat -> nat, nodeCount: nat, r: nat)
    requires Consistent(s, node) && nodeCount <= MAX_NODES && forall p :: node(p) < nodeCount
    requires forall n, o :: 0 <= n < nodeCount && r <= o <= MAX_ORDER ==>
              Slot(n, o) in s.lists && s.lists[Slot(n, o)] == []
    ensures forall a :: a in s.blocks ==> a.order < r
  {
    forall a | a in s.blocks ensures a.order < r {
      RootOrder(a);
      BlockFits(a);
      TagsDecide(s, node, a);
    }
  }

  lemma Unmanaged(s: State, node: nat -> nat)
    requires Consistent(s, node)
    ensures !FreePage(s.blocks, 0) && Tiles(s.blocks) && Exclusive(s.fs, s.blocks)
    ensures forall p :: 0 <= p < |s.fs| && s.fs[p].owned ==> !FreePage(s.blocks, p)
  {}

  lemma TakeTagged(fs: seq<Frame>, fs': seq<Frame>, blocks: set<Block>, b: Block)
    requires Tagged(fs, blocks) && |fs'| == |fs| && b in blocks
    requires forall p :: 0 <= p < |fs| ==>
              fs'[p].isFree == (fs[p].isFree && p != Base(b)) && fs'[p].order == fs[p].order
    ensures Tagged(fs', blocks - {b})
  {
    BaseIn(b);
    forall a | a in blocks && Base(a) == Base(b) ensures a == b { BaseIn(a); }
  }

  lemma TakeExclusive(fs: seq<Frame>, fs': seq<Frame>, blocks: set<Block>, b: Block, mark: bool)
    requires Exclusive(fs, blocks) && |fs'| == |fs| && Tiles(blocks) && b in blocks
    requires forall p :: 0 <= p < |fs| ==> fs'[p].owned == (fs[p].owned || (mark && In(p, b)))
    ensures Exclusive(fs', blocks - {b})
  {
    forall p: nat ensures FreePage(blocks - {b}, p) <==> FreePage(blocks, p) && !In(p, b) { RemovePages(blocks, b, p); }
    if In(0, b) { assert FreePage(blocks, 0); }
  }

  lemma TakeFiled(fs: seq<Frame>, fs': seq<Frame>, lists: map<Slot, seq<nat>>, node: nat -> nat, k: Slot, i: nat)
    requires Filed(fs, lists, node) && |fs'| == |fs| && k in lists && i < |lists[k]|
    requires forall p :: 0 <= p < |fs| ==>
              fs'[p].isFree == (fs[p].isFree && p != lists[k][i]) && fs'[p].order == fs[p].order
    ensures Filed(fs', lists[k := RemoveAt(lists[k], i)], node)
  {
    RemoveAtMembers(lists[k], i);
    var page := lists[k][i];
    OneList(fs, lists, node, k, i);
  }

  lemma TakeThreaded(s: State, t: State, k: Slot, i: nat)
    requires Threaded(s) && k in s.lists && i < |s.lists[k]| && |t.fs| == |s.fs| && Distinct(s.lists[k])
    requires i > 0 ==> forall j :: j in s.lists && j != k ==> s.lists[k][i - 1] !in s.lists[j]
    requires t.lists == s.lists[k := RemoveAt(s.lists[k], i)]
    requires t.heads == if i == 0 then s.heads[k := Nth(s.lists[k], 1)] else s.heads
    requires forall p :: 0 <= p < |s.fs| ==>
               t.fs[p].link == if i > 0 && p == s.lists[k][i - 1] then Nth(s.lists[k], i + 1) else s.fs[p].link
    ensures Threaded(t)
  {
    assert t.heads.Keys == s.heads.Keys && t.lists.Keys == s.lists.Keys;
    forall j | j in t.lists ensures Linked(t.fs, t.heads[j], t.lists[j]) {
      if j == k {
        LinkedWithout(s.fs, t.fs, s.heads[k], s.lists[k], i);
      } else {
        LinkedFrame(s.fs, t.fs, s.heads[j], s.lists[j]);
      }
    }
  }

  lemma OneList(fs: seq<Frame>, lists: map<Slot, seq<nat>>, node: nat -> nat, k: Slot, i: nat)
    requires Filed(fs, lists, node) && k in lists && i < |lists[k]|
    ensures forall j :: j in lists && j != k ==> lists[k][i] !in lists[j]
  {
    assert lists[k][i] in lists[k];
  }

  lemma LinkedWithout(fs: seq<Frame>, fs': seq<Frame>, head: nat, l: seq<nat>, i: nat)
    requires Linked(fs, head, l) && Distinct(l) && i < |l| && |fs'| == |fs|
    requires forall p :: 0 <= p < |fs| ==> fs'[p].link == if i > 0 && p == l[i - 1] then Nth(l, i + 1) else fs[p].link
    ensures Linked(fs', if i == 0 then Nth(l, 1) else head, RemoveAt(l, i))
  {
    var w := RemoveAt(l, i);
    assert |w| == |l| - 1;
    RemoveAtNth(l, i, 0);
    hide RemoveAt, Distinct;
    forall j | 0 <= j < |w| ensures 0 < w[j] < |fs| && fs'[w[j]].link == Nth(w, j + 1) {
      RemoveAtNext(l, i, j);
    }
  }

  /** The base page of a block that fits among the free blocks carries no tag. */
  lemma FreshBase(fs: seq<Frame>, blocks: set<Block>, b: Block)
    requires Tagged(fs, blocks) && Tiles(blocks + {b}) && b !in blocks && Base(b) < |fs|
    ensures !fs[Base(b)].isFree
  {
    if fs[Base(b)].isFree {
      var a := BlockAt(Base(b), fs[Base(b)].order);
      BaseIn(b);
      BaseIn(a);
      assert a in blocks + {b} && b in blocks + {b};
      OneOwner(blocks + {b}, a, b, Base(b));
    }
  }

  lemma RootOrder(b: Block)
    requires Contains(Root(), b)
    ensures b.order <= MAX_ORDER
  {}

  // ------------------------------------------------------------ addresses

  /** An address that passes the three argument checks is the base of a block. */
  predicate WellFormedFree(phys: nat, order: nat)
  {
    && order <= MAX_ORDER
    && And(phys, 0xFFF) == 0 && phys < MAX_PHYS
    && And(phys, Pow2(12 + order) - 1) == 0
  }

  /** The checks, in plain numbers: at most 2^18 pages, below one gigabyte, and aligned to
      the size of the block. */
  lemma FreeArguments(phys: nat, order: nat)
    ensures WellFormedFree(phys, order) <==>
              order <= 18 && phys < 0x4000_0000 && phys % (4096 * Pow2(order)) == 0
  {
    hide And, Pow2;
    PageIsPow2();
    Pow2Add(12, order);
    MaskIsMod(phys, 12);
    MaskIsMod(phys, 12 + order);
    AlignedToPage(phys, Pow2(order));
  }

  lemma AlignedToPage(phys: nat, m: nat)
    requires m > 0
    ensures phys % (4096 * m) == 0 ==> phys % 4096 == 0
  {
    if phys % (4096 * m) == 0 {
      var q := phys / (4096 * m);
      assert phys == (q * m) * 4096;
    }
  }

  lemma FreeTarget(phys: nat, order: nat)
    requires WellFormedFree(phys, order)
    ensures var b := BlockAt(Shr(phys, 12), order);
            Base(b) == Shr(phys, 12) && phys == Base(b) * PAGE_SIZE && Contains(Root(), b)
  {
    FreeTargetBase(phys, order);
    var page := Shr(phys, 12);
    assert page * 4096 < PAGES * 4096;
    PagesIsPow2();
    ShrBase(0, MAX_ORDER, page);
    ShrShr(page, order, MAX_ORDER - order);
  }

  lemma FreeTargetBase(phys: nat, order: nat)
    requires And(phys, 0xFFF) == 0 && And(phys, Pow2(12 + order) - 1) == 0
    ensures Shr(phys, 12) * 4096 == phys && Base(BlockAt(Shr(phys, 12), order)) == Shr(phys, 12)
  {
    var page, q := Shr(phys, 12), Shr(phys, 12 + order);
    assert Pow2(12) == 4096;
    MaskSplit(phys, 12);
    MaskSplit(phys, 12 + order);
    ShrShr(phys, 12, order);
    Pow2Add(12, order);
    Regroup(page, q, Pow2(order));
    BaseIsProduct(BlockAt(page, order));
  }

  lemma Regroup(page: nat, q: nat, m: nat)
    requires page * 4096 == q * (4096 * m)
    ensures page == q * m
  {
    assert q * (4096 * m) == (q * m) * 4096;
  }

  /** The base address of a block under the root passes the argument checks of a free
      and leads back to the block. */
  lemma BaseAddress(b: Block)
    requires Contains(Root(), b)
    ensures WellFormedFree(Base(b) * PAGE_SIZE, b.order)
    ensures BlockAt(Shr(Base(b) * PAGE_SIZE, 12), b.order) == b
    ensures Base(b) * 4096 + 4096 * Pow2(b.order) <= 0x4000_0000
  {
    hide Base, Pow2, And, Shr;
    var phys := Base(b) * PAGE_SIZE;
    BlockFits(b);
    BaseIn(b);
    RootOrder(b);
    BaseIsProduct(b);
    Pow2Add(12, b.order);
    assert Pow2(12) == PAGE_SIZE by { PageIsPow2(); }
    Rescale(b.idx, Pow2(b.order));
    MultipleMasks(phys, Base(b), 12);
    MultipleMasks(phys, b.idx, 12 + b.order);
  }

  lemma PageIsPow2()
    ensures Pow2(12) == PAGE_SIZE
  {}

  lemma MultipleMasks(v: nat, q: nat, k: nat)
    requires v == q * Pow2(k)
    ensures And(v, Pow2(k) - 1) == 0 && Shr(v, k) == q
  {
    hide And, Shr, Pow2;
    MaskIsMod(v, k);
    DivUnique(v, Pow2(k), q, 0);
  }

  lemma Rescale(i: nat, m: nat)
    ensures i * m * 4096 == i * (4096 * m)
  {}

  class PageAllocator {
    const nodeOf: nat -> nat
    const nodeCount: nat
    const frames: array<Frame>
    var heads: map<Slot, nat>
    var population: bool
    var freePageCount: nat
    var rejectedFrees: nat
    var doubleFrees: nat
    ghost var blocks: set<Block>
    ghost var lists: map<Slot, seq<nat>>
    ghost var managed: set<nat>

    /** `numa_policy_get_node_for_address`, with the fallback to node 0. */
    function Node(p: nat): nat
    {
      if nodeOf(p) < nodeCount then nodeOf(p) else 0
    }

    ghost function Snapshot(): State
      reads this, frames
    {
      State(frames[..], heads, blocks, lists)
    }

    ghost predicate Sound()
      reads this, frames
    {
      0 < nodeCount <= MAX_NODES && frames.Length == PAGES && Consistent(Snapshot(), p => Node(p))
    }

    /** Between calls the free blocks are also fully coalesced and counted. */
    ghost predicate Counted()
      reads this, frames
    {
      Sound() && Coalesced(blocks) && freePageCount == Weight(blocks)
    }

    /** Beyond that, every managed page is in exactly one of the two states. */
    ghost predicate Valid()
      reads this, frames
    {
      Counted() && Managed(managed, frames[..], blocks)
    }

    /** `buddy_reset_state`: nothing is free and nothing is handed out. */
    constructor (nodeOf: nat -> nat, nodeCount: nat)
      requires 0 < nodeCount <= MAX_NODES
      ensures Valid() && fresh(frames)
      ensures this.nodeOf == nodeOf && this.nodeCount == nodeCount
      ensures blocks == {} && managed == {} && freePageCount == 0
      ensures !population && rejectedFrees == 0 && doubleFrees == 0
      ensures forall p :: 0 <= p < PAGES ==> !frames[p].owned
    {
      this.nodeOf, this.nodeCount := nodeOf, nodeCount;
      frames := new Frame[PAGES](_ => Frame(0, false, 0, false));
      heads := map n, o | 0 <= n < MAX_NODES && 0 <= o <= MAX_ORDER :: Slot(n, o) := 0;
      lists := map n, o | 0 <= n < MAX_NODES && 0 <= o <= MAX_ORDER :: Slot(n, o) := [];
      blocks, managed := {}, {};
      population, freePageCount, rejectedFrees, doubleFrees := false, 0, 0, 0;
      new;
      assert heads.Keys == lists.Keys;
    }

    /** The two marking loops: pages [start, start + count) get the ownership mark. */
    method Mark(start: nat, count: nat, mark: bool)
      requires start + count <= frames.Length
      modifies frames
      ensures forall p :: 0 <= p < frames.Length ==>
                frames[p] == old(frames[p]).(owned := if start <= p < start + count then mark else old(frames[p].owned))
    {
      var offset := 0;
      while offset < count
        invariant offset <= count
        invariant forall p :: 0 <= p < frames.Length ==>
                frames[p] ==
                  old(frames[p]).(owned := if start <= p < start + offset then mark else old(frames[p].owned))
      {
        frames[start + offset] := frames[start + offset].(owned := mark);
        offset := offset + 1;
      }
    }

    /** `buddy_list_push` */
    method Push(order: nat, page: nat, ghost b: Block)
      requires Sound() && Contains(Root(), b) && b.order == order && Base(b) == page
      requires b !in blocks && Tiles(blocks + {b}) && !In(0, b)
      modifies this`blocks, this`lists, this`heads, frames
      ensures Sound()
      ensures blocks == old(blocks) + {b}
      ensures var k := Slot(Node(page), order);
              k in old(lists) && lists == old(lists)[k := [page] + old(lists)[k]]
      ensures forall p :: 0 <= p < PAGES ==> frames[p].owned == (old(frames[p].owned) && !In(p, b))
    {
      hide Consistent, Tiles, Contains, In, Base, FreePage;
      ghost var s := Snapshot();
      BlockFits(b);
      BaseIn(b);
      RootOrder(b);
      var k := Slot(Node(page), order);
      SlotKnown(s, p => Node(p), k);
      frames[page] := frames[page].(link := heads[k], isFree := true, order := order);
      heads := heads[k := page];
      blocks := blocks + {b};
      lists := lists[k := [page] + lists[k]];
      Mark(page, Pow2(order), false);
      forall p: nat ensures In(p, b) == (Base(b) <= p < Base(b) + Pow2(order)) { InIsInterval(b, p); }
      PushConsistent(s, Snapshot(), p => Node(p), b);
    }

    /** `buddy_list_pop_from_node` */
    method PopFromNode(node: nat, order: nat) returns (page: nat, ghost b: Block)
      requires Sound() && node < MAX_NODES && order <= MAX_ORDER
      modifies this`blocks, this`lists, this`heads, frames
      ensures Sound()
      ensures page == 0 <==> old(lists)[Slot(node, order)] == []
      ensures page == 0 ==> Snapshot() == old(Snapshot())
      ensures page != 0 ==> b.order == order && Base(b) == page && b in old(blocks) && blocks == old(blocks) - {b}
      ensures page != 0 ==> page == old(lists)[Slot(node, order)][0]
      ensures page != 0 ==> forall p :: 0 <= p < PAGES ==> frames[p].owned == (old(frames[p].owned) || In(p, b))
    {
      hide Consistent, Tiles, Contains, In, Base, FreePage;
      ghost var s := Snapshot();
      var k := Slot(node, order);
      SlotKnown(s, p => Node(p), k);
      page := heads[k];
      b := BlockAt(page, order);
      if page == 0 {
        return;
      }
      ListedBlock(s, p => Node(p), k, 0);
      BlockFits(b);
      heads := heads[k := frames[page].link];
      frames[page] := frames[page].(isFree := false);
      blocks := blocks - {b};
      lists := lists[k := RemoveAt(lists[k], 0)];
      Mark(page, Pow2(order), true);
      forall p: nat ensures In(p, b) == (Base(b) <= p < Base(b) + Pow2(order)) { InIsInterval(b, p); }
      TakeConsistent(s, Snapshot(), p => Node(p), k, 0, true);
    }

    /** The unlinking step of `buddy_list_remove_exact`. */
    method Unlink(k: Slot, previous: nat, current: nat, ghost i: nat)
      requires Sound() && k in lists && i < |lists[k]| && current == lists[k][i]
      requires previous == if i == 0 then 0 else lists[k][i - 1]
      modifies this`blocks, this`lists, this`heads, frames
      ensures Sound()
      ensures blocks == old(blocks) - {BlockAt(current, k.order)}
      ensures forall p :: 0 <= p < PAGES ==> frames[p].owned == old(frames[p].owned)
    {
      hide Consistent, Tiles, Contains, In, Base, FreePage, Linked, Distinct;
      ghost var s, l := Snapshot(), lists[k];
      if i > 0 { ListedBlock(s, p => Node(p), k, i - 1); }
      ListedBlock(s, p => Node(p), k, i);
      var next := frames[current].link;
      if previous != 0 {
        frames[previous] := frames[previous].(link := next);
      } else {
        heads := heads[k := next];
      }
      frames[current] := frames[current].(isFree := false);
      blocks := blocks - {BlockAt(current, k.order)};
      lists := lists[k := RemoveAt(l, i)];
      TakeConsistent(s, Snapshot(), p => Node(p), k, i, false);
    }

    /** `buddy_list_remove_exact` */
    method RemoveExact(node: nat, order: nat, page: nat) returns (found: bool)
      requires Sound() && node < MAX_NODES && order <= MAX_ORDER
      modifies this`blocks, this`lists, this`heads, frames
      ensures Sound()
      ensures found <==> page in old(lists)[Slot(node, order)]
      ensures !found ==> Snapshot() == old(Snapshot())
      ensures found ==> blocks == old(blocks) - {BlockAt(page, order)}
      ensures forall p :: 0 <= p < PAGES ==> frames[p].owned == old(frames[p].owned)
    {
      hide Consistent, Tiles, Contains, In, Base, FreePage, Shr;
      var k := Slot(node, order);
      SlotKnown(Snapshot(), p => Node(p), k);
      var previous: nat;
      ghost var i: nat;
      found, previous, i := Locate(k, page);
      if found {
        Unlink(k, previous, page, i);
      }
    }

    /** The walk along a list, with the page before the one that is looked for. */
    method Locate(k: Slot, page: nat) returns (found: bool, previous: nat, ghost i: nat)
      requires k in lists && k in heads && Linked(frames[..], heads[k], lists[k])
      ensures found <==> page in lists[k]
      ensures found ==> i < |lists[k]| && lists[k][i] == page && previous == if i == 0 then 0 else lists[k][i - 1]
    {
      ghost var l := lists[k];
      var current := heads[k];
      previous, i := 0, 0;
      while current != 0
        invariant i <= |l| && current == Nth(l, i) && page !in l[..i]
        invariant previous == if i == 0 then 0 else l[i - 1]
        decreases |l| - i
      {
        assert 0 < l[i] < frames.Length && frames[..][l[i]].link == Nth(l, i + 1);
        if current == page {
          return true, previous, i;
        }
        previous := current;
        current := frames[current].link;
        assert l[..i + 1] == l[..i] + [l[i]];
        i := i + 1;
      }
      assert i == |l|;
      assert l[..i] == l;
      return false, previous, i;
    }

    /** `buddy_range_is_allocated` */
    method RangeIsOwned(start: nat, count: nat) returns (all: bool)
      requires start + count <= frames.Length
      ensures all <==> forall p :: start <= p < start + count ==> frames[p].owned
    {
      for offset := 0 to count
        invariant forall p :: start <= p < start + offset ==> frames[p].owned
      {
        if !frames[start + offset].owned {
          return false;
        }
      }
      return true;
    }

    /** When a free is accepted: a well-formed range that is wholly handed out. */
    ghost predicate Accepts(phys: nat, order: nat)
      requires frames.Length == PAGES
      reads this, frames
    {
      && WellFormedFree(phys, order)
      && (population || forall p :: 0 <= p < PAGES && In(p, BlockAt(Shr(phys, 12), order)) ==> frames[p].owned)
    }

    /** The argument checks at the head of `buddy_insert_order`. */
    method CheckFree(phys: nat, order: nat) returns (ok: bool)
      requires frames.Length == PAGES
      modifies this`rejectedFrees, this`doubleFrees
      ensures ok <==> Accepts(phys, order)
      ensures rejectedFrees == old(rejectedFrees) + (if ok then 0 else 1)
      ensures doubleFrees == old(doubleFrees) + (if !ok && WellFormedFree(phys, order) then 1 else 0)
    {
      if order > MAX_ORDER || And(phys, 0xFFF) != 0 || phys >= MAX_PHYS || And(phys, Pow2(12 + order) - 1) != 0 {
        rejectedFrees := rejectedFrees + 1;
        return false;
      }
      if !population {
        ghost var b := BlockAt(Shr(phys, 12), order);
        FreeTarget(phys, order);
        BlockFits(b);
        forall p: nat ensures In(p, b) == (Base(b) <= p < Base(b) + Pow2(order)) { InIsInterval(b, p); }
        var all := RangeIsOwned(Shr(phys, 12), Pow2(order));
        if !all {
          rejectedFrees := rejectedFrees + 1;
          doubleFrees := doubleFrees + 1;
          return false;
        }
      }
      return true;
    }

    /** `buddy_insert_order`: a refused free changes nothing but the refusal counters;
        an accepted one adds exactly its pages to the free pages, fully coalesced. */
    method InsertOrder(phys: nat, order: nat)
      requires Valid()
      requires population && WellFormedFree(phys, order) ==>
                 forall p :: In(p, BlockAt(Shr(phys, 12), order)) ==> p != 0 && !FreePage(blocks, p)
      modifies this, frames
      ensures Valid() && population == old(population)
      ensures !old(Accepts(phys, order)) ==> Snapshot() == old(Snapshot()) && freePageCount == old(freePageCount)
      ensures rejectedFrees == old(rejectedFrees) + (if old(Accepts(phys, order)) then 0 else 1)
      ensures doubleFrees == old(doubleFrees) +
              (if !old(Accepts(phys, order)) && WellFormedFree(phys, order) then 1 else 0)
      ensures managed == old(managed) + (if population && WellFormedFree(phys, order)
                                         then BlockPages(BlockAt(Shr(phys, 12), order)) else {})
      ensures old(Accepts(phys, order)) ==> var b := BlockAt(Shr(phys, 12), order);
                && freePageCount == old(freePageCount) + Pow2(order)
                && (forall p :: FreePage(blocks, p) <==> old(FreePage(blocks, p)) || In(p, b))
                && (forall p :: 0 <= p < PAGES ==> frames[p].owned == (old(frames[p].owned) && !In(p, b)))
    {
      hide Consistent, Coalesced, Contains, In, Base, FreePage, WellFormedFree, Managed, BlockPages;
      var ok := CheckFree(phys, order);
      if !ok {
        return;
      }
      var b := BlockAt(Shr(phys, 12), order);
      FreeTarget(phys, order);
      if !population {
        OwnedBlockFits(Snapshot(), p => Node(p), b);
        ManagedAlready(managed, frames[..], blocks, b);
      }
      ghost var f0, fs0 := blocks, frames[..];
      Coalesce(b, Shr(phys, 12), order);
      ManagedAdds(managed, fs0, frames[..], f0, blocks, b);
      managed := managed + BlockPages(b);
    }

    /** One round of the merge loop: take the buddy out of its list if it is free
        at the same order. */
    method TryMerge(ghost cur: Block, current: nat, order: nat) returns (merged: bool, up: nat)
      requires Sound() && order < MAX_ORDER && cur.order == order && Base(cur) == current && Contains(Root(), cur)
      modifies this`blocks, this`lists, this`heads, frames
      ensures Sound()
      ensures merged <==> Sibling(cur) in old(blocks)
      ensures blocks == if merged then old(blocks) - {Sibling(cur)} else old(blocks)
      ensures merged ==> up == Base(Parent(cur))
      ensures forall p :: 0 <= p < PAGES ==> frames[p].owned == old(frames[p].owned)
    {
      hide Consistent, Tiles, Contains, In, Base, FreePage;
      ghost var sib := Sibling(cur);
      var buddy := Xor(current, Pow2(order));
      SiblingInRange(cur);
      BlockFits(sib);
      BuddyAddress(cur);
      BaseIn(sib);
      TagsDecide(Snapshot(), p => Node(p), sib);
      if !(frames[buddy].isFree && frames[buddy].order == order) {
        return false, current;
      }
      merged := RemoveExact(Node(buddy), order, buddy);
      up := if buddy < current then buddy else current;
    }

    /** The merge loop of `buddy_insert_order`. */
    method Coalesce(ghost b: Block, page: nat, requestedOrder: nat)
      requires Counted() && Contains(Root(), b) && Base(b) == page && b.order == requestedOrder
      requires forall p :: In(p, b) ==> p != 0 && !FreePage(blocks, p)
      modifies this`blocks, this`lists, this`heads, this`freePageCount, frames
      ensures Counted()
      ensures freePageCount == old(freePageCount) + Pow2(requestedOrder)
      ensures forall p :: FreePage(blocks, p) <==> old(FreePage(blocks, p)) || In(p, b)
      ensures forall p :: 0 <= p < PAGES ==> frames[p].owned == (old(frames[p].owned) && !In(p, b))
    {
      hide Consistent, Tiles, Coalesced, Contains, In, Base, FreePage, Weight;
      ghost var f0, cur := blocks, b;
      Unmanaged(Snapshot(), p => Node(p));
      AddDisjoint(f0, b);
      AddedPages(f0, b);
      var current, order := page, requestedOrder;
      freePageCount := freePageCount + Pow2(requestedOrder);
      RootOrder(b);
      while order < MAX_ORDER
        invariant Sound() && Coalesced(blocks)
        invariant order <= MAX_ORDER && cur.order == order && Base(cur) == current && Contains(Root(), cur)
        invariant cur !in blocks && Tiles(blocks + {cur})
        invariant freePageCount == Weight(blocks) + Pow2(order) == old(freePageCount) + Pow2(requestedOrder)
        invariant forall p: nat :: FreePage(blocks + {cur}, p) <==> FreePage(f0, p) || In(p, b)
        invariant forall p :: 0 <= p < PAGES ==> frames[p].owned == old(frames[p].owned)
      {
        ghost var f := blocks;
        Unmanaged(Snapshot(), p => Node(p));
        var merged, up := TryMerge(cur, current, order);
        if !merged {
          break;
        }
        MergeRound(f, cur);
        SiblingInRange(cur);
        current, cur, order := up, Parent(cur), order + 1;
      }
      ghost var f, fs := blocks, frames[..];
      AddedPages(f, cur);
      Unmanaged(Snapshot(), p => Node(p));
      assert !In(0, cur);
      Push(order, current, cur);
      CoalescedAdd(f, cur);
      WeightAdd(f, cur);
      forall p | 0 <= p < PAGES ensures frames[p].owned == (old(frames[p].owned) && !In(p, b)) {
        assert fs[p].owned == old(frames[p].owned);
        assert FreePage(f + {cur}, p) <==> FreePage(f, p) || In(p, cur);
      }
    }

    /** The scan over the orders of one node in `buddy_remove_order`. */
    method FindOrder(node: nat, r: nat) returns (order: nat)
      requires Sound() && node < MAX_NODES && r <= MAX_ORDER
      ensures r <= order <= MAX_ORDER + 1
      ensures forall o :: r <= o < order ==> Slot(node, o) in lists && lists[Slot(node, o)] == []
      ensures order <= MAX_ORDER ==> Slot(node, order) in lists && lists[Slot(node, order)] != []
    {
      hide Consistent;
      order := r;
      while order <= MAX_ORDER
        invariant r <= order <= MAX_ORDER + 1
        invariant forall o :: r <= o < order ==> Slot(node, o) in lists && lists[Slot(node, o)] == []
      {
        SlotKnown(Snapshot(), p => Node(p), Slot(node, order));
        if heads[Slot(node, order)] != 0 {
          return;
        }
        order := order + 1;
      }
    }

    /** The node search of `buddy_remove_order`: the local node first, then the
        others in cyclic order. */
    method FindSlot(localNode: nat, r: nat) returns (found: bool, node: nat, order: nat)
      requires Sound() && localNode < nodeCount && r <= MAX_ORDER
      ensures found ==> node < nodeCount && r <= order <= MAX_ORDER
      ensures found ==> Slot(node, order) in lists && lists[Slot(node, order)] != []
      ensures found ==> Preferred(lists, localNode, r, node, order)
      ensures !found ==> forall n, o :: 0 <= n < nodeCount && r <= o <= MAX_ORDER ==>
                Slot(n, o) in lists && lists[Slot(n, o)] == []
    {
      hide Consistent, Cyclic;
      node := localNode;
      CyclicCovers(localNode, localNode);
      order := FindOrder(node, r);
      if order <= MAX_ORDER {
        assert EmptyBefore(lists, localNode, r, 0);
        return true, node, order;
      }
      var i := 1;
      while i < nodeCount
        invariant 1 <= i <= nodeCount
        invariant forall j, o :: 0 <= j < i && r <= o <= MAX_ORDER ==>
                    Slot(Cyclic(localNode, j), o) in lists && lists[Slot(Cyclic(localNode, j), o)] == []
      {
        node := Cyclic(localNode, i);
        order := FindOrder(node, r);
        if order <= MAX_ORDER {
          assert EmptyBefore(lists, localNode, r, i);
          return true, node, order;
        }
        i := i + 1;
      }
      forall n, o | 0 <= n < nodeCount && r <= o <= MAX_ORDER
        ensures Slot(n, o) in lists && lists[Slot(n, o)] == []
      {
        CyclicCovers(localNode, n);
      }
      return false, node, order;
    }

    /** The first `j` nodes from the local one on have nothing of order `r` or more. */
    ghost predicate EmptyBefore(lists: map<Slot, seq<nat>>, localNode: nat, r: nat, j: nat)
      requires localNode < nodeCount
    {
      forall i, o :: 0 <= i < j && i < nodeCount && r <= o <= MAX_ORDER ==>
        Slot(Cyclic(localNode, i), o) in lists && lists[Slot(Cyclic(localNode, i), o)] == []
    }

    /** The slot an allocation is served from: the nearest node that has anything, and there
        the smallest sufficient order. */
    ghost predicate Preferred(lists: map<Slot, seq<nat>>, localNode: nat, r: nat, node: nat, order: nat)
      requires localNode < nodeCount
    {
      && (exists j :: 0 <= j < nodeCount && node == Cyclic(localNode, j) && EmptyBefore(lists, localNode, r, j))
      && (forall o :: r <= o < order ==> Slot(node, o) in lists && lists[Slot(node, o)] == [])
    }

    /** Page `p` belongs to node `n`: by the map from pages to nodes, or to node 0 when that
        names none. */
    ghost predicate OnNode(p: nat, n: nat)
    {
      nodeOf(p) == n || (n == 0 && nodeOf(p) >= nodeCount)
    }

    /** A list of node `n` holds exactly the bases of the free blocks of its order there. */
    lemma ListsByNode(n: nat, o: nat, p: nat)
      requires Sound() && n < nodeCount && o <= MAX_ORDER
      ensures Slot(n, o) in lists
      ensures p in lists[Slot(n, o)] <==>
                p < PAGES && BlockAt(p, o) in blocks && Base(BlockAt(p, o)) == p && OnNode(p, n)
    {
      hide Tiles, Contains, In, Base, FreePage, Threaded, Exclusive, Shr;
      SlotKnown(Snapshot(), q => Node(q), Slot(n, o));
      if p < PAGES && BlockAt(p, o) in blocks && Base(BlockAt(p, o)) == p {
        TagsDecide(Snapshot(), q => Node(q), BlockAt(p, o));
      }
    }

    /** Steps from one node up to another, wrapping from the last to node 0. */
    ghost function Steps(start: nat, n: nat): int
    {
      if n >= start then n - start else n + nodeCount - start
    }

    /** No free block of order `r` or more lies on node `n`. */
    ghost predicate NoneOn(bs: set<Block>, r: nat, n: nat)
    {
      forall a :: a in bs && a.order >= r ==> !OnNode(Base(a), n)
    }

    /** Page `p` lies on the first node, counting upwards from the local one, that has a free
        block of order `r` or more. */
    ghost predicate Nearest(bs: set<Block>, localNode: nat, r: nat, p: nat)
    {
      exists n: nat :: n < nodeCount && OnNode(p, n)
        && forall q: nat :: q < nodeCount && Steps(localNode, q) < Steps(localNode, n) ==> NoneOn(bs, r, q)
    }

    lemma PreferredIsNearest(localNode: nat, r: nat, node: nat, order: nat)
      requires Sound() && localNode < nodeCount && r <= order <= MAX_ORDER
      requires Preferred(lists, localNode, r, node, order)
      requires Slot(node, order) in lists && lists[Slot(node, order)] != []
      ensures Nearest(blocks, localNode, r, lists[Slot(node, order)][0])
      ensures !NoneOn(blocks, r, localNode) ==> OnNode(lists[Slot(node, order)][0], localNode)
    {
      hide Consistent, Base, NoneOn;
      var j :| 0 <= j < nodeCount && node == Cyclic(localNode, j) && EmptyBefore(lists, localNode, r, j);
      WrapMod(localNode, j, nodeCount);
      assert Steps(localNode, node) == j;
      var p := lists[Slot(node, order)][0];
      assert p in lists[Slot(node, order)];
      ListsByNode(node, order, p);
      forall q: nat | q < nodeCount && Steps(localNode, q) < j ensures NoneOn(blocks, r, q) {
        WrapMod(localNode, Steps(localNode, q), nodeCount);
        assert Cyclic(localNode, Steps(localNode, q)) == q;
        NoneListed(localNode, r, j, Steps(localNode, q));
      }
    }

    lemma NoneListed(localNode: nat, r: nat, j: nat, i: nat)
      requires Sound() && localNode < nodeCount && EmptyBefore(lists, localNode, r, j) && i < j && i < nodeCount
      ensures NoneOn(blocks, r, Cyclic(localNode, i))
    {
      hide Consistent, Base;
      var n := Cyclic(localNode, i);
      forall a | a in blocks && a.order >= r ensures !OnNode(Base(a), n) { NotListed(a, n); }
    }

    /** A node whose lists are empty from some order on has no free block of such an order. */
    lemma NotListed(a: Block, n: nat)
      requires Sound() && a in blocks && n < nodeCount
      ensures a.order <= MAX_ORDER && Slot(n, a.order) in lists
      ensures lists[Slot(n, a.order)] == [] ==> !OnNode(Base(a), n)
    {
      Unmanaged(Snapshot(), q => Node(q));
      assert Contains(Root(), a);
      RootOrder(a);
      BlockFits(a);
      BaseIn(a);
      hide Consistent, Base, Contains, Tiles;
      ListsByNode(n, a.order, Base(a));
    }

    function Cyclic(start: nat, i: nat): (n: nat)
      requires start < nodeCount && i < nodeCount
      ensures n < nodeCount
    {
      (start + i) % nodeCount
    }

    /** Every node is visited. */
    lemma CyclicCovers(start: nat, n: nat)
      requires start < nodeCount && n < nodeCount
      ensures exists j :: 0 <= j < nodeCount && Cyclic(start, j) == n
      ensures Cyclic(start, 0) == start
    {
      var j := if n >= start then n - start else n + nodeCount - start;
      WrapMod(start, j, nodeCount);
      WrapMod(start, 0, nodeCount);
      assert Cyclic(start, j) == n;
    }

    /** `buddy_remove_order`: fails exactly when no aligned run of the requested order
        is free on any node, and otherwise hands out one such run. */
    method RemoveOrder(r: nat, localNode: nat) returns (phys: nat, ghost b: Block)
      requires Valid() && localNode < nodeCount
      modifies this, frames
      ensures Valid()
      ensures phys == 0 <==> !(exists a :: Contains(Root(), a) && a.order == r && AllFree(old(blocks), a))
      ensures phys == 0 ==> Snapshot() == old(Snapshot()) && freePageCount == old(freePageCount)
      ensures phys != 0 ==>
                && phys == Base(b) * 4096 && b.order == r && Contains(Root(), b) && AllFree(old(blocks), b)
                && freePageCount + Pow2(r) == old(freePageCount)
                && (forall p :: FreePage(blocks, p) <==> old(FreePage(blocks, p)) && !In(p, b))
                && (forall p :: 0 <= p < PAGES ==> frames[p].owned == (old(frames[p].owned) || In(p, b)))
                && (forall p :: 0 <= p < PAGES && In(p, b) ==> !old(frames[p].owned)) && !In(0, b)
      ensures managed == old(managed)
      ensures phys != 0 ==>
                exists node, order ::
                  && Slot(node, order) in old(lists) && old(lists)[Slot(node, order)] != []
                  && Preferred(old(lists), localNode, r, node, order)
                  && phys == old(lists)[Slot(node, order)][0] * PAGE_SIZE
      ensures phys != 0 ==> Nearest(old(blocks), localNode, r, Base(b))
      ensures phys != 0 && !NoneOn(old(blocks), r, localNode) ==> OnNode(Base(b), localNode)
      ensures population == old(population) && rejectedFrees == old(rejectedFrees) && doubleFrees == old(doubleFrees)
    {
      hide Consistent, Tiles, Coalesced, In, Base, FreePage, Weight, AllFree, Contains, Preferred, Managed, Exclusive;
      hide Nearest, OnNode, NoneOn;
      phys, b := 0, Root();
      if r > MAX_ORDER {
        NoRunAboveRoot(r);
        return;
      }
      ghost var f0, fs0 := blocks, frames[..];
      Unmanaged(Snapshot(), p => Node(p));
      RunExistsIffBlock(f0, r);
      var found, node, order := FindSlot(localNode, r);
      if !found {
        EmptyLists(Snapshot(), p => Node(p), nodeCount, r);
        return;
      }
      PreferredIsNearest(localNode, r, node, order);
      var page: nat;
      page, b := PopFromNode(node, order);
      ghost var a := b;
      MemberPages(f0, a);
      CoalescedSubset(blocks, f0);
      assert blocks + {a} == f0;
      b := Split(page, order, r, a, f0);
      freePageCount := freePageCount - Pow2(r);
      phys := page * PAGE_SIZE;
      Handed(f0, blocks, b);
      ManagedKeeps(managed, fs0, frames[..], f0, blocks, b);
      NotOwned(fs0, f0, b);
    }

    /** Freeing what was just handed out is accepted and restores every free block, every
        ownership mark and the count, whatever was split and merged on the way. */
    method AllocateThenFree(r: nat, localNode: nat) returns (phys: nat)
      requires Valid() && localNode < nodeCount
      modifies this, frames
      ensures Valid() && blocks == old(blocks) && freePageCount == old(freePageCount) && managed == old(managed)
      ensures forall p :: 0 <= p < PAGES ==> frames[p].owned == old(frames[p].owned)
      ensures rejectedFrees == old(rejectedFrees) && doubleFrees == old(doubleFrees)
    {
      hide Consistent, Tiles, Coalesced, In, Base, FreePage, Weight, AllFree, Contains, Preferred, Managed;
      ghost var b;
      ghost var f0 := blocks;
      Unmanaged(Snapshot(), p => Node(p));
      phys, b := RemoveOrder(r, localNode);
      if phys == 0 {
        return;
      }
      BaseAddress(b);
      ManagedAlready(managed, frames[..], blocks, b);
      ghost var f1 := blocks;
      InsertOrder(phys, r);
      Unmanaged(Snapshot(), p => Node(p));
      FreeUndoesAllocate(f0, f1, blocks, b);
    }

    /** Two runs handed out and given back, in either order. */
    method AllocateTwoFreeTwo(q: nat, r: nat, localNode: nat, firstFirst: bool) returns (one: nat, two: nat)
      requires Valid() && localNode < nodeCount && !population
      modifies this, frames
      ensures Valid() && blocks == old(blocks) && freePageCount == old(freePageCount) && managed == old(managed)
      ensures forall p :: 0 <= p < PAGES ==> frames[p].owned == old(frames[p].owned)
      ensures rejectedFrees == old(rejectedFrees) && doubleFrees == old(doubleFrees)
    {
      hide Consistent, Tiles, Coalesced, In, Base, FreePage, Weight, AllFree, Contains, Preferred, Managed;
      ghost var s := Snapshot();
      ghost var a, b;
      one, a := RemoveOrder(q, localNode);
      if one != 0 { BaseAddress(a); }
      two, b := RemoveOrder(r, localNode);
      if two != 0 { BaseAddress(b); }
      GiveBack(if firstFirst then one else two, if firstFirst then q else r);
      GiveBack(if firstFirst then two else one, if firstFirst then r else q);
      BlocksFollowOwners(s, Snapshot(), p => Node(p), managed);
    }

    /** A free, unless nothing was handed out. */
    method GiveBack(phys: nat, order: nat)
      requires Valid() && !population && (phys != 0 ==> Accepts(phys, order))
      modifies this, frames
      ensures Valid() && population == old(population) && managed == old(managed)
      ensures rejectedFrees == old(rejectedFrees) && doubleFrees == old(doubleFrees)
      ensures freePageCount == old(freePageCount) + if phys != 0 then Pow2(order) else 0
      ensures forall p :: 0 <= p < PAGES ==>
                frames[p].owned == (old(frames[p].owned) && !(phys != 0 && In(p, BlockAt(Shr(phys, 12), order))))
    {
      hide Consistent, Tiles, Coalesced, In, Base, FreePage, Weight, Managed, Shr, Pow2, WellFormedFree;
      if phys != 0 { InsertOrder(phys, order); }
    }

    /** The split loop of `buddy_remove_order`. */
    method Split(page: nat, start: nat, r: nat, ghost a: Block, ghost f0: set<Block>) returns (ghost b: Block)
      requires Sound() && r <= start <= MAX_ORDER && a.order == start && Base(a) == page
      requires a !in blocks && f0 == blocks + {a} && Tiles(f0) && Coalesced(blocks)
      requires forall p :: 0 <= p < PAGES && In(p, a) ==> frames[p].owned
      requires !In(0, a)
      modifies this`blocks, this`lists, this`heads, frames
      ensures Sound() && Coalesced(blocks)
      ensures b.order == r && Base(b) == page && b !in blocks && Tiles(blocks + {b})
      ensures Weight(blocks) + Pow2(r) == Weight(f0)
      ensures forall p :: FreePage(blocks + {b}, p) <==> FreePage(f0, p)
      ensures forall p :: In(p, b) ==> In(p, a)
      ensures forall p :: 0 <= p < PAGES ==> frames[p].owned == (old(frames[p].owned) && (In(p, a) ==> In(p, b)))
    {
      hide Consistent, Tiles, Coalesced, In, Base, FreePage, Weight, Contains;
      b := a;
      var order := start;
      WeightAdd(blocks, a);
      while order > 0
        invariant 0 <= order <= start
        invariant b.order == (if order >= r then order else r)
        invariant Base(b) == page && b !in blocks && Tiles(blocks + {b}) && !In(0, b)
        invariant Sound() && Coalesced(blocks)
        invariant Weight(blocks) + Pow2(b.order) == Weight(f0)
        invariant forall p :: FreePage(blocks + {b}, p) <==> FreePage(f0, p)
        invariant forall p :: In(p, b) ==> In(p, a)
        invariant forall p :: 0 <= p < PAGES ==> frames[p].owned == (old(frames[p].owned) && (In(p, a) ==> In(p, b)))
      {
        order := order - 1;
        if order >= r {
          ghost var f := blocks;
          SplitRound(f, b);
          Push(order, page + Pow2(order), Right(b));
          b := Left(b);
        }
      }
    }
  }

  /** The free blocks are a function of what is managed and what is handed out, so giving
      pages back in any order and in any portions leads to the same blocks. */
  lemma BlocksFollowOwners(s: State, t: State, node: nat -> nat, managed: set<nat>)
    requires Consistent(s, node) && Coalesced(s.blocks) && Managed(managed, s.fs, s.blocks)
    requires Consistent(t, node) && Coalesced(t.blocks) && Managed(managed, t.fs, t.blocks)
    requires forall p :: 0 <= p < PAGES ==> s.fs[p].owned == t.fs[p].owned
    ensures s.blocks == t.blocks
  {
    Unmanaged(s, node);
    Unmanaged(t, node);
    hide FreePage, Threaded, Tagged, Filed, Tiles, Coalesced;
    CanonicalIsUnique(s.blocks, t.blocks);
  }

  /** A free run meets nothing that is handed out. */
  lemma NotOwned(fs: seq<Frame>, blocks: set<Block>, b: Block)
    requires Exclusive(fs, blocks) && AllFree(blocks, b) && |fs| == PAGES
    ensures !In(0, b) && forall p :: 0 <= p < PAGES && In(p, b) ==> !fs[p].owned
  {}

  lemma NoRunAboveRoot(r: nat)
    requires r > MAX_ORDER
    ensures forall a: Block :: a.order == r ==> !Contains(Root(), a)
  {}
}
