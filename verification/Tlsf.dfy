/** The TLSF allocator of kernel/kernel/memory/tlsf.c as it runs: headers in memory,
    doubly linked free lists and two levels of bitmap, refining the pool of `TlsfPool`.

    The header words (`size` with its flags, `prev_phys`) and the link words inside a
    free payload (`free_prev`, `free_next`) are two memories, both keyed by the address
    of the block; address 0 is the null pointer. */
module Tlsf {
  import opened Bits
  import opened TlsfMapping
  import opened TlsfPool
  import opened TlsfLists

  datatype Tag = Tag(word: nat, prevPhys: nat)

  // ------------------------------------------------------------ the size word

  function GetSize(w: nat): nat { AndNot(w, 3) }
  predicate IsFree(w: nat) { And(w, 1) != 0 }
  predicate IsPrevFree(w: nat) { And(w, 2) != 0 }
  function SetSize(w: nat, size: nat): nat { Or(size, And(w, 3)) }
  function SetFree(w: nat): nat { Or(w, 1) }
  function SetUsed(w: nat): nat { AndNot(w, 1) }
  function SetPrevFree(w: nat): nat { Or(w, 2) }
  function SetPrevUsed(w: nat): nat { AndNot(w, 2) }

  function Pack(size: nat, free: bool, prevFree: bool): nat
  {
    size + Digit(free) + 2 * Digit(prevFree)
  }

  lemma {:induction false} OrZero(a: nat)
    ensures Or(a, 0) == a
  {
    if a > 0 { OrZero(a / 2); }
  }

  lemma {:induction false} AndNotZero(a: nat)
    ensures AndNot(a, 0) == a
  {
    if a > 0 { AndNotZero(a / 2); }
  }

  /** The two low bits of `w`, and the operators on them. */
  lemma LowBits(w: nat, q: nat, b0: bool, b1: bool)
    requires w == 4 * q + Digit(b0) + 2 * Digit(b1)
    ensures And(w, 1) == Digit(b0) && And(w, 2) == 2 * Digit(b1) && And(w, 3) == Digit(b0) + 2 * Digit(b1)
    ensures AndNot(w, 3) == 4 * q && AndNot(w, 1) == w - Digit(b0) && AndNot(w, 2) == w - 2 * Digit(b1)
    ensures Or(w, 1) == w - Digit(b0) + 1 && Or(w, 2) == w - 2 * Digit(b1) + 2
  {
    assert w / 2 == 2 * q + Digit(b1) && w % 2 == Digit(b0);
    assert w / 2 / 2 == q && w / 2 % 2 == Digit(b1);
    OrZero(q);
    OrZero(w / 2);
    AndNotZero(q);
    AndNotZero(w / 2);
    assert And(w / 2, 0) == 0 && And(q, 0) == 0;
    assert And(w / 2, 1) == Digit(b1);
    assert AndNot(w / 2, 1) == 2 * q;
    assert Or(w / 2, 1) == 2 * q + 1;
  }

  /** Sizes are multiples of 8, so the flags and the size never disturb each other. */
  lemma PackOps(size: nat, free: bool, prevFree: bool)
    requires size % 8 == 0
    ensures var w := Pack(size, free, prevFree);
            && GetSize(w) == size && IsFree(w) == free && IsPrevFree(w) == prevFree
            && SetFree(w) == Pack(size, true, prevFree) && SetUsed(w) == Pack(size, false, prevFree)
            && SetPrevFree(w) == Pack(size, free, true) && SetPrevUsed(w) == Pack(size, free, false)
            && And(w, 3) == Digit(free) + 2 * Digit(prevFree)
  {
    LowBits(Pack(size, free, prevFree), size / 4, free, prevFree);
  }

  lemma PackSetSize(size: nat, free: bool, prevFree: bool, size': nat)
    requires size % 8 == 0 && size' % 8 == 0
    ensures SetSize(Pack(size, free, prevFree), size') == Pack(size', free, prevFree)
  {
    PackOps(size, free, prevFree);
    hide Or, And;
    OrLow(size', size' / 8, free, prevFree);
  }

  /** Two low flags join a multiple of 8 by addition. */
  lemma OrLow(s: nat, e: nat, b0: bool, b1: bool)
    requires s == 8 * e
    ensures Or(s, Digit(b0) + 2 * Digit(b1)) == s + Digit(b0) + 2 * Digit(b1)
  {
    var h, f := 4 * e, Digit(b0) + 2 * Digit(b1);
    assert s / 2 == h && s % 2 == 0 && h / 2 == 2 * e && h % 2 == 0 && f / 2 == Digit(b1) && f % 2 == Digit(b0);
    OrZero(s);
    OrZero(h);
    OrZero(2 * e);
    assert Or(h, Digit(b1)) == h + Digit(b1);
  }

  // ------------------------------------------------------------ headers in memory

  /** The header block `k` of the chain must carry. */
  function Entry(bs: seq<Blk>, k: nat): Tag
    requires k < |bs|
  {
    Tag(Pack(bs[k].size, bs[k].free, k > 0 && bs[k - 1].free), if k > 0 then bs[k - 1].addr else 0)
  }

  /** Headers say exactly what the chain says; the sentinel has size 0. */
  ghost predicate Mirrors(tag: map<nat, Tag>, bs: seq<Blk>, sentinel: nat)
  {
    && (forall k :: 0 <= k < |bs| ==> bs[k].addr in tag && tag[bs[k].addr] == Entry(bs, k))
    && sentinel in tag && tag[sentinel].word == 0
  }

  /** Rewriting the headers of a spliced region and of the block after it is enough. */
  lemma MirrorsSplice(tag: map<nat, Tag>, tag': map<nat, Tag>, bs: seq<Blk>, sentinel: nat, i: nat, j: nat,
                      mid: seq<Blk>)
    requires Mirrors(tag, bs, sentinel) && i < j <= |bs| && |mid| > 0
    requires sentinel in tag' && tag'[sentinel].word == 0
    requires forall k :: 0 <= k < |bs| && (k < i || k > j) ==> bs[k].addr in tag' && tag'[bs[k].addr] == tag[bs[k].addr]
    requires var r := Splice(bs, i, j, mid);
             forall k :: i <= k <= i + |mid| && k < |r| ==> r[k].addr in tag' && tag'[r[k].addr] == Entry(r, k)
    ensures Mirrors(tag', Splice(bs, i, j, mid), sentinel)
  {
    var r := Splice(bs, i, j, mid);
    forall k | 0 <= k < |r| ensures r[k].addr in tag' && tag'[r[k].addr] == Entry(r, k) {
      if k < i {
        assert r[k] == bs[k] && Entry(r, k) == Entry(bs, k);
      } else if k > i + |mid| {
        var g := k - i - |mid| + j;
        assert r[k] == bs[g] && r[k - 1] == bs[g - 1] && Entry(r, k) == Entry(bs, g);
      }
    }
  }

  /** The block after block `i`, or the sentinel. */
  function After(bs: seq<Blk>, i: nat, sentinel: nat): nat
  {
    if i + 1 < |bs| then bs[i + 1].addr else sentinel
  }

  lemma AfterIsEnd(bs: seq<Blk>, lo: nat, hi: nat, i: nat)
    requires Tiled(bs, lo, hi) && i < |bs|
    ensures After(bs, i, hi) == End(bs[i])
  {}

  /** Reading a header through the bit operators gives the chain's values. */
  lemma ReadEntry(tag: map<nat, Tag>, bs: seq<Blk>, lo: nat, hi: nat, k: nat)
    requires Mirrors(tag, bs, hi) && Tiled(bs, lo, hi) && k < |bs|
    ensures bs[k].addr in tag && tag[bs[k].addr] == Entry(bs, k) && bs[k].size % 8 == 0 && bs[k].size >= MIN_BLOCK
    ensures var t := tag[bs[k].addr];
            && GetSize(t.word) == bs[k].size && IsFree(t.word) == bs[k].free
            && IsPrevFree(t.word) == (k > 0 && bs[k - 1].free)
            && t.prevPhys == (if k > 0 then bs[k - 1].addr else 0)
            && t.word == Pack(bs[k].size, bs[k].free, k > 0 && bs[k - 1].free)
  {
    assert Sized(bs[k]);
    PackOps(bs[k].size, bs[k].free, k > 0 && bs[k - 1].free);
  }

  lemma ReadSentinel()
    ensures GetSize(0) == 0 && !IsFree(0)
  {}

  // ------------------------------------------------------------ headers across a call

  /** The headers once block `i` has been carved for `size` bytes. */
  ghost function CarvedTag(tag: map<nat, Tag>, bs: seq<Blk>, i: nat, size: nat): map<nat, Tag>
    requires i < |bs|
  {
    var b := bs[i];
    var kept := if Splits(b, size) then size else b.size;
    var t1 := tag[b.addr := Tag(Pack(kept, false, false), Entry(bs, i).prevPhys)];
    var t2 := if Splits(b, size) then
              t1[Rest(b, size).addr := Tag(Pack(Rest(b, size).size, true, false), b.addr)] else t1;
    if i + 1 < |bs| then
      var n := bs[i + 1];
      if Splits(b, size) then t2[n.addr := Tag(Pack(n.size, n.free, true), Rest(b, size).addr)]
      else t2[n.addr := Tag(Pack(n.size, n.free, false), b.addr)]
    else t2
  }

  /** Addresses of the chain, of a carved rest and of the sentinel are all different. */
  lemma CarvedKeys(bs: seq<Blk>, lo: nat, hi: nat, i: nat, size: nat, k: nat)
    requires Tiled(bs, lo, hi) && i < |bs| && k < |bs|
    ensures k != i ==> bs[k].addr != bs[i].addr
    ensures i + 1 < |bs| && k != i + 1 ==> bs[k].addr != bs[i + 1].addr
    ensures Splits(bs[i], size) ==> bs[k].addr != Rest(bs[i], size).addr && Rest(bs[i], size).addr < hi
    ensures bs[k].addr < hi
  {
    if k < i { Ascending(bs, lo, hi, k, i); }
    if i < k { Ascending(bs, lo, hi, i, k); }
    if i + 1 < |bs| && k < i + 1 { Ascending(bs, lo, hi, k, i + 1); }
    if i + 1 < |bs| && i + 1 < k { Ascending(bs, lo, hi, i + 1, k); }
    if k + 1 < |bs| { Ascending(bs, lo, hi, k, |bs| - 1); }
    if i + 1 < |bs| { Ascending(bs, lo, hi, i, |bs| - 1); }
  }

  lemma CarvedEntries(tag: map<nat, Tag>, bs: seq<Blk>, lo: nat, hi: nat, i: nat, size: nat, k: nat)
    requires Tiled(bs, lo, hi) && Coalesced(bs) && i < |bs| && bs[i].free
    requires var r := Splice(bs, i, i + 1, Carve(bs[i], size)); i <= k <= i + |Carve(bs[i], size)| && k < |r|
    ensures var r := Splice(bs, i, i + 1, Carve(bs[i], size));
            r[k].addr in CarvedTag(tag, bs, i, size) && CarvedTag(tag, bs, i, size)[r[k].addr] == Entry(r, k)
  {
    var mid := Carve(bs[i], size);
    var r := Splice(bs, i, i + 1, mid);
    CarvedKeys(bs, lo, hi, i, size, i);
    if i + 1 < |bs| { CarvedKeys(bs, lo, hi, i, size, i + 1); }
    assert i > 0 ==> r[i - 1] == bs[i - 1] && !bs[i - 1].free;
    if k < i + |mid| { assert r[k] == mid[k - i]; } else { assert r[k] == bs[i + 1]; }
    if k > i { assert r[k - 1] == mid[k - 1 - i]; }
    hide Tiled, Coalesced, Splice;
  }

  lemma CarvedOther(tag: map<nat, Tag>, bs: seq<Blk>, i: nat, size: nat, x: nat)
    requires i < |bs| && x in tag && x != bs[i].addr && (i + 1 < |bs| ==> x != bs[i + 1].addr)
    requires Splits(bs[i], size) ==> x != Rest(bs[i], size).addr
    ensures x in CarvedTag(tag, bs, i, size) && CarvedTag(tag, bs, i, size)[x] == tag[x]
  {}

  lemma CarvedMirrors(tag: map<nat, Tag>, bs: seq<Blk>, lo: nat, hi: nat, i: nat, size: nat)
    requires Mirrors(tag, bs, hi) && Tiled(bs, lo, hi) && Coalesced(bs) && i < |bs| && bs[i].free
    ensures Mirrors(CarvedTag(tag, bs, i, size), Splice(bs, i, i + 1, Carve(bs[i], size)), hi)
  {
    hide Tiled, Coalesced, CarvedTag, Entry, Splits, Rest, Carve;
    var tag', mid := CarvedTag(tag, bs, i, size), Carve(bs[i], size);
    forall k | 0 <= k < |bs| && (k < i || k > i + 1) ensures bs[k].addr in tag' && tag'[bs[k].addr] == tag[bs[k].addr] {
      CarvedKeys(bs, lo, hi, i, size, k);
      CarvedOther(tag, bs, i, size, bs[k].addr);
    }
    CarvedKeys(bs, lo, hi, i, size, i);
    if i + 1 < |bs| { CarvedKeys(bs, lo, hi, i, size, i + 1); }
    CarvedOther(tag, bs, i, size, hi);
    CarveSize(bs[i], size);
    var r := Splice(bs, i, i + 1, mid);
    forall k | i <= k <= i + |mid| && k < |r| ensures r[k].addr in tag' && tag'[r[k].addr] == Entry(r, k) {
      CarvedEntries(tag, bs, lo, hi, i, size, k);
    }
    MirrorsSplice(tag, tag', bs, hi, i, i + 1, mid);
  }

  lemma CarveSize(b: Blk, size: nat)
    ensures |Carve(b, size)| > 0
  {}

  class Allocator {
    var tag: map<nat, Tag>
    var link: map<nat, Link>
    var heads: seq<nat>
    var flMap: nat
    var slMap: seq<nat>
    var poolStart: nat
    var poolEnd: nat
    var freeBytes: nat
    var allocCount: nat
    var freeCount: nat
    var failedCount: nat
    var initialized: bool
    ghost var blocks: seq<Blk>
    ghost var lists: seq<seq<nat>>

    /** Lists, heads and bitmaps agree. */
    ghost predicate ListsOk()
      reads this`link, this`heads, this`flMap, this`slMap, this`lists
    {
      && |lists| == |heads| == CLASSES && |slMap| == FL_COUNT
      && Threaded(link, heads, lists) && Mapped(flMap, slMap, lists)
    }

    ghost function Sentinel(): nat
      reads this
    {
      if poolEnd >= OVERHEAD then poolEnd - OVERHEAD else 0
    }

    ghost function View(): Pool
      reads this
    {
      Pool(blocks, lists)
    }

    /** The three views of the pool agree. */
    ghost predicate Valid()
      reads this
    {
      initialized ==>
        && 0 < poolStart && OVERHEAD <= poolEnd < WORD
        && Ok(View(), poolStart, Sentinel())
        && Mirrors(tag, blocks, Sentinel())
        && ListsOk()
        && freeBytes == FreeBytes(blocks)
    }

    /** `free_list_remove` */
    method FreeListRemove(a: nat, ghost size: nat)
      requires ListsOk() && a in tag && GetSize(tag[a].word) == size && a in lists[Class(size)]
      modifies this`link, this`heads, this`flMap, this`slMap, this`lists
      ensures ListsOk() && lists == old(lists)[Class(size) := Erase(old(lists)[Class(size)], a)]
    {
      hide Class, Insert, Threaded, Mapped, GetSize;
      ghost var c, l0 := Class(size), lists;
      ghost var i :| 0 <= i < |l0[c]| && l0[c][i] == a;
      Neighbours(link, heads, lists, c, i);
      UnlinkKeeps(link, heads, lists, c, i);
      var prev, next := link[a].prev, link[a].next;
      if next != 0 {
        link := link[next := link[next].(prev := prev)];
      }
      if prev != 0 {
        link := link[prev := link[prev].(next := next)];
      }
      assert link == Bypass(old(link), a);
      var (fl, sl) := Insert(GetSize(tag[a].word));
      ClassParts(size);
      lists := lists[c := Erase(lists[c], a)];
      if heads[SL_COUNT * fl + sl] == a {
        heads := heads[SL_COUNT * fl + sl := next];
        if next == 0 {
          slMap := slMap[fl := AndNot(slMap[fl], Pow2(sl))];
          if slMap[fl] == 0 {
            flMap := AndNot(flMap, Pow2(fl));
          }
          MappedClear(old(flMap), old(slMap), l0, fl, sl);
          return;
        }
      }
      assert old(heads)[c := old(heads)[c]] == old(heads);
      MappedSame(flMap, slMap, l0, c, Erase(l0[c], a));
    }

    /** `free_list_insert` */
    method FreeListInsert(a: nat, ghost size: nat)
      requires ListsOk() && a in tag && a != 0 && GetSize(tag[a].word) == size
      requires forall c :: 0 <= c < CLASSES ==> a !in lists[c]
      modifies this`link, this`heads, this`flMap, this`slMap, this`lists
      ensures ListsOk() && lists == old(lists)[Class(size) := [a] + old(lists)[Class(size)]]
    {
      hide Class, Insert, Threaded, Mapped, GetSize;
      ghost var c, l0 := Class(size), lists;
      var (fl, sl) := Insert(GetSize(tag[a].word));
      ClassParts(size);
      LinkKeeps(link, heads, lists, c, a);
      HeadLinked(link, heads, lists, c);
      MappedSet(flMap, slMap, l0, fl, sl, [a] + l0[c]);
      var head := heads[SL_COUNT * fl + sl];
      link := link[a := Link(0, head)];
      if head != 0 {
        link := link[head := link[head].(prev := a)];
      }
      assert link == Prepend(old(link), head, a);
      heads := heads[SL_COUNT * fl + sl := a];
      flMap := Or(flMap, Pow2(fl));
      slMap := slMap[fl := Or(slMap[fl], Pow2(sl))];
      lists := lists[c := [a] + lists[c]];
    }

    /** `find_suitable_block`: the head of the first non-empty class at or above (fl, sl). */
    method FindSuitable(fl0: nat, sl0: nat) returns (a: nat)
      requires ListsOk() && fl0 < FL_COUNT && sl0 < SL_COUNT
      ensures var c := FirstFrom(lists, SL_COUNT * fl0 + sl0);
              if c == CLASSES then a == 0 else a != 0 && a == lists[c][0]
    {
      hide Mapped, Threaded, FirstFrom, AndNot, Ctz, Pow2;
      var fl := fl0;
      var slWord := AndNot(slMap[fl], Pow2(sl0) - 1);
      if slWord == 0 {
        var flWord := AndNot(flMap, Pow2(fl + 1) - 1);
        FoundAbove(flMap, slMap, lists, fl0, sl0);
        if flWord == 0 {
          return 0;
        }
        fl := Ctz(flWord);
        slWord := slMap[fl];
      } else {
        FoundHere(flMap, slMap, lists, fl0, sl0);
      }
      var sl := Ctz(slWord);
      HeadLinked(link, heads, lists, SL_COUNT * fl + sl);
      a := heads[SL_COUNT * fl + sl];
    }

    /** `block_split`: cut block `i` after `size` payload bytes. */
    method BlockSplit(a: nat, size: nat, ghost i: nat, ghost lo: nat, ghost hi: nat) returns (rest: nat)
      requires Mirrors(tag, blocks, hi) && Tiled(blocks, lo, hi) && i < |blocks| && blocks[i].addr == a
      requires Splits(blocks[i], size) && size % 8 == 0
      modifies this`tag
      ensures rest == Rest(blocks[i], size).addr
      ensures var e, r := Entry(blocks, i), Rest(blocks[i], size);
              var t := old(tag)[r.addr := Tag(Pack(r.size, false, false), a)]
                               [a := Tag(Pack(size, blocks[i].free, i > 0 && blocks[i - 1].free), e.prevPhys)];
              tag == if i + 1 < |blocks| then t[blocks[i + 1].addr := Tag(Entry(blocks, i + 1).word, r.addr)] else t
    {
      hide Mirrors, Tiled, GetSize, SetSize, Pack;
      ghost var b, r := blocks[i], Rest(blocks[i], size);
      ReadEntry(tag, blocks, lo, hi, i);
      CarvedKeys(blocks, lo, hi, i, size, i);
      AfterIsEnd(blocks, lo, hi, i);
      RestSize(b, size);
      PackZero();
      PackSetSize(0, false, false, r.size);
      PackOps(r.size, false, false);
      PackSetSize(b.size, b.free, i > 0 && blocks[i - 1].free, size);
      if i + 1 < |blocks| {
        ReadEntry(tag, blocks, lo, hi, i + 1);
        CarvedKeys(blocks, lo, hi, i, size, i + 1);
      } else {
        SentinelTag(tag, blocks, hi);
      }
      var remaining := GetSize(tag[a].word) - size - OVERHEAD;
      rest := a + OVERHEAD + size;
      tag := tag[rest := Tag(SetSize(0, remaining), a)];
      tag := tag[a := tag[a].(word := SetSize(tag[a].word, size))];
      var next := rest + OVERHEAD + GetSize(tag[rest].word);
      if GetSize(tag[next].word) != 0 {
        tag := tag[next := tag[next].(prevPhys := rest)];
      }
    }

    /** The split branch of `kernel_tlsf_alloc`: cut off the rest, mark it free and file it. */
    method FileRest(a: nat, size: nat, ghost i: nat, ghost lo: nat, ghost hi: nat)
      requires Mirrors(tag, blocks, hi) && Tiled(blocks, lo, hi) && i < |blocks| && blocks[i].addr == a
      requires blocks[i].free && (i > 0 ==> !blocks[i - 1].free) && Splits(blocks[i], size) && size % 8 == 0
      requires ListsOk() && forall c :: 0 <= c < CLASSES ==> Rest(blocks[i], size).addr !in lists[c]
      modifies this`tag, this`link, this`heads, this`flMap, this`slMap, this`lists
      ensures ListsOk() && lists == File(old(lists), Rest(blocks[i], size))
      ensures tag == SplitTag(old(tag), blocks, i, size)
    {
      hide Class, ListsOk, Mirrors, Tiled, GetSize, SetFree, SetPrevUsed, Pack, Entry, IsFree, IsPrevFree;
      ghost var r := Rest(blocks[i], size);
      ReadEntry(tag, blocks, lo, hi, i);
      RestSize(blocks[i], size);
      CarvedKeys(blocks, lo, hi, i, size, i);
      if i + 1 < |blocks| { CarvedKeys(blocks, lo, hi, i, size, i + 1); }
      var rest := BlockSplit(a, size, i, lo, hi);
      MarkRest(rest, r.size);
      FreeListInsert(rest, r.size);
    }

    /** The rest of a split becomes free, behind a block that will be used. */
    method MarkRest(rest: nat, ghost size: nat)
      requires rest in tag && tag[rest].word == Pack(size, false, false) && size % 8 == 0
      modifies this`tag
      ensures tag == old(tag)[rest := Tag(Pack(size, true, false), old(tag)[rest].prevPhys)]
      ensures GetSize(tag[rest].word) == size
    {
      hide GetSize, SetFree, SetPrevUsed, Pack;
      PackOps(size, false, false);
      PackOps(size, true, false);
      tag := tag[rest := tag[rest].(word := SetFree(tag[rest].word))];
      tag := tag[rest := tag[rest].(word := SetPrevUsed(tag[rest].word))];
    }

    /** The end of `kernel_tlsf_alloc`: the block becomes used, and its successor is told. */
    method MarkUsed(a: nat, ghost s: nat, ghost ns: nat, ghost nf: bool, ghost np: bool)
      requires a in tag && a + OVERHEAD + s in tag && s % 8 == 0 && ns % 8 == 0
      requires tag[a].word == Pack(s, true, false) && tag[a + OVERHEAD + s].word == Pack(ns, nf, np)
      modifies this`tag
      ensures tag == UsedTag(old(tag), a, s, ns, nf)
    {
      hide GetSize, SetUsed, SetPrevUsed, Pack;
      PackOps(s, true, false);
      PackOps(s, false, false);
      PackOps(ns, nf, np);
      tag := tag[a := tag[a].(word := SetUsed(tag[a].word))];
      var next := a + OVERHEAD + GetSize(tag[a].word);
      if GetSize(tag[next].word) != 0 {
        tag := tag[next := tag[next].(word := SetPrevUsed(tag[next].word))];
      }
    }

    /** `kernel_tlsf_alloc` once the block is unfiled: split or take it whole, and mark it. */
    method CarveBlock(a: nat, size: nat, ghost i: nat, ghost lo: nat, ghost hi: nat)
      requires Mirrors(tag, blocks, hi) && Tiled(blocks, lo, hi) && i < |blocks| && blocks[i].addr == a
      requires blocks[i].free && (i > 0 ==> !blocks[i - 1].free) && size >= MIN_BLOCK && size % 8 == 0
      requires ListsOk() && freeBytes >= blocks[i].size
      requires Splits(blocks[i], size) ==> forall c :: 0 <= c < CLASSES ==> Rest(blocks[i], size).addr !in lists[c]
      modifies this`tag, this`link, this`heads, this`flMap, this`slMap, this`lists, this`freeBytes
      ensures ListsOk() && tag == CarvedTag(old(tag), blocks, i, size)
      ensures lists == if Splits(blocks[i], size) then File(old(lists), Rest(blocks[i], size)) else old(lists)
      ensures old(freeBytes) == freeBytes + if Splits(blocks[i], size) then size + OVERHEAD else blocks[i].size
    {
      hide Class, ListsOk, Mirrors, Tiled, GetSize, Pack, CarvedTag, SplitTag, UsedTag, Entry, IsFree, IsPrevFree;
      ghost var b := blocks[i];
      ReadEntry(tag, blocks, lo, hi, i);
      SuccessorTag(tag, blocks, lo, hi, i);
      var bsize := GetSize(tag[a].word);
      if bsize >= size + OVERHEAD + MIN_BLOCK {
        RestSize(b, size);
        CarvedBySplit(tag, blocks, lo, hi, i, size);
        FileRest(a, size, i, lo, hi);
        freeBytes := freeBytes - (size + OVERHEAD);
        MarkUsed(a, size, Rest(b, size).size, true, false);
      } else {
        CarvedWhole(tag, blocks, hi, i, size);
        freeBytes := freeBytes - bsize;
        ghost var n := if i + 1 < |blocks| then blocks[i + 1] else Blk(hi, 0, false);
        MarkUsed(a, b.size, n.size, n.free, i + 1 < |blocks|);
      }
    }

    /** The part of `kernel_tlsf_alloc` after the search. */
    method TakeBlock(a: nat, size: nat, ghost i: nat)
      requires Valid() && initialized && i < |blocks| && blocks[i].addr == a && blocks[i].free
      requires size >= MIN_BLOCK && size % 8 == 0
      modifies this
      ensures Valid() && initialized && poolStart == old(poolStart) && poolEnd == old(poolEnd)
      ensures View() == AllocAt(old(View()), i, size)
      ensures allocCount == old(allocCount) + 1 && freeCount == old(freeCount) && failedCount == old(failedCount)
    {
      hide Ok, Class, ListsOk, Mirrors, Tiled, Coalesced, GetSize, FreeBytes, CarvedTag, Splice, Carve, Erase;
      hide Entry, Pack, IsFree, IsPrevFree;
      ghost var lo, hi, p, b := poolStart, Sentinel(), View(), blocks[i];
      OkParts(p, lo, hi);
      FiledAt(p, lo, hi, i);
      ReadEntry(tag, blocks, lo, hi, i);
      AllocKeeps(p, lo, hi, i, size);
      AllocBytes(p, i, size);
      FreeBytesAtLeast(blocks, i);
      CarvedMirrors(tag, blocks, lo, hi, i, size);
      if Splits(b, size) { RestUnlisted(p, lo, hi, i, size); }
      FreeListRemove(a, b.size);
      CarveBlock(a, size, i, lo, hi);
      blocks := Splice(blocks, i, i + 1, Carve(b, size));
      allocCount := allocCount + 1;
    }

    /** `block_absorb_next`: `a` grows over its header and payload neighbour `n`. */
    method AbsorbNext(a: nat, n: nat, ghost sa: nat, ghost fa: bool, ghost pa: bool,
                      ghost sn: nat, ghost fn: bool, ghost pn: bool,
                      ghost ns: nat, ghost nf: bool, ghost np: bool)
      requires sa % 8 == 0 && sn % 8 == 0 && ns % 8 == 0
      requires a in tag && n in tag && End(Blk(a, sa + OVERHEAD + sn, fa)) in tag
      requires tag[a].word == Pack(sa, fa, pa) && tag[n].word == Pack(sn, fn, pn)
      requires tag[End(Blk(a, sa + OVERHEAD + sn, fa))].word == Pack(ns, nf, np)
      modifies this`tag
      ensures tag == AbsorbTag(old(tag), Blk(a, sa + OVERHEAD + sn, fa), pa, ns)
    {
      hide GetSize, SetSize, Pack, IsFree, IsPrevFree, SetFree, SetUsed, SetPrevFree, SetPrevUsed;
      PackOps(sa, fa, pa);
      PackOps(sn, fn, pn);
      PackOps(ns, nf, np);
      PackSetSize(sa, fa, pa, sa + OVERHEAD + sn);
      PackOps(sa + OVERHEAD + sn, fa, pa);
      var newSize := GetSize(tag[a].word) + OVERHEAD + GetSize(tag[n].word);
      tag := tag[a := tag[a].(word := SetSize(tag[a].word, newSize))];
      var nextNext := a + OVERHEAD + GetSize(tag[a].word);
      if GetSize(tag[nextNext].word) != 0 {
        tag := tag[nextNext := tag[nextNext].(prevPhys := a)];
      }
    }

    /** First merge of `kernel_tlsf_free`: absorb the next block if it is free. */
    method MergeNext(a: nat, ghost i: nat, ghost lo: nat, ghost hi: nat) returns (added: nat)
      requires Mirrors(tag, blocks, hi) && Tiled(blocks, lo, hi)
      requires i < |blocks| && blocks[i].addr == a && !blocks[i].free
      requires ListsOk() && (Up(blocks, i) ==> blocks[i + 1].addr in lists[Class(blocks[i + 1].size)])
      modifies this`tag, this`link, this`heads, this`flMap, this`slMap, this`lists
      ensures ListsOk() && lists == if Up(blocks, i) then Unfile(old(lists), blocks[i + 1]) else old(lists)
      ensures a in old(tag) && (Up(blocks, i) ==> End(Grown(blocks, i)) in old(tag))
      ensures tag == UpTag(old(tag), blocks, i, hi)
      ensures added == if Up(blocks, i) then OVERHEAD else 0
    {
      hide Class, ListsOk, Mirrors, Tiled, GetSize, IsFree, IsPrevFree, Pack, AbsorbTag;
      ReadEntry(tag, blocks, lo, hi, i);
      SuccessorTag(tag, blocks, lo, hi, i);
      ghost var n := Succ(blocks, i, hi);
      PackOps(n.size, n.free, false);
      added := 0;
      var next := a + OVERHEAD + GetSize(tag[a].word);
      if GetSize(tag[next].word) != 0 && IsFree(tag[next].word) {
        ReadEntry(tag, blocks, lo, hi, i + 1);
        SuccessorTag(tag, blocks, lo, hi, i + 1);
        ghost var nn := Succ(blocks, i + 1, hi);
        FreeListRemove(next, n.size);
        added := OVERHEAD;
        AbsorbNext(a, next, blocks[i].size, false,
                   PrevFree(blocks, i), n.size, true, false, nn.size, nn.free, i + 2 < |blocks|);
      }
    }

    /** Second merge of `kernel_tlsf_free`: a free predecessor absorbs the block. */
    method MergePrev(a: nat, ghost i: nat, ghost lo: nat, ghost hi: nat, ghost tag0: map<nat, Tag>)
      returns (block: nat, added: nat)
      requires Mirrors(tag0, blocks, hi) && Tiled(blocks, lo, hi)
      requires i < |blocks| && blocks[i].addr == a && !blocks[i].free
      requires 0 < lo && a in tag0 && (Up(blocks, i) ==> End(Grown(blocks, i)) in tag0)
      requires tag == UpTag(tag0, blocks, i, hi)
      requires ListsOk() && (Down(blocks, i) ==> blocks[i - 1].addr in lists[Class(blocks[i - 1].size)])
      modifies this`tag, this`link, this`heads, this`flMap, this`slMap, this`lists
      ensures ListsOk() && lists == if Down(blocks, i) then Unfile(old(lists), blocks[i - 1]) else old(lists)
      ensures block == Joined(blocks, i).addr && added == if Down(blocks, i) then OVERHEAD else 0
      ensures End(Joined(blocks, i)) in tag0 && block in tag0
      ensures tag == DownTag(tag0, blocks, i, hi)
    {
      hide Class, ListsOk, Mirrors, Tiled, GetSize, IsFree, IsPrevFree, Pack, AbsorbTag, UpTag, Grown;
      UpRead(tag0, blocks, lo, hi, i);
      MergedIsJoined(blocks, lo, hi, i);
      JoinedSized(blocks, lo, hi, i);
      ghost var g, n := Grown(blocks, i), Succ(blocks, MergeHi(blocks, i) - 1, hi);
      PackOps(g.size, false, PrevFree(blocks, i));
      if i > 0 {
        ReadEntry(tag0, blocks, lo, hi, i - 1);
        PackOps(blocks[i - 1].size, blocks[i - 1].free, PrevFree(blocks, i - 1));
      }
      block, added := a, 0;
      if IsPrevFree(tag[block].word) && tag[block].prevPhys != 0 {
        var prev := tag[block].prevPhys;
        if IsFree(tag[prev].word) {
          ghost var q := blocks[i - 1];
          FreeListRemove(prev, q.size);
          added := OVERHEAD;
          AbsorbNext(prev, block, q.size, true, PrevFree(blocks, i - 1), g.size, false, true, n.size, n.free,
                     Up(blocks, i) && MergeHi(blocks, i) < |blocks|);
          block := prev;
        }
      }
    }

    /** The end of `kernel_tlsf_free`: mark and file the merged block, and tell its successor. */
    method MarkFree(block: nat, ghost m: Blk, ghost pf: bool, ghost n: Blk, ghost np: bool)
      requires block == m.addr && block != 0 && m.size % 8 == 0 && n.size % 8 == 0 && block in tag && End(m) in tag
      requires tag[block].word == Pack(m.size, m.free, pf) && tag[End(m)].word == Pack(n.size, n.free, np)
      requires ListsOk() && forall c :: 0 <= c < CLASSES ==> block !in lists[c]
      modifies this`tag, this`link, this`heads, this`flMap, this`slMap, this`lists
      ensures ListsOk() && lists == File(old(lists), m)
      ensures tag == FreedTag(old(tag), m, pf, n)
    {
      hide Class, ListsOk, GetSize, SetFree, SetPrevFree, Pack;
      PackOps(m.size, m.free, pf);
      PackOps(m.size, true, pf);
      PackOps(n.size, n.free, np);
      tag := tag[block := tag[block].(word := SetFree(tag[block].word))];
      FreeListInsert(block, m.size);
      var nextAfter := block + OVERHEAD + GetSize(tag[block].word);
      if GetSize(tag[nextAfter].word) != 0 {
        tag := tag[nextAfter := tag[nextAfter].(word := SetPrevFree(tag[nextAfter].word))];
      }
    }

    /** Both merges of `kernel_tlsf_free`. */
    method MergeAround(a: nat, ghost i: nat, ghost lo: nat, ghost hi: nat) returns (block: nat, added: nat)
      requires Ok(View(), lo, hi) && Mirrors(tag, blocks, hi) && ListsOk() && 0 < lo
      requires i < |blocks| && blocks[i].addr == a && !blocks[i].free
      modifies this`tag, this`link, this`heads, this`flMap, this`slMap, this`lists
      ensures ListsOk() && lists == FreeLists(old(View()), i)
      ensures block == Joined(blocks, i).addr && a in old(tag) && End(Grown(blocks, i)) in old(tag)
      ensures End(Joined(blocks, i)) in old(tag) && block in old(tag) && tag == DownTag(old(tag), blocks, i, hi)
      ensures added == (if Up(blocks, i) then OVERHEAD else 0) + (if Down(blocks, i) then OVERHEAD else 0)
    {
      hide Ok, Class, ListsOk, Mirrors, Tiled, UpTag, DownTag, Joined, Grown, Merged, Erase;
      ghost var p, tag0, bs := View(), tag, blocks;
      OkParts(p, lo, hi);
      if Up(bs, i) { FiledAt(p, lo, hi, i + 1); }
      DownRead(tag, bs, lo, hi, i, 0);
      StillListed(p, lo, hi, i);
      MergedIsJoined(bs, lo, hi, i);
      added := MergeNext(a, i, lo, hi);
      var down: nat;
      block, down := MergePrev(a, i, lo, hi, tag0);
      added := added + down;
    }

    /** `kernel_tlsf_free` of a block that is handed out: headers, lists, and the bytes gained. */
    method ReleaseBlock(a: nat, ghost i: nat, ghost lo: nat, ghost hi: nat) returns (gained: nat)
      requires Ok(View(), lo, hi) && Mirrors(tag, blocks, hi) && ListsOk() && 0 < lo && |lists| == CLASSES
      requires i < |blocks| && blocks[i].addr == a && !blocks[i].free
      modifies this`tag, this`link, this`heads, this`flMap, this`slMap, this`lists
      ensures ListsOk() && lists == FreeAt(old(View()), i).lists
      ensures Ok(FreeAt(old(View()), i), lo, hi) && Mirrors(tag, FreeAt(old(View()), i).blocks, hi)
      ensures FreeBytes(FreeAt(old(View()), i).blocks) == FreeBytes(blocks) + gained
    {
      hide Ok, Class, ListsOk, Mirrors, GetSize, FreeBytes, Pack, DownTag, FreedTag, Joined, Grown, FreeLists;
      hide FreeAt, MergeLo, MergeHi, Up, Down, PrevFree, Succ, File, Tiled, Splice, Merged, Entry, IsFree, IsPrevFree;
      ghost var p, bs := View(), blocks;
      OkParts(p, lo, hi);
      ReadEntry(tag, bs, lo, hi, i);
      ReleasedPool(p, lo, hi, i);
      DownRead(tag, bs, lo, hi, i, 0);
      ReleasedMirrors(tag, bs, lo, hi, i);
      var size := GetSize(tag[a].word);
      var block, added := MergeAround(a, i, lo, hi);
      MarkFree(block, Joined(bs, i), PrevFree(bs, MergeLo(bs, i)),
               Succ(bs, MergeHi(bs, i) - 1, hi), Up(bs, i) && MergeHi(bs, i) < |bs|);
      gained := size + added;
    }

    /** `kernel_tlsf_free` */
    method Release(ptr: nat)
      requires Valid()
      requires ptr != 0 && initialized ==> ptr >= OVERHEAD && Live(ptr)
      modifies this
      ensures Valid() && initialized == old(initialized) && poolStart == old(poolStart) && poolEnd == old(poolEnd)
      ensures ptr == 0 || !initialized ==>
                View() == old(View()) && freeBytes == old(freeBytes) && freeCount == old(freeCount)
      ensures ptr != 0 && initialized ==> |old(lists)| == CLASSES
      ensures ptr != 0 && initialized ==>
                View() == FreeAt(old(View()), old(IndexAt(blocks, ptr - OVERHEAD))) && freeCount == old(freeCount) + 1
      ensures allocCount == old(allocCount) && failedCount == old(failedCount)
    {
      hide Ok, Class, ListsOk, Mirrors, FreeBytes, IndexAt, FreeAt;
      if ptr == 0 || !initialized {
        return;
      }
      var a := ptr - OVERHEAD;
      ghost var p, i := View(), IndexAt(blocks, a);
      OkParts(p, poolStart, Sentinel());
      var gained := ReleaseBlock(a, i, poolStart, Sentinel());
      freeBytes := freeBytes + gained;
      blocks := FreeAt(p, i).blocks;
      freeCount := freeCount + 1;
    }

    /** `ptr` was handed out and has not been freed. */
    ghost predicate Live(ptr: nat)
      requires ptr >= OVERHEAD
      reads this`blocks
    {
      var i := IndexAt(blocks, ptr - OVERHEAD);
      i < |blocks| && !blocks[i].free
    }

    /** `kernel_tlsf_alloc` */
    method Allocate(request: nat) returns (ptr: nat)
      requires Valid()
      modifies this
      ensures Valid() && initialized == old(initialized) && poolStart == old(poolStart) && poolEnd == old(poolEnd)
      ensures !initialized ==> ptr == 0 && View() == old(View())
      ensures initialized ==> |old(lists)| == CLASSES
      ensures initialized ==>
                match TlsfPool.Alloc(old(View()), request)
                case Refused => ptr == 0 && View() == old(View()) && allocCount == old(allocCount)
                case Granted(q, i) =>
                  && i < |q.blocks| && View() == q && ptr == q.blocks[i].addr + OVERHEAD
                  && allocCount == old(allocCount) + 1
      ensures initialized && ptr != 0 ==>
                exists i: nat :: i < |old(blocks)| && i < |blocks| && ptr == blocks[i].addr + 8
                  && CutFrom(old(blocks)[i], blocks, i, Adjusted(request))
      ensures failedCount == old(failedCount) + (if initialized && request != 0 && ptr == 0 then 1 else 0)
      ensures freeCount == old(freeCount)
    {
      hide Ok, Class, SearchClass, RoundedUp, Insert, ListsOk, Mirrors, FreeBytes, FirstFrom, IndexAt, Splice, Carve;
      hide Adjusted;
      ptr := 0;
      if initialized { OkParts(View(), poolStart, Sentinel()); }
      if !initialized || request == 0 {
        return;
      }
      if request > MAX_REQUEST {
        failedCount := failedCount + 1;
        return;
      }
      var size := Adjusted(request);
      var (fl, sl) := Insert(RoundedUp(size));
      ClassParts(RoundedUp(size));
      SearchIndex(size);
      ghost var c := FirstFrom(lists, SearchClass(size));
      var a := FindSuitable(fl, sl);
      if a == 0 {
        failedCount := failedCount + 1;
        return;
      }
      ghost var p := View();
      ChosenBlock(p, poolStart, Sentinel(), c);
      AdjustedRange(request);
      ghost var i := IndexAt(blocks, a);
      TakenAddr(p, poolStart, Sentinel(), i, size);
      CarvedAt(blocks, i, size);
      TakeBlock(a, size, i);
      ptr := a + OVERHEAD;
      assert ptr == blocks[i].addr + 8;
    }

    /** `kernel_tlsf_initialize`, on memory that ends on a multiple of 8: the start is moved up
        to one, and what is left becomes a single free block. */
    method Initialize(memory: nat, length: nat) returns (ok: bool)
      requires Valid() && (memory + length) % 8 == 0 && memory + length < WORD
      modifies this
      ensures Valid()
      ensures ok <==> memory != 0 && length >= OVERHEAD + MIN_BLOCK + OVERHEAD
      ensures !ok ==> View() == old(View()) && initialized == old(initialized)
      ensures ok ==> initialized && poolEnd == memory + length
      ensures ok ==> memory <= poolStart < memory + 8 && poolStart % 8 == 0
      ensures ok ==>
                && poolEnd - poolStart >= OVERHEAD + MIN_BLOCK + OVERHEAD
                && View() == Fresh(poolStart, poolEnd - poolStart - OVERHEAD - OVERHEAD)
                && freeBytes == poolEnd - poolStart - OVERHEAD - OVERHEAD
      ensures ok ==> allocCount == 0 && freeCount == 0 && failedCount == 0
    {
      hide ListsOk, Ok, Mirrors, FreeBytes, Fresh, AndNot, And;
      if memory == 0 || length < OVERHEAD + MIN_BLOCK + OVERHEAD {
        return false;
      }
      var buffer, size := memory, length;
      AlignedStart(memory);
      if And(memory, 7) != 0 {
        buffer := AndNot(memory + 7, 7);
        size := length - (buffer - memory);
      }
      AlignedSize(memory, length, buffer);
      Build(buffer, size);
      ok := true;
    }

    /** The pool as it is written into an aligned buffer. */
    method Build(buffer: nat, size: nat)
      requires buffer > 0 && buffer % 8 == 0 && size % 8 == 0 && buffer + size < WORD
      requires size >= OVERHEAD + MIN_BLOCK + OVERHEAD
      modifies this
      ensures Valid() && initialized && poolStart == buffer && poolEnd == buffer + size
      ensures View() == Fresh(buffer, size - OVERHEAD - OVERHEAD) && freeBytes == size - OVERHEAD - OVERHEAD
      ensures allocCount == 0 && freeCount == 0 && failedCount == 0
    {
      hide Class, ListsOk, GetSize, SetSize, SetFree, Pack, Ok, Mirrors, FreeBytes, NoLists;
      ClearControl();
      poolStart, poolEnd := buffer, buffer + size;
      var sentinel := poolEnd - OVERHEAD;
      var usable := size - OVERHEAD - OVERHEAD;
      UsableSize(size);
      WriteHeaders(buffer, usable, sentinel);
      FreeListInsert(buffer, usable);
      freeBytes := usable;
      initialized := true;
      blocks := [Blk(buffer, usable, true)];
      FreshIsOk(buffer, usable);
    }

    /** The header of the one block, and the closing one. */
    method WriteHeaders(buffer: nat, usable: nat, sentinel: nat)
      requires usable % 8 == 0 && buffer != sentinel
      modifies this`tag
      ensures buffer in tag && GetSize(tag[buffer].word) == usable
      ensures Mirrors(tag, [Blk(buffer, usable, true)], sentinel) && FreeBytes([Blk(buffer, usable, true)]) == usable
    {
      hide GetSize, SetSize, SetFree, Pack, Mirrors, FreeBytes;
      FirstWord(usable);
      tag := map[sentinel := Tag(0, 0)];
      tag := tag[buffer := Tag(SetFree(SetSize(0, usable)), 0)];
      tag := tag[sentinel := Tag(0, buffer)];
      FreshHeaders(tag, buffer, usable, sentinel);
    }

    /** The zeroing of the control structure. */
    method ClearControl()
      modifies this`heads, this`flMap, this`slMap, this`lists,
               this`link, this`allocCount, this`freeCount, this`failedCount
      ensures ListsOk() && lists == NoLists() && |lists| == CLASSES && forall c :: 0 <= c < CLASSES ==> lists[c] == []
      ensures allocCount == 0 && freeCount == 0 && failedCount == 0
    {
      heads, flMap, slMap := seq(CLASSES, _ => 0), 0, seq(FL_COUNT, _ => 0);
      lists, link := NoLists(), map[];
      allocCount, freeCount, failedCount := 0, 0, 0;
      EmptyListsOk();
    }

    lemma EmptyListsOk()
      requires heads == seq(CLASSES, _ => 0) && flMap == 0 && slMap == seq(FL_COUNT, _ => 0) && lists == NoLists()
      ensures ListsOk()
    {
      forall i: nat ensures !Bit(0, i) { ZeroBit(i); }
    }

    /** `ptr` is a byte of some block or of the closing header. */
    ghost predicate InPool(ptr: nat)
      reads this
    {
      Sentinel() <= ptr < poolEnd || exists i :: 0 <= i < |blocks| && Covers(blocks[i], ptr)
    }

    /** `kernel_tlsf_owns` */
    method Owns(ptr: nat) returns (r: bool)
      requires Valid()
      ensures r <==> initialized && InPool(ptr)
    {
      hide Ok, Mirrors, ListsOk, FreeBytes, Tiled, Covers;
      r := ptr != 0 && initialized && ptr >= poolStart && ptr < poolEnd;
      if initialized {
        OkParts(View(), poolStart, Sentinel());
        CoveredBy(blocks, poolStart, Sentinel(), ptr);
      }
    }

    /** The whole payload of everything handed out is owned. */
    lemma PayloadInPool(ptr: nat, k: nat)
      requires ptr >= OVERHEAD && Live(ptr) && k < blocks[IndexAt(blocks, ptr - OVERHEAD)].size
      ensures InPool(ptr + k)
    {
      assert Covers(blocks[IndexAt(blocks, ptr - OVERHEAD)], ptr + k);
    }
  }

  /** The two mask operations round up to a multiple of 8. */
  lemma AlignedStart(memory: nat)
    ensures And(memory, 7) == memory % 8
    ensures var buffer := AndNot(memory + 7, 7); memory <= buffer < memory + 8 && buffer % 8 == 0
  {
    hide And, AndNot, Shr;
    assert Pow2(3) == 8;
    MaskIsMod(memory, 3);
    MaskSplit(memory + 7, 3);
    AndNotRest(memory + 7, 7);
  }

  lemma AlignedSize(memory: nat, length: nat, buffer: nat)
    requires (memory + length) % 8 == 0 && buffer % 8 == 0 && memory <= buffer < memory + 8
    requires length >= OVERHEAD + MIN_BLOCK + OVERHEAD
    ensures memory + length - buffer >= OVERHEAD + MIN_BLOCK + OVERHEAD && (memory + length - buffer) % 8 == 0
  {}

  lemma UsableSize(size: nat)
    requires size % 8 == 0 && size >= OVERHEAD + MIN_BLOCK + OVERHEAD
    ensures (size - OVERHEAD - OVERHEAD) % 8 == 0
  {}

  lemma FirstWord(usable: nat)
    requires usable % 8 == 0
    ensures SetFree(SetSize(0, usable)) == Pack(usable, true, false) && GetSize(Pack(usable, true, false)) == usable
  {
    PackZero();
    PackOps(usable, false, false);
    PackOps(usable, true, false);
    PackSetSize(0, false, false, usable);
  }

  lemma FreshHeaders(tag: map<nat, Tag>, buffer: nat, usable: nat, sentinel: nat)
    requires buffer in tag && tag[buffer] == Tag(Pack(usable, true, false), 0)
    requires sentinel in tag && tag[sentinel].word == 0
    ensures Mirrors(tag, [Blk(buffer, usable, true)], sentinel) && FreeBytes([Blk(buffer, usable, true)]) == usable
  {
    assert [Blk(buffer, usable, true)][1..] == [];
  }

  /** What a free does to the abstract pool. */
  lemma ReleasedPool(p: Pool, lo: nat, hi: nat, i: nat)
    requires Ok(p, lo, hi) && 0 < lo && i < |p.blocks| && !p.blocks[i].free
    ensures var m := Joined(p.blocks, i);
            && m.addr != 0 && m.size % 8 == 0
            && (forall c :: 0 <= c < CLASSES ==> m.addr !in FreeLists(p, i)[c])
            && FreeAt(p, i).lists == File(FreeLists(p, i), m) && Ok(FreeAt(p, i), lo, hi)
            && FreeAt(p, i).blocks ==
                  Splice(p.blocks, MergeLo(p.blocks, i), MergeHi(p.blocks, i), [Merged(p.blocks, i)])
    ensures FreeBytes(FreeAt(p, i).blocks) == FreeBytes(p.blocks) + p.blocks[i].size
              + ((if Up(p.blocks, i) then OVERHEAD else 0) + (if Down(p.blocks, i) then OVERHEAD else 0))
  {
    hide Ok, Class, Tiled, Coalesced, FreeBytes, Splice, Joined, Grown, Merged, FreeLists;
    var bs := p.blocks;
    OkParts(p, lo, hi);
    FreeKeeps(p, lo, hi, i);
    FreeAddsBytes(p, lo, hi, i);
    MergedIsJoined(bs, lo, hi, i);
    JoinedSized(bs, lo, hi, i);
    MergedUnlisted(p, lo, hi, i);
    LoPositive(bs, lo, hi, MergeLo(bs, i));
  }

  /** The predecessor is still filed once the successor is not. */
  lemma StillListed(p: Pool, lo: nat, hi: nat, i: nat)
    requires Ok(p, lo, hi) && i < |p.blocks| && !p.blocks[i].free
    ensures Down(p.blocks, i) ==>
              var l1 := if Up(p.blocks, i) then Unfile(p.lists, p.blocks[i + 1]) else p.lists;
              p.blocks[i - 1].addr in l1[Class(p.blocks[i - 1].size)]
  {
    hide Class;
    var bs := p.blocks;
    if Down(bs, i) {
      FiledAt(p, lo, hi, i - 1);
      if Up(bs, i) {
        EraseMembers(p.lists[Class(bs[i + 1].size)], bs[i + 1].addr);
        Ascending(bs, lo, hi, i - 1, i + 1);
      }
    }
  }

  lemma LoPositive(bs: seq<Blk>, lo: nat, hi: nat, k: nat)
    requires Tiled(bs, lo, hi) && k < |bs| && lo > 0
    ensures bs[k].addr > 0
  {
    if k > 0 { Ascending(bs, lo, hi, 0, k); }
  }

  lemma SearchIndex(size: nat)
    ensures SearchClass(size) == Class(RoundedUp(size))
  {}

  lemma TakenAddr(p: Pool, lo: nat, hi: nat, i: nat, size: nat)
    requires Ok(p, lo, hi) && i < |p.blocks|
    ensures |p.lists| == CLASSES && var q := AllocAt(p, i, size); i < |q.blocks| && q.blocks[i].addr == p.blocks[i].addr
  {
    assert Carve(p.blocks[i], size)[0].addr == p.blocks[i].addr;
  }

  /** The headers after `AbsorbNext` made block `b`. */
  ghost function AbsorbTag(tag: map<nat, Tag>, b: Blk, prevFree: bool, ns: nat): map<nat, Tag>
    requires b.addr in tag && End(b) in tag
  {
    var t := tag[b.addr := Tag(Pack(b.size, b.free, prevFree), tag[b.addr].prevPhys)];
    if ns == 0 then t else t[End(b) := tag[End(b)].(prevPhys := b.addr)]
  }

  /** The block after block `k`, the sentinel counting as an empty one. */
  ghost function Succ(bs: seq<Blk>, k: nat, hi: nat): Blk
  {
    if k + 1 < |bs| then bs[k + 1] else Blk(hi, 0, false)
  }

  ghost predicate Up(bs: seq<Blk>, i: nat) { i + 1 < |bs| && bs[i + 1].free }
  ghost predicate Down(bs: seq<Blk>, i: nat) { 0 < i < |bs| && bs[i - 1].free }
  ghost predicate PrevFree(bs: seq<Blk>, k: nat) { 0 < k <= |bs| && bs[k - 1].free }

  /** The freed block after it has absorbed a free successor. */
  ghost function Grown(bs: seq<Blk>, i: nat): Blk
    requires i < |bs|
  {
    if Up(bs, i) then Blk(bs[i].addr, bs[i].size + OVERHEAD + bs[i + 1].size, false) else bs[i]
  }

  /** ... and after a free predecessor has absorbed it. */
  ghost function Joined(bs: seq<Blk>, i: nat): Blk
    requires i < |bs|
  {
    if Down(bs, i) then Blk(bs[i - 1].addr, bs[i - 1].size + OVERHEAD + Grown(bs, i).size, true) else Grown(bs, i)
  }

  /** The headers after both merges. */
  ghost function UpTag(tag: map<nat, Tag>, bs: seq<Blk>, i: nat, hi: nat): map<nat, Tag>
    requires i < |bs| && bs[i].addr in tag && (Up(bs, i) ==> End(Grown(bs, i)) in tag)
  {
    if Up(bs, i) then AbsorbTag(tag, Grown(bs, i), PrevFree(bs, i), Succ(bs, i + 1, hi).size) else tag
  }

  /** ... and after the second merge. */
  ghost function DownTag(tag: map<nat, Tag>, bs: seq<Blk>, i: nat, hi: nat): map<nat, Tag>
    requires i < |bs| && bs[i].addr in tag && (Up(bs, i) ==> End(Grown(bs, i)) in tag)
    requires Joined(bs, i).addr in tag && End(Joined(bs, i)) in tag
  {
    var t := UpTag(tag, bs, i, hi);
    if Down(bs, i) then AbsorbTag(t, Joined(bs, i), PrevFree(bs, i - 1), Succ(bs, MergeHi(bs, i) - 1, hi).size) else t
  }

  /** The headers a free looks at, before any merge. */
  lemma RegionFacts(tag: map<nat, Tag>, bs: seq<Blk>, lo: nat, hi: nat, i: nat)
    requires Mirrors(tag, bs, hi) && Tiled(bs, lo, hi) && i < |bs| && !bs[i].free && 0 < lo
    ensures bs[i].addr in tag && tag[bs[i].addr] == Entry(bs, i)
    ensures var n := Succ(bs, MergeHi(bs, i) - 1, hi);
            && End(Grown(bs, i)) in tag && n.size % 8 == 0
            && tag[End(Grown(bs, i))].word == Pack(n.size, n.free, Up(bs, i) && MergeHi(bs, i) < |bs|)
    ensures i > 0 ==>
            && bs[i - 1].addr in tag && tag[bs[i - 1].addr] == Entry(bs, i - 1)
            && 0 < bs[i - 1].addr < bs[i].addr && bs[i - 1].size % 8 == 0
  {
    MergedIsJoined(bs, lo, hi, i);
    SuccessorTag(tag, bs, lo, hi, MergeHi(bs, i) - 1);
    hide Pack, Entry, Grown, Joined, Merged;
    if i > 0 { assert Sized(bs[i - 1]) && bs[i].addr == End(bs[i - 1]); }
    if i > 1 { Ascending(bs, lo, hi, 0, i - 1); }
  }

  /** What the second merge reads after the first one. */
  lemma UpRead(tag: map<nat, Tag>, bs: seq<Blk>, lo: nat, hi: nat, i: nat)
    requires Mirrors(tag, bs, hi) && Tiled(bs, lo, hi) && i < |bs| && !bs[i].free && 0 < lo
    ensures bs[i].addr in tag && End(Grown(bs, i)) in tag
    ensures var t := UpTag(tag, bs, i, hi);
            var n := Succ(bs, MergeHi(bs, i) - 1, hi);
            && bs[i].addr in t && End(Grown(bs, i)) in t && n.size % 8 == 0
            && t[bs[i].addr] ==
                  Tag(Pack(Grown(bs, i).size, false, PrevFree(bs, i)), if i > 0 then bs[i - 1].addr else 0)
            && t[End(Grown(bs, i))].word == Pack(n.size, n.free, Up(bs, i) && MergeHi(bs, i) < |bs|)
            && (i > 0 ==> bs[i - 1].addr in t && bs[i - 1].addr != 0 && t[bs[i - 1].addr] == Entry(bs, i - 1)
                          && bs[i - 1].size % 8 == 0)
  {
    hide Mirrors, Tiled, Pack, MergeHi;
    RegionFacts(tag, bs, lo, hi, i);
  }

  /** The header after the merged region, and the addresses the merges leave alone. */
  lemma UpOther(tag: map<nat, Tag>, bs: seq<Blk>, lo: nat, hi: nat, i: nat, x: nat)
    requires Mirrors(tag, bs, hi) && Tiled(bs, lo, hi) && i < |bs| && !bs[i].free && 0 < lo
    requires bs[i].addr in tag && End(Grown(bs, i)) in tag
    ensures var t := UpTag(tag, bs, i, hi);
            && End(Grown(bs, i)) in t
            && (MergeHi(bs, i) < |bs| ==> t[End(Grown(bs, i))].prevPhys == bs[i].addr)
            && (MergeHi(bs, i) == |bs| ==> t[End(Grown(bs, i))] == tag[End(Grown(bs, i))])
            && (x in tag && x != bs[i].addr && x != End(Grown(bs, i)) ==> x in t && t[x] == tag[x])
  {
    hide Mirrors, Tiled, Pack, Joined, Merged, MergeHi, MergeLo, Entry, Grown;
    MergedIsJoined(bs, lo, hi, i);
    SuccessorTag(tag, bs, lo, hi, MergeHi(bs, i) - 1);
    SuccSize(bs, lo, hi, MergeHi(bs, i) - 1);
    GrownAddr(bs, i);
  }

  /** The headers when both merges are done. */
  lemma DownRead(tag: map<nat, Tag>, bs: seq<Blk>, lo: nat, hi: nat, i: nat, x: nat)
    requires Mirrors(tag, bs, hi) && Tiled(bs, lo, hi) && i < |bs| && !bs[i].free && 0 < lo
    ensures bs[i].addr in tag && End(Grown(bs, i)) in tag && Joined(bs, i).addr in tag && End(Joined(bs, i)) in tag
    ensures var t := DownTag(tag, bs, i, hi);
            var m, l, n := Joined(bs, i), MergeLo(bs, i), Succ(bs, MergeHi(bs, i) - 1, hi);
            && m.addr in t && End(m) in t && n.size % 8 == 0
            && t[m.addr] == Tag(Pack(m.size, m.free, PrevFree(bs, l)), Entry(bs, l).prevPhys)
            && t[End(m)].word == Pack(n.size, n.free, Up(bs, i) && MergeHi(bs, i) < |bs|)
            && (MergeHi(bs, i) < |bs| ==> t[End(m)].prevPhys == m.addr)
            && (MergeHi(bs, i) == |bs| ==> t[End(m)] == tag[End(m)])
            && (x in tag && x != bs[i].addr && x != m.addr && x != End(m) ==> x in t && t[x] == tag[x])
  {
    hide Mirrors, Tiled, Pack, Grown, UpTag, Merged, MergeHi, MergeLo;
    UpRead(tag, bs, lo, hi, i);
    UpOther(tag, bs, lo, hi, i, x);
    if i > 0 { UpOther(tag, bs, lo, hi, i, bs[i - 1].addr); }
    RegionFacts(tag, bs, lo, hi, i);
    MergedIsJoined(bs, lo, hi, i);
    SuccSize(bs, lo, hi, MergeHi(bs, i) - 1);
    GrownAddr(bs, i);
  }

  lemma GrownAddr(bs: seq<Blk>, i: nat)
    requires i < |bs| && !bs[i].free
    ensures Grown(bs, i).addr == bs[i].addr && !Grown(bs, i).free && bs[i].addr < End(Grown(bs, i))
  {}

  lemma SuccSize(bs: seq<Blk>, lo: nat, hi: nat, k: nat)
    requires Tiled(bs, lo, hi) && k < |bs|
    ensures Succ(bs, k, hi).size == 0 <==> k + 1 == |bs|
  {
    if k + 1 < |bs| { assert Sized(bs[k + 1]); }
  }

  /** The headers after the merged block is marked free and its successor told. */
  ghost function FreedTag(tag: map<nat, Tag>, b: Blk, prevFree: bool, n: Blk): map<nat, Tag>
    requires b.addr in tag && End(b) in tag
  {
    var t := tag[b.addr := Tag(Pack(b.size, true, prevFree), tag[b.addr].prevPhys)];
    if n.size == 0 then t else t[End(b) := Tag(Pack(n.size, n.free, true), tag[End(b)].prevPhys)]
  }

  lemma OutsideKeys(bs: seq<Blk>, lo: nat, hi: nat, i: nat, k: nat)
    requires Tiled(bs, lo, hi) && i < |bs| && k < |bs|
    ensures var l, h := MergeLo(bs, i), MergeHi(bs, i);
            && bs[l].addr < hi && bs[i].addr < hi && bs[k].addr < hi
            && End(bs[h - 1]) == (if h < |bs| then bs[h].addr else hi)
            && (h < |bs| ==> bs[h].addr < hi)
            && (k < l || k > h ==> bs[k].addr != bs[i].addr && bs[k].addr != bs[l].addr && bs[k].addr != End(bs[h - 1]))
  {
    var l, h := MergeLo(bs, i), MergeHi(bs, i);
    BelowEnd(bs, lo, hi, l);
    BelowEnd(bs, lo, hi, i);
    BelowEnd(bs, lo, hi, k);
    AfterIsEnd(bs, lo, hi, h - 1);
    if h < |bs| { BelowEnd(bs, lo, hi, h); }
    if k < l || k > h {
      if bs[k].addr == bs[i].addr { SameAddr(bs, lo, hi, k, i); }
      if bs[k].addr == bs[l].addr { SameAddr(bs, lo, hi, k, l); }
      if h < |bs| && bs[k].addr == bs[h].addr { SameAddr(bs, lo, hi, k, h); }
    }
  }

  lemma BelowEnd(bs: seq<Blk>, lo: nat, hi: nat, k: nat)
    requires Tiled(bs, lo, hi) && k < |bs|
    ensures bs[k].addr < hi
  {
    if k + 1 < |bs| { Ascending(bs, lo, hi, k, |bs| - 1); }
  }

  /** The headers expected around the merged block. */
  lemma FreedEntries(bs: seq<Blk>, l: nat, h: nat, m: Blk)
    requires l < h <= |bs| && m.free && m.addr == bs[l].addr
    ensures var r := Splice(bs, l, h, [m]);
            && l < |r| && r[l] == m && Entry(r, l) == Tag(Pack(m.size, true, PrevFree(bs, l)), Entry(bs, l).prevPhys)
            && |r| == |bs| - (h - l) + 1
            && (h < |bs| ==> r[l + 1] == bs[h] && Entry(r, l + 1) == Tag(Pack(bs[h].size, bs[h].free, true), m.addr))
  {
    var r := Splice(bs, l, h, [m]);
    assert l > 0 ==> r[l - 1] == bs[l - 1];
  }

  lemma ReleasedMirrors(tag: map<nat, Tag>, bs: seq<Blk>, lo: nat, hi: nat, i: nat)
    requires Mirrors(tag, bs, hi) && Tiled(bs, lo, hi) && i < |bs| && !bs[i].free && 0 < lo
    ensures bs[i].addr in tag && End(Grown(bs, i)) in tag && Joined(bs, i).addr in tag && End(Joined(bs, i)) in tag
    ensures var t, m, l, h := DownTag(tag, bs, i, hi), Joined(bs, i), MergeLo(bs, i), MergeHi(bs, i);
            && m.addr in t && End(m) in t && m.addr == bs[l].addr
            && Mirrors(FreedTag(t, m, PrevFree(bs, l), Succ(bs, h - 1, hi)), Splice(bs, l, h, [Merged(bs, i)]), hi)
  {
    hide Mirrors, Tiled, Pack, Grown, DownTag, Joined, Merged, Splice, UpTag;
    DownRead(tag, bs, lo, hi, i, 0);
    MergedIsJoined(bs, lo, hi, i);
    var m, l, h := Merged(bs, i), MergeLo(bs, i), MergeHi(bs, i);
    var t := FreedTag(DownTag(tag, bs, i, hi), Joined(bs, i), PrevFree(bs, l), Succ(bs, h - 1, hi));
    forall k | 0 <= k < |bs| && (k < l || k > h)
      ensures bs[k].addr in tag && bs[k].addr in t && t[bs[k].addr] == tag[bs[k].addr]
    {
      ReadEntry(tag, bs, lo, hi, k);
      OutsideKeys(bs, lo, hi, i, k);
      DownRead(tag, bs, lo, hi, i, bs[k].addr);
    }
    SuccSize(bs, lo, hi, h - 1);
    AfterIsEnd(bs, lo, hi, h - 1);
    SentinelTag(tag, bs, hi);
    OutsideKeys(bs, lo, hi, i, i);
    DownRead(tag, bs, lo, hi, i, hi);
    assert hi in t && t[hi] == tag[hi];
    var r := Splice(bs, l, h, [m]);
    forall k | l <= k <= l + 1 && k < |r| ensures r[k].addr in t && t[r[k].addr] == Entry(r, k) {
      FreedEntries(bs, l, h, m);
    }
    MirrorsSplice(tag, t, bs, hi, l, h, [m]);
  }

  lemma JoinedSized(bs: seq<Blk>, lo: nat, hi: nat, i: nat)
    requires Tiled(bs, lo, hi) && i < |bs|
    ensures Grown(bs, i).size % 8 == 0 && Grown(bs, i).size >= MIN_BLOCK
    ensures Joined(bs, i).size % 8 == 0 && Joined(bs, i).size >= MIN_BLOCK
  {
    assert Sized(bs[i]);
    if Up(bs, i) {
      assert Sized(bs[i + 1]);
      SizedJoin(bs[i].size, bs[i + 1].size);
    }
    if Down(bs, i) {
      assert Sized(bs[i - 1]);
      SizedJoin(bs[i - 1].size, Grown(bs, i).size);
    }
  }

  lemma MergedIsJoined(bs: seq<Blk>, lo: nat, hi: nat, i: nat)
    requires Tiled(bs, lo, hi) && i < |bs| && !bs[i].free
    ensures MergeHi(bs, i) == (if Up(bs, i) then i + 2 else i + 1)
    ensures MergeLo(bs, i) == (if Down(bs, i) then i - 1 else i)
    ensures Merged(bs, i) == Joined(bs, i).(free := true) && Joined(bs, i).addr == bs[MergeLo(bs, i)].addr
    ensures End(Grown(bs, i)) == End(Joined(bs, i)) == End(bs[MergeHi(bs, i) - 1])
  {
    MergedSize(bs, lo, hi, i);
    if i > 0 { assert bs[i].addr == End(bs[i - 1]); }
    if i + 1 < |bs| { assert bs[i + 1].addr == End(bs[i]); }
    hide Tiled;
  }

  /** The headers after `FileRest`. */
  ghost function SplitTag(tag: map<nat, Tag>, bs: seq<Blk>, i: nat, size: nat): map<nat, Tag>
    requires i < |bs| && Splits(bs[i], size)
  {
    var r := Rest(bs[i], size);
    var t := tag[r.addr := Tag(Pack(r.size, true, false), bs[i].addr)]
                [bs[i].addr := Tag(Pack(size, true, false), Entry(bs, i).prevPhys)];
    if i + 1 < |bs| then t[bs[i + 1].addr := Tag(Entry(bs, i + 1).word, r.addr)] else t
  }

  /** The headers after `MarkUsed`. */
  ghost function UsedTag(tag: map<nat, Tag>, a: nat, s: nat, ns: nat, nf: bool): map<nat, Tag>
    requires a in tag && a + OVERHEAD + s in tag
  {
    var n := a + OVERHEAD + s;
    var t := tag[a := Tag(Pack(s, false, false), tag[a].prevPhys)];
    if ns == 0 then t else t[n := Tag(Pack(ns, nf, false), tag[n].prevPhys)]
  }

  lemma CarvedBySplit(tag: map<nat, Tag>, bs: seq<Blk>, lo: nat, hi: nat, i: nat, size: nat)
    requires Tiled(bs, lo, hi) && i < |bs| && Splits(bs[i], size) && bs[i].free && size >= MIN_BLOCK
    ensures var r, t := Rest(bs[i], size), SplitTag(tag, bs, i, size);
            && bs[i].addr in t && bs[i].addr + OVERHEAD + size in t
            && t[bs[i].addr].word == Pack(size, true, false) && t[r.addr].word == Pack(r.size, true, false)
            && UsedTag(t, bs[i].addr, size, r.size, true) == CarvedTag(tag, bs, i, size)
  {
    CarvedKeys(bs, lo, hi, i, size, i);
    if i + 1 < |bs| { CarvedKeys(bs, lo, hi, i, size, i + 1); }
    hide Tiled, Pack;
  }

  lemma CarvedWhole(tag: map<nat, Tag>, bs: seq<Blk>, hi: nat, i: nat, size: nat)
    requires i < |bs| && !Splits(bs[i], size) && bs[i].addr in tag && tag[bs[i].addr] == Entry(bs, i)
    requires End(bs[i]) in tag && End(bs[i]) == After(bs, i, hi)
    requires i + 1 < |bs| ==> tag[End(bs[i])].prevPhys == bs[i].addr && bs[i + 1].size > 0
    ensures var n := if i + 1 < |bs| then bs[i + 1] else Blk(hi, 0, false);
            UsedTag(tag, bs[i].addr, bs[i].size, n.size, n.free) == CarvedTag(tag, bs, i, size)
  {}

  /** The header after block `i`: the next block, or the sentinel. */
  lemma SuccessorTag(tag: map<nat, Tag>, bs: seq<Blk>, lo: nat, hi: nat, i: nat)
    requires Mirrors(tag, bs, hi) && Tiled(bs, lo, hi) && i < |bs|
    ensures End(bs[i]) in tag && End(bs[i]) == After(bs, i, hi)
    ensures i + 1 < |bs| ==>
              && bs[i + 1].size % 8 == 0 && bs[i + 1].size >= MIN_BLOCK
              && tag[End(bs[i])] == Tag(Pack(bs[i + 1].size, bs[i + 1].free, bs[i].free), bs[i].addr)
    ensures i + 1 == |bs| ==> tag[End(bs[i])].word == Pack(0, false, false)
  {
    if i + 1 < |bs| { assert Sized(bs[i + 1]); }
  }

  lemma RestSize(b: Blk, size: nat)
    requires Splits(b, size) && size % 8 == 0 && b.size % 8 == 0
    ensures Rest(b, size).size % 8 == 0 && End(Rest(b, size)) == End(b) && Rest(b, size).size >= MIN_BLOCK
  {}

  lemma PackZero()
    ensures Pack(0, false, false) == 0
  {}

  lemma SentinelTag(tag: map<nat, Tag>, bs: seq<Blk>, hi: nat)
    requires Mirrors(tag, bs, hi)
    ensures hi in tag && tag[hi].word == 0 && GetSize(tag[hi].word) == 0 && !IsFree(tag[hi].word)
  {
    ReadSentinel();
  }
}
