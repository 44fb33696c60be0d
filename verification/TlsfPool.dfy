/** The TLSF pool as a value: the physical sequence of blocks and the segregated free
    lists.  `AllocAt` and `FreeAt` say what kernel/kernel/memory/tlsf.c computes, free
    of headers, links and bitmaps; the laws of the allocator are proved here. */
module TlsfPool {
  import opened Bits
  import opened TlsfMapping
  import opened Sequences

  const OVERHEAD: nat := 8

  /** A block header at `addr` with a payload of `size` bytes. */
  datatype Blk = Blk(addr: nat, size: nat, free: bool)

  datatype Pool = Pool(blocks: seq<Blk>, lists: seq<seq<nat>>)

  function End(b: Blk): nat { b.addr + OVERHEAD + b.size }

  // ------------------------------------------------------------ tilings

  ghost predicate Sized(b: Blk) { b.size >= MIN_BLOCK && b.size % 8 == 0 }

  /** The blocks cover [lo, hi) without gap or overlap. */
  ghost predicate Tiled(bs: seq<Blk>, lo: nat, hi: nat)
  {
    && |bs| > 0 && bs[0].addr == lo && End(bs[|bs| - 1]) == hi
    && (forall i :: 0 <= i < |bs| ==> Sized(bs[i]))
    && (forall i :: 0 < i < |bs| ==> bs[i].addr == End(bs[i - 1]))
  }

  /** No two neighbours are both free. */
  ghost predicate Coalesced(bs: seq<Blk>)
  {
    forall i :: 0 < i < |bs| ==> !(bs[i - 1].free && bs[i].free)
  }

  function Splice(bs: seq<Blk>, i: nat, j: nat, mid: seq<Blk>): seq<Blk>
    requires i <= j <= |bs|
  {
    bs[..i] + mid + bs[j..]
  }

  lemma SpliceTiled(bs: seq<Blk>, lo: nat, hi: nat, i: nat, j: nat, mid: seq<Blk>)
    requires Tiled(bs, lo, hi) && i < j <= |bs| && Tiled(mid, bs[i].addr, End(bs[j - 1]))
    ensures Tiled(Splice(bs, i, j, mid), lo, hi)
  {
    var r := Splice(bs, i, j, mid);
    forall k | 0 < k < |r| ensures r[k].addr == End(r[k - 1]) {
      if k < i { assert r[k] == bs[k]; }
      else if k < i + |mid| { assert r[k] == mid[k - i]; }
      else { assert r[k] == bs[k - i - |mid| + j]; }
    }
  }

  lemma SpliceCoalesced(bs: seq<Blk>, i: nat, j: nat, mid: seq<Blk>)
    requires Coalesced(bs) && i < j <= |bs| && |mid| > 0 && Coalesced(mid)
    requires i > 0 ==> !(bs[i - 1].free && mid[0].free)
    requires j < |bs| ==> !(mid[|mid| - 1].free && bs[j].free)
    ensures Coalesced(Splice(bs, i, j, mid))
  {
    var r := Splice(bs, i, j, mid);
    forall k | 0 < k < |r| ensures !(r[k - 1].free && r[k].free) {
      if k < i { assert r[k] == bs[k]; }
      else if k < i + |mid| { assert r[k] == mid[k - i]; }
      else { assert r[k] == bs[k - i - |mid| + j]; }
    }
  }

  /** Addresses grow along the chain. */
  lemma {:induction false} Ascending(bs: seq<Blk>, lo: nat, hi: nat, i: nat, j: nat)
    requires Tiled(bs, lo, hi) && i < j < |bs|
    ensures End(bs[i]) <= bs[j].addr
    decreases j
  {
    if i + 1 < j { Ascending(bs, lo, hi, i, j - 1); }
  }

  /** A block is determined by its address. */
  lemma SameAddr(bs: seq<Blk>, lo: nat, hi: nat, i: nat, j: nat)
    requires Tiled(bs, lo, hi) && i < |bs| && j < |bs| && bs[i].addr == bs[j].addr
    ensures i == j
  {
    if i < j { Ascending(bs, lo, hi, i, j); }
    if j < i { Ascending(bs, lo, hi, j, i); }
  }

  /** `x` is a byte of the block, its header included. */
  predicate Covers(b: Blk, x: nat) { b.addr <= x < End(b) }

  /** The blocks cover the pool and nothing outside it. */
  lemma {:induction false} CoveredBy(bs: seq<Blk>, lo: nat, hi: nat, x: nat)
    requires Tiled(bs, lo, hi)
    ensures lo < hi && (lo <= x < hi <==> exists i :: 0 <= i < |bs| && Covers(bs[i], x))
  {
    if |bs| > 1 { Ascending(bs, lo, hi, 0, |bs| - 1); }
    forall i | 0 <= i < |bs| && Covers(bs[i], x) ensures lo <= x < hi {
      if i > 0 { Ascending(bs, lo, hi, 0, i); }
      if i < |bs| - 1 { Ascending(bs, lo, hi, i, |bs| - 1); }
    }
    if lo <= x < hi { var i := LastBelow(bs, lo, hi, x, |bs|); }
  }

  lemma {:induction false} LastBelow(bs: seq<Blk>, lo: nat, hi: nat, x: nat, n: nat) returns (i: nat)
    requires Tiled(bs, lo, hi) && 0 < n <= |bs| && lo <= x < End(bs[n - 1])
    ensures i < |bs| && Covers(bs[i], x)
  {
    if bs[n - 1].addr <= x { i := n - 1; } else { i := LastBelow(bs, lo, hi, x, n - 1); }
  }

  // ------------------------------------------------------------ free bytes

  function FreeBytes(bs: seq<Blk>): nat
  {
    if bs == [] then 0 else (if bs[0].free then bs[0].size else 0) + FreeBytes(bs[1..])
  }

  lemma {:induction false} FreeBytesConcat(a: seq<Blk>, b: seq<Blk>)
    ensures FreeBytes(a + b) == FreeBytes(a) + FreeBytes(b)
  {
    if a == [] {
      assert a + b == b;
    } else {
      assert (a + b)[1..] == a[1..] + b;
      FreeBytesConcat(a[1..], b);
    }
  }

  lemma {:induction false} FreeBytesAtLeast(bs: seq<Blk>, i: nat)
    requires i < |bs| && bs[i].free
    ensures FreeBytes(bs) >= bs[i].size
  {
    if i > 0 { FreeBytesAtLeast(bs[1..], i - 1); }
  }

  lemma SpliceFreeBytes(bs: seq<Blk>, i: nat, j: nat, mid: seq<Blk>)
    requires i <= j <= |bs|
    ensures FreeBytes(Splice(bs, i, j, mid)) + FreeBytes(bs[i..j]) == FreeBytes(bs) + FreeBytes(mid)
  {
    FreeBytesConcat(bs[..i] + mid, bs[j..]);
    FreeBytesConcat(bs[..i], mid);
    assert bs == bs[..i] + bs[i..j] + bs[j..];
    FreeBytesConcat(bs[..i] + bs[i..j], bs[j..]);
    FreeBytesConcat(bs[..i], bs[i..j]);
  }

  // ------------------------------------------------------------ free lists

  ghost function FreeSet(bs: seq<Blk>): set<Blk>
  {
    set b | b in bs && b.free
  }

  /** Every free block is in exactly the list its size maps to, and nothing else is. */
  ghost predicate Filed(f: set<Blk>, lists: seq<seq<nat>>)
  {
    && |lists| == CLASSES
    && (forall b :: b in f ==> b.size >= MIN_BLOCK && b.free)
    && (forall a, b :: a in f && b in f && a.addr == b.addr ==> a == b)
    && (forall c :: 0 <= c < CLASSES ==> Distinct(lists[c]))
    && (forall b :: b in f ==> b.addr in lists[Class(b.size)])
    && (forall c, x :: 0 <= c < CLASSES && x in lists[c] ==> exists b :: b in f && b.addr == x && Class(b.size) == c)
  }

  function Erase(s: seq<nat>, x: nat): seq<nat>
  {
    if s == [] then [] else if s[0] == x then s[1..] else [s[0]] + Erase(s[1..], x)
  }

  lemma {:induction false} EraseAt(s: seq<nat>, i: nat)
    requires i < |s| && Distinct(s)
    ensures Erase(s, s[i]) == RemoveAt(s, i)
  {
    if i > 0 {
      var t := s[1..];
      assert t[i - 1] == s[i] && s[0] != s[i];
      EraseAt(t, i - 1);
      assert Erase(s, s[i]) == [s[0]] + Erase(t, s[i]);
      hide Erase;
      assert s[..i] == [s[0]] + t[..i - 1] && s[i + 1..] == t[i..];
    }
  }

  lemma {:induction false} EraseMembers(s: seq<nat>, x: nat)
    requires Distinct(s)
    ensures Distinct(Erase(s, x))
    ensures forall y :: y in Erase(s, x) <==> y in s && y != x
  {
    if s != [] {
      EraseMembers(s[1..], x);
      assert s == [s[0]] + s[1..];
      assert s[0] !in s[1..];
      var e := Erase(s[1..], x);
      forall j | 0 <= j < |e| ensures e[j] != s[0] { assert e[j] in e; }
    }
  }

  function Unfile(lists: seq<seq<nat>>, b: Blk): seq<seq<nat>>
    requires |lists| == CLASSES
  {
    lists[Class(b.size) := Erase(lists[Class(b.size)], b.addr)]
  }

  function File(lists: seq<seq<nat>>, b: Blk): seq<seq<nat>>
    requires |lists| == CLASSES
  {
    lists[Class(b.size) := [b.addr] + lists[Class(b.size)]]
  }

  lemma UnfileKeeps(f: set<Blk>, lists: seq<seq<nat>>, b: Blk)
    requires Filed(f, lists) && b in f
    ensures Filed(f - {b}, Unfile(lists, b))
  {
    hide Class;
    var c := Class(b.size);
    EraseMembers(lists[c], b.addr);
    var l := Unfile(lists, b);
    forall d, x | 0 <= d < CLASSES && x in l[d] ensures exists a :: a in f - {b} && a.addr == x && Class(a.size) == d {
      assert x in lists[d];
      var a :| a in f && a.addr == x && Class(a.size) == d;
      assert a != b;
    }
  }

  lemma FileKeeps(f: set<Blk>, lists: seq<seq<nat>>, b: Blk)
    requires Filed(f, lists) && b.free && b.size >= MIN_BLOCK
    requires forall a :: a in f ==> a.addr != b.addr
    ensures Filed(f + {b}, File(lists, b))
  {
    hide Class;
    var c := Class(b.size);
    var l := File(lists, b);
    assert l[c] == [b.addr] + lists[c];
    assert b.addr !in lists[c];
    forall d, x | 0 <= d < CLASSES && x in l[d] ensures exists a :: a in f + {b} && a.addr == x && Class(a.size) == d {
      if x in lists[d] {
        var a :| a in f && a.addr == x && Class(a.size) == d;
        assert a in f + {b};
      } else {
        assert d == c && x == b.addr && b in f + {b};
      }
    }
    forall a | a in f + {b} ensures a.addr in l[Class(a.size)] {
      if a != b { assert a.addr in lists[Class(a.size)]; }
    }
  }

  // ------------------------------------------------------------ the pool

  ghost predicate Ok(p: Pool, lo: nat, hi: nat)
  {
    Tiled(p.blocks, lo, hi) && Coalesced(p.blocks) && Filed(FreeSet(p.blocks), p.lists)
  }

  /** `block_split`, taken when the rest can hold a block of its own. */
  predicate Splits(b: Blk, size: nat) { b.size >= size + OVERHEAD + MIN_BLOCK }

  function Rest(b: Blk, size: nat): Blk
    requires Splits(b, size)
  {
    Blk(b.addr + OVERHEAD + size, b.size - size - OVERHEAD, true)
  }

  function Carve(b: Blk, size: nat): seq<Blk>
  {
    if Splits(b, size) then [Blk(b.addr, size, false), Rest(b, size)] else [b.(free := false)]
  }

  /** `kernel_tlsf_alloc` once block `i` has been chosen. */
  function AllocAt(p: Pool, i: nat, size: nat): Pool
    requires i < |p.blocks| && |p.lists| == CLASSES
  {
    var b := p.blocks[i];
    var l := Unfile(p.lists, b);
    Pool(Splice(p.blocks, i, i + 1, Carve(b, size)), if Splits(b, size) then File(l, Rest(b, size)) else l)
  }

  /** First and one-past-last block that `kernel_tlsf_free` merges around block `i`. */
  function MergeLo(bs: seq<Blk>, i: nat): nat
    requires i < |bs|
  {
    if i > 0 && bs[i - 1].free then i - 1 else i
  }

  function MergeHi(bs: seq<Blk>, i: nat): (r: nat)
    requires i < |bs|
    ensures i < r <= |bs|
  {
    if i + 1 < |bs| && bs[i + 1].free then i + 2 else i + 1
  }

  function Merged(bs: seq<Blk>, i: nat): Blk
    requires i < |bs|
  {
    var first := bs[MergeLo(bs, i)];
    var n := End(bs[MergeHi(bs, i) - 1]) - first.addr - OVERHEAD;
    Blk(first.addr, if n >= 0 then n else 0, true)
  }

  /** The lists of `FreeAt` before the merged block is filed. */
  function FreeLists(p: Pool, i: nat): seq<seq<nat>>
    requires i < |p.blocks| && |p.lists| == CLASSES
  {
    var bs := p.blocks;
    var l1 := if MergeHi(bs, i) == i + 2 then Unfile(p.lists, bs[i + 1]) else p.lists;
    if MergeLo(bs, i) < i then Unfile(l1, bs[i - 1]) else l1
  }

  /** `kernel_tlsf_free` of block `i`: absorb the next block, then join the previous one. */
  function FreeAt(p: Pool, i: nat): Pool
    requires i < |p.blocks| && |p.lists| == CLASSES
  {
    var bs := p.blocks;
    Pool(Splice(bs, MergeLo(bs, i), MergeHi(bs, i), [Merged(bs, i)]), File(FreeLists(p, i), Merged(bs, i)))
  }

  lemma SliceOf(bs: seq<Blk>, i: nat)
    requires i < |bs|
    ensures bs[i..i + 1] == [bs[i]]
    ensures i + 1 < |bs| ==> bs[i..i + 2] == [bs[i], bs[i + 1]]
    ensures i + 2 < |bs| ==> bs[i..i + 3] == [bs[i], bs[i + 1], bs[i + 2]]
  {}

  lemma PartsApart(bs: seq<Blk>, lo: nat, hi: nat, i: nat, j: nat, b: Blk)
    requires Tiled(bs, lo, hi) && i <= j <= |bs| && b in bs[i..j]
    ensures b !in bs[..i] && b !in bs[j..]
  {
    var h :| 0 <= h < j - i && bs[i..j][h] == b;
    if b in bs[..i] {
      var k :| 0 <= k < i && bs[..i][k] == b;
      SameAddr(bs, lo, hi, k, i + h);
    }
    if b in bs[j..] {
      var k :| 0 <= k < |bs| - j && bs[j..][k] == b;
      SameAddr(bs, lo, hi, j + k, i + h);
    }
  }

  /** The free blocks after a splice. */
  lemma SpliceFreeSet(bs: seq<Blk>, lo: nat, hi: nat, i: nat, j: nat, mid: seq<Blk>)
    requires Tiled(bs, lo, hi) && i <= j <= |bs|
    ensures FreeSet(Splice(bs, i, j, mid)) == FreeSet(bs) - FreeSet(bs[i..j]) + FreeSet(mid)
  {
    var r := Splice(bs, i, j, mid);
    assert bs == bs[..i] + bs[i..j] + bs[j..];
    forall b ensures b in FreeSet(r) <==> b in FreeSet(bs) - FreeSet(bs[i..j]) + FreeSet(mid) {
      if b in bs[i..j] { PartsApart(bs, lo, hi, i, j, b); }
    }
  }

  // ------------------------------------------------------------ every call keeps the pool

  lemma CarveTiles(b: Blk, size: nat)
    requires Sized(b) && size >= MIN_BLOCK && size % 8 == 0
    ensures Tiled(Carve(b, size), b.addr, End(b)) && Coalesced(Carve(b, size))
    ensures FreeSet(Carve(b, size)) == if Splits(b, size) then {Rest(b, size)} else {}
    ensures !Carve(b, size)[0].free
  {}

  /** Addresses outside a block are outside its extent. */
  lemma OtherAddr(bs: seq<Blk>, lo: nat, hi: nat, i: nat, a: Blk, x: nat)
    requires Tiled(bs, lo, hi) && i < |bs| && a in bs && a != bs[i] && bs[i].addr <= x < End(bs[i])
    ensures a.addr != x
  {
    var k :| 0 <= k < |bs| && bs[k] == a;
    if k < i { Ascending(bs, lo, hi, k, i); } else { Ascending(bs, lo, hi, i, k); }
  }

  lemma AllocKeeps(p: Pool, lo: nat, hi: nat, i: nat, size: nat)
    requires Ok(p, lo, hi) && i < |p.blocks| && p.blocks[i].free && size >= MIN_BLOCK && size % 8 == 0
    ensures Ok(AllocAt(p, i, size), lo, hi)
  {
    AllocKeepsShape(p.blocks, lo, hi, i, size);
    AllocKeepsLists(p, lo, hi, i, size);
    hide Tiled, Coalesced, Filed, FreeSet, Splice, Carve, File, Unfile;
  }

  lemma AllocKeepsShape(bs: seq<Blk>, lo: nat, hi: nat, i: nat, size: nat)
    requires Tiled(bs, lo, hi) && Coalesced(bs) && i < |bs| && bs[i].free && size >= MIN_BLOCK && size % 8 == 0
    ensures var t := Splice(bs, i, i + 1, Carve(bs[i], size));
            && Tiled(t, lo, hi) && Coalesced(t)
            && FreeSet(t) == FreeSet(bs) - {bs[i]} + if Splits(bs[i], size) then {Rest(bs[i], size)} else {}
  {
    var b := bs[i];
    assert Sized(b);
    CarveTiles(b, size);
    SliceOf(bs, i);
    SpliceTiled(bs, lo, hi, i, i + 1, Carve(b, size));
    SpliceCoalesced(bs, i, i + 1, Carve(b, size));
    SpliceFreeSet(bs, lo, hi, i, i + 1, Carve(b, size));
    assert FreeSet([b]) == {b};
    CarveFree(b, size);
    hide Tiled, Coalesced, Splice, Carve, FreeSet;
  }

  lemma CarveFree(b: Blk, size: nat)
    ensures FreeSet(Carve(b, size)) == if Splits(b, size) then {Rest(b, size)} else {}
  {}

  lemma AllocKeepsLists(p: Pool, lo: nat, hi: nat, i: nat, size: nat)
    requires Ok(p, lo, hi) && i < |p.blocks| && p.blocks[i].free && size >= MIN_BLOCK && size % 8 == 0
    ensures var b, l := p.blocks[i], Unfile(p.lists, p.blocks[i]);
            if Splits(b, size) then Filed(FreeSet(p.blocks) - {b} + {Rest(b, size)}, File(l, Rest(b, size)))
            else Filed(FreeSet(p.blocks) - {b} + {}, l)
  {
    var bs, b, f := p.blocks, p.blocks[i], FreeSet(p.blocks);
    assert b in f;
    hide Filed;
    UnfileKeeps(f, p.lists, b);
    if Splits(b, size) {
      var rest := Rest(b, size);
      forall a | a in f - {b} ensures a.addr != rest.addr { OtherAddr(bs, lo, hi, i, a, rest.addr); }
      FileKeeps(f - {b}, Unfile(p.lists, b), rest);
    } else {
      assert f - {b} + {} == f - {b};
    }
  }

  lemma MergedSize(bs: seq<Blk>, lo: nat, hi: nat, i: nat)
    requires Tiled(bs, lo, hi) && i < |bs|
    ensures Merged(bs, i).size == bs[i].size
              + (if MergeLo(bs, i) < i then bs[i - 1].size + OVERHEAD else 0)
              + (if MergeHi(bs, i) == i + 2 then bs[i + 1].size + OVERHEAD else 0)
  {
    if i > 0 { assert bs[i].addr == End(bs[i - 1]); }
    if i + 1 < |bs| { assert bs[i + 1].addr == End(bs[i]); }
  }

  lemma SizedJoin(a: nat, b: nat)
    requires a >= MIN_BLOCK && a % 8 == 0 && b % 8 == 0
    ensures a + (b + OVERHEAD) >= MIN_BLOCK && (a + (b + OVERHEAD)) % 8 == 0
  {}

  lemma MergedFits(bs: seq<Blk>, lo: nat, hi: nat, i: nat)
    requires Tiled(bs, lo, hi) && i < |bs|
    ensures Tiled([Merged(bs, i)], bs[MergeLo(bs, i)].addr, End(bs[MergeHi(bs, i) - 1]))
  {
    MergedSize(bs, lo, hi, i);
    MergedSized(bs, lo, hi, i);
  }

  lemma MergedSized(bs: seq<Blk>, lo: nat, hi: nat, i: nat)
    requires Tiled(bs, lo, hi) && i < |bs|
    ensures Sized(Merged(bs, i))
  {
    assert Sized(bs[i]) && (i > 0 ==> Sized(bs[i - 1])) && (i + 1 < |bs| ==> Sized(bs[i + 1]));
    MergedSize(bs, lo, hi, i);
    hide Tiled, Merged;
    var n := bs[i].size;
    var x := if MergeLo(bs, i) < i then bs[i - 1].size + OVERHEAD else 0;
    var y := if MergeHi(bs, i) == i + 2 then bs[i + 1].size + OVERHEAD else 0;
    if MergeLo(bs, i) < i { SizedJoin(n, bs[i - 1].size); }
    if MergeHi(bs, i) == i + 2 { SizedJoin(n + x, bs[i + 1].size); }
  }

  /** The free blocks among those a free merges. */
  lemma MergedRegion(bs: seq<Blk>, i: nat)
    requires i < |bs| && !bs[i].free
    ensures FreeSet(bs[MergeLo(bs, i)..MergeHi(bs, i)])
         == (if MergeHi(bs, i) == i + 2 then {bs[i + 1]} else {}) + (if MergeLo(bs, i) < i then {bs[i - 1]} else {})
  {
    SliceOf(bs, MergeLo(bs, i));
  }

  lemma FreeKeeps(p: Pool, lo: nat, hi: nat, i: nat)
    requires Ok(p, lo, hi) && i < |p.blocks| && !p.blocks[i].free
    ensures Ok(FreeAt(p, i), lo, hi)
  {
    var bs := p.blocks;
    MergedFits(bs, lo, hi, i);
    FreeKeepsShape(p, lo, hi, i);
    FreeKeepsLists(p, lo, hi, i);
  }

  lemma FreeKeepsShape(p: Pool, lo: nat, hi: nat, i: nat)
    requires Ok(p, lo, hi) && i < |p.blocks| && !p.blocks[i].free
    ensures Tiled(FreeAt(p, i).blocks, lo, hi) && Coalesced(FreeAt(p, i).blocks)
  {
    var bs := p.blocks;
    MergedFits(bs, lo, hi, i);
    SpliceTiled(bs, lo, hi, MergeLo(bs, i), MergeHi(bs, i), [Merged(bs, i)]);
    SpliceCoalesced(bs, MergeLo(bs, i), MergeHi(bs, i), [Merged(bs, i)]);
  }

  lemma MergedNeighbours(bs: seq<Blk>, lo: nat, hi: nat, i: nat)
    requires Tiled(bs, lo, hi) && i < |bs|
    ensures MergeHi(bs, i) == i + 2 ==> bs[i + 1] in FreeSet(bs)
    ensures MergeLo(bs, i) < i ==> MergeLo(bs, i) == i - 1 && bs[i - 1] in FreeSet(bs)
    ensures 0 < i && i + 1 < |bs| ==> bs[i - 1] != bs[i + 1]
  {
    if 0 < i && i + 1 < |bs| { Ascending(bs, lo, hi, i - 1, i + 1); }
  }

  lemma FreeListsKeep(p: Pool, lo: nat, hi: nat, i: nat)
    requires Ok(p, lo, hi) && i < |p.blocks| && !p.blocks[i].free
    ensures Filed(FreeSet(p.blocks) - FreeSet(p.blocks[MergeLo(p.blocks, i)..MergeHi(p.blocks, i)]), FreeLists(p, i))
  {
    OkParts(p, lo, hi);
    hide Filed, Tiled, Coalesced, Unfile, Class;
    var bs := p.blocks;
    var f := FreeSet(bs);
    MergedRegion(bs, i);
    MergedNeighbours(bs, lo, hi, i);
    hide FreeSet;
    var up, down := MergeHi(bs, i) == i + 2, MergeLo(bs, i) < i;
    var f1 := if up then f - {bs[i + 1]} else f;
    var l1 := if up then Unfile(p.lists, bs[i + 1]) else p.lists;
    if up { UnfileKeeps(f, p.lists, bs[i + 1]); }
    if down {
      UnfileKeeps(f1, l1, bs[i - 1]);
      assert f1 - {bs[i - 1]} == f - FreeSet(bs[MergeLo(bs, i)..MergeHi(bs, i)]);
    } else {
      assert f1 == f - FreeSet(bs[MergeLo(bs, i)..MergeHi(bs, i)]);
    }
  }

  /** No free block outside the merged region has the merged block's address. */
  lemma MergedAddrFresh(p: Pool, lo: nat, hi: nat, i: nat)
    requires Ok(p, lo, hi) && i < |p.blocks|
    ensures var bs := p.blocks;
            forall a :: a in FreeSet(bs) - FreeSet(bs[MergeLo(bs, i)..MergeHi(bs, i)]) ==>
              a.addr != bs[MergeLo(bs, i)].addr
  {
    var bs, l := p.blocks, MergeLo(p.blocks, i);
    assert bs[l] == bs[l..MergeHi(bs, i)][0];
    forall a | a in FreeSet(bs) - FreeSet(bs[l..MergeHi(bs, i)]) ensures a.addr != bs[l].addr {
      OtherAddr(bs, lo, hi, l, a, bs[l].addr);
    }
  }

  lemma MergedUnlisted(p: Pool, lo: nat, hi: nat, i: nat)
    requires Ok(p, lo, hi) && i < |p.blocks| && !p.blocks[i].free
    ensures forall c :: 0 <= c < CLASSES ==> p.blocks[MergeLo(p.blocks, i)].addr !in FreeLists(p, i)[c]
  {
    MergedAddrFresh(p, lo, hi, i);
    FreeListsKeep(p, lo, hi, i);
    hide FreeLists, Class;
  }

  lemma FreeKeepsLists(p: Pool, lo: nat, hi: nat, i: nat)
    requires Ok(p, lo, hi) && i < |p.blocks| && !p.blocks[i].free
    ensures Filed(FreeSet(FreeAt(p, i).blocks), FreeAt(p, i).lists)
  {
    assert |p.lists| == CLASSES;
    hide Filed;
    var bs, m, l := p.blocks, Merged(p.blocks, i), MergeLo(p.blocks, i);
    var f := FreeSet(bs) - FreeSet(bs[l..MergeHi(bs, i)]);
    MergedFits(bs, lo, hi, i);
    assert Sized(m);
    SpliceFreeSet(bs, lo, hi, l, MergeHi(bs, i), [m]);
    assert FreeSet([m]) == {m};
    FreeListsKeep(p, lo, hi, i);
    MergedAddrFresh(p, lo, hi, i);
    FileKeeps(f, FreeLists(p, i), m);
  }

  lemma OkParts(p: Pool, lo: nat, hi: nat)
    requires Ok(p, lo, hi)
    ensures Tiled(p.blocks, lo, hi) && Coalesced(p.blocks) && |p.lists| == CLASSES
  {}

  lemma FiledAt(p: Pool, lo: nat, hi: nat, i: nat)
    requires Ok(p, lo, hi) && i < |p.blocks| && p.blocks[i].free
    ensures p.blocks[i].addr in p.lists[Class(p.blocks[i].size)]
    ensures i > 0 ==> !p.blocks[i - 1].free
    ensures i + 1 < |p.blocks| ==> !p.blocks[i + 1].free
  {
    assert p.blocks[i] in FreeSet(p.blocks);
  }

  /** Nothing but addresses of free blocks is ever filed. */
  lemma Unlisted(p: Pool, lo: nat, hi: nat, x: nat)
    requires Ok(p, lo, hi) && forall b :: b in p.blocks && b.free ==> b.addr != x
    ensures forall c :: 0 <= c < CLASSES ==> x !in p.lists[c]
  {}

  lemma RestUnlisted(p: Pool, lo: nat, hi: nat, i: nat, size: nat)
    requires Ok(p, lo, hi) && i < |p.blocks| && Splits(p.blocks[i], size)
    ensures forall c :: 0 <= c < CLASSES ==> Rest(p.blocks[i], size).addr !in Unfile(p.lists, p.blocks[i])[c]
  {
    var b, x := p.blocks[i], Rest(p.blocks[i], size).addr;
    forall a | a in p.blocks && a.free ensures a.addr != x { if a != b { OtherAddr(p.blocks, lo, hi, i, a, x); } }
    Unlisted(p, lo, hi, x);
    EraseMembers(p.lists[Class(b.size)], b.addr);
  }

  // ------------------------------------------------------------ conservation and inverses

  lemma AllocBytes(p: Pool, i: nat, size: nat)
    requires i < |p.blocks| && |p.lists| == CLASSES && p.blocks[i].free
    ensures FreeBytes(AllocAt(p, i, size).blocks)
          + (if Splits(p.blocks[i], size) then size + OVERHEAD else p.blocks[i].size) == FreeBytes(p.blocks)
  {
    var b := p.blocks[i];
    SliceOf(p.blocks, i);
    SpliceFreeBytes(p.blocks, i, i + 1, Carve(b, size));
    assert FreeBytes([b]) == b.size;
    if Splits(b, size) {
      var rest := Rest(b, size);
      assert Carve(b, size)[1..] == [rest];
      assert FreeBytes([rest]) == rest.size;
    }
  }

  lemma FreeAddsBytes(p: Pool, lo: nat, hi: nat, i: nat)
    requires Ok(p, lo, hi) && i < |p.blocks| && !p.blocks[i].free
    ensures FreeBytes(FreeAt(p, i).blocks) == FreeBytes(p.blocks) + p.blocks[i].size
              + (if MergeLo(p.blocks, i) < i then OVERHEAD else 0)
              + (if MergeHi(p.blocks, i) == i + 2 then OVERHEAD else 0)
  {
    var bs := p.blocks;
    MergedSize(bs, lo, hi, i);
    var l, h, m := MergeLo(bs, i), MergeHi(bs, i), Merged(bs, i);
    SpliceFreeBytes(bs, l, h, [m]);
    assert FreeBytes([m]) == m.size;
    RegionBytes(bs, i);
  }

  lemma RegionBytes(bs: seq<Blk>, i: nat)
    requires i < |bs| && !bs[i].free
    ensures FreeBytes(bs[MergeLo(bs, i)..MergeHi(bs, i)])
         == (if MergeLo(bs, i) < i then bs[i - 1].size else 0) + (if MergeHi(bs, i) == i + 2 then bs[i + 1].size else 0)
  {
    var l, h := MergeLo(bs, i), MergeHi(bs, i);
    var left, right := bs[l..i], bs[i + 1..h];
    assert bs[l..h] == left + [bs[i]] + right;
    FreeBytesConcat(left + [bs[i]], right);
    FreeBytesConcat(left, [bs[i]]);
    if l < i { assert left == [bs[i - 1]]; }
    if h == i + 2 { assert right == [bs[i + 1]]; }
  }

  lemma EraseHead(s: seq<nat>, x: nat)
    ensures Erase([x] + s, x) == s
  {
    assert ([x] + s)[1..] == s;
  }

  /** Where the allocated block and its rest stand after a carve. */
  lemma CarveIndex(bs: seq<Blk>, lo: nat, hi: nat, i: nat, size: nat)
    requires Tiled(bs, lo, hi) && Coalesced(bs) && i < |bs| && bs[i].free && size >= MIN_BLOCK
    ensures var q := Splice(bs, i, i + 1, Carve(bs[i], size));
            && i < |q| && !q[i].free && q[..i] == bs[..i] && MergeLo(q, i) == i
            && MergeHi(q, i) == (if Splits(bs[i], size) then i + 2 else i + 1)
            && q[MergeHi(q, i)..] == bs[i + 1..]
            && Merged(q, i) == bs[i]
            && (Splits(bs[i], size) ==> q[i + 1] == Rest(bs[i], size))
  {
    var q := Splice(bs, i, i + 1, Carve(bs[i], size));
    if i > 0 { assert q[i - 1] == bs[i - 1]; }
    if i + 1 < |bs| { assert q[i + |Carve(bs[i], size)|] == bs[i + 1]; }
  }

  /** Freeing the block just allocated restores tiling and lists exactly. */
  lemma FreeUndoesAlloc(p: Pool, lo: nat, hi: nat, i: nat, size: nat)
    requires Ok(p, lo, hi) && i < |p.blocks| && p.blocks[i].free && size >= MIN_BLOCK && size % 8 == 0
    requires p.lists[Class(p.blocks[i].size)] != [] && p.lists[Class(p.blocks[i].size)][0] == p.blocks[i].addr
    ensures var q := AllocAt(p, i, size);
            && i < |q.blocks| && !q.blocks[i].free
            && FreeAt(q, i) == p
  {
    assert |p.lists| == CLASSES;
    hide Class, Filed;
    var bs, b := p.blocks, p.blocks[i];
    CarveIndex(bs, lo, hi, i, size);
    hide Carve, Merged, MergeLo, MergeHi, Tiled, Coalesced, File, Unfile;
    RefileHead(p.lists, b);
    if Splits(b, size) { UnfileFiled(Unfile(p.lists, b), Rest(b, size)); }
    var q := AllocAt(p, i, size);
    SpliceBack(bs, i, q.blocks, MergeHi(q.blocks, i));
    hide Splice;
  }

  lemma SpliceBack(bs: seq<Blk>, i: nat, q: seq<Blk>, k: nat)
    requires i < |bs| && i <= k <= |q| && q[..i] == bs[..i] && q[k..] == bs[i + 1..]
    ensures Splice(q, i, k, [bs[i]]) == bs
  {
    assert bs == bs[..i] + [bs[i]] + bs[i + 1..];
  }

  /** Filing the head of a list where it was. */
  lemma RefileHead(lists: seq<seq<nat>>, b: Blk)
    requires |lists| == CLASSES && lists[Class(b.size)] != [] && lists[Class(b.size)][0] == b.addr
    ensures |Unfile(lists, b)| == CLASSES && File(Unfile(lists, b), b) == lists
  {
    hide Class;
    var c := Class(b.size);
    assert lists[c] == [b.addr] + lists[c][1..];
    EraseHead(lists[c][1..], b.addr);
  }

  lemma UnfileFiled(lists: seq<seq<nat>>, b: Blk)
    requires |lists| == CLASSES
    ensures Unfile(File(lists, b), b) == lists
  {
    hide Class;
    EraseHead(lists[Class(b.size)], b.addr);
  }

  /** With no live block left the pool is one free block again, whatever the history. */
  lemma AllFreeIsWhole(p: Pool, lo: nat, hi: nat)
    requires Ok(p, lo, hi) && forall i :: 0 <= i < |p.blocks| ==> p.blocks[i].free
    ensures |p.blocks| == 1 && p.blocks[0] == Blk(lo, p.blocks[0].size, true) && End(p.blocks[0]) == hi
  {
    var second := if |p.blocks| > 1 then p.blocks[1] else p.blocks[0];
    assert second.free;
  }

  // ------------------------------------------------------------ whole calls

  /** The class the bitmap search finds: the first non-empty one at or above `c`. */
  function FirstFrom(lists: seq<seq<nat>>, c: nat): (r: nat)
    requires |lists| == CLASSES && c <= CLASSES
    ensures c <= r <= CLASSES
    ensures forall d :: c <= d < r ==> lists[d] == []
    ensures r < CLASSES ==> lists[r] != []
    decreases CLASSES - c
  {
    if c == CLASSES || lists[c] != [] then c else FirstFrom(lists, c + 1)
  }

  /** The request as `kernel_tlsf_alloc` raises and aligns it. */
  function Adjusted(request: nat): nat
  {
    AndNot((if request < MIN_BLOCK then MIN_BLOCK else request) + 7, 7)
  }

  lemma AdjustedRange(request: nat)
    ensures 16 <= Adjusted(request) && Adjusted(request) % 8 == 0
    ensures request <= Adjusted(request)
    ensures forall s: nat :: s % 8 == 0 && s >= request && s >= 16 ==> s >= Adjusted(request)
    ensures request <= MAX_REQUEST ==> Adjusted(request) <= MAX_REQUEST + 1
  {
    var n := if request < MIN_BLOCK then MIN_BLOCK else request;
    assert Pow2(3) == 8;
    hide And, AndNot, Shr, Pow2;
    MaskSplit(n + 7, 3);
    AndNotRest(n + 7, 7);
    RoundedEight(n, Shr(n + 7, 3), And(n + 7, 7));
    forall s: nat | s % 8 == 0 && s >= request && s >= MIN_BLOCK ensures s >= Adjusted(request) {
      LeastEight(n, Shr(n + 7, 3), And(n + 7, 7), s / 8);
    }
  }

  lemma RoundedEight(n: nat, q: nat, r: nat)
    requires n + 7 == q * 8 + r && r < 8
    ensures n <= q * 8 <= n + 7 && (q * 8) % 8 == 0
  {}

  lemma LeastEight(n: nat, q: nat, r: nat, t: nat)
    requires n + 7 == q * 8 + r && r < 8 && t * 8 >= n
    ensures t >= q && t * 8 >= q * 8
  {}

  function IndexAt(bs: seq<Blk>, a: nat): (i: nat)
    ensures i <= |bs| && (i < |bs| ==> bs[i].addr == a)
    ensures forall j :: 0 <= j < i ==> bs[j].addr != a
  {
    if bs == [] then 0 else if bs[0].addr == a then 0 else
      var i := 1 + IndexAt(bs[1..], a);
      assert forall j :: 0 < j < i ==> bs[j] == bs[1..][j - 1];
      i
  }

  datatype Outcome = Refused | Granted(pool: Pool, index: nat)

  /** `kernel_tlsf_alloc` */
  function Alloc(p: Pool, request: nat): Outcome
    requires |p.lists| == CLASSES
  {
    if request == 0 || request > MAX_REQUEST then Refused else
    var c := FirstFrom(p.lists, SearchClass(Adjusted(request)));
    if c == CLASSES then Refused else
    var i := IndexAt(p.blocks, p.lists[c][0]);
    if i < |p.blocks| then Granted(AllocAt(p, i, Adjusted(request)), i) else Refused
  }

  /** The chosen block is the first of the found class, and it is free. */
  lemma ChosenBlock(p: Pool, lo: nat, hi: nat, c: nat)
    requires Ok(p, lo, hi) && c < CLASSES && p.lists[c] != []
    ensures var i := IndexAt(p.blocks, p.lists[c][0]);
            && i < |p.blocks| && p.blocks[i].free && Sized(p.blocks[i])
            && Class(p.blocks[i].size) == c && p.blocks[i].addr == p.lists[c][0]
  {
    hide Class;
    var a := p.lists[c][0];
    assert a in p.lists[c];
    var b :| b in FreeSet(p.blocks) && b.addr == a && Class(b.size) == c;
    var k :| 0 <= k < |p.blocks| && p.blocks[k] == b;
    var i := IndexAt(p.blocks, a);
    assert i <= k;
    SameAddr(p.blocks, lo, hi, i, k);
  }

  /** What a granted request means. */
  lemma GrantedAlloc(p: Pool, lo: nat, hi: nat, request: nat)
    requires Ok(p, lo, hi) && Alloc(p, request).Granted?
    ensures var Granted(q, i) := Alloc(p, request);
            && i < |p.blocks| && p.blocks[i].free && q == AllocAt(p, i, Adjusted(request))
            && Class(p.blocks[i].size) >= SearchClass(Adjusted(request))
            && (forall d :: SearchClass(Adjusted(request)) <= d < Class(p.blocks[i].size) ==> p.lists[d] == [])
            && p.lists[Class(p.blocks[i].size)] != [] && p.lists[Class(p.blocks[i].size)][0] == p.blocks[i].addr
            && Ok(q, lo, hi)
  {
    var c := FirstFrom(p.lists, SearchClass(Adjusted(request)));
    ChosenBlock(p, lo, hi, c);
    AdjustedRange(request);
    AllocKeeps(p, lo, hi, IndexAt(p.blocks, p.lists[c][0]), Adjusted(request));
  }

  /** Block `i` of `bs` was cut for `n` bytes from block `b`: what is left behind it is a free
      block of its own if it can hold a header of 8 bytes and 16 more, and else stays with it. */
  ghost predicate CutFrom(b: Blk, bs: seq<Blk>, i: nat, n: nat)
  {
    && i < |bs| && !bs[i].free && bs[i].addr == b.addr
    && (b.size >= n + 8 + 16 ==>
          bs[i].size == n && i + 1 < |bs| && bs[i + 1] == Blk(b.addr + 8 + n, b.size - n - 8, true))
    && (b.size < n + 8 + 16 ==> bs[i].size == b.size)
  }

  /** How much of the chosen block a granted request gets. */
  lemma GrantedCut(p: Pool, lo: nat, hi: nat, request: nat)
    requires Ok(p, lo, hi) && Alloc(p, request).Granted?
    ensures var Granted(q, i) := Alloc(p, request);
            var n := Adjusted(request);
            && i < |p.blocks| && CutFrom(p.blocks[i], q.blocks, i, n) && q.blocks[i].size < n + 8 + 16
            && (q.blocks[i].size == n <==> p.blocks[i].size == n || p.blocks[i].size >= n + 8 + 16)
            && (forall j :: 0 <= j < i ==> q.blocks[j] == p.blocks[j])
  {
    hide Class, Ok;
    OkParts(p, lo, hi);
    GrantedAlloc(p, lo, hi, request);
    AdjustedRange(request);
    var Granted(q, i) := Alloc(p, request);
    CarvedAt(p.blocks, i, Adjusted(request));
  }

  lemma CarvedAt(bs: seq<Blk>, i: nat, n: nat)
    requires i < |bs| && bs[i].free
    ensures var q := Splice(bs, i, i + 1, Carve(bs[i], n));
            CutFrom(bs[i], q, i, n) && forall j :: 0 <= j < i ==> q[j] == bs[j]
  {}

  /** The first block of class (15, 3) holds `n` bytes. */
  ghost predicate TopHolds(p: Pool, n: nat)
    requires |p.lists| == CLASSES
  {
    && p.lists[CLASSES - 1] != []
    && exists b :: b in p.blocks && b.addr == p.lists[CLASSES - 1][0] && b.size >= n
  }

  /** The block handed out holds the request, except that above 57344 bytes the first
      block of class (15, 3) is taken unseen: it fits exactly when that block does. */
  lemma AllocFits(p: Pool, lo: nat, hi: nat, request: nat)
    requires Ok(p, lo, hi) && Alloc(p, request).Granted?
    ensures var Granted(q, i) := Alloc(p, request);
            && i < |q.blocks| && i < |p.blocks|
            && (q.blocks[i].size >= request <==>
                  Adjusted(request) <= LARGEST_FIT || TopHolds(p, Adjusted(request)))
            && (Adjusted(request) > LARGEST_FIT ==>
                  p.lists[CLASSES - 1] != [] && p.blocks[i].addr == p.lists[CLASSES - 1][0])
  {
    hide Class;
    GrantedAlloc(p, lo, hi, request);
    AdjustedRange(request);
    var Granted(q, i) := Alloc(p, request);
    var n, b := Adjusted(request), p.blocks[i];
    assert Sized(b) && q.blocks[i] == Carve(b, n)[0];
    if n <= LARGEST_FIT {
      SearchIsSound(n, b.size);
    } else {
      SearchIsClamped(n);
      TopIs(p, lo, hi, i, n);
    }
  }

  lemma TopIs(p: Pool, lo: nat, hi: nat, i: nat, n: nat)
    requires Ok(p, lo, hi) && i < |p.blocks| && p.lists[CLASSES - 1] != []
    requires p.blocks[i].addr == p.lists[CLASSES - 1][0]
    ensures TopHolds(p, n) <==> p.blocks[i].size >= n
  {
    if k :| 0 <= k < |p.blocks| && p.blocks[k].addr == p.lists[CLASSES - 1][0] && p.blocks[k].size >= n {
      SameAddr(p.blocks, lo, hi, i, k);
    }
  }

  lemma FreeIsFiled(p: Pool, lo: nat, hi: nat, b: Blk)
    requires Ok(p, lo, hi) && b in p.blocks && b.free
    ensures p.lists[Class(b.size)] != [] && b.size >= MIN_BLOCK
  {
    assert b in FreeSet(p.blocks);
  }

  /** Search completeness: a request of 1 to 65535 bytes is refused only when no free block is
      filed at or above the searched class; one block of the rounded-up size is enough. */
  lemma RefusedMeansNone(p: Pool, lo: nat, hi: nat, request: nat)
    requires Ok(p, lo, hi)
    ensures request == 0 || request > 65535 ==> Alloc(p, request).Refused?
    ensures 0 < request <= 65535 ==>
              (Alloc(p, request).Refused? <==>
                 forall b :: b in p.blocks && b.free ==> Class(b.size) < SearchClass(Adjusted(request)))
    ensures 0 < request <= 65535 && Alloc(p, request).Refused? ==>
              forall b :: b in p.blocks && b.free ==> b.size < RoundedUp(Adjusted(request))
  {
    assert |p.lists| == CLASSES;
    if request == 0 || request > 65535 { return; }
    hide Ok, Class, SearchClass, RoundedUp, Adjusted, FirstFrom, AllocAt, IndexAt;
    var n := Adjusted(request);
    AdjustedRange(request);
    var c := FirstFrom(p.lists, SearchClass(n));
    if c < CLASSES {
      ChosenBlock(p, lo, hi, c);
      var b := p.blocks[IndexAt(p.blocks, p.lists[c][0])];
      assert b in p.blocks && b.free && Class(b.size) >= SearchClass(n);
    } else {
      forall b | b in p.blocks && b.free ensures Class(b.size) < SearchClass(n) && b.size < RoundedUp(n) {
        FreeIsFiled(p, lo, hi, b);
        if b.size >= RoundedUp(n) { SearchIsComplete(n, b.size); }
      }
    }
  }

  // ------------------------------------------------------------ whole runs

  datatype Op = AllocOp(request: nat) | FreeOp(addr: nat)

  /** One call; a free is a call only on the address of a live block. */
  ghost function Step(p: Pool, op: Op): Pool
    requires |p.lists| == CLASSES
  {
    match op
    case AllocOp(n) => (match Alloc(p, n) case Refused => p case Granted(q, _) => q)
    case FreeOp(a) =>
      var i := IndexAt(p.blocks, a);
      if i < |p.blocks| && !p.blocks[i].free then FreeAt(p, i) else p
  }

  ghost function Run(p: Pool, ops: seq<Op>): Pool
    requires |p.lists| == CLASSES
    decreases ops
  {
    if ops == [] then p else Run(Step(p, ops[0]), ops[1..])
  }

  function NoLists(): seq<seq<nat>> { seq(CLASSES, _ => []) }

  /** The pool right after `kernel_tlsf_initialize`. */
  ghost function Fresh(lo: nat, usable: nat): Pool
  {
    var b := Blk(lo, usable, true);
    Pool([b], File(NoLists(), b))
  }

  lemma FreshIsOk(lo: nat, usable: nat)
    requires usable >= MIN_BLOCK && usable % 8 == 0
    ensures Ok(Fresh(lo, usable), lo, lo + OVERHEAD + usable)
  {
    hide Class;
    var b := Blk(lo, usable, true);
    FileKeeps({}, NoLists(), b);
    assert FreeSet([b]) == {} + {b};
  }

  lemma StepKeeps(p: Pool, lo: nat, hi: nat, op: Op)
    requires Ok(p, lo, hi)
    ensures Ok(Step(p, op), lo, hi)
  {
    match op
    case AllocOp(n) =>
      if Alloc(p, n).Granted? { GrantedAlloc(p, lo, hi, n); }
    case FreeOp(a) =>
      var i := IndexAt(p.blocks, a);
      if i < |p.blocks| && !p.blocks[i].free { FreeKeeps(p, lo, hi, i); }
  }

  lemma {:induction false} RunKeeps(p: Pool, lo: nat, hi: nat, ops: seq<Op>)
    requires Ok(p, lo, hi)
    ensures Ok(Run(p, ops), lo, hi)
    decreases ops
  {
    if ops != [] {
      StepKeeps(p, lo, hi, ops[0]);
      RunKeeps(Step(p, ops[0]), lo, hi, ops[1..]);
    }
  }

  /** One free block determines the lists. */
  lemma SingletonLists(b: Blk, lists: seq<seq<nat>>)
    requires Filed({b}, lists)
    ensures lists == File(NoLists(), b)
  {
    hide Class;
    var l := File(NoLists(), b);
    forall c | 0 <= c < CLASSES ensures lists[c] == l[c] {
      forall x | x in lists[c] ensures x == b.addr && c == Class(b.size) {}
      if c == Class(b.size) {
        OnlyElement(lists[c], b.addr);
      } else {
        var x := if lists[c] == [] then 0 else lists[c][0];
        assert x !in lists[c];
      }
    }
  }

  lemma OnlyElement(s: seq<nat>, x: nat)
    requires Distinct(s) && x in s && forall y :: y in s ==> y == x
    ensures s == [x]
  {
    var second := if |s| > 1 then s[1] else s[0];
    assert second == x == s[0] by { assert s[0] in s; assert second in s; }
  }

  /** Main law of the pool: every sequence of calls keeps every invariant, and once all
      blocks are freed, in whatever order, the pool is back in its first state. */
  lemma EveryRunReturns(lo: nat, usable: nat, ops: seq<Op>)
    requires usable >= MIN_BLOCK && usable % 8 == 0
    ensures Ok(Run(Fresh(lo, usable), ops), lo, lo + OVERHEAD + usable)
    ensures (forall b :: b in Run(Fresh(lo, usable), ops).blocks ==> b.free) ==>
              Run(Fresh(lo, usable), ops) == Fresh(lo, usable)
  {
    hide Run, Tiled, Coalesced, Filed, Class;
    FreshIsOk(lo, usable);
    RunKeeps(Fresh(lo, usable), lo, lo + OVERHEAD + usable, ops);
    var q := Run(Fresh(lo, usable), ops);
    if forall b :: b in q.blocks ==> b.free {
      AllFreeIsWhole(q, lo, lo + OVERHEAD + usable);
      assert FreeSet(q.blocks) == {q.blocks[0]};
      SingletonLists(q.blocks[0], q.lists);
    }
  }

  /** The bound on the fit is tight: every larger request is answered, in some pool, by
      a block that cannot hold it. */
  lemma ClampIsReached(request: nat)
    requires LARGEST_FIT < request <= MAX_REQUEST
    ensures exists p, lo, hi :: Ok(p, lo, hi) && Alloc(p, request).Granted?
              && Alloc(p, request).index < |Alloc(p, request).pool.blocks|
              && Alloc(p, request).pool.blocks[Alloc(p, request).index].size < request
  {
    var usable := LARGEST_FIT;
    var p, hi := Fresh(8, usable), 8 + OVERHEAD + usable;
    FreshIsOk(8, usable);
    TopClass(usable);
    AdjustedRange(request);
    SearchIsClamped(Adjusted(request));
    hide Class, SearchClass, Ok;
    assert p.lists[CLASSES - 1] == [8];
    assert Alloc(p, request).Granted? && Alloc(p, request).index == 0;
    assert !Splits(p.blocks[0], Adjusted(request));
  }
}
