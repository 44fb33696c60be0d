/** The headers, lists and counters of the server heap, kernel/kernel/memory/heap.c, and
    what must hold between them. */
module HeapState {
  import opened Bits
  import opened HeapSpace
  import opened Sequences

  const HEADER: nat := 16     // sizeof(KernelHeapBlock_t)
  const PAGE: nat := 4096
  const MIN_SPLIT: nat := 32
  const MAGIC: nat := 0x4C50
  const FREE: nat := 1
  const BIG: nat := 2
  const SC: nat := 4
  const VMM: nat := 8

  /** `KernelHeapBlock_t`; `owner` is its `reserved` field. */
  datatype Header = Header(size: nat, magic: nat, flags: nat, order: nat, owner: nat, canary: nat, next: nat)

  type Memory = map<nat, Header>

  function ClassSize(c: nat): (n: nat)
    requires c < CLASS_COUNT
    ensures n % 8 == 0 && 8 <= n <= 512
  {
    [8, 16, 32, 64, 128, 256, 512][c]
  }

  function Full(k: nat): (n: nat)
    ensures n % 8 == 0 && HEADER < n <= 528
  {
    ClassSize(k % CLASS_COUNT) + HEADER
  }

  function Canary(size: nat): nat { And(Xor(0xCAFE, size), 0xFFFF) }

  // ------------------------------------------------------------ headers

  /** What the header of a block in a given role carries. */
  ghost predicate Marked(h: Header, b: Blk)
  {
    && h.size == b.size && h.magic == MAGIC
    && match b.role
       case InFree => h.flags == FREE
       case InClass(k) => k < LISTS && h.flags == SC + FREE && b.size == Full(k)
       case Live(Plain) => h.flags == 0 && h.canary == Canary(b.size)
       case Live(OfClass(k)) =>
         k < LISTS && h.flags == SC && h.order == k % CLASS_COUNT && h.owner == k / CLASS_COUNT
         && b.size == Full(k) && h.canary == Canary(b.size)
       case Live(Large(p)) =>
         h.flags == VMM && h.owner == p % 0x1_0000 && b.size == p * PAGE && h.canary == Canary(b.size)
  }

  ghost predicate Shaped(a: nat, b: Blk) { a > 0 && a % 8 == 0 && b.size % 8 == 0 && b.size > HEADER }

  ghost predicate Headers(mem: Memory, m: Space)
  {
    forall a :: a in m ==> a in mem && Shaped(a, m[a]) && Marked(mem[a], m[a])
  }

  // ------------------------------------------------------------ lists

  ghost predicate Linked(mem: Memory, head: nat, s: seq<nat>)
  {
    && head == Nth(s, 0)
    && (forall i :: 0 <= i < |s| ==> s[i] != 0 && s[i] in mem && mem[s[i]].next == Nth(s, i + 1))
  }

  ghost predicate FreeOk(mem: Memory, head: nat, fl: seq<nat>, m: Space)
  {
    Linked(mem, head, fl) && Ascending(fl) && Lists(m, fl, InFree)
  }

  ghost predicate ClassesOk(mem: Memory, heads: seq<nat>, classes: seq<seq<nat>>, m: Space)
  {
    && |heads| == |classes| == LISTS
    && (forall k :: 0 <= k < LISTS ==>
          Linked(mem, heads[k], classes[k]) && Distinct(classes[k]) && Lists(m, classes[k], InClass(k)))
  }

  lemma LinkedFrame(mem: Memory, mem': Memory, head: nat, s: seq<nat>)
    requires Linked(mem, head, s)
    requires forall x :: x in s && x in mem ==> x in mem' && mem'[x].next == mem[x].next
    ensures Linked(mem', head, s)
  {}

  lemma LinkedInsert(mem: Memory, mem': Memory, head: nat, s: seq<nat>, i: nat, a: nat)
    requires Linked(mem, head, s) && Distinct(s) && i <= |s| && a !in s && a != 0
    requires a in mem' && mem'[a].next == Nth(s, i)
    requires forall x :: x in s ==> x in mem' && mem'[x].next == if i > 0 && x == s[i - 1] then a else mem[x].next
    ensures Linked(mem', if i == 0 then a else head, InsertAt(s, i, a))
  {
    var t := InsertAt(s, i, a);
    assert |t| == |s| + 1 && Nth(t, 0) == if i == 0 then a else Nth(s, 0);
    hide InsertAt;
    forall j | 0 <= j < |t| ensures t[j] != 0 && t[j] in mem' && mem'[t[j]].next == Nth(t, j + 1) {
      InsertAtNext(s, i, a, j);
    }
  }

  lemma InsertAtNext(s: seq<nat>, i: nat, a: nat, j: nat)
    requires Distinct(s) && i <= |s| && j <= |s|
    ensures j == i ==> InsertAt(s, i, a)[j] == a && Nth(InsertAt(s, i, a), j + 1) == Nth(s, i)
    ensures j != i ==>
              var g := if j < i then j else j - 1;
              && InsertAt(s, i, a)[j] == s[g] && s[g] in s && (i > 0 && s[g] == s[i - 1] <==> g + 1 == i)
              && Nth(InsertAt(s, i, a), j + 1) == if g + 1 == i then a else Nth(s, g + 1)
  {
    if j != i {
      var g := if j < i then j else j - 1;
      if i > 0 && g + 1 != i { assert s[g] != s[i - 1]; }
    }
  }

  lemma LinkedRemove(mem: Memory, mem': Memory, head: nat, s: seq<nat>, i: nat)
    requires Linked(mem, head, s) && Distinct(s) && i < |s|
    requires forall x :: x in s && x != s[i] ==>
              x in mem' && mem'[x].next == if i > 0 && x == s[i - 1] then Nth(s, i + 1) else mem[x].next
    ensures Linked(mem', if i == 0 then Nth(s, 1) else head, RemoveAt(s, i))
  {
    var t := RemoveAt(s, i);
    assert |t| == |s| - 1;
    RemoveAtNth(s, i, 0);
    hide RemoveAt, Distinct;
    forall j | 0 <= j < |t| ensures t[j] != 0 && t[j] in mem' && mem'[t[j]].next == Nth(t, j + 1) {
      RemoveAtNext(s, i, j);
    }
  }

  lemma AscendingDistinct(s: seq<nat>)
    requires Ascending(s)
    ensures Distinct(s)
  {}

  /** Changing blocks of other roles leaves a list's claim alone. */
  lemma ListsFrame(m: Space, m': Space, s: seq<nat>, r: Role)
    requires Lists(m, s, r)
    requires forall a :: (a in m && m[a].role == r) <==> (a in m' && m'[a].role == r)
    ensures Lists(m', s, r)
  {}

  /** One whole instant of the heap. */
  datatype State = State(mem: Memory, head: nat, heads: seq<nat>, m: Space, fl: seq<nat>, classes: seq<seq<nat>>)

  ghost predicate Sound(s: State)
  {
    && Apart(s.m)
    && Headers(s.mem, s.m)
    && FreeOk(s.mem, s.head, s.fl, s.m)
    && ClassesOk(s.mem, s.heads, s.classes, s.m)
  }

  /** Headers of the other blocks survive a rewrite of links and of one header. */
  lemma HeadersFrame(mem: Memory, mem': Memory, m: Space, m': Space, a: nat)
    requires Headers(mem, m)
    requires forall x :: x in m' && x != a ==>
              x in m && m'[x] == m[x] && x in mem' && mem'[x].(next := 0) == mem[x].(next := 0)
    requires a in m' ==> a in mem' && Shaped(a, m'[a]) && Marked(mem'[a], m'[a])
    ensures Headers(mem', m')
  {
    forall x | x in m' ensures x in mem' && Shaped(x, m'[x]) && Marked(mem'[x], m'[x]) {
      if x != a { assert Marked(mem[x], m[x]); assert mem'[x] == mem[x].(next := mem'[x].next); }
    }
  }

  /** One list, as a whole: threaded, without repetition, exactly the blocks of its role. */
  ghost predicate ListOk(mem: Memory, head: nat, s: seq<nat>, m: Space, r: Role)
  {
    Linked(mem, head, s) && Distinct(s) && Lists(m, s, r)
  }

  lemma ListKept(mem: Memory, mem': Memory, head: nat, s: seq<nat>, m: Space, m': Space, r: Role)
    requires ListOk(mem, head, s, m, r)
    requires forall x :: x in m && m[x].role == r && x in mem ==> x in mem' && mem'[x].next == mem[x].next
    requires forall x :: (x in m' && m'[x].role == r) <==> (x in m && m[x].role == r)
    ensures ListOk(mem', head, s, m', r)
  {
    hide Linked, Distinct;
    LinkedFrame(mem, mem', head, s);
  }

  lemma ClassAt(mem: Memory, heads: seq<nat>, classes: seq<seq<nat>>, m: Space)
    ensures ClassesOk(mem, heads, classes, m) <==>
              && |heads| == |classes| == LISTS
              && forall k :: 0 <= k < LISTS ==> ListOk(mem, heads[k], classes[k], m, InClass(k))
  {
    hide Linked, Distinct, Lists;
  }

  /** The class lists while their members' links and roles stay put. */
  lemma ClassesFrame(mem: Memory, mem': Memory, heads: seq<nat>, classes: seq<seq<nat>>, m: Space, m': Space)
    requires ClassesOk(mem, heads, classes, m)
    requires forall x :: x in m && m[x].role.InClass? && x in mem ==> x in mem' && mem'[x].next == mem[x].next
    requires forall x, k :: (x in m && m[x].role == InClass(k)) <==> (x in m' && m'[x].role == InClass(k))
    ensures ClassesOk(mem', heads, classes, m')
  {
    hide ClassesOk, ListOk;
    ClassAt(mem, heads, classes, m);
    ClassAt(mem', heads, classes, m');
    forall k | 0 <= k < LISTS ensures ListOk(mem', heads[k], classes[k], m', InClass(k)) {
      ListKept(mem, mem', heads[k], classes[k], m, m', InClass(k));
    }
  }

  /** The free list while its members' links and roles stay put. */
  lemma FreeFrame(mem: Memory, mem': Memory, head: nat, fl: seq<nat>, m: Space, m': Space)
    requires FreeOk(mem, head, fl, m)
    requires forall x :: x in m && m[x].role == InFree && x in mem ==> x in mem' && mem'[x].next == mem[x].next
    requires forall x :: (x in m && m[x].role == InFree) <==> (x in m' && m'[x].role == InFree)
    ensures FreeOk(mem', head, fl, m')
  {
    ListsFrame(m, m', fl, InFree);
    LinkedFrame(mem, mem', head, fl);
  }

  lemma FreeMember(mem: Memory, head: nat, fl: seq<nat>, m: Space, i: nat)
    requires FreeOk(mem, head, fl, m) && i < |fl|
    ensures fl[i] in m && m[fl[i]].role == InFree && fl[i] in mem && fl[i] != 0 && mem[fl[i]].next == Nth(fl, i + 1)
    ensures i + 1 < |fl| ==> fl[i] < fl[i + 1]
  {
    assert fl[i] in fl;
  }

  lemma LinkedMembers(mem: Memory, head: nat, s: seq<nat>)
    requires Linked(mem, head, s)
    ensures forall x :: x in s ==> x in mem && x != 0
  {}

  lemma RankFits(fl: seq<nat>, a: nat)
    requires a !in fl
    ensures var i := Rank(fl, a); (i > 0 ==> fl[i - 1] < a) && (i < |fl| ==> a < fl[i])
  {
    var i := Rank(fl, a);
    if i < |fl| { assert fl[i] in fl; }
  }

  lemma FreeInsert(mem: Memory, mem': Memory, head: nat, fl: seq<nat>, m: Space, m': Space, i: nat, a: nat)
    requires FreeOk(mem, head, fl, m) && i == Rank(fl, a) && a > 0 && (a in m ==> m[a].role != InFree)
    requires forall x :: (x in m' && m'[x].role == InFree) <==> (x in m && m[x].role == InFree) || x == a
    requires a in mem' && mem'[a].next == Nth(fl, i)
    requires forall x :: x in m && m[x].role == InFree && x in mem ==>
               x in mem' && mem'[x].next == if i > 0 && x == fl[i - 1] then a else mem[x].next
    ensures FreeOk(mem', if i == 0 then a else head, InsertAt(fl, i, a), m')
  {
    hide Rank, InsertAt, Ascending, Linked, Distinct;
    assert a !in fl;
    RankFits(fl, a);
    InsertAscending(fl, i, a);
    InsertMembers(fl, i, a);
    AscendingDistinct(fl);
    LinkedMembers(mem, head, fl);
    assert forall x :: x in fl ==> x in mem' && mem'[x].next == if i > 0 && x == fl[i - 1] then a else mem[x].next;
    LinkedInsert(mem, mem', head, fl, i, a);
  }

  lemma FreeRemove(mem: Memory, mem': Memory, head: nat, fl: seq<nat>, m: Space, m': Space, i: nat)
    requires FreeOk(mem, head, fl, m) && i < |fl|
    requires forall x :: (x in m' && m'[x].role == InFree) <==> (x in m && m[x].role == InFree && x != fl[i])
    requires forall x :: x in m && m[x].role == InFree && x in mem && x != fl[i] ==>
               x in mem' && mem'[x].next == if i > 0 && x == fl[i - 1] then Nth(fl, i + 1) else mem[x].next
    ensures FreeOk(mem', if i == 0 then Nth(fl, 1) else head, RemoveAt(fl, i), m')
  {
    assert fl[i] in fl;
    hide RemoveAt, Ascending, Linked, Distinct;
    RemoveMembers(fl, i);
    AscendingDistinct(fl);
    LinkedMembers(mem, head, fl);
    LinkedRemove(mem, mem', head, fl, i);
  }

  // ------------------------------------------------------------ transitions

  /** Memory `mem'` differs from `mem` only in the header of `a` and in the link of `p`. */
  ghost predicate Touches(mem: Memory, mem': Memory, a: nat, p: nat)
  {
    && (forall x :: x in mem && x != a && x != p ==> x in mem' && mem'[x] == mem[x])
    && (p in mem && p != a ==> p in mem' && mem'[p] == mem[p].(next := mem'[p].next))
  }

  /** Headers of all blocks but `a` survive. */
  lemma HeadersTouched(mem: Memory, mem': Memory, m: Space, m': Space, a: nat, p: nat)
    requires Headers(mem, m) && Touches(mem, mem', a, p)
    requires forall x :: x in m' && x != a ==> x in m && m'[x] == m[x]
    requires a in m' ==> a in mem' && Shaped(a, m'[a]) && Marked(mem'[a], m'[a])
    ensures Headers(mem', m')
  {
    forall x | x in m' && x != a ensures x in mem' && mem'[x].(next := 0) == mem[x].(next := 0) {
      assert x in mem;
    }
    HeadersFrame(mem, mem', m, m', a);
  }

  /** `kernel_heap_add_free_block`: `a` joins the free list in address order. */
  lemma AddFreeSound(s: State, t: State, a: nat, b: Blk, i: nat)
    requires Sound(s) && i == Rank(s.fl, a) && b.role == InFree && Shaped(a, b)
    requires a in s.m ==> s.m[a].role.Live?
    requires t.m == s.m[a := b] && Apart(t.m) && t.fl == InsertAt(s.fl, i, a)
    requires t.heads == s.heads && t.classes == s.classes && t.head == if i == 0 then a else s.head
    requires Touches(s.mem, t.mem, a, if i > 0 then s.fl[i - 1] else a)
    requires a in t.mem && Marked(t.mem[a], b) && t.mem[a].next == Nth(s.fl, i)
    requires i > 0 ==> s.fl[i - 1] in t.mem && t.mem[s.fl[i - 1]].next == a
    ensures Sound(t)
  {
    hide Headers, FreeOk, ClassesOk, Apart, Marked, Rank, InsertAt;
    assert Shaped(a, b);
    if i > 0 { FreeMember(s.mem, s.head, s.fl, s.m, i - 1); }
    HeadersTouched(s.mem, t.mem, s.m, t.m, a, if i > 0 then s.fl[i - 1] else a);
    FreeInsert(s.mem, t.mem, s.head, s.fl, s.m, t.m, i, a);
    ClassesFrame(s.mem, t.mem, s.heads, s.classes, s.m, t.m);
  }

  /** Unlinking the free block at position `i`; its bytes become a gap. */
  lemma TakeFreeSound(s: State, t: State, i: nat)
    requires Sound(s) && i < |s.fl|
    requires t.m == s.m - {s.fl[i]} && t.fl == RemoveAt(s.fl, i) && t.heads == s.heads && t.classes == s.classes
    requires t.head == if i == 0 then Nth(s.fl, 1) else s.head
    requires Touches(s.mem, t.mem, s.fl[i], if i > 0 then s.fl[i - 1] else s.fl[i])
    requires i > 0 ==> s.fl[i - 1] in t.mem && t.mem[s.fl[i - 1]].next == Nth(s.fl, i + 1)
    ensures Sound(t) && s.fl[i] in s.m && Gap(t.m, s.fl[i], s.fl[i] + s.m[s.fl[i]].size)
  {
    hide Headers, FreeOk, ClassesOk, Apart, RemoveAt, Gap;
    FreeMember(s.mem, s.head, s.fl, s.m, i);
    if i > 0 { FreeMember(s.mem, s.head, s.fl, s.m, i - 1); }
    RemoveLeavesGap(s.m, s.fl[i]);
    HeadersTouched(s.mem, t.mem, s.m, t.m, s.fl[i], if i > 0 then s.fl[i - 1] else s.fl[i]);
    FreeRemove(s.mem, t.mem, s.head, s.fl, s.m, t.m, i);
    ClassesFrame(s.mem, t.mem, s.heads, s.classes, s.m, t.m);
  }

  /** `kernel_heap_merge_adjacent_blocks` at position `i`. */
  lemma MergeSound(s: State, t: State, i: nat)
    requires Sound(s) && i + 1 < |s.fl| && s.fl[i] in s.m && s.fl[i + 1] in s.m
    requires s.fl[i] + s.m[s.fl[i]].size == s.fl[i + 1]
    requires t.m == (s.m - {s.fl[i + 1]})[s.fl[i] := Blk(s.m[s.fl[i]].size + s.m[s.fl[i + 1]].size, InFree)]
    requires t.fl == RemoveAt(s.fl, i + 1) && t.heads == s.heads && t.classes == s.classes && t.head == s.head
    requires Touches(s.mem, t.mem, s.fl[i], s.fl[i])
    requires s.fl[i] in s.mem && s.fl[i] in t.mem
    requires t.mem[s.fl[i]] ==
              s.mem[s.fl[i]].(size := s.m[s.fl[i]].size + s.m[s.fl[i + 1]].size, next := Nth(s.fl, i + 2))
    ensures Sound(t)
  {
    hide Headers, FreeOk, ClassesOk, Apart, RemoveAt, Marked, Shaped;
    var a, b := s.fl[i], s.fl[i + 1];
    FreeMember(s.mem, s.head, s.fl, s.m, i);
    FreeMember(s.mem, s.head, s.fl, s.m, i + 1);
    MergeApart(s.m, a, b);
    TrackedHeader(s.mem, s.m, a);
    TrackedHeader(s.mem, s.m, b);
    MergedHeader(s.mem[a], s.m[a], s.m[b], a, b, t.mem[a].next);
    HeadersTouched(s.mem, t.mem, s.m, t.m, a, a);
    FreeRemove(s.mem, t.mem, s.head, s.fl, s.m, t.m, i + 1);
    ClassesFrame(s.mem, t.mem, s.heads, s.classes, s.m, t.m);
  }

  lemma TrackedHeader(mem: Memory, m: Space, a: nat)
    requires Headers(mem, m) && a in m
    ensures a in mem && Marked(mem[a], m[a]) && Shaped(a, m[a])
  {}

  lemma MergedHeader(h: Header, x: Blk, y: Blk, a: nat, b: nat, next: nat)
    requires Marked(h, x) && x.role == InFree && Shaped(a, x) && Shaped(b, y)
    ensures Marked(h.(size := x.size + y.size, next := next), Blk(x.size + y.size, InFree))
    ensures Shaped(a, Blk(x.size + y.size, InFree))
  {}

  lemma MergeApart(m: Space, a: nat, b: nat)
    requires Apart(m) && a in m && b in m && a + m[a].size == b
    ensures Apart((m - {b})[a := Blk(m[a].size + m[b].size, InFree)])
  {}

  lemma ClassMember(mem: Memory, heads: seq<nat>, classes: seq<seq<nat>>, m: Space, k: nat)
    requires ClassesOk(mem, heads, classes, m) && k < LISTS
    ensures heads[k] == Nth(classes[k], 0) && (heads[k] == 0 <==> classes[k] == [])
    ensures classes[k] != [] ==> var a := classes[k][0];
              a in m && m[a].role == InClass(k) && a in mem && a != 0 && mem[a].next == Nth(classes[k], 1)
  {
    assert Linked(mem, heads[k], classes[k]) && Lists(m, classes[k], InClass(k));
    if classes[k] != [] { assert classes[k][0] in classes[k]; }
  }

  lemma TailMembers(s: seq<nat>)
    requires s != [] && Distinct(s)
    ensures s[1..] == RemoveAt(s, 0) && Distinct(s[1..])
    ensures forall x :: x in s[1..] <==> x in s && x != s[0]
  {
    assert s == [s[0]] + s[1..];
    assert s[0] !in s[1..];
  }

  lemma ClassPop(mem: Memory, mem': Memory, heads: seq<nat>, classes: seq<seq<nat>>, m: Space, m': Space, k: nat)
    requires ClassesOk(mem, heads, classes, m) && k < LISTS && classes[k] != []
    requires forall x :: x in m && m[x].role.InClass? && x in mem && x != classes[k][0] ==>
              x in mem' && mem'[x].next == mem[x].next
    requires forall x, j :: (x in m' && m'[x].role == InClass(j)) <==>
              (x in m && m[x].role == InClass(j) && x != classes[k][0])
    ensures ClassesOk(mem', heads[k := Nth(classes[k], 1)], classes[k := classes[k][1..]], m')
  {
    hide ClassesOk, ListOk;
    ClassAt(mem, heads, classes, m);
    var h', c' := heads[k := Nth(classes[k], 1)], classes[k := classes[k][1..]];
    forall j | 0 <= j < LISTS ensures ListOk(mem', h'[j], c'[j], m', InClass(j)) {
      if j == k {
        ListPop(mem, mem', heads[k], classes[k], m, m', InClass(k));
      } else {
        HeadRole(mem, heads[k], classes[k], m, InClass(k));
        ListKept(mem, mem', heads[j], classes[j], m, m', InClass(j));
      }
    }
    ClassAt(mem', h', c', m');
  }

  /** The head of a list has the list's role. */
  lemma HeadRole(mem: Memory, head: nat, s: seq<nat>, m: Space, r: Role)
    requires ListOk(mem, head, s, m, r) && s != []
    ensures s[0] in m && m[s[0]].role == r
  {
    assert s[0] in s;
  }

  lemma ListPop(mem: Memory, mem': Memory, head: nat, s: seq<nat>, m: Space, m': Space, r: Role)
    requires ListOk(mem, head, s, m, r) && s != []
    requires forall x :: x in m && m[x].role == r && x in mem && x != s[0] ==> x in mem' && mem'[x].next == mem[x].next
    requires forall x :: (x in m' && m'[x].role == r) <==> (x in m && m[x].role == r && x != s[0])
    ensures ListOk(mem', Nth(s, 1), s[1..], m', r)
  {
    TailMembers(s);
    LinkedMembers(mem, head, s);
    hide Linked, Distinct, RemoveAt;
    LinkedRemove(mem, mem', head, s, 0);
  }

  lemma ConsMembers(s: seq<nat>, a: nat)
    requires Distinct(s) && a !in s
    ensures [a] + s == InsertAt(s, 0, a) && Distinct([a] + s)
  {}

  lemma ListPush(mem: Memory, mem': Memory, head: nat, s: seq<nat>, m: Space, m': Space, r: Role, a: nat)
    requires ListOk(mem, head, s, m, r) && a != 0 && (a in m ==> m[a].role != r)
    requires forall x :: x in m && m[x].role == r && x in mem ==> x in mem' && mem'[x].next == mem[x].next
    requires a in mem' && mem'[a].next == head
    requires forall x :: (x in m' && m'[x].role == r) <==> (x in m && m[x].role == r) || x == a
    ensures ListOk(mem', a, [a] + s, m', r)
  {
    assert head == Nth(s, 0);
    hide Linked, Distinct;
    LinkedMembers(mem, head, s);
    ConsMembers(s, a);
    LinkedInsert(mem, mem', head, s, 0, a);
  }

  lemma ClassPush(mem: Memory, mem': Memory, heads: seq<nat>, classes: seq<seq<nat>>, m: Space, m': Space, k: nat,
                  a: nat)
    requires ClassesOk(mem, heads, classes, m) && k < LISTS && a != 0 && (a in m ==> !m[a].role.InClass?)
    requires forall x :: x in m && m[x].role.InClass? && x in mem ==> x in mem' && mem'[x].next == mem[x].next
    requires a in mem' && mem'[a].next == heads[k]
    requires forall x, j :: (x in m' && m'[x].role == InClass(j)) <==>
              (x in m && m[x].role == InClass(j)) || (x == a && j == k)
    ensures ClassesOk(mem', heads[k := a], classes[k := [a] + classes[k]], m')
  {
    hide Linked, Distinct, Lists;
    var c' := classes[k := [a] + classes[k]];
    forall j | 0 <= j < LISTS ensures ListOk(mem', heads[k := a][j], c'[j], m', InClass(j)) {
      assert ListOk(mem, heads[j], classes[j], m, InClass(j));
      if j == k {
        ListPush(mem, mem', heads[k], classes[k], m, m', InClass(k), a);
      } else {
        ListKept(mem, mem', heads[j], classes[j], m, m', InClass(j));
      }
    }
  }

  /** Popping the head of size-class list `k` and handing the block out. */
  lemma PopClassSound(s: State, t: State, k: nat)
    requires Sound(s) && k < LISTS && s.classes[k] != []
    requires var a := s.classes[k][0];
             && t.m == s.m[a := Blk(Full(k), Live(OfClass(k)))] && t.fl == s.fl && t.head == s.head
             && t.heads == s.heads[k := Nth(s.classes[k], 1)] && t.classes == s.classes[k := s.classes[k][1..]]
             && Touches(s.mem, t.mem, a, a) && a in t.mem && Marked(t.mem[a], Blk(Full(k), Live(OfClass(k))))
    ensures Sound(t)
  {
    var a, b := s.classes[k][0], Blk(Full(k), Live(OfClass(k)));
    ClassMember(s.mem, s.heads, s.classes, s.m, k);
    assert Marked(s.mem[a], s.m[a]) && Shaped(a, s.m[a]);
    assert s.m[a].size == Full(k) && Shaped(a, b);
    hide Headers, FreeOk, ClassesOk, Apart, Marked, Shaped, Full;
    Recast(s.m, a, b);
    HeadersTouched(s.mem, t.mem, s.m, t.m, a, a);
    FreeFrame(s.mem, t.mem, s.head, s.fl, s.m, t.m);
    ClassPop(s.mem, t.mem, s.heads, s.classes, s.m, t.m, k);
  }

  /** Pushing a block that is no longer, or not yet, anything else on size-class list `k`. */
  lemma PushClassSound(s: State, t: State, k: nat, a: nat)
    requires Sound(s) && k < LISTS && (a in s.m ==> s.m[a].role.Live?)
    requires var b := Blk(Full(k), InClass(k));
             && Shaped(a, b) && t.m == s.m[a := b] && Apart(t.m) && t.fl == s.fl && t.head == s.head
             && t.heads == s.heads[k := a] && t.classes == s.classes[k := [a] + s.classes[k]]
             && Touches(s.mem, t.mem, a, a) && a in t.mem && Marked(t.mem[a], b) && t.mem[a].next == s.heads[k]
    ensures Sound(t)
  {
    hide Headers, FreeOk, ClassesOk, Apart, Marked, Full;
    assert Shaped(a, Blk(Full(k), InClass(k)));
    HeadersTouched(s.mem, t.mem, s.m, t.m, a, a);
    FreeFrame(s.mem, t.mem, s.head, s.fl, s.m, t.m);
    ClassPush(s.mem, t.mem, s.heads, s.classes, s.m, t.m, k, a);
  }

  /** A block in a gap becomes live. */
  lemma HandOutSound(s: State, t: State, a: nat, b: Blk)
    requires Sound(s) && b.role.Live? && Shaped(a, b) && Gap(s.m, a, a + b.size)
    requires t == s.(mem := t.mem, m := s.m[a := b])
    requires Touches(s.mem, t.mem, a, a) && a in t.mem && Marked(t.mem[a], b)
    ensures Sound(t) && a !in s.m
  {
    hide Headers, FreeOk, ClassesOk, Apart, Gap, Marked;
    assert b.size > 0;
    AddInGap(s.m, a, b, a, a + b.size);
    HeadersTouched(s.mem, t.mem, s.m, t.m, a, a);
    FreeFrame(s.mem, t.mem, s.head, s.fl, s.m, t.m);
    ClassesFrame(s.mem, t.mem, s.heads, s.classes, s.m, t.m);
  }

  /** A live block stops being one; its bytes become a gap. */
  lemma ForgetLiveSound(s: State, a: nat)
    requires Sound(s) && a in s.m && s.m[a].role.Live?
    ensures Sound(s.(m := s.m - {a})) && Gap(s.m - {a}, a, a + s.m[a].size)
  {
    hide FreeOk, ClassesOk, Apart, Gap, Marked, Shaped;
    var m' := s.m - {a};
    RemoveLeavesGap(s.m, a);
    FreeFrame(s.mem, s.mem, s.head, s.fl, s.m, m');
    ClassesFrame(s.mem, s.mem, s.heads, s.classes, s.m, m');
  }

  /** Writing a header where no block is. */
  lemma UntrackedWriteSound(s: State, a: nat, h: Header)
    requires Sound(s) && a !in s.m
    ensures Sound(s.(mem := s.mem[a := h]))
  {
    hide FreeOk, ClassesOk, Apart, Marked, Shaped;
    var mem' := s.mem[a := h];
    HeadersFrame(s.mem, mem', s.m, s.m, a);
    FreeFrame(s.mem, mem', s.head, s.fl, s.m, s.m);
    ClassesFrame(s.mem, mem', s.heads, s.classes, s.m, s.m);
  }

  // ------------------------------------------------------------ flags and sizes

  predicate HasFlag(h: Header, f: nat) { And(h.flags, f) != 0 }

  /** The flags tell the roles apart. */
  lemma FlagsTell(h: Header, b: Blk)
    requires Marked(h, b)
    ensures HasFlag(h, FREE) <==> !b.role.Live?
    ensures b.role.Live? ==> (HasFlag(h, VMM) <==> b.role.kind.Large?) && (HasFlag(h, SC) <==> b.role.kind.OfClass?)
    ensures b.role.Live? ==> !HasFlag(h, BIG)
  {
    assert And(1, 1) == 1 && And(5, 1) == 1 && And(0, 1) == 0 && And(4, 1) == 0 && And(8, 1) == 0;
    assert And(0, 8) == 0 && And(4, 8) == 0 && And(8, 8) == 8;
    assert And(0, 4) == 0 && And(4, 4) == 4 && And(8, 4) == 0;
    assert And(0, 2) == 0 && And(4, 2) == 0 && And(8, 2) == 0;
  }
}
