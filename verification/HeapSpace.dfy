/** Address-space bookkeeping for the server heap of kernel/kernel/memory/heap.c: which
    byte ranges are blocks, what role each plays, and when ranges stay apart. */
module HeapSpace {
  import opened Sequences

  const CLASS_COUNT: nat := 7
  const DOMAINS: nat := 2
  const LISTS: nat := 14

  /** What a live block was handed out as. */
  datatype Kind = Plain | OfClass(k: nat) | Large(pages: nat)

  /** `k` numbers the size-class list of a domain: 7 * domain + class. */
  datatype Role = InFree | InClass(k: nat) | Live(kind: Kind)

  datatype Blk = Blk(size: nat, role: Role)

  type Space = map<nat, Blk>

  /** Blocks are non-empty and no two overlap. */
  ghost predicate Apart(m: Space)
  {
    && (forall a :: a in m ==> m[a].size > 0)
    && (forall a, b {:trigger m[a], m[b]} :: a in m && b in m && a < b ==> a + m[a].size <= b)
  }

  /** No block meets the bytes [lo, hi). */
  ghost predicate Gap(m: Space, lo: nat, hi: nat)
  {
    forall a :: a in m ==> a + m[a].size <= lo || hi <= a
  }

  lemma RemoveLeavesGap(m: Space, a: nat)
    requires Apart(m) && a in m
    ensures Apart(m - {a}) && Gap(m - {a}, a, a + m[a].size)
  {}

  lemma AddInGap(m: Space, a: nat, b: Blk, lo: nat, hi: nat)
    requires Apart(m) && Gap(m, lo, hi) && lo <= a && a + b.size <= hi && b.size > 0
    ensures a !in m && Apart(m[a := b]) && Gap(m[a := b], a + b.size, hi) && Gap(m[a := b], lo, a)
  {}

  lemma GapKeptByAdd(m: Space, a: nat, b: Blk, lo: nat, hi: nat)
    requires Gap(m, lo, hi) && (a + b.size <= lo || hi <= a)
    ensures Gap(m[a := b], lo, hi)
  {}

  lemma GapNarrow(m: Space, lo: nat, hi: nat, lo': nat, hi': nat)
    requires Gap(m, lo, hi) && lo <= lo' && hi' <= hi && lo' <= hi'
    ensures Gap(m, lo', hi')
  {}

  /** Same range, other role. */
  lemma Recast(m: Space, a: nat, b: Blk)
    requires Apart(m) && a in m && 0 < b.size <= m[a].size
    ensures Apart(m[a := b]) && Gap(m[a := b], a + b.size, a + m[a].size)
    ensures forall lo, hi :: Gap(m, lo, hi) ==> Gap(m[a := b], lo, hi)
  {}

  // ------------------------------------------------------------ the address-ordered free list

  ghost predicate Ascending(s: seq<nat>)
  {
    forall i, j :: 0 <= i < j < |s| ==> s[i] < s[j]
  }

  /** `s` lists exactly the blocks with role `r`. */
  ghost predicate Lists(m: Space, s: seq<nat>, r: Role)
  {
    forall a :: a in s <==> a in m && m[a].role == r
  }

  /** Total size of the listed blocks. */
  function Bytes(m: Space, s: seq<nat>): nat
  {
    if s == [] then 0 else (if s[0] in m then m[s[0]].size else 0) + Bytes(m, s[1..])
  }

  lemma {:induction false} BytesConcat(m: Space, s: seq<nat>, t: seq<nat>)
    ensures Bytes(m, s + t) == Bytes(m, s) + Bytes(m, t)
  {
    if s == [] {
      assert s + t == t;
    } else {
      assert (s + t)[1..] == s[1..] + t;
      BytesConcat(m, s[1..], t);
    }
  }

  lemma {:induction false} BytesFrame(m: Space, m': Space, s: seq<nat>)
    requires forall a :: a in s ==> (a in m <==> a in m') && (a in m ==> m[a].size == m'[a].size)
    ensures Bytes(m, s) == Bytes(m', s)
  {
    if s != [] {
      assert s[0] in s;
      BytesFrame(m, m', s[1..]);
    }
  }

  /** Where `kernel_heap_add_free_block` puts a block: before the first higher address. */
  function Rank(s: seq<nat>, a: nat): (r: nat)
    ensures r <= |s|
    ensures forall i :: 0 <= i < r ==> s[i] < a
    ensures r < |s| ==> s[r] >= a
  {
    if s == [] || s[0] >= a then 0 else
      var r := 1 + Rank(s[1..], a);
      assert forall i :: 0 < i < r ==> s[i] == s[1..][i - 1];
      r
  }

  function InsertAt(s: seq<nat>, i: nat, a: nat): seq<nat>
    requires i <= |s|
  {
    s[..i] + [a] + s[i..]
  }

  lemma InsertMembers(s: seq<nat>, i: nat, a: nat)
    requires i <= |s|
    ensures forall x :: x in InsertAt(s, i, a) <==> x in s || x == a
  {
    assert s == s[..i] + s[i..];
  }

  lemma InsertAscending(s: seq<nat>, i: nat, a: nat)
    requires Ascending(s) && i <= |s| && (i > 0 ==> s[i - 1] < a) && (i < |s| ==> a < s[i])
    ensures Ascending(InsertAt(s, i, a)) && a !in s
  {
    var t := InsertAt(s, i, a);
    forall k | 0 <= k < |s| ensures (k < i ==> s[k] < a) && (k >= i ==> a < s[k]) {}
    forall j, k | 0 <= j < k < |t| ensures t[j] < t[k] {
      assert t[j] == if j < i then s[j] else if j == i then a else s[j - 1];
      assert t[k] == if k < i then s[k] else if k == i then a else s[k - 1];
    }
  }

  lemma RemoveMembers(s: seq<nat>, i: nat)
    requires Ascending(s) && i < |s|
    ensures Ascending(RemoveAt(s, i))
    ensures forall x :: x in RemoveAt(s, i) <==> x in s && x != s[i]
  {
    assert s == s[..i] + [s[i]] + s[i + 1..];
    assert s[i] !in s[..i] && s[i] !in s[i + 1..];
  }

  lemma InsertBytes(m: Space, s: seq<nat>, i: nat, a: nat)
    requires i <= |s| && a in m
    ensures Bytes(m, InsertAt(s, i, a)) == Bytes(m, s) + m[a].size
  {
    BytesConcat(m, s[..i] + [a], s[i..]);
    BytesConcat(m, s[..i], [a]);
    assert s == s[..i] + s[i..];
    BytesConcat(m, s[..i], s[i..]);
  }

  lemma RemoveBytes(m: Space, s: seq<nat>, i: nat)
    requires i < |s| && s[i] in m
    ensures Bytes(m, s) == Bytes(m, RemoveAt(s, i)) + m[s[i]].size
  {
    assert s == InsertAt(RemoveAt(s, i), i, s[i]);
    InsertBytes(m, RemoveAt(s, i), i, s[i]);
  }

  /** The set of bytes the listed blocks cover. */
  ghost predicate Covered(m: Space, s: seq<nat>, x: nat)
  {
    exists a :: a in s && a in m && a <= x < a + m[a].size
  }
}
