/** The books of the server heap, kernel/kernel/memory/heap.c: how many blocks each size
    class ever cut, how many large blocks are out, how many bytes are accounted for, and
    which pages the page allocator still holds. */
module HeapLedger {
  import opened HeapSpace
  import opened HeapState

  // ------------------------------------------------------------ pages still to come

  /** The bytes [lo, hi) meet none of the pages. */
  ghost predicate Clear(pages: set<nat>, lo: nat, hi: nat)
  {
    forall p :: p in pages ==> hi <= p || p + PAGE <= lo
  }

  /** Pages not yet given to the heap lie apart from every block and from each other. */
  ghost predicate PagesOk(pages: set<nat>, m: Space)
  {
    && (forall p :: p in pages ==> p > 0 && p % 8 == 0)
    && (forall p, q :: p in pages && q in pages && p < q ==> p + PAGE <= q)
    && (forall a :: a in m ==> Clear(pages, a, a + m[a].size))
  }

  lemma PagesAdd(pages: set<nat>, m: Space, a: nat, b: Blk)
    requires PagesOk(pages, m) && Clear(pages, a, a + b.size)
    ensures PagesOk(pages, m[a := b])
  {
    hide Clear;
  }

  lemma PagesDrop(pages: set<nat>, m: Space, a: nat)
    requires PagesOk(pages, m)
    ensures PagesOk(pages, m - {a}) && (a in m ==> Clear(pages, a, a + m[a].size))
  {
    hide Clear;
  }

  lemma ClearPart(pages: set<nat>, lo: nat, hi: nat, lo': nat, hi': nat)
    requires Clear(pages, lo, hi) && lo <= lo' <= hi' <= hi
    ensures Clear(pages, lo', hi')
  {}

  /** Handing page `p` to the heap. */
  lemma PagesTake(pages: set<nat>, m: Space, p: nat)
    requires PagesOk(pages, m) && p in pages
    ensures PagesOk(pages - {p}, m) && Clear(pages - {p}, p, p + PAGE) && Gap(m, p, p + PAGE)
  {
    forall a | a in m ensures a + m[a].size <= p || p + PAGE <= a { assert Clear(pages, a, a + m[a].size); }
    forall a | a in m ensures Clear(pages - {p}, a, a + m[a].size) { assert Clear(pages, a, a + m[a].size); }
  }

  // ------------------------------------------------------------ tallies

  /** A block of size-class list `k`, whether it waits there or is out. */
  ghost predicate Piece(b: Blk, k: nat) { b.role == InClass(k) || b.role == Live(OfClass(k)) }

  ghost function Pieces(m: Space, k: nat): set<nat> { set a | a in m && Piece(m[a], k) }

  ghost predicate IsLarge(b: Blk) { b.role.Live? && b.role.kind.Large? }

  ghost function Larges(m: Space): set<nat> { set a | a in m && IsLarge(m[a]) }

  /** Bytes the heap took from the page allocator; large blocks come from elsewhere. */
  ghost function Weight(b: Blk): nat { if IsLarge(b) then 0 else b.size }

  ghost function Mass(m: Space): nat
    decreases |m.Keys|
  {
    if m.Keys == {} then 0 else
      var a :| a in m.Keys;
      assert |(m - {a}).Keys| < |m.Keys| by { assert (m - {a}).Keys == m.Keys - {a}; }
      Weight(m[a]) + Mass(m - {a})
  }

  lemma {:induction false} MassDrop(m: Space, a: nat)
    requires a in m
    ensures Mass(m) == Weight(m[a]) + Mass(m - {a})
    decreases |m.Keys|
  {
    var c :| c in m.Keys && Mass(m) == Weight(m[c]) + Mass(m - {c});
    if c != a {
      assert (m - {a}).Keys == m.Keys - {a} && (m - {c}).Keys == m.Keys - {c};
      MassDrop(m - {c}, a);
      MassDrop(m - {a}, c);
      assert m - {c} - {a} == m - {a} - {c};
    }
  }

  lemma PieceAdd(m: Space, a: nat, b: Blk, k: nat)
    requires a !in m
    ensures |Pieces(m[a := b], k)| == |Pieces(m, k)| + if Piece(b, k) then 1 else 0
  {
    assert Pieces(m[a := b], k) == Pieces(m, k) + if Piece(b, k) then {a} else {};
  }

  lemma LargeAdd(m: Space, a: nat, b: Blk)
    requires a !in m
    ensures |Larges(m[a := b])| == |Larges(m)| + if IsLarge(b) then 1 else 0
  {
    assert Larges(m[a := b]) == Larges(m) + if IsLarge(b) then {a} else {};
  }

  /** The books: blocks cut per size-class list, large blocks out, bytes accounted for. */
  ghost predicate Books(m: Space, cut: seq<nat>, large: nat, bytes: nat)
  {
    && |cut| == LISTS && (forall k :: 0 <= k < LISTS ==> |Pieces(m, k)| == cut[k])
    && |Larges(m)| == large && Mass(m) == bytes
  }

  /** What a block in role `r` adds to the cut counts. */
  ghost function CutBy(cut: seq<nat>, b: Blk): seq<nat>
  {
    match b.role
    case InClass(k) => if k < |cut| then cut[k := cut[k] + 1] else cut
    case Live(OfClass(k)) => if k < |cut| then cut[k := cut[k] + 1] else cut
    case _ => cut
  }

  lemma BooksAdd(m: Space, cut: seq<nat>, large: nat, bytes: nat, a: nat, b: Blk)
    requires Books(m, cut, large, bytes) && a !in m
    ensures Books(m[a := b], CutBy(cut, b), large + (if IsLarge(b) then 1 else 0), bytes + Weight(b))
  {
    hide Pieces, Larges, Mass;
    var m', c' := m[a := b], CutBy(cut, b);
    forall k | 0 <= k < LISTS ensures |Pieces(m', k)| == c'[k] { PieceAdd(m, a, b, k); }
    LargeAdd(m, a, b);
    MassDrop(m', a);
    assert m' - {a} == m;
  }

  lemma BooksAddFree(m: Space, cut: seq<nat>, large: nat, bytes: nat, a: nat, size: nat)
    requires Books(m, cut, large, bytes) && a !in m
    ensures Books(m[a := Blk(size, InFree)], cut, large, bytes + size)
  {
    BooksAdd(m, cut, large, bytes, a, Blk(size, InFree));
    hide Books;
  }

  lemma BooksAddPiece(m: Space, cut: seq<nat>, large: nat, bytes: nat, a: nat, k: nat, size: nat)
    requires Books(m, cut, large, bytes) && a !in m && k < |cut|
    ensures Books(m[a := Blk(size, Live(OfClass(k)))], cut[k := cut[k] + 1], large, bytes + size)
  {
    BooksAdd(m, cut, large, bytes, a, Blk(size, Live(OfClass(k))));
    hide Books;
  }

  /** A block that is no piece leaves. */
  lemma BooksDrop(m: Space, cut: seq<nat>, large: nat, bytes: nat, a: nat)
    requires Books(m, cut, large, bytes) && a in m && (forall k :: !Piece(m[a], k))
    ensures bytes >= Weight(m[a]) && large >= if IsLarge(m[a]) then 1 else 0
    ensures Books(m - {a}, cut, large - (if IsLarge(m[a]) then 1 else 0), bytes - Weight(m[a]))
  {
    hide Pieces, Larges;
    var r := m - {a};
    assert r[a := m[a]] == m;
    forall k | 0 <= k < LISTS ensures |Pieces(r, k)| == cut[k] { PieceAdd(r, a, m[a], k); }
    LargeAdd(r, a, m[a]);
    MassDrop(m, a);
  }

  /** A block changes role without changing what it counts as. */
  lemma BooksRecast(m: Space, cut: seq<nat>, large: nat, bytes: nat, a: nat, b: Blk)
    requires Books(m, cut, large, bytes) && a in m && Weight(b) == Weight(m[a]) && IsLarge(b) == IsLarge(m[a])
    requires forall k :: Piece(b, k) <==> Piece(m[a], k)
    ensures Books(m[a := b], cut, large, bytes)
  {
    hide Pieces, Larges, Mass, Piece;
    forall k | 0 <= k < LISTS ensures Pieces(m[a := b], k) == Pieces(m, k) { PiecesRecast(m, a, b, k); }
    LargesRecast(m, a, b);
    MassDrop(m, a);
    MassDrop(m[a := b], a);
    assert m[a := b] - {a} == m - {a};
  }

  lemma PiecesRecast(m: Space, a: nat, b: Blk, k: nat)
    requires a in m && (Piece(b, k) <==> Piece(m[a], k))
    ensures Pieces(m[a := b], k) == Pieces(m, k)
  {}

  lemma LargesRecast(m: Space, a: nat, b: Blk)
    requires a in m && IsLarge(b) == IsLarge(m[a])
    ensures Larges(m[a := b]) == Larges(m)
  {}

  /** Two blocks become one, nothing else moves. */
  lemma BooksFuse(m: Space, cut: seq<nat>, large: nat, bytes: nat, a: nat, b: nat)
    requires Books(m, cut, large, bytes) && a in m && b in m && a != b && m[a].role == InFree && m[b].role == InFree
    ensures Books((m - {b})[a := Blk(m[a].size + m[b].size, InFree)], cut, large, bytes)
  {
    var c := Blk(m[a].size + m[b].size, InFree);
    BooksDrop(m, cut, large, bytes, b);
    BooksDrop(m - {b}, cut, large, bytes - m[b].size, a);
    BooksAdd(m - {b} - {a}, cut, large, bytes - m[b].size - m[a].size, a, c);
    assert (m - {b})[a := c] == (m - {b} - {a})[a := c];
  }

  // ------------------------------------------------------------ what is handed out

  ghost function Lives(m: Space): Space { map a | a in m && m[a].role.Live? :: m[a] }

  lemma LivesAdd(m: Space, a: nat, b: Blk)
    requires b.role.Live? && (a in m ==> !m[a].role.Live?)
    ensures a !in Lives(m) && Lives(m[a := b]) == Lives(m)[a := b]
  {}

  lemma LivesOther(m: Space, a: nat, b: Blk)
    requires !b.role.Live? && (a in m ==> !m[a].role.Live?)
    ensures a !in Lives(m) && Lives(m[a := b]) == Lives(m)
  {}

  lemma LivesDrop(m: Space, a: nat)
    ensures Lives(m - {a}) == Lives(m) - {a}
    ensures a in m && !m[a].role.Live? ==> Lives(m - {a}) == Lives(m)
  {}

  lemma LivesReturn(m: Space, a: nat, b: Blk)
    requires !b.role.Live?
    ensures Lives(m[a := b]) == Lives(m) - {a}
  {}
}
