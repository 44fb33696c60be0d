/** The size arithmetic of `kmalloc`, kernel/kernel/memory/heap.c, on 32-bit words. */
module HeapSizes {
  import opened Bits
  import opened HeapSpace
  import opened HeapState

  /** `kernel_heap_align_up` to 8, on 32-bit words. */
  function AlignUp8(v: nat): (r: nat) { AndNot((v + 7) % WORD, 7) }

  /** The bytes `kmalloc` sets aside for a request, header included. */
  function Payload(size: nat): nat { AlignUp8(size) }
  function Total(size: nat): nat { AlignUp8((Payload(size) + HEADER) % WORD) }

  /** Pages asked of the virtual memory manager. */
  function PageCount(total: nat): nat { ((total + PAGE - 1) % WORD) / PAGE }

  lemma DropLow3(w: nat)
    ensures AndNot(w, 7) % 8 == 0 && AndNot(w, 7) <= w < AndNot(w, 7) + 8
  {
    hide AndNot, And, Shr;
    assert Pow2(3) == 8;
    MaskSplit(w, 3);
    AndNotRest(w, 7);
  }

  lemma AlignUp8Is(v: nat)
    requires v < WORD
    ensures AlignUp8(v) % 8 == 0
    ensures v + 7 < WORD ==> v <= AlignUp8(v) < v + 8
    ensures v + 7 >= WORD ==> AlignUp8(v) == 0
  {
    hide AndNot;
    var w := (v + 7) % WORD;
    DropLow3(w);
    WordWrap(v + 7);
  }

  lemma WordWrap(x: nat)
    requires x < 2 * WORD
    ensures x % WORD == if x < WORD then x else x - WORD
  {}

  /** The words hold header and request, rounded up to 8, exactly when the request is at
      most 2^32 - 24 bytes; above that the sum wraps and the total is below the request. */
  lemma TotalFits(size: nat)
    requires 0 < size < WORD
    ensures Total(size) % 8 == 0
    ensures size <= WORD - 24 ==>
              Total(size) == Payload(size) + 16 && size <= Payload(size) < size + 8 && Total(size) < WORD
    ensures size > WORD - 24 ==> Total(size) < size
  {
    hide AlignUp8;
    AlignUp8Is(size);
    WordWrap(Payload(size) + HEADER);
    AlignUp8Is((Payload(size) + HEADER) % WORD);
  }

  /** What becomes of a total that wraps: from 23 bytes below 2^32 on it is 0, then 8, then that
      of an empty payload. */
  lemma WrappedTotal(size: nat)
    requires 0 < size < WORD
    ensures size <= WORD - 24 ==> Total(size) >= HEADER + 8
    ensures WORD - 24 < size <= WORD - 16 ==> Total(size) == 0 && Payload(size) == WORD - 16
    ensures WORD - 16 < size <= WORD - 8 ==> Total(size) == 8 && Payload(size) == WORD - 8
    ensures WORD - 8 < size ==> Total(size) == HEADER && Payload(size) == 0
  {
    hide AlignUp8;
    AlignUp8Is(size);
    WordWrap(Payload(size) + HEADER);
    AlignUp8Is((Payload(size) + HEADER) % WORD);
  }

  /** The page count covers the total unless the rounding wraps, and then it is zero. */
  lemma PageCountIs(total: nat)
    requires total < WORD && total % 8 == 0
    ensures PageCount(total) > 0 ==> total <= PageCount(total) * 4096 < total + 4096
    ensures PageCount(total) == 0 <==> total == 0 || total > 0xFFFF_F000
  {}

  /** The 16-bit field holds the page count of a large block exactly up to 65535 pages, that is
      for requests of at most 268431344 bytes. */
  lemma PagesFitField(size: nat)
    requires 0 < size <= WORD - 24 && Total(size) <= WORD - PAGE
    ensures var pages := PageCount(Total(size));
            && (pages % 0x1_0000 == pages <==> pages < 0x1_0000)
            && (pages < 0x1_0000 <==> size <= 268431344)
  {
    hide Total, Payload, PageCount;
    TotalFits(size);
    PageCountIs(Total(size));
  }

  /** The first request whose pages are not given back: 65536 pages, of which none return. */
  lemma PagesLostInField(size: nat)
    requires size == 268431345
    ensures PageCount(Total(size)) == 0x1_0000 && PageCount(Total(size)) % 0x1_0000 == 0
  {
    hide Total, Payload, PageCount;
    TotalFits(size);
    PageCountIs(Total(size));
  }

  /** The canary tells the low 16 bits of the size it was made from, and nothing else. */
  lemma CanaryTells(size: nat)
    ensures Xor(0xCAFE, Canary(size)) == size % 0x1_0000 && Canary(size) == Canary(size % 0x1_0000) < 0x1_0000
  {
    hide Xor, And, Pow2;
    SixteenBits();
    CanaryIs(0xCAFE, size);
    CanaryIs(0xCAFE, size % 0x1_0000);
  }

  lemma SixteenBits()
    ensures Pow2(16) == 0x1_0000
  {
    assert Pow2(8) == 256;
    Pow2Add(8, 8);
  }

  lemma CanaryIs(c: nat, size: nat)
    requires c < Pow2(16) == 0x1_0000
    ensures And(Xor(c, size), 0xFFFF) == Xor(c, size % 0x1_0000) == Xor(c, size) % 0x1_0000
    ensures Xor(c, Xor(c, size % 0x1_0000)) == size % 0x1_0000
  {
    hide Xor, And, Pow2;
    MaskIsMod(Xor(c, size), 16);
    XorLow(c, size, 16);
    XorUndone(c, size % 0x1_0000);
  }

  /** The classes hold 8, 16, 32, ... 512 bytes. */
  lemma ClassesDouble(c: nat)
    requires c < CLASS_COUNT
    ensures ClassSize(c) == Pow2(c + 3)
  {
    assert Pow2(3) == 8 && Pow2(4) == 16 && Pow2(5) == 32 && Pow2(6) == 64 && Pow2(7) == 128 && Pow2(8) == 256;
    assert c == 0 || c == 1 || c == 2 || c == 3 || c == 4 || c == 5 || c == 6;
  }

  /** The size class `kmalloc` picks: the smallest that holds the payload. */
  function ClassFor(payload: nat): (c: nat)
    requires payload <= 512
    ensures c < CLASS_COUNT && payload <= ClassSize(c)
    ensures forall d :: 0 <= d < c ==> ClassSize(d) < payload
  {
    if payload <= 8 then 0 else if payload <= 16 then 1 else if payload <= 32 then 2
    else if payload <= 64 then 3 else if payload <= 128 then 4 else if payload <= 256 then 5 else 6
  }
}
