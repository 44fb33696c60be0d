/** The doubly linked free lists and the two bitmap levels of kernel/kernel/memory/tlsf.c,
    as facts about the link words, the list heads and the bitmap words. */
module TlsfLists {
  import opened Bits
  import opened TlsfMapping
  import opened TlsfPool
  import opened Sequences

  /** `free_prev` and `free_next`, at the address of a free block. */
  datatype Link = Link(prev: nat, next: nat)

  function Before(s: seq<nat>, i: nat): nat requires i <= |s| { if i == 0 then 0 else s[i - 1] }

  /** The link words thread exactly `s`, in both directions. */
  ghost predicate DList(link: map<nat, Link>, head: nat, s: seq<nat>)
  {
    && head == Nth(s, 0)
    && (forall i :: 0 <= i < |s| ==> s[i] != 0 && s[i] in link && link[s[i]] == Link(Before(s, i), Nth(s, i + 1)))
  }

  /** No address is in two lists, or twice in one. */
  ghost predicate Apart(lists: seq<seq<nat>>)
  {
    && (forall c :: 0 <= c < |lists| ==> Distinct(lists[c]))
    && (forall c, d, x {:trigger x in lists[c], x in lists[d]} ::
          0 <= c < |lists| && 0 <= d < |lists| && x in lists[c] && x in lists[d] ==> c == d)
  }

  ghost predicate Threaded(link: map<nat, Link>, heads: seq<nat>, lists: seq<seq<nat>>)
  {
    && |heads| == |lists| == CLASSES
    && Apart(lists)
    && (forall c :: 0 <= c < CLASSES ==> DList(link, heads[c], lists[c]))
  }

  lemma DListFrame(link: map<nat, Link>, link': map<nat, Link>, head: nat, s: seq<nat>)
    requires DList(link, head, s) && forall x :: x in s && x in link ==> x in link' && link'[x] == link[x]
    ensures DList(link', head, s)
  {}

  // ------------------------------------------------------------ unlinking

  /** The link words after `free_list_remove` has bypassed `x`. */
  function Bypass(link: map<nat, Link>, x: nat): map<nat, Link>
    requires x in link
  {
    var Link(prev, next) := link[x];
    var l1 := if next != 0 && next in link then link[next := link[next].(prev := prev)] else link;
    if prev != 0 && prev in l1 then l1[prev := l1[prev].(next := next)] else l1
  }

  lemma BypassValue(link: map<nat, Link>, x: nat, y: nat)
    requires x in link && y in link && y != 0
    ensures y in Bypass(link, x)
    ensures Bypass(link, x)[y] == Link(if y == link[x].next then link[x].prev else link[y].prev,
                                       if y == link[x].prev then link[x].next else link[y].next)
  {}

  /** The words of the other members of the list after the bypass. */
  lemma BypassAt(link: map<nat, Link>, head: nat, s: seq<nat>, i: nat, g: nat)
    requires DList(link, head, s) && Distinct(s) && i < |s| && g < |s| && g != i
    ensures s[g] in Bypass(link, s[i])
    ensures Bypass(link, s[i])[s[g]] == Link(if g == i + 1 then Before(s, i) else Before(s, g),
                                             if g + 1 == i then Nth(s, i + 1) else Nth(s, g + 1))
  {
    hide Bypass;
    assert link[s[i]] == Link(Before(s, i), Nth(s, i + 1));
    assert link[s[g]] == Link(Before(s, g), Nth(s, g + 1));
    BypassValue(link, s[i], s[g]);
    assert s[g] == Nth(s, i + 1) <==> g == i + 1;
    assert s[g] == Before(s, i) <==> g + 1 == i;
  }

  lemma EraseDList(link: map<nat, Link>, head: nat, s: seq<nat>, i: nat)
    requires DList(link, head, s) && Distinct(s) && i < |s|
    ensures DList(Bypass(link, s[i]), if i == 0 then Nth(s, 1) else head, Erase(s, s[i]))
  {
    EraseAt(s, i);
    var t, link' := RemoveAt(s, i), Bypass(link, s[i]);
    assert |t| == |s| - 1;
    RemoveAtNth(s, i, 0);
    hide Bypass, Erase, RemoveAt, Distinct;
    forall j | 0 <= j < |t| ensures t[j] != 0 && t[j] in link' && link'[t[j]] == Link(Before(t, j), Nth(t, j + 1)) {
      RemoveAtNth(s, i, j);
      RemoveAtNth(s, i, j + 1);
      if j > 0 { RemoveAtNth(s, i, j - 1); }
      BypassAt(link, head, s, i, if j < i then j else j + 1);
    }
  }

  /** Bypassing a member of one list leaves the words of every other list alone. */
  lemma BypassFrame(link: map<nat, Link>, head: nat, s: seq<nat>, i: nat, x: nat)
    requires DList(link, head, s) && i < |s| && x !in s && x in link
    ensures x in Bypass(link, s[i]) && Bypass(link, s[i])[x] == link[x]
  {
    assert link[s[i]] == Link(Before(s, i), Nth(s, i + 1));
    if i > 0 { assert s[i - 1] in s; }
    if i + 1 < |s| { assert s[i + 1] in s; }
  }

  lemma UnlinkKeeps(link: map<nat, Link>, heads: seq<nat>, lists: seq<seq<nat>>, c: nat, i: nat)
    requires Threaded(link, heads, lists) && c < CLASSES && i < |lists[c]|
    ensures lists[c][i] in link
    ensures var x := lists[c][i];
            var head := if heads[c] == x then link[x].next else heads[c];
            Threaded(Bypass(link, x), heads[c := head], lists[c := Erase(lists[c], x)])
  {
    var s, x := lists[c], lists[c][i];
    assert DList(link, heads[c], s) && Distinct(s);
    assert heads[c] == s[0] && link[x] == Link(Before(s, i), Nth(s, i + 1));
    var lists' := lists[c := Erase(s, x)];
    EraseMembers(s, x);
    EraseApart(lists, c, x);
    forall d | 0 <= d < CLASSES
      ensures DList(Bypass(link, x), heads[c := if heads[c] == x then link[x].next else heads[c]][d], lists'[d])
    {
      if d == c {
        EraseDList(link, heads[c], s, i);
        if i > 0 { assert s[0] != s[i]; }
      } else {
        forall y | y in lists[d] && y in link ensures y in Bypass(link, x) && Bypass(link, x)[y] == link[y] {
          BypassFrame(link, heads[c], s, i, y);
        }
        DListFrame(link, Bypass(link, x), heads[d], lists[d]);
      }
    }
  }

  /** What the unlinking code sees at entry `i` of list `c`. */
  lemma Neighbours(link: map<nat, Link>, heads: seq<nat>, lists: seq<seq<nat>>, c: nat, i: nat)
    requires Threaded(link, heads, lists) && c < CLASSES && i < |lists[c]|
    ensures var x := lists[c][i];
            && x != 0 && x in link
            && (link[x].next != 0 ==> link[x].next in link && link[x].next != x)
            && (link[x].prev != 0 ==> link[x].prev in link && link[x].prev != x && link[x].prev != link[x].next)
            && (heads[c] == x && link[x].next == 0 <==> Erase(lists[c], x) == [])
  {
    var s := lists[c];
    assert DList(link, heads[c], s) && Distinct(s);
    assert link[s[i]] == Link(Before(s, i), Nth(s, i + 1));
    EraseAt(s, i);
    hide Erase;
    if i > 0 { assert s[i - 1] in link && s[i - 1] != 0 && s[0] != s[i]; }
    if i + 1 < |s| { assert s[i + 1] in link && s[i + 1] != 0; }
  }

  lemma EraseApart(lists: seq<seq<nat>>, c: nat, x: nat)
    requires Apart(lists) && c < |lists|
    ensures Apart(lists[c := Erase(lists[c], x)])
  {
    EraseMembers(lists[c], x);
    var l := lists[c := Erase(lists[c], x)];
    forall d, y | 0 <= d < |l| && y in l[d] ensures y in lists[d] {}
  }

  // ------------------------------------------------------------ linking

  /** The link words after `free_list_insert` has put `x` before `head`. */
  function Prepend(link: map<nat, Link>, head: nat, x: nat): map<nat, Link>
  {
    var l1 := link[x := Link(0, head)];
    if head != 0 && head in link then l1[head := l1[head].(prev := x)] else l1
  }

  lemma LinkKeeps(link: map<nat, Link>, heads: seq<nat>, lists: seq<seq<nat>>, c: nat, x: nat)
    requires Threaded(link, heads, lists) && c < CLASSES && x != 0
    requires forall d :: 0 <= d < CLASSES ==> x !in lists[d]
    ensures Threaded(Prepend(link, heads[c], x), heads[c := x], lists[c := [x] + lists[c]])
  {
    var s, l' := lists[c], lists[c := [x] + lists[c]];
    var link' := Prepend(link, heads[c], x);
    assert DList(link, heads[c], s);
    PrependApart(lists, c, x);
    forall d | 0 <= d < CLASSES ensures DList(link', heads[c := x][d], l'[d]) {
      if d == c {
        PrependDList(link, heads[c], s, x);
      } else {
        forall y | y in lists[d] && y in link ensures y in link' && link'[y] == link[y] {
          if s != [] { assert s[0] in s; }
        }
        DListFrame(link, link', heads[d], lists[d]);
      }
    }
  }

  lemma PrependValue(link: map<nat, Link>, head: nat, x: nat, y: nat)
    requires x != head
    ensures x in Prepend(link, head, x) && Prepend(link, head, x)[x] == Link(0, head)
    ensures y in link && y != x ==>
              && y in Prepend(link, head, x)
              && Prepend(link, head, x)[y] == if y == head && y != 0 then link[y].(prev := x) else link[y]
  {}

  lemma PrependDList(link: map<nat, Link>, head: nat, s: seq<nat>, x: nat)
    requires DList(link, head, s) && Distinct(s) && x != 0 && x !in s
    ensures DList(Prepend(link, head, x), x, [x] + s)
  {
    hide Prepend;
    var t, link' := [x] + s, Prepend(link, head, x);
    assert x != head by { if s != [] { assert s[0] in s; } }
    forall j | 0 <= j < |t| ensures t[j] != 0 && t[j] in link' && link'[t[j]] == Link(Before(t, j), Nth(t, j + 1)) {
      PrependValue(link, head, x, t[j]);
      if j > 0 {
        assert t[j] == s[j - 1] && link[s[j - 1]] == Link(Before(s, j - 1), Nth(s, j));
        assert s[j - 1] == head <==> j == 1;
      }
    }
  }

  lemma PrependApart(lists: seq<seq<nat>>, c: nat, x: nat)
    requires Apart(lists) && c < |lists| && forall d :: 0 <= d < |lists| ==> x !in lists[d]
    ensures Apart(lists[c := [x] + lists[c]])
  {
    var l := lists[c := [x] + lists[c]];
    forall d, y | 0 <= d < |l| && y in l[d] ensures y in lists[d] || (d == c && y == x) {}
  }

  // ------------------------------------------------------------ bitmaps

  function ListAt(lists: seq<seq<nat>>, f: nat, i: nat): seq<nat>
    requires |lists| == CLASSES && f < FL_COUNT && i < SL_COUNT
  {
    lists[SL_COUNT * f + i]
  }

  /** Bit (fl, sl) is set exactly when its list is non-empty, and bit fl of the first
      level exactly when its second-level word is non-zero. */
  ghost predicate Mapped(flMap: nat, slMap: seq<nat>, lists: seq<seq<nat>>)
  {
    && |slMap| == FL_COUNT && |lists| == CLASSES
    && (forall f, i {:trigger Bit(slMap[f], i)} :: 0 <= f < FL_COUNT && 0 <= i ==>
          (Bit(slMap[f], i) <==> i < SL_COUNT && ListAt(lists, f, i) != []))
    && (forall f {:trigger Bit(flMap, f)} :: 0 <= f ==> (Bit(flMap, f) <==> f < FL_COUNT && slMap[f] != 0))
  }

  lemma NonZeroHasBit(v: nat, i: nat)
    ensures Bit(v, i) ==> v != 0
    ensures v != 0 ==> Bit(v, Ctz(v))
  {
    ZeroBit(i);
    if v != 0 { CtzIsLowest(v); }
  }

  /** Filing a block sets its two bits. */
  lemma MappedSet(flMap: nat, slMap: seq<nat>, lists: seq<seq<nat>>, fl: nat, sl: nat, s: seq<nat>)
    requires Mapped(flMap, slMap, lists) && fl < FL_COUNT && sl < SL_COUNT && s != []
    ensures Mapped(Or(flMap, Pow2(fl)), slMap[fl := Or(slMap[fl], Pow2(sl))], lists[SL_COUNT * fl + sl := s])
  {
    hide Bit, Or, Pow2;
    var sm, l := slMap[fl := Or(slMap[fl], Pow2(sl))], lists[SL_COUNT * fl + sl := s];
    forall f, i | 0 <= f < FL_COUNT && 0 <= i
      ensures Bit(sm[f], i) <==> i < SL_COUNT && ListAt(l, f, i) != []
    {
      OrBit(slMap[fl], Pow2(sl), i);
      Pow2Bit(sl, i);
    }
    OrBit(slMap[fl], Pow2(sl), sl);
    Pow2Bit(sl, sl);
    NonZeroHasBit(sm[fl], sl);
    forall f | 0 <= f ensures Bit(Or(flMap, Pow2(fl)), f) <==> f < FL_COUNT && sm[f] != 0 {
      OrBit(flMap, Pow2(fl), f);
      Pow2Bit(fl, f);
    }
  }

  /** Emptying a list clears its bit, and the first-level bit with the last one. */
  lemma MappedClear(flMap: nat, slMap: seq<nat>, lists: seq<seq<nat>>, fl: nat, sl: nat)
    requires Mapped(flMap, slMap, lists) && fl < FL_COUNT && sl < SL_COUNT
    ensures var w := AndNot(slMap[fl], Pow2(sl));
            Mapped(if w == 0 then AndNot(flMap, Pow2(fl)) else flMap, slMap[fl := w], lists[SL_COUNT * fl + sl := []])
  {
    hide Bit, AndNot, Pow2;
    var w := AndNot(slMap[fl], Pow2(sl));
    var fm, sm, l := if w == 0 then AndNot(flMap, Pow2(fl)) else flMap, slMap[fl := w], lists[SL_COUNT * fl + sl := []];
    forall f, i | 0 <= f < FL_COUNT && 0 <= i
      ensures Bit(sm[f], i) <==> i < SL_COUNT && ListAt(l, f, i) != []
    {
      AndNotBit(slMap[fl], Pow2(sl), i);
      Pow2Bit(sl, i);
    }
    forall f | 0 <= f ensures Bit(fm, f) <==> f < FL_COUNT && sm[f] != 0 {
      AndNotBit(flMap, Pow2(fl), f);
      Pow2Bit(fl, f);
      if w != 0 {
        NonZeroHasBit(w, 0);
        AndNotBit(slMap[fl], Pow2(sl), Ctz(w));
        NonZeroHasBit(slMap[fl], Ctz(w));
      }
    }
  }

  lemma MappedSame(flMap: nat, slMap: seq<nat>, lists: seq<seq<nat>>, c: nat, s: seq<nat>)
    requires Mapped(flMap, slMap, lists) && c < CLASSES && (s == [] <==> lists[c] == [])
    ensures Mapped(flMap, slMap, lists[c := s])
  {}

  /** The masked scan of one second-level word. */
  lemma ScanSecond(flMap: nat, slMap: seq<nat>, lists: seq<seq<nat>>, fl: nat, sl: nat)
    requires Mapped(flMap, slMap, lists) && fl < FL_COUNT && sl <= SL_COUNT
    ensures var m := AndNot(slMap[fl], Pow2(sl) - 1);
            if m == 0 then forall i :: sl <= i < SL_COUNT ==> ListAt(lists, fl, i) == []
            else sl <= Ctz(m) < SL_COUNT && ListAt(lists, fl, Ctz(m)) != []
                 && forall i :: sl <= i < Ctz(m) ==> ListAt(lists, fl, i) == []
  {
    hide Bit, AndNot, Pow2, Ctz;
    var m := AndNot(slMap[fl], Pow2(sl) - 1);
    forall i: nat ensures Bit(m, i) <==> Bit(slMap[fl], i) && i >= sl {
      AndNotBit(slMap[fl], Pow2(sl) - 1, i);
      MaskBit(sl, i);
    }
    forall i: nat ensures Bit(m, i) ==> m != 0 { NonZeroHasBit(m, i); }
    if m != 0 { CtzIsLowest(m); }
    forall i | sl <= i < SL_COUNT && (m == 0 || i < Ctz(m)) ensures ListAt(lists, fl, i) == [] {
      assert !Bit(slMap[fl], i);
    }
  }

  /** The masked scan of the first-level word. */
  lemma ScanFirst(flMap: nat, slMap: seq<nat>, lists: seq<seq<nat>>, from: nat)
    requires Mapped(flMap, slMap, lists) && from <= FL_COUNT
    ensures var m := AndNot(flMap, Pow2(from) - 1);
            if m == 0 then forall f :: from <= f < FL_COUNT ==> slMap[f] == 0
            else from <= Ctz(m) < FL_COUNT && slMap[Ctz(m)] != 0
                 && forall f :: from <= f < Ctz(m) ==> slMap[f] == 0
  {
    hide Bit, AndNot, Pow2, Ctz;
    var m := AndNot(flMap, Pow2(from) - 1);
    forall i: nat ensures Bit(m, i) <==> Bit(flMap, i) && i >= from {
      AndNotBit(flMap, Pow2(from) - 1, i);
      MaskBit(from, i);
    }
    forall i: nat ensures Bit(m, i) ==> m != 0 { NonZeroHasBit(m, i); }
    if m != 0 { CtzIsLowest(m); }
    forall f | from <= f < FL_COUNT && (m == 0 || f < Ctz(m)) ensures slMap[f] == 0 {
      assert !Bit(flMap, f);
    }
  }

  lemma ZeroWord(flMap: nat, slMap: seq<nat>, lists: seq<seq<nat>>, f: nat, i: nat)
    requires Mapped(flMap, slMap, lists) && f < FL_COUNT && i < SL_COUNT && slMap[f] == 0
    ensures ListAt(lists, f, i) == []
  {
    ZeroBit(i);
    assert !Bit(slMap[f], i);
  }

  lemma FirstIs(lists: seq<seq<nat>>, c: nat, r: nat)
    requires |lists| == CLASSES && c <= r <= CLASSES && (r < CLASSES ==> lists[r] != [])
    requires forall d :: c <= d < r ==> lists[d] == []
    ensures FirstFrom(lists, c) == r
  {
    var q := FirstFrom(lists, c);
    hide FirstFrom;
  }

  lemma HeadLinked(link: map<nat, Link>, heads: seq<nat>, lists: seq<seq<nat>>, c: nat)
    requires Threaded(link, heads, lists) && c < CLASSES
    ensures heads[c] == Nth(lists[c], 0)
    ensures heads[c] != 0 <==> lists[c] != []
    ensures heads[c] != 0 ==> heads[c] in link && heads[c] in lists[c]
  {
    assert DList(link, heads[c], lists[c]);
  }

  lemma WholeWord(w: nat)
    ensures AndNot(w, Pow2(0) - 1) == w
    decreases w
  {
    AndNotRest(w, 0);
  }

  /** Between the searched class and first level `f`, nothing is filed. */
  lemma EmptyBetween(flMap: nat, slMap: seq<nat>, lists: seq<seq<nat>>, fl: nat, sl: nat, f: nat)
    requires Mapped(flMap, slMap, lists) && fl < f <= FL_COUNT && sl < SL_COUNT
    requires forall i :: sl <= i < SL_COUNT ==> ListAt(lists, fl, i) == []
    requires forall g :: fl < g < f ==> slMap[g] == 0
    ensures forall d :: SL_COUNT * fl + sl <= d < SL_COUNT * f ==> lists[d] == []
  {
    forall d | SL_COUNT * fl + sl <= d < SL_COUNT * f ensures lists[d] == [] {
      var g, i := d / 4, d % 4;
      if g == fl { assert ListAt(lists, fl, i) == []; } else { ZeroWord(flMap, slMap, lists, g, i); }
    }
  }

  lemma EmptyBelow(lists: seq<seq<nat>>, c: nat, fl: nat, sl: nat, from: nat)
    requires |lists| == CLASSES && fl < FL_COUNT && from <= sl < SL_COUNT
    requires c <= SL_COUNT * fl + from
    requires forall i :: from <= i < sl ==> ListAt(lists, fl, i) == []
    requires forall d :: c <= d < SL_COUNT * fl + from ==> lists[d] == []
    ensures forall d :: c <= d < SL_COUNT * fl + sl ==> lists[d] == []
  {
    forall d | SL_COUNT * fl + from <= d < SL_COUNT * fl + sl ensures lists[d] == [] {
      assert ListAt(lists, fl, d - SL_COUNT * fl) == [];
    }
  }

  /** The second-level word of the searched first level answers. */
  lemma FoundHere(flMap: nat, slMap: seq<nat>, lists: seq<seq<nat>>, fl: nat, sl: nat)
    requires Mapped(flMap, slMap, lists) && fl < FL_COUNT && sl < SL_COUNT
    requires AndNot(slMap[fl], Pow2(sl) - 1) != 0
    ensures var m := AndNot(slMap[fl], Pow2(sl) - 1);
            Ctz(m) < SL_COUNT && FirstFrom(lists, SL_COUNT * fl + sl) == SL_COUNT * fl + Ctz(m)
  {
    ScanSecond(flMap, slMap, lists, fl, sl);
    hide Mapped, AndNot, Ctz, Pow2, FirstFrom;
    var i := Ctz(AndNot(slMap[fl], Pow2(sl) - 1));
    EmptyBelow(lists, SL_COUNT * fl + sl, fl, i, sl);
    FirstIs(lists, SL_COUNT * fl + sl, SL_COUNT * fl + i);
  }

  /** Otherwise the first-level word picks the next populated level, whose word answers. */
  lemma FoundAbove(flMap: nat, slMap: seq<nat>, lists: seq<seq<nat>>, fl: nat, sl: nat)
    requires Mapped(flMap, slMap, lists) && fl < FL_COUNT && sl < SL_COUNT
    requires AndNot(slMap[fl], Pow2(sl) - 1) == 0
    ensures var w := AndNot(flMap, Pow2(fl + 1) - 1);
            if w == 0 then FirstFrom(lists, SL_COUNT * fl + sl) == CLASSES
            else var f := Ctz(w);
                 && f < FL_COUNT && slMap[f] != 0 && Ctz(slMap[f]) < SL_COUNT
                 && FirstFrom(lists, SL_COUNT * fl + sl) == SL_COUNT * f + Ctz(slMap[f])
  {
    assert |slMap| == FL_COUNT && |lists| == CLASSES;
    hide Mapped, AndNot, Ctz, Pow2, FirstFrom, ListAt;
    ScanSecond(flMap, slMap, lists, fl, sl);
    ScanFirst(flMap, slMap, lists, fl + 1);
    var w := AndNot(flMap, Pow2(fl + 1) - 1);
    if w == 0 {
      EmptyBetween(flMap, slMap, lists, fl, sl, FL_COUNT);
      FirstIs(lists, SL_COUNT * fl + sl, CLASSES);
    } else {
      EmptyBetween(flMap, slMap, lists, fl, sl, Ctz(w));
      FirstOfLevel(flMap, slMap, lists, SL_COUNT * fl + sl, Ctz(w));
    }
  }

  /** With everything before level `f` empty, its own word answers. */
  lemma FirstOfLevel(flMap: nat, slMap: seq<nat>, lists: seq<seq<nat>>, c: nat, f: nat)
    requires Mapped(flMap, slMap, lists) && f < FL_COUNT && slMap[f] != 0 && c <= SL_COUNT * f
    requires forall d :: c <= d < SL_COUNT * f ==> lists[d] == []
    ensures Ctz(slMap[f]) < SL_COUNT && FirstFrom(lists, c) == SL_COUNT * f + Ctz(slMap[f])
  {
    assert |slMap| == FL_COUNT && |lists| == CLASSES;
    WholeWord(slMap[f]);
    ScanSecond(flMap, slMap, lists, f, 0);
    assert lists[SL_COUNT * f + Ctz(slMap[f])] == ListAt(lists, f, Ctz(slMap[f]));
    hide Mapped, AndNot, Ctz, Pow2, FirstFrom, ListAt;
    EmptyBelow(lists, c, f, Ctz(slMap[f]), 0);
    FirstIs(lists, c, SL_COUNT * f + Ctz(slMap[f]));
  }
}
