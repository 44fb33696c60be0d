/** Lists of addresses, shared by the allocators and the hash map; 0 is the null address. */
module Sequences {

  function Nth(s: seq<nat>, i: nat): nat { if i < |s| then s[i] else 0 }

  ghost predicate Distinct(s: seq<nat>)
  {
    forall i, j :: 0 <= i < j < |s| ==> s[i] != s[j]
  }

  ghost function Members(s: seq<nat>): set<nat> { set p | p in s }

  /** A list without repetition has as many members as entries. */
  lemma {:induction false} DistinctCount(s: seq<nat>)
    requires Distinct(s)
    ensures |Members(s)| == |s|
  {
    if s == [] {
      assert Members(s) == {};
    } else {
      assert s == [s[0]] + s[1..] && s[0] !in s[1..];
      DistinctCount(s[1..]);
      hide Distinct;
      assert Members(s) == Members(s[1..]) + {s[0]};
    }
  }

  function RemoveAt(s: seq<nat>, i: nat): seq<nat>
    requires i < |s|
  {
    s[..i] + s[i + 1..]
  }

  lemma RemoveAtNth(s: seq<nat>, i: nat, j: nat)
    requires i < |s|
    ensures Nth(RemoveAt(s, i), j) == Nth(s, if j < i then j else j + 1)
  {}

  /** What follows entry `j` once entry `i` is gone: what followed it before, except that the
      predecessor of `i` is now followed by its successor. */
  lemma RemoveAtNext(s: seq<nat>, i: nat, j: nat)
    requires Distinct(s) && i < |s| && j + 1 < |s|
    ensures var g := if j < i then j else j + 1;
            && RemoveAt(s, i)[j] == s[g] && s[g] != s[i] && s[g] in s && (i > 0 && s[g] == s[i - 1] <==> g + 1 == i)
            && Nth(RemoveAt(s, i), j + 1) == if g + 1 == i then Nth(s, i + 1) else Nth(s, g + 1)
  {
    RemoveAtNth(s, i, j);
    RemoveAtNth(s, i, j + 1);
    assert |RemoveAt(s, i)| == |s| - 1;
    hide RemoveAt;
    if i > 0 && j + 1 != i { assert s[if j < i then j else j + 1] != s[i - 1]; }
  }

  lemma RemoveAtMembers(s: seq<nat>, i: nat)
    requires Distinct(s) && i < |s|
    ensures Distinct(RemoveAt(s, i)) && forall p :: p in RemoveAt(s, i) <==> p in s && p != s[i]
  {
    assert s == s[..i] + [s[i]] + s[i + 1..];
    assert s[i] !in s[..i] && s[i] !in s[i + 1..];
  }
}
