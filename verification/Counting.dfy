/** How many flags of a table are set. */
module Counting {

  function CountTrue(s: seq<bool>): nat
  {
    if s == [] then 0 else (if s[0] then 1 else 0) + CountTrue(s[1..])
  }

  lemma {:induction false} CountSet(s: seq<bool>, i: nat, b: bool)
    requires i < |s|
    ensures CountTrue(s[i := b]) + (if s[i] then 1 else 0) == CountTrue(s) + if b then 1 else 0
  {
    if i == 0 {
      assert s[i := b][1..] == s[1..];
    } else {
      assert s[i := b][1..] == s[1..][i - 1 := b];
      CountSet(s[1..], i - 1, b);
    }
  }

  lemma {:induction false} CountNone(s: seq<bool>)
    requires forall i :: 0 <= i < |s| ==> !s[i]
    ensures CountTrue(s) == 0
  {
    if s != [] { CountNone(s[1..]); }
  }

  lemma {:induction false} CountSome(s: seq<bool>, i: nat)
    requires i < |s| && s[i]
    ensures CountTrue(s) > 0
  {
    if i > 0 { CountSome(s[1..], i - 1); }
  }

  lemma {:induction false} CountZero(s: seq<bool>)
    requires CountTrue(s) == 0
    ensures forall i :: 0 <= i < |s| ==> !s[i]
  {
    forall i | 0 <= i < |s| ensures !s[i] { if s[i] { CountSome(s, i); } }
  }

  lemma {:induction false} CountBound(s: seq<bool>)
    ensures CountTrue(s) <= |s|
  {
    if s != [] { CountBound(s[1..]); }
  }

  lemma {:induction false} CountWitness(s: seq<bool>) returns (i: nat)
    requires CountTrue(s) > 0
    ensures i < |s| && s[i]
  {
    if s[0] {
      i := 0;
    } else {
      i := CountWitness(s[1..]);
      i := i + 1;
    }
  }
}
