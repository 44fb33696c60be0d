/** Buckets of chained nodes, as libkxx/include/kstd/unordered_map.hpp threads them: which
    chain a node belongs to, how the links encode the chains, and the order in which
    iteration meets the nodes. */
module HashChains {
  import opened Sequences

  type Chains = seq<seq<nat>>

  /** `s` is the list that starts at `head` and follows the links. */
  ghost predicate Threads(links: map<nat, nat>, head: nat, s: seq<nat>)
  {
    && head == Nth(s, 0)
    && (forall i :: 0 <= i < |s| ==> s[i] != 0 && s[i] in links && links[s[i]] == Nth(s, i + 1))
  }

  ghost predicate AllThreaded(links: map<nat, nat>, heads: seq<nat>, chains: Chains)
  {
    |heads| == |chains| && forall b :: 0 <= b < |chains| ==> Threads(links, heads[b], chains[b])
  }

  /** Node `p` is in chain `b`, once, exactly when `home` sends it there. */
  ghost predicate Sorted(chains: Chains, home: map<nat, nat>)
  {
    && (forall b, p :: 0 <= b < |chains| ==> (p in chains[b] <==> p in home && home[p] == b))
    && (forall b :: 0 <= b < |chains| ==> Distinct(chains[b]))
    && (forall p :: p in home ==> home[p] < |chains|)
  }

  // ------------------------------------------------------------ the order of iteration

  ghost function Flat(chains: Chains): seq<nat>
  {
    if chains == [] then [] else chains[0] + Flat(chains[1..])
  }

  lemma {:induction false} FlatMembers(chains: Chains, p: nat)
    ensures p in Flat(chains) <==> exists b :: 0 <= b < |chains| && p in chains[b]
  {
    if chains != [] {
      FlatMembers(chains[1..], p);
      if p in Flat(chains[1..]) {
        var b :| 0 <= b < |chains[1..]| && p in chains[1..][b];
        assert p in chains[b + 1];
      }
      if b :| 0 <= b < |chains| && p in chains[b] && p !in chains[0] { assert p in chains[1..][b - 1]; }
    }
  }

  lemma {:induction false} FlatConcat(a: Chains, b: Chains)
    ensures Flat(a + b) == Flat(a) + Flat(b)
  {
    if a == [] {
      assert a + b == b;
    } else {
      assert (a + b)[1..] == a[1..] + b;
      FlatConcat(a[1..], b);
    }
  }

  lemma FlatOne(s: seq<nat>)
    ensures Flat([s]) == s
  {
    var c: Chains := [s];
    assert c[1..] == [];
  }

  /** Iteration starts bucket `b` at this position. */
  ghost function Before(chains: Chains, b: nat): nat
    requires b <= |chains|
  {
    |Flat(chains[..b])|
  }

  lemma FlatAt(chains: Chains, b: nat, j: nat)
    requires b < |chains| && j < |chains[b]|
    ensures Before(chains, b) + j < |Flat(chains)| && Flat(chains)[Before(chains, b) + j] == chains[b][j]
    ensures Before(chains, b + 1) == Before(chains, b) + |chains[b]|
  {
    BeforeStep(chains, b);
    assert chains == chains[..b] + chains[b..];
    FlatConcat(chains[..b], chains[b..]);
    assert Flat(chains[b..]) == chains[b] + Flat(chains[b + 1..]) by { assert chains[b..][1..] == chains[b + 1..]; }
  }

  lemma BeforeStep(chains: Chains, b: nat)
    requires b < |chains|
    ensures Before(chains, b + 1) == Before(chains, b) + |chains[b]|
  {
    assert chains[..b + 1] == chains[..b] + [chains[b]];
    FlatConcat(chains[..b], [chains[b]]);
    FlatOne(chains[b]);
  }

  lemma {:induction false} BeforeMono(chains: Chains, a: nat, b: nat)
    requires a <= b <= |chains|
    ensures Before(chains, a) <= Before(chains, b)
  {
    if a < b {
      BeforeStep(chains, b - 1);
      BeforeMono(chains, a, b - 1);
    }
  }

  lemma BeforeAll(chains: Chains)
    ensures Before(chains, 0) == 0 && Before(chains, |chains|) == |Flat(chains)|
  {
    assert chains[..|chains|] == chains && chains[..0] == [];
  }

  /** Iteration meets every node exactly once. */
  lemma FlatOnce(chains: Chains, home: map<nat, nat>)
    requires Sorted(chains, home)
    ensures Distinct(Flat(chains)) && |Flat(chains)| == |home| && forall p :: p in Flat(chains) <==> p in home
  {
    hide Distinct, Flat, Sorted;
    forall p ensures p in Flat(chains) <==> p in home { FlatHas(chains, home, p); }
    FlatDistinct(chains, home, |chains|);
    assert chains[..|chains|] == chains;
    DistinctCount(Flat(chains));
    assert Members(Flat(chains)) == home.Keys;
  }

  lemma FlatHas(chains: Chains, home: map<nat, nat>, p: nat)
    requires Sorted(chains, home)
    ensures p in Flat(chains) <==> p in home
  {
    hide Distinct, Flat;
    FlatMembers(chains, p);
    assert p in home ==> p in chains[home[p]];
  }

  lemma {:induction false} FlatDistinct(chains: Chains, home: map<nat, nat>, n: nat)
    requires Sorted(chains, home) && n <= |chains|
    ensures Distinct(Flat(chains[..n]))
    ensures forall p :: p in Flat(chains[..n]) ==> p in home && home[p] < n
  {
    if n > 0 {
      FlatDistinct(chains, home, n - 1);
      assert chains[..n] == chains[..n - 1] + [chains[n - 1]];
      FlatConcat(chains[..n - 1], [chains[n - 1]]);
      FlatOne(chains[n - 1]);
      DistinctConcat(Flat(chains[..n - 1]), chains[n - 1]);
    }
  }

  lemma DistinctConcat(a: seq<nat>, b: seq<nat>)
    requires Distinct(a) && Distinct(b) && forall p :: p in a ==> p !in b
    ensures Distinct(a + b)
  {
    forall i, j | 0 <= i < j < |a + b| ensures (a + b)[i] != (a + b)[j] {
      if i < |a| <= j { assert a[i] in a && b[j - |a|] in b; }
    }
  }

  // ------------------------------------------------------------ pushing and unlinking

  lemma ThreadsFrame(links: map<nat, nat>, links': map<nat, nat>, head: nat, s: seq<nat>)
    requires Threads(links, head, s) && forall p :: p in s && p in links ==> p in links' && links'[p] == links[p]
    ensures Threads(links', head, s)
  {}

  lemma PushThreaded(links: map<nat, nat>, heads: seq<nat>, chains: Chains, b: nat, p: nat)
    requires AllThreaded(links, heads, chains) && b < |chains| && p != 0
    requires forall c :: 0 <= c < |chains| ==> p !in chains[c]
    ensures AllThreaded(links[p := heads[b]], heads[b := p], chains[b := [p] + chains[b]])
  {
    var links', heads', chains' := links[p := heads[b]], heads[b := p], chains[b := [p] + chains[b]];
    forall c | 0 <= c < |chains| ensures Threads(links', heads'[c], chains'[c]) {
      ThreadsFrame(links, links', heads[c], chains[c]);
      if c == b {
        var t := [p] + chains[b];
        forall i | 0 <= i < |t| ensures t[i] != 0 && t[i] in links' && links'[t[i]] == Nth(t, i + 1) {
          if i > 0 { assert t[i] == chains[b][i - 1]; }
        }
      }
    }
  }

  lemma PushSorted(chains: Chains, home: map<nat, nat>, b: nat, p: nat)
    requires Sorted(chains, home) && b < |chains| && p !in home
    ensures Sorted(chains[b := [p] + chains[b]], home[p := b])
    ensures forall c :: 0 <= c < |chains| ==> p !in chains[c]
  {
    assert Distinct([p]);
    hide Distinct;
    var after, home' := chains[b := [p] + chains[b]], home[p := b];
    forall c | 0 <= c < |chains| ensures p !in chains[c] && Distinct(chains[c]) {}
    DistinctConcat([p], chains[b]);
    forall c, q | 0 <= c < |after| ensures q in after[c] <==> q in home' && home'[q] == c {
      assert q in chains[c] <==> q in home && home[q] == c;
    }
  }

  lemma CutSorted(chains: Chains, home: map<nat, nat>, b: nat, j: nat)
    requires Sorted(chains, home) && b < |chains| && j < |chains[b]|
    ensures Sorted(chains[b := RemoveAt(chains[b], j)], home - {chains[b][j]})
  {
    hide RemoveAt, Distinct;
    var x := chains[b][j];
    var after, home' := chains[b := RemoveAt(chains[b], j)], home - {x};
    assert x in chains[b] && Distinct(chains[b]);
    RemoveAtMembers(chains[b], j);
    forall c, p | 0 <= c < |after| ensures p in after[c] <==> p in home' && home'[p] == c {
      assert p in chains[c] <==> p in home && home[p] == c;
      assert x in home && home[x] == b;
    }
    forall c | 0 <= c < |after| ensures Distinct(after[c]) { assert Distinct(chains[c]); }
  }

  /** The links after node `j` of `s` was taken out and its memory given back. */
  ghost function CutLinks(links: map<nat, nat>, s: seq<nat>, j: nat): map<nat, nat>
    requires j < |s|
  {
    (if j == 0 then links else links[s[j - 1] := Nth(s, j + 1)]) - {s[j]}
  }

  lemma CutThreads(links: map<nat, nat>, head: nat, s: seq<nat>, j: nat)
    requires Threads(links, head, s) && Distinct(s) && j < |s|
    ensures Threads(CutLinks(links, s, j), if j == 0 then Nth(s, 1) else head, RemoveAt(s, j))
  {
    var t, links' := RemoveAt(s, j), CutLinks(links, s, j);
    assert |t| == |s| - 1;
    RemoveAtNth(s, j, 0);
    hide RemoveAt, Distinct;
    forall i | 0 <= i < |t| ensures t[i] != 0 && t[i] in links' && links'[t[i]] == Nth(t, i + 1) {
      RemoveAtNext(s, j, i);
    }
  }

  lemma ChainsApart(chains: Chains, home: map<nat, nat>, b: nat, c: nat)
    requires Sorted(chains, home) && b < |chains| && c < |chains| && b != c
    ensures forall p :: p in chains[c] ==> p !in chains[b]
  {
    forall p | p in chains[c] ensures p !in chains[b] { assert p in home && home[p] == c; }
  }

  lemma CutThreaded(links: map<nat, nat>, heads: seq<nat>, chains: Chains, home: map<nat, nat>, b: nat, j: nat)
    requires AllThreaded(links, heads, chains) && Sorted(chains, home) && b < |chains| && j < |chains[b]|
    ensures AllThreaded(CutLinks(links, chains[b], j), if j == 0 then heads[b := Nth(chains[b], 1)] else heads,
                        chains[b := RemoveAt(chains[b], j)])
  {
    var s := chains[b];
    var links', heads', chains' := CutLinks(links, s, j), if j == 0 then heads[b := Nth(s, 1)] else heads,
          chains[b := RemoveAt(s, j)];
    forall c | 0 <= c < |chains| ensures Threads(links', heads'[c], chains'[c]) {
      if c == b {
        CutThreads(links, heads[b], s, j);
      } else {
        ChainsApart(chains, home, b, c);
        assert s[j] in chains[b] && (j > 0 ==> s[j - 1] in chains[b]);
        ThreadsFrame(links, links', heads[c], chains[c]);
      }
    }
  }

  /** Taking one node out of a chain takes one place out of the order. */
  lemma CutOrder(chains: Chains, b: nat, q: nat)
    requires b < |chains| && q < |chains[b]|
    ensures Before(chains, b) + q < |Flat(chains)|
    ensures Flat(chains[b := RemoveAt(chains[b], q)]) == RemoveAt(Flat(chains), Before(chains, b) + q)
    ensures forall c :: 0 <= c <= |chains| ==>
              Before(chains[b := RemoveAt(chains[b], q)], c) == Before(chains, c) - if c > b then 1 else 0
  {
    FlatAt(chains, b, q);
    var after := chains[b := RemoveAt(chains[b], q)];
    FlatParts(chains, b);
    FlatParts(after, b);
    assert after[..b] == chains[..b] && after[b + 1..] == chains[b + 1..];
    CutInside(Flat(chains[..b]), chains[b], Flat(chains[b + 1..]), q);
    forall c | 0 <= c <= |chains| ensures Before(after, c) == Before(chains, c) - if c > b then 1 else 0 {
      if c <= b {
        assert after[..c] == chains[..c];
      } else {
        FlatParts(chains[..c], b);
        FlatParts(after[..c], b);
        assert after[..c][..b] == chains[..c][..b] && after[..c][b + 1..] == chains[..c][b + 1..];
      }
    }
  }

  lemma SplitAt(chains: Chains, b: nat)
    requires b < |chains|
    ensures chains[..b] + chains[b..] == chains && [chains[b]] + chains[b + 1..] == chains[b..]
  {}

  lemma FlatParts(chains: Chains, b: nat)
    requires b < |chains|
    ensures Flat(chains) == Flat(chains[..b]) + chains[b] + Flat(chains[b + 1..])
  {
    hide Flat;
    SplitAt(chains, b);
    FlatConcat(chains[..b], chains[b..]);
    FlatConcat([chains[b]], chains[b + 1..]);
    FlatOne(chains[b]);
  }

  lemma CutInside(a: seq<nat>, s: seq<nat>, z: seq<nat>, q: nat)
    requires q < |s|
    ensures RemoveAt(a + s + z, |a| + q) == a + RemoveAt(s, q) + z
  {}

  // ------------------------------------------------------------ rehashing

  /** Chains built by pushing the nodes of `ps`, first to last, each on the chain of its home. */
  ghost function Spread(ps: seq<nat>, home: map<nat, nat>, count: nat): (c: Chains)
    ensures |c| == count
  {
    if ps == [] then seq(count, i => [])
    else
      var p := ps[|ps| - 1];
      var c := Spread(ps[..|ps| - 1], home, count);
      if p in home && home[p] < count then c[home[p] := [p] + c[home[p]]] else c
  }

  ghost function Sub(home: map<nat, nat>, ps: seq<nat>): map<nat, nat>
  {
    map p | p in home && p in ps :: home[p]
  }

  lemma SpreadStep(ps: seq<nat>, j: nat, home: map<nat, nat>, count: nat)
    requires j < |ps| && ps[j] in home && home[ps[j]] < count
    ensures var c := Spread(ps[..j], home, count);
            Spread(ps[..j + 1], home, count) == c[home[ps[j]] := [ps[j]] + c[home[ps[j]]]]
    ensures Sub(home, ps[..j + 1]) == Sub(home, ps[..j])[ps[j] := home[ps[j]]]
  {
    assert ps[..j + 1][..j] == ps[..j] && ps[..j + 1][j] == ps[j];
    assert ps[..j + 1] == ps[..j] + [ps[j]];
  }

  lemma SpreadNone(home: map<nat, nat>, count: nat, links: map<nat, nat>)
    ensures Sorted(Spread([], home, count), Sub(home, []))
    ensures AllThreaded(links, seq(count, i => 0), Spread([], home, count))
  {}

  lemma {:induction false} SpreadHas(ps: seq<nat>, home: map<nat, nat>, count: nat, i: nat)
    requires i < |ps| && ps[i] in home && home[ps[i]] < count
    ensures ps[i] in Spread(ps, home, count)[home[ps[i]]]
  {
    if i < |ps| - 1 {
      assert ps[..|ps| - 1][i] == ps[i];
      SpreadHas(ps[..|ps| - 1], home, count, i);
    }
  }

  /** Rehashing turns the order within a bucket around: of two nodes that end in the same
      bucket, the one met first before is met last after. */
  lemma {:induction false} SpreadTurnsAround(ps: seq<nat>, home: map<nat, nat>, count: nat, i: nat, j: nat)
    returns (x: nat, y: nat)
    requires i < j < |ps| && ps[i] in home && ps[j] in home && home[ps[i]] == home[ps[j]] < count
    ensures var s := Spread(ps, home, count)[home[ps[i]]];
            x < y < |s| && s[x] == ps[j] && s[y] == ps[i]
  {
    var last := |ps| - 1;
    var front, b := ps[..last], home[ps[i]];
    assert front[i] == ps[i];
    var s, p := Spread(front, home, count)[b], ps[last];
    if j == last {
      SpreadHas(front, home, count, i);
      var z :| 0 <= z < |s| && s[z] == ps[i];
      return 0, z + 1;
    }
    assert front[j] == ps[j];
    x, y := SpreadTurnsAround(front, home, count, i, j);
    if p in home && home[p] == b { x, y := x + 1, y + 1; }
  }
}
