/** The order in which iteration meets the nodes of one bucket of
    libkxx/include/kstd/unordered_map.hpp: an insertion goes to the front of its chain, and
    every rehash turns each chain around. */
module HashOrder {
  import opened HashChains
  import opened Sequences

  /** When a node was inserted: its place among all insertions, and after how many rehashes. */
  datatype Birth = Birth(serial: nat, turn: nat)

  datatype Ages = Ages(births: map<nat, Birth>, clock: nat, turns: nat)

  ghost function Born(ages: Ages, p: nat): Ages
  {
    Ages(ages.births[p := Birth(ages.clock, ages.turns)], ages.clock + 1, ages.turns)
  }

  /** One more rehash, if the table grew. */
  ghost function Grown(ages: Ages, before: nat, after: nat): Ages
  {
    if before < after then ages.(turns := ages.turns + 1) else ages
  }

  /** The node born at `p` is met before the one born at `q`: the later of the two comes
      first as long as the number of rehashes since its insertion is even. */
  ghost predicate MetFirst(p: Birth, q: Birth, turns: nat)
  {
    if p.serial > q.serial then (turns - p.turn) % 2 == 0
    else p.serial < q.serial && (turns - q.turn) % 2 == 1
  }

  lemma TurnAround(p: Birth, q: Birth, turns: nat)
    requires MetFirst(q, p, turns)
    ensures MetFirst(p, q, turns + 1)
  {}

  ghost predicate Known(ages: Ages, p: nat)
  {
    p in ages.births && ages.births[p].serial < ages.clock && ages.births[p].turn <= ages.turns
  }

  ghost predicate InOrder(ages: Ages, p: nat, q: nat)
  {
    Known(ages, p) && Known(ages, q) && MetFirst(ages.births[p], ages.births[q], ages.turns)
  }

  ghost predicate ChainAged(s: seq<nat>, ages: Ages)
  {
    && (forall i :: 0 <= i < |s| ==> Known(ages, s[i]))
    && (forall i, j :: 0 <= i < j < |s| ==> InOrder(ages, s[i], s[j]))
  }

  ghost predicate Aged(chains: Chains, ages: Ages)
  {
    forall b :: 0 <= b < |chains| ==> ChainAged(chains[b], ages)
  }

  // ------------------------------------------------------------ what each operation keeps

  lemma PushAged(chains: Chains, ages: Ages, b: nat, p: nat)
    requires Aged(chains, ages) && b < |chains| && forall c :: 0 <= c < |chains| ==> p !in chains[c]
    ensures Aged(chains[b := [p] + chains[b]], Born(ages, p))
  {
    hide ChainAged;
    var after := chains[b := [p] + chains[b]];
    forall c | 0 <= c < |after| ensures ChainAged(after[c], Born(ages, p)) {
      BornAged(chains[c], ages, p);
      if c == b { FrontAged(chains[c], Born(ages, p), p); }
    }
  }

  lemma BornAged(s: seq<nat>, ages: Ages, p: nat)
    requires ChainAged(s, ages) && p !in s
    ensures ChainAged(s, Born(ages, p))
    ensures forall i :: 0 <= i < |s| ==> s[i] in Born(ages, p).births && Born(ages, p).births[s[i]].serial < ages.clock
  {
    forall i | 0 <= i < |s| ensures s[i] != p && Known(Born(ages, p), s[i]) { assert Known(ages, s[i]); }
    forall i, j | 0 <= i < j < |s| ensures InOrder(Born(ages, p), s[i], s[j]) { assert InOrder(ages, s[i], s[j]); }
  }

  lemma FrontAged(s: seq<nat>, ages: Ages, p: nat)
    requires ChainAged(s, ages) && Known(ages, p) && ages.births[p].turn == ages.turns
    requires forall i :: 0 <= i < |s| ==> s[i] in ages.births && ages.births[s[i]].serial < ages.births[p].serial
    ensures ChainAged([p] + s, ages)
  {
    var t := [p] + s;
    forall i, j | 0 <= i < j < |t| ensures InOrder(ages, t[i], t[j]) {
      assert t[j] == s[j - 1] && Known(ages, s[j - 1]);
      if i > 0 { assert InOrder(ages, s[i - 1], s[j - 1]); }
    }
  }

  lemma CutAged(chains: Chains, ages: Ages, b: nat, k: nat)
    requires Aged(chains, ages) && b < |chains| && k < |chains[b]|
    ensures Aged(chains[b := RemoveAt(chains[b], k)], ages)
  {
    var s, t := chains[b], RemoveAt(chains[b], k);
    assert ChainAged(s, ages);
    forall i, j | 0 <= i < j < |t| ensures InOrder(ages, t[i], t[j]) {
      assert InOrder(ages, s[if i < k then i else i + 1], s[if j < k then j else j + 1]);
    }
    forall i | 0 <= i < |t| ensures Known(ages, t[i]) { assert Known(ages, s[if i < k then i else i + 1]); }
  }

  lemma NoneAged(n: nat, ages: Ages)
    ensures Aged(seq(n, i => []), ages)
  {}

  // ------------------------------------------------------------ rehashing

  /** Where iteration meets a node is where it stands in its own chain. */
  lemma PlaceOf(chains: Chains, home: map<nat, nat>, x: nat) returns (b: nat, j: nat)
    requires Sorted(chains, home) && x < |Flat(chains)|
    ensures Flat(chains)[x] in home && home[Flat(chains)[x]] == b < |chains| && j < |chains[b]|
    ensures chains[b][j] == Flat(chains)[x] && Before(chains, b) + j == x
  {
    hide Flat;
    var p := Flat(chains)[x];
    assert p in Flat(chains);
    FlatOnce(chains, home);
    b := home[p];
    assert p in chains[b];
    j :| 0 <= j < |chains[b]| && chains[b][j] == p;
    FlatAt(chains, b, j);
  }

  /** Nodes that end in one bucket were in one bucket before. */
  ghost predicate Finer(home: map<nat, nat>, home': map<nat, nat>)
  {
    && home.Keys == home'.Keys
    && forall p, q :: p in home && q in home && home'[p] == home'[q] ==> home[p] == home[q]
  }

  lemma SpreadAged(chains: Chains, ages: Ages, home: map<nat, nat>, home': map<nat, nat>, n: nat)
    requires Aged(chains, ages) && Sorted(chains, home) && Finer(home, home')
    requires Sorted(Spread(Flat(chains), home', n), home')
    ensures Aged(Spread(Flat(chains), home', n), ages.(turns := ages.turns + 1))
  {
    hide Flat, Spread, InOrder, Known;
    var after, ages' := Spread(Flat(chains), home', n), ages.(turns := ages.turns + 1);
    forall b | 0 <= b < |after| ensures ChainAged(after[b], ages') {
      var s := after[b];
      forall i, j | 0 <= i < j < |s| ensures InOrder(ages', s[i], s[j]) {
        PairTurned(chains, ages, home, home', n, b, i, j);
      }
      forall i | 0 <= i < |s| ensures Known(ages', s[i]) { NodeKnown(chains, ages, home, home', n, b, i); }
    }
  }

  lemma NodeKnown(chains: Chains, ages: Ages, home: map<nat, nat>, home': map<nat, nat>, n: nat, b: nat, i: nat)
    requires Aged(chains, ages) && Sorted(chains, home) && Finer(home, home')
    requires Sorted(Spread(Flat(chains), home', n), home') && b < n && i < |Spread(Flat(chains), home', n)[b]|
    ensures Known(ages.(turns := ages.turns + 1), Spread(Flat(chains), home', n)[b][i])
  {
    hide Flat, Spread;
    var x := OldPlace(chains, home, home', n, b, i);
    var c, k := PlaceOf(chains, home, x);
    assert ChainAged(chains[c], ages) && Known(ages, chains[c][k]);
  }

  /** A node of the new table stood somewhere in the old order. */
  lemma OldPlace(chains: Chains, home: map<nat, nat>, home': map<nat, nat>, n: nat, b: nat, i: nat) returns (x: nat)
    requires Sorted(chains, home) && home.Keys == home'.Keys
    requires Sorted(Spread(Flat(chains), home', n), home') && b < n && i < |Spread(Flat(chains), home', n)[b]|
    ensures x < |Flat(chains)| && Flat(chains)[x] == Spread(Flat(chains), home', n)[b][i]
    ensures Flat(chains)[x] in home' && home'[Flat(chains)[x]] == b
  {
    hide Flat, Spread;
    var p := Spread(Flat(chains), home', n)[b][i];
    assert p in Spread(Flat(chains), home', n)[b];
    FlatOnce(chains, home);
    assert p in home' && p in home.Keys;
    x :| 0 <= x < |Flat(chains)| && Flat(chains)[x] == p;
  }

  lemma PairTurned(chains: Chains, ages: Ages, home: map<nat, nat>, home': map<nat, nat>, n: nat, b: nat, i: nat,
                   j: nat)
    requires Aged(chains, ages) && Sorted(chains, home) && Finer(home, home')
    requires Sorted(Spread(Flat(chains), home', n), home') && b < n && i < j < |Spread(Flat(chains), home', n)[b]|
    ensures var s := Spread(Flat(chains), home', n)[b]; InOrder(ages.(turns := ages.turns + 1), s[i], s[j])
  {
    hide Flat, Spread, MetFirst;
    var s := Spread(Flat(chains), home', n)[b];
    var x := OldPlace(chains, home, home', n, b, i);
    var y := OldPlace(chains, home, home', n, b, j);
    NewIsReversed(chains, home', n, b, i, j, x, y);
    var c, k := PlaceOf(chains, home, x);
    var d, l := PlaceOf(chains, home, y);
    assert c == d && l < k;
    assert ChainAged(chains[c], ages) && InOrder(ages, chains[c][l], chains[c][k]);
    TurnAround(ages.births[s[i]], ages.births[s[j]], ages.turns);
  }

  lemma NewIsReversed(chains: Chains, home': map<nat, nat>, n: nat, b: nat, i: nat, j: nat, x: nat, y: nat)
    requires Sorted(Spread(Flat(chains), home', n), home') && b < n && i < j < |Spread(Flat(chains), home', n)[b]|
    requires x < |Flat(chains)| && y < |Flat(chains)|
    requires var f, s := Flat(chains), Spread(Flat(chains), home', n)[b];
             f[x] == s[i] && f[y] == s[j] && f[x] in home' && f[y] in home' && home'[f[x]] == home'[f[y]] == b
    ensures y < x
  {
    hide Flat, Spread;
    var s := Spread(Flat(chains), home', n)[b];
    assert Distinct(s);
    if x < y {
      var u, v := SpreadTurnsAround(Flat(chains), home', n, x, y);
    }
  }

  // ------------------------------------------------------------ what iteration shows

  /** Of two nodes in one bucket, the one inserted later is met first exactly when the number
      of rehashes since its insertion is even. */
  lemma LaterMetFirst(chains: Chains, ages: Ages, home: map<nat, nat>, x: nat, y: nat)
    requires Aged(chains, ages) && Sorted(chains, home) && x < |Flat(chains)| && y < |Flat(chains)|
    requires var a, b := Flat(chains)[x], Flat(chains)[y];
             && a in home && b in home && home[a] == home[b]
             && a in ages.births && b in ages.births && ages.births[a].serial < ages.births[b].serial
    ensures y < x <==> (ages.turns - ages.births[Flat(chains)[y]].turn) % 2 == 0
  {
    hide Flat;
    var c, k := PlaceOf(chains, home, x);
    var d, l := PlaceOf(chains, home, y);
    assert ChainAged(chains[c], ages);
    if y < x {
      assert InOrder(ages, chains[c][l], chains[c][k]);
    } else {
      assert InOrder(ages, chains[c][k], chains[c][l]);
    }
  }
}
