/** `kstd::unordered_map` of libkxx/include/kstd/unordered_map.hpp: separate chaining over a
    power-of-two bucket array.  Node memory is the pair of maps `entries` and `links`, from
    a node's address to its key and value and to the next node of its chain. */
module HashMap {
  import opened Bits
  import opened HashChains
  import opened HashOrder
  import opened Sequences

  const INITIAL_BUCKETS: nat := 8

  datatype Entry<K, V> = Entry(key: K, value: V)

  type Nodes<K, V> = map<nat, Entry<K, V>>

  ghost predicate UniqueKeys<K(!new), V(!new)>(e: Nodes<K, V>)
  {
    forall p, q :: p in e && q in e && e[p].key == e[q].key ==> p == q
  }

  /** `bucket_index` */
  function Index<K>(hash: K -> nat, key: K, count: nat): nat
  {
    if count == 0 then 0 else And(hash(key), count - 1)
  }

  ghost function Home<K, V>(e: Nodes<K, V>, hash: K -> nat, count: nat): map<nat, nat>
  {
    map p | p in e :: Index(hash, e[p].key, count)
  }

  /** Node `p` holds key `k`. */
  ghost predicate Holds<K(!new), V(!new)>(e: Nodes<K, V>, k: K, p: nat) { p in e && e[p].key == k }

  /** The nodes stand for the finite map `v`: one node for each key, with its value. */
  ghost predicate Shows<K(!new), V(!new)>(e: Nodes<K, V>, v: map<K, V>)
  {
    && UniqueKeys(e)
    && (forall p :: p in e ==> e[p].key in v && v[e[p].key] == e[p].value)
    && (forall k :: k in v ==> exists p :: Holds(e, k, p))
  }

  lemma ShowsLacks<K(!new), V(!new)>(e: Nodes<K, V>, v: map<K, V>, key: K)
    requires Shows(e, v)
    ensures key !in v <==> forall p :: p in e ==> e[p].key != key
  {
    if key in v { var p :| Holds(e, key, p); }
  }

  lemma ShowsAdd<K(!new), V(!new)>(e: Nodes<K, V>, v: map<K, V>, p: nat, x: Entry<K, V>)
    requires Shows(e, v) && p !in e && x.key !in v
    ensures Shows(e[p := x], v[x.key := x.value])
  {
    ShowsLacks(e, v, x.key);
    var e', v' := e[p := x], v[x.key := x.value];
    forall k | k in v' ensures exists q :: Holds(e', k, q) {
      if k == x.key {
        assert Holds(e', k, p);
      } else {
        var q :| Holds(e, k, q);
        assert Holds(e', k, q);
      }
    }
  }

  lemma ShowsDrop<K(!new), V(!new)>(e: Nodes<K, V>, v: map<K, V>, p: nat)
    requires Shows(e, v) && p in e
    ensures Shows(e - {p}, v - {e[p].key})
  {
    var e', v' := e - {p}, v - {e[p].key};
    forall k | k in v' ensures exists q :: Holds(e', k, q) {
      var q :| Holds(e, k, q);
      assert Holds(e', k, q);
    }
  }

  /** How many nodes there are is how many keys there are. */
  lemma {:induction false} ShowsSize<K(!new), V(!new)>(e: Nodes<K, V>, v: map<K, V>)
    requires Shows(e, v)
    ensures |v| == |e|
    decreases |e|
  {
    if p :| p in e {
      var k := e[p].key;
      ShowsDrop(e, v, p);
      hide Shows;
      assert (e - {p}).Keys == e.Keys - {p} && |e - {p}| == |(e - {p}).Keys| && |e| == |e.Keys|;
      assert (v - {k}).Keys == v.Keys - {k} && |v - {k}| == |(v - {k}).Keys| && |v| == |v.Keys|;
      ShowsSize(e - {p}, v - {k});
    } else {
      assert v.Keys == {} && e.Keys == {};
    }
  }

  /** With a power of two of buckets the mask is the remainder, and always a bucket. */
  lemma IndexInRange<K>(hash: K -> nat, key: K, lg: nat)
    ensures Index(hash, key, Pow2(lg)) == hash(key) % Pow2(lg) < Pow2(lg)
  {
    MaskIsMod(hash(key), lg);
  }

  /** Every node of the table is in the chain its hash selects. */
  lemma NodeInChain<K(!new), V(!new)>(e: Nodes<K, V>, hash: K -> nat, chains: Chains, p: nat)
    requires Sorted(chains, Home(e, hash, |chains|)) && p in e
    ensures Index(hash, e[p].key, |chains|) < |chains| && p in chains[Index(hash, e[p].key, |chains|)]
  {
    var home := Home(e, hash, |chains|);
    assert p in home && home[p] == Index(hash, e[p].key, |chains|);
  }

  lemma ChainNode<K(!new), V(!new)>(e: Nodes<K, V>, hash: K -> nat, chains: Chains, b: nat, j: nat)
    requires Sorted(chains, Home(e, hash, |chains|)) && b < |chains| && j < |chains[b]|
    ensures chains[b][j] in e && Index(hash, e[chains[b][j]].key, |chains|) == b
  {
    var p := chains[b][j];
    assert p in chains[b];
    assert p in Home(e, hash, |chains|) && Home(e, hash, |chains|)[p] == b;
  }

  /** What walking chain `b` meets. */
  ghost predicate Chain<K(!new), V(!new)>(e: Nodes<K, V>, links: map<nat, nat>, head: nat, s: seq<nat>)
  {
    && head == Nth(s, 0)
    && (forall j :: 0 <= j < |s| ==> s[j] != 0 && s[j] in e && s[j] in links && links[s[j]] == Nth(s, j + 1))
  }

  lemma ChainAt<K(!new), V(!new)>(e: Nodes<K, V>, hash: K -> nat, links: map<nat, nat>, heads: seq<nat>,
                                  chains: Chains, b: nat)
    requires Sorted(chains, Home(e, hash, |chains|)) && AllThreaded(links, heads, chains) && b < |chains|
    ensures Chain(e, links, heads[b], chains[b])
  {
    assert Threads(links, heads[b], chains[b]);
    hide Sorted, Home;
    forall j | 0 <= j < |chains[b]| ensures chains[b][j] in e { ChainNode(e, hash, chains, b, j); }
  }

  lemma Absent<K(!new), V(!new)>(e: Nodes<K, V>, v: map<K, V>, hash: K -> nat, chains: Chains, key: K)
    requires Sorted(chains, Home(e, hash, |chains|)) && Shows(e, v)
    requires var b := Index(hash, key, |chains|);
             b < |chains| ==> forall j :: 0 <= j < |chains[b]| ==> chains[b][j] in e && e[chains[b][j]].key != key
    ensures key !in v
  {
    hide Sorted, Home, Index;
    forall p | p in e ensures e[p].key != key { NodeInChain(e, hash, chains, p); }
    ShowsLacks(e, v, key);
  }

  lemma ShowsHas<K(!new), V(!new)>(e: Nodes<K, V>, v: map<K, V>, p: nat)
    requires Shows(e, v) && p in e
    ensures e[p].key in v && v[e[p].key] == e[p].value
  {}

  /** The first `done` nodes of `order` sit in the new chains; the others' links are as they were. */
  ghost predicate Moving(links: map<nat, nat>, was: map<nat, nat>, home: map<nat, nat>, order: seq<nat>, done: nat,
                         table: seq<nat>, chains: Chains)
  {
    && done <= |order| && links.Keys == was.Keys && |table| == |chains| && AllThreaded(links, table, chains)
    && chains == Spread(order[..done], home, |table|) && Sorted(chains, Sub(home, order[..done]))
    && (forall i :: done <= i < |order| ==> order[i] in was && order[i] in links && links[order[i]] == was[order[i]])
  }

  lemma MovingStep(links: map<nat, nat>, was: map<nat, nat>, home: map<nat, nat>, order: seq<nat>, done: nat,
                   table: seq<nat>, chains: Chains)
    requires Moving(links, was, home, order, done, table, chains) && done < |order| && Distinct(order)
    requires order[done] != 0 && order[done] in home && home[order[done]] < |table| && order[done] in was
    ensures order[done] in links && links[order[done]] == was[order[done]] && |table| == |chains|
    ensures var p, b := order[done], home[order[done]];
            Moving(links[p := table[b]], was, home, order, done + 1, table[b := p], chains[b := [p] + chains[b]])
  {
    hide Spread, Sorted, AllThreaded, Sub;
    var p, b := order[done], home[order[done]];
    SpreadStep(order, done, home, |table|);
    FreshNode(home, order, done);
    PushSorted(chains, Sub(home, order[..done]), b, p);
    PushThreaded(links, table, chains, b, p);
    LinksAhead(links, was, order, done, p, table[b]);
  }

  lemma MovingStart(was: map<nat, nat>, home: map<nat, nat>, order: seq<nat>, n: nat)
    requires forall p :: p in order ==> p in was
    ensures Moving(was, was, home, order, 0, seq(n, i => 0), Spread([], home, n))
  {
    SpreadNone(home, n, was);
    assert order[..0] == [];
    forall i | 0 <= i < |order| ensures order[i] in was { assert order[i] in order; }
  }

  lemma MovingDone(links: map<nat, nat>, was: map<nat, nat>, home: map<nat, nat>, order: seq<nat>, table: seq<nat>,
                   chains: Chains)
    requires Moving(links, was, home, order, |order|, table, chains) && forall p :: p in order <==> p in home
    ensures links.Keys == was.Keys && |table| == |chains| && AllThreaded(links, table, chains)
    ensures Sorted(chains, home) && chains == Spread(order, home, |table|)
  {
    assert order[..|order|] == order;
    assert Sub(home, order) == home;
    hide Sorted, AllThreaded, Spread;
  }

  lemma HomeIs<K(!new), V(!new)>(e: Nodes<K, V>, hash: K -> nat, n: nat)
    ensures (forall p :: p in Home(e, hash, n) <==> p in e) && forall p :: p in e ==>
              Home(e, hash, n)[p] == Index(hash, e[p].key, n)
  {}

  lemma LinksAhead(links: map<nat, nat>, was: map<nat, nat>, order: seq<nat>, done: nat, p: nat, x: nat)
    requires done < |order| && p == order[done] && Distinct(order)
    requires forall i :: done <= i < |order| ==>
              order[i] in was && order[i] in links && links[order[i]] == was[order[i]]
    ensures forall i :: done + 1 <= i < |order| ==>
              order[i] in was && order[i] in links[p := x] && links[p := x][order[i]] == was[order[i]]
    ensures p in links
  {}

  lemma FreshNode(home: map<nat, nat>, order: seq<nat>, done: nat)
    requires Distinct(order) && done < |order|
    ensures order[done] !in Sub(home, order[..done])
  {}

  lemma UnlinkKeeps<K(!new), V(!new)>(e: Nodes<K, V>, v: map<K, V>, hash: K -> nat, links: map<nat, nat>,
                                      heads: seq<nat>,
                                      chains: Chains, b: nat, j: nat)
    requires Shows(e, v) && AllThreaded(links, heads, chains)
    requires Sorted(chains, Home(e, hash, |chains|)) && links.Keys == e.Keys
    requires b < |chains| && j < |chains[b]|
    ensures var s, p, prev := chains[b], chains[b][j], if j == 0 then 0 else chains[b][j - 1];
            && p in e && p in links && (prev == 0 <==> j == 0) && (j > 0 ==> prev in links)
            && |e - {p}| == |e| - 1 && Shows(e - {p}, v - {e[p].key})
            && Sorted(chains[b := RemoveAt(s, j)], Home(e - {p}, hash, |chains|))
            && AllThreaded((if prev == 0 then links else links[prev := links[p]]) - {p},
                           if prev == 0 then heads[b := links[p]] else heads, chains[b := RemoveAt(s, j)])
  {
    hide Sorted, Shows, Home, RemoveAt;
    ChainAt(e, hash, links, heads, chains, b);
    hide AllThreaded;
    var p := chains[b][j];
    HomeDrop(e, hash, |chains|, p);
    CutSorted(chains, Home(e, hash, |chains|), b, j);
    CutThreaded(links, heads, chains, Home(e, hash, |chains|), b, j);
    ShowsDrop(e, v, p);
    assert (e - {p}).Keys == e.Keys - {p} && |e| == |e.Keys| && |e - {p}| == |(e - {p}).Keys|;
  }

  /** Iteration meets each key of the map exactly once. */
  lemma IterationVisitsAll<K(!new), V(!new)>(e: Nodes<K, V>, v: map<K, V>, hash: K -> nat, chains: Chains)
    requires Shows(e, v) && Sorted(chains, Home(e, hash, |chains|))
    ensures Distinct(Flat(chains)) && |Flat(chains)| == |v| && (forall p :: p in Flat(chains) <==> p in e)
    ensures forall k :: k in v <==> exists p :: p in Flat(chains) && Holds(e, k, p)
  {
    FlatOnce(chains, Home(e, hash, |chains|));
    HomeIs(e, hash, |chains|);
    assert Home(e, hash, |chains|).Keys == e.Keys;
    ShowsSize(e, v);
    hide Flat, Distinct, Home, Sorted;
  }

  class UnorderedMap<K(==,!new), V(!new)> {
    const hash: K -> nat
    var entries: Nodes<K, V>
    var links: map<nat, nat>
    var buckets: seq<nat>
    var size: nat
    ghost var chains: Chains
    ghost var lg: nat          // the bucket count is 2^lg, unless it is 0
    ghost var view: map<K, V>
    ghost var ages: Ages

    ghost predicate Buckets()
      reads this`buckets, this`chains, this`lg, this`entries
    {
      |buckets| == |chains| && if |buckets| == 0 then entries == map[] else lg >= 3 && |buckets| == Pow2(lg)
    }

    ghost predicate Stored()
      reads this`entries, this`links, this`buckets, this`chains
    {
      && links.Keys == entries.Keys && |buckets| == |chains| && AllThreaded(links, buckets, chains)
      && Sorted(chains, Home(entries, hash, |chains|))
    }

    ghost predicate Valid()
      reads this
    {
      && Buckets() && Stored() && Shows(entries, view) && size == |entries| && size <= |buckets|
      && Aged(chains, ages)
    }

    constructor (hash: K -> nat)
      ensures Valid() && view == map[] && entries == map[] && buckets == [] && this.hash == hash
    {
      this.hash := hash;
      entries, links, buckets, size := map[], map[], [], 0;
      chains, lg, view, ages := [], 0, map[], Ages(map[], 0, 0);
    }

    /** The walk along one chain that `find`, `operator[]`, `emplace` and `erase` share. */
    method Walk(key: K) returns (previous: nat, node: nat, ghost j: nat)
      requires Valid() && |buckets| > 0
      ensures Index(hash, key, |buckets|) < |chains| && j <= |chains[Index(hash, key, |buckets|)]|
      ensures var s := chains[Index(hash, key, |buckets|)];
              node == Nth(s, j) && (j < |s| ==> previous == if j == 0 then 0 else s[j - 1])
              && (node == 0 <==> j == |s|) && (node == 0 <==> key !in view)
      ensures node != 0 ==> node in entries && entries[node].key == key && view[key] == entries[node].value
    {
      hide Sorted, AllThreaded, Index, Shows, Home, Aged;
      var b := Index(hash, key, |buckets|);
      IndexInRange(hash, key, lg);
      ghost var s := chains[b];
      ChainAt(entries, hash, links, buckets, chains, b);
      previous, node, j := 0, buckets[b], 0;
      while node != 0
        invariant j <= |s| && node == Nth(s, j) && (j < |s| ==> previous == if j == 0 then 0 else s[j - 1])
        invariant forall i :: 0 <= i < j ==> entries[s[i]].key != key
        decreases |s| - j
      {
        if entries[node].key == key {
          ShowsHas(entries, view, node);
          return;
        }
        previous := node;
        node := links[node];
        j := j + 1;
      }
      Absent(entries, view, hash, chains, key);
    }

    /** The inner loop of `reserve_buckets`: the nodes of bucket `i` move, first to last. */
    method MoveChain(i: nat, n: nat, before: seq<nat>, ghost was: map<nat, nat>, ghost was': Chains)
      returns (table: seq<nat>, ghost spread: Chains)
      requires i < |buckets| == |chains| && |before| == n
      requires Chain(entries, was, buckets[i], chains[i]) && Distinct(Flat(chains))
      requires forall p :: p in entries ==> Index(hash, entries[p].key, n) < n
      requires Moving(links, was, Home(entries, hash, n), Flat(chains), Before(chains, i), before, was')
      modifies this`links
      ensures |table| == n
      ensures Moving(links, was, Home(entries, hash, n), Flat(chains), Before(chains, i + 1), table, spread)
    {
      hide Index, Home, Moving, Flat, Distinct;
      HomeIs(entries, hash, n);
      BeforeStep(chains, i);
      table, spread := before, was';
      var node := buckets[i];
      ghost var j := 0;
      while node != 0
        invariant j <= |chains[i]| && node == Nth(chains[i], j) && |table| == n
        invariant Moving(links, was, Home(entries, hash, n), Flat(chains), Before(chains, i) + j, table, spread)
        decreases |chains[i]| - j
      {
        FlatAt(chains, i, j);
        MovingStep(links, was, Home(entries, hash, n), Flat(chains), Before(chains, i) + j, table, spread);
        var next := links[node];
        var index := Index(hash, entries[node].key, n);
        links := links[node := table[index]];
        table := table[index := node];
        spread := spread[index := [node] + spread[index]];
        node := next;
        j := j + 1;
      }
    }

    /** The two loops of `reserve_buckets`: every node moves, in iteration order, to the
        front of its new chain. */
    method Rehash(n: nat) returns (table: seq<nat>, ghost spread: Chains)
      requires Stored() && forall p :: p in entries ==> Index(hash, entries[p].key, n) < n
      modifies this`links
      ensures links.Keys == entries.Keys && |table| == |spread| == n && AllThreaded(links, table, spread)
      ensures Sorted(spread, Home(entries, hash, n)) && spread == Spread(Flat(chains), Home(entries, hash, n), n)
    {
      hide Sorted, AllThreaded, Index, Home, Moving, Flat, Distinct, Spread, Chain;
      ghost var was, home, order := links, Home(entries, hash, n), Flat(chains);
      FlatOnce(chains, Home(entries, hash, |chains|));
      HomeIs(entries, hash, |chains|);
      HomeIs(entries, hash, n);
      table := seq(n, i => 0);
      spread := Spread([], home, n);
      MovingStart(was, home, order, n);
      BeforeAll(chains);
      var i := 0;
      while i < |buckets|
        invariant i <= |buckets| && Moving(links, was, home, order, Before(chains, i), table, spread) && |table| == n
      {
        ChainAt(entries, hash, was, buckets, chains, i);
        table, spread := MoveChain(i, n, table, was, spread);
        i := i + 1;
      }
      MovingDone(links, was, home, order, table, spread);
    }

    /** `reserve_buckets`; the table only ever grows. */
    method ReserveBuckets(count: nat, ghost e: nat)
      requires Valid() && (count == 0 || count == Pow2(e))
      modifies this`links, this`buckets, this`chains, this`lg, this`ages
      ensures Valid() && ages == Grown(old(ages), |old(buckets)|, |buckets|)
      ensures |buckets| == Max(|old(buckets)|, Max(count, 8))
      ensures |buckets| == |old(buckets)| ==> chains == old(chains) && buckets == old(buckets)
      ensures |buckets| > |old(buckets)| ==>
                chains == Spread(Flat(old(chains)), Home(entries, hash, |buckets|), |buckets|)
    {
      hide Sorted, AllThreaded, Index, Home, Flat, Spread, Shows, Aged, Pow2;
      var n := if count < INITIAL_BUCKETS then INITIAL_BUCKETS else count;
      if n <= |buckets| {
        return;
      }
      ghost var g := if count < INITIAL_BUCKETS then 3 else e;
      EightIsPower();
      PowerAtLeast(g);
      forall p | p in entries ensures Index(hash, entries[p].key, n) < n { IndexInRange(hash, entries[p].key, g); }
      var table: seq<nat>;
      ghost var spread: Chains;
      table, spread := Rehash(n);
      HomesFiner(entries, hash, |chains|, lg, g);
      SpreadAged(chains, ages, Home(entries, hash, |chains|), Home(entries, hash, n), n);
      ages := Grown(ages, |buckets|, n);
      buckets, chains, lg := table, spread, g;
    }

    /** `ensure_capacity`: room for one more entry at a load of at most one. */
    method EnsureCapacity()
      requires Valid()
      modifies this`links, this`buckets, this`chains, this`lg, this`ages
      ensures Valid() && size + 1 <= |buckets|
      ensures |buckets| == if old(buckets) == [] then 8
                           else if size + 1 > |old(buckets)| then 2 * |old(buckets)| else |old(buckets)|
      ensures ages == Grown(old(ages), |old(buckets)|, |buckets|)
      ensures size + 1 <= |old(buckets)| ==> chains == old(chains)
      ensures size + 1 > |old(buckets)| ==>
                chains == Spread(Flat(old(chains)), Home(entries, hash, |buckets|), |buckets|)
    {
      hide Stored, Shows, Pow2, Spread, Flat, Home, Aged;
      EightIsPower();
      if |buckets| == 0 {
        ReserveBuckets(INITIAL_BUCKETS, 3);
      } else if size + 1 > |buckets| {
        DoublePower(lg);
        Pow2Mono(3, lg);
        ReserveBuckets(|buckets| * 2, lg + 1);
      }
    }

    /** `insert_node`, with the address the allocator returned. */
    method InsertNode(key: K, value: V, at: nat)
      requires Valid() && size + 1 <= |buckets| && key !in view && at != 0 && at !in entries
      modifies this`entries, this`links, this`buckets, this`size, this`chains, this`view, this`ages
      ensures Valid() && ages == Born(old(ages), at) && view == old(view)[key := value]
      ensures entries == old(entries)[at := Entry(key, value)]
      ensures |buckets| == |old(buckets)| && size == old(size) + 1
      ensures var b := Index(hash, key, |buckets|);
              b < |old(chains)| && chains == old(chains)[b := [at] + old(chains)[b]]
    {
      hide Sorted, AllThreaded, Index, Shows, Home, Aged, Born, Pow2;
      var b := Index(hash, key, |buckets|);
      IndexInRange(hash, key, lg);
      InsertStored(entries, hash, links, buckets, chains, at, Entry(key, value));
      PushAged(chains, ages, b, at);
      ShowsAdd(entries, view, at, Entry(key, value));
      KeysAdd(links, entries, at, buckets[b], Entry(key, value));
      entries := entries[at := Entry(key, value)];
      links := links[at := buckets[b]];
      buckets := buckets[b := at];
      size := size + 1;
      chains := chains[b := [at] + chains[b]];
      view := view[key := value];
      ages := Born(ages, at);
    }

    /** `emplace`, and `operator[]` with the default value: the key's node, new if it had none. */
    method Emplace(key: K, value: V, at: nat) returns (node: nat, inserted: bool)
      requires Valid() && at != 0 && at !in entries
      modifies this`entries, this`links, this`buckets, this`size, this`chains, this`view, this`lg, this`ages
      ensures Valid() && (inserted <==> key !in old(view))
      ensures view == if inserted then old(view)[key := value] else old(view)
      ensures node in entries && entries[node].key == key && entries[node].value == view[key]
      ensures entries == if inserted then old(entries)[node := Entry(key, value)] else old(entries)
      ensures |buckets| == if old(buckets) == [] then 8
                           else if old(size) + 1 > |old(buckets)| then 2 * |old(buckets)| else |old(buckets)|
      ensures size == old(size) + if inserted then 1 else 0
      ensures var grown := Grown(old(ages), |old(buckets)|, |buckets|);
              ages == if inserted then Born(grown, node) else grown
      ensures inserted ==> node == at
    {
      hide Stored, Shows, Index, Buckets, Aged, Born, Grown;
      EnsureCapacity();
      ghost var j: nat;
      var previous: nat;
      previous, node, j := Walk(key);
      if node != 0 {
        return node, false;
      }
      InsertNode(key, value, at);
      return at, true;
    }

    /** `find` */
    method Find(key: K) returns (node: nat)
      requires Valid()
      ensures node != 0 <==> key in view
      ensures node != 0 ==> node in entries && entries[node].key == key && entries[node].value == view[key]
    {
      if |buckets| == 0 {
        ShowsLacks(entries, view, key);
        return 0;
      }
      var previous: nat;
      ghost var j: nat;
      previous, node, j := Walk(key);
    }

    /** Taking node `j` of chain `b` out, and giving its memory back. */
    method Relink(b: nat, ghost j: nat, previous: nat, node: nat)
      requires Stored() && Shows(entries, view) && b < |chains| && j < |chains[b]|
      requires node == chains[b][j] && previous == if j == 0 then 0 else chains[b][j - 1]
      modifies this`entries, this`links, this`buckets, this`chains
      ensures Stored() && node in old(entries) && entries == old(entries) - {node} && |entries| == |old(entries)| - 1
      ensures Shows(entries, view - {old(entries)[node].key})
      ensures chains == old(chains)[b := RemoveAt(old(chains)[b], j)] && |buckets| == |old(buckets)|
    {
      hide Sorted, AllThreaded, Index, Shows, Home, RemoveAt;
      UnlinkKeeps(entries, view, hash, links, buckets, chains, b, j);
      if previous == 0 {
        buckets := buckets[b := links[node]];
      } else {
        links := links[previous := links[node]];
      }
      entries := entries - {node};
      links := links - {node};
      chains := chains[b := RemoveAt(chains[b], j)];
    }

    method Unlink(b: nat, ghost j: nat, previous: nat, node: nat)
      requires Valid() && b < |chains| && j < |chains[b]|
      requires node == chains[b][j] && previous == if j == 0 then 0 else chains[b][j - 1]
      modifies this`entries, this`links, this`buckets, this`size, this`chains, this`view
      ensures Valid() && node in old(entries) && view == old(view) - {old(entries)[node].key}
      ensures entries == old(entries) - {node}
      ensures chains == old(chains)[b := RemoveAt(old(chains)[b], j)] && size + 1 == old(size)
    {
      hide Stored, Shows, RemoveAt, Pow2, Aged;
      ghost var was := entries;
      CutAged(chains, ages, b, j);
      Relink(b, j, previous, node);
      size := size - 1;
      view := view - {was[node].key};
    }

    /** `erase` by key */
    method Erase(key: K) returns (erased: nat)
      requires Valid()
      modifies this`entries, this`links, this`buckets, this`size, this`chains, this`view
      ensures Valid() && erased == (if key in old(view) then 1 else 0) && view == old(view) - {key}
      ensures |buckets| == |old(buckets)| && size + erased == old(size)
      ensures erased == 0 ==> chains == old(chains) && entries == old(entries)
      ensures erased == 1 ==> exists b: nat, j: nat ::
                && b < |old(chains)| && j < |old(chains)[b]| && old(chains)[b][j] in old(entries)
                && old(entries)[old(chains)[b][j]].key == key
                && chains == old(chains)[b := RemoveAt(old(chains)[b], j)]
                && entries == old(entries) - {old(chains)[b][j]}
    {
      hide Sorted, AllThreaded, Index, Shows, Home, RemoveAt, CutLinks, Aged;
      if |buckets| == 0 {
        ShowsLacks(entries, view, key);
        return 0;
      }
      var previous: nat, node: nat;
      ghost var j: nat;
      previous, node, j := Walk(key);
      if node == 0 {
        return 0;
      }
      var b := Index(hash, key, |buckets|);
      Unlink(b, j, previous, node);
      return 1;
    }

    /** From bucket `b` on, the first node there is: the loop of `begin` and of `operator++`. */
    method FirstFrom(b: nat) returns (it: Iterator)
      requires Valid() && b <= |buckets|
      ensures Points(chains, it, Before(chains, b))
    {
      hide Sorted, AllThreaded, Home, Shows, Flat, Aged;
      BeforeAll(chains);
      var c := b;
      while c != |buckets| && buckets[c] == 0
        invariant b <= c <= |buckets| && Before(chains, c) == Before(chains, b)
      {
        ChainAt(entries, hash, links, buckets, chains, c);
        BeforeStep(chains, c);
        c := c + 1;
      }
      if c == |buckets| {
        return Iterator(c, 0);
      }
      ChainAt(entries, hash, links, buckets, chains, c);
      FlatAt(chains, c, 0);
      return Iterator(c, buckets[c]);
    }

    /** `begin` */
    method Begin() returns (it: Iterator)
      requires Valid()
      ensures Points(chains, it, 0)
    {
      BeforeAll(chains);
      if |buckets| == 0 {
        return Iterator(0, 0);
      }
      it := FirstFrom(0);
    }

    /** `operator++` */
    method Advance(it: Iterator, ghost j: nat) returns (next: Iterator)
      requires Valid() && j < |Flat(chains)| && Points(chains, it, j)
      ensures Points(chains, next, j + 1)
    {
      hide Sorted, AllThreaded, Home, Shows, Flat, Aged;
      ghost var b, q := it.bucket, j - Before(chains, it.bucket);
      ChainAt(entries, hash, links, buckets, chains, it.bucket);
      BeforeStep(chains, it.bucket);
      FlatAt(chains, b, q);
      var node := links[it.node];
      if node != 0 {
        FlatAt(chains, b, q + 1);
        return Iterator(it.bucket, node);
      }
      next := FirstFrom(it.bucket + 1);
    }

    /** `erase` by position: what is returned is where iteration goes on, and the rest of
        the order is untouched. */
    method EraseAt(it: Iterator, ghost j: nat) returns (next: Iterator)
      requires Valid() && j < |Flat(chains)| && Points(chains, it, j)
      modifies this`entries, this`links, this`buckets, this`size, this`chains, this`view
      ensures Valid() && it.node in old(entries) && entries == old(entries) - {it.node}
      ensures view == old(view) - {old(entries)[it.node].key}
      ensures Flat(chains) == RemoveAt(Flat(old(chains)), j) && Points(chains, next, j)
    {
      hide Sorted, AllThreaded, Home, Shows, Flat, Index, RemoveAt, Pow2, Aged;
      ghost var was, c, q := chains, it.bucket, j - Before(chains, it.bucket);
      BeforeStep(chains, it.bucket);
      FlatAt(chains, it.bucket, q);
      ChainNode(entries, hash, chains, it.bucket, q);
      ShowsHas(entries, view, it.node);
      next := Advance(it, j);
      var e := Erase(entries[it.node].key);
      ghost var b': nat, j': nat :| b' < |was| && j' < |was[b']| && was[b'][j'] in old(entries)
        && old(entries)[was[b'][j']].key == old(entries)[it.node].key
        && chains == was[b' := RemoveAt(was[b'], j')] && entries == old(entries) - {was[b'][j']};
      SameNode(old(entries), old(view), hash, was, it.bucket, q, b', j');
      CutOrder(was, it.bucket, q);
      CutPoints(was, next, it.bucket, q);
    }

    /** The inner loop of `clear`. */
    method ClearChain(i: nat, ghost was: map<nat, nat>, ghost all: Nodes<K, V>)
      requires i < |buckets| == |chains| && Chain(all, was, buckets[i], chains[i]) && Distinct(Flat(chains))
      requires Clearing(entries.Keys, links, was, Flat(chains), Before(chains, i))
      modifies this`entries, this`links
      ensures Clearing(entries.Keys, links, was, Flat(chains), Before(chains, i + 1))
    {
      hide Clearing, Flat, Distinct;
      BeforeStep(chains, i);
      var node := buckets[i];
      ghost var j := 0;
      while node != 0
        invariant j <= |chains[i]| && node == Nth(chains[i], j)
        invariant Clearing(entries.Keys, links, was, Flat(chains), Before(chains, i) + j)
        decreases |chains[i]| - j
      {
        FlatAt(chains, i, j);
        ClearingStep(entries.Keys, links, was, Flat(chains), Before(chains, i) + j);
        var next := links[node];
        assert (entries - {node}).Keys == entries.Keys - {node};
        entries := entries - {node};
        links := links - {node};
        node := next;
        j := j + 1;
      }
    }

    /** `clear`: every node is given back, the buckets stay. */
    method Clear()
      requires Valid()
      modifies this`entries, this`links, this`buckets, this`size, this`chains, this`view
      ensures Valid() && view == map[] && entries == map[] && size == 0 && |buckets| == |old(buckets)|
    {
      hide Sorted, AllThreaded, Index, Home, Shows, Flat, Distinct, Clearing, Chain, Pow2, Aged;
      ghost var was, all := links, entries;
      FlatOnce(chains, Home(entries, hash, |chains|));
      HomeIs(entries, hash, |chains|);
      ClearingStart(links, Flat(chains));
      BeforeAll(chains);
      var i := 0;
      while i < |buckets|
        invariant i <= |buckets| == |old(buckets)| && chains == old(chains)
        invariant Clearing(entries.Keys, links, was, Flat(chains), Before(chains, i))
        invariant forall c :: 0 <= c < i ==> buckets[c] == 0
        invariant forall c :: i <= c < |buckets| ==> buckets[c] == old(buckets)[c]
      {
        ChainAt(all, hash, was, old(buckets), chains, i);
        ClearChain(i, was, all);
        buckets := buckets[i := 0];
        i := i + 1;
      }
      ClearingDone(entries.Keys, links, was, Flat(chains));
      size := 0;
      chains := seq(|buckets|, c => []);
      view := map[];
      EmptyStored(links, buckets, chains, entries, hash);
      NoneAged(|buckets|, ages);
    }

    /** Where iteration meets `a` and `b`, two keys of one bucket with `b` inserted later:
        `b` first exactly when the number of rehashes since its insertion is even. */
    lemma MeetingOrder(x: nat, y: nat)
      requires Valid() && x < |Flat(chains)| && y < |Flat(chains)|
      requires var a, b := Flat(chains)[x], Flat(chains)[y];
               && a in entries && b in entries
               && Index(hash, entries[a].key, |buckets|) == Index(hash, entries[b].key, |buckets|)
               && a in ages.births && b in ages.births && ages.births[a].serial < ages.births[b].serial
      ensures y < x <==> (ages.turns - ages.births[Flat(chains)[y]].turn) % 2 == 0
    {
      hide Flat, Index, Aged, Sorted, Home;
      HomeIs(entries, hash, |chains|);
      LaterMetFirst(chains, ages, Home(entries, hash, |chains|), x, y);
    }

    /** Two keys that collide among 16 buckets go first into an empty map, and seven others
        after them.  Iteration meets the later of the two first while there are eight buckets;
        the ninth insertion rehashes, and then it meets the earlier one first. */
    method TwoOrders(a: K, b: K, others: seq<K>, value: V) returns (before: K, after: K)
      requires Valid() && view == map[] && entries == map[] && buckets == [] && hash(a) % 16 == hash(b) % 16
      requires |others| == 7 && a != b && a !in others && b !in others && NoRepeat(others)
      modifies this
      ensures before == b && after == a
    {
      hide Flat, Aged, Shows, Index, Spread, Stored, Pow2, Before, Buckets;
      SharedBucket(hash, a, b);
      InsertTwo(a, b, value);
      before := FirstOfPair(a, b, 1, 2);
      InsertRest(a, b, others, value);
      after := FirstOfPair(a, b, 1, 2);
    }

    /** Which of two colliding keys, held by nodes `p` and `q`, iteration meets first. */
    method FirstOfPair(a: K, b: K, ghost p: nat, ghost q: nat) returns (k: K)
      requires Valid() && a in view && Holds(entries, a, p) && Holds(entries, b, q) && Elder(ages, p, q)
      requires Index(hash, a, |buckets|) == Index(hash, b, |buckets|)
      ensures k == if (ages.turns - ages.births[q].turn) % 2 == 0 then b else a
    {
      hide Flat, Aged, Shows, Index, Stored, Buckets;
      ghost var j: nat;
      k, j := FirstOf(a, b);
      FirstIs(p, q, j);
    }

    method InsertTwo(a: K, b: K, value: V)
      requires Valid() && view == map[] && entries == map[] && buckets == [] && a != b
      modifies this
      ensures Valid() && |buckets| == 8 && size == 2 && view.Keys == {a, b}
      ensures entries == map[1 := Entry(a, value), 2 := Entry(b, value)] && Elder(ages, 1, 2)
      ensures ages.births[2].turn == ages.turns
    {
      hide Aged, Shows, Index, Spread, Stored, Buckets;
      assert size == 0;
      var one, fresh1 := Emplace(a, value, 1);
      var two, fresh2 := Emplace(b, value, 2);
    }

    /** Seven further insertions, the last of which finds eight buckets full. */
    method InsertRest(a: K, b: K, others: seq<K>, value: V)
      requires Valid() && |buckets| == 8 && size == 2 && view.Keys == {a, b}
      requires entries.Keys == {1, 2} && Elder(ages, 1, 2)
      requires |others| == 7 && a !in others && b !in others && NoRepeat(others)
      modifies this
      ensures Valid() && |buckets| == 16 && Elder(ages, 1, 2) && {1, 2} <= entries.Keys && a in view
      ensures entries[1] == old(entries[1]) && entries[2] == old(entries[2])
      ensures ages.births[2] == old(ages.births[2]) && ages.turns == old(ages.turns) + 1
    {
      hide Aged, Shows, Index, Spread, Stored, Buckets;
      var i := 0;
      while i < 7
        invariant i <= 7 && Valid() && size == 2 + i && |buckets| == (if i < 7 then 8 else 16)
        invariant (forall p :: p in entries ==> p < 3 + i) && {1, 2} <= entries.Keys && Elder(ages, 1, 2)
        invariant a in view && forall k :: k in view ==> k == a || k == b || k in others[..i]
        invariant entries[1] == old(entries[1]) && entries[2] == old(entries[2])
        invariant ages.births[2] == old(ages.births[2]) && ages.turns == old(ages.turns) + if i < 7 then 0 else 1
      {
        assert others[i] !in others[..i];
        var node, inserted := Emplace(others[i], value, 3 + i);
        assert others[..i + 1] == others[..i] + [others[i]];
        i := i + 1;
      }
    }

    /** Every node iteration meets is an entry, and every key is met. */
    lemma Meets(key: K) returns (x: nat)
      requires Valid() && key in view
      ensures x < |Flat(chains)| && Holds(entries, key, Flat(chains)[x])
      ensures forall i :: 0 <= i < |Flat(chains)| ==> Flat(chains)[i] in entries
    {
      hide Flat, Shows, Aged, Sorted, Home, AllThreaded, Buckets;
      IterationVisitsAll(entries, view, hash, chains);
      var p :| p in Flat(chains) && Holds(entries, key, p);
      x :| 0 <= x < |Flat(chains)| && Flat(chains)[x] == p;
    }

    lemma SameSpot(x: nat, y: nat)
      requires Valid() && x < |Flat(chains)| && y < |Flat(chains)| && Flat(chains)[x] == Flat(chains)[y]
      ensures x == y
    {
      hide Flat, Shows, Aged, Sorted, Home, AllThreaded, Buckets;
      IterationVisitsAll(entries, view, hash, chains);
    }

    /** Iteration from the start, until it meets one of two keys. */
    method FirstOf(a: K, b: K) returns (k: K, ghost j: nat)
      requires Valid() && a in view
      ensures (k == a || k == b) && j < |Flat(chains)| && Holds(entries, k, Flat(chains)[j])
      ensures forall i :: 0 <= i < j ==> !Holds(entries, a, Flat(chains)[i]) && !Holds(entries, b, Flat(chains)[i])
    {
      hide Stored, Buckets, Shows, Flat, Aged, Before;
      ghost var x := Meets(a);
      var it := Begin();
      j := 0;
      while true
        invariant j <= x && Points(chains, it, j)
        invariant forall i :: 0 <= i < j ==> !Holds(entries, a, Flat(chains)[i]) && !Holds(entries, b, Flat(chains)[i])
        decreases x - j
      {
        k := entries[it.node].key;
        if k == a || k == b {
          return;
        }
        it := Advance(it, j);
        j := j + 1;
      }
    }

    /** Which of two colliding nodes iteration meets first. */
    lemma FirstIs(a: nat, b: nat, j: nat)
      requires Valid() && a in entries && b in entries && Elder(ages, a, b) && j < |Flat(chains)|
      requires Index(hash, entries[a].key, |buckets|) == Index(hash, entries[b].key, |buckets|)
      requires Holds(entries, entries[a].key, Flat(chains)[j]) || Holds(entries, entries[b].key, Flat(chains)[j])
      requires forall i :: 0 <= i < j ==>
                 !Holds(entries, entries[a].key, Flat(chains)[i]) && !Holds(entries, entries[b].key, Flat(chains)[i])
      ensures Flat(chains)[j] == if (ages.turns - ages.births[b].turn) % 2 == 0 then b else a
    {
      hide Flat, Index, Aged, Stored, Buckets, UniqueKeys;
      ShowsHas(entries, view, a);
      ShowsHas(entries, view, b);
      var x := Meets(entries[a].key);
      var y := Meets(entries[b].key);
      SameHolder(entries, entries[a].key, a, Flat(chains)[x]);
      SameHolder(entries, entries[b].key, b, Flat(chains)[y]);
      assert j <= x && j <= y;
      if Holds(entries, entries[a].key, Flat(chains)[j]) {
        SameHolder(entries, entries[a].key, a, Flat(chains)[j]);
        SameSpot(x, j);
      } else {
        SameHolder(entries, entries[b].key, b, Flat(chains)[j]);
        SameSpot(y, j);
      }
      MeetingOrder(x, y);
    }
  }

  lemma SameHolder<K(!new), V(!new)>(e: Nodes<K, V>, k: K, p: nat, q: nat)
    requires UniqueKeys(e) && Holds(e, k, p) && Holds(e, k, q)
    ensures p == q
  {}

  /** Node `a` was inserted before node `b`. */
  ghost predicate Elder(ages: Ages, a: nat, b: nat)
  {
    a in ages.births && b in ages.births && ages.births[a].serial < ages.births[b].serial
  }

  ghost predicate NoRepeat<K(!new)>(s: seq<K>) { forall i, j :: 0 <= i < j < |s| ==> s[i] != s[j] }

  /** Exactly the nodes from position `done` on are left, their links as they were. */
  ghost predicate Clearing(keys: set<nat>, links: map<nat, nat>, was: map<nat, nat>, order: seq<nat>, done: nat)
  {
    && done <= |order| && links.Keys == keys && (forall p :: p in keys <==> p in order[done..])
    && (forall p :: p in links ==> p in was && links[p] == was[p])
  }

  lemma ClearingStart(was: map<nat, nat>, order: seq<nat>)
    requires forall p :: p in order <==> p in was
    ensures Clearing(was.Keys, was, was, order, 0)
  {
    assert order[0..] == order;
  }

  lemma ClearingStep(keys: set<nat>, links: map<nat, nat>, was: map<nat, nat>, order: seq<nat>, done: nat)
    requires Clearing(keys, links, was, order, done) && done < |order| && Distinct(order)
    ensures order[done] in links && order[done] in was && links[order[done]] == was[order[done]]
    ensures Clearing(keys - {order[done]}, links - {order[done]}, was, order, done + 1)
  {
    var p := order[done];
    assert order[done..] == [p] + order[done + 1..];
    assert p !in order[done + 1..];
  }

  lemma ClearingDone(keys: set<nat>, links: map<nat, nat>, was: map<nat, nat>, order: seq<nat>)
    requires Clearing(keys, links, was, order, |order|)
    ensures keys == {} && links == map[]
  {}

  lemma EmptyStored<K(!new), V(!new)>(links: map<nat, nat>, heads: seq<nat>, chains: Chains, e: Nodes<K, V>,
                                      hash: K -> nat)
    requires |e.Keys| == 0 && links == map[] && |heads| == |chains| && (forall c :: 0 <= c < |heads| ==> heads[c] == 0)
    requires forall c :: 0 <= c < |chains| ==> chains[c] == []
    ensures e == map[] && AllThreaded(links, heads, chains)
    ensures Sorted(chains, Home(e, hash, |chains|)) && Shows(e, map[])
  {
    assert e.Keys == {};
  }

  datatype Iterator = Iterator(bucket: nat, node: nat)

  /** The iterator stands at position `j` of the order of iteration. */
  ghost predicate Points(chains: Chains, it: Iterator, j: nat)
  {
    && j <= |Flat(chains)| && it.node == Nth(Flat(chains), j)
    && (j < |Flat(chains)| ==> it.bucket < |chains| && Before(chains, it.bucket) <= j < Before(chains, it.bucket + 1))
  }

  lemma SameNode<K(!new), V(!new)>(e: Nodes<K, V>, v: map<K, V>, hash: K -> nat, chains: Chains, b: nat, q: nat,
                                   b': nat, q': nat)
    requires Shows(e, v) && Sorted(chains, Home(e, hash, |chains|))
    requires b < |chains| && q < |chains[b]| && b' < |chains| && q' < |chains[b']|
    requires chains[b][q] in e && chains[b'][q'] in e && e[chains[b][q]].key == e[chains[b'][q']].key
    ensures b == b' && q == q'
  {
    assert chains[b][q] == chains[b'][q'];
    hide Shows;
    ChainNode(e, hash, chains, b, q);
    ChainNode(e, hash, chains, b', q');
    hide Home;
    assert Distinct(chains[b]);
  }

  lemma CutPoints(chains: Chains, next: Iterator, b: nat, q: nat)
    requires b < |chains| && q < |chains[b]| && Points(chains, next, Before(chains, b) + q + 1)
    ensures Points(chains[b := RemoveAt(chains[b], q)], next, Before(chains, b) + q)
  {
    CutOrder(chains, b, q);
    BeforeStep(chains, b);
    if next.bucket < b { BeforeMono(chains, next.bucket + 1, b); }
    hide Flat, Before;
  }

  function Max(a: nat, b: nat): nat { if a < b then b else a }

  lemma PowerAtLeast(e: nat)
    requires Pow2(e) >= 8
    ensures e >= 3
  {}

  lemma EightIsPower()
    ensures Pow2(3) == INITIAL_BUCKETS
  {}

  lemma DoublePower(e: nat)
    ensures Pow2(e + 1) == Pow2(e) * 2
  {}

  lemma HomeAdd<K(!new), V(!new)>(e: Nodes<K, V>, hash: K -> nat, n: nat, p: nat, x: Entry<K, V>)
    ensures Home(e[p := x], hash, n) == Home(e, hash, n)[p := Index(hash, x.key, n)]
  {}

  lemma HomeDrop<K(!new), V(!new)>(e: Nodes<K, V>, hash: K -> nat, n: nat, p: nat)
    ensures Home(e - {p}, hash, n) == Home(e, hash, n) - {p}
  {}

  lemma KeysAdd<K(!new), V(!new)>(links: map<nat, nat>, e: Nodes<K, V>, p: nat, q: nat, x: Entry<K, V>)
    requires links.Keys == e.Keys && p !in e
    ensures links[p := q].Keys == e[p := x].Keys && |e[p := x]| == |e| + 1
  {
    var keys := e.Keys + {p};
    assert links[p := q].Keys == keys && e[p := x].Keys == keys;
    assert |e[p := x]| == |e[p := x].Keys| && |e| == |e.Keys|;
  }

  /** A new node at the head of the chain its key selects. */
  lemma InsertStored<K(!new), V(!new)>(e: Nodes<K, V>, hash: K -> nat, links: map<nat, nat>, heads: seq<nat>,
                                       chains: Chains, p: nat, x: Entry<K, V>)
    requires AllThreaded(links, heads, chains) && Sorted(chains, Home(e, hash, |chains|)) && p != 0 && p !in e
    requires Index(hash, x.key, |chains|) < |chains| == |heads|
    ensures var b := Index(hash, x.key, |chains|);
            && (forall c :: 0 <= c < |chains| ==> p !in chains[c])
            && AllThreaded(links[p := heads[b]], heads[b := p], chains[b := [p] + chains[b]])
            && Sorted(chains[b := [p] + chains[b]], Home(e[p := x], hash, |chains|))
  {
    hide Sorted, AllThreaded, Index, Home;
    var b := Index(hash, x.key, |chains|);
    HomeIs(e, hash, |chains|);
    HomeAdd(e, hash, |chains|, p, x);
    PushSorted(chains, Home(e, hash, |chains|), b, p);
    PushThreaded(links, heads, chains, b, p);
  }

  /** A table of more buckets separates what a table of fewer buckets separates. */
  lemma HomesFiner<K(!new), V(!new)>(e: Nodes<K, V>, hash: K -> nat, n: nat, lg: nat, g: nat)
    requires (n == 0 && e == map[]) || (n == Pow2(lg) < Pow2(g))
    ensures Finer(Home(e, hash, n), Home(e, hash, Pow2(g)))
  {
    hide Index;
    HomeIs(e, hash, n);
    HomeIs(e, hash, Pow2(g));
    forall p, q | p in e && q in e && Index(hash, e[p].key, Pow2(g)) == Index(hash, e[q].key, Pow2(g))
      ensures Index(hash, e[p].key, n) == Index(hash, e[q].key, n)
    {
      if g < lg { Pow2Mono(g, lg); }
      IndexNested(hash, e[p].key, lg, g);
      IndexNested(hash, e[q].key, lg, g);
    }
  }

  lemma IndexNested<K>(hash: K -> nat, key: K, lg: nat, g: nat)
    requires lg <= g
    ensures Index(hash, key, Pow2(g)) % Pow2(lg) == Index(hash, key, Pow2(lg))
  {
    hide Index, Pow2;
    IndexInRange(hash, key, lg);
    IndexInRange(hash, key, g);
    Pow2Add(lg, g - lg);
    ModMod(hash(key), Pow2(g), Pow2(lg), Pow2(g - lg));
  }

  lemma SharedBucket<K>(hash: K -> nat, a: K, b: K)
    requires hash(a) % 16 == hash(b) % 16
    ensures Index(hash, a, 8) == Index(hash, b, 8) && Index(hash, a, 16) == Index(hash, b, 16) && Pow2(4) == 16
  {
    hide Index, Pow2;
    EightIsPower();
    DoublePower(3);
    IndexInRange(hash, a, 4);
    IndexInRange(hash, b, 4);
    IndexNested(hash, a, 3, 4);
    IndexNested(hash, b, 3, 4);
  }

  /** Keys 0 and 16 share a bucket of 8 and of 16. */
  method TwoKeys() returns (before: nat, after: nat)
    ensures before == 16 && after == 0
  {
    hide Flat, Sorted, Home, AllThreaded, Aged, Shows, Index, Pow2;
    var m := new UnorderedMap<nat, bool>(k => k);
    before, after := m.TwoOrders(0, 16, [1, 2, 3, 4, 5, 6, 7], true);
  }
}
