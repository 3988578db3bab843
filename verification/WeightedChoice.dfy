/** cthrift/cthrift_client_worker.cc: choosing a ready connection at random, by weight, within the best region. */
module WeightedChoice {
  import opened Options
  import opened WeightIndexes

  const FIRST_REGION_MIN: real := 1.0
  const SECOND_REGION_MIN: real := 0.001

  /** kRegionTypeOne, kRegionTypeTwo and kRegionTypeThree are 0, 1 and 2. */
  function CheckRegion(weight: real): int {
    if weight < SECOND_REGION_MIN then 2 else if weight < FIRST_REGION_MIN then 1 else 0
  }

  /** What a look at an entry's client finds. */
  datatype Look =
    | Expired
    | NotConnected
    | NotInTable
    | Unhealthy
    | Healthy

  /** fmod, for numbers that are not negative; a remainder by zero is not a number. */
  function Fmod(x: real, y: real): (r: Option<real>)
    requires x >= 0.0 && y >= 0.0
    ensures r.None? <==> y == 0.0
    ensures r.Some? ==> 0.0 <= r.value < y && exists k: nat :: x == Times(y, k) + r.value
  {
    if y == 0.0 then None
    else
      var k := (x / y).Floor;
      QuotientBounds(x, y, k as real);
      assert x == Times(y, k) + (x - y * k as real);
      Some(x - y * k as real)
  }

  lemma QuotientBounds(x: real, y: real, q: real)
    requires y > 0.0 && q == (x / y).Floor as real
    ensures 0.0 <= x - y * q < y
  {
    var ratio := x / y;
    assert q <= ratio < q + 1.0;
    Divided(x, y);
    RemainderOf(x, y, ratio, q);
  }

  lemma Divided(x: real, y: real)
    requires y > 0.0
    ensures y * (x / y) == x
  {
  }

  lemma RemainderOf(x: real, y: real, ratio: real, q: real)
    requires y > 0.0 && q <= ratio < q + 1.0 && x == y * ratio
    ensures 0.0 <= x - y * q < y
  {
    var rest := ratio - q;
    assert x == y * (q + rest) == y * q + y * rest;
    Scaled(y, rest);
  }

  lemma Scaled(y: real, a: real)
    requires y > 0.0 && 0.0 <= a < 1.0
    ensures 0.0 <= y * a < y
  {
    assert 0.0 < y * (1.0 - a);
  }

  // ----- the pool: the healthy connections of the best region -----

  ghost predicate HealthyIn(s: seq<Entry>, look: Client -> Look) {
    exists e | e in s :: look(e.client) == Healthy
  }

  ghost predicate IsBestRegion(s: seq<Entry>, look: Client -> Look, region: int) {
    && (exists e | e in s :: look(e.client) == Healthy && CheckRegion(e.weight) == region)
    && (forall e | e in s && look(e.client) == Healthy :: region <= CheckRegion(e.weight))
  }

  function Pool(s: seq<Entry>, look: Client -> Look, region: int): seq<Entry> {
    if s == [] then []
    else
      var e := s[|s| - 1];
      Pool(s[..|s| - 1], look, region)
        + (if look(e.client) == Healthy && CheckRegion(e.weight) == region then [e] else [])
  }

  /** The clients of a weight class, in index order. */
  function ClientsOf(pool: seq<Entry>, weight: real): seq<Client> {
    if pool == [] then []
    else
      var e := pool[|pool| - 1];
      ClientsOf(pool[..|pool| - 1], weight) + (if e.weight == weight then [e.client] else [])
  }

  function Total(pool: seq<Entry>): real {
    if pool == [] then 0.0 else Total(pool[..|pool| - 1]) + pool[|pool| - 1].weight
  }

  /** The weight of the connections heavier than w, and of those at least as heavy. */
  function SumAbove(pool: seq<Entry>, w: real): real {
    if pool == [] then 0.0
    else
      var e := pool[|pool| - 1];
      SumAbove(pool[..|pool| - 1], w) + (if e.weight > w then e.weight else 0.0)
  }

  function SumFrom(pool: seq<Entry>, w: real): real {
    if pool == [] then 0.0
    else
      var e := pool[|pool| - 1];
      SumFrom(pool[..|pool| - 1], w) + (if e.weight >= w then e.weight else 0.0)
  }

  /** A class owns an interval as long as its weight times its number of connections. */
  lemma ClassShare(pool: seq<Entry>, w: real)
    ensures SumFrom(pool, w) - SumAbove(pool, w) == Times(w, |ClientsOf(pool, w)|) == w * |ClientsOf(pool, w)| as real
  {
    hide SumFrom, SumAbove, ClientsOf;
    ClassTimes(pool, w);
  }

  function Times(w: real, n: nat): real {
    w * n as real
  }

  lemma {:induction false} ClassTimes(pool: seq<Entry>, w: real)
    ensures SumFrom(pool, w) - SumAbove(pool, w) == Times(w, |ClientsOf(pool, w)|)
  {
    if pool != [] {
      OneMore(w, |ClientsOf(pool[..|pool| - 1], w)|);
      hide Times;
      ClassTimes(pool[..|pool| - 1], w);
    } else {
      assert Times(w, 0) == 0.0;
    }
  }

  lemma OneMore(w: real, n: nat)
    ensures Times(w, n + 1) == Times(w, n) + w
  {
    var m := n as real;
    assert (n + 1) as real == m + 1.0;
    assert w * (m + 1.0) == w * m + w;
  }

  /** The intervals of two classes do not meet. */
  lemma {:induction false} SharesApart(pool: seq<Entry>, v: real, w: real)
    requires v < w && forall e | e in pool :: e.weight >= 0.0
    ensures SumFrom(pool, w) <= SumAbove(pool, v)
  {
    if pool != [] {
      assert pool[|pool| - 1] in pool;
      SharesApart(pool[..|pool| - 1], v, w);
    }
  }

  /** With no weight between two, the interval of the lesser begins where that of the greater ends. */
  lemma {:induction false} SharesMeet(pool: seq<Entry>, v: real, w: real)
    requires v < w && forall e | e in pool :: e.weight <= v || e.weight >= w
    ensures SumFrom(pool, w) == SumAbove(pool, v)
  {
    if pool != [] {
      assert pool[|pool| - 1] in pool;
      SharesMeet(pool[..|pool| - 1], v, w);
    }
  }

  lemma {:induction false} ShareEnds(pool: seq<Entry>, w: real)
    ensures (forall e | e in pool :: e.weight <= w) ==> SumAbove(pool, w) == 0.0
    ensures (forall e | e in pool :: e.weight >= w) ==> SumFrom(pool, w) == Total(pool)
  {
    if pool != [] {
      assert pool[|pool| - 1] in pool;
      ShareEnds(pool[..|pool| - 1], w);
    }
  }

  /** The class w owns the draw. */
  predicate Owns(pool: seq<Entry>, w: real, draw: real) {
    1000.0 * SumAbove(pool, w) <= draw < 1000.0 * SumFrom(pool, w)
  }

  /** No draw has two owners. */
  lemma OneOwner(pool: seq<Entry>, v: real, w: real, draw: real)
    requires forall e | e in pool :: e.weight >= 0.0
    requires Owns(pool, v, draw) && Owns(pool, w, draw)
    ensures v == w
  {
    if v < w {
      SharesApart(pool, v, w);
    } else if w < v {
      SharesApart(pool, w, v);
    }
  }

  // ----- collecting the pool -----

  /** What the first loop has gathered. */
  datatype Gathered = Gathered(
    classes: map<real, seq<Client>>, weights: seq<real>, lastWeight: real, total: real, stopRegion: int)

  predicate Falling(weights: seq<real>) {
    forall i, j | 0 <= i < j < |weights| :: weights[i] > weights[j]
  }

  /** The weights of the pool, each once, the greatest first. */
  ghost predicate Lists(weights: seq<real>, pool: seq<Entry>) {
    Falling(weights) && forall w :: w in weights <==> exists e | e in pool :: e.weight == w
  }

  ghost predicate Gathers(g: Gathered, pool: seq<Entry>) {
    && Lists(g.weights, pool)
    && (forall w :: w in g.classes <==> w in g.weights)
    && (forall w | w in g.classes :: g.classes[w] == ClientsOf(pool, w))
    && g.total == SumAbove(pool, g.lastWeight)
    && (pool == [] ==> g.lastWeight == -1.0 && g.weights == [])
    && (pool != [] ==>
          && g.weights != [] && g.lastWeight == pool[|pool| - 1].weight == g.weights[|g.weights| - 1]
          && g.stopRegion == CheckRegion(pool[0].weight) + 1)
  }

  /** The entries that a whole round leaves in the index. */
  function Stay(s: seq<Entry>, look: Client -> Look): seq<Entry> {
    if s == [] then []
    else
      var e := s[|s| - 1];
      Stay(s[..|s| - 1], look) + (if look(e.client) in {Expired, NotInTable} then [] else [e])
  }

  /** Weights that are not negative, and equal or told apart. */
  ghost predicate Weighable(s: seq<Entry>) {
    && (forall e | e in s :: e.weight >= 0.0)
    && (forall e, f | e in s && f in s :: e.weight == f.weight || !CheckDoubleEqual(e.weight, f.weight))
  }

  // ----- one more connection -----

  lemma Appended(pool: seq<Entry>, e: Entry, w: real)
    ensures ClientsOf(pool + [e], w) == if e.weight == w then ClientsOf(pool, w) + [e.client] else ClientsOf(pool, w)
    ensures SumAbove(pool + [e], w) == SumAbove(pool, w) + if e.weight > w then e.weight else 0.0
    ensures SumFrom(pool + [e], w) == SumFrom(pool, w) + if e.weight >= w then e.weight else 0.0
    ensures Total(pool + [e]) == Total(pool) + e.weight
  {
    assert (pool + [e])[..|pool|] == pool;
  }

  lemma {:induction false} NoClients(pool: seq<Entry>, w: real)
    ensures ClientsOf(pool, w) == [] <==> forall e | e in pool :: e.weight != w
  {
    if pool != [] {
      assert forall e | e in pool :: e in pool[..|pool| - 1] || e == pool[|pool| - 1];
      NoClients(pool[..|pool| - 1], w);
    }
  }

  /** A connection of the weight of the last joins its class. */
  lemma SameClass(g: Gathered, pool: seq<Entry>, e: Entry)
    requires Gathers(g, pool) && pool != [] && e.weight == g.lastWeight
    ensures e.weight in g.classes
    ensures Gathers(g.(classes := g.classes[e.weight := g.classes[e.weight] + [e.client]]), pool + [e])
  {
    hide ClientsOf, SumAbove;
    assert pool[|pool| - 1] in pool;
    forall w {
      Appended(pool, e, w);
    }
    assert forall f :: f in pool + [e] <==> f in pool || f == e;
  }

  lemma NewWeight(weights: seq<real>, pool: seq<Entry>, e: Entry)
    requires Lists(weights, pool) && forall f | f in pool :: f.weight > e.weight
    ensures Lists(weights + [e.weight], pool + [e])
  {
    assert forall f :: f in pool + [e] <==> f in pool || f == e;
    forall w
      ensures w in weights + [e.weight] <==> exists f | f in pool + [e] :: f.weight == w
    {
      assert w in weights + [e.weight] <==> w in weights || w == e.weight;
      assert e in pool + [e];
      if w in weights {
        var f :| f in pool && f.weight == w;
        assert f in pool + [e];
      }
    }
    forall i | 0 <= i < |weights|
      ensures weights[i] > e.weight
    {
      assert weights[i] in weights;
    }
  }

  lemma NewTotal(g: Gathered, pool: seq<Entry>, w: real)
    requires Gathers(g, pool) && pool != [] && w < g.lastWeight && Descends(pool)
    ensures g.lastWeight in g.classes
    ensures g.total + Times(g.lastWeight, |g.classes[g.lastWeight]|) == SumAbove(pool, w)
  {
    hide ClientsOf, SumAbove, SumFrom, Times;
    assert pool[|pool| - 1] in pool;
    ClassTimes(pool, g.lastWeight);
    SharesMeet(pool, w, g.lastWeight);
  }

  /** A lesser weight starts a class, and the class before it is added to the total. */
  lemma NewClass(g: Gathered, pool: seq<Entry>, e: Entry)
    requires Gathers(g, pool) && (pool != [] ==> e.weight < g.lastWeight) && Descends(pool)
    ensures e.weight !in g.classes
    ensures pool != [] ==> g.lastWeight in g.classes
    ensures var total := if pool == [] then g.total
                         else g.total + Times(g.lastWeight, |g.classes[g.lastWeight]|);
            var stop := if pool == [] then CheckRegion(e.weight) + 1 else g.stopRegion;
            Gathers(Gathered(g.classes[e.weight := [e.client]], g.weights + [e.weight], e.weight, total, stop), pool + [e])
  {
    hide ClientsOf, SumAbove, Times, CheckRegion, Falling;
    NothingGathered(e.weight);
    NothingGathered(-1.0);
    if pool != [] {
      NewTotal(g, pool, e.weight);
    }
    NoClients(pool, e.weight);
    NewWeight(g.weights, pool, e);
    hide Lists;
    forall w
      ensures ClientsOf(pool + [e], w)
           == if e.weight == w then ClientsOf(pool, w) + [e.client] else ClientsOf(pool, w)
    {
      Appended(pool, e, w);
    }
    Appended(pool, e, e.weight);
  }

  lemma NothingGathered(w: real)
    ensures SumAbove([], w) == 0.0 == Total([]) && ClientsOf([], w) == []
  {
  }

  ghost predicate Descends(pool: seq<Entry>) {
    forall e | e in pool :: e.weight >= pool[|pool| - 1].weight
  }

  // ----- the pool so far -----

  /** The pool of the entries seen: all their healthy connections, which are of one region. */
  ghost predicate Pooled(seen: seq<Entry>, look: Client -> Look, pool: seq<Entry>) {
    && (forall e | e in pool :: e in seen)
    && (pool == [] ==> !HealthyIn(seen, look))
    && (pool != [] ==>
          && pool == Pool(seen, look, CheckRegion(pool[0].weight))
          && IsBestRegion(seen, look, CheckRegion(pool[0].weight))
          && forall e | e in seen && look(e.client) == Healthy :: CheckRegion(e.weight) == CheckRegion(pool[0].weight))
  }

  lemma PoolAppend(s: seq<Entry>, look: Client -> Look, region: int, e: Entry)
    ensures Pool(s + [e], look, region)
         == if look(e.client) == Healthy && CheckRegion(e.weight) == region then Pool(s, look, region) + [e]
            else Pool(s, look, region)
    ensures Stay(s + [e], look) == if look(e.client) in {Expired, NotInTable} then Stay(s, look) else Stay(s, look) + [e]
    ensures forall x :: x in s + [e] <==> x in s || x == e
  {
    assert (s + [e])[..|s|] == s;
  }

  lemma {:induction false} NonePooled(s: seq<Entry>, look: Client -> Look, region: int)
    ensures Pool(s, look, region) == []
        <==> forall e | e in s && look(e.client) == Healthy :: CheckRegion(e.weight) != region
  {
    if s != [] {
      assert s == s[..|s| - 1] + [s[|s| - 1]];
      PoolAppend(s[..|s| - 1], look, region, s[|s| - 1]);
      NonePooled(s[..|s| - 1], look, region);
    }
  }

  lemma {:induction false} PoolMembers(s: seq<Entry>, look: Client -> Look, region: int)
    ensures forall e | e in Pool(s, look, region) ::
              e in s && look(e.client) == Healthy && CheckRegion(e.weight) == region
  {
    if s != [] {
      assert s == s[..|s| - 1] + [s[|s| - 1]];
      PoolAppend(s[..|s| - 1], look, region, s[|s| - 1]);
      PoolMembers(s[..|s| - 1], look, region);
    }
  }

  lemma PooledSkip(seen: seq<Entry>, look: Client -> Look, pool: seq<Entry>, e: Entry)
    requires Pooled(seen, look, pool) && look(e.client) != Healthy
    ensures Pooled(seen + [e], look, pool)
  {
    hide Pool, CheckRegion;
    forall region
      ensures Pool(seen + [e], look, region) == Pool(seen, look, region)
    {
      PoolAppend(seen, look, region, e);
    }
    PoolAppend(seen, look, 0, e);
  }

  lemma PooledTake(seen: seq<Entry>, look: Client -> Look, pool: seq<Entry>, e: Entry)
    requires Pooled(seen, look, pool) && look(e.client) == Healthy
    requires pool != [] ==> CheckRegion(e.weight) == CheckRegion(pool[0].weight)
    ensures Pooled(seen + [e], look, pool + [e])
  {
    hide Pool, CheckRegion, Stay;
    NonePooled(seen, look, CheckRegion(e.weight));
    PoolAppend(seen, look, CheckRegion(e.weight), e);
    assert e in seen + [e];
  }

  /** The regions of a descending index do not get better. */
  lemma RegionsFall(v: real, w: real)
    requires v >= w
    ensures CheckRegion(v) <= CheckRegion(w)
  {
  }

  lemma {:induction false} PoolEnds(s: seq<Entry>, look: Client -> Look, region: int, i: nat)
    requires i <= |s| && forall k | i <= k < |s| :: CheckRegion(s[k].weight) != region
    ensures Pool(s, look, region) == Pool(s[..i], look, region)
  {
    if i == |s| {
      assert s[..i] == s;
    } else {
      PoolEnds(s[..|s| - 1], look, region, i);
      assert s[..|s| - 1][..i] == s[..i];
    }
  }

  /** The first healthy connection of a worse region ends the pool. */
  lemma PooledWhole(s: seq<Entry>, look: Client -> Look, pool: seq<Entry>, i: nat)
    requires Descending(s) && i < |s| && pool != [] && Pooled(s[..i], look, pool)
    requires CheckRegion(pool[0].weight) < CheckRegion(s[i].weight)
    ensures var region := CheckRegion(pool[0].weight);
            IsBestRegion(s, look, region) && pool == Pool(s, look, region)
  {
    hide CheckRegion, Pool;
    var region := CheckRegion(pool[0].weight);
    forall k | i <= k < |s|
      ensures region < CheckRegion(s[k].weight)
    {
      RegionsFall(s[i].weight, s[k].weight);
    }
    PoolEnds(s, look, region, i);
    forall e | e in s && look(e.client) == Healthy
      ensures region <= CheckRegion(e.weight)
    {
      var k :| 0 <= k < |s| && s[k] == e;
      assert k < i ==> e in s[..i];
    }
  }

  // ----- the loops -----

  /** After i entries: those to be erased are gone. */
  function Visited(before: seq<Entry>, look: Client -> Look, i: nat): seq<Entry>
    requires i <= |before|
  {
    Stay(before[..i], look) + before[i..]
  }

  lemma VisitedStep(before: seq<Entry>, look: Client -> Look, i: nat)
    requires i <= |before| && |Stay(before[..i], look)| < |Visited(before, look, i)|
    ensures i < |before|
    ensures Visited(before, look, i)[|Stay(before[..i], look)|] == before[i]
    ensures before[..i + 1] == before[..i] + [before[i]]
    ensures look(before[i].client) in {Expired, NotInTable} ==>
              && Visited(before, look, i + 1)
              == Visited(before, look, i)[..|Stay(before[..i], look)|] + Visited(before, look, i)[|Stay(before[..i], look)| + 1..]
              && Stay(before[..i + 1], look) == Stay(before[..i], look)
    ensures look(before[i].client) !in {Expired, NotInTable} ==>
              && Visited(before, look, i + 1) == Visited(before, look, i)
              && Stay(before[..i + 1], look) == Stay(before[..i], look) + [before[i]]
  {
    PoolAppend(before[..i], look, 0, before[i]);
    hide Pool, Stay;
    assert before[..i + 1] == before[..i] + [before[i]];
    assert before[i..] == [before[i]] + before[i + 1..];
  }

  lemma SameWeight(s: seq<Entry>, v: real, w: real)
    requires Weighable(s) && (exists e | e in s :: e.weight == w)
    requires v == -1.0 || exists e | e in s :: e.weight == v
    ensures CheckDoubleEqual(v, w) <==> v == w
    ensures CheckDoubleEqual(v, -1.0) <==> v == -1.0
  {
  }

  /** The pool and the entry after it, in an index that descends. */
  lemma NextDescends(s: seq<Entry>, look: Client -> Look, pool: seq<Entry>, i: nat)
    requires Descending(s) && i < |s| && Pooled(s[..i], look, pool)
    ensures forall e | e in pool :: e.weight >= s[i].weight && e in s
    ensures Descends(pool + [s[i]])
    ensures pool != [] ==> CheckRegion(pool[0].weight) <= CheckRegion(s[i].weight)
  {
    if pool != [] {
      assert pool[0] in pool;
    }
  }

  /** A healthy connection: another of the last weight, the end of the pool, or the first of its weight. */
  method Gather(g: Gathered, e: Entry, ghost pool: seq<Entry>) returns (next: Gathered, stop: bool)
    requires Gathers(g, pool) && Descends(pool) && e.weight >= 0.0 && (pool != [] ==> e.weight <= g.lastWeight)
    requires CheckDoubleEqual(g.lastWeight, e.weight) <==> g.lastWeight == e.weight
    requires CheckDoubleEqual(g.lastWeight, -1.0) <==> pool == []
    ensures stop <==> pool != [] && g.lastWeight != e.weight && CheckRegion(pool[0].weight) < CheckRegion(e.weight)
    ensures if stop then next == g else Gathers(next, pool + [e])
  {
    next, stop := g, false;
    if !CheckDoubleEqual(g.lastWeight, e.weight) {
      NewClass(g, pool, e);
      if !CheckDoubleEqual(g.lastWeight, -1.0) {
        if g.stopRegion <= CheckRegion(e.weight) {
          stop := true;
          return;
        }
        next := next.(total := g.total + Times(g.lastWeight, |g.classes[g.lastWeight]|));
      } else {
        next := next.(stopRegion := CheckRegion(e.weight) + 1);
      }
      next := next.(weights := g.weights + [e.weight], lastWeight := e.weight, classes := g.classes[e.weight := []]);
    } else {
      SameClass(g, pool, e);
    }
    next := next.(classes := next.classes[e.weight := next.classes[e.weight] + [e.client]]);
    if g.lastWeight != e.weight {
      assert next.classes == g.classes[e.weight := [e.client]];
    }
  }

  lemma GatherReady(s: seq<Entry>, look: Client -> Look, g: Gathered, pool: seq<Entry>, i: nat)
    requires Descending(s) && Weighable(s) && i < |s| && Pooled(s[..i], look, pool) && Gathers(g, pool)
    ensures s[i].weight >= 0.0 && (pool != [] ==> s[i].weight <= g.lastWeight)
    ensures CheckDoubleEqual(g.lastWeight, s[i].weight) <==> g.lastWeight == s[i].weight
    ensures CheckDoubleEqual(g.lastWeight, -1.0) <==> pool == []
    ensures pool != [] ==> CheckRegion(pool[0].weight) <= CheckRegion(s[i].weight)
    ensures pool != [] && g.lastWeight == s[i].weight ==> CheckRegion(pool[0].weight) == CheckRegion(s[i].weight)
    ensures Descends(pool + [s[i]])
  {
    hide Pool, ClientsOf, SumAbove, CheckDoubleEqual;
    NextDescends(s, look, pool, i);
    assert s[i] in s;
    if pool != [] {
      var last := pool[|pool| - 1];
      assert last in pool;
      assert last in s[..i];
      PoolMembers(s[..i], look, CheckRegion(pool[0].weight));
    }
    SameWeight(s, g.lastWeight, s[i].weight);
  }

  /** The first loop after i entries, with its iterator at the given place. */
  ghost predicate Collecting(
    before: seq<Entry>, look: Client -> Look, i: nat, entries: seq<Entry>, at: nat, g: Gathered, pool: seq<Entry>
  ) {
    && i <= |before| && at == |Stay(before[..i], look)| && entries == Visited(before, look, i)
    && Gathers(g, pool) && Pooled(before[..i], look, pool) && Descends(pool)
  }

  /** An entry without a healthy connection: erased, or passed over. */
  lemma CollectingSkip(
    before: seq<Entry>, look: Client -> Look, i: nat, entries: seq<Entry>, at: nat, g: Gathered, pool: seq<Entry>
  )
    requires Collecting(before, look, i, entries, at, g, pool) && at < |entries| && look(entries[at].client) != Healthy
    ensures if look(entries[at].client) in {Expired, NotInTable}
            then Collecting(before, look, i + 1, entries[..at] + entries[at + 1..], at, g, pool)
            else Collecting(before, look, i + 1, entries, at + 1, g, pool)
  {
    hide Gathers, Pooled, Descends, Stay, Visited;
    VisitedStep(before, look, i);
    PooledSkip(before[..i], look, pool, before[i]);
  }

  lemma CollectingReady(
    before: seq<Entry>, look: Client -> Look, i: nat, entries: seq<Entry>, at: nat, g: Gathered, pool: seq<Entry>
  )
    requires Collecting(before, look, i, entries, at, g, pool) && at < |entries|
    requires Descending(before) && Weighable(before)
    ensures var e := entries[at];
            && i < |before| && e == before[i]
            && Gathers(g, pool) && Descends(pool) && e.weight >= 0.0 && (pool != [] ==> e.weight <= g.lastWeight)
            && (CheckDoubleEqual(g.lastWeight, e.weight) <==> g.lastWeight == e.weight)
            && (CheckDoubleEqual(g.lastWeight, -1.0) <==> pool == [])
  {
    hide Gathers, Pooled, Descends, Stay, Visited, CheckDoubleEqual, Weighable, Descending;
    VisitedStep(before, look, i);
    GatherReady(before, look, g, pool, i);
  }

  /** A healthy connection that joins the pool. */
  lemma CollectingTake(
    before: seq<Entry>, look: Client -> Look, i: nat, entries: seq<Entry>, at: nat, g: Gathered, pool: seq<Entry>,
    next: Gathered
  )
    requires Collecting(before, look, i, entries, at, g, pool) && at < |entries| && look(entries[at].client) == Healthy
    requires Descending(before) && Weighable(before) && Gathers(next, pool + [entries[at]])
    requires pool != [] && g.lastWeight != entries[at].weight ==>
               CheckRegion(pool[0].weight) >= CheckRegion(entries[at].weight)
    ensures Collecting(before, look, i + 1, entries, at + 1, next, pool + [entries[at]])
  {
    hide Gathers, Pooled, Descends, Stay, Visited, CheckDoubleEqual, Weighable, Descending, CheckRegion;
    VisitedStep(before, look, i);
    GatherReady(before, look, g, pool, i);
    PooledTake(before[..i], look, pool, before[i]);
  }

  /** What the first loop leaves: at a break, with an entry of a worse region next, or at the end. */
  lemma Collected(
    before: seq<Entry>, look: Client -> Look, i: nat, entries: seq<Entry>, at: nat, g: Gathered, pool: seq<Entry>
  )
    requires Collecting(before, look, i, entries, at, g, pool) && Descending(before)
    requires at < |entries| ==> pool != [] && CheckRegion(pool[0].weight) < CheckRegion(entries[at].weight)
    ensures Gathers(g, pool) && i <= |before| && entries == Visited(before, look, i)
    ensures pool == [] ==> !HealthyIn(before, look)
    ensures pool != [] ==> var region := CheckRegion(pool[0].weight);
              IsBestRegion(before, look, region) && pool == Pool(before, look, region)
  {
    hide Gathers, Pooled, Descends, Stay, Visited, Descending, CheckRegion, HealthyIn, IsBestRegion, Pool;
    if at < |entries| {
      VisitedStep(before, look, i);
      PooledWhole(before, look, pool, i);
    } else {
      VisitedAll(before, look, i);
      PooledAll(before, look, pool);
    }
  }

  lemma Begin(index: WeightIndex, look: Client -> Look)
    requires index.Valid()
    ensures Descending(index.entries)
    ensures Collecting(index.entries, look, 0, index.entries, 0, Gathered(map[], [], -1.0, 0.0, 1), [])
  {
    Nothing(index.entries, look);
  }

  method Collect(index: WeightIndex, look: Client -> Look) returns (g: Gathered, ghost pool: seq<Entry>)
    requires index.Valid() && Weighable(index.entries)
    modifies index
    ensures index.Valid() && Gathers(g, pool)
    ensures pool == [] ==> !HealthyIn(old(index.entries), look)
    ensures pool != [] ==> var region := CheckRegion(pool[0].weight);
              IsBestRegion(old(index.entries), look, region) && pool == Pool(old(index.entries), look, region)
    ensures exists i | 0 <= i <= |old(index.entries)| :: index.entries == Visited(old(index.entries), look, i)
  {
    hide *;
    ghost var before, i := index.entries, 0;
    g, pool := Gathered(map[], [], -1.0, 0.0, 1), [];
    Begin(index, look);
    var at := 0;
    while at < |index.entries|
      invariant i <= |before| && index.Valid() && Collecting(before, look, i, index.entries, at, g, pool)
      decreases |before| - i
    {
      var e := index.entries[at];
      CollectingReady(before, look, i, index.entries, at, g, pool);
      match look(e.client) {
        case Expired | NotInTable =>
          CollectingSkip(before, look, i, index.entries, at, g, pool);
          ErasedHere(index, at);
          index.Erase(e.id);
        case NotConnected | Unhealthy =>
          CollectingSkip(before, look, i, index.entries, at, g, pool);
          at := at + 1;
        case Healthy =>
          var next, stop := Gather(g, e, pool);
          if stop {
            break;
          }
          CollectingTake(before, look, i, index.entries, at, g, pool, next);
          g, pool := next, pool + [e];
          at := at + 1;
      }
      i := i + 1;
    }
    Collected(before, look, i, index.entries, at, g, pool);
  }

  lemma ErasedHere(index: WeightIndex, at: nat)
    requires index.Valid() && at < |index.entries|
    ensures Erased(index.entries, index.entries[at].id) == index.entries[..at] + index.entries[at + 1..]
  {
    ErasedAt(index.entries, index.entries[at].id);
  }

  lemma Nothing(s: seq<Entry>, look: Client -> Look)
    ensures Gathers(Gathered(map[], [], -1.0, 0.0, 1), []) && Pooled(s[..0], look, []) && Descends([])
    ensures Stay(s[..0], look) == [] && Visited(s, look, 0) == s
  {
  }

  lemma VisitedAll(s: seq<Entry>, look: Client -> Look, i: nat)
    requires i <= |s| && |Stay(s[..i], look)| >= |Visited(s, look, i)|
    ensures i == |s| && s[..i] == s
  {
  }

  lemma PooledAll(s: seq<Entry>, look: Client -> Look, pool: seq<Entry>)
    requires Pooled(s, look, pool)
    ensures pool == [] ==> !HealthyIn(s, look)
    ensures pool != [] ==> var region := CheckRegion(pool[0].weight);
              IsBestRegion(s, look, region) && pool == Pool(s, look, region)
  {
  }

  /**
   The pool by weights: with a healthy connection of weight at least 1.0, those of weight at least 1.0; else with one of
   at least 0.001, those of at least 0.001; else all healthy ones.
   */
  lemma PoolIs(s: seq<Entry>, look: Client -> Look, region: int, e: Entry)
    requires IsBestRegion(s, look, region)
    ensures e in Pool(s, look, region)
       <==> e in s && look(e.client) == Healthy
            && (if HealthyFrom(s, look, 1.0) then e.weight >= 1.0
                else HealthyFrom(s, look, 0.001) ==> e.weight >= 0.001)
  {
    PoolMembers(s, look, region);
    if e in s && look(e.client) == Healthy && CheckRegion(e.weight) == region {
      PoolHas(s, look, region, e);
    }
    var best :| best in s && look(best.client) == Healthy && CheckRegion(best.weight) == region;
  }

  /** Some healthy connection has at least this weight. */
  ghost predicate HealthyFrom(s: seq<Entry>, look: Client -> Look, min: real) {
    exists f | f in s :: look(f.client) == Healthy && f.weight >= min
  }

  lemma {:induction false} PoolHas(s: seq<Entry>, look: Client -> Look, region: int, e: Entry)
    requires e in s && look(e.client) == Healthy && CheckRegion(e.weight) == region
    ensures e in Pool(s, look, region)
  {
    if e != s[|s| - 1] {
      PoolHas(s[..|s| - 1], look, region, e);
    }
  }

  // ----- the draw -----

  lemma {:induction false} TotalBounds(pool: seq<Entry>)
    requires forall e | e in pool :: e.weight >= 0.0
    ensures forall e | e in pool :: e.weight <= Total(pool)
    ensures Total(pool) >= 0.0
  {
    if pool != [] {
      var last := pool[|pool| - 1];
      assert last in pool;
      assert forall e | e in pool :: e in pool[..|pool| - 1] || e == last;
      TotalBounds(pool[..|pool| - 1]);
    }
  }

  /** Where the interval of the k-th weight begins: where the one before ends. */
  function Start(g: Gathered, pool: seq<Entry>, k: nat): real
    requires k <= |g.weights|
  {
    if k == 0 then 0.0 else SumFrom(pool, g.weights[k - 1])
  }

  lemma Starts(g: Gathered, pool: seq<Entry>, k: nat)
    requires Gathers(g, pool) && k < |g.weights|
    ensures g.weights[k] in g.classes
    ensures Start(g, pool, k) == SumAbove(pool, g.weights[k])
    ensures Start(g, pool, k + 1) == Start(g, pool, k) + Times(g.weights[k], |g.classes[g.weights[k]]|)
  {
    hide SumAbove, SumFrom, ClientsOf, Times;
    assert g.weights[k] in g.weights;
    ClassTimes(pool, g.weights[k]);
    forall e | e in pool
      ensures e.weight <= g.weights[k] || (k > 0 && e.weight >= g.weights[k - 1])
    {
      assert e.weight in g.weights;
    }
    if k == 0 {
      ShareEnds(pool, g.weights[0]);
    } else {
      SharesMeet(pool, g.weights[k], g.weights[k - 1]);
    }
  }

  lemma StartsEnd(g: Gathered, pool: seq<Entry>)
    requires Gathers(g, pool) && pool != []
    ensures Start(g, pool, |g.weights|) == Total(pool)
  {
    hide SumFrom, Total;
    forall e | e in pool
      ensures e.weight >= g.lastWeight
    {
      assert e.weight in g.weights;
    }
    ShareEnds(pool, g.lastWeight);
  }

  /** The second loop: the weight whose interval holds the draw. When every weight is zero, zero. */
  method PickWeight(g: Gathered, draw: Option<real>, ghost pool: seq<Entry>) returns (choose: real)
    requires Gathers(g, pool) && pool != [] && forall e | e in pool :: e.weight >= 0.0
    requires draw.None? <==> Total(pool) == 0.0
    requires draw.Some? ==> 0.0 <= draw.value < 1000.0 * Total(pool)
    ensures choose in g.classes
    ensures if draw.Some? then Owns(pool, choose, draw.value) else choose == 0.0
  {
    StartsEnd(g, pool);
    ZeroGathered(g, pool);
    hide Gathers, Total, SumAbove, SumFrom, Times;
    choose := 0.0;
    var tmp := 0.0;
    for k := 0 to |g.weights|
      invariant tmp == 1000.0 * Start(g, pool, k)
      invariant choose == 0.0 && (draw.Some? ==> tmp <= draw.value)
    {
      Starts(g, pool, k);
      tmp := tmp + Times(g.weights[k], |g.classes[g.weights[k]]|) * 1000.0;
      if draw.Some? && tmp > draw.value {
        choose := g.weights[k];
        return;
      }
    }
  }

  lemma ZeroGathered(g: Gathered, pool: seq<Entry>)
    requires Gathers(g, pool) && pool != [] && forall e | e in pool :: e.weight >= 0.0
    ensures Total(pool) == 0.0 ==> 0.0 in g.classes
  {
    hide Total, SumAbove, ClientsOf;
    TotalBounds(pool);
    assert pool[0] in pool;
    assert pool[0].weight in g.weights;
  }

  /** The client that a draw and a pick fall on. */
  ghost predicate Chosen(pool: seq<Entry>, random: nat, pick: nat, client: Client) {
    exists w :: ChosenOf(pool, random, pick, client, w)
  }

  predicate ChosenOf(pool: seq<Entry>, random: nat, pick: nat, client: Client, w: real) {
    && ClientsOf(pool, w) != []
    && client == ClientsOf(pool, w)[pick % |ClientsOf(pool, w)|]
    && if Total(pool) <= 0.0 then w == 0.0 else Owns(pool, w, Fmod(random as real, 1000.0 * Total(pool)).value)
  }

  /** A draw and a pick fall on one client only. */
  lemma OneChosen(pool: seq<Entry>, random: nat, pick: nat, a: Client, b: Client)
    requires forall e | e in pool :: e.weight >= 0.0
    requires Chosen(pool, random, pick, a) && Chosen(pool, random, pick, b)
    ensures a == b
  {
    hide ClientsOf, Owns, Fmod, Total;
    var v :| ChosenOf(pool, random, pick, a, v);
    var w :| ChosenOf(pool, random, pick, b, w);
    if Total(pool) > 0.0 {
      OneOwner(pool, v, w, Fmod(random as real, 1000.0 * Total(pool)).value);
    }
  }

  method ChooseNextReadyConn(index: WeightIndex, look: Client -> Look, random: nat, pick: nat)
    returns (code: int, client: Option<Client>)
    requires index.Valid() && Weighable(index.entries)
    modifies index
    ensures index.Valid()
    ensures code == if old(index.entries) == [] then -1 else if HealthyIn(old(index.entries), look) then 0 else 1
    ensures client.Some? <==> code == 0
    ensures code == 0 ==> forall region | IsBestRegion(old(index.entries), look, region) ::
              Chosen(Pool(old(index.entries), look, region), random, pick, client.value)
    ensures exists i | 0 <= i <= |old(index.entries)| :: index.entries == Visited(old(index.entries), look, i)
  {
    if index.entries == [] {
      Nothing([], look);
      return -1, None;
    }
    ghost var before := index.entries;
    var g, pool := Collect(index, look);
    if g.weights == [] {
      return 1, None;
    }
    PoolFacts(before, look, pool);
    hide *;
    code := 0;
    var chosen := Draw(g, random, pick, pool);
    client := Some(chosen);
  }

  /** Behind the first loop: the draw, the second loop, and the pick within the class. */
  method Draw(g: Gathered, random: nat, pick: nat, ghost pool: seq<Entry>) returns (client: Client)
    requires Gathers(g, pool) && pool != [] && Total(pool) >= 0.0 && forall e | e in pool :: e.weight >= 0.0
    ensures Chosen(pool, random, pick, client)
  {
    hide *;
    LastTotal(g, pool);
    var total := (g.total + Times(g.lastWeight, |g.classes[g.lastWeight]|)) * 1000.0;
    var draw := Fmod(random as real, total);
    var choose := PickWeight(g, draw, pool);
    if choose !in g.classes {
      assert false;
    }
    ClassOf(g, pool, choose);
    var clients := g.classes[choose];
    client := if |clients| == 1 then clients[0] else clients[pick % |clients|];
    DrawnOf(pool, random, pick, client, choose, draw);
  }

  lemma DrawnOf(pool: seq<Entry>, random: nat, pick: nat, client: Client, w: real, draw: Option<real>)
    requires ClientsOf(pool, w) != [] && client == ClientsOf(pool, w)[pick % |ClientsOf(pool, w)|]
    requires Total(pool) >= 0.0 && draw == Fmod(random as real, Total(pool) * 1000.0)
    requires if draw.Some? then Owns(pool, w, draw.value) else w == 0.0
    ensures Chosen(pool, random, pick, client)
  {
    hide ClientsOf, Total, Owns;
    assert ChosenOf(pool, random, pick, client, w);
  }

  lemma LastTotal(g: Gathered, pool: seq<Entry>)
    requires Gathers(g, pool) && pool != []
    ensures g.lastWeight in g.classes
    ensures g.total + Times(g.lastWeight, |g.classes[g.lastWeight]|) == Total(pool)
  {
    hide SumFrom, Total, SumAbove, ClientsOf, Times;
    forall e | e in pool
      ensures e.weight >= g.lastWeight
    {
      assert e.weight in g.weights;
    }
    assert g.lastWeight in g.weights;
    ShareEnds(pool, g.lastWeight);
    ClassTimes(pool, g.lastWeight);
  }

  lemma ClassOf(g: Gathered, pool: seq<Entry>, w: real)
    requires Gathers(g, pool) && w in g.classes
    ensures g.classes[w] == ClientsOf(pool, w) != []
  {
    hide ClientsOf, SumAbove;
    assert w in g.weights;
    NoClients(pool, w);
  }

  lemma PoolFacts(s: seq<Entry>, look: Client -> Look, pool: seq<Entry>)
    requires Weighable(s) && pool != []
    requires var region := CheckRegion(pool[0].weight);
             IsBestRegion(s, look, region) && pool == Pool(s, look, region)
    ensures HealthyIn(s, look) && Total(pool) >= 0.0 && forall e | e in pool :: e.weight >= 0.0
    ensures forall region | IsBestRegion(s, look, region) :: region == CheckRegion(pool[0].weight)
  {
    hide Total, Pool, CheckRegion;
    PoolMembers(s, look, CheckRegion(pool[0].weight));
    TotalBounds(pool);
  }
}
