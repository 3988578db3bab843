/** The choice of a connection on a worker whose index agrees with its table. */
module WorkerChoice {
  import opened Options
  import opened WeightIndexes
  import opened ServerList
  import opened WeightedChoice

  /**
   What ChooseNextReadyConn finds for a client: the table's entries are what keeps clients alive, and the peer address
   is the table key it looks under.
   */
  ghost function LookAt(
    table: map<string, Held>, peer: Client -> Option<string>, healthy: string -> bool, client: Client
  ): Look {
    if forall k | k in table :: table[k].client != client then Expired
    else if peer(client) == None then NotConnected
    else if peer(client).value !in table then NotInTable
    else if healthy(peer(client).value) then Healthy
    else Unhealthy
  }

  /** A live connection's peer address is its configured one. */
  ghost predicate PeersConfigured(table: map<string, Held>, peer: Client -> Option<string>) {
    forall k | k in table :: peer(table[k].client) in {None, Some(k)}
  }

  /** With the index in agreement with the table, a look never finds an entry to erase. */
  lemma NothingToErase(
    entries: seq<Entry>, table: map<string, Held>, weights: iset<real>, nextClient: Client,
    peer: Client -> Option<string>, healthy: string -> bool
  )
    requires Indexes(entries, table, weights, nextClient) && PeersConfigured(table, peer)
    ensures forall e | e in entries :: LookAt(table, peer, healthy, e.client) !in {Expired, NotInTable}
  {
    hide Key, EffectiveWeight;
    forall e | e in entries
      ensures LookAt(table, peer, healthy, e.client) !in {Expired, NotInTable}
    {
      assert Owned(e, table);
      var k :| k in table && table[k].Own() == e;
      assert peer(table[k].client) in {None, Some(k)};
    }
  }

  lemma {:induction false} AllStay(s: seq<Entry>, look: Client -> Look)
    requires forall e | e in s :: look(e.client) !in {Expired, NotInTable}
    ensures Stay(s, look) == s
  {
    if s != [] {
      assert s[|s| - 1] in s;
      AllStay(s[..|s| - 1], look);
    }
  }

  lemma TableWeighable(entries: seq<Entry>, table: map<string, Held>, weights: iset<real>, nextClient: Client)
    requires Indexes(entries, table, weights, nextClient) && Separated(weights) && forall w | w in weights :: w >= 0.0
    ensures Weighable(entries)
  {
    hide Key, EffectiveWeight, CheckDoubleEqual;
    forall e | e in entries
      ensures e.weight in weights
    {
      assert Owned(e, table);
      var k :| k in table && table[k].Own() == e;
      assert Owner(entries, k, table[k], weights, nextClient);
    }
  }

  lemma NoneVisited(s: seq<Entry>, look: Client -> Look)
    requires forall e | e in s :: look(e.client) !in {Expired, NotInTable}
    ensures forall i | 0 <= i <= |s| :: Visited(s, look, i) == s
  {
    forall i | 0 <= i <= |s|
      ensures Visited(s, look, i) == s
    {
      AllStay(s[..i], look);
    }
  }

  lemma {:induction false} ClassMembers(pool: seq<Entry>, w: real, client: Client)
    requires client in ClientsOf(pool, w)
    ensures exists e | e in pool :: e.client == client
  {
    var last := pool[|pool| - 1];
    assert last in pool;
    if last.weight != w || client != last.client {
      ClassMembers(pool[..|pool| - 1], w, client);
      var e :| e in pool[..|pool| - 1] && e.client == client;
      assert e in pool;
    }
  }

  lemma ChosenMember(s: seq<Entry>, look: Client -> Look, region: int, random: nat, pick: nat, client: Client)
    requires Chosen(Pool(s, look, region), random, pick, client)
    ensures exists e | e in s :: e.client == client && look(client) == Healthy
  {
    var pool := Pool(s, look, region);
    PoolMembers(s, look, region);
    var w :| ChosenOf(pool, random, pick, client, w);
    ClassMembers(pool, w, client);
  }

  lemma BestRegionExists(s: seq<Entry>, look: Client -> Look) returns (region: int)
    requires HealthyIn(s, look)
    ensures IsBestRegion(s, look, region)
  {
    var e :| e in s && look(e.client) == Healthy;
    if f :| f in s && look(f.client) == Healthy && CheckRegion(f.weight) == 0 {
      region := 0;
    } else if f :| f in s && look(f.client) == Healthy && CheckRegion(f.weight) == 1 {
      region := 1;
    } else {
      region := 2;
    }
  }

  /** A healthy look is a connection that is up, under its own address, and healthy. */
  lemma HealthyLook(
    entries: seq<Entry>, table: map<string, Held>, weights: iset<real>, nextClient: Client,
    peer: Client -> Option<string>, healthy: string -> bool, e: Entry
  )
    requires Indexes(entries, table, weights, nextClient) && PeersConfigured(table, peer) && e in entries
    ensures LookAt(table, peer, healthy, e.client) == Healthy
        <==> exists k | k in table :: table[k].client == e.client && peer(e.client) == Some(k) && healthy(k)
  {
    hide Key, EffectiveWeight;
    assert Owned(e, table);
    var k :| k in table && table[k].Own() == e;
    assert peer(table[k].client) in {None, Some(k)};
  }

  /** The worker's call: the index stays as it is, and a client that is up and healthy is found if there is one. */
  method Choose(
    worker: Worker, look: Client -> Look, random: nat, pick: nat,
    ghost peer: Client -> Option<string>, ghost healthy: string -> bool
  ) returns (code: int, client: Option<Client>)
    requires worker.Indexed() && forall w | w in worker.weights :: w >= 0.0
    requires PeersConfigured(worker.Table(), peer)
    requires forall c :: look(c) == LookAt(worker.Table(), peer, healthy, c)
    modifies worker.index
    ensures worker.Indexed() && worker.index.entries == old(worker.index.entries)
    ensures code == 0 <==> exists k | k in worker.Table() :: Up(worker.Table()[k].client, k, peer, healthy)
    ensures client.Some? <==> code == 0
    ensures code == 0 ==> exists k | k in worker.Table() ::
              worker.Table()[k].client == client.value && Up(client.value, k, peer, healthy)
  {
    hide *;
    ghost var entries, table, weights := worker.index.entries, worker.Table(), worker.weights;
    worker.Facts();
    Ready(entries, table, weights, worker.nextClient, peer, healthy, look);
    code, client := ChooseNextReadyConn(worker.index, look, random, pick);
    worker.FromFacts();
    if code == 0 {
      ghost var region := BestRegionExists(entries, look);
      ChosenMember(entries, look, region, random, pick, client.value);
      ChosenUp(entries, table, weights, worker.nextClient, peer, healthy, look, client.value);
    }
  }

  lemma Ready(
    entries: seq<Entry>, table: map<string, Held>, weights: iset<real>, nextClient: Client,
    peer: Client -> Option<string>, healthy: string -> bool, look: Client -> Look
  )
    requires Indexes(entries, table, weights, nextClient) && PeersConfigured(table, peer) && Separated(weights)
    requires (forall w | w in weights :: w >= 0.0) && forall c :: look(c) == LookAt(table, peer, healthy, c)
    ensures Weighable(entries)
    ensures forall i | 0 <= i <= |entries| :: Visited(entries, look, i) == entries
    ensures HealthyIn(entries, look) <==> exists k | k in table :: Up(table[k].client, k, peer, healthy)
    ensures entries == [] ==> !HealthyIn(entries, look)
  {
    NothingToErase(entries, table, weights, nextClient, peer, healthy);
    TableWeighable(entries, table, weights, nextClient);
    NoneVisited(entries, look);
    SomeUp(entries, table, weights, nextClient, peer, healthy, look);
  }

  /** The client's connection is up, to address k, and healthy. */
  ghost predicate Up(client: Client, k: string, peer: Client -> Option<string>, healthy: string -> bool) {
    peer(client) == Some(k) && healthy(k)
  }

  lemma ChosenUp(
    entries: seq<Entry>, table: map<string, Held>, weights: iset<real>, nextClient: Client,
    peer: Client -> Option<string>, healthy: string -> bool, look: Client -> Look, client: Client
  )
    requires Indexes(entries, table, weights, nextClient) && PeersConfigured(table, peer)
    requires forall c :: look(c) == LookAt(table, peer, healthy, c)
    requires exists e | e in entries :: e.client == client && look(client) == Healthy
    ensures exists k | k in table :: table[k].client == client && Up(client, k, peer, healthy)
  {
    hide Indexes, LookAt;
    var e :| e in entries && e.client == client;
    HealthyLook(entries, table, weights, nextClient, peer, healthy, e);
  }

  lemma SomeUp(
    entries: seq<Entry>, table: map<string, Held>, weights: iset<real>, nextClient: Client,
    peer: Client -> Option<string>, healthy: string -> bool, look: Client -> Look
  )
    requires Indexes(entries, table, weights, nextClient) && PeersConfigured(table, peer)
    requires forall c :: look(c) == LookAt(table, peer, healthy, c)
    ensures HealthyIn(entries, look) <==> exists k | k in table :: Up(table[k].client, k, peer, healthy)
  {
    IndexedEach(entries, table, weights, nextClient);
    hide Indexes, LookAt, Key, EffectiveWeight;
    if HealthyIn(entries, look) {
      var e :| e in entries && look(e.client) == Healthy;
      HealthyLook(entries, table, weights, nextClient, peer, healthy, e);
    }
    if k :| k in table && Up(table[k].client, k, peer, healthy) {
      HealthyLook(entries, table, weights, nextClient, peer, healthy, table[k].Own());
      assert look(table[k].Own().client) == Healthy;
    }
  }
}
