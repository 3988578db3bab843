/**
 cthrift/cthrift_client_worker.cc: reconciling the server list, and keeping the connection table and the weight
 index in step with it.
 */
module ServerList {
  import opened Options
  import NumericStrings
  import NumericParsing
  import opened WeightIndexes

  /** SGService: the fields the worker uses, and the other fields operator == compares. */
  datatype Service = Service(ip: string, port: int, weight: int, fweight: real, status: int, details: seq<string>)

  /** The table key: ip, a colon and the port in decimal. */
  function Key(s: Service): string {
    s.ip + ":" + NumericStrings.Formatted(s.port, 10, false, -1, ' ', '\0')
  }

  /** Behind the address and a colon stand the plain digits of the port, so the key tells ports of an address apart. */
  lemma KeyIs(s: Service)
    ensures var ip, key := s.ip, Key(s);
            && |key| > |ip| + 1 && key[..|ip|] == ip && key[|ip|] == ':'
            && var port := key[|ip| + 1..];
               if s.port < 0 then port[0] == '-' && NumericParsing.IsPlain(port[1..], -s.port)
               else NumericParsing.IsPlain(port, s.port)
  {
    NumericParsing.PlainDecimal(s.port);
    var port := NumericStrings.Formatted(s.port, 10, false, -1, ' ', '\0');
    hide NumericStrings.Formatted, NumericParsing.IsPlain;
    assert Key(s)[|s.ip| + 1..] == port;
  }

  lemma KeysTellPorts(s: Service, t: Service)
    requires s.ip == t.ip && s.port >= 0 && t.port >= 0 && Key(s) == Key(t)
    ensures s.port == t.port
  {
    KeyIs(s);
    KeyIs(t);
  }

  /** FetchOctoWeight on a service's two weights */
  function EffectiveWeight(s: Service): real {
    if !CheckDoubleEqual(s.fweight, s.weight as real) && !CheckDoubleEqual(s.fweight, 0.0) then s.fweight
    else s.weight as real
  }

  /** The weight a record is indexed under: its fweight, up to the tolerance, unless that is zero; else its weight. */
  predicate IndexedUnder(s: Service, weight: real) {
    if CheckDoubleEqual(s.fweight, 0.0) then weight == s.weight as real
    else CheckDoubleEqual(weight, s.fweight) && (weight == s.fweight || weight == s.weight as real)
  }

  lemma EffectiveWeightIs(s: Service)
    ensures IndexedUnder(s, EffectiveWeight(s))
  {
  }

  /** Weights in use are equal or at least epsilon apart, so comparing with a tolerance is comparing. */
  ghost predicate Separated(weights: iset<real>) {
    forall a, b | a in weights && b in weights :: SameOrApart(a, b)
  }

  ghost predicate WeightsIn(list: seq<Service>, weights: iset<real>) {
    forall s | s in list :: EffectiveWeight(s) in weights
  }

  // ----- a table entry -----

  /** What a connection holds: its record, its client and the iterator to its index entry. */
  datatype Held = Held(service: Service, client: Client, position: nat) {
    /** The index entry the connection owns. */
    function Own(): Entry {
      Entry(position, EffectiveWeight(service), client)
    }
  }

  class ConnInfo {
    const index: WeightIndex
    var service: Service
    var client: Option<Client>
    /** it_map_weight_tcpclientwp_index_ */
    var position: nat

    constructor (service: Service, index: WeightIndex)
      ensures this.service == service && this.index == index && client == None
    {
      this.service, this.index, client, position := service, index, None, 0;
    }

    ghost function State(): Held
      requires client.Some?
      reads this
    {
      Held(service, client.value, position)
    }

    method SetTcpClient(newClient: Client)
      requires index.Valid()
      modifies this, index
      ensures index.Valid() && service == old(service) && client == Some(newClient) && position == old(index.nextId)
      ensures index.nextId == old(index.nextId) + 1
      ensures forall x :: x in index.entries <==>
                x == State().Own() || (x in old(index.entries) && (old(client).Some? ==> x.id != old(position)))
      ensures State().Own().client == newClient && IndexedUnder(service, State().Own().weight)
    {
      if client.Some? {
        index.Erase(position);
      }
      client := Some(newClient);
      position := index.Insert(EffectiveWeight(service), newClient);
    }

    /**
     A changed weight moves the index entry; the connection and its client stay. The entry has the new weight exactly
     when the weights are equal or told apart: a lesser change is lost.
     */
    method UptSgservice(newService: Service)
      requires index.Valid() && client.Some? && State().Own() in index.entries
      modifies this, index
      ensures index.Valid() && service == newService && client == old(client)
      ensures index.nextId >= old(index.nextId)
      ensures position == old(position) || position == old(index.nextId) < index.nextId
      ensures State().Own() in index.entries <==> SameOrApart(old(EffectiveWeight(service)), EffectiveWeight(newService))
      ensures State().Own() in index.entries ==>
                forall x :: x in index.entries <==> x == State().Own() || (x in old(index.entries) && x.id != old(position))
      ensures State().Own() !in index.entries ==> index.entries == old(index.entries)
      ensures State().Own().client == client.value && IndexedUnder(newService, State().Own().weight)
    {
      var oldWeight, newWeight := EffectiveWeight(service), EffectiveWeight(newService);
      UniqueEntry(index.entries, State().Own());
      if !CheckDoubleEqual(oldWeight, newWeight) {
        index.Erase(position);
        position := index.Insert(newWeight, client.value);
      }
      service := newService;
    }
  }

  /** Comparing with a tolerance is comparing. */
  predicate SameOrApart(a: real, b: real) { a == b || !CheckDoubleEqual(a, b) }

  /** An element is the only one with its iterator. */
  lemma UniqueEntry(s: seq<Entry>, e: Entry)
    requires DistinctIds(s) && e in s
    ensures forall x | x in s && x.id == e.id :: x == e
  {
  }

  // ----- tables keyed by address -----

  function Keys(list: seq<Service>): set<string> {
    set s | s in list :: Key(s)
  }

  predicate DistinctKeys(list: seq<Service>) {
    forall i, j | 0 <= i < j < |list| :: Key(list[i]) != Key(list[j])
  }

  /** Entering the records one by one, a later one in place of an earlier one. */
  function Put(m: map<string, Service>, list: seq<Service>): map<string, Service> {
    if list == [] then m else Put(m, list[..|list| - 1])[Key(list[|list| - 1]) := list[|list| - 1]]
  }

  /** Entering the records one by one, an earlier one kept. */
  function PutIfAbsent(m: map<string, Service>, list: seq<Service>): map<string, Service> {
    if list == [] then m
    else
      var before, s := PutIfAbsent(m, list[..|list| - 1]), list[|list| - 1];
      if Key(s) in before then before else before[Key(s) := s]
  }

  predicate Agrees(m: map<string, Service>, n: map<string, Service>) {
    forall k | k in m :: k in n && n[k] == m[k]
  }

  lemma PutAppend(m: map<string, Service>, list: seq<Service>, s: Service)
    ensures Put(m, list + [s]) == Put(m, list)[Key(s) := s]
    ensures PutIfAbsent(m, list + [s])
         == if Key(s) in PutIfAbsent(m, list) then PutIfAbsent(m, list) else PutIfAbsent(m, list)[Key(s) := s]
  {
    assert (list + [s])[..|list|] == list;
  }

  lemma KeysAppend(list: seq<Service>, s: Service)
    ensures Keys(list + [s]) == Keys(list) + {Key(s)}
  {
    assert forall x :: x in list + [s] <==> x in list || x == s;
    assert s in list + [s];
  }

  function Rest(list: seq<Service>): seq<Service>
    requires list != []
  {
    list[..|list| - 1]
  }

  function Last(list: seq<Service>): Service
    requires list != []
  {
    list[|list| - 1]
  }

  /** The definitions unfolded at a list's last record. */
  lemma Unfolded(m: map<string, Service>, list: seq<Service>)
    requires list != []
    ensures list == Rest(list) + [Last(list)] && Last(list) in list
    ensures forall s | s in list :: s in Rest(list) || s == Last(list)
    ensures Keys(list) == Keys(Rest(list)) + {Key(Last(list))}
    ensures Put(m, list) == Put(m, Rest(list))[Key(Last(list)) := Last(list)]
    ensures PutIfAbsent(m, list)
         == var before := PutIfAbsent(m, Rest(list));
            if Key(Last(list)) in before then before else before[Key(Last(list)) := Last(list)]
  {
    hide Key;
    assert list == Rest(list) + [Last(list)];
    KeysAppend(Rest(list), Last(list));
  }

  lemma UpdatesSwap(m: map<string, Service>, k: string, s: Service, l: string, t: Service)
    requires k != l
    ensures m[k := s][l := t] == m[l := t][k := s]
  {
  }

  lemma {:induction false} PutHas(m: map<string, Service>, list: seq<Service>, k: string)
    ensures k in Put(m, list) <==> k in m || k in Keys(list)
    ensures k in PutIfAbsent(m, list) <==> k in m || k in Keys(list)
  {
    if list != [] {
      hide *;
      Unfolded(m, list);
      PutHas(m, Rest(list), k);
    }
  }

  lemma PutKeys(m: map<string, Service>, list: seq<Service>)
    ensures Put(m, list).Keys == m.Keys + Keys(list)
    ensures PutIfAbsent(m, list).Keys == m.Keys + Keys(list)
  {
    hide *;
    forall k {
      PutHas(m, list, k);
    }
  }

  /** Records under other keys do not matter to a key. */
  lemma {:induction false} PutOther(m: map<string, Service>, list: seq<Service>, k: string, s: Service)
    requires k !in Keys(list)
    ensures Put(m[k := s], list) == Put(m, list)[k := s]
  {
    if list != [] {
      hide *;
      Unfolded(m, list);
      Unfolded(m[k := s], list);
      PutOther(m, Rest(list), k, s);
      UpdatesSwap(Put(m, Rest(list)), k, s, Key(Last(list)), Last(list));
    }
  }

  lemma {:induction false} PutAgrees(m: map<string, Service>, n: map<string, Service>, list: seq<Service>)
    requires Agrees(m, n)
    ensures Agrees(Put(m, list), Put(n, list))
  {
    if list != [] {
      PutAgrees(m, n, list[..|list| - 1]);
    }
  }

  lemma DistinctRest(list: seq<Service>)
    requires list != [] && DistinctKeys(list)
    ensures DistinctKeys(Rest(list)) && Key(Last(list)) !in Keys(Rest(list))
  {
  }

  lemma {:induction false} DistinctKept(m: map<string, Service>, list: seq<Service>)
    requires DistinctKeys(list) && m.Keys !! Keys(list)
    ensures PutIfAbsent(m, list) == Put(m, list)
    ensures forall s | s in list :: Key(s) in Put(m, list) && Put(m, list)[Key(s)] == s
  {
    if list != [] {
      hide *;
      Unfolded(m, list);
      DistinctRest(list);
      DistinctKept(m, Rest(list));
      PutKeys(m, Rest(list));
      forall s | s in Rest(list)
        ensures Key(s) != Key(Last(list))
      {
        MemberKey(s, Rest(list));
      }
    }
  }

  lemma MemberKey(s: Service, list: seq<Service>)
    requires s in list
    ensures Key(s) in Keys(list)
  {
  }

  /** Which record stands under a key that the list has does not depend on the table before. */
  lemma {:induction false} PutListed(m: map<string, Service>, list: seq<Service>, k: string)
    requires k in Keys(list)
    ensures k in Put(m, list) && k in Put(map[], list) && Put(m, list)[k] == Put(map[], list)[k]
  {
    if list != [] {
      hide *;
      Unfolded(m, list);
      Unfolded(map[], list);
      if k != Key(Last(list)) {
        PutListed(m, Rest(list), k);
      }
    }
  }

  lemma {:induction false} PutUnlisted(m: map<string, Service>, list: seq<Service>, k: string)
    requires k in m && k !in Keys(list)
    ensures k in Put(m, list) && Put(m, list)[k] == m[k]
  {
    if list != [] {
      Unfolded(m, list);
      PutUnlisted(m, Rest(list), k);
    }
  }

  // ----- comparing a new list with the table -----

  /** The records that are live: status 2. */
  function Active(list: seq<Service>): seq<Service> {
    if list == [] then [] else Active(list[..|list| - 1]) + (if Last(list).status == 2 then [Last(list)] else [])
  }

  /** Of the list, the records whose keys were not in the table when their turn came. */
  function Added(m: map<string, Service>, list: seq<Service>): seq<Service> {
    if list == [] then []
    else Added(m, list[..|list| - 1]) + (if Key(Last(list)) in Put(m, Rest(list)) then [] else [Last(list)])
  }

  /** Of the list, the records that replaced a different one. */
  function Changed(m: map<string, Service>, list: seq<Service>): seq<Service> {
    if list == [] then []
    else
      var before := Put(m, Rest(list));
      Changed(m, list[..|list| - 1])
        + (if Key(Last(list)) in before && before[Key(Last(list))] != Last(list) then [Last(list)] else [])
  }

  lemma ListsUnfolded(m: map<string, Service>, list: seq<Service>)
    requires list != []
    ensures var before, s := Put(m, Rest(list)), Last(list);
            if Key(s) !in before then
              Added(m, list) == Added(m, Rest(list)) + [s] && Changed(m, list) == Changed(m, Rest(list))
            else if before[Key(s)] != s then
              Added(m, list) == Added(m, Rest(list)) && Changed(m, list) == Changed(m, Rest(list)) + [s]
            else
              Added(m, list) == Added(m, Rest(list)) && Changed(m, list) == Changed(m, Rest(list))
  {
    hide Key, Put;
  }

  lemma {:induction false} ListedKeys(m: map<string, Service>, list: seq<Service>)
    ensures Keys(Added(m, list)) <= Keys(list) && Keys(Changed(m, list)) <= Keys(list)
  {
    if list != [] {
      hide *;
      Unfolded(m, list);
      ListsUnfolded(m, list);
      ListedKeys(m, Rest(list));
      KeysAppend(Added(m, Rest(list)), Last(list));
      KeysAppend(Changed(m, Rest(list)), Last(list));
    } else {
      assert Added(m, list) == [] && Changed(m, list) == [];
    }
  }

  lemma PutAgreesAt(m: map<string, Service>, n: map<string, Service>, list: seq<Service>, k: string)
    requires Agrees(m, n)
    ensures k in Put(m, list) ==> k in Put(n, list) && Put(n, list)[k] == Put(m, list)[k]
  {
    hide Key, Put;
    PutAgrees(m, n, list);
  }

  /**
   In a table that agrees with the compared one, adding the added and then changing the changed does what entering
   the whole list does.
   */
  lemma {:induction false} ListsApplied(m: map<string, Service>, table: map<string, Service>, list: seq<Service>)
    requires Agrees(m, table)
    ensures Put(Put(table, Added(m, list)), Changed(m, list)) == Put(table, list)
  {
    if list != [] {
      hide *;
      var s, added, changed := Last(list), Added(m, Rest(list)), Changed(m, Rest(list));
      var known, after := Put(m, Rest(list)), Put(table, Rest(list));
      ListsUnfolded(m, list);
      PutAgreesAt(m, table, Rest(list), Key(s));
      Unfolded(table, list);
      ListsApplied(m, table, Rest(list));
      if Key(s) !in known {
        PutHas(m, Rest(list), Key(s));
        ListedKeys(m, Rest(list));
        AddedStep(table, added, changed, s);
      } else if known[Key(s)] != s {
        PutAppend(Put(table, added), changed, s);
      } else {
        Reentered(after, Key(s));
      }
    } else {
      EmptyLists(table, list);
      EmptyLists(m, list);
    }
  }

  lemma Reentered(m: map<string, Service>, k: string)
    requires k in m
    ensures m[k := m[k]] == m
  {
  }

  lemma AddedStep(m: map<string, Service>, added: seq<Service>, changed: seq<Service>, s: Service)
    requires Key(s) !in Keys(changed)
    ensures Put(Put(m, added + [s]), changed) == Put(Put(m, added), changed)[Key(s) := s]
  {
    hide *;
    PutAppend(m, added, s);
    PutOther(Put(m, added), changed, Key(s), s);
  }

  lemma EmptyLists(m: map<string, Service>, list: seq<Service>)
    requires list == []
    ensures Added(m, list) == [] && Changed(m, list) == [] && Keys(list) == {}
    ensures Put(m, list) == m && PutIfAbsent(m, list) == m
  {
  }

  /** With no key twice: what is new, what differs, and nothing in both lists. */
  lemma {:induction false} ListsMeaning(m: map<string, Service>, list: seq<Service>)
    requires DistinctKeys(list)
    ensures forall s :: s in Added(m, list) <==> s in list && Key(s) !in m
    ensures forall s :: s in Changed(m, list) <==> s in list && Key(s) in m && m[Key(s)] != s
    ensures DistinctKeys(Added(m, list)) && DistinctKeys(Changed(m, list))
    ensures Keys(Added(m, list)) !! m.Keys && Keys(Changed(m, list)) <= m.Keys
  {
    if list != [] {
      hide *;
      var s := Last(list);
      Unfolded(m, list);
      ListsUnfolded(m, list);
      DistinctRest(list);
      ListsMeaning(m, Rest(list));
      ListedKeys(m, Rest(list));
      PutKeys(m, Rest(list));
      if Key(s) in m {
        PutUnlisted(m, Rest(list), Key(s));
      }
      KeysAppend(Added(m, Rest(list)), s);
      KeysAppend(Changed(m, Rest(list)), s);
      DistinctAppend(Added(m, Rest(list)), s);
      DistinctAppend(Changed(m, Rest(list)), s);
    } else {
      assert Added(m, list) == [] && Changed(m, list) == [];
    }
  }

  lemma DistinctAppend(list: seq<Service>, s: Service)
    requires DistinctKeys(list) && Key(s) !in Keys(list)
    ensures DistinctKeys(list + [s])
  {
    forall i | 0 <= i < |list|
      ensures Key(list[i]) != Key(s)
    {
      MemberKey(list[i], list);
    }
  }

  // ----- reconciling -----

  /** What UpdateSvrList makes of the known services. */
  function Reconciled(m: map<string, Service>, list: seq<Service>): map<string, Service> {
    if m == map[] then PutIfAbsent(map[], Active(list)) else Put(map[], Active(list))
  }

  function ToAdd(m: map<string, Service>, list: seq<Service>): seq<Service> {
    if m == map[] then Active(list) else Added(m, Active(list))
  }

  function ToChange(m: map<string, Service>, list: seq<Service>): seq<Service> {
    if m == map[] then [] else Changed(m, Active(list))
  }

  ghost predicate Keyed(m: map<string, Service>) {
    forall k | k in m :: Key(m[k]) == k
  }

  /** del holds, once each, the records of m under the given keys. */
  ghost predicate Holds(del: seq<Service>, m: map<string, Service>, keys: set<string>) {
    && DistinctKeys(del)
    && forall s :: s in del <==> Key(s) in keys && Key(s) in m && m[Key(s)] == s
  }

  lemma HoldsMore(del: seq<Service>, m: map<string, Service>, keys: set<string>, k: string)
    requires Holds(del, m, keys) && Keyed(m) && k in m && k !in keys
    ensures Holds(del + [m[k]], m, keys + {k})
  {
    hide Key;
    assert k !in Keys(del);
    DistinctAppend(del, m[k]);
    assert forall s :: s in del + [m[k]] <==> s in del || s == m[k];
  }

  lemma HoldsKeys(del: seq<Service>, m: map<string, Service>, keys: set<string>)
    requires Holds(del, m, keys) && Keyed(m) && keys <= m.Keys
    ensures Keys(del) == keys
  {
    hide Key;
    forall k | k in keys
      ensures k in Keys(del)
    {
      assert m[k] in del;
    }
  }

  lemma {:induction false} PutKeyed(m: map<string, Service>, list: seq<Service>)
    requires Keyed(m)
    ensures Keyed(Put(m, list)) && Keyed(PutIfAbsent(m, list))
  {
    if list != [] {
      hide Key, Put, PutIfAbsent;
      Unfolded(m, list);
      PutKeyed(m, Rest(list));
    }
  }

  /** Taking out the keys that the list lacks leaves what the list alone gives. */
  lemma Relisted(m: map<string, Service>, list: seq<Service>)
    ensures Put(m, list) - (m.Keys - Keys(list)) == Put(map[], list)
  {
    hide *;
    var now, alone := Put(m, list) - (m.Keys - Keys(list)), Put(map[], list);
    forall k
      ensures (k in now <==> k in alone) && (k in now ==> now[k] == alone[k])
    {
      PutHas(m, list, k);
      PutHas(map[], list, k);
      if k in Keys(list) {
        PutListed(m, list, k);
      }
    }
  }

  lemma ListsAppend(m: map<string, Service>, list: seq<Service>, s: Service)
    ensures Added(m, list + [s]) == if Key(s) in Put(m, list) then Added(m, list) else Added(m, list) + [s]
    ensures Changed(m, list + [s])
         == if Key(s) in Put(m, list) && Put(m, list)[Key(s)] != s then Changed(m, list) + [s] else Changed(m, list)
  {
    hide Key, Put;
    assert (list + [s])[..|list|] == list;
  }

  lemma ActiveAppend(list: seq<Service>, i: nat)
    requires i < |list|
    ensures Active(list[..i + 1]) == if list[i].status == 2 then Active(list[..i]) + [list[i]] else Active(list[..i])
  {
    assert list[..i + 1][..i] == list[..i];
  }

  /** The first record in the list with key k, and the last. */
  function FirstWith(list: seq<Service>, k: string): Service
    requires k in Keys(list)
  {
    if k in Keys(list[..|list| - 1]) then FirstWith(list[..|list| - 1], k) else Last(list)
  }

  function LastWith(list: seq<Service>, k: string): Service
    requires k in Keys(list)
  {
    if Key(Last(list)) == k then Last(list)
    else
      assert list == list[..|list| - 1] + [Last(list)];
      LastWith(list[..|list| - 1], k)
  }

  /** Every address has the same record where the list first names it and where it last does. */
  predicate FirstIsLast(list: seq<Service>) {
    forall k | k in Keys(list) :: FirstWith(list, k) == LastWith(list, k)
  }

  lemma {:induction false} FirstAndLast(list: seq<Service>, k: string)
    requires k in Keys(list)
    ensures k in PutIfAbsent(map[], list) && PutIfAbsent(map[], list)[k] == FirstWith(list, k)
    ensures k in Put(map[], list) && Put(map[], list)[k] == LastWith(list, k)
  {
    hide Key, Keys, Put, PutIfAbsent;
    NoKeys();
    Unfolded(map[], list);
    PutHas(map[], Rest(list), k);
    if k in Keys(Rest(list)) {
      FirstAndLast(Rest(list), k);
    }
  }

  lemma FirstIsLastEntered(list: seq<Service>)
    ensures FirstIsLast(list) <==> PutIfAbsent(map[], list) == Put(map[], list)
  {
    hide Key, Keys, Put, PutIfAbsent, FirstWith, LastWith;
    PutKeys(map[], list);
    forall k | k in Keys(list)
      ensures k in PutIfAbsent(map[], list) && PutIfAbsent(map[], list)[k] == FirstWith(list, k)
      ensures k in Put(map[], list) && Put(map[], list)[k] == LastWith(list, k)
    {
      FirstAndLast(list, k);
    }
  }

  lemma DistinctFirstIsLast(list: seq<Service>)
    requires DistinctKeys(list)
    ensures FirstIsLast(list)
  {
    hide *;
    NoKeys();
    DistinctKept(map[], list);
    FirstIsLastEntered(list);
  }

  /** A first list with two records of one address leaves the table with the other of the two. */
  lemma TwiceInFirstList(s: Service, t: Service)
    requires s != t && Key(s) == Key(t) && s.status == t.status == 2
    ensures !FirstIsLast(Active([s, t]))
  {
    hide Key, FirstIsLast;
    ActiveAppend([s, t], 0);
    ActiveAppend([s, t], 1);
    assert [s, t][..1] == [s] && [s, t][..2] == [s, t] == [s] + [t] && [s, t][..0] == [] && [s] == [] + [s];
    FirstIsLastEntered([s, t]);
    PutAppend(map[], [s], t);
    PutAppend(map[], [], s);
  }

  lemma NoKeys()
    ensures Keys([]) == {} && DistinctKeys([])
  {
  }

  /**
   With no address twice, the three lists share no key, say what came, went and changed, and turn the old table into
   the new one.
   */
  lemma ReconciledByLists(m: map<string, Service>, list: seq<Service>, del: seq<Service>)
    requires Keyed(m) && DistinctKeys(Active(list)) && Holds(del, m, m.Keys - Keys(Active(list)))
    ensures var add, chg, act := ToAdd(m, list), ToChange(m, list), Active(list);
            && (forall s :: s in add <==> s in act && Key(s) !in m)
            && (forall s :: s in chg <==> s in act && Key(s) in m && m[Key(s)] != s)
            && DistinctKeys(add) && DistinctKeys(chg)
            && Keys(add) !! Keys(chg) && Keys(add) !! Keys(del) && Keys(chg) !! Keys(del)
            && Put(Put(m, add), chg) - Keys(del) == Reconciled(m, list)
  {
    var add, chg, act := ToAdd(m, list), ToChange(m, list), Active(list);
    hide Key, Keys, Put, PutIfAbsent, Active, Added, Changed, Holds, Keyed, DistinctKeys;
    HoldsKeys(del, m, m.Keys - Keys(act));
    NoKeys();
    if m == map[] {
      assert m.Keys - Keys(act) == {};
      DistinctKept(map[], act);
      PutNone(Put(m, act));
      assert Put(m, act) - {} == Put(m, act);
    } else {
      ListsMeaning(m, act);
      ListedKeys(m, act);
      ListsApplied(m, m, act);
      Relisted(m, act);
    }
  }

  lemma {:induction false} ListedMembers(m: map<string, Service>, list: seq<Service>, s: Service)
    ensures s in Added(m, list) || s in Changed(m, list) ==> s in list
  {
    if list != [] {
      hide *;
      Unfolded(m, list);
      ListsUnfolded(m, list);
      ListedMembers(m, Rest(list), s);
    }
  }

  lemma ListsWithin(m: map<string, Service>, list: seq<Service>, weights: iset<real>)
    requires WeightsIn(list, weights)
    ensures WeightsIn(Added(m, list), weights) && WeightsIn(Changed(m, list), weights) && WeightsIn([], weights)
  {
    hide EffectiveWeight, Added, Changed;
    forall s {
      ListedMembers(m, list, s);
    }
  }

  /** What the lists of one call make of the connection table. */
  function TableAfter(m: map<string, Service>, table: map<string, Service>, list: seq<Service>): map<string, Service> {
    Put(Put(table, ToAdd(m, list)), ToChange(m, list))
  }

  lemma TableAfterIs(m: map<string, Service>, table: map<string, Service>, list: seq<Service>)
    ensures TableAfter(m, table, list) == Put(Put(table, ToAdd(m, list)), ToChange(m, list))
  {
  }

  lemma ListsFollowed(m: map<string, Service>, list: seq<Service>, weights: iset<real>)
    requires WeightsIn(Active(list), weights)
    ensures WeightsIn(ToAdd(m, list), weights) && WeightsIn(ToChange(m, list), weights)
  {
    hide Key, EffectiveWeight, WeightsIn, Added, Changed, Active;
    ListsWithin(m, Active(list), weights);
  }

  /** A moved address has its known record in the table; any other is left alone, as its known record is. */
  ghost predicate Leaves(
    moved: bool, m: map<string, Service>, known: map<string, Service>, table: map<string, Service>,
    after: map<string, Service>, k: string
  ) {
    if moved then k in after && k in known && after[k] == known[k]
    else
      && (k in after <==> k in table) && (k in after ==> after[k] == table[k])
      && (k in known <==> k in m) && (k in m ==> known[k] == m[k])
  }

  lemma LeavesStep(
    moved: bool, m: map<string, Service>, known: map<string, Service>, table: map<string, Service>,
    after: map<string, Service>, k: string, l: string, s: Service
  )
    requires Leaves(moved, m, known, table, after, k)
    ensures Leaves(moved || k == l, m, known[l := s], table, after[l := s], k)
  {
  }

  predicate Moves(m: map<string, Service>, list: seq<Service>, k: string) {
    k in Keys(Added(m, list)) || k in Keys(Changed(m, list))
  }

  lemma {:induction false} ListsLeave(m: map<string, Service>, table: map<string, Service>, list: seq<Service>, k: string)
    ensures Leaves(Moves(m, list, k), m, Put(m, list), table, Put(Put(table, Added(m, list)), Changed(m, list)), k)
  {
    if list != [] {
      hide *;
      var s, added, changed := Last(list), Added(m, Rest(list)), Changed(m, Rest(list));
      var known, after := Put(m, Rest(list)), Put(Put(table, added), changed);
      Unfolded(m, list);
      ListsUnfolded(m, list);
      MovesStep(m, list, k);
      ListsLeave(m, table, Rest(list), k);
      LeavesStep(Moves(m, Rest(list), k), m, known, table, after, k, Key(s), s);
      if Key(s) !in known {
        PutHas(m, Rest(list), Key(s));
        ListedKeys(m, Rest(list));
        AddedStep(table, added, changed, s);
      } else if known[Key(s)] != s {
        PutAppend(Put(table, added), changed, s);
      } else {
        Reentered(known, Key(s));
      }
    } else {
      EmptyLists(table, list);
      EmptyLists(m, list);
      NoKeys();
    }
  }

  lemma MovesStep(m: map<string, Service>, list: seq<Service>, k: string)
    requires list != []
    ensures var known, s := Put(m, Rest(list)), Last(list);
            Moves(m, list, k)
            <==> Moves(m, Rest(list), k) || (k == Key(s) && (Key(s) !in known || known[Key(s)] != s))
  {
    hide Put, Key, Keys, Added, Changed;
    ListsUnfolded(m, list);
    KeysAppend(Added(m, Rest(list)), Last(list));
    KeysAppend(Changed(m, Rest(list)), Last(list));
  }

  /**
   When the table is in step after a call: after a first list, if first and last record of each address are equal; after
   a later one, if the addresses it names without adding or changing them were in step before.
   */
  predicate Settled(m: map<string, Service>, table: map<string, Service>, list: seq<Service>) {
    if m == map[] then FirstIsLast(Active(list))
    else forall k | k in Keys(Active(list)) && k !in Keys(ToAdd(m, list)) + Keys(ToChange(m, list)) ::
           k in m && k in table && table[k] == m[k]
  }

  /** That condition is exact, whatever table and known services were before. */
  lemma InStepIff(m: map<string, Service>, table: map<string, Service>, list: seq<Service>)
    ensures Agrees(Reconciled(m, list), TableAfter(m, table, list)) <==> Settled(m, table, list)
  {
    hide Key, Keys, Put, PutIfAbsent, Active, FirstIsLast, Added, Changed;
    var act := Active(list);
    if m == map[] {
      FirstListInStep(table, act);
    } else {
      var known, after := Put(map[], act), TableAfter(m, table, list);
      PutKeys(map[], act);
      NoKeys();
      forall k | k in Keys(act)
        ensures k in known && k in Put(m, act) && known[k] == Put(m, act)[k]
        ensures var moved := Keys(ToAdd(m, list)) + Keys(ToChange(m, list));
                if k in moved then k in after && after[k] == known[k]
                else k in m && known[k] == m[k] && (k in after <==> k in table) && (k in after ==> after[k] == table[k])
      {
        PutListed(m, act, k);
        ListsLeave(m, table, act, k);
      }
    }
  }

  lemma FirstListInStep(table: map<string, Service>, act: seq<Service>)
    ensures Agrees(PutIfAbsent(map[], act), Put(Put(table, act), [])) <==> FirstIsLast(act)
  {
    hide Key, Keys, Put, PutIfAbsent, FirstIsLast;
    PutNone(Put(table, act));
    FirstIsLastEntered(act);
    PutKeys(map[], act);
    NoKeys();
    forall k | k in Keys(act)
      ensures k in Put(table, act) && k in Put(map[], act) && Put(table, act)[k] == Put(map[], act)[k]
    {
      PutListed(table, act, k);
    }
  }

  /** From a table in step: the live records are entered, and it stays in step unless the list is a first one. */
  lemma FromStep(m: map<string, Service>, table: map<string, Service>, list: seq<Service>)
    requires Agrees(m, table)
    ensures TableAfter(m, table, list) == Put(table, Active(list))
    ensures Settled(m, table, list) <==> m != map[] || FirstIsLast(Active(list))
  {
    hide Key, Keys, Put, PutIfAbsent, Active, FirstIsLast, Added, Changed;
    ListsApplied(m, table, Active(list));
    PutNone(Put(table, Active(list)));
    if m != map[] {
      forall k | k in Keys(Active(list)) && k !in Keys(ToAdd(m, list)) + Keys(ToChange(m, list))
        ensures k in m
      {
        ListsLeave(m, table, Active(list), k);
        PutHas(m, Active(list), k);
      }
    }
  }

  /** Every known service is in the table, in step or not. */
  lemma KnownInTable(m: map<string, Service>, table: map<string, Service>, list: seq<Service>)
    requires m.Keys <= table.Keys
    ensures Reconciled(m, list).Keys <= TableAfter(m, table, list).Keys
  {
    hide Key, Keys, Put, PutIfAbsent, Active, Added, Changed;
    var act := Active(list);
    NoKeys();
    PutKeys(map[], act);
    forall k | k in Keys(act)
      ensures k in TableAfter(m, table, list)
    {
      if m == map[] {
        PutNone(Put(table, act));
        PutHas(table, act, k);
      } else {
        ListsLeave(m, table, act, k);
        PutHas(m, act, k);
      }
    }
  }

  // ----- runs -----

  /** The known services after a run of lists. */
  function ServicesAfter(m: map<string, Service>, lists: seq<seq<Service>>): map<string, Service> {
    if lists == [] then m else Reconciled(ServicesAfter(m, lists[..|lists| - 1]), lists[|lists| - 1])
  }

  function TableAfterAll(m: map<string, Service>, table: map<string, Service>, lists: seq<seq<Service>>): map<string, Service> {
    if lists == [] then table
    else
      var front := lists[..|lists| - 1];
      TableAfter(ServicesAfter(m, front), TableAfterAll(m, table, front), lists[|lists| - 1])
  }

  lemma RunStep(m: map<string, Service>, table: map<string, Service>, lists: seq<seq<Service>>)
    ensures lists == [] ==> ServicesAfter(m, lists) == m && TableAfterAll(m, table, lists) == table
    ensures lists != [] ==>
              var front, list := lists[..|lists| - 1], lists[|lists| - 1];
              && ServicesAfter(m, lists) == Reconciled(ServicesAfter(m, front), list)
              && TableAfterAll(m, table, lists) == TableAfter(ServicesAfter(m, front), TableAfterAll(m, table, front), list)
  {
  }

  /** Every list that meets no known services has equal first and last records. */
  predicate FirstListsAgree(m: map<string, Service>, lists: seq<seq<Service>>) {
    lists == []
    || (&& FirstListsAgree(m, lists[..|lists| - 1])
        && (ServicesAfter(m, lists[..|lists| - 1]) == map[] ==> FirstIsLast(Active(lists[|lists| - 1]))))
  }

  /**
   Over every run: known services stay in the table; the table stays in step through a run whose first lists agree, and
   a run that ends in step has settled its last list.
   */
  lemma {:induction false} RunInStep(m: map<string, Service>, table: map<string, Service>, lists: seq<seq<Service>>)
    ensures m.Keys <= table.Keys ==> ServicesAfter(m, lists).Keys <= TableAfterAll(m, table, lists).Keys
    ensures Agrees(m, table) && FirstListsAgree(m, lists) ==>
              Agrees(ServicesAfter(m, lists), TableAfterAll(m, table, lists))
    ensures lists != [] ==>
              var front := lists[..|lists| - 1];
              Agrees(ServicesAfter(m, lists), TableAfterAll(m, table, lists))
              <==> Settled(ServicesAfter(m, front), TableAfterAll(m, table, front), lists[|lists| - 1])
  {
    hide Key, Put, PutIfAbsent, Active, FirstIsLast, Added, Changed, Agrees, Settled, TableAfter, Reconciled;
    if lists != [] {
      var front, list := lists[..|lists| - 1], lists[|lists| - 1];
      var known, before := ServicesAfter(m, front), TableAfterAll(m, table, front);
      RunInStep(m, table, front);
      InStepIff(known, before, list);
      if m.Keys <= table.Keys {
        KnownInTable(known, before, list);
      }
      if Agrees(m, table) && FirstListsAgree(m, lists) {
        FromStep(known, before, list);
      }
    }
  }

  /** Lists that name no address twice are copied, and keep the table in step. */
  lemma {:induction false} DistinctRun(m: map<string, Service>, lists: seq<seq<Service>>)
    requires forall list | list in lists :: DistinctKeys(Active(list))
    ensures FirstListsAgree(m, lists)
    ensures lists != [] ==> ServicesAfter(m, lists).Keys == Keys(Active(lists[|lists| - 1]))
  {
    if lists != [] {
      hide Key, Keys, DistinctKeys, FirstIsLast, Active, Reconciled;
      var front, list := lists[..|lists| - 1], lists[|lists| - 1];
      assert list in lists && forall l | l in front :: l in lists;
      DistinctRun(m, front);
      DistinctFirstIsLast(Active(list));
      ReconciledIsList(ServicesAfter(m, front), list);
    }
  }

  lemma RestHolds(m: map<string, Service>, rest: map<string, Service>)
    requires Keyed(m) && Agrees(rest, m)
    ensures Keyed(rest)
  {
  }

  lemma HoldsWithin(del: seq<Service>, rest: map<string, Service>, m: map<string, Service>)
    requires Holds(del, rest, rest.Keys) && Agrees(rest, m)
    ensures Holds(del, m, rest.Keys)
  {
  }

  lemma LeftOver(m: map<string, Service>, done: seq<Service>, k: string)
    ensures m - (Keys(done) + {k}) == m - Keys(done) - {k}
    ensures k !in Put(m, done) ==> m - Keys(done) - {k} == m - Keys(done)
  {
    PutHas(m, done, k);
  }

  lemma Started(m: map<string, Service>, list: seq<Service>)
    ensures Active([]) == [] && Keys([]) == {} && list[..|list|] == list
    ensures Put(m, []) == m && Put(map[], []) == map[] == PutIfAbsent(map[], [])
    ensures Added(m, []) == [] && Changed(m, []) == []
    ensures Holds([], m, {}) && Keyed(map[])
  {
  }

  /** A list with no key twice is copied record by record, whatever the table was. */
  lemma ReconciledIsList(m: map<string, Service>, list: seq<Service>)
    requires DistinctKeys(Active(list))
    ensures Reconciled(m, list).Keys == Keys(Active(list))
    ensures forall s | s in Active(list) :: Key(s) in Reconciled(m, list) && Reconciled(m, list)[Key(s)] == s
  {
    hide Key, DistinctKeys, Keys, Put, PutIfAbsent, Active;
    DistinctKept(map[], Active(list));
    PutKeys(map[], Active(list));
  }

  // ----- the connection table and the index -----

  /**
   Every connection owns an index entry, with its present effective weight and its own client, and every entry is
   owned.
   */
  ghost predicate Indexes(entries: seq<Entry>, table: map<string, Held>, weights: iset<real>, nextClient: Client) {
    && (forall k | k in table :: Owner(entries, k, table[k], weights, nextClient))
    && (forall k, l | k in table && l in table && k != l :: table[k].client != table[l].client)
    && (forall e | e in entries :: Owned(e, table))
  }

  ghost predicate Owner(entries: seq<Entry>, k: string, h: Held, weights: iset<real>, nextClient: Client) {
    Key(h.service) == k && EffectiveWeight(h.service) in weights && h.client < nextClient && h.Own() in entries
  }

  ghost predicate Owned(e: Entry, table: map<string, Held>) {
    exists k | k in table :: table[k].Own() == e
  }

  lemma IndexedEach(entries: seq<Entry>, table: map<string, Held>, weights: iset<real>, nextClient: Client)
    requires Indexes(entries, table, weights, nextClient)
    ensures forall k | k in table ::
              Key(table[k].service) == k && EffectiveWeight(table[k].service) in weights && table[k].Own() in entries
  {
  }

  function Records(table: map<string, Held>): (records: map<string, Service>)
    ensures records.Keys == table.Keys
  {
    map k | k in table :: table[k].service
  }

  function Clients(table: map<string, Held>): (clients: map<string, Client>)
    ensures clients.Keys == table.Keys
  {
    map k | k in table :: table[k].client
  }

  lemma TableUpdated(table: map<string, Held>, k: string, h: Held)
    ensures Records(table[k := h]) == Records(table)[k := h.service]
    ensures Clients(table[k := h]) == Clients(table)[k := h.client]
    ensures k in table && table[k].client == h.client ==> Clients(table[k := h]) == Clients(table)
  {
  }

  /** An entry whose owner did not change stays owned. */
  lemma StillOwned(e: Entry, table: map<string, Held>, k: string, h: Held)
    requires Owned(e, table) && (k in table ==> e.id != table[k].position)
    ensures Owned(e, table[k := h])
  {
    var l :| l in table && table[l].Own() == e;
    assert table[k := h][l] == table[l];
  }

  lemma NowOwned(table: map<string, Held>, k: string, h: Held)
    ensures Owned(h.Own(), table[k := h])
  {
    assert table[k := h][k] == h;
  }

  lemma ConnectIndexes(
    entries: seq<Entry>, table: map<string, Held>, weights: iset<real>, nextClient: Client, k: string, h: Held,
    now: seq<Entry>
  )
    requires Indexes(entries, table, weights, nextClient)
    requires k !in table && Key(h.service) == k && EffectiveWeight(h.service) in weights && h.client == nextClient
    requires forall x :: x in now <==> x == h.Own() || x in entries
    ensures Indexes(now, table[k := h], weights, nextClient + 1)
  {
    hide Key, EffectiveWeight, Owned;
    forall e | e in now
      ensures Owned(e, table[k := h])
    {
      if e == h.Own() {
        NowOwned(table, k, h);
      } else {
        StillOwned(e, table, k, h);
      }
    }
  }

  lemma ChangeIndexes(
    entries: seq<Entry>, table: map<string, Held>, weights: iset<real>, nextClient: Client, k: string, h: Held,
    now: seq<Entry>
  )
    requires Indexes(entries, table, weights, nextClient) && DistinctIds(entries)
    requires k in table && Key(h.service) == k && EffectiveWeight(h.service) in weights && h.client == table[k].client
    requires forall x :: x in now <==> x == h.Own() || (x in entries && x.id != table[k].position)
    ensures Indexes(now, table[k := h], weights, nextClient)
  {
    hide Key, EffectiveWeight, Owned, DistinctIds;
    UniqueEntry(entries, table[k].Own());
    forall l | l in table && l != k
      ensures Owner(now, l, table[l], weights, nextClient)
    {
      assert Owner(entries, l, table[l], weights, nextClient);
      assert table[l].Own().client != table[k].Own().client;
    }
    forall e | e in now
      ensures Owned(e, table[k := h])
    {
      if e == h.Own() {
        NowOwned(table, k, h);
      } else {
        StillOwned(e, table, k, h);
      }
    }
  }

  /** The connections and clients of before are still there. */
  ghost predicate Kept<T>(before: map<string, T>, now: map<string, T>) {
    forall k | k in before :: k in now && now[k] == before[k]
  }

  lemma KeptLonger<T>(first: map<string, T>, middle: map<string, T>, k: string, v: T)
    requires Kept(first, middle) && k !in middle
    ensures Kept(first, middle[k := v])
  {
  }

  lemma ValuesLonger<T>(before: map<string, T>, k: string, v: T)
    ensures before[k := v].Values <= before.Values + {v}
    ensures before.Keys <= before[k := v].Keys
  {
  }

  lemma KeptOn<T>(first: map<string, T>, middle: map<string, T>, last: map<string, T>)
    requires Kept(first, middle) && Kept(middle, last)
    ensures Kept(first, last)
  {
  }

  /** One more record put off. */
  lemma PutOff(later: seq<Service>, s: Service, keys: set<string>, weights: iset<real>)
    requires WeightsIn(later, weights) && EffectiveWeight(s) in weights
    ensures WeightsIn(later + [s], weights)
    ensures Keys(later) <= keys && Key(s) in keys ==> Keys(later + [s]) <= keys
    ensures Keys(later) !! keys && Key(s) !in keys ==> Keys(later + [s]) !! keys
  {
    hide Key, EffectiveWeight;
  }

  lemma Unmodified<T, U>(conns: map<string, T>, clients: map<string, U>, records: map<string, Service>, list: seq<Service>)
    ensures Kept(conns, conns) && Kept(clients, clients)
    ensures Keys([]) == {} && list[..0] == [] && list[..|list|] == list
    ensures forall m :: Put(m, []) == m
    ensures forall weights :: WeightsIn([], weights)
  {
  }

  lemma KeptAll<T, U>(conns: map<string, T>, clients: map<string, U>)
    ensures Kept(conns, conns) && Kept(clients, clients)
  {
  }

  lemma PutNone(m: map<string, Service>)
    ensures Put(m, []) == m
  {
  }

  /** One record of the list put off. */
  lemma PutLater(before: map<string, Service>, list: seq<Service>, i: nat, now: map<string, Service>, later: seq<Service>)
    requires i < |list| && Put(now, later) == Put(before, list[..i])
    ensures Put(now, later + [list[i]]) == Put(before, list[..i + 1])
  {
    hide *;
    assert list[..i + 1] == list[..i] + [list[i]];
    PutAppend(before, list[..i], list[i]);
    PutAppend(now, later, list[i]);
  }

  /** One record of the list entered at once. */
  lemma PutNow(before: map<string, Service>, list: seq<Service>, i: nat, now: map<string, Service>, later: seq<Service>)
    requires i < |list| && Put(now, later) == Put(before, list[..i]) && Key(list[i]) !in Keys(later)
    ensures Put(now[Key(list[i]) := list[i]], later) == Put(before, list[..i + 1])
  {
    hide *;
    assert list[..i + 1] == list[..i] + [list[i]];
    PutAppend(before, list[..i], list[i]);
    PutOther(now, later, Key(list[i]), list[i]);
  }

  /** AddSrv after i records: the others are to be changed. */
  ghost predicate Adding(
    before: map<string, Service>, list: seq<Service>, i: nat, now: map<string, Service>, chg: seq<Service>,
    weights: iset<real>
  ) {
    i <= |list| && Put(now, chg) == Put(before, list[..i]) && Keys(chg) <= now.Keys && WeightsIn(chg, weights)
  }

  lemma AddingStep(
    before: map<string, Service>, list: seq<Service>, i: nat, now: map<string, Service>, chg: seq<Service>,
    weights: iset<real>
  )
    requires Adding(before, list, i, now, chg, weights) && i < |list| && EffectiveWeight(list[i]) in weights
    ensures Key(list[i]) in now ==> Adding(before, list, i + 1, now, chg + [list[i]], weights)
    ensures Key(list[i]) !in now ==> Adding(before, list, i + 1, now[Key(list[i]) := list[i]], chg, weights)
  {
    hide Key, Keys, Put, WeightsIn, EffectiveWeight;
    if Key(list[i]) in now {
      PutLater(before, list, i, now, chg);
      PutOff(chg, list[i], now.Keys, weights);
    } else {
      PutNow(before, list, i, now, chg);
    }
  }

  lemma AddingAll(
    before: map<string, Service>, list: seq<Service>, now: map<string, Service>, chg: seq<Service>, weights: iset<real>
  )
    requires Adding(before, list, |list|, now, chg, weights)
    ensures Put(now, chg) == Put(before, list) && Keys(chg) <= now.Keys && WeightsIn(chg, weights)
  {
    assert list[..|list|] == list;
  }

  lemma AddingNone(before: map<string, Service>, list: seq<Service>, weights: iset<real>)
    ensures Adding(before, list, 0, before, [], weights)
  {
  }

  lemma Member(list: seq<Service>, i: nat, weights: iset<real>)
    requires i < |list| && WeightsIn(list, weights)
    ensures EffectiveWeight(list[i]) in weights && Key(list[i]) in Keys(list)
  {
  }

  /** The entry at i is the only one with the connection's client. */
  ghost predicate OnlyEntry(entries: seq<Entry>, i: int, h: Held) {
    && 0 <= i < |entries| && entries[i] == h.Own()
    && forall j | 0 <= j < |entries| && entries[j].client == h.client :: j == i
  }

  /** The connection under k is the only one with the entry's client. */
  ghost predicate OnlyOwner(table: map<string, Held>, k: string, e: Entry) {
    && k in table && table[k].Own() == e
    && forall l | l in table && table[l].client == e.client :: l == k
  }

  /** Every connection has exactly one index entry, and every index entry exactly one connection. */
  lemma OneEntryEach(entries: seq<Entry>, table: map<string, Held>, weights: iset<real>, nextClient: Client)
    requires Indexes(entries, table, weights, nextClient) && DistinctIds(entries)
    ensures forall k | k in table :: exists i :: OnlyEntry(entries, i, table[k])
    ensures forall e | e in entries :: exists k :: OnlyOwner(table, k, e)
    ensures forall k | k in table ::
              table[k].Own().client == table[k].client && IndexedUnder(table[k].service, table[k].Own().weight)
  {
    assert forall k | k in table :: IndexedUnder(table[k].service, EffectiveWeight(table[k].service));
    hide Key, EffectiveWeight;
    forall k | k in table
      ensures exists i :: OnlyEntry(entries, i, table[k])
    {
      assert Owner(entries, k, table[k], weights, nextClient);
      var i :| 0 <= i < |entries| && entries[i] == table[k].Own();
      forall j | 0 <= j < |entries| && entries[j].client == table[k].client
        ensures j == i
      {
        assert entries[j] in entries && Owned(entries[j], table);
      }
      assert OnlyEntry(entries, i, table[k]);
    }
    forall e | e in entries
      ensures exists k :: OnlyOwner(table, k, e)
    {
      assert Owned(e, table);
      var k :| k in table && table[k].Own() == e;
      assert OnlyOwner(table, k, e);
    }
  }

  // ----- the worker -----

  class Worker {
    /** map_ipport_spconninfo_ */
    var conns: map<string, ConnInfo>
    /** map_ipport_sgservice_ */
    var services: map<string, Service>
    /** p_multimap_weight_wptcpcli_ */
    const index: WeightIndex
    var nextClient: Client
    ghost const weights: iset<real>

    constructor (ghost weights: iset<real>)
      requires Separated(weights)
      ensures Indexed() && conns == map[] && services == map[] && this.weights == weights
    {
      conns, services, nextClient, this.weights := map[], map[], 0, weights;
      index := new WeightIndex();
    }

    ghost function Table(): (table: map<string, Held>)
      requires forall k | k in conns :: conns[k].client.Some?
      reads this`conns, conns.Values
      ensures table.Keys == conns.Keys
    {
      map k | k in conns :: conns[k].State()
    }

    ghost predicate Indexed()
      reads this`conns, this`nextClient, index, conns.Values
      ensures Indexed() ==> forall k | k in conns :: conns[k].client.Some?
    {
      && index.Valid() && Separated(weights)
      && (forall k | k in conns :: conns[k].index == index && conns[k].client.Some?)
      && Indexes(index.entries, Table(), weights, nextClient)
    }

    lemma Facts()
      requires Indexed()
      ensures index.Valid() && Separated(weights) && Indexes(index.entries, Table(), weights, nextClient)
      ensures forall k | k in conns :: conns[k].index == index && conns[k].client.Some?
    {
    }

    lemma FromFacts()
      requires index.Valid() && Separated(weights)
      requires forall k | k in conns :: conns[k].index == index && conns[k].client.Some?
      requires Indexes(index.entries, Table(), weights, nextClient)
      ensures Indexed()
    {
    }

    lemma TableEntered(table: map<string, Held>, k: string)
      requires forall l | l in conns :: conns[l].client.Some?
      requires conns.Keys == table.Keys + {k} && forall l | l in table && l != k :: conns[l].State() == table[l]
      ensures Table() == table[k := conns[k].State()]
    {
    }

    /** A server not in the table gets a connection and a client. */
    method Connect(service: Service)
      requires Indexed() && Key(service) !in conns && EffectiveWeight(service) in weights
      modifies this`conns, this`nextClient, index
      ensures Indexed()
      ensures Key(service) in conns && fresh(conns[Key(service)])
      ensures conns == old(conns)[Key(service) := conns[Key(service)]]
      ensures Records(Table()) == Records(old(Table()))[Key(service) := service]
      ensures nextClient == old(nextClient) + 1
      ensures Clients(Table()) == Clients(old(Table()))[Key(service) := old(nextClient)]
    {
      hide Key, EffectiveWeight, Indexes, Records, Clients, Separated, WeightIndex.Valid, Worker.Indexed;
      Facts();
      ghost var entries, table := index.entries, Table();
      var conn := new ConnInfo(service, index);
      conn.SetTcpClient(nextClient);
      ghost var h := conn.State();
      ConnectIndexes(entries, table, weights, nextClient, Key(service), h, index.entries);
      TableUpdated(table, Key(service), h);
      conns, nextClient := conns[Key(service) := conn], nextClient + 1;
      TableEntered(table, Key(service));
      FromFacts();
    }

    lemma OthersDiffer(k: string)
      requires Indexed() && k in conns
      ensures forall l | l in conns && l != k :: conns[l] != conns[k]
      ensures conns[k].State().Own() in index.entries && EffectiveWeight(conns[k].service) in weights
      ensures DistinctIds(index.entries) && Table()[k] == conns[k].State()
    {
      var table := Table();
      IndexedEach(index.entries, table, weights, nextClient);
      hide *;
      forall l | l in conns && l != k
        ensures conns[l] != conns[k]
      {
        assert Key(table[l].service) == l && Key(table[k].service) == k;
      }
    }

    twostate lemma TableChanged(k: string)
      requires k in conns && conns == old(conns) && conns[k].client.Some?
      requires forall l | l in old(conns) :: old(conns[l].client).Some?
      requires forall l | l in conns && l != k :: unchanged(conns[l])
      ensures forall l | l in conns :: conns[l].client.Some?
      ensures Table() == old(Table())[k := conns[k].State()]
    {
    }

    /** A server in the table gets a new record. */
    method Change(service: Service)
      requires Indexed() && Key(service) in conns && EffectiveWeight(service) in weights
      modifies index, conns[Key(service)]
      ensures Indexed()
      ensures Records(Table()) == Records(old(Table()))[Key(service) := service]
      ensures Clients(Table()) == Clients(old(Table()))
    {
      var k := Key(service);
      ghost var entries, table := index.entries, Table();
      var conn := conns[k];
      OthersDiffer(k);
      assert SameOrApart(EffectiveWeight(conn.service), EffectiveWeight(service));
      hide Key, EffectiveWeight, Indexes, Records, Clients, Descending, DistinctIds, CheckDoubleEqual, Separated, SameOrApart;
      label Before:
      conn.UptSgservice(service);
      TableChanged@Before(k);
      hide Table;
      ChangeIndexes(entries, table, weights, nextClient, k, conn.State(), index.entries);
      TableUpdated(table, k, conn.State());
    }

    ghost function Rank(list: seq<Service>): nat
      reads this
    {
      if Keys(list) <= conns.Keys then 0 else 2
    }

    /** AddSrv: a connection and a client for each record whose address is new, and then ChgSrv for the others. */
    method AddSrv(list: seq<Service>)
      requires Indexed() && WeightsIn(list, weights)
      modifies this`conns, this`nextClient, index, conns.Values
      decreases 1
      ensures Indexed() && fresh(conns.Values - old(conns.Values))
      ensures Records(Table()) == Put(Records(old(Table())), list)
      ensures Kept(old(conns), conns) && Kept(Clients(old(Table())), Clients(Table()))
    {
      hide Key, Keys, Put, EffectiveWeight, WeightsIn, Records, Clients, Kept, Worker.Indexed, Worker.Table;
      ghost var first, clients := conns, Clients(Table());
      var chg := AddNew(list);
      ghost var middle, middleClients := conns, Clients(Table());
      if chg != [] {
        ChgSrv(chg);
        KeptOn(first, middle, conns);
        KeptOn(clients, middleClients, Clients(Table()));
      } else {
        PutNone(Records(Table()));
      }
    }

    method AddNew(list: seq<Service>) returns (chg: seq<Service>)
      requires Indexed() && WeightsIn(list, weights)
      modifies this`conns, this`nextClient, index
      ensures Indexed() && fresh(conns.Values - old(conns.Values))
      ensures Put(Records(Table()), chg) == Put(Records(old(Table())), list)
      ensures Keys(chg) <= conns.Keys && WeightsIn(chg, weights)
      ensures Kept(old(conns), conns) && Kept(Clients(old(Table())), Clients(Table()))
    {
      hide *;
      ghost var records, clients, first := Records(Table()), Clients(Table()), conns;
      KeptAll(first, clients);
      AddingNone(records, list, weights);
      chg := [];
      for i := 0 to |list|
        invariant Indexed() && fresh(conns.Values - old(conns.Values))
        invariant Adding(records, list, i, Records(Table()), chg, weights)
        invariant Kept(old(conns), conns) && Kept(clients, Clients(Table()))
      {
        var s := list[i];
        Member(list, i, weights);
        AddingStep(records, list, i, Records(Table()), chg, weights);
        if Key(s) in conns {
          chg := chg + [s];
        } else {
          ghost var middle, middleClients := conns, Clients(Table());
          Connect(s);
          ValuesLonger(middle, Key(s), conns[Key(s)]);
          KeptLonger(first, middle, Key(s), conns[Key(s)]);
          KeptLonger(clients, middleClients, Key(s), Clients(Table())[Key(s)]);
        }
      }
      AddingAll(records, list, Records(Table()), chg, weights);
    }

    /** ChgSrv: a new record for each address in the table, and then AddSrv for the others. */
    method ChgSrv(list: seq<Service>)
      requires Indexed() && WeightsIn(list, weights)
      modifies this`conns, this`nextClient, index, conns.Values
      decreases Rank(list)
      ensures Indexed() && fresh(conns.Values - old(conns.Values))
      ensures Records(Table()) == Put(Records(old(Table())), list)
      ensures Kept(old(conns), conns) && Kept(Clients(old(Table())), Clients(Table()))
    {
      hide Key, Keys, Put, EffectiveWeight, WeightsIn, Records, Clients, Kept, Worker.Indexed, Worker.Table;
      var add := ChangeKnown(list);
      if add != [] {
        AddSrv(add);
      } else {
        PutNone(Records(Table()));
        Unmodified(conns, Clients(Table()), Records(Table()), list);
      }
    }

    method ChangeKnown(list: seq<Service>) returns (add: seq<Service>)
      requires Indexed() && WeightsIn(list, weights)
      modifies index, conns.Values
      ensures Indexed()
      ensures Put(Records(Table()), add) == Put(Records(old(Table())), list)
      ensures Keys(add) !! conns.Keys && (add != [] ==> Rank(list) == 2) && WeightsIn(add, weights)
      ensures Clients(Table()) == Clients(old(Table()))
    {
      ghost var records, clients := Records(Table()), Clients(Table());
      Unmodified(conns, clients, records, list);
      hide Key, Keys, Put, EffectiveWeight, WeightsIn, Records, Clients, Kept, Worker.Indexed, Worker.Table;
      add := [];
      for i := 0 to |list|
        invariant Indexed()
        invariant Put(Records(Table()), add) == Put(records, list[..i])
        invariant Keys(add) !! conns.Keys && (add != [] ==> Rank(list) == 2) && WeightsIn(add, weights)
        invariant clients == Clients(Table())
      {
        var s := list[i];
        Member(list, i, weights);
        if Key(s) !in conns {
          PutLater(records, list, i, Records(Table()), add);
          PutOff(add, s, conns.Keys, weights);
          add := add + [s];
        } else {
          PutNow(records, list, i, Records(Table()), add);
          Change(s);
        }
      }
    }

    /** The comparing half of UpdateSvrList: which servers are new, which are gone and which have changed. */
    method Reconcile(list: seq<Service>) returns (add: seq<Service>, del: seq<Service>, chg: seq<Service>)
      requires Keyed(services)
      modifies this`services
      ensures services == Reconciled(old(services), list) && Keyed(services)
      ensures add == ToAdd(old(services), list) && chg == ToChange(old(services), list)
      ensures Holds(del, old(services), old(services).Keys - Keys(Active(list)))
    {
      add, del, chg := [], [], [];
      PutKeyed(map[], Active(list));
      Started(services, list);
      hide Key, Keys, Put, PutIfAbsent, Active, Added, Changed, Holds, Keyed, DistinctKeys;
      if services == map[] && list == [] {
        assert services.Keys - Keys(Active(list)) == {};
      } else if services == map[] {
        add := EnterAll(list);
        assert old(services).Keys - Keys(Active(list)) == {};
      } else if list == [] {
        del := Drop(services);
        assert old(services) - old(services).Keys == map[];
        assert old(services).Keys - Keys(Active(list)) == old(services).Keys;
      } else {
        var rest;
        add, chg, rest := Compare(list);
        Relisted(old(services), Active(list));
        PutKeys(old(services), Active(list));
        assert rest.Keys == old(services).Keys - Keys(Active(list));
        RestHolds(old(services), rest);
        del := Drop(rest);
        HoldsWithin(del, rest, old(services));
      }
    }

    method EnterAll(list: seq<Service>) returns (add: seq<Service>)
      requires services == map[]
      modifies this`services
      ensures services == PutIfAbsent(map[], Active(list)) && add == Active(list)
    {
      Started(map[], list);
      hide Key, Keys, Put, PutIfAbsent, Active, Added, Changed, Holds, Keyed, DistinctKeys;
      add := [];
      for i := 0 to |list|
        invariant services == PutIfAbsent(map[], Active(list[..i])) && add == Active(list[..i])
      {
        var s := list[i];
        ActiveAppend(list, i);
        if s.status == 2 {
          PutAppend(map[], Active(list[..i]), s);
          if Key(s) !in services {
            services := services[Key(s) := s];
          }
          add := add + [s];
        }
      }
    }

    method Compare(list: seq<Service>) returns (add: seq<Service>, chg: seq<Service>, rest: map<string, Service>)
      modifies this`services
      ensures services == Put(old(services), Active(list))
      ensures add == Added(old(services), Active(list)) && chg == Changed(old(services), Active(list))
      ensures rest == old(services) - Keys(Active(list))
    {
      Started(services, list);
      hide Key, Keys, Put, PutIfAbsent, Active, Added, Changed, Holds, Keyed, DistinctKeys;
      add, chg, rest := [], [], services;
      ghost var m := services;
      for i := 0 to |list|
        invariant services == Put(m, Active(list[..i]))
        invariant rest == m - Keys(Active(list[..i]))
        invariant add == Added(m, Active(list[..i])) && chg == Changed(m, Active(list[..i]))
      {
        var s := list[i];
        ActiveAppend(list, i);
        if s.status == 2 {
          ghost var done := Active(list[..i]);
          PutAppend(m, done, s);
          ListsAppend(m, done, s);
          KeysAppend(done, s);
          LeftOver(m, done, Key(s));
          if Key(s) !in services {
            add := add + [s];
            services := services[Key(s) := s];
          } else {
            rest := rest - {Key(s)};
            if services[Key(s)] != s {
              services := services[Key(s) := s];
              chg := chg + [s];
            } else {
              assert services[Key(s) := s] == services;
            }
          }
        }
      }
    }

    /** The records left over are taken out. */
    method Drop(gone: map<string, Service>) returns (del: seq<Service>)
      requires Keyed(gone)
      modifies this`services
      ensures services == old(services) - gone.Keys
      ensures Holds(del, gone, gone.Keys)
    {
      Started(gone, []);
      hide Key, Keys, Put, PutIfAbsent, Active, Added, Changed, Holds, Keyed, DistinctKeys;
      var rest := gone;
      del := [];
      assert gone.Keys - rest.Keys == {};
      while rest != map[]
        decreases rest.Keys
        invariant rest.Keys <= gone.Keys && forall k | k in rest :: rest[k] == gone[k]
        invariant services == old(services) - (gone.Keys - rest.Keys)
        invariant Holds(del, gone, gone.Keys - rest.Keys)
      {
        var k :| k in rest;
        HoldsMore(del, gone, gone.Keys - rest.Keys, k);
        del := del + [rest[k]];
        assert gone.Keys - (rest - {k}).Keys == gone.Keys - rest.Keys + {k};
        services := services - {k};
        rest := rest - {k};
      }
      assert gone.Keys - rest.Keys == gone.Keys;
    }

    /** The known services are in the table, with the same records. */
    ghost predicate InStep()
      requires Indexed()
      reads this, index, conns.Values
    {
      Agrees(services, Records(Table()))
    }

    /**
     The new list becomes the known services, and what it adds and changes enters the table; connections and clients
     stay, also those of servers that left.
     */
    method UpdateSvrList(list: seq<Service>)
      requires Indexed() && Keyed(services) && WeightsIn(Active(list), weights)
      modifies this, index, conns.Values
      ensures Indexed() && Keyed(services) && fresh(conns.Values - old(conns.Values))
      ensures services == Reconciled(old(services), list)
      ensures Records(Table()) == TableAfter(old(services), Records(old(Table())), list)
      ensures Kept(old(conns), conns) && Kept(Clients(old(Table())), Clients(Table()))
      ensures InStep() <==> Settled(old(services), Records(old(Table())), list)
      ensures old(InStep()) ==> (InStep() <==> old(services) != map[] || FirstIsLast(Active(list)))
    {
      hide *;
      Plan(list);
      Enter(list);
      StepMeaning();
    }

    /** Reconciling, and acting on the lists it yields. */
    method Enter(list: seq<Service>)
      requires Indexed() && Keyed(services)
      requires WeightsIn(ToAdd(services, list), weights) && WeightsIn(ToChange(services, list), weights)
      modifies this, index, conns.Values
      ensures Indexed() && Keyed(services) && fresh(conns.Values - old(conns.Values))
      ensures services == Reconciled(old(services), list)
      ensures Records(Table())
           == Put(Put(Records(old(Table())), ToAdd(old(services), list)), ToChange(old(services), list))
      ensures Kept(old(conns), conns) && Kept(Clients(old(Table())), Clients(Table()))
    {
      hide *;
      var add, del, chg := Reconcile(list);
      Follow(add, del, chg);
    }

    lemma Plan(list: seq<Service>)
      requires Indexed() && WeightsIn(Active(list), weights)
      ensures WeightsIn(ToAdd(services, list), weights) && WeightsIn(ToChange(services, list), weights)
      ensures var table := Records(Table());
              && TableAfter(services, table, list) == Put(Put(table, ToAdd(services, list)), ToChange(services, list))
              && (Agrees(Reconciled(services, list), TableAfter(services, table, list)) <==> Settled(services, table, list))
              && (InStep() ==>
                    (Settled(services, table, list) <==> services != map[] || FirstIsLast(Active(list))))
    {
      hide *;
      StepMeaning();
      ListsFollowed(services, list, weights);
      InStepIff(services, Records(Table()), list);
      TableAfterIs(services, Records(Table()), list);
      if InStep() {
        FromStep(services, Records(Table()), list);
      }
    }

    lemma StepMeaning()
      requires Indexed()
      ensures InStep() <==> Agrees(services, Records(Table()))
    {
    }

    /** The acting half of UpdateSvrList. */
    method Follow(add: seq<Service>, del: seq<Service>, chg: seq<Service>)
      requires Indexed() && WeightsIn(add, weights) && WeightsIn(chg, weights)
      modifies this`conns, this`nextClient, index, conns.Values
      ensures Indexed() && fresh(conns.Values - old(conns.Values))
      ensures Records(Table()) == Put(Put(Records(old(Table())), add), chg)
      ensures Kept(old(conns), conns) && Kept(Clients(old(Table())), Clients(Table()))
    {
      hide *;
      AddSrv(add);
      ghost var middle, middleClients := conns, Clients(Table());
      DelSrv(del);
      ChgSrv(chg);
      assert fresh(conns.Values - middle.Values);
      assert conns.Values - old(conns.Values) <= (conns.Values - middle.Values) + (middle.Values - old(conns.Values));
      KeptOn(old(conns), middle, conns);
      KeptOn(Clients(old(Table())), middleClients, Clients(Table()));
    }

    /** DelSrv: connections are not taken down; they wait for the server to come back. */
    method DelSrv(list: seq<Service>) {
    }

    /** A run: any lists, one after the other. */
    method UpdateAll(lists: seq<seq<Service>>)
      requires Indexed() && Keyed(services) && forall list | list in lists :: WeightsIn(Active(list), weights)
      modifies this, index, conns.Values
      decreases |lists|
      ensures Indexed() && Keyed(services) && fresh(conns.Values - old(conns.Values))
      ensures services == ServicesAfter(old(services), lists)
      ensures Records(Table()) == TableAfterAll(old(services), Records(old(Table())), lists)
      ensures Kept(old(conns), conns) && Kept(Clients(old(Table())), Clients(Table()))
    {
      hide *;
      ghost var first, clients := conns, Clients(Table());
      KeptAll(first, clients);
      RunStep(services, Records(Table()), lists);
      if lists != [] {
        UpdateAll(lists[..|lists| - 1]);
        ghost var middle, middleClients := conns, Clients(Table());
        UpdateSvrList(lists[|lists| - 1]);
        KeptOn(first, middle, conns);
        KeptOn(clients, middleClients, Clients(Table()));
      }
    }
  }
}
