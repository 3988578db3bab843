/** The descending multimap from weights to clients (std::multimap with WeightSort) and its iterators. */
module WeightIndexes {
  /** A TcpClient object. */
  type Client = nat

  /** numeric_limits<double>::epsilon() */
  const EPSILON: real := 1.0 / 4503599627370496.0

  /** cthrift_common.cc, over exact reals */
  predicate CheckDoubleEqual(d1: real, d2: real) {
    -EPSILON < d1 - d2 < EPSILON
  }

  /** Two numbers are told apart from 2^-52 on. */
  lemma ToldApart(d1: real, d2: real)
    ensures CheckDoubleEqual(d1, d2) <==> -1.0 < (d1 - d2) * 4503599627370496.0 < 1.0
  {
  }

  /** An element; its id stands for the iterator to it, which stays valid until the element is erased. */
  datatype Entry = Entry(id: nat, weight: real, client: Client)

  predicate Descending(s: seq<Entry>) {
    forall i, j | 0 <= i < j < |s| :: s[i].weight >= s[j].weight
  }

  /** Where a new element of weight w goes: behind all elements of its weight. */
  function InsertAt(s: seq<Entry>, w: real): (p: nat)
    ensures p <= |s| && (forall i | 0 <= i < p :: s[i].weight >= w) && (p < |s| ==> s[p].weight < w)
  {
    if s == [] || s[0].weight < w then 0 else 1 + InsertAt(s[1..], w)
  }

  function Inserted(s: seq<Entry>, e: Entry): seq<Entry> {
    s[..InsertAt(s, e.weight)] + [e] + s[InsertAt(s, e.weight)..]
  }

  function Erased(s: seq<Entry>, id: nat): seq<Entry> {
    if s == [] then [] else (if s[0].id == id then [] else [s[0]]) + Erased(s[1..], id)
  }

  lemma InsertedMembers(s: seq<Entry>, e: Entry, x: Entry)
    ensures x in Inserted(s, e) <==> x == e || x in s
  {
    var p := InsertAt(s, e.weight);
    assert s == s[..p] + s[p..];
    assert x in s <==> x in s[..p] || x in s[p..];
  }

  lemma InsertedDescending(s: seq<Entry>, e: Entry)
    requires Descending(s)
    ensures Descending(Inserted(s, e))
  {
    var p, t := InsertAt(s, e.weight), Inserted(s, e);
    hide InsertAt, Inserted;
    InsertedElements(s, e);
    assert p < |s| ==> s[p].weight < e.weight;
    assert forall i | 0 <= i < p :: s[i].weight >= e.weight;
    forall i, j | 0 <= i < j < |t|
      ensures t[i].weight >= t[j].weight
    {
      if i < p {
        assert t[i] == s[i];
      } else if i > p {
        assert t[i] == s[i - 1] && t[j] == s[j - 1];
      } else {
        assert t[j] == s[j - 1];
        assert p == j - 1 || s[p].weight >= s[j - 1].weight;
      }
    }
  }

  lemma InsertedElements(s: seq<Entry>, e: Entry)
    ensures |Inserted(s, e)| == |s| + 1 && Inserted(s, e)[InsertAt(s, e.weight)] == e
    ensures forall i | 0 <= i < InsertAt(s, e.weight) :: Inserted(s, e)[i] == s[i]
    ensures forall i | InsertAt(s, e.weight) < i <= |s| :: Inserted(s, e)[i] == s[i - 1]
  {
  }

  lemma {:induction false} ErasedMembers(s: seq<Entry>, id: nat, x: Entry)
    ensures x in Erased(s, id) <==> x in s && x.id != id
  {
    if s != [] {
      assert x in s <==> x == s[0] || x in s[1..];
      ErasedMembers(s[1..], id, x);
    }
  }

  lemma {:induction false} ErasedDescending(s: seq<Entry>, id: nat)
    requires Descending(s)
    ensures Descending(Erased(s, id))
  {
    if s != [] {
      ErasedDescending(s[1..], id);
      forall x | x in Erased(s[1..], id)
        ensures x.weight <= s[0].weight
      {
        ErasedMembers(s[1..], id, x);
      }
      var rest := Erased(s[1..], id);
      assert forall j | 0 <= j < |rest| :: rest[j] in rest;
    }
  }

  /** Iterators to different elements differ. */
  predicate DistinctIds(s: seq<Entry>) {
    forall i, j | 0 <= i < j < |s| :: s[i].id != s[j].id
  }

  lemma InsertedDistinct(s: seq<Entry>, e: Entry)
    requires DistinctIds(s) && forall x | x in s :: x.id != e.id
    ensures DistinctIds(Inserted(s, e))
  {
    var p, t := InsertAt(s, e.weight), Inserted(s, e);
    hide InsertAt, Inserted;
    InsertedElements(s, e);
    forall i, j | 0 <= i < j < |t|
      ensures t[i].id != t[j].id
    {
      var before := if i > p then i - 1 else i;
      assert i != p ==> t[i] == s[before] && s[before] in s;
      assert j != p ==> t[j] == s[if j > p then j - 1 else j];
    }
  }

  lemma {:induction false} ErasedDistinct(s: seq<Entry>, id: nat)
    requires DistinctIds(s)
    ensures DistinctIds(Erased(s, id))
  {
    if s != [] {
      var rest := Erased(s[1..], id);
      ErasedDistinct(s[1..], id);
      forall x | x in rest
        ensures x.id != s[0].id
      {
        ErasedMembers(s[1..], id, x);
      }
      assert forall j | 0 <= j < |rest| :: rest[j] in rest;
    }
  }

  lemma InsertedKeeps(s: seq<Entry>, e: Entry)
    requires Descending(s) && DistinctIds(s) && forall x | x in s :: x.id != e.id
    ensures Descending(Inserted(s, e)) && DistinctIds(Inserted(s, e))
    ensures forall x :: x in Inserted(s, e) <==> x == e || x in s
  {
    hide *;
    InsertedDescending(s, e);
    InsertedDistinct(s, e);
    forall x {
      InsertedMembers(s, e, x);
    }
  }

  lemma InsertedIs(s: seq<Entry>, e: Entry)
    ensures Inserted(s, e) == s[..InsertAt(s, e.weight)] + [e] + s[InsertAt(s, e.weight)..]
  {
  }

  /** One round of the search. */
  lemma InsertAtStep(s: seq<Entry>, at: nat, w: real)
    requires at <= |s|
    ensures at == 0 ==> s[at..] == s
    ensures InsertAt(s[at..], w) == if at == |s| || s[at].weight < w then 0 else 1 + InsertAt(s[at + 1..], w)
  {
    assert at < |s| ==> s[at..][1..] == s[at + 1..];
  }

  class WeightIndex {
    var entries: seq<Entry>
    var nextId: nat

    ghost predicate Valid()
      reads this
    {
      Descending(entries) && DistinctIds(entries) && forall e | e in entries :: e.id < nextId
    }

    constructor ()
      ensures Valid() && entries == []
    {
      entries, nextId := [], 0;
    }

    /** insert: the iterator to the new element, which no earlier iterator equals. */
    method Insert(weight: real, client: Client) returns (id: nat)
      requires Valid()
      modifies this
      ensures Valid() && id == old(nextId) && nextId == old(nextId) + 1
      ensures entries == Inserted(old(entries), Entry(id, weight, client))
      ensures forall x :: x in entries <==> x == Entry(id, weight, client) || x in old(entries)
    {
      hide Descending, DistinctIds, InsertAt, Inserted;
      id := nextId;
      InsertedKeeps(entries, Entry(id, weight, client));
      InsertedIs(entries, Entry(id, weight, client));
      var at := FindPlace(weight);
      entries, nextId := entries[..at] + [Entry(id, weight, client)] + entries[at..], nextId + 1;
    }

    /** The search of a multimap's insert: past everything that is not less. */
    method FindPlace(weight: real) returns (at: nat)
      ensures at == InsertAt(entries, weight)
    {
      hide InsertAt;
      at := 0;
      InsertAtStep(entries, 0, weight);
      while at < |entries| && entries[at].weight >= weight
        invariant at <= |entries| && InsertAt(entries, weight) == at + InsertAt(entries[at..], weight)
      {
        InsertAtStep(entries, at, weight);
        at := at + 1;
      }
      InsertAtStep(entries, at, weight);
    }

    /** erase(iterator) */
    method Erase(id: nat)
      requires Valid()
      modifies this
      ensures Valid() && nextId == old(nextId)
      ensures entries == Erased(old(entries), id)
      ensures forall x :: x in entries <==> x in old(entries) && x.id != id
    {
      ErasedDescending(entries, id);
      ErasedDistinct(entries, id);
      forall x {
        ErasedMembers(entries, id, x);
      }
      ErasedAt(entries, id);
      var at := 0;
      while at < |entries| && entries[at].id != id
        invariant at <= |entries| && forall i | 0 <= i < at :: entries[i].id != id
      {
        at := at + 1;
      }
      if at < |entries| {
        entries := entries[..at] + entries[at + 1..];
      }
    }
  }

  /** Erasing an iterator takes out the one element it points at. */
  lemma {:induction false} ErasedAt(s: seq<Entry>, id: nat)
    requires DistinctIds(s)
    ensures (forall i | 0 <= i < |s| :: s[i].id != id) ==> Erased(s, id) == s
    ensures forall at | 0 <= at < |s| && s[at].id == id :: Erased(s, id) == s[..at] + s[at + 1..]
  {
    if s != [] {
      ErasedAt(s[1..], id);
      forall at | 0 <= at < |s| && s[at].id == id
        ensures Erased(s, id) == s[..at] + s[at + 1..]
      {
        if at == 0 {
          assert forall i | 0 <= i < |s[1..]| :: s[1..][i].id != id;
        } else {
          assert s[1..][at - 1].id == id;
          assert s[1..][..at - 1] == s[1..at] && s[1..][at..] == s[at + 1..];
          assert s[..at] == [s[0]] + s[1..at];
        }
      }
    }
  }
}
