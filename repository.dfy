/**
 * The record store the service runs on: an id-keyed collection of product
 * records with insert-or-replace, fetch, delete and three filtered scans.
 * Identifiers are issued from a counter. The order scans return records in
 * is left to the store; this model fixes it as ascending id order, which is
 * also insertion order.
 */
module Repository {
  import opened Wrappers
  import opened Model

  /** Every record carries an id, and ids strictly increase along the sequence. */
  predicate AscendingIds(ps: seq<Product>) {
    && (forall i :: 0 <= i < |ps| ==> ps[i].id.Some?)
    && (forall i, j :: 0 <= i < j < |ps| ==> ps[i].id.value < ps[j].id.value)
  }

  /** The ids in `keys` below `n`, in ascending order. */
  function IdsBelow(keys: set<Id>, n: nat): (ids: seq<Id>)
    ensures forall k :: k in ids <==> k in keys && k < n
    ensures forall i, j :: 0 <= i < j < |ids| ==> ids[i] < ids[j]
  {
    if n == 0 then []
    else
      var below := IdsBelow(keys, n - 1);
      assert forall i :: 0 <= i < |below| ==> below[i] < n - 1 by {
        forall i | 0 <= i < |below| ensures below[i] < n - 1 {
          assert below[i] in below;
        }
      }
      below + (if n - 1 in keys then [n - 1] else [])
  }

  /** The records stored under `ids`, in the order of `ids`. */
  function RecordsAt(m: map<Id, Product>, ids: seq<Id>): (ps: seq<Product>)
    requires forall k :: k in ids ==> k in m
    ensures |ps| == |ids|
    ensures forall i :: 0 <= i < |ids| ==> ps[i] == m[ids[i]]
  {
    if ids == [] then [] else [m[ids[0]]] + RecordsAt(m, ids[1..])
  }

  /** The records of `ps` that satisfy `keep`, in their order in `ps`. */
  function Select(ps: seq<Product>, keep: Product -> bool): (r: seq<Product>)
    ensures |r| <= |ps|
    ensures forall p :: p in r <==> p in ps && keep(p)
    ensures AscendingIds(ps) ==> AscendingIds(r)
  {
    if ps == [] then []
    else
      var rest := Select(ps[1..], keep);
      assert forall p :: p in ps <==> p == ps[0] || p in ps[1..] by {
        assert ps == [ps[0]] + ps[1..];
      }
      if keep(ps[0]) then
        SelectKeepsHeadFirst(ps, rest);
        [ps[0]] + rest
      else rest
  }

  /** The head of an id-ascending sequence precedes anything drawn from its tail. */
  lemma SelectKeepsHeadFirst(ps: seq<Product>, rest: seq<Product>)
    requires ps != []
    requires forall p :: p in rest ==> p in ps[1..]
    requires AscendingIds(ps[1..]) ==> AscendingIds(rest)
    ensures AscendingIds(ps) ==> AscendingIds([ps[0]] + rest)
  {
    if AscendingIds(ps) {
      var r := [ps[0]] + rest;
      forall i, j | 0 <= i < j < |r| ensures r[i].id.value < r[j].id.value {
        if i == 0 {
          assert r[j] in ps[1..];
          var k :| 0 <= k < |ps[1..]| && ps[1..][k] == r[j];
          assert ps[k + 1] == r[j];
        } else {
          assert r[i] == rest[i - 1] && r[j] == rest[j - 1];
        }
      }
    }
  }

  /** The records of `m` under its ids below `n`, in ascending id order. */
  function InIdOrder(m: map<Id, Product>, n: nat): (ps: seq<Product>)
  {
    RecordsAt(m, IdsBelow(m.Keys, n))
  }

  /** Records stored under their own ids, read in ascending id order, carry ascending ids. */
  lemma InIdOrderAscends(m: map<Id, Product>, n: nat)
    requires forall k :: k in m ==> m[k].id == Some(k)
    ensures AscendingIds(InIdOrder(m, n))
  {
    RecordsCarryTheirIds(m, IdsBelow(m.Keys, n));
  }

  /** Each record read in id order is the one stored under its id. */
  lemma InIdOrderStored(m: map<Id, Product>, n: nat)
    requires forall k :: k in m ==> m[k].id == Some(k)
    ensures var ps := InIdOrder(m, n);
      forall i :: 0 <= i < |ps| ==> ps[i].id.Some? && ps[i].id.value in m && m[ps[i].id.value] == ps[i]
  {
    var ids := IdsBelow(m.Keys, n);
    RecordsCarryTheirIds(m, ids);
    var ps := InIdOrder(m, n);
    forall i | 0 <= i < |ps| ensures ps[i].id.Some? && ps[i].id.value in m && m[ps[i].id.value] == ps[i] {
      assert ids[i] in ids;
    }
  }

  /** Reading in id order below a bound above every key misses no record. */
  lemma InIdOrderCovers(m: map<Id, Product>, n: nat)
    requires forall k :: k in m ==> k < n
    ensures forall k :: k in m ==> m[k] in InIdOrder(m, n)
  {
    EveryRecordListed(m, IdsBelow(m.Keys, n));
  }

  /** Reading in id order below a bound above every key gives exactly the stored records. */
  lemma InIdOrderIsValues(m: map<Id, Product>, n: nat)
    requires forall k :: k in m ==> k < n
    ensures forall p :: p in InIdOrder(m, n) <==> p in m.Values
  {
    var ids := IdsBelow(m.Keys, n);
    var ps := InIdOrder(m, n);
    InIdOrderCovers(m, n);
    forall p | p in ps ensures p in m.Values {
      var i :| 0 <= i < |ps| && ps[i] == p;
      assert ids[i] in ids;
    }
    forall p | p in m.Values ensures p in ps {
      var k :| k in m && m[k] == p;
    }
  }

  /** Reading records under ids that are their own gives records carrying those ids. */
  lemma RecordsCarryTheirIds(m: map<Id, Product>, ids: seq<Id>)
    requires forall k :: k in ids ==> k in m && m[k].id == Some(k)
    ensures var ps := RecordsAt(m, ids);
      forall i :: 0 <= i < |ps| ==> ps[i].id == Some(ids[i])
  {
    var ps := RecordsAt(m, ids);
    forall i | 0 <= i < |ps| ensures ps[i].id == Some(ids[i]) {
      assert ids[i] in ids;
    }
  }

  /** Every key listed in `ids` has its record in the records read under `ids`. */
  lemma EveryRecordListed(m: map<Id, Product>, ids: seq<Id>)
    requires forall k :: k in ids ==> k in m
    ensures forall k :: k in ids ==> m[k] in RecordsAt(m, ids)
  {
    var ps := RecordsAt(m, ids);
    forall k | k in ids ensures m[k] in ps {
      var i :| 0 <= i < |ids| && ids[i] == k;
      assert ps[i] == m[k];
    }
  }

  class ProductRepository {
    /** The stored records, by id. */
    var records: map<Id, Product>
    /** The id the next first insert receives. */
    var nextId: Id

    /** Each record is stored under its own id, and every issued id is below the counter. */
    ghost predicate Valid()
      reads this
    {
      forall k :: k in records ==> k < nextId && records[k].id == Some(k)
    }

    constructor ()
      ensures Valid()
      ensures records == map[] && nextId == 0
    {
      records := map[];
      nextId := 0;
    }

    /** Fetch by id: the record stored under `id`, or null. */
    function FindById(id: Id): (r: Option<Product>)
      reads this
      ensures r.Some? <==> id in records
      ensures r.Some? ==> r.value == records[id]
    {
      if id in records then Some(records[id]) else None
    }

    /** Insert-or-replace: a record without an id is inserted under a fresh one; a record with an id replaces the one under it. */
    method Save(p: Product) returns (saved: Product)
      requires Valid()
      modifies this
      ensures Valid()
      ensures p.id.Some? ==> saved == p
      ensures p.id.None? ==> saved == p.(id := Some(old(nextId))) && old(nextId) !in old(records)
      ensures saved.id.Some? && records == old(records)[saved.id.value := saved]
      ensures old(nextId) <= nextId
    {
      if p.id.None? {
        saved := p.(id := Some(nextId));
        records := records[nextId := saved];
        nextId := nextId + 1;
      } else {
        saved := p;
        records := records[p.id.value := p];
        if nextId <= p.id.value {
          nextId := p.id.value + 1;
        }
      }
    }

    /** Delete by id; deleting an absent id changes nothing. */
    method DeleteById(id: Id)
      requires Valid()
      modifies this
      ensures Valid()
      ensures records == old(records) - {id} && nextId == old(nextId)
    {
      records := records - {id};
    }

    /** Every stored record, once each, in the order the model fixes for scans (ascending id). */
    function Scan(): (ps: seq<Product>)
      reads this
      requires Valid()
      ensures AscendingIds(ps)
      ensures forall i :: 0 <= i < |ps| ==> ps[i].id.value in records && records[ps[i].id.value] == ps[i]
      ensures forall p :: p in ps <==> p in records.Values
    {
      InIdOrderAscends(records, nextId);
      InIdOrderStored(records, nextId);
      InIdOrderIsValues(records, nextId);
      InIdOrder(records, nextId)
    }

    /** Equality filter on the owning artist. */
    function FindByArtistId(artistId: string): (ps: seq<Product>)
      reads this
      requires Valid()
      ensures AscendingIds(ps)
      ensures forall p :: p in ps <==> p in records.Values && p.artistId == Some(artistId)
    {
      Select(Scan(), (p: Product) => p.artistId == Some(artistId))
    }

    /** Equality filter on the category. */
    function FindByCategory(category: string): (ps: seq<Product>)
      reads this
      requires Valid()
      ensures AscendingIds(ps)
      ensures forall p :: p in ps <==> p in records.Values && p.category == Some(category)
    {
      Select(Scan(), (p: Product) => p.category == Some(category))
    }

    /** Inclusive range filter on the price. */
    function FindByPriceRange(minPrice: Price, maxPrice: Price): (ps: seq<Product>)
      reads this
      requires Valid()
      ensures AscendingIds(ps)
      ensures forall p :: p in ps <==> p in records.Values && minPrice <= p.price <= maxPrice
    {
      Select(Scan(), (p: Product) => minPrice <= p.price <= maxPrice)
    }
  }
}
