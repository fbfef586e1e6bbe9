/**
 * The product service: create, update, fetch and delete over the record
 * store, the three filtered listings, and the two-state availability machine
 * (available / reserved) driven by set-availability, reserve and release.
 */
module Service {
  import opened Wrappers
  import opened Model
  import opened Mapping
  import opened Repository
  import opened WallClock

  /** A record as the service persists it: owned, stamped, created no later than last updated, and not stamped in the future. */
  predicate Stamped(p: Product, now: Time) {
    && p.artistId.Some?
    && p.createdAt.Some? && p.updatedAt.Some?
    && p.createdAt.value <= p.updatedAt.value <= now
  }

  /** `q` is `p` with possibly another availability and last-update time, and nothing else changed. */
  predicate SameExceptAvailability(p: Product, q: Product) {
    q == p.(isAvailable := q.isAvailable, updatedAt := q.updatedAt)
  }

  /** The fields an update never touches. */
  predicate SameIdentity(p: Product, q: Product) {
    q.id == p.id && q.artistId == p.artistId && q.createdAt == p.createdAt
  }

  /** The record `createProduct` saves: the mapped request, owned by `artistId`, stamped, and available. */
  function NewProduct(req: ProductRequest, artistId: string, createdAt: Time, updatedAt: Time): (r: Result<Product, Failure>)
    ensures r.Err? <==> HasNullMeasure(req.dimensions)
    ensures r.Err? ==> r.error == NullMeasure
    ensures r.Ok? ==>
      && CopiesRequest(r.value, req)
      && r.value.id.None?
      && r.value.artistId == Some(artistId)
      && r.value.createdAt == Some(createdAt) && r.value.updatedAt == Some(updatedAt)
      && r.value.isAvailable
  {
    match MapToProduct(req)
    case Err(e) => Err(e)
    case Ok(p) =>
      Ok(p.(artistId := Some(artistId), createdAt := Some(createdAt), updatedAt := Some(updatedAt), isAvailable := true))
  }

  /**
   * The record after a full update at time `now`: the ten editable fields are
   * replaced wholesale from the request, `updatedAt` is stamped, and identity,
   * ownership, creation time and availability are kept.
   */
  function Overwritten(p: Product, req: ProductRequest, now: Time): (r: Result<Product, Failure>)
    ensures r.Err? <==> HasNullMeasure(req.dimensions)
    ensures r.Err? ==> r.error == NullMeasure
    ensures r.Ok? ==>
      && CopiesRequest(r.value, req)
      && SameIdentity(p, r.value)
      && r.value.isAvailable == p.isAvailable
      && r.value.updatedAt == Some(now)
  {
    match MapToProductDimensions(req.dimensions)
    case Err(e) => Err(e)
    case Ok(dims) =>
      Ok(p.(name := req.name, description := req.description, price := req.price,
            category := req.category, tags := req.tags, imageUrl := req.imageUrl,
            stockQuantity := req.stockQuantity, dimensions := dims, medium := req.medium,
            style := req.style, updatedAt := Some(now)))
  }

  /** The record after its availability is set to `available` at time `now`. */
  function WithAvailability(p: Product, available: bool, now: Time): (r: Product)
    ensures r.isAvailable == available && r.updatedAt == Some(now)
    ensures SameExceptAvailability(p, r)
  {
    p.(isAvailable := available, updatedAt := Some(now))
  }

  /** Reserving: legal only from available, and then the record becomes reserved. */
  function Reserved(p: Product, now: Time): (r: Result<Product, Failure>)
    ensures r.Ok? <==> p.isAvailable
    ensures r.Err? ==> r.error == NotAvailable(NotAvailableMessage)
    ensures r.Ok? ==> !r.value.isAvailable && r.value.updatedAt == Some(now) && SameExceptAvailability(p, r.value)
  {
    if !p.isAvailable then Err(NotAvailable(NotAvailableMessage))
    else Ok(WithAvailability(p, false, now))
  }

  /** A created record's response shows the request's fields, the owner, availability and the timestamps. */
  lemma CreatedResponse(req: ProductRequest, artistId: string, createdAt: Time, updatedAt: Time)
    requires !HasNullMeasure(req.dimensions)
    ensures NewProduct(req, artistId, createdAt, updatedAt).Ok?
    ensures var r := MapToProductResponse(NewProduct(req, artistId, createdAt, updatedAt).value);
      && r.isAvailable && r.artistId == Some(artistId)
      && r.createdAt == Some(createdAt) && r.updatedAt == Some(updatedAt)
      && r.name == req.name && r.description == req.description && r.price == req.price
      && r.category == req.category && r.tags == req.tags && r.imageUrl == req.imageUrl
      && r.stockQuantity == req.stockQuantity && r.dimensions == req.dimensions
      && r.medium == req.medium && r.style == req.style
  {
    ResponseEchoesRequest(NewProduct(req, artistId, createdAt, updatedAt).value, req);
  }

  /**
   * Reading a record back after a full update gives the request's fields
   * exactly, with id, owner, creation time and availability as before.
   */
  lemma UpdatedResponse(p: Product, req: ProductRequest, now: Time)
    requires !HasNullMeasure(req.dimensions)
    ensures Overwritten(p, req, now).Ok?
    ensures var r := MapToProductResponse(Overwritten(p, req, now).value);
      && r.id == p.id && r.artistId == p.artistId && r.createdAt == p.createdAt
      && r.isAvailable == p.isAvailable && r.updatedAt == Some(now)
      && r.name == req.name && r.description == req.description && r.price == req.price
      && r.category == req.category && r.tags == req.tags && r.imageUrl == req.imageUrl
      && r.stockQuantity == req.stockQuantity && r.dimensions == req.dimensions
      && r.medium == req.medium && r.style == req.style
  {
    ResponseEchoesRequest(Overwritten(p, req, now).value, req);
  }

  /** An update does not merge: a field the request omits is cleared (the price zeroed), not kept. */
  lemma OmittedFieldsAreCleared(p: Product, now: Time)
    ensures Overwritten(p, EmptyRequest(), now).Ok?
    ensures var q := Overwritten(p, EmptyRequest(), now).value;
      && q.name.None? && q.description.None? && q.price == 0 && q.category.None?
      && q.tags.None? && q.imageUrl.None? && q.stockQuantity.None? && q.dimensions.None?
      && q.medium.None? && q.style.None?
  {
  }

  /** Applying the same update twice is the same as applying it once, apart from the update time. */
  lemma UpdateIsIdempotent(p: Product, req: ProductRequest, t1: Time, t2: Time)
    ensures Overwritten(p, req, t1).Ok? ==> Overwritten(Overwritten(p, req, t1).value, req, t2) == Overwritten(p, req, t2)
  {
  }

  /** A product cannot be reserved twice in a row. */
  lemma ReserveTwiceFails(p: Product, t1: Time, t2: Time)
    requires Reserved(p, t1).Ok?
    ensures Reserved(Reserved(p, t1).value, t2) == Err(NotAvailable(NotAvailableMessage))
  {
  }

  /** Releasing a reservation gives back the record as it was before the reservation, apart from the update time. */
  lemma ReleaseUndoesReserve(p: Product, t1: Time, t2: Time)
    requires Reserved(p, t1).Ok?
    ensures WithAvailability(Reserved(p, t1).value, true, t2) == p.(updatedAt := Some(t2))
  {
  }

  /** Release always ends available, and releasing twice is releasing once, apart from the update time. */
  lemma ReleaseIsIdempotent(p: Product, t1: Time, t2: Time)
    ensures WithAvailability(p, true, t1).isAvailable
    ensures WithAvailability(WithAvailability(p, true, t1), true, t2) == WithAvailability(p, true, t2)
  {
  }

  /** Setting availability is unconditional: the last setting wins, whatever the state before. */
  lemma LastAvailabilityWins(p: Product, first: bool, second: bool, t1: Time, t2: Time)
    ensures WithAvailability(WithAvailability(p, first, t1), second, t2) == WithAvailability(p, second, t2)
  {
  }

  class ProductService {
    const repo: ProductRepository
    const clock: Clock

    /** The store is consistent and every record in it is stamped no later than the clock. */
    ghost predicate Valid()
      reads repo, clock
    {
      && repo.Valid()
      && forall k :: k in repo.records ==> Stamped(repo.records[k], clock.time)
    }

    constructor (repo: ProductRepository, clock: Clock)
      requires repo.Valid()
      requires forall k :: k in repo.records ==> Stamped(repo.records[k], clock.time)
      ensures this.repo == repo && this.clock == clock
      ensures Valid()
    {
      this.repo := repo;
      this.clock := clock;
    }

    /**
     * Stores a new record built from the request, owned by `artistId`, stamped
     * with two clock readings and available, under a fresh id; no other record
     * changes. A null length or width fails before anything is stored.
     */
    method CreateProduct(req: ProductRequest, artistId: string) returns (r: Result<ProductResponse, Failure>)
      requires Valid()
      modifies repo, clock
      ensures Valid()
      ensures HasNullMeasure(req.dimensions) ==> r == Err(NullMeasure) && repo.records == old(repo.records)
      ensures !HasNullMeasure(req.dimensions) ==>
        && r.Ok? && r.value.id.Some?
        && var k := r.value.id.value;
        && k !in old(repo.records) && k in repo.records
        && repo.records == old(repo.records)[k := repo.records[k]]
        && var p := repo.records[k];
        && p.createdAt.Some? && p.updatedAt.Some?
        && old(clock.time) <= p.createdAt.value <= p.updatedAt.value == clock.time
        && NewProduct(req, artistId, p.createdAt.value, p.updatedAt.value) == Ok(p.(id := None))
        && r.value == MapToProductResponse(p)
    {
      var mapped := MapToProduct(req);
      if mapped.Err? {
        return Err(mapped.error);
      }
      var product := mapped.value.(artistId := Some(artistId));
      var createdAt := clock.Now();
      product := product.(createdAt := Some(createdAt));
      var updatedAt := clock.Now();
      product := product.(updatedAt := Some(updatedAt), isAvailable := true);
      var saved := repo.Save(product);
      r := Ok(MapToProductResponse(saved));
    }

    /**
     * Full update: fetch-or-fail, then overwrite the ten editable fields and
     * stamp `updatedAt`. Every failure leaves the store as it was.
     */
    method UpdateProduct(id: Id, req: ProductRequest) returns (r: Result<ProductResponse, Failure>)
      requires Valid()
      modifies repo, clock
      ensures Valid()
      ensures id !in old(repo.records) ==> r == Err(NotFound(NotFoundOnUpdateMessage)) && repo.records == old(repo.records)
      ensures id in old(repo.records) && HasNullMeasure(req.dimensions) ==>
        r == Err(NullMeasure) && repo.records == old(repo.records)
      ensures id in old(repo.records) && !HasNullMeasure(req.dimensions) ==>
        && old(clock.time) <= clock.time
        && Overwritten(old(repo.records[id]), req, clock.time).Ok?
        && repo.records == old(repo.records)[id := Overwritten(old(repo.records[id]), req, clock.time).value]
        && r == Ok(MapToProductResponse(repo.records[id]))
        && old(repo.records[id].updatedAt.value) <= repo.records[id].updatedAt.value
    {
      var existing := repo.FindById(id);
      if existing.None? {
        return Err(NotFound(NotFoundOnUpdateMessage));
      }
      var updated := OverwriteEditable(existing.value, req);
      if updated.Err? {
        return Err(updated.error);
      }
      var saved := repo.Save(updated.value);
      r := Ok(MapToProductResponse(saved));
    }

    /** The in-place overwrite of a fetched record by a request, reading the clock for `updatedAt`. */
    method OverwriteEditable(p: Product, req: ProductRequest) returns (r: Result<Product, Failure>)
      modifies clock
      ensures old(clock.time) <= clock.time
      ensures r == Overwritten(p, req, clock.time)
    {
      var product := p.(name := req.name, description := req.description, price := req.price,
                        category := req.category, tags := req.tags, imageUrl := req.imageUrl,
                        stockQuantity := req.stockQuantity);
      var dims := MapToProductDimensions(req.dimensions);
      if dims.Err? {
        return Err(dims.error);
      }
      product := product.(dimensions := dims.value, medium := req.medium, style := req.style);
      var now := clock.Now();
      r := Ok(product.(updatedAt := Some(now)));
    }

    /** Unconditional delete: no existence check, and deleting an unknown id is not an error. */
    method DeleteProduct(id: Id)
      requires Valid()
      modifies repo
      ensures Valid()
      ensures repo.records == old(repo.records) - {id}
    {
      repo.DeleteById(id);
    }

    /** Fetch-or-fail. */
    function GetProductById(id: Id): (r: Result<ProductResponse, Failure>)
      reads repo
      requires repo.Valid()
      ensures r.Ok? <==> id in repo.records
      ensures r.Err? ==> r.error == NotFound(NotFoundMessage)
      ensures r.Ok? ==> r.value == MapToProductResponse(repo.records[id]) && r.value.id == Some(id)
    {
      match repo.FindById(id)
      case None => Err(NotFound(NotFoundMessage))
      case Some(p) => Ok(MapToProductResponse(p))
    }

    /** The responses of the artist's records, one per store match, in the store's order. */
    function GetProductsByArtist(artistId: string): (rs: seq<ProductResponse>)
      reads repo
      requires repo.Valid()
      ensures |rs| == |repo.FindByArtistId(artistId)|
      ensures forall i :: 0 <= i < |rs| ==> rs[i] == MapToProductResponse(repo.FindByArtistId(artistId)[i])
    {
      MapToResponses(repo.FindByArtistId(artistId))
    }

    /** The responses of the category's records, one per store match, in the store's order. */
    function GetProductsByCategory(category: string): (rs: seq<ProductResponse>)
      reads repo
      requires repo.Valid()
      ensures |rs| == |repo.FindByCategory(category)|
      ensures forall i :: 0 <= i < |rs| ==> rs[i] == MapToProductResponse(repo.FindByCategory(category)[i])
    {
      MapToResponses(repo.FindByCategory(category))
    }

    /** The responses of the records priced within the inclusive range, one per store match, in the store's order. */
    function GetProductsByPriceRange(minPrice: Price, maxPrice: Price): (rs: seq<ProductResponse>)
      reads repo
      requires repo.Valid()
      ensures |rs| == |repo.FindByPriceRange(minPrice, maxPrice)|
      ensures forall i :: 0 <= i < |rs| ==> rs[i] == MapToProductResponse(repo.FindByPriceRange(minPrice, maxPrice)[i])
    {
      MapToResponses(repo.FindByPriceRange(minPrice, maxPrice))
    }

    /** Sets availability to `available` from either state and stamps `updatedAt`; nothing else changes. */
    method UpdateProductAvailability(id: Id, available: bool) returns (r: Result<ProductResponse, Failure>)
      requires Valid()
      modifies repo, clock
      ensures Valid()
      ensures id !in old(repo.records) ==> r == Err(NotFound(NotFoundMessage)) && repo.records == old(repo.records)
      ensures id in old(repo.records) ==>
        && old(clock.time) <= clock.time
        && repo.records == old(repo.records)[id := WithAvailability(old(repo.records[id]), available, clock.time)]
        && r == Ok(MapToProductResponse(repo.records[id]))
    {
      var found := repo.FindById(id);
      if found.None? {
        return Err(NotFound(NotFoundMessage));
      }
      var product := found.value.(isAvailable := available);
      var now := clock.Now();
      product := product.(updatedAt := Some(now));
      var saved := repo.Save(product);
      r := Ok(MapToProductResponse(saved));
    }

    /**
     * Reserves an available product. An unknown id and an already reserved
     * product both fail, and neither changes the store.
     */
    method ReserveProduct(id: Id) returns (r: Result<ProductResponse, Failure>)
      requires Valid()
      modifies repo, clock
      ensures Valid()
      ensures id !in old(repo.records) ==> r == Err(NotFound(NotFoundMessage)) && repo.records == old(repo.records)
      ensures id in old(repo.records) && !old(repo.records[id].isAvailable) ==>
        r == Err(NotAvailable(NotAvailableMessage)) && repo.records == old(repo.records)
      ensures id in old(repo.records) && old(repo.records[id].isAvailable) ==>
        && old(clock.time) <= clock.time
        && Reserved(old(repo.records[id]), clock.time).Ok?
        && repo.records == old(repo.records)[id := Reserved(old(repo.records[id]), clock.time).value]
        && r == Ok(MapToProductResponse(repo.records[id]))
    {
      var found := repo.FindById(id);
      if found.None? {
        return Err(NotFound(NotFoundMessage));
      }
      var product := found.value;
      if !product.isAvailable {
        return Err(NotAvailable(NotAvailableMessage));
      }
      product := product.(isAvailable := false);
      var now := clock.Now();
      product := product.(updatedAt := Some(now));
      var saved := repo.Save(product);
      r := Ok(MapToProductResponse(saved));
    }

    /** Releases a product: it ends available whatever its state before; an unknown id fails. */
    method ReleaseProduct(id: Id) returns (r: Result<ProductResponse, Failure>)
      requires Valid()
      modifies repo, clock
      ensures Valid()
      ensures id !in old(repo.records) ==> r == Err(NotFound(NotFoundMessage)) && repo.records == old(repo.records)
      ensures id in old(repo.records) ==>
        && old(clock.time) <= clock.time
        && repo.records == old(repo.records)[id := WithAvailability(old(repo.records[id]), true, clock.time)]
        && r == Ok(MapToProductResponse(repo.records[id]))
        && r.value.isAvailable
    {
      var found := repo.FindById(id);
      if found.None? {
        return Err(NotFound(NotFoundMessage));
      }
      var product := found.value.(isAvailable := true);
      var now := clock.Now();
      product := product.(updatedAt := Some(now));
      var saved := repo.Save(product);
      r := Ok(MapToProductResponse(saved));
    }
  }

  /**
   * The responses to a store selection are exactly the responses of the stored
   * records the selection keeps: each response is that of the record stored
   * under its id, and every kept record has its response listed.
   */
  lemma ResponsesOfSelection(repo: ProductRepository, ps: seq<Product>, keep: Product -> bool)
    requires repo.Valid()
    requires forall p :: p in ps <==> p in repo.records.Values && keep(p)
    ensures var rs := MapToResponses(ps);
      && (forall i :: 0 <= i < |rs| ==>
            && rs[i].id.Some? && rs[i].id.value in repo.records
            && keep(repo.records[rs[i].id.value])
            && rs[i] == MapToProductResponse(repo.records[rs[i].id.value]))
      && (forall k :: k in repo.records && keep(repo.records[k]) ==> MapToProductResponse(repo.records[k]) in rs)
  {
    var rs := MapToResponses(ps);
    forall i | 0 <= i < |rs|
      ensures rs[i].id.Some? && rs[i].id.value in repo.records
      ensures keep(repo.records[rs[i].id.value])
      ensures rs[i] == MapToProductResponse(repo.records[rs[i].id.value])
    {
      assert ps[i] in ps;
      var k :| k in repo.records && repo.records[k] == ps[i];
    }
    forall k | k in repo.records && keep(repo.records[k])
      ensures MapToProductResponse(repo.records[k]) in rs
    {
      assert repo.records[k] in repo.records.Values;
      var i :| 0 <= i < |ps| && ps[i] == repo.records[k];
      assert rs[i] == MapToProductResponse(repo.records[k]);
    }
  }

  /** Listing by artist returns exactly the artist's stored records. */
  lemma ArtistListingIsExact(service: ProductService, artistId: string)
    requires service.repo.Valid()
    ensures var rs := service.GetProductsByArtist(artistId);
      && (forall i :: 0 <= i < |rs| ==>
            && rs[i].id.Some? && rs[i].id.value in service.repo.records
            && rs[i].artistId == Some(artistId)
            && rs[i] == MapToProductResponse(service.repo.records[rs[i].id.value]))
      && (forall k :: k in service.repo.records && service.repo.records[k].artistId == Some(artistId) ==>
            MapToProductResponse(service.repo.records[k]) in rs)
  {
    ResponsesOfSelection(service.repo, service.repo.FindByArtistId(artistId), (p: Product) => p.artistId == Some(artistId));
  }

  /** Listing by category returns exactly the category's stored records. */
  lemma CategoryListingIsExact(service: ProductService, category: string)
    requires service.repo.Valid()
    ensures var rs := service.GetProductsByCategory(category);
      && (forall i :: 0 <= i < |rs| ==>
            && rs[i].id.Some? && rs[i].id.value in service.repo.records
            && rs[i].category == Some(category)
            && rs[i] == MapToProductResponse(service.repo.records[rs[i].id.value]))
      && (forall k :: k in service.repo.records && service.repo.records[k].category == Some(category) ==>
            MapToProductResponse(service.repo.records[k]) in rs)
  {
    ResponsesOfSelection(service.repo, service.repo.FindByCategory(category), (p: Product) => p.category == Some(category));
  }

  /**
   * Listing by price range returns exactly the stored records priced within the
   * inclusive range; an inverted range lists nothing.
   */
  lemma PriceRangeListingIsExact(service: ProductService, minPrice: Price, maxPrice: Price)
    requires service.repo.Valid()
    ensures var rs := service.GetProductsByPriceRange(minPrice, maxPrice);
      && (forall i :: 0 <= i < |rs| ==>
            && rs[i].id.Some? && rs[i].id.value in service.repo.records
            && minPrice <= rs[i].price <= maxPrice
            && rs[i] == MapToProductResponse(service.repo.records[rs[i].id.value]))
      && (forall k :: k in service.repo.records && minPrice <= service.repo.records[k].price <= maxPrice ==>
            MapToProductResponse(service.repo.records[k]) in rs)
      && (minPrice > maxPrice ==> rs == [])
  {
    ResponsesOfSelection(service.repo, service.repo.FindByPriceRange(minPrice, maxPrice), (p: Product) => minPrice <= p.price <= maxPrice);
    var ps := service.repo.FindByPriceRange(minPrice, maxPrice);
    assert ps != [] ==> ps[0] in ps;
  }
}
