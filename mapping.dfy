/**
 * The structural mappers of the product service: request to entity, entity to
 * response, dimensions in both directions, and a list of entities to a list of
 * responses. None of them validates anything; the only way one fails is the
 * unboxing of a null length or width.
 */
module Mapping {
  import opened Wrappers
  import opened Model

  /** A dimensions DTO whose boxed length or width is null: unboxing it throws. */
  predicate HasNullMeasure(d: Option<DimensionsDTO>) {
    d.Some? && (d.value.length.None? || d.value.width.None?)
  }

  /** DTO to entity dimensions; null stays null, and a null length or width throws. */
  function MapToProductDimensions(d: Option<DimensionsDTO>): (r: Result<Option<Dimensions>, Failure>)
    ensures r.Err? <==> HasNullMeasure(d)
    ensures r.Err? ==> r.error == NullMeasure
    ensures r == Ok(None) <==> d.None?
    ensures r.Ok? && r.value.Some? ==>
      && d.Some?
      && Some(r.value.value.length) == d.value.length
      && Some(r.value.value.width) == d.value.width
      && r.value.value.unit == d.value.unit
  {
    match d
    case None => Ok(None)
    case Some(dto) =>
      if dto.length.None? || dto.width.None? then Err(NullMeasure)
      else Ok(Some(Dimensions(dto.length.value, dto.width.value, dto.unit)))
  }

  /** Entity to DTO dimensions; null stays null, and boxing never yields a null measure. */
  function MapToProductDimensionsDTO(d: Option<Dimensions>): (r: Option<DimensionsDTO>)
    ensures r.None? <==> d.None?
    ensures !HasNullMeasure(r)
    ensures r.Some? ==>
      && r.value.length == Some(d.value.length)
      && r.value.width == Some(d.value.width)
      && r.value.unit == d.value.unit
  {
    match d
    case None => None
    case Some(dim) => Some(DimensionsDTO(Some(dim.length), Some(dim.width), dim.unit))
  }

  /** Entity dimensions survive a trip to the DTO and back, null included. */
  lemma DimensionsRoundTrip(d: Option<Dimensions>)
    ensures MapToProductDimensions(MapToProductDimensionsDTO(d)) == Ok(d)
  {
  }

  /** A DTO without null measures survives a trip to the entity and back, null included. */
  lemma DimensionsDtoRoundTrip(d: Option<DimensionsDTO>)
    requires !HasNullMeasure(d)
    ensures MapToProductDimensions(d).Ok?
    ensures MapToProductDimensionsDTO(MapToProductDimensions(d).value) == d
  {
  }

  /** Entity to DTO dimensions loses nothing: different dimensions give different DTOs. */
  lemma DimensionsDtoInjective(d: Option<Dimensions>, e: Option<Dimensions>)
    requires MapToProductDimensionsDTO(d) == MapToProductDimensionsDTO(e)
    ensures d == e
  {
    DimensionsRoundTrip(d);
    DimensionsRoundTrip(e);
  }

  /** `p` holds exactly the ten editable fields of `req`, dimensions mapped to the entity shape. */
  predicate CopiesRequest(p: Product, req: ProductRequest) {
    && p.name == req.name
    && p.description == req.description
    && p.price == req.price
    && p.category == req.category
    && p.tags == req.tags
    && p.imageUrl == req.imageUrl
    && p.stockQuantity == req.stockQuantity
    && MapToProductDimensions(req.dimensions) == Ok(p.dimensions)
    && p.medium == req.medium
    && p.style == req.style
  }

  /**
   * Request to a fresh entity. Identity, ownership, timestamps are left null and
   * availability false (the defaults of a new record); the service sets them.
   */
  function MapToProduct(req: ProductRequest): (r: Result<Product, Failure>)
    ensures r.Err? <==> HasNullMeasure(req.dimensions)
    ensures r.Err? ==> r.error == NullMeasure
    ensures r.Ok? ==>
      && CopiesRequest(r.value, req)
      && r.value.id.None? && r.value.artistId.None?
      && r.value.createdAt.None? && r.value.updatedAt.None?
      && !r.value.isAvailable
  {
    match MapToProductDimensions(req.dimensions)
    case Err(e) => Err(e)
    case Ok(dims) =>
      Ok(Product(
        id := None,
        name := req.name,
        description := req.description,
        price := req.price,
        artistId := None,
        category := req.category,
        tags := req.tags,
        imageUrl := req.imageUrl,
        stockQuantity := req.stockQuantity,
        createdAt := None,
        updatedAt := None,
        isAvailable := false,
        medium := req.medium,
        dimensions := dims,
        style := req.style))
  }

  /** Entity to response: every field is copied, identity, ownership, timestamps and availability included. */
  function MapToProductResponse(p: Product): (r: ProductResponse)
    ensures r.id == p.id && r.artistId == p.artistId
    ensures r.createdAt == p.createdAt && r.updatedAt == p.updatedAt
    ensures r.isAvailable == p.isAvailable
    ensures r.name == p.name && r.description == p.description && r.price == p.price
    ensures r.category == p.category && r.tags == p.tags && r.imageUrl == p.imageUrl
    ensures r.stockQuantity == p.stockQuantity && r.medium == p.medium && r.style == p.style
    ensures MapToProductDimensions(r.dimensions) == Ok(p.dimensions)
  {
    DimensionsRoundTrip(p.dimensions);
    ProductResponse(
      id := p.id,
      name := p.name,
      description := p.description,
      price := p.price,
      artistId := p.artistId,
      category := p.category,
      tags := p.tags,
      imageUrl := p.imageUrl,
      stockQuantity := p.stockQuantity,
      createdAt := p.createdAt,
      updatedAt := p.updatedAt,
      isAvailable := p.isAvailable,
      dimensions := MapToProductDimensionsDTO(p.dimensions),
      medium := p.medium,
      style := p.style)
  }

  /** The response mapping is lossless: two entities with the same response are the same entity. */
  lemma ResponseIsLossless(p: Product, q: Product)
    requires MapToProductResponse(p) == MapToProductResponse(q)
    ensures p == q
  {
    DimensionsDtoInjective(p.dimensions, q.dimensions);
  }

  /** A request's fields come back unchanged in the response of an entity that copies them. */
  lemma ResponseEchoesRequest(p: Product, req: ProductRequest)
    requires CopiesRequest(p, req)
    ensures var r := MapToProductResponse(p);
      && r.name == req.name && r.description == req.description && r.price == req.price
      && r.category == req.category && r.tags == req.tags && r.imageUrl == req.imageUrl
      && r.stockQuantity == req.stockQuantity && r.dimensions == req.dimensions
      && r.medium == req.medium && r.style == req.style
  {
    DimensionsDtoRoundTrip(req.dimensions);
  }

  /** A list of entities to a list of responses: one response per entity, in the same order. */
  function MapToResponses(ps: seq<Product>): (rs: seq<ProductResponse>)
    ensures |rs| == |ps|
    ensures forall i :: 0 <= i < |ps| ==> rs[i] == MapToProductResponse(ps[i])
  {
    if ps == [] then [] else [MapToProductResponse(ps[0])] + MapToResponses(ps[1..])
  }
}
