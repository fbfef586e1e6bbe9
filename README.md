# Product service: a verified model

This project models the product service of an artwork marketplace backend
(`ProductServiceImpl`). The service keeps "product" records, the artworks
artists list for sale, in an id-keyed document store. It offers:

- create, full update, fetch and delete;
- listings by artist, by category and by inclusive price range;
- a two-state availability machine: available or reserved. *Set availability*
  sets either state. *Reserve* is legal only from available. *Release* always
  ends in available.

## How the model is built

- `wrappers.dfy`: `Option` stands for Java `null`. `Result` stands for a value
  or the exception thrown in its place.
- `model.dfy`: the entities and messages.
  - `Product` is the persisted record and `Dimensions` its value object.
  - `ProductRequest`, `ProductResponse` and `DimensionsDTO` are the
    caller-facing shapes.
  - `Failure` holds the exceptions that escape the service, with their
    messages.
  - Every nullable Java reference field is an `Option`. The request price is
    a Java primitive, so it is never null, and an omitted price is zero.
- `mapping.dfy`: the four structural mappers, plus the mapping of a store
  result list to a response list. They are pure functions. Lemmas prove that
  dimensions round-trip in both directions and that the response mapping
  loses nothing.
- `repository.dfy`: the record store, a class `ProductRepository`.
  - A `records: map<Id, Product>` field holds the records. A `nextId`
    counter issues fresh ids.
  - `Save` inserts or replaces, and assigns a fresh id on first insert.
    `FindById` returns an optional record. `DeleteById` removes the key.
  - The three finders are an equality filter on the artist, an equality
    filter on the category, and an inclusive `min <= price <= max` filter.
  - Ids are never reused. The real store leaves the order of its scans
    unspecified; this model fixes it as ascending id order, which is also
    insertion order. No service contract depends on that choice beyond "the
    store's order".
- `clock.dfy`: the wall clock (`LocalDateTime.now()`) as a `Clock` object.
  The model's clock is a monotone counter: its readings never go backwards.
  This is stronger than the real local wall clock (see "## Left out").
- `service.dfy`: the service itself.
  - A class `ProductService` holds the store and the clock. Its methods
    change the store with `Save`/`DeleteById`, as the Java does.
  - Each mutating method is proved against a pure function that specifies
    the new record: `NewProduct`, `Overwritten`, `WithAvailability` and
    `Reserved`. Properties of those functions, such as idempotence, are
    proved as lemmas.
  - The invariant `Valid()` holds for the store's consistency, and because
    every stored record has an owner and is stamped with
    `createdAt <= updatedAt <=` the clock. Every method preserves it.
  - The read-only operations (fetch and the three listings) are functions.
    Lemmas prove that each listing returns exactly the matching stored
    records.
- `scenario.dfy`: a client that takes one product through its life.
  - It creates the product with category `Art`, reserves it, and is refused
    a second reserve.
  - It releases the product, lists the category (exactly this product
    appears), and deletes it twice. The second delete is a no-op.
  - Every assertion follows from the service's contracts alone.

Choices where the code decides:

- `createProduct` reads the clock twice (`ProductServiceImpl.java` lines
  32-33). So `createdAt` and `updatedAt` are two separate readings, which
  need not be equal. With the model's monotone clock they satisfy
  `createdAt <= updatedAt`.
- A clock may repeat a reading, so even the model's monotone clock gives
  only that an update, reserve or release leaves `updatedAt` no earlier than
  it was, not strictly later. Every timestamp-ordering fact in the model
  rests on the model's clock (see `WallClock.Clock.Now` under "## Left out").
- In the store, dimension length and width are primitive `double`s, but in
  the DTO they are boxed `Double`s. A request whose dimensions have a null
  length or width makes the mappers throw a `NullPointerException`. The model
  keeps this as the error `NullMeasure`, raised before anything is stored.
  It is not excluded by a precondition.
- `updateProduct` fails with the message "Product Not Found". Every other
  lookup fails with "Product not found". Both are kept.
- `deleteProduct` does not check that the id exists. Deleting an unknown id
  changes nothing and is not an error.

## Model

| member | source | states |
|---|---|---|
| `Mapping.MapToProductDimensions` | src/main/java/com/artztall/product_service/service/ProductServiceImpl.java:153-160 | null maps to null and only null maps to null; a null length or width fails with the unboxing error; otherwise length, width and unit are copied |
| `Mapping.MapToProductDimensionsDTO` | src/main/java/com/artztall/product_service/service/ProductServiceImpl.java:197-204 | null maps to null and only null maps to null; the boxed DTO never has a null measure; length, width and unit are copied |
| `Mapping.DimensionsRoundTrip` | src/main/java/com/artztall/product_service/service/ProductServiceImpl.java:197-204 | entity dimensions mapped to the DTO and back are unchanged, null included |
| `Mapping.DimensionsDtoRoundTrip` | src/main/java/com/artztall/product_service/service/ProductServiceImpl.java:153-160 | a DTO without null measures mapped to the entity and back is unchanged, null included |
| `Mapping.DimensionsDtoInjective` | src/main/java/com/artztall/product_service/service/ProductServiceImpl.java:197-204 | different entity dimensions never give the same DTO |
| `Mapping.MapToProduct` | src/main/java/com/artztall/product_service/service/ProductServiceImpl.java:138-151 | the ten request fields are copied, dimensions through the dimensions mapper; id, owner and timestamps stay null and availability false; fails exactly when the dimensions cannot be unboxed |
| `Mapping.MapToProductResponse` | src/main/java/com/artztall/product_service/service/ProductServiceImpl.java:176-194 | every entity field is copied, including id, artistId, both timestamps and availability; the response's dimensions map back to the entity's |
| `Mapping.ResponseIsLossless` | src/main/java/com/artztall/product_service/service/ProductServiceImpl.java:176-194 | two entities with the same response are the same entity |
| `Mapping.ResponseEchoesRequest` | src/main/java/com/artztall/product_service/service/ProductServiceImpl.java:138-151 | an entity built from a request shows that request's ten fields in its response, dimensions included |
| `Mapping.MapToResponses` | src/main/java/com/artztall/product_service/service/ProductServiceImpl.java:70-88 | one response per store record, in the same order |
| `Repository.ProductRepository.FindById` | src/main/java/com/artztall/product_service/repository/ProductRepository.java:12 | returns a record exactly when one is stored under the id, and then that record |
| `Repository.ProductRepository.Save` | src/main/java/com/artztall/product_service/repository/ProductRepository.java:12 | a record without an id is stored under a fresh, never-used id; a record with an id replaces the one under it; no other record changes |
| `Repository.ProductRepository.DeleteById` | src/main/java/com/artztall/product_service/repository/ProductRepository.java:12 | removes exactly the key; an absent key changes nothing |
| `Repository.ProductRepository.Scan` | src/main/java/com/artztall/product_service/repository/ProductRepository.java:12 | every stored record exactly once, each under its own id, in ascending id order |
| `Repository.ProductRepository.FindByArtistId` | src/main/java/com/artztall/product_service/repository/ProductRepository.java:13 | exactly the stored records of that artist, in ascending id order |
| `Repository.ProductRepository.FindByCategory` | src/main/java/com/artztall/product_service/repository/ProductRepository.java:14 | exactly the stored records of that category, in ascending id order |
| `Repository.ProductRepository.FindByPriceRange` | src/main/java/com/artztall/product_service/repository/ProductRepository.java:18-19 | exactly the stored records with `min <= price <= max`, bounds included, in ascending id order |
| `WallClock.Clock.Now` | src/main/java/com/artztall/product_service/service/ProductServiceImpl.java:32-33 | a clock reading; readings never go backwards |
| `Service.NewProduct` | src/main/java/com/artztall/product_service/service/ProductServiceImpl.java:29-34 | the record to create copies the request, is owned by the given artist, is stamped with both readings, is available and has no id yet; fails exactly on unboxable-null dimensions |
| `Service.Overwritten` | src/main/java/com/artztall/product_service/service/ProductServiceImpl.java:162-174 | exactly the ten editable fields are replaced from the request and updatedAt is stamped; id, artistId, createdAt and availability are kept |
| `Service.WithAvailability` | src/main/java/com/artztall/product_service/service/ProductServiceImpl.java:95-96 | availability becomes the given value from either state, updatedAt is stamped, and nothing else changes |
| `Service.Reserved` | src/main/java/com/artztall/product_service/service/ProductServiceImpl.java:108-113 | succeeds exactly from available, then the record is reserved and stamped with nothing else changed; from reserved it fails with "Product is not available for purchase" |
| `Service.CreatedResponse` | src/main/java/com/artztall/product_service/service/ProductServiceImpl.java:29-37 | the created product's response is available, owned by the given artist, stamped, and shows the request's fields exactly |
| `Service.UpdatedResponse` | src/main/java/com/artztall/product_service/service/ProductServiceImpl.java:40-46 | reading a record back after an update gives the request's fields exactly, with id, artistId, createdAt and availability as before |
| `Service.OmittedFieldsAreCleared` | src/main/java/com/artztall/product_service/service/ProductServiceImpl.java:162-174 | an update does not merge: a field the request omits is cleared (the price zeroed), not kept |
| `Service.UpdateIsIdempotent` | src/main/java/com/artztall/product_service/service/ProductServiceImpl.java:162-174 | the same update applied twice equals applying it once, apart from updatedAt |
| `Service.ReserveTwiceFails` | src/main/java/com/artztall/product_service/service/ProductServiceImpl.java:108-112 | after a successful reserve, a second reserve fails with the not-available error |
| `Service.ReleaseUndoesReserve` | src/main/java/com/artztall/product_service/service/ProductServiceImpl.java:112-125 | release after reserve gives back the record as it was before the reserve, apart from updatedAt |
| `Service.ReleaseIsIdempotent` | src/main/java/com/artztall/product_service/service/ProductServiceImpl.java:120-129 | release always ends available; releasing twice equals releasing once, apart from updatedAt |
| `Service.LastAvailabilityWins` | src/main/java/com/artztall/product_service/service/ProductServiceImpl.java:91-99 | setting availability twice equals setting it once to the second value: the set is unconditional |
| `Service.ProductService.constructor` | src/main/java/com/artztall/product_service/service/ProductServiceImpl.java:23-25 | the service is built over the given store and clock, and starts out satisfying `Valid()` |
| `Service.ProductService.CreateProduct` | src/main/java/com/artztall/product_service/service/ProductServiceImpl.java:29-37 | stores `NewProduct` of the request, owner and two ordered clock readings under a fresh id; no other record changes; the response is the stored record's; unboxable-null dimensions fail with the store untouched; keeps `Valid()` |
| `Service.ProductService.UpdateProduct` | src/main/java/com/artztall/product_service/service/ProductServiceImpl.java:40-47 | an unknown id fails with "Product Not Found" and unboxable-null dimensions fail, both with the store unchanged; otherwise the record becomes `Overwritten` at a fresh reading, only that record changes, updatedAt does not go back; keeps `Valid()` |
| `Service.ProductService.OverwriteEditable` | src/main/java/com/artztall/product_service/service/ProductServiceImpl.java:162-174 | the result is `Overwritten` of the record and request at the clock reading it took |
| `Service.ProductService.DeleteProduct` | src/main/java/com/artztall/product_service/service/ProductServiceImpl.java:51-53 | the store loses exactly that id, with no error when it was absent; keeps `Valid()` |
| `Service.ProductService.GetProductById` | src/main/java/com/artztall/product_service/service/ProductServiceImpl.java:56-60 | succeeds exactly for a stored id, with that record's response (carrying that id); otherwise fails with "Product not found" |
| `Service.ProductService.GetProductsByArtist` | src/main/java/com/artztall/product_service/service/ProductServiceImpl.java:70-74 | one response per store match of the artist, in the store's order |
| `Service.ProductService.GetProductsByCategory` | src/main/java/com/artztall/product_service/service/ProductServiceImpl.java:77-81 | one response per store match of the category, in the store's order |
| `Service.ProductService.GetProductsByPriceRange` | src/main/java/com/artztall/product_service/service/ProductServiceImpl.java:84-88 | one response per store match of the price range, in the store's order |
| `Service.ProductService.UpdateProductAvailability` | src/main/java/com/artztall/product_service/service/ProductServiceImpl.java:91-100 | an unknown id fails with the store unchanged; otherwise only that record changes, to `WithAvailability` of the value at a fresh reading; keeps `Valid()` |
| `Service.ProductService.ReserveProduct` | src/main/java/com/artztall/product_service/service/ProductServiceImpl.java:104-117 | an unknown id fails with "Product not found", a reserved product fails with "Product is not available for purchase", both with the store unchanged; an available product becomes `Reserved` and nothing else changes; keeps `Valid()` |
| `Service.ProductService.ReleaseProduct` | src/main/java/com/artztall/product_service/service/ProductServiceImpl.java:120-129 | an unknown id fails with the store unchanged; otherwise the record ends available whatever its state, stamped, nothing else changed; keeps `Valid()` |
| `Service.ArtistListingIsExact` | src/main/java/com/artztall/product_service/service/ProductServiceImpl.java:70-74 | the artist listing holds the response of every stored record of the artist and nothing else |
| `Service.CategoryListingIsExact` | src/main/java/com/artztall/product_service/service/ProductServiceImpl.java:77-81 | the category listing holds the response of every stored record of the category and nothing else |
| `Service.PriceRangeListingIsExact` | src/main/java/com/artztall/product_service/service/ProductServiceImpl.java:84-88 | the price listing holds the response of every stored record with `min <= price <= max` and nothing else; an inverted range lists nothing |

## Left out

- `getAllProducts`: pagination is delegated wholly to the Spring Data
  `Page`/`Pageable` machinery, which is not part of this model.
- `searchProducts`: the store method it calls does not exist in
  `ProductRepository`, and its matching rules are undefined. It is not modelled.
- `findByTagsContaining`: declared in the store but never used by the service.
- `ProductController` (routing and status codes) and `SwaggerConfig` (API
  documentation): transport and documentation plumbing.
- Floating point: prices are an abstract ordered integer type, used only for
  the inclusive comparison. Dimension measures are opaque values that are
  only copied. The mismatch between the request's `double` price and the
  entity's `BigDecimal` price is not modelled.
- Null price-range bounds (the boxed `Double` parameters) are not modelled.
  Both bounds are always given.
- `stockQuantity` is a Java `Integer`. It is only copied, so its 32-bit range
  is not modelled.
- Concurrency: the unguarded read-then-write in reserve is a check-then-act
  race. A sequential model cannot show it.
- Store failures, such as an unreachable database, are not modelled.
- In-place mutation: records are values. The Java helper `updateProduct`
  sets fields on the fetched object one by one, so an unboxing failure
  leaves that object partly changed and unsaved. That aliasing is not
  modelled. Only the unchanged store is.
- `WallClock.Clock.Now`: the model's clock never goes backwards, but
  `LocalDateTime.now()` reads local wall-clock time, which can repeat or go
  back (a daylight-saving fall-back, a clock stepped back). Every
  timestamp-ordering fact holds only for the model's clock: `createdAt <=
  updatedAt` and "not stamped in the future" in `Valid()`, the ordered
  readings of `CreateProduct`, and the non-decreasing `updatedAt` of update,
  set-availability, reserve and release.
- `Service.ProductService.CreateProduct`: states `createdAt <= updatedAt`, not
  `createdAt == updatedAt`, because the code reads the clock twice and two
  readings may differ.
- `Service.ProductService.ReleaseProduct`: states only that `updatedAt` did not
  decrease, not that it advanced on each call, because the clock may repeat a
  reading.
- `Service.ProductService.UpdateProduct`: states only that `updatedAt` did not
  decrease, not that it strictly increased, because the clock may repeat a
  reading.
- `Service.ProductService.constructor`: requires every stored record to be
  owned and stamped no later than the clock. Records written to the store by
  anything other than this service are not modelled.
