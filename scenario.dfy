/**
 * A client of the service that walks one product through its life: create,
 * reserve, a refused second reserve, release, list by category, and delete
 * (twice, the second a no-op). Its assertions are what a caller can conclude
 * from the service's contracts alone.
 */
module Scenario {
  import opened Wrappers
  import opened Model
  import opened Repository
  import opened WallClock
  import opened Mapping
  import opened Service

  /** In a store holding a single record, a category listing that matches it lists that record alone. */
  lemma OnlyRecordListed(service: ProductService, id: Id, category: string)
    requires service.repo.Valid()
    requires service.repo.records.Keys == {id}
    requires service.repo.records[id].category == Some(category)
    ensures forall x :: x in service.GetProductsByCategory(category) <==>
      x == MapToProductResponse(service.repo.records[id])
  {
    CategoryListingIsExact(service, category);
  }

  /** A fresh service over an empty store, after creating one available product of category `Art`. */
  method CreateArtwork(artistId: string) returns (service: ProductService, id: Id)
    ensures fresh(service) && fresh(service.repo) && fresh(service.clock)
    ensures service.Valid()
    ensures service.repo.records.Keys == {id}
    ensures service.repo.records[id].isAvailable
    ensures service.repo.records[id].artistId == Some(artistId)
    ensures service.repo.records[id].category == Some("Art")
  {
    var repo := new ProductRepository();
    var clock := new Clock(0);
    service := new ProductService(repo, clock);
    var req := EmptyRequest().(price := 10000, category := Some("Art"));
    var created := service.CreateProduct(req, artistId);
    id := created.value.id.value;
  }

  /** Reserve succeeds once and is refused the second time; release then makes the product available again. */
  method ReserveTwiceThenRelease(service: ProductService, id: Id) returns (released: ProductResponse)
    requires service.Valid()
    requires id in service.repo.records && service.repo.records[id].isAvailable
    modifies service.repo, service.clock
    ensures service.Valid()
    ensures service.repo.records.Keys == old(service.repo.records.Keys)
    ensures service.repo.records[id].category == old(service.repo.records[id].category)
    ensures released == MapToProductResponse(service.repo.records[id]) && released.isAvailable
  {
    var first := service.ReserveProduct(id);
    assert first.Ok? && !first.value.isAvailable;

    var second := service.ReserveProduct(id);
    assert second == Err(NotAvailable(NotAvailableMessage));

    var third := service.ReleaseProduct(id);
    assert third.Ok? && third.value.isAvailable;
    released := third.value;
  }

  method ReserveReleaseScenario(artistId: string) {
    var service, id := CreateArtwork(artistId);
    var released := ReserveTwiceThenRelease(service, id);

    var art := service.GetProductsByCategory("Art");
    OnlyRecordListed(service, id, "Art");
    assert forall x :: x in art <==> x == released;

    service.DeleteProduct(id);
    service.DeleteProduct(id);
    assert service.GetProductById(id) == Err(NotFound(NotFoundMessage));
  }
}
