/**
 * The persisted product record, its dimensions value object, the request and
 * response shapes exchanged with callers, and the failures the service raises.
 */
module Model {
  import opened Wrappers

  /** Identifier the record store assigns on first insert; opaque, never reused. */
  type Id = nat

  /** A reading of the wall clock. */
  type Time = nat

  /** A monetary amount in an abstract ordered unit (say, cents); only compared, never computed with. */
  type Price = int

  /** A length or a width; only copied, never computed with. */
  type Measure = real

  /** The persisted dimensions: primitive (never null) length and width. */
  datatype Dimensions = Dimensions(length: Measure, width: Measure, unit: Option<string>)

  /** The caller-facing dimensions: boxed, so length and width may be null. */
  datatype DimensionsDTO = DimensionsDTO(length: Option<Measure>, width: Option<Measure>, unit: Option<string>)

  /** The persisted product record. */
  datatype Product = Product(
    id: Option<Id>,
    name: Option<string>,
    description: Option<string>,
    price: Price,
    artistId: Option<string>,
    category: Option<string>,
    tags: Option<seq<string>>,
    imageUrl: Option<string>,
    stockQuantity: Option<int>,
    createdAt: Option<Time>,
    updatedAt: Option<Time>,
    isAvailable: bool,
    medium: Option<string>,
    dimensions: Option<Dimensions>,
    style: Option<string>)

  /**
   * The caller's request body: the ten editable fields. The price is a primitive,
   * so an omitted price arrives as zero; every other omitted field arrives as null.
   */
  datatype ProductRequest = ProductRequest(
    name: Option<string>,
    description: Option<string>,
    price: Price,
    category: Option<string>,
    tags: Option<seq<string>>,
    imageUrl: Option<string>,
    stockQuantity: Option<int>,
    dimensions: Option<DimensionsDTO>,
    medium: Option<string>,
    style: Option<string>)

  /** The caller-facing view of a stored product. */
  datatype ProductResponse = ProductResponse(
    id: Option<Id>,
    name: Option<string>,
    description: Option<string>,
    price: Price,
    artistId: Option<string>,
    category: Option<string>,
    tags: Option<seq<string>>,
    imageUrl: Option<string>,
    stockQuantity: Option<int>,
    createdAt: Option<Time>,
    updatedAt: Option<Time>,
    isAvailable: bool,
    dimensions: Option<DimensionsDTO>,
    medium: Option<string>,
    style: Option<string>)

  /** The exceptions the service lets escape. */
  datatype Failure =
    | NotFound(message: string)       // RuntimeException for an unknown id
    | NotAvailable(message: string)   // RuntimeException when reserving a reserved product
    | NullMeasure                     // NullPointerException unboxing a null length or width

  const NotFoundMessage: string := "Product not found"
  /** `updateProduct` spells its not-found message with capitals. */
  const NotFoundOnUpdateMessage: string := "Product Not Found"
  const NotAvailableMessage: string := "Product is not available for purchase"

  /** A request with every field omitted, as an empty JSON body deserialises. */
  function EmptyRequest(): ProductRequest {
    ProductRequest(None, None, 0, None, None, None, None, None, None, None)
  }
}
