/** Entities, request/response records and errors of the kiosk backend.
    Identifiers are the JPA `Long` keys; money is an exact amount in cents
    (the backend uses `BigDecimal`, which is exact decimal arithmetic). */
module Domain {

  type Id = nat

  /** An amount of money in cents. */
  type Money = int

  /** A point in time as supplied by the caller (the clock is not modelled). */
  type DateTime = int

  datatype Option<+T> = None | Some(value: T)

  /** The `RuntimeException`s the services throw, one constructor per message. */
  datatype Error =
    | UserNotFound                               // "User not found"
    | ProductNotFound                            // "Product not found"
    | ProductNotFoundFor(productId: Id)          // "Product not found: <id>"
    | InsufficientStockFor(productName: string)  // "Insufficient stock for product: <name>"
    | CategoryNotFound                           // "Category not found"

  /** A service call either returns a value or throws one of the errors above. */
  datatype Result<+T> = Ok(value: T) | Err(error: Error)

  datatype Role = Admin | Employee

  datatype User = User(id: Id, username: string, email: string, password: string, role: Role)

  datatype Category = Category(id: Id, name: string, description: string)

  /** A product row; `categoryId` is the optional many-to-one category link. */
  datatype Product = Product(
    id: Id,
    barcode: string,
    name: string,
    price: Money,
    stockQuantity: int,
    categoryId: Option<Id>,
    active: bool)

  /** The product DTO used both as request body and as response. */
  datatype ProductDto = ProductDto(
    id: Option<Id>,
    barcode: string,
    name: string,
    price: Money,
    stockQuantity: int,
    categoryId: Option<Id>,
    categoryName: Option<string>)

  /** Bean-validation constraints of a product DTO that the controller enforces
      before the service is called: price positive, stock at least zero. */
  predicate ValidProductDto(dto: ProductDto)
  {
    dto.price > 0 && dto.stockQuantity >= 0
  }

  /** One requested line of a sale: which product and how many units. */
  datatype SaleItem = SaleItem(productId: Id, quantity: int)

  /** A recorded sale line; it also serves as the detail DTO, which carries the same fields. */
  datatype SaleDetail = SaleDetail(
    productId: Id,
    productName: string,
    quantity: int,
    unitPrice: Money,
    subtotal: Money)

  datatype Sale = Sale(id: Id, dateTime: DateTime, seller: User, totalAmount: Money, details: seq<SaleDetail>)

  datatype SaleResponse = SaleResponse(
    id: Id,
    dateTime: DateTime,
    totalAmount: Money,
    username: string,
    details: seq<SaleDetail>)

  datatype RegisterRequest = RegisterRequest(
    username: string,
    email: string,
    password: string,
    role: Option<set<string>>)

  /** The HTTP reply of the registration endpoint: 200 or 400 with a text body. */
  datatype Response = Success(body: string) | BadRequest(body: string)

  /** Sum of the subtotals of a sequence of sale lines, accumulated left to right. */
  function SumSubtotals(details: seq<SaleDetail>): Money
  {
    if details == [] then 0
    else SumSubtotals(details[..|details| - 1]) + details[|details| - 1].subtotal
  }

  /** A stored sale is consistent: every line's subtotal is its price times its
      quantity and the sale total is the sum of the subtotals. */
  ghost predicate WellFormedSale(s: Sale)
  {
    && (forall k | 0 <= k < |s.details| :: s.details[k].subtotal == s.details[k].unitPrice * s.details[k].quantity)
    && s.totalAmount == SumSubtotals(s.details)
  }

  /** SaleMapper.toDTO: the seller is reported by username. */
  function ToSaleResponse(s: Sale): SaleResponse
  {
    SaleResponse(s.id, s.dateTime, s.totalAmount, s.seller.username, s.details)
  }
}
