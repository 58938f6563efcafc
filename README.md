# Kiosco La Madrina backend: sale commit, product table and sign-up in Dafny

This project models the server side of a small kiosk's point-of-sale system:

- **Sale commit** (`SaleServiceImpl.createSale`). A sale request is a list of
  `(productId, quantity)` lines, walked in order. Each line looks up its product.
  The sale fails if the product is unknown or its current stock is below the
  requested quantity. Otherwise the stock is decremented immediately and a
  detail line is recorded at the product's current price, with
  subtotal = price × quantity. The subtotal is added to the sale total. The
  service is transactional, so a failure undoes every earlier decrement.
  `findAll` lists the recorded sales.
- **Product table** (`ProductServiceImpl`): `findAll`, `findById`, `create`,
  `update` and `delete` over a table keyed by id. Each product has an optional
  link to a category.
- **User sign-up** (`AuthController.registerUser`). It refuses a username that
  is already taken. It derives the role and then stores one user.

Layout, one module per file:

- `domain.dfy` (`Domain`): entities, DTOs, errors (one constructor per exception
  message) and `SumSubtotals`. Money is an exact integer number of cents,
  because the source uses `BigDecimal`.
- `repositories.dfy` (`Repositories`): the JPA repositories gathered into one
  mutable class `Database`. Its fields are the product and category maps, the
  user and sale sequences, and the product identity counter. `Valid()` holds
  the invariant all operations keep. The module also models the user queries
  `existsByUsername` (`UsernameExists`) and `findByUsername` (`FindUser`).
- `sale_service.dfy` (`SaleService`): the pure specification `Commit`, a
  left-to-right fold of `Step` over the items, with its lemmas. `CreateSale` is
  the imperative loop, proved against `Commit`. It mutates `db.products` item by
  item and restores the snapshot taken at the start when an item fails.
- `product_service.dfy` (`ProductService`): the mapper projections `ToDto` and
  `ToEntity`, the lookups as functions, and create/update/delete as methods on
  the database. `Update` writes the setters through to the stored row and rolls
  them back when the category lookup fails, as the managed entity and the
  transaction do in the source.
- `auth_controller.dfy` (`AuthController`): `RegisterUser`. The password encoder
  is a function parameter.

The code treats `categoryId` as optional: a null id on create leaves the product without
a category, and on update it keeps the old one.

## Model

| member | source | states |
|---|---|---|
| `Repositories.FindUser` | src/main/java/devMario/example/kioscoLaMadrina/repository/UserRepository.java:8-10 | A user is found exactly when some stored user has that username, and the one found has that name and is stored. |
| `Repositories.FindUserUnique` | src/main/java/devMario/example/kioscoLaMadrina/repository/UserRepository.java:8 | When usernames are unique, looking up a stored user's name returns that very user. |
| `Repositories.AppendedUserIsFound` | src/main/java/devMario/example/kioscoLaMadrina/controller/AuthController.java:66-84 | Storing a user whose name is not taken keeps usernames unique, and the new user is then the one found by that name. |
| `SaleService.Commit` | src/main/java/devMario/example/kioscoLaMadrina/service/impl/SaleServiceImpl.java:42-66 | The item loop as a fold; it is the specification `CreateSale` is proved against. Its own contract is bookkeeping for the loop proof: with no items it yields the unchanged table, no details and total 0, and on success it has one detail per item. The properties of the sale are the lemmas below. |
| `SaleService.CommitSnoc` | src/main/java/devMario/example/kioscoLaMadrina/service/impl/SaleServiceImpl.java:45-66 | Proof plumbing for `CreateSale`'s loop invariant, not a promise about the sale: `Commit` unfolded at a prefix one item longer, that is, one more check-and-decrement step on the table left by the earlier items. |
| `SaleService.CommitStock` | src/main/java/devMario/example/kioscoLaMadrina/service/impl/SaleServiceImpl.java:45-55 | On success the same products exist, and each product's stock fell by exactly the total quantity the items request of it. No other field of any product changed. A stock that was at least 0 stays at least 0. No ordered product's total demand exceeds its original stock. |
| `SaleService.DemandOfUnordered` | src/main/java/devMario/example/kioscoLaMadrina/service/impl/SaleServiceImpl.java:45-54 | A product that no line names has a total demand of 0. |
| `SaleService.CommitLeavesUnorderedProducts` | src/main/java/devMario/example/kioscoLaMadrina/service/impl/SaleServiceImpl.java:45-55 | A committed sale leaves every product that no line names exactly as it was. |
| `SaleService.CommitDetails` | src/main/java/devMario/example/kioscoLaMadrina/service/impl/SaleServiceImpl.java:57-65 | On success there is one detail line per item, in request order. Each line carries the product's id, name and current price and the item's quantity, with subtotal = price × quantity. The total is the sum of the subtotals. |
| `SaleService.FailureIsFinal` | src/main/java/devMario/example/kioscoLaMadrina/service/impl/SaleServiceImpl.java:45-51 | If some prefix of the items fails (unknown product or insufficient stock), the whole sale fails with that first error. |
| `SaleService.CommitErrorAt` | src/main/java/devMario/example/kioscoLaMadrina/service/impl/SaleServiceImpl.java:45-51 | When line `i` is the first to fail, the sale fails with "Product not found: <id>" if that line's product is unknown, and otherwise with "Insufficient stock for product: <name>", in which case that product's demand up to and including line `i` exceeds its original stock. |
| `SaleService.CommitSucceedsIff` | src/main/java/devMario/example/kioscoLaMadrina/service/impl/SaleServiceImpl.java:45-55 | With positive quantities, the sale commits iff every ordered product exists and its total demand over all lines is at most its original stock. Both directions are proved. So lines checked one by one against the already reduced stock cannot oversell. |
| `SaleService.RepeatedLinesShareStock` | src/main/java/devMario/example/kioscoLaMadrina/service/impl/SaleServiceImpl.java:49-54 | Two positive lines for the same product commit iff their sum is at most that product's stock. |
| `SaleService.SumOfPositiveSubtotals` | src/main/java/devMario/example/kioscoLaMadrina/service/impl/SaleServiceImpl.java:65 | A non-empty list of lines with positive subtotals accumulates a positive total. |
| `SaleService.TotalZeroIffNoItems` | src/main/java/devMario/example/kioscoLaMadrina/service/impl/SaleServiceImpl.java:43-69 | With positive prices and quantities, a committed sale's total is 0 iff it has no lines. |
| `SaleService.CommitKeepsProductsValid` | src/main/java/devMario/example/kioscoLaMadrina/service/impl/SaleServiceImpl.java:49-55 | A committed sale keeps the product table consistent: ids, positive prices, stocks at least 0, existing categories. |
| `SaleService.CommitRecordsWellFormedSale` | src/main/java/devMario/example/kioscoLaMadrina/service/impl/SaleServiceImpl.java:57-69 | The sale recorded from a commit has subtotals = unit price × quantity and a total equal to their sum. |
| `SaleService.CreateSale` | src/main/java/devMario/example/kioscoLaMadrina/service/impl/SaleServiceImpl.java:34-73 | An unknown seller gives "User not found". It succeeds iff the seller exists and `Commit` succeeds. Any failure leaves the product and sale tables exactly as before. On success the product table is `Commit`'s and exactly one sale is appended: the seller, the given time, `Commit`'s details and total. The response maps that sale. The database stays `Valid()`. |
| `SaleService.FindAll` | src/main/java/devMario/example/kioscoLaMadrina/service/impl/SaleServiceImpl.java:75-81 | One response per stored sale, in order, with its id, date and time, stored total, seller username and details. Each response's total equals the sum of its line subtotals. |
| `ProductService.StoredIds` | src/main/java/devMario/example/kioscoLaMadrina/service/impl/ProductServiceImpl.java:32-33 | The stored ids in a range, strictly ascending (no duplicates), each stored, with every stored id in range listed. |
| `ProductService.ToDtos` | src/main/java/devMario/example/kioscoLaMadrina/service/impl/ProductServiceImpl.java:33-35 | One mapped DTO per given id, in the same order, each carrying its product's id. |
| `ProductService.FindAll` | src/main/java/devMario/example/kioscoLaMadrina/service/impl/ProductServiceImpl.java:30-36 | Exactly one DTO per stored product: each listed DTO is a stored product's mapping, ids strictly increase, and every stored product is listed. Ascending id order is a modelling choice that makes "no duplicates" provable; the repository promises no order. |
| `ProductService.FindById` | src/main/java/devMario/example/kioscoLaMadrina/service/impl/ProductServiceImpl.java:38-44 | Succeeds iff the id is stored, returning that product's DTO; otherwise "Product not found". |
| `ProductService.FindAllAgreesWithFindById` | src/main/java/devMario/example/kioscoLaMadrina/service/impl/ProductServiceImpl.java:32-44 | Every DTO findAll lists is exactly what findById returns for its id. |
| `ProductService.Create` | src/main/java/devMario/example/kioscoLaMadrina/service/impl/ProductServiceImpl.java:46-58 | An unknown non-null category gives "Category not found" and inserts nothing. Otherwise exactly one product is added under a fresh id: the DTO's fields, the DTO's category or none, and marked active. findById then returns the response. |
| `ProductService.Update` | src/main/java/devMario/example/kioscoLaMadrina/service/impl/ProductServiceImpl.java:60-78 | A missing id gives "Product not found". An unknown non-null category gives "Category not found" and the field overwrites are rolled back. Either error leaves the table unchanged. On success only that product changes: name, price, stock and barcode come from the DTO, and the category changes only when the DTO names one. The response is what findById then returns. |
| `ProductService.UpdateIsReadBack` | src/main/java/devMario/example/kioscoLaMadrina/service/impl/ProductServiceImpl.java:65-77 | The DTO of an updated product reports the same id and the request's name, price, stock and barcode. Its category is the request's if given, else the old one. |
| `ProductService.OverwriteIdempotent` | src/main/java/devMario/example/kioscoLaMadrina/service/impl/ProductServiceImpl.java:65-74 | Applying the same update twice gives the same product as applying it once. |
| `ProductService.Delete` | src/main/java/devMario/example/kioscoLaMadrina/service/impl/ProductServiceImpl.java:80-86 | Succeeds iff the id is stored; then exactly that product is removed and findById reports "Product not found". Otherwise it gives "Product not found" and changes nothing. |
| `AuthController.RegisterUser` | src/main/java/devMario/example/kioscoLaMadrina/controller/AuthController.java:63-87 | 400 with "Error: Username is already taken!" iff the username exists, and then no user is stored. Otherwise 200 and exactly one user is appended: the request's username and email and the encoded password. Its role is ADMIN iff the request has a role set containing "admin", else EMPLOYEE. Afterwards the username exists, so a repeat request is refused, and findByUsername returns the new user. |

Helpers without a contract: `Repositories.UsernameExists` (existsByUsername), `Domain.SumSubtotals`, `Domain.ToSaleResponse` (SaleMapper),
`SaleService.Demand`, `SaleService.PositiveQuantities`, `SaleService.Step`, `ProductService.ToDto` and `ProductService.ToEntity` (ProductMapper),
`ProductService.Overwritten`.

## Left out

- `AuthController.authenticateUser` is left out: it relies on Spring's authentication manager and JWT generation, which are not part of this model.
- The controllers' HTTP routing and `@PreAuthorize` role checks are left out. The seller's username, which `SaleController` reads from the security context, is a parameter of `CreateSale`.
- Bean validation runs in the controllers before a service is called. `Create` and `Update` require `ValidProductDto`: price positive, stock at least 0. The non-empty-items and positive-quantity rules of a sale request are hypotheses of the lemmas that need them (`PositiveQuantities` in `CommitSucceedsIff` and `TotalZeroIffNoItems`). `CreateSale` itself accepts any request, as the service does. The string constraints (not blank, e-mail format, length) are not modelled.
- `LocalDateTime.now()` is not modelled; the time is the parameter `now`.
- The password encoder is a foreign cryptographic call; it is the function parameter `encode`.
- `CategoryServiceImpl` is left out: it has plain repository pass-throughs and no rules. Categories form a fixed map that the modelled operations only read.
- ProductService.Create: the DTO's own `id` is ignored and the id comes from the identity counter. The source copies a non-null DTO id into the entity, so JPA would merge instead of insert; that path is not modelled.
- SaleService.FindAll: each detail reports the product name captured when the sale committed. The source's sale detail holds only a lazily loaded product reference (`SaleDetail.java:23-25`), and the sale mapper reads the product's current name (`SaleMapper.java:17`). So after a product is renamed, the source lists the new name and the model the old one. Entity loading is not part of this model.
- ProductService.Delete: succeeds for every stored id. In the source a sale detail references its product through a `product_id` join column (`SaleDetail.java:23-25`), so the database would likely refuse to delete a product that has been sold. Database constraints are not part of this model.
- Sale and user ids are the table length plus one. These tables have no delete operation here, and the database's identity generation is not modelled.
- Ids are non-negative (`nat`). A negative `Long` product id, which the source answers with "Product not found", cannot be expressed. Amounts are whole cents, so a price with more than two decimals, which `BigDecimal` would accept, cannot be expressed either.
- `findAll` on products lists by ascending id. The repository's `findAll` promises no order; the model's order only serves to state that no product is listed twice.
- Java's `Integer` and `Long` widths are not modelled. Under the stock guard and positive quantities, no stock subtraction can overflow.
- Concurrent requests and transaction isolation are not modelled. Each service call is one atomic step on the database.
- The browser front end is not part of this model: login and registration pages, cart, checkout screen, dashboard statistics and the low-stock badge.
