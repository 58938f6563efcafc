/** SaleServiceImpl: committing a sale against the product table, and listing
    the recorded sales.

    A sale walks its items in order. Each item looks its product up, fails if
    the product is unknown or its current stock is below the requested
    quantity, and otherwise decrements the stock at once, records a detail
    line at the product's current price and adds the subtotal to the total.
    The service is transactional: a failure undoes every earlier decrement. */
module SaleService {
  import opened Domain
  import opened Repositories

  /** The validated request body: the lines of the sale, in order. */
  datatype SaleRequest = SaleRequest(items: seq<SaleItem>)

  /** The state of a sale being built: the product table after the
      decrements so far, the detail lines so far, and their running total. */
  datatype Receipt = Receipt(products: map<Id, Product>, details: seq<SaleDetail>, total: Money)

  /** Total quantity that the items request of product `id`. */
  function Demand(items: seq<SaleItem>, id: Id): int
  {
    if items == [] then 0
    else
      var last := items[|items| - 1];
      Demand(items[..|items| - 1], id) + (if last.productId == id then last.quantity else 0)
  }

  /** Every line asks for a positive quantity, as bean validation demands of
      each item of a request body. */
  predicate PositiveQuantities(items: seq<SaleItem>)
  {
    forall k | 0 <= k < |items| :: items[k].quantity > 0
  }

  /** One iteration of the sale loop: check and decrement one item's product
      and record its detail line. */
  function Step(c: Receipt, item: SaleItem): Result<Receipt>
  {
    if item.productId !in c.products then Err(ProductNotFoundFor(item.productId))
    else
      var product := c.products[item.productId];
      if product.stockQuantity < item.quantity then Err(InsufficientStockFor(product.name))
      else
        var updated := product.(stockQuantity := product.stockQuantity - item.quantity);
        var detail := SaleDetail(item.productId, updated.name, item.quantity, updated.price, updated.price * item.quantity);
        Ok(Receipt(c.products[item.productId := updated], c.details + [detail], c.total + detail.subtotal))
  }

  /** The effect of running the sale loop over `items` from table `products`:
      the first failing item's error, or the final table, details and total. */
  function Commit(products: map<Id, Product>, items: seq<SaleItem>): (r: Result<Receipt>)
    ensures items == [] ==> r == Ok(Receipt(products, [], 0))
    ensures r.Ok? ==> |r.value.details| == |items|
    decreases |items|
  {
    if items == [] then Ok(Receipt(products, [], 0))
    else
      match Commit(products, items[..|items| - 1])
      case Err(e) => Err(e)
      case Ok(c) => Step(c, items[|items| - 1])
  }

  /** On success every product's stock has gone down by exactly what the items
      demand of it, nothing else about any product changed, no product is
      added or removed, and no ordered product was sold beyond its stock. */
  lemma {:induction false} CommitStock(products: map<Id, Product>, items: seq<SaleItem>)
    requires Commit(products, items).Ok?
    ensures Commit(products, items).value.products.Keys == products.Keys
    ensures forall id | id in products ::
              Commit(products, items).value.products[id]
                == products[id].(stockQuantity := products[id].stockQuantity - Demand(items, id))
    ensures forall k | 0 <= k < |items| ::
              && items[k].productId in products
              && Demand(items, items[k].productId) <= products[items[k].productId].stockQuantity
    ensures forall id | id in products && products[id].stockQuantity >= 0 ::
              Commit(products, items).value.products[id].stockQuantity >= 0
  {
    if items != [] {
      var prefix := items[..|items| - 1];
      var last := items[|items| - 1];
      CommitStock(products, prefix);
      var c := Commit(products, prefix).value;
      var r := Commit(products, items).value;
      assert Commit(products, items) == Step(c, last);
      var before := c.products[last.productId];
      assert r.products == c.products[last.productId := before.(stockQuantity := before.stockQuantity - last.quantity)];
      forall id | id in products
        ensures r.products[id] == products[id].(stockQuantity := products[id].stockQuantity - Demand(items, id))
      {
        assert Demand(items, id) == Demand(prefix, id) + (if last.productId == id then last.quantity else 0);
      }
      forall k | 0 <= k < |items|
        ensures items[k].productId in products
        ensures Demand(items, items[k].productId) <= products[items[k].productId].stockQuantity
      {
        var id := items[k].productId;
        if k < |prefix| {
          assert prefix[k] == items[k];
          assert Demand(prefix, id) <= products[id].stockQuantity;
        }
        assert r.products[id].stockQuantity >= 0;
      }
    }
  }

  /** On success there is one detail line per item, in request order, at the
      product's price (the commit changes stock only), with subtotal price
      times quantity, and the total is the sum of the subtotals. */
  lemma {:induction false} CommitDetails(products: map<Id, Product>, items: seq<SaleItem>)
    requires Commit(products, items).Ok?
    ensures forall k | 0 <= k < |items| :: items[k].productId in products
    ensures |Commit(products, items).value.details| == |items|
    ensures forall k | 0 <= k < |items| ::
              Commit(products, items).value.details[k] == SaleDetail(
                items[k].productId,
                products[items[k].productId].name,
                items[k].quantity,
                products[items[k].productId].price,
                products[items[k].productId].price * items[k].quantity)
    ensures Commit(products, items).value.total == SumSubtotals(Commit(products, items).value.details)
  {
    if items != [] {
      var prefix := items[..|items| - 1];
      var c := Commit(products, prefix).value;
      CommitDetails(products, prefix);
      CommitStock(products, prefix);
      var last := items[|items| - 1];
      var r := Commit(products, items).value;
      assert Commit(products, items) == Step(c, last);
      var p := products[last.productId];
      assert c.products[last.productId].name == p.name && c.products[last.productId].price == p.price;
      var detail := SaleDetail(last.productId, p.name, last.quantity, p.price, p.price * last.quantity);
      assert r.details == c.details + [detail];
      assert r.total == c.total + detail.subtotal;
      forall k | 0 <= k < |items|
        ensures items[k].productId in products
        ensures r.details[k] == SaleDetail(
                  items[k].productId,
                  products[items[k].productId].name,
                  items[k].quantity,
                  products[items[k].productId].price,
                  products[items[k].productId].price * items[k].quantity)
      {
        if k < |prefix| {
          assert prefix[k] == items[k];
          assert r.details[k] == c.details[k];
        }
      }
      assert r.details[..|r.details| - 1] == c.details;
    }
  }

  /** Demand counts only the lines that name the product. */
  lemma {:induction false} DemandOfUnordered(items: seq<SaleItem>, id: Id)
    requires forall k | 0 <= k < |items| :: items[k].productId != id
    ensures Demand(items, id) == 0
  {
    if items != [] {
      var prefix := items[..|items| - 1];
      assert forall k | 0 <= k < |prefix| :: prefix[k] == items[k];
      DemandOfUnordered(prefix, id);
    }
  }

  /** A committed sale leaves every product that no line names exactly as it was. */
  lemma CommitLeavesUnorderedProducts(products: map<Id, Product>, items: seq<SaleItem>, id: Id)
    requires Commit(products, items).Ok?
    requires id in products
    requires forall k | 0 <= k < |items| :: items[k].productId != id
    ensures id in Commit(products, items).value.products
    ensures Commit(products, items).value.products[id] == products[id]
  {
    CommitStock(products, items);
    DemandOfUnordered(items, id);
  }

  /** Extending the processed prefix by one item is one more loop step. */
  lemma CommitSnoc(products: map<Id, Product>, items: seq<SaleItem>, i: nat)
    requires i < |items|
    ensures Commit(products, items[..i + 1]) ==
            match Commit(products, items[..i])
            case Err(e) => Err(e)
            case Ok(c) => Step(c, items[i])
  {
    assert items[..i + 1][..i] == items[..i];
  }

  /** Once a prefix of the items fails, the whole sale fails with that error. */
  lemma {:induction false} FailureIsFinal(products: map<Id, Product>, items: seq<SaleItem>, n: nat)
    requires n <= |items|
    requires Commit(products, items[..n]).Err?
    ensures Commit(products, items) == Commit(products, items[..n])
    decreases |items|
  {
    if n < |items| {
      var prefix := items[..|items| - 1];
      assert prefix[..n] == items[..n];
      FailureIsFinal(products, prefix, n);
    } else {
      assert items[..n] == items;
    }
  }

  /** The error of a failing sale names its cause: the first failing line
      either names an unknown product, or its product's demand up to and
      including that line exceeds the original stock. */
  lemma CommitErrorAt(products: map<Id, Product>, items: seq<SaleItem>, i: nat)
    requires i < |items|
    requires Commit(products, items[..i]).Ok? && Commit(products, items[..i + 1]).Err?
    ensures Commit(products, items) ==
            if items[i].productId !in products then Err(ProductNotFoundFor(items[i].productId))
            else Err(InsufficientStockFor(products[items[i].productId].name))
    ensures items[i].productId !in products
            || Demand(items[..i + 1], items[i].productId) > products[items[i].productId].stockQuantity
  {
    CommitSnoc(products, items, i);
    CommitStock(products, items[..i]);
    FailureIsFinal(products, items, i + 1);
    assert items[..i + 1][..i] == items[..i];
    assert items[..i + 1][i] == items[i];
    if items[i].productId in products {
      assert Demand(items[..i + 1], items[i].productId) == Demand(items[..i], items[i].productId) + items[i].quantity;
    }
  }

  /** With positive quantities, checking each line against the stock already
      reduced by the earlier lines is the same as checking, per product, that
      the total demand does not exceed the original stock. */
  lemma {:induction false} CommitSucceedsIff(products: map<Id, Product>, items: seq<SaleItem>)
    requires PositiveQuantities(items)
    ensures Commit(products, items).Ok? <==>
            forall k | 0 <= k < |items| ::
              && items[k].productId in products
              && Demand(items, items[k].productId) <= products[items[k].productId].stockQuantity
  {
    if Commit(products, items).Ok? {
      CommitStock(products, items);
    }
    if items != [] && forall k | 0 <= k < |items| ::
                        && items[k].productId in products
                        && Demand(items, items[k].productId) <= products[items[k].productId].stockQuantity
    {
      var prefix := items[..|items| - 1];
      var last := items[|items| - 1];
      forall k | 0 <= k < |prefix|
        ensures prefix[k].productId in products
        ensures Demand(prefix, prefix[k].productId) <= products[prefix[k].productId].stockQuantity
      {
        assert prefix[k] == items[k];
        assert Demand(prefix, items[k].productId) <= Demand(items, items[k].productId);
      }
      CommitSucceedsIff(products, prefix);
      CommitStock(products, prefix);
      assert Demand(items, last.productId) == Demand(prefix, last.productId) + last.quantity;
      assert Demand(items, last.productId) <= products[last.productId].stockQuantity;
    }
  }

  /** Two lines for the same product are checked together against its stock:
      the sale goes through exactly when their sum does not exceed it. */
  lemma RepeatedLinesShareStock(products: map<Id, Product>, id: Id, a: int, b: int)
    requires id in products
    requires a > 0 && b > 0
    ensures Commit(products, [SaleItem(id, a), SaleItem(id, b)]).Ok? <==> a + b <= products[id].stockQuantity
  {
    var items := [SaleItem(id, a), SaleItem(id, b)];
    assert items[..1] == [SaleItem(id, a)];
    assert [SaleItem(id, a)][..0] == [];
    assert Demand([SaleItem(id, a)], id) == a;
    assert Demand(items, id) == a + b;
    CommitSucceedsIff(products, items);
  }

  /** Lines with positive subtotals add up to a positive total. */
  lemma {:induction false} SumOfPositiveSubtotals(details: seq<SaleDetail>)
    requires details != []
    requires forall k | 0 <= k < |details| :: details[k].subtotal > 0
    ensures SumSubtotals(details) > 0
  {
    var prefix := details[..|details| - 1];
    if prefix != [] {
      assert forall k | 0 <= k < |prefix| :: prefix[k] == details[k];
      SumOfPositiveSubtotals(prefix);
    }
  }

  /** With positive prices and a validated request, a committed sale's total
      is zero exactly when it has no lines, which validation rules out. */
  lemma TotalZeroIffNoItems(products: map<Id, Product>, items: seq<SaleItem>)
    requires forall id | id in products :: products[id].price > 0
    requires PositiveQuantities(items)
    requires Commit(products, items).Ok?
    ensures Commit(products, items).value.total == 0 <==> items == []
  {
    var c := Commit(products, items).value;
    CommitDetails(products, items);
    if items != [] {
      forall k | 0 <= k < |c.details|
        ensures c.details[k].subtotal > 0
      {
        var p := products[items[k].productId];
        assert c.details[k].subtotal == p.price * items[k].quantity;
      }
      SumOfPositiveSubtotals(c.details);
    }
  }

  /** A committed sale keeps the product table consistent. */
  lemma CommitKeepsProductsValid(
    products: map<Id, Product>, categories: map<Id, Category>, nextProductId: Id, items: seq<SaleItem>)
    requires ValidProducts(products, categories, nextProductId)
    requires Commit(products, items).Ok?
    ensures ValidProducts(Commit(products, items).value.products, categories, nextProductId)
  {
    CommitStock(products, items);
  }

  /** The sale recorded from a committed receipt is consistent. */
  lemma CommitRecordsWellFormedSale(
    products: map<Id, Product>, items: seq<SaleItem>, id: Id, now: DateTime, seller: User)
    requires Commit(products, items).Ok?
    ensures var c := Commit(products, items).value;
            WellFormedSale(Sale(id, now, seller, c.total, c.details))
  {
    CommitDetails(products, items);
  }

  /** createSale: look the seller up, run the item loop on the product table
      and either record the sale or roll every decrement back. */
  method CreateSale(db: Database, request: SaleRequest, username: string, now: DateTime)
    returns (r: Result<SaleResponse>)
    requires db.Valid()
    modifies db
    ensures db.Valid()
    ensures db.users == old(db.users) && db.categories == old(db.categories)
    ensures db.nextProductId == old(db.nextProductId)
    ensures FindUser(old(db.users), username).None? ==> r == Err(UserNotFound)
    ensures r.Ok? <==>
            FindUser(old(db.users), username).Some? && Commit(old(db.products), request.items).Ok?
    ensures r.Err? ==> db.products == old(db.products) && db.sales == old(db.sales)
    ensures r.Err? && FindUser(old(db.users), username).Some? ==>
            r.error == Commit(old(db.products), request.items).error
    ensures r.Ok? ==>
              var c := Commit(old(db.products), request.items).value;
              var sale := Sale(|old(db.sales)| + 1, now, FindUser(old(db.users), username).value, c.total, c.details);
              && db.products == c.products
              && db.sales == old(db.sales) + [sale]
              && r.value == ToSaleResponse(sale)
  {
    var user := FindUser(db.users, username);
    if user.None? {
      return Err(UserNotFound);
    }
    var items := request.items;
    // The transaction's starting point, restored if any item fails.
    var snapshot := db.products;
    var details: seq<SaleDetail> := [];
    var totalAmount: Money := 0;
    for i := 0 to |items|
      invariant db.users == old(db.users) && db.categories == old(db.categories)
      invariant db.sales == old(db.sales) && db.nextProductId == old(db.nextProductId)
      invariant snapshot == old(db.products)
      invariant Commit(snapshot, items[..i]) == Ok(Receipt(db.products, details, totalAmount))
    {
      var item := items[i];
      CommitSnoc(snapshot, items, i);
      if item.productId !in db.products {
        db.products := snapshot;
        FailureIsFinal(snapshot, items, i + 1);
        return Err(ProductNotFoundFor(item.productId));
      }
      var product := db.products[item.productId];
      if product.stockQuantity < item.quantity {
        db.products := snapshot;
        FailureIsFinal(snapshot, items, i + 1);
        return Err(InsufficientStockFor(product.name));
      }
      product := product.(stockQuantity := product.stockQuantity - item.quantity);
      db.products := db.products[item.productId := product];
      var detail := SaleDetail(item.productId, product.name, item.quantity, product.price, product.price * item.quantity);
      details := details + [detail];
      totalAmount := totalAmount + detail.subtotal;
    }
    assert items[..|items|] == items;
    var sale := Sale(|db.sales| + 1, now, user.value, totalAmount, details);
    CommitKeepsProductsValid(snapshot, db.categories, db.nextProductId, items);
    CommitRecordsWellFormedSale(snapshot, items, sale.id, now, user.value);
    db.sales := db.sales + [sale];
    r := Ok(ToSaleResponse(sale));
  }

  /** findAll: one response per stored sale, in storage order; each reports a
      total equal to the sum of its lines. */
  function FindAll(db: Database): (r: seq<SaleResponse>)
    reads db
    requires db.Valid()
    ensures |r| == |db.sales|
    ensures forall i | 0 <= i < |r| ::
              && r[i].id == db.sales[i].id
              && r[i].dateTime == db.sales[i].dateTime
              && r[i].totalAmount == db.sales[i].totalAmount
              && r[i].username == db.sales[i].seller.username
              && r[i].details == db.sales[i].details
              && r[i].totalAmount == SumSubtotals(r[i].details)
  {
    var sales := db.sales;
    assert forall i | 0 <= i < |sales| :: WellFormedSale(sales[i]);
    seq(|sales|, i requires 0 <= i < |sales| => ToSaleResponse(sales[i]))
  }
}
