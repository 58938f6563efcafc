/** ProductServiceImpl: listing, finding, creating, updating and deleting
    products in the product table, with the optional link to a category. */
module ProductService {
  import opened Domain
  import opened Repositories

  /** ProductMapper.toDTO: the category is reported by id and name. */
  function ToDto(p: Product, categories: map<Id, Category>): ProductDto
  {
    var categoryName :=
      if p.categoryId.Some? && p.categoryId.value in categories
      then Some(categories[p.categoryId.value].name) else None;
    ProductDto(Some(p.id), p.barcode, p.name, p.price, p.stockQuantity, p.categoryId, categoryName)
  }

  /** ProductMapper.toEntity: the category link is not copied and the product
      is marked active; the id is the one the table hands out. */
  function ToEntity(dto: ProductDto, id: Id): Product
  {
    Product(id, dto.barcode, dto.name, dto.price, dto.stockQuantity, None, true)
  }

  /** The ids of the stored products in [lo, hi), ascending: each is stored
      and in range, they strictly increase (so none is listed twice), and
      every stored id in range is listed. */
  function StoredIds(products: map<Id, Product>, lo: Id, hi: Id): (r: seq<Id>)
    ensures forall k | 0 <= k < |r| :: r[k] in products && lo <= r[k] < hi
    ensures forall j, k | 0 <= j < k < |r| :: r[j] < r[k]
    ensures forall id | id in products && lo <= id < hi :: id in r
    decreases hi - lo
  {
    if lo >= hi then []
    else if lo in products then [lo] + StoredIds(products, lo + 1, hi)
    else StoredIds(products, lo + 1, hi)
  }

  /** findAll: exactly one DTO per stored product, in ascending id order. */
  function FindAll(db: Database): (r: seq<ProductDto>)
    reads db
    requires db.Valid()
    ensures forall k | 0 <= k < |r| ::
              r[k].id.Some? && r[k].id.value in db.products && r[k] == ToDto(db.products[r[k].id.value], db.categories)
    ensures forall j, k | 0 <= j < k < |r| :: r[j].id.value < r[k].id.value
    ensures forall id | id in db.products :: exists k | 0 <= k < |r| :: r[k].id == Some(id)
  {
    ToDtos(db.products, db.categories, StoredIds(db.products, 0, db.nextProductId))
  }

  /** The DTOs of the given stored products, in the given order. */
  function ToDtos(products: map<Id, Product>, categories: map<Id, Category>, ids: seq<Id>): (r: seq<ProductDto>)
    requires forall id | id in products :: products[id].id == id
    requires forall k | 0 <= k < |ids| :: ids[k] in products
    ensures |r| == |ids|
    ensures forall k | 0 <= k < |ids| :: r[k] == ToDto(products[ids[k]], categories) && r[k].id == Some(ids[k])
  {
    seq(|ids|, k requires 0 <= k < |ids| => ToDto(products[ids[k]], categories))
  }

  /** findById: the stored product's DTO, or "Product not found". */
  function FindById(db: Database, id: Id): (r: Result<ProductDto>)
    reads db
    ensures r.Ok? <==> id in db.products
    ensures r.Err? ==> r.error == ProductNotFound
    ensures r.Ok? ==> r.value == ToDto(db.products[id], db.categories)
  {
    if id in db.products then Ok(ToDto(db.products[id], db.categories)) else Err(ProductNotFound)
  }

  /** Every DTO that findAll lists is what findById returns for its id. */
  lemma FindAllAgreesWithFindById(db: Database)
    requires db.Valid()
    ensures forall k | 0 <= k < |FindAll(db)| :: FindById(db, FindAll(db)[k].id.value) == Ok(FindAll(db)[k])
  {
  }

  /** The stored product after update's setters: name, price, stock and
      barcode from the DTO, the category from the DTO when it names one. */
  function Overwritten(p: Product, dto: ProductDto): (q: Product)
  {
    var q := p.(name := dto.name, price := dto.price, stockQuantity := dto.stockQuantity, barcode := dto.barcode);
    if dto.categoryId.Some? then q.(categoryId := dto.categoryId) else q
  }

  /** create: an unknown category fails and inserts nothing; otherwise one
      new active product is stored under a fresh id, with no category when the
      DTO names none. */
  method Create(db: Database, dto: ProductDto) returns (r: Result<ProductDto>)
    requires db.Valid() && ValidProductDto(dto)
    modifies db
    ensures db.Valid()
    ensures db.categories == old(db.categories) && db.users == old(db.users) && db.sales == old(db.sales)
    ensures r.Err? <==> dto.categoryId.Some? && dto.categoryId.value !in db.categories
    ensures r.Err? ==> r.error == CategoryNotFound
    ensures r.Err? ==> db.products == old(db.products) && db.nextProductId == old(db.nextProductId)
    ensures r.Ok? ==>
              var id := old(db.nextProductId);
              var p := Product(id, dto.barcode, dto.name, dto.price, dto.stockQuantity, dto.categoryId, true);
              && id !in old(db.products)
              && db.products == old(db.products)[id := p]
              && db.nextProductId == id + 1
              && r == FindById(db, id)
  {
    var id := db.nextProductId;
    var product := ToEntity(dto, id);
    if dto.categoryId.Some? {
      if dto.categoryId.value !in db.categories {
        return Err(CategoryNotFound);
      }
      product := product.(categoryId := dto.categoryId);
    }
    db.products := db.products[id := product];
    db.nextProductId := id + 1;
    r := Ok(ToDto(product, db.categories));
  }

  /** update: a missing id fails with "Product not found" and an unknown
      category fails with "Category not found", both leaving the table as it
      was; otherwise only the product under `id` changes, to Overwritten. */
  method Update(db: Database, id: Id, dto: ProductDto) returns (r: Result<ProductDto>)
    requires db.Valid() && ValidProductDto(dto)
    modifies db
    ensures db.Valid()
    ensures db.categories == old(db.categories) && db.users == old(db.users) && db.sales == old(db.sales)
    ensures db.nextProductId == old(db.nextProductId)
    ensures id !in old(db.products) ==> r == Err(ProductNotFound)
    ensures id in old(db.products) && dto.categoryId.Some? && dto.categoryId.value !in db.categories ==>
              r == Err(CategoryNotFound)
    ensures r.Err? ==> db.products == old(db.products)
    ensures r.Ok? <==>
              id in old(db.products) && (dto.categoryId.Some? ==> dto.categoryId.value in db.categories)
    ensures r.Ok? ==> db.products == old(db.products)[id := Overwritten(old(db.products)[id], dto)]
    ensures r.Ok? ==> r == FindById(db, id)
  {
    if id !in db.products {
      return Err(ProductNotFound);
    }
    // The transaction's starting point, restored if the category is unknown.
    var snapshot := db.products;
    var product := db.products[id];
    // The setters write through to the managed entity.
    product := product.(name := dto.name, price := dto.price, stockQuantity := dto.stockQuantity, barcode := dto.barcode);
    db.products := db.products[id := product];
    if dto.categoryId.Some? {
      if dto.categoryId.value !in db.categories {
        db.products := snapshot;
        return Err(CategoryNotFound);
      }
      product := product.(categoryId := dto.categoryId);
      db.products := db.products[id := product];
    }
    r := Ok(ToDto(product, db.categories));
  }

  /** After a successful update, findById reports the DTO's name, price,
      stock and barcode, and the DTO's category when it named one. */
  lemma UpdateIsReadBack(p: Product, dto: ProductDto, categories: map<Id, Category>)
    ensures var d := ToDto(Overwritten(p, dto), categories);
            && d.id == Some(p.id)
            && d.name == dto.name && d.price == dto.price
            && d.stockQuantity == dto.stockQuantity && d.barcode == dto.barcode
            && d.categoryId == (if dto.categoryId.Some? then dto.categoryId else p.categoryId)
  {
  }

  /** Updating twice with the same DTO is the same as updating once. */
  lemma OverwriteIdempotent(p: Product, dto: ProductDto)
    ensures Overwritten(Overwritten(p, dto), dto) == Overwritten(p, dto)
  {
  }

  /** delete: a missing id fails with "Product not found" and changes
      nothing; otherwise exactly that product is removed. */
  method Delete(db: Database, id: Id) returns (r: Result<()>)
    requires db.Valid()
    modifies db
    ensures db.Valid()
    ensures db.categories == old(db.categories) && db.users == old(db.users) && db.sales == old(db.sales)
    ensures db.nextProductId == old(db.nextProductId)
    ensures r.Ok? <==> id in old(db.products)
    ensures r.Err? ==> r.error == ProductNotFound && db.products == old(db.products)
    ensures r.Ok? ==> db.products == old(db.products) - {id} && FindById(db, id) == Err(ProductNotFound)
  {
    if id !in db.products {
      return Err(ProductNotFound);
    }
    db.products := db.products - {id};
    r := Ok(());
  }
}
