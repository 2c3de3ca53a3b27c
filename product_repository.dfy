/** The product repository: finders over `products`, the LEFT JOIN query the
    product search runs, and the writers that insert, update and delete
    product rows. */
module ProductRepository {
  import opened Catalog
  import opened Schema
  import opened CatalogStore
  import opened SqlLike
  import opened WhereClause

  // ---------------------------------------------------------------------
  // Finders.

  /** The category condition of a `find`: a category id, or none at all when
      the id passed is undefined (TypeORM drops undefined values from a
      `where` object, so `category: { id: undefined }` filters nothing). */
  predicate InCategory(p: Product, category: Option<Id>) {
    category.None? || p.category == category
  }

  /** `productDetailsByNameAndCategoryIdInDb`: the products with exactly
      that name in exactly that category. */
  function ProductDetailsByNameAndCategoryId(d: Db, name: string, category: Option<Id>): (r: Option<seq<Id>>)
    requires WellFormed(d)
    ensures r.Some? ==> r.value != [] && Ascending(r.value)
    ensures forall x: Id :: (r.Some? && x in r.value) <==>
      (x in d.products && d.products[x].name == name && InCategory(d.products[x], category))
  {
    var keep := (x: Id) => x in d.products && d.products[x].name == name && InCategory(d.products[x], category);
    assert forall x: Id :: keep(x) == (x in d.products && d.products[x].name == name && InCategory(d.products[x], category));
    Select(d.nextId, keep)
  }

  /** `fetchProductDetailsWithProductIdAndCategoryId`: product `productId`,
      provided it lies in the given category. */
  function FetchProductDetailsWithProductIdAndCategoryId(d: Db, productId: Id, category: Option<Id>): (r: Option<seq<Id>>)
    requires WellFormed(d)
    ensures r.Some? <==> productId in d.products && InCategory(d.products[productId], category)
    ensures r.Some? ==> r.value == [productId]
  {
    var keep := (x: Id) => x == productId && x in d.products && InCategory(d.products[x], category);
    assert forall x: Id :: keep(x) == (x == productId && x in d.products && InCategory(d.products[x], category));
    var r := Select(d.nextId, keep);
    if r.Some? then AscendingSingleton(r.value, productId); r else r
  }

  /** `productDetailsByIdInDb`: the product with primary key `id`. */
  function ProductDetailsById(d: Db, id: Id): (r: Option<seq<Id>>)
    requires WellFormed(d)
    ensures r.Some? <==> id in d.products
    ensures r.Some? ==> r.value == [id]
  {
    var keep := (x: Id) => x == id && x in d.products;
    assert forall x: Id :: keep(x) == (x == id && x in d.products);
    var r := Select(d.nextId, keep);
    if r.Some? then AscendingSingleton(r.value, id); r else r
  }

  // ---------------------------------------------------------------------
  // The LEFT JOIN of products with attributes and categories.

  /** One result row: a product, and one of its attributes or none. The
      category columns are determined by the product. */
  datatype Row = Row(product: Id, attribute: Option<Id>)

  /** What `products p LEFT JOIN attributes a ON p.id = a.product_id`
      yields: a product with each of its attributes, or a product that has
      none together with NULL attribute columns. The category join never
      removes a row, even for a product without a category. */
  ghost predicate IsJoinRow(d: Db, row: Row) {
    && row.product in d.products
    && match row.attribute
       case Some(a) => a in d.attributes && d.attributes[a].product == row.product
       case None => forall a :: a in d.attributes ==> d.attributes[a].product != row.product
  }

  /** The attributes of product `p`. */
  function AttributesOf(d: Db, p: Id): (r: seq<Id>)
    requires WellFormed(d)
    ensures Ascending(r)
    ensures forall a: Id :: a in r <==> a in d.attributes && d.attributes[a].product == p
  {
    var keep := (a: Id) => a in d.attributes && d.attributes[a].product == p;
    assert forall a: Id :: keep(a) == (a in d.attributes && d.attributes[a].product == p);
    Scan(d.nextId, keep)
  }

  /** `p` paired with each of the given attributes. */
  function WithAttributes(p: Id, ats: seq<Id>): (r: seq<Row>)
    requires Ascending(ats)
    ensures Distinct(r)
    ensures forall row :: row in r <==> row.product == p && row.attribute.Some? && row.attribute.value in ats
  {
    if ats == [] then []
    else
      var tail := WithAttributes(p, ats[1..]);
      assert forall i :: 1 <= i < |ats| ==> ats[0] < ats[i];
      DistinctConcat([Row(p, Some(ats[0]))], tail);
      assert forall a :: a in ats <==> a == ats[0] || a in ats[1..];
      [Row(p, Some(ats[0]))] + tail
  }

  /** The join rows of one product. */
  function ProductRows(d: Db, p: Id): (r: seq<Row>)
    requires WellFormed(d) && p in d.products
    ensures Distinct(r)
    ensures forall row :: row in r <==> row.product == p && IsJoinRow(d, row)
  {
    var ats := AttributesOf(d, p);
    if ats == [] then
      assert forall a :: a in d.attributes ==> d.attributes[a].product != p by {
        forall a | a in d.attributes ensures d.attributes[a].product != p {
          assert a !in ats;
        }
      }
      [Row(p, None)]
    else
      assert ats[0] in ats;
      var r := WithAttributes(p, ats);
      assert forall row :: row in r <==> row.product == p && IsJoinRow(d, row) by {
        forall row ensures row in r <==> row.product == p && IsJoinRow(d, row) {
          if row.product == p && row.attribute.None? {
            assert !IsJoinRow(d, row) by {
              assert ats[0] in d.attributes && d.attributes[ats[0]].product == p;
            }
          }
        }
      }
      r
  }

  /** The join rows of the given products, product by product. */
  function RowsFrom(d: Db, ps: seq<Id>): (r: seq<Row>)
    requires WellFormed(d) && Ascending(ps)
    requires forall p :: p in ps ==> p in d.products
    ensures Distinct(r)
    ensures forall row :: row in r <==> row.product in ps && IsJoinRow(d, row)
    decreases |ps|
  {
    if ps == [] then []
    else
      var head := ProductRows(d, ps[0]);
      var tail := RowsFrom(d, ps[1..]);
      assert forall row :: row in head ==> row !in tail by {
        forall row | row in head ensures row !in tail {
          assert forall i :: 1 <= i < |ps| ==> ps[0] < ps[i];
        }
      }
      DistinctConcat(head, tail);
      assert forall p :: p in ps <==> p == ps[0] || p in ps[1..];
      head + tail
  }

  /** The whole LEFT JOIN, in ascending product order. */
  function JoinRows(d: Db): (r: seq<Row>)
    requires WellFormed(d)
    ensures Distinct(r)
    ensures forall row :: row in r <==> IsJoinRow(d, row)
  {
    var keep := (p: Id) => p in d.products;
    assert forall p: Id :: keep(p) == (p in d.products);
    RowsFrom(d, Scan(d.nextId, keep))
  }

  /** The value a row has in a searchable column; NULL when the product has
      no category or the row has no attribute. */
  function ColumnValue(d: Db, row: Row, c: Column): Option<string> {
    match c
    case ProductName =>
      if row.product in d.products then Some(d.products[row.product].name) else None
    case CategoryName =>
      if row.product in d.products && d.products[row.product].category.Some?
         && d.products[row.product].category.value in d.categories
      then Some(d.categories[d.products[row.product].category.value].name)
      else None
    case AttributeKey =>
      if row.attribute.Some? && row.attribute.value in d.attributes
      then Some(d.attributes[row.attribute.value].key)
      else None
  }

  /** The row satisfies condition `i`: `<cols[i]> LIKE params[i]`. A NULL
      column satisfies no LIKE condition. */
  predicate Satisfies(d: Db, row: Row, c: Column, pattern: string) {
    ColumnValue(d, row, c).Some? && Like(ColumnValue(d, row, c).value, pattern)
  }

  /** The row satisfies every condition of the clause. */
  predicate SatisfiesAll(d: Db, row: Row, cols: seq<Column>, params: seq<string>)
    requires |cols| == |params|
  {
    forall i :: 0 <= i < |cols| ==> Satisfies(d, row, cols[i], params[i])
  }

  /** The rows that satisfy every condition, in their original order. */
  function FilterRows(d: Db, rows: seq<Row>, cols: seq<Column>, params: seq<string>): (r: seq<Row>)
    requires |cols| == |params|
    ensures forall row :: row in r <==> row in rows && SatisfiesAll(d, row, cols, params)
    ensures Distinct(rows) ==> Distinct(r)
    decreases |rows|
  {
    if rows == [] then []
    else
      var tail := FilterRows(d, rows[1..], cols, params);
      DistinctTail(rows);
      if SatisfiesAll(d, rows[0], cols, params) then
        DistinctCons(rows[0], tail);
        [rows[0]] + tail
      else
        tail
  }

  /** `fetchProductDetailsByProductCategoryAndAttributeNameInDb`: the join
      rows satisfying the clause, each once, or null if there are none. The
      clause is read as the conditions it spells out, `$k` standing for
      `params[k - 1]`. */
  function FetchProductDetailsByProductCategoryAndAttributeName(d: Db, whereClause: string, params: seq<string>): (r: Option<seq<Row>>)
    requires WellFormed(d)
    requires ParseWhere(whereClause).Some? && |ParseWhere(whereClause).value| == |params|
    ensures r.Some? ==> r.value != [] && Distinct(r.value)
    ensures forall row :: (r.Some? && row in r.value) <==>
      IsJoinRow(d, row) && SatisfiesAll(d, row, ParseWhere(whereClause).value, params)
  {
    NullIfEmpty(FilterRows(d, JoinRows(d), ParseWhere(whereClause).value, params))
  }

  /** Every product has a join row: one for an attribute, or one with NULL
      attribute columns. */
  lemma EveryProductJoins(d: Db, p: Id)
    requires WellFormed(d) && p in d.products
    ensures exists row :: IsJoinRow(d, row) && row.product == p
  {
    var ats := AttributesOf(d, p);
    if ats == [] {
      assert IsJoinRow(d, Row(p, None));
    } else {
      assert ats[0] in ats;
      assert IsJoinRow(d, Row(p, Some(ats[0])));
    }
  }

  /** Under `1=1` the query returns every product once per attribute, or
      once with NULL attribute columns if it has none, whether or not it has
      a category; it is null only for an empty product table. */
  lemma UnfilteredFetchIsLeftJoin(d: Db)
    requires WellFormed(d)
    ensures ParseWhere("1=1") == Some([])
    ensures forall row ::
      (FetchProductDetailsByProductCategoryAndAttributeName(d, "1=1", []).Some? &&
       row in FetchProductDetailsByProductCategoryAndAttributeName(d, "1=1", []).value) <==> IsJoinRow(d, row)
    ensures FetchProductDetailsByProductCategoryAndAttributeName(d, "1=1", []).None? <==> d.products == map[]
  {
    assert RenderWhere([]) == "1=1";
    ParseRenderWhere([]);
    assert forall row :: SatisfiesAll(d, row, [], []);
    if d.products != map[] {
      var p :| p in d.products;
      EveryProductJoins(d, p);
    }
  }

  // ---------------------------------------------------------------------
  // What the writers do to the tables, as values.

  /** A new product row at the next fresh id, linked to category `id`. */
  function InsertProduct(d: Db, name: string, description: Option<string>, price: int, id: Id): Db {
    d.(products := d.products[d.nextId := Product(name, description, price, Some(id))], nextId := d.nextId + 1)
  }

  /** Row `id` with new name, price and, when one is given, description.
      TypeORM leaves a column alone when its new value is undefined, so an
      omitted description keeps the stored one. The category is untouched. */
  function UpdateProduct(d: Db, id: Id, name: string, description: Option<string>, price: int): Db
    requires id in d.products
  {
    var p := d.products[id];
    d.(products := d.products[id := Product(name, if description.Some? then description else p.description, price, p.category)])
  }

  lemma InsertProductKeepsWellFormed(d: Db, name: string, description: Option<string>, price: int, id: Id)
    requires WellFormed(d) && id in d.categories
    ensures WellFormed(InsertProduct(d, name, description, price, id))
    ensures d.nextId !in d.products
  {
  }

  lemma UpdateProductKeepsWellFormed(d: Db, id: Id, name: string, description: Option<string>, price: int)
    requires WellFormed(d) && id in d.products
    ensures WellFormed(UpdateProduct(d, id, name, description, price))
  {
  }

  // ---------------------------------------------------------------------
  // Writers.

  /** `addProduct`: saves one product linked to category `id`; the save
      always yields a row. The foreign key makes an unknown category an
      error, which the callers rule out first. */
  method AddProduct(db: Store, name: string, description: Option<string>, price: int, id: Id) returns (ok: bool)
    requires db.Valid() && id in db.categories
    modifies db
    ensures db.Valid() && ok
    ensures db.Tables() == InsertProduct(old(db.Tables()), name, description, price, id)
  {
    InsertProductKeepsWellFormed(db.Tables(), name, description, price, id);
    db.products := db.products[db.nextId := Product(name, description, price, Some(id))];
    db.nextId := db.nextId + 1;
    ok := true;
  }

  /** `updateProductDetailsInDb`: true iff row `id` exists, in which case
      only its name, description and price change. */
  method UpdateProductDetailsInDb(db: Store, id: Id, name: string, description: Option<string>, price: int) returns (ok: bool)
    requires db.Valid()
    modifies db
    ensures db.Valid()
    ensures ok == (id in old(db.products))
    ensures db.Tables() == if ok then UpdateProduct(old(db.Tables()), id, name, description, price) else old(db.Tables())
  {
    if id !in db.products {
      return false;
    }
    UpdateProductKeepsWellFormed(db.Tables(), id, name, description, price);
    var p := db.products[id];
    var kept := if description.Some? then description else p.description;
    db.products := db.products[id := Product(name, kept, price, p.category)];
    ok := true;
  }

  /** `deleteProductDetailsByIdInDb`: one DELETE by primary key, with the
      attributes of the product removed by the cascade; true iff a row was
      removed. */
  method DeleteProductDetailsByIdInDb(db: Store, id: Id) returns (ok: bool)
    requires db.Valid()
    modifies db
    ensures db.Valid()
    ensures ok == (id in old(db.products))
    ensures db.Tables() == if ok then DeleteProductCascade(old(db.Tables()), id) else old(db.Tables())
  {
    ok := id in db.products;
    if ok {
      DeleteProductCascadeEffect(db.Tables(), id);
      var after := DeleteProductCascade(db.Tables(), id);
      db.products := after.products;
      db.attributes := after.attributes;
    }
  }
}
