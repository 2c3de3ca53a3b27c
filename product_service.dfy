/** The product service: the check chains of `addNewProduct`,
    `updateProductDetails` and `deleteProductDetails`, the rule that product
    names are unique within a category, and the search of
    `getProductDetails` with the WHERE clause and parameters it builds. */
module ProductService {
  import opened Catalog
  import opened Schema
  import opened CatalogStore
  import opened CategoryRepository
  import opened ProductRepository
  import opened SqlLike
  import opened WhereClause

  // ---------------------------------------------------------------------
  // Naming rule.

  /** No two products of the same category share a name. Products without a
      category (orphaned by a category delete) are not constrained. */
  ghost predicate ProductNamesUnique(products: map<Id, Product>) {
    forall x: Id, y: Id ::
      (x in products && y in products && x != y && products[x].category.Some? && products[x].category == products[y].category)
      ==> products[x].name != products[y].name
  }

  /** Some product of category `id` is named `name`. */
  ghost predicate NameUsedIn(products: map<Id, Product>, name: string, id: Id) {
    exists x: Id :: x in products && products[x].name == name && products[x].category == Some(id)
  }

  // ---------------------------------------------------------------------
  // addNewProduct

  /** The status `addNewProduct` answers: 404 for an unknown category, 409
      when that category already has a product of that name, otherwise 200. */
  function AddNewProductStatus(d: Db, id: Id, name: string): (s: Status)
    requires WellFormed(d)
    ensures s == NotFound <==> id !in d.categories
    ensures s == Conflict <==> id in d.categories && NameUsedIn(d.products, name, id)
    ensures s == Ok <==> id in d.categories && !NameUsedIn(d.products, name, id)
  {
    var category := CategoryDetailsById(d, id);
    var product := ProductDetailsByNameAndCategoryId(d, name, Some(id));
    if category.None? then NotFound
    else if product.Some? then
      assert product.value[0] in product.value;
      Conflict
    else Ok
  }

  /** `addNewProduct`: both lookups, then one insert linked to category `id`. */
  method AddNewProduct(db: Store, id: Id, name: string, description: Option<string>, price: int) returns (s: Status)
    requires db.Valid() && IsValidName(name) && IsValidDescription(description) && IsValidPrice(price)
    modifies db
    ensures db.Valid()
    ensures s == AddNewProductStatus(old(db.Tables()), id, name)
    ensures db.Tables() == if s.Ok? then InsertProduct(old(db.Tables()), name, description, price, id) else old(db.Tables())
  {
    var category := CategoryDetailsById(db.Tables(), id);
    var product := ProductDetailsByNameAndCategoryId(db.Tables(), name, Some(id));
    if category.None? {
      return NotFound;
    }
    if product.Some? {
      return Conflict;
    }
    var saved := AddProduct(db, name, description, price, id);
    if !saved {
      // the save always yields a row: the 400 branch cannot be taken
      assert false;
    }
    s := Ok;
  }

  /** After a successful `addNewProduct`, the same call answers 409. */
  lemma AddNewProductTwiceConflicts(d: Db, id: Id, name: string, description: Option<string>, price: int)
    requires WellFormed(d) && AddNewProductStatus(d, id, name) == Ok
    ensures WellFormed(InsertProduct(d, name, description, price, id))
    ensures AddNewProductStatus(InsertProduct(d, name, description, price, id), id, name) == Conflict
  {
    InsertProductKeepsWellFormed(d, name, description, price, id);
    var e := InsertProduct(d, name, description, price, id);
    assert e.products[d.nextId].name == name && e.products[d.nextId].category == Some(id);
  }

  /** The name check is scoped to the category: a name used only in other
      categories is accepted. */
  lemma AddNewProductAcceptsNameOfOtherCategory(d: Db, id: Id, name: string, other: Id)
    requires WellFormed(d) && id in d.categories
    requires forall x: Id :: x in d.products && d.products[x].name == name ==> d.products[x].category != Some(id)
    requires other in d.products && d.products[other].name == name
    ensures AddNewProductStatus(d, id, name) == Ok
  {
  }

  /** A successful `addNewProduct` (its category exists and has no product
      of that name, which is when it answers 200) keeps product names unique
      per category, adds exactly one row and leaves every other row as it
      was. */
  lemma AddNewProductKeepsNamesUnique(d: Db, id: Id, name: string, description: Option<string>, price: int)
    requires WellFormed(d) && ProductNamesUnique(d.products)
    requires id in d.categories && !NameUsedIn(d.products, name, id)
    ensures ProductNamesUnique(InsertProduct(d, name, description, price, id).products)
    ensures InsertProduct(d, name, description, price, id).products.Keys == d.products.Keys + {d.nextId}
    ensures forall x: Id :: x in d.products ==> InsertProduct(d, name, description, price, id).products[x] == d.products[x]
  {
    InsertProductKeepsWellFormed(d, name, description, price, id);
    var p := Product(name, description, price, Some(id));
    assert InsertProduct(d, name, description, price, id).products == d.products[d.nextId := p];
    InsertKeepsNamesUnique(d.products, d.nextId, p);
  }

  /** A new row whose name is unused in its category keeps names unique. */
  lemma InsertKeepsNamesUnique(products: map<Id, Product>, k: Id, p: Product)
    requires k !in products && ProductNamesUnique(products)
    requires p.category.Some? ==>
      forall x: Id :: x in products && products[x].category == p.category ==> products[x].name != p.name
    ensures ProductNamesUnique(products[k := p])
  {
  }

  // ---------------------------------------------------------------------
  // updateProductDetails

  /** `existingProduct?.[0]?.category?.id`: the product's category, absent
      (undefined) for an unknown or orphaned product. */
  function CurrentCategory(d: Db, productId: Id): (c: Option<Id>)
    requires WellFormed(d)
    ensures c == if productId in d.products then d.products[productId].category else None
  {
    var existing := ProductDetailsById(d, productId);
    if existing.Some? then d.products[existing.value[0]].category else None
  }

  /** A product other than `productId`, named `name` and in `category` (any
      category when it is absent), is the first match: the first by id,
      unless `productId` itself already has that name. */
  ghost predicate NameClash(products: map<Id, Product>, productId: Id, name: string, category: Option<Id>)
    requires productId in products
  {
    exists x: Id :: x in products && x != productId && products[x].name == name && InCategory(products[x], category) &&
      (x < productId || products[productId].name != name)
  }

  /** The second check: the first product of that name in the category is
      not `productId`. */
  predicate NameCheck(d: Db, productId: Id, name: string)
    requires WellFormed(d)
  {
    var conflicting := ProductDetailsByNameAndCategoryId(d, name, CurrentCategory(d, productId));
    conflicting.Some? && conflicting.value[0] != productId
  }

  /** The third check: the (product, category) lookup finds nothing. */
  predicate LinkageCheck(d: Db, productId: Id)
    requires WellFormed(d)
  {
    FetchProductDetailsWithProductIdAndCategoryId(d, productId, CurrentCategory(d, productId)).None?
  }

  /** The status `updateProductDetails` answers: 404 for an unknown product,
      409 when one of the two checks fires, in source order, otherwise 200. */
  function UpdateProductDetailsStatus(d: Db, productId: Id, name: string): (s: Status)
    requires WellFormed(d)
    ensures s == NotFound <==> productId !in d.products
    ensures s.Ok? || s.NotFound? || s.Conflict?
  {
    if ProductDetailsById(d, productId).None? then NotFound
    else if NameCheck(d, productId, name) then Conflict
    else if LinkageCheck(d, productId) then Conflict
    else Ok
  }

  /** The linkage check never fires: the category it looks up is the
      product's own, or no category at all. */
  lemma UpdateProductLinkageAlwaysHolds(d: Db, productId: Id)
    requires WellFormed(d) && productId in d.products
    ensures !LinkageCheck(d, productId)
  {
  }

  /** The name check in table terms. */
  lemma NameCheckMeaning(d: Db, productId: Id, name: string)
    requires WellFormed(d) && productId in d.products
    ensures NameCheck(d, productId, name) <==> NameClash(d.products, productId, name, d.products[productId].category)
  {
    var category := d.products[productId].category;
    var conflicting := ProductDetailsByNameAndCategoryId(d, name, category);
    if conflicting.Some? {
      var first := conflicting.value[0];
      assert first in conflicting.value;
      if d.products[productId].name == name && first == productId {
        forall x: Id | x in d.products && x != productId && d.products[x].name == name && InCategory(d.products[x], category)
          ensures !(x < productId)
        {
          var i :| 0 <= i < |conflicting.value| && conflicting.value[i] == x;
          assert i > 0;
        }
      }
    }
  }

  /** `updateProductDetails` answers 409 exactly when the new name clashes. */
  lemma UpdateProductConflicts(d: Db, productId: Id, name: string)
    requires WellFormed(d) && productId in d.products
    ensures UpdateProductDetailsStatus(d, productId, name) == Conflict <==>
      NameClash(d.products, productId, name, d.products[productId].category)
    ensures UpdateProductDetailsStatus(d, productId, name) == Ok <==>
      !NameClash(d.products, productId, name, d.products[productId].category)
  {
    NameCheckMeaning(d, productId, name);
    UpdateProductLinkageAlwaysHolds(d, productId);
  }

  /** For a product with a category and unique names, the answer is 409
      exactly when another product of that category has the new name; so
      keeping its own name is allowed. */
  lemma UpdateProductConflictsUnderInvariant(d: Db, productId: Id, name: string)
    requires WellFormed(d) && ProductNamesUnique(d.products)
    requires productId in d.products && d.products[productId].category.Some?
    ensures UpdateProductDetailsStatus(d, productId, name) == Conflict <==>
      exists x: Id :: x in d.products && x != productId && d.products[x].name == name &&
        d.products[x].category == d.products[productId].category
    ensures name == d.products[productId].name ==> UpdateProductDetailsStatus(d, productId, name) == Ok
  {
    UpdateProductConflicts(d, productId, name);
    var products := d.products;
    if exists x: Id :: x in products && x != productId && products[x].name == name &&
        products[x].category == products[productId].category {
      var x: Id :| x in products && x != productId && products[x].name == name &&
        products[x].category == products[productId].category;
      assert products[x].name != products[productId].name;
    }
  }

  /** `updateProductDetails`: the lookups, the two checks in source order,
      then the update. */
  method UpdateProductDetails(db: Store, productId: Id, name: string, description: Option<string>, price: int)
    returns (s: Status)
    requires db.Valid() && IsValidName(name) && IsValidDescription(description) && IsValidPrice(price)
    modifies db
    ensures db.Valid()
    ensures s == UpdateProductDetailsStatus(old(db.Tables()), productId, name)
    ensures db.Tables() ==
      if s.Ok? then UpdateProduct(old(db.Tables()), productId, name, description, price) else old(db.Tables())
  {
    var d := db.Tables();
    var existing := ProductDetailsById(d, productId);
    var categoryId := if existing.Some? then db.products[existing.value[0]].category else None;
    var conflicting := ProductDetailsByNameAndCategoryId(d, name, categoryId);
    var linked := FetchProductDetailsWithProductIdAndCategoryId(d, productId, categoryId);
    if existing.None? {
      return NotFound;
    }
    if conflicting.Some? && conflicting.value[0] != productId {
      assert NameCheck(d, productId, name);
      return Conflict;
    }
    assert !NameCheck(d, productId, name);
    if linked.None? {
      // the lookup uses the product's own category: this 409 cannot be
      // answered
      assert false;
    }
    var updated := UpdateProductDetailsInDb(db, productId, name, description, price);
    if !updated {
      assert false;
    }
    s := Ok;
  }

  /** A successful update keeps product names unique per category. */
  lemma UpdateProductKeepsNamesUnique(d: Db, productId: Id, name: string, description: Option<string>, price: int)
    requires WellFormed(d) && ProductNamesUnique(d.products) && UpdateProductDetailsStatus(d, productId, name) == Ok
    ensures ProductNamesUnique(UpdateProduct(d, productId, name, description, price).products)
  {
    UpdateProductConflicts(d, productId, name);
    var products := d.products;
    var after := UpdateProduct(d, productId, name, description, price).products;
    forall x: Id, y: Id | x in after && y in after && x != y && after[x].category.Some? && after[x].category == after[y].category
      ensures after[x].name != after[y].name
    {
      if x == productId {
        assert products[y].name != products[productId].name;
        assert InCategory(products[y], products[productId].category);
      } else if y == productId {
        assert products[x].name != products[productId].name;
        assert InCategory(products[x], products[productId].category);
      }
    }
  }

  /** A successful update writes name, price and (when given) description of
      that product only; its category, every other product, the categories
      and the attributes are untouched. */
  lemma UpdateProductChangesOnlyDetails(d: Db, productId: Id, name: string, description: Option<string>, price: int)
    requires WellFormed(d) && UpdateProductDetailsStatus(d, productId, name) == Ok
    ensures var e := UpdateProduct(d, productId, name, description, price);
      && e.products.Keys == d.products.Keys
      && e.products[productId].name == name && e.products[productId].price == price
      && e.products[productId].description == (if description.Some? then description else d.products[productId].description)
      && e.products[productId].category == d.products[productId].category
      && (forall x: Id :: x in d.products && x != productId ==> e.products[x] == d.products[x])
      && e.categories == d.categories && e.attributes == d.attributes && e.nextId == d.nextId
  {
  }

  // ---------------------------------------------------------------------
  // deleteProductDetails

  /** The status `deleteProductDetails` answers: 404 for an unknown product,
      otherwise the delete removes the row and the answer is 200. */
  function DeleteProductDetailsStatus(d: Db, id: Id): (s: Status)
    requires WellFormed(d)
    ensures s == NotFound <==> id !in d.products
    ensures s == Ok <==> id in d.products
  {
    if ProductDetailsById(d, id).None? then NotFound else Ok
  }

  /** `deleteProductDetails`: the existence check, then the cascading delete. */
  method DeleteProductDetails(db: Store, id: Id) returns (s: Status)
    requires db.Valid()
    modifies db
    ensures db.Valid()
    ensures s == DeleteProductDetailsStatus(old(db.Tables()), id)
    ensures db.Tables() == if s.Ok? then DeleteProductCascade(old(db.Tables()), id) else old(db.Tables())
  {
    var productExists := ProductDetailsById(db.Tables(), id);
    if productExists.None? {
      return NotFound;
    }
    var deleted := DeleteProductDetailsByIdInDb(db, id);
    if !deleted {
      assert false;
    }
    s := Ok;
  }

  /** Deleting a product keeps product names unique per category. */
  lemma DeleteProductKeepsNamesUnique(d: Db, id: Id)
    requires WellFormed(d) && ProductNamesUnique(d.products)
    ensures ProductNamesUnique(DeleteProductCascade(d, id).products)
  {
    DeleteProductCascadeEffect(d, id);
  }

  /** Deleting a category keeps product names unique per category: its
      products lose their category, the others keep theirs. */
  lemma DeleteCategoryKeepsNamesUnique(d: Db, root: Id)
    requires WellFormed(d) && ProductNamesUnique(d.products)
    ensures ProductNamesUnique(DeleteCategoryCascade(d, root).products)
  {
    DeleteCategoryCascadeEffect(d, root);
    var after := DeleteCategoryCascade(d, root).products;
    forall x: Id, y: Id | x in after && y in after && x != y && after[x].category.Some? && after[x].category == after[y].category
      ensures after[x].name != after[y].name
    {
      assert after[x].category == d.products[x].category && after[y].category == d.products[y].category;
      assert after[x].name == d.products[x].name && after[y].name == d.products[y].name;
    }
  }

  // ---------------------------------------------------------------------
  // getProductDetails

  /** A query parameter that JavaScript treats as true: present and not the
      empty string. */
  predicate IsGiven(f: Option<string>) {
    f.Some? && f.value != []
  }

  /** The query parameter that filters column `c`. */
  function FilterOf(c: Column, categoryName: Option<string>, productName: Option<string>, attributeKey: Option<string>): Option<string> {
    match c
    case ProductName => productName
    case CategoryName => categoryName
    case AttributeKey => attributeKey
  }

  /** The position of a column in the fixed order p.name, c.name, a.key. */
  function Rank(c: Column): nat {
    match c
    case ProductName => 0
    case CategoryName => 1
    case AttributeKey => 2
  }

  /** The columns that get a condition: those with a given filter, each
      once, in the fixed order. */
  function ActiveColumns(categoryName: Option<string>, productName: Option<string>, attributeKey: Option<string>): seq<Column> {
    Piece(ProductName, categoryName, productName, attributeKey) +
    Piece(CategoryName, categoryName, productName, attributeKey) +
    Piece(AttributeKey, categoryName, productName, attributeKey)
  }

  /** Exactly the columns with a given filter get a condition, each once,
      in the fixed order. */
  lemma ActiveColumnsMeaning(categoryName: Option<string>, productName: Option<string>, attributeKey: Option<string>)
    ensures var cols := ActiveColumns(categoryName, productName, attributeKey);
      && (forall c: Column :: c in cols <==> IsGiven(FilterOf(c, categoryName, productName, attributeKey)))
      && (forall i, j :: 0 <= i < j < |cols| ==> Rank(cols[i]) < Rank(cols[j]))
  {
  }

  /** `%<lower-cased input>%`. */
  function SearchPattern(v: string): string {
    "%" + Lower(v) + "%"
  }

  /** The WHERE builder: starts from `1=1` and, for each given filter in the
      fixed order, appends ` AND <column> LIKE $k` with `k` one more than the
      parameters so far and pushes the pattern for that filter. */
  method BuildWhere(categoryName: Option<string>, productName: Option<string>, attributeKey: Option<string>)
    returns (whereClause: string, params: seq<string>)
    ensures whereClause == RenderWhere(ActiveColumns(categoryName, productName, attributeKey))
    ensures |params| == |ActiveColumns(categoryName, productName, attributeKey)|
    ensures forall i :: 0 <= i < |params| ==>
      params[i] == SearchPattern(FilterOf(ActiveColumns(categoryName, productName, attributeKey)[i], categoryName, productName, attributeKey).value)
  {
    whereClause := "1=1";
    params := [];
    ghost var cols: seq<Column> := [];
    assert Built(whereClause, params, cols, categoryName, productName, attributeKey);
    whereClause, params := AppendFilter(whereClause, params, cols, ProductName, categoryName, productName, attributeKey);
    cols := cols + Piece(ProductName, categoryName, productName, attributeKey);
    whereClause, params := AppendFilter(whereClause, params, cols, CategoryName, categoryName, productName, attributeKey);
    cols := cols + Piece(CategoryName, categoryName, productName, attributeKey);
    whereClause, params := AppendFilter(whereClause, params, cols, AttributeKey, categoryName, productName, attributeKey);
    BuiltAll(whereClause, params, categoryName, productName, attributeKey);
  }

  /** One `if (filter) { whereClause += ...; params.push(...) }` step of the
      builder, for column `c`: when its filter is given, the condition
      ` AND <column> LIKE $k`, numbered one past the parameters so far, is
      appended and
      the filter's pattern pushed; otherwise nothing changes. */
  method AppendFilter(whereClause: string, params: seq<string>, ghost cols: seq<Column>, c: Column,
                      categoryName: Option<string>, productName: Option<string>, attributeKey: Option<string>)
    returns (w: string, p: seq<string>)
    requires Built(whereClause, params, cols, categoryName, productName, attributeKey)
    ensures Built(w, p, cols + Piece(c, categoryName, productName, attributeKey), categoryName, productName, attributeKey)
  {
    BuildStep(whereClause, params, cols, c, categoryName, productName, attributeKey);
    var filter := FilterOf(c, categoryName, productName, attributeKey);
    w, p := whereClause, params;
    if IsGiven(filter) {
      w := w + Condition(c, |p| + 1);
      p := p + [SearchPattern(filter.value)];
    }
  }

  /** The column `c` when its filter is given, nothing otherwise. */
  function Piece(c: Column, categoryName: Option<string>, productName: Option<string>, attributeKey: Option<string>): seq<Column> {
    if IsGiven(FilterOf(c, categoryName, productName, attributeKey)) then [c] else []
  }

  /** What the builder holds after each step: the clause for the columns so
      far and one pattern per column. */
  ghost predicate Built(whereClause: string, params: seq<string>, cols: seq<Column>,
                        categoryName: Option<string>, productName: Option<string>, attributeKey: Option<string>) {
    && whereClause == RenderWhere(cols)
    && |params| == |cols|
    && (forall i :: 0 <= i < |params| ==>
          FilterOf(cols[i], categoryName, productName, attributeKey).Some? &&
          params[i] == SearchPattern(FilterOf(cols[i], categoryName, productName, attributeKey).value))
  }

  /** Once all three filters are looked at, the builder holds the clause of
      the active columns and their patterns. */
  lemma BuiltAll(w: string, params: seq<string>,
                 categoryName: Option<string>, productName: Option<string>, attributeKey: Option<string>)
    requires Built(w, params, [] + Piece(ProductName, categoryName, productName, attributeKey)
                                  + Piece(CategoryName, categoryName, productName, attributeKey)
                                  + Piece(AttributeKey, categoryName, productName, attributeKey),
                   categoryName, productName, attributeKey)
    ensures && w == RenderWhere(ActiveColumns(categoryName, productName, attributeKey))
      && |params| == |ActiveColumns(categoryName, productName, attributeKey)|
      && forall i :: 0 <= i < |params| ==>
           params[i] == SearchPattern(FilterOf(ActiveColumns(categoryName, productName, attributeKey)[i], categoryName, productName, attributeKey).value)
  {
    assert [] + Piece(ProductName, categoryName, productName, attributeKey)
              + Piece(CategoryName, categoryName, productName, attributeKey)
              + Piece(AttributeKey, categoryName, productName, attributeKey)
        == ActiveColumns(categoryName, productName, attributeKey);
  }

  /** One step of the builder: when the filter of `c` is given,
      `whereClause +=` its condition and `params.push` its pattern;
      otherwise nothing changes. */
  lemma BuildStep(w: string, params: seq<string>, cols: seq<Column>, c: Column,
                  categoryName: Option<string>, productName: Option<string>, attributeKey: Option<string>)
    requires Built(w, params, cols, categoryName, productName, attributeKey)
    ensures IsGiven(FilterOf(c, categoryName, productName, attributeKey)) ==>
      Built(w + Condition(c, |params| + 1),
            params + [SearchPattern(FilterOf(c, categoryName, productName, attributeKey).value)],
            cols + Piece(c, categoryName, productName, attributeKey), categoryName, productName, attributeKey)
    ensures !IsGiven(FilterOf(c, categoryName, productName, attributeKey)) ==>
      Built(w, params, cols + Piece(c, categoryName, productName, attributeKey), categoryName, productName, attributeKey)
  {
    if IsGiven(FilterOf(c, categoryName, productName, attributeKey)) {
      RenderWhereSnoc(cols, c);
      var pattern := SearchPattern(FilterOf(c, categoryName, productName, attributeKey).value);
      var params', cols' := params + [pattern], cols + [c];
      forall i | 0 <= i < |params'|
        ensures FilterOf(cols'[i], categoryName, productName, attributeKey).Some?
        ensures params'[i] == SearchPattern(FilterOf(cols'[i], categoryName, productName, attributeKey).value)
      {
        if i < |params| {
          assert params'[i] == params[i] && cols'[i] == cols[i];
        }
      }
    } else {
      assert cols + [] == cols;
    }
  }

  /** Without any given filter the clause is `1=1` and there are no
      parameters. */
  lemma BuildWhereWithoutFilters(categoryName: Option<string>, productName: Option<string>, attributeKey: Option<string>)
    requires !IsGiven(categoryName) && !IsGiven(productName) && !IsGiven(attributeKey)
    ensures ActiveColumns(categoryName, productName, attributeKey) == []
    ensures RenderWhere(ActiveColumns(categoryName, productName, attributeKey)) == "1=1"
  {
  }

  /** A join row matches the search: every given filter's column matches its
      pattern. */
  predicate MatchesSearch(d: Db, row: Row, categoryName: Option<string>, productName: Option<string>, attributeKey: Option<string>) {
    && (IsGiven(productName) ==> Satisfies(d, row, ProductName, SearchPattern(productName.value)))
    && (IsGiven(categoryName) ==> Satisfies(d, row, CategoryName, SearchPattern(categoryName.value)))
    && (IsGiven(attributeKey) ==> Satisfies(d, row, AttributeKey, SearchPattern(attributeKey.value)))
  }

  /** The built conditions hold of a row exactly when the row matches the
      search. */
  lemma BuiltConditionsMeaning(d: Db, row: Row, categoryName: Option<string>, productName: Option<string>,
                               attributeKey: Option<string>, params: seq<string>)
    requires |params| == |ActiveColumns(categoryName, productName, attributeKey)|
    requires forall i :: 0 <= i < |params| ==>
      params[i] == SearchPattern(FilterOf(ActiveColumns(categoryName, productName, attributeKey)[i], categoryName, productName, attributeKey).value)
    ensures SatisfiesAll(d, row, ActiveColumns(categoryName, productName, attributeKey), params) <==>
      MatchesSearch(d, row, categoryName, productName, attributeKey)
  {
    var cols := ActiveColumns(categoryName, productName, attributeKey);
    ActiveColumnsMeaning(categoryName, productName, attributeKey);
    if SatisfiesAll(d, row, cols, params) {
      if IsGiven(productName) {
        ColumnSatisfied(d, row, cols, params, ProductName, categoryName, productName, attributeKey);
      }
      if IsGiven(categoryName) {
        ColumnSatisfied(d, row, cols, params, CategoryName, categoryName, productName, attributeKey);
      }
      if IsGiven(attributeKey) {
        ColumnSatisfied(d, row, cols, params, AttributeKey, categoryName, productName, attributeKey);
      }
    }
    if MatchesSearch(d, row, categoryName, productName, attributeKey) {
      SearchSatisfiesAll(d, row, cols, params, categoryName, productName, attributeKey);
    }
  }

  /** A row that matches the search satisfies every built condition. */
  lemma SearchSatisfiesAll(d: Db, row: Row, cols: seq<Column>, params: seq<string>,
                           categoryName: Option<string>, productName: Option<string>, attributeKey: Option<string>)
    requires cols == ActiveColumns(categoryName, productName, attributeKey) && |params| == |cols|
    requires forall i :: 0 <= i < |params| ==>
      params[i] == SearchPattern(FilterOf(cols[i], categoryName, productName, attributeKey).value)
    requires MatchesSearch(d, row, categoryName, productName, attributeKey)
    ensures SatisfiesAll(d, row, cols, params)
  {
    ActiveColumnsMeaning(categoryName, productName, attributeKey);
    forall i | 0 <= i < |cols| ensures Satisfies(d, row, cols[i], params[i]) {
      assert cols[i] in cols;
      match cols[i]
      case ProductName =>
      case CategoryName =>
      case AttributeKey =>
    }
  }

  /** A given filter's column is among the built conditions, so a row that
      satisfies them all satisfies that filter. */
  lemma ColumnSatisfied(d: Db, row: Row, cols: seq<Column>, params: seq<string>, c: Column,
                        categoryName: Option<string>, productName: Option<string>, attributeKey: Option<string>)
    requires cols == ActiveColumns(categoryName, productName, attributeKey) && |params| == |cols|
    requires forall i :: 0 <= i < |params| ==>
      params[i] == SearchPattern(FilterOf(cols[i], categoryName, productName, attributeKey).value)
    requires SatisfiesAll(d, row, cols, params) && IsGiven(FilterOf(c, categoryName, productName, attributeKey))
    ensures Satisfies(d, row, c, SearchPattern(FilterOf(c, categoryName, productName, attributeKey).value))
  {
    ActiveColumnsMeaning(categoryName, productName, attributeKey);
    assert c in cols;
    var i :| 0 <= i < |cols| && cols[i] == c;
    assert Satisfies(d, row, cols[i], params[i]);
  }

  /** With a filter free of the `%` and `_` wildcards, a column matches its
      pattern exactly when the column is not NULL and contains the
      lower-cased filter. */
  lemma SearchIsSubstring(d: Db, row: Row, c: Column, v: string)
    requires IsPlain(Lower(v))
    ensures Satisfies(d, row, c, SearchPattern(v)) <==>
      ColumnValue(d, row, c).Some? && Contains(ColumnValue(d, row, c).value, Lower(v))
  {
    if ColumnValue(d, row, c).Some? {
      LikeIsContains(ColumnValue(d, row, c).value, Lower(v));
    }
  }

  /** `getProductDetails`: builds the clause and parameters, runs the
      filtered query, and answers 200 with the rows or 404 for none. */
  method GetProductDetails(db: Store, categoryName: Option<string>, productName: Option<string>, attributeKey: Option<string>)
    returns (s: Status, rows: Option<seq<Row>>)
    requires db.Valid()
    ensures s == Ok <==> rows.Some?
    ensures s == NotFound <==> rows.None?
    ensures rows.Some? ==> rows.value != [] && Distinct(rows.value)
    ensures forall row :: (rows.Some? && row in rows.value) <==>
      IsJoinRow(db.Tables(), row) && MatchesSearch(db.Tables(), row, categoryName, productName, attributeKey)
  {
    var whereClause, params := BuildWhere(categoryName, productName, attributeKey);
    ParseRenderWhere(ActiveColumns(categoryName, productName, attributeKey));
    rows := FetchProductDetailsByProductCategoryAndAttributeName(db.Tables(), whereClause, params);
    forall row {
      BuiltConditionsMeaning(db.Tables(), row, categoryName, productName, attributeKey, params);
    }
    if rows.Some? {
      return Ok, rows;
    }
    s := NotFound;
  }

  /** Without filters the search answers 200 with every join row, and 404
      only for an empty product table. */
  lemma SearchWithoutFiltersIsLeftJoin(d: Db, categoryName: Option<string>, productName: Option<string>, attributeKey: Option<string>)
    requires WellFormed(d)
    requires !IsGiven(categoryName) && !IsGiven(productName) && !IsGiven(attributeKey)
    ensures forall row :: MatchesSearch(d, row, categoryName, productName, attributeKey)
    ensures FetchProductDetailsByProductCategoryAndAttributeName(d, RenderWhere(ActiveColumns(categoryName, productName, attributeKey)), []).None?
      <==> d.products == map[]
  {
    BuildWhereWithoutFilters(categoryName, productName, attributeKey);
    UnfilteredFetchIsLeftJoin(d);
  }
}
