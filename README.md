# Catalog management: store and validated mutations

This project models the core of a catalog service written in TypeScript
(NestJS with TypeORM over PostgreSQL). The catalog holds three tables:

- categories, which form a forest through `parent_id`;
- products, each optionally in one category;
- attributes, each a key/value pair of one product.

The services change these tables through a repository layer. Every request
runs an ordered chain of lookups and checks and answers 200, 400, 404 or 409.
A mutating request (add, update, delete) performs exactly one write on
success. The two reads, `fetchAllCategoryAndSubCategoryDetails` and
`getProductDetails`, write nothing.

How the model is laid out:

- `catalog.dfy` (`Catalog`): the records, the status codes and the shape of
  every finder result. A finder returns `null` for an empty result, otherwise
  a non-empty list in ascending id order.
- `schema.dfy` (`Schema`): the well-formedness of the three tables and the
  effect of the three `ON DELETE` rules of the migration. Deleting a category
  removes its whole subtree and orphans its products. Deleting a product
  removes its attributes.
- `store.dfy` (`CatalogStore`): the store as a class whose fields the
  repository writers update in place.
- `category_repository.dfy`, `product_repository.dfy`,
  `attribute_repository.dfy`: the finders as functions and the writers as
  methods over the store. The recursive subtree query is a breadth-first loop
  with its invariants. The filtered product query is a LEFT JOIN followed by
  the WHERE conditions.
- `category_service.dfy`, `product_service.dfy`, `attribute_service.dfy`:
  - each service operation as a method that mirrors the source's check chain;
  - a status function stating which answer each state gets;
  - lemmas for the naming invariants each operation keeps. These are:
    top-level category names are distinct, no child is named like its parent,
    product names are unique per category, and attribute keys are unique per
    product.
- `where_clause.dfy` (`WhereClause`) and `sql_like.dfy` (`SqlLike`): the
  WHERE text that `getProductDetails` builds, read back by a parser, and SQL
  `LIKE` with `%` and `_`.

On insert, `addSubCategory` rejects a name already used by a direct child
of the parent (src/Modules/Category/category.service.ts:81-85). The test title
at src/Modules/Category/category.service.spec.ts:434 speaks of subcategories
"under the same parent". On a rename, however, `updateCategoryName` compares
the new name with the *children* of the renamed category
(src/Modules/Category/category.service.ts:145-160). The model keeps the code's
check and records the difference under "Findings".

Conventions:

- Ids are naturals taken from one counter shared by all tables; the source
  uses generated UUIDs.
- Prices are integer cents.
- Request validation becomes preconditions:
  - names and keys are lower-case alphanumeric plus whitespace, at least
    three characters;
  - values may also contain commas;
  - prices are at least 1.00.
- Absent query parameters are `None`.

## Model

| member | source | states |
|---|---|---|
| Catalog.Select | src/Repository/category.repository.ts:77-81 | a finder's `result.length > 0 ? result : null`: absent exactly when nothing matches, otherwise a non-empty ascending list of exactly the matching ids |
| Catalog.Lower | src/Modules/Product/product.service.ts:166 | `toLowerCase` keeps the length and lower-cases each ASCII letter, leaving other characters alone |
| Schema.EmptyDb | src/Migrations/1738307430422-databaseSchema.ts:7-15 | the freshly migrated store is well-formed and its three tables are empty |
| Schema.NoCategoryIsItsOwnAncestor | src/Migrations/1738307430422-databaseSchema.ts:17 | in a well-formed store the parent links form a forest: no category's parent lies in that category's own subtree |
| Schema.DeleteCategoryCascadeEffect | src/Migrations/1738307430422-databaseSchema.ts:16-24 | deleting a category leaves a well-formed store without exactly its transitive subtree; every product survives, orphaned exactly when its category was in that subtree; attributes are untouched |
| Schema.SubtreeAfterDelete | src/Migrations/1738307430422-databaseSchema.ts:17 | the cascade does not change which of the remaining categories lie under one another |
| Schema.DeleteProductCascadeEffect | src/Migrations/1738307430422-databaseSchema.ts:19-21 | deleting a product leaves a well-formed store without that product and without exactly its attributes; categories and all other rows are untouched |
| CatalogStore.Store.constructor | src/Migrations/1738307430422-databaseSchema.ts:7-15 | a new store is valid and empty |
| CategoryRepository.CategoryDetailByName | src/Repository/category.repository.ts:33-43 | exactly the top-level categories with that name, ascending, or absent when there are none |
| CategoryRepository.SubCategoryNameOfCategoryId | src/Repository/category.repository.ts:45-53 | exactly the direct children of `id` with that name, or absent |
| CategoryRepository.SubCategoryName | src/Repository/category.repository.ts:55-61 | every category with that name at any depth, top-level ones included, or absent |
| CategoryRepository.CategoryDetailsById | src/Repository/category.repository.ts:74-82 | present exactly when the id exists, and then the single row `[id]` |
| CategoryRepository.InsertCategoryKeepsWellFormed | src/Repository/category.repository.ts:14-31 | a new row at the fresh id, with no parent or an existing one, keeps the store well-formed and adds exactly that key |
| CategoryRepository.RenameCategoryKeepsWellFormed | src/Repository/category.repository.ts:63-72 | changing only a row's name keeps the store well-formed |
| CategoryRepository.AddNewCategoryInDb | src/Repository/category.repository.ts:14-20 | always true; the store gains exactly one top-level category with that name |
| CategoryRepository.AddSubCategoryInDb | src/Repository/category.repository.ts:22-31 | always true; the new row's parent is the row found by id, or none when the id is absent, so that row is then top-level |
| CategoryRepository.UpdateCategoryNameInDb | src/Repository/category.repository.ts:63-72 | true exactly when the id exists; then only that row's name changes, otherwise nothing does |
| CategoryRepository.DeleteCategoryDetailsInDb | src/Repository/category.repository.ts:84-87 | true exactly when the id existed; then the store is the category cascade of that id, otherwise unchanged |
| CategoryRepository.RootLevel | src/Repository/category.repository.ts:94 | the anchor member of the recursive query: depth 0 under `id` holds exactly `id` |
| CategoryRepository.NextLevelIs | src/Repository/category.repository.ts:95-98 | one recursive step: the rows whose parent is in level k are exactly the categories at depth k+1 |
| CategoryRepository.NoDeeperLevels | src/Repository/category.repository.ts:92-100 | once a level is empty, no descendant lies deeper, so the recursion has found them all |
| CategoryRepository.FetchAllCategoryAndSubCategoryDetailsById | src/Repository/category.repository.ts:89-105 | absent exactly for an unknown id; otherwise it starts with `id` and lists every transitive descendant, each once |
| CategoryService.AddCategoryStatus | src/Modules/Category/category.service.ts:17-32 | 409 exactly when some category at any depth already has the name, otherwise 200 |
| CategoryService.AddCategory | src/Modules/Category/category.service.ts:13-49 | answers the status above; on 200 the store gains exactly one top-level category with that name, otherwise it is unchanged |
| CategoryService.AddCategoryTwiceConflicts | src/Modules/Category/category.service.ts:17-26 | after a successful add, the same add answers 409 |
| CategoryService.AddCategoryKeepsInvariant | src/Modules/Category/category.service.ts:17-36 | a successful add keeps the forest, distinct top-level names and no child named like its parent; it also keeps sibling names distinct and reassigns no parent |
| CategoryService.AddSubCategoryStatus | src/Modules/Category/category.service.ts:56-85 | 404 exactly for an unknown parent; 409 exactly when the name is the parent's, a top-level name or that of a direct child of the parent; otherwise 200 |
| CategoryService.AddSubCategory | src/Modules/Category/category.service.ts:51-104 | answers the status above; on 200 exactly one row is inserted with that name and parent, otherwise the store is unchanged |
| CategoryService.AddSubCategoryAcceptsNameOfOtherParentsChild | src/Modules/Category/category.service.ts:60-63 | a name used only by children of other parents is accepted |
| CategoryService.AddSubCategoryKeepsInvariant | src/Modules/Category/category.service.ts:66-90 | a successful sub-category add keeps the naming rules and sibling-name distinctness, and reassigns no parent |
| CategoryService.AnyConflictingChild | src/Modules/Category/category.service.ts:146-153 | the `.some` predicate is true exactly when some listed row has the name, has `id` as parent, is not `id`, and its parent is not named like the new name |
| CategoryService.UpdateCategoryNameStatus | src/Modules/Category/category.service.ts:111-160 | 404 exactly for an unknown id; otherwise only 200 or 409 |
| CategoryService.ParentCheckMeaning | src/Modules/Category/category.service.ts:128-138 | the first check fires exactly when the category has a parent named like the new name |
| CategoryService.TopLevelCheckMeaning | src/Modules/Category/category.service.ts:140-144 | the second check fires exactly when the first top-level category with the new name is not `id` |
| CategoryService.ChildCheckMeaning | src/Modules/Category/category.service.ts:145-160 | once the first two checks pass, the third fires exactly when a direct child of `id`, not a sibling, has the new name |
| CategoryService.UpdateCategoryNameConflicts | src/Modules/Category/category.service.ts:121-160 | for an existing id, 409 exactly when one of the three conflicts holds, and 200 exactly when none does |
| CategoryService.UpdateCategoryName | src/Modules/Category/category.service.ts:106-180 | answers the status above; on 200 only the name of row `id` changes, otherwise nothing does |
| CategoryService.RenameToOwnTopLevelName | src/Modules/Category/category.service.ts:140 | under the invariant, renaming a top-level category to its own current name answers 200 |
| CategoryService.RenameChangesOnlyName | src/Modules/Category/category.service.ts:162-166 | a successful rename writes only that row's name: its parent, all other categories, the products and the attributes are unchanged |
| CategoryService.RenameConflictUnderInvariant | src/Modules/Category/category.service.ts:128-160 | under the invariant, 409 exactly when the parent has the name, another top-level category has it, or a direct child has it |
| CategoryService.UpdateCategoryNameKeepsInvariant | src/Modules/Category/category.service.ts:121-166 | a successful rename keeps the forest, distinct top-level names and no child named like its parent, and reassigns no parent |
| CategoryService.DeleteCategoryDetailsStatus | src/Modules/Category/category.service.ts:184-190 | 404 exactly for an unknown id, otherwise 200 |
| CategoryService.DeleteCategoryDetails | src/Modules/Category/category.service.ts:182-207 | answers the status above; on 200 the store is the category cascade of that id, otherwise unchanged |
| CategoryService.DeleteCategoryKeepsInvariant | src/Modules/Category/category.service.ts:192-193 | the cascade keeps the naming rules and sibling-name distinctness, and reassigns no surviving parent |
| CategoryService.FetchAllCategoryAndSubCategoryDetails | src/Modules/Category/category.service.ts:209-230 | 404 and no data exactly for an unknown id; otherwise 200 with the category followed by all its descendants, each once |
| CategoryService.RenameAllowsSiblingDuplicate | src/Modules/Category/category.service.ts:145-160 | with a root `abc` whose children are `def` and `ghi`, renaming `ghi` to `def` answers 200 and leaves two children of one parent with the same name |
| CategoryService.UpdateCategoryNameStatusWithSiblingCheck | src/Modules/Category/category.service.ts:145-160 | the rename status with a sibling check added after the source's checks: 404 exactly for an unknown id, otherwise 200 or 409 |
| CategoryService.SiblingCheckMeaning | src/Modules/Category/category.service.ts:145-160 | the added check fires exactly when another child of the same parent has the new name |
| CategoryService.UpdateCategoryNameWithSiblingCheckConflicts | src/Modules/Category/category.service.ts:145-160 | with the sibling check, 409 exactly when one of the source's conflicts holds or a sibling has the name |
| CategoryService.RenameWithSiblingCheckKeepsInvariant | src/Modules/Category/category.service.ts:145-166 | with the sibling check, a successful rename keeps the naming rules and sibling names distinct |
| WhereClause.NatToString | src/Modules/Product/product.service.ts:165 | the `${params.length + 1}` numeral is a non-empty run of decimal digits without a leading zero, denoting exactly that number |
| WhereClause.RenderWhereSnoc | src/Modules/Product/product.service.ts:164-177 | `whereClause +=` on the clause for some columns gives the clause for one more column, numbered one after the others |
| WhereClause.ParseRenderWhere | src/Repository/product.repository.ts:127 | the built clause reads back as exactly the columns it was built from |
| SqlLike.LikeIsContains | src/Modules/Product/product.service.ts:166 | for a text with no wildcard, `LIKE '%s%'` holds exactly when the value contains `s` |
| ProductRepository.ProductDetailsByNameAndCategoryId | src/Repository/product.repository.ts:44-53 | exactly the products with that name in that category, or with that name anywhere when the category is undefined, or absent when none match |
| ProductRepository.FetchProductDetailsWithProductIdAndCategoryId | src/Repository/product.repository.ts:55-67 | present exactly when the product exists and its category is `categoryId`; an undefined category filters nothing |
| ProductRepository.ProductDetailsById | src/Repository/product.repository.ts:69-75 | present exactly when the product exists, and then `[id]` |
| ProductRepository.ProductRows | src/Repository/product.repository.ts:124-125 | one product's join rows, each once: one per attribute, or a single NULL-attribute row when it has none |
| ProductRepository.JoinRows | src/Repository/product.repository.ts:124-126 | the LEFT JOIN lists exactly the join rows, each once; the category join drops no row |
| ProductRepository.FilterRows | src/Repository/product.repository.ts:127 | keeps exactly the rows satisfying every condition, in order |
| ProductRepository.FetchProductDetailsByProductCategoryAndAttributeName | src/Repository/product.repository.ts:113-130 | exactly the join rows satisfying every condition of the clause with its parameters, each once, or absent when there are none |
| ProductRepository.EveryProductJoins | src/Repository/product.repository.ts:124-126 | every product, with or without a category or attributes, has a join row |
| ProductRepository.UnfilteredFetchIsLeftJoin | src/Repository/product.repository.ts:117-129 | under `1=1` every product appears once per attribute, or once with none; the result is absent exactly when there are no products |
| ProductRepository.InsertProductKeepsWellFormed | src/Repository/product.repository.ts:19-33 | a new product at the fresh id, in an existing category, keeps the store well-formed |
| ProductRepository.UpdateProductKeepsWellFormed | src/Repository/product.repository.ts:77-89 | writing name, description and price keeps the store well-formed |
| ProductRepository.AddProduct | src/Repository/product.repository.ts:19-33 | always true; exactly one product with the given fields, linked to category `id`, is added |
| ProductRepository.UpdateProductDetailsInDb | src/Repository/product.repository.ts:77-89 | true exactly when the row exists; then only its name, price and, when given, description change, otherwise nothing does |
| ProductRepository.DeleteProductDetailsByIdInDb | src/Repository/product.repository.ts:91-94 | true exactly when the row existed; then the store is the product cascade of that id, otherwise unchanged |
| ProductService.AddNewProductStatus | src/Modules/Product/product.service.ts:21-38 | 404 exactly for an unknown category; 409 exactly when it has a product of that name; otherwise 200 |
| ProductService.AddNewProduct | src/Modules/Product/product.service.ts:16-59 | answers the status above; on 200 exactly one product linked to the category is inserted, otherwise the store is unchanged |
| ProductService.AddNewProductTwiceConflicts | src/Modules/Product/product.service.ts:21-38 | after a successful add, the same add answers 409 |
| ProductService.AddNewProductAcceptsNameOfOtherCategory | src/Modules/Product/product.service.ts:23-26 | the name check is scoped to the category: an existing category none of whose products has the name accepts it, even though a product elsewhere has that name |
| ProductService.AddNewProductKeepsNamesUnique | src/Modules/Product/product.service.ts:34-45 | a successful add keeps product names unique per category, adds one key and changes no existing row |
| ProductService.CurrentCategory | src/Modules/Product/product.service.ts:69 | `existingProduct?.[0]?.category?.id` is the product's category, undefined for an unknown or orphaned product |
| ProductService.UpdateProductDetailsStatus | src/Modules/Product/product.service.ts:66-103 | 404 exactly for an unknown product; otherwise 200 or 409 |
| ProductService.UpdateProductLinkageAlwaysHolds | src/Modules/Product/product.service.ts:99-103 | the linkage 409 never fires, because the lookup uses the product's own category |
| ProductService.NameCheckMeaning | src/Modules/Product/product.service.ts:89-97 | the name check fires exactly when the first product with the new name in the current category is another product |
| ProductService.UpdateProductConflicts | src/Modules/Product/product.service.ts:83-103 | for an existing product, 409 exactly when the new name clashes, and 200 exactly when it does not |
| ProductService.UpdateProductConflictsUnderInvariant | src/Modules/Product/product.service.ts:89-97 | for a product in a category, with unique names: 409 exactly when another product of that category has the name, so keeping its own name is allowed |
| ProductService.UpdateProductDetails | src/Modules/Product/product.service.ts:61-126 | answers the status above; on 200 the row is updated, otherwise the store is unchanged |
| ProductService.UpdateProductKeepsNamesUnique | src/Modules/Product/product.service.ts:89-111 | a successful update keeps product names unique per category |
| ProductService.UpdateProductChangesOnlyDetails | src/Modules/Product/product.service.ts:105-111 | a successful update writes only name, price and, when given, description; the category, the other products, the categories and the attributes are unchanged |
| ProductService.DeleteProductDetailsStatus | src/Modules/Product/product.service.ts:130-136 | 404 exactly for an unknown product, otherwise 200 |
| ProductService.DeleteProductDetails | src/Modules/Product/product.service.ts:128-153 | answers the status above; on 200 the store is the product cascade, otherwise unchanged |
| ProductService.DeleteProductKeepsNamesUnique | src/Modules/Product/product.service.ts:138-139 | deleting a product keeps product names unique per category |
| ProductService.DeleteCategoryKeepsNamesUnique | src/Migrations/1738307430422-databaseSchema.ts:23 | a category cascade keeps product names unique per category |
| ProductService.ActiveColumnsMeaning | src/Modules/Product/product.service.ts:164-177 | a column gets a condition exactly when its filter is non-empty, and the columns come in the order p.name, c.name, a.key |
| ProductService.BuildWhere | src/Modules/Product/product.service.ts:161-177 | the clause is `1=1` plus one condition per non-empty filter, in the fixed order, numbered `$1..$n`; there are n parameters, the i-th the pattern of the i-th filter |
| ProductService.AppendFilter | src/Modules/Product/product.service.ts:164-167 | one `if (filter)` step extends a clause built for some columns into the clause for those columns plus this one, when its filter is given |
| ProductService.BuildWhereWithoutFilters | src/Modules/Product/product.service.ts:161-162 | with no filter the clause is `1=1` and there are no parameters |
| ProductService.BuiltConditionsMeaning | src/Modules/Product/product.service.ts:164-185 | a join row satisfies the built conditions exactly when each given filter's column matches its pattern |
| ProductService.SearchIsSubstring | src/Modules/Product/product.service.ts:166 | for input without wildcards, a column matches exactly when it is non-NULL and contains the lower-cased input |
| ProductService.GetProductDetails | src/Modules/Product/product.service.ts:155-200 | 200 with rows exactly when some join row matches every given filter, otherwise 404; the rows are exactly the matching join rows, each once |
| ProductService.SearchWithoutFiltersIsLeftJoin | src/Modules/Product/product.service.ts:161-196 | with no filter the search returns the whole LEFT JOIN, and 404 exactly when there are no products |
| AttributeRepository.FetchAttributeDataById | src/Repository/attribute.repository.ts:37-43 | absent exactly when no attribute has that id; otherwise `[id]` |
| AttributeRepository.FetchAttributeDataWithKeyAndId | src/Repository/attribute.repository.ts:45-51 | present exactly when attribute `id` exists with that key |
| AttributeRepository.FetchAttributeDataWithKeyAndProductId | src/Repository/attribute.repository.ts:53-62 | exactly the attributes of that product with exactly that key, ascending, or absent |
| AttributeRepository.FetchProductDetailsWithAttributeIdAndProductId | src/Repository/attribute.repository.ts:88-99 | present exactly when the attribute exists and belongs to that product |
| AttributeRepository.InsertAttributeKeepsWellFormed | src/Repository/attribute.repository.ts:22-35 | a new attribute of an existing product keeps the store well-formed |
| AttributeRepository.ChangeAttributeKeepsWellFormed | src/Repository/attribute.repository.ts:64-75 | changing key and value keeps the store well-formed |
| AttributeRepository.RemoveAttributeKeepsWellFormed | src/Repository/attribute.repository.ts:77-86 | removing one attribute keeps the store well-formed |
| AttributeRepository.AddNewAttributeInDb | src/Repository/attribute.repository.ts:22-35 | always true; exactly one attribute linked to the product is added |
| AttributeRepository.UpdateAttributeDataInDb | src/Repository/attribute.repository.ts:64-75 | true exactly when a row matches both ids; then only its key and value change, otherwise nothing does |
| AttributeRepository.DeleteAttributeDataFromDb | src/Repository/attribute.repository.ts:77-86 | true exactly when a row matches both ids; then exactly that row is removed, otherwise nothing changes |
| AttributeService.AddNewAttributeStatus | src/Modules/Attribute/attribute.service.ts:20-37 | 404 exactly for an unknown product; 409 exactly when it has an attribute with that key; otherwise 200 |
| AttributeService.AddNewAttribute | src/Modules/Attribute/attribute.service.ts:15-58 | answers the status above; on 200 exactly one attribute linked to the product is inserted, otherwise the store is unchanged |
| AttributeService.AddNewAttributeTwiceConflicts | src/Modules/Attribute/attribute.service.ts:20-37 | after a successful add, the same add answers 409 |
| AttributeService.AddNewAttributeAcceptsKeyOfOtherProduct | src/Modules/Attribute/attribute.service.ts:22-25 | when the add answers 200, any attribute with the same key belongs to another product |
| AttributeService.AddNewAttributeKeepsKeysUnique | src/Modules/Attribute/attribute.service.ts:33-44 | a successful add keeps keys unique per product, adds one key and changes no existing row |
| AttributeService.UpdateAttributeStatus | src/Modules/Attribute/attribute.service.ts:66-106 | 404 exactly when the product or the attribute is unknown; 409 whenever both exist but are not linked; otherwise 200 or 409 |
| AttributeService.KeyCheckMeaning | src/Modules/Attribute/attribute.service.ts:102-106 | for a linked attribute, the key check fires exactly when the first attribute of the product with the new key is another one |
| AttributeService.UpdateAttributeConflicts | src/Modules/Attribute/attribute.service.ts:85-106 | for an existing product and attribute, 409 exactly when they are not linked or the key clashes; 200 exactly otherwise |
| AttributeService.UpdateAttributeConflictsUnderInvariant | src/Modules/Attribute/attribute.service.ts:102 | with unique keys, a linked attribute's update answers 409 exactly when another attribute of the product has the key, so keeping its own key is allowed |
| AttributeService.UpdateAttribute | src/Modules/Attribute/attribute.service.ts:60-128 | answers the status above; on 200 only that attribute's key and value change, otherwise the store is unchanged |
| AttributeService.UpdateAttributeKeepsKeysUnique | src/Modules/Attribute/attribute.service.ts:102-114 | giving a linked attribute a key no other attribute of its product has keeps keys unique |
| AttributeService.UpdateAttributeChangesOnlyKeyAndValue | src/Modules/Attribute/attribute.service.ts:108-114 | the update writes only key and value; the product link, the other attributes, the products and the categories are unchanged |
| AttributeService.DeleteAttributeStatus | src/Modules/Attribute/attribute.service.ts:135-155 | 404 exactly when the product or the attribute is unknown; 409 exactly when the attribute belongs to another product; otherwise 200 |
| AttributeService.DeleteAttribute | src/Modules/Attribute/attribute.service.ts:130-175 | answers the status above; on 200 exactly that attribute is removed, otherwise the store is unchanged |
| AttributeService.DeleteAttributeKeepsKeysUnique | src/Modules/Attribute/attribute.service.ts:157-161 | a successful delete removes exactly that attribute, keeps keys unique and touches nothing else |
| AttributeService.DeleteProductKeepsKeysUnique | src/Migrations/1738307430422-databaseSchema.ts:20 | the product cascade keeps attribute keys unique per product |

## Left out

- The `catch` branches that answer 500: the model has no database or driver errors.
- Column limits: a name, key or value longer than `varchar(255)`, or a price beyond `numeric(10,2)`, makes the database raise an error, which the source answers with 500. The model has no length or magnitude bound and answers 200 instead.
- `attributes.product_id` is nullable in the migration (src/Migrations/1738307430422-databaseSchema.ts:11). The model's Attribute always has a product, because every insert path sets it and the cascade removes attributes instead of nulling them.
- Concurrency: the reads inside each `Promise.all` are modelled as sequential reads of one state, with no interleaving between requests.
- Ids are fresh naturals from one counter shared by the three tables, not UUIDs. Request validation of ids as UUIDs is not modelled.
- Message strings, controllers, DTO classes, Swagger metadata and module wiring are not modelled. Request validation appears only as preconditions.
- Order of finder results: SQL leaves it unspecified, and the model fixes ascending id order. Each `[0]` in a check (category.service.ts:140 and 145, product.service.ts:92, attribute.service.ts:102 and 151) is therefore the smallest matching id.
- Price: `numeric(10,2)` is modelled as integer cents, since it is only stored and compared.
- Lowercasing covers ASCII letters only. Collation and the backslash escape of SQL `LIKE` are not modelled.
- Catalog.IsValidName and Catalog.IsValidValue: `\s` in the DTO patterns (category.dto.ts:15, product.dto.ts:23, attribute.dto.ts:15 and 30) also accepts Unicode whitespace such as U+00A0 and U+2028. The model admits only ASCII whitespace, so these preconditions are slightly stronger than the validation.
- ProductRepository.FetchProductDetailsByProductCategoryAndAttributeName: requires a clause the parser reads back and one parameter per condition. Any other clause would make the database raise an error, which becomes the 500 path. That precondition holds for what `BuildWhere` produces (`ParseRenderWhere`).
- ProductRepository.AddProduct and AttributeRepository.AddNewAttributeInDb: require an existing category and product respectively. A foreign-key violation would raise an error, and every caller checks existence first.
- An undefined `description` on update keeps the stored value, as TypeORM skips undefined columns.
- An undefined `category_id` filter matches every product, so an orphaned product's name check spans all products (product.service.ts:69-76).
- Unreachable answers, as `assert false` in the methods:
  - the 400 branches of every service, because the writers always succeed once the checks pass;
  - the linkage 409 of `updateProductDetails`, because the lookup uses the product's own category (`UpdateProductLinkageAlwaysHolds`).
- Product finders that no service calls are not modelled: `productDetailsByNameInDb`, `fetchProductDetailsByNameInDb` and `fetchAllProductDetailsInDb` (product.repository.ts:35-42, 96-111).
- The join result's columns (`p.*`, attribute key and value, category name and parent) are represented by the (product, attribute) pair that determines them.
- Query parameters of `getProductDetails` are `Option<string>`. JavaScript's truthiness test is `IsGiven`: present and non-empty.
- The migration's `down()` is not modelled.

## Findings

| source | as written | input that shows it | evidently intended | confidence | as-written member | corrected member |
|---|---|---|---|---|---|---|
| src/Modules/Category/category.service.ts:145-160 | the rename's third check looks for a *child* of the renamed category (`details.parent?.id === categoryEntity?.id`) with the new name | categories `abc` (top-level) with children `def` and `ghi`; rename `ghi` to `def` | reject a name already used by a sibling, as `addSubCategory` does on insert and as the test title "exists in subcategories under the same parent" (category.service.spec.ts:434) says | medium, not executed | CategoryService.RenameAllowsSiblingDuplicate | CategoryService.RenameWithSiblingCheckKeepsInvariant |
