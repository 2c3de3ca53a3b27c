/** The relational schema: primary keys, the three nullable foreign keys, and
    what their ON DELETE rules do. `parent_id` cascades (deleting a category
    deletes its whole subtree), `product_id` cascades (deleting a product
    deletes its attributes), `category_id` is set to null (the products of a
    deleted category survive without one). */
module Schema {
  import opened Catalog

  /** What the schema guarantees of every state: each table is keyed by its
      primary key (a map), every key was drawn from the counter, and every
      non-null foreign key names an existing row. The model also keeps every
      parent older than its children, which a store that never re-parents a
      category and always links new rows to existing ones maintains; it is
      what makes the parent links a forest. */
  ghost predicate WellFormed(d: Db) {
    && (forall c :: c in d.categories ==> c < d.nextId)
    && (forall p :: p in d.products ==> p < d.nextId)
    && (forall a :: a in d.attributes ==> a < d.nextId)
    && (forall c :: c in d.categories && d.categories[c].parent.Some? ==>
          d.categories[c].parent.value in d.categories && d.categories[c].parent.value < c)
    && (forall p :: p in d.products && d.products[p].category.Some? ==>
          d.products[p].category.value in d.categories)
    && (forall a :: a in d.attributes ==> d.attributes[a].product in d.products)
  }

  /** The empty store a fresh database starts from. */
  function EmptyDb(): (d: Db)
    ensures WellFormed(d)
    ensures d.categories == map[] && d.products == map[] && d.attributes == map[]
  {
    Db(map[], map[], map[], 0)
  }

  /** `x` is `root` or lies below `root` along `parent_id` links. The check
      `parent < x` holds in every well-formed state; it makes the definition
      terminate on any map. */
  predicate InSubtree(cats: map<Id, Category>, x: Id, root: Id)
    decreases x
  {
    || x == root
    || (&& x in cats
        && cats[x].parent.Some?
        && cats[x].parent.value < x
        && InSubtree(cats, cats[x].parent.value, root))
  }

  /** The categories in the subtree rooted at `root`. */
  function Subtree(cats: map<Id, Category>, root: Id): set<Id> {
    set x | x in cats && InSubtree(cats, x, root)
  }

  /** Going down a parent link never leads to a smaller id. */
  lemma {:induction false} SubtreeIdsGrow(cats: map<Id, Category>, x: Id, root: Id)
    requires InSubtree(cats, x, root)
    ensures root <= x
    decreases x
  {
    if x != root {
      SubtreeIdsGrow(cats, cats[x].parent.value, root);
    }
  }

  /** The parent links form a forest: the parent of a category never lies in
      that category's subtree, so no category is its own ancestor. */
  lemma NoCategoryIsItsOwnAncestor(d: Db, x: Id)
    requires WellFormed(d)
    requires x in d.categories && d.categories[x].parent.Some?
    ensures !InSubtree(d.categories, d.categories[x].parent.value, x)
  {
    var p := d.categories[x].parent.value;
    if InSubtree(d.categories, p, x) {
      SubtreeIdsGrow(d.categories, p, x);
      assert false;
    }
  }

  /** A product whose category was deleted keeps everything but its link. */
  function Orphaned(p: Product, gone: set<Id>): Product {
    if p.category.Some? && p.category.value in gone then p.(category := None) else p
  }

  /** The store after `DELETE FROM categories WHERE id = root`, with the two
      ON DELETE rules applied: the subtree goes, its products are orphaned. */
  function DeleteCategoryCascade(d: Db, root: Id): Db {
    var gone := Subtree(d.categories, root);
    d.(categories := map x | x in d.categories && x !in gone :: d.categories[x],
       products := map p | p in d.products :: Orphaned(d.products[p], gone))
  }

  /** The store after `DELETE FROM products WHERE id = id`, with ON DELETE
      CASCADE on `attributes.product_id` applied. */
  function DeleteProductCascade(d: Db, id: Id): Db {
    d.(products := map p | p in d.products && p != id :: d.products[p],
       attributes := map a | a in d.attributes && d.attributes[a].product != id :: d.attributes[a])
  }

  /** Deleting a category removes exactly its subtree, orphans exactly the
      products of removed categories, keeps every product and attribute, and
      leaves a well-formed store. */
  lemma DeleteCategoryCascadeEffect(d: Db, root: Id)
    requires WellFormed(d)
    ensures var r := DeleteCategoryCascade(d, root);
      && WellFormed(r)
      && (forall x :: x in r.categories <==> x in d.categories && !InSubtree(d.categories, x, root))
      && r.products.Keys == d.products.Keys
      && r.attributes == d.attributes
      && (forall p :: p in r.products ==>
            r.products[p].category ==
              (if d.products[p].category.Some? && InSubtree(d.categories, d.products[p].category.value, root)
               then None else d.products[p].category))
  {
    var r := DeleteCategoryCascade(d, root);
    var gone := Subtree(d.categories, root);
    forall x | x in r.categories && r.categories[x].parent.Some?
      ensures r.categories[x].parent.value in r.categories
    {
      var p := d.categories[x].parent.value;
      if p in gone {
        assert InSubtree(d.categories, x, root);
        assert false;
      }
    }
  }

  /** Deleting a category leaves the subtree of every other category as it was,
      minus the deleted subtree: a cascade never reaches beyond `root`. */
  lemma {:induction false} SubtreeAfterDelete(d: Db, root: Id, y: Id, x: Id)
    requires WellFormed(d)
    requires x in DeleteCategoryCascade(d, root).categories
    ensures InSubtree(DeleteCategoryCascade(d, root).categories, x, y) <==> InSubtree(d.categories, x, y)
    decreases x
  {
    var cats: map<Id, Category> := d.categories;
    var after: map<Id, Category> := DeleteCategoryCascade(d, root).categories;
    if x != y {
      var c := cats[x];
      assert after[x] == c;
      if c.parent.Some? {
        var p := c.parent.value;
        DeleteCategoryCascadeEffect(d, root);
        assert p in after;
        SubtreeAfterDelete(d, root, y, p);
      }
    }
  }

  /** Deleting a product removes it and exactly its attributes and leaves a
      well-formed store; categories and the other products are untouched. */
  lemma DeleteProductCascadeEffect(d: Db, id: Id)
    requires WellFormed(d)
    ensures var r := DeleteProductCascade(d, id);
      && WellFormed(r)
      && r.categories == d.categories
      && r.products.Keys == d.products.Keys - {id}
      && (forall p :: p in r.products ==> r.products[p] == d.products[p])
      && (forall a :: a in r.attributes <==> a in d.attributes && d.attributes[a].product != id)
  {
  }
}
