/** The category repository: the finders it runs against `categories`, the
    writers that insert, rename and delete rows, and the recursive query that
    fetches a subtree. */
module CategoryRepository {
  import opened Catalog
  import opened Schema
  import opened CatalogStore

  // ---------------------------------------------------------------------
  // Finders. Each is a filtered scan that reports an empty result as null.

  /** `categoryDetailByNameFromDb`: the top-level categories named `name`. */
  function CategoryDetailByName(d: Db, name: string): (r: Option<seq<Id>>)
    requires WellFormed(d)
    ensures r.Some? ==> r.value != [] && Ascending(r.value)
    ensures forall x: Id :: (r.Some? && x in r.value) <==>
      (x in d.categories && d.categories[x].name == name && d.categories[x].parent.None?)
  {
    var keep := (x: Id) => x in d.categories && d.categories[x].name == name && d.categories[x].parent.None?;
    assert forall x: Id :: keep(x) == (x in d.categories && d.categories[x].name == name && d.categories[x].parent.None?);
    Select(d.nextId, keep)
  }

  /** `subCategoryNameOfCategoryIdFromDb`: the direct children of `id` named `name`. */
  function SubCategoryNameOfCategoryId(d: Db, id: Id, name: string): (r: Option<seq<Id>>)
    requires WellFormed(d)
    ensures r.Some? ==> r.value != [] && Ascending(r.value)
    ensures forall x: Id :: (r.Some? && x in r.value) <==>
      (x in d.categories && d.categories[x].name == name && d.categories[x].parent == Some(id))
  {
    var keep := (x: Id) => x in d.categories && d.categories[x].name == name && d.categories[x].parent == Some(id);
    assert forall x: Id :: keep(x) == (x in d.categories && d.categories[x].name == name && d.categories[x].parent == Some(id));
    Select(d.nextId, keep)
  }

  /** `subCategoryNameFromDb`: every category named `name`, at any depth,
      top-level ones included. */
  function SubCategoryName(d: Db, name: string): (r: Option<seq<Id>>)
    requires WellFormed(d)
    ensures r.Some? ==> r.value != [] && Ascending(r.value)
    ensures forall x: Id :: (r.Some? && x in r.value) <==>
      (x in d.categories && d.categories[x].name == name)
  {
    var keep := (x: Id) => x in d.categories && d.categories[x].name == name;
    assert forall x: Id :: keep(x) == (x in d.categories && d.categories[x].name == name);
    Select(d.nextId, keep)
  }

  /** `categoryDetailsByIdFromDb`: the category with primary key `id`;
      a primary key matches at most one row. */
  function CategoryDetailsById(d: Db, id: Id): (r: Option<seq<Id>>)
    requires WellFormed(d)
    ensures r.Some? <==> id in d.categories
    ensures r.Some? ==> r.value == [id]
  {
    var keep := (x: Id) => x == id && x in d.categories;
    assert forall x: Id :: keep(x) == (x == id && x in d.categories);
    var r := Select(d.nextId, keep);
    if r.Some? then AscendingSingleton(r.value, id); r else r
  }

  // ---------------------------------------------------------------------
  // What the writers do to the tables, as values.

  /** A new category row at the next fresh id. */
  function InsertCategory(d: Db, name: string, parent: Option<Id>): Db {
    d.(categories := d.categories[d.nextId := Category(name, parent)], nextId := d.nextId + 1)
  }

  /** Row `id` with a new name and everything else as it was. */
  function RenameCategory(d: Db, id: Id, name: string): Db
    requires id in d.categories
  {
    d.(categories := d.categories[id := d.categories[id].(name := name)])
  }

  /** A new row keeps the store well formed when its parent exists (or it
      has none); a rename always does. */
  lemma InsertCategoryKeepsWellFormed(d: Db, name: string, parent: Option<Id>)
    requires WellFormed(d)
    requires parent.Some? ==> parent.value in d.categories
    ensures WellFormed(InsertCategory(d, name, parent))
    ensures InsertCategory(d, name, parent).categories.Keys == d.categories.Keys + {d.nextId}
    ensures d.nextId !in d.categories
  {
  }

  lemma RenameCategoryKeepsWellFormed(d: Db, id: Id, name: string)
    requires WellFormed(d) && id in d.categories
    ensures WellFormed(RenameCategory(d, id, name))
  {
  }

  // ---------------------------------------------------------------------
  // Writers.

  /** `addNewCategoryInDb`: saves one top-level category; the save always
      yields a row, so the result is true. */
  method AddNewCategoryInDb(db: Store, name: string) returns (ok: bool)
    requires db.Valid()
    modifies db
    ensures db.Valid() && ok
    ensures db.Tables() == InsertCategory(old(db.Tables()), name, None)
  {
    InsertCategoryKeepsWellFormed(db.Tables(), name, None);
    db.categories := db.categories[db.nextId := Category(name, None)];
    db.nextId := db.nextId + 1;
    ok := true;
  }

  /** `addSubCategoryInDb`: the parent is whatever row `id` finds, so an
      unknown `id` yields a top-level category. */
  method AddSubCategoryInDb(db: Store, id: Id, name: string) returns (ok: bool)
    requires db.Valid()
    modifies db
    ensures db.Valid() && ok
    ensures db.Tables() ==
      InsertCategory(old(db.Tables()), name, if id in old(db.categories) then Some(id) else None)
  {
    var parent := CategoryDetailsById(db.Tables(), id);
    var link := if parent.Some? then Some(parent.value[0]) else None;
    InsertCategoryKeepsWellFormed(db.Tables(), name, link);
    db.categories := db.categories[db.nextId := Category(name, link)];
    db.nextId := db.nextId + 1;
    ok := true;
  }

  /** `updateCategoryNameInDb`: false and no change for an unknown id,
      otherwise only that row's name changes. */
  method UpdateCategoryNameInDb(db: Store, id: Id, name: string) returns (ok: bool)
    requires db.Valid()
    modifies db
    ensures db.Valid()
    ensures ok == (id in old(db.categories))
    ensures db.Tables() == if ok then RenameCategory(old(db.Tables()), id, name) else old(db.Tables())
  {
    var found := CategoryDetailsById(db.Tables(), id);
    if found.None? {
      return false;
    }
    RenameCategoryKeepsWellFormed(db.Tables(), id, name);
    db.categories := db.categories[id := db.categories[id].(name := name)];
    ok := true;
  }

  /** `deleteCategoryDetailsInDb`: one DELETE by primary key, with the ON
      DELETE rules of the schema applied; true iff a row was removed. */
  method DeleteCategoryDetailsInDb(db: Store, id: Id) returns (ok: bool)
    requires db.Valid()
    modifies db
    ensures db.Valid()
    ensures ok == (id in old(db.categories))
    ensures db.Tables() == if ok then DeleteCategoryCascade(old(db.Tables()), id) else old(db.Tables())
  {
    ok := id in db.categories;
    if ok {
      DeleteCategoryCascadeEffect(db.Tables(), id);
      var after := DeleteCategoryCascade(db.Tables(), id);
      db.categories := after.categories;
      db.products := after.products;
    }
  }

  // ---------------------------------------------------------------------
  // The recursive query: `WITH RECURSIVE` starts from row `id` and adds, one
  // level at a time, the rows whose `parent_id` is in the previous level;
  // `UNION ALL` concatenates the levels.

  /** How many parent links lead from `x` up to `root`. */
  ghost function Depth(cats: map<Id, Category>, x: Id, root: Id): nat
    requires InSubtree(cats, x, root)
    decreases x
  {
    if x == root then 0 else Depth(cats, cats[x].parent.value, root) + 1
  }

  /** The categories exactly `k` links below `root`. */
  ghost predicate AtDepth(cats: map<Id, Category>, x: Id, root: Id, k: nat) {
    x in cats && InSubtree(cats, x, root) && Depth(cats, x, root) == k
  }

  /** Each link down adds at least one to the id. */
  lemma {:induction false} DepthBound(cats: map<Id, Category>, x: Id, root: Id)
    requires InSubtree(cats, x, root)
    ensures root + Depth(cats, x, root) <= x
    decreases x
  {
    if x != root {
      DepthBound(cats, cats[x].parent.value, root);
    }
  }

  /** A category deeper than `k` has an ancestor exactly at depth `k`. */
  lemma {:induction false} AncestorAtDepth(d: Db, x: Id, root: Id, k: nat)
    requires WellFormed(d) && root in d.categories
    requires InSubtree(d.categories, x, root) && k < Depth(d.categories, x, root)
    ensures exists y :: AtDepth(d.categories, y, root, k)
    decreases x
  {
    var p := d.categories[x].parent.value;
    if Depth(d.categories, p, root) == k {
      assert AtDepth(d.categories, p, root, k);
    } else {
      AncestorAtDepth(d, p, root, k);
    }
  }

  /** The next level of the recursion: the rows whose parent is at depth
      `k` are exactly the rows at depth `k + 1`. */
  lemma NextLevel(d: Db, root: Id, k: nat, x: Id)
    requires WellFormed(d) && root in d.categories
    ensures (x in d.categories && d.categories[x].parent.Some? &&
             AtDepth(d.categories, d.categories[x].parent.value, root, k))
            <==> AtDepth(d.categories, x, root, k + 1)
  {
    var cats := d.categories;
    if x in cats && cats[x].parent.Some? && AtDepth(cats, cats[x].parent.value, root, k) {
      SubtreeIdsGrow(cats, cats[x].parent.value, root);
      assert x != root;
    }
  }

  /** The level at depth 0 is the root alone. */
  lemma RootLevel(cats: map<Id, Category>, root: Id)
    requires root in cats
    ensures forall x: Id :: AtDepth(cats, x, root, 0) <==> x == root
    ensures forall x: Id :: x in cats && InSubtree(cats, x, root) && Depth(cats, x, root) <= 0 <==> x == root
  {
  }

  /** Once a level is empty, every category of the subtree has been reached. */
  lemma NoDeeperLevels(d: Db, root: Id, k: nat)
    requires WellFormed(d) && root in d.categories
    requires forall y: Id :: !AtDepth(d.categories, y, root, k)
    ensures forall x: Id :: x in d.categories && InSubtree(d.categories, x, root) ==> Depth(d.categories, x, root) <= k
  {
    forall x: Id | x in d.categories && InSubtree(d.categories, x, root)
      ensures Depth(d.categories, x, root) <= k
    {
      if Depth(d.categories, x, root) > k {
        AncestorAtDepth(d, x, root, k);
      }
    }
  }

  /** One step of the recursion: the rows whose parent is in a level at depth
      `k` form the level at depth `k + 1`. */
  lemma NextLevelIs(d: Db, root: Id, k: nat, level: seq<Id>, next: seq<Id>)
    requires WellFormed(d) && root in d.categories
    requires forall x: Id :: x in level <==> AtDepth(d.categories, x, root, k)
    requires forall x: Id :: x in next <==>
      x < d.nextId && x in d.categories && d.categories[x].parent.Some? && d.categories[x].parent.value in level
    ensures forall x: Id :: x in next <==> AtDepth(d.categories, x, root, k + 1)
  {
    forall x: Id
      ensures x in next <==> AtDepth(d.categories, x, root, k + 1)
    {
      NextLevel(d, root, k, x);
    }
  }

  /** Appending the next level to the levels so far keeps them free of
      duplicates, because each category has one depth. */
  lemma AppendLevel(cats: map<Id, Category>, root: Id, k: nat, result: seq<Id>, next: seq<Id>)
    requires forall x: Id :: x in result <==> x in cats && InSubtree(cats, x, root) && Depth(cats, x, root) <= k
    requires Distinct(result)
    requires Ascending(next)
    requires forall x: Id :: x in next <==> AtDepth(cats, x, root, k + 1)
    ensures Distinct(result + next)
    ensures forall x: Id :: x in result + next <==>
      x in cats && InSubtree(cats, x, root) && Depth(cats, x, root) <= k + 1
  {
    forall i, j | 0 <= i < |result| && 0 <= j < |next|
      ensures result[i] != next[j]
    {
      assert result[i] in result && next[j] in next;
    }
  }

  /** `fetchAllCategoryAndSubCategoryDetailsByIdInDb`: null when `id` is not
      a category, otherwise `id` followed by all of its descendants, each
      exactly once. */
  method FetchAllCategoryAndSubCategoryDetailsById(d: Db, id: Id) returns (r: Option<seq<Id>>)
    requires WellFormed(d)
    ensures r.None? <==> id !in d.categories
    ensures r.Some? ==> |r.value| > 0 && r.value[0] == id && Distinct(r.value)
    ensures r.Some? ==> forall x: Id :: x in r.value <==> x in d.categories && InSubtree(d.categories, x, id)
  {
    var cats: map<Id, Category> := d.categories;
    // the anchor member: SELECT * FROM categories WHERE id = $1
    var anchor := CategoryDetailsById(d, id);
    if anchor.None? {
      return None;
    }
    var frontier := anchor.value;
    RootLevel(cats, id);
    var result := frontier;
    ghost var k: nat := 0;
    while frontier != []
      invariant forall x: Id :: x in frontier <==> AtDepth(cats, x, id, k)
      invariant Ascending(frontier)
      invariant forall x: Id :: x in result <==> x in cats && InSubtree(cats, x, id) && Depth(cats, x, id) <= k
      invariant |result| > 0 && result[0] == id && Distinct(result)
      decreases d.nextId - k
    {
      assert frontier[0] in frontier;
      DepthBound(cats, frontier[0], id);
      var level := frontier;
      // the recursive member: rows whose parent_id is in the previous level
      var step := (x: Id) => x in cats && cats[x].parent.Some? && cats[x].parent.value in level;
      assert forall x: Id :: step(x) == (x in cats && cats[x].parent.Some? && cats[x].parent.value in level);
      frontier := Scan(d.nextId, step);
      NextLevelIs(d, id, k, level, frontier);
      AppendLevel(cats, id, k, result, frontier);
      result := result + frontier;
      k := k + 1;
    }
    NoDeeperLevels(d, id, k);
    r := Some(result);
  }
}
