/** The category service: the check chains of `addCategory`,
    `addSubCategory`, `updateCategoryName`, `deleteCategoryDetails` and
    `fetchAllCategoryAndSubCategoryDetails`, and the naming rules they keep. */
module CategoryService {
  import opened Catalog
  import opened Schema
  import opened CatalogStore
  import opened CategoryRepository

  // ---------------------------------------------------------------------
  // Naming rules of the hierarchy.

  predicate IsTopLevelNamed(cats: map<Id, Category>, x: Id, name: string) {
    x in cats && cats[x].parent.None? && cats[x].name == name
  }

  predicate IsChildNamed(cats: map<Id, Category>, x: Id, parent: Id, name: string) {
    x in cats && cats[x].parent == Some(parent) && cats[x].name == name
  }

  /** Some category, at any depth, is called `name`. */
  ghost predicate NameInUse(cats: map<Id, Category>, name: string) {
    exists x: Id :: x in cats && cats[x].name == name
  }

  /** No two top-level categories share a name. */
  ghost predicate TopLevelNamesDistinct(cats: map<Id, Category>) {
    forall x: Id, y: Id :: x in cats && y in cats && x != y && cats[x].parent.None? && cats[y].parent.None? ==>
      cats[x].name != cats[y].name
  }

  /** No category is named like its parent. */
  ghost predicate NoChildNamedLikeParent(cats: map<Id, Category>) {
    forall x: Id :: x in cats && cats[x].parent.Some? && cats[x].parent.value in cats ==>
      cats[x].name != cats[cats[x].parent.value].name
  }

  /** No two children of the same parent share a name. */
  ghost predicate SiblingNamesDistinct(cats: map<Id, Category>) {
    forall x: Id, y: Id :: x in cats && y in cats && x != y && cats[x].parent.Some? && cats[x].parent == cats[y].parent ==>
      cats[x].name != cats[y].name
  }

  /** The rules every operation of the service keeps, on top of the schema. */
  ghost predicate CategoryInvariant(d: Db) {
    WellFormed(d) && TopLevelNamesDistinct(d.categories) && NoChildNamedLikeParent(d.categories)
  }

  /** No category present before and after has changed its parent. */
  ghost predicate ParentsKept(before: map<Id, Category>, after: map<Id, Category>) {
    forall x: Id :: x in before && x in after ==> after[x].parent == before[x].parent
  }

  // The rules under one new row and under one renamed row, on the table
  // alone.

  lemma InsertKeepsNamingRules(cats: map<Id, Category>, k: Id, c: Category)
    requires k !in cats
    requires forall x: Id :: x in cats && cats[x].parent.Some? ==> cats[x].parent.value != k
    requires c.parent.Some? ==> c.parent.value in cats
    requires c.parent.None? ==> forall x: Id :: x in cats && cats[x].parent.None? ==> cats[x].name != c.name
    requires c.parent.Some? ==> cats[c.parent.value].name != c.name
    requires c.parent.Some? ==> forall x: Id :: x in cats && cats[x].parent == c.parent ==> cats[x].name != c.name
    ensures TopLevelNamesDistinct(cats) ==> TopLevelNamesDistinct(cats[k := c])
    ensures NoChildNamedLikeParent(cats) ==> NoChildNamedLikeParent(cats[k := c])
    ensures SiblingNamesDistinct(cats) ==> SiblingNamesDistinct(cats[k := c])
    ensures ParentsKept(cats, cats[k := c])
  {
    var after := cats[k := c];
    if NoChildNamedLikeParent(cats) {
      forall x: Id | x in after && after[x].parent.Some? && after[x].parent.value in after
        ensures after[x].name != after[after[x].parent.value].name
      {
        if x != k {
          assert after[x].parent.value != k;
        }
      }
    }
  }

  lemma RenameKeepsNamingRules(cats: map<Id, Category>, id: Id, name: string)
    requires id in cats
    requires cats[id].parent.None? ==> forall x: Id :: x in cats && x != id && cats[x].parent.None? ==> cats[x].name != name
    requires cats[id].parent.Some? && cats[id].parent.value in cats ==> cats[cats[id].parent.value].name != name
    requires forall x: Id :: x in cats && x != id && cats[x].parent == Some(id) ==> cats[x].name != name
    ensures TopLevelNamesDistinct(cats) ==> TopLevelNamesDistinct(cats[id := cats[id].(name := name)])
    ensures NoChildNamedLikeParent(cats) ==> NoChildNamedLikeParent(cats[id := cats[id].(name := name)])
    ensures ParentsKept(cats, cats[id := cats[id].(name := name)])
  {
  }

  lemma RenameKeepsSiblingNamesDistinct(cats: map<Id, Category>, id: Id, name: string)
    requires id in cats && SiblingNamesDistinct(cats)
    requires cats[id].parent.Some? ==> forall x: Id :: x in cats && x != id && cats[x].parent == cats[id].parent ==> cats[x].name != name
    ensures SiblingNamesDistinct(cats[id := cats[id].(name := name)])
  {
  }

  // ---------------------------------------------------------------------
  // addCategory

  /** The status `addCategory` answers: 409 when the name is in use at any
      level (top-level or not), otherwise 200. */
  function AddCategoryStatus(d: Db, name: string): (s: Status)
    requires WellFormed(d)
    ensures s == Conflict <==> NameInUse(d.categories, name)
    ensures s == Ok <==> !NameInUse(d.categories, name)
  {
    var duplicate := CategoryDetailByName(d, name);
    var existing := SubCategoryName(d, name);
    if duplicate.Some? then
      assert duplicate.value[0] in duplicate.value;
      Conflict
    else if existing.Some? then
      assert existing.value[0] in existing.value;
      Conflict
    else Ok
  }

  /** `addCategory`: both name checks, then one insert of a top-level row. */
  method AddCategory(db: Store, name: string) returns (s: Status)
    requires db.Valid() && IsValidName(name)
    modifies db
    ensures db.Valid()
    ensures s == AddCategoryStatus(old(db.Tables()), name)
    ensures db.Tables() == if s.Ok? then InsertCategory(old(db.Tables()), name, None) else old(db.Tables())
  {
    var duplicate := CategoryDetailByName(db.Tables(), name);
    var existing := SubCategoryName(db.Tables(), name);
    if duplicate.Some? {
      return Conflict;
    }
    if existing.Some? {
      return Conflict;
    }
    var added := AddNewCategoryInDb(db, name);
    if !added {
      // the save always yields a row: the 400 branch cannot be taken
      assert false;
    }
    s := Ok;
  }

  /** After a successful `addCategory`, the same call answers 409. */
  lemma AddCategoryTwiceConflicts(d: Db, name: string)
    requires WellFormed(d) && AddCategoryStatus(d, name) == Ok
    ensures WellFormed(InsertCategory(d, name, None))
    ensures AddCategoryStatus(InsertCategory(d, name, None), name) == Conflict
  {
    InsertCategoryKeepsWellFormed(d, name, None);
    assert InsertCategory(d, name, None).categories[d.nextId].name == name;
  }

  /** A successful `addCategory` keeps the naming rules and every parent. */
  lemma AddCategoryKeepsInvariant(d: Db, name: string)
    requires CategoryInvariant(d) && AddCategoryStatus(d, name) == Ok
    ensures CategoryInvariant(InsertCategory(d, name, None))
    ensures SiblingNamesDistinct(d.categories) ==> SiblingNamesDistinct(InsertCategory(d, name, None).categories)
    ensures ParentsKept(d.categories, InsertCategory(d, name, None).categories)
  {
    InsertCategoryKeepsWellFormed(d, name, None);
    InsertKeepsNamingRules(d.categories, d.nextId, Category(name, None));
  }

  // ---------------------------------------------------------------------
  // addSubCategory

  /** The status `addSubCategory` answers, checks in source order: 404 for
      an unknown parent; 409 when the name is the parent's, a top-level
      name, or already the name of a direct child of that parent. */
  function AddSubCategoryStatus(d: Db, id: Id, name: string): (s: Status)
    requires WellFormed(d)
    ensures s == NotFound <==> id !in d.categories
    ensures s == Conflict <==>
      (&& id in d.categories
       && (|| d.categories[id].name == name
           || (exists x: Id :: IsTopLevelNamed(d.categories, x, name))
           || (exists x: Id :: IsChildNamed(d.categories, x, id, name))))
    ensures s.Ok? || s.NotFound? || s.Conflict?
  {
    var existing := CategoryDetailsById(d, id);
    var duplicate := CategoryDetailByName(d, name);
    var child := SubCategoryNameOfCategoryId(d, id, name);
    if existing.None? then NotFound
    else if d.categories[existing.value[0]].name == name then Conflict
    else if duplicate.Some? then
      assert IsTopLevelNamed(d.categories, duplicate.value[0], name);
      Conflict
    else if child.Some? then
      assert IsChildNamed(d.categories, child.value[0], id, name);
      Conflict
    else Ok
  }

  /** `addSubCategory`: the four checks, then one insert under `id`. */
  method AddSubCategory(db: Store, id: Id, name: string) returns (s: Status)
    requires db.Valid() && IsValidName(name)
    modifies db
    ensures db.Valid()
    ensures s == AddSubCategoryStatus(old(db.Tables()), id, name)
    ensures db.Tables() == if s.Ok? then InsertCategory(old(db.Tables()), name, Some(id)) else old(db.Tables())
  {
    var existing := CategoryDetailsById(db.Tables(), id);
    var duplicate := CategoryDetailByName(db.Tables(), name);
    var child := SubCategoryNameOfCategoryId(db.Tables(), id, name);
    if existing.None? {
      return NotFound;
    }
    if db.categories[existing.value[0]].name == name {
      return Conflict;
    }
    if duplicate.Some? {
      return Conflict;
    }
    if child.Some? {
      return Conflict;
    }
    var added := AddSubCategoryInDb(db, existing.value[0], name);
    if !added {
      assert false;
    }
    s := Ok;
  }

  /** The child check is scoped to `id`: a name used only by children of
      other parents is accepted. */
  lemma AddSubCategoryAcceptsNameOfOtherParentsChild(d: Db, id: Id, name: string, other: Id)
    requires WellFormed(d) && id in d.categories && d.categories[id].name != name
    requires forall x: Id :: x in d.categories && d.categories[x].name == name ==>
      d.categories[x].parent.Some? && d.categories[x].parent != Some(id)
    requires other in d.categories && d.categories[other].name == name
    ensures NameInUse(d.categories, name)
    ensures AddSubCategoryStatus(d, id, name) == Ok
  {
  }

  /** A successful `addSubCategory` keeps the naming rules, sibling names
      included, and every parent. */
  lemma AddSubCategoryKeepsInvariant(d: Db, id: Id, name: string)
    requires CategoryInvariant(d) && AddSubCategoryStatus(d, id, name) == Ok
    ensures CategoryInvariant(InsertCategory(d, name, Some(id)))
    ensures SiblingNamesDistinct(d.categories) ==> SiblingNamesDistinct(InsertCategory(d, name, Some(id)).categories)
    ensures ParentsKept(d.categories, InsertCategory(d, name, Some(id)).categories)
  {
    InsertCategoryKeepsWellFormed(d, name, Some(id));
    InsertKeepsNamingRules(d.categories, d.nextId, Category(name, Some(id)));
  }

  // ---------------------------------------------------------------------
  // updateCategoryName

  /** The parent name a match carries when its parent relation is loaded;
      absent (undefined) for a top-level category. */
  function ParentName(cats: map<Id, Category>, x: Id): Option<string> {
    if x in cats && cats[x].parent.Some? && cats[x].parent.value in cats
    then Some(cats[cats[x].parent.value].name) else None
  }

  /** The callback of `.some`: a match named `name` whose parent is `id`,
      which is not `id` itself, and whose parent is not already named
      `name`. */
  predicate ConflictingChild(cats: map<Id, Category>, x: Id, id: Id, name: string) {
    && x in cats
    && cats[x].name == name
    && cats[x].parent == Some(id)
    && x != id
    && ParentName(cats, x) != Some(name)
  }

  /** `.some(...)` over the matches. */
  function AnyConflictingChild(cats: map<Id, Category>, xs: seq<Id>, id: Id, name: string): (b: bool)
    ensures b <==> exists x: Id :: x in xs && ConflictingChild(cats, x, id, name)
    decreases |xs|
  {
    if xs == [] then false
    else
      assert forall x: Id :: x in xs <==> x == xs[0] || x in xs[1..];
      ConflictingChild(cats, xs[0], id, name) || AnyConflictingChild(cats, xs[1..], id, name)
  }

  /** The parent of `id` is named `name`. */
  ghost predicate ParentHasName(cats: map<Id, Category>, id: Id, name: string)
    requires id in cats
  {
    cats[id].parent.Some? && cats[id].parent.value in cats && cats[cats[id].parent.value].name == name
  }

  /** A top-level category other than `id` is named `name` and is the first
      one found: the first by id, unless `id` itself is a top-level
      category of that name. */
  ghost predicate OtherTopLevelHasName(cats: map<Id, Category>, id: Id, name: string) {
    exists x: Id :: IsTopLevelNamed(cats, x, name) && x != id && (x < id || !IsTopLevelNamed(cats, id, name))
  }

  /** A child of `id` is named `name`, and `id` is not named so itself. */
  ghost predicate ChildHasName(cats: map<Id, Category>, id: Id, name: string)
    requires id in cats
  {
    cats[id].name != name && exists x: Id :: IsChildNamed(cats, x, id, name)
  }

  /** When renaming `id` to `name` is refused, stated over the table. */
  ghost predicate RenameConflict(cats: map<Id, Category>, id: Id, name: string)
    requires id in cats
  {
    ParentHasName(cats, id, name) || OtherTopLevelHasName(cats, id, name) || ChildHasName(cats, id, name)
  }

  /** The first check: the loaded parent has the new name. */
  predicate ParentCheck(d: Db, id: Id, name: string)
    requires WellFormed(d) && id in d.categories
  {
    d.categories[id].parent.Some? &&
    (var parent := CategoryDetailsById(d, d.categories[id].parent.value);
     parent.Some? && d.categories[parent.value[0]].name == name)
  }

  /** The second check: the first top-level match is not `id`. */
  predicate TopLevelCheck(d: Db, id: Id, name: string)
    requires WellFormed(d)
  {
    var duplicate := CategoryDetailByName(d, name);
    duplicate.Some? && duplicate.value[0] != id
  }

  /** The third check: the first match at any level has a parent, and
      `.some` finds a conflicting child. */
  predicate ChildCheck(d: Db, id: Id, name: string)
    requires WellFormed(d)
  {
    var named := SubCategoryName(d, name);
    named.Some? && d.categories[named.value[0]].parent.Some? && AnyConflictingChild(d.categories, named.value, id, name)
  }

  /** The status `updateCategoryName` answers: 404 for an unknown id, 409
      when one of the three checks fires, in source order, otherwise 200. */
  function UpdateCategoryNameStatus(d: Db, id: Id, name: string): (s: Status)
    requires WellFormed(d)
    ensures s == NotFound <==> id !in d.categories
    ensures s.Ok? || s.NotFound? || s.Conflict?
  {
    if CategoryDetailsById(d, id).None? then NotFound
    else if ParentCheck(d, id, name) then Conflict
    else if TopLevelCheck(d, id, name) then Conflict
    else if ChildCheck(d, id, name) then Conflict
    else Ok
  }

  lemma ParentCheckMeaning(d: Db, id: Id, name: string)
    requires WellFormed(d) && id in d.categories
    ensures ParentCheck(d, id, name) <==> ParentHasName(d.categories, id, name)
  {
  }

  /** The second check in table terms. */
  lemma TopLevelCheckMeaning(d: Db, id: Id, name: string)
    requires WellFormed(d) && id in d.categories
    ensures TopLevelCheck(d, id, name) <==> OtherTopLevelHasName(d.categories, id, name)
  {
    var dup := CategoryDetailByName(d, name);
    if dup.Some? {
      var first := dup.value[0];
      assert first in dup.value;
      if IsTopLevelNamed(d.categories, id, name) && first == id {
        forall x: Id | IsTopLevelNamed(d.categories, x, name) && x != id
          ensures !(x < id)
        {
          var i :| 0 <= i < |dup.value| && dup.value[i] == x;
          assert i > 0;
        }
      }
      if first != id {
        assert IsTopLevelNamed(d.categories, first, name);
      }
    }
  }

  /** A top-level category named `name` makes the top-level finder answer,
      and its first match is a top-level category of that name. */
  lemma TopLevelMatchFound(d: Db, name: string, x: Id)
    requires WellFormed(d)
    ensures IsTopLevelNamed(d.categories, x, name) ==>
      CategoryDetailByName(d, name).Some? &&
      IsTopLevelNamed(d.categories, CategoryDetailByName(d, name).value[0], name)
  {
    var dup := CategoryDetailByName(d, name);
    if IsTopLevelNamed(d.categories, x, name) {
      assert x in dup.value;
      assert dup.value[0] in dup.value;
    }
  }

  /** Past the second check, and when `id` is not named `name`, the first
      match at any level has a parent. */
  lemma FirstMatchHasParent(d: Db, id: Id, name: string)
    requires WellFormed(d) && id in d.categories && d.categories[id].name != name
    requires !TopLevelCheck(d, id, name) && SubCategoryName(d, name).Some?
    ensures d.categories[SubCategoryName(d, name).value[0]].parent.Some?
  {
    var named := SubCategoryName(d, name);
    var f := named.value[0];
    assert f in named.value;
    TopLevelMatchFound(d, name, f);
  }

  /** Past the second check, the guard on the first match never hides a
      conflicting child: a first match without a parent would be a
      top-level category of that name, which can then only be `id` under
      its current name. */
  lemma ChildCheckMeaning(d: Db, id: Id, name: string)
    requires WellFormed(d) && id in d.categories && !TopLevelCheck(d, id, name)
    ensures ChildCheck(d, id, name) <==> ChildHasName(d.categories, id, name)
  {
    var cats := d.categories;
    var named := SubCategoryName(d, name);
    if ChildHasName(cats, id, name) {
      var x: Id :| IsChildNamed(cats, x, id, name);
      assert ConflictingChild(cats, x, id, name);
      assert x in named.value;
      FirstMatchHasParent(d, id, name);
    }
    if ChildCheck(d, id, name) {
      var x: Id :| x in named.value && ConflictingChild(cats, x, id, name);
      assert IsChildNamed(cats, x, id, name);
    }
  }

  /** `updateCategoryName` answers 409 exactly when the rename conflicts. */
  lemma UpdateCategoryNameConflicts(d: Db, id: Id, name: string)
    requires WellFormed(d) && id in d.categories
    ensures UpdateCategoryNameStatus(d, id, name) == Conflict <==> RenameConflict(d.categories, id, name)
    ensures UpdateCategoryNameStatus(d, id, name) == Ok <==> !RenameConflict(d.categories, id, name)
  {
    ParentCheckMeaning(d, id, name);
    TopLevelCheckMeaning(d, id, name);
    if !TopLevelCheck(d, id, name) {
      ChildCheckMeaning(d, id, name);
    }
  }

  /** `updateCategoryName`: the three checks in source order, then the
      rename. */
  method UpdateCategoryName(db: Store, id: Id, name: string) returns (s: Status)
    requires db.Valid() && IsValidName(name)
    modifies db
    ensures db.Valid()
    ensures s == UpdateCategoryNameStatus(old(db.Tables()), id, name)
    ensures db.Tables() == if s.Ok? then RenameCategory(old(db.Tables()), id, name) else old(db.Tables())
  {
    var d := db.Tables();
    var existing := CategoryDetailsById(d, id);
    var duplicate := CategoryDetailByName(d, name);
    var named := SubCategoryName(d, name);
    if existing.None? {
      return NotFound;
    }
    var category := db.categories[existing.value[0]];
    if category.parent.Some? {
      var parent := CategoryDetailsById(d, category.parent.value);
      if parent.Some? && db.categories[parent.value[0]].name == name {
        assert ParentCheck(d, id, name);
        return Conflict;
      }
    }
    assert !ParentCheck(d, id, name);
    if duplicate.Some? && duplicate.value[0] != id {
      assert TopLevelCheck(d, id, name);
      return Conflict;
    }
    assert !TopLevelCheck(d, id, name);
    if named.Some? && db.categories[named.value[0]].parent.Some? {
      var conflicting := AnyConflictingChild(db.categories, named.value, id, name);
      if conflicting {
        assert ChildCheck(d, id, name);
        return Conflict;
      }
    }
    assert !ChildCheck(d, id, name);
    var updated := UpdateCategoryNameInDb(db, id, name);
    if !updated {
      assert false;
    }
    s := Ok;
  }

  /** A top-level category may be renamed to its own current name. */
  lemma RenameToOwnTopLevelName(d: Db, id: Id, name: string)
    requires CategoryInvariant(d) && IsTopLevelNamed(d.categories, id, name)
    ensures UpdateCategoryNameStatus(d, id, name) == Ok
  {
    UpdateCategoryNameConflicts(d, id, name);
  }

  /** A successful rename changes the name of row `id` and nothing else. */
  lemma RenameChangesOnlyName(d: Db, id: Id, name: string)
    requires WellFormed(d) && UpdateCategoryNameStatus(d, id, name) == Ok
    ensures var e := RenameCategory(d, id, name);
      && e.categories.Keys == d.categories.Keys
      && e.categories[id] == Category(name, d.categories[id].parent)
      && (forall x: Id :: x in d.categories && x != id ==> e.categories[x] == d.categories[x])
      && e.products == d.products && e.attributes == d.attributes && e.nextId == d.nextId
  {
  }

  /** Under the naming rules, a rename is refused exactly when the parent
      has the name, another top-level category has it, or a child of `id`
      has it: the order of the matches no longer matters. */
  lemma RenameConflictUnderInvariant(d: Db, id: Id, name: string)
    requires CategoryInvariant(d) && id in d.categories
    ensures UpdateCategoryNameStatus(d, id, name) == Conflict <==>
      || (d.categories[id].parent.Some? && d.categories[d.categories[id].parent.value].name == name)
      || (exists x: Id :: IsTopLevelNamed(d.categories, x, name) && x != id)
      || (exists x: Id :: IsChildNamed(d.categories, x, id, name))
  {
    UpdateCategoryNameConflicts(d, id, name);
    var cats := d.categories;
    if exists x: Id :: IsChildNamed(cats, x, id, name) {
      var x: Id :| IsChildNamed(cats, x, id, name);
      assert cats[x].name != cats[id].name;
    }
  }

  /** Under the naming rules, a rename that does not conflict leaves the
      new name unused by the other top-level categories (when `id` is one),
      by the parent and by the children of `id`. */
  lemma NoRenameConflict(cats: map<Id, Category>, id: Id, name: string)
    requires TopLevelNamesDistinct(cats) && NoChildNamedLikeParent(cats)
    requires id in cats && (cats[id].parent.Some? ==> cats[id].parent.value in cats)
    requires !RenameConflict(cats, id, name)
    ensures cats[id].parent.None? ==>
      forall x: Id :: x in cats && x != id && cats[x].parent.None? ==> cats[x].name != name
    ensures cats[id].parent.Some? ==> cats[cats[id].parent.value].name != name
    ensures forall x: Id :: x in cats && x != id && cats[x].parent == Some(id) ==> cats[x].name != name
  {
    forall x: Id | x in cats && x != id && cats[x].parent.None? && cats[id].parent.None?
      ensures cats[x].name != name
    {
      assert cats[x].name != cats[id].name;
      assert IsTopLevelNamed(cats, x, name) == (cats[x].name == name);
    }
    forall x: Id | x in cats && x != id && cats[x].parent == Some(id)
      ensures cats[x].name != name
    {
      assert cats[x].name != cats[id].name;
      assert IsChildNamed(cats, x, id, name) == (cats[x].name == name);
    }
  }

  /** A successful rename keeps the naming rules and every parent. */
  lemma UpdateCategoryNameKeepsInvariant(d: Db, id: Id, name: string)
    requires CategoryInvariant(d) && UpdateCategoryNameStatus(d, id, name) == Ok
    ensures CategoryInvariant(RenameCategory(d, id, name))
    ensures ParentsKept(d.categories, RenameCategory(d, id, name).categories)
  {
    RenameCategoryKeepsWellFormed(d, id, name);
    UpdateCategoryNameConflicts(d, id, name);
    NoRenameConflict(d.categories, id, name);
    RenameKeepsNamingRules(d.categories, id, name);
  }

  // ---------------------------------------------------------------------
  // deleteCategoryDetails and fetchAllCategoryAndSubCategoryDetails

  /** The status `deleteCategoryDetails` answers: 404 for an unknown id,
      otherwise the delete removes the row and the answer is 200. */
  function DeleteCategoryDetailsStatus(d: Db, id: Id): (s: Status)
    requires WellFormed(d)
    ensures s == NotFound <==> id !in d.categories
    ensures s == Ok <==> id in d.categories
  {
    if CategoryDetailsById(d, id).None? then NotFound else Ok
  }

  /** `deleteCategoryDetails`: the existence check, then the cascading
      delete. */
  method DeleteCategoryDetails(db: Store, id: Id) returns (s: Status)
    requires db.Valid()
    modifies db
    ensures db.Valid()
    ensures s == DeleteCategoryDetailsStatus(old(db.Tables()), id)
    ensures db.Tables() == if s.Ok? then DeleteCategoryCascade(old(db.Tables()), id) else old(db.Tables())
  {
    var existing := CategoryDetailsById(db.Tables(), id);
    if existing.None? {
      return NotFound;
    }
    var deleted := DeleteCategoryDetailsInDb(db, id);
    if !deleted {
      assert false;
    }
    s := Ok;
  }

  /** A delete keeps the naming rules, sibling names included, and the
      parent of every surviving category. */
  lemma DeleteCategoryKeepsInvariant(d: Db, id: Id)
    requires CategoryInvariant(d)
    ensures CategoryInvariant(DeleteCategoryCascade(d, id))
    ensures SiblingNamesDistinct(d.categories) ==> SiblingNamesDistinct(DeleteCategoryCascade(d, id).categories)
    ensures ParentsKept(d.categories, DeleteCategoryCascade(d, id).categories)
  {
    DeleteCategoryCascadeEffect(d, id);
  }

  /** `fetchAllCategoryAndSubCategoryDetails`: 404 for an unknown id,
      otherwise 200 with `id` and all of its descendants, each once. */
  method FetchAllCategoryAndSubCategoryDetails(db: Store, id: Id) returns (s: Status, r: Option<seq<Id>>)
    requires db.Valid()
    ensures s == NotFound <==> id !in db.categories
    ensures s == Ok <==> id in db.categories
    ensures r.Some? <==> s == Ok
    ensures r.Some? ==> |r.value| > 0 && r.value[0] == id && Distinct(r.value)
    ensures r.Some? ==> forall x: Id :: x in r.value <==> x in db.categories && InSubtree(db.categories, x, id)
  {
    r := FetchAllCategoryAndSubCategoryDetailsById(db.Tables(), id);
    if r.None? {
      return NotFound, r;
    }
    s := Ok;
  }

  // ---------------------------------------------------------------------
  // Siblings.

  /** A store with categories 1 and 2 both children of 0. */
  function SiblingExample(): Db {
    Db(map[0 := Category("abc", None), 1 := Category("def", Some(0)), 2 := Category("ghi", Some(0))], map[], map[], 3)
  }

  lemma SiblingExampleKeepsRules()
    ensures CategoryInvariant(SiblingExample())
    ensures SiblingNamesDistinct(SiblingExample().categories)
  {
    var d := SiblingExample();
    var cats := d.categories;
    assert cats.Keys == {0, 1, 2};
    assert WellFormed(d);
    forall x: Id, y: Id | x in cats && y in cats && x != y
      ensures cats[x].name != cats[y].name
    {
      assert cats[0].name[0] == 'a' && cats[1].name[0] == 'd' && cats[2].name[0] == 'g';
    }
  }

  /** Renaming as written accepts a name a sibling already has: category 2
      may be renamed to the name of its sibling 1, after which the two
      children of 0 share a name. */
  lemma RenameAllowsSiblingDuplicate()
    ensures CategoryInvariant(SiblingExample()) && SiblingNamesDistinct(SiblingExample().categories)
    ensures UpdateCategoryNameStatus(SiblingExample(), 2, "def") == Ok
    ensures !SiblingNamesDistinct(RenameCategory(SiblingExample(), 2, "def").categories)
  {
    var d := SiblingExample();
    var cats := d.categories;
    SiblingExampleKeepsRules();
    assert cats.Keys == {0, 1, 2};
    assert cats[0].name != "def";
    assert !OtherTopLevelHasName(cats, 2, "def");
    assert !ChildHasName(cats, 2, "def");
    UpdateCategoryNameConflicts(d, 2, "def");
    var after := RenameCategory(d, 2, "def").categories;
    assert after[1].name == after[2].name && after[1].parent == after[2].parent == Some(0);
  }

  /** The sibling check the hierarchy's rules call for: another child of
      the same parent already has the name. */
  predicate SiblingCheck(d: Db, id: Id, name: string)
    requires WellFormed(d) && id in d.categories
  {
    var parent := d.categories[id].parent;
    parent.Some? &&
    (var siblings := SubCategoryNameOfCategoryId(d, parent.value, name);
     siblings.Some? && (siblings.value[0] != id || |siblings.value| > 1))
  }

  /** A sibling of `id` is named `name`. */
  ghost predicate SiblingHasName(cats: map<Id, Category>, id: Id, name: string)
    requires id in cats
  {
    cats[id].parent.Some? && exists x: Id :: IsChildNamed(cats, x, cats[id].parent.value, name) && x != id
  }

  /** `updateCategoryName` with the sibling check added after the three
      checks of the source. */
  function UpdateCategoryNameStatusWithSiblingCheck(d: Db, id: Id, name: string): (s: Status)
    requires WellFormed(d)
    ensures s == NotFound <==> id !in d.categories
    ensures s.Ok? || s.NotFound? || s.Conflict?
  {
    var s := UpdateCategoryNameStatus(d, id, name);
    if s != Ok then s
    else if SiblingCheck(d, id, name) then Conflict
    else Ok
  }

  lemma SiblingCheckMeaning(d: Db, id: Id, name: string)
    requires WellFormed(d) && id in d.categories
    ensures SiblingCheck(d, id, name) <==> SiblingHasName(d.categories, id, name)
  {
    var parent := d.categories[id].parent;
    if parent.Some? {
      var siblings := SubCategoryNameOfCategoryId(d, parent.value, name);
      if siblings.Some? {
        var xs := siblings.value;
        if xs[0] != id {
          assert xs[0] in xs;
          assert IsChildNamed(d.categories, xs[0], parent.value, name) && xs[0] != id;
        } else if |xs| > 1 {
          AscendingFirstTwo(xs);
          assert IsChildNamed(d.categories, xs[1], parent.value, name) && xs[1] != id;
        } else {
          assert forall x :: x in xs ==> x == id;
        }
      }
    }
  }

  /** With the sibling check, a rename is refused exactly when it
      conflicts as before or a sibling already has the name. */
  lemma UpdateCategoryNameWithSiblingCheckConflicts(d: Db, id: Id, name: string)
    requires WellFormed(d) && id in d.categories
    ensures UpdateCategoryNameStatusWithSiblingCheck(d, id, name) == Conflict <==>
      RenameConflict(d.categories, id, name) || SiblingHasName(d.categories, id, name)
  {
    UpdateCategoryNameConflicts(d, id, name);
    SiblingCheckMeaning(d, id, name);
  }

  /** With the sibling check, a successful rename keeps every naming rule,
      sibling names included. */
  lemma RenameWithSiblingCheckKeepsInvariant(d: Db, id: Id, name: string)
    requires CategoryInvariant(d) && SiblingNamesDistinct(d.categories)
    requires UpdateCategoryNameStatusWithSiblingCheck(d, id, name) == Ok
    ensures CategoryInvariant(RenameCategory(d, id, name))
    ensures SiblingNamesDistinct(RenameCategory(d, id, name).categories)
  {
    UpdateCategoryNameKeepsInvariant(d, id, name);
    UpdateCategoryNameWithSiblingCheckConflicts(d, id, name);
    RenameKeepsSiblingNamesDistinct(d.categories, id, name);
  }
}
