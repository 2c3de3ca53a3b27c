/** The attribute repository: finders over `attributes` and the writers
    that insert a row and update or delete the row matching both an
    attribute id and a product id. */
module AttributeRepository {
  import opened Catalog
  import opened Schema
  import opened CatalogStore

  // ---------------------------------------------------------------------
  // Finders.

  /** `fetchAttributeDataByIdInDb`: the attribute with primary key `id`. */
  function FetchAttributeDataById(d: Db, id: Id): (r: Option<seq<Id>>)
    requires WellFormed(d)
    ensures r.Some? <==> id in d.attributes
    ensures r.Some? ==> r.value == [id]
  {
    var keep := (x: Id) => x == id && x in d.attributes;
    assert forall x: Id :: keep(x) == (x == id && x in d.attributes);
    var r := Select(d.nextId, keep);
    if r.Some? then AscendingSingleton(r.value, id); r else r
  }

  /** `fetchAttributeDataWithKeyAndIdInDb`: attribute `id`, provided its key
      is `key`. */
  function FetchAttributeDataWithKeyAndId(d: Db, id: Id, key: string): (r: Option<seq<Id>>)
    requires WellFormed(d)
    ensures r.Some? <==> id in d.attributes && d.attributes[id].key == key
    ensures r.Some? ==> r.value == [id]
  {
    var keep := (x: Id) => x == id && x in d.attributes && d.attributes[x].key == key;
    assert forall x: Id :: keep(x) == (x == id && x in d.attributes && d.attributes[x].key == key);
    var r := Select(d.nextId, keep);
    if r.Some? then AscendingSingleton(r.value, id); r else r
  }

  /** `fetchAttributeDataWithKeyAndProductIdInDb`: the attributes of product
      `productId` whose key is exactly `key`. */
  function FetchAttributeDataWithKeyAndProductId(d: Db, productId: Id, key: string): (r: Option<seq<Id>>)
    requires WellFormed(d)
    ensures r.Some? ==> r.value != [] && Ascending(r.value)
    ensures forall x: Id :: (r.Some? && x in r.value) <==>
      (x in d.attributes && d.attributes[x].product == productId && d.attributes[x].key == key)
  {
    var keep := (x: Id) => x in d.attributes && d.attributes[x].product == productId && d.attributes[x].key == key;
    assert forall x: Id :: keep(x) == (x in d.attributes && d.attributes[x].product == productId && d.attributes[x].key == key);
    Select(d.nextId, keep)
  }

  /** `fetchProductDetailsWithAttributeIdAndProductId`: attribute
      `attributeId`, provided it belongs to product `productId`. */
  function FetchProductDetailsWithAttributeIdAndProductId(d: Db, productId: Id, attributeId: Id): (r: Option<seq<Id>>)
    requires WellFormed(d)
    ensures r.Some? <==> attributeId in d.attributes && d.attributes[attributeId].product == productId
    ensures r.Some? ==> r.value == [attributeId]
  {
    var keep := (x: Id) => x == attributeId && x in d.attributes && d.attributes[x].product == productId;
    assert forall x: Id :: keep(x) == (x == attributeId && x in d.attributes && d.attributes[x].product == productId);
    var r := Select(d.nextId, keep);
    if r.Some? then AscendingSingleton(r.value, attributeId); r else r
  }

  // ---------------------------------------------------------------------
  // What the writers do to the tables, as values.

  /** A new attribute row at the next fresh id, linked to `productId`. */
  function InsertAttribute(d: Db, productId: Id, key: string, value: string): Db {
    d.(attributes := d.attributes[d.nextId := Attribute(productId, key, value)], nextId := d.nextId + 1)
  }

  /** Row `id` with a new key and value; its product link is kept. */
  function ChangeAttribute(d: Db, id: Id, key: string, value: string): Db
    requires id in d.attributes
  {
    d.(attributes := d.attributes[id := d.attributes[id].(key := key, value := value)])
  }

  /** The store without attribute row `id`. */
  function RemoveAttribute(d: Db, id: Id): Db {
    d.(attributes := d.attributes - {id})
  }

  /** The row matching both the attribute id and the product id, which is
      what the update and delete criteria `{ id, product: { id } }` select. */
  predicate LinkedAttribute(d: Db, id: Id, productId: Id) {
    id in d.attributes && d.attributes[id].product == productId
  }

  lemma InsertAttributeKeepsWellFormed(d: Db, productId: Id, key: string, value: string)
    requires WellFormed(d) && productId in d.products
    ensures WellFormed(InsertAttribute(d, productId, key, value))
    ensures d.nextId !in d.attributes
  {
  }

  lemma ChangeAttributeKeepsWellFormed(d: Db, id: Id, key: string, value: string)
    requires WellFormed(d) && id in d.attributes
    ensures WellFormed(ChangeAttribute(d, id, key, value))
  {
  }

  lemma RemoveAttributeKeepsWellFormed(d: Db, id: Id)
    requires WellFormed(d)
    ensures WellFormed(RemoveAttribute(d, id))
  {
  }

  // ---------------------------------------------------------------------
  // Writers.

  /** `addNewAttributeInDb`: saves one attribute linked to `productId`; the
      saved row always has an id, so the result is true. The foreign key
      makes an unknown product an error, which the callers rule out first. */
  method AddNewAttributeInDb(db: Store, productId: Id, key: string, value: string) returns (ok: bool)
    requires db.Valid() && productId in db.products
    modifies db
    ensures db.Valid() && ok
    ensures db.Tables() == InsertAttribute(old(db.Tables()), productId, key, value)
  {
    InsertAttributeKeepsWellFormed(db.Tables(), productId, key, value);
    db.attributes := db.attributes[db.nextId := Attribute(productId, key, value)];
    db.nextId := db.nextId + 1;
    ok := true;
  }

  /** `updateAttributeDataInDb`: true iff a row matches both ids, in which
      case only its key and value change; otherwise nothing changes. */
  method UpdateAttributeDataInDb(db: Store, id: Id, productId: Id, key: string, value: string) returns (ok: bool)
    requires db.Valid()
    modifies db
    ensures db.Valid()
    ensures ok == LinkedAttribute(old(db.Tables()), id, productId)
    ensures db.Tables() == if ok then ChangeAttribute(old(db.Tables()), id, key, value) else old(db.Tables())
  {
    if !(id in db.attributes && db.attributes[id].product == productId) {
      return false;
    }
    ChangeAttributeKeepsWellFormed(db.Tables(), id, key, value);
    db.attributes := db.attributes[id := db.attributes[id].(key := key, value := value)];
    ok := true;
  }

  /** `deleteAttributeDataFromDb`: true iff a row matches both ids, in which
      case exactly that row is removed; otherwise nothing changes. */
  method DeleteAttributeDataFromDb(db: Store, productId: Id, attributeId: Id) returns (ok: bool)
    requires db.Valid()
    modifies db
    ensures db.Valid()
    ensures ok == LinkedAttribute(old(db.Tables()), attributeId, productId)
    ensures db.Tables() == if ok then RemoveAttribute(old(db.Tables()), attributeId) else old(db.Tables())
  {
    if !(attributeId in db.attributes && db.attributes[attributeId].product == productId) {
      return false;
    }
    RemoveAttributeKeepsWellFormed(db.Tables(), attributeId);
    db.attributes := db.attributes - {attributeId};
    ok := true;
  }
}
