/** The attribute service: the check chains of `addNewAttribute`,
    `updateAttribute` and `deleteAttribute`, and the rule that attribute keys
    are unique within a product. */
module AttributeService {
  import opened Catalog
  import opened Schema
  import opened CatalogStore
  import opened ProductRepository
  import opened AttributeRepository

  // ---------------------------------------------------------------------
  // Key rule.

  /** No two attributes of the same product share a key. */
  ghost predicate KeysUnique(attributes: map<Id, Attribute>) {
    forall x: Id, y: Id ::
      (x in attributes && y in attributes && x != y && attributes[x].product == attributes[y].product)
      ==> attributes[x].key != attributes[y].key
  }

  /** Some attribute of product `productId` has key `key`. */
  ghost predicate KeyUsedBy(attributes: map<Id, Attribute>, productId: Id, key: string) {
    exists x: Id :: x in attributes && attributes[x].product == productId && attributes[x].key == key
  }

  // ---------------------------------------------------------------------
  // addNewAttribute

  /** The status `addNewAttribute` answers: 404 for an unknown product, 409
      when that product already has an attribute with that key, otherwise
      200. */
  function AddNewAttributeStatus(d: Db, productId: Id, key: string): (s: Status)
    requires WellFormed(d)
    ensures s == NotFound <==> productId !in d.products
    ensures s == Conflict <==> productId in d.products && KeyUsedBy(d.attributes, productId, key)
    ensures s == Ok <==> productId in d.products && !KeyUsedBy(d.attributes, productId, key)
  {
    var productDetails := ProductDetailsById(d, productId);
    var existingAttributeKey := FetchAttributeDataWithKeyAndProductId(d, productId, key);
    if productDetails.None? then NotFound
    else if existingAttributeKey.Some? then
      assert existingAttributeKey.value[0] in existingAttributeKey.value;
      Conflict
    else Ok
  }

  /** `addNewAttribute`: both lookups, then one insert linked to the
      product. */
  method AddNewAttribute(db: Store, productId: Id, key: string, value: string) returns (s: Status)
    requires db.Valid() && IsValidName(key) && IsValidValue(value)
    modifies db
    ensures db.Valid()
    ensures s == AddNewAttributeStatus(old(db.Tables()), productId, key)
    ensures db.Tables() == if s.Ok? then InsertAttribute(old(db.Tables()), productId, key, value) else old(db.Tables())
  {
    var productDetails := ProductDetailsById(db.Tables(), productId);
    var existingAttributeKey := FetchAttributeDataWithKeyAndProductId(db.Tables(), productId, key);
    if productDetails.None? {
      return NotFound;
    }
    if existingAttributeKey.Some? {
      return Conflict;
    }
    var inserted := AddNewAttributeInDb(db, productId, key, value);
    if !inserted {
      // the save always yields a row: the 400 branch cannot be taken
      assert false;
    }
    s := Ok;
  }

  /** After a successful `addNewAttribute`, the same call answers 409. */
  lemma AddNewAttributeTwiceConflicts(d: Db, productId: Id, key: string, value: string)
    requires WellFormed(d) && AddNewAttributeStatus(d, productId, key) == Ok
    ensures WellFormed(InsertAttribute(d, productId, key, value))
    ensures AddNewAttributeStatus(InsertAttribute(d, productId, key, value), productId, key) == Conflict
  {
    InsertAttributeKeepsWellFormed(d, productId, key, value);
    var e := InsertAttribute(d, productId, key, value);
    assert e.attributes[d.nextId].product == productId && e.attributes[d.nextId].key == key;
  }

  /** A key used by another product does not stop `addNewAttribute`. */
  lemma AddNewAttributeAcceptsKeyOfOtherProduct(d: Db, productId: Id, key: string, other: Id)
    requires WellFormed(d) && AddNewAttributeStatus(d, productId, key) == Ok
    requires other in d.attributes && d.attributes[other].key == key
    ensures d.attributes[other].product != productId
  {
  }

  /** A successful `addNewAttribute` (the product exists and has no attribute
      with that key, which is when it answers 200) keeps keys unique per
      product and leaves every other attribute as it was. */
  lemma AddNewAttributeKeepsKeysUnique(d: Db, productId: Id, key: string, value: string)
    requires WellFormed(d) && KeysUnique(d.attributes)
    requires productId in d.products && !KeyUsedBy(d.attributes, productId, key)
    ensures KeysUnique(InsertAttribute(d, productId, key, value).attributes)
    ensures InsertAttribute(d, productId, key, value).attributes.Keys == d.attributes.Keys + {d.nextId}
    ensures forall x: Id :: x in d.attributes ==> InsertAttribute(d, productId, key, value).attributes[x] == d.attributes[x]
  {
    InsertAttributeKeepsWellFormed(d, productId, key, value);
    var a := Attribute(productId, key, value);
    assert InsertAttribute(d, productId, key, value).attributes == d.attributes[d.nextId := a];
    InsertKeepsKeysUnique(d.attributes, d.nextId, a);
  }

  /** A new row whose key is unused by its product keeps keys unique. */
  lemma InsertKeepsKeysUnique(attributes: map<Id, Attribute>, k: Id, a: Attribute)
    requires k !in attributes && KeysUnique(attributes)
    requires forall x: Id :: x in attributes && attributes[x].product == a.product ==> attributes[x].key != a.key
    ensures KeysUnique(attributes[k := a])
  {
  }

  // ---------------------------------------------------------------------
  // updateAttribute

  /** An attribute of product `productId` other than `attributeId` with key
      `key` is the first match: the first by id, unless `attributeId` itself
      already has that key. */
  ghost predicate KeyClash(attributes: map<Id, Attribute>, attributeId: Id, productId: Id, key: string)
    requires attributeId in attributes
  {
    exists x: Id :: x in attributes && x != attributeId && attributes[x].product == productId && attributes[x].key == key &&
      (x < attributeId || attributes[attributeId].key != key)
  }

  /** The third check: the attribute is not linked to the product. */
  predicate LinkCheck(d: Db, attributeId: Id, productId: Id)
    requires WellFormed(d)
  {
    FetchProductDetailsWithAttributeIdAndProductId(d, productId, attributeId).None?
  }

  /** The fourth check: the first attribute of the product with the new key
      is not `attributeId`. */
  predicate KeyCheck(d: Db, attributeId: Id, productId: Id, key: string)
    requires WellFormed(d)
  {
    var existingAttributeKey := FetchAttributeDataWithKeyAndProductId(d, productId, key);
    existingAttributeKey.Some? && existingAttributeKey.value[0] != attributeId
  }

  /** The status `updateAttribute` answers: 404 for an unknown product, 404
      for an unknown attribute, 409 when one of the two checks fires, in
      source order, otherwise 200. */
  function UpdateAttributeStatus(d: Db, attributeId: Id, productId: Id, key: string): (s: Status)
    requires WellFormed(d)
    ensures s == NotFound <==> productId !in d.products || attributeId !in d.attributes
    ensures productId in d.products && attributeId in d.attributes && !LinkedAttribute(d, attributeId, productId) ==>
      s == Conflict
    ensures s.Ok? || s.NotFound? || s.Conflict?
  {
    if ProductDetailsById(d, productId).None? then NotFound
    else if FetchAttributeDataById(d, attributeId).None? then NotFound
    else if LinkCheck(d, attributeId, productId) then Conflict
    else if KeyCheck(d, attributeId, productId, key) then Conflict
    else Ok
  }

  /** The key check in table terms, for a linked attribute. */
  lemma KeyCheckMeaning(d: Db, attributeId: Id, productId: Id, key: string)
    requires WellFormed(d) && LinkedAttribute(d, attributeId, productId)
    ensures KeyCheck(d, attributeId, productId, key) <==> KeyClash(d.attributes, attributeId, productId, key)
  {
    var existing := FetchAttributeDataWithKeyAndProductId(d, productId, key);
    if existing.Some? {
      var first := existing.value[0];
      assert first in existing.value;
      if d.attributes[attributeId].key == key && first == attributeId {
        forall x: Id | x in d.attributes && x != attributeId && d.attributes[x].product == productId && d.attributes[x].key == key
          ensures !(x < attributeId)
        {
          var i :| 0 <= i < |existing.value| && existing.value[i] == x;
          assert i > 0;
        }
      }
    }
  }

  /** For an existing product and attribute, `updateAttribute` answers 409
      exactly when the attribute is not the product's or the new key
      clashes, and 200 otherwise. */
  lemma UpdateAttributeConflicts(d: Db, attributeId: Id, productId: Id, key: string)
    requires WellFormed(d) && productId in d.products && attributeId in d.attributes
    ensures UpdateAttributeStatus(d, attributeId, productId, key) == Conflict <==>
      !LinkedAttribute(d, attributeId, productId) || KeyClash(d.attributes, attributeId, productId, key)
    ensures UpdateAttributeStatus(d, attributeId, productId, key) == Ok <==>
      LinkedAttribute(d, attributeId, productId) && !KeyClash(d.attributes, attributeId, productId, key)
  {
    if LinkedAttribute(d, attributeId, productId) {
      KeyCheckMeaning(d, attributeId, productId, key);
    }
  }

  /** With unique keys, a linked attribute's update answers 409 exactly when
      another attribute of the product has the new key; so keeping its own
      key is allowed. */
  lemma UpdateAttributeConflictsUnderInvariant(d: Db, attributeId: Id, productId: Id, key: string)
    requires WellFormed(d) && KeysUnique(d.attributes) && LinkedAttribute(d, attributeId, productId)
    ensures UpdateAttributeStatus(d, attributeId, productId, key) == Conflict <==>
      exists x: Id :: x in d.attributes && x != attributeId && d.attributes[x].product == productId && d.attributes[x].key == key
    ensures key == d.attributes[attributeId].key ==> UpdateAttributeStatus(d, attributeId, productId, key) == Ok
  {
    UpdateAttributeConflicts(d, attributeId, productId, key);
    var attributes := d.attributes;
    if exists x: Id :: x in attributes && x != attributeId && attributes[x].product == productId && attributes[x].key == key {
      var x: Id :| x in attributes && x != attributeId && attributes[x].product == productId && attributes[x].key == key;
      assert attributes[x].key != attributes[attributeId].key;
    }
  }

  /** `updateAttribute`: the lookups, the two checks in source order, then
      the update of the row matching both ids. */
  method UpdateAttribute(db: Store, attributeId: Id, productId: Id, key: string, value: string) returns (s: Status)
    requires db.Valid() && IsValidName(key) && IsValidValue(value)
    modifies db
    ensures db.Valid()
    ensures s == UpdateAttributeStatus(old(db.Tables()), attributeId, productId, key)
    ensures db.Tables() == if s.Ok? then ChangeAttribute(old(db.Tables()), attributeId, key, value) else old(db.Tables())
  {
    var d := db.Tables();
    var productDetails := ProductDetailsById(d, productId);
    var attributeDetails := FetchAttributeDataById(d, attributeId);
    var existingAttributeKey := FetchAttributeDataWithKeyAndProductId(d, productId, key);
    var checkProductAttributeLink := FetchProductDetailsWithAttributeIdAndProductId(d, productId, attributeId);
    if productDetails.None? {
      return NotFound;
    }
    if attributeDetails.None? {
      return NotFound;
    }
    if checkProductAttributeLink.None? {
      assert LinkCheck(d, attributeId, productId);
      return Conflict;
    }
    assert !LinkCheck(d, attributeId, productId);
    if existingAttributeKey.Some? && existingAttributeKey.value[0] != attributeId {
      assert KeyCheck(d, attributeId, productId, key);
      return Conflict;
    }
    assert !KeyCheck(d, attributeId, productId, key);
    var updated := UpdateAttributeDataInDb(db, attributeId, productId, key, value);
    if !updated {
      // the link check has just found the row: the 400 branch cannot be
      // taken
      assert false;
    }
    s := Ok;
  }

  /** Giving a linked attribute a key no other attribute of its product has
      keeps keys unique per product. */
  lemma UpdateAttributeKeepsKeysUnique(d: Db, attributeId: Id, productId: Id, key: string, value: string)
    requires WellFormed(d) && KeysUnique(d.attributes) && LinkedAttribute(d, attributeId, productId)
    requires forall x: Id :: x in d.attributes && x != attributeId && d.attributes[x].product == productId ==>
      d.attributes[x].key != key
    ensures KeysUnique(ChangeAttribute(d, attributeId, key, value).attributes)
  {
    var before := d.attributes;
    var after := ChangeAttribute(d, attributeId, key, value).attributes;
    forall x: Id, y: Id | x in after && y in after && x != y && after[x].product == after[y].product
      ensures after[x].key != after[y].key
    {
      assert after[x].product == before[x].product && after[y].product == before[y].product;
      if x != attributeId && y != attributeId {
        assert after[x] == before[x] && after[y] == before[y];
      }
    }
  }

  /** A successful update (the attribute is linked to the product, which
      every 200 requires) writes the key and value of that attribute only;
      its product link, every other attribute, the products and the
      categories are untouched. */
  lemma UpdateAttributeChangesOnlyKeyAndValue(d: Db, attributeId: Id, productId: Id, key: string, value: string)
    requires WellFormed(d) && LinkedAttribute(d, attributeId, productId)
    ensures var e := ChangeAttribute(d, attributeId, key, value);
      && e.attributes.Keys == d.attributes.Keys
      && e.attributes[attributeId].key == key && e.attributes[attributeId].value == value
      && e.attributes[attributeId].product == d.attributes[attributeId].product == productId
      && (forall x: Id :: x in d.attributes && x != attributeId ==> e.attributes[x] == d.attributes[x])
      && e.categories == d.categories && e.products == d.products && e.nextId == d.nextId
  {
  }

  // ---------------------------------------------------------------------
  // deleteAttribute

  /** The status `deleteAttribute` answers: 404 for an unknown product, 404
      for an unknown attribute, 409 when the attribute belongs to another
      product, otherwise 200. */
  function DeleteAttributeStatus(d: Db, productId: Id, attributeId: Id): (s: Status)
    requires WellFormed(d)
    ensures s == NotFound <==> productId !in d.products || attributeId !in d.attributes
    ensures s == Conflict <==>
      productId in d.products && attributeId in d.attributes && d.attributes[attributeId].product != productId
    ensures s == Ok <==> productId in d.products && LinkedAttribute(d, attributeId, productId)
  {
    var productDetails := ProductDetailsById(d, productId);
    var attributeDetails := FetchAttributeDataById(d, attributeId);
    if productDetails.None? then NotFound
    else if attributeDetails.None? then NotFound
    else if d.attributes[attributeDetails.value[0]].product != productId then Conflict
    else Ok
  }

  /** `deleteAttribute`: both lookups, the ownership check, then the delete
      of the row matching both ids. */
  method DeleteAttribute(db: Store, productId: Id, attributeId: Id) returns (s: Status)
    requires db.Valid()
    modifies db
    ensures db.Valid()
    ensures s == DeleteAttributeStatus(old(db.Tables()), productId, attributeId)
    ensures db.Tables() == if s.Ok? then RemoveAttribute(old(db.Tables()), attributeId) else old(db.Tables())
  {
    var productDetails := ProductDetailsById(db.Tables(), productId);
    var attributeDetails := FetchAttributeDataById(db.Tables(), attributeId);
    if productDetails.None? {
      return NotFound;
    }
    if attributeDetails.None? {
      return NotFound;
    }
    if db.attributes[attributeDetails.value[0]].product != productId {
      return Conflict;
    }
    var removed := DeleteAttributeDataFromDb(db, productId, attributeId);
    if !removed {
      // the ownership check has just found the row: the 400 branch cannot
      // be taken
      assert false;
    }
    s := Ok;
  }

  /** A successful delete removes exactly that attribute and keeps keys
      unique per product. */
  lemma DeleteAttributeKeepsKeysUnique(d: Db, productId: Id, attributeId: Id)
    requires WellFormed(d) && KeysUnique(d.attributes) && DeleteAttributeStatus(d, productId, attributeId) == Ok
    ensures var e := RemoveAttribute(d, attributeId);
      && KeysUnique(e.attributes)
      && e.attributes.Keys == d.attributes.Keys - {attributeId}
      && (forall x: Id :: x in e.attributes ==> e.attributes[x] == d.attributes[x])
      && e.products == d.products && e.categories == d.categories
  {
  }

  /** Deleting a product, whose attributes go with it, keeps keys unique per
      product. */
  lemma DeleteProductKeepsKeysUnique(d: Db, id: Id)
    requires WellFormed(d) && KeysUnique(d.attributes)
    ensures KeysUnique(DeleteProductCascade(d, id).attributes)
  {
    DeleteProductCascadeEffect(d, id);
  }
}
