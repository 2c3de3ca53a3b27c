/** The database connection every repository shares: three tables whose rows
    the repositories insert, update and delete in place. */
module CatalogStore {
  import opened Catalog
  import opened Schema

  class Store {
    var categories: map<Id, Category>
    var products: map<Id, Product>
    var attributes: map<Id, Attribute>
    var nextId: Id

    /** The current contents of the three tables as one value. */
    function Tables(): Db
      reads this
    {
      Db(categories, products, attributes, nextId)
    }

    /** The schema's keys hold of the current contents. */
    ghost predicate Valid()
      reads this
    {
      WellFormed(Tables())
    }

    /** A freshly migrated, empty database. */
    constructor ()
      ensures Valid()
      ensures Tables() == EmptyDb()
    {
      categories, products, attributes, nextId := map[], map[], map[], 0;
    }
  }
}
