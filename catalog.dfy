/** Values shared by every layer of the catalog: identifiers, the three row
    records, the state of the relational store, the status codes the services
    answer with, and the normalised input the request validation guarantees. */
module Catalog {

  /** Row identifiers. The database draws UUIDs; the model draws fresh naturals
      from one counter shared by the three tables. */
  type Id = nat

  datatype Option<T> = None | Some(value: T)

  /** The response statuses the services produce (the 500 path is not modelled). */
  datatype Status = Ok | BadRequest | NotFound | Conflict {
    function Code(): (c: nat)
      ensures c in {200, 400, 404, 409}
      ensures (c == 200) == Ok?
    {
      match this
      case Ok => 200
      case BadRequest => 400
      case NotFound => 404
      case Conflict => 409
    }
  }

  /** A row of `categories`: `parent` is the nullable self-reference `parent_id`. */
  datatype Category = Category(name: string, parent: Option<Id>)

  /** A row of `products`; `price` is the stored numeric(10,2) in cents and is
      never computed on. `category` is the nullable `category_id`. */
  datatype Product = Product(name: string, description: Option<string>, price: int, category: Option<Id>)

  /** A row of `attributes`, always linked to the product it was created for. */
  datatype Attribute = Attribute(product: Id, key: string, value: string)

  /** The whole store: one map per table, from primary key to row, and the
      counter the next fresh primary key is taken from. */
  datatype Db = Db(
    categories: map<Id, Category>,
    products: map<Id, Product>,
    attributes: map<Id, Attribute>,
    nextId: Id)

  /** Strictly increasing, hence free of duplicates. */
  predicate Ascending(s: seq<Id>) {
    forall i, j :: 0 <= i < j < |s| ==> s[i] < s[j]
  }

  /** Free of duplicates. */
  predicate Distinct<T(==)>(s: seq<T>) {
    forall i, j :: 0 <= i < j < |s| ==> s[i] != s[j]
  }

  /** An ascending sequence whose every element is `v` is `[v]`: a finder
      keyed on a primary key returns at most one row. */
  lemma AscendingSingleton(s: seq<Id>, v: Id)
    requires Ascending(s) && s != []
    requires forall x :: x in s ==> x == v
    ensures s == [v]
  {
    AscendingFirstTwo(s);
    assert s[0] in s;
  }

  lemma AscendingFirstTwo(s: seq<Id>)
    requires Ascending(s)
    ensures |s| >= 2 ==> s[0] < s[1] && s[1] in s
  {
  }

  /** Two duplicate-free sequences with no common element concatenate to a
      duplicate-free sequence. */
  lemma DistinctConcat<T>(a: seq<T>, b: seq<T>)
    requires Distinct(a) && Distinct(b)
    requires forall x :: x in a ==> x !in b
    ensures Distinct(a + b)
  {
    forall i, j | 0 <= i < j < |a + b|
      ensures (a + b)[i] != (a + b)[j]
    {
      if i < |a| && |a| <= j {
        assert (a + b)[i] in a && (a + b)[j] == b[j - |a|];
      }
    }
  }

  /** Dropping the head of a duplicate-free sequence leaves a duplicate-free
      sequence without the head in it. */
  lemma DistinctTail<T>(s: seq<T>)
    requires s != []
    ensures Distinct(s) ==> Distinct(s[1..]) && s[0] !in s[1..]
  {
    if Distinct(s) {
      forall i | 0 <= i < |s[1..]| ensures s[1..][i] != s[0] {
        assert s[1..][i] == s[i + 1];
      }
      forall i, j | 0 <= i < j < |s[1..]| ensures s[1..][i] != s[1..][j] {
        assert s[1..][i] == s[i + 1] && s[1..][j] == s[j + 1];
      }
    }
  }

  /** Putting a new element in front keeps a sequence duplicate-free. */
  lemma DistinctCons<T>(x: T, s: seq<T>)
    ensures Distinct(s) && x !in s ==> Distinct([x] + s)
  {
    if Distinct(s) && x !in s {
      DistinctConcat([x], s);
    }
  }

  /** The ids below `bound` that `keep` selects, in ascending order: the model
      of a table scan with a WHERE condition (row order is fixed to ascending
      primary key). */
  function Scan(bound: nat, keep: Id -> bool): (r: seq<Id>)
    ensures forall x: Id :: x in r <==> x < bound && keep(x)
    ensures Ascending(r)
    ensures |r| <= bound
  {
    if bound == 0 then []
    else
      var s := Scan(bound - 1, keep);
      assert forall i :: 0 <= i < |s| ==> s[i] in s;
      s + (if keep(bound - 1) then [bound - 1] else [])
  }

  /** The repositories' convention: an empty result list is reported as null. */
  function NullIfEmpty<T>(s: seq<T>): (r: Option<seq<T>>)
    ensures r.None? <==> s == []
    ensures r.Some? ==> r.value == s && r.value != []
  {
    if s == [] then None else Some(s)
  }

  /** A finder: the scan of `keep` with an empty result reported as null. */
  function Select(bound: nat, keep: Id -> bool): (r: Option<seq<Id>>)
    ensures r.Some? ==> r.value != [] && Ascending(r.value)
    ensures forall x: Id :: (r.Some? && x in r.value) <==> x < bound && keep(x)
  {
    var s := Scan(bound, keep);
    assert forall x: Id :: x < bound && keep(x) ==> x in s;
    NullIfEmpty(s)
  }

  // ---------------------------------------------------------------------
  // What request validation guarantees about names, keys and values:
  // the value is lower-cased first, then it must be at least three
  // characters long and match an alphanumeric-plus-whitespace pattern.

  predicate IsSpace(c: char) {
    // the space and the control characters tab, line feed, vertical tab,
    // form feed and carriage return
    c == ' ' || '\t' <= c <= '\r'
  }

  predicate IsLowerAlnumOrSpace(c: char) {
    ('a' <= c <= 'z') || ('0' <= c <= '9') || IsSpace(c)
  }

  /** A category name, product name or attribute key after validation. */
  predicate IsValidName(s: string) {
    |s| >= 3 && forall i :: 0 <= i < |s| ==> IsLowerAlnumOrSpace(s[i])
  }

  /** An attribute value after validation: a comma is also allowed. */
  predicate IsValidValue(s: string) {
    |s| >= 3 && forall i :: 0 <= i < |s| ==> IsLowerAlnumOrSpace(s[i]) || s[i] == ','
  }

  /** An optional product description after validation. */
  predicate IsValidDescription(d: Option<string>) {
    d.Some? ==> |d.value| >= 3 && Lower(d.value) == d.value
  }

  /** A product price after validation: at least 1, here in cents. */
  predicate IsValidPrice(cents: int) {
    cents >= 100
  }

  /** ASCII lower-casing of one character. */
  function LowerChar(c: char): (r: char)
    ensures 'A' <= c <= 'Z' ==> 'a' <= r <= 'z' && r as int == c as int + 32
    ensures !('A' <= c <= 'Z') ==> r == c
  {
    if 'A' <= c <= 'Z' then (c as int + 32) as char else c
  }

  /** ASCII lower-casing of a string, character by character. */
  function Lower(s: string): (r: string)
    ensures |r| == |s|
    ensures forall i :: 0 <= i < |s| ==> r[i] == LowerChar(s[i])
  {
    if s == [] then [] else [LowerChar(s[0])] + Lower(s[1..])
  }
}
