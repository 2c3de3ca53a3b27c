/** The WHERE clause of the filtered product query: `1=1` followed by one
    `AND <column> LIKE $k` condition per active filter, where `$k` is the
    k-th positional parameter. Rendering is what the product service builds;
    parsing is how the query reads the text back. */
module WhereClause {
  import opened Catalog

  /** The three columns a product search can filter on. */
  datatype Column = ProductName | CategoryName | AttributeKey

  /** The qualified column as it appears in the SQL text (`p` = products,
      `c` = categories, `a` = attributes). */
  function ColumnName(c: Column): (s: string)
    ensures |s| >= 5
    ensures s[0] == (match c case ProductName => 'p' case CategoryName => 'c' case AttributeKey => 'a')
  {
    match c
    case ProductName => "p.name"
    case CategoryName => "c.name"
    case AttributeKey => "a.key"
  }

  // ---------------------------------------------------------------------
  // Decimal numerals for positional parameters.

  predicate IsDigit(ch: char) {
    '0' <= ch <= '9'
  }

  /** The number a string of decimal digits denotes. */
  function DecimalValue(s: string): nat
    requires forall i :: 0 <= i < |s| ==> IsDigit(s[i])
  {
    if s == [] then 0
    else
      assert IsDigit(s[|s| - 1]);
      DecimalValue(s[..|s| - 1]) * 10 + (s[|s| - 1] as int - '0' as int)
  }

  /** The decimal numeral of `n`, as a JavaScript template literal prints it. */
  function NatToString(n: nat): (s: string)
    ensures |s| > 0
    ensures forall i :: 0 <= i < |s| ==> IsDigit(s[i])
    ensures DecimalValue(s) == n
    ensures |s| > 1 ==> s[0] != '0'
    decreases n
  {
    if n < 10 then ['0' + n as char]
    else
      var s := NatToString(n / 10) + ['0' + (n % 10) as char];
      assert s[..|s| - 1] == NatToString(n / 10);
      s
  }

  // ---------------------------------------------------------------------
  // Rendering.

  /** ` AND <column> LIKE $k`. */
  function Condition(c: Column, k: nat): string {
    " AND " + ColumnName(c) + " LIKE $" + NatToString(k)
  }

  /** The conditions for `cols`, numbered from `k` on. */
  function Conditions(cols: seq<Column>, k: nat): string
    decreases |cols|
  {
    if cols == [] then "" else Condition(cols[0], k) + Conditions(cols[1..], k + 1)
  }

  /** The clause for the active columns, numbered 1, 2, ... in order. */
  function RenderWhere(cols: seq<Column>): string {
    "1=1" + Conditions(cols, 1)
  }

  /** Adding one more condition at the end numbers it after the others:
      how `whereClause +=` extends the clause. */
  lemma {:induction false} ConditionsSnoc(cols: seq<Column>, c: Column, k: nat)
    ensures Conditions(cols + [c], k) == Conditions(cols, k) + Condition(c, k + |cols|)
    decreases |cols|
  {
    if cols == [] {
      assert [] + [c] == [c];
      assert [c][1..] == [];
    } else {
      assert (cols + [c])[0] == cols[0];
      assert (cols + [c])[1..] == cols[1..] + [c];
      ConditionsSnoc(cols[1..], c, k + 1);
    }
  }

  /** The clause for one more column is the clause so far followed by that
      column's condition, numbered after the others. */
  lemma RenderWhereSnoc(cols: seq<Column>, c: Column)
    ensures RenderWhere(cols + [c]) == RenderWhere(cols) + Condition(c, |cols| + 1)
  {
    ConditionsSnoc(cols, c, 1);
  }

  // ---------------------------------------------------------------------
  // Parsing.

  predicate HasPrefix(s: string, p: string) {
    |p| <= |s| && s[..|p|] == p
  }

  /** Which condition numbered `k` the text starts with, if any. */
  function LeadingColumn(s: string, k: nat): Option<Column> {
    if HasPrefix(s, Condition(ProductName, k)) then Some(ProductName)
    else if HasPrefix(s, Condition(CategoryName, k)) then Some(CategoryName)
    else if HasPrefix(s, Condition(AttributeKey, k)) then Some(AttributeKey)
    else None
  }

  /** Reads a run of conditions numbered from `k` on; the text must contain
      nothing else. */
  function ParseConditions(s: string, k: nat): Option<seq<Column>>
    decreases |s|
  {
    if s == [] then Some([])
    else
      match LeadingColumn(s, k)
      case None => None
      case Some(c) =>
        match ParseConditions(s[|Condition(c, k)|..], k + 1)
        case None => None
        case Some(rest) => Some([c] + rest)
  }

  /** Reads a whole clause back into its columns. */
  function ParseWhere(w: string): Option<seq<Column>> {
    if HasPrefix(w, "1=1") then ParseConditions(w[3..], 1) else None
  }

  /** A condition text starts with the text of another condition of the same
      number only when the two columns are the same: they differ right after
      ` AND `. */
  lemma ConditionPrefix(c: Column, c': Column, k: nat, rest: string)
    ensures HasPrefix(Condition(c, k) + rest, Condition(c', k)) <==> c == c'
  {
    var s := Condition(c, k) + rest;
    if c != c' {
      assert s[5] == ColumnName(c)[0];
      assert Condition(c', k)[5] == ColumnName(c')[0];
    } else {
      assert s[..|Condition(c', k)|] == Condition(c', k);
    }
  }

  /** Parsing undoes rendering. */
  lemma {:induction false} ParseConditionsRender(cols: seq<Column>, k: nat)
    ensures ParseConditions(Conditions(cols, k), k) == Some(cols)
    decreases |cols|
  {
    if cols != [] {
      var c := cols[0];
      var rest := Conditions(cols[1..], k + 1);
      var s := Condition(c, k) + rest;
      assert s != [];
      ConditionPrefix(c, ProductName, k, rest);
      ConditionPrefix(c, CategoryName, k, rest);
      ConditionPrefix(c, AttributeKey, k, rest);
      assert LeadingColumn(s, k) == Some(c);
      assert s[|Condition(c, k)|..] == rest;
      ParseConditionsRender(cols[1..], k + 1);
      assert [c] + cols[1..] == cols;
    }
  }

  /** The rendered clause reads back as the columns it was built from, so
      two different filter selections never render to the same text. */
  lemma ParseRenderWhere(cols: seq<Column>)
    ensures ParseWhere(RenderWhere(cols)) == Some(cols)
  {
    var w := RenderWhere(cols);
    assert w[..3] == "1=1";
    assert w[3..] == Conditions(cols, 1);
    ParseConditionsRender(cols, 1);
  }
}
