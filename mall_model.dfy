/**
 * The model layer's two pieces of logic: the regrouping loop of `sqlSelectLeftJoin`
 * and the parameter list that `sqlInsertMultiple` hands to the query formatter.
 * The database call itself is I/O and appears only as the value it returned.
 */
module MallModel {
  import opened Wrappers
  import opened Rows
  import opened Flattening

  /**
   * What the driver's `execute` resolved to: a row set (an array) for a SELECT,
   * or a result header (not an array) for a statement that returns no rows.
   */
  datatype QueryResult =
    | RowSet(rows: seq<JoinedRow>)
    | ResultHeader

  /**
   * The regrouping of `sqlSelectLeftJoin`, given what the query returned. A result that
   * is not an array throws the generic error; otherwise one pass over the rows keeps the
   * id of the open category (starting at 0) and appends each truthy subcategory to the
   * last category of the output, which is the object `currentCategory` still refers to.
   */
  method SelectLeftJoin(results: QueryResult) returns (r: Result<seq<Category>, Error>)
    ensures results.ResultHeader? ==> r == Err(MysqlError)
    ensures results.RowSet? ==> r == Flatten(results.rows)
  {
    if !results.RowSet? {
      return Err(MysqlError);
    }
    var rows := results.rows;
    var currentID := 0;
    var modifiedResults: seq<Category> := [];
    var i := 0;
    while i < |rows|
      invariant 0 <= i <= |rows|
      invariant Flatten(rows[..i]) == Ok(modifiedResults)
      invariant currentID == if modifiedResults == [] then 0 else modifiedResults[|modifiedResults| - 1].id
    {
      var row := rows[i];
      ghost var before, beforeID := modifiedResults, currentID;
      if row.id != currentID {
        currentID := row.id;
        modifiedResults := modifiedResults + [Category(currentID, row.name, [])];
      }
      ghost var next := modifiedResults;
      LoopStep(rows, i, before, beforeID, next);
      if HasSubcategory(row) {
        if modifiedResults == [] {
          // `currentCategory!.subcategories` with `currentCategory` still null
          FlattenErrPrefix(rows, i + 1);
          return Err(NullCurrentCategory);
        }
        PushOntoLast(modifiedResults, row);
        var current := modifiedResults[|modifiedResults| - 1];
        modifiedResults := modifiedResults[..|modifiedResults| - 1]
          + [current.(subcategories := current.subcategories + [ToSubcategory(row)])];
        assert modifiedResults == AddToLast(next, row);
      }
      assert Flatten(rows[..i + 1]) == Ok(modifiedResults);
      i := i + 1;
    }
    assert rows[..|rows|] == rows;
    return Ok(modifiedResults);
  }

  /**
   * One iteration of the loop against `Flatten`: after the category is opened (when the id
   * changes), what is left is to push the row's subcategory, if truthy, onto the last
   * category; with no category open that push throws.
   */
  lemma {:induction false} LoopStep(rows: seq<JoinedRow>, i: nat, cs: seq<Category>, currentID: int, next: seq<Category>)
    requires i < |rows| && Flatten(rows[..i]) == Ok(cs)
    requires currentID == if cs == [] then 0 else cs[|cs| - 1].id
    requires next == if rows[i].id != currentID then cs + [Category(rows[i].id, rows[i].name, [])] else cs
    ensures next != [] ==> next[|next| - 1].id == rows[i].id
    ensures next != [] ==> Flatten(rows[..i + 1]) == Ok(AddToLast(next, rows[i]))
    ensures next == [] ==> Flatten(rows[..i + 1]) == if HasSubcategory(rows[i]) then Err(NullCurrentCategory) else Ok([])
  {
    var row := rows[i];
    assert rows[..i + 1] == rows[..i] + [row];
    if row.id != currentID {
      FlattenSnocOpens(rows[..i], row);
      OpenThenPush(cs, row);
    } else if cs == [] {
      FlattenSnocOrphan(rows[..i], row);
    } else {
      FlattenSnocJoins(rows[..i], row);
    }
  }

  // ---------------------------------------------------------------------------
  // sqlInsertMultiple

  /** The statement `sqlInsertMultiple` formats, with one `?` standing for all value rows. */
  const InsertMultipleSql := "INSERT INTO subcategory(category_id, name, description) VALUES ?"

  /** An element of the request's `items`; either property may be missing from the body. */
  datatype Item = Item(name: Option<string>, description: Option<string>)

  /** One `[category_id, item.name, item.description]` value row. */
  datatype ValueTriple = ValueTriple(categoryId: string, name: Option<string>, description: Option<string>)

  /** The statement and the list of values given to the formatter. */
  datatype InsertStatement = InsertStatement(sql: string, inserts: seq<seq<ValueTriple>>)

  /** `items.map(item => [category_id, item.name, item.description])`. */
  function ValueTriples(categoryId: string, items: seq<Item>): (vs: seq<ValueTriple>)
    ensures |vs| == |items|
    ensures forall j :: 0 <= j < |items| ==>
      vs[j].categoryId == categoryId && vs[j].name == items[j].name && vs[j].description == items[j].description
  {
    if items == [] then []
    else [ValueTriple(categoryId, items[0].name, items[0].description)] + ValueTriples(categoryId, items[1..])
  }

  /**
   * The statement `sqlInsertMultiple` builds: the fixed template and a parameter list
   * whose only element is the list of value rows, one per item, all for the same category.
   */
  function InsertMultiple(categoryId: string, items: seq<Item>): (st: InsertStatement)
    ensures st.sql == InsertMultipleSql
    ensures |st.inserts| == 1 && |st.inserts[0]| == |items|
    ensures forall v :: v in st.inserts[0] ==> v.categoryId == categoryId
    ensures forall j :: 0 <= j < |items| ==>
      st.inserts[0][j] == ValueTriple(categoryId, items[j].name, items[j].description)
  {
    InsertStatement(InsertMultipleSql, [ValueTriples(categoryId, items)])
  }

  /** The items a list of value rows was built from. */
  function ItemsOf(vs: seq<ValueTriple>): seq<Item> {
    if vs == [] then [] else [Item(vs[0].name, vs[0].description)] + ItemsOf(vs[1..])
  }

  /** The value rows carry the items unchanged and in order: dropping the category id gives them back. */
  lemma {:induction false} ValueTriplesRoundTrip(categoryId: string, items: seq<Item>)
    ensures ItemsOf(ValueTriples(categoryId, items)) == items
    decreases |items|
  {
    if items != [] {
      var vs := ValueTriples(categoryId, items);
      assert vs[1..] == ValueTriples(categoryId, items[1..]);
      ValueTriplesRoundTrip(categoryId, items[1..]);
    }
  }

  /**
   * The guard after every execute: a missing (falsy) result throws the generic
   * error, any other result is handed back as it is.
   */
  function CheckResults(results: Option<QueryResult>): (r: Result<QueryResult, Error>)
    ensures r.Ok? <==> results.Some?
    ensures r.Ok? ==> r.value == results.value
    ensures r.Err? ==> r.error == MysqlError
  {
    match results
    case None => Err(MysqlError)
    case Some(res) => Ok(res)
  }
}
