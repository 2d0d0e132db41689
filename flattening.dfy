/**
 * The meaning of the join-flattening transform, stated independently of the loop
 * that computes it: the rows are cut into maximal runs of equal category id, and
 * each run becomes one category holding the subcategories of its rows.
 */
module Flattening {
  import opened Wrappers
  import opened Rows

  /** The subcategories a block of rows contributes: each row with a truthy subcategory id, in row order. */
  function Subcategories(rows: seq<JoinedRow>): (subs: seq<Subcategory>)
    ensures |subs| <= |rows|
    ensures forall s :: s in subs ==> s.id != 0
  {
    if rows == [] then []
    else (if HasSubcategory(rows[0]) then [ToSubcategory(rows[0])] else []) + Subcategories(rows[1..])
  }

  /** The length of the maximal run of rows at the front that share the first row's id. */
  function RunLength(rows: seq<JoinedRow>): (n: nat)
    requires rows != []
    ensures 1 <= n <= |rows|
    ensures forall j :: 0 <= j < n ==> rows[j].id == rows[0].id
    ensures n < |rows| ==> rows[n].id != rows[0].id
  {
    if |rows| == 1 || rows[1].id != rows[0].id then 1 else 1 + RunLength(rows[1..])
  }

  /** One category per maximal run: id and name from the run's first row, subcategories from all of it. */
  function Categories(rows: seq<JoinedRow>): (cs: seq<Category>)
    ensures |cs| <= |rows|
    ensures rows != [] ==> cs != [] && cs[0].id == rows[0].id && cs[0].name == rows[0].name
    decreases |rows|
  {
    if rows == [] then []
    else
      var n := RunLength(rows);
      [Category(rows[0].id, rows[0].name, Subcategories(rows[..n]))] + Categories(rows[n..])
  }

  /**
   * The result of flattening the rows. Rows before the first row with a non-zero id
   * open no category (the id equals the initial sentinel 0): one without a subcategory
   * is dropped, one with a subcategory is pushed onto a category that does not exist.
   */
  function Flatten(rows: seq<JoinedRow>): (r: Result<seq<Category>, Error>)
    ensures rows == [] ==> r == Ok([])
    ensures r.Ok? ==> |r.value| <= |rows|
    ensures r.Err? ==> r.error == NullCurrentCategory
    ensures rows != [] && rows[0].id != 0 ==> r.Ok? && r.value != []
  {
    if rows == [] then Ok([])
    else if rows[0].id == 0 then
      if HasSubcategory(rows[0]) then Err(NullCurrentCategory) else Flatten(rows[1..])
    else Ok(Categories(rows))
  }

  /** The category a row opens: its id and name, with its own subcategory if it has one. */
  function Open(row: JoinedRow): (c: Category)
    ensures c.id == row.id && c.name == row.name
    ensures c.subcategories == if HasSubcategory(row) then [ToSubcategory(row)] else []
  {
    SubcategoriesOfRow(row);
    Category(row.id, row.name, Subcategories([row]))
  }

  /** The listing with the row's subcategory, if any, appended to the last category. */
  function AddToLast(cs: seq<Category>, row: JoinedRow): (cs': seq<Category>)
    requires cs != []
    ensures |cs'| == |cs| && cs'[..|cs| - 1] == cs[..|cs| - 1]
    ensures cs'[|cs| - 1].id == cs[|cs| - 1].id && cs'[|cs| - 1].name == cs[|cs| - 1].name
    ensures !HasSubcategory(row) ==> cs' == cs
    ensures HasSubcategory(row) ==>
      cs'[|cs| - 1].subcategories == cs[|cs| - 1].subcategories + [ToSubcategory(row)]
  {
    SubcategoriesOfRow(row);
    var last := cs[|cs| - 1];
    assert [row][1..] == [];
    assert cs == cs[..|cs| - 1] + [last];
    assert !HasSubcategory(row) ==> last.(subcategories := last.subcategories + Subcategories([row])) == last;
    cs[..|cs| - 1] + [last.(subcategories := last.subcategories + Subcategories([row]))]
  }

  /** A single row contributes its own subcategory exactly when its subcategory id is truthy. */
  lemma {:induction false} SubcategoriesOfRow(row: JoinedRow)
    ensures Subcategories([row]) == if HasSubcategory(row) then [ToSubcategory(row)] else []
  {
    assert [row][1..] == [];
  }

  // ---------------------------------------------------------------------------
  // Structural lemmas: how the run decomposition reacts to one more row.

  /** A run boundary found by any means is the one RunLength finds. */
  lemma {:induction false} RunLengthUnique(rows: seq<JoinedRow>, m: nat)
    requires 1 <= m <= |rows|
    requires forall j :: 0 <= j < m ==> rows[j].id == rows[0].id
    requires m < |rows| ==> rows[m].id != rows[0].id
    ensures RunLength(rows) == m
  {
    if m > 1 {
      RunLengthUnique(rows[1..], m - 1);
    }
  }

  lemma {:induction false} SubcategoriesAppend(a: seq<JoinedRow>, b: seq<JoinedRow>)
    ensures Subcategories(a + b) == Subcategories(a) + Subcategories(b)
    decreases |a|
  {
    if a == [] {
      assert a + b == b;
    } else {
      var first := if HasSubcategory(a[0]) then [ToSubcategory(a[0])] else [];
      assert (a + b)[0] == a[0] && (a + b)[1..] == a[1..] + b;
      assert Subcategories(a + b) == first + Subcategories(a[1..] + b);
      SubcategoriesAppend(a[1..], b);
      assert Subcategories(a) == first + Subcategories(a[1..]);
    }
  }

  /** The last category comes from the last row's run. */
  lemma {:induction false} LastCategory(rows: seq<JoinedRow>)
    requires rows != []
    ensures Categories(rows)[|Categories(rows)| - 1].id == rows[|rows| - 1].id
    decreases |rows|
  {
    var n := RunLength(rows);
    if n < |rows| {
      LastCategory(rows[n..]);
    }
  }

  /** A block of rows that is one run becomes one category. */
  lemma {:induction false} SingleRun(rows: seq<JoinedRow>)
    requires rows != [] && RunLength(rows) == |rows|
    ensures Categories(rows) == [Category(rows[0].id, rows[0].name, Subcategories(rows))]
  {
    assert rows[..|rows|] == rows;
    assert rows[|rows|..] == [];
  }

  /** Appending a row with the run's id to a single run extends it. */
  lemma {:induction false} SnocSameRun(rows: seq<JoinedRow>, row: JoinedRow)
    requires rows != [] && RunLength(rows) == |rows| && rows[|rows| - 1].id == row.id
    ensures Categories(rows + [row]) == AddToLast(Categories(rows), row)
  {
    var rows' := rows + [row];
    RunLengthUnique(rows', |rows'|);
    SingleRun(rows);
    SingleRun(rows');
    assert rows'[..|rows|] == rows;
    SubcategoriesAppend(rows, [row]);
  }

  /** Appending a row with another id to a single run starts a new category. */
  lemma {:induction false} SnocNewRun(rows: seq<JoinedRow>, row: JoinedRow)
    requires rows != [] && RunLength(rows) == |rows| && rows[|rows| - 1].id != row.id
    ensures Categories(rows + [row]) == Categories(rows) + [Open(row)]
  {
    var rows' := rows + [row];
    var n := |rows|;
    RunLengthUnique(rows', n);
    SingleRun(rows);
    assert rows'[..n] == rows;
    assert rows'[n..] == [row];
    assert RunLength([row]) == 1;
    assert [row][..1] == [row];
    assert [row][1..] == [];
  }

  /** Appending a row to rows of several runs only affects the runs after the first. */
  lemma {:induction false} SnocLaterRun(rows: seq<JoinedRow>, row: JoinedRow)
    requires rows != [] && RunLength(rows) < |rows|
    ensures var n := RunLength(rows);
      Categories(rows + [row]) ==
        [Category(rows[0].id, rows[0].name, Subcategories(rows[..n]))] + Categories(rows[n..] + [row])
  {
    var rows' := rows + [row];
    var n := RunLength(rows);
    RunLengthUnique(rows', n);
    assert rows'[..n] == rows[..n];
    assert rows'[n..] == rows[n..] + [row];
  }

  /** Appending a row either extends the last run or starts a new one. */
  lemma {:induction false} CategoriesSnoc(rows: seq<JoinedRow>, row: JoinedRow)
    requires rows != []
    ensures Categories(rows + [row]) ==
      if rows[|rows| - 1].id == row.id then AddToLast(Categories(rows), row)
      else Categories(rows) + [Open(row)]
    decreases |rows|
  {
    var n := RunLength(rows);
    if n == |rows| {
      SnocOneRun(rows, row);
    } else {
      CategoriesSnoc(rows[n..], row);
      SnocLaterStep(rows, row);
    }
  }

  /** The step of CategoriesSnoc on a single run. */
  lemma {:induction false} SnocOneRun(rows: seq<JoinedRow>, row: JoinedRow)
    requires rows != [] && RunLength(rows) == |rows|
    ensures Categories(rows + [row]) ==
      if rows[|rows| - 1].id == row.id then AddToLast(Categories(rows), row)
      else Categories(rows) + [Open(row)]
  {
    if rows[|rows| - 1].id == row.id {
      SnocSameRun(rows, row);
    } else {
      SnocNewRun(rows, row);
    }
  }

  /** The step of CategoriesSnoc past the first run: the first category is carried along. */
  lemma {:induction false} SnocLaterStep(rows: seq<JoinedRow>, row: JoinedRow)
    requires rows != [] && RunLength(rows) < |rows|
    requires var rest := rows[RunLength(rows)..];
      Categories(rest + [row]) ==
        if rows[|rows| - 1].id == row.id then AddToLast(Categories(rest), row)
        else Categories(rest) + [Open(row)]
    ensures Categories(rows + [row]) ==
      if rows[|rows| - 1].id == row.id then AddToLast(Categories(rows), row)
      else Categories(rows) + [Open(row)]
  {
    var n := RunLength(rows);
    var rest := rows[n..];
    var head := Category(rows[0].id, rows[0].name, Subcategories(rows[..n]));
    var tail := Categories(rest);
    assert Categories(rows) == [head] + tail;
    SnocLaterRun(rows, row);
    ConsStep(head, tail, row);
  }

  /** AddToLast and appending a new category both leave a leading category alone. */
  lemma {:induction false} ConsStep(head: Category, tail: seq<Category>, row: JoinedRow)
    requires tail != []
    ensures AddToLast([head] + tail, row) == [head] + AddToLast(tail, row)
    ensures ([head] + tail) + [Open(row)] == [head] + (tail + [Open(row)])
  {
    assert ([head] + tail)[..|tail|] == [head] + tail[..|tail| - 1];
  }

  /** Once the transform has failed, further rows cannot undo the failure. */
  lemma {:induction false} FlattenErrPersists(rows: seq<JoinedRow>, more: seq<JoinedRow>)
    requires Flatten(rows).Err?
    ensures Flatten(rows + more) == Flatten(rows)
    decreases |rows|
  {
    assert (rows + more)[0] == rows[0];
    if !HasSubcategory(rows[0]) {
      assert (rows + more)[1..] == rows[1..] + more;
      FlattenErrPersists(rows[1..], more);
    }
  }

  /** A failure on a prefix of the rows is the failure of all of them: the loop stops there. */
  lemma {:induction false} FlattenErrPrefix(rows: seq<JoinedRow>, k: nat)
    requires k <= |rows| && Flatten(rows[..k]).Err?
    ensures Flatten(rows) == Flatten(rows[..k])
  {
    FlattenErrPersists(rows[..k], rows[k..]);
    assert rows[..k] + rows[k..] == rows;
  }

  /** What one more row does to a successful flattening: the step the loop takes. */
  lemma {:induction false} FlattenSnoc(rows: seq<JoinedRow>, row: JoinedRow)
    requires Flatten(rows).Ok?
    ensures var cs := Flatten(rows).value;
      Flatten(rows + [row]) ==
        if cs == [] then
          if row.id != 0 then Ok([Open(row)])
          else if HasSubcategory(row) then Err(NullCurrentCategory)
          else Ok([])
        else if cs[|cs| - 1].id == row.id then Ok(AddToLast(cs, row))
        else Ok(cs + [Open(row)])
    decreases |rows|
  {
    if rows == [] {
      assert rows + [row] == [row];
      assert [row][1..] == [];
      if row.id != 0 {
        SingleRun([row]);
      }
    } else if rows[0].id == 0 {
      assert (rows + [row])[1..] == rows[1..] + [row];
      FlattenSnoc(rows[1..], row);
    } else {
      CategoriesSnoc(rows, row);
      LastCategory(rows);
    }
  }

  /** A row whose id differs from the open category's id (or from 0) appends a new category. */
  lemma {:induction false} FlattenSnocOpens(rows: seq<JoinedRow>, row: JoinedRow)
    requires Flatten(rows).Ok?
    requires Flatten(rows).value == [] ==> row.id != 0
    requires Flatten(rows).value != [] ==> Flatten(rows).value[|Flatten(rows).value| - 1].id != row.id
    ensures Flatten(rows + [row]) == Ok(Flatten(rows).value + [Open(row)])
  {
    FlattenSnoc(rows, row);
    assert [] + [Open(row)] == [Open(row)];
  }

  /** A row with the open category's id adds its subcategory, if any, to that category. */
  lemma {:induction false} FlattenSnocJoins(rows: seq<JoinedRow>, row: JoinedRow)
    requires Flatten(rows).Ok? && Flatten(rows).value != []
    requires Flatten(rows).value[|Flatten(rows).value| - 1].id == row.id
    ensures Flatten(rows + [row]) == Ok(AddToLast(Flatten(rows).value, row))
  {
    FlattenSnoc(rows, row);
  }

  /** A row with id 0 while no category is open is dropped, or throws if it has a subcategory. */
  lemma {:induction false} FlattenSnocOrphan(rows: seq<JoinedRow>, row: JoinedRow)
    requires Flatten(rows) == Ok([]) && row.id == 0
    ensures Flatten(rows + [row]) == if HasSubcategory(row) then Err(NullCurrentCategory) else Ok([])
  {
    FlattenSnoc(rows, row);
  }

  /** Opening an empty category and then pushing the row's subcategory gives the category the row opens. */
  lemma {:induction false} OpenThenPush(cs: seq<Category>, row: JoinedRow)
    ensures AddToLast(cs + [Category(row.id, row.name, [])], row) == cs + [Open(row)]
  {
    var last := Category(row.id, row.name, []);
    var cs' := cs + [last];
    assert cs'[..|cs'| - 1] == cs && cs'[|cs'| - 1] == last;
    assert last.(subcategories := last.subcategories + Subcategories([row])) == Open(row);
  }

  /** AddToLast of a row with a subcategory is the push onto the last element. */
  lemma {:induction false} PushOntoLast(cs: seq<Category>, row: JoinedRow)
    requires cs != [] && HasSubcategory(row)
    ensures var last := cs[|cs| - 1];
      AddToLast(cs, row) == cs[..|cs| - 1] + [last.(subcategories := last.subcategories + [ToSubcategory(row)])]
  {
    SubcategoriesOfRow(row);
  }
}
