/**
 * What the join-flattening transform guarantees, proved about its meaning `Flatten`
 * (which `MallModel.SelectLeftJoin` computes): grouping by runs of equal id, order
 * preservation, the fate of NULL subcategories, the sort dependency, and the round
 * trip through the rows the outer join would return for a listing.
 */
module FlatteningProperties {
  import opened Wrappers
  import opened Rows
  import opened Flattening

  // ---------------------------------------------------------------------------
  // When the transform throws

  /**
   * Row `k` pushes a subcategory while no category is open: its subcategory id is
   * truthy and it and every row before it have the sentinel id 0.
   */
  predicate PushesWithoutCategory(rows: seq<JoinedRow>, k: nat)
    requires k < |rows|
  {
    HasSubcategory(rows[k]) && forall j :: 0 <= j <= k ==> rows[j].id == 0
  }

  lemma {:induction false} PushesWithoutCategoryShift(rows: seq<JoinedRow>, k: nat)
    requires 0 < k < |rows| && rows[0].id == 0
    ensures PushesWithoutCategory(rows, k) <==> PushesWithoutCategory(rows[1..], k - 1)
  {
    if PushesWithoutCategory(rows[1..], k - 1) {
      forall j | 0 < j <= k ensures rows[j].id == 0 {
        assert rows[j] == rows[1..][j - 1];
      }
    }
  }

  /** The transform fails exactly when some row pushes a subcategory while no category is open. */
  lemma {:induction false} FlattenFailsExactly(rows: seq<JoinedRow>)
    ensures Flatten(rows).Err? <==> exists k :: 0 <= k < |rows| && PushesWithoutCategory(rows, k)
    decreases |rows|
  {
    if rows != [] && rows[0].id == 0 && !HasSubcategory(rows[0]) {
      FlattenFailsExactly(rows[1..]);
      forall k | 0 < k < |rows| ensures PushesWithoutCategory(rows, k) <==> PushesWithoutCategory(rows[1..], k - 1) {
        PushesWithoutCategoryShift(rows, k);
      }
      if Flatten(rows).Err? {
        var k :| 0 <= k < |rows[1..]| && PushesWithoutCategory(rows[1..], k);
        assert PushesWithoutCategory(rows, k + 1);
      }
    } else if rows != [] && rows[0].id == 0 {
      assert PushesWithoutCategory(rows, 0);
    }
  }

  // ---------------------------------------------------------------------------
  // Categories are opened at id changes

  /** The number of rows whose id differs from the id of the row before (from `previous` for the first). */
  function Openings(rows: seq<JoinedRow>, previous: int): nat {
    if rows == [] then 0
    else (if rows[0].id != previous then 1 else 0) + Openings(rows[1..], rows[0].id)
  }

  /** Rows that repeat `previous` open nothing. */
  lemma {:induction false} OpeningsSkipRun(rows: seq<JoinedRow>, k: nat, previous: int)
    requires k <= |rows|
    requires forall j :: 0 <= j < k ==> rows[j].id == previous
    ensures Openings(rows, previous) == Openings(rows[k..], previous)
    decreases k
  {
    if k > 0 {
      assert rows[1..][k - 1..] == rows[k..];
      OpeningsSkipRun(rows[1..], k - 1, previous);
    }
  }

  lemma {:induction false} CategoriesOpenings(rows: seq<JoinedRow>, previous: int)
    requires rows == [] || rows[0].id != previous
    ensures |Categories(rows)| == Openings(rows, previous)
    decreases |rows|
  {
    if rows != [] {
      var n := RunLength(rows);
      var x := rows[0].id;
      OpeningsSkipRun(rows[1..], n - 1, x);
      assert rows[1..][n - 1..] == rows[n..];
      CategoriesOpenings(rows[n..], x);
    }
  }

  /**
   * One category is opened per row whose id differs from the previous row's id, the
   * first row being compared with the sentinel 0.
   */
  lemma {:induction false} CategoryPerIdChange(rows: seq<JoinedRow>)
    requires Flatten(rows).Ok?
    ensures |Flatten(rows).value| == Openings(rows, 0)
    decreases |rows|
  {
    if rows != [] {
      if rows[0].id == 0 {
        CategoryPerIdChange(rows[1..]);
      } else {
        CategoriesOpenings(rows, 0);
      }
    }
  }

  /** No two consecutive categories share an id. */
  ghost predicate AdjacentDistinct(cs: seq<Category>) {
    forall j :: 0 <= j < |cs| - 1 ==> cs[j].id != cs[j + 1].id
  }

  lemma {:induction false} CategoriesAdjacentDiffer(rows: seq<JoinedRow>)
    ensures AdjacentDistinct(Categories(rows))
    decreases |rows|
  {
    if rows != [] {
      var n := RunLength(rows);
      CategoriesAdjacentDiffer(rows[n..]);
      var cs := Categories(rows);
      var tail := Categories(rows[n..]);
      assert cs == [cs[0]] + tail;
      forall j | 0 <= j < |cs| - 1 ensures cs[j].id != cs[j + 1].id {
        if j == 0 {
          assert tail[0].id == rows[n..][0].id;
        } else {
          assert cs[j] == tail[j - 1] && cs[j + 1] == tail[j];
        }
      }
    }
  }

  /** Consecutive categories of the listing have different ids. */
  lemma {:induction false} AdjacentIdsDiffer(rows: seq<JoinedRow>)
    requires Flatten(rows).Ok?
    ensures AdjacentDistinct(Flatten(rows).value)
    decreases |rows|
  {
    if rows != [] {
      if rows[0].id == 0 {
        AdjacentIdsDiffer(rows[1..]);
      } else {
        CategoriesAdjacentDiffer(rows);
      }
    }
  }

  // ---------------------------------------------------------------------------
  // Subcategories: exactly the truthy rows, in row order

  /** A subcategory is listed exactly when some row with a truthy subcategory id carries it. */
  lemma {:induction false} SubcategoriesMembers(rows: seq<JoinedRow>, s: Subcategory)
    ensures s in Subcategories(rows) <==>
      exists j :: 0 <= j < |rows| && HasSubcategory(rows[j]) && s == ToSubcategory(rows[j])
    decreases |rows|
  {
    if rows != [] {
      SubcategoriesMembers(rows[1..], s);
      if s in Subcategories(rows[1..]) {
        var j :| 0 <= j < |rows[1..]| && HasSubcategory(rows[1..][j]) && s == ToSubcategory(rows[1..][j]);
        assert rows[j + 1] == rows[1..][j];
      }
      if j :| 0 <= j < |rows| && HasSubcategory(rows[j]) && s == ToSubcategory(rows[j]) {
        if j > 0 {
          assert rows[1..][j - 1] == rows[j];
        }
      }
    }
  }

  /** The number of rows with a truthy subcategory id. */
  function CountWithSubcategory(rows: seq<JoinedRow>): nat {
    if rows == [] then 0 else (if HasSubcategory(rows[0]) then 1 else 0) + CountWithSubcategory(rows[1..])
  }

  lemma {:induction false} SubcategoriesCount(rows: seq<JoinedRow>)
    ensures |Subcategories(rows)| == CountWithSubcategory(rows)
    decreases |rows|
  {
    if rows != [] {
      SubcategoriesCount(rows[1..]);
    }
  }

  lemma {:induction false} CategoriesKeepSubcategories(rows: seq<JoinedRow>)
    ensures AllSubcategories(Categories(rows)) == Subcategories(rows)
    decreases |rows|
  {
    if rows != [] {
      var n := RunLength(rows);
      CategoriesKeepSubcategories(rows[n..]);
      assert rows[..n] + rows[n..] == rows;
      SubcategoriesAppend(rows[..n], rows[n..]);
    }
  }

  /**
   * Reading the categories' subcategory lists one after the other gives exactly the
   * subcategories of the truthy rows in row order; so their total number is the number
   * of such rows, and never more than the number of rows.
   */
  lemma {:induction false} SubcategoriesPreserved(rows: seq<JoinedRow>)
    requires Flatten(rows).Ok?
    ensures AllSubcategories(Flatten(rows).value) == Subcategories(rows)
    ensures |AllSubcategories(Flatten(rows).value)| == CountWithSubcategory(rows) <= |rows|
    decreases |rows|
  {
    SubcategoriesCount(rows);
    if rows != [] {
      if rows[0].id == 0 {
        SubcategoriesPreserved(rows[1..]);
      } else {
        CategoriesKeepSubcategories(rows);
      }
    }
  }

  /** Rows whose subcategory id is falsy contribute no subcategory. */
  lemma {:induction false} NullRowsAddNothing(rows: seq<JoinedRow>)
    requires forall j :: 0 <= j < |rows| ==> !HasSubcategory(rows[j])
    ensures Subcategories(rows) == []
    decreases |rows|
  {
    if rows != [] {
      NullRowsAddNothing(rows[1..]);
    }
  }

  /** A falsy row with the open category's id leaves the listing as it was. */
  lemma {:induction false} NullRowChangesNothing(rows: seq<JoinedRow>, row: JoinedRow)
    requires Flatten(rows).Ok? && Flatten(rows).value != []
    requires !HasSubcategory(row)
    requires Flatten(rows).value[|Flatten(rows).value| - 1].id == row.id
    ensures Flatten(rows + [row]) == Flatten(rows)
  {
    FlattenSnoc(rows, row);
  }

  // ---------------------------------------------------------------------------
  // One category id (the join for a single category, ordered by subcategory id)

  /**
   * Rows that all carry the same non-zero id become a single category holding the
   * subcategories of all of them in order; with only falsy rows its list is empty.
   */
  lemma {:induction false} OneCategory(rows: seq<JoinedRow>)
    requires rows != [] && rows[0].id != 0
    requires forall j :: 0 <= j < |rows| ==> rows[j].id == rows[0].id
    ensures Flatten(rows) == Ok([Category(rows[0].id, rows[0].name, Subcategories(rows))])
    ensures (forall j :: 0 <= j < |rows| ==> !HasSubcategory(rows[j])) ==>
      Flatten(rows) == Ok([Category(rows[0].id, rows[0].name, [])])
  {
    RunLengthUnique(rows, |rows|);
    SingleRun(rows);
    if forall j :: 0 <= j < |rows| ==> !HasSubcategory(rows[j]) {
      NullRowsAddNothing(rows);
    }
  }

  // ---------------------------------------------------------------------------
  // Sorted input: one category per distinct id (the `ORDER BY c.id` of the outer join)

  ghost predicate SortedById(rows: seq<JoinedRow>) {
    forall i, j :: 0 <= i < j < |rows| ==> rows[i].id <= rows[j].id
  }

  /** The rows that mention category `id`, in row order. */
  function RowsWithId(rows: seq<JoinedRow>, id: int): (rs: seq<JoinedRow>)
    ensures forall r :: r in rs ==> r in rows && r.id == id
  {
    if rows == [] then []
    else (if rows[0].id == id then [rows[0]] else []) + RowsWithId(rows[1..], id)
  }

  function IdSet(cs: seq<Category>): set<int> {
    set c | c in cs :: c.id
  }

  lemma {:induction false} RowsWithIdAppend(a: seq<JoinedRow>, b: seq<JoinedRow>, id: int)
    ensures RowsWithId(a + b, id) == RowsWithId(a, id) + RowsWithId(b, id)
    decreases |a|
  {
    if a == [] {
      assert a + b == b;
    } else {
      assert (a + b)[1..] == a[1..] + b;
      RowsWithIdAppend(a[1..], b, id);
    }
  }

  lemma {:induction false} RowsWithIdAll(rows: seq<JoinedRow>, id: int)
    requires forall j :: 0 <= j < |rows| ==> rows[j].id == id
    ensures RowsWithId(rows, id) == rows
    decreases |rows|
  {
    if rows != [] {
      RowsWithIdAll(rows[1..], id);
    }
  }

  lemma {:induction false} RowsWithIdNone(rows: seq<JoinedRow>, id: int)
    requires forall j :: 0 <= j < |rows| ==> rows[j].id != id
    ensures RowsWithId(rows, id) == []
    decreases |rows|
  {
    if rows != [] {
      RowsWithIdNone(rows[1..], id);
    }
  }

  /** Cutting the rows into a leading run and the rest splits the set of ids the same way. */
  lemma {:induction false} RowIdsSplit(rows: seq<JoinedRow>)
    requires rows != []
    ensures RowIds(rows) == {rows[0].id} + RowIds(rows[RunLength(rows)..])
  {
    var n := RunLength(rows);
    forall y | y in RowIds(rows) ensures y in {rows[0].id} + RowIds(rows[n..]) {
      var j :| 0 <= j < |rows| && rows[j].id == y;
      if j >= n {
        assert rows[n..][j - n] == rows[j];
      }
    }
    forall y | y in RowIds(rows[n..]) ensures y in RowIds(rows) {
      var r :| r in rows[n..] && r.id == y;
    }
  }

  /** The run decomposition `Categories` names exactly the ids of the rows (sorted or not). */
  lemma {:induction false} CategoriesIdSet(rows: seq<JoinedRow>)
    ensures IdSet(Categories(rows)) == RowIds(rows)
    decreases |rows|
  {
    if rows != [] {
      var n := RunLength(rows);
      var head := Category(rows[0].id, rows[0].name, Subcategories(rows[..n]));
      CategoriesIdSet(rows[n..]);
      RowIdsSplit(rows);
      assert IdSet([head] + Categories(rows[n..])) == {head.id} + IdSet(Categories(rows[n..]));
    }
  }

  /** After a run in sorted rows, every later id is larger. */
  lemma {:induction false} SortedAfterRun(rows: seq<JoinedRow>)
    requires rows != [] && SortedById(rows)
    ensures SortedById(rows[RunLength(rows)..])
    ensures forall j :: RunLength(rows) <= j < |rows| ==> rows[0].id < rows[j].id
  {
    var n := RunLength(rows);
    forall j | n <= j < |rows| ensures rows[0].id < rows[j].id {
      assert rows[0].id <= rows[n].id <= rows[j].id;
    }
  }

  /** Category ids strictly increase along the listing. */
  ghost predicate IdsIncrease(cs: seq<Category>) {
    forall i, j :: 0 <= i < j < |cs| ==> cs[i].id < cs[j].id
  }

  /** Category `c` carries the name of the first row with its id and the subcategories of all of them. */
  ghost predicate HoldsGroup(rows: seq<JoinedRow>, c: Category) {
    && RowsWithId(rows, c.id) != []
    && c.name == RowsWithId(rows, c.id)[0].name
    && c.subcategories == Subcategories(RowsWithId(rows, c.id))
  }

  lemma {:induction false} RowIdsAbove(rows: seq<JoinedRow>, bound: int)
    requires forall j :: 0 <= j < |rows| ==> bound < rows[j].id
    ensures forall y :: y in RowIds(rows) ==> bound < y
  {
    forall y | y in RowIds(rows) ensures bound < y {
      var r :| r in rows && r.id == y;
    }
  }

  /** In sorted rows, every category after the first has a larger id than the first row. */
  lemma {:induction false} LaterIdsAbove(rows: seq<JoinedRow>)
    requires rows != [] && SortedById(rows)
    ensures forall c :: c in Categories(rows[RunLength(rows)..]) ==> rows[0].id < c.id
  {
    var n := RunLength(rows);
    var later := rows[n..];
    SortedAfterRun(rows);
    assert forall j :: 0 <= j < |later| ==> rows[0].id < later[j].id by {
      forall j | 0 <= j < |later| ensures rows[0].id < later[j].id {
        assert later[j] == rows[n + j];
      }
    }
    RowIdsAbove(later, rows[0].id);
    CategoriesIdSet(later);
    forall c | c in Categories(later) ensures rows[0].id < c.id {
      assert c.id in IdSet(Categories(later));
    }
  }

  lemma {:induction false} SortedIdsIncrease(rows: seq<JoinedRow>)
    requires SortedById(rows)
    ensures IdsIncrease(Categories(rows))
    decreases |rows|
  {
    if rows != [] {
      var n := RunLength(rows);
      SortedAfterRun(rows);
      SortedIdsIncrease(rows[n..]);
      LaterIdsAbove(rows);
      var cs := Categories(rows);
      var tail := Categories(rows[n..]);
      assert cs == [cs[0]] + tail;
      forall i, j | 0 <= i < j < |cs| ensures cs[i].id < cs[j].id {
        assert cs[j] == tail[j - 1] && cs[j] in tail;
        if i > 0 {
          assert cs[i] == tail[i - 1];
        }
      }
    }
  }

  /** In sorted rows, the rows with the first id are exactly the leading run. */
  lemma {:induction false} SortedFirstGroup(rows: seq<JoinedRow>)
    requires rows != [] && SortedById(rows)
    ensures RowsWithId(rows, rows[0].id) == rows[..RunLength(rows)]
  {
    var n := RunLength(rows);
    SortedAfterRun(rows);
    assert rows[..n] + rows[n..] == rows;
    RowsWithIdAppend(rows[..n], rows[n..], rows[0].id);
    RowsWithIdAll(rows[..n], rows[0].id);
    RowsWithIdNone(rows[n..], rows[0].id);
    assert rows[..n] + [] == rows[..n];
  }

  /** The rows with an id above the first one all come after the leading run. */
  lemma {:induction false} LaterGroup(rows: seq<JoinedRow>, id: int)
    requires rows != [] && rows[0].id < id
    ensures RowsWithId(rows, id) == RowsWithId(rows[RunLength(rows)..], id)
  {
    var n := RunLength(rows);
    assert rows[..n] + rows[n..] == rows;
    RowsWithIdAppend(rows[..n], rows[n..], id);
    RowsWithIdNone(rows[..n], id);
    assert [] + RowsWithId(rows[n..], id) == RowsWithId(rows[n..], id);
  }

  /** In sorted rows, each category holds the subcategories of every row with its id. */
  lemma {:induction false} SortedContents(rows: seq<JoinedRow>)
    requires SortedById(rows)
    ensures forall j :: 0 <= j < |Categories(rows)| ==> HoldsGroup(rows, Categories(rows)[j])
    decreases |rows|
  {
    if rows != [] {
      var n := RunLength(rows);
      SortedAfterRun(rows);
      SortedContents(rows[n..]);
      SortedIdsIncrease(rows);
      SortedFirstGroup(rows);
      var cs := Categories(rows);
      var tail := Categories(rows[n..]);
      assert cs == [cs[0]] + tail;
      assert HoldsGroup(rows, cs[0]) by {
        assert rows[..n][0] == rows[0];
      }
      forall j | 0 < j < |cs| ensures HoldsGroup(rows, cs[j]) {
        assert cs[0].id < cs[j].id;
        assert cs[j] == tail[j - 1];
        assert HoldsGroup(rows[n..], tail[j - 1]);
        LaterGroup(rows, cs[j].id);
      }
    }
  }

  lemma {:induction false} IdSetCons(cs: seq<Category>)
    requires cs != []
    ensures IdSet(cs) == {cs[0].id} + IdSet(cs[1..])
  {
    assert cs == [cs[0]] + cs[1..];
  }

  lemma {:induction false} IncreasingIdCount(cs: seq<Category>)
    requires IdsIncrease(cs)
    ensures |IdSet(cs)| == |cs|
    decreases |cs|
  {
    if cs != [] {
      IncreasingIdCount(cs[1..]);
      IdSetCons(cs);
      forall c | c in cs[1..] ensures c.id != cs[0].id {
        var k :| 0 <= k < |cs[1..]| && cs[1..][k] == c;
        assert cs[k + 1] == c;
      }
      assert cs[0].id !in IdSet(cs[1..]);
    }
  }

  /**
   * For rows sorted by category id, the transform groups by id: the categories come in
   * increasing id order, there is one per distinct id of the rows, and each carries the
   * name of the first row with its id and the subcategories of all rows with its id.
   */
  lemma {:induction false} SortedGroupsById(rows: seq<JoinedRow>)
    requires SortedById(rows)
    requires rows == [] || rows[0].id != 0
    ensures Flatten(rows).Ok?
    ensures IdsIncrease(Flatten(rows).value)
    ensures IdSet(Flatten(rows).value) == RowIds(rows)
    ensures |Flatten(rows).value| == |RowIds(rows)|
    ensures forall j :: 0 <= j < |Flatten(rows).value| ==> HoldsGroup(rows, Flatten(rows).value[j])
  {
    SortedIdsIncrease(rows);
    CategoriesIdSet(rows);
    SortedContents(rows);
    IncreasingIdCount(Categories(rows));
  }

  /** Without the sort, an id that comes back after another id opens a second category. */
  lemma {:induction false} UnsortedDuplicates()
    ensures var a := JoinedRow(1, "A", None, None, None);
      var b := JoinedRow(2, "B", None, None, None);
      Flatten([a, b, a]) == Ok([Category(1, "A", []), Category(2, "B", []), Category(1, "A", [])])
  {
    var a := JoinedRow(1, "A", None, None, None);
    var b := JoinedRow(2, "B", None, None, None);
    OneCategory([a]);
    assert Categories([a]) == [Category(1, "A", [])];
    RunLengthUnique([b, a], 1);
    assert [b, a][..1] == [b] && [b, a][1..] == [a];
    NullRowsAddNothing([b]);
    assert Categories([b, a]) == [Category(2, "B", [])] + Categories([a]);
    RunLengthUnique([a, b, a], 1);
    assert [a, b, a][..1] == [a] && [a, b, a][1..] == [b, a];
    NullRowsAddNothing([a]);
    assert Categories([a, b, a]) == [Category(1, "A", [])] + Categories([b, a]);
    assert Categories([a, b, a]) == [Category(1, "A", []), Category(2, "B", []), Category(1, "A", [])];
    assert Flatten([a, b, a]) == Ok(Categories([a, b, a]));
  }

  /** The worked example: two subcategories of category 1, then category 2 without any. */
  lemma {:induction false} WorkedExample()
    ensures var rows := [
        JoinedRow(1, "A", Some(10), Some("A1"), Some("d1")),
        JoinedRow(1, "A", Some(11), Some("A2"), Some("d2")),
        JoinedRow(2, "B", None, None, None)];
      Flatten(rows) == Ok([
        Category(1, "A", [Subcategory(10, Some("A1"), Some("d1")), Subcategory(11, Some("A2"), Some("d2"))]),
        Category(2, "B", [])])
  {
    var r1 := JoinedRow(1, "A", Some(10), Some("A1"), Some("d1"));
    var r2 := JoinedRow(1, "A", Some(11), Some("A2"), Some("d2"));
    var r3 := JoinedRow(2, "B", None, None, None);
    var rows := [r1, r2, r3];
    OneCategory([r3]);
    assert Categories([r3]) == [Category(2, "B", [])];
    RunLengthUnique(rows, 2);
    assert rows[..2] == [r1] + [r2] && rows[2..] == [r3];
    SubcategoriesAppend([r1], [r2]);
    SubcategoriesOfRow(r1);
    SubcategoriesOfRow(r2);
    assert Categories(rows) == [Category(1, "A", Subcategories([r1] + [r2]))] + Categories([r3]);
    assert Subcategories([r1] + [r2]) == [Subcategory(10, Some("A1"), Some("d1")), Subcategory(11, Some("A2"), Some("d2"))];
    assert Flatten(rows) == Ok(Categories(rows));
    assert Categories(rows) == [
      Category(1, "A", [Subcategory(10, Some("A1"), Some("d1")), Subcategory(11, Some("A2"), Some("d2"))]),
      Category(2, "B", [])];
  }

  // ---------------------------------------------------------------------------
  // Round trip through the joined rows

  /** The rows the outer join would return for subcategories `subs` of category `id`. */
  function SubcategoryRows(id: int, name: string, subs: seq<Subcategory>): (rows: seq<JoinedRow>)
    ensures |rows| == |subs|
    ensures forall j :: 0 <= j < |rows| ==> rows[j].id == id && rows[j].name == name
  {
    if subs == [] then []
    else
      [JoinedRow(id, name, Some(subs[0].id), subs[0].name, subs[0].description)]
      + SubcategoryRows(id, name, subs[1..])
  }

  /** The rows for one category: one per subcategory, or one NULL row when it has none. */
  function CategoryRows(c: Category): (rows: seq<JoinedRow>)
    ensures rows != [] && rows[0].name == c.name
    ensures forall j :: 0 <= j < |rows| ==> rows[j].id == c.id
  {
    if c.subcategories == [] then [JoinedRow(c.id, c.name, None, None, None)]
    else SubcategoryRows(c.id, c.name, c.subcategories)
  }

  /** The rows a listing comes from. */
  function Unflatten(cs: seq<Category>): (rows: seq<JoinedRow>)
    ensures cs != [] ==> rows != [] && rows[0].id == cs[0].id
  {
    if cs == [] then [] else CategoryRows(cs[0]) + Unflatten(cs[1..])
  }

  /** The shape of every listing the transform produces. */
  ghost predicate WellFormed(cs: seq<Category>) {
    && (cs != [] ==> cs[0].id != 0)
    && AdjacentDistinct(cs)
    && SubcategoryIdsTruthy(cs)
  }

  lemma {:induction false} SubcategoryRowsBack(id: int, name: string, subs: seq<Subcategory>)
    requires forall s :: s in subs ==> s.id != 0
    ensures Subcategories(SubcategoryRows(id, name, subs)) == subs
    decreases |subs|
  {
    if subs != [] {
      var rows := SubcategoryRows(id, name, subs);
      assert rows[1..] == SubcategoryRows(id, name, subs[1..]);
      SubcategoryRowsBack(id, name, subs[1..]);
    }
  }

  lemma {:induction false} CategoryRowsBack(c: Category)
    requires forall s :: s in c.subcategories ==> s.id != 0
    ensures Subcategories(CategoryRows(c)) == c.subcategories
  {
    if c.subcategories == [] {
      NullRowsAddNothing(CategoryRows(c));
    } else {
      SubcategoryRowsBack(c.id, c.name, c.subcategories);
    }
  }

  /** Every subcategory of the listing has a truthy id. */
  ghost predicate SubcategoryIdsTruthy(cs: seq<Category>) {
    forall j, s :: 0 <= j < |cs| && s in cs[j].subcategories ==> s.id != 0
  }

  /** Dropping the first category keeps both shape conditions. */
  lemma {:induction false} ShapeOfTail(cs: seq<Category>)
    requires cs != [] && AdjacentDistinct(cs) && SubcategoryIdsTruthy(cs)
    ensures AdjacentDistinct(cs[1..]) && SubcategoryIdsTruthy(cs[1..])
  {
    assert AdjacentDistinct(cs[1..]) by {
      forall j | 0 <= j < |cs[1..]| - 1 ensures cs[1..][j].id != cs[1..][j + 1].id {
        assert cs[1..][j] == cs[j + 1] && cs[1..][j + 1] == cs[j + 2];
      }
    }
    assert SubcategoryIdsTruthy(cs[1..]) by {
      forall j, s | 0 <= j < |cs[1..]| && s in cs[1..][j].subcategories ensures s.id != 0 {
        assert cs[1..][j] == cs[j + 1];
      }
    }
  }

  /** The rows of the first category are exactly the first run of the listing's rows. */
  lemma {:induction false} FirstRunOfUnflatten(cs: seq<Category>)
    requires cs != [] && AdjacentDistinct(cs)
    ensures RunLength(Unflatten(cs)) == |CategoryRows(cs[0])|
  {
    var head := CategoryRows(cs[0]);
    var rest := Unflatten(cs[1..]);
    var rows := head + rest;
    assert Unflatten(cs) == rows;
    var k := |head|;
    assert forall j :: 0 <= j < k ==> rows[j].id == rows[0].id by {
      forall j | 0 <= j < k ensures rows[j].id == rows[0].id {
        assert rows[j] == head[j];
      }
    }
    if k < |rows| {
      assert rows[k] == rest[0] && rest[0].id == cs[1..][0].id == cs[1].id;
    }
    RunLengthUnique(rows, k);
  }

  lemma {:induction false} CategoriesOfUnflatten(cs: seq<Category>)
    requires AdjacentDistinct(cs) && SubcategoryIdsTruthy(cs)
    ensures Categories(Unflatten(cs)) == cs
    decreases |cs|
  {
    if cs != [] {
      var head := CategoryRows(cs[0]);
      var rest := Unflatten(cs[1..]);
      var rows := head + rest;
      assert Unflatten(cs) == rows;
      var k := |head|;
      FirstRunOfUnflatten(cs);
      assert rows[..k] == head && rows[k..] == rest;
      CategoryRowsBack(cs[0]);
      ShapeOfTail(cs);
      CategoriesOfUnflatten(cs[1..]);
      assert Categories(rows) == [Category(rows[0].id, rows[0].name, Subcategories(head))] + Categories(rest);
      assert cs == [cs[0]] + cs[1..];
    }
  }

  /** Flattening the rows of a well-formed listing gives the listing back. */
  lemma {:induction false} RoundTrip(cs: seq<Category>)
    requires WellFormed(cs)
    ensures Flatten(Unflatten(cs)) == Ok(cs)
  {
    CategoriesOfUnflatten(cs);
  }

  /** Every listing the transform produces is well-formed. */
  lemma {:induction false} FlattenWellFormed(rows: seq<JoinedRow>)
    requires Flatten(rows).Ok?
    ensures WellFormed(Flatten(rows).value)
    decreases |rows|
  {
    if rows != [] {
      if rows[0].id == 0 {
        FlattenWellFormed(rows[1..]);
      } else {
        CategoriesAdjacentDiffer(rows);
        CategoriesKeepSubcategories(rows);
        var cs := Categories(rows);
        forall j, s | 0 <= j < |cs| && s in cs[j].subcategories ensures s.id != 0 {
          AllSubcategoriesMember(cs, j, s);
        }
      }
    }
  }

  lemma {:induction false} AllSubcategoriesMember(cs: seq<Category>, j: nat, s: Subcategory)
    requires j < |cs| && s in cs[j].subcategories
    ensures s in AllSubcategories(cs)
    decreases j
  {
    if j > 0 {
      AllSubcategoriesMember(cs[1..], j - 1, s);
    }
  }

  /** Re-flattening the rows of the transform's own output reproduces that output. */
  lemma {:induction false} Reflatten(rows: seq<JoinedRow>)
    requires Flatten(rows).Ok?
    ensures Flatten(Unflatten(Flatten(rows).value)) == Flatten(rows)
  {
    FlattenWellFormed(rows);
    RoundTrip(Flatten(rows).value);
  }
}
