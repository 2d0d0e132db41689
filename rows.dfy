/**
 * The data the join-flattening transform consumes and produces: one row of the
 * category / sub_category join, and the nested category listing built from it.
 */
module Rows {
  import opened Wrappers

  /**
   * One row of `SELECT c.id, c.name, s.id AS subcategory_id, s.name AS subcategory_name,
   * s.description`. The three subcategory columns are NULL when the outer join found no
   * subcategory for the category.
   */
  datatype JoinedRow = JoinedRow(
    id: int,
    name: string,
    subcategoryId: Option<int>,
    subcategoryName: Option<string>,
    description: Option<string>)

  /** An element of a category's `subcategories` list. */
  datatype Subcategory = Subcategory(id: int, name: Option<string>, description: Option<string>)

  /** An element of the listing: a category with the subcategories of its rows. */
  datatype Category = Category(id: int, name: string, subcategories: seq<Subcategory>)

  /** The errors the model layer throws. */
  datatype Error =
    | MysqlError            // `throw new Error('Mysql error.')`
    | NullCurrentCategory   // `currentCategory!` dereferenced while still null

  /**
   * JavaScript truthiness of the row's `subcategory_id`: NULL and 0 are falsy,
   * every other number is truthy.
   */
  predicate HasSubcategory(row: JoinedRow): (b: bool)
    ensures b <==> row.subcategoryId != None && row.subcategoryId != Some(0)
  {
    row.subcategoryId.Some? && row.subcategoryId.value != 0
  }

  /** The subcategory object a row carries, renaming the aliased columns back. */
  function ToSubcategory(row: JoinedRow): (s: Subcategory)
    requires HasSubcategory(row)
    ensures s.id == row.subcategoryId.value && s.id != 0
    ensures s.name == row.subcategoryName && s.description == row.description
  {
    Subcategory(row.subcategoryId.value, row.subcategoryName, row.description)
  }

  /** All subcategories of a listing, category after category. */
  function AllSubcategories(cs: seq<Category>): seq<Subcategory> {
    if cs == [] then [] else cs[0].subcategories + AllSubcategories(cs[1..])
  }

  /** The set of category ids the rows mention. */
  function RowIds(rows: seq<JoinedRow>): set<int> {
    set r | r in rows :: r.id
  }
}
