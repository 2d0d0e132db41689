# Category listing model of mysql2-w-express

This project models, in Dafny, the only piece of logic in the model layer of a small
Express/MySQL REST API (`src/models/mall.model.ts`):

* the **join-flattening transform** of `sqlSelectLeftJoin`: the flat rows of the
  `category LEFT OUTER JOIN sub_category ... ORDER BY c.id` query are folded into a list
  of categories, each carrying the list of its subcategories;
* the **value-row construction** of `sqlInsertMultiple`: one
  `[category_id, item.name, item.description]` triple per item, handed to the query
  formatter with the fixed `INSERT ... VALUES ?` template.

Files and modules:

| file | module | contents |
|---|---|---|
| `wrappers.dfy` | `Wrappers` | `Option` (NULL / missing values) and `Result` (thrown errors) |
| `rows.dfy` | `Rows` | `JoinedRow`, `Subcategory`, `Category`, `Error`; JavaScript truthiness of `subcategory_id` |
| `flattening.dfy` | `Flattening` | `Flatten`, the meaning of the transform, defined by maximal runs of equal id; the step lemma `FlattenSnoc` |
| `mall_model.dfy` | `MallModel` | `SelectLeftJoin`, the imperative loop proved equal to `Flatten`; `sqlInsertMultiple`'s statement |
| `flattening_properties.dfy` | `FlatteningProperties` | grouping, ordering, NULL filtering, sort dependency, failure, round trip |

How the source maps onto the model:

* A row is `JoinedRow(id, name, subcategoryId, subcategoryName, description)`; the three
  subcategory columns are `Option`s because the outer join returns NULL for them.
  `subcategoryId` is "present" exactly when it is truthy in JavaScript: `Some(v)` with
  `v != 0` (`Rows.HasSubcategory`).
* `SelectLeftJoin` keeps the loop of the source: the sentinel `currentID` starting at 0,
  `modifiedResults` as a `seq<Category>`, and each `currentCategory!.subcategories.push`
  as an update of the **last** element of that sequence, which is the object that
  `currentCategory` still refers to after it was pushed.
* The value the database call returned is a parameter (`QueryResult`): a row set, or a
  result header that is not an array, for which the source throws `Mysql error.`.
* The correctness statement of the loop is `ensures r == Flatten(results.rows)`.
  `Flatten` is defined independently of the loop: rows before the first row with a non-zero id
  open no category; after that the rows are cut into maximal runs of equal id, and each
  run becomes one category taking `id` and `name` from its first row and the truthy subcategories of
  all its rows, in order.

Two points of the source's behaviour that the model makes explicit:

* A row with id 0 looks exactly like the initial sentinel `currentID = 0`
  (src/models/mall.model.ts:116 and 128). Rows with id 0 that come before any other id
  open no category. If one of them has a truthy `subcategory_id`, `currentCategory!` is
  still `null` and the push at line 145 throws. The model returns
  `Err(NullCurrentCategory)` for that case (`FlattenFailsExactly`) and proves that a first
  row with a non-zero id rules it out (the last `ensures` of `Flatten`).
* The grouping relies on its input being sorted by id, as the comment at
  src/models/mall.model.ts:129 says, but does not check it; the sort is the `ORDER BY c.id`
  of the query. The model takes it as the precondition `SortedById` of the grouping
  theorem `SortedGroupsById`. Without it an id can come back and open a second
  category (`UnsortedDuplicates`).

Observation, not modelled further: `sqlInsertMultiple` inserts into a table named
`subcategory`, while every other statement of the file that names the subcategory table
spells it `sub_category` (src/models/mall.model.ts:36, 49, 62, 90, 97). The model
keeps the template as written (`MallModel.InsertMultipleSql`).

## Model

| member | source | states |
|---|---|---|
| `MallModel.SelectLeftJoin` | src/models/mall.model.ts:103-154 | a non-array query result gives `Err(MysqlError)`; for a row set the loop's result is exactly `Flatten(rows)`, including its failure |
| `MallModel.LoopStep` | src/models/mall.model.ts:128-146 | one iteration against `Flatten`: after the category is opened when the id differs from `currentID`, the last category has the row's id and the prefix's listing is the push of the row's subcategory onto it; with no category open the row is dropped when falsy and throws when truthy |
| `Flattening.Flatten` | src/models/mall.model.ts:116-149 | no rows give `Ok([])`; the listing never has more categories than there are rows; the only failure is `NullCurrentCategory`; a first row with a non-zero id always gives a non-empty listing |
| `Rows.HasSubcategory` | src/models/mall.model.ts:144 | the truthiness test of `subcategory_id`: true exactly when it is neither NULL nor 0 |
| `Rows.ToSubcategory` | src/models/mall.model.ts:122-126 | the subcategory object carries the row's `subcategory_id` (non-zero), `subcategory_name` and `description` under the names `id`, `name`, `description` |
| `Flattening.Open` | src/models/mall.model.ts:133-145 | the new category has the row's id and name, and its subcategory list is the row's own subcategory when truthy, otherwise empty |
| `Flattening.AddToLast` | src/models/mall.model.ts:143-145 | the push through `currentCategory` changes only the last category: same length, earlier categories, id and name unchanged; it appends the row's subcategory when truthy and changes nothing otherwise |
| `Flattening.RunLength` | src/models/mall.model.ts:128-133 | a run starts at the first row and lasts exactly while the id stays that of its first row |
| `Flattening.Categories` | src/models/mall.model.ts:128-141 | each run yields one category; the first category takes id and name from the first row; there are at most as many categories as rows |
| `Flattening.Subcategories` | src/models/mall.model.ts:122-146 | a block of rows contributes at most one subcategory per row, and every contributed subcategory has a non-zero (truthy) id |
| `Flattening.FlattenSnoc` | src/models/mall.model.ts:128-146 | one more row opens a new category when its id differs from that of the open category (or from the sentinel 0 when none is open), otherwise appends its subcategory, if truthy, to the last category; with id 0 and no open category it fails exactly when its subcategory id is truthy |
| `Flattening.FlattenSnocOpens` | src/models/mall.model.ts:128-141 | a row whose id differs from the open category's id, or from 0 when none is open, appends one new category built from that row |
| `Flattening.FlattenSnocJoins` | src/models/mall.model.ts:143-146 | a row with the open category's id changes only the last category, adding the row's subcategory when it is truthy |
| `Flattening.FlattenSnocOrphan` | src/models/mall.model.ts:144-145 | a row with id 0 while no category is open is dropped when its subcategory id is falsy and throws when it is truthy |
| `Flattening.FlattenErrPersists` | src/models/mall.model.ts:144-145 | once the push onto a null category has thrown, later rows do not change the outcome |
| `Flattening.CategoriesSnoc` | src/models/mall.model.ts:128-146 | appending a row to the rows of a run-decomposed listing either extends the last run or starts a new one |
| `Flattening.SubcategoriesAppend` | src/models/mall.model.ts:120-146 | the subcategories of two consecutive blocks of rows are those of the first followed by those of the second |
| `FlatteningProperties.FlattenFailsExactly` | src/models/mall.model.ts:116-145 | the transform throws if and only if some row with a truthy subcategory id arrives while it and every row before it have id 0 |
| `FlatteningProperties.CategoryPerIdChange` | src/models/mall.model.ts:128-141 | the number of categories equals the number of rows whose id differs from the previous row's id, the first row being compared with 0 |
| `FlatteningProperties.AdjacentIdsDiffer` | src/models/mall.model.ts:128-141 | consecutive categories of the listing have different ids |
| `FlatteningProperties.SubcategoriesMembers` | src/models/mall.model.ts:122-145 | a subcategory is listed if and only if some row with a truthy subcategory id carries it, with `subcategory_id`, `subcategory_name`, `description` renamed to `id`, `name`, `description` |
| `FlatteningProperties.SubcategoriesPreserved` | src/models/mall.model.ts:120-149 | the categories' subcategory lists, read in order, are exactly the subcategories of the truthy rows in row order; their total is the number of such rows and at most the number of rows |
| `FlatteningProperties.NullRowsAddNothing` | src/models/mall.model.ts:144-148 | rows whose subcategory id is NULL or 0 contribute no subcategory |
| `FlatteningProperties.NullRowChangesNothing` | src/models/mall.model.ts:144-148 | a NULL-subcategory row with the open category's id leaves the listing unchanged |
| `FlatteningProperties.OneCategory` | src/models/mall.model.ts:86-90 | rows that all share one non-zero id (what the single-category join returns) become exactly one category with all their truthy subcategories in order; with only NULL rows that category's list is empty |
| `FlatteningProperties.SortedGroupsById` | src/models/mall.model.ts:93-96 | for rows sorted by id with a non-zero first id, the listing has increasing ids, one category per distinct id of the rows, and each category has the name of the first row with its id and the subcategories of all rows with its id |
| `FlatteningProperties.SortedIdsIncrease` | src/models/mall.model.ts:128-141 | for sorted rows the categories come in strictly increasing id order |
| `FlatteningProperties.SortedContents` | src/models/mall.model.ts:128-146 | for sorted rows each category holds the subcategories of every row with its id |
| `FlatteningProperties.CategoriesIdSet` | src/models/mall.model.ts:128-141 | the run decomposition `Categories` (the listing whenever the first row's id is non-zero) names exactly the set of ids of the rows, sorted or not |
| `FlatteningProperties.IncreasingIdCount` | src/models/mall.model.ts:96-141 | a listing with strictly increasing ids has as many categories as distinct ids |
| `FlatteningProperties.UnsortedDuplicates` | src/models/mall.model.ts:128-141 | rows with ids 1, 2, 1 give three categories 1, 2, 1: the grouping relies on the sort |
| `FlatteningProperties.WorkedExample` | src/models/mall.model.ts:116-151 | two rows of category 1 with subcategories 10 and 11 and one NULL row of category 2 give category 1 with both subcategories in order and category 2 with none |
| `FlatteningProperties.RoundTrip` | src/models/mall.model.ts:93-151 | flattening the rows that the outer join returns for a well-formed listing gives that listing back |
| `FlatteningProperties.FlattenWellFormed` | src/models/mall.model.ts:128-146 | every listing the transform produces is well-formed: first id non-zero, consecutive ids distinct, subcategory ids truthy |
| `FlatteningProperties.Reflatten` | src/models/mall.model.ts:116-151 | re-flattening the rows of the transform's own output reproduces that output |
| `MallModel.ValueTriples` | src/models/mall.model.ts:184-186 | one value triple per item, in item order; triple `j` is `[category_id, items[j].name, items[j].description]` |
| `MallModel.InsertMultiple` | src/models/mall.model.ts:182-187 | the statement uses the fixed multi-row template, and its parameter list has exactly one element: the list of value triples, one per item, in item order, triple `j` being `[category_id, items[j].name, items[j].description]` |
| `MallModel.ValueTriplesRoundTrip` | src/models/mall.model.ts:185 | dropping the category id from the triples gives the items back unchanged and in order |
| `MallModel.CheckResults` | src/models/mall.model.ts:189-195 | a missing (falsy) execute result throws `Mysql error.`; any other result is returned unchanged |

## Left out

- Building the SQL text of `sqlSelectLeftJoin` (lines 80-101): a choice between two fixed templates with no further logic. The single-category branch appears only through `OneCategory`, the property of its rows.
- `mysql.format` escaping and the database's join and `ORDER BY` semantics: these belong to a foreign library and to the server. Sortedness is the precondition `SortedById`, and the rows of the outer join are modelled by `Unflatten` only to state the round trip.
- `sqlPoolExecute` and the pool and connection handling: network I/O. Their answer is the `QueryResult` / `Option<QueryResult>` parameter.
- `sqlSelectOneRow`, `sqlSelectFromSubPartial`, `sqlSelectFromSubOneRow`, `sqlSelectFromSubAll`, `sqlInsert`, `sqlUpdate`, `sqlDelete`: each is a fixed template plus a call to the pool.
- The controllers, routes and server setup (`src/controllers/sql.controller.ts`, `src/routes/mysql.route.ts`, `src/app.ts`): HTTP plumbing around the model-layer calls.
- Asynchrony: the model functions are `async` and throw by rejecting their promise. The model returns an `Err` instead.
- SelectLeftJoin: the shared object behind `currentCategory` and the last element of `modifiedResults` is modelled as an update of the last element of a sequence. Object identity is not modelled.
- Dynamic typing: ids are integers. A `subcategory_id` of another JavaScript type (a string or `NaN`) and the `!==` comparison between different types are not modelled.
- InsertMultiple: what the database does with an empty `items` list (the formatter then leaves `VALUES` without rows) is not modelled.
