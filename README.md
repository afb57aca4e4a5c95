# NutriMeal Navigator recipe filter, modelled in Dafny

The NutriMeal Navigator dashboard loads a table of recipes and lets the user
pick dietary restrictions (Vegetarian, Vegan, Gluten-Free, Peanut-Free) and a
meal type (Any, Breakfast, Lunch, Dinner, Dessert). The one piece of logic
behind it is `filter_recipes`. That function is a stable, conjunctive row
filter, and it works in three steps:

1. If a requested restriction is not a column of the table, it shows an error
   message naming that restriction and returns an empty table.
2. Otherwise it keeps the rows whose every requested flag is true.
3. Unless the meal type is empty or `Any`, it then keeps the rows whose
   meal type is present and contains the requested text, ignoring case.

The model has three modules:

- `Text` (text.dfy): ASCII case folding, plain substring containment
  (`Contains`) and its case-insensitive form (`ContainsIgnoreCase`). Each is
  proved against an independent "there is a position where ... occurs"
  definition.
- `Masks` (masks.dfy): boolean-mask selection of rows. `Select` keeps the
  rows a predicate accepts. `ApplyMask` is indexing by a precomputed mask.
  `Kept` lists the kept positions. The lemmas prove stability, that no element
  is altered, completeness, idempotence, commutation and fusion of two
  selections.
- `Recipes` (recipes.dfy): rows, tables and the outcome of a call, then the
  filter `FilterRecipes` and its properties. It also holds the worked examples
  and the dietary step as the code writes it (`FilterRecipesAsWritten`), which
  is the subject of the finding below.

A call's outcome is `Returned(frame, alert)` or `Raised(key)`:

- `frame` is the table handed back to the caller.
- `alert` is the restriction named in the error message, if a message was
  shown. The message itself is a side effect of the dashboard, so the model
  keeps only the name.
- `Raised(key)` stands for a failed column lookup, which raises an exception.

The meal type argument is an `Option<string>`: `None` models an absent value.

The error message names only the first unknown restriction, in request
order.

The per-row tests are small definitions in `Recipes`, each stated through the
lemmas about the filter:

- `Flag` (app.py:20) reads one dietary flag cell of a row.
  `HasAll` and `FilterIsSound` state what the dietary step makes of it.
- `MealFilterActive` (app.py:23) is the guard that runs the meal-type step only for a present,
  non-empty meal type other than `Any`.
  `InactiveMealTypeIsIgnored` states its meaning.
- `MealMatches` (app.py:24) is the per-row meal-type test, including the rule
  that a missing meal type never matches. `FilterIsSound` and
  `FilterIsComplete` state its meaning.
- `Wanted` (app.py:20-24) is the whole query as one row predicate.
  `FilterSelectsWanted` and `FilterIsStableSubsequence` relate the filter to it.

## Model

| member | source | states |
|---|---|---|
| `Recipes.FilterRecipes` | app.py:14-26 | if no message is shown, the returned table keeps the input's columns and has no more rows than the input |
| `Recipes.FirstUnknown` | app.py:16-19 | returns nothing exactly when every requested restriction is a column; otherwise returns the first restriction in request order that is not a column |
| `Recipes.HasAll` | app.py:20 | a row passes the dietary step exactly when every requested flag is true (an AND over the requested restrictions) |
| `Recipes.UnknownRestrictionRejects` | app.py:16-19 | a message is shown exactly when some requested restriction is not a column; then the returned table is the empty table, whatever the rows and the meal type, and the message names the first unknown restriction |
| `Recipes.RaisesOnlyWithoutMealTypeColumn` | app.py:23-24 | the filter raises exactly when every restriction is known, the meal-type filter runs and the table has no `meal_type` column; the missing key is then `meal_type` |
| `Recipes.FilterSelectsWanted` | app.py:20-24 | when no message is shown, the result keeps the columns and its rows are the input rows that satisfy the whole query (all flags, and the meal type if that filter runs), in input order |
| `Recipes.FilterIsSound` | app.py:20-24 | every returned row has every requested flag true and, when the meal-type filter runs, a present meal type that contains the requested one, ignoring case |
| `Recipes.FilterIsComplete` | app.py:20-24 | when every restriction is a column (and the meal-type column exists if needed), every input row that satisfies the query appears in the result |
| `Recipes.FilterIsStableSubsequence` | app.py:20-24 | the result rows are the input rows at the kept positions, in increasing order and unaltered, and a position is kept exactly when its row satisfies the query |
| `Recipes.InactiveMealTypeIsIgnored` | app.py:23 | an absent meal type, an empty one and `Any` all give the same result as no meal type |
| `Recipes.NoCriteriaKeepsTable` | app.py:20-26 | with no restriction and no meal type the table comes back unchanged |
| `Recipes.MealThenDietary` | app.py:20-24 | running the meal-type step before the dietary step gives the same rows |
| `Recipes.FilterIdempotent` | app.py:14-26 | filtering a returned table again with the same query returns the same table, and the same outcome when no message was shown |
| `Recipes.StackedAll` | app.py:20 | stacking the flag columns and AND-ing across the stack gives, for a non-empty request, one entry per row that is true exactly when the row has every requested flag, and for an empty request the bare boolean `True` |
| `Recipes.FilterRecipesAsWritten` | app.py:14-26 | the code as written; if no message is shown, the returned table keeps the input's columns and has no more rows |
| `Recipes.AsWrittenAgreesOnNonEmptyRequest` | app.py:20-24 | for every non-empty request, the code as written and the model give the same outcome |
| `Recipes.AsWrittenRaisesOnEmptyRequest` | app.py:20 | an empty request raises with key `True` in the code as written, for every table and meal type; the model never raises with that key |
| `Recipes.EmptyRequestExample` | app.py:20 | for the dashboard's initial choice (no restriction, meal type `Any`) on a sample table, the code as written raises while the model returns every row |
| `Recipes.VeganExample` | app.py:20 | a vegan breakfast and a non-vegan dinner, filtered for Vegan with meal type Any, give just the vegan breakfast |
| `Recipes.KetoExample` | app.py:16-19 | asking for Keto on a table with no Keto column returns the empty table with a message naming Keto |
| `Recipes.BreakfastExample` | app.py:20-24 | asking for Gluten-Free with meal type `BREAKFAST` keeps the row whose meal type is `Breakfast` and drops `Dinner`, in the code as written and in the model alike |
| `Recipes.EmptyTableExample` | app.py:14-26 | an empty table with a non-empty request of known restrictions comes back empty, without a message, in the code as written and in the model alike |
| `Masks.Select` | app.py:20 | every selected row is an input row accepted by the predicate, and every accepted input row is selected |
| `Masks.ApplyMask` | app.py:24 | indexing by a mask returns only input rows and no more rows than the input |
| `Masks.Kept` | app.py:20 | the kept positions are valid and strictly increasing |
| `Masks.KeptMembership` | app.py:20 | a position is kept exactly when its row is accepted |
| `Masks.SelectAtKept` | app.py:20 | the k-th selected row is the input row at the k-th kept position |
| `Masks.ApplyMaskOfPredicate` | app.py:24 | indexing by the mask a predicate computes is the same as selecting by that predicate |
| `Masks.SelectIdempotent` | app.py:20 | selecting twice by the same predicate is the same as selecting once |
| `Masks.SelectCommutes` | app.py:20-24 | two selections give the same result in either order |
| `Masks.SelectFuse` | app.py:20-24 | two successive selections equal one selection by their conjunction |
| `Masks.SelectAll` | app.py:20 | a predicate that accepts every row leaves the rows unchanged |
| `Text.Contains` | app.py:24 | true exactly when the pattern occurs somewhere in the text |
| `Text.ContainsIgnoreCase` | app.py:24 | true exactly when the pattern occurs somewhere in the text with letters compared after ASCII case folding |
| `Text.ExactImpliesIgnoreCase` | app.py:24 | an exact occurrence is also a case-insensitive one |
| `Text.ContainsIgnoreCaseFoldInvariant` | app.py:24 | folding the case of the text or of the pattern does not change the answer |
| `Text.CompoundValueMatches` | app.py:24 | `dinner` matches the compound stored value `Holiday Dinner Special` |
| `Text.OtherValueDoesNotMatch` | app.py:24 | `Dinner` does not match `Lunch` |

## Left out

- `load_data` (app.py:7-11) is not modelled. It reads a CSV file and caches it, which is file I/O.
- `style_dataframe` and `main` (app.py:29-104) are not modelled. They are presentation: CSS, widgets, the button, the "Found N recipes" and "No recipes found" messages, and rendering the table.
- The error message at app.py:18 is a user-interface side effect. The model keeps only the restriction it names, as `alert`.
- `str.contains` treats its pattern as a regular expression by default. The model uses plain substring containment, since the dashboard only offers plain words.
- Text.ContainsIgnoreCase: folds only the ASCII letters A-Z. The regular-expression engine's case-insensitive matching also folds other Unicode letters.
- Pandas details are not modelled: index labels, dtype coercion, duplicate column names, and the truthiness of non-boolean or missing flag values. Flags are `bool`.
- Recipes.Flag: reads a cell that a row lacks as false. A real table has every cell, so this case cannot arise for a restriction that is a column.
- Asking for a restriction that names a non-flag column (such as `title` or `meal_type`) would AND the truthiness of that column's values. The model has no such values, so `Flag` reads them as false.
- Rows hold only the dietary flags and the meal type. The filter reads no other column (`title`, `rating`, `calories`, `protein`, `fat`) and returns rows unaltered, so those columns are not represented.

## Findings

| source | as written | input that shows it | evidently intended | confidence | as-written member | corrected member |
|---|---|---|---|---|---|---|
| app.py:20 | With no restriction selected, the AND across an empty stack of columns is a bare `True`, not a row mask. Indexing the table with it looks up a column named `True` and raises. | No restriction selected, meal type `Any`. This is the dashboard's initial state (app.py:82-91), on any table. | With no restriction, the dietary step keeps every row (the empty AND). | likely; not executed | `Recipes.FilterRecipesAsWritten`, `Recipes.AsWrittenRaisesOnEmptyRequest`, `Recipes.EmptyRequestExample` | `Recipes.FilterRecipes`, `Recipes.NoCriteriaKeepsTable`, `Recipes.AsWrittenAgreesOnNonEmptyRequest` |
