/** The recipe filter of the NutriMeal Navigator dashboard: a stable,
    conjunctive row filter over a recipe table. It first checks that every
    requested dietary restriction is a column of the table, then keeps the
    rows whose every requested flag is true, then (unless the meal type is
    empty or "Any") keeps the rows whose meal type contains the requested
    text, ignoring case. */
module Recipes {
  import opened Text
  import opened Masks

  datatype Option<T> = None | Some(value: T)

  /** The column that holds each recipe's meal type. */
  const MealTypeColumn: string := "meal_type"

  /** The meal-type choice that switches the meal-type filter off. */
  const AnyMealType: string := "Any"

  /** The key a scalar `True` is looked up under when it stands where a row
      mask was expected. */
  const TrueKey: string := "True"

  /** The key a scalar `False` is looked up under. */
  const FalseKey: string := "False"

  /** One recipe: its dietary flags by column name, and its meal type, which
      is `None` where the table holds a missing value. */
  datatype Row = Row(flags: map<string, bool>, mealType: Option<string>)

  /** A recipe table: its column names and its rows, in order. */
  datatype Table = Table(columns: set<string>, rows: seq<Row>)

  /** The table with no columns and no rows. */
  const EmptyFrame: Table := Table({}, [])

  /** What a call of the filter comes to: a table handed back to the caller,
      together with the restriction named in the error message shown to the
      user, if one was shown; or a lookup of a key that is not a column,
      which raises. */
  datatype Outcome =
    | Returned(frame: Table, alert: Option<string>)
    | Raised(missingKey: string)

  /** The value of the flag column `name` in `row`; a cell the row lacks
      reads as false. */
  function Flag(row: Row, name: string): bool {
    name in row.flags && row.flags[name]
  }

  /** The first requested restriction, in request order, that is not a column
      of the table. */
  function FirstUnknown(restrictions: seq<string>, columns: set<string>): (r: Option<string>)
    ensures r.None? <==> forall i :: 0 <= i < |restrictions| ==> restrictions[i] in columns
    ensures r.Some? ==> exists i :: 0 <= i < |restrictions| && restrictions[i] == r.value &&
                                    r.value !in columns &&
                                    forall j :: 0 <= j < i ==> restrictions[j] in columns
    decreases |restrictions|
  {
    if restrictions == [] then None
    else if restrictions[0] !in columns then Some(restrictions[0])
    else
      var r := FirstUnknown(restrictions[1..], columns);
      assert r.Some? ==> exists i :: 1 <= i < |restrictions| && restrictions[i] == r.value &&
                                     r.value !in columns &&
                                     forall j :: 0 <= j < i ==> restrictions[j] in columns by {
        if r.Some? {
          var i :| 0 <= i < |restrictions| - 1 && restrictions[1..][i] == r.value &&
                   r.value !in columns &&
                   forall j :: 0 <= j < i ==> restrictions[1..][j] in columns;
          assert forall j :: 0 <= j < i + 1 ==> restrictions[j] in columns by {
            forall j | 0 <= j < i + 1 ensures restrictions[j] in columns {
              if j > 0 {
                assert restrictions[j] == restrictions[1..][j - 1];
              }
            }
          }
        }
      }
      r
  }

  /** The row-wise AND of the requested flags; the empty request is the
      empty AND, which every row passes. */
  function HasAll(row: Row, restrictions: seq<string>): (r: bool)
    ensures r <==> forall i :: 0 <= i < |restrictions| ==> Flag(row, restrictions[i])
    decreases |restrictions|
  {
    if restrictions == [] then true
    else
      var rest := HasAll(row, restrictions[1..]);
      assert forall i :: 1 <= i < |restrictions| ==> restrictions[i] == restrictions[1..][i - 1];
      Flag(row, restrictions[0]) && rest
  }

  /** The meal-type filter runs only for a present, non-empty meal type other
      than "Any". */
  predicate MealFilterActive(mealType: Option<string>) {
    mealType.Some? && mealType.value != "" && mealType.value != AnyMealType
  }

  /** A row passes the meal-type filter when its meal type is present and
      contains `mealType`, ignoring case. */
  predicate MealMatches(row: Row, mealType: string) {
    row.mealType.Some? && ContainsIgnoreCase(row.mealType.value, mealType)
  }

  function DietaryMask(restrictions: seq<string>): Row -> bool {
    row => HasAll(row, restrictions)
  }

  function MealMask(mealType: string): Row -> bool {
    row => MealMatches(row, mealType)
  }

  /** The rows the whole query asks for, as one predicate. */
  function Wanted(restrictions: seq<string>, mealType: Option<string>): Row -> bool {
    row => HasAll(row, restrictions) && (MealFilterActive(mealType) ==> MealMatches(row, mealType.value))
  }

  /** The filter: reject an unknown restriction with the empty table, keep
      the rows that have every requested flag, then keep the rows whose meal
      type matches, unless the meal type is empty or "Any". */
  function FilterRecipes(t: Table, restrictions: seq<string>, mealType: Option<string>): (o: Outcome)
    ensures o.Returned? && o.alert.None? ==> o.frame.columns == t.columns && |o.frame.rows| <= |t.rows|
  {
    match FirstUnknown(restrictions, t.columns)
    case Some(name) => Returned(EmptyFrame, Some(name))
    case None =>
      var dietary := Select(t.rows, DietaryMask(restrictions));
      if !MealFilterActive(mealType) then Returned(Table(t.columns, dietary), None)
      else if MealTypeColumn !in t.columns then Raised(MealTypeColumn)
      else Returned(Table(t.columns, Select(dietary, MealMask(mealType.value))), None)
  }

  /** Predicates that agree on every element select the same elements. */
  lemma {:induction false} SelectAgree(s: seq<Row>, p: Row -> bool, q: Row -> bool)
    requires forall x :: x in s ==> p(x) == q(x)
    ensures Select(s, p) == Select(s, q)
    decreases |s|
  {
    if s != [] {
      assert s[0] in s;
      assert forall x :: x in s[1..] ==> x in s;
      SelectAgree(s[1..], p, q);
    }
  }

  // ---------------------------------------------------------------------
  // Unknown restrictions and the error paths
  // ---------------------------------------------------------------------

  /** A requested restriction that is not a column rejects the query, whatever
      the rows and the meal type: the caller gets the empty table and the
      message names the first such restriction. Without one, no message is
      shown. */
  lemma UnknownRestrictionRejects(t: Table, restrictions: seq<string>, mealType: Option<string>)
    ensures var o := FilterRecipes(t, restrictions, mealType);
            (exists i :: 0 <= i < |restrictions| && restrictions[i] !in t.columns)
            <==> (o.Returned? && o.alert.Some?)
    ensures var o := FilterRecipes(t, restrictions, mealType);
            o.Returned? && o.alert.Some? ==>
              o.frame == EmptyFrame &&
              exists i :: 0 <= i < |restrictions| && restrictions[i] == o.alert.value &&
                          o.alert.value !in t.columns &&
                          forall j :: 0 <= j < i ==> restrictions[j] in t.columns
  {
  }

  /** The filter raises only when the meal-type filter runs on a table that
      has no meal-type column, and then the missing key is that column. */
  lemma RaisesOnlyWithoutMealTypeColumn(t: Table, restrictions: seq<string>, mealType: Option<string>)
    ensures var o := FilterRecipes(t, restrictions, mealType);
            o.Raised? <==> (forall i :: 0 <= i < |restrictions| ==> restrictions[i] in t.columns) &&
                           MealFilterActive(mealType) && MealTypeColumn !in t.columns
    ensures var o := FilterRecipes(t, restrictions, mealType);
            o.Raised? ==> o.missingKey == MealTypeColumn
  {
  }

  // ---------------------------------------------------------------------
  // What the filtered table holds
  // ---------------------------------------------------------------------

  /** A filtered table keeps the columns, and its rows are exactly the input
      rows that satisfy the whole query, in input order. */
  lemma {:induction false} FilterSelectsWanted(t: Table, restrictions: seq<string>, mealType: Option<string>)
    ensures var o := FilterRecipes(t, restrictions, mealType);
            o.Returned? && o.alert.None? ==>
              o.frame.columns == t.columns &&
              o.frame.rows == Select(t.rows, Wanted(restrictions, mealType))
  {
    var o := FilterRecipes(t, restrictions, mealType);
    if o.Returned? && o.alert.None? {
      var dietary := DietaryMask(restrictions);
      var wanted := Wanted(restrictions, mealType);
      if MealFilterActive(mealType) {
        SelectFuse(t.rows, dietary, MealMask(mealType.value), wanted);
      } else {
        SelectAgree(t.rows, dietary, wanted);
      }
    }
  }

  /** Every row of a filtered table has every requested flag set (several
      restrictions combine with AND) and, when the meal-type filter runs, a
      present meal type that contains the requested one, ignoring case. */
  lemma FilterIsSound(t: Table, restrictions: seq<string>, mealType: Option<string>)
    ensures var o := FilterRecipes(t, restrictions, mealType);
            o.Returned? ==>
              forall row :: row in o.frame.rows ==>
                (forall i :: 0 <= i < |restrictions| ==> Flag(row, restrictions[i])) &&
                (MealFilterActive(mealType) ==>
                   row.mealType.Some? && ContainsIgnoreCase(row.mealType.value, mealType.value))
  {
  }

  /** Completeness: once every restriction is a column (and, if the meal-type
      filter runs, the meal-type column exists), every input row that
      satisfies the query is in the result. */
  lemma FilterIsComplete(t: Table, restrictions: seq<string>, mealType: Option<string>, row: Row)
    requires forall i :: 0 <= i < |restrictions| ==> restrictions[i] in t.columns
    requires MealFilterActive(mealType) ==> MealTypeColumn in t.columns
    requires row in t.rows
    requires forall i :: 0 <= i < |restrictions| ==> Flag(row, restrictions[i])
    requires MealFilterActive(mealType) ==>
               row.mealType.Some? && ContainsIgnoreCase(row.mealType.value, mealType.value)
    ensures var o := FilterRecipes(t, restrictions, mealType);
            o.Returned? && o.alert.None? && row in o.frame.rows
  {
  }

  /** The result is a stable subsequence of the input: the k-th result row
      is the input row at the k-th position the query keeps, those positions
      increase, and they are exactly the positions of the rows the query
      asks for. */
  lemma FilterIsStableSubsequence(t: Table, restrictions: seq<string>, mealType: Option<string>)
    ensures var o := FilterRecipes(t, restrictions, mealType);
            var idx := Kept(t.rows, Wanted(restrictions, mealType));
            o.Returned? && o.alert.None? ==>
              StrictlyIncreasing(idx) &&
              (forall i :: i in idx <==> 0 <= i < |t.rows| && Wanted(restrictions, mealType)(t.rows[i])) &&
              |o.frame.rows| == |idx| &&
              forall k :: 0 <= k < |idx| ==> o.frame.rows[k] == t.rows[idx[k]]
  {
    FilterSelectsWanted(t, restrictions, mealType);
    KeptMembership(t.rows, Wanted(restrictions, mealType));
    SelectAtKept(t.rows, Wanted(restrictions, mealType));
  }

  // ---------------------------------------------------------------------
  // The meal-type step
  // ---------------------------------------------------------------------

  /** An absent or empty meal type, or "Any", leaves the meal-type step out:
      the result is that of the dietary step alone. */
  lemma InactiveMealTypeIsIgnored(t: Table, restrictions: seq<string>, mealType: Option<string>)
    requires mealType.None? || mealType.value == "" || mealType.value == AnyMealType
    ensures FilterRecipes(t, restrictions, mealType) == FilterRecipes(t, restrictions, None)
  {
  }

  /** With no restriction and no meal type the table comes back unchanged. */
  lemma {:induction false} NoCriteriaKeepsTable(t: Table)
    ensures FilterRecipes(t, [], None) == Returned(t, None)
  {
    SelectAll(t.rows, DietaryMask([]));
  }

  /** The dietary step and the meal-type step commute: filtering by meal type
      first gives the same rows. */
  lemma MealThenDietary(t: Table, restrictions: seq<string>, mealType: Option<string>)
    requires MealFilterActive(mealType)
    ensures var o := FilterRecipes(t, restrictions, mealType);
            o.Returned? && o.alert.None? ==>
              o.frame.rows == Select(Select(t.rows, MealMask(mealType.value)), DietaryMask(restrictions))
  {
    SelectCommutes(t.rows, DietaryMask(restrictions), MealMask(mealType.value));
  }

  // ---------------------------------------------------------------------
  // Idempotence
  // ---------------------------------------------------------------------

  /** Filtering a returned table again with the same query returns the same
      table; when no message was shown, the whole outcome is the same. */
  lemma {:induction false} FilterIdempotent(t: Table, restrictions: seq<string>, mealType: Option<string>)
    ensures var o := FilterRecipes(t, restrictions, mealType);
            o.Returned? ==>
              var o2 := FilterRecipes(o.frame, restrictions, mealType);
              o2.Returned? && o2.frame == o.frame && (o.alert.None? ==> o2 == o)
  {
    var o := FilterRecipes(t, restrictions, mealType);
    if o.Returned? && o.alert.None? {
      var wanted := Wanted(restrictions, mealType);
      FilterSelectsWanted(t, restrictions, mealType);
      FilterSelectsWanted(o.frame, restrictions, mealType);
      SelectIdempotent(t.rows, wanted);
    } else if o.Returned? {
      assert restrictions != [];
      assert restrictions[0] !in o.frame.columns;
    }
  }

  // ---------------------------------------------------------------------
  // The dietary step as written: an AND over stacked flag columns
  // ---------------------------------------------------------------------

  /** The AND of the stacked flag columns taken across the stack: one entry
      per row when at least one restriction is requested, and a bare boolean
      (the AND of nothing) when none is. */
  datatype StackedAnd = RowMask(mask: seq<bool>) | Scalar(value: bool)

  function StackedAll(rows: seq<Row>, restrictions: seq<string>): (r: StackedAnd)
    ensures r.RowMask? <==> restrictions != []
    ensures r.RowMask? ==> |r.mask| == |rows|
    ensures r.RowMask? ==> forall i :: 0 <= i < |rows| ==> r.mask[i] == HasAll(rows[i], restrictions)
    ensures r.Scalar? ==> r.value
  {
    if restrictions == [] then Scalar(true) else RowMask(MaskOf(rows, DietaryMask(restrictions)))
  }

  /** The filter as the code states it: the dietary step indexes the table
      with the stacked AND, so an empty request indexes it with a bare `True`,
      a key that is not a column. */
  function FilterRecipesAsWritten(t: Table, restrictions: seq<string>, mealType: Option<string>): (o: Outcome)
    ensures o.Returned? && o.alert.None? ==> o.frame.columns == t.columns && |o.frame.rows| <= |t.rows|
  {
    match FirstUnknown(restrictions, t.columns)
    case Some(name) => Returned(EmptyFrame, Some(name))
    case None =>
      match StackedAll(t.rows, restrictions)
      case Scalar(b) => Raised(if b then TrueKey else FalseKey)
      case RowMask(mask) =>
        var dietary := ApplyMask(t.rows, mask);
        if !MealFilterActive(mealType) then Returned(Table(t.columns, dietary), None)
        else if MealTypeColumn !in t.columns then Raised(MealTypeColumn)
        else Returned(Table(t.columns, ApplyMask(dietary, MaskOf(dietary, MealMask(mealType.value)))), None)
  }

  /** For every non-empty request the code as written and the model agree. */
  lemma AsWrittenAgreesOnNonEmptyRequest(t: Table, restrictions: seq<string>, mealType: Option<string>)
    requires restrictions != []
    ensures FilterRecipesAsWritten(t, restrictions, mealType) == FilterRecipes(t, restrictions, mealType)
  {
    var dietary := Select(t.rows, DietaryMask(restrictions));
    ApplyMaskOfPredicate(t.rows, DietaryMask(restrictions));
    if mealType.Some? {
      ApplyMaskOfPredicate(dietary, MealMask(mealType.value));
    }
  }

  /** An empty request raises in the code as written, whatever the table and
      the meal type, while the model never raises on that key. */
  lemma AsWrittenRaisesOnEmptyRequest(t: Table, mealType: Option<string>)
    ensures FilterRecipesAsWritten(t, [], mealType) == Raised(TrueKey)
    ensures FilterRecipes(t, [], mealType) != Raised(TrueKey)
  {
  }

  /** The dashboard's initial choice (no restriction, meal type "Any") on the
      sample table: the code as written raises, the model returns every row. */
  lemma {:induction false} EmptyRequestExample()
    ensures FilterRecipesAsWritten(Sample, [], Some(AnyMealType)) == Raised(TrueKey)
    ensures FilterRecipes(Sample, [], Some(AnyMealType)) == Returned(Sample, None)
  {
    NoCriteriaKeepsTable(Sample);
  }

  // ---------------------------------------------------------------------
  // Worked examples
  // ---------------------------------------------------------------------

  const VeganBreakfast: Row := Row(map["Vegan" := true, "Gluten-Free" := true], Some("Breakfast"))
  const MeatDinner: Row := Row(map["Vegan" := false, "Gluten-Free" := true], Some("Dinner"))
  const Columns: set<string> := {"title", "rating", MealTypeColumn, "calories", "Vegan", "Gluten-Free"}
  const Sample: Table := Table(Columns, [VeganBreakfast, MeatDinner])

  /** Asking for vegan recipes of any meal type keeps only the vegan one. */
  lemma VeganExample()
    ensures FilterRecipes(Sample, ["Vegan"], Some(AnyMealType)) == Returned(Table(Columns, [VeganBreakfast]), None)
  {
    var vegan := DietaryMask(["Vegan"]);
    assert FirstUnknown(["Vegan"], Columns) == None;
    assert vegan(VeganBreakfast) && !vegan(MeatDinner);
    assert [VeganBreakfast, MeatDinner][1..] == [MeatDinner];
    assert Select([MeatDinner], vegan) == [] + Select([], vegan);
    assert Select([VeganBreakfast, MeatDinner], vegan) == [VeganBreakfast] + Select([MeatDinner], vegan);
  }

  /** Asking for a restriction the table has no column for is rejected. */
  lemma KetoExample()
    ensures FilterRecipes(Sample, ["Keto"], Some("Dinner")) == Returned(EmptyFrame, Some("Keto"))
  {
  }

  /** Meal types match ignoring case: asking for gluten-free breakfasts
      keeps the breakfast and drops the dinner, in the code as written and in
      the model alike. */
  lemma BreakfastExample()
    ensures FilterRecipes(Sample, ["Gluten-Free"], Some("BREAKFAST")) == Returned(Table(Columns, [VeganBreakfast]), None)
    ensures FilterRecipesAsWritten(Sample, ["Gluten-Free"], Some("BREAKFAST")) == Returned(Table(Columns, [VeganBreakfast]), None)
  {
    var glutenFree := DietaryMask(["Gluten-Free"]);
    var breakfast := MealMask("BREAKFAST");
    assert FirstUnknown(["Gluten-Free"], Columns) == None;
    assert OccursAtIgnoreCase("Breakfast", "BREAKFAST", 0);
    assert glutenFree(VeganBreakfast) && glutenFree(MeatDinner);
    assert breakfast(VeganBreakfast) && !breakfast(MeatDinner);
    assert [VeganBreakfast, MeatDinner][1..] == [MeatDinner];
    SelectAll([VeganBreakfast, MeatDinner], glutenFree);
    assert Select([MeatDinner], breakfast) == [] + Select([], breakfast);
    assert Select([VeganBreakfast, MeatDinner], breakfast) == [VeganBreakfast] + Select([MeatDinner], breakfast);
    AsWrittenAgreesOnNonEmptyRequest(Sample, ["Gluten-Free"], Some("BREAKFAST"));
  }

  /** An empty table comes back empty, without an error, for every non-empty
      request of known restrictions, in the code as written and in the
      model alike. */
  lemma EmptyTableExample(restrictions: seq<string>, mealType: Option<string>)
    requires restrictions != []
    requires forall i :: 0 <= i < |restrictions| ==> restrictions[i] in Columns
    ensures FilterRecipes(Table(Columns, []), restrictions, mealType) == Returned(Table(Columns, []), None)
    ensures FilterRecipesAsWritten(Table(Columns, []), restrictions, mealType) == Returned(Table(Columns, []), None)
  {
    AsWrittenAgreesOnNonEmptyRequest(Table(Columns, []), restrictions, mealType);
  }
}
