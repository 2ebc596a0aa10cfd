/** The relational recipe store (storage/postgres_storage.go). The `recipes` table is
    a finite map from primary key to row; a query result is any ordering of the
    selected rows that `ORDER BY created_at DESC` allows, since ties come back in
    no fixed order. */
module RecipeTable {
  import opened Results
  import opened Text
  import opened RecipeModel

  /** A `recipes` row: the recipe columns plus the `created_by`/`updated_by` user references. */
  datatype RecipeRow = RecipeRow(recipe: Recipe, createdBy: Option<int>, updatedBy: Option<int>)

  type Table = map<string, RecipeRow>

  /** The database as one operation finds it: unreachable, or holding a table. */
  datatype RecipeDb = Unreachable | Reachable(table: Table)

  datatype DbError =
    | RecipeNotFound(id: string) // "recipe with ID %s not found"
    | QueryFailed                // the database could not be queried
    | CreateFailed               // the INSERT was refused (duplicate key)
    | UpdateFailed               // the UPDATE ... RETURNING matched no row

  /** Every row sits under its own id. */
  predicate KeyedById(t: Table) {
    forall id :: id in t ==> t[id].recipe.id == id
  }

  /** The WHERE clause of each listing query. */
  datatype Filter =
    | AllRows                    // GetAllRecipes
    | InCategory(category: string) // WHERE category = $1
    | Matching(term: string)     // WHERE name ILIKE '%term%' OR term = ANY(ingredients)

  predicate Selects(f: Filter, row: RecipeRow) {
    match f
    case AllRows => true
    case InCategory(c) => row.recipe.category == c
    case Matching(term) =>
      ContainsIgnoringCase(row.recipe.name, term) || term in row.recipe.ingredients
  }

  /** The rows the WHERE clause keeps among those stored under `keys`. */
  function Selected(t: Table, f: Filter, keys: set<string>): set<RecipeRow> {
    set id | id in keys && id in t && Selects(f, t[id]) :: t[id]
  }

  /** `ORDER BY created_at DESC`: non-increasing creation time. */
  predicate NewestFirst(rows: seq<RecipeRow>) {
    forall i, j :: 0 <= i < j < |rows| ==> rows[i].recipe.createdAt >= rows[j].recipe.createdAt
  }

  /** `rows` is an answer the database may give to the query with filter `f`:
      each selected row exactly once, newest first. */
  predicate IsListing(t: Table, f: Filter, rows: seq<RecipeRow>) {
    multiset(rows) == multiset(Selected(t, f, t.Keys)) && NewestFirst(rows)
  }

  /** Puts `x` into a newest-first sequence, ahead of the rows no newer than it. */
  function InsertNewestFirst(rows: seq<RecipeRow>, x: RecipeRow): (out: seq<RecipeRow>)
    requires NewestFirst(rows)
    ensures NewestFirst(out)
    ensures multiset(out) == multiset(rows) + multiset{x}
  {
    if rows == [] || x.recipe.createdAt >= rows[0].recipe.createdAt then [x] + rows
    else
      var rest := InsertNewestFirst(rows[1..], x);
      ConsNewestFirst(rows, x, rest);
      [rows[0]] + rest
  }

  /** The head of a newest-first sequence is no older than anything `rest` was built from. */
  lemma ConsNewestFirst(rows: seq<RecipeRow>, x: RecipeRow, rest: seq<RecipeRow>)
    requires rows != [] && NewestFirst(rows) && NewestFirst(rest)
    requires x.recipe.createdAt < rows[0].recipe.createdAt
    requires multiset(rest) == multiset(rows[1..]) + multiset{x}
    ensures NewestFirst([rows[0]] + rest)
    ensures multiset([rows[0]] + rest) == multiset(rows) + multiset{x}
  {
    assert rows == [rows[0]] + rows[1..];
    forall j | 0 <= j < |rest|
      ensures rows[0].recipe.createdAt >= rest[j].recipe.createdAt
    {
      assert rest[j] in multiset(rest);
      if rest[j] != x {
        assert rest[j] in multiset(rows[1..]);
        var k :| 0 <= k < |rows[1..]| && rows[1..][k] == rest[j];
        assert rows[k + 1] == rest[j];
      }
    }
  }

  /** Adding one key to the keys already read adds at most one selected row, and that
      row is new because rows sit under their own ids. */
  lemma SelectedStep(t: Table, f: Filter, done: set<string>, k: string)
    requires KeyedById(t) && k in t && k !in done
    ensures Selects(f, t[k]) ==> t[k] !in Selected(t, f, done)
    ensures Selects(f, t[k]) ==> Selected(t, f, done + {k}) == Selected(t, f, done) + {t[k]}
    ensures !Selects(f, t[k]) ==> Selected(t, f, done + {k}) == Selected(t, f, done)
  {
  }

  lemma MultisetOfAddedElement(s: set<RecipeRow>, x: RecipeRow)
    requires x !in s
    ensures multiset(s + {x}) == multiset(s) + multiset{x}
  {
    forall y ensures multiset(s + {x})[y] == (multiset(s) + multiset{x})[y] {
      if y == x {} else if y in s {} else {}
    }
  }

  /** Runs one listing query: reads the table row by row and orders the rows kept. */
  method Select(db: RecipeDb, f: Filter) returns (r: Result<seq<RecipeRow>, DbError>)
    requires db.Reachable? ==> KeyedById(db.table)
    ensures db.Unreachable? <==> r == Err(QueryFailed)
    ensures db.Reachable? ==> r.Ok? && IsListing(db.table, f, r.value)
  {
    if db.Unreachable? {
      return Err(QueryFailed);
    }
    var t := db.table;
    var rows: seq<RecipeRow> := [];
    var remaining := t.Keys;
    while remaining != {}
      invariant remaining <= t.Keys
      invariant NewestFirst(rows)
      invariant multiset(rows) == multiset(Selected(t, f, t.Keys - remaining))
      decreases |remaining|
    {
      var k :| k in remaining;
      var done := t.Keys - remaining;
      SelectedStep(t, f, done, k);
      if Selects(f, t[k]) {
        MultisetOfAddedElement(Selected(t, f, done), t[k]);
        rows := InsertNewestFirst(rows, t[k]);
      }
      remaining := remaining - {k};
      assert t.Keys - remaining == done + {k};
    }
    return Ok(rows);
  }

  /** `GetAllRecipes`: every row, newest first. */
  method GetAllRecipes(db: RecipeDb) returns (r: Result<seq<RecipeRow>, DbError>)
    requires db.Reachable? ==> KeyedById(db.table)
    ensures db.Unreachable? <==> r == Err(QueryFailed)
    ensures db.Reachable? ==> r.Ok? && IsListing(db.table, AllRows, r.value)
  {
    r := Select(db, AllRows);
  }

  /** `GetRecipesByCategory`: the rows whose category equals the argument, newest first. */
  method GetRecipesByCategory(db: RecipeDb, category: string) returns (r: Result<seq<RecipeRow>, DbError>)
    requires db.Reachable? ==> KeyedById(db.table)
    ensures db.Unreachable? <==> r == Err(QueryFailed)
    ensures db.Reachable? ==> r.Ok? && IsListing(db.table, InCategory(category), r.value)
  {
    r := Select(db, InCategory(category));
  }

  /** `SearchRecipes`: rows whose name contains the term ignoring case, or whose
      ingredient list holds the term as a whole element, newest first. */
  method SearchRecipes(db: RecipeDb, term: string) returns (r: Result<seq<RecipeRow>, DbError>)
    requires db.Reachable? ==> KeyedById(db.table)
    ensures db.Unreachable? <==> r == Err(QueryFailed)
    ensures db.Reachable? ==> r.Ok? && IsListing(db.table, Matching(term), r.value)
  {
    r := Select(db, Matching(term));
  }

  /** `GetRecipeByID`: the row with that primary key, or not-found. */
  function GetRecipeByID(db: RecipeDb, id: string): (r: Result<RecipeRow, DbError>)
    ensures db.Unreachable? ==> r == Err(QueryFailed)
    ensures db.Reachable? && id !in db.table ==> r == Err(RecipeNotFound(id))
    ensures r.Ok? ==> db.Reachable? && id in db.table && r.value == db.table[id]
    ensures db.Reachable? && id in db.table ==> r == Ok(db.table[id])
  {
    match db
    case Unreachable => Err(QueryFailed)
    case Reachable(t) => if id in t then Ok(t[id]) else Err(RecipeNotFound(id))
  }

  /** `createRecipe`: INSERT with a fresh UUID when the id is empty; `created_by` and
      `updated_by` are both the acting user, and both timestamps are the statement time
      `now` the column defaults supply. A key already in the table makes the INSERT fail. */
  function CreateRecipe(t: Table, recipe: Recipe, userId: Option<int>, freshId: string, now: int)
    : (res: (Table, Outcome<DbError>))
    ensures var id := if recipe.id == "" then freshId else recipe.id;
      && (res.1.Pass? <==> id !in t)
      && (res.1.Fail? ==> res == (t, Fail(CreateFailed)))
      && (res.1.Pass? ==>
            && res.0.Keys == t.Keys + {id}
            && (forall k :: k in t ==> res.0[k] == t[k])
            && res.0[id].recipe.id == id
            && res.0[id].recipe.(id := recipe.id, createdAt := recipe.createdAt, updatedAt := recipe.updatedAt) == recipe
            && res.0[id].recipe.createdAt == now && res.0[id].recipe.updatedAt == now
            && res.0[id].createdBy == userId && res.0[id].updatedBy == userId)
  {
    var id := if recipe.id == "" then freshId else recipe.id;
    if id in t then (t, Fail(CreateFailed))
    else (t[id := RecipeRow(recipe.(id := id, createdAt := now, updatedAt := now), userId, userId)], Pass)
  }

  /** `updateRecipe`: overwrites name through category, `updated_by` and `updated_at`;
      the id, `created_at` and `created_by` stay as stored. */
  function UpdateRecipe(t: Table, recipe: Recipe, userId: Option<int>, now: int): (res: (Table, Outcome<DbError>))
    ensures res.1.Pass? <==> recipe.id in t
    ensures res.1.Fail? ==> res == (t, Fail(UpdateFailed))
    ensures res.1.Pass? ==> (
              && recipe.id in t
              && res.0.Keys == t.Keys
              && (forall k :: k in t && k != recipe.id ==> res.0[k] == t[k])
              && var (before, after) := (t[recipe.id], res.0[recipe.id]);
              && after.recipe.(createdAt := recipe.createdAt, updatedAt := recipe.updatedAt) == recipe
              && after.recipe.createdAt == before.recipe.createdAt && after.recipe.updatedAt == now
              && after.createdBy == before.createdBy && after.updatedBy == userId)
  {
    if recipe.id !in t then (t, Fail(UpdateFailed))
    else
      var stored := t[recipe.id];
      var row := RecipeRow(
        recipe.(createdAt := stored.recipe.createdAt, updatedAt := now),
        stored.createdBy, userId);
      (t[recipe.id := row], Pass)
  }

  /** `SaveRecipe`: look the id up; update when found, create on not-found, and pass
      any other lookup error back without writing. */
  function SaveRecipe(db: RecipeDb, recipe: Recipe, userId: Option<int>, freshId: string, now: int)
    : (res: (RecipeDb, Outcome<DbError>))
    ensures db.Unreachable? ==> res == (db, Fail(QueryFailed))
    ensures res.1.Fail? ==> res.0 == db
  {
    match GetRecipeByID(db, recipe.id)
    case Ok(_) =>
      var (t', o) := UpdateRecipe(db.table, recipe, userId, now);
      (Reachable(t'), o)
    case Err(RecipeNotFound(_)) =>
      var (t', o) := CreateRecipe(db.table, recipe, userId, freshId, now);
      (Reachable(t'), o)
    case Err(e) => (db, Fail(e))
  }

  /** Rows matched by `DELETE FROM recipes WHERE id = $1`. */
  function RowsAffected(t: Table, id: string): (n: nat)
    ensures n <= 1
    ensures n == 0 <==> id !in t
  {
    if id in t then 1 else 0
  }

  /** `DeleteRecipe`: not-found exactly when no row matched. */
  function DeleteRecipe(db: RecipeDb, id: string): (res: (RecipeDb, Outcome<DbError>))
    ensures db.Unreachable? ==> res == (db, Fail(QueryFailed))
    ensures db.Reachable? ==> (res.1 == Fail(RecipeNotFound(id)) <==> id !in db.table)
    ensures db.Reachable? ==> (res.1.Pass? <==> id in db.table)
    ensures db.Reachable? ==> res.0 == Reachable(db.table - {id})
  {
    match db
    case Unreachable => (db, Fail(QueryFailed))
    case Reachable(t) =>
      if RowsAffected(t, id) == 0 then (db, Fail(RecipeNotFound(id)))
      else (Reachable(t - {id}), Pass)
  }

  // ---------------------------------------------------------------------------
  // Properties of the queries

  /** A row is in a listing exactly when it is stored and the WHERE clause keeps it. */
  lemma ListingMembers(t: Table, f: Filter, rows: seq<RecipeRow>, y: RecipeRow)
    requires IsListing(t, f, rows)
    ensures y in rows <==> exists id :: id in t && t[id] == y && Selects(f, y)
  {
    assert y in rows <==> y in multiset(rows);
  }

  /** No two distinct rows of `rows` share a creation time. */
  predicate TieFree(rows: seq<RecipeRow>) {
    forall x, y :: x in rows && y in rows && x.recipe.createdAt == y.recipe.createdAt ==> x == y
  }

  /** Two newest-first orderings of the same tie-free rows start with the same row. */
  lemma SameHead(a: seq<RecipeRow>, b: seq<RecipeRow>)
    requires a != [] && multiset(a) == multiset(b) && NewestFirst(a) && NewestFirst(b) && TieFree(a)
    ensures b != [] && a[0] == b[0]
  {
    assert a[0] in multiset(b) && b[0] in multiset(a);
    var j :| 0 <= j < |b| && b[j] == a[0];
    var i :| 0 <= i < |a| && a[i] == b[0];
    assert a[0].recipe.createdAt >= a[i].recipe.createdAt;
    assert b[0].recipe.createdAt >= b[j].recipe.createdAt;
  }

  /** Dropping the same head from two orderings of one multiset leaves orderings of one multiset. */
  lemma SameTails(a: seq<RecipeRow>, b: seq<RecipeRow>)
    requires a != [] && b != [] && a[0] == b[0] && multiset(a) == multiset(b)
    ensures multiset(a[1..]) == multiset(b[1..])
  {
    assert a == [a[0]] + a[1..] && b == [b[0]] + b[1..];
    assert multiset(a) == multiset{a[0]} + multiset(a[1..]);
    assert multiset(b) == multiset{b[0]} + multiset(b[1..]);
    assert multiset(a[1..]) == multiset(a) - multiset{a[0]};
    assert multiset(b[1..]) == multiset(b) - multiset{b[0]};
  }

  /** Ties are the only freedom the database has: when no two selected rows share a
      creation time, every answer to the query is the same sequence. */
  lemma {:induction false} ListingUniqueWithoutTies(a: seq<RecipeRow>, b: seq<RecipeRow>)
    requires multiset(a) == multiset(b) && NewestFirst(a) && NewestFirst(b) && TieFree(a)
    ensures a == b
    decreases |a|
  {
    if a == [] {
      assert |b| == |multiset(b)| == 0;
    } else {
      SameHead(a, b);
      SameTails(a, b);
      TailOrderings(a, b);
      ListingUniqueWithoutTies(a[1..], b[1..]);
      assert a == [a[0]] + a[1..] && b == [b[0]] + b[1..];
    }
  }

  /** The tails of two newest-first orderings are newest-first, and a tail of a
      tie-free sequence is tie-free. */
  lemma TailOrderings(a: seq<RecipeRow>, b: seq<RecipeRow>)
    requires a != [] && b != [] && NewestFirst(a) && NewestFirst(b) && TieFree(a)
    ensures NewestFirst(a[1..]) && NewestFirst(b[1..]) && TieFree(a[1..])
  {
    forall x | x in a[1..] ensures x in a { }
  }

  /** The category query keeps exactly the rows of that category. */
  lemma CategoryListingExact(t: Table, c: string, rows: seq<RecipeRow>, id: string)
    requires IsListing(t, InCategory(c), rows) && id in t
    ensures t[id] in rows <==> t[id].recipe.category == c
    ensures forall y :: y in rows ==> y.recipe.category == c
  {
    ListingMembers(t, InCategory(c), rows, t[id]);
    forall y | y in rows ensures y.recipe.category == c {
      ListingMembers(t, InCategory(c), rows, y);
    }
  }

  /** A name containing the term in another case matches the search. */
  lemma SearchMatchesNameIgnoringCase()
    ensures ContainsIgnoringCase("Chocolate Cake", "choc")
  {
    assert OccursAt(Lower("Chocolate Cake"), Lower("choc"), 0);
  }

  /** The ingredient side of the search compares whole elements: a recipe whose only
      mention of the term is inside a longer ingredient is not found. */
  lemma SearchIngredientIsWholeElement(r: Recipe)
    requires r.name == "Brownies" && r.ingredients == ["chocolate chips", "flour"]
    ensures !Selects(Matching("choc"), RecipeRow(r, None, None))
  {
    var n := Lower("Brownies");
    assert n == "brownies";
    forall i | 0 <= i <= |n| - 4 ensures !OccursAt(n, Lower("choc"), i) {
      assert n[i] in n && 'c' !in n;
      assert n[i..i + 4][0] == n[i] != 'c';
    }
  }

  // ---------------------------------------------------------------------------
  // Properties of the writes

  /** A save whose id is stored is an update: name through category come from the
      request, `created_at` and `created_by` stay, `updated_by`/`updated_at` are refreshed,
      and no other row changes. */
  lemma SaveExistingUpdates(t: Table, recipe: Recipe, userId: Option<int>, freshId: string, now: int)
    requires recipe.id in t
    ensures var (db', o) := SaveRecipe(Reachable(t), recipe, userId, freshId, now);
      o == Pass && db'.Reachable? && db'.table.Keys == t.Keys &&
      var row := db'.table[recipe.id];
      row.recipe == recipe.(createdAt := t[recipe.id].recipe.createdAt, updatedAt := now) &&
      row.createdBy == t[recipe.id].createdBy && row.updatedBy == userId &&
      forall k :: k in t && k != recipe.id ==> db'.table[k] == t[k]
  {
  }

  /** A save whose id is absent is an insert under the given id, or under the fresh
      UUID when the id is empty; both user references are the actor and the creation
      and modification times coincide. */
  lemma SaveAbsentCreates(t: Table, recipe: Recipe, userId: Option<int>, freshId: string, now: int)
    requires recipe.id !in t
    ensures var id := if recipe.id == "" then freshId else recipe.id;
      var (db', o) := SaveRecipe(Reachable(t), recipe, userId, freshId, now);
      (o == Pass <==> id !in t) &&
      (o == Pass ==>
        db'.table == t[id := RecipeRow(recipe.(id := id, createdAt := now, updatedAt := now), userId, userId)] &&
        db'.table[id].recipe.createdAt == db'.table[id].recipe.updatedAt)
  {
  }

  /** Every write keeps each row under its own id. */
  lemma WritesKeepKeyedById(t: Table, recipe: Recipe, userId: Option<int>, freshId: string, now: int, id: string)
    requires KeyedById(t)
    ensures KeyedById(SaveRecipe(Reachable(t), recipe, userId, freshId, now).0.table)
    ensures KeyedById(DeleteRecipe(Reachable(t), id).0.table)
  {
  }

  /** Read-your-writes: after a successful save of a recipe with a non-empty id, the
      lookup returns a row carrying the request's fields and the save time. */
  lemma ReadYourWrites(t: Table, recipe: Recipe, userId: Option<int>, freshId: string, now: int)
    requires recipe.id != ""
    requires SaveRecipe(Reachable(t), recipe, userId, freshId, now).1 == Pass
    ensures var got := GetRecipeByID(SaveRecipe(Reachable(t), recipe, userId, freshId, now).0, recipe.id);
      got.Ok? && got.value.recipe.(createdAt := recipe.createdAt) == recipe.(updatedAt := now) &&
      got.value.updatedBy == userId
  {
  }

  /** After a delete the row is gone, whatever the outcome. */
  lemma DeleteThenGet(t: Table, id: string)
    ensures GetRecipeByID(DeleteRecipe(Reachable(t), id).0, id) == Err(RecipeNotFound(id))
  {
  }
}
