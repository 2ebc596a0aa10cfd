/** The file-backed recipe store (storage/json_storage.go). The whole file is one
    ordered sequence of recipes; every mutation reads it, edits it and writes it back. */
module JsonStore {
  import opened Results
  import opened RecipeModel

  /** The recipes file as the store finds it: unreadable (missing, unreadable or not
      valid JSON), or a decoded sequence together with whether a write would succeed. */
  datatype JsonFile = Unreadable | File(recipes: seq<Recipe>, writable: bool)

  datatype StoreError =
    | ReadFailed                 // read or parse of the file failed
    | RecipeNotFound(id: string) // "recipe with ID %s not found"
    | WriteFailed                // marshal or write of the file failed

  /** Recipe ids are pairwise distinct. */
  predicate DistinctIds(rs: seq<Recipe>) {
    forall i, j :: 0 <= i < j < |rs| ==> rs[i].id != rs[j].id
  }

  /** `i` is the position of the first recipe with id `id`. */
  predicate IsFirstMatch(rs: seq<Recipe>, id: string, i: int) {
    0 <= i < |rs| && rs[i].id == id && forall j :: 0 <= j < i ==> rs[j].id != id
  }

  predicate HasId(rs: seq<Recipe>, id: string) {
    exists i :: 0 <= i < |rs| && rs[i].id == id
  }

  /** The index the store's `for i, recipe := range recipes` loops stop at. */
  function FirstMatch(rs: seq<Recipe>, id: string): (r: Option<nat>)
    ensures r.Some? ==> IsFirstMatch(rs, id, r.value)
    ensures r.None? <==> !HasId(rs, id)
  {
    if rs == [] then None
    else if rs[0].id == id then Some(0)
    else match FirstMatch(rs[1..], id)
      case None => None
      case Some(i) => Some(i + 1)
  }

  /** There is only one first match. */
  lemma FirstMatchUnique(rs: seq<Recipe>, id: string, i: int, j: int)
    requires IsFirstMatch(rs, id, i) && IsFirstMatch(rs, id, j)
    ensures i == j
  {
  }

  /** `GetAllRecipes`: the file's contents in file order. */
  function GetAllRecipes(f: JsonFile): (r: Result<seq<Recipe>, StoreError>)
    ensures f.Unreadable? <==> r == Err(ReadFailed)
    ensures f.File? ==> r == Ok(f.recipes)
  {
    match f
    case Unreadable => Err(ReadFailed)
    case File(rs, _) => Ok(rs)
  }

  /** `GetRecipeByID`: the first recipe with the id, otherwise not-found. */
  function GetRecipeByID(f: JsonFile, id: string): (r: Result<Recipe, StoreError>)
    ensures f.Unreadable? ==> r == Err(ReadFailed)
    ensures f.File? && !HasId(f.recipes, id) ==> r == Err(RecipeNotFound(id))
    ensures r.Ok? ==> f.File? && exists i :: IsFirstMatch(f.recipes, id, i) && f.recipes[i] == r.value
    ensures f.File? && HasId(f.recipes, id) ==> r == Ok(f.recipes[FirstMatch(f.recipes, id).value])
  {
    match GetAllRecipes(f)
    case Err(e) => Err(e)
    case Ok(rs) =>
      match FirstMatch(rs, id)
      case Some(i) => Ok(rs[i])
      case None => Err(RecipeNotFound(id))
  }

  /** The sequence `SaveRecipe` writes: replace the first id match in place, otherwise append. */
  function Upsert(rs: seq<Recipe>, r: Recipe): seq<Recipe> {
    match FirstMatch(rs, r.id)
    case Some(i) => rs[i := r]
    case None => rs + [r]
  }

  /** The sequence `DeleteRecipe` writes when the id is present. */
  function RemoveAt(rs: seq<Recipe>, i: nat): (out: seq<Recipe>)
    requires i < |rs|
    ensures |out| == |rs| - 1
    ensures forall j :: 0 <= j < i ==> out[j] == rs[j]
    ensures forall j :: i <= j < |out| ==> out[j] == rs[j + 1]
  {
    rs[..i] + rs[i + 1..]
  }

  /** Persists `rs` unless the file cannot be written; a failed write changes nothing. */
  function WriteBack(f: JsonFile, rs: seq<Recipe>): (res: (JsonFile, Outcome<StoreError>))
    requires f.File?
    ensures f.writable ==> res == (File(rs, true), Pass)
    ensures !f.writable ==> res == (f, Fail(WriteFailed))
  {
    if f.writable then (File(rs, true), Pass) else (f, Fail(WriteFailed))
  }

  /** `SaveRecipe`: read, upsert by id, write back. */
  function SaveRecipe(f: JsonFile, r: Recipe): (res: (JsonFile, Outcome<StoreError>))
    ensures f.Unreadable? ==> res == (f, Fail(ReadFailed))
    ensures res.1.Pass? <==> f.File? && f.writable
    ensures res.1.Fail? ==> res.0 == f
  {
    match f
    case Unreadable => (f, Fail(ReadFailed))
    case File(rs, _) => WriteBack(f, Upsert(rs, r))
  }

  /** `DeleteRecipe`: read, remove the first id match, write back; not-found writes nothing. */
  function DeleteRecipe(f: JsonFile, id: string): (res: (JsonFile, Outcome<StoreError>))
    ensures f.Unreadable? ==> res == (f, Fail(ReadFailed))
    ensures f.File? && !HasId(f.recipes, id) ==> res == (f, Fail(RecipeNotFound(id)))
    ensures res.1.Pass? <==> f.File? && f.writable && HasId(f.recipes, id)
    ensures res.1.Fail? ==> res.0 == f
  {
    match f
    case Unreadable => (f, Fail(ReadFailed))
    case File(rs, _) =>
      match FirstMatch(rs, id)
      case None => (f, Fail(RecipeNotFound(id)))
      case Some(i) => WriteBack(f, RemoveAt(rs, i))
  }

  // ---------------------------------------------------------------------------
  // Properties of the upsert and the delete

  /** Appending new recipes one after another lists them in the order they were saved. */
  lemma SavesListInOrder(rs: seq<Recipe>, a: Recipe, b: Recipe)
    requires a.id != b.id && !HasId(rs, a.id) && !HasId(rs, b.id)
    ensures var f := SaveRecipe(SaveRecipe(File(rs, true), a).0, b).0;
      GetAllRecipes(f) == Ok(rs + [a, b])
  {
    assert !HasId(rs + [a], b.id) by {
      forall i | 0 <= i < |rs + [a]| ensures (rs + [a])[i].id != b.id {
        if i < |rs| { assert (rs + [a])[i] == rs[i]; }
      }
    }
    assert rs + [a] + [b] == rs + [a, b];
  }

  /** Saving a recipe whose id is stored replaces the first match at the same
      position and leaves the length and every other position alone. */
  lemma SaveReplacesFirstMatch(f: JsonFile, r: Recipe, i: int)
    requires f.File? && f.writable && IsFirstMatch(f.recipes, r.id, i)
    ensures SaveRecipe(f, r).1 == Pass
    ensures var rs' := SaveRecipe(f, r).0.recipes;
      |rs'| == |f.recipes| && rs'[i] == r &&
      forall j :: 0 <= j < |rs'| && j != i ==> rs'[j] == f.recipes[j]
  {
    var m := FirstMatch(f.recipes, r.id);
    FirstMatchUnique(f.recipes, r.id, i, m.value);
  }

  /** Saving a recipe with a new id appends it: the old contents are a prefix of the new. */
  lemma SaveAppendsNew(f: JsonFile, r: Recipe)
    requires f.File? && f.writable && !HasId(f.recipes, r.id)
    ensures SaveRecipe(f, r) == (File(f.recipes + [r], true), Pass)
    ensures var rs' := SaveRecipe(f, r).0.recipes;
      |rs'| == |f.recipes| + 1 && rs'[..|f.recipes|] == f.recipes
  {
  }

  /** In the upserted sequence the first match for the saved id holds the saved recipe. */
  lemma {:induction false} UpsertFirstMatch(rs: seq<Recipe>, r: Recipe)
    ensures FirstMatch(Upsert(rs, r), r.id).Some?
    ensures Upsert(rs, r)[FirstMatch(Upsert(rs, r), r.id).value] == r
  {
    var out := Upsert(rs, r);
    match FirstMatch(rs, r.id)
    case Some(i) =>
      assert IsFirstMatch(out, r.id, i);
      FirstMatchUnique(out, r.id, i, FirstMatch(out, r.id).value);
    case None =>
      assert IsFirstMatch(out, r.id, |rs|);
      FirstMatchUnique(out, r.id, |rs|, FirstMatch(out, r.id).value);
  }

  /** Read-your-writes: after a successful save, looking the id up returns the saved recipe. */
  lemma ReadYourWrites(f: JsonFile, r: Recipe)
    requires SaveRecipe(f, r).1.Pass?
    ensures GetRecipeByID(SaveRecipe(f, r).0, r.id) == Ok(r)
  {
    UpsertFirstMatch(f.recipes, r);
  }

  /** A save keeps recipe ids pairwise distinct. */
  lemma SavePreservesDistinctIds(f: JsonFile, r: Recipe)
    requires f.File? && DistinctIds(f.recipes)
    ensures SaveRecipe(f, r).0.File?
    ensures DistinctIds(SaveRecipe(f, r).0.recipes)
  {
  }

  /** Deleting removes exactly the first match and keeps the others in order. */
  lemma DeleteRemovesFirstMatch(f: JsonFile, id: string, i: int)
    requires f.File? && f.writable && IsFirstMatch(f.recipes, id, i)
    ensures DeleteRecipe(f, id) == (File(f.recipes[..i] + f.recipes[i + 1..], true), Pass)
  {
    FirstMatchUnique(f.recipes, id, i, FirstMatch(f.recipes, id).value);
  }

  /** A delete keeps recipe ids pairwise distinct, and when they were distinct the
      id is gone afterwards. */
  lemma DeletePreservesDistinctIds(f: JsonFile, id: string)
    requires f.File? && DistinctIds(f.recipes)
    ensures DistinctIds(DeleteRecipe(f, id).0.recipes)
    ensures DeleteRecipe(f, id).1.Pass? ==> GetRecipeByID(DeleteRecipe(f, id).0, id) == Err(RecipeNotFound(id))
  {
    var rs := f.recipes;
    match FirstMatch(rs, id)
    case None =>
    case Some(i) =>
      var out := RemoveAt(rs, i);
      assert DistinctIds(out) by {
        forall a, b | 0 <= a < b < |out|
          ensures out[a].id != out[b].id
        {
          var a' := if a < i then a else a + 1;
          var b' := if b < i then b else b + 1;
          assert out[a] == rs[a'] && out[b] == rs[b'] && a' < b';
        }
      }
      if f.writable {
        forall j | 0 <= j < |out|
          ensures out[j].id != id
        {
          var j' := if j < i then j else j + 1;
          assert out[j] == rs[j'] && j' != i;
        }
      }
  }
}
