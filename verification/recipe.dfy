/** The recipe record and its field validation (models/recipe.go). */
module RecipeModel {
  import opened Results

  /** One recipe as the JSON file and the handlers see it; timestamps are nanoseconds. */
  datatype Recipe = Recipe(
    id: string,
    name: string,
    ingredients: seq<string>,
    instructions: string,
    cookingTime: string,
    servings: int,
    category: string,
    createdAt: int,
    updatedAt: int
  )

  /** The six checks of `Validate`, in the order it runs them. */
  datatype Check = NameRequired | IngredientRequired | InstructionsRequired
                 | CookingTimeRequired | ServingsPositive | CategoryRequired
  {
    /** Position of the check in the sequence `Validate` runs. */
    function Rank(): nat {
      match this
      case NameRequired => 0
      case IngredientRequired => 1
      case InstructionsRequired => 2
      case CookingTimeRequired => 3
      case ServingsPositive => 4
      case CategoryRequired => 5
    }

    /** The error text returned when this check fails. */
    function Message(): string {
      match this
      case NameRequired => "recipe name is required"
      case IngredientRequired => "at least one ingredient is required"
      case InstructionsRequired => "instructions are required"
      case CookingTimeRequired => "cooking time is required"
      case ServingsPositive => "servings must be greater than 0"
      case CategoryRequired => "category is required"
    }
  }

  /** Whether recipe `r` satisfies check `c`, each check taken on its own. */
  predicate Passes(r: Recipe, c: Check) {
    match c
    case NameRequired => r.name != ""
    case IngredientRequired => |r.ingredients| > 0
    case InstructionsRequired => r.instructions != ""
    case CookingTimeRequired => r.cookingTime != ""
    case ServingsPositive => r.servings > 0
    case CategoryRequired => r.category != ""
  }

  /** A recipe every check accepts. */
  predicate IsValid(r: Recipe) {
    forall c: Check :: Passes(r, c)
  }

  /** Reports check `c` as the failure; a recipe failing any one check is invalid. */
  function Failing(r: Recipe, c: Check): (err: Option<Check>)
    requires !Passes(r, c)
    ensures err == Some(c) && !IsValid(r)
  {
    Some(c)
  }

  /** `Recipe.Validate`: `None` for nil, otherwise the first check that fails. */
  function Validate(r: Recipe): (err: Option<Check>)
    ensures err.None? <==> IsValid(r)
    ensures err.Some? ==> !Passes(r, err.value)
    ensures err.Some? ==> forall c: Check :: c.Rank() < err.value.Rank() ==> Passes(r, c)
  {
    if r.name == "" then Failing(r, NameRequired)
    else if |r.ingredients| == 0 then Failing(r, IngredientRequired)
    else if r.instructions == "" then Failing(r, InstructionsRequired)
    else if r.cookingTime == "" then Failing(r, CookingTimeRequired)
    else if r.servings <= 0 then Failing(r, ServingsPositive)
    else if r.category == "" then Failing(r, CategoryRequired)
    else None
  }

  /** Validity spelled out field by field. */
  lemma ValidIff(r: Recipe)
    ensures Validate(r).None? <==>
      r.name != "" && |r.ingredients| > 0 && r.instructions != "" &&
      r.cookingTime != "" && r.servings > 0 && r.category != ""
  {
    if !IsValid(r) {
      var c :| !Passes(r, c);
    }
  }

  /** A non-positive serving count is rejected even when every other field is filled in. */
  lemma ServingsAloneRejects(r: Recipe)
    requires r.name != "" && |r.ingredients| > 0 && r.instructions != ""
    requires r.cookingTime != "" && r.category != ""
    requires r.servings <= 0
    ensures Validate(r) == Some(ServingsPositive)
  {
  }

  /** Only the number of ingredients is checked, never their text, and the id and
      timestamps are not looked at: two recipes that agree on everything else
      validate alike. */
  lemma ValidateIgnoresUncheckedFields(r: Recipe, s: Recipe)
    requires r.name == s.name && |r.ingredients| == |s.ingredients|
    requires r.instructions == s.instructions && r.cookingTime == s.cookingTime
    requires r.servings == s.servings && r.category == s.category
    ensures Validate(r) == Validate(s)
  {
  }
}
