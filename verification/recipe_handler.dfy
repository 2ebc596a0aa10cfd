/** The recipe endpoints (handlers/recipe_handler.go) over the file-backed store:
    method dispatch, id extraction, and the create/update rules that set the id and
    timestamps. `clock1` and `clock2` are two successive readings of the clock. */
module RecipeHandler {
  import opened Results
  import opened Text
  import opened Http
  import opened RecipeModel
  import opened JsonStore
  import AuthService
  import AuthHandler

  const ByIdPrefix: string := "/api/recipes/"

  /** Why a recipe request was refused. */
  datatype RecipeFailure =
    | MethodNotAllowed
    | IdRequired
    | InvalidJson
    | Invalid(check: Check)
    | NotFound
    | ListFailed
    | SaveFailed
    | UpdateFailed
    | DeleteFailed
  {
    function Status(): int {
      match this
      case MethodNotAllowed => StatusMethodNotAllowed
      case IdRequired => StatusBadRequest
      case InvalidJson => StatusBadRequest
      case Invalid(_) => StatusBadRequest
      case NotFound => StatusNotFound
      case ListFailed => StatusInternalServerError
      case SaveFailed => StatusInternalServerError
      case UpdateFailed => StatusInternalServerError
      case DeleteFailed => StatusNotFound
    }
  }

  datatype RecipeReply =
    | Preflight
    | Listed(recipes: seq<Recipe>)
    | Found(recipe: Recipe)
    | Created(recipe: Recipe)
    | Updated(recipe: Recipe)
    | Deleted
    | Refused(failure: RecipeFailure)
  {
    function Status(): int {
      match this
      case Preflight => StatusOK
      case Listed(_) => StatusOK
      case Found(_) => StatusOK
      case Created(_) => StatusCreated
      case Updated(_) => StatusOK
      case Deleted => StatusOK
      case Refused(f) => f.Status()
    }
  }

  /** `getAllRecipes` */
  function ListRecipes(f: JsonFile): (reply: RecipeReply)
    ensures reply.Status() == StatusOK <==> f.File?
    ensures f.File? ==> reply == Listed(f.recipes)
    ensures f.Unreadable? ==> reply == Refused(ListFailed)
  {
    match GetAllRecipes(f)
    case Err(_) => Refused(ListFailed)
    case Ok(rs) => Listed(rs)
  }

  /** `createRecipe`: `body` is `None` when the JSON did not decode. An invalid body is
      refused before the store is touched; otherwise any client id is replaced by
      `freshId` and the two timestamps come from the two clock readings. */
  function CreateRecipe(body: Option<Recipe>, f: JsonFile, freshId: string, clock1: int, clock2: int)
    : (res: (JsonFile, RecipeReply))
    ensures body.None? ==> res == (f, Refused(InvalidJson))
    ensures body.Some? && Validate(body.value).Some? ==> res == (f, Refused(Invalid(Validate(body.value).value)))
    ensures res.1.Created? <==> body.Some? && IsValid(body.value) && f.File? && f.writable
    ensures body.Some? && IsValid(body.value) && !(f.File? && f.writable) ==> res == (f, Refused(SaveFailed))
    ensures res.1.Created? ==> var r := res.1.recipe;
      r == body.value.(id := freshId, createdAt := clock1, updatedAt := clock2) &&
      res.0 == File(Upsert(f.recipes, r), true)
    ensures !res.1.Created? ==> res.0 == f
  {
    match body
    case None => (f, Refused(InvalidJson))
    case Some(r) =>
      match Validate(r)
      case Some(c) => (f, Refused(Invalid(c)))
      case None =>
        var stamped := r.(id := freshId, createdAt := clock1, updatedAt := clock2);
        match SaveRecipe(f, stamped)
        case (f', Fail(_)) => (f', Refused(SaveFailed))
        case (f', Pass) => (f', Created(stamped))
  }

  /** `updateRecipe`: the stored recipe with the body's id must exist (checked before
      validation); the creation time is kept from it and the modification time is `clock1`. */
  function UpdateRecipe(body: Option<Recipe>, f: JsonFile, clock1: int): (res: (JsonFile, RecipeReply))
    ensures body.None? ==> res == (f, Refused(InvalidJson))
    ensures body.Some? && GetRecipeByID(f, body.value.id).Err? ==> res == (f, Refused(NotFound))
    ensures body.Some? && GetRecipeByID(f, body.value.id).Ok? && Validate(body.value).Some? ==>
              res == (f, Refused(Invalid(Validate(body.value).value)))
    ensures body.Some? && GetRecipeByID(f, body.value.id).Ok? && IsValid(body.value) && !f.writable ==>
              res == (f, Refused(UpdateFailed))
    ensures res.1.Updated? <==>
      body.Some? && GetRecipeByID(f, body.value.id).Ok? && IsValid(body.value) && f.File? && f.writable
    ensures res.1.Updated? ==> var r := res.1.recipe;
      r == body.value.(createdAt := GetRecipeByID(f, body.value.id).value.createdAt, updatedAt := clock1) &&
      res.0 == File(Upsert(f.recipes, r), true)
    ensures !res.1.Updated? ==> res.0 == f
  {
    match body
    case None => (f, Refused(InvalidJson))
    case Some(r) =>
      match GetRecipeByID(f, r.id)
      case Err(_) => (f, Refused(NotFound))
      case Ok(existing) =>
        match Validate(r)
        case Some(c) => (f, Refused(Invalid(c)))
        case None =>
          var stamped := r.(createdAt := existing.createdAt, updatedAt := clock1);
          match SaveRecipe(f, stamped)
          case (f', Fail(_)) => (f', Refused(UpdateFailed))
          case (f', Pass) => (f', Updated(stamped))
  }

  /** `getRecipeByID`: any store error, a read failure included, is reported as 404. */
  function GetRecipe(f: JsonFile, id: string): (reply: RecipeReply)
    ensures reply.Found? <==> GetRecipeByID(f, id).Ok?
    ensures reply.Found? ==> reply.recipe == GetRecipeByID(f, id).value
    ensures !reply.Found? ==> reply.Status() == StatusNotFound
  {
    match GetRecipeByID(f, id)
    case Err(_) => Refused(NotFound)
    case Ok(r) => Found(r)
  }

  /** `deleteRecipe`: any store error, a read or write failure included, is reported as 404. */
  function DeleteRecipeById(f: JsonFile, id: string): (res: (JsonFile, RecipeReply))
    ensures res.1 == Deleted <==> DeleteRecipe(f, id).1.Pass?
    ensures res.1 != Deleted ==> res.1.Status() == StatusNotFound && res.0 == f
    ensures res.0 == DeleteRecipe(f, id).0
  {
    match DeleteRecipe(f, id)
    case (f', Fail(_)) => (f', Refused(DeleteFailed))
    case (f', Pass) => (f', Deleted)
  }

  /** `HandleRecipes` on /api/recipes: OPTIONS, GET, POST and PUT. */
  function HandleRecipes(verb: string, body: Option<Recipe>, f: JsonFile, freshId: string, clock1: int, clock2: int)
    : (res: (JsonFile, RecipeReply))
    ensures verb == Options ==> res == (f, Preflight)
    ensures verb !in {Options, Get, Post, Put} ==> res == (f, Refused(MethodNotAllowed))
    ensures verb == Get ==> res == (f, ListRecipes(f))
    ensures verb == Post ==> res == CreateRecipe(body, f, freshId, clock1, clock2)
    ensures verb == Put ==> res == UpdateRecipe(body, f, clock1)
  {
    if verb == Options then (f, Preflight)
    else if verb == Get then (f, ListRecipes(f))
    else if verb == Post then CreateRecipe(body, f, freshId, clock1, clock2)
    else if verb == Put then UpdateRecipe(body, f, clock1)
    else (f, Refused(MethodNotAllowed))
  }

  /** The id a by-id request names: the path without the route prefix. */
  function PathId(path: string): (id: string)
    ensures HasPrefix(path, ByIdPrefix) ==> ByIdPrefix + id == path
    ensures !HasPrefix(path, ByIdPrefix) ==> id == path
  {
    TrimPrefix(path, ByIdPrefix)
  }

  /** `HandleRecipeByID` on /api/recipes/{id}: OPTIONS, then the id check, then GET or DELETE. */
  function HandleRecipeByID(verb: string, path: string, f: JsonFile): (res: (JsonFile, RecipeReply))
    ensures verb == Options ==> res == (f, Preflight)
    ensures verb != Options && PathId(path) == "" ==> res == (f, Refused(IdRequired))
    ensures verb != Options && PathId(path) != "" && verb != Get && verb != Delete ==>
              res == (f, Refused(MethodNotAllowed))
    ensures verb == Get && PathId(path) != "" ==> res == (f, GetRecipe(f, PathId(path)))
    ensures verb == Delete && PathId(path) != "" ==> res == DeleteRecipeById(f, PathId(path))
  {
    if verb == Options then (f, Preflight)
    else
      var id := PathId(path);
      if id == "" then (f, Refused(IdRequired))
      else if verb == Get then (f, GetRecipe(f, id))
      else if verb == Delete then DeleteRecipeById(f, id)
      else (f, Refused(MethodNotAllowed))
  }

  // ---------------------------------------------------------------------------
  // Properties

  /** An invalid create gets 400 whatever the store holds and leaves it untouched. */
  lemma InvalidCreateSkipsStore(r: Recipe, f: JsonFile, g: JsonFile, freshId: string, clock1: int, clock2: int)
    requires !IsValid(r)
    ensures CreateRecipe(Some(r), f, freshId, clock1, clock2).1 == CreateRecipe(Some(r), g, freshId, clock1, clock2).1
    ensures CreateRecipe(Some(r), f, freshId, clock1, clock2) == (f, Refused(Invalid(Validate(r).value)))
    ensures CreateRecipe(Some(r), f, freshId, clock1, clock2).1.Status() == StatusBadRequest
  {
  }

  /** A create ignores the client's id, and under a clock that does not run
      backwards the creation time is no later than the modification time. */
  lemma CreateStampsIdAndTimes(r: Recipe, f: JsonFile, freshId: string, clock1: int, clock2: int)
    requires CreateRecipe(Some(r), f, freshId, clock1, clock2).1.Created?
    requires clock1 <= clock2
    ensures var created := CreateRecipe(Some(r), f, freshId, clock1, clock2).1.recipe;
      created.id == freshId && created.createdAt <= created.updatedAt
  {
  }

  /** A created recipe can be read back under its new id. */
  lemma CreateThenGet(r: Recipe, f: JsonFile, freshId: string, clock1: int, clock2: int)
    requires CreateRecipe(Some(r), f, freshId, clock1, clock2).1.Created?
    ensures var (f', reply) := CreateRecipe(Some(r), f, freshId, clock1, clock2);
      GetRecipe(f', freshId) == Found(reply.recipe)
  {
    var stamped := r.(id := freshId, createdAt := clock1, updatedAt := clock2);
    ReadYourWrites(f, stamped);
  }

  /** A created recipe shows up at the end of the next listing, after every recipe
      that was there before. */
  lemma CreateThenList(r: Recipe, f: JsonFile, freshId: string, clock1: int, clock2: int)
    requires CreateRecipe(Some(r), f, freshId, clock1, clock2).1.Created?
    requires f.File? && !HasId(f.recipes, freshId)
    ensures var (f', reply) := CreateRecipe(Some(r), f, freshId, clock1, clock2);
      ListRecipes(f') == Listed(f.recipes + [reply.recipe])
  {
  }

  /** An unknown id yields 404 on update even when the body is invalid too. */
  lemma UpdateChecksExistenceFirst(r: Recipe, f: JsonFile, clock1: int)
    requires f.File? && !HasId(f.recipes, r.id)
    ensures UpdateRecipe(Some(r), f, clock1) == (f, Refused(NotFound))
    ensures UpdateRecipe(Some(r), f, clock1).1.Status() == StatusNotFound
  {
  }

  /** An update keeps the id and the stored creation time, and the stored recipe
      afterwards is the updated one. */
  lemma UpdateKeepsCreation(r: Recipe, f: JsonFile, clock1: int)
    requires f.File? && f.writable && HasId(f.recipes, r.id) && IsValid(r)
    ensures var (f', reply) := UpdateRecipe(Some(r), f, clock1);
      reply.Updated? &&
      reply.recipe.id == r.id &&
      reply.recipe.createdAt == GetRecipeByID(f, r.id).value.createdAt &&
      reply.recipe.updatedAt == clock1 &&
      GetRecipe(f', r.id) == Found(reply.recipe)
  {
    var stamped := r.(createdAt := GetRecipeByID(f, r.id).value.createdAt, updatedAt := clock1);
    ReadYourWrites(f, stamped);
  }

  /** The status of the by-id route for each method, before any store answer matters. */
  lemma ByIdDispatch(verb: string, path: string, f: JsonFile)
    ensures verb == Options ==> HandleRecipeByID(verb, path, f).1.Status() == StatusOK
    ensures verb != Options && PathId(path) == "" ==> HandleRecipeByID(verb, path, f).1.Status() == StatusBadRequest
    ensures verb == Post && PathId(path) != "" ==> HandleRecipeByID(verb, path, f).1.Status() == StatusMethodNotAllowed
    ensures verb in {Get, Delete} && PathId(path) != "" ==>
              HandleRecipeByID(verb, path, f).1.Status() in {StatusOK, StatusNotFound}
  {
  }

  /** The collection route refuses DELETE with 405: deleting needs the by-id route. */
  lemma CollectionRefusesDelete(body: Option<Recipe>, f: JsonFile, freshId: string, clock1: int, clock2: int)
    ensures HandleRecipes(Delete, body, f, freshId, clock1, clock2).1.Status() == StatusMethodNotAllowed
  {
  }

  /** The "/api/recipes/" route itself, with no id, is a 400 for every non-preflight method. */
  lemma EmptyIdIsBadRequest(verb: string, f: JsonFile)
    requires verb != Options
    ensures HandleRecipeByID(verb, ByIdPrefix, f) == (f, Refused(IdRequired))
  {
    assert ByIdPrefix[..|ByIdPrefix|] == ByIdPrefix;
  }

  // ---------------------------------------------------------------------------
  // The protected routes: the middleware in front of each handler

  /** /api/recipes behind `AuthMiddleware`. */
  function ServeRecipes(verb: string, header: string, tokens: AuthService.Registry, now: int,
                        body: Option<Recipe>, f: JsonFile, freshId: string, clock1: int, clock2: int)
    : (res: (JsonFile, int))
    ensures !AuthHandler.AuthMiddleware(verb, header, tokens, now).Admit? ==>
              res.0 == f && res.1 in {StatusOK, StatusUnauthorized}
    ensures AuthHandler.AuthMiddleware(verb, header, tokens, now).Admit? ==>
              var handled := HandleRecipes(verb, body, f, freshId, clock1, clock2);
              res == (handled.0, handled.1.Status())
  {
    match AuthHandler.AuthMiddleware(verb, header, tokens, now)
    case Answer(reply) => (f, reply.Status())
    case Admit(_) =>
      var (f', reply) := HandleRecipes(verb, body, f, freshId, clock1, clock2);
      (f', reply.Status())
  }

  /** /api/recipes/{id} behind `AuthMiddleware`. */
  function ServeRecipeByID(verb: string, header: string, tokens: AuthService.Registry, now: int,
                           path: string, f: JsonFile): (res: (JsonFile, int))
    ensures !AuthHandler.AuthMiddleware(verb, header, tokens, now).Admit? ==>
              res.0 == f && res.1 in {StatusOK, StatusUnauthorized}
    ensures AuthHandler.AuthMiddleware(verb, header, tokens, now).Admit? ==>
              var handled := HandleRecipeByID(verb, path, f);
              res == (handled.0, handled.1.Status())
  {
    match AuthHandler.AuthMiddleware(verb, header, tokens, now)
    case Answer(reply) => (f, reply.Status())
    case Admit(_) =>
      var (f', reply) := HandleRecipeByID(verb, path, f);
      (f', reply.Status())
  }

  /** Without a valid bearer token no protected request changes the recipes file. */
  lemma NoTokenNoWrite(verb: string, header: string, tokens: AuthService.Registry, now: int,
                       body: Option<Recipe>, f: JsonFile, freshId: string, clock1: int, clock2: int, path: string)
    requires !AuthService.ValidateToken(tokens, AuthHandler.ExtractTokenFromHeader(header), now).IsOk()
    ensures ServeRecipes(verb, header, tokens, now, body, f, freshId, clock1, clock2).0 == f
    ensures ServeRecipeByID(verb, header, tokens, now, path, f).0 == f
  {
  }
}
