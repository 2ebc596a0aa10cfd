# Recipe API core in Dafny

A model of the core of a small Go recipe service (`recipe-api`) and proofs about it:

- the **authentication service**: configuration defaults, the credential check, and the in-process token registry. The registry is a map from bearer token to owner and expiry. It issues hex tokens, validates them, revokes them, purges expired ones and counts them.
- the **file-backed recipe store**: the whole JSON file is one ordered sequence of recipes. It supports upsert by id, delete by id, lookup by id, and listing in file order.
- the **relational stores**: the `recipes` table as a map from id to row, whose queries answer in `ORDER BY created_at DESC` order up to ties. The `users` table is a map from serial id to row, with a soft-delete flag and a symbolic bcrypt hash.
- the **request handlers**: recipe validation, the create/update rules that set ids and timestamps, bearer-token extraction, and the status code decided for login, logout, the auth middleware and method dispatch.

Each operation is a pure function (or, for the unordered SQL queries, a method). It maps the state it reads to a new state and an outcome. The clock, the random token bytes, UUIDs, serial ids and bcrypt salts are parameters. A file or database that cannot be used is a constructor of the state (`JsonFile.Unreadable`, `RecipeDb.Unreachable`, `UserDb.Unreachable`). Time is an integer count of nanoseconds.

Files, one module each: `results.dfy` (Option/Result/Outcome), `text.dfy` (prefix, ASCII case folding, substring), `http.dfy` (methods and status codes), `hex.dfy`, `recipe.dfy`, `json_store.dfy`, `recipe_table.dfy`, `user_table.dfy`, `auth_service.dfy`, `auth_handler.dfy`, `recipe_handler.dfy`.

### Behaviour worth knowing

- The two recipe stores list in different orders. The JSON store returns recipes in file order, which is insertion order (`JsonStore.GetAllRecipes`, `JsonStore.SavesListInOrder`). The relational store sorts by `created_at` descending (`RecipeTable.Select`).
- `ValidateToken` rejects only when `now.After(ExpiresAt)`, so a token still validates at exactly its expiry instant (`AuthService.IssuedTokenLifetime`).
- The search compares ingredients as whole elements (`$2 = ANY(ingredients)`), so the ingredient "chocolate chips" does not match the term "choc" (`RecipeTable.SearchIngredientIsWholeElement`). Only the name is matched as a substring.
- The file-backed create handler reads the clock twice, so `CreatedAt <= UpdatedAt` holds under a clock that does not run backwards, but the two need not be equal (`RecipeHandler.CreateStampsIdAndTimes`).
- `AuthService.ValidateCredentials` only ever asks the user store. The configuration's user list is decoded but never consulted, and the JWT secret is defaulted but never used.
- The source files do not type-check together. The relational store reads `created_by`/`updated_by` that `models.Recipe` lacks, and the user store uses `ID`, `Email` and `IsActive` that `models.User` lacks. The model gives each file's behaviour its own datatype (`RecipeTable.RecipeRow`, `UserTable.UserRow`). The recipe handler is modelled over the JSON store, its declared dependency, although `main.go` passes it the relational store.

## Model

| member | source | states |
|---|---|---|
| `Hex.Encode` | auth/auth_service.go:81-86 | a token is two characters per random byte, each in `0-9a-f`, so 32 bytes give 64 characters |
| `Hex.DecodeEncode` | auth/auth_service.go:86 | decoding a token gives back exactly the bytes it was made from |
| `Hex.EncodeInjective` | auth/auth_service.go:86 | different random byte strings never give the same token |
| `RecipeModel.Validate` | models/recipe.go:22-41 | nil exactly when all six checks pass; otherwise the reported check fails and every check ordered before it passes |
| `RecipeModel.ValidIff` | models/recipe.go:22-41 | valid iff name, instructions, cooking time and category are non-empty, there is an ingredient, and servings > 0 |
| `RecipeModel.ServingsAloneRejects` | models/recipe.go:35-37 | servings <= 0 is rejected with the servings message even when every other field is filled in |
| `RecipeModel.ValidateIgnoresUncheckedFields` | models/recipe.go:26-28 | only the ingredient count matters (empty ingredient strings pass); id and timestamps are never inspected |
| `JsonStore.FirstMatch` | storage/json_storage.go:63-67 | the index of the first recipe with the id, and none exactly when no recipe has it |
| `JsonStore.GetAllRecipes` | storage/json_storage.go:39-54 | a read or parse failure is an error; otherwise the file's recipes in stored order |
| `JsonStore.GetRecipeByID` | storage/json_storage.go:57-70 | a present id returns its first match; not-found when no recipe has it; the read error when unreadable |
| `JsonStore.RemoveAt` | storage/json_storage.go:114 | removing position i keeps the recipes before i and shifts the later ones down by one |
| `JsonStore.WriteBack` | storage/json_storage.go:143-154 | a write either replaces the contents or fails and leaves the file as it was |
| `JsonStore.SaveRecipe` | storage/json_storage.go:73-98 | a read failure is returned with no write; success exactly when the file is readable and writable; a failure changes nothing |
| `JsonStore.DeleteRecipe` | storage/json_storage.go:101-125 | read failure and not-found write nothing; success exactly when readable, writable and the id is present |
| `JsonStore.SavesListInOrder` | storage/json_storage.go:93-95 | two saves of new ids list the recipes in the order they were saved |
| `JsonStore.SaveReplacesFirstMatch` | storage/json_storage.go:83-90 | an existing id is replaced at its first position; length and all other positions unchanged |
| `JsonStore.SaveAppendsNew` | storage/json_storage.go:93-95 | a new id is appended: the old contents are a prefix and the length grows by one |
| `JsonStore.UpsertFirstMatch` | storage/json_storage.go:83-95 | after an upsert the first match for the saved id holds the saved recipe |
| `JsonStore.ReadYourWrites` | storage/json_storage.go:57-98 | after a successful save, lookup of the saved id returns the saved recipe |
| `JsonStore.SavePreservesDistinctIds` | storage/json_storage.go:83-95 | pairwise distinct ids stay distinct after a save |
| `JsonStore.DeleteRemovesFirstMatch` | storage/json_storage.go:111-118 | a delete writes the sequence with exactly the first match removed, the rest in order |
| `JsonStore.DeletePreservesDistinctIds` | storage/json_storage.go:111-124 | distinct ids stay distinct after a delete, and then the deleted id is not found |
| `RecipeTable.InsertNewestFirst` | storage/postgres_storage.go:31 | inserting a row into a newest-first sequence keeps it newest-first and adds exactly that row |
| `RecipeTable.Select` | storage/postgres_storage.go:26-59 | an unreachable database is an error; otherwise every selected row exactly once, ordered by non-increasing `created_at` |
| `RecipeTable.GetAllRecipes` | storage/postgres_storage.go:26-59 | a permutation of the whole table sorted non-increasing by `created_at` |
| `RecipeTable.GetRecipesByCategory` | storage/postgres_storage.go:175-205 | a permutation of the rows with that category, in the same ordering |
| `RecipeTable.SearchRecipes` | storage/postgres_storage.go:208-239 | a permutation of the rows whose name contains the term ignoring case or whose ingredients include it, same ordering |
| `RecipeTable.ListingMembers` | storage/postgres_storage.go:27-32 | a row is in a listing exactly when it is stored and the WHERE clause keeps it |
| `RecipeTable.ListingUniqueWithoutTies` | storage/postgres_storage.go:31 | when no two rows share a creation time, all answers the database may give are the same sequence |
| `RecipeTable.CategoryListingExact` | storage/postgres_storage.go:176-182 | a stored row is in the category listing exactly when its category equals the argument |
| `RecipeTable.SearchMatchesNameIgnoringCase` | storage/postgres_storage.go:213-217 | "Chocolate Cake" matches the search term "choc" |
| `RecipeTable.SearchIngredientIsWholeElement` | storage/postgres_storage.go:213-218 | the ingredient "chocolate chips" alone does not match "choc" |
| `RecipeTable.GetRecipeByID` | storage/postgres_storage.go:62-85 | a stored id returns its row; not-found when there is none; a query error when unreachable |
| `RecipeTable.CreateRecipe` | storage/postgres_storage.go:104-128 | succeeds iff the id (the fresh UUID when empty) is free; the new row carries the request's fields under that id, both user references are the actor, both times are the statement time; other rows unchanged |
| `RecipeTable.UpdateRecipe` | storage/postgres_storage.go:130-151 | succeeds iff the id is stored; the request's fields replace the stored ones, `created_at`/`created_by` kept, `updated_by`/`updated_at` set; other rows unchanged |
| `RecipeTable.SaveRecipe` | storage/postgres_storage.go:88-102 | a lookup error other than not-found is returned without writing; any failure leaves the database as it was |
| `RecipeTable.SaveExistingUpdates` | storage/postgres_storage.go:131-151 | an existing id is updated: name through category and `updated_by`/`updated_at` replaced; `created_at`, `created_by` and other rows kept |
| `RecipeTable.SaveAbsentCreates` | storage/postgres_storage.go:105-128 | an absent id is inserted, under a fresh UUID iff the id is empty; `created_by = updated_by = user`, creation time equals modification time |
| `RecipeTable.WritesKeepKeyedById` | storage/postgres_storage.go:88-172 | save and delete keep every row under its own id |
| `RecipeTable.ReadYourWrites` | storage/postgres_storage.go:88-151 | after a successful save of a non-empty id, lookup returns the saved fields with the save time and actor |
| `RecipeTable.RowsAffected` | storage/postgres_storage.go:162-169 | the delete matches at most one row, and none exactly when the id is absent |
| `RecipeTable.DeleteRecipe` | storage/postgres_storage.go:154-172 | succeeds iff the id is stored, not-found iff zero rows matched; afterwards no row has the id |
| `RecipeTable.DeleteThenGet` | storage/postgres_storage.go:154-172 | after a delete, lookup of the id is not-found |
| `UserTable.Hash` | storage/user_storage.go:75-78 | a stored hash matches exactly the passwords that agree with its password on the first 72 bytes |
| `UserTable.KeyPart` | storage/user_storage.go:149 | the part of a password the comparison reads: exactly its first 72 characters, or the whole password when it is shorter |
| `UserTable.LongPasswordsCollide` | storage/user_storage.go:149 | for every password of at least 72 bytes, its hash also accepts that password with anything appended |
| `UserTable.GetUserByUsername` | storage/user_storage.go:25-47 | returns only the active row with that username; found iff such a row exists |
| `UserTable.GetUserByID` | storage/user_storage.go:49-71 | found iff the id exists and the row is active; otherwise not-found |
| `UserTable.CreateUser` | storage/user_storage.go:73-98 | a bcrypt failure is an error before the database; otherwise succeeds iff the serial id and username are free; the new row has the given username, email and `is_active`, stores `Hash(password)`, and no other row changes |
| `UserTable.UpdateUser` | storage/user_storage.go:100-119 | succeeds iff the id exists and the username is free; writes username, email, `is_active`, `updated_by`, `updated_at` and nothing else, in that row only; failure changes nothing |
| `UserTable.DeleteUser` | storage/user_storage.go:121-140 | not-found iff no row has the id; on success only that row changes, and only `is_active` (now false) and `updated_at` |
| `UserTable.ValidateCredentials` | storage/user_storage.go:142-156 | the active row with that username if its hash matches, "invalid credentials" if it does not, not-found when there is no such row |
| `UserTable.UpdatePassword` | storage/user_storage.go:158-186 | not-found iff no row has the id; on success only that row changes, and only its hash (of the new password), `updated_by` and `updated_at` |
| `UserTable.LookupsSeeOnlyActiveRows` | storage/user_storage.go:26-30 | lookups never return an inactive row; an unknown or inactive username fails validation as not-found |
| `UserTable.WrongPasswordIsInvalidCredentials` | storage/user_storage.go:149-152 | a wrong password for an active user gives "invalid credentials" |
| `UserTable.DeleteInactiveSucceeds` | storage/user_storage.go:122-138 | deleting an already inactive user succeeds |
| `UserTable.DeletedUserLocksOut` | storage/user_storage.go:122-146 | after a delete the user is neither found by id nor able to log in |
| `UserTable.UpdateUserKeepsPassword` | storage/user_storage.go:102-105 | an update never changes the password hash or the creation fields |
| `UserTable.UpdatePasswordThenLogin` | storage/user_storage.go:158-186 | after a password change the new password logs in, and an old one differing within the first 72 bytes is rejected |
| `UserTable.CreateThenLogin` | storage/user_storage.go:73-98 | an active user created with a free id and username can then log in with the password given, and gets the inserted row |
| `AuthService.LoadConfig` | auth/auth_service.go:47-67 | an unreadable file is an error; expiry 0 becomes 24 and any other value is kept; an empty secret becomes the default |
| `AuthService.LoadConfigIdempotent` | auth/auth_service.go:58-64 | applying the defaults to a defaulted configuration changes nothing |
| `AuthService.ValidateCredentials` | auth/auth_service.go:70-76 | any user-store error collapses to "no user"; a user is only returned for an active row whose hash matches |
| `AuthService.ExpiryDuration` | auth/auth_service.go:93 | the token lifetime has the sign of the configured hours |
| `AuthService.ExpiryDurationAsWritten` | auth/auth_service.go:93 | the source's `int64` product lies in the `int64` range and agrees with the exact lifetime modulo 2^64 |
| `AuthService.AsWrittenExactInRange` | auth/auth_service.go:93 | for lifetimes an `int64` can hold, the source's product is exact |
| `AuthService.AsWrittenWrapsNegative` | auth/auth_service.go:93 | at 2562048 hours the source's product is negative while the intended lifetime is positive |
| `AuthService.GenerateToken` | auth/auth_service.go:79-103 | fails iff the random source fails; the token is the hex of the bytes; it maps to the user's name and id, created now, expiring one lifetime later; other entries unchanged |
| `AuthService.ValidateToken` | auth/auth_service.go:106-123 | ok iff the token is present and not strictly past expiry; an absent token is never ok; the check changes no state |
| `AuthService.RemoveToken` | auth/auth_service.go:139-143 | deletes only that key; every other entry unchanged |
| `AuthService.InvalidateToken` | auth/auth_service.go:126-136 | returns true iff the token was present; afterwards it is absent and the other entries are unchanged |
| `AuthService.CleanupExpiredTokens` | auth/auth_service.go:146-156 | no entry past expiry remains; every unexpired entry is kept unchanged; the result is a sub-map |
| `AuthService.ActiveTokensCount` | auth/auth_service.go:159-163 | zero exactly for an empty registry |
| `AuthService.CountTracksIssueAndRevoke` | auth/auth_service.go:79-163 | issuing a token not yet held raises the count by one; revoking a held token lowers it by one |
| `AuthService.CountIncludesExpired` | auth/auth_service.go:159-163 | the count is the number of entries, expired ones included: count after a purge plus the entries purged |
| `AuthService.IssuedTokenLifetime` | auth/auth_service.go:92-122 | an issued token validates for its user exactly at instants up to and including its expiry |
| `AuthService.RevokeIsFinal` | auth/auth_service.go:126-136 | after a revoke the token is unknown, and a second revoke returns false with no change |
| `AuthService.RevokeIsLocal` | auth/auth_service.go:126-143 | revoking or removing one token leaves every other token's answer unchanged |
| `AuthService.ExpiredRemovalIsHarmless` | auth/auth_service.go:116-119 | the background removal started by an expired answer changes no accept/reject decision from then on |
| `AuthService.CleanupPreservesDecisions` | auth/auth_service.go:146-156 | a purge changes no accept/reject decision at its instant or later |
| `AuthService.CleanupIdempotent` | auth/auth_service.go:146-156 | purging twice at one instant is purging once |
| `AuthService.ChefScenario` | auth/auth_service.go:79-136 | a 24-hour token for "chef" is accepted an hour later and rejected right after revocation |
| `AuthHandler.ExtractTokenFromHeader` | handlers/auth_handler.go:166-178 | "" for an empty header or any other scheme; otherwise the rest after a case-sensitive "Bearer " |
| `AuthHandler.ExtractBearerRoundTrip` | handlers/auth_handler.go:173-175 | the header "Bearer t" yields t |
| `AuthHandler.ExtractIsCaseSensitive` | handlers/auth_handler.go:173 | a "bearer " header yields no token |
| `AuthHandler.HandleLogin` | handlers/auth_handler.go:25-79 | OPTIONS 200, non-POST 405, bad JSON 400, empty fields 400, bad credentials 401, token-generation failure 500; success iff credentials valid and bytes drawn, adding exactly one token for the user; no state change otherwise |
| `AuthHandler.LoginCredentialFailuresLookAlike` | handlers/auth_handler.go:57-61 | every credential failure gets the same 401 reply |
| `AuthHandler.HandleLogout` | handlers/auth_handler.go:82-125 | missing token 401, invalid or expired 401; success iff the token validates, and then exactly it is revoked |
| `AuthHandler.LogoutNeverFails` | handlers/auth_handler.go:115-124 | with atomic operations the "Failed to logout" 500 cannot happen |
| `AuthHandler.LogoutTwiceRejected` | handlers/auth_handler.go:108-124 | after a logout the same header is rejected as invalid |
| `AuthHandler.AuthMiddleware` | handlers/auth_handler.go:128-163 | OPTIONS gets 200 with no authentication check; the request is handed on iff the bearer token is non-empty and validates, with the token's owner; otherwise 401 |
| `AuthHandler.LoginThenAdmit` | handlers/auth_handler.go:143-161 | the token a login hands out admits its user until it expires |
| `RecipeHandler.ListRecipes` | handlers/recipe_handler.go:85-99 | 200 with the file's recipes iff the file is readable; an unreadable file is 500 |
| `RecipeHandler.CreateThenList` | handlers/recipe_handler.go:85-150 | after a create under a new id, the listing is the old recipes followed by the created one |
| `RecipeHandler.CreateRecipe` | handlers/recipe_handler.go:119-150 | bad JSON or invalid body is 400 with no write; a failed save is 500; success iff valid and writable, storing the body with the fresh id and the two clock readings |
| `RecipeHandler.UpdateRecipe` | handlers/recipe_handler.go:153-190 | an unknown id is 404 before validation; a known id with an invalid body is 400; a failed save is 500; success stores the body with the stored creation time and the clock reading |
| `RecipeHandler.GetRecipe` | handlers/recipe_handler.go:102-116 | found iff the store finds the id; every store error is 404 |
| `RecipeHandler.DeleteRecipeById` | handlers/recipe_handler.go:193-205 | success iff the store deletes; every store error is 404 with no change |
| `RecipeHandler.HandleRecipes` | handlers/recipe_handler.go:28-51 | OPTIONS 200; GET lists, POST creates, PUT updates; any other method 405 with no change |
| `RecipeHandler.PathId` | handlers/recipe_handler.go:68 | the id is the path after "/api/recipes/"; a path without that prefix is returned unchanged |
| `RecipeHandler.HandleRecipeByID` | handlers/recipe_handler.go:54-82 | OPTIONS 200; empty id 400 before the method check; GET reads, DELETE deletes, anything else 405 |
| `RecipeHandler.InvalidCreateSkipsStore` | handlers/recipe_handler.go:127-130 | an invalid create is 400 whatever the store holds, and the store is untouched |
| `RecipeHandler.CreateStampsIdAndTimes` | handlers/recipe_handler.go:133-135 | a create takes the fresh id, ignoring the client's, and CreatedAt <= UpdatedAt under a monotone clock |
| `RecipeHandler.CreateThenGet` | handlers/recipe_handler.go:133-141 | a created recipe is found under its new id |
| `RecipeHandler.UpdateChecksExistenceFirst` | handlers/recipe_handler.go:161-171 | an unknown id is 404 even when the body is also invalid |
| `RecipeHandler.UpdateKeepsCreation` | handlers/recipe_handler.go:161-181 | a valid update of a stored id in a writable file succeeds, keeps the id and stored CreatedAt, sets UpdatedAt to now, and is then found |
| `RecipeHandler.ByIdDispatch` | handlers/recipe_handler.go:62-81 | status by method on the by-id route: OPTIONS 200, empty id 400, POST 405, GET/DELETE 200 or 404 |
| `RecipeHandler.CollectionRefusesDelete` | handlers/recipe_handler.go:41-50 | DELETE on the collection is 405 |
| `RecipeHandler.EmptyIdIsBadRequest` | handlers/recipe_handler.go:68-72 | "/api/recipes/" with no id is 400 for every non-preflight method |
| `RecipeHandler.ServeRecipes` | main.go:66 | behind the middleware, a request that is not admitted changes nothing and gets 200 or 401; an admitted one gets exactly what the collection handler does |
| `RecipeHandler.ServeRecipeByID` | main.go:67 | the same for the by-id route and its handler |
| `RecipeHandler.NoTokenNoWrite` | handlers/auth_handler.go:143-161 | without a valid bearer token no protected request changes the recipes file |

## Left out

- Concurrency: the `RWMutex` of the token registry and of the JSON store, and the goroutine `ValidateToken` starts. Every operation is atomic. The goroutine is the `Expired` answer plus a separate `RemoveToken`. Under real interleavings the "Failed to logout" 500 becomes reachable; the model shows it is not reachable sequentially.
- The hourly cleanup ticker in `main.go`: only `CleanupExpiredTokens` itself is modelled.
- HTTP wiring and server start in `main.go`, except the two protected-route compositions. The database connection pool (database/connection.go is not part of this model), Swagger and static files are left out too.
- File I/O, JSON and YAML: the file is `JsonFile` and the configuration is `Option<Config>`. A failed read or parse is one abstract outcome. A write either fully happens or fails with no change; partial writes by `os.WriteFile` are not modelled. `NewJSONStorage` creating the directory and an empty file is not modelled.
- SQL execution: the tables are finite maps, and one operation sees the database as reachable or not. A failure between `SaveRecipe`'s lookup and its write, row-scan errors, and `rows.Err()` are not modelled separately. The not-found test in `SaveRecipe` compares error text; it is modelled as the `RecipeNotFound` constructor, which carries the same id.
- The schema is not part of this model, and three assumptions stand in for it. Rows are keyed by id. Usernames are unique among all rows, so a duplicate username makes the INSERT or UPDATE fail. The `created_at`/`updated_at` defaults of both tables yield one statement time, so an inserted row's two times are equal (`RecipeTable.CreateRecipe`, `RecipeTable.SaveAbsentCreates`, `UserTable.CreateUser`); the INSERTs set neither column and only read them back.
- ILIKE: case folding is ASCII only; `%` and `_` inside the search term are not treated as wildcards, and the default escape character `\` is not treated as an escape.
- bcrypt is a symbolic `PasswordHash`; the cost factor is not modelled. A bcrypt failure is a `None` salt, and the salt is left unconstrained: when it fails is not modelled. Recent versions of the bcrypt package refuse to hash passwords over 72 bytes, so `UserTable.CreateThenLogin` and `UserTable.UpdatePasswordThenLogin` hold on the condition that hashing succeeded.
- `UserTable.Matches`: models the 72-byte key limit, with one character standing for one byte (no UTF-8 encoding). For shorter passwords it is exact equality. The key schedule's cycling of a short key, which in principle lets two passwords containing NUL bytes collide, is not modelled.
- UUIDs, serial ids, `crypto/rand` bytes and clock readings are parameters. The Go `time.Time.Add` range and monotonic clock readings are not modelled.
- CORS headers, JSON response envelopes, and error texts that embed a store error (`%v`) are not modelled. A reply carries a status and a failure kind. The middleware's `X-Username`/`X-User-ID` headers are the `Admit` info.
- Backend equivalence (both stores listing the same records in the same order) is not stated, because as written the backends differ. The JSON store keeps file order and stores the caller's id and timestamps. The relational store sorts by `created_at`, generates an id only for an empty one, and takes timestamps from the database.
- The configuration's static user list and JWT secret: carried by `Config` but never consulted, as in the source.
- `RecipeTable.ReadYourWrites`: requires a non-empty id. With an empty id the row is stored under the fresh UUID, which the Go `SaveRecipe` never returns to its caller.
- `AuthService.GenerateToken`: computes the expiry with the exact lifetime `ExpiryDuration` rather than the source's wrapping `int64` product (see Findings). The two agree for every lifetime up to 2562047 hours (`AuthService.AsWrittenExactInRange`).

## Findings

| source | as written | input that shows it | evidently intended | confidence | as-written member | corrected member |
|---|---|---|---|---|---|---|
| auth/auth_service.go:93 | `time.Duration(TokenExpiryHours) * time.Hour` is an `int64` nanosecond product that wraps around | `token_expiry_hours: 2562048` gives a negative duration, so every token is issued already expired | expiry = creation + hours, later than creation for any positive hours | low (an extreme configuration value); not executed | `AuthService.ExpiryDurationAsWritten` (shown by `AuthService.AsWrittenWrapsNegative`) | `AuthService.ExpiryDuration` (used by `AuthService.GenerateToken`) |
