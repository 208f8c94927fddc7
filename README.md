# Content API core, modelled in Dafny

The modelled system is a NestJS + Prisma backend. It serves multilingual
articles, books, research papers, categories and tags, and it guards them
with users, roles and permissions. This project models the following parts:

- **Auth**: login with bcrypt-checked credentials, access and refresh JWTs,
  refresh-token persistence and revocation, and the activity log.
- **Users**: creation with uniqueness and role-id checks, update,
  activation, whole-set role replacement, removal, lookups and the user
  projection (role names and flattened permission names).
- **The seed**: four roles, the 112-entry permission catalogue (28 models × 4
  actions), the SUPER_ADMIN / USER / EDITOR grants, four languages and the
  super-administrator account, followed by its read-back check.
- **Content services**: articles, books, research, categories and tags.
  - Slug derivation and slug conflicts.
  - View counting on reads.
  - The field-by-field updates, and the replacement of translations, tag
    links and attachment links.
  - Listings with their filters (category, search text, category model, and
    the research year and start-date filters).
  - The translation fallback chain.
- **Shared utilities**: the pagination service, the response envelope helpers
  and the global exception filter.

Each database table is an insertion-ordered `seq` of rows. Its unique
columns are stated as `Unique(rows, key)`, and ids are handed out from a
counter. A service holding a Prisma client is a `class` whose methods
change the tables they write. Those methods are listed in `modifies` frames
on the database object (`IdentityDb`, `ContentDb`). Each of them states the
whole new state in terms of the old one, and also keeps the table invariant
`Valid()`. The pure parts are functions:

- formatting;
- filters;
- pagination arithmetic;
- the exception filter;
- the update of a row by a DTO.

Each of these has lemmas about what it promises. A thrown exception is an
`Err` of `Result`, carrying the value the service would throw (`Thrown`). So
the exception filter can be applied to the failure of any operation.

The clock is a parameter (`now`). Instants are whole seconds since
1970-01-01T00:00:00Z, UTC. Seconds are used rather than day numbers because
a JavaScript `Date` has sub-day precision. A calendar day is therefore a
range of instants, which is what the research year filter gets wrong. bcrypt
and JWT are symbolic:

- a digest remembers the password it was made from;
- a token remembers its user id, issue time, expiry and secret;
- `verify` accepts a token signed with the same secret before its expiry.

## Model

| member | source | states |
|---|---|---|
| Slugs.GenerateSlug | src/articles/articles.service.ts:14-20 | a generated slug consists only of `a-z`, digits, Arabic letters and `-` |
| Slugs.DropDisallowed | src/articles/articles.service.ts:17 | every character left is a slug character or white space; text made only of those is unchanged; the result is never longer |
| Slugs.DropDisallowedAppend | src/articles/articles.service.ts:17 | the `replace` works character by character: text split anywhere loses the same characters on each side |
| Slugs.DropDisallowedIsFilter | src/articles/articles.service.ts:17 | exactly the slug characters and white space remain, in their order |
| Slugs.CollapseSpaces | src/articles/articles.service.ts:18 | text without white space is unchanged, and no white space is left: each character is `-` or comes from the input |
| Slugs.CollapseRun | src/articles/articles.service.ts:18 | a whole run of white space, up to the next other character or the end, becomes one `-` |
| Slugs.CollapseKeeps | src/articles/articles.service.ts:18 | any character other than white space is copied as it is |
| Slugs.TrimIsRedundant | src/articles/articles.service.ts:15-19 | the final `trim()` never changes the slug |
| Slugs.GenerateSlugIdempotent | src/articles/articles.service.ts:14-20 | generating a slug from a slug gives the same slug |
| Translations.GetTranslation | src/articles/articles.service.ts:22-31 | the result is absent only for an empty list, and is always one of the translations |
| Translations.GetTranslationIsFirstBest | src/articles/articles.service.ts:22-31 | the fallback chain picks the first translation of the highest rank: requested language, then default, then the first |
| Translations.RequestedLanguageWins | src/articles/articles.service.ts:26-27 | when a translation in the requested (non-empty) language exists, the chosen one is in that language |
| Pagination.CeilDiv | src/common/services/pagination.service.ts:25 | `Math.ceil(total / limit)`: the smallest page count whose pages hold all rows, and 0 for no rows |
| Pagination.CreatePaginationOptions | src/common/services/pagination.service.ts:9-18 | `take` is the limit; page 1 skips nothing; a page of at least 1 never skips a negative count |
| Pagination.ConsecutivePagesAdjacent | src/common/services/pagination.service.ts:13 | page p+1 starts exactly where page p ends |
| Pagination.CreatePaginationMeta | src/common/services/pagination.service.ts:20-33 | the request is echoed, `total_items` is the count, and `total_pages` is the least page count covering it |
| Pagination.Window | src/common/services/pagination.service.ts:43-47 | at most `take` rows, the ones from position `skip` on, in order |
| Pagination.Paginate | src/common/services/pagination.service.ts:35-57 | fails exactly for a page below 1; the data are the matching rows from position (page-1)·limit on, at most `limit` of them, each a stored row that matches; the metadata are `createPaginationMeta` of the matching count |
| Pagination.PaginatePages | src/common/services/pagination.service.ts:35-57 | a page has rows exactly when its number is at most `total_pages`, and pages 1 to `total_pages` return every matching row once, in order |
| Pagination.PagesUpToPrefix | src/common/services/pagination.service.ts:35-57 | the first n pages together are exactly the first n·limit rows |
| Pagination.PagesCoverListing | src/common/services/pagination.service.ts:20-57 | walking pages 1..total_pages returns every row once, in order |
| Pagination.PageBeyondLastIsEmpty | src/common/services/pagination.service.ts:20-57 | a page after the last is empty |
| Responses.Success | src/common/utils/response.util.ts:8-17 | status success, the data, and the given message or the default |
| Responses.Error | src/common/utils/response.util.ts:19-24 | status error, the message, no data |
| Responses.Paginated | src/common/utils/response.util.ts:26-39 | status success; items and pagination are kept; the given message or the default |
| Responses.CalculatePagination | src/common/utils/response.util.ts:41-54 | the same record as the pagination service's `createPaginationMeta` |
| ExceptionFilter.Join | src/common/filters/global-exception.filter.ts:73 | `join` of one item is the item, and of none is empty |
| ExceptionFilter.JoinSnoc | src/common/filters/global-exception.filter.ts:73 | joining one more item appends the separator and the item |
| ExceptionFilter.JoinLength | src/common/filters/global-exception.filter.ts:73 | a join holds every item once and one separator between each two |
| ExceptionFilter.HandlePrismaError | src/common/filters/global-exception.filter.ts:69-89 | P2002 names the target fields, or says "Field already exists" without them; each of P2025, P2003, P2004, P2014, P2021 and P2022 has its fixed text, and an unknown code yields "Database error: " and the error's message |
| ExceptionFilter.FixedTextsDistinct | src/common/filters/global-exception.filter.ts:74-85 | the six fixed texts are pairwise different, so the text names the code |
| ExceptionFilter.Catch | src/common/filters/global-exception.filter.ts:18-67 | status and body for each kind of thrown value: the HttpException's own status and message; for a BadRequest with an object response, the `message` list joined, or a non-empty `message` text, or else the exception's message; 400 for Prisma errors; 500 for errors and non-errors |
| ExceptionFilter.CatchStatusOrigin | src/common/filters/global-exception.filter.ts:34-59 | only an HttpException produces a status other than 400 or 500, and a 400 without one comes from Prisma |
| ExceptionFilter.UniqueViolationMessage | src/common/filters/global-exception.filter.ts:73-75 | a unique violation on column c answers 400 "c already exists" |
| Crypto.HashCompare | src/auth/auth.service.ts:35 | `compare` accepts the hashed password and rejects every other one |
| Crypto.SignVerify | src/auth/auth.service.ts:97-100 | a signed token verifies with its payload from signing until its TTL has passed, and fails after that |
| Crypto.VerifyNeedsSameSecret | src/auth/auth.service.ts:97-100 | a token signed under one secret is refused under another |
| Identity.FindUserById | src/users/users.service.ts:123-126 | the user found has the id, and none is found exactly when no row has it |
| Identity.FindUserByUsername | src/auth/auth.service.ts:24-27 | the user found has the username, and none is found exactly when no row has it |
| Identity.AssignedRoleIds | src/users/users.service.ts:38-54 | the role ids of the user's assignments, in assignment order |
| Identity.Assignments | src/users/users.service.ts:97-101 | one assignment row per role id, each with the user |
| Identity.AssignedRoleIdsOfAssignments | src/users/users.service.ts:221-226 | the assignments written for a user give back exactly its role ids, and none to another user |
| Identity.AssignedRoleIdsWithout | src/users/users.service.ts:216-218 | deleting a user's assignments leaves it none, and leaves every other user's assignments alone |
| Identity.RoleNamesAppend | src/users/users.service.ts:47 | one more role id appends that role's name |
| Identity.FlatPermissionNamesAppend | src/users/users.service.ts:48-52 | one more role id appends that role's permission names |
| Auth.LoginUserOutcome | src/auth/auth.service.ts:23-72 | login succeeds exactly when the user exists, is active, the password matches and the new refresh token is not stored yet; on success that token is appended, on failure nothing is written |
| Auth.LoginOutcome | src/auth/auth.service.ts:74-84 | every failure becomes the same "Invalid credentials" exception, and a success is `loginUser`'s |
| Auth.RefreshOutcome | src/auth/auth.service.ts:86-122 | a new access token is issued exactly when the token is stored, verifies under the refresh secret and names an active user; every failure gives the same exception |
| Auth.WithoutToken | src/auth/auth.service.ts:133-137 | after the delete, no row has the token and every other row is kept |
| Auth.AuthService.LoginUser | src/auth/auth.service.ts:23-72 | the result and the refresh-token table are those of `LoginUserOutcome`; the tables stay valid |
| Auth.AuthService.Login | src/auth/auth.service.ts:74-84 | the result and the table are those of `LoginOutcome` |
| Auth.AuthService.RefreshAccessToken | src/auth/auth.service.ts:86-122 | answers `RefreshOutcome` and writes nothing |
| Auth.AuthService.RefreshToken | src/auth/auth.service.ts:124-131 | rethrows: the same answer as `refreshAccessToken` |
| Auth.AuthService.LogoutUser | src/auth/auth.service.ts:133-137 | no token means no write; a failing database call is an error with nothing written; otherwise the token's rows are deleted |
| Auth.AuthService.Logout | src/auth/auth.service.ts:139-146 | always the same success message; the token's rows are deleted only when a token was given and the call succeeded |
| Auth.AuthService.LogActivity | src/auth/auth.service.ts:148-168 | exactly one row is appended, carrying the arguments and the next id |
| Auth.LoginRejectsUnknownOrInactive | src/auth/auth.service.ts:29-32 | an unknown or inactive user fails with the "disabled" message and writes nothing |
| Auth.LoginRejectsWrongPassword | src/auth/auth.service.ts:35-38 | a wrong password for an active user fails with "Invalid credentials" and writes nothing |
| Auth.LoginSuccessShape | src/auth/auth.service.ts:63-71 | a success returns the stored user's id, username, email and role names, with an access token and a refresh token for that user |
| Auth.LoginFailuresIndistinguishable | src/auth/auth.service.ts:74-84 | through `login`, any two failing attempts give identical results |
| Auth.LoginThenRefresh | src/auth/auth.service.ts:41-122 | a refresh token from a login refreshes, while the user stays active, until it expires, and it is not rotated |
| Auth.LogoutThenRefreshFails | src/auth/auth.service.ts:88-93 | once the token is deleted, refreshing with it fails |
| Auth.LogoutIdempotent | src/auth/auth.service.ts:133-137 | logging out twice with a token is logging out once |
| Auth.SameSecondLoginFails | src/auth/auth.service.ts:41-61 | as written: a second successful-credential login of the same user in the same second fails |
| Auth.LoginUserUpsertOutcome | src/auth/auth.service.ts:59-61 | corrected: after a successful login its refresh token is stored, and a failure writes nothing |
| Auth.UpsertLoginSucceedsIffCredentials | src/auth/auth.service.ts:23-72 | corrected: login succeeds exactly when the credentials are valid and the user is active |
| Users.FormatUser | src/users/users.service.ts:38-54 | the response copies the user's fields without the password hash, and has at most one role per assignment |
| Users.FormatUserNoRoles | src/users/users.service.ts:38-54 | a user without assignments has no roles and no permissions |
| Users.FormatUserAddRole | src/users/users.service.ts:38-54 | assigning one more role appends its name to the roles and its permissions to the permissions |
| Users.RoleCountCheck | src/users/users.service.ts:77-85 | the role-id check passes exactly when the ids are distinct and each names a role |
| Users.FilterCount | src/users/users.service.ts:78-80 | the `in` query returns one role per distinct matched id |
| Users.ApplyUserUpdate | src/users/users.service.ts:149-171 | the id is kept; a given password is stored hashed; a non-empty full name, email or username is stored, and a missing or empty one is left as it was; `isActive` is applied when given |
| Users.EmptyUpdateIsIdentity | src/users/users.service.ts:149-171 | an update that gives nothing changes nothing |
| Users.UpdateIdempotent | src/users/users.service.ts:149-171 | without a new password, sending an update twice is sending it once |
| Users.IndexOfUser | src/users/users.service.ts:122-133 | the position found has the id, and none is found exactly when no row has it |
| Users.FindAll | src/users/users.service.ts:109-120 | fails exactly for a page below 1; the page holds the responses of the users from position (page-1)·limit on, in table order, at most `limit` of them; the metadata count every user |
| Users.UsersService.FindOne | src/users/users.service.ts:122-133 | found exactly when a row has the id, and then that user's response; otherwise "User not found" |
| Users.UsersService.Create | src/users/users.service.ts:56-107 | a taken email or username is a Conflict, and invalid role ids are a BadRequest, both writing nothing; otherwise the active user and its assignments are inserted and returned |
| Users.UsersService.Update | src/users/users.service.ts:149-171 | NotFound, or a unique violation for an email or username another user holds, or the row replaced by `ApplyUserUpdate`; failures write nothing |
| Users.UsersService.UpdateUserActive | src/users/users.service.ts:173-190 | NotFound, or only that row's active flag changes |
| Users.UsersService.UpdateUserRoles | src/users/users.service.ts:192-240 | succeeds exactly when the user exists and the role ids pass the check; the user's assignments are then exactly the new ids, and no other user's change |
| Users.UsersService.Remove | src/users/users.service.ts:242-251 | NotFound, or the user and its assignments are deleted and every other row is kept |
| Users.UsersService.FindByUsername | src/users/users.service.ts:135-140 | the row with the username, or none exactly when no row has it |
| Users.UsersService.FindByEmail | src/users/users.service.ts:142-147 | the row with the email, or none exactly when no row has it |
| Users.UsersService.CheckUserExists | src/users/users.service.ts:253-260 | true exactly when a row has the id |
| Users.UsersService.CheckEmailExists | src/users/users.service.ts:262-269 | true exactly when a row has the email |
| Users.UsersService.CheckUsernameExists | src/users/users.service.ts:271-278 | true exactly when a row has the username |
| Users.InsertUserValid | src/users/users.service.ts:90-104 | inserting a fresh user with its assignments keeps ids, usernames, emails and assignments unique |
| Users.ReplaceRolesValid | src/users/users.service.ts:214-233 | replacing one user's assignments keeps the assignment table valid |
| Users.RoleReplacement | src/users/users.service.ts:214-233 | afterwards the user's roles are exactly the new ids, in order, and another user's are unchanged |
| SeedCatalogue.RoleDescription | prisma/seed.ts:20 | a role's description is its name with underscores as spaces, lowercased |
| SeedCatalogue.SuperAdminDescription | prisma/seed.ts:20 | SUPER_ADMIN is described as "super admin" |
| SeedCatalogue.NameAtPosition | prisma/seed.ts:79-91 | iteration (model m, action a) is the (4m + a)-th, and it writes `${action}_${model}` |
| SeedCatalogue.LiteralsDistinct | prisma/seed.ts:11-74 | 28 distinct models, 4 distinct actions without underscores, and distinct role names |
| SeedCatalogue.PermNameInjective | prisma/seed.ts:81 | different (action, model) pairs give different permission names |
| SeedCatalogue.NameAtInjective | prisma/seed.ts:79-91 | the 112 generated names are pairwise distinct |
| SeedCatalogue.ReadPrefix | prisma/seed.ts:117 | a generated name starts with "READ_" exactly when its action is READ |
| SeedCatalogue.EditorEntries | prisma/seed.ts:133-165 | the EDITOR list holds 69 names, each a generated (action, model) name |
| SeedCatalogue.EditorWithinCatalogue | prisma/seed.ts:133-165 | each EDITOR entry is a generated name of a content model, never of an auth or ACL model |
| Seed.UpsertRole | prisma/seed.ts:15-22 | an existing role is left untouched; a missing one is appended with its description; no other name's lookup changes |
| Seed.UpsertPermission | prisma/seed.ts:84-88 | afterwards the name has the given description, existing ids are kept, and no other name's lookup changes |
| Seed.UpsertGrant | prisma/seed.ts:100-106 | the grant is appended only when missing |
| Seed.UpsertLanguage | prisma/seed.ts:213-221 | afterwards the code's row is exactly the language, in place or appended |
| Seed.SeedRoles | prisma/seed.ts:14-25 | every role name maps to its row's id; when all four existed, nothing changes |
| Seed.SeedPermission | prisma/seed.ts:80-90 | one loop iteration extends the established prefix of the catalogue by one name |
| Seed.SeedPermissions | prisma/seed.ts:79-91 | all 112 names are stored and mapped to their ids, with the keys in loop order; a complete catalogue gains no rows |
| Seed.GrantAll | prisma/seed.ts:96-108 | SUPER_ADMIN is granted every mapped name, and the counter counts every visit |
| Seed.GrantReads | prisma/seed.ts:113-127 | USER is granted each READ_ name, and the counter counts the grants |
| Seed.GrantEditor | prisma/seed.ts:167-180 | EDITOR is granted each listed name the map holds, and a missing one is skipped uncounted |
| Seed.ReadCount | prisma/seed.ts:113-127 | USER receives one READ_ permission per model: 28 |
| Seed.EditorCount | prisma/seed.ts:167-180 | all 69 EDITOR names are granted |
| Seed.GrantLoopEffect | prisma/seed.ts:96-180 | after a grant loop, the role holds every name the loop grants, read back through the tables |
| Seed.SeededGrants | prisma/seed.ts:96-180 | the three grant loops together establish every grant of SUPER_ADMIN, USER and EDITOR |
| Seed.AdminIsOther | prisma/seed.ts:11-25 | ADMIN's row is none of the rows that receive grants |
| Seed.SeedSuperAdminGrants | prisma/seed.ts:96-108 | SUPER_ADMIN holds all 112 permissions, and no grant is added for another role |
| Seed.SeedUserGrants | prisma/seed.ts:113-127 | USER holds the 28 READ_ permissions, and no grant is added for another role |
| Seed.SeedEditorGrants | prisma/seed.ts:167-180 | EDITOR holds its 69 permissions, and no grant is added for another role |
| Seed.SeedGrants | prisma/seed.ts:96-180 | steps 4-6 establish all three roles' grants and only ever add grants |
| Seed.SeedAccessControl | prisma/seed.ts:14-180 | roles, catalogue and grants are in place with the counts 112/112/28/69, and the returned id is SUPER_ADMIN's row; grants are only added, never to ADMIN; a rerun adds no row |
| Seed.SeedLanguages | prisma/seed.ts:185-222 | each of the four languages' rows is exactly its entry; a rerun adds no row |
| Seed.UpsertSuperAdmin | prisma/seed.ts:236-256 | an existing account is reset (hash, email, name, active) without a new role; a new account is created active with SUPER_ADMIN; an email held by another account is a unique violation that writes nothing |
| Seed.ResetAccount | prisma/seed.ts:236-243 | the update branch rewrites only that row's four fields |
| Seed.CreateAccount | prisma/seed.ts:244-255 | the create branch appends an active account and its one SUPER_ADMIN assignment |
| Seed.OrDefault | prisma/seed.ts:227-230 | an unset or empty variable takes the fallback, and any other value is used as given |
| Seed.SeedAccount | prisma/seed.ts:234-279 | on success, the account is stored, the read-back check passes, and the configured password logs in |
| Seed.SeedMain | prisma/seed.ts:7-282 | every seeded row is in place; on success the super administrator can log in with the configured password; the only failure is an email clash; ADMIN gains no grant; a rerun adds no row |
| Calendar.DaysInYear | src/research/research.service.ts:166-173 | 366 days exactly in Gregorian leap years, 365 otherwise |
| Calendar.KnownYearStarts | src/research/research.service.ts:166-173 | the epoch, 2000-01-01, 2024-01-01 and 2024-12-31 at midnight UTC have their Unix times |
| Calendar.NextYearStart | src/research/research.service.ts:166-173 | a year is as long as its day count, and the next year starts one day after the last day starts |
| Calendar.YearStartMonotone | src/research/research.service.ts:166-173 | later years start later |
| Calendar.InOneYear | src/research/research.service.ts:166-173 | an instant falls in at most one year |
| Content.DefaultTitle | src/articles/articles.service.ts:84-89 | empty when no translation is the default |
| Content.DeriveSlugSpec | src/articles/articles.service.ts:84-89 | a non-empty requested slug is kept verbatim; otherwise it is the slug of the default translation's title, and empty without a default |
| Content.Chosen | src/articles/articles.service.ts:34-44 | absent only without translations; otherwise the content of the first best translation |
| Content.Over | src/research/research.service.ts:314-316 | a given value overwrites the column, and an absent one leaves it |
| Content.LinksOnCreate | src/articles/articles.service.ts:111-122 | no ids means no link rows, and given ids are linked in order |
| Content.ReplaceAll | src/articles/articles.service.ts:333-354 | an absent list leaves the links; a given list replaces them all, so an empty one deletes them all |
| Content.DeleteAllLeavesNothing | src/articles/articles.service.ts:335 | `deleteMany({})` keeps no row |
| Content.ReplaceAllIdempotent | src/articles/articles.service.ts:333-354 | replacing twice with the same list is replacing once |
| Content.Map | src/articles/articles.service.ts:213-215 | `map` keeps the length and maps each element in place |
| Content.OwnSlugFree | src/articles/articles.service.ts:313-324 | no other row holds a row's own slug |
| Content.TableInsert | src/articles/articles.service.ts:91-101 | inserting with the next id and a free slug keeps ids and slugs unique, and the row is found by both |
| Content.TableReplace | src/articles/articles.service.ts:313-327 | overwriting a row keeping its id, with a slug no other row holds, keeps the table valid |
| Content.RemoveAt | src/articles/articles.service.ts:384-395 | one row fewer, every other row kept, nothing new |
| Content.TableRemove | src/articles/articles.service.ts:384-395 | deleting a row keeps the table valid and leaves no row with its id |
| Content.FilterReverse | src/articles/articles.service.ts:207 | filtering the newest-first order gives the filtered rows newest first |
| Content.ListPage | src/articles/articles.service.ts:152-223 | fails exactly for a page below 1; the metadata counts the matching rows; the items are the page of the matching rows newest first, formatted |
| ContentTables.RelatedCategory | src/articles/articles.service.ts:46-54 | the category is present exactly when a row has the id |
| ContentTables.LinkedTags | src/articles/articles.service.ts:62-75 | only linked, existing tags, and all of them in link order when every link resolves |
| ContentTables.TagsField | src/articles/articles.service.ts:62-75 | the tag summaries in link order, one per resolving link |
| Articles.NewArticle | src/articles/articles.service.ts:99-123 | the inserted row: the new id and slug, no views, the translations, and the tag and attachment links given or none |
| Articles.ApplyArticleUpdate | src/articles/articles.service.ts:310-355 | id, views and creation time are kept; each given column (slug, category, main image, published flag, publication date) is stored and each absent one kept; given translations, tags and attachments replace the old lists, even when empty |
| Articles.ArticleUpdateIdempotent | src/articles/articles.service.ts:326-355 | sending the same update twice is sending it once |
| Articles.EmptyArticleUpdate | src/articles/articles.service.ts:326-355 | an update that gives nothing changes nothing |
| Articles.Viewed | src/articles/articles.service.ts:258-261 | the view counter goes up by one, and id and slug are kept |
| Articles.FindAll | src/articles/articles.service.ts:152-223 | fails exactly for a page below 1; counts the articles matching category and search; each item is the response for a matching article |
| Articles.FindAllFilters | src/articles/articles.service.ts:160-176 | without category or search every article counts; a given category keeps only its articles |
| Articles.FindAllLanguages | src/articles/articles.service.ts:397-503 | the same filter without a language; each item keeps every translation |
| Articles.AllLanguagesSearchWidens | src/articles/articles.service.ts:410-419 | an article the search matches in one language is matched without a language |
| Articles.ArticlesService.Create | src/articles/articles.service.ts:83-150 | a slug in use is a Conflict that writes nothing; otherwise the new row is appended under the next id and found by its slug |
| Articles.ArticlesService.ViewAt | src/articles/articles.service.ts:257-263 | the row's view count goes up by one, and the answer is the row as read before the increment |
| Articles.ArticlesService.FindOne | src/articles/articles.service.ts:225-264 | NotFound with the id's message, or one more view and the response of that article |
| Articles.ArticlesService.FindBySlug | src/articles/articles.service.ts:266-305 | as `findOne`, keyed by the slug |
| Articles.ArticlesService.Update | src/articles/articles.service.ts:307-382 | NotFound; or, after the view `findOne` counts, a Conflict for a given slug another article holds, or a unique violation, or the updated row |
| Articles.ArticlesService.WriteAt | src/articles/articles.service.ts:313-381 | the slug check and the write on a row already viewed |
| Articles.ArticlesService.Remove | src/articles/articles.service.ts:384-395 | NotFound, or the row is deleted (after the view `findOne` counts) and returned, and every other row is kept |
| Books.NewBook | src/books/books.service.ts:118-133 | the inserted row: new id and slug, no views, the parent book, translations and tag links |
| Books.ApplyBookUpdate | src/books/books.service.ts:342-375 | id, views and creation time are kept; each given column (slug, ISBN, pages, part number, total parts, publish year, published flag, category, cover, file, parent book) is stored and each absent one kept; given translations and tags replace the old lists |
| Books.BookUpdateIdempotent | src/books/books.service.ts:357-375 | sending the same update twice is sending it once |
| Books.Viewed | src/books/books.service.ts:283-287 | the view counter goes up by one, and id and slug are kept |
| Books.PartsField | src/books/books.service.ts:89-99 | one summary per book whose parent is this book, in table order, and none when no book has it as parent |
| Books.ParentField | src/books/books.service.ts:58-68 | present exactly when the parent id finds a book, and then that book's summary |
| Books.FindAll | src/books/books.service.ts:168-242 | fails exactly for a page below 1; counts the books matching category and search; each item is the response for a matching book |
| Books.BooksService.Create | src/books/books.service.ts:103-165 | a slug in use is a Conflict that writes nothing; otherwise the new row is appended under the next id |
| Books.BooksService.ViewAt | src/books/books.service.ts:283-289 | one more view, and the answer is the row as read before the increment |
| Books.BooksService.FindOne | src/books/books.service.ts:245-290 | NotFound, or one more view and that book's response |
| Books.BooksService.FindBySlug | src/books/books.service.ts:292-337 | as `findOne`, keyed by the slug |
| Books.BooksService.Update | src/books/books.service.ts:339-408 | NotFound; or, after the counted view, a Conflict for a given slug another book holds, or a unique violation, or the updated row |
| Books.BooksService.WriteAt | src/books/books.service.ts:344-407 | the slug check and the write on a row already viewed |
| Books.BooksService.Remove | src/books/books.service.ts:410-420 | NotFound, or the row is deleted and returned, and every other row is kept |
| Research.NewResearch | src/research/research.service.ts:95-113 | the inserted row: new id and slug, no views, `publishedAt` as given or null, translations and tag links |
| Research.ApplyResearchUpdate | src/research/research.service.ts:295-331 | id, views and creation time are kept; each given column (slug, publication date, pages, published flag, category, file) is stored and each absent one kept; given translations and tags replace the old lists |
| Research.ResearchUpdateIdempotent | src/research/research.service.ts:310-331 | sending the same update twice is sending it once |
| Research.Viewed | src/research/research.service.ts:247-251 | the view counter goes up by one, and id and slug are kept |
| Research.FindAllYearMissesLastDay | src/research/research.service.ts:166-173 | as written: one second after midnight on 31 December is in the year, yet the `findAll` year filter drops it while the half-open filter keeps it |
| Research.YearDatesExact | src/research/research.service.ts:393-404 | corrected: the year filter admits exactly the papers published in that year, no paper in two years, a null date never; a start date gives `gte` |
| Research.FindAll | src/research/research.service.ts:137-218 | fails exactly for a page below 1; counts the papers matching category, search and dates; each item is the response for a matching paper |
| Research.FindAllYearItems | src/research/research.service.ts:166-173 | with a year, every listed paper was published in that year |
| Research.FindAllLanguages | src/research/research.service.ts:367-468 | as written: a search text makes the query name the missing `summary` column, so the call fails with a Prisma validation error; without one, the listing without a language under the half-open year filter, each item keeping every translation |
| Research.FindAllLanguagesSearchRejected | src/research/research.service.ts:382-390 | every call with a search text ends in 400 "Invalid data provided to database" |
| Research.FindAllLanguagesSearched | src/research/research.service.ts:367-468 | the corrected listing: the `findAll` search of title, abstract or authors in a translation of any language, counted and listed with the same filter |
| Research.SearchedListingCorrect | src/research/research.service.ts:382-390 | in the corrected listing each paper has a translation matching the search; without a search it equals the listing as written; it accepts every paper a one-language search accepts |
| Research.FindAllLanguagesYearItems | src/research/research.service.ts:393-398 | with a year, every paper either listing returns was published in that year |
| Research.ResearchService.Create | src/research/research.service.ts:79-135 | a slug in use is a Conflict that writes nothing; otherwise the new row is appended under the next id |
| Research.ResearchService.ViewAt | src/research/research.service.ts:247-253 | one more view, and the answer is the row as read before the increment |
| Research.ResearchService.FindOne | src/research/research.service.ts:220-254 | NotFound, or one more view and that paper's response |
| Research.ResearchService.FindBySlug | src/research/research.service.ts:256-290 | as `findOne`, keyed by the slug |
| Research.ResearchService.Update | src/research/research.service.ts:292-353 | NotFound; or, after the counted view, a Conflict for a given slug another paper holds, or a unique violation, or the updated row |
| Research.ResearchService.WriteAt | src/research/research.service.ts:297-352 | the slug check and the write on a row already viewed |
| Research.ResearchService.Remove | src/research/research.service.ts:355-365 | NotFound, or the row is deleted and returned, and every other row is kept |
| Categories.NewCategory | src/categories/categories.service.ts:64-72 | the inserted row: new id and slug, the model and translations, active unless told otherwise |
| Categories.ApplyCategoryUpdate | src/categories/categories.service.ts:145-182 | slug and model change only when non-empty; `isActive` when given; given translations replace the old ones |
| Categories.EmptySlugIgnored | src/categories/categories.service.ts:147-164 | an empty slug or model leaves the column as it was |
| Categories.CategoryUpdateIdempotent | src/categories/categories.service.ts:145-182 | sending the same update twice is sending it once |
| Categories.FindAll | src/categories/categories.service.ts:79-110 | fails exactly for a page below 1; counts the categories of the given model; each item is the response for a matching category |
| Categories.FindAllModels | src/categories/categories.service.ts:79-110 | without a model every category counts; with one, every listed category has it |
| Categories.FindAllLanguages | src/categories/categories.service.ts:200-237 | the same listing with every translation kept |
| Categories.ListingsAgree | src/categories/categories.service.ts:200-237 | both listings show the same categories in the same order, with the same metadata |
| Categories.CategoriesService.Create | src/categories/categories.service.ts:48-77 | a slug in use is a Conflict that writes nothing; otherwise the row is appended under the next id |
| Categories.CategoriesService.FindOne | src/categories/categories.service.ts:112-125 | found exactly when a row has the id, and then its response; otherwise NotFound |
| Categories.CategoriesService.FindBySlug | src/categories/categories.service.ts:127-140 | found exactly when a row has the slug, and then its response; otherwise NotFound |
| Categories.CategoriesService.FindOneAllLanguages | src/categories/categories.service.ts:239-259 | found exactly when a row has the id, and then every translation; otherwise NotFound |
| Categories.CategoriesService.FindBySlugAllLanguages | src/categories/categories.service.ts:261-281 | found exactly when a row has the slug, and then every translation; otherwise NotFound |
| Categories.CategoriesService.Update | src/categories/categories.service.ts:142-187 | NotFound, or a Conflict for a non-empty slug another category holds, or the row replaced by `ApplyCategoryUpdate` |
| Categories.CategoriesService.Remove | src/categories/categories.service.ts:189-198 | NotFound, or the row is deleted and returned, and every other row is kept |
| Tags.ApplyTagUpdate | src/tags/tags.service.ts:129-166 | the slug changes only when non-empty, and given translations replace the old ones |
| Tags.TagUpdateIdempotent | src/tags/tags.service.ts:129-166 | sending the same update twice is sending it once |
| Tags.FindAll | src/tags/tags.service.ts:73-97 | fails exactly for a page below 1; counts every tag; each item is the response for a tag |
| Tags.FirstPageNewest | src/tags/tags.service.ts:73-97 | the first page holds as many tags as the limit allows, the newest first |
| Tags.FindAllLanguages | src/tags/tags.service.ts:179-209 | the same listing with every translation kept |
| Tags.TagsService.Create | src/tags/tags.service.ts:45-71 | a slug in use is a Conflict that writes nothing; otherwise the row is appended under the next id and found by its slug |
| Tags.TagsService.FindOne | src/tags/tags.service.ts:99-112 | found exactly when a row has the id, and then its response; otherwise NotFound |
| Tags.TagsService.FindBySlug | src/tags/tags.service.ts:114-127 | found exactly when a row has the slug, and then its response; otherwise NotFound |
| Tags.TagsService.FindOneAllLanguages | src/tags/tags.service.ts:211-230 | found exactly when a row has the id, and then every translation; otherwise NotFound |
| Tags.TagsService.FindBySlugAllLanguages | src/tags/tags.service.ts:232-251 | found exactly when a row has the slug, and then every translation; otherwise NotFound |
| Tags.TagsService.Update | src/tags/tags.service.ts:129-166 | NotFound, or a Conflict for a non-empty slug another tag holds, or the row replaced by `ApplyTagUpdate` |
| Tags.TagsService.Remove | src/tags/tags.service.ts:168-177 | NotFound, or the row is deleted and returned, and every other row is kept |

## Left out

- HTTP routing, controllers, DTO validation, cookies, logging (`console.log` in the seed and the services) and `PrismaService` connection handling are not modelled.
- bcrypt and JWT are symbolic. A digest and a token are datatypes that remember what they were made from. Cost factors, salts and signatures are not modelled.
- The clock is the parameter `now`, in whole seconds, so a JWT's `iat` and `exp` are whole seconds as in the JWT library. Date strings are not parsed: `publishedAt`, `year` and `dateFrom` arrive as instants or integers, so an unparseable year string (which yields `Invalid Date`) is not modelled.
- `updatedAt` columns are not modelled, because no contract depends on them.
- Foreign keys are not modelled. This covers a category or tag deleted while articles link to it, a dangling `categoryId` or `parentBookId`, and Prisma's P2003 error on insert. Links are plain id lists, and a missing link target is simply absent from the response.
- `Users.UsersService.Remove`: deleting a user (src/users/users.service.ts:242-250) is assumed to cascade to the user's role assignments, which the model deletes. The user's refresh tokens and activity-log rows are kept. What the database actually does with them depends on the schema's `onDelete` rules, which are not part of this model.
- `Users.UsersService.Update`: when the new email and the new username are both held by other users, the model reports the email. Which of the two constraints Prisma's P2002 names is up to the database, and is not modelled.
- Duplicate ids in a DTO's tag or attachment list are not modelled. The database's composite key would reject them.
- The `file` includes of attachments in responses are not modelled; only attachment ids are kept.
- The single-record all-languages reads of articles, books and research (`findOneAllLanguages`, `findBySlugAllLanguages`) are not modelled. They have the same lookup and NotFound structure as the categories and tags versions, which are modelled.
- Books `findAllLanguages` is not modelled. It is the articles' all-languages listing with the book filter, and `Books.FindAll` covers that filter.
- The Prisma schema is not part of this model. Where a query's validity depends on it, the columns are taken from the DTOs and the response formatters. This is why research translations are taken to have no `summary` column (src/research/dto/create-research.dto.ts:12-37).
- Column defaults come from the Prisma schema, which is not part of this model, so the model assumes the usual ones for columns a `create` call does not write:
  - `Users.UsersService.Create` stores a new user as active (`isActive = true`), although src/users/users.service.ts:89-101 writes no `isActive`.
  - `Articles.NewArticle`, `Books.NewBook` and `Research.NewResearch` store 0 views, and they and the category and tag `create` calls set `createdAt` to the request time `now`.
  - Each new row takes its id from an autoincrement counter that starts at 1.
  - The seed writes `isActive: true` itself, so `Seed.CreateAccount` depends on no default.
- The text of a Prisma validation error is not modelled, because the exception filter replaces it with a fixed message. When a research search and a page below 1 come together, the model reports the search.
- Categories and tags `update` first deletes all translations in a statement of their own, then writes the row. The model writes both at once. Once the checks pass, neither statement can fail in the model, so the outcome is the same.
- Text search uses Prisma's case-insensitive `contains`, which is the parameter `contains` of each listing. Its semantics (collation, Unicode case folding) are not modelled.
- `Slugs.ToLower` lowercases ASCII letters only. JavaScript's full Unicode `toLowerCase` is not modelled. Arabic letters have no case.
- Concurrency is not modelled. Each service call is atomic, including the two Prisma calls of a view count followed by a read.
- `Auth.AuthService.LogoutUser`: a failing database call is the parameter `dbFails`, rather than a Prisma error modelled in detail.
- `Users.FormatUser`: states the copied fields and a bound on the role count. The exact role and permission lists are given by `Users.FormatUserNoRoles` and `Users.FormatUserAddRole` inductively, rather than by one closed formula.

## Findings

| source | as written | input that shows it | evidently intended | confidence | as-written member | corrected member |
|---|---|---|---|---|---|---|
| src/research/research.service.ts:166-173 | `findAll` filters a year with `gte: new Date('YYYY-01-01')` and `lte: new Date('YYYY-12-31')`, i.e. up to midnight at the start of 31 December | a paper published at 2024-12-31T00:00:01Z, with `year = 2024` | every paper published during the year is listed, as `findAllLanguages` (lines 393-398) does with `lt: new Date('YYYY+1-01-01')` | not executed | Research.FindAllYearMissesLastDay | Research.YearDatesExact |
| src/research/research.service.ts:382-390 | `findAllLanguages` searches `{ title }` or `{ summary }` of a translation, but research translations have `abstract` and `authors` and no `summary` (src/research/dto/create-research.dto.ts:12-37), so the Prisma client rejects the query | any call with `search = "a"` | the `findAll` search (lines 153-164): title, abstract or authors, here in a translation of any language | not executed | Research.FindAllLanguagesSearchRejected | Research.SearchedListingCorrect |
| src/auth/auth.service.ts:41-61 | the refresh token is signed from `{userId}` and the issue time in whole seconds, then inserted into a table whose `token` column is unique | two logins of the same active user with valid credentials within the same second: the second signs the same token, and its insert is a unique violation | a login with valid credentials succeeds, for example by writing the token with an upsert | not executed | Auth.SameSecondLoginFails | Auth.UpsertLoginSucceedsIffCredentials |
