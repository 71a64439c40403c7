# PromptBox backend: a verified model of the entity store

PromptBox keeps short prompt texts ("projects") in user-defined categories,
with a numbered version history per project. The backend is a set of FastAPI
route handlers over three SQLite tables: `category`, `project` and `version`.
This project models that backend as a state machine. The whole database is an
immutable `Store` of three maps keyed by primary key. Each state-changing
route is a pure function from a store to `Result<Store>` (or
`Result<(Store, Id)>` when it creates a row). A failed route leaves the store
as it was, because its session never commits, or its commit is rolled back. The listings are methods that
return keys in the order the SQL `ORDER BY` produces.

Files:

- `base.dfy`: `Option`, `Result` and the three failure kinds.
  - `NotFound` is the handlers' 404.
  - `DuplicateName` is the unique index on category names rejecting a commit.
  - `UnknownCategory` is a foreign-key violation.
- `models.dfy`: the entities, the request bodies with their column defaults,
  SQLite's choice of a new key, the `Store`, and two invariants.
  `Coherent` requires three things:
  - category names are unique;
  - every version's project is live;
  - the versions of every project are numbered exactly 1..n.

  `Valid` adds a fourth: every project's category is absent or live.
- `ordering.dfy`: sorting a set of keys by an integer column (`ORDER BY`), and
  the arithmetic facts about sorted lists that the listings need.
- `like.dfy`: SQLite's `LIKE '%needle%'`, the operator the project search uses.
- `categories.dfy`, `projects.dfy`, `versions.dfy`: the routes, each next to
  the lemmas that it keeps `Coherent` and `Valid`.
- `app.dfy`: two programs over the same requests.
  - `StepAsWritten` is the handlers as they are. Every store it reaches from
    an empty database is `Coherent`, so version histories stay numbered 1..n.
    It can reach stores that are not `Valid`: the foreign key on a project's
    category is never enforced (see Findings).
  - `Step` is the same program with that foreign key enforced. Every store it
    reaches is `Valid`.
  - `StepAgreesWithAsWritten` shows that the two differ only on the requests
    the enforced foreign key refuses.

## Model

| member | source | states |
|---|---|---|
| Models.CategoryFromInput | backend/models.py:6-11 | A category body becomes a row with its name and icon, colour "blue" when omitted, and sort order 0 |
| Models.CategoryDefaults | backend/models.py:9-11 | A body giving only a name yields colour "blue", no icon and sort order 0 |
| Models.ProjectFromInput | backend/models.py:15-29 | A project body becomes a row with its name, description and category. Tags, favourite flag, type and `created_at` are kept when supplied, and otherwise default to no tags, not favourite, type "text" and now. `updated_at` is now |
| Models.ProjectDefaults | backend/models.py:17-29 | A body giving only a name yields no tags, no description, no category, not favourite, type "text", both timestamps now |
| Models.NextId | backend/models.py:7 | A new row's key is unused and above every existing key: 1 in an empty table, otherwise the largest key plus one |
| Models.EmptyStoreValid | backend/main.py:24-25 | The freshly created, empty database satisfies the invariant |
| Categories.InsertAll | backend/main.py:29-38 | Rows inserted one by one into an empty table land under keys 1..n in insertion order |
| Categories.Seed | backend/main.py:24-38 | An empty category table receives the five default categories under keys 1..5 with orders 1..5; a non-empty one is untouched; projects and versions are untouched |
| Categories.SeedKeepsCoherent | backend/main.py:26-38 | Seeding keeps the store coherent: the five default names are distinct |
| Categories.SeedKeepsValid | backend/main.py:26-38 | Seeding keeps the invariant: the default names are distinct |
| Categories.ListCategories | backend/main.py:58-60 | Lists every category exactly once, in ascending sort order |
| Categories.LastOrder | backend/main.py:68-71 | For a key, the order carried by the last reorder item naming it; absent exactly when no item names it |
| Categories.Reorder | backend/main.py:66-74 | Each named live category gets the order of the last item naming it; unknown ids are skipped; unnamed categories, names, colours, icons, projects and versions are unchanged |
| Categories.ReorderKeepsCoherent | backend/main.py:66-74 | Reordering keeps the store coherent: names, projects and versions are untouched |
| Categories.ReorderKeepsValid | backend/main.py:66-74 | Reordering keeps the invariant |
| Categories.NextSortOrder | backend/main.py:79-80 | The new order is above every existing order; it is 1 for an empty table and otherwise one above the largest order |
| Categories.CreateCategory | backend/main.py:76-84 | Fails with DuplicateName exactly when the name is taken. Otherwise it adds one category under a fresh key, with the body's name, colour (default "blue") and icon, with sort order one above the largest existing order (1 in an empty table), so it sorts strictly after every existing category; nothing else changes |
| Categories.NewCategoryListedLast | backend/main.py:60 | After a successful create, any listing ends with the new category |
| Categories.CreateCategoryKeepsCoherent | backend/models.py:8 | A successful create keeps category names unique and the store coherent |
| Categories.CreateCategoryKeepsValid | backend/models.py:8 | Creating a category keeps names unique and the invariant intact |
| Categories.UpdateCategory | backend/main.py:86-97 | Fails with NotFound for an absent category, and with DuplicateName when another category has the name. Otherwise it overwrites exactly name, colour (omitted means "blue") and icon, keeping the sort order and every other row |
| Categories.UpdateCategoryKeepsCoherent | backend/models.py:8 | A successful rename keeps category names unique and the store coherent |
| Categories.UpdateCategoryKeepsValid | backend/models.py:8 | A successful rename keeps names unique |
| Categories.Unlink | backend/main.py:105-107 | A project unlinked from a category no longer names it, changes in no other field, and is untouched when it named another category or none |
| Categories.DeleteCategory | backend/main.py:99-111 | Fails with NotFound when absent. Otherwise it removes the category and clears the category of exactly the projects that named it; all other projects and all versions are unchanged |
| Categories.DeleteCategoryKeepsCoherent | backend/main.py:99-111 | Deleting a category keeps the store coherent |
| Categories.DeleteCategoryKeepsValid | backend/main.py:104-109 | Deleting a category leaves no dangling category reference |
| Projects.ListProjects | backend/main.py:122-138 | Lists exactly the projects the filters select, once each, ordered by `updated_at` descending |
| Projects.Selected | backend/main.py:129-135 | The filters of the project listing: the category filter applies only when it is neither absent nor 0; the favourite filter applies whenever it is given, `false` included; a non-empty search must match the name, or the description when it is not NULL |
| Projects.CategoryFilter | backend/main.py:130-131 | A category filter other than 0 selects exactly the projects in that category |
| Projects.FavoriteFilter | backend/main.py:132-133 | A favourite filter selects exactly the projects whose flag equals it, whether it is `true` or `false` |
| Projects.SearchWithoutDescription | backend/main.py:134-135 | On a project with a NULL description, a non-empty search matches exactly when it matches the name |
| Projects.NoFilterSelectsAll | backend/main.py:130-135 | A category filter of 0 or none and an empty or absent search select every project |
| Projects.LiteralSearch | backend/main.py:134-135 | A non-empty search without `%` or `_` selects exactly the projects whose name, or present description, contains it up to ASCII case |
| Like.Matches | backend/main.py:135 | SQLite's `text LIKE pattern`: `%` matches any run of characters, `_` any one character, and any other character itself up to ASCII case |
| Like.Contains | backend/main.py:135 | SQLAlchemy's `column.contains(needle)`: the text matches the pattern `%needle%` |
| Like.ContainsLiteral | backend/main.py:135 | For a needle without wildcards, `LIKE '%needle%'` holds exactly when the needle is a substring up to ASCII case |
| Like.LeadingPercent | backend/main.py:135 | A pattern `%p` matches a text exactly when `p` matches one of its suffixes |
| Like.TrailingPercent | backend/main.py:135 | A wildcard-free needle followed by `%` matches exactly the texts that start with the needle up to ASCII case |
| Like.PercentMatchesAll | backend/main.py:135 | The pattern `%` matches every text |
| Projects.ReadProject | backend/main.py:140-145 | Returns the stored project, or NotFound exactly when it is absent |
| Projects.CreateProjectAsWritten | backend/main.py:114-120 | Stores the body, with defaults and `updated_at` now, under a fresh key, whatever category it names; nothing else changes |
| Projects.CreateProjectAsWrittenDangles | backend/models.py:20 | From an empty, valid store, the as-written create stores a project naming category 7, which does not exist |
| Projects.CreateProject | backend/models.py:20 | Fails with UnknownCategory exactly when the body names a category that is not live; otherwise it behaves as written |
| Projects.CreateProjectAsWrittenKeepsCoherent | backend/main.py:114-120 | The create as written keeps the store coherent, whatever category the body names |
| Projects.CreateProjectKeepsValid | backend/main.py:114-120 | A successful create keeps the invariant |
| Projects.UpdateProjectAsWritten | backend/main.py:147-160 | Fails with NotFound when absent. Otherwise it overwrites exactly name, description, tags (omitted means empty) and category, and sets `updated_at` to now. Favourite flag, `created_at`, type, other projects, categories and versions are unchanged |
| Projects.UpdateProjectAsWrittenDangles | backend/main.py:155 | The as-written update can point a valid store's project at a category that does not exist |
| Projects.UpdateProject | backend/main.py:147-160 | NotFound for an absent project; otherwise UnknownCategory exactly when the body names a dead category; otherwise as written |
| Projects.UpdateProjectAsWrittenKeepsCoherent | backend/main.py:147-160 | A successful update as written keeps the store coherent, whatever category the body names |
| Projects.UpdateProjectKeepsValid | backend/main.py:147-160 | A successful update keeps the invariant |
| Projects.ToggleFavorite | backend/main.py:162-171 | Fails with NotFound when absent. Otherwise it flips the favourite flag and changes no other field, `updated_at` included, and no other row |
| Projects.ToggleTwiceRestores | backend/main.py:167 | Toggling twice gives back the original store |
| Projects.ToggleFavoriteKeepsCoherent | backend/main.py:162-171 | Toggling keeps the store coherent |
| Projects.ToggleFavoriteKeepsValid | backend/main.py:162-171 | Toggling keeps the invariant |
| Projects.DeleteProject | backend/main.py:173-180 | Fails with NotFound when absent. Otherwise it removes the project and exactly the versions that belong to it; other versions, projects and categories are unchanged |
| Projects.DeleteProjectKeepsCoherent | backend/models.py:26 | The cascade leaves no version without its project, and every other project's history keeps its numbering, with or without live category references |
| Projects.DeleteProjectKeepsValid | backend/models.py:26 | Deleting a project keeps the invariant |
| Versions.VersionFromInput | backend/models.py:31-39 | A version body becomes a row with its content, negative prompt and changelog. Parameters and `created_at` are kept when supplied, and otherwise default to empty and to now |
| Versions.CreateVersion | backend/main.py:183-203 | Fails with NotFound exactly when the project is absent. Otherwise it adds one version under a fresh key, owned by the project and numbered one above the count of its existing versions. The project's `updated_at` becomes now and nothing else changes |
| Versions.FirstTwoVersions | backend/main.py:192-193 | On a project without history, the first two appends are numbered 1 and 2 |
| Versions.AppendKeepsNumbering | backend/main.py:192-193 | Adding a version numbered count+1 keeps every project's history numbered 1..n |
| Versions.CreateVersionKeepsCoherent | backend/main.py:183-203 | A successful append keeps the store coherent: the project's numbers go from 1..n to 1..n+1 and the new version's project is live |
| Versions.CreateVersionKeepsValid | backend/main.py:183-203 | A successful append keeps the invariant |
| Versions.ListVersions | backend/main.py:205-208 | Lists exactly the project's versions, once each, by number descending. On a history numbered as the invariant demands, the numbers listed are n, n-1, ..., 1 |
| Versions.DenseListingCountsDown | backend/main.py:205-208 | A listing of a history numbered 1..n, each version once and by number descending, carries the numbers n, n-1, ..., 1 in that order |
| Versions.OneTo | backend/main.py:193 | The set of numbers 1..n has exactly the members 1..n, and n of them |
| Versions.NumbersAreOneToN | backend/main.py:193 | Under the invariant, the numbers a project's versions carry are exactly 1..n |
| App.StepAsWritten | backend/main.py:24-208 | One request to the handlers as written: the project create and update store whatever category the body names, and every other request is the route it names |
| App.Step | backend/main.py:24-208 | One request with the foreign key on a project's category enforced; a failed route leaves the store as it was |
| App.StepAsWrittenKeepsCoherent | backend/main.py:24-208 | Every state-changing request to the handlers as written, successful or not, keeps the store coherent |
| App.RunAsWrittenKeepsCoherent | backend/main.py:24-208 | Any sequence of requests to the handlers as written keeps the store coherent |
| App.ReachableAsWrittenIsCoherent | backend/main.py:24-208 | Every store the handlers as written reach from an empty database has unique category names, no orphan versions and histories numbered 1..n |
| App.ReachableAsWrittenNumbering | backend/main.py:186-207 | In every store the handlers as written reach, each project's version numbers are exactly 1..n |
| App.AsWrittenReachesDanglingCategory | backend/main.py:114-120 | One create request takes the handlers as written from an empty database to a store where a project names a missing category; the corrected program refuses the request |
| App.StepAgreesWithAsWritten | backend/main.py:114-160 | When a project create or update names a missing category, the corrected program leaves the store unchanged and the program as written stores the dangling reference. On every other request the two programs take the same step |
| App.StepKeepsValid | backend/main.py:58-208 | With the foreign key enforced, every state-changing request, successful or not, keeps the invariant |
| App.RunKeepsValid | backend/main.py:58-208 | With the foreign key enforced, any sequence of requests keeps the invariant |
| App.ReachableIsValid | backend/main.py:24-208 | With the foreign key enforced, every store reachable from an empty database satisfies the invariant |
| App.ReachableNumbering | backend/main.py:186-207 | With the foreign key enforced, in every reachable store each project's version numbers are exactly 1..n |
| Ordering.SortBy | backend/main.py:60 | Lists every key of a set exactly once, in non-decreasing order of a column |
| Ordering.TightDescending | backend/main.py:207 | A strictly decreasing list of n numbers within 1..n is n, ..., 1 |

## Left out

- The AI routes `run_ai` and `optimize_prompt` (backend/main.py:241-357) are not modelled. They call an external model provider over the network.
- Serving the single-page front end (backend/main.py:360-381) is not modelled. It is filesystem I/O.
- The settings routes and the `AppSettings` table (backend/main.py:211-238, backend/models.py:43-62) are not modelled. They copy fields of a singleton configuration row. For the same reason, `Categories.Seed` does not model the settings-row part of start-up seeding (backend/main.py:40-43).
- The engine, the session lifecycle and the choice of database path (backend/main.py:14-22, 45-55) are not modelled. A store value stands in for the database.
- Time is a `nat` passed to each route in place of `datetime.utcnow()`. Nothing in the model assumes the clock is monotonic.
- Request validation by FastAPI (422 errors, JSON parsing) is not modelled. Request bodies are typed values. Fields that the handlers overwrite are not in the bodies: `sort_order` for categories, a project's `updated_at`, and a version's `project_id` and `version_num`. Body-supplied ids are left out as well: the create handlers do not overwrite an `id` sent in the body, so SQLite would store the row under that key, but the model always gives a new row the next free key (see the Models.NextId line).
- Categories.CreateCategory: does not model the 64-bit width of SQLite's INTEGER. When the largest sort order is 2^63-1, the source computes 2^63 at backend/main.py:79-80 and the commit fails with HTTP 500, leaving the store unchanged. The model instead succeeds with sort order 2^63, so its contract names a taken name as the only failure.
- Categories.Reorder: does not model the 64-bit width either. In the source, an item whose `id` lies outside [-2^63, 2^63-1] makes `session.get` at backend/main.py:69 fail, and a live category given a `sort_order` outside that range makes the commit at backend/main.py:73 fail. Either way the whole request fails with HTTP 500 and nothing changes. The model skips such an id as unknown and applies such an order.
- Path ids and stored integers (keys, sort orders, version numbers) are unbounded integers throughout. For a path id outside 64 bits the source answers HTTP 500 where the model answers NotFound.
- Models.NextId: models SQLite's key choice (largest key plus one, 1 when empty). It does not model the random key SQLite picks once the largest key reaches 2^63-1. It also does not model a body that supplies its own `id`.
- Version `parameters` is modelled as a map from strings to strings. The source stores an arbitrary JSON object.
- Projects.ListProjects, Categories.ListCategories, Versions.ListVersions: these return the keys of the rows in order, not the rows themselves. When sort keys tie, the order is any order, because SQLite leaves it unspecified.
- Like.Matches: this follows SQLite's default `LIKE`, which ignores case for ASCII letters only, has no ESCAPE clause, and treats `%` and `_` in the search text as wildcards. It does not model the `case_sensitive_like` pragma. It also does not model the ICU extension.
- Concurrency is not modelled. Two simultaneous appends to one project could both count n existing versions and both get number n+1. The model treats each request as atomic.
- A duplicate category name is modelled as the error result `DuplicateName`, with the store unchanged. The source surfaces it as an unhandled integrity error on commit, which the client sees as HTTP 500. `UnknownCategory` belongs to the corrected project routes only (see Findings).

## Findings

| source | as written | input that shows it | evidently intended | confidence | as-written member | corrected member |
|---|---|---|---|---|---|---|
| backend/models.py:20 | `create_project` stores `category_id` unchecked, because SQLite enforces foreign keys only after `PRAGMA foreign_keys=ON` and the engine (backend/main.py:20-22) never issues it | POST /api/projects with `category_id` 7 on a store with no category 7 | the declared foreign key holds: a project names no category or a live one, which the unlinking in `delete_category` also presumes | medium, not executed | Projects.CreateProjectAsWritten | Projects.CreateProject |
| backend/main.py:155 | `update_project` copies `category_id` from the body unchecked, for the same reason | PUT /api/projects/1 with `category_id` 7 on a store with project 1 and no category 7 | the update is refused when the named category does not exist | medium, not executed | Projects.UpdateProjectAsWritten | Projects.UpdateProject |
