# Project and artifact store, modelled in Dafny

The tool keeps its data in one SQLite file with two tables. `projects` holds
named projects. `artifacts` holds the versioned documents produced at each
pipeline stage: a `project_id`, a `stage` label, a `type` label, the
`content` text and a `created_at` time. A revision is never an update: it is
a new row with the same project and type. "The versions of a document" are
the rows of one project and type, newest first.

Two near-identical Python modules implement this store, with different
semantics. Each is modelled as its own class over shared row types:

- `persistence.py` (module `Persistence`): `name` is UNIQUE and a duplicate
  create returns `False`. `update_project` and `delete_project` exist, and the
  delete cascades to the project's artifacts (`ON DELETE CASCADE`, with
  `PRAGMA foreign_keys = ON` on the deleting connection).
- `core/persistence.py` (module `CorePersistence`): `name` is not unique.
  `create_project` returns the new AUTOINCREMENT id. There is no update and no
  delete, so both tables only grow.

Files:

- `tables.dfy` (module `Tables`): the row datatypes and the table
  invariants (distinct AUTOINCREMENT keys, unique names). It also has the
  WHERE filters, the two SELECT statements both modules share, and the
  lemmas about them: cascade, append, newest-first.
- `order_by.dfy` (module `OrderBy`): `ORDER BY … DESC` as a sort whose
  contract is "sorted non-increasing and the same multiset". SQLite does not
  fix the order of rows with equal `created_at`. The model's sort picks one
  order. Where timestamps may tie, the listing lemmas state only what every
  admissible order shares: its rows (as a multiset), and that it is sorted.
  When timestamps are distinct there is only one admissible order
  (`OrderBy.DescendingOrderUnique`). In particular, when timestamps strictly
  increase the last row saved comes first, whichever order SQLite returns.
- `persistence.dfy`, `core_persistence.dfy`: one `Database` class per module.
  The fields are `projects` and `artifacts` (sequences of rows in table order)
  and the two AUTOINCREMENT counters `projectSeq` and `artifactSeq`. Each
  source function becomes a method (INSERT, UPDATE, DELETE) or a function
  (SELECT). Each method is stated by its exact new state, and `Valid()`
  carries the schema's constraints through every method. The two SELECT
  functions of each class are the shared `Tables` queries applied to the
  class's tables. Scenario methods at the end of each module check worked
  examples against these contracts.

Modelling choices:

- `created_at` is an abstract clock reading (`nat`) passed as `now`, not an
  ISO-8601 string. Comparing readings stands for comparing the strings. The
  methods hold for any reading. The newest-first lemmas assume that readings
  strictly increase.
- AUTOINCREMENT gives each table a counter. SQLite assigns the counter plus
  one and advances it. An insert that the UNIQUE constraint rejects is rolled
  back, so the counter does not move. Ids are never reused.
- `save_artifact` in both modules opens a fresh connection without
  `PRAGMA foreign_keys = ON`, so SQLite does not check that the project
  exists. The model accepts any `project_id`, and the foreign key is not part
  of `Valid()`.
- `delete_project` cascades only from a `projects` row that is actually
  deleted. If no project has the id, nothing is deleted, including artifacts
  that carry that id. Such orphan rows can exist because of the point above.
- `update_project` with an id that no row has matches nothing and commits.
  When another row holds the new name, SQLite raises `sqlite3.IntegrityError`,
  which the function does not catch. This is modelled as the outcome
  `IntegrityError` with the state unchanged.
- `update_project` and `save_artifact` have no not-found failure.
  `persistence.py`'s `create_project` returns a boolean, not an id.

## Model

| member | source | states |
|---|---|---|
| `OrderBy.SortDesc` | persistence.py:50 | ORDER BY created_at DESC: the result is non-increasing by key and holds exactly the input rows (same multiset) |
| `OrderBy.AscendingSortsToReversed` | persistence.py:110 | when keys strictly increase along the input, the model's descending order is the input reversed |
| `OrderBy.DescendingOrderUnique` | persistence.py:110 | when keys strictly increase along the input, every sequence ORDER BY DESC may return (sorted, same multiset) is the input reversed |
| `Tables.RowsAppend` | persistence.py:108 | projecting to (content, created_at) distributes over appending rows |
| `Tables.MatchingCounts` | persistence.py:109 | WHERE project_id = ? AND type = ?: each matching row as often as in the table, no other row |
| `Tables.MatchingWithin` | persistence.py:109 | every row the filter keeps is a row of the table with that project and type |
| `Tables.WithoutProject` | persistence.py:84 | DELETE FROM projects WHERE id = ?: the remaining rows are exactly those with another id |
| `Tables.WithoutOwnedBy` | persistence.py:39 | the ON DELETE CASCADE: the remaining artifacts are exactly those of other projects |
| `Tables.ProjectListing` | persistence.py:45-53 | `get_all_projects` (same query at core/persistence.py:60-69): every project, as often as stored, non-increasing by created_at |
| `Tables.ArtifactListing` | persistence.py:102-114 | `get_artifacts_for_project` (same query at core/persistence.py:83-95): (content, created_at) of exactly the matching artifacts, non-increasing by created_at |
| `Tables.ListingMembers` | persistence.py:107-111 | a row is listed for (project, type) iff some artifact of that project and type has that content and time |
| `Tables.ProjectListedOnce` | persistence.py:45-53 | with distinct ids, `get_all_projects` lists every project exactly once |
| `Tables.AscendingListedNewestFirst` | persistence.py:102-114 | if timestamps strictly increase, the listing is the matching rows in reverse save order: the last saved comes first |
| `Tables.AnyOrderIsListing` | persistence.py:102-114 | with strictly increasing timestamps, any answer the query may return equals the model's listing |
| `Tables.SavedLatestComesFirst` | persistence.py:90-114 | an artifact saved later than every existing row is listed, and listed first, for its project and type |
| `Tables.TwoSavesListNewestFirst` | persistence.py:90-114 | saving v1 then v2 (later) for a type that had none lists exactly [v2, v1] |
| `Tables.SaveKeepsHistory` | persistence.py:90-114 | a save adds its row to its own listing and removes or changes no listed version |
| `Tables.SaveElsewhereKeepsListing` | persistence.py:90-114 | a save for another project or type leaves the rows a listing holds unchanged (same multiset) |
| `Tables.MatchingAppend` | persistence.py:95-98 | appending a row extends the filtered rows by that row iff it matches, keeping order |
| `Tables.CascadeClearsListing` | persistence.py:79-86 | after the cascade, every type of the deleted project lists nothing |
| `Tables.CascadeKeepsOtherListings` | persistence.py:79-86 | the cascade leaves the rows every other project lists unchanged (same multiset) |
| `Tables.DeleteRemovesOne` | persistence.py:84 | with distinct ids, deleting a present project removes exactly one row |
| `Tables.WithoutProjectKeepsKeys` | persistence.py:24-25 | the delete keeps project ids distinct and bounded by the counter, and names unique |
| `Tables.WithoutOwnedByKeepsKeys` | persistence.py:33 | the cascade keeps artifact ids distinct and bounded by the counter |
| `Persistence.Database.InitDb` | persistence.py:9-43 | a new database has empty tables, counters at zero, and satisfies the schema constraints |
| `Persistence.Database.CreateProject` | persistence.py:55-68 | returns true iff the name is new; then exactly one row (next id, name, description, now) is appended; otherwise nothing changes; names stay unique |
| `Persistence.Database.UpdateProject` | persistence.py:70-77 | IntegrityError iff the id exists and another row holds the name, state unchanged; otherwise only the name and description of that id's row change; an absent id changes nothing |
| `Persistence.Database.DeleteProject` | persistence.py:79-86 | removes the project and every artifact with its id when the project exists; otherwise nothing changes |
| `Persistence.Database.SaveArtifact` | persistence.py:90-100 | appends exactly one artifact with the next id and any project_id; earlier rows and the projects table are unchanged |
| `Persistence.DuplicateNameScenario` | persistence.py:55-66 | a second create under one name returns false and the listing still has one row |
| `Persistence.RevisionScenario` | persistence.py:90-114 | two saves of one type list as [v2, v1] |
| `Persistence.CascadeScenario` | persistence.py:79-86 | deleting a project with artifacts of three types leaves no project, and its PROBLEM_DEF, MODEL_DESIGN and TEST_CASE listings are all empty |
| `CorePersistence.Database.InitDb` | core/persistence.py:11-46 | a new database has empty tables, counters at zero, and satisfies the key constraints |
| `CorePersistence.Database.CreateProject` | core/persistence.py:48-58 | always appends one row, whatever the name; the returned id is the next counter value, differs from every earlier id, and is the new row's id |
| `CorePersistence.Database.SaveArtifact` | core/persistence.py:71-81 | appends exactly one artifact with any project_id, existing or not; all earlier rows unchanged |
| `CorePersistence.DuplicateNamesScenario` | core/persistence.py:48-58 | two creates under one name both succeed, with ids 1 and 2 |
| `CorePersistence.OrphanArtifactScenario` | core/persistence.py:71-95 | an artifact for a project id that no project has is stored and listed |

## Left out

- Connections, `sqlite3.Row` to dict conversion, the directory creation in
  `init_db`, and the database path are I/O plumbing. The tables are sequences
  of rows.
- `init_db` on a file that already has tables keeps the existing schema
  (`CREATE TABLE IF NOT EXISTS`). Both modules use the same file path, so the
  constraints in force depend on which module created the tables first. Each
  class models its own module against a fresh file.
- `datetime.now().isoformat()` is not modelled as a string. The clock reading
  is a parameter.
- SQL NULL in `description` and `content` is not modelled. They are strings.
- Faults other than the UNIQUE violation (disk full, a locked or corrupt
  file) are not modelled. Neither is the connection that `update_project`
  leaves open when IntegrityError escapes.
- `get_latest_artifact` is imported by a page but defined in neither
  persistence module. `Tables.SavedLatestComesFirst` states what the head of
  the listing is.
- app.py is not part of this model. It is UI wiring, with one empty-name
  check before calling `create_project`.
- gemini_agent.py is not part of this model. It is a call to an external
  text-generation service.
- Content extraction and governance rule evaluation do not appear in the
  persistence modules and are not part of this model.
