# vata-app, modelled in Dafny

vata-app is a desktop genealogy application. Its Rust side only passes
menu events to the window; every rule lives in the TypeScript front end,
and that is what this project models. The model has four parts.

- **Trees and their files.** A family tree is one SQLite file under
  `trees/` in the application-data directory.
  - Three generations of code keep the trees, and each has a module:
    - the tree manager and the system registry: `TreeManager`, `TreeRegistry`;
    - the metadata-table store: `TreesMetadata`;
    - the file-only store: `TreesStore`.
  - Creating, listing, renaming, deleting, adopting and classifying trees
    are transitions over an abstract registry and file set (`AppFs`).
  - Each transition states its uniqueness and existence checks, its
    rollback, and what it leaves unchanged.
  - `TreeFiles` holds the file-name sanitiser and the two ways a listing
    turns a file name back into a tree name.
- **The data of one tree.** The tables of a tree database are ordered
  lists of rows. The modules here cover:
  - the default rows and first-open seeding: `Schema`, `Seeding`, `Migrations`;
  - names with at most one primary each: `Names`, `NameRecords`,
    `Individuals`;
  - events and their participants: `Events`;
  - place types with their system and in-use guards, and places:
    `PlaceDb`, `PlaceRows`, `PlacesGuarded`;
  - the Supabase writers of `src/api`, over `SupabaseDb`:
    - `CreateEvent` (participants derived from subjects);
    - `DeleteIndividual` (cascade to the events only they were the subject of);
    - `UpdateRows` (names and children replaced);
    - `CombineEvents`, `FetchJoins`, `FamilySearch`, `EventsPaging`
      (joins, order restoration, page slicing).
- **Lists and text.**
  - `DisplayName` and `EventTitles`: display names and event titles.
  - `PlaceHierarchy`, `PlaceChildren`, `PlaceHeader`: the place tree, its
    pre-order flattening and its collapse rules.
  - `NameSort` and the `Table*` modules: the table sorts that put empty
    names last.
  - `TableColumns`, `EventColumns`, `IndividualColumns`: column
    configuration.
  - `ErrorState`: error classification.
  - `PlaceEvents`: the events of a place.
  - `Sorting` and `Text`: the JavaScript list and string built-ins the
    rest relies on. They cover stable `Array.prototype.sort`, `filter`,
    `slice`, `trim`, `replace`, `split`, `padStart` and `parseInt`.
- **Forms and table state.**
  - `TableData`: the server-paged table's state.
  - `NameEditor`: the multi-name editor, which keeps exactly one primary.
  - `FamilyForm`, `EventForm`, `IndividualOptions`: validation and picker
    options.
  - `EventsPage`, `EventPage`: the page handlers.

Most file-system, database or network steps that can fail take their
outcome as an input, either an `Io` value or the rows a query returned.
The model chooses only what the code does with that outcome. The steps
taken to succeed instead are named under "## Left out".

The file-only store returns the trees sorted by name
(`src/lib/trees/index.ts:62`). The registry sanitises a tree's name into
its file name (`src/db/system/tables/trees.ts:11`). The metadata-table
store names the file after the name verbatim.

## Model

| member | source | states |
|---|---|---|
| AppFs.InTrees | src/lib/trees/index.ts:12-14 | `trees/<name>` starts with the directory and a slash, followed by the name unchanged |
| AppFs.AddFile | src/lib/trees/index.ts:28-29 | creating a database file: the path exists afterwards, a new path is added as a file, and every other path exists exactly as before |
| AppFs.Remove | src/managers/tree-manager.ts:165-167 | `remove(path)`: the path is gone and every other path exists exactly as before |
| AppFs.Move | src/managers/tree-manager.ts:74-86 | `rename`, or `copyFile` then `remove`: the source is gone, the destination exists, nothing else changes |
| AppFs.EntriesOf | src/managers/tree-manager.ts:206-208 | the entries `readDir("trees")` lists are exactly those of the paths directly below `trees/` |
| AppFs.ReadDirListsTreesPaths | src/managers/tree-manager.ts:206-214 | an entry is listed if and only if `trees/<entry name>` exists with the entry's kind (file or directory) |
| AppFs.ReadDirEntriesExist | src/lib/trees.ts:111-116 | every listed entry names a path that exists |
| TreeFiles.SanitiseChar | src/db/system/tables/trees.ts:11 | each character becomes one of `[a-z0-9]` or `_` |
| TreeFiles.Sanitise | src/db/system/tables/trees.ts:11 | the sanitised name has the name's length and is the character-wise sanitisation |
| TreeFiles.SanitiseOutput | src/db/system/tables/trees.ts:11 | the output uses only `[a-z0-9_]`, keeps the length, and sanitising again changes nothing |
| TreeFiles.SanitiseFixesSafeNames | src/db/system/tables/trees.ts:11 | a name already written in `[a-z0-9_]` is its own sanitised form |
| TreeFiles.TreeFilePath | src/db/system/tables/trees.ts:11 | the file path is `trees/` + the sanitised name + `.db` |
| TreeFiles.TreeFilePathCollides | src/db/system/tables/trees.ts:9-16 | two names get the same file path if and only if they sanitise alike |
| TreeFiles.CaseAndPunctuationCollide | src/db/system/tables/trees.ts:9-16 | with no uniqueness check, "My Tree" and "my-tree" are distinct names sharing one file |
| TreeFiles.StemAsWritten | src/lib/trees.ts:116 | `replace(".db", "")` leaves a name without `.db` unchanged (it removes the first occurrence, not the suffix) |
| TreeFiles.Stem | src/lib/trees/index.ts:53 | the stem followed by `.db` is the file name again |
| TreeFiles.StemRoundTrip | src/lib/trees.ts:153-157 | the path built from a stem is the file's own path, and distinct `.db` files have distinct stems |
| TreeFiles.StemOfName | src/lib/trees.ts:42-43 | the file a tree is created in has the tree's name as its stem |
| TreeFiles.StemAsWrittenBreaksRoundTrip | src/lib/trees.ts:114-116 | "smith.db_backup.db" is listed as "smith_backup.db", whose rebuilt path is not the file and which collides with "smith_backup.db.db" |
| TreeRegistry.StoredDescription | src/db/system/tables/trees.ts:15 | `description \|\| null`: a description is stored if and only if it is present and not empty |
| TreeRegistry.Find | src/db/system/tables/trees.ts:80-86 | a row found has the id and is in the table; nothing is found if and only if no row has the id |
| TreeRegistry.FindUnique | src/db/system/tables/trees.ts:80-86 | with distinct ids, the row found for a row's id is that row |
| TreeRegistry.CreateTree | src/db/system/tables/trees.ts:9-28 | a fresh id; the returned tree has the name, the sanitised file path and the description; the stored row is found by the id; every other id finds what it found before; ids stay distinct |
| TreeRegistry.ParseTreeId | src/db/system/tables/trees.ts:66-69 | fails with "Invalid tree ID: <id>" if and only if `parseInt(id, 10)` is NaN, otherwise gives the parsed number |
| TreeRegistry.GetTreeById | src/db/system/tables/trees.ts:64-96 | fails if and only if the id is not numeric; otherwise the row with that id, or null |
| TreeRegistry.GetTreeByOwnId | src/db/system/tables/trees.ts:64-96 | a tree's own decimal id finds it again |
| TreeRegistry.GetTreeByName | src/db/system/tables/trees.ts:104-131 | a row with that name, and null if and only if no row has the name |
| TreeRegistry.GetAllTrees | src/db/system/tables/trees.ts:35-56 | a permutation of the table, ordered by name |
| TreeRegistry.UpdateRows | src/db/system/tables/trees.ts:171-175 | the `UPDATE ... WHERE id = ?` changes exactly the rows with the id |
| TreeRegistry.UpdateTree | src/db/system/tables/trees.ts:140-183 | a non-numeric id fails "Invalid tree ID"; a missing tree fails "not found" (empty update) or "not found after update"; for an existing tree it always succeeds: the returned row keeps its id and file path, takes the supplied name and description (an empty description stored as none) and keeps the rest, it is what the registry now holds under that id, and every other id's row is unchanged |
| TreeRegistry.UpdateTreeWithPath | src/db/system/tables/trees.ts:150-160 | the corrected update, which also writes a supplied file path: the row becomes the update applied to it, every other id is untouched, ids stay distinct |
| TreeRegistry.DeleteTree | src/db/system/tables/trees.ts:192-200 | fails "Invalid tree ID" if and only if the id is not numeric; otherwise no row has the id afterwards and every other id finds what it found before |
| TreeRegistry.CreateThenDelete | src/db/system/tables/trees.ts:192-200 | deleting a just-created tree by its id gives back the table as it was |
| TreeManager.GetTreeByIdOrThrow | src/managers/tree-manager.ts:22-28 | succeeds exactly when the id parses and names a tree, with that tree; a non-numeric id fails "Invalid tree ID", a missing tree "Tree with ID <id> not found" |
| TreeManager.EnsureTreesDirectoryExists | src/managers/tree-manager.ts:33-44 | afterwards the directory exists; a failure can only be a failed `mkdir` of a missing directory, and changes nothing |
| TreeManager.MkdirOnlyWhenAbsent | src/managers/tree-manager.ts:33-44 | when the directory exists, nothing is created and the outcome of `mkdir` does not matter |
| TreeManager.RenameTreeDatabaseFile | src/managers/tree-manager.ts:56-87 | refuses an existing destination, then a missing source, changing nothing; with a free destination and an existing source, a successful `rename`, or `copyFile` then `remove`, moves the file and succeeds; a failed copy changes nothing and reports the copy's error; a failed remove leaves both copies and reports the remove's error; no other path changes |
| TreeManager.CreateNewTree | src/managers/tree-manager.ts:97-108 | succeeds exactly when the directory is there or made and the database initialises; the new tree has a fresh id, the name and the sanitised path, and its file exists; a failure leaves the registry as it was and is prefixed "Failed to create tree database: "; no other path changes |
| TreeManager.UpdateTree | src/managers/tree-manager.ts:117-150 | with no name, or a name whose path is the current one, no file is touched and the registry's answer (`TreeRegistry.UpdateTreeWithPath`) is returned as it is; an unknown tree fails without touching any file; renaming a known tree whose file move succeeds returns the tree under the new name and path, as the registry now holds it, with the file moved |
| TreeManager.UpdateTreeAsWritten | src/managers/tree-manager.ts:117-150 | the same steps with the registry update as written; an unknown tree fails without touching any file |
| TreeManager.UpdateTreeAsWrittenKeepsPath | src/managers/tree-manager.ts:132-133 | as written, a successful update returns the tree with its old file path, whatever the name |
| TreeManager.UpdateTreeRenames | src/managers/tree-manager.ts:132-137 | a successful rename records the new name and path, the file is at the new path and no longer at the old one |
| TreeManager.UpdateTreeRollsBack | src/managers/tree-manager.ts:138-149 | a failed rename is reported with "Failed to rename tree database: ", the record is back on the old path and the old file is as it was |
| TreeManager.UpdateTreeKeepsTreeTracked | src/managers/tree-manager.ts:117-150 | a tree whose record points at an existing file still does after any update, successful or not |
| TreeManager.RenameLeavesStalePath | src/managers/tree-manager.ts:132-137 | as written, a successful rename moves the file while the record keeps the old path, so the tree no longer points at its file |
| TreeManager.DeleteCompleteTree | src/managers/tree-manager.ts:159-170 | an unknown or non-numeric id fails with the registry's message and changes nothing; a known tree is deleted (record and file, nothing else) exactly when its file is missing or the removal succeeds; a failed removal throws its error and leaves everything in place |
| TreeManager.RegisteredPaths | src/managers/tree-manager.ts:203-204 | the set of the registered file paths |
| TreeManager.UnregisteredIn | src/managers/tree-manager.ts:210-219 | exactly the `trees/<name>` of the `.db` file entries whose path is not registered |
| TreeManager.GetUnregisteredFiles | src/managers/tree-manager.ts:191-226 | creates no file; a failed `mkdir` or `readDir` gives []; otherwise the result is exactly the `trees/<name>` of the `.db` file entries `readDir` lists whose path is not registered (`UnregisteredIn`); every path returned exists |
| TreeManager.UnregisteredFilesComplete | src/managers/tree-manager.ts:210-219 | every unregistered `.db` file directly below `trees/` is returned |
| TreeManager.RemoveOrphanedTree | src/managers/tree-manager.ts:233-246 | touches no file; a known tree whose file is missing loses its record and nothing else; a known tree whose file exists is refused with "Tree file exists at <path>. This is not an orphaned tree."; an unknown or non-numeric id fails with the registry's message and changes nothing; success happens only in the first case |
| TreeManager.RegisterUnregisteredFile | src/managers/tree-manager.ts:255-284 | touches no file; refuses a missing file, then a taken name; otherwise registers a new tree with the name and the given path, which points at its file |
| TreeManager.RegisterUnregisteredFileAsWritten | src/managers/tree-manager.ts:272-281 | as written, a registered file gets the path derived from the name, not the given one |
| TreeManager.RegisterKeepsSanitisedPath | src/managers/tree-manager.ts:272-281 | as written, registering "trees/Old.db" as "Old" records "trees/old.db", a file that does not exist |
| TreeManager.UnregisteredLabel | src/managers/tree-manager.ts:339-347 | the label of an unregistered file is never empty |
| TreeManager.UnregisteredLabelOfFile | src/managers/tree-manager.ts:339-347 | for a file directly below `trees/`, the label is the file name with its first `.db` dropped, or "Unknown" when nothing is left |
| TreeManager.GetAllTreesWithStatus | src/managers/tree-manager.ts:297-372 | a failed system initialisation is reported with its prefix, and a successful one always gives a listing: the registered trees in name order, each with its id, name as title, path, description and whether its file exists, then one entry per unregistered file with id "unregistered-<index>", the file's stem (or "Unknown") as title, its path, no description and unregistered status; the count is the length |
| TreeManager.UnregisteredIdsDistinct | src/managers/tree-manager.ts:346 | the temporary ids of different unregistered files differ |
| TreeManager.RegisterAdopts | src/managers/tree-manager.ts:255-284 | registering an existing file under a name not yet taken succeeds, with a new id that the manager then tracks, under that name and at that path |
| TreeManager.CheckTreeFileExists | src/managers/tree-manager.ts:177-185 | true exactly when the `exists` call succeeds and reports the path; an error is caught and reads as false |
| TreeManager.CreatedTreeFileFound | src/managers/tree-manager.ts:97-108 | after a successful creation, `checkTreeFileExists` finds the new tree's file |
| TreeManager.DeletedTreeFileGone | src/managers/tree-manager.ts:159-170 | after a successful deletion, `checkTreeFileExists` no longer finds the tree's file |
| TreesMetadata.Lookup | src/lib/trees.ts:58-61 | `SELECT … WHERE name = ?`: none exactly when no row has the name; otherwise a row of the table with that name |
| TreesMetadata.RemoveNamed | src/lib/trees.ts:204-206 | `DELETE … WHERE name = ?`: exactly the rows with another name remain, and names stay unique |
| TreesMetadata.Create | src/lib/trees.ts:40-88 | a taken name fails "Tree '<name>' already exists" and changes no row or file; success exactly when the directory is there or made, the name is free and the database initialises; the row added and the tree returned carry `trees/<name>.db` and are healthy, and the file exists; names stay unique; no other path changes |
| TreesMetadata.Info | src/lib/trees.ts:131-149 | a row is reported with its name and path, as having a row, and as healthy exactly when its file exists, otherwise `file_missing` |
| TreesMetadata.Orphan | src/lib/trees.ts:155-163 | a file with no row is reported under its stem, at `trees/<stem>.db`, as `db_missing` |
| TreesMetadata.IndexOfName | src/lib/trees.ts:154 | `treeMap.has(name)`: a position holding the name, or none when no entry has it |
| TreesMetadata.Put | src/lib/trees.ts:135 | `treeMap.set`: the entry is present, every other name keeps its entry, the names are the old ones plus the new, and names stay distinct |
| TreesMetadata.AddRecords | src/lib/trees.ts:128-150 | every named row is reported (the last one of a name wins), rows without a name are skipped, nothing else is added, and names stay distinct |
| TreesMetadata.AddOrphans | src/lib/trees.ts:152-165 | every file stem not yet present is added as an orphan, an entry already present is kept, and names stay distinct |
| TreesMetadata.FileStems | src/lib/trees.ts:114-118 | each stem comes from a non-empty entry name ending in `.db` |
| TreesMetadata.List | src/lib/trees.ts:90-176 | fails exactly when the metadata store fails; the trees come out in name order |
| TreesMetadata.ListAsWritten | src/lib/trees.ts:90-176 | the same, with the stem computed as written |
| TreesMetadata.ListMembers | src/lib/trees.ts:125-169 | the list holds exactly the reconciled entries, one per name, and the rows sorted by name are the table's rows |
| TreesMetadata.ListNamesDistinct | src/lib/trees.ts:125 | no name is listed twice |
| TreesMetadata.ListReportsRecords | src/lib/trees.ts:128-150 | every named row is listed with its path and its file's status |
| TreesMetadata.ListEntriesAccounted | src/lib/trees.ts:128-165 | every entry comes from a named row, or is an orphan whose file exists and whose name has no row |
| TreesMetadata.ListCoversFiles | src/lib/trees.ts:109-165 | every `.db` file directly below `trees/` is listed under its stem |
| TreesMetadata.ListAsWrittenMisnamesFile | src/lib/trees.ts:116 | as written, `smith.db_backup.db` is listed as the orphan `smith_backup.db`, whose reported path does not exist |
| TreesMetadata.Delete | src/lib/trees.ts:178-208 | the file removed is the row's path, or `trees/<name>.db` without a row; a failed removal of an existing file changes nothing; a success leaves no row of that name and no file at that path, and nothing else changes |
| TreesMetadata.RebuildDbEntry | src/lib/trees.ts:221-263 | a missing file fails "File not found: <path>", then a taken name "Tree '<name>' already exists in database"; otherwise a row is added for `trees/<name>.db` and the tree is healthy; names stay unique |
| TreesMetadata.CreateThenList | src/lib/trees.ts:40-176 | a created tree is then listed as healthy |
| TreesMetadata.RebuildHealsDbMissing | src/lib/trees.ts:153-263 | rebuilding the entry of a listed `db_missing` tree makes it listed as healthy |
| TreesStore.Create | src/lib/trees/index.ts:11-38 | refuses "Tree '<name>' already exists" when `<name>.db` is listed; succeeds exactly when the directory is there or made, the listing and the initialisation succeed and no such entry exists; the file then exists at `trees/<name>.db`; no other path changes |
| TreesStore.Listed | src/lib/trees/index.ts:51-60 | keeps at most one tree per entry |
| TreesStore.ListedMembers | src/lib/trees/index.ts:51-60 | a tree is listed exactly when it comes from a `.db` file entry |
| TreesStore.List | src/lib/trees/index.ts:40-63 | no directory gives []; otherwise it fails exactly when `readDir` fails; the trees come out in name order |
| TreesStore.ListMembers | src/lib/trees/index.ts:40-63 | a listed tree is exactly one derived from a `.db` file below `trees/` |
| TreesStore.ListAsWritten | src/lib/trees/index.ts:40-63 | the same listing with the stem computed as written, in name order |
| TreesStore.Delete | src/lib/trees/index.ts:65-73 | a missing file fails "Tree '<name>' does not exist"; success exactly when the file exists and its removal succeeds, after which it is gone; no other path changes |
| TreesStore.CreateThenList | src/lib/trees/index.ts:11-63 | a created tree is then listed |
| TreesStore.ListThenDelete | src/lib/trees/index.ts:40-73 | deleting a listed tree by its name removes the file it was listed with, and only that file |
| TreesStore.ListAsWrittenDeletesOtherFile | src/lib/trees/index.ts:53-72 | as written, deleting the listed `smith_backup.db` removes the other file `smith_backup.db.db` and leaves its own |
| Schema.PlaceTypesWellFormed | src/db/trees/schema.ts:4-15 | ten default place types, no key used twice |
| Schema.EventTypesWellFormed | src/db/trees/schema.ts:20-32 | eleven default event types, no key used twice, `marriage` among them |
| Schema.EventRolesWellFormed | src/db/trees/schema.ts:37-52 | fourteen default event roles, no key used twice, with `subject`, `husband` and `wife` among them |
| Schema.DefaultsWellFormed | src/db/trees/schema.ts:4-52 | the three default lists together: their sizes, unique keys, and the keys the event code looks up |
| Seeding.CountOrZero | src/db/trees/init.ts:26 | `rows[0]?.count \|\| 0`: the first count, or 0 when the query returned no row |
| Seeding.SeedRows | src/db/trees/init.ts:30-36 | one row per default, in order, with its name and key and consecutive ids from the first one given |
| Seeding.SeedTable | src/db/trees/init.ts:26-38 | a table with rows is left as it is; an empty one receives every default, in order, with its name and key, numbered on from its `sqlite_sequence` entry (`AUTOINCREMENT`, src/db/trees/schema.ts:60), which moves past the new rows; no new row reuses an id handed out before |
| Seeding.InitializeTreeDatabase | src/db/trees/init.ts:15-89 | fails exactly when opening the database or creating the schema fails, with that error; otherwise each of the three lookup tables is seeded on its own |
| Seeding.SeedTableIdempotent | src/db/trees/init.ts:26-38 | seeding a table twice gives what seeding it once gives |
| Seeding.InitializeIdempotent | src/db/trees/init.ts:15-89 | opening a tree database a second time changes none of its lookup tables |
| Seeding.SeedingIndependent | src/db/trees/init.ts:62-78 | whether the role table is seeded depends on that table alone |
| Seeding.EmptiedTableNumbersOn | src/db/trees/init.ts:61-79 | a role table emptied after the 14 defaults were seeded is seeded again with ids 15 to 28: no deleted id comes back |
| Seeding.FreshDatabaseSeeded | src/db/trees/init.ts:15-89 | a new database gets 10 place types, 11 event types and 14 event roles numbered 1 to 14, no role key twice |
| Migrations.SplitStatements | src/lib/db/migrations.ts:49-51 | every statement run is non-empty, contains no `;` and has no surrounding blanks |
| Migrations.Statements | src/lib/db/migrations.ts:50-54 | from pieces without `;`, at most one statement per piece, each a proper statement |
| Migrations.StatementsKeepEveryNonBlankPiece | src/lib/db/migrations.ts:50-54 | every non-blank piece is run, trimmed (no statement is lost) |
| Migrations.StatementsComeFromPieces | src/lib/db/migrations.ts:50-54 | conversely, every statement run is the trimmed text of some non-blank piece (nothing is invented) |
| Migrations.StatementsOfConcat | src/lib/db/migrations.ts:52-56 | the statements keep the script's order: those of two consecutive stretches of the script are the first stretch's, then the second's |
| Migrations.SingleStatement | src/lib/db/migrations.ts:49-54 | a script of one statement without `;` runs just that statement, trimmed |
| Migrations.SystemCount | src/lib/db/migrations.ts:59-62 | `COUNT(*) … WHERE is_system = 1`: at most the number of rows, and zero exactly when no row is a system row |
| Migrations.MaxId | src/lib/db/migrations.ts:5 | an id at least as large as every existing one |
| Migrations.NextId | src/lib/db/migrations.ts:5 | `AUTOINCREMENT`: the next id is above the table's `sqlite_sequence` entry and above every id present, so never one in use or used before |
| Migrations.SystemDefaults | src/lib/db/migrations.ts:30-41 | the ten default place types in order, as system rows with their names and keys and consecutive ids |
| Migrations.FirstTaken | src/lib/db/migrations.ts:12 | the first default whose key the unique index already holds, or none exactly when no remaining default key is held |
| Migrations.InsertDefaults | src/lib/db/migrations.ts:66-71 | the insert loop only appends: the rows present before it are kept as they were |
| Migrations.TakenAfterPrefix | src/lib/db/migrations.ts:12 | the defaults' keys are distinct, so after inserting the first k defaults a later default's key is taken exactly when it was taken before |
| Migrations.InsertDefaultsClosedForm | src/lib/db/migrations.ts:66-71 | with no default key held all ten rows are appended and the loop succeeds; otherwise the defaults before the first held key are appended and the loop throws `UNIQUE constraint failed: place_types.key` |
| Migrations.SeedPlaceTypes | src/lib/db/migrations.ts:59-72 | with a system row present nothing changes; otherwise it fails (with the unique index's message) exactly when a default key is already held; on success the ten defaults are appended with ids from the next `AUTOINCREMENT` value; on failure only the defaults before the first held key are |
| Migrations.SeedEmptyTable | src/lib/db/migrations.ts:59-72 | an empty table receives all ten defaults, numbered on from its `sqlite_sequence` entry |
| Migrations.InitializeDatabase | src/lib/db/migrations.ts:43-79 | opening the database creates its file and touches no other path; it succeeds exactly when the schema succeeds and either a system row exists or no default key is held; a schema error is rethrown with nothing seeded; otherwise the place types are seeded as above |
| Migrations.InitializeDatabaseIdempotent | src/lib/db/migrations.ts:43-79 | after a successful run, a second run leaves the place types as the first left them |
| Migrations.PartialSeedIsFinal | src/lib/db/migrations.ts:58-78 | a run that fails after inserting some defaults leaves system rows behind, so every later run skips the inserts and succeeds with only part of the defaults |
| Migrations.FirstKeyTakenFailsForever | src/lib/db/migrations.ts:58-78 | when the first default's key is already held by a non-system row, a run writes nothing and fails with the unique index's message, so every run fails |
| PlaceRows.DecodePlace | src/lib/db/types.ts:80-91 | reading a converted place back into a stored row keeps its id, name and type |
| PlaceRows.SecondsOfMillis | src/lib/db/types.ts:83 | a timestamp multiplied by 1000 divides back to the same number of seconds |
| PlaceRows.PlaceRowRoundTrip | src/lib/db/types.ts:46-91 | every stored place, read back as SQLite returns it, passes `isRawPlaceRow`, and `rawPlaceToPlace` loses nothing: the row can be recovered from the result |
| PlaceRows.DecodeType | src/lib/db/types.ts:93-101 | reading a converted place type back keeps its name and system flag |
| PlaceRows.PlaceTypeRowRoundTrip | src/lib/db/types.ts:59-101 | every stored place type passes `isRawPlaceTypeRow`, and its row and creation time can be recovered from `rawPlaceTypeToPlaceType` |
| PlaceRows.SystemFlagNonZero | src/lib/db/types.ts:99 | `Boolean(is_system)`: the type is a system type exactly when the stored number is not zero |
| PlaceDb.FindType | src/lib/place-types.ts:18-27 | `SELECT … WHERE id = ?` on place types: a row with that id, or none exactly when no row has it |
| PlaceDb.FindPlace | src/lib/places.ts:88-98 | the same lookup on places |
| PlaceDb.UpdateTypeRows | src/lib/place-types.ts:84-87 | the `UPDATE` keeps the number of rows and every id |
| PlaceDb.UpdateType | src/lib/place-types.ts:49-100 | a missing type fails "Place type with id <id> not found", a type with a key fails "Cannot modify system place type: <name>", and either failure changes nothing; otherwise the result is the row with the given fields replaced; an empty update writes nothing; places are never touched |
| PlaceDb.FindTypeAfterUpdate | src/lib/place-types.ts:84-92 | after the `UPDATE` the updated row reads back with the changes and every other row as before |
| PlaceDb.UpdateTypeReadsBack | src/lib/place-types.ts:49-100 | after a successful update the returned row is what the table holds, and no other type changes |
| PlaceDb.SystemTypeUnchanged | src/lib/place-types.ts:61-66 | no update ever changes a system type |
| PlaceDb.UsageCount | src/lib/place-types.ts:120-125 | the number of places of a type: at most the number of places, zero exactly when none uses it |
| PlaceDb.GetUsageCount | src/lib/place-types.ts:136-145 | the same count for the database |
| PlaceDb.RemoveType | src/lib/place-types.ts:132 | `DELETE … WHERE id = ?`: exactly the types with another id remain |
| PlaceDb.DeleteType | src/lib/place-types.ts:102-134 | succeeds exactly for an existing non-system type no place uses; otherwise it fails "not found", "Cannot delete system place type: <name>" or "Cannot delete place type: <n> places are using this type", in that order, and changes nothing; places are never touched |
| PlaceDb.FindTypeAfterRemove | src/lib/place-types.ts:132 | after the delete the removed id is gone and every other id reads as before |
| PlaceDb.DeleteTypeKeepsReferences | src/lib/place-types.ts:102-134 | a delete never leaves a place pointing at a missing type, and touches no other type |
| PlaceDb.ByName | src/lib/places.ts:16-19 | `ORDER BY name`: the same rows, in name order |
| PlaceDb.Listed | src/lib/places.ts:29-32 | one listed type per row, every row listed, in name order, with `is_system` as a boolean or as the stored number |
| PlaceDb.GetPlaceTypes | src/lib/places.ts:13-33 | with types present the table is untouched and every flag is a boolean; an empty table is seeded first, and then the ten defaults come back with the flag left as the stored 1; places are never touched |
| PlaceDb.GetPlaceType | src/lib/places.ts:59-77 | succeeds exactly when a type has the id, with that row and a boolean flag; otherwise "Place type with id <id> not found" |
| PlaceDb.UpdatePlaceRows | src/lib/places.ts:160-163 | the `UPDATE` keeps the number of rows and every id |
| PlaceDb.FindPlaceAfterUpdate | src/lib/places.ts:160-168 | after the `UPDATE` the updated place reads back with the changes and every other place as before |
| PlaceDb.UpdatePlace | src/lib/places.ts:118-175 | fails "Place with id <id> not found" exactly when the place is missing, changing nothing; otherwise the place with the given fields replaced; an update with nothing to write changes nothing; types are never touched |
| PlaceDb.UpdateMissingPlace | src/lib/places.ts:160-163 | an `UPDATE` of a missing id changes no row |
| PlaceDb.UpdatePlaceReadsBack | src/lib/places.ts:118-175 | after a successful update the returned place is what the table holds, and no other place changes |
| PlaceDb.LegacyUpdateDropsGedcom | src/lib/places.ts:130-150 | this update ignores `gedcomId`: it behaves as the full update with no `gedcomId` given |
| PlaceDb.ChildCount | src/lib/places.ts:184-195 | the number of places whose parent is the given one: zero exactly when none has it |
| PlaceDb.GetChildrenCount | src/lib/places.ts:184-195 | the same count for the database |
| PlaceDb.GetAll | src/lib/places.ts:79-86 | every place once, in name order |
| PlaceDb.LastWith | src/lib/places.ts:207-208 | `placeTypeMap.get`: a type with that id (the last one set), or none exactly when no type has it |
| PlaceDb.PairAll | src/lib/places.ts:211-220 | the `map` pairs each place, in order, with its type; it fails exactly when some place's type is missing, with the message of the first such place |
| PlaceDb.Join | src/lib/places.ts:205-221 | the join then sorted by place name: every place exactly once, each with its type, or the message of a place whose type is missing |
| PlaceDb.GetAllWithTypes | src/lib/places.ts:197-222 | the places, each once, with their type, in name order; with the types read, it fails exactly when some place's type does not exist, and then with "Place type with id <id> not found for place <name>" for such a place |
| PlaceDb.JoinAgainstStore | src/lib/places.ts:197-222 | joining against the listed types behaves as joining against the type table itself |
| PlaceDb.ListedCoversTypes | src/lib/places.ts:206-208 | the map built from the listed types knows exactly the ids in the table |
| PlaceRows.RawPlaceToPlace | src/lib/db/types.ts:80-91 | the checked columns come through typed; the date is invalid exactly when `created_at` is not a number, and a valid one is a whole number of seconds; the parent and GEDCOM ids are copied as they are |
| PlaceRows.RawPlaceTypeToPlaceType | src/lib/db/types.ts:93-101 | id, name and key copied; `isSystem` is true for a non-zero numeric flag and false for zero, a missing flag or null |
| PlaceRows.PlaceGuardIgnoresOtherColumns | src/lib/db/types.ts:46-57 | `isRawPlaceRow` looks only at `id`, `name` and `type_id`: changing any other column never changes its verdict |
| PlaceRows.PlaceTypeGuardIgnoresOtherColumns | src/lib/db/types.ts:59-68 | `isRawPlaceTypeRow` looks only at `id` and `name` |
| PlaceRows.GuardsOverlap | src/lib/db/types.ts:46-68 | every value passing `isRawPlaceRow` also passes `isRawPlaceTypeRow`; a non-object or a value without a numeric `id` passes neither |
| PlacesGuarded.GuardedPlaces | src/lib/places/index.ts:101-103 | the places are exactly the conversions of the rows that pass `isRawPlaceRow`, never more than the rows |
| PlacesGuarded.GuardedTypes | src/lib/places/index.ts:44-46 | the place types are exactly the conversions of the rows that pass `isRawPlaceTypeRow` |
| PlacesGuarded.MalformedRowDropped | src/lib/places/index.ts:101-103 | a row that fails the guard, wherever it stands, leaves the result as if it were absent |
| PlacesGuarded.StoredRowsKept | src/lib/places/index.ts:95-104 | no stored place is lost: each row SQLite returns passes the guard and converts back to the stored row, in order |
| PlacesGuarded.GetAll | src/lib/places/index.ts:95-104 | the places are exactly the conversions of the well-formed rows |
| PlacesGuarded.GetById | src/lib/places/index.ts:106-120 | none exactly when no row came back or the first fails the guard; otherwise that row converted |
| PlacesGuarded.SelectPlace | src/lib/places/index.ts:109 | `SELECT … WHERE id = ?`: empty exactly when no place has the id, otherwise led by that place |
| PlacesGuarded.GetByIdFindsStored | src/lib/places/index.ts:106-120 | reading a place by id finds exactly the stored place, losing nothing |
| PlacesGuarded.GetPlaceType | src/lib/places/index.ts:75-92 | fails "Place type with id <id> not found or invalid data structure" exactly when no row came back or the first fails the guard; otherwise that row converted |
| PlacesGuarded.StoredTypesKept | src/lib/places/index.ts:44-46 | every stored place type passes the guard and converts back to its row, in order |
| PlacesGuarded.TypeListing | src/lib/places/index.ts:28-46 | the listing has one entry per stored type, each decoding to a stored type, every stored type present, in name order |
| PlacesGuarded.GetPlaceTypes | src/lib/places/index.ts:23-51 | seeds an empty table as the library layer does and fails exactly when that fails, with its error; otherwise one entry per type of the table, each decoding to it, every type present, in name order |
| PlacesGuarded.GetChildrenCount | src/lib/places/index.ts:202-220 | 0 when no row came back or the first has no `count`; otherwise that `count` |
| PlacesGuarded.ChildrenCountFromStore | src/lib/places/index.ts:202-220 | on the row the count query returns, the result is the number of children in the table |
| PlacesGuarded.JoinStored | src/lib/places/index.ts:230-247 | joined against the listed types, the places come out each once with their type, in name order, exactly when every place's type exists; otherwise with the message of a place whose type is missing |
| PlacesGuarded.JoinStoredSucceeds | src/lib/places/index.ts:237-246 | the join succeeds exactly when every stored place's type is in the table |
| PlacesGuarded.JoinStoredPairs | src/lib/places/index.ts:237-247 | every pair is a stored place with a listed type of its id, in name order |
| PlacesGuarded.JoinStoredCovers | src/lib/places/index.ts:237-247 | every stored place appears in a successful join |
| PlacesGuarded.JoinStoredFails | src/lib/places/index.ts:238-245 | a failed join names a stored place whose type is not in the table |
| PlacesGuarded.GuardedStoredRows | src/lib/places/index.ts:95-104 | the places read are the stored ones, in order, each decoding back to its row |
| PlacesGuarded.GetAllWithTypes | src/lib/places/index.ts:223-248 | a failure to list the types is that failure; otherwise every stored place exactly once with its type, in name order, exactly when every place's type exists, and else "Place type with id <id> not found for place <name>" for such a place |
| PlacesGuarded.TypesFoundInReorder | src/lib/places/index.ts:237-247 | whether every place's type is found does not depend on the order of the places |
| PlacesGuarded.TypeFoundById | src/lib/places/index.ts:234-235 | the map built from the listed types knows exactly the ids in the table |
| PlacesGuarded.TypesFound | src/lib/places/index.ts:237-246 | every place finds its type in the map exactly when every stored place's type is in the table |
| Individuals.GetAll | src/lib/individuals.ts:14-20 | every individual once, newest first |
| Individuals.GetById | src/lib/individuals.ts:22-31 | an individual with that id, or none exactly when no row has it |
| Individuals.Find | src/lib/individuals.ts:25-28 | the lookup by id on a list of rows, with the same meaning |
| Individuals.Create | src/lib/individuals.ts:33-51 | succeeds exactly when no individual has the new id; a taken id is refused with the primary key's message and the tree is unchanged; a success appends one row with the id, the time and the gender and no GEDCOM id, which `getById` then finds; names are not touched |
| Individuals.FindLast | src/lib/individuals.ts:44-47 | the row just appended with a new id is the one read back |
| Individuals.Update | src/lib/individuals.ts:53-92 | fails "Individual with id <id> not found" exactly when the id is missing; otherwise the row with the gender replaced when given; nothing is written without a gender; names and every other row are untouched |
| Individuals.SetGender | src/lib/individuals.ts:76-79 | `UPDATE … SET gender = ? WHERE id = ?`: the rows of that id get the gender, the others stay |
| Individuals.FindAfterSetGender | src/lib/individuals.ts:76-84 | after the `UPDATE` the row reads back with the new gender |
| Individuals.UpdateReadsBack | src/lib/individuals.ts:53-92 | after a successful update the returned row is what the table holds |
| Individuals.Delete | src/lib/individuals.ts:94-99 | exactly the other individuals remain, and the names cascade away with the row |
| Individuals.CreateName | src/lib/individuals.ts:124-156 | succeeds exactly when the id is new and an individual has the given individual id; a taken id fails with the primary key's message, then an unknown individual with the foreign key's; either failure keeps only the `UPDATE` that cleared the other primaries; a success inserts as `Names.InsertName` and the new row reads back; individuals are untouched |
| Individuals.UpdateName | src/lib/individuals.ts:158-226 | fails "Name with id <id> not found" exactly when the name is missing, changing nothing; otherwise the table becomes `Names.UpdateName`'s and the row returned has the given fields replaced |
| Individuals.GetAllWithNames | src/lib/individuals.ts:235-248 | one entry per individual, in the order of `getAll`, each with its primary name or none |
| Individuals.GetByIdWithNames | src/lib/individuals.ts:250-260 | none exactly when the individual is missing; otherwise the individual with exactly its names, the primary one first, then by creation time |
| Names.Unset | src/lib/individuals.ts:130-135 | `UPDATE names SET is_primary = 0 WHERE individual_id = ?` (optionally `AND id != ?`): only the primary flags change, and a name stays primary exactly when it belongs to another individual or is the one excepted |
| Names.FindName | src/lib/individuals.ts:199-201 | `SELECT … WHERE id = ?`: the first row with that id, or none exactly when no row has it |
| Names.InsertName | src/lib/individuals.ts:124-156 | one row is appended with blank parts stored as null; a primary insert first clears the individual's other primary flags, so none of them stays primary; other individuals' names are untouched |
| Names.FindNameAppend | src/lib/individuals.ts:149-152 | a row appended with a new id is the one read back |
| Names.FindNameOfLast | src/lib/individuals.ts:124-156 | the name just created reads back as created |
| Names.InsertNameKeepsValid | src/lib/individuals.ts:124-156 | creating a name with a new id keeps ids unique and at most one primary name per individual |
| Names.UpdateRows | src/lib/individuals.ts:210-213 | `UPDATE names SET … WHERE id = ?`: the rows of that id get the changes, the others stay |
| Names.FindNameAfterUpdate | src/lib/individuals.ts:210-218 | after the `UPDATE` the row reads back with the changes |
| Names.FindNameAfterUnset | src/lib/individuals.ts:189-195 | clearing the other primaries does not change the row being updated |
| Names.UpdateName | src/lib/individuals.ts:158-226 | a result exactly when the name exists, with the given fields replaced; nothing changes when the name is missing or nothing is given; the number of rows stays |
| Names.UpdateNameRow | src/lib/individuals.ts:179-213 | the updated row gets the changes; any other row changes at most by losing its primary flag, and does lose it when it belongs to the same individual and the update makes this name primary |
| Names.UpdateNameKeepsValid | src/lib/individuals.ts:158-226 | an update keeps ids unique and at most one primary name per individual |
| Names.PrimaryPair | src/lib/individuals.ts:179-196 | after an update, two primary names of one individual are the same name |
| Names.UpdateToPrimaryIsSolePrimary | src/lib/individuals.ts:179-196 | making a name primary leaves it the individual's only primary name |
| Names.DeleteName | src/lib/individuals.ts:228-232 | exactly the rows with another id remain, the id no longer reads back, and the table stays valid |
| Names.ListedBeforeOrders | src/lib/individuals.ts:104 | `ORDER BY is_primary DESC, created_at` is a total, transitive order |
| Names.Listed | src/lib/individuals.ts:104 | the same names, in that order |
| Names.NamesOf | src/lib/individuals.ts:101-108 | exactly the individual's names, in that order |
| Names.PrimaryName | src/lib/individuals.ts:110-122 | the individual's primary name, or none exactly when it has none |
| Names.PrimaryListedFirst | src/lib/individuals.ts:101-122 | with at most one primary per individual, the individual's primary name heads its list |
| Individuals.GetNames | src/lib/individuals.ts:101-109 | exactly the names of that individual, the primary one first, then by creation time |
| NameRecords.Records | src/db/trees/tables/names.ts:73-92 | one record per row, in order, with the ids written as decimal strings |
| NameRecords.CreateName | src/db/trees/tables/names.ts:10-58 | fails "Invalid individual ID: <id>" exactly when the individual id does not parse, changing nothing; otherwise the insert of `Names.InsertName` on the parsed id; the record keeps a name part exactly when it was given and non-empty, and is primary exactly when asked |
| NameRecords.GetAllNames | src/db/trees/tables/names.ts:60-92 | every name, primary first then by creation time, as records |
| NameRecords.GetNameById | src/db/trees/tables/names.ts:94-140 | fails "Invalid name ID: <id>" exactly when the id does not parse; otherwise the name with that id as a record, or none exactly when it is missing |
| NameRecords.GetNamesByIndividualId | src/db/trees/tables/names.ts:142-183 | fails "Invalid individual ID: <id>" exactly when the id does not parse; otherwise exactly the individual's names in listing order |
| NameRecords.GetPrimaryNameByIndividualId | src/db/trees/tables/names.ts:185-232 | the same parse check; otherwise the individual's primary name, or none exactly when it has none |
| NameRecords.UpdateName | src/db/trees/tables/names.ts:234-306 | an id that does not parse fails "Invalid name ID: <id>" and changes nothing; otherwise the table becomes `Names.UpdateName`'s, a missing name fails "Name with ID <id> not found" (or "… not found after update" when there was something to write) and changes nothing, and the record returned has the given fields replaced |
| NameRecords.DeleteName | src/db/trees/tables/names.ts:308-317 | fails "Invalid name ID: <id>" exactly when the id does not parse; otherwise exactly the rows with another id remain |
| NameRecords.CreatedNameReadsBack | src/db/trees/tables/names.ts:10-140 | a created name is found again by the id string it was returned with |
| NameRecords.WritesKeepValid | src/db/trees/tables/names.ts:10-317 | create, update and delete keep ids unique and at most one primary name per individual |
| Events.GetAll | src/lib/events.ts:14-20 | every event once, newest first |
| Events.GetById | src/lib/events.ts:22-31 | an event with that id, or none exactly when no row has it |
| Events.NullIfZero | src/lib/events.ts:45 | `gedcomId \|\| null`: none exactly when absent or 0, otherwise the number |
| Events.Create | src/lib/events.ts:33-56 | succeeds exactly when the id is new and the type exists and the place is null or exists; then appends the row built from the input and returns it, and it reads back; otherwise fails "UNIQUE constraint failed: events.id" for a taken id, else "FOREIGN KEY constraint failed", changing nothing |
| Events.CreateStoresFalsyAsNull | src/lib/events.ts:38-46 | a created event keeps its type; date, description and place are null exactly when absent or "", the GEDCOM id exactly when absent or 0, and otherwise as given |
| Events.ColumnsFrom | src/lib/events.ts:67-86 | the assignments name exactly the supplied columns, in the order the code checks them |
| Events.AssignmentsFollowColumns | src/lib/events.ts:67-86 | the `SET` list follows the order type, date, description, place, GEDCOM id, and names a column exactly when the update supplies it |
| Events.Values | src/lib/events.ts:96-99 | one bound value per assignment, then the id for `WHERE id = ?` |
| Events.ExecuteConcat | src/lib/events.ts:97-100 | running assignments one after another is running them all |
| Events.ExecuteAssignments | src/lib/events.ts:58-113 | the `UPDATE` built from an update sets exactly the supplied fields and keeps the id and creation time: the statement does what the update describes |
| Events.UpdateRows | src/lib/events.ts:97-100 | the rows of that id get the changes, the others stay, and the first row of that id reads back updated |
| Events.Update | src/lib/events.ts:58-113 | succeeds exactly when the event exists and a supplied type exists and a supplied place is null or exists; a missing event fails "Event with id <id> not found", a broken foreign key "FOREIGN KEY constraint failed", both changing nothing; otherwise the row with the supplied fields replaced, which is what then reads back; nothing is written without a field; participants and types are untouched |
| Events.Delete | src/lib/events.ts:115-121 | exactly the other events remain, their participants cascade away, types are untouched, and the id no longer reads back |
| Events.GetParticipants | src/lib/events.ts:123-133 | exactly the event's participants, oldest first |
| Events.GetParticipantById | src/lib/events.ts:135-147 | a participant with that id, or none exactly when no row has it |
| Events.AddParticipant | src/lib/events.ts:149-168 | succeeds exactly when the id is new, no row holds the same event, individual and role, and the event, individual and role exist; then appends the row built from the input, which reads back; otherwise fails with the primary key, then the unique index, then the foreign key message, changing nothing |
| Events.UpdateParticipant | src/lib/events.ts:170-213 | a missing id fails "Event participant with id <id> not found"; with something to write, a changed row that repeats another row's event, individual and role fails on the unique index, then a supplied individual or role that does not exist fails on the foreign key; every failure changes nothing; otherwise the row with the individual and role replaced when given, which then reads back; events and types are untouched |
| Events.RemoveParticipant | src/lib/events.ts:215-222 | exactly the other participants remain and the id no longer reads back |
| Events.FindType | src/lib/events.ts:364-366 | an event type with that id, or none exactly when no row has it |
| Events.GetEventTypeKey | src/lib/events.ts:224-238 | `result[0]?.key \|\| null`: a key is returned only when non-empty, and then it is the key of the event's type |
| Events.IsMarriageEventType | src/lib/events.ts:358-370 | true exactly when the first type with that id has the key `marriage` |
| Events.FirstTypeIndex | src/lib/events.ts:364-368 | the type the lookup returns is the first one with the id, and the first one with the id is returned |
| Events.MarriageKeyMatchesType | src/lib/events.ts:224-370 | for an existing event, its type key is `marriage` exactly when its type is a marriage type |
| Events.ValidateMarriageParticipants | src/lib/events.ts:240-248 | always valid, with no message |
| Events.ValidateSingleSubjectParticipant | src/lib/events.ts:250-258 | always valid, with no message |
| Events.RulesFor | src/lib/events.ts:261-272 | the marriage rules are chosen exactly for an existing event of a marriage type |
| Events.RulesForKey | src/lib/events.ts:267-271 | the marriage rules are chosen exactly for the key `marriage` |
| Events.ValidateEventParticipants | src/lib/events.ts:261-272 | whichever rules apply, the answer is valid with no message |
| Events.ValidateSubjectExists | src/lib/events.ts:275-281 | always true |
| Events.GetAllWithDetails | src/lib/events.ts:284-297 | one entry per event, in the order of `getAll`, with a participant count that is 0 exactly when the event has no participant |
| Events.ParticipantCount | src/lib/events.ts:290-292 | 0 exactly when the event has no participant |
| Events.GetByIdWithParticipants | src/lib/events.ts:299-308 | none exactly when the event is missing; otherwise the event with exactly its participants |
| Events.CreateWithSubject | src/lib/events.ts:311-327 | succeeds exactly when the event insert and the subject's insert are both accepted, and then returns the event with the one participant built from the input; a refused participant leaves the event written; every failure is a constraint error |
| Events.CreateMarriage | src/lib/events.ts:329-356 | succeeds exactly when the event, husband and wife inserts are all accepted, with distinct ids and distinct (individual, role) pairs; then returns the event with husband and wife in that order; a failure keeps the rows written before the refused insert |
| Events.JoinsAfter | src/lib/events.ts:339-349 | after one participant is inserted, a second is accepted exactly when it was acceptable before and differs from the first in id and in (event, individual, role) |
| Events.NoTripleOnNewEvent | src/db/trees/schema.ts:156 | an event without participants has no (event, individual, role) taken |
| Events.SameSpouseTwiceRefused | src/lib/events.ts:329-356 | the same individual as husband and wife in the same role is refused by the unique index after the event and the husband row are written |
| Events.EmptyPlaceAccepted | src/lib/events.ts:44 | a place given as "" is stored as null and never breaks the place foreign key |
| Events.CreateMarriageReadsBack | src/lib/events.ts:299-356 | when every insert is allowed and the event is new, the call succeeds and the marriage reads back as the event with exactly its two participants, husband first |
| Events.TwoParticipantsListed | src/lib/events.ts:123-133 | two participants added at once to a new event are listed in the order they were added |
| Events.CreateWithSubjectReadsBack | src/lib/events.ts:299-327 | when both inserts are allowed and the event is new, the call succeeds and the event reads back with exactly that participant |
| SupabaseDb.OrNull | src/api/families/updateFamily.ts:13-14 | `value \|\| null`: null exactly for "", otherwise the string itself |
| UpdateRows.NewNames | src/api/individuals/updateIndividual.ts:51-59 | one row per name given, in order, for this individual and tree, with its parts and type; the surname null exactly when ""; the first and only the first primary |
| UpdateRows.UpdateIndividual | src/api/individuals/updateIndividual.ts:14-66 | returns the individual's id; only this tree's row of that id gets the new gender; the names become the replacement below; no other table changes |
| UpdateRows.NewNamesAreTheIndividuals | src/api/individuals/updateIndividual.ts:51-59 | every new name belongs to this individual in this tree |
| UpdateRows.ReplaceNamesUnguarded | src/api/individuals/updateIndividual.ts:39-61 | the `existingNames.length > 0` guard changes nothing: the result is the other names followed by the new ones either way |
| UpdateRows.ReplaceNamesOwn | src/api/individuals/updateIndividual.ts:39-61 | afterwards the individual's names are exactly the new ones, in order |
| UpdateRows.ReplaceNamesKeepsOthers | src/api/individuals/updateIndividual.ts:41-45 | a name of another individual or another tree survives exactly when it was there |
| UpdateRows.ReplaceNamesOnePrimary | src/api/individuals/updateIndividual.ts:57 | with at least one name given, the individual ends with exactly one primary name |
| UpdateRows.ReplaceNamesIdempotent | src/api/individuals/updateIndividual.ts:39-61 | saving the same names twice leaves what saving them once left |
| UpdateRows.UpdateIndividualIdempotent | src/api/individuals/updateIndividual.ts:14-66 | saving the same form twice leaves the database as saving it once |
| UpdateRows.NewChildren | src/api/families/updateFamily.ts:32-40 | rows for exactly the non-empty child ids given, all for this family and tree |
| UpdateRows.UpdateFamily | src/api/families/updateFamily.ts:4-51 | returns the family's id; only this tree's row of that id changes, to the form's type and spouses, a spouse null exactly when "" and otherwise that id; the children become the replacement below; no other table changes |
| UpdateRows.ReplaceChildrenEffect | src/api/families/updateFamily.ts:22-48 | afterwards the family's children are exactly the non-empty ids of the form, and every other family's rows are as before |
| UpdateRows.ReplaceChildrenIdempotent | src/api/families/updateFamily.ts:22-48 | saving the same children twice leaves what saving them once left |
| UpdateRows.UpdateFamilyIdempotent | src/api/families/updateFamily.ts:4-51 | saving the same family form twice leaves the database as saving it once |
| IndividualsApi.SortKey | src/api/individuals/utils/sort.ts:30-48 | the primary name's first name for `first_name`, its last name for any other field, "" for a missing part or no primary name |
| IndividualsApi.KeyGeTotalTransitive | src/api/individuals/utils/sort.ts:50 | the descending comparison is total and transitive, so the sort is well defined |
| IndividualsApi.SortIndividuals | src/api/individuals/utils/sort.ts:7-52 | the same individuals, ordered by last name without a configuration, otherwise by the chosen key, ascending for "asc" and descending for anything else |
| IndividualsApi.DefaultSortIsLastNameAscending | src/api/individuals/utils/sort.ts:11-23 | no configuration sorts as `last_name` ascending does |
| IndividualsApi.ParentIds | src/api/individuals/utils/filter.ts:75-77 | `[husband_id, wife_id].filter(Boolean)`: exactly the spouse ids present and non-empty |
| IndividualsApi.FilterIndividuals | src/api/individuals/utils/filter.ts:7-98 | an individual is kept exactly when the query is empty or one of its names contains it, ignoring case, and it passes the event and family filters that apply |
| IndividualsApi.FilterIsOneFilter | src/api/individuals/utils/filter.ts:12-97 | the three filters in a row are one filter by their conjunction, and the result keeps the input order |
| IndividualsApi.NoFilterKeepsAll | src/api/individuals/utils/filter.ts:15-97 | with no query and no applicable filter every individual is kept, in order |
| IndividualsApi.LifeSpan | src/api/getIndividuals.ts:52-57 | "birth - death", "birth - xxxx", "xxxx - death" or "Unknown", by which dates are known |
| IndividualsApi.FirstOfType | src/api/getIndividuals.ts:39-49 | the first subject event of that type, or none exactly when there is none |
| IndividualsApi.VitalOf | src/api/getIndividuals.ts:70-71 | `birth && { date, place }`: absent exactly when there is no such event |
| IndividualsApi.SummaryOf | src/api/getIndividuals.ts:38-74 | a row's id, GEDCOM id, name parts, birth, death and life span, taken from its first Birth and Death events |
| IndividualsApi.GetIndividuals | src/api/getIndividuals.ts:33-75 | one summary per primary-name row of the requested individuals, in order, and only for those individuals |
| IndividualsApi.LifeSpanUnknown | src/api/getIndividuals.ts:52-57 | the span is "Unknown" exactly when neither date is known, and a known birth date leads it |
| CombineEvents.First | src/api/individuals/utils/fetchEvents.ts:104-107 | an embedded object is itself; an embedded array yields its first element, none when empty; null yields none |
| CombineEvents.NormalizeArrayOrObject | src/api/individuals/utils/fetchEvents.ts:96-109 | an event whose place and type come as arrays normalises as if they came as their first elements; id, date, type id and place id are copied |
| CombineEvents.ProcessSubjectsKeys | src/api/individuals/utils/fetchEvents.ts:114-122 | after the subject pass an individual has an entry exactly when it had one or some subject row names it |
| CombineEvents.ProcessSubjectsListed | src/api/individuals/utils/fetchEvents.ts:118-132 | the subject pass appends, for each individual, every one of its events from the rows, normalised, in row order, duplicates included |
| CombineEvents.ProcessParticipantsKeys | src/api/individuals/utils/fetchEvents.ts:142-147 | after the participant pass an individual has an entry exactly when it had one or some participant row names it |
| CombineEvents.ProcessParticipantsListed | src/api/individuals/utils/fetchEvents.ts:142-162 | the participant pass appends, for each individual, its events from the rows whose id it does not list yet, in row order |
| CombineEvents.AppendNewConcat | src/api/individuals/utils/fetchEvents.ts:152-160 | appending the new events of two batches at once is appending those of the first, then those of the second |
| CombineEvents.CombinePerIndividual | src/api/individuals/utils/fetchEvents.ts:168-183 | an individual is in the result exactly when a subject or participant row names it; its list is its subject events, then its participant events not already listed |
| CombineEvents.AppendNewKeepsListed | src/api/individuals/utils/fetchEvents.ts:152-160 | the participant pass never removes or reorders what is already listed |
| CombineEvents.AppendNewCovers | src/api/individuals/utils/fetchEvents.ts:152-160 | every participant event ends up listed by its id |
| CombineEvents.AppendNewFrom | src/api/individuals/utils/fetchEvents.ts:152-160 | every listed event was listed before or is a normalised participant event |
| CombineEvents.AppendNewDistinct | src/api/individuals/utils/fetchEvents.ts:153-159 | a list without repeated ids keeps that property through the participant pass, even when the rows repeat an event |
| CombineEvents.CombineDistinct | src/api/individuals/utils/fetchEvents.ts:168-183 | when an individual's subject events have distinct ids, so does its combined list |
| CreateEvent.FilledIffNotBlank | src/api/events/createEvent.ts:33-35 | `s && s.trim() !== ""` holds exactly for a string that is not all white space |
| CreateEvent.EventRowFor | src/api/events/createEvent.ts:17-26 | the event row has the new id, the tree and the type; the date and the description are null exactly when blank and otherwise kept as typed; the place is null exactly when "" |
| CreateEvent.ValidSubjects | src/api/events/createEvent.ts:33-35 | the subjects kept are exactly the given ones that are not blank |
| CreateEvent.ParticipantRows | src/api/events/createEvent.ts:121-136 | every participant row written is for the new event and the tree, with an individual and a role that are not blank |
| CreateEvent.EventViolation | src/api/events/createEvent.ts:15-30 | the event insert is refused exactly when no event type has the id, or the place is given and no place has it; an unknown type is reported as `events_type_id_fkey` |
| CreateEvent.SubjectsViolation | src/api/events/createEvent.ts:38-48 | the subjects insert is refused, as `event_subjects_individual_id_fkey`, exactly when one of its rows names no individual |
| CreateEvent.ParticipantsViolation | src/api/events/createEvent.ts:138-142 | the participants insert is refused exactly when one of its rows names no individual or no role |
| CreateEvent.Lookups | src/api/events/createEvent.ts:52-89 | when the reads succeed, the subject role is the tree's first role with that key and the key is that of an event type with the form's id |
| CreateEvent.InsertParticipants | src/api/events/createEvent.ts:129-143 | no rows means no insert and success; otherwise the insert succeeds exactly when neither the request nor a foreign key refuses it, and then appends exactly the rows; a refusal changes nothing |
| CreateEvent.AfterInserts | src/api/events/createEvent.ts:51-145 | after the event and subjects, only participant rows are added, behind the existing ones, each for the new event and tree with a non-blank individual and role; a thrown error adds none |
| CreateEvent.Create | src/api/events/createEvent.ts:13-146 | a call that succeeds returns the new event's id; a failed event request throws its error and writes nothing; an event row whose foreign keys do not hold is refused with that constraint's error and writes nothing; individuals, roles and event types never change |
| CreateEvent.InsertsAccepted | src/api/events/createEvent.ts:15-49 | once the event and subject inserts are accepted, the tables hold exactly the new event and one subject row per kept subject, and the call goes on from there |
| CreateEvent.UnknownTypeWritesNothing | src/api/events/createEvent.ts:15-30 | an event type no row has makes the call throw `events_type_id_fkey` before anything is written |
| CreateEvent.UnknownSubjectKeepsBareEvent | src/api/events/createEvent.ts:37-49 | a kept subject naming no individual makes the call throw after the event row, which stays without any subject |
| CreateEvent.CreateWritesEventAndSubjects | src/api/events/createEvent.ts:15-49 | once the event and subject inserts are accepted, the event row and one subject row per kept subject are appended whatever happens later, and no table but the participants changes otherwise |
| CreateEvent.NewEventSubjects | src/api/events/createEvent.ts:33-46 | once the event and subject inserts are accepted, an individual becomes a subject of the new event exactly when it was given and is not blank |
| CreateEvent.MissingSubjectRoleThrows | src/api/events/createEvent.ts:69-73 | without a "subject" role in the tree the call throws "Subject role not found" after the event and subjects are written, and no participant is written |
| CreateEvent.ParticipantsAreValid | src/api/events/createEvent.ts:121-143 | existing participants stay in place; every appended participant is for the new event and tree, with a non-blank individual and role |
| CreateEvent.SubjectsParticipate | src/api/events/createEvent.ts:108-116 | outside a two-subject marriage every kept subject participates with the subject role |
| CreateEvent.CreateSucceeds | src/api/events/createEvent.ts:13-145 | with every request answered, every row it names present, the type found once and a subject role, the call returns the new id and appends exactly the participant rows derived |
| CreateEvent.HandGivenWritten | src/api/events/createEvent.ts:118-136 | a hand-given participant naming both an individual and a role gets its row |
| CreateEvent.UnknownParticipantRefused | src/api/events/createEvent.ts:138-142 | a participant row naming an individual or a role that does not exist makes the participants insert fail |
| CreateEvent.UnknownParticipantWritesNone | src/api/events/createEvent.ts:118-143 | a hand-given participant naming no existing individual or role makes the call throw with no participant row written |
| CreateEvent.HandGivenParticipantsLast | src/api/events/createEvent.ts:118-136 | the rows are the valid derived participants, then the valid hand-given ones, in order |
| CreateEvent.MarriageSpouses | src/api/events/createEvent.ts:78-107 | for a marriage of two subjects the first male gets the husband role and the first female the wife role, one row each when found, and nothing else is derived |
| DeleteIndividual.SubjectEventIds | src/api/individuals/deleteIndividual.ts:14-18 | the events listed are exactly those with a subject row for this individual in this tree |
| DeleteIndividual.ForEvent | src/api/individuals/deleteIndividual.ts:24-71 | with one subject the tree's event, its participants and its subjects are deleted and nothing else; otherwise only this individual's subject row of that event goes; individuals, names and children never change |
| DeleteIndividual.ForEvents | src/api/individuals/deleteIndividual.ts:23-72 | the loop over the events never touches individuals, names or family children |
| DeleteIndividual.ForEventKeepsOtherSubjects | src/api/individuals/deleteIndividual.ts:34-71 | handling one event leaves the subject rows of every other event as they were, so later counts are unaffected |
| DeleteIndividual.ForEventsEffect | src/api/individuals/deleteIndividual.ts:23-72 | over distinct events, an event with one subject at its turn goes with its participants and subjects; otherwise only this individual's subject row goes; events not visited keep their subjects |
| DeleteIndividual.SubjectEventIdsDistinct | src/api/individuals/deleteIndividual.ts:14-18 | without duplicate subject rows for the individual, no event is visited twice |
| DeleteIndividual.RemovedIffSole | src/api/individuals/deleteIndividual.ts:33-34 | an event is deleted exactly when this individual is its only subject |
| DeleteIndividual.OtherSubjectKeepsEvent | src/api/individuals/deleteIndividual.ts:61-71 | an event with another subject is not deleted |
| DeleteIndividual.DeleteEffect | src/api/individuals/deleteIndividual.ts:12-93 | when no call fails: the individual goes; exactly the events it was the only subject of go; all its subject and participant rows go, with the participants of the deleted events; nothing else changes |
| DeleteIndividual.DeleteLeavesNoTrace | src/api/individuals/deleteIndividual.ts:74-90 | when no call fails, even with duplicate rows no row of the individual is left, and no other tree's row is touched |
| DeleteIndividual.ForEventsBounds | src/api/individuals/deleteIndividual.ts:23-72 | the loop only deletes, leaves no subject row of the individual for a visited event, and keeps every other tree's rows |
| DeleteIndividual.DuplicateRowKeepsEvent | src/api/individuals/deleteIndividual.ts:25-34 | when no call fails, a subject row recorded twice counts as two subjects: the event stays, now without subjects |
| DeleteIndividual.Unlink | src/api/individuals/deleteIndividual.ts:74-79 | the participants delete only removes rows of this tree and touches no other table |
| DeleteIndividual.RemoveIndividual | src/api/individuals/deleteIndividual.ts:83-88 | exactly the individual's row goes from the individuals (with its names and family links by the cascade); events, subjects and participants are untouched |
| DeleteIndividual.VisitEvents | src/api/individuals/deleteIndividual.ts:23-72 | the loop with failing calls (count at line 31, deletes at 42, 51, 60 and 70): it succeeds exactly when no call inside it fails, and then ends as the loop without failures does, after the number of calls that loop makes; a failing call's error is thrown; either way only rows of this tree were removed and individuals, names and family links are intact |
| DeleteIndividual.Delete | src/api/individuals/deleteIndividual.ts:12-93 | the whole function with failing calls (throws at lines 20, 31, 42, 51, 60, 70, 81, 90): it succeeds exactly when none of its calls fails, and then ends in the completed state; otherwise it throws the failing call's error, keeping the earlier deletes but never removing the individual, its names or family links; a failing first select changes nothing |
| DisplayName.OrEmpty | src/utils/displayName.ts:32-33 | `field \|\| ""`: the field when present, "" otherwise |
| DisplayName.Chosen | src/utils/displayName.ts:29-30 | the record used is one of the list; it is primary unless none is, and without a primary it is the first |
| DisplayName.PartOf | src/utils/displayName.ts:32-37 | first and last give that field or ""; full and inverted are the two names joined by " " or ", " with the white space at both ends removed; the full form is "" exactly when both names are blank, and the inverted form always keeps its comma |
| DisplayName.Show | src/utils/displayName.ts:12-46 | nothing and an empty array give ""; an array gives the part of its first primary record, or of its first record when none is primary; a single record gives its own part |
| DisplayName.ChosenIndex | src/utils/displayName.ts:29-30 | the record used sits at the first primary index, or at index 0 when no record is primary |
| DisplayName.TrimStrips | src/utils/displayName.ts:35-37 | `.trim()` leaves a slice with only white space around it and none at its own ends |
| DisplayName.BlankJoin | src/utils/displayName.ts:37 | two names joined by a space are blank exactly when both are |
| DisplayName.CommaSurvives | src/utils/displayName.ts:35 | the comma of the inverted form is kept by the trim |
| DisplayName.ShowsFirstPrimary | src/utils/displayName.ts:29-30 | of several primary records the first one is shown |
| DisplayName.ShowsFirstWithoutPrimary | src/utils/displayName.ts:30 | without a primary record the first record is shown |
| DisplayName.OneIsSingletonArray | src/utils/displayName.ts:25-45 | a single record shows as the array holding only it, whatever the part |
| DisplayName.NoNameParts | src/utils/displayName.ts:35-37 | a record with neither name shows "" in full but "," inverted, since the comma survives the trim |
| DisplayName.FullOfBoth | src/utils/displayName.ts:37 | with both names present and trimmed, the full name is first, a space, last |
| DisplayName.InvertedOfBoth | src/utils/displayName.ts:35 | with both names present and trimmed, the inverted name is last, a comma and a space, first |
| ErrorState.Classify | src/ui/components/system/ErrorState.tsx:11-49 | the lowercased message is not found when it includes "not_found" or "404"; otherwise network for "network"/"fetch"; otherwise database for "database"/"sql"; otherwise permission for "permission"/"denied"; else unknown |
| ErrorState.Info | src/ui/components/system/ErrorState.tsx:10-56 | the kind is the classification; only not found is orange, the rest red; the unknown kind has the generic title and shows the message, or the stock text when it is empty; every other kind its own title |
| ErrorState.UnknownShowsNoRawMessage | src/ui/components/system/ErrorState.tsx:50-56 | for an unrecognised message the raw message is shown below exactly when it is empty, as the text already is the message |
| ErrorState.ClassifyIgnoresCase | src/ui/components/system/ErrorState.tsx:11 | upper- or lowercasing the message does not change its kind |
| ErrorState.AppendKeepsEarlierRule | src/ui/components/system/ErrorState.tsx:13-49 | text appended to a message keeps a not-found message not found and a recognised message recognised |
| TableColumns.Configure | src/components/individuals/IndividualsTable/columns.tsx:128-144 | a column is dropped exactly when its config sets `visible` to false; otherwise it keeps its id, takes the config's width when that is set and not 0, and is unchanged when none is |
| TableColumns.ConfigureIdempotent | src/components/events/EventsTable/columns.tsx:76-92 | applying the same config twice gives what applying it once gives |
| TableColumns.WithActions | src/components/events/EventsTable/columns.tsx:135-138 | the data columns are kept as a prefix; one more column, the actions column, follows exactly when a delete handler is given |
| TableColumns.PresentColumns | src/components/events/EventsTable/columns.tsx:129-132 | the columns kept are those of the listed ids whose config does not hide them, in the listed order, each configured from its base column |
| EventColumns.DataColumnsShape | src/components/events/EventsTable/columns.tsx:111-133 | the data columns are the configured columns of `showColumns` when given, else of the default order without the hidden ids, dropping those the config hides, in that order |
| EventColumns.ActionsLast | src/components/events/EventsTable/columns.tsx:135-140 | the actions column comes last, only with a delete handler, and never among the data columns |
| EventColumns.DefaultShowsAll | src/components/events/EventsTable/columns.tsx:126-133 | without any option the table shows type, date, subjects and place, in that order |
| EventColumns.SubjectsCell | src/components/events/EventsTable/columns.tsx:28-31 | no subjects show "Unknown"; otherwise no comma is left, and a single name is shown as is |
| EventColumns.SubjectsCellJoins | src/components/events/EventsTable/columns.tsx:30 | names joined with commas are shown joined with " •" |
| EventColumns.CellsNeverBlank | src/components/events/EventsTable/columns.tsx:11-14 | the type and place cells are never blank; an empty type shows "Unknown", and a place cell reads "Unknown" both for no place and for a place of that name |
| IndividualColumns.DataColumns | src/components/individuals/IndividualsTable/columns.tsx:173-222 | every column before the actions column is a data column |
| IndividualColumns.ShownIds | src/components/individuals/IndividualsTable/columns.tsx:176-203 | with `showColumns` the ids are name and role arranged by the four cases, around the other listed ids the config does not hide |
| IndividualColumns.ArrangedMembers | src/components/individuals/IndividualsTable/columns.tsx:177-203 | the name column is shown exactly when listed and not hidden, and so is the role column |
| IndividualColumns.ArrangedOthers | src/components/individuals/IndividualsTable/columns.tsx:190-198 | the other columns keep the order they are listed in |
| IndividualColumns.ArrangedPositions | src/components/individuals/IndividualsTable/columns.tsx:180-203 | the name column can only be first; the role column is second after the name column and last without it |
| IndividualColumns.ShowColumnsOrder | src/components/individuals/IndividualsTable/columns.tsx:176-203 | with `showColumns`: name and role shown exactly when listed and not hidden, name first, role right after it or else last, the others in listed order |
| IndividualColumns.DefaultColumnsOrder | src/components/individuals/IndividualsTable/columns.tsx:204-222 | without `showColumns` the columns are the default order without the hidden and config-hidden ids, each configured |
| IndividualColumns.DefaultStartsWithNameRole | src/components/individuals/IndividualsTable/columns.tsx:207-213 | with name and role neither hidden nor config-hidden, the default columns start with name then role |
| IndividualColumns.DefaultNameThenRole | src/components/individuals/IndividualsTable/columns.tsx:204-222 | in the default order, whenever both name and role are shown they are the first two columns |
| IndividualColumns.RoleFollowsName | src/components/individuals/IndividualsTable/columns.tsx:175-222 | whichever option is used, when both name and role are shown, name is first and role second |
| IndividualColumns.ActionsLast | src/components/individuals/IndividualsTable/columns.tsx:224-228 | the actions column comes last, only with a delete handler, and never among the data columns |
| IndividualColumns.NamePart | src/components/individuals/IndividualsTable/columns.tsx:14-15 | the name is inverted exactly when the first sort key is `last_name`, and full otherwise |
| IndividualColumns.NameCellOrder | src/components/individuals/IndividualsTable/columns.tsx:13-17 | no names show ""; a chosen name with both parts shows "last, first" while sorted by last name and "first last" otherwise |
| IndividualOptions.Options | src/components/FamilyForm.tsx:118-148 | none while loading; otherwise exactly the listed individuals of the asked gender, when one is asked, whose id is not excluded |
| IndividualOptions.OptionsKeepOrder | src/components/FamilyForm.tsx:122-140 | the options keep the list's order, and with no gender and nothing to exclude they are the whole list |
| IndividualOptions.SublistOfItself | src/components/FamilyForm.tsx:122-140 | a list without anything filtered out is a sublist of itself, so the unfiltered case keeps the order |
| IndividualOptions.SublistTransitive | src/components/FamilyForm.tsx:126-137 | filtering twice keeps the order, as a sublist of a sublist is a sublist |
| FamilyForm.Validate | src/components/FamilyForm.tsx:77-91 | both parent fields fail, with the same message, exactly when neither parent is chosen; the type fails exactly when empty |
| FamilyForm.ValidIffParentAndType | src/components/FamilyForm.tsx:77-91 | a form passes exactly when it has a parent and a type; the children never matter |
| FamilyForm.FamilyTypeOptions | src/components/FamilyForm.tsx:34-49 | one option per `family_type` value, in declaration order, with distinct values and labels |
| FamilyForm.ResetValues | src/components/FamilyForm.tsx:98-104 | the reset form has no parents and no children and one of the family types |
| FamilyForm.ResetNeedsOnlyAParent | src/components/FamilyForm.tsx:68-104 | the reset type is the first option and passes; the reset form fails only for want of a parent, and either parent is enough |
| FamilyForm.HusbandOptions | src/components/FamilyForm.tsx:182 | the husband picker offers exactly the males other than the chosen wife |
| FamilyForm.WifeOptions | src/components/FamilyForm.tsx:196 | the wife picker offers exactly the females other than the chosen husband |
| FamilyForm.ChildOptions | src/components/FamilyForm.tsx:150-157 | the child picker offers everyone but the chosen parents |
| FamilyForm.PickersExcludeChosen | src/components/FamilyForm.tsx:150-196 | a chosen parent is never offered as a child nor as the other parent, and nobody is offered as both husband and wife |
| FamilyForm.NoParentsAllChildren | src/components/FamilyForm.tsx:150-157 | with no parent chosen every individual is offered as a child, in list order |
| EventForm.Validate | src/components/EventForm.tsx:107-109 | the form fails, with "Event type is required", exactly when no type is chosen |
| EventForm.ResetValues | src/components/EventForm.tsx:156-164 | the reset form has no type, no subjects and no participants |
| EventForm.ResetNeedsAType | src/components/EventForm.tsx:152-166 | a form reset after "create another" cannot be submitted until a type is chosen, and choosing one suffices; any other submit keeps the values |
| EventForm.IsMarriageType | src/components/EventForm.tsx:113-115 | the type is a marriage exactly when the first type with that id has the key "marriage" |
| EventForm.FirstIndex | src/components/EventForm.tsx:113-115 | `find` gives the type at the first index holding the id, and only that one |
| EventForm.FirstMatch | src/components/EventForm.tsx:113-115 | when some type has the id there is a first index holding it |
| EventForm.GenderOf | src/components/EventForm.tsx:90-94 | a gender found belongs to a listed individual with that id |
| EventForm.SubjectSlots | src/components/EventForm.tsx:116-141 | a marriage gets two slots: a preselected male first, a preselected female or other known gender second, else both empty; any other type gets one slot with the preselected individual or "" |
| EventForm.OnValuesChange | src/components/EventForm.tsx:111-143 | only a change of type touches the subjects, and then they become the slots for the new type; nothing else in the form changes |
| EventForm.PickerOptions | src/components/EventForm.tsx:179-217 | none while loading; otherwise the individuals the gender and exclusion filters allow, without the preselected one outside the subject pickers |
| EventForm.PreselectedSlotOffered | src/components/EventForm.tsx:116-130 | a preselected male fills the husband slot and the husband picker offers him; a preselected female fills the wife slot and the wife picker offers her |
| EventForm.ParticipantPickerExcludes | src/components/EventForm.tsx:201-206 | a participant picker never offers a chosen subject nor the preselected individual |
| EventForm.RoleOptions | src/components/EventForm.tsx:219-272 | none while loading; otherwise exactly the roles offered for the selected individual's gender |
| EventForm.NoSubjectRoles | src/components/EventForm.tsx:229-235 | the subject, husband and wife roles are never offered |
| EventForm.NonSystemNotFiltered | src/components/EventForm.tsx:237-266 | every role that is neither a subject role nor a system role is offered |
| EventForm.SystemRolesByGender | src/components/EventForm.tsx:237-266 | a system role is hidden from a male exactly when female-only, from a female exactly when male-only, and from nobody else |
| EventPage.StartEditEvent | src/pages/EventPage.tsx:54-64 | nothing without a loaded event; otherwise the buffer holds the event's type, date, description, place and gedcom id |
| EventPage.UntouchedEditChangesNothing | src/pages/EventPage.tsx:54-64 | saving the buffer unchanged writes the event back as it was |
| EventPage.HandleAddParticipant | src/pages/EventPage.tsx:99-111 | a participant is sent exactly when both an individual and a role are chosen, as chosen; otherwise the alert asks for both |
| EventPage.ResetFormNeedsChoices | src/pages/EventPage.tsx:99-111 | the reset form, or one with only an individual, is not sent; with both chosen it is sent for this event |
| EventPage.CreatedDate | src/pages/EventPage.tsx:345-355 | a string is parsed as a date, a number becomes milliseconds, anything else is shown raw |
| EventPage.SecondsRoundTrip | src/pages/EventPage.tsx:347-352 | a number up to 10^10 is read as seconds: it becomes whole milliseconds that give it back |
| EventPage.MillisStable | src/pages/EventPage.tsx:347-352 | from 10^7 on, converting a converted value changes nothing more |
| EventPage.ThresholdJump | src/pages/EventPage.tsx:347-352 | the conversion is not monotonic: the last value read as seconds comes out later than the first read as milliseconds |
| EventTitles.TitleStartsWithType | src/utils/events.ts:38-58 | every title starts with the capitalised type name and " - "; without a type name the heading is the capitalised "Event" |
| EventTitles.UnnamedSubject | src/utils/events.ts:39-43 | an individual event whose subject has no names is titled by its heading alone |
| EventTitles.LoneSpouseEitherSide | src/utils/events.ts:49-55 | a family with one spouse gets the same title whether that spouse is the husband or the wife |
| EventTitles.Request | src/pages/events/index.tsx:65-75 | the request asks for the 1-based page of the state's 0-based index, with its search text and sort, descending exactly when the sort is; without a sort, by date ascending |
| EventTitles.FirstRequest | src/pages/events/index.tsx:65-98 | the table's first request is page 1, no search, by date ascending |
| EventTitles.SortingChangeRequestsFirstPage | src/pages/events/index.tsx:65-75 | after any change of sorting the next request is for page 1 with the same search |
| EventsPage.RoleWithKey | src/pages/EventsPage.tsx:102-103 | a role found is one of the roles and has the key; none is found exactly when no role has it |
| EventsPage.BranchOf | src/pages/EventsPage.tsx:91-164 | the marriage branch is taken exactly for a marriage with a spouse chosen, the subject branch for another type with a subject chosen, and the basic branch otherwise |
| EventsPage.HandleCreate | src/pages/EventsPage.tsx:85-164 | no type alerts; the basic call is made exactly in the basic branch; the subject call exactly with a subject role found; the marriage call exactly for distinct spouses with both spouse roles found; each alert has its message; every call carries the form's event |
| EventsPage.MarriageSpousesInOrder | src/pages/EventsPage.tsx:112-119 | the marriage call passes one or two spouses, the husband first and the wife second, never the same individual twice |
| EventsPage.ChosenOnlySendsChosen | src/pages/EventsPage.tsx:91-143 | corrected, every individual the page passes on was chosen |
| EventsPage.BothSlotsSendsEmptyWife | src/pages/EventsPage.tsx:112-119 | as written, a marriage with only a husband chosen passes the wife's slot with an empty id |
| EventsPage.EmptyWifeRefused | src/lib/events.ts:329-355 | for that call `createMarriage` writes the event and the husband's participant, then the wife's insert for the individual "" breaks the foreign key to `individuals`: the call is rejected and the marriage is left with the husband alone |
| EventsPage.IndividualLabel | src/pages/EventsPage.tsx:171-184 | an unlisted id is "Unknown Individual"; otherwise the first listed individual's given primary name parts, joined by a space, or else "Individual #" and its gedcom id, or the first eight characters of its id |
| EventsPage.NumberedReadsBack | src/pages/EventsPage.tsx:183 | the fallback label starts with "Individual #" and the gedcom id, when there is one, parses back from the rest; otherwise the rest is a prefix of the id of at most eight characters |
| EventsPage.LabelOfFirstListed | src/pages/EventsPage.tsx:172 | listing another individual later does not change a label already found |
| EventTitles.TypeLabel | src/utils/events.ts:40-45 | `name \|\| "Event"`: never empty; a non-empty name is used as it is, and anything but "Event" comes from the name |
| EventTitles.Heading | src/utils/events.ts:38-58 | the heading every title starts with ends in " - " |
| EventTitles.FetchTableData | src/pages/events/index.tsx:65-80 | the table receives the page and total of the `fetchEvents` response for the state's request, unchanged |
| EventTitles.FirstFetch | src/pages/events/index.tsx:65-98 | the table's first load fetches page 1 of all events, by date ascending |
| EventsPaging.Params | src/api/fetchEventsFiltered.ts:28-37 | no search text exactly for an empty query, else the query; the page as given; sort field and direction default to "date" and "desc" when absent or empty; no place filter exactly for a missing or empty place id |
| EventsPaging.PageAtMostTen | src/api/fetchEventsFiltered.ts:61-64 | a page never holds more than ten events |
| EventsPaging.PageContents | src/api/fetchEventsFiltered.ts:61-64 | page p (from 1) holds the events from index 10(p-1) on, ten of them or as many as are left |
| EventsPaging.ElementOnItsPage | src/api/fetchEventsFiltered.ts:61-64 | the event at index i is on page i/10+1, at position i mod 10 |
| EventsPaging.PageZeroEmpty | src/api/fetchEventsFiltered.ts:62-64 | page 0 is empty: `slice(-10, 0)` |
| EventsPaging.NegativePageFromEnd | src/api/fetchEventsFiltered.ts:62-64 | a negative page counts from the end of the rows, as `slice` does with negative bounds |
| EventsPaging.FirstPagesArePrefix | src/api/fetchEventsFiltered.ts:61-68 | the first k pages, one after the other, are the first 10k events (or all of them): nothing is skipped or repeated |
| EventsPaging.FetchEventsFiltered | src/api/fetchEventsFiltered.ts:13-70 | an error is thrown as is; no rows give an empty page of total 0; otherwise the page is cut from the rows and the total is the number of rows |
| FamilySearch.SearchFilterClauses | src/api/fetchFamilies.ts:12-20 | for a query without commas the filter splits back into the five `ilike` clauses, one per searched column, in order |
| FamilySearch.CommaInQueryBreaksClauses | src/api/fetchFamilies.ts:12-20 | a comma in the query splits the filter into pieces other than the five clauses |
| FamilySearch.OrderOf | src/api/fetchFamilies.ts:62-69 | by the given field, ascending exactly for "asc"; by husband's last name ascending without a sort |
| FamilySearch.ViewQueryOf | src/api/fetchFamilies.ts:46-73 | a search filter exactly for a non-empty query, built from it; the order as above; a range of `end - start` rows |
| FamilySearch.RestoreFollowsIds | src/api/fetchFamilies.ts:116-118 | the families come back in the order of the sorted ids, skipping ids not fetched, each the first family with its id |
| FamilySearch.RestoreAllFetched | src/api/fetchFamilies.ts:116-118 | when every id was fetched, the ids of the result are exactly the sorted ids |
| FamilySearch.FetchFamilies | src/api/fetchFamilies.ts:30-124 | each query's error is thrown in turn; no ids or no families give an empty page; otherwise the fetched families in id order; the total is `count \|\| 0` |
| FamilySearch.FetchFamiliesInIdOrder | src/api/fetchFamilies.ts:113-123 | a non-empty page is the fetched families in the order of the sorted ids |
| FetchJoins.GedcomText | src/api/families/fetchFamilies.ts:68 | the text starts with the prefix and a dash and has at least four characters after it |
| FetchJoins.GedcomTextDigits | src/api/families/fetchFamilies.ts:68 | for a non-negative id what follows the dash is at least four digits reading back as the id, without a leading zero past four |
| FetchJoins.GedcomTextInjective | src/api/families/fetchFamilies.ts:68 | different non-negative ids never share a GEDCOM text |
| FetchJoins.EventGedcomTextInjective | src/api/events/fetchEvents.ts:63 | an event's text starts with "E-", and different non-negative or missing ids never share one ("E-undefined" for a missing one) |
| FetchJoins.Lookup | src/api/families/fetchFamilies.ts:52-57 | an individual found is a listed one with the id; none is found exactly for a missing id or one nobody listed has |
| FetchJoins.SelectFamilies | src/api/families/fetchFamilies.ts:15-19 | without ids every family; with ids exactly the families whose husband or wife is among them |
| FetchJoins.SpouseIds | src/api/families/fetchFamilies.ts:37-42 | the spouse ids are exactly the non-null husband and wife ids of the families |
| FetchJoins.MemberIds | src/api/families/fetchFamilies.ts:37-44 | the ids looked up are exactly the spouses' and the children's |
| FetchJoins.FamilyOf | src/api/families/fetchFamilies.ts:51-72 | a family keeps its id, gets its "F-" text, its husband and wife looked up by id, and as children exactly the listed individuals linked to it, in list order |
| FetchJoins.FetchFamilies | src/api/families/fetchFamilies.ts:51-73 | fails exactly when a family has no GEDCOM id; otherwise one joined family per row, in row order |
| FetchJoins.FetchedFamily | src/api/families/fetchFamilies.ts:51-72 | each joined family has its row's id, an "F-" text, a husband or wife exactly when one with that id was listed, and its linked children |
| FetchJoins.ParticipantIds | src/api/events/fetchEvents.ts:51-53 | the ids looked up are exactly the participants' of all events |
| FetchJoins.JoinParticipants | src/api/events/fetchEvents.ts:66-79 | at most one participant per link, each a listed individual with a link in that role |
| FetchJoins.JoinParticipantsKeepsFound | src/api/events/fetchEvents.ts:66-79 | the participants are the links whose individual was found, in link order, each the first individual with its id |
| FetchJoins.AllFoundKeepsEveryone | src/api/events/fetchEvents.ts:66-79 | when every participant is found none is dropped |
| FetchJoins.EventOf | src/api/events/fetchEvents.ts:59-80 | an event keeps its id, date, place and type, gets its "E-" text and its joined participants |
| FetchJoins.FetchEvents | src/api/events/fetchEvents.ts:59-81 | one joined event per row, in row order |
| FamilySearch.BuildSearchFilter | src/api/fetchFamilies.ts:12-20 | the filter contains the case-insensitive substring clause `<column>.ilike.%<query>%` for each of the five searched columns |
| NameEditor.InitialNames | src/pages/IndividualsPage.tsx:49-59 | a new form holds one empty birth name, and it is the primary one |
| NameEditor.AddName | src/pages/IndividualsPage.tsx:109-114 | adding appends one empty, non-primary birth name and keeps the names before it |
| NameEditor.AddNameKeepsPrimary | src/pages/IndividualsPage.tsx:109-114 | the primary name stays the only primary one after a name is added |
| NameEditor.SetPrimary | src/pages/IndividualsPage.tsx:151-160 | every name keeps its text, and the name at the chosen index is the only primary one |
| NameEditor.SetPrimaryMakesSole | src/pages/IndividualsPage.tsx:151-160 | for an index in range, the chosen name becomes the sole primary |
| NameEditor.SetPrimaryIdempotent | src/pages/IndividualsPage.tsx:151-160 | choosing the same primary twice changes nothing more |
| NameEditor.Without | src/pages/IndividualsPage.tsx:117 | an index in range is dropped and the others close up in order; any other index leaves the list as it was |
| NameEditor.RemoveName | src/pages/IndividualsPage.tsx:116-135 | fails exactly when a non-empty list is given an index out of range; removing the last name leaves one fresh primary name; removing the primary makes the first remaining name primary; removing another name keeps the rest as they were |
| NameEditor.RemoveNameKeepsSolePrimary | src/pages/IndividualsPage.tsx:116-135 | a list with a sole primary keeps one after any removal, at the index the rule predicts |
| NameEditor.UpdateName | src/pages/IndividualsPage.tsx:137-149 | only the name at the index changes, and only in the edited field |
| NameEditor.TextEditKeepsPrimary | src/pages/IndividualsPage.tsx:137-149 | editing a type, first or last name keeps the sole primary where it was |
| NameEditor.UpdateNameSameValue | src/pages/IndividualsPage.tsx:137-149 | writing a field's current value back leaves the names unchanged |
| NameEditor.CountZeroIffNone | src/pages/IndividualsPage.tsx:82-85 | no name is counted as primary exactly when none is marked primary |
| NameEditor.SolePrimaryCount | src/pages/IndividualsPage.tsx:82-85 | a list with a sole primary counts exactly one |
| NameEditor.CountOneSole | src/pages/IndividualsPage.tsx:82-85 | a list counting exactly one primary has a sole primary |
| NameEditor.FilterPrimaryCount | src/pages/IndividualsPage.tsx:76-78 | dropping names never adds a primary |
| NameEditor.EnsurePrimary | src/pages/IndividualsPage.tsx:80-86 | the kept names keep their text; if one is primary nothing changes, otherwise the first becomes the only primary |
| NameEditor.PartOrNull | src/pages/IndividualsPage.tsx:93-94 | a blank part is sent as null, any other as its trimmed, non-empty text |
| NameEditor.Kept | src/pages/IndividualsPage.tsx:76-78 | exactly the names with a non-blank first or last name are kept |
| NameEditor.Submit | src/pages/IndividualsPage.tsx:72-103 | one name is created per kept name, each with a first or a last name |
| NameEditor.SubmitFields | src/pages/IndividualsPage.tsx:88-97 | each created name carries its kept name's type and trimmed-or-null parts, and its primary flag, or the first one is primary when none was |
| NameEditor.SubmitHasSolePrimary | src/pages/IndividualsPage.tsx:72-103 | from a form with a sole primary, whatever is created has exactly one primary, and it is the form's primary when that was filled in |
| NameEditor.FilledPrimaryCreated | src/pages/IndividualsPage.tsx:72-103 | a filled-in primary name is created as the sole primary |
| NameEditor.BlankPrimaryDropped | src/pages/IndividualsPage.tsx:80-86 | when the primary name was left blank, the first created name becomes the sole primary |
| NameSort.CompareWithEmpty | src/components/TableIndividuals/TableIndividuals.tsx:65-78 | two blank names compare equal; a blank name sorts after a filled one; two filled names compare by text, reversed when descending, equal only when the same |
| NameSort.CompareWithEmptyAntisymmetric | src/components/TableIndividuals/TableIndividuals.tsx:65-78 | swapping the two names negates the result |
| NameSort.DescReverses | src/components/TableIndividuals/TableIndividuals.tsx:65-78 | descending reverses the order of filled names but still puts blank ones last |
| NameSort.CompareWithEmptyTransitive | src/components/TableIndividuals/TableIndividuals.tsx:65-78 | the order is transitive, blank names included |
| NameSort.ConsistentLe | src/components/TableIndividuals/TableIndividuals.tsx:80-123 | an antisymmetric and transitive comparator gives a total, transitive "sorts before" |
| NameSort.ByNameConsistent | src/components/TableIndividuals/TableIndividuals.tsx:65-78 | comparing records by one name is a consistent comparator |
| NameSort.ByTextConsistent | src/components/tables/TablePlaces/TablePlaces.tsx:57-63 | comparing records by plain text, either way round, is a consistent comparator |
| NameSort.ThenConsistent | src/components/TableIndividuals/TableIndividuals.tsx:86-91 | falling back to a second comparator on a tie keeps the comparator consistent |
| NameSort.TwoNamesConsistent | src/components/TableIndividuals/TableIndividuals.tsx:86-119 | the last-then-first and first-then-last orders, ascending or descending, are consistent |
| NameSort.SortedByConsistent | src/components/TableIndividuals/TableIndividuals.tsx:80-123 | sorting with a consistent comparator keeps the same individuals and puts them in its order |
| TableIndividuals.ComparatorConsistent | src/components/TableIndividuals/TableIndividuals.tsx:80-123 | each of the four name orders, and the tie of an unrecognised order, is a consistent comparator |
| TableIndividuals.Kept | src/components/TableIndividuals/TableIndividuals.tsx:46-62 | a row is kept exactly when it was fetched, matches the search if there is one, and has the chosen gender unless all are shown |
| TableIndividuals.ShownOrdered | src/components/TableIndividuals/TableIndividuals.tsx:41-126 | the rows shown are the kept rows, ordered by the order's first name part and, on a tie, by the second, blank parts last |
| TableIndividuals.EmptyPrimaryLast | src/components/TableIndividuals/TableIndividuals.tsx:65-91 | once a row with a blank sorting name is shown, every row after it has a blank sorting name too |
| TableIndividuals.UnrecognisedKeepsOrder | src/components/TableIndividuals/TableIndividuals.tsx:121-123 | an unrecognised order shows the kept rows in the order they were fetched |
| TableFamilies.FromNamesArray | src/components/TableFamilies/TableFamilies.tsx:34-41 | a spouse's names array is absent exactly when the family has no such spouse |
| TableFamilies.FromSpouseObject | src/components/tables/TableFamilies/TableFamilies.tsx:34-41 | a spouse object is read as a one-name list, absent exactly when there is no such spouse |
| TableFamilies.SpouseObjectAsSingletonArray | src/components/tables/TableFamilies/TableFamilies.tsx:55-81 | reading a spouse object gives the same sorting name as the array holding just that record |
| TableFamilies.ModeOfHusband | src/components/TableFamilies/TableFamilies.tsx:99-153 | each husband order's name is recognised as that order |
| TableFamilies.ModeOfWife | src/components/TableFamilies/TableFamilies.tsx:155-209 | each wife order's name is recognised as that order |
| TableFamilies.ModeOfSortName | src/components/TableFamilies/TableFamilies.tsx:99-211 | the eight order names and the eight orders correspond one to one |
| TableFamilies.ComparatorConsistent | src/components/TableFamilies/TableFamilies.tsx:54-212 | every family order, and the tie of an unrecognised one, is a consistent comparator |
| TableFamilies.Kept | src/components/TableFamilies/TableFamilies.tsx:32-52 | a family is kept exactly when it was fetched and matches the search, if there is one |
| TableFamilies.ShownOrdered | src/components/TableFamilies/TableFamilies.tsx:27-214 | the families shown are the kept ones, ordered by the chosen spouse's chosen name part and, on a tie, by the other part |
| TableFamilies.MissingSpouseLast | src/components/TableFamilies/TableFamilies.tsx:84-97 | after a family without the sorting spouse, every family has a blank sorting name |
| TableFamilies.UnrecognisedKeepsOrder | src/components/TableFamilies/TableFamilies.tsx:211-214 | an unrecognised order shows the kept families in fetched order |
| TablePlaces.Kept | src/components/tables/TablePlaces/TablePlaces.tsx:45-55 | a place is kept exactly when it was fetched, has the chosen type unless all are shown, and its name contains the search, ignoring case |
| TablePlaces.NameOrdersSort | src/components/tables/TablePlaces/TablePlaces.tsx:57-63 | the two name orders show the kept places, by name ascending or descending |
| TablePlaces.IdOrdersKeepOrder | src/components/tables/TablePlaces/TablePlaces.tsx:40-66 | the other orders show the kept places in fetched order |
| TableEvents.Kept | src/components/tables/TableEvents/TableEvents.tsx:46-54 | an event is kept exactly when it was fetched, has the chosen type unless all are shown, and its title contains the search, ignoring case |
| TableEvents.DateLeTotalTransitive | src/components/tables/TableEvents/TableEvents.tsx:56-62 | read as "not after", each date comparator is total and transitive |
| TableEvents.Shown | src/components/tables/TableEvents/TableEvents.tsx:41-65 | the events shown are the kept events, rearranged |
| TableEvents.ShownByDate | src/components/tables/TableEvents/TableEvents.tsx:56-62 | dated events come in date order, reversed for the descending order, and an undated event sits next to dated ones only where the comparator calls them equal |
| TableEvents.KeptIsSublist | src/components/tables/TableEvents/TableEvents.tsx:44-54 | the kept events are fetched events, in fetched order |
| TableData.Initial | src/components/table-data/TableData.tsx:30-40 | a table starts on the first page of ten, with no search, sorted by the default or else ascending by the first column |
| TableData.SortingList | src/components/table-data/TableData.tsx:81 | the sorting handed to the table is empty exactly when there is none, and otherwise just that column |
| TableData.Toggled | src/components/table-data/TableData.tsx:96-99 | toggling keeps the column and flips the direction |
| TableData.OnSortingChange | src/components/table-data/TableData.tsx:86-106 | a requested sorting takes its first column; an empty request flips the current direction; the page goes back to the first and the search is kept |
| TableData.OnPaginationChange | src/components/table-data/TableData.tsx:108-117 | the pagination becomes the requested one and nothing else changes |
| TableData.OnGlobalFilterChange | src/components/table-data/TableData.tsx:119-124 | the search becomes the typed text and nothing else changes |
| TableData.OnDebouncedFilter | src/components/table-data/TableData.tsx:45-50 | a settled search sends the table back to the first page and changes nothing else |
| TableData.FetchState | src/components/table-data/TableData.tsx:57-59 | the rows are fetched with the settled search in place of the typed one |
| TableData.CeilDiv | src/components/table-data/table-data.tsx:59 | the least number of pages of the given size that hold the count |
| TableData.PageCount | src/components/table-data/TableData.tsx:67 | no pages before a response; then the fewest pages of ten that hold every row |
| TableData.PagesHoldTotal | src/components/table-data/TableData.tsx:64-70 | the pages hold the count the table reports, a positive count has a page, and before a response there are no rows, pages or count |
| TableData.RunKeepsSorting | src/components/table-data/TableData.tsx:86-124 | once sorted, a table stays sorted whatever the user does |
| TableData.NeverUnsorted | src/components/table-data/TableData.tsx:30-106 | no sequence of changes leaves a table unsorted |
| TableData.ClearTwiceRestores | src/components/table-data/table-data.tsx:75-95 | clearing the sorting twice brings the original sorting back |
| TableData.FirstPageWithoutPaging | src/components/table-data/TableData.tsx:45-124 | on the first page, only a paging change can move the table off it |
| TableData.FilterIsLastTyped | src/components/table-data/TableData.tsx:119-124 | the search is the last text typed |
| TableData.KeepsFilter | src/components/table-data/TableData.tsx:86-124 | without typing, the search stays as it was |
| PlaceEvents.KindOf | src/api/places/utils.ts:21-85 | the five listed kinds are recognised exactly when the type is strictly equal to their name; an object type is never recognised |
| PlaceEvents.NameWithRole | src/api/places/utils.ts:22-28 | with no participant in the role, the name shown is empty |
| PlaceEvents.Describe | src/api/places/utils.ts:14-83 | the shown event keeps the event's id, date, place and type, and its description and icon are those of its kind, naming the participants in the kind's roles |
| PlaceEvents.Kept | src/api/places/utils.ts:12-87 | no more events are shown than were fetched |
| PlaceEvents.KeptDescribesListed | src/api/places/utils.ts:12-87 | the events shown are, in order, exactly the recognised events, each described by its kind |
| PlaceEvents.DateCompare | src/api/places/utils.ts:88-90 | an undated event compares equal to anything; two dated events compare by their dates |
| PlaceEvents.DateCompareInconsistent | src/api/places/utils.ts:88-90 | the comparator is not antisymmetric: an undated event ties with a dated one that still sorts after it |
| PlaceEvents.DateLeTotalTransitive | src/api/places/utils.ts:88-90 | read as "not after", the comparator is total and transitive |
| PlaceEvents.Format | src/api/places/utils.ts:11-91 | the events returned are the recognised ones, rearranged |
| PlaceEvents.FormatSorted | src/api/places/utils.ts:88-90 | dated events come in date order, and an undated event comes before a dated one only when that date is empty |
| PlaceEvents.AsWrittenAlwaysEmpty | src/api/places/utils.ts:21 | comparing the type object with a kind's name never holds, so no event is ever listed |
| PlaceEvents.ByNameKeepsTheFiveTypes | src/api/places/utils.ts:21-85 | compared by name, exactly the events of the five kinds are listed |
| PlaceEvents.BirthShownOnlyByName | src/api/places/utils.ts:21-31 | a birth is dropped as written and, compared by name, shown as the birth of its subject |
| PlaceChildren.IndexOf | src/components/place/PlaceChildrenTable.tsx:22 | the index of the first place with the id, or -1 exactly when no place has it |
| PlaceChildren.IndexOfDistinct | src/components/place/PlaceChildrenTable.tsx:22 | with distinct ids, looking a place's id up finds that place |
| PlaceChildren.HasChildren | src/components/place/PlaceChildrenTable.tsx:21-28 | a place has children exactly when it is listed and the entry after it is deeper than the given level |
| PlaceChildren.FlattenHead | src/api/fetchPlacesRecursively.ts:92-97 | a flattened list starts with the first top place |
| PlaceChildren.LeveledTail | src/api/fetchPlacesRecursively.ts:67-72 | in a levelled tree, the first place sits at the level, its children one deeper and the rest at the level |
| PlaceChildren.NextInFlattening | src/api/fetchPlacesRecursively.ts:87-100 | in the flattening, a place with children is followed by its first child, and one without by an entry no deeper than itself |
| PlaceChildren.HasChildrenMatchesTree | src/components/place/PlaceChildrenTable.tsx:21-28 | reading the flattened list with distinct ids, a place has children exactly when it has them in the tree |
| PlaceChildren.IsPlaceHidden | src/components/place/PlaceChildrenTable.tsx:31-61 | the loop answers exactly whether some collapsed shallower entry has only deeper entries between it and the place |
| PlaceChildren.HiddenByCollapsedAncestor | src/components/place/PlaceChildrenTable.tsx:31-61 | with distinct ids, an entry is hidden exactly when an earlier collapsed, shallower entry has only deeper entries between them |
| PlaceChildren.NothingCollapsed | src/components/place/PlaceChildrenTable.tsx:16-18 | with nothing collapsed nothing is hidden |
| PlaceChildren.OwnCollapseIrrelevant | src/components/place/PlaceChildrenTable.tsx:36-39 | collapsing a place never hides that place itself |
| PlaceChildren.ToggleCollapse | src/components/place/PlaceChildrenTable.tsx:63-73 | toggling flips the place's own collapsed state and no other |
| PlaceChildren.ToggleTwice | src/components/place/PlaceChildrenTable.tsx:63-73 | toggling twice restores the collapsed set |
| PlaceHeader.CapitalizeWord | src/components/place/PlaceHeader.tsx:13 | a word keeps its length, with its first letter upper-cased and the rest lower-cased |
| PlaceHeader.CapitalizeWordNoSpace | src/components/place/PlaceHeader.tsx:13 | capitalising a word adds no space |
| PlaceHeader.CapitalizeWordIdempotent | src/components/place/PlaceHeader.tsx:13 | capitalising a word twice is capitalising it once |
| PlaceHeader.CapitalizeWords | src/components/place/PlaceHeader.tsx:10-15 | the words of the result are the capitalised words of the text |
| PlaceHeader.CapitalizeKeepsWordCount | src/components/place/PlaceHeader.tsx:10-15 | capitalising keeps the number of space-separated words |
| PlaceHeader.CapitalizeIdempotent | src/components/place/PlaceHeader.tsx:10-15 | capitalising a text twice is capitalising it once |
| PlaceHeader.Ancestors | src/components/place/PlaceHeader.tsx:43-52 | the chain starts at the place, each entry's parent is the next, and the last has none |
| PlaceHeader.FlattenParentHierarchy | src/components/place/PlaceHeader.tsx:43-52 | the hierarchy built is the one passed in followed by the parent's chain of ancestors |
| PlaceHeader.ParentHierarchy | src/components/place/PlaceHeader.tsx:39-54 | none without a parent; otherwise the parent first, then each entry's own parent, ending at a place without one |
| PlaceHeader.Names | src/components/place/PlaceHeader.tsx:58-65 | one name per entry, in order |
| PlaceHeader.RenderedJoinsNames | src/components/place/PlaceHeader.tsx:58-68 | the rendered hierarchy is the names joined by " - ", with no separator after the last |
| PlaceHierarchy.FlattenLength | src/api/fetchPlacesRecursively.ts:87-100 | the flattening holds every place of the tree once |
| PlaceHierarchy.FlattenAppend | src/api/fetchPlacesRecursively.ts:87-100 | flattening two lists one after the other is flattening them together |
| PlaceHierarchy.FlattenLevels | src/api/fetchPlacesRecursively.ts:87-100 | flattening a levelled tree starts at its level, never goes shallower, and goes at most one level deeper per step |
| PlaceHierarchy.StepsJoin | src/api/fetchPlacesRecursively.ts:92-97 | joining two lists that each deepen one level at a time, the second starting no deeper than one below the end of the first, keeps that property |
| PlaceHierarchy.TypeName | src/api/fetchPlacesRecursively.ts:56-64 | a place's type name is the looked-up name when its type id is set and known, and "unknown" otherwise |
| PlaceHierarchy.ChildRows | src/api/fetchPlacesRecursively.ts:26-30 | exactly the rows whose parent is the given place, in name order |
| PlaceHierarchy.Fetch | src/api/fetchPlacesRecursively.ts:20-80 | the tree is levelled from the given level; it has one place per child row, carrying the row's fields and type name, with that place's own children fetched one level deeper |
| PlaceHierarchy.FetchedFlattenLevels | src/api/fetchPlacesRecursively.ts:20-100 | the flattened fetched tree starts at the asked level, never goes shallower, and deepens one level at a time |
| Sorting.Insert | src/components/tables/TablePlaces/TablePlaces.tsx:58 | inserting adds exactly the one element to the list's contents |
| Sorting.SortWith | src/components/tables/TablePlaces/TablePlaces.tsx:58 | sorting rearranges the list without adding or losing an element |
| Sorting.InsertSorted | src/components/tables/TablePlaces/TablePlaces.tsx:58 | with a total, transitive order, inserting into a sorted list keeps it sorted |
| Sorting.SortWithSorted | src/components/tables/TablePlaces/TablePlaces.tsx:58 | with a total, transitive order, the sorted list is in that order |
| Sorting.SortWithAllEqual | src/components/TableIndividuals/TableIndividuals.tsx:121 | a comparator that ties every pair leaves the list as it was |
| Sorting.KeyLeTotalTransitive | src/api/individuals/utils/sort.ts:13-23 | ordering by a text key is total and transitive |
| Sorting.SortByKey | src/api/individuals/utils/sort.ts:13-23 | the list is rearranged into the order of its keys |
| Sorting.Filter | src/components/tables/TableEvents/TableEvents.tsx:47 | exactly the elements that pass are kept, and no more than there were |
| Sorting.FilterIsSublist | src/components/tables/TableEvents/TableEvents.tsx:47 | filtering keeps the list's order |
| Sorting.FilterAll | src/components/tables/TableEvents/TableEvents.tsx:47 | when every element passes, the list is unchanged |
| Sorting.Map | src/components/place/PlaceHeader.tsx:13 | one result per element, each the function of its element |
| Sorting.FilterKeepsDistinct | src/components/tables/TableEvents/TableEvents.tsx:47 | filtering keeps keys distinct |
| Sorting.PermutationKeepsDistinct | src/components/tables/TablePlaces/TablePlaces.tsx:58 | rearranging keeps keys distinct |
| Sorting.FindFirst | src/api/places/utils.ts:22-24 | finds an element that passes, and finds none exactly when none passes |
| Sorting.FindFirstAt | src/api/places/utils.ts:22-24 | the element found is the first one that passes |
| Sorting.FilterConcat | src/components/tables/TableEvents/TableEvents.tsx:47 | filtering a joined list is joining the filtered parts |
| Sorting.FilterFilter | src/components/tables/TableEvents/TableEvents.tsx:46-54 | filtering twice is filtering once by both tests |
| Sorting.Dedupe | src/api/families/fetchFamilies.ts:37-44 | the same members as the list, each once |
| Sorting.DedupeOfDistinct | src/api/families/fetchFamilies.ts:37-44 | a list without repeats is unchanged |
| Sorting.SliceIndex | src/api/fetchEventsFiltered.ts:64 | a slice bound counts from the end when negative and is clamped to the list |
| Sorting.Slice | src/api/fetchEventsFiltered.ts:64 | the slice is the part of the list between the two clamped bounds, empty when they cross |
| Text.NullIfEmpty | src/db/trees/tables/events.ts:27 | an absent or empty text becomes null; any other stays as it was |
| Text.Lower | src/components/tables/TablePlaces/TablePlaces.tsx:51-52 | lower-casing keeps the length and lowers each letter |
| Text.LowerIdempotent | src/components/tables/TablePlaces/TablePlaces.tsx:51-52 | lower-casing twice is lower-casing once |
| Text.Trim | src/components/TableIndividuals/TableIndividuals.tsx:70-71 | the result is the text without its leading and trailing white space, and neither end of it is white; white space is every ECMAScript WhiteSpace and LineTerminator character |
| Text.TrimEnds | src/components/TableIndividuals/TableIndividuals.tsx:70-71 | dropping the leading white space and then the trailing white space leaves a slice of the text with only white space around it |
| Text.TrimEmptyIffBlank | src/components/TableIndividuals/TableIndividuals.tsx:70-71 | trimming gives "" exactly when the text is all white space |
| Text.TrimIdempotent | src/pages/IndividualsPage.tsx:77 | trimming twice is trimming once |
| Text.IndexOf | src/lib/trees.ts:116 | the first place the text occurs, or none exactly when it does not occur |
| Text.ReplaceFirst | src/lib/trees.ts:116 | a text without the pattern is unchanged; otherwise one occurrence is replaced |
| Text.ReplaceAllChar | src/components/events/EventsTable/columns.tsx:30 | a text without the character is unchanged, and the character is gone when the replacement lacks it |
| Text.Split | src/components/place/PlaceHeader.tsx:12 | splitting gives at least one part, none holding the separator |
| Text.JoinSplit | src/components/place/PlaceHeader.tsx:12-14 | joining the parts back with the separator gives the text |
| Text.SplitJoin | src/components/place/PlaceHeader.tsx:12-14 | splitting words joined by a separator they lack gives the words back |
| Text.NatToString | src/api/events/fetchEvents.ts:63 | the decimal text of a number: digits only, no leading zero |
| Text.DigitsValueOfNatToString | src/api/events/fetchEvents.ts:63 | reading the decimal text back gives the number |
| Text.ParseInt | src/db/trees/tables/names.ts:15 | parsing fails exactly when, after leading white space and a sign, no digit follows |
| Text.ParseIntOfNatToString | src/db/trees/tables/names.ts:15 | parsing a number's decimal text gives the number back |
| Text.PadStart | src/api/events/fetchEvents.ts:63 | the text is padded on the left with the fill character up to the width, and kept whole when already wider |
| Text.PadStartKeepsValue | src/api/events/fetchEvents.ts:63 | zero-padding a number's decimal text keeps its value |
| Text.Compare | src/components/tables/TablePlaces/TablePlaces.tsx:58 | zero exactly for equal texts, and at most zero exactly when the first comes first in code-point order |
| Text.LexTotal | src/components/tables/TablePlaces/TablePlaces.tsx:58 | any two texts are ordered one way or the other |
| Text.LexAntisymmetric | src/components/tables/TablePlaces/TablePlaces.tsx:58 | texts ordered both ways are equal |
| Text.LexTransitive | src/components/tables/TablePlaces/TablePlaces.tsx:58 | the text order is transitive |
| Text.CompareAntisymmetric | src/components/tables/TablePlaces/TablePlaces.tsx:58 | swapping the texts negates the comparison |
| Text.CompareOptional | src/components/tables/TableEvents/TableEvents.tsx:57 | a missing left date ties with anything; otherwise it compares with the right date, or "" when that is missing |
| Text.CompareOptionalPreorder | src/components/tables/TableEvents/TableEvents.tsx:57 | read as "not after", the comparison is total and transitive |

## Left out

- `src-tauri/src/lib.rs`: the Rust side only forwards menu events to the window. It has no rules to model.
- Real I/O is not modelled: Tauri file-system calls, SQLite execution, Supabase queries and their connection helpers.
  - Most calls' outcomes are inputs, either an `Io` value or the rows returned. The calls taken to succeed are listed below, one line per member.
  - Concurrency between calls is out of scope, and so are the connection helpers' leaks.
- The tree database is assumed to enforce its foreign keys, as the sqlx SQLite driver behind the SQL plugin turns them on by default.
  - The inserts and updates of `src/lib/events.ts` check them, after the primary keys and the unique index on participants. So does the names insert of `src/lib/individuals.ts`.
  - Deleting an event drops its participants through ON DELETE CASCADE.
  - Each module holds only the tables its source file touches. The cascade from a deleted individual to its participant rows crosses two modules and is not modelled.
- Ids are not checked against their column types. The schema declares integer ids, while `src/lib/individuals.ts`, `src/lib/events.ts` and `src/lib/places.ts` insert UUID strings.
  - `Individuals` and `Events` treat ids as opaque strings. This includes the place ids an event refers to.
  - `PlaceDb` reads and changes existing rows, whose ids are the integers SQLite assigned. The `create` operations of places, which insert UUIDs, are not modelled (see below).
- The schema's `events` table has no `gedcom_id` column, yet `src/lib/events.ts` inserts, selects and updates one. The model follows the columns the library writes.
- uuid generation, `CURRENT_TIMESTAMP` and `Date.now()` are parameters of the operations that use them.
- `localeCompare` and SQL `ORDER BY` on text are modelled by code-point order (`Text.Compare`), not by a locale's collation.
- Strings are sequences of Unicode scalar values. JavaScript counts `.length` and positions for `slice` in UTF-16 code units, so lengths and positions differ for characters outside the Basic Multilingual Plane. `Text.IsWhite` covers every white-space character JavaScript's `trim` strips, all of which lie in that plane.
- `toLowerCase`, `toLocaleLowerCase` and `toUpperCase` are modelled on ASCII letters only.
- `Array.prototype.sort` is a stable insertion sort (`Sorting.SortWith`).
  - A consistent comparator gives the same order as the engine's.
  - The date comparators of `TableEvents` and `PlaceEvents` are not antisymmetric. The engine's order is then implementation-defined. The model shows one admissible order and proves only what holds for it.
- User-typed regular-expression searches in the individuals and families tables are given as predicates.
- `capitalize` from `src/utils/strings.ts` is a parameter. That file is not part of this model.
- `getPageRange`, `formatGedcomId` and `getStatusInfo` are not part of this model. Where their results matter, they are inputs.
- `new Date(…)` parsing, `toLocaleDateString` and date-time formatting are not modelled. Dates are compared as strings, as the tables do.
- `EventPage.CreatedDate` covers only integer `created_at` values. Fractional numbers are not modelled.
- Latitude, longitude and `parseFloat` are not modelled.
- Rendering is not modelled: React components, icons (kept as names), alerts as UI effects, routing, theme, query-cache invalidation, and the tree selection kept in `localStorage`.
- The demo components are not modelled.
- Option labels in the pickers are not modelled; an option stands for its individual or role.
- Pass-through CRUD wrappers are not modelled: the `src/db/trees/tables/*` files other than `names.ts`, `src/lib/event-types.ts`, `src/lib/event-roles.ts`, and the single-record fetchers in `src/api`. Their behaviour is whatever the database does with the statement.
- The following place operations are not modelled: `initDatabase`, `createPlaceType`, `create`, `delete` and `getChildren` in `src/lib/places.ts` and `src/lib/places/index.ts`, and `getAll` and `create` in `src/lib/place-types.ts`.
  - Each one sends a single statement and reads the result back.
  - None of them has a guard beyond what the modelled reads already show.
- The module-level memo caches in `src/api/individuals/fetchAll.ts` and `src/api/individuals/utils/fetchAll.ts` are not modelled.
- The trees listed by the file-only and metadata stores carry no creation time; file metadata is left out.
- TreeManager.CreateNewTree: `Database.load` is taken to create the database file at the path the registry holds for the tree, in the application-data directory that `exists` and `readDir` look in. The SQL plugin's own path resolution is not part of this model. `Migrations.InitializeDatabase` makes the same assumption for `trees/<name>.db`.
- TreeManager.CreateNewTree: the registry's `createTree` (src/managers/tree-manager.ts:98) and the `deleteTree` in its catch (line 105) are taken to succeed. In the source a throw from `createTree` escapes without the "Failed to create tree database: " prefix, and a throw from `deleteTree` replaces the prefixed error, so the contract's "every failure carries the prefix" holds only under that assumption.
- TreeRegistry.CreateTree, TreeRegistry.GetTreeById, TreeRegistry.GetTreeByName, TreeRegistry.GetAllTrees, TreeRegistry.UpdateTree, TreeRegistry.UpdateTreeWithPath and TreeRegistry.DeleteTree: the SQL statements are taken to succeed. Only the errors the code raises itself ("Invalid tree ID", "not found") are modelled. A failure of the system database would be rethrown by each caller unchanged.
- TreesMetadata.Lookup, TreesMetadata.RemoveNamed, TreesMetadata.Create, TreesMetadata.Delete and TreesMetadata.RebuildDbEntry: the metadata table's SQL statements are taken to succeed. Only `TreesMetadata.List` takes the store's outcome as an input.
- TreeManager.EnsureTreesDirectoryExists and TreeManager.RenameTreeDatabaseFile: their `exists` probes are taken to answer. A throw from `exists` would escape as that error. Only `mkdir`, `rename`, `copyFile` and `remove` have outcome inputs.
- TreeManager.DeleteCompleteTree: the `exists` probe of the tree's file (src/managers/tree-manager.ts:162) is taken to answer. A throw from it would escape before anything is deleted, leaving the registry and the file as they were.
- TreesMetadata.Create: the `exists` probe of `trees/` (src/lib/trees.ts:46) is taken to answer. A throw from it would escape before anything is created.
- TreesMetadata.List: the `exists` probe of each record's file (src/lib/trees.ts:131) is taken to answer. A throw from it would fail the whole listing with "Failed to list trees: " (src/lib/trees.ts:170-174). The probe of `trees/` (line 110) sits inside a `try` whose failure gives no files, which the `read` input covers.
- TreesMetadata.Delete: the `exists` probe of the tree's file (src/lib/trees.ts:198) is taken to answer. A throw from it would escape before the file or the metadata row is removed.
- TreesMetadata.RebuildDbEntry: the `exists` probe of the file (src/lib/trees.ts:229) is taken to answer. A throw from it would escape before the table is touched.
- TreesStore.Create: the `exists` probe of `trees/` (src/lib/trees/index.ts:17) is taken to answer. A throw from it would escape before anything is created.
- TreesStore.List: the `exists` probe of `trees/` (src/lib/trees/index.ts:44) is taken to answer. A throw from it would fail the listing with that error.
- TreesStore.Delete: the `exists` probe of the tree's file (src/lib/trees/index.ts:68) is taken to answer. A throw from it would escape before the file is removed.
- TreeManager.GetUnregisteredFiles: the `exists` probe of the directory and the registry's `getAllTrees` (src/managers/tree-manager.ts:203) are taken to succeed. A throw from either is caught by the source and gives [], like a failed `readDir`.
- Individuals.CreateName: when the `INSERT` is refused, the `UPDATE` that cleared the individual's other primary names has already run. The model keeps that `UPDATE`, since no transaction surrounds the two statements.
- NameRecords.CreateName: the individuals table is not among its inputs, so the foreign key on `names.individual_id` is not checked there. `Individuals.CreateName` models that refusal for the library layer.
- TreeManager.UpdateTreeUsing: `generateTreeFilePath` lives in `$db/constants`, which is not part of this model. It is taken to compute the same path as `createTree` (src/db/system/tables/trees.ts:11), that is `TreeFiles.TreeFilePath`. The same holds for `TreeManager.UpdateTree`, `TreeManager.UpdateTreeAsWritten` and the lemmas about them.
- TreeManager.CheckTreeFileExists: its callers (`RemoveOrphanedTree`, `RegisterUnregisteredFile`, `GetAllTreesWithStatus`) are modelled with the `exists` call succeeding. A caught error, which the function reads as "missing", is not passed through them.
- PlaceHierarchy.Fetch: recursion is bounded by a `fuel` depth. The source recurses until a level has no children, so a tree deeper than the fuel is cut at that depth in the model.
- TreeManager.UnregisteredLabel: its own contract says only that the label is never empty. The label of a file directly below `trees/` is stated by `TreeManager.UnregisteredLabelOfFile`.
- UpdateRows.UpdateIndividual: a Supabase error partway through is not modelled. Every statement is taken to succeed.
- UpdateRows.UpdateFamily: a Supabase error partway through is not modelled. Every statement is taken to succeed.
- EventColumns.TypeCell: has no contract of its own. What it shows is stated by `EventColumns.CellsNeverBlank`.
- EventColumns.PlaceCell: has no contract of its own. What it shows is stated by `EventColumns.CellsNeverBlank`.
- IndividualColumns.NameCell: has no contract of its own. Its two orders are stated by `IndividualColumns.NameCellOrder`.
- EventForm.AfterSubmit: has no contract of its own. Its effect is stated by `EventForm.ResetNeedsAType`.
- EventPage.ToMillis: has no contract of its own. It is described by `EventPage.SecondsRoundTrip`, `EventPage.MillisStable` and `EventPage.ThresholdJump`.
- FetchJoins.EventGedcomText: has no contract of its own. Its prefix and injectivity are stated by `FetchJoins.EventGedcomTextInjective`.

## Findings

| source | as written | input that shows it | evidently intended | confidence | as-written member | corrected member |
|---|---|---|---|---|---|---|
| src/managers/tree-manager.ts:117-150 | `updateTree` sends the new `file_path` to the registry. The registry's `updateTree` (src/db/system/tables/trees.ts:153-160) writes only the name and the description. | Rename tree "smith" to "jones". The file moves to `trees/jones.db`, but the registry still records `trees/smith.db`. | The registry update also writes a supplied file path, so the tree keeps pointing at its file. | not executed | TreeManager.UpdateTreeAsWritten, TreeManager.RenameLeavesStalePath | TreeManager.UpdateTree, TreeManager.UpdateTreeKeepsTreeTracked, TreeRegistry.UpdateTreeWithPath |
| src/managers/tree-manager.ts:255-284 | `registerUnregisteredFile` creates the record with the path derived from the name, then relies on the same path-less update to set the real path. | Register `trees/Old.db` as "Old". The registry records `trees/old.db`, a file that does not exist. | The record carries the adopted file's own path. | not executed | TreeManager.RegisterUnregisteredFileAsWritten, TreeManager.RegisterKeepsSanitisedPath | TreeManager.RegisterUnregisteredFile, TreeManager.RegisterAdopts |
| src/lib/trees/index.ts:53 | `replace('.db', '')` removes the first ".db" in the file name, not the suffix. The same call appears at src/lib/trees.ts:116. | The file `smith.db_backup.db` is listed as "smith_backup.db". Deleting that tree removes `smith_backup.db.db` instead. | The stem is the file name without its final ".db". | not executed | TreeFiles.StemAsWrittenBreaksRoundTrip, TreesMetadata.ListAsWrittenMisnamesFile, TreesStore.ListAsWrittenDeletesOtherFile | TreeFiles.Stem, TreeFiles.StemRoundTrip, TreesMetadata.ListEntriesAccounted, TreesStore.ListThenDelete |
| src/api/places/utils.ts:21-85 | The event's `type` is the embedded event-type object, yet it is compared with `===` against the strings "Birth", "Death", "Marriage", "Baptism" and "Burial". | Any event, for example a birth whose type is `{ id, name: "Birth" }`. Every comparison fails, so the place's event list is always empty. | The type's name is compared. | not executed | PlaceEvents.AsWrittenAlwaysEmpty | PlaceEvents.ByNameKeepsTheFiveTypes, PlaceEvents.BirthShownOnlyByName |
| src/pages/EventsPage.tsx:91-119 | The marriage branch is taken when either spouse is chosen, but both spouse ids are always passed on. | A marriage with only a husband chosen. `createMarriage` writes the event and the husband's participant, then tries a participant for the individual "", which the foreign key refuses: the call fails and leaves a marriage with one spouse. | Only the chosen spouses become participants. | not executed | EventsPage.BothSlotsSendsEmptyWife, EventsPage.EmptyWifeRefused | EventsPage.ChosenOnlySendsChosen |
