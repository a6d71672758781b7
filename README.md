# Game task board: a verified model of its core

The repository is a small Flask task board for a game-development team. Tasks belong to one of three
roles: planner (`プランナー`), designer (`デザイナー`) and programmer (`プログラマー`). Files can be
attached to tasks. Everything lives in `GameTaskManagerPython/GameTaskManagerPython/runserver.py`.
Under the routing and ORM glue sit three pieces of logic, and this Dafny project models those three:

- **File policy** (`file_policy.dfy`, module `FilePolicy`). Each role has a set of allowed extensions.
  A file name is accepted when it contains a `.` and the lower-cased text after its last `.` is in the
  role's set. A separate check says whether a file is a video. Both are pure predicates.
- **Listing** (`listing.dfy`, module `Listing`). This is the page handler `home`. For each role it:
  - filters the tasks to that role;
  - picks an `ORDER BY` from the role's sort key, falling back to the role's default key when the
    parameter is absent;
  - for planners, annotates each task with the time of its latest upload.

  The database query is modelled by what every acceptable result must satisfy (`IsListing`): a
  permutation of the role's tasks in the chosen order. An insertion sort (`SortBy`) shows that such a
  result always exists. The handler's two loops, the one that fills `tasks_by_category` and the
  planner annotation loop, are methods proved against that specification.
- **Task store and the mutating handlers** (`store.dfy`, module `Store`). `TaskStore` is a class. Its
  fields are:
  - the `tasks` table and the `uploaded_files` table, as sequences of rows;
  - the set of names in the upload folder;
  - the two id counters.

  `AddTask`, `UploadFile`, `DeleteTask` and `UpdateStatus` are its methods. Each one states its whole
  new state and keeps the table invariant `Consistent`: task ids and file ids are distinct and
  below their counters, every task has a listed category and status, and every file row belongs to
  an existing task. Rejected input is a no-op. A missing task id
  gives a not-found outcome.

Shared pieces:
- `schema.dfy` (module `Schema`): the two row types, the status and category lists, the table
  filters, and the latest-upload aggregate.
- `text.dfy` (module `Text`): ASCII lower-casing, code-point string order, and decimal rendering.
- `wrappers.dfy`: `Option`.

Facts about `runserver.py` that shape the model:
- The `tasks` table has no priority column and no assignee column, and there is no route that
  updates a priority, so the model has neither.
- The `status` column defaults to `'ToDo'` (line 65).
- The status list is `ToDo`, `InProgress`, `Review`, `Done` (line 56).

The stored name of an upload is the whole-second timestamp, `_`, and the sanitised name.
`StoredNameInjective` shows that two uploads get the same name exactly when they happen in the same
second and have the same sanitised name. When that happens, the second upload overwrites the first
file. Deleting either task then removes the file that the other task's record still names. The model
keeps this behaviour: `DeleteTask` removes every name its task's rows mention.

## Model

| member | source | states |
|---|---|---|
| FilePolicy.AllowedExtensions | GameTaskManagerPython/GameTaskManagerPython/runserver.py:24-32 | a category other than the three roles gets the empty extension set |
| FilePolicy.AllowListsExact | GameTaskManagerPython/GameTaskManagerPython/runserver.py:15-19 | planner {pdf, txt, doc, docx}; designer {png, jpg, jpeg, gif, mp4, webm, mov}; programmer {mp4, webm, mov} |
| FilePolicy.Extension | GameTaskManagerPython/GameTaskManagerPython/runserver.py:35 | the lower-cased text after the last dot; LastDotSuffixOfSplit and ExtensionOf pin it for a name `p + "." + r` |
| FilePolicy.AllowedFile | GameTaskManagerPython/GameTaskManagerPython/runserver.py:24-35 | `allowed_file`: the name has a dot and its extension is in the category's set; AllowedFileIff states it on the split at the last dot |
| FilePolicy.IsVideoFile | GameTaskManagerPython/GameTaskManagerPython/runserver.py:37-40 | `is_video_file`: the name has a dot and its extension is in the video set; AllowedFileIff states it on the split at the last dot |
| FilePolicy.LastDotSuffix | GameTaskManagerPython/GameTaskManagerPython/runserver.py:35 | `rsplit('.', 1)[1]`: the result is a proper suffix of the name, has no dot, and a dot comes right before it |
| FilePolicy.LastDotSuffixOfSplit | GameTaskManagerPython/GameTaskManagerPython/runserver.py:35 | for any `p + "." + r` with no dot in `r`, the suffix is exactly `r`, whatever `p` contains |
| FilePolicy.AllowedFileIff | GameTaskManagerPython/GameTaskManagerPython/runserver.py:24-40 | a name split at its last dot is accepted (resp. is a video) iff the lower-cased suffix is in the category's set (resp. the video set) |
| FilePolicy.OnlyLastSuffixCounts | GameTaskManagerPython/GameTaskManagerPython/runserver.py:35 | the verdict depends only on the text after the last dot, not on anything earlier |
| FilePolicy.NoDotRejected | GameTaskManagerPython/GameTaskManagerPython/runserver.py:34-40 | a name without a dot is refused for every category and is not a video |
| FilePolicy.TrailingDotRejected | GameTaskManagerPython/GameTaskManagerPython/runserver.py:34-40 | a name ending in `.` has an empty extension and is refused for every category |
| FilePolicy.UnknownCategoryRejectsAll | GameTaskManagerPython/GameTaskManagerPython/runserver.py:26-32 | any category string other than the three roles refuses every file |
| FilePolicy.CaseInsensitiveExtension | GameTaskManagerPython/GameTaskManagerPython/runserver.py:35 | upper-case letters in the extension do not change the verdict |
| FilePolicy.VideoAllowedForDesignerAndProgrammer | GameTaskManagerPython/GameTaskManagerPython/runserver.py:17-19 | every video is accepted for designers and for programmers |
| FilePolicy.ProgrammerAllowsExactlyVideo | GameTaskManagerPython/GameTaskManagerPython/runserver.py:37-40 | for programmers, acceptance and the video test agree on every name |
| FilePolicy.PlannerFilesAreNotVideo | GameTaskManagerPython/GameTaskManagerPython/runserver.py:15-17 | no name a planner may upload is a video |
| FilePolicy.DesignerAcceptsImage | GameTaskManagerPython/GameTaskManagerPython/runserver.py:16 | any `<stem>.png` is accepted for a designer and is not a video |
| FilePolicy.DesignerAcceptsVideo | GameTaskManagerPython/GameTaskManagerPython/runserver.py:17-18 | any `<stem>.mp4` is accepted for a designer and is a video |
| FilePolicy.DocumentIsPlannerOnly | GameTaskManagerPython/GameTaskManagerPython/runserver.py:15-19 | any `<stem>.pdf` is accepted for a planner and refused for a designer and a programmer |
| Text.ToLowerAscii | GameTaskManagerPython/GameTaskManagerPython/runserver.py:35 | `.lower()` on ASCII: same length, no upper-case ASCII letter left; ToLowerAsciiAt gives each character |
| Text.ToLowerAsciiAt | GameTaskManagerPython/GameTaskManagerPython/runserver.py:35 | at every position an ASCII capital becomes the letter 32 code points later, and any other character stays as it is |
| Text.ToLowerAsciiIdempotent | GameTaskManagerPython/GameTaskManagerPython/runserver.py:35 | lower-casing twice is lower-casing once |
| Text.StrLe | GameTaskManagerPython/GameTaskManagerPython/runserver.py:100 | code-point lexicographic order on strings, the order of ascending `title` and `status`; StrLeTotal, StrLeTransitive and StrLeAntisymmetric state its laws |
| Text.StrLeTotal | GameTaskManagerPython/GameTaskManagerPython/runserver.py:100 | the string order used for ascending title and status is total |
| Text.StrLeTransitive | GameTaskManagerPython/GameTaskManagerPython/runserver.py:100 | and transitive |
| Text.StrLeAntisymmetric | GameTaskManagerPython/GameTaskManagerPython/runserver.py:114 | and antisymmetric: two strings each no later than the other are equal |
| Text.NatToDecimal | GameTaskManagerPython/GameTaskManagerPython/runserver.py:153 | the rendering of the timestamp is a non-empty digit string without a leading zero |
| Text.NatToDecimalRoundTrip | GameTaskManagerPython/GameTaskManagerPython/runserver.py:153 | reading the rendered digits back gives the number |
| Text.IntToDecimal | GameTaskManagerPython/GameTaskManagerPython/runserver.py:153 | `str` of the timestamp: for a non-negative number a digit string whose value is the number; for a negative one a minus sign followed by such a string |
| Schema.FindTask | GameTaskManagerPython/GameTaskManagerPython/runserver.py:141 | the lookup behind `get_or_404`: a position holding that id, or None exactly when no task has it |
| Schema.FindTaskUnique | GameTaskManagerPython/GameTaskManagerPython/runserver.py:62 | with distinct primary keys the lookup finds the one task with that id |
| Schema.SubMultisetDistinctIds | GameTaskManagerPython/GameTaskManagerPython/runserver.py:62 | rows taken from a table with distinct ids, none more often than it occurs there, have distinct ids |
| Schema.SubMultisetDistinctFileIds | GameTaskManagerPython/GameTaskManagerPython/runserver.py:73 | the same for file rows and the `uploaded_files` primary key |
| Schema.TasksIn | GameTaskManagerPython/GameTaskManagerPython/runserver.py:90 | `filter_by(category=...)`: each task of that category occurs as often as in the table, every other task never |
| Schema.TasksExcept | GameTaskManagerPython/GameTaskManagerPython/runserver.py:174 | deleting a task row keeps every other row exactly as often as before and drops the rows with that id |
| Schema.FilesExcept | GameTaskManagerPython/GameTaskManagerPython/runserver.py:69 | the cascade keeps every file row of other tasks and drops all rows of the deleted task |
| Schema.LatestUpload | GameTaskManagerPython/GameTaskManagerPython/runserver.py:118-121 | None exactly when the task has no file; otherwise the upload time of one of its files, no earlier than any of them |
| Listing.ArgOr | GameTaskManagerPython/GameTaskManagerPython/runserver.py:82-84 | `request.args.get(param, default)`: the parameter's value when present, else the default; SortKeyChosen states it for each role |
| Listing.SortParameter | GameTaskManagerPython/GameTaskManagerPython/runserver.py:82-84 | the query parameter carrying each role's sort key: `sort_planner`, `sort_designer`, `sort_programmer`; used by SortOrders and SortKeyChosen |
| Listing.DefaultSortKey | GameTaskManagerPython/GameTaskManagerPython/runserver.py:82-84 | each role's default key: `upload_date_desc`, `created_at_desc`, `due_date_asc`; DefaultOrdering states the orders they select |
| Listing.SortOrders | GameTaskManagerPython/GameTaskManagerPython/runserver.py:81-85 | the `sort_orders` dictionary has exactly the three roles as keys |
| Listing.SortKeyChosen | GameTaskManagerPython/GameTaskManagerPython/runserver.py:81-85 | a role's sort key is the value of its `sort_*` parameter when the request carries one, and the role's default key otherwise |
| Listing.QueryOrder | GameTaskManagerPython/GameTaskManagerPython/runserver.py:93-114 | the branch dispatch from (role, sort key) to an ORDER BY, or none; ListingOrder, DefaultOrdering and UnrecognisedKeyAnyPermutation state what each choice means |
| Listing.InOrder | GameTaskManagerPython/GameTaskManagerPython/runserver.py:95-114 | what each ORDER BY guarantees of two rows in result order, leaving NULL maxima and ties to the engine; ListingOrder spells out each case |
| Listing.NullMaximaTogether | GameTaskManagerPython/GameTaskManagerPython/runserver.py:94-98 | the planner tasks without files, whose `max(uploaded_at)` is NULL, form one block at the start or at the end of the result |
| Listing.IsListing | GameTaskManagerPython/GameTaskManagerPython/runserver.py:89-116 | an acceptable query result: a permutation of the role's tasks ordered pairwise by InOrder, with NULL upload maxima kept in one block under the upload orderings; ListedIsListing shows one always exists |
| Listing.DefaultOrdering | GameTaskManagerPython/GameTaskManagerPython/runserver.py:81-84 | with no sort parameters the orders are latest upload descending, creation time descending, due date ascending with nulls last |
| Listing.SortBy | GameTaskManagerPython/GameTaskManagerPython/runserver.py:95-114 | the sort witness returns a permutation of its input |
| Listing.SortBySorted | GameTaskManagerPython/GameTaskManagerPython/runserver.py:95-114 | the sort witness orders every pair by the chosen ordering's total preorder |
| Listing.ListedIsListing | GameTaskManagerPython/GameTaskManagerPython/runserver.py:89-116 | every (category, sort key) query has a result meeting the listing specification |
| Listing.ListingMembers | GameTaskManagerPython/GameTaskManagerPython/runserver.py:90 | a task is in a role's listing iff it is in the table with that category |
| Listing.ListingsDisjoint | GameTaskManagerPython/GameTaskManagerPython/runserver.py:87-116 | no task is listed under two roles |
| Listing.ListingListsEachTaskOnce | GameTaskManagerPython/GameTaskManagerPython/runserver.py:94 | with distinct task ids, a listing (also the outer-joined, grouped planner one) has distinct ids |
| Listing.ListingOrder | GameTaskManagerPython/GameTaskManagerPython/runserver.py:95-114 | each recognised key orders as its branch says: created_at desc/asc, title asc, due date asc nulls last, due date desc nulls first, status asc, latest upload desc/asc among tasks that have uploads |
| Listing.UndatedUploadsContiguous | GameTaskManagerPython/GameTaskManagerPython/runserver.py:94-98 | under either upload ordering, no task with files sits between two planner tasks without files |
| Listing.DatedBeforeUndated | GameTaskManagerPython/GameTaskManagerPython/runserver.py:110 | under `due_date_asc` every dated task precedes every undated one |
| Listing.UnrecognisedKeyAnyPermutation | GameTaskManagerPython/GameTaskManagerPython/runserver.py:95-114 | a key no branch recognises adds no ORDER BY: any permutation of the role's tasks is a result |
| Listing.AnnotateLatestUploads | GameTaskManagerPython/GameTaskManagerPython/runserver.py:119-121 | the loop gives every listed task, and nothing else, the latest upload time of its files |
| Listing.RunQuery | GameTaskManagerPython/GameTaskManagerPython/runserver.py:90-116 | the rows one category's query returns form a listing: exactly that category's tasks, in the order its sort key selects |
| Listing.FillNext | GameTaskManagerPython/GameTaskManagerPython/runserver.py:89-116 | storing the next category's rows into `tasks_by_category` keeps the listings already stored and adds that category's |
| Listing.Home | GameTaskManagerPython/GameTaskManagerPython/runserver.py:79-123 | one listing per role meeting the specification under that role's sort key, and the annotation of exactly the planner tasks |
| Store.AcceptsNewTask | GameTaskManagerPython/GameTaskManagerPython/runserver.py:132 | the `add_task` guard: a non-empty title and one of the three categories; AddTask's contract states what passing or failing it does |
| Store.StoredName | GameTaskManagerPython/GameTaskManagerPython/runserver.py:152-153 | the stored name `"<timestamp>_" + secured`; StoredNameInjective states when two are equal |
| Store.StoredNameInjective | GameTaskManagerPython/GameTaskManagerPython/runserver.py:152-153 | for any integer timestamps, signed or not, two stored names are equal iff the timestamps and the sanitised names are equal |
| Store.TasksExceptRows | GameTaskManagerPython/GameTaskManagerPython/runserver.py:174 | the task rows left after a delete keep their id bounds, categories and statuses, and none has the deleted id |
| Store.FilesExceptRows | GameTaskManagerPython/GameTaskManagerPython/runserver.py:174 | the file rows left after a delete still belong to surviving tasks |
| Store.Consistent | GameTaskManagerPython/GameTaskManagerPython/runserver.py:62-75 | the table invariant: distinct task ids and file ids (primary keys, lines 62 and 73), both below their counters; every file row's `task_id` names an existing task (foreign key, line 75); every task has one of the three categories and one of the four statuses that the handlers allow (lines 132 and 182) |
| Schema.FileNamesOf | GameTaskManagerPython/GameTaskManagerPython/runserver.py:170-171 | the stored names of the task's file rows, which the delete loop visits; RemoveStoredFiles takes exactly these out of the folder |
| Store.DeleteKeepsConsistent | GameTaskManagerPython/GameTaskManagerPython/runserver.py:167-175 | deleting a task and its file rows keeps the tables consistent and leaves no row of that task |
| Store.AppendFileKeepsConsistent | GameTaskManagerPython/GameTaskManagerPython/runserver.py:155-157 | recording a file row under the next file id for an existing task keeps the tables consistent, file ids included |
| Store.StatusChangeKeepsConsistent | GameTaskManagerPython/GameTaskManagerPython/runserver.py:181-184 | setting one task's status to one of the four keeps the tables consistent |
| Store.TaskStore.constructor | GameTaskManagerPython/GameTaskManagerPython/runserver.py:191 | the state of a fresh database after `db.create_all()`: empty, consistent tables and both id counters at 1; an empty upload folder is assumed |
| Store.TaskStore.AddTask | GameTaskManagerPython/GameTaskManagerPython/runserver.py:125-137 | with a non-empty title and a listed category, exactly one task is appended: status ToDo, a fresh id, the given fields and creation time; a malformed due date aborts; otherwise nothing changes |
| Store.TaskStore.UploadFile | GameTaskManagerPython/GameTaskManagerPython/runserver.py:139-161 | not found, no file part and empty name each change nothing; a name refused for the task's category gives the disallowed outcome, adds no row and writes no file; an accepted one adds exactly one row and one stored name `"<timestamp>_" + secure(name)` |
| Store.TaskStore.DeleteTask | GameTaskManagerPython/GameTaskManagerPython/runserver.py:167-176 | a missing task changes nothing; otherwise the task and all its file rows are gone, every other row stays, and the task's stored names are removed from the folder |
| Store.TaskStore.RemoveStoredFiles | GameTaskManagerPython/GameTaskManagerPython/runserver.py:170-173 | the loop removes exactly the task's stored names that are present and keeps all other names |
| Store.TaskStore.UpdateStatus | GameTaskManagerPython/GameTaskManagerPython/runserver.py:178-185 | a missing task gives not-found; otherwise only that task's status changes, and only to one of the four statuses |

## Left out

- HTTP plumbing is left out: routing, `request.form` and `request.files` parsing, `redirect` and
  `url_for` with query preservation, `render_template`, `context_processor` and the
  `/uploads/<filename>` route. `upload_file` has three flash notices (lines 143, 148 and 160), and
  they become the outcomes `NoFilePart`, `NoFileName` and `Disallowed`. `TaskNotFound`,
  `UpdateNotFound` and `DeleteTask` returning `false` stand for the 404 response of `get_or_404`
  (lines 141, 180 and 169). `add_task` and
  `update_status` flash nothing; their `AddOutcome` and `UpdateOutcome` only report which branch
  was taken.
- SQLAlchemy sessions, commits and SQL are left out. Each handler is one atomic step on the store.
  Two things are left to the database engine and so are left open: at which end the tasks with no
  files go under the planner's `max(uploaded_at)` orderings (`NullMaximaTogether` keeps them in one
  block at either end), and how ties are broken.
- Column lengths are not modelled: `String(200)` for the title (line 63), `String(50)` for status
  and category (lines 65 and 68) and `String(255)` for the stored file name (line 74). Whether an
  over-long value is rejected at commit or truncated is engine-defined. So `AddTask` appends a task
  with a title of any length, and `UploadFile` records a stored name of any length. On an engine
  that enforces the limits, such a commit fails, and for an upload the file is already written.
- Title and status are ordered by code point; the engine's collation is not modelled.
- The filesystem is reduced to a set of stored names. File contents and `file.save` overwriting are
  not modelled. The `os.path.exists` check becomes a membership test before removal.
- `secure_filename` is a function parameter of `UploadFile`, because its code is not in this
  repository.
- `datetime.strptime` is replaced by the already-parsed `DateField`: blank, a parsed day number, or
  malformed. A malformed date aborts the request.
- There are three clocks, and all become parameters. `db.func.now()` is `now` for `created_at`.
  `int(datetime.now().timestamp())` is `nowSeconds` for the name prefix. `datetime.utcnow` is
  `uploadedAt`. Dates and times are integers.
- Ids come from counters that start at 1 and never reuse a value. Persistence, environment
  configuration and `app.run` are not modelled. The `db-init` command is modelled only as the
  state of a fresh database after `db.create_all()`. It does not touch the upload folder, so the
  model assumes that folder starts empty.
- Text.ToLowerAscii: lower-cases ASCII letters only, where Python's `.lower()` covers all of Unicode.
  The only non-ASCII character whose lower case is exactly ASCII letters is the Kelvin sign, which
  becomes `k`. No allowed extension contains a `k`, so the accept/refuse verdict is the same.
- Text.StrLeTotal: compares strings by code point, which is one particular database collation.
- Listing.Home: says each result is some permutation meeting the order. It does not fix which one the
  engine returns.
