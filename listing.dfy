/**
 * The listing page: for each role category, the tasks of that category in
 * the order the requested sort key selects, and for planner tasks the time
 * of their latest upload.
 */
module Listing {

  import opened Wrappers
  import opened Text
  import opened FilePolicy
  import opened Schema

  /** The ORDER BY clause a (category, sort key) pair adds to the query, if any. */
  datatype Ordering =
    | LatestUploadDesc
    | LatestUploadAsc
    | TitleAsc
    | CreatedAtDesc
    | CreatedAtAsc
    | DueDateAscNullsLast
    | DueDateDescNullsFirst
    | StatusAsc
    | Unordered

  /** The query parameter that carries a category's sort key. */
  function SortParameter(category: string): string
  {
    if category == PLANNER then "sort_planner"
    else if category == DESIGNER then "sort_designer"
    else "sort_programmer"
  }

  /** The key used when the parameter is absent. */
  function DefaultSortKey(category: string): string
  {
    if category == PLANNER then "upload_date_desc"
    else if category == DESIGNER then "created_at_desc"
    else "due_date_asc"
  }

  /** `request.args.get(param, default)`. */
  function ArgOr(args: map<string, string>, param: string, default: string): string
  {
    if param in args then args[param] else default
  }

  /**
   * The `sort_orders` dictionary: for each category, the value of its sort
   * parameter when the request carries one, and the category's default otherwise.
   */
  function SortOrders(args: map<string, string>): (r: map<string, string>)
    ensures r.Keys == {PLANNER, DESIGNER, PROGRAMMER}
  {
    map c | c in {PLANNER, DESIGNER, PROGRAMMER} :: ArgOr(args, SortParameter(c), DefaultSortKey(c))
  }

  /** A category's sort key is the request's value for its parameter, or the default when there is none. */
  lemma SortKeyChosen(args: map<string, string>, category: string)
    requires category == PLANNER || category == DESIGNER || category == PROGRAMMER
    ensures SortParameter(category) in args ==> SortOrders(args)[category] == args[SortParameter(category)]
    ensures SortParameter(category) !in args ==> SortOrders(args)[category] == DefaultSortKey(category)
  {
  }

  /** The per-category branches that pick an ORDER BY; an unknown key picks none. */
  function QueryOrder(category: string, sortKey: string): Ordering
  {
    if category == PLANNER then
      if sortKey == "upload_date_desc" then LatestUploadDesc
      else if sortKey == "upload_date_asc" then LatestUploadAsc
      else if sortKey == "title_asc" then TitleAsc
      else Unordered
    else if category == DESIGNER then
      if sortKey == "created_at_desc" then CreatedAtDesc
      else if sortKey == "created_at_asc" then CreatedAtAsc
      else if sortKey == "title_asc" then TitleAsc
      else Unordered
    else if category == PROGRAMMER then
      if sortKey == "due_date_asc" then DueDateAscNullsLast
      else if sortKey == "due_date_desc" then DueDateDescNullsFirst
      else if sortKey == "status_asc" then StatusAsc
      else Unordered
    else Unordered
  }

  /**
   * What an ORDER BY guarantees of two rows that come out with `a` first.
   * For the planner's `max(uploaded_at)` orderings only two tasks that both
   * have files are constrained pairwise; where the NULL maxima go is stated
   * by NullMaximaTogether. Ties are left in any order.
   */
  predicate InOrder(o: Ordering, files: seq<UploadedFile>, a: Task, b: Task)
  {
    match o
    case LatestUploadDesc =>
      var la, lb := LatestUpload(files, a.id), LatestUpload(files, b.id);
      la.Some? && lb.Some? ==> la.value >= lb.value
    case LatestUploadAsc =>
      var la, lb := LatestUpload(files, a.id), LatestUpload(files, b.id);
      la.Some? && lb.Some? ==> la.value <= lb.value
    case TitleAsc => StrLe(a.title, b.title)
    case CreatedAtDesc => a.createdAt >= b.createdAt
    case CreatedAtAsc => a.createdAt <= b.createdAt
    case DueDateAscNullsLast =>
      b.dueDate.Some? ==> a.dueDate.Some? && a.dueDate.value <= b.dueDate.value
    case DueDateDescNullsFirst =>
      a.dueDate.Some? ==> b.dueDate.Some? && a.dueDate.value >= b.dueDate.value
    case StatusAsc => StrLe(a.status, b.status)
    case Unordered => true
  }

  ghost predicate Ordered(o: Ordering, files: seq<UploadedFile>, s: seq<Task>)
  {
    forall i, j :: 0 <= i < j < |s| ==> InOrder(o, files, s[i], s[j])
  }

  /**
   * The tasks without files, whose `max(uploaded_at)` is NULL, form one block
   * at one end of `r`: SQL sorts NULL keys together, either after every
   * non-NULL key or before every one, and the engine picks which.
   */
  ghost predicate NullMaximaTogether(files: seq<UploadedFile>, r: seq<Task>)
  {
    || (forall i, j :: 0 <= i < j < |r| && LatestUpload(files, r[i].id).None? ==> LatestUpload(files, r[j].id).None?)
    || (forall i, j :: 0 <= i < j < |r| && LatestUpload(files, r[j].id).None? ==> LatestUpload(files, r[i].id).None?)
  }

  /**
   * `r` is a result the query for `category` under `sortKey` may return:
   * exactly the tasks of that category, each once per row of the table
   * (the outer join is grouped back to one row per task), in the selected
   * order, with NULL upload maxima kept together under the upload orderings.
   */
  ghost predicate IsListing(category: string, sortKey: string, tasks: seq<Task>,
                            files: seq<UploadedFile>, r: seq<Task>)
  {
    var o := QueryOrder(category, sortKey);
    && multiset(r) == multiset(TasksIn(tasks, category))
    && Ordered(o, files, r)
    && (o.LatestUploadDesc? || o.LatestUploadAsc? ==> NullMaximaTogether(files, r))
  }

  /*
   * A witness that every query has a result: insertion sort by a total
   * preorder that refines InOrder (NULL upload maxima go last).
   */

  predicate Precedes(o: Ordering, files: seq<UploadedFile>, a: Task, b: Task)
  {
    match o
    case LatestUploadDesc =>
      var la, lb := LatestUpload(files, a.id), LatestUpload(files, b.id);
      if la.Some? && lb.Some? then la.value >= lb.value else lb.None?
    case LatestUploadAsc =>
      var la, lb := LatestUpload(files, a.id), LatestUpload(files, b.id);
      if la.Some? && lb.Some? then la.value <= lb.value else lb.None?
    case _ => InOrder(o, files, a, b)
  }

  lemma PrecedesInOrder(o: Ordering, files: seq<UploadedFile>, a: Task, b: Task)
    requires Precedes(o, files, a, b)
    ensures InOrder(o, files, a, b)
  {
  }

  lemma PrecedesTotal(o: Ordering, files: seq<UploadedFile>, a: Task, b: Task)
    ensures Precedes(o, files, a, b) || Precedes(o, files, b, a)
  {
    match o
    case TitleAsc => StrLeTotal(a.title, b.title);
    case StatusAsc => StrLeTotal(a.status, b.status);
    case _ =>
  }

  lemma PrecedesTransitive(o: Ordering, files: seq<UploadedFile>, a: Task, b: Task, c: Task)
    requires Precedes(o, files, a, b) && Precedes(o, files, b, c)
    ensures Precedes(o, files, a, c)
  {
    match o
    case TitleAsc => StrLeTransitive(a.title, b.title, c.title);
    case StatusAsc => StrLeTransitive(a.status, b.status, c.status);
    case _ =>
  }

  ghost predicate SortedBy(o: Ordering, files: seq<UploadedFile>, s: seq<Task>)
  {
    forall i, j :: 0 <= i < j < |s| ==> Precedes(o, files, s[i], s[j])
  }

  function Insert(o: Ordering, files: seq<UploadedFile>, x: Task, s: seq<Task>): (r: seq<Task>)
    ensures multiset(r) == multiset(s) + multiset{x}
  {
    if s == [] then [x]
    else if Precedes(o, files, x, s[0]) then [x] + s
    else
      assert s == [s[0]] + s[1..];
      [s[0]] + Insert(o, files, x, s[1..])
  }

  function SortBy(o: Ordering, files: seq<UploadedFile>, s: seq<Task>): (r: seq<Task>)
    ensures multiset(r) == multiset(s)
  {
    if s == [] then []
    else
      assert s == [s[0]] + s[1..];
      Insert(o, files, s[0], SortBy(o, files, s[1..]))
  }

  /** A row that precedes every row of a sorted sequence can be put in front of it. */
  lemma ConsSorted(o: Ordering, files: seq<UploadedFile>, a: Task, rest: seq<Task>)
    requires SortedBy(o, files, rest)
    requires forall k :: 0 <= k < |rest| ==> Precedes(o, files, a, rest[k])
    ensures SortedBy(o, files, [a] + rest)
  {
    var r := [a] + rest;
    forall i, j | 0 <= i < j < |r| ensures Precedes(o, files, r[i], r[j]) {
      assert r[j] == rest[j - 1];
      if i > 0 {
        assert r[i] == rest[i - 1];
      }
    }
  }

  /** Every row of `Insert(o, files, x, s)` is `x` or a row of `s`. */
  lemma InsertedFrom(o: Ordering, files: seq<UploadedFile>, x: Task, s: seq<Task>, k: nat)
    requires k < |Insert(o, files, x, s)|
    ensures Insert(o, files, x, s)[k] == x || Insert(o, files, x, s)[k] in s
  {
    var r := Insert(o, files, x, s);
    assert r[k] in multiset(r);
    assert r[k] != x ==> r[k] in multiset(s);
  }

  lemma {:induction false} InsertSorted(o: Ordering, files: seq<UploadedFile>, x: Task, s: seq<Task>)
    requires SortedBy(o, files, s)
    ensures SortedBy(o, files, Insert(o, files, x, s))
  {
    if s == [] {
    } else if Precedes(o, files, x, s[0]) {
      forall j | 0 <= j < |s| ensures Precedes(o, files, x, s[j]) {
        if j > 0 {
          PrecedesTransitive(o, files, x, s[0], s[j]);
        }
      }
      ConsSorted(o, files, x, s);
    } else {
      PrecedesTotal(o, files, x, s[0]);
      InsertSorted(o, files, x, s[1..]);
      var rest := Insert(o, files, x, s[1..]);
      forall k | 0 <= k < |rest| ensures Precedes(o, files, s[0], rest[k]) {
        InsertedFrom(o, files, x, s[1..], k);
        if rest[k] != x {
          var j :| 0 <= j < |s[1..]| && s[1..][j] == rest[k];
          assert s[j + 1] == rest[k];
        }
      }
      ConsSorted(o, files, s[0], rest);
    }
  }

  lemma {:induction false} SortBySorted(o: Ordering, files: seq<UploadedFile>, s: seq<Task>)
    ensures SortedBy(o, files, SortBy(o, files, s))
  {
    if s != [] {
      SortBySorted(o, files, s[1..]);
      InsertSorted(o, files, s[0], SortBy(o, files, s[1..]));
    }
  }

  /** One result the query can return: the filtered rows, sorted when a key was recognised. */
  function Listed(category: string, sortKey: string, tasks: seq<Task>, files: seq<UploadedFile>): seq<Task>
  {
    var o := QueryOrder(category, sortKey);
    var rows := TasksIn(tasks, category);
    if o == Unordered then rows else SortBy(o, files, rows)
  }

  /** Every (category, key) query has a result. */
  lemma ListedIsListing(category: string, sortKey: string, tasks: seq<Task>, files: seq<UploadedFile>)
    ensures IsListing(category, sortKey, tasks, files, Listed(category, sortKey, tasks, files))
  {
    var o := QueryOrder(category, sortKey);
    if o != Unordered {
      var r := SortBy(o, files, TasksIn(tasks, category));
      SortBySorted(o, files, TasksIn(tasks, category));
      forall i, j | 0 <= i < j < |r|
        ensures InOrder(o, files, r[i], r[j])
        ensures o.LatestUploadDesc? || o.LatestUploadAsc? ==>
          LatestUpload(files, r[i].id).None? ==> LatestUpload(files, r[j].id).None?
      {
        PrecedesInOrder(o, files, r[i], r[j]);
      }
    }
  }

  /** A listing holds exactly the tasks of its category. */
  lemma ListingMembers(category: string, sortKey: string, tasks: seq<Task>, files: seq<UploadedFile>,
                       r: seq<Task>, t: Task)
    requires IsListing(category, sortKey, tasks, files, r)
    ensures t in r <==> t in tasks && t.category == category
  {
    assert t in r <==> t in multiset(r);
    assert t in tasks <==> t in multiset(tasks);
  }

  /** No task is listed under two categories. */
  lemma ListingsDisjoint(c1: string, k1: string, c2: string, k2: string, tasks: seq<Task>,
                         files: seq<UploadedFile>, r1: seq<Task>, r2: seq<Task>, t: Task)
    requires c1 != c2
    requires IsListing(c1, k1, tasks, files, r1) && IsListing(c2, k2, tasks, files, r2)
    ensures !(t in r1 && t in r2)
  {
    ListingMembers(c1, k1, tasks, files, r1, t);
    ListingMembers(c2, k2, tasks, files, r2, t);
  }

  /** Each task appears once in its listing, also under the planner's outer join. */
  lemma ListingListsEachTaskOnce(category: string, sortKey: string, tasks: seq<Task>,
                                 files: seq<UploadedFile>, r: seq<Task>)
    requires DistinctIds(tasks)
    requires IsListing(category, sortKey, tasks, files, r)
    ensures DistinctIds(r)
  {
    assert multiset(TasksIn(tasks, category)) <= multiset(tasks);
    SubMultisetDistinctIds(r, tasks);
  }

  /** The order each recognised key yields, and the defaults when no key is given. */
  lemma ListingOrder(category: string, sortKey: string, tasks: seq<Task>, files: seq<UploadedFile>,
                     r: seq<Task>)
    requires IsListing(category, sortKey, tasks, files, r)
    ensures category == DESIGNER && sortKey == "created_at_desc" ==>
      forall i, j :: 0 <= i < j < |r| ==> r[i].createdAt >= r[j].createdAt
    ensures category == DESIGNER && sortKey == "created_at_asc" ==>
      forall i, j :: 0 <= i < j < |r| ==> r[i].createdAt <= r[j].createdAt
    ensures (category == PLANNER || category == DESIGNER) && sortKey == "title_asc" ==>
      forall i, j :: 0 <= i < j < |r| ==> StrLe(r[i].title, r[j].title)
    ensures category == PROGRAMMER && sortKey == "due_date_asc" ==>
      forall i, j :: 0 <= i < j < |r| && r[j].dueDate.Some? ==>
        r[i].dueDate.Some? && r[i].dueDate.value <= r[j].dueDate.value
    ensures category == PROGRAMMER && sortKey == "due_date_desc" ==>
      forall i, j :: 0 <= i < j < |r| && r[i].dueDate.Some? ==>
        r[j].dueDate.Some? && r[i].dueDate.value >= r[j].dueDate.value
    ensures category == PROGRAMMER && sortKey == "status_asc" ==>
      forall i, j :: 0 <= i < j < |r| ==> StrLe(r[i].status, r[j].status)
    ensures category == PLANNER && sortKey == "upload_date_desc" ==>
      forall i, j :: 0 <= i < j < |r| && LatestUpload(files, r[i].id).Some? && LatestUpload(files, r[j].id).Some? ==>
        LatestUpload(files, r[i].id).value >= LatestUpload(files, r[j].id).value
    ensures category == PLANNER && sortKey == "upload_date_asc" ==>
      forall i, j :: 0 <= i < j < |r| && LatestUpload(files, r[i].id).Some? && LatestUpload(files, r[j].id).Some? ==>
        LatestUpload(files, r[i].id).value <= LatestUpload(files, r[j].id).value
  {
  }

  /**
   * Under either upload ordering, a task with files never sits between two
   * planner tasks without files.
   */
  lemma UndatedUploadsContiguous(sortKey: string, tasks: seq<Task>, files: seq<UploadedFile>, r: seq<Task>,
                                 i: nat, j: nat, k: nat)
    requires sortKey == "upload_date_desc" || sortKey == "upload_date_asc"
    requires IsListing(PLANNER, sortKey, tasks, files, r)
    requires i < j < k < |r|
    requires LatestUpload(files, r[i].id).None? && LatestUpload(files, r[k].id).None?
    ensures LatestUpload(files, r[j].id).None?
  {
  }

  /** In an ascending due-date listing every dated task comes before every undated one. */
  lemma DatedBeforeUndated(tasks: seq<Task>, files: seq<UploadedFile>, r: seq<Task>, i: nat, j: nat)
    requires IsListing(PROGRAMMER, "due_date_asc", tasks, files, r)
    requires i < |r| && j < |r| && r[i].dueDate.Some? && r[j].dueDate.None?
    ensures i < j
  {
  }

  /** An absent sort parameter selects the category's documented default order. */
  lemma DefaultOrdering(args: map<string, string>)
    requires SortParameter(PLANNER) !in args
    requires SortParameter(DESIGNER) !in args
    requires SortParameter(PROGRAMMER) !in args
    ensures QueryOrder(PLANNER, SortOrders(args)[PLANNER]) == LatestUploadDesc
    ensures QueryOrder(DESIGNER, SortOrders(args)[DESIGNER]) == CreatedAtDesc
    ensures QueryOrder(PROGRAMMER, SortOrders(args)[PROGRAMMER]) == DueDateAscNullsLast
  {
  }

  /** A key that no branch recognises constrains nothing: any permutation will do. */
  lemma UnrecognisedKeyAnyPermutation(category: string, sortKey: string, tasks: seq<Task>,
                                      files: seq<UploadedFile>, r: seq<Task>)
    requires QueryOrder(category, sortKey) == Unordered
    requires multiset(r) == multiset(TasksIn(tasks, category))
    ensures IsListing(category, sortKey, tasks, files, r)
  {
  }

  /**
   * `latestUploadDate` gives every task of `rows`, and nothing else, the
   * time of its most recent upload.
   */
  ghost predicate Annotates(latestUploadDate: map<int, Option<int>>, rows: seq<Task>, files: seq<UploadedFile>)
  {
    && latestUploadDate.Keys == (set t | t in rows :: t.id)
    && forall t :: t in rows ==> latestUploadDate[t.id] == LatestUpload(files, t.id)
  }

  /**
   * The annotation loop of the page handler: every listed planner task
   * receives the time of its latest upload, or None.
   */
  method AnnotateLatestUploads(rows: seq<Task>, files: seq<UploadedFile>)
    returns (latestUploadDate: map<int, Option<int>>)
    ensures Annotates(latestUploadDate, rows, files)
  {
    latestUploadDate := map[];
    for j := 0 to |rows|
      invariant Annotates(latestUploadDate, rows[..j], files)
    {
      assert rows[..j + 1] == rows[..j] + [rows[j]];
      latestUploadDate := latestUploadDate[rows[j].id := LatestUpload(files, rows[j].id)];
    }
    assert rows[..|rows|] == rows;
  }

  /**
   * The database query of one category under its sort key (`query.all()`):
   * the rows it returns are a listing of that category.
   */
  method RunQuery(category: string, sortKey: string, tasks: seq<Task>, files: seq<UploadedFile>)
    returns (rows: seq<Task>)
    ensures IsListing(category, sortKey, tasks, files, rows)
  {
    rows := Listed(category, sortKey, tasks, files);
    ListedIsListing(category, sortKey, tasks, files);
  }

  /** The first `n` categories of `TASK_CATEGORIES` hold listings under their sort keys. */
  ghost predicate Filled(byCategory: map<string, seq<Task>>, sortOrders: map<string, string>,
                         tasks: seq<Task>, files: seq<UploadedFile>, n: nat)
  {
    forall k :: 0 <= k < n && k < |TASK_CATEGORIES| ==>
      && TASK_CATEGORIES[k] in byCategory && TASK_CATEGORIES[k] in sortOrders
      && IsListing(TASK_CATEGORIES[k], sortOrders[TASK_CATEGORIES[k]], tasks, files, byCategory[TASK_CATEGORIES[k]])
  }

  /** Storing the next category's listing extends the filled prefix by one. */
  lemma FillNext(byCategory: map<string, seq<Task>>, sortOrders: map<string, string>,
                 tasks: seq<Task>, files: seq<UploadedFile>, i: nat, rows: seq<Task>)
    requires i < |TASK_CATEGORIES| && TASK_CATEGORIES[i] in sortOrders
    requires Filled(byCategory, sortOrders, tasks, files, i)
    requires IsListing(TASK_CATEGORIES[i], sortOrders[TASK_CATEGORIES[i]], tasks, files, rows)
    ensures Filled(byCategory[TASK_CATEGORIES[i] := rows], sortOrders, tasks, files, i + 1)
  {
    CategoriesDistinct();
    assert TASK_CATEGORIES == [PLANNER, DESIGNER, PROGRAMMER];
  }

  /** Once every category is filled, every key of the dictionary holds its listing. */
  lemma FilledAll(byCategory: map<string, seq<Task>>, sortOrders: map<string, string>,
                  tasks: seq<Task>, files: seq<UploadedFile>)
    requires byCategory.Keys == {PLANNER, DESIGNER, PROGRAMMER}
    requires Filled(byCategory, sortOrders, tasks, files, |TASK_CATEGORIES|)
    ensures forall c :: c in byCategory ==> c in sortOrders && IsListing(c, sortOrders[c], tasks, files, byCategory[c])
  {
    forall c | c in byCategory
      ensures c in sortOrders && IsListing(c, sortOrders[c], tasks, files, byCategory[c])
    {
      var k := if c == PLANNER then 0 else if c == DESIGNER then 1 else 2;
      assert TASK_CATEGORIES[k] == c;
    }
  }

  /**
   * The page handler: one listing per category, filled into the
   * `tasks_by_category` dictionary in category order, then every planner
   * task annotated with its latest upload time. Non-planner tasks get no entry.
   */
  method Home(tasks: seq<Task>, files: seq<UploadedFile>, args: map<string, string>)
    returns (byCategory: map<string, seq<Task>>, latestUploadDate: map<int, Option<int>>)
    ensures byCategory.Keys == {PLANNER, DESIGNER, PROGRAMMER}
    ensures forall c :: c in byCategory ==> IsListing(c, SortOrders(args)[c], tasks, files, byCategory[c])
    ensures Annotates(latestUploadDate, byCategory[PLANNER], files)
  {
    CategoriesDistinct();
    assert TASK_CATEGORIES == [PLANNER, DESIGNER, PROGRAMMER];
    var sortOrders := SortOrders(args);
    byCategory := map[PLANNER := [], DESIGNER := [], PROGRAMMER := []];
    latestUploadDate := map[];
    ghost var plannerRows: seq<Task> := [];
    for i := 0 to |TASK_CATEGORIES|
      invariant byCategory.Keys == {PLANNER, DESIGNER, PROGRAMMER}
      invariant Filled(byCategory, sortOrders, tasks, files, i)
      invariant i > 0 ==> byCategory[PLANNER] == plannerRows
      invariant Annotates(latestUploadDate, plannerRows, files)
    {
      var category := TASK_CATEGORIES[i];
      var rows := RunQuery(category, sortOrders[category], tasks, files);
      FillNext(byCategory, sortOrders, tasks, files, i, rows);
      byCategory := byCategory[category := rows];
      if category == PLANNER {
        latestUploadDate := AnnotateLatestUploads(rows, files);
        plannerRows := rows;
      }
    }
    FilledAll(byCategory, sortOrders, tasks, files);
  }
}
