/**
 * The two tables, `tasks` and `uploaded_files`, as values, with the fixed
 * choice lists and the filters and aggregate the listing and the handlers
 * run over them.
 */
module Schema {

  import opened Wrappers
  import opened FilePolicy

  const TASK_STATUSES: seq<string> := ["ToDo", "InProgress", "Review", "Done"]
  const TASK_CATEGORIES: seq<string> := [PLANNER, DESIGNER, PROGRAMMER]

  /** The status a new task receives from the column default. */
  const DEFAULT_STATUS := "ToDo"

  /**
   * A row of `tasks`. Timestamps and dates are integers (seconds, days);
   * `dueDate` and `description` are the nullable columns.
   */
  datatype Task = Task(
    id: int,
    title: string,
    description: Option<string>,
    status: string,
    createdAt: int,
    dueDate: Option<int>,
    category: string)

  /** A row of `uploaded_files`: the stored name, the owning task, the upload time. */
  datatype UploadedFile = UploadedFile(id: int, filename: string, taskId: int, uploadedAt: int)

  predicate DistinctIds(tasks: seq<Task>)
  {
    forall i, j :: 0 <= i < j < |tasks| ==> tasks[i].id != tasks[j].id
  }

  predicate HasTask(tasks: seq<Task>, id: int)
  {
    exists t :: t in tasks && t.id == id
  }

  /** The primary key of `uploaded_files`: no two file rows share an id. */
  predicate DistinctFileIds(files: seq<UploadedFile>)
  {
    forall i, j :: 0 <= i < j < |files| ==> files[i].id != files[j].id
  }

  /** A sequence without repeated elements holds each value at most once. */
  lemma {:induction false} NoRepeatsAtMostOnce<T>(s: seq<T>, x: T)
    requires forall i, j :: 0 <= i < j < |s| ==> s[i] != s[j]
    ensures multiset(s)[x] <= 1
  {
    if s != [] {
      assert s == [s[0]] + s[1..];
      assert forall i, j :: 0 <= i < j < |s[1..]| ==> s[1..][i] != s[1..][j] by {
        forall i, j | 0 <= i < j < |s[1..]| ensures s[1..][i] != s[1..][j] {
          assert s[1..][i] == s[i + 1] && s[1..][j] == s[j + 1];
        }
      }
      NoRepeatsAtMostOnce(s[1..], x);
      if s[0] == x {
        assert x !in s[1..] by {
          forall j | 0 <= j < |s[1..]| ensures s[1..][j] != x {
            assert s[1..][j] == s[j + 1];
          }
        }
      }
    }
  }

  /** A value at two positions of a sequence occurs in it at least twice. */
  lemma TwoPositionsTwice<T>(s: seq<T>, i: nat, j: nat)
    requires i < j < |s|
    ensures s[i] == s[j] ==> multiset(s)[s[i]] >= 2
  {
    assert s == s[..j] + [s[j]] + s[j + 1..];
    assert s[i] in s[..j];
    assert multiset(s) == multiset(s[..j]) + multiset{s[j]} + multiset(s[j + 1..]);
  }

  /** Rows drawn from a table with distinct ids, each at most as often as there, have distinct ids. */
  lemma SubMultisetDistinctIds(s: seq<Task>, tasks: seq<Task>)
    requires DistinctIds(tasks)
    requires multiset(s) <= multiset(tasks)
    ensures DistinctIds(s)
  {
    forall i, j | 0 <= i < j < |s| ensures s[i].id != s[j].id {
      assert s[i] in multiset(tasks) && s[j] in multiset(tasks);
      TwoPositionsTwice(s, i, j);
      NoRepeatsAtMostOnce(tasks, s[i]);
      assert s[i] != s[j];
      var a :| 0 <= a < |tasks| && tasks[a] == s[i];
      var b :| 0 <= b < |tasks| && tasks[b] == s[j];
      assert a != b;
    }
  }

  /** The same for file rows: drawn from a table with distinct ids, they have distinct ids. */
  lemma SubMultisetDistinctFileIds(s: seq<UploadedFile>, files: seq<UploadedFile>)
    requires DistinctFileIds(files)
    requires multiset(s) <= multiset(files)
    ensures DistinctFileIds(s)
  {
    forall i, j | 0 <= i < j < |s| ensures s[i].id != s[j].id {
      assert s[i] in multiset(files) && s[j] in multiset(files);
      TwoPositionsTwice(s, i, j);
      NoRepeatsAtMostOnce(files, s[i]);
      assert s[i] != s[j];
      var a :| 0 <= a < |files| && files[a] == s[i];
      var b :| 0 <= b < |files| && files[b] == s[j];
      assert a != b;
    }
  }

  /** The position of the task with the given id: what `get_or_404` looks up. */
  function FindTask(tasks: seq<Task>, id: int): (r: Option<nat>)
    ensures r.Some? ==> r.value < |tasks| && tasks[r.value].id == id
    ensures r.None? <==> !HasTask(tasks, id)
  {
    if tasks == [] then None
    else if tasks[0].id == id then Some(0)
    else match FindTask(tasks[1..], id)
      case None => None
      case Some(k) => Some(k + 1)
  }

  /** With distinct ids the lookup finds the only task carrying that id. */
  lemma FindTaskUnique(tasks: seq<Task>, id: int, i: nat)
    requires DistinctIds(tasks) && i < |tasks| && tasks[i].id == id
    ensures FindTask(tasks, id) == Some(i)
  {
  }

  /** `filter_by(category=...)`: the tasks of one category, each as often as in the table. */
  function TasksIn(tasks: seq<Task>, category: string): (r: seq<Task>)
    ensures forall t :: multiset(r)[t] == if t.category == category then multiset(tasks)[t] else 0
  {
    if tasks == [] then []
    else
      assert tasks == [tasks[0]] + tasks[1..];
      (if tasks[0].category == category then [tasks[0]] else []) + TasksIn(tasks[1..], category)
  }

  /** The table after one task row is deleted: every other row, once each. */
  function TasksExcept(tasks: seq<Task>, id: int): (r: seq<Task>)
    ensures forall t :: multiset(r)[t] == if t.id == id then 0 else multiset(tasks)[t]
  {
    if tasks == [] then []
    else
      assert tasks == [tasks[0]] + tasks[1..];
      (if tasks[0].id == id then [] else [tasks[0]]) + TasksExcept(tasks[1..], id)
  }

  /** The file rows left after the rows owned by one task are deleted. */
  function FilesExcept(files: seq<UploadedFile>, taskId: int): (r: seq<UploadedFile>)
    ensures forall f :: multiset(r)[f] == if f.taskId == taskId then 0 else multiset(files)[f]
  {
    if files == [] then []
    else
      assert files == [files[0]] + files[1..];
      (if files[0].taskId == taskId then [] else [files[0]]) + FilesExcept(files[1..], taskId)
  }

  /** The stored names of the files owned by one task. */
  function FileNamesOf(files: seq<UploadedFile>, taskId: int): set<string>
  {
    set f | f in files && f.taskId == taskId :: f.filename
  }

  /** The larger of two optional timestamps, absence counting as the least. */
  function MaxOption(a: Option<int>, b: int): (r: int)
    ensures a.Some? ==> r >= a.value
    ensures r >= b
    ensures r == b || (a.Some? && r == a.value)
  {
    if a.Some? && a.value > b then a.value else b
  }

  /**
   * The most recent `uploaded_at` among the files of a task, or None when it
   * has none: the first row of the files ordered by upload time descending.
   */
  function LatestUpload(files: seq<UploadedFile>, taskId: int): (r: Option<int>)
    ensures r.None? <==> forall f :: f in files ==> f.taskId != taskId
    ensures r.Some? ==> forall f :: f in files && f.taskId == taskId ==> f.uploadedAt <= r.value
    ensures r.Some? ==> exists f :: f in files && f.taskId == taskId && f.uploadedAt == r.value
  {
    if files == [] then None
    else
      var rest := LatestUpload(files[1..], taskId);
      assert forall f :: f in files ==> f == files[0] || f in files[1..];
      if files[0].taskId != taskId then rest
      else Some(MaxOption(rest, files[0].uploadedAt))
  }
}
