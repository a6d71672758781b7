/**
 * The task store and the four request handlers that change it: add a task,
 * attach an uploaded file, delete a task with its files, change a status.
 * The two tables are sequences of rows; the upload folder is the set of
 * names stored in it.
 */
module Store {

  import opened Wrappers
  import opened Text
  import opened FilePolicy
  import opened Schema

  /** The submitted due-date field: absent or empty, a date `strptime` accepts, or one it rejects. */
  datatype DateField = Blank | Parsed(day: int) | Malformed

  /** An entry of `request.files` under the key 'file'. */
  datatype FilePart = FilePart(filename: string)

  datatype AddOutcome = Added(id: int) | Ignored | DateParseError

  datatype UploadOutcome =
    | TaskNotFound
    | NoFilePart
    | NoFileName
    | Disallowed
    | Saved(fileId: int, storedName: string)

  datatype UpdateOutcome = UpdateNotFound | StatusIgnored | StatusChanged

  /** The guard of `add_task`: a non-empty title and one of the three categories. */
  predicate AcceptsNewTask(title: Option<string>, category: Option<string>)
  {
    title.Some? && title.value != "" && category.Some? && category.value in TASK_CATEGORIES
  }

  /** The name an accepted upload is stored under: the whole-second timestamp, '_', the sanitised name. */
  function StoredName(timestamp: int, secured: string): string
  {
    IntToDecimal(timestamp) + "_" + secured
  }

  /** The text before the first '_'. */
  function BeforeUnderscore(s: string): (r: string)
    ensures '_' !in r
  {
    if s == [] || s[0] == '_' then [] else [s[0]] + BeforeUnderscore(s[1..])
  }

  lemma {:induction false} BeforeUnderscoreOf(d: string, rest: string)
    requires '_' !in d
    ensures BeforeUnderscore(d + "_" + rest) == d
  {
    if d != [] {
      assert (d + "_" + rest)[1..] == d[1..] + "_" + rest;
      BeforeUnderscoreOf(d[1..], rest);
    }
  }

  /**
   * Two uploads receive the same stored name exactly when they happen in the
   * same second and their sanitised names agree: the prefix keeps uploads of
   * different seconds apart, and nothing else does.
   */
  lemma StoredNameInjective(t1: int, t2: int, s1: string, s2: string)
    ensures StoredName(t1, s1) == StoredName(t2, s2) <==> t1 == t2 && s1 == s2
  {
    var d1, d2 := IntToDecimal(t1), IntToDecimal(t2);
    DecimalHasNoUnderscore(t1);
    DecimalHasNoUnderscore(t2);
    BeforeUnderscoreOf(d1, s1);
    BeforeUnderscoreOf(d2, s2);
    var n1, n2 := StoredName(t1, s1), StoredName(t2, s2);
    assert n1[|d1| + 1..] == s1;
    assert n2[|d2| + 1..] == s2;
    if n1 == n2 {
      assert d1 == d2;
    }
  }

  /** The rendering of a timestamp, signed or not, contains no '_'. */
  lemma DecimalHasNoUnderscore(t: int)
    ensures '_' !in IntToDecimal(t)
  {
    var d := IntToDecimal(t);
    forall i | 0 <= i < |d| ensures d[i] != '_' {
      if t >= 0 {
        assert IsDigit(d[i]);
      } else if i > 0 {
        assert d[i] == d[1..][i - 1];
        assert IsDigit(d[1..][i - 1]);
      }
    }
  }

  /**
   * The consistency of the two tables: task ids are distinct and below the
   * next id; every task has one of the three categories and one of the four
   * statuses; every file row belongs to an existing task and has an id below
   * the next file id.
   */
  ghost predicate Consistent(tasks: seq<Task>, files: seq<UploadedFile>, nextTaskId: int, nextFileId: int)
  {
    && 0 < nextTaskId && 0 < nextFileId
    && DistinctIds(tasks) && DistinctFileIds(files)
    && (forall t :: t in tasks ==> 0 < t.id < nextTaskId)
    && (forall t :: t in tasks ==> t.category in TASK_CATEGORIES && t.status in TASK_STATUSES)
    && (forall f :: f in files ==> 0 < f.id < nextFileId && HasTask(tasks, f.taskId))
  }

  lemma TasksExceptMember(tasks: seq<Task>, taskId: int, t: Task)
    ensures t in TasksExcept(tasks, taskId) <==> t in tasks && t.id != taskId
  {
    assert t in TasksExcept(tasks, taskId) <==> t in multiset(TasksExcept(tasks, taskId));
    assert t in tasks <==> t in multiset(tasks);
  }

  lemma FilesExceptMember(files: seq<UploadedFile>, taskId: int, f: UploadedFile)
    ensures f in FilesExcept(files, taskId) <==> f in files && f.taskId != taskId
  {
    assert f in FilesExcept(files, taskId) <==> f in multiset(FilesExcept(files, taskId));
    assert f in files <==> f in multiset(files);
  }

  lemma TasksExceptDistinct(tasks: seq<Task>, taskId: int)
    requires DistinctIds(tasks)
    ensures DistinctIds(TasksExcept(tasks, taskId))
  {
    assert multiset(TasksExcept(tasks, taskId)) <= multiset(tasks);
    SubMultisetDistinctIds(TasksExcept(tasks, taskId), tasks);
  }

  /** The task rows that survive a delete keep their bounds, categories and statuses. */
  lemma TasksExceptRows(tasks: seq<Task>, nextTaskId: int, taskId: int)
    requires forall t :: t in tasks ==> 0 < t.id < nextTaskId
    requires forall t :: t in tasks ==> t.category in TASK_CATEGORIES && t.status in TASK_STATUSES
    ensures forall t :: t in TasksExcept(tasks, taskId) ==>
      && 0 < t.id < nextTaskId && t.id != taskId
      && t.category in TASK_CATEGORIES && t.status in TASK_STATUSES
  {
    forall t | t in TasksExcept(tasks, taskId) ensures t in tasks && t.id != taskId {
      TasksExceptMember(tasks, taskId, t);
    }
  }

  /** The file rows that survive a delete still belong to surviving tasks. */
  lemma FilesExceptRows(tasks: seq<Task>, files: seq<UploadedFile>, nextFileId: int, taskId: int)
    requires forall f :: f in files ==> 0 < f.id < nextFileId && HasTask(tasks, f.taskId)
    ensures forall f :: f in FilesExcept(files, taskId) ==>
      0 < f.id < nextFileId && f.taskId != taskId && HasTask(TasksExcept(tasks, taskId), f.taskId)
  {
    forall f | f in FilesExcept(files, taskId)
      ensures f in files && f.taskId != taskId && HasTask(TasksExcept(tasks, taskId), f.taskId)
    {
      FilesExceptMember(files, taskId, f);
      var owner :| owner in tasks && owner.id == f.taskId;
      TasksExceptMember(tasks, taskId, owner);
    }
  }

  /** Deleting a task with its file rows keeps the tables consistent and leaves no trace of it. */
  lemma DeleteKeepsConsistent(tasks: seq<Task>, files: seq<UploadedFile>, nextTaskId: int, nextFileId: int,
                              taskId: int)
    requires Consistent(tasks, files, nextTaskId, nextFileId)
    ensures Consistent(TasksExcept(tasks, taskId), FilesExcept(files, taskId), nextTaskId, nextFileId)
    ensures !HasTask(TasksExcept(tasks, taskId), taskId)
    ensures forall f :: f in FilesExcept(files, taskId) ==> f.taskId != taskId
  {
    TasksExceptDistinct(tasks, taskId);
    assert multiset(FilesExcept(files, taskId)) <= multiset(files);
    SubMultisetDistinctFileIds(FilesExcept(files, taskId), files);
    TasksExceptRows(tasks, nextTaskId, taskId);
    FilesExceptRows(tasks, files, nextFileId, taskId);
  }

  /** Recording a new file row under the next file id, for an existing task, keeps the tables consistent. */
  lemma AppendFileKeepsConsistent(tasks: seq<Task>, files: seq<UploadedFile>, nextTaskId: int, nextFileId: int,
                                  record: UploadedFile)
    requires Consistent(tasks, files, nextTaskId, nextFileId)
    requires record.id == nextFileId && HasTask(tasks, record.taskId)
    ensures Consistent(tasks, files + [record], nextTaskId, nextFileId + 1)
  {
    var fs := files + [record];
    forall i, j | 0 <= i < j < |fs| ensures fs[i].id != fs[j].id {
      if j == |files| {
        assert fs[i] in files;
      }
    }
  }

  /** Setting one task's status to one of the four keeps the tables consistent. */
  lemma StatusChangeKeepsConsistent(tasks: seq<Task>, files: seq<UploadedFile>, nextTaskId: int,
                                    nextFileId: int, i: nat, status: string)
    requires Consistent(tasks, files, nextTaskId, nextFileId)
    requires i < |tasks| && status in TASK_STATUSES
    ensures Consistent(tasks[i := tasks[i].(status := status)], files, nextTaskId, nextFileId)
  {
    var ts := tasks[i := tasks[i].(status := status)];
    assert forall t :: t in ts ==> t in tasks || t == ts[i];
    forall f | f in files ensures HasTask(ts, f.taskId) {
      var owner :| owner in tasks && owner.id == f.taskId;
      var j :| 0 <= j < |tasks| && tasks[j] == owner;
      assert ts[j].id == owner.id && ts[j] in ts;
    }
  }

  class TaskStore {
    /** The `tasks` table. */
    var tasks: seq<Task>
    /** The `uploaded_files` table. */
    var files: seq<UploadedFile>
    /** The names present in the upload folder. */
    var stored: set<string>
    /** The next value the id sequences hand out. */
    var nextTaskId: int
    var nextFileId: int

    ghost predicate Valid()
      reads this
    {
      Consistent(tasks, files, nextTaskId, nextFileId)
    }

    constructor ()
      ensures Valid()
      ensures tasks == [] && files == [] && stored == {}
      ensures nextTaskId == 1 && nextFileId == 1
    {
      tasks, files, stored := [], [], {};
      nextTaskId, nextFileId := 1, 1;
    }

    /**
     * `add_task`: when the guard holds, parses the due date and appends a
     * task with status 'ToDo' created at `now`; a rejected date aborts the
     * request. Otherwise nothing is written.
     */
    method AddTask(title: Option<string>, description: Option<string>, category: Option<string>,
                   dueDate: DateField, now: int) returns (outcome: AddOutcome)
      requires Valid()
      modifies this
      ensures Valid()
      ensures !AcceptsNewTask(title, category) ==> outcome == Ignored
      ensures AcceptsNewTask(title, category) && dueDate.Malformed? ==> outcome == DateParseError
      ensures AcceptsNewTask(title, category) && !dueDate.Malformed? ==> outcome == Added(old(nextTaskId))
      ensures outcome.Added? ==>
        tasks == old(tasks) + [Task(outcome.id, title.value, description, DEFAULT_STATUS, now,
                                    if dueDate.Parsed? then Some(dueDate.day) else None, category.value)]
        && nextTaskId == old(nextTaskId) + 1
      ensures !outcome.Added? ==> tasks == old(tasks) && nextTaskId == old(nextTaskId)
      ensures files == old(files) && stored == old(stored) && nextFileId == old(nextFileId)
    {
      if !AcceptsNewTask(title, category) {
        return Ignored;
      }
      if dueDate.Malformed? {
        return DateParseError;
      }
      var due := if dueDate.Parsed? then Some(dueDate.day) else None;
      var task := Task(nextTaskId, title.value, description, DEFAULT_STATUS, now, due, category.value);
      assert forall t :: t in tasks ==> t.id != task.id;
      tasks := tasks + [task];
      outcome := Added(nextTaskId);
      nextTaskId := nextTaskId + 1;
      assert forall f :: f in files ==> HasTask(old(tasks), f.taskId) ==> HasTask(tasks, f.taskId);
    }

    /**
     * `upload_file`: looks the task up, checks that a named file was sent and
     * that its extension is allowed for the task's category, then writes the
     * file under `StoredName(nowSeconds, secure(filename))` and records it
     * with upload time `uploadedAt`. Every refusal leaves everything as it was.
     */
    method UploadFile(taskId: int, file: Option<FilePart>, secure: string -> string,
                      nowSeconds: int, uploadedAt: int) returns (outcome: UploadOutcome)
      requires Valid()
      modifies this
      ensures Valid()
      ensures !HasTask(old(tasks), taskId) ==> outcome == TaskNotFound
      ensures HasTask(old(tasks), taskId) && file.None? ==> outcome == NoFilePart
      ensures HasTask(old(tasks), taskId) && file.Some? && file.value.filename == "" ==> outcome == NoFileName
      ensures outcome.Saved? <==>
        HasTask(old(tasks), taskId) && file.Some? && file.value.filename != ""
        && AllowedFile(file.value.filename, old(tasks)[FindTask(old(tasks), taskId).value].category)
      ensures outcome.Saved? ==>
        && outcome == Saved(old(nextFileId), StoredName(nowSeconds, secure(file.value.filename)))
        && files == old(files) + [UploadedFile(outcome.fileId, outcome.storedName, taskId, uploadedAt)]
        && stored == old(stored) + {outcome.storedName}
        && nextFileId == old(nextFileId) + 1
      ensures HasTask(old(tasks), taskId) && file.Some? && file.value.filename != ""
        && !AllowedFile(file.value.filename, old(tasks)[FindTask(old(tasks), taskId).value].category)
        ==> outcome == Disallowed
      ensures !outcome.Saved? ==> files == old(files) && stored == old(stored) && nextFileId == old(nextFileId)
      ensures tasks == old(tasks) && nextTaskId == old(nextTaskId)
    {
      var found := FindTask(tasks, taskId);
      if found.None? {
        return TaskNotFound;
      }
      var task := tasks[found.value];
      if file.None? {
        return NoFilePart;
      }
      var name := file.value.filename;
      if name == "" {
        return NoFileName;
      }
      if !AllowedFile(name, task.category) {
        return Disallowed;
      }
      var unique := StoredName(nowSeconds, secure(name));
      var record := UploadedFile(nextFileId, unique, taskId, uploadedAt);
      assert HasTask(tasks, record.taskId) by { assert task in tasks; }
      AppendFileKeepsConsistent(tasks, files, nextTaskId, nextFileId, record);
      stored := stored + {unique};
      files := files + [record];
      outcome := Saved(record.id, unique);
      nextFileId := nextFileId + 1;
    }

    /**
     * `delete_task`: removes from the folder every stored file of the task
     * that is present, then deletes the task and, by cascade, its file rows.
     */
    method DeleteTask(taskId: int) returns (found: bool)
      requires Valid()
      modifies this
      ensures Valid()
      ensures found == HasTask(old(tasks), taskId)
      ensures found ==>
        && tasks == TasksExcept(old(tasks), taskId)
        && files == FilesExcept(old(files), taskId)
        && stored == old(stored) - FileNamesOf(old(files), taskId)
      ensures !found ==> tasks == old(tasks) && files == old(files) && stored == old(stored)
      ensures !HasTask(tasks, taskId) && forall f :: f in files ==> f.taskId != taskId
      ensures nextTaskId == old(nextTaskId) && nextFileId == old(nextFileId)
    {
      var k := FindTask(tasks, taskId);
      if k.None? {
        return false;
      }
      found := true;
      RemoveStoredFiles(taskId);
      DeleteKeepsConsistent(tasks, files, nextTaskId, nextFileId, taskId);
      tasks := TasksExcept(tasks, taskId);
      files := FilesExcept(files, taskId);
    }

    /** The loop over the task's files: each stored file of theirs still present is removed. */
    method RemoveStoredFiles(taskId: int)
      modifies this`stored
      ensures stored == old(stored) - FileNamesOf(files, taskId)
    {
      for i := 0 to |files|
        invariant stored == old(stored) - FileNamesOf(files[..i], taskId)
      {
        assert files[..i + 1] == files[..i] + [files[i]];
        if files[i].taskId == taskId && files[i].filename in stored {
          stored := stored - {files[i].filename};
        }
      }
      assert files[..|files|] == files;
    }

    /**
     * `update_status`: looks the task up and sets its status when the new
     * value is one of the four statuses; any other value changes nothing.
     */
    method UpdateStatus(taskId: int, newStatus: Option<string>) returns (outcome: UpdateOutcome)
      requires Valid()
      modifies this
      ensures Valid()
      ensures !HasTask(old(tasks), taskId) ==> outcome == UpdateNotFound
      ensures HasTask(old(tasks), taskId) ==>
        outcome == if newStatus.Some? && newStatus.value in TASK_STATUSES then StatusChanged else StatusIgnored
      ensures |tasks| == |old(tasks)|
      ensures forall i :: 0 <= i < |tasks| ==>
        tasks[i] == if outcome == StatusChanged && old(tasks)[i].id == taskId
                    then old(tasks)[i].(status := newStatus.value)
                    else old(tasks)[i]
      ensures files == old(files) && stored == old(stored)
      ensures nextTaskId == old(nextTaskId) && nextFileId == old(nextFileId)
    {
      var k := FindTask(tasks, taskId);
      if k.None? {
        return UpdateNotFound;
      }
      if newStatus.None? || newStatus.value !in TASK_STATUSES {
        return StatusIgnored;
      }
      var i := k.value;
      StatusChangeKeepsConsistent(tasks, files, nextTaskId, nextFileId, i, newStatus.value);
      forall j | 0 <= j < |tasks| && j != i ensures tasks[j].id != taskId {
        assert tasks[j] != tasks[i] || j == i;
      }
      tasks := tasks[i := tasks[i].(status := newStatus.value)];
      outcome := StatusChanged;
    }
  }
}
