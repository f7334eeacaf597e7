/**
 * TaskService: create, update and delete tasks, and the base query of the
 * task listing. A task is reachable only through a project the caller owns.
 */
module TaskService {
  import opened Wrappers
  import opened Text
  import opened Seqs
  import opened Tables
  import opened Models
  import opened Dtos
  import opened Data

  /**
   * The two ways CreateTaskAsync fails, after its exceptions are rewrapped:
   * no owned project ("Failed to create task.") and a blank title
   * ("Missing required field for task.").
   */
  datatype TaskError = ProjectNotFound | MissingTitle

  function ErrorMessage(e: TaskError): string {
    match e
    case ProjectNotFound => "Failed to create task."
    case MissingTitle => "Missing required field for task."
  }

  /** The lookup of UpdateTaskAsync and DeleteTaskAsync: the task, joined to a project the caller owns. */
  predicate TaskVisible(projects: Table<Project>, tasks: Table<TaskItem>, taskId: int, userId: int) {
    taskId in tasks.rows && OwnsTask(projects, tasks.rows[taskId], userId)
  }

  /**
   * CreateTaskAsync: the project must exist and be the caller's, and only
   * then is the title checked; the task lands in the route's project.
   */
  method CreateTask(db: Database, projectId: int, dto: TaskCreateDto, userId: int, now: int) returns (r: Result<TaskItem, TaskError>)
    requires db.Valid()
    modifies db
    ensures db.Valid()
    ensures db.users == old(db.users) && db.projects == old(db.projects)
    ensures !OwnsProject(old(db.projects), projectId, userId) ==>
      r == Err(ProjectNotFound) && db.tasks == old(db.tasks)
    ensures OwnsProject(old(db.projects), projectId, userId) && IsNullOrWhiteSpace(dto.title) ==>
      r == Err(MissingTitle) && db.tasks == old(db.tasks)
    ensures OwnsProject(old(db.projects), projectId, userId) && !IsNullOrWhiteSpace(dto.title) ==>
      && r == Ok(TaskItem(old(db.tasks.nextId), dto.title.value, dto.dueDate, dto.isCompleted, projectId, now))
      && db.tasks == Add(old(db.tasks), r.value)
    ensures r.Ok? ==> r.value.id in db.tasks.rows && db.tasks.rows[r.value.id] == r.value
    ensures forall u :: u != userId ==> VisibleTasks(db.projects, db.tasks, u) == VisibleTasks(old(db.projects), old(db.tasks), u)
  {
    if !OwnsProject(db.projects, projectId, userId) {
      return Err(ProjectNotFound);
    }
    if IsNullOrWhiteSpace(dto.title) {
      return Err(MissingTitle);
    }
    var task := TaskItem(db.tasks.nextId, dto.title.value, dto.dueDate, dto.isCompleted, projectId, now);
    ghost var before := db.tasks;
    db.tasks := Add(db.tasks, task);
    r := Ok(task);
    forall u | u != userId ensures VisibleTasks(db.projects, db.tasks, u) == VisibleTasks(db.projects, before, u) {
      assert task.id !in VisibleTasks(db.projects, db.tasks, u);
    }
  }

  /**
   * UpdateTaskAsync: a blank title keeps the old one, an absent due date
   * keeps the old one, and the completion flag is always overwritten.
   */
  method UpdateTask(db: Database, taskId: int, dto: TaskCreateDto, userId: int) returns (r: Option<TaskItem>)
    requires db.Valid()
    modifies db
    ensures db.Valid()
    ensures db.users == old(db.users) && db.projects == old(db.projects)
    ensures !TaskVisible(old(db.projects), old(db.tasks), taskId, userId) ==> r == None && db.tasks == old(db.tasks)
    ensures TaskVisible(old(db.projects), old(db.tasks), taskId, userId) ==>
      && r.Some?
      && r.value.id == taskId
      && r.value.projectId == old(db.tasks.rows[taskId].projectId)
      && r.value.createdAt == old(db.tasks.rows[taskId].createdAt)
      && r.value.title == (if IsNullOrWhiteSpace(dto.title) then old(db.tasks.rows[taskId].title) else dto.title.value)
      && r.value.dueDate == (if dto.dueDate.Some? then dto.dueDate else old(db.tasks.rows[taskId].dueDate))
      && r.value.isCompleted == dto.isCompleted
      && db.tasks == Table(old(db.tasks.rows)[taskId := r.value], old(db.tasks.nextId))
    ensures TaskVisible(old(db.projects), old(db.tasks), taskId, userId) && old(db.tasks.rows[taskId].dueDate.Some?) ==>
      r.value.dueDate.Some?
    ensures forall u :: u != userId ==> VisibleTasks(db.projects, db.tasks, u) == VisibleTasks(old(db.projects), old(db.tasks), u)
  {
    if !TaskVisible(db.projects, db.tasks, taskId, userId) {
      return None;
    }
    var task := db.tasks.rows[taskId];
    if !IsNullOrWhiteSpace(dto.title) {
      task := task.(title := dto.title.value);
    }
    if dto.dueDate.Some? {
      task := task.(dueDate := dto.dueDate);
    }
    task := task.(isCompleted := dto.isCompleted);
    ghost var before := db.tasks;
    db.tasks := db.tasks.(rows := db.tasks.rows[taskId := task]);
    r := Some(task);
    forall u | u != userId ensures VisibleTasks(db.projects, db.tasks, u) == VisibleTasks(db.projects, before, u) {
      assert taskId !in VisibleTasks(db.projects, db.tasks, u);
      assert taskId !in VisibleTasks(db.projects, before, u);
    }
  }

  /** DeleteTaskAsync: removes exactly the task when the caller owns it, and reports whether it did. */
  method DeleteTask(db: Database, taskId: int, userId: int) returns (ok: bool)
    requires db.Valid()
    modifies db
    ensures db.Valid()
    ensures ok == TaskVisible(old(db.projects), old(db.tasks), taskId, userId)
    ensures db.users == old(db.users) && db.projects == old(db.projects)
    ensures !ok ==> db.tasks == old(db.tasks)
    ensures ok ==> db.tasks == Table(old(db.tasks.rows) - {taskId}, old(db.tasks.nextId))
    ensures !TaskVisible(db.projects, db.tasks, taskId, userId)
    ensures forall u :: u != userId ==> VisibleTasks(db.projects, db.tasks, u) == VisibleTasks(old(db.projects), old(db.tasks), u)
  {
    if !TaskVisible(db.projects, db.tasks, taskId, userId) {
      return false;
    }
    ghost var before := db.tasks;
    db.tasks := Table(db.tasks.rows - {taskId}, db.tasks.nextId);
    ok := true;
    forall u | u != userId ensures VisibleTasks(db.projects, db.tasks, u) == VisibleTasks(db.projects, before, u) {
      assert taskId !in VisibleTasks(db.projects, before, u);
    }
  }

  /** The predicate of GetQueryableTasks: in the project, and the project is the caller's. */
  function InProjectOf(projects: Table<Project>, projectId: int, userId: int): TaskItem -> bool {
    (t: TaskItem) => t.projectId == projectId && OwnsTask(projects, t, userId)
  }

  /** GetQueryableTasks: the tasks of one project, provided the caller owns it. */
  function QueryableTasks(projects: Table<Project>, tasks: Table<TaskItem>, projectId: int, userId: int): (r: seq<TaskItem>)
    ensures forall t :: t in r ==> t in tasks.rows.Values && t.projectId == projectId && OwnsProject(projects, projectId, userId)
  {
    FilterMembers(Rows(tasks), InProjectOf(projects, projectId, userId));
    Filter(Rows(tasks), InProjectOf(projects, projectId, userId))
  }

  /** The base query holds every task of the caller's project exactly once, and nothing else. */
  lemma QueryableTasksExact(projects: Table<Project>, tasks: Table<TaskItem>, projectId: int, userId: int)
    requires TasksKeyed(tasks)
    ensures forall t :: (multiset(QueryableTasks(projects, tasks, projectId, userId))[t] ==
      if t in tasks.rows.Values && t.projectId == projectId && OwnsProject(projects, projectId, userId) then 1 else 0)
  {
    var r := QueryableTasks(projects, tasks, projectId, userId);
    FilterMembers(Rows(tasks), InProjectOf(projects, projectId, userId));
    RowsAreValues(tasks);
    ScanNoDuplicates(tasks.rows, tasks.nextId, TaskKey);
    assert NoDuplicates(r) by {
      assert forall x :: multiset(r)[x] <= multiset(Rows(tasks))[x];
    }
    forall t ensures multiset(r)[t]
      == if t in tasks.rows.Values && t.projectId == projectId && OwnsProject(projects, projectId, userId) then 1 else 0
    {
      CountOfDistinct(r, t);
    }
  }

  /** Another user's project, or one that does not exist, has no tasks to list. */
  lemma ForeignProjectHasNoTasks(projects: Table<Project>, tasks: Table<TaskItem>, projectId: int, userId: int)
    requires !OwnsProject(projects, projectId, userId)
    ensures QueryableTasks(projects, tasks, projectId, userId) == []
  {
    FilterNone(Rows(tasks), InProjectOf(projects, projectId, userId));
  }

  /** The base query depends only on the tasks the caller may see. */
  lemma QueryableTasksNoninterference(
    p1: Table<Project>, t1: Table<TaskItem>, p2: Table<Project>, t2: Table<TaskItem>, projectId: int, userId: int)
    requires KeysBelowNext(t1) && KeysBelowNext(t2)
    requires VisibleTasks(p1, t1, userId) == VisibleTasks(p2, t2, userId)
    ensures QueryableTasks(p1, t1, projectId, userId) == QueryableTasks(p2, t2, projectId, userId)
  {
    var n := if t1.nextId < t2.nextId then t2.nextId else t1.nextId;
    ScanPastKeys(t1.rows, t1.nextId, n);
    ScanPastKeys(t2.rows, t2.nextId, n);
    var q1, q2 := InProjectOf(p1, projectId, userId), InProjectOf(p2, projectId, userId);
    var v1, v2 := VisibleTasks(p1, t1, userId), VisibleTasks(p2, t2, userId);
    forall k | 0 <= k < n
      ensures (k in t1.rows && q1(t1.rows[k])) <==> (k in t2.rows && q2(t2.rows[k]))
      ensures k in t1.rows && q1(t1.rows[k]) ==> k in t2.rows && t1.rows[k] == t2.rows[k]
    {
      assert (k in t1.rows && q1(t1.rows[k])) <==> (k in v1 && v1[k].projectId == projectId);
      assert (k in t2.rows && q2(t2.rows[k])) <==> (k in v2 && v2[k].projectId == projectId);
    }
    FilterScanAgree(t1.rows, q1, t2.rows, q2, n);
  }
}
