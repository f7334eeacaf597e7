/**
 * TaskController: the caller's id from the token, the request checks made
 * before the service is called, the mapping of service results to HTTP
 * responses, and the filter-and-sort pipeline of the task listing.
 */
module TaskController {
  import opened Wrappers
  import opened Text
  import opened Numeric
  import opened Seqs
  import opened Tables
  import opened Models
  import opened Dtos
  import opened Data
  import opened AuthService
  import opened TaskService

  /**
   * The HTTP outcomes: 200, 201, 204, 400 with an error, 404 with an error,
   * 400 for a body that fails its annotations, and 500.
   */
  datatype Response<T> =
    | Ok(body: T)
    | Created(body: T)
    | NoContent
    | BadRequest(error: string)
    | NotFound(error: string)
    | InvalidModel
    | ServerError

  /** The request left every table as it was. */
  twostate predicate Untouched(db: Database)
    reads db
  {
    db.users == old(db.users) && db.projects == old(db.projects) && db.tasks == old(db.tasks)
  }

  const TaskNotFoundMessage: string := "Task not found or access denied."

  const MismatchMessage: string := "ProjectId in body does not match ProjectId in route."

  /**
   * GetUserId: the NameIdentifier claim parsed as an int, with "0" standing
   * in for a missing claim. None is a claim `int.Parse` rejects; its
   * exception ends the request with a 500.
   */
  function CallerId(nameIdentifier: Option<string>): (r: Option<int>)
    ensures nameIdentifier.None? ==> r == Some(0)
  {
    ParseIntToString(0);
    ParseInt(if nameIdentifier.Some? then nameIdentifier.value else "0")
  }

  /** A token issued at login identifies its user to every task endpoint. */
  lemma IssuedTokenIdentifiesUser(user: User, now: int)
    ensures CallerId(Some(GenerateToken(user, now).nameIdentifier)) == Some(user.id)
  {
  }

  /** A body ProjectId that is set (non-zero) and differs from the route's. */
  predicate ProjectIdMismatch(routeProjectId: int, dto: TaskCreateDto) {
    dto.projectId != 0 && dto.projectId != routeProjectId
  }

  /** A body that omits ProjectId binds it to 0, which never conflicts with the route. */
  lemma OmittedProjectIdNeverMismatches(routeProjectId: int, body: TaskCreateBody)
    requires body.projectId.None?
    ensures !ProjectIdMismatch(routeProjectId, BindTaskCreate(body))
  {
  }

  /**
   * POST projects/{projectId}/tasks: an invalid body and a conflicting
   * ProjectId are refused before the service is called; service failures
   * become 400 with the service's message.
   */
  method CreateTask(db: Database, projectId: int, dto: TaskCreateDto, nameIdentifier: Option<string>, now: int)
    returns (resp: Response<TaskItem>)
    requires db.Valid()
    modifies db
    ensures db.Valid()
    ensures db.users == old(db.users) && db.projects == old(db.projects)
    ensures !ValidTaskCreate(dto) ==> resp == InvalidModel && Untouched(db)
    ensures ValidTaskCreate(dto) && ProjectIdMismatch(projectId, dto) ==>
      resp == BadRequest(MismatchMessage) && Untouched(db)
    ensures ValidTaskCreate(dto) && !ProjectIdMismatch(projectId, dto) && CallerId(nameIdentifier).None? ==>
      resp == ServerError && Untouched(db)
    ensures ValidTaskCreate(dto) && !ProjectIdMismatch(projectId, dto) && CallerId(nameIdentifier).Some? ==>
      (var userId := CallerId(nameIdentifier).value;
       && (!OwnsProject(old(db.projects), projectId, userId) ==>
             resp == BadRequest(ErrorMessage(ProjectNotFound)) && Untouched(db))
       && (OwnsProject(old(db.projects), projectId, userId) ==>
             && resp == Created(TaskItem(old(db.tasks.nextId), dto.title.value, dto.dueDate, dto.isCompleted, projectId, now))
             && db.tasks == Add(old(db.tasks), resp.body)))
  {
    if !ValidTaskCreate(dto) {
      return InvalidModel;
    }
    if ProjectIdMismatch(projectId, dto) {
      return BadRequest(MismatchMessage);
    }
    var userId := CallerId(nameIdentifier);
    if userId.None? {
      return ServerError;
    }
    var result := TaskService.CreateTask(db, projectId, dto, userId.value, now);
    match result
    case Ok(task) => resp := Created(task);
    case Err(e) => resp := BadRequest(ErrorMessage(e));
  }

  /**
   * PUT tasks/{taskId}: a task the caller cannot reach is reported as not
   * found. The body passed its annotations, so its title always replaces
   * the stored one.
   */
  method UpdateTask(db: Database, taskId: int, dto: TaskCreateDto, nameIdentifier: Option<string>)
    returns (resp: Response<TaskItem>)
    requires db.Valid()
    modifies db
    ensures db.Valid()
    ensures db.users == old(db.users) && db.projects == old(db.projects)
    ensures !ValidTaskCreate(dto) ==> resp == InvalidModel && Untouched(db)
    ensures ValidTaskCreate(dto) && CallerId(nameIdentifier).None? ==> resp == ServerError && Untouched(db)
    ensures ValidTaskCreate(dto) && CallerId(nameIdentifier).Some? ==>
      (var userId := CallerId(nameIdentifier).value;
       && (!TaskVisible(old(db.projects), old(db.tasks), taskId, userId) ==>
             resp == NotFound(TaskNotFoundMessage) && Untouched(db))
       && (TaskVisible(old(db.projects), old(db.tasks), taskId, userId) ==>
             && resp.Ok?
             && resp.body.id == taskId
             && resp.body.projectId == old(db.tasks.rows[taskId].projectId)
             && resp.body.createdAt == old(db.tasks.rows[taskId].createdAt)
             && resp.body.title == dto.title.value
             && resp.body.dueDate == (if dto.dueDate.Some? then dto.dueDate else old(db.tasks.rows[taskId].dueDate))
             && resp.body.isCompleted == dto.isCompleted
             && db.tasks == Table(old(db.tasks.rows)[taskId := resp.body], old(db.tasks.nextId))))
  {
    if !ValidTaskCreate(dto) {
      return InvalidModel;
    }
    var userId := CallerId(nameIdentifier);
    if userId.None? {
      return ServerError;
    }
    var task := TaskService.UpdateTask(db, taskId, dto, userId.value);
    if task.None? {
      return NotFound(TaskNotFoundMessage);
    }
    resp := Response.Ok(task.value);
  }

  /**
   * PUT tasks/{taskId} with the body as sent: members the body omits take
   * the DTO's defaults before the update runs. A body without IsCompleted
   * therefore marks the task not completed, and the body's ProjectId never
   * moves the task to another project.
   */
  method UpdateTaskFromBody(db: Database, taskId: int, body: TaskCreateBody, nameIdentifier: Option<string>)
    returns (resp: Response<TaskItem>)
    requires db.Valid()
    modifies db
    ensures db.Valid()
    ensures resp.Ok? ==> taskId in db.tasks.rows && db.tasks.rows[taskId] == resp.body
    ensures resp.Ok? && body.isCompleted.None? ==> !resp.body.isCompleted
    ensures resp.Ok? && body.isCompleted.Some? ==> resp.body.isCompleted == body.isCompleted.value
    ensures resp.Ok? ==> taskId in old(db.tasks.rows) && resp.body.projectId == old(db.tasks.rows[taskId].projectId)
    ensures db.users == old(db.users) && db.projects == old(db.projects)
    ensures resp.Ok? ==> db.tasks == Table(old(db.tasks.rows)[taskId := resp.body], old(db.tasks.nextId))
    ensures !resp.Ok? ==> Untouched(db)
  {
    resp := UpdateTask(db, taskId, BindTaskCreate(body), nameIdentifier);
  }

  /** DELETE tasks/{taskId}: 204 when the caller's task was removed, otherwise not found. */
  method DeleteTask(db: Database, taskId: int, nameIdentifier: Option<string>) returns (resp: Response<()>)
    requires db.Valid()
    modifies db
    ensures db.Valid()
    ensures db.users == old(db.users) && db.projects == old(db.projects)
    ensures CallerId(nameIdentifier).None? ==> resp == ServerError && Untouched(db)
    ensures CallerId(nameIdentifier).Some? ==>
      (var userId := CallerId(nameIdentifier).value;
       && (!TaskVisible(old(db.projects), old(db.tasks), taskId, userId) ==>
             resp == NotFound(TaskNotFoundMessage) && Untouched(db))
       && (TaskVisible(old(db.projects), old(db.tasks), taskId, userId) ==>
             resp == NoContent && db.tasks == Table(old(db.tasks.rows) - {taskId}, old(db.tasks.nextId))))
  {
    var userId := CallerId(nameIdentifier);
    if userId.None? {
      return ServerError;
    }
    var success := TaskService.DeleteTask(db, taskId, userId.value);
    if !success {
      return NotFound(TaskNotFoundMessage);
    }
    resp := NoContent;
  }

  /** The `sort` query parameter: "duedate", "title", or anything else (absent included) for the id. */
  datatype SortKey = ByDueDate | ByTitle | ById

  function SortKeyOf(sort: Option<string>): SortKey {
    if sort == Some("duedate") then ByDueDate
    else if sort == Some("title") then ByTitle
    else ById
  }

  /** Ascending due dates with a missing date first, as SQLite orders NULL. */
  predicate DueDateBefore(a: Option<int>, b: Option<int>) {
    (a.None? && b.Some?) || (a.Some? && b.Some? && a.value < b.value)
  }

  /** The listing order for a sort key: the key ascending, ties (which SQL leaves open) by ascending id. */
  predicate Precedes(key: SortKey, a: TaskItem, b: TaskItem) {
    match key
    case ByDueDate => DueDateBefore(a.dueDate, b.dueDate) || (a.dueDate == b.dueDate && a.id <= b.id)
    case ByTitle => OrdinalLess(a.title, b.title) || (a.title == b.title && a.id <= b.id)
    case ById => a.id <= b.id
  }

  function Order(key: SortKey): (TaskItem, TaskItem) -> bool {
    (a: TaskItem, b: TaskItem) => Precedes(key, a, b)
  }

  lemma OrderIsTotalPreorder(key: SortKey)
    ensures TotalPreorder(Order(key))
  {
    if key == ByTitle {
      forall a: TaskItem, b: TaskItem ensures Order(key)(a, b) || Order(key)(b, a) {
        OrdinalLessTotal(a.title, b.title);
      }
      forall a: TaskItem, b: TaskItem, c: TaskItem | Order(key)(a, b) && Order(key)(b, c)
        ensures Order(key)(a, c)
      {
        if OrdinalLess(a.title, b.title) && OrdinalLess(b.title, c.title) {
          OrdinalLessTransitive(a.title, b.title, c.title);
        }
      }
    }
  }

  function CompletionIs(completed: bool): TaskItem -> bool {
    (t: TaskItem) => t.isCompleted == completed
  }

  /** The query GetTasks runs: the caller's tasks of the project, filtered on completion if asked, then sorted. */
  function ListTasks(
    projects: Table<Project>, tasks: Table<TaskItem>, projectId: int, userId: int,
    completed: Option<bool>, sort: Option<string>): (r: seq<TaskItem>)
    ensures forall t :: t in r ==> t in tasks.rows.Values && t.projectId == projectId && OwnsProject(projects, projectId, userId)
    ensures completed.Some? ==> forall t :: t in r ==> t.isCompleted == completed.value
  {
    var query := QueryableTasks(projects, tasks, projectId, userId);
    match completed
    case None => SortBy(query, Order(SortKeyOf(sort)))
    case Some(c) =>
      FilterMembers(query, CompletionIs(c));
      SortBy(Filter(query, CompletionIs(c)), Order(SortKeyOf(sort)))
  }

  /** GET projects/{projectId}/tasks: the listing, or a 500 when the caller's id cannot be read. */
  function GetTasks(
    projects: Table<Project>, tasks: Table<TaskItem>, projectId: int, nameIdentifier: Option<string>,
    completed: Option<bool>, sort: Option<string>): (r: Response<seq<TaskItem>>)
    ensures r.Ok? || r.ServerError?
    ensures r.ServerError? <==> CallerId(nameIdentifier).None?
    ensures r.Ok? ==> forall t :: t in r.body ==>
      && t in tasks.rows.Values && t.projectId == projectId
      && OwnsProject(projects, projectId, CallerId(nameIdentifier).value)
      && (completed.Some? ==> t.isCompleted == completed.value)
  {
    match CallerId(nameIdentifier)
    case None => ServerError
    case Some(userId) => Response.Ok(ListTasks(projects, tasks, projectId, userId, completed, sort))
  }

  /**
   * Filtering and sorting add nothing and drop nothing: the listing holds
   * each of the caller's tasks of the project that passes the completion
   * filter exactly once, and no other task.
   */
  lemma ListTasksExact(
    projects: Table<Project>, tasks: Table<TaskItem>, projectId: int, userId: int,
    completed: Option<bool>, sort: Option<string>)
    requires TasksKeyed(tasks)
    ensures forall t :: (multiset(ListTasks(projects, tasks, projectId, userId, completed, sort))[t] ==
      if && t in tasks.rows.Values && t.projectId == projectId && OwnsProject(projects, projectId, userId)
         && (completed.None? || t.isCompleted == completed.value)
      then 1 else 0)
  {
    var query := QueryableTasks(projects, tasks, projectId, userId);
    QueryableTasksExact(projects, tasks, projectId, userId);
    if completed.Some? {
      forall t ensures multiset(Filter(query, CompletionIs(completed.value)))[t]
        == if CompletionIs(completed.value)(t) then multiset(query)[t] else 0
      {
        FilterCount(query, CompletionIs(completed.value), t);
      }
    }
  }

  /** What a sequence sorted under a key's order says about that key's field. */
  lemma SortedByKey(r: seq<TaskItem>, key: SortKey)
    requires Sorted(r, Order(key))
    ensures forall i, j :: 0 <= i < j < |r| ==>
      && (key == ByDueDate ==> !DueDateBefore(r[j].dueDate, r[i].dueDate))
      && (key == ByTitle ==> !OrdinalLess(r[j].title, r[i].title))
      && (key == ById ==> r[i].id <= r[j].id)
  {
    forall i, j | 0 <= i < j < |r|
      ensures key == ByTitle ==> !OrdinalLess(r[j].title, r[i].title)
    {
      assert Order(key)(r[i], r[j]);
      if key == ByTitle {
        if OrdinalLess(r[i].title, r[j].title) {
          OrdinalLessAsymmetric(r[i].title, r[j].title);
        } else {
          OrdinalLessIrreflexive(r[i].title);
        }
      }
    }
  }

  /** The listing is in the order the sort key asks for, ties by ascending id. */
  lemma ListTasksOrdered(
    projects: Table<Project>, tasks: Table<TaskItem>, projectId: int, userId: int,
    completed: Option<bool>, sort: Option<string>)
    ensures var r := ListTasks(projects, tasks, projectId, userId, completed, sort);
      forall i, j :: 0 <= i < j < |r| ==>
        && (SortKeyOf(sort) == ByDueDate ==> !DueDateBefore(r[j].dueDate, r[i].dueDate))
        && (SortKeyOf(sort) == ByTitle ==> !OrdinalLess(r[j].title, r[i].title))
        && (SortKeyOf(sort) == ById ==> r[i].id <= r[j].id)
    ensures Sorted(ListTasks(projects, tasks, projectId, userId, completed, sort), Order(SortKeyOf(sort)))
  {
    var query := QueryableTasks(projects, tasks, projectId, userId);
    var filtered := if completed.Some? then Filter(query, CompletionIs(completed.value)) else query;
    var key := SortKeyOf(sort);
    OrderIsTotalPreorder(key);
    SortBySorted(filtered, Order(key));
    SortedByKey(SortBy(filtered, Order(key)), key);
  }

  /** With no sort, or one the switch does not know, the listing falls back to id order instead of failing. */
  lemma UnknownSortFallsBack(
    projects: Table<Project>, tasks: Table<TaskItem>, projectId: int, nameIdentifier: Option<string>,
    completed: Option<bool>, sort: Option<string>)
    requires sort != Some("duedate") && sort != Some("title")
    ensures GetTasks(projects, tasks, projectId, nameIdentifier, completed, sort)
         == GetTasks(projects, tasks, projectId, nameIdentifier, completed, None)
    ensures CallerId(nameIdentifier).Some? ==> GetTasks(projects, tasks, projectId, nameIdentifier, completed, sort).Ok?
  {
    assert SortKeyOf(sort) == SortKeyOf(None) == ById;
  }

  /** Another user's project, or a deleted one, lists no tasks. */
  lemma ForeignProjectListsNothing(
    projects: Table<Project>, tasks: Table<TaskItem>, projectId: int, userId: int,
    completed: Option<bool>, sort: Option<string>)
    requires !OwnsProject(projects, projectId, userId)
    ensures ListTasks(projects, tasks, projectId, userId, completed, sort) == []
  {
    ForeignProjectHasNoTasks(projects, tasks, projectId, userId);
  }

  /** The listing depends only on the tasks the caller may see: other users' records cannot affect it. */
  lemma ListTasksNoninterference(
    p1: Table<Project>, t1: Table<TaskItem>, p2: Table<Project>, t2: Table<TaskItem>,
    projectId: int, userId: int, completed: Option<bool>, sort: Option<string>)
    requires KeysBelowNext(t1) && KeysBelowNext(t2)
    requires VisibleTasks(p1, t1, userId) == VisibleTasks(p2, t2, userId)
    ensures ListTasks(p1, t1, projectId, userId, completed, sort) == ListTasks(p2, t2, projectId, userId, completed, sort)
  {
    QueryableTasksNoninterference(p1, t1, p2, t2, projectId, userId);
  }

  /** Sample data: project 1 of user 7, and three of its tasks. */
  const SampleOwner: int := 7
  const SampleProjects: Table<Project> := Table(map[1 := Project(1, "Trip", "", 0, SampleOwner)], 2)
  const SampleDone: TaskItem := TaskItem(1, "Book flight", Some(20240101), true, 1, 0)
  const SampleUndated: TaskItem := TaskItem(2, "Pack bags", None, false, 1, 0)
  const SampleLater: TaskItem := TaskItem(3, "Renew passport", Some(20240601), false, 1, 0)
  const SampleTasks: Table<TaskItem> := Table(map[1 := SampleDone, 2 := SampleUndated, 3 := SampleLater], 4)

  lemma SampleRows()
    ensures Rows(SampleTasks) == [SampleDone, SampleUndated, SampleLater]
  {
    assert Scan(SampleTasks.rows, 1) == [];
    assert Scan(SampleTasks.rows, 2) == [SampleDone];
    assert Scan(SampleTasks.rows, 3) == [SampleDone, SampleUndated];
  }

  lemma SampleQuery()
    ensures QueryableTasks(SampleProjects, SampleTasks, 1, SampleOwner) == [SampleDone, SampleUndated, SampleLater]
  {
    SampleRows();
    var p := InProjectOf(SampleProjects, 1, SampleOwner);
    assert OwnsProject(SampleProjects, 1, SampleOwner);
    assert p(SampleDone) && p(SampleUndated) && p(SampleLater);
    FilterAll([SampleDone, SampleUndated, SampleLater], p);
  }

  lemma SampleIncomplete()
    ensures Filter([SampleDone, SampleUndated, SampleLater], CompletionIs(false)) == [SampleUndated, SampleLater]
  {
    var p := CompletionIs(false);
    assert [SampleDone, SampleUndated, SampleLater][1..] == [SampleUndated, SampleLater];
    assert [SampleUndated, SampleLater][1..] == [SampleLater];
    assert Filter([SampleLater], p) == [SampleLater];
  }

  lemma SampleSorted()
    ensures SortBy([SampleUndated, SampleLater], Order(ByDueDate)) == [SampleUndated, SampleLater]
  {
    assert [SampleUndated, SampleLater][1..] == [SampleLater];
    assert SortBy([SampleLater], Order(ByDueDate)) == [SampleLater];
    assert Order(ByDueDate)(SampleUndated, SampleLater);
  }

  /** The query behind `?completed=false&sort=duedate`. */
  lemma IncompleteByDueDate(projects: Table<Project>, tasks: Table<TaskItem>, projectId: int, userId: int)
    ensures ListTasks(projects, tasks, projectId, userId, Some(false), Some("duedate"))
         == SortBy(Filter(QueryableTasks(projects, tasks, projectId, userId), CompletionIs(false)), Order(ByDueDate))
  {
  }

  /**
   * Completed {true, false, false} with due dates {2024-01-01, none,
   * 2024-06-01}: listing the incomplete tasks by due date yields exactly
   * the two incomplete ones, the undated one first.
   */
  lemma IncompleteByDueDateExample()
    ensures ListTasks(SampleProjects, SampleTasks, 1, SampleOwner, Some(false), Some("duedate")) == [SampleUndated, SampleLater]
  {
    var query := QueryableTasks(SampleProjects, SampleTasks, 1, SampleOwner);
    calc {
      ListTasks(SampleProjects, SampleTasks, 1, SampleOwner, Some(false), Some("duedate"));
    == { IncompleteByDueDate(SampleProjects, SampleTasks, 1, SampleOwner); }
      SortBy(Filter(query, CompletionIs(false)), Order(ByDueDate));
    == { SampleQuery(); SampleIncomplete(); }
      SortBy([SampleUndated, SampleLater], Order(ByDueDate));
    == { SampleSorted(); }
      [SampleUndated, SampleLater];
    }
  }
}
