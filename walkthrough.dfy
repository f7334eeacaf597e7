/**
 * A new user's first session against a fresh store: register, log in,
 * create a project, list its tasks, add one, and list the open ones.
 */
module Walkthrough {
  import opened Wrappers
  import opened Text
  import opened Seqs
  import opened Tables
  import opened Models
  import opened Dtos
  import opened Data
  import opened AuthService
  import ProjectService
  import opened TaskController

  /** Register "bob", log in, and create his first project, "Trip", in a fresh store. */
  method SignUpWithProject(crypto: Crypto, now: int)
    returns (db: Database, userId: int, caller: Option<string>, project: int)
    requires VerifiesOwnHashes(crypto)
    ensures fresh(db) && db.Valid()
    ensures CallerId(caller) == Some(userId)
    ensures project == 1 && OwnsProject(db.projects, project, userId)
    ensures db.tasks == Empty()
  {
    db := new Database();
    var user, token := RegisterThenLogin(db, RegisterDto(Some("bob"), Some("abcdef")), crypto, now);
    userId := user.id;
    caller := Some(token.nameIdentifier);
    assert !IsWhiteSpace("Trip"[0]);
    var trip := ProjectService.CreateProject(db, ProjectCreateDto(Some("Trip"), None), userId, now);
    project := trip.value.id;
  }

  /**
   * The whole session: the new project lists no tasks, a task added to it
   * is created, and the list of open tasks then contains it.
   */
  method FirstSession(crypto: Crypto, now: int)
    returns (project: int, before: Response<seq<TaskItem>>, created: Response<TaskItem>, after: Response<seq<TaskItem>>)
    requires VerifiesOwnHashes(crypto)
    ensures project == 1
    ensures before == Response.Ok([])
    ensures created.Created? && created.body.title == "Pack bags" && created.body.projectId == project
    ensures after.Ok? && created.body in after.body
  {
    var db, userId, caller;
    db, userId, caller, project := SignUpWithProject(crypto, now);

    assert Scan(db.tasks.rows, 1) == [];
    before := GetTasks(db.projects, db.tasks, project, caller, None, None);

    var packing := TaskCreateDto(Some("Pack bags"), None, 0, false);
    assert !IsWhiteSpace("Pack bags"[0]);
    created := TaskController.CreateTask(db, project, packing, caller, now);
    var task := created.body;
    assert db.tasks.rows[db.tasks.nextId - 1] == task;

    ListedOpenTask(db.projects, db.tasks, project, userId, task);
    after := GetTasks(db.projects, db.tasks, project, caller, Some(false), None);
  }

  /** A stored, open task of the caller's project appears in the listing of open tasks. */
  lemma ListedOpenTask(projects: Table<Project>, tasks: Table<TaskItem>, projectId: int, userId: int, task: TaskItem)
    requires TasksKeyed(tasks) && OwnsProject(projects, projectId, userId)
    requires task in tasks.rows.Values && task.projectId == projectId && !task.isCompleted
    ensures task in ListTasks(projects, tasks, projectId, userId, Some(false), None)
  {
    ListTasksExact(projects, tasks, projectId, userId, Some(false), None);
    assert multiset(ListTasks(projects, tasks, projectId, userId, Some(false), None))[task] == 1;
  }
}
