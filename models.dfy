/**
 * The persisted entities (User, Project, TaskItem), their declared field
 * constraints, the ownership predicates every service folds into its
 * lookups, and the invariant the store keeps between operations.
 */
module Models {
  import opened Wrappers
  import opened Text
  import opened Tables

  datatype User = User(id: int, username: string, passwordHash: string)

  /** A project; `description` is stored as the empty string when none was given. */
  datatype Project = Project(id: int, title: string, description: string, createdAt: int, userId: int)

  /** A task; `dueDate` is absent when the task has none. */
  datatype TaskItem = TaskItem(id: int, title: string, dueDate: Option<int>, isCompleted: bool, projectId: int, createdAt: int)

  function ProjectKey(p: Project): int { p.id }
  function TaskKey(t: TaskItem): int { t.id }

  /** The annotations on Project: a required title of 3 to 100 UTF-16 code units, a description of at most 500. */
  predicate ProjectAnnotationsHold(p: Project) {
    !IsBlank(p.title) && 3 <= Utf16Length(p.title) <= 100 && Utf16Length(p.description) <= 500
  }

  /** The annotation on TaskItem: a required, hence non-blank, title. */
  predicate TaskAnnotationsHold(t: TaskItem) {
    !IsBlank(t.title)
  }

  /** The project lookup of every project operation: `p.Id == projectId && p.UserId == userId`. */
  predicate OwnsProject(projects: Table<Project>, projectId: int, userId: int) {
    projectId in projects.rows && projects.rows[projectId].userId == userId
  }

  /** Transitive ownership: a task belongs to whoever owns its project. */
  predicate OwnsTask(projects: Table<Project>, t: TaskItem, userId: int) {
    OwnsProject(projects, t.projectId, userId)
  }

  /** Everything of the Projects table that `userId` may see. */
  function OwnedProjects(projects: Table<Project>, userId: int): map<int, Project> {
    map k | k in projects.rows && projects.rows[k].userId == userId :: projects.rows[k]
  }

  /** Everything of the Tasks table that `userId` may see. */
  function VisibleTasks(projects: Table<Project>, tasks: Table<TaskItem>, userId: int): map<int, TaskItem> {
    map k | k in tasks.rows && OwnsTask(projects, tasks.rows[k], userId) :: tasks.rows[k]
  }

  predicate UsersKeyed(users: Table<User>) {
    KeysBelowNext(users) && forall k :: k in users.rows ==> users.rows[k].id == k
  }

  predicate ProjectsKeyed(projects: Table<Project>) {
    KeysBelowNext(projects) && forall k :: k in projects.rows ==> projects.rows[k].id == k
  }

  predicate TasksKeyed(tasks: Table<TaskItem>) {
    KeysBelowNext(tasks) && forall k :: k in tasks.rows ==> tasks.rows[k].id == k
  }

  /** No two users share a username. */
  predicate UsernamesUnique(users: Table<User>) {
    forall a, b :: a in users.rows && b in users.rows && users.rows[a].username == users.rows[b].username ==> a == b
  }

  /**
   * The store's invariant: keys match ids and lie below their counters,
   * usernames are unique, every project's owner and every task's project
   * exists, and no stored title is blank.
   */
  predicate Consistent(users: Table<User>, projects: Table<Project>, tasks: Table<TaskItem>) {
    && UsersKeyed(users) && ProjectsKeyed(projects) && TasksKeyed(tasks)
    && UsernamesUnique(users)
    && (forall k :: k in projects.rows ==> projects.rows[k].userId in users.rows && !IsBlank(projects.rows[k].title))
    && (forall k :: k in tasks.rows ==> tasks.rows[k].projectId in projects.rows && TaskAnnotationsHold(tasks.rows[k]))
  }

  /** A task's owner is determined by the store: no task is visible to two users. */
  lemma {:induction false} TaskOwnerUnique(projects: Table<Project>, tasks: Table<TaskItem>, a: int, b: int)
    requires a != b
    ensures VisibleTasks(projects, tasks, a).Keys !! VisibleTasks(projects, tasks, b).Keys
  {
    forall k | k in VisibleTasks(projects, tasks, a) ensures k !in VisibleTasks(projects, tasks, b) {
      assert projects.rows[tasks.rows[k].projectId].userId == a;
    }
  }
}
