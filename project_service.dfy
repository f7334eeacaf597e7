/**
 * ProjectService: create, list, get and delete projects, each scoped to the
 * calling user by `p.UserId == userId` in its lookup.
 */
module ProjectService {
  import opened Wrappers
  import opened Text
  import opened Seqs
  import opened Tables
  import opened Models
  import opened Dtos
  import opened Data

  /** What the service returns for a project: everything but the owner. */
  datatype ProjectResponse = ProjectResponse(id: int, title: string, description: string, createdAt: int)

  /** "Missing required field for project." and "Failed to create project." */
  datatype ProjectError = MissingTitle | Failed

  function ToResponse(p: Project): ProjectResponse {
    ProjectResponse(p.id, p.title, p.description, p.createdAt)
  }

  function ToResponses(ps: seq<Project>): seq<ProjectResponse> {
    seq(|ps|, i requires 0 <= i < |ps| => ToResponse(ps[i]))
  }

  /** The new entity of CreateProjectAsync: an absent description becomes the empty string. */
  function NewProject(dto: ProjectCreateDto, id: int, userId: int, now: int): (p: Project)
    requires dto.title.Some?
    ensures p.id == id && p.userId == userId && p.title == dto.title.value && p.createdAt == now
    ensures dto.description.None? ==> p.description == ""
    ensures dto.description.Some? ==> p.description == dto.description.value
    ensures ValidProjectCreate(dto) ==> ProjectAnnotationsHold(p)
  {
    Project(id, dto.title.value, if dto.description.Some? then dto.description.value else "", now, userId)
  }

  /** GetProjectByIdAsync: the project only if it exists and the caller owns it. */
  function ProjectById(projects: Table<Project>, id: int, userId: int): Option<ProjectResponse> {
    if OwnsProject(projects, id, userId) then Some(ToResponse(projects.rows[id])) else None
  }

  function OwnedBy(userId: int): Project -> bool {
    (p: Project) => p.userId == userId
  }

  /** `OrderByDescending(p => p.CreatedAt)`; ties, which SQL leaves unordered, by ascending id. */
  predicate NewerFirst(a: Project, b: Project) {
    a.createdAt > b.createdAt || (a.createdAt == b.createdAt && a.id <= b.id)
  }

  /** GetUserProjectsAsync: the caller's projects, newest first. */
  function UserProjects(projects: Table<Project>, userId: int): (r: seq<ProjectResponse>)
    ensures forall i, j :: 0 <= i < j < |r| ==> r[i].createdAt >= r[j].createdAt
  {
    var owned := Filter(Rows(projects), OwnedBy(userId));
    NewerFirstIsTotalPreorder();
    SortBySorted(owned, NewerFirst);
    ToResponses(SortBy(owned, NewerFirst))
  }

  lemma NewerFirstIsTotalPreorder()
    ensures TotalPreorder(NewerFirst)
  {
  }

  /** Every project the caller owns is listed, as stored. */
  lemma UserProjectsComplete(projects: Table<Project>, userId: int)
    requires KeysBelowNext(projects)
    ensures forall k :: OwnsProject(projects, k, userId) ==> ToResponse(projects.rows[k]) in UserProjects(projects, userId)
  {
    var owned := Filter(Rows(projects), OwnedBy(userId));
    var sorted := SortBy(owned, NewerFirst);
    var r := UserProjects(projects, userId);
    FilterMembers(Rows(projects), OwnedBy(userId));
    forall k | OwnsProject(projects, k, userId) ensures ToResponse(projects.rows[k]) in r {
      assert projects.rows[k] in owned;
      assert projects.rows[k] in multiset(sorted);
      var i :| 0 <= i < |sorted| && sorted[i] == projects.rows[k];
      assert r[i] == ToResponse(projects.rows[k]);
    }
  }

  /** Every listed entry is a project the caller owns, as stored: no other user's project appears. */
  lemma UserProjectsSound(projects: Table<Project>, userId: int)
    requires ProjectsKeyed(projects)
    ensures forall x :: x in UserProjects(projects, userId) ==>
      OwnsProject(projects, x.id, userId) && x == ToResponse(projects.rows[x.id])
  {
    var owned := Filter(Rows(projects), OwnedBy(userId));
    var sorted := SortBy(owned, NewerFirst);
    var r := UserProjects(projects, userId);
    FilterMembers(Rows(projects), OwnedBy(userId));
    forall x | x in r ensures OwnsProject(projects, x.id, userId) && x == ToResponse(projects.rows[x.id]) {
      var i :| 0 <= i < |r| && r[i] == x;
      assert sorted[i] in owned;
      StoredUnderOwnId(projects, sorted[i]);
    }
  }

  /** No project is listed twice. */
  lemma UserProjectsDistinct(projects: Table<Project>, userId: int)
    requires ProjectsKeyed(projects)
    ensures forall i, j :: 0 <= i < j < |UserProjects(projects, userId)| ==>
      UserProjects(projects, userId)[i].id != UserProjects(projects, userId)[j].id
  {
    var owned := Filter(Rows(projects), OwnedBy(userId));
    var sorted := SortBy(owned, NewerFirst);
    var r := UserProjects(projects, userId);
    FilterMembers(Rows(projects), OwnedBy(userId));
    ScanNoDuplicates(projects.rows, projects.nextId, ProjectKey);
    assert NoDuplicates(sorted) by {
      assert forall x :: multiset(sorted)[x] == multiset(owned)[x] <= multiset(Rows(projects))[x];
    }
    forall i, j | 0 <= i < j < |r| ensures r[i].id != r[j].id {
      DistinctAt(sorted, i, j);
      StoredUnderOwnId(projects, sorted[i]);
      StoredUnderOwnId(projects, sorted[j]);
    }
  }

  /** A scanned project is stored under its own id. */
  lemma StoredUnderOwnId(projects: Table<Project>, x: Project)
    requires ProjectsKeyed(projects) && x in Rows(projects)
    ensures x.id in projects.rows && projects.rows[x.id] == x
  {
    var k :| 0 <= k < projects.nextId && k in projects.rows && projects.rows[k] == x;
  }

  /** Get by id agrees with the listing: it finds exactly the listed project with that id. */
  lemma ProjectByIdMatchesList(projects: Table<Project>, id: int, userId: int, x: ProjectResponse)
    requires ProjectsKeyed(projects)
    ensures ProjectById(projects, id, userId) == Some(x) <==> x in UserProjects(projects, userId) && x.id == id
  {
    UserProjectsComplete(projects, userId);
    UserProjectsSound(projects, userId);
  }

  /** A project the caller does not own reads exactly as one that does not exist. */
  lemma ForeignProjectLooksMissing(projects: Table<Project>, id: int, userId: int)
    requires id in projects.rows && projects.rows[id].userId != userId
    ensures ProjectById(projects, id, userId) == ProjectById(Table(projects.rows - {id}, projects.nextId), id, userId) == None
  {
  }

  /** The listing depends only on the caller's own rows: other users' projects cannot affect it. */
  lemma UserProjectsNoninterference(p1: Table<Project>, p2: Table<Project>, userId: int)
    requires KeysBelowNext(p1) && KeysBelowNext(p2)
    requires OwnedProjects(p1, userId) == OwnedProjects(p2, userId)
    ensures UserProjects(p1, userId) == UserProjects(p2, userId)
  {
    var n := if p1.nextId < p2.nextId then p2.nextId else p1.nextId;
    ScanPastKeys(p1.rows, p1.nextId, n);
    ScanPastKeys(p2.rows, p2.nextId, n);
    forall k | 0 <= k < n
      ensures (k in p1.rows && OwnedBy(userId)(p1.rows[k])) <==> (k in p2.rows && OwnedBy(userId)(p2.rows[k]))
      ensures k in p1.rows && OwnedBy(userId)(p1.rows[k]) ==> k in p2.rows && p1.rows[k] == p2.rows[k]
    {
      assert (k in p1.rows && p1.rows[k].userId == userId) <==> k in OwnedProjects(p1, userId);
      assert (k in p2.rows && p2.rows[k].userId == userId) <==> k in OwnedProjects(p2, userId);
      if k in OwnedProjects(p1, userId) {
        assert OwnedProjects(p1, userId)[k] == p1.rows[k] && OwnedProjects(p2, userId)[k] == p2.rows[k];
      }
    }
    FilterScanAgree(p1.rows, OwnedBy(userId), p2.rows, OwnedBy(userId), n);
  }

  /**
   * CreateProjectAsync: a blank title fails before anything is stored; an
   * owner id with no user breaks the foreign key, so the insert fails;
   * otherwise one project owned by the caller is stored and returned.
   */
  method CreateProject(db: Database, dto: ProjectCreateDto, userId: int, now: int) returns (r: Result<ProjectResponse, ProjectError>)
    requires db.Valid()
    modifies db
    ensures db.Valid()
    ensures db.users == old(db.users) && db.tasks == old(db.tasks)
    ensures IsNullOrWhiteSpace(dto.title) ==> r == Err(MissingTitle) && db.projects == old(db.projects)
    ensures !IsNullOrWhiteSpace(dto.title) && userId !in old(db.users.rows) ==>
      r == Err(Failed) && db.projects == old(db.projects)
    ensures !IsNullOrWhiteSpace(dto.title) && userId in old(db.users.rows) ==>
      && db.projects == Add(old(db.projects), NewProject(dto, old(db.projects.nextId), userId, now))
      && r == Ok(ToResponse(NewProject(dto, old(db.projects.nextId), userId, now)))
    ensures r.Ok? ==> ProjectById(db.projects, r.value.id, userId) == Some(r.value)
    ensures r.Ok? && ValidProjectCreate(dto) ==> ProjectAnnotationsHold(db.projects.rows[r.value.id])
    ensures forall u :: u != userId ==> UserProjects(db.projects, u) == UserProjects(old(db.projects), u)
  {
    if IsNullOrWhiteSpace(dto.title) {
      return Err(MissingTitle);
    }
    if userId !in db.users.rows {
      return Err(Failed);
    }
    var project := NewProject(dto, db.projects.nextId, userId, now);
    ghost var before := db.projects;
    db.projects := Add(db.projects, project);
    r := Ok(ToResponse(project));
    forall u | u != userId ensures UserProjects(db.projects, u) == UserProjects(before, u) {
      assert OwnedProjects(db.projects, u) == OwnedProjects(before, u);
      UserProjectsNoninterference(db.projects, before, u);
    }
  }

  /** The Tasks table once the rows of one project are gone: the cascade of a project delete. */
  function WithoutProjectTasks(tasks: Table<TaskItem>, projectId: int): (r: Table<TaskItem>)
    ensures KeysBelowNext(tasks) ==> KeysBelowNext(r)
    ensures forall t :: t in r.rows.Values ==> t.projectId != projectId
  {
    Table(map k | k in tasks.rows && tasks.rows[k].projectId != projectId :: tasks.rows[k], tasks.nextId)
  }

  /** Deleting one user's project, with its tasks, leaves every other user's visible tasks as they were. */
  lemma CascadeKeepsOthersTasks(projects: Table<Project>, tasks: Table<TaskItem>, id: int, owner: int, u: int)
    requires OwnsProject(projects, id, owner) && u != owner
    ensures VisibleTasks(Table(projects.rows - {id}, projects.nextId), WithoutProjectTasks(tasks, id), u)
         == VisibleTasks(projects, tasks, u)
  {
    var after := VisibleTasks(Table(projects.rows - {id}, projects.nextId), WithoutProjectTasks(tasks, id), u);
    var before := VisibleTasks(projects, tasks, u);
    forall k | k in before ensures k in after && after[k] == before[k] {
      assert tasks.rows[k].projectId != id;
    }
    forall k | k in after ensures k in before {
      assert k in tasks.rows && tasks.rows[k].projectId != id;
    }
  }

  /**
   * DeleteProjectAsync: without an owned match nothing changes; otherwise
   * the project goes, and with it, by the required relationship's cascade,
   * every task it held.
   */
  method DeleteProject(db: Database, id: int, userId: int) returns (ok: bool)
    requires db.Valid()
    modifies db
    ensures db.Valid()
    ensures ok == OwnsProject(old(db.projects), id, userId)
    ensures db.users == old(db.users)
    ensures !ok ==> db.projects == old(db.projects) && db.tasks == old(db.tasks)
    ensures ok ==>
      && db.projects == Table(old(db.projects.rows) - {id}, old(db.projects.nextId))
      && db.tasks == WithoutProjectTasks(old(db.tasks), id)
    ensures ok ==> forall t :: t in db.tasks.rows.Values ==> t.projectId != id
    ensures forall u :: u != userId ==> UserProjects(db.projects, u) == UserProjects(old(db.projects), u)
    ensures forall u :: u != userId ==> VisibleTasks(db.projects, db.tasks, u) == VisibleTasks(old(db.projects), old(db.tasks), u)
  {
    if !OwnsProject(db.projects, id, userId) {
      return false;
    }
    ghost var projectsBefore, tasksBefore := db.projects, db.tasks;
    db.projects := Table(db.projects.rows - {id}, db.projects.nextId);
    db.tasks := WithoutProjectTasks(db.tasks, id);
    ok := true;
    forall u | u != userId ensures UserProjects(db.projects, u) == UserProjects(projectsBefore, u) {
      assert OwnedProjects(db.projects, u) == OwnedProjects(projectsBefore, u);
      UserProjectsNoninterference(db.projects, projectsBefore, u);
    }
    forall u | u != userId ensures VisibleTasks(db.projects, db.tasks, u) == VisibleTasks(projectsBefore, tasksBefore, u) {
      CascadeKeepsOthersTasks(projectsBefore, tasksBefore, id, userId, u);
    }
  }
}
