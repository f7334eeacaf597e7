/** The database context the three services share. */
module Data {
  import opened Tables
  import opened Models

  /** The Users, Projects and Tasks tables of the SQLite store. */
  class Database {
    var users: Table<User>
    var projects: Table<Project>
    var tasks: Table<TaskItem>

    ghost predicate Valid()
      reads this
    {
      Consistent(users, projects, tasks)
    }

    constructor ()
      ensures Valid()
      ensures users == Empty() && projects == Empty() && tasks == Empty()
    {
      users := Empty();
      projects := Empty();
      tasks := Empty();
    }
  }
}
