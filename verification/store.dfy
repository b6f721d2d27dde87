/** The database the request handlers share: one map per table, updated in
    place, and the counter that hands out primary keys. */
module Store {
  import opened Models

  class Db {
    var users: map<nat, User>
    var courses: map<nat, Course>
    var enrollments: map<nat, Enrollment>
    var reflections: map<nat, Reflection>
    var submissions: map<nat, Submission>
    /** The next primary key; every key in use is below it. */
    var nextId: nat

    /** The current contents of all five tables. */
    function Snapshot(): Tables
      reads this
    {
      Tables(users, courses, enrollments, reflections, submissions)
    }

    /** The schema's invariants hold and every key in use is below `nextId`. */
    ghost predicate Valid()
      reads this
    {
      Models.Valid(Snapshot()) && KeysBelow(Snapshot(), nextId)
    }

    /** An empty database. */
    constructor ()
      ensures Valid()
      ensures users == map[] && courses == map[] && enrollments == map[]
      ensures reflections == map[] && submissions == map[]
    {
      users, courses, enrollments, reflections, submissions := map[], map[], map[], map[], map[];
      nextId := 0;
    }

    /** The commit of a session: every table and the counter take the
        session's contents. */
    method Commit(t: Tables, n: nat)
      modifies this
      ensures Snapshot() == t && nextId == n
    {
      users, courses, enrollments, reflections, submissions := t.users, t.courses, t.enrollments, t.reflections, t.submissions;
      nextId := n;
    }
  }
}
