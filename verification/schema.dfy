/** The three tables of setup-database.js:10-37 as maps from row id to row,
    the statements the server runs against them, and the `setupDb` seed
    (setup-database.js:7-58). Foreign keys are enforced, as better-sqlite3
    connections enforce them by default, so `ON DELETE CASCADE` and failing
    foreign-key checks are part of the model. */
module Schema {
  import opened Wrappers

  /** An `INTEGER PRIMARY KEY AUTOINCREMENT` row id. */
  type Id = int

  /** A value stored in a column: SQL NULL, text, or a number bound from
      JavaScript. */
  datatype Cell = Null | Text(s: string) | Number(n: int)

  /** A row of `users` (setup-database.js:11-15); `password` holds the bcrypt hash. */
  datatype User = User(username: Cell, password: string)

  /** A row of `projects` (setup-database.js:20-25). */
  datatype Project = Project(name: string, owner: Id)

  /** A row of `segments` (setup-database.js:30-36). */
  datatype Segment = Segment(source: string, translation: Cell, project: Id)

  /** The database: the three tables and, for each, the next id AUTOINCREMENT
      hands out (one more than the largest id ever used). */
  datatype Store = Store(
    users: map<Id, User>,
    projects: map<Id, Project>,
    segments: map<Id, Segment>,
    nextUser: Id,
    nextProject: Id,
    nextSegment: Id)

  /** Why a statement failed. */
  datatype DbError =
    | NotNull      // a NOT NULL column was given NULL
    | Unique       // the UNIQUE username is already present
    | ForeignKey   // the referenced row does not exist
    | Unbindable   // better-sqlite3 cannot bind the value (a boolean, an object or an array)

  /** The freshly created tables. */
  const Empty := Store(map[], map[], map[], 1, 1, 1)

  /** Every id lies below its table's counter, so the next id is fresh. */
  ghost predicate IdsFresh(st: Store) {
    && 1 <= st.nextUser && 1 <= st.nextProject && 1 <= st.nextSegment
    && (forall id :: id in st.users ==> 1 <= id < st.nextUser)
    && (forall id :: id in st.projects ==> 1 <= id < st.nextProject)
    && (forall id :: id in st.segments ==> 1 <= id < st.nextSegment)
  }

  /** `username TEXT NOT NULL UNIQUE` (setup-database.js:13). */
  ghost predicate UsernamesUnique(st: Store) {
    && (forall id :: id in st.users ==> st.users[id].username != Null)
    && (forall a, b :: a in st.users && b in st.users && a != b ==>
          st.users[a].username != st.users[b].username)
  }

  /** The two foreign keys (setup-database.js:24, 35): every project has its
      owner and every segment its project. */
  ghost predicate References(st: Store) {
    && (forall id :: id in st.projects ==> st.projects[id].owner in st.users)
    && (forall id :: id in st.segments ==> st.segments[id].project in st.projects)
  }

  /** The constraints the schema declares. */
  ghost predicate Valid(st: Store) {
    IdsFresh(st) && UsernamesUnique(st) && References(st)
  }

  /** Some user already has this username. */
  predicate Taken(st: Store, username: Cell) {
    exists id | id in st.users :: st.users[id].username == username
  }

  /** `INSERT INTO users (username, password) VALUES (?, ?)`: fails on a NULL or
      taken username; otherwise adds exactly one user under a fresh id and
      changes nothing else. */
  function InsertUser(st: Store, username: Cell, password: string): (r: Result<(Store, Id), DbError>)
    ensures r.Failure? <==> username == Null || Taken(st, username)
    ensures r == Failure(NotNull) <==> username == Null
    ensures r.Success? ==>
              var (st', id) := r.value;
              && id == st.nextUser
              && (IdsFresh(st) ==> id !in st.users)
              && st'.users.Keys == st.users.Keys + {id}
              && st'.users[id] == User(username, password)
              && (forall k :: k in st.users && k != id ==> st'.users[k] == st.users[k])
              && st'.projects == st.projects && st'.segments == st.segments
              && st'.nextUser == id + 1
              && st'.nextProject == st.nextProject && st'.nextSegment == st.nextSegment
  {
    if username == Null then Failure(NotNull)
    else if Taken(st, username) then Failure(Unique)
    else
      var id := st.nextUser;
      Success((st.(users := st.users[id := User(username, password)], nextUser := id + 1), id))
  }

  /** `INSERT INTO projects (name, user_id) VALUES (?, ?)`: fails when the owner
      does not exist; otherwise adds exactly one project under a fresh id. */
  function InsertProject(st: Store, name: string, owner: Id): (r: Result<(Store, Id), DbError>)
    ensures r.Failure? <==> owner !in st.users
    ensures r.Failure? ==> r.error == ForeignKey
    ensures r.Success? ==>
              var (st', id) := r.value;
              && id == st.nextProject
              && (IdsFresh(st) ==> id !in st.projects)
              && st'.projects.Keys == st.projects.Keys + {id}
              && st'.projects[id] == Project(name, owner)
              && (forall k :: k in st.projects && k != id ==> st'.projects[k] == st.projects[k])
              && st'.users == st.users && st'.segments == st.segments
              && st'.nextProject == id + 1
              && st'.nextUser == st.nextUser && st'.nextSegment == st.nextSegment
  {
    if owner !in st.users then Failure(ForeignKey)
    else
      var id := st.nextProject;
      Success((st.(projects := st.projects[id := Project(name, owner)], nextProject := id + 1), id))
  }

  /** `INSERT INTO segments (source_text, translation_text, project_id) VALUES (?, ?, ?)`:
      fails when the project does not exist; otherwise adds exactly one segment
      under a fresh id. */
  function InsertSegment(st: Store, source: string, translation: Cell, project: Id)
    : (r: Result<(Store, Id), DbError>)
    ensures r.Failure? <==> project !in st.projects
    ensures r.Failure? ==> r.error == ForeignKey
    ensures r.Success? ==>
              var (st', id) := r.value;
              && id == st.nextSegment
              && (IdsFresh(st) ==> id !in st.segments)
              && st'.segments.Keys == st.segments.Keys + {id}
              && st'.segments[id] == Segment(source, translation, project)
              && (forall k :: k in st.segments && k != id ==> st'.segments[k] == st.segments[k])
              && st'.users == st.users && st'.projects == st.projects
              && st'.nextSegment == id + 1
              && st'.nextUser == st.nextUser && st'.nextProject == st.nextProject
  {
    if project !in st.projects then Failure(ForeignKey)
    else
      var id := st.nextSegment;
      Success((st.(segments := st.segments[id := Segment(source, translation, project)], nextSegment := id + 1), id))
  }

  /** `DELETE FROM projects WHERE id = ?`, with the cascade to `segments`
      (setup-database.js:35). The number is the statement's `changes`: the
      projects removed; rows removed by the cascade are not counted. */
  function DeleteProject(st: Store, id: Id): (r: (Store, nat))
    ensures r.1 == (if id in st.projects then 1 else 0)
    ensures r.0.projects.Keys == st.projects.Keys - {id}
    ensures forall k :: k in r.0.projects ==> r.0.projects[k] == st.projects[k]
    ensures forall k :: k in r.0.segments <==> k in st.segments && st.segments[k].project != id
    ensures forall k :: k in r.0.segments ==> r.0.segments[k] == st.segments[k]
    ensures r.0.users == st.users
    ensures r.0.nextUser == st.nextUser && r.0.nextProject == st.nextProject
    ensures r.0.nextSegment == st.nextSegment
  {
    var segments := map k | k in st.segments && st.segments[k].project != id :: st.segments[k];
    (st.(projects := st.projects - {id}, segments := segments), if id in st.projects then 1 else 0)
  }

  /** `DELETE FROM users WHERE id = ?` with both cascades: the user's projects go
      (setup-database.js:24) and, with them, their segments (setup-database.js:35). */
  function DeleteUser(st: Store, id: Id): (r: Store)
    ensures r.users.Keys == st.users.Keys - {id}
    ensures forall k :: k in r.projects <==> k in st.projects && st.projects[k].owner != id
    ensures forall k :: k in r.segments <==>
              k in st.segments && !(st.segments[k].project in st.projects
                                    && st.projects[st.segments[k].project].owner == id)
    ensures forall k :: k in r.users ==> r.users[k] == st.users[k]
    ensures forall k :: k in r.projects ==> r.projects[k] == st.projects[k]
    ensures forall k :: k in r.segments ==> r.segments[k] == st.segments[k]
  {
    var projects := map k | k in st.projects && st.projects[k].owner != id :: st.projects[k];
    var segments := map k | k in st.segments && !(st.segments[k].project in st.projects
                                                 && st.projects[st.segments[k].project].owner == id)
                            :: st.segments[k];
    st.(users := st.users - {id}, projects := projects, segments := segments)
  }

  /** `UPDATE segments SET translation_text = ? WHERE id = ?`: overwrites one
      translation when the id exists and changes nothing otherwise; the number
      is the statement's `changes`. */
  function UpdateTranslation(st: Store, id: Id, translation: Cell): (r: (Store, nat))
    ensures r.1 == (if id in st.segments then 1 else 0)
    ensures r.0.segments.Keys == st.segments.Keys
    ensures id in st.segments ==>
              r.0.segments[id] == st.segments[id].(translation := translation)
    ensures forall k :: k in st.segments && k != id ==> r.0.segments[k] == st.segments[k]
    ensures r.0.users == st.users && r.0.projects == st.projects
    ensures r.0.nextUser == st.nextUser && r.0.nextProject == st.nextProject
    ensures r.0.nextSegment == st.nextSegment
  {
    if id in st.segments then
      (st.(segments := st.segments[id := st.segments[id].(translation := translation)]), 1)
    else (st, 0)
  }

  /** The seeded account and its project (setup-database.js:44-51). */
  const SeedUsername := "testuser"
  const SeedProject := "Kurumsal Web Sitesi"

  /** The seed transaction of setup-database.js:40-54: when `users` is empty, add
      the test user with the given password hash and one project it owns. */
  function Seed(st: Store, hashed: string): (r: Store)
    ensures |st.users| == 0 ==>
              && r.users == st.users[st.nextUser := User(Text(SeedUsername), hashed)]
              && r.projects == st.projects[st.nextProject := Project(SeedProject, st.nextUser)]
              && r.segments == st.segments
    ensures |st.users| != 0 ==> r == st
  {
    if |st.users| != 0 then st
    else
      assert !Taken(st, Text(SeedUsername));
      var user := InsertUser(st, Text(SeedUsername), hashed);
      var project := InsertProject(user.value.0, SeedProject, user.value.1);
      project.value.0
  }

  /** `setupDb()`: the tables are created when absent (`None`), then seeded when
      `users` is empty. `hashed` is what `bcrypt.hashSync('12345', 10)` returns
      in this run. */
  function Setup(db: Option<Store>, hashed: string): (r: Store)
    ensures |r.users| > 0
  {
    var st := if db.None? then Empty else db.value;
    var r := Seed(st, hashed);
    assert st.nextUser in r.users || r == st;
    r
  }

  /** The constraints hold of the freshly created tables. */
  lemma EmptyValid()
    ensures Valid(Empty)
  {
  }

  /** Running setup a second time changes nothing, whatever hash that run makes. */
  lemma SetupIdempotent(db: Option<Store>, hashed: string, hashedAgain: string)
    ensures Setup(Some(Setup(db, hashed)), hashedAgain) == Setup(db, hashed)
  {
  }

  /** Setup on a new database creates exactly the test user and the one project
      it owns, with the first ids. */
  lemma SetupFresh(hashed: string)
    ensures Setup(None, hashed).users == map[1 := User(Text(SeedUsername), hashed)]
    ensures Setup(None, hashed).projects == map[1 := Project(SeedProject, 1)]
    ensures Setup(None, hashed).segments == map[]
  {
  }

  /** Setup keeps the constraints. */
  lemma SetupValid(db: Option<Store>, hashed: string)
    requires db.Some? ==> Valid(db.value)
    ensures Valid(Setup(db, hashed))
  {
    var st := if db.None? then Empty else db.value;
    if |st.users| == 0 {
      var user := InsertUser(st, Text(SeedUsername), hashed);
      assert !Taken(st, Text(SeedUsername));
      InsertUserValid(st, Text(SeedUsername), hashed);
      InsertProjectValid(user.value.0, SeedProject, user.value.1);
    }
  }

  lemma InsertUserValid(st: Store, username: Cell, password: string)
    requires Valid(st)
    ensures InsertUser(st, username, password).Success? ==>
              Valid(InsertUser(st, username, password).value.0)
  {
    var r := InsertUser(st, username, password);
    if r.Success? {
      var st' := r.value.0;
      forall a, b | a in st'.users && b in st'.users && a != b
        ensures st'.users[a].username != st'.users[b].username
      {
        if a == r.value.1 {
          assert st'.users[b] == st.users[b];
        } else if b == r.value.1 {
          assert st'.users[a] == st.users[a];
        }
      }
    }
  }

  lemma InsertProjectValid(st: Store, name: string, owner: Id)
    requires Valid(st)
    ensures InsertProject(st, name, owner).Success? ==>
              Valid(InsertProject(st, name, owner).value.0)
  {
  }

  lemma InsertSegmentValid(st: Store, source: string, translation: Cell, project: Id)
    requires Valid(st)
    ensures InsertSegment(st, source, translation, project).Success? ==>
              Valid(InsertSegment(st, source, translation, project).value.0)
  {
  }

  /** Deleting a project keeps the constraints: no segment outlives its project. */
  lemma DeleteProjectValid(st: Store, id: Id)
    requires Valid(st)
    ensures Valid(DeleteProject(st, id).0)
  {
  }

  /** Deleting a user keeps the constraints: no project outlives its owner and
      no segment its project. */
  lemma DeleteUserValid(st: Store, id: Id)
    requires Valid(st)
    ensures Valid(DeleteUser(st, id))
  {
  }

  lemma UpdateTranslationValid(st: Store, id: Id, translation: Cell)
    requires Valid(st)
    ensures Valid(UpdateTranslation(st, id, translation).0)
  {
  }
}
