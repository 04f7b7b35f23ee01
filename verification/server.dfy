/** The request handlers of server.js as transitions of the store: each takes
    the database, the session's user id and the request's fields, and gives
    back the new database, the new session and the response. */
module Server {
  import opened Wrappers
  import opened Segmenter
  import opened Schema

  /** The body of a successful response. Rows come back as maps from id to row:
      the queries have no `ORDER BY`, so no order is promised. */
  datatype Payload =
    | Registered(username: JsValue)
    | ProjectList(projects: map<Id, Project>)
    | SegmentList(segments: map<Id, Segment>)
    | Saved
    | Uploaded(project: Id)
    | Deleted

  datatype Response = Ok(payload: Payload) | Error(status: int)

  datatype Reply = Reply(store: Store, session: Option<Id>, response: Response)

  const BadRequest := 400
  const Unauthorized := 401
  const Forbidden := 403
  const NotFound := 404
  const Conflict := 409
  const ServerError := 500

  /** How better-sqlite3 binds a value of a request body: strings as text,
      numbers as numbers, `null` (and an absent field) as NULL; it throws on a
      boolean, an object or an array. */
  function Bind(v: JsValue): (r: Option<Cell>)
    ensures r.None? <==> v.JBool? || v.JCompound?
    ensures r == Some(Null) <==> v == JNull
    ensures r.Some? && r.value.Text? ==> v == JStr(r.value.s)
  {
    match v
    case JStr(s) => Some(Text(s))
    case JNum(n) => Some(Number(n))
    case JNull => Some(Null)
    case JBool(_) => None
    case JCompound => None
  }

  /** POST /api/register (server.js:33-44). A falsy username or password is
      answered with 400. Every exception in the body is answered with 409:
      `bcrypt.hashSync` throwing on a password that is not a string, the driver
      refusing to bind the username, and the UNIQUE constraint. Otherwise one
      user is added and the session logs in as that user. `hashed` is what
      `bcrypt.hashSync` returns for the password. */
  function Register(st: Store, session: Option<Id>, username: JsValue, password: JsValue, hashed: string)
    : (r: Reply)
    ensures r.response == Error(BadRequest) <==> !Truthy(username) || !Truthy(password)
    ensures r.response.Error? ==> r.store == st && r.session == session
    ensures r.response.Error? ==> r.response.status in {BadRequest, Conflict}
    ensures r.response.Ok? <==>
              && Truthy(username) && password.JStr? && password.s != []
              && Bind(username).Some? && !Taken(st, Bind(username).value)
    ensures r.response.Ok? ==>
              && r.response == Ok(Registered(username))
              && r.session == Some(st.nextUser)
              && r.store == InsertUser(st, Bind(username).value, hashed).value.0
  {
    if !Truthy(username) || !Truthy(password) then Reply(st, session, Error(BadRequest))
    else if !password.JStr? then Reply(st, session, Error(Conflict))
    else
      match Bind(username)
      case None => Reply(st, session, Error(Conflict))
      case Some(name) =>
        match InsertUser(st, name, hashed)
        case Failure(_) => Reply(st, session, Error(Conflict))
        case Success((st', id)) => Reply(st', Some(id), Ok(Registered(username)))
  }

  /** The projects owned by `user`. */
  function OwnedProjects(st: Store, user: Id): (r: map<Id, Project>)
    ensures forall id :: id in r <==> id in st.projects && st.projects[id].owner == user
    ensures forall id :: id in r ==> r[id] == st.projects[id]
  {
    map id | id in st.projects && st.projects[id].owner == user :: st.projects[id]
  }

  /** The segments of `project`. */
  function ProjectSegments(st: Store, project: Id): (r: map<Id, Segment>)
    ensures forall id :: id in r <==> id in st.segments && st.segments[id].project == project
    ensures forall id :: id in r ==> r[id] == st.segments[id]
  {
    map id | id in st.segments && st.segments[id].project == project :: st.segments[id]
  }

  /** `SELECT id FROM projects WHERE id = ? AND user_id = ?` found a row. */
  predicate Owns(st: Store, user: Id, project: Id) {
    project in st.projects && st.projects[project].owner == user
  }

  /** GET /api/projects (server.js:74-79): exactly the caller's projects. */
  function ListProjects(st: Store, session: Option<Id>): (r: Reply)
    ensures r.store == st && r.session == session
    ensures r.response == Error(Unauthorized) <==> session.None?
    ensures session.Some? ==>
              && r.response.Ok? && r.response.payload.ProjectList?
              && (forall id :: id in r.response.payload.projects <==> Owns(st, session.value, id))
              && (forall id :: id in r.response.payload.projects ==>
                    r.response.payload.projects[id] == st.projects[id])
  {
    match session
    case None => Reply(st, session, Error(Unauthorized))
    case Some(user) => Reply(st, session, Ok(ProjectList(OwnedProjects(st, user))))
  }

  /** GET /api/segments/:projectId (server.js:81-88): the project's segments when
      the caller owns it; 403 when it is someone else's or does not exist. */
  function GetSegments(st: Store, session: Option<Id>, project: Id): (r: Reply)
    ensures r.store == st && r.session == session
    ensures r.response == Error(Unauthorized) <==> session.None?
    ensures r.response == Error(Forbidden) <==> session.Some? && !Owns(st, session.value, project)
    ensures session.Some? && Owns(st, session.value, project) ==> r.response.Ok?
    ensures r.response.Ok? ==>
              && session.Some? && Owns(st, session.value, project)
              && r.response.payload.SegmentList?
              && (forall id :: id in r.response.payload.segments <==>
                    id in st.segments && st.segments[id].project == project)
              && (forall id :: id in r.response.payload.segments ==>
                    r.response.payload.segments[id] == st.segments[id])
  {
    match session
    case None => Reply(st, session, Error(Unauthorized))
    case Some(user) =>
      if !Owns(st, user, project) then Reply(st, session, Error(Forbidden))
      else Reply(st, session, Ok(SegmentList(ProjectSegments(st, project))))
  }

  /** POST /api/save (server.js:90-96) as written: the translation of the
      segment with the given id is overwritten, whoever owns it; an unknown id
      changes nothing and still succeeds; an unbindable translation is a 500. */
  function Save(st: Store, session: Option<Id>, segment: Id, translation: JsValue): (r: Reply)
    ensures r.session == session
    ensures r.response == Error(Unauthorized) <==> session.None?
    ensures r.response == Error(ServerError) <==> session.Some? && Bind(translation).None?
    ensures r.response.Error? ==> r.store == st
    ensures session.Some? && Bind(translation).Some? ==> r.response == Ok(Saved)
    ensures r.response.Ok? ==> r.response == Ok(Saved)
    ensures segment !in st.segments ==> r.store == st
    ensures r.response.Ok? ==>
              && r.store.users == st.users && r.store.projects == st.projects
              && r.store.segments.Keys == st.segments.Keys
              && (segment in st.segments ==>
                    r.store.segments[segment] == st.segments[segment].(translation := Bind(translation).value))
              && (forall id :: id in st.segments && id != segment ==> r.store.segments[id] == st.segments[id])
  {
    match session
    case None => Reply(st, session, Error(Unauthorized))
    case Some(_) =>
      match Bind(translation)
      case None => Reply(st, session, Error(ServerError))
      case Some(cell) => Reply(UpdateTranslation(st, segment, cell).0, session, Ok(Saved))
  }

  /** The segment exists and its project is the caller's. */
  predicate OwnsSegment(st: Store, user: Id, segment: Id) {
    segment in st.segments && Owns(st, user, st.segments[segment].project)
  }

  /** POST /api/save with the ownership check the other project routes make
      (server.js:83-84): a segment that is someone else's, or that does not
      exist, is answered with 403 and left alone. */
  function SaveOwned(st: Store, session: Option<Id>, segment: Id, translation: JsValue): (r: Reply)
    ensures r.session == session
    ensures r.response == Error(Unauthorized) <==> session.None?
    ensures r.response == Error(Forbidden) <==> session.Some? && !OwnsSegment(st, session.value, segment)
    ensures r.response.Error? ==> r.store == st
    ensures session.Some? && OwnsSegment(st, session.value, segment) && Bind(translation).Some? ==>
              r.response.Ok?
    ensures r.response.Ok? ==>
              && session.Some? && OwnsSegment(st, session.value, segment)
              && Bind(translation).Some?
              && r.store.users == st.users && r.store.projects == st.projects
              && r.store.segments.Keys == st.segments.Keys
              && r.store.segments[segment] == st.segments[segment].(translation := Bind(translation).value)
              && (forall id :: id in st.segments && id != segment ==> r.store.segments[id] == st.segments[id])
  {
    match session
    case None => Reply(st, session, Error(Unauthorized))
    case Some(user) =>
      if !OwnsSegment(st, user, segment) then Reply(st, session, Error(Forbidden))
      else Save(st, session, segment, translation)
  }

  /** The segment rows of an upload are fresh and numbered in order: row `i`
      gets id `nextSegment + i`. */
  ghost predicate AddsRows(st: Store, st': Store, rows: seq<Pending>, project: Id) {
    && st'.users == st.users && st'.projects == st.projects
    && st'.nextUser == st.nextUser && st'.nextProject == st.nextProject
    && st'.nextSegment == st.nextSegment + |rows|
    && (forall id :: id in st'.segments <==>
          id in st.segments || st.nextSegment <= id < st.nextSegment + |rows|)
    && (forall id :: id in st.segments && !(st.nextSegment <= id < st.nextSegment + |rows|) ==>
          st'.segments[id] == st.segments[id])
    && (forall i :: 0 <= i < |rows| ==> RowAt(st', st.nextSegment + i, rows[i], project))
  }

  /** Segment `id` holds `row`, in `project`. */
  ghost predicate RowAt(st: Store, id: Id, row: Pending, project: Id) {
    && id in st.segments
    && st.segments[id].source == row.source
    && Bind(row.translation) == Some(st.segments[id].translation)
    && st.segments[id].project == project
  }

  /** Inserting the first row and then the others adds all the rows. */
  lemma AddsRowsCons(st: Store, st1: Store, st2: Store, rows: seq<Pending>, project: Id)
    requires rows != []
    requires st1.users == st.users && st1.projects == st.projects
    requires st1.nextUser == st.nextUser && st1.nextProject == st.nextProject
    requires st1.nextSegment == st.nextSegment + 1
    requires RowAt(st1, st.nextSegment, rows[0], project)
    requires st1.segments == st.segments[st.nextSegment := st1.segments[st.nextSegment]]
    requires AddsRows(st1, st2, rows[1..], project)
    ensures AddsRows(st, st2, rows, project)
  {
    forall i | 0 <= i < |rows|
      ensures RowAt(st2, st.nextSegment + i, rows[i], project)
    {
      if i > 0 {
        assert rows[i] == rows[1..][i - 1];
        assert st.nextSegment + i == st1.nextSegment + (i - 1);
      }
    }
  }

  /** Every row's translation can be bound. */
  predicate AllBindable(rows: seq<Pending>) {
    forall i :: 0 <= i < |rows| ==> Bind(rows[i].translation).Some?
  }

  /** The loop of server.js:133-134 inside the transaction: each row inserted in
      turn, the first failure abandoning the rest. */
  function InsertRows(st: Store, rows: seq<Pending>, project: Id): (r: Result<Store, DbError>)
    ensures r.Failure? <==> !AllBindable(rows) || (rows != [] && project !in st.projects)
    ensures r.Success? ==> AddsRows(st, r.value, rows, project)
    ensures r.Success? && IdsFresh(st) ==>
              forall id :: id in st.segments ==> r.value.segments[id] == st.segments[id]
    decreases |rows|
  {
    if rows == [] then Success(st)
    else
      match Bind(rows[0].translation)
      case None => Failure(Unbindable)
      case Some(cell) =>
        match InsertSegment(st, rows[0].source, cell, project)
        case Failure(e) => Failure(e)
        case Success((st1, _)) =>
          var r := InsertRows(st1, rows[1..], project);
          assert AllBindable(rows) <==> Bind(rows[0].translation).Some? && AllBindable(rows[1..]) by {
            assert forall i :: 1 <= i < |rows| ==> rows[i] == rows[1..][i - 1];
          }
          if r.Success? then
            assert RowAt(st1, st.nextSegment, rows[0], project);
            AddsRowsCons(st, st1, r.value, rows, project);
            r
          else r
  }

  /** What the upload transaction did: one project, owned by `owner`, under the
      next project id, and its rows under the next segment ids, in order. */
  ghost predicate Created(st: Store, st': Store, owner: Id, name: string, rows: seq<Pending>, project: Id) {
    && project == st.nextProject
    && st'.projects == st.projects[project := Project(name, owner)]
    && AddsRows(st.(projects := st'.projects, nextProject := project + 1), st', rows, project)
  }

  /** The transaction of server.js:130-136: the project row, then one segment
      row per computed row. A failure anywhere rolls the whole transaction back,
      so the caller keeps the database it had. */
  function CreateProject(st: Store, owner: Id, name: string, rows: seq<Pending>)
    : (r: Result<(Store, Id), DbError>)
    ensures r.Failure? <==> owner !in st.users || !AllBindable(rows)
    ensures r.Success? ==> Created(st, r.value.0, owner, name, rows, r.value.1)
  {
    match InsertProject(st, name, owner)
    case Failure(e) => Failure(e)
    case Success((st1, project)) =>
      match InsertRows(st1, rows, project)
      case Failure(e) => Failure(e)
      case Success(st2) => Success((st2, project))
  }

  /** POST /api/upload (server.js:99-145): 401 without a session; 400 without a
      project name or a file, or for an unsupported format; 500 when the JSON
      does not parse or the transaction fails; otherwise the new project's id.
      Every error leaves the database as it was. */
  function Upload(st: Store, session: Option<Id>, projectName: string, file: Option<UploadedFile>,
                  parse: string -> Option<seq<(string, JsValue)>>): (r: Reply)
    ensures r.session == session
    ensures r.response == Error(Unauthorized) <==> session.None?
    ensures r.response == Error(BadRequest) <==>
              && session.Some?
              && (projectName == [] || file.None? || FormatOf(file.value.originalName) == Unsupported)
    ensures r.response.Error? ==> r.store == st
    ensures r.response.Ok? <==>
              && session.Some? && projectName != [] && file.Some?
              && SegmentFile(file.value, parse).Success?
              && session.value in st.users
              && AllBindable(SegmentFile(file.value, parse).value)
    ensures r.response.Ok? ==>
              && r.response == Ok(Uploaded(st.nextProject))
              && Created(st, r.store, session.value, projectName, SegmentFile(file.value, parse).value,
                         st.nextProject)
  {
    match session
    case None => Reply(st, session, Error(Unauthorized))
    case Some(user) =>
      if projectName == [] || file.None? then Reply(st, session, Error(BadRequest))
      else
        match SegmentFile(file.value, parse)
        case Failure(UnsupportedFormat) => Reply(st, session, Error(BadRequest))
        case Failure(ParseError) => Reply(st, session, Error(ServerError))
        case Success(rows) =>
          match CreateProject(st, user, projectName, rows)
          case Failure(_) => Reply(st, session, Error(ServerError))
          case Success((st', project)) => Reply(st', session, Ok(Uploaded(project)))
  }

  /** DELETE /api/projects/:projectId (server.js:147-162): the caller's project
      and, by the cascade, its segments are removed; a project that is someone
      else's or does not exist is answered with 403 and left alone. The 404
      branch of server.js:157 is kept as written. */
  function Delete(st: Store, session: Option<Id>, project: Id): (r: Reply)
    ensures r.session == session
    ensures r.response == Error(Unauthorized) <==> session.None?
    ensures r.response == Error(Forbidden) <==> session.Some? && !Owns(st, session.value, project)
    ensures r.response.Error? ==> r.store == st
    ensures session.Some? && Owns(st, session.value, project) ==>
              r.response == Ok(Deleted) && r.store == DeleteProject(st, project).0
    ensures r.response.Ok? ==> r.response == Ok(Deleted) && r.store == DeleteProject(st, project).0
  {
    match session
    case None => Reply(st, session, Error(Unauthorized))
    case Some(user) =>
      if !Owns(st, user, project) then Reply(st, session, Error(Forbidden))
      else
        var (st', changes) := DeleteProject(st, project);
        if changes > 0 then Reply(st', session, Ok(Deleted))
        else Reply(st, session, Error(NotFound))
  }

  /** The requests the core answers. */
  datatype Request =
    | RegisterRequest(username: JsValue, password: JsValue, hashed: string)
    | ListRequest
    | SegmentsRequest(project: Id)
    | SaveRequest(segment: Id, translation: JsValue)
    | UploadRequest(projectName: string, file: Option<UploadedFile>)
    | DeleteRequest(project: Id)

  /** Routes a request to its handler, as server.js does: saving goes through
      `Save`, which checks the session but not who owns the segment. */
  function Handle(st: Store, session: Option<Id>, req: Request,
                  parse: string -> Option<seq<(string, JsValue)>>): (r: Reply)
    ensures !req.RegisterRequest? ==> r.session == session
    ensures req.ListRequest? || req.SegmentsRequest? ==> r.store == st
  {
    match req
    case RegisterRequest(username, password, hashed) => Register(st, session, username, password, hashed)
    case ListRequest => ListProjects(st, session)
    case SegmentsRequest(project) => GetSegments(st, session, project)
    case SaveRequest(segment, translation) => Save(st, session, segment, translation)
    case UploadRequest(projectName, file) => Upload(st, session, projectName, file, parse)
    case DeleteRequest(project) => Delete(st, session, project)
  }

  /** The corrected router: saving goes through the owner-checked `SaveOwned`,
      and every other request is answered as `Handle` answers it. */
  function HandleOwned(st: Store, session: Option<Id>, req: Request,
                       parse: string -> Option<seq<(string, JsValue)>>): (r: Reply)
    ensures !req.RegisterRequest? ==> r.session == session
    ensures req.ListRequest? || req.SegmentsRequest? ==> r.store == st
    ensures !req.SaveRequest? ==> r == Handle(st, session, req, parse)
    ensures req.SaveRequest? && r.response.Ok? ==> r == Handle(st, session, req, parse)
  {
    match req
    case SaveRequest(segment, translation) => SaveOwned(st, session, segment, translation)
    case _ => Handle(st, session, req, parse)
  }
}
