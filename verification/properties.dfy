/** Properties of the store that relate several requests, or a request and the
    schema's constraints. */
module Properties {
  import opened Wrappers
  import opened Segmenter
  import opened Schema
  import opened Server

  /** The session names a user that exists. */
  ghost predicate SessionValid(st: Store, session: Option<Id>) {
    session.Some? ==> session.value in st.users
  }

  /** The upload transaction keeps the constraints when the owner exists. */
  lemma CreatedValid(st: Store, st': Store, owner: Id, name: string, rows: seq<Pending>, project: Id)
    requires Valid(st) && owner in st.users
    requires Created(st, st', owner, name, rows, project)
    ensures Valid(st')
  {
    var st1 := st.(projects := st'.projects, nextProject := project + 1);
    assert AddsRows(st1, st', rows, project);
    forall id | id in st'.segments
      ensures st'.segments[id].project in st'.projects
    {
      if st.nextSegment <= id < st.nextSegment + |rows| {
        assert RowAt(st', st.nextSegment + (id - st.nextSegment), rows[id - st.nextSegment], project);
      }
    }
  }

  /** The upload transaction leaves every existing row as it was. */
  lemma CreatedKeeps(st: Store, st': Store, owner: Id, name: string, rows: seq<Pending>, project: Id)
    requires IdsFresh(st)
    requires Created(st, st', owner, name, rows, project)
    ensures project !in st.projects
    ensures st'.projects.Keys == st.projects.Keys + {project}
    ensures forall p :: p in st.projects ==> st'.projects[p] == st.projects[p]
    ensures forall k :: k in st.segments ==> k in st'.segments && st'.segments[k] == st.segments[k]
    ensures st'.users == st.users
  {
    var st1 := st.(projects := st'.projects, nextProject := project + 1);
    assert AddsRows(st1, st', rows, project);
  }

  /** Reading the project the upload transaction created gives back exactly its
      rows: row `i` is the segment with id `nextSegment + i`, and there are no
      others. */
  lemma CreatedThenRead(st: Store, st': Store, owner: Id, name: string, rows: seq<Pending>, project: Id)
    requires Valid(st)
    requires Created(st, st', owner, name, rows, project)
    ensures Owns(st', owner, project)
    ensures forall id :: id in ProjectSegments(st', project) <==>
              st.nextSegment <= id < st.nextSegment + |rows|
    ensures forall i :: 0 <= i < |rows| ==> RowAt(st', st.nextSegment + i, rows[i], project)
  {
    var st1 := st.(projects := st'.projects, nextProject := project + 1);
    assert AddsRows(st1, st', rows, project);
    CreatedKeeps(st, st', owner, name, rows, project);
    var segs := ProjectSegments(st', project);
    assert forall id :: id in st.segments ==> st.segments[id].project != project;
    forall id | st.nextSegment <= id < st.nextSegment + |rows|
      ensures id in segs
    {
      assert RowAt(st', st.nextSegment + (id - st.nextSegment), rows[id - st.nextSegment], project);
    }
  }

  lemma RegisterValid(st: Store, session: Option<Id>, username: JsValue, password: JsValue, hashed: string)
    requires Valid(st) && SessionValid(st, session)
    ensures Valid(Register(st, session, username, password, hashed).store)
    ensures SessionValid(Register(st, session, username, password, hashed).store,
                         Register(st, session, username, password, hashed).session)
  {
    var r := Register(st, session, username, password, hashed);
    if r.response.Ok? {
      InsertUserValid(st, Bind(username).value, hashed);
    }
  }

  lemma UploadValid(st: Store, session: Option<Id>, projectName: string, file: Option<UploadedFile>,
                    parse: string -> Option<seq<(string, JsValue)>>)
    requires Valid(st) && SessionValid(st, session)
    ensures Valid(Upload(st, session, projectName, file, parse).store)
    ensures SessionValid(Upload(st, session, projectName, file, parse).store, session)
  {
    var r := Upload(st, session, projectName, file, parse);
    if r.response.Ok? {
      var rows := SegmentFile(file.value, parse).value;
      CreatedValid(st, r.store, session.value, projectName, rows, st.nextProject);
      CreatedKeeps(st, r.store, session.value, projectName, rows, st.nextProject);
    }
  }

  lemma SaveValid(st: Store, session: Option<Id>, segment: Id, translation: JsValue)
    requires Valid(st)
    ensures Valid(Save(st, session, segment, translation).store)
  {
    if Bind(translation).Some? {
      UpdateTranslationValid(st, segment, Bind(translation).value);
    }
  }

  lemma SaveOwnedValid(st: Store, session: Option<Id>, segment: Id, translation: JsValue)
    requires Valid(st)
    ensures Valid(SaveOwned(st, session, segment, translation).store)
  {
    if Bind(translation).Some? {
      UpdateTranslationValid(st, segment, Bind(translation).value);
    }
  }

  lemma DeleteValid(st: Store, session: Option<Id>, project: Id)
    requires Valid(st)
    ensures Valid(Delete(st, session, project).store)
  {
    DeleteProjectValid(st, project);
  }

  /** Every request keeps the schema's constraints, and keeps the session
      pointing at an existing user. */
  lemma HandleValid(st: Store, session: Option<Id>, req: Request,
                    parse: string -> Option<seq<(string, JsValue)>>)
    requires Valid(st) && SessionValid(st, session)
    ensures Valid(Handle(st, session, req, parse).store)
    ensures SessionValid(Handle(st, session, req, parse).store, Handle(st, session, req, parse).session)
  {
    match req
    case RegisterRequest(username, password, hashed) => RegisterValid(st, session, username, password, hashed);
    case ListRequest =>
    case SegmentsRequest(_) =>
    case SaveRequest(segment, translation) => SaveValid(st, session, segment, translation);
    case UploadRequest(projectName, file) => UploadValid(st, session, projectName, file, parse);
    case DeleteRequest(project) => DeleteValid(st, session, project);
  }

  /** The corrected router keeps the same invariants. */
  lemma HandleOwnedValid(st: Store, session: Option<Id>, req: Request,
                         parse: string -> Option<seq<(string, JsValue)>>)
    requires Valid(st) && SessionValid(st, session)
    ensures Valid(HandleOwned(st, session, req, parse).store)
    ensures SessionValid(HandleOwned(st, session, req, parse).store,
                         HandleOwned(st, session, req, parse).session)
  {
    match req
    case SaveRequest(segment, translation) => SaveOwnedValid(st, session, segment, translation);
    case _ => HandleValid(st, session, req, parse);
  }

  /** Reading a freshly uploaded project gives back exactly its rows: row `i` of
      the upload is the segment with id `nextSegment + i`, and there are no
      others. */
  lemma UploadThenRead(st: Store, user: Id, projectName: string, file: UploadedFile,
                       parse: string -> Option<seq<(string, JsValue)>>)
    requires Valid(st)
    requires Upload(st, Some(user), projectName, Some(file), parse).response.Ok?
    ensures var up := Upload(st, Some(user), projectName, Some(file), parse);
            var rows := SegmentFile(file, parse).value;
            var read := GetSegments(up.store, Some(user), up.response.payload.project);
            && read.response.Ok?
            && (forall id :: id in read.response.payload.segments <==>
                  st.nextSegment <= id < st.nextSegment + |rows|)
            && (forall i :: 0 <= i < |rows| ==>
                  RowAt(up.store, st.nextSegment + i, rows[i], up.response.payload.project))
            && read.response.payload.segments == ProjectSegments(up.store, up.response.payload.project)
  {
    var up := Upload(st, Some(user), projectName, Some(file), parse);
    var rows := SegmentFile(file, parse).value;
    CreatedThenRead(st, up.store, user, projectName, rows, st.nextProject);
    assert GetSegments(up.store, Some(user), st.nextProject).response
           == Ok(SegmentList(ProjectSegments(up.store, st.nextProject)));
  }

  /** For a JSON upload, reading the new project gives one segment per key,
      in key order by id, with the key as source and the value, or the empty
      string when the value is falsy, as translation. */
  lemma JsonUploadThenRead(st: Store, user: Id, projectName: string, file: UploadedFile,
                           parse: string -> Option<seq<(string, JsValue)>>, entries: seq<(string, JsValue)>)
    requires Valid(st)
    requires FormatOf(file.originalName) == Json && parse(file.content) == Some(entries)
    requires Upload(st, Some(user), projectName, Some(file), parse).response.Ok?
    ensures var up := Upload(st, Some(user), projectName, Some(file), parse);
            var read := GetSegments(up.store, Some(user), up.response.payload.project);
            var segs := read.response.payload.segments;
            && read.response.Ok?
            && (forall id :: id in segs <==> st.nextSegment <= id < st.nextSegment + |entries|)
            && (forall i :: 0 <= i < |entries| ==>
                  && segs[st.nextSegment + i].source == entries[i].0
                  && (Truthy(entries[i].1) ==> Bind(entries[i].1) == Some(segs[st.nextSegment + i].translation))
                  && (!Truthy(entries[i].1) ==> segs[st.nextSegment + i].translation == Text("")))
  {
    UploadThenRead(st, user, projectName, file, parse);
    var up := Upload(st, Some(user), projectName, Some(file), parse);
    var rows := JsonSegments(entries);
    var project := up.response.payload.project;
    var segs := ProjectSegments(up.store, project);
    forall i | 0 <= i < |entries|
      ensures segs[st.nextSegment + i].source == entries[i].0
      ensures !Truthy(entries[i].1) ==> segs[st.nextSegment + i].translation == Text("")
      ensures Truthy(entries[i].1) ==> Bind(entries[i].1) == Some(segs[st.nextSegment + i].translation)
    {
      assert RowAt(up.store, st.nextSegment + i, rows[i], project);
    }
  }

  /** A text upload reads back as its sources, in order by id, each with the
      empty string as translation. */
  lemma TextUploadThenRead(st: Store, user: Id, projectName: string, file: UploadedFile,
                           parse: string -> Option<seq<(string, JsValue)>>)
    requires Valid(st)
    requires FormatOf(file.originalName) == Txt
    requires Upload(st, Some(user), projectName, Some(file), parse).response.Ok?
    ensures var up := Upload(st, Some(user), projectName, Some(file), parse);
            var read := GetSegments(up.store, Some(user), up.response.payload.project);
            var segs := read.response.payload.segments;
            var sources := TextSources(file.content);
            && read.response.Ok?
            && (forall id :: id in segs <==> st.nextSegment <= id < st.nextSegment + |sources|)
            && (forall i :: 0 <= i < |sources| ==>
                  segs[st.nextSegment + i] == Segment(sources[i], Text(""), up.response.payload.project))
  {
    UploadThenRead(st, user, projectName, file, parse);
    var up := Upload(st, Some(user), projectName, Some(file), parse);
    var rows := TextSegments(file.content);
    var project := up.response.payload.project;
    var segs := ProjectSegments(up.store, project);
    var sources := TextSources(file.content);
    forall i | 0 <= i < |sources|
      ensures segs[st.nextSegment + i] == Segment(sources[i], Text(""), project)
    {
      assert RowAt(up.store, st.nextSegment + i, rows[i], project);
      assert rows[i] == Pending(sources[i], JStr(""));
    }
  }

  /** A failed upload leaves the database exactly as it was; a successful one
      adds exactly one project and keeps every existing row: the project row and
      the segment rows are inserted together or not at all. */
  lemma UploadAllOrNothing(st: Store, session: Option<Id>, projectName: string, file: Option<UploadedFile>,
                           parse: string -> Option<seq<(string, JsValue)>>)
    requires Valid(st)
    ensures var up := Upload(st, session, projectName, file, parse);
            up.response.Error? ==> up.store == st
    ensures var up := Upload(st, session, projectName, file, parse);
            up.response.Ok? ==>
              && up.store.projects.Keys == st.projects.Keys + {st.nextProject}
              && st.nextProject !in st.projects
              && up.store.projects[st.nextProject] == Project(projectName, session.value)
              && (forall k :: k in st.segments ==> k in up.store.segments && up.store.segments[k] == st.segments[k])
  {
    var up := Upload(st, session, projectName, file, parse);
    if up.response.Ok? {
      CreatedKeeps(st, up.store, session.value, projectName, SegmentFile(file.value, parse).value, st.nextProject);
    }
  }

  /** A user cannot read or delete a project that is not theirs or does not
      exist, nor save into one of its segments, and the attempt changes nothing. */
  lemma ForeignProjectForbidden(st: Store, user: Id, project: Id, segment: Id, translation: JsValue)
    requires !Owns(st, user, project)
    ensures GetSegments(st, Some(user), project) == Reply(st, Some(user), Error(Forbidden))
    ensures Delete(st, Some(user), project) == Reply(st, Some(user), Error(Forbidden))
    ensures segment in st.segments && st.segments[segment].project == project ==>
              SaveOwned(st, Some(user), segment, translation) == Reply(st, Some(user), Error(Forbidden))
  {
  }

  /** Registering the same username twice: the first call succeeds, the second
      is answered with 409 and changes nothing, and one user has that name. */
  lemma RegisterTwice(st: Store, session: Option<Id>, name: string, password: string, again: JsValue,
                      hashed: string, hashedAgain: string)
    requires Valid(st)
    requires name != [] && password != [] && !Taken(st, Text(name))
    requires Truthy(again)
    ensures var first := Register(st, session, JStr(name), JStr(password), hashed);
            var second := Register(first.store, first.session, JStr(name), again, hashedAgain);
            && first.response.Ok?
            && second.response == Error(Conflict)
            && second.store == first.store
            && (forall a, b ::
                  (a in second.store.users && b in second.store.users
                   && second.store.users[a].username == Text(name)
                   && second.store.users[b].username == Text(name)) ==> a == b)
  {
    var first := Register(st, session, JStr(name), JStr(password), hashed);
    InsertUserValid(st, Text(name), hashed);
    assert first.store.users[st.nextUser].username == Text(name);
    assert Taken(first.store, Text(name));
  }

  /** Saving the same translation twice is the same as saving it once. */
  lemma SaveOwnedIdempotent(st: Store, session: Option<Id>, segment: Id, translation: JsValue)
    ensures var once := SaveOwned(st, session, segment, translation);
            SaveOwned(once.store, session, segment, translation) == once
  {
    var once := SaveOwned(st, session, segment, translation);
    if once.response.Ok? {
      var twice := SaveOwned(once.store, session, segment, translation);
      assert OwnsSegment(once.store, session.value, segment);
      assert twice.store.segments == once.store.segments;
    }
  }

  /** Deleting a project deletes its segments: afterwards no segment refers to
      it and reading it is forbidden; every other segment is kept as it was. */
  lemma DeleteCascades(st: Store, user: Id, project: Id)
    requires Delete(st, Some(user), project).response.Ok?
    ensures var after := Delete(st, Some(user), project).store;
            && (forall id :: id in after.segments ==> after.segments[id].project != project)
            && (forall id :: id in st.segments && st.segments[id].project != project ==>
                  id in after.segments && after.segments[id] == st.segments[id])
            && GetSegments(after, Some(user), project).response == Error(Forbidden)
  {
  }

  /** The `info.changes > 0` test of server.js:154 always passes, because the
      ownership check just before it found the project: DELETE never answers 404. */
  lemma DeleteNeverNotFound(st: Store, session: Option<Id>, project: Id)
    ensures Delete(st, session, project).response != Error(NotFound)
  {
  }

  /** What one user's request does to another user's data under the corrected
      router: nothing. Projects owned by `other` and their segments come through
      every request unchanged. */
  lemma HandleIsolation(st: Store, user: Id, other: Id, req: Request,
                        parse: string -> Option<seq<(string, JsValue)>>)
    requires Valid(st)
    requires user != other
    ensures var after := HandleOwned(st, Some(user), req, parse).store;
            && (forall p :: Owns(st, other, p) ==> p in after.projects && after.projects[p] == st.projects[p])
            && (forall s :: s in st.segments && Owns(st, other, st.segments[s].project) ==>
                  s in after.segments && after.segments[s] == st.segments[s])
  {
    var after := HandleOwned(st, Some(user), req, parse).store;
    match req
    case UploadRequest(projectName, file) =>
      var up := Upload(st, Some(user), projectName, file, parse);
      if up.response.Ok? {
        CreatedKeeps(st, up.store, user, projectName, SegmentFile(file.value, parse).value, st.nextProject);
      }
    case _ =>
  }

  /** The finding: /api/save as written lets any logged-in user overwrite the
      translation of a segment in another user's project. */
  lemma SaveForeignSegment(st: Store, user: Id, segment: Id, translation: JsValue)
    requires segment in st.segments
    requires !OwnsSegment(st, user, segment)
    requires Bind(translation).Some?
    ensures Save(st, Some(user), segment, translation).response == Ok(Saved)
    ensures Save(st, Some(user), segment, translation).store.segments[segment].translation
              == Bind(translation).value
  {
  }

  /** The router as written hands that save through: another user's
      isolation does not hold for `Handle`. */
  lemma HandleSaveForeign(st: Store, user: Id, segment: Id, translation: JsValue,
                          parse: string -> Option<seq<(string, JsValue)>>)
    requires segment in st.segments
    requires !OwnsSegment(st, user, segment)
    requires Bind(translation).Some?
    ensures var r := Handle(st, Some(user), SaveRequest(segment, translation), parse);
            && r.response == Ok(Saved)
            && r.store.segments[segment].translation == Bind(translation).value
    ensures HandleOwned(st, Some(user), SaveRequest(segment, translation), parse).response == Error(Forbidden)
  {
  }

  /** A concrete instance: user 2 overwrites the translation of segment 1, which
      belongs to project 1 of user 1. */
  lemma SaveCrossUserExample()
    ensures var st := Store(
              map[1 := User(Text("a"), "h1"), 2 := User(Text("b"), "h2")],
              map[1 := Project("p", 1)],
              map[1 := Segment("Hello.", Text(""), 1)],
              3, 2, 2);
            && Valid(st)
            && !OwnsSegment(st, 2, 1)
            && Save(st, Some(2), 1, JStr("x")).response == Ok(Saved)
            && Save(st, Some(2), 1, JStr("x")).store.segments[1].translation == Text("x")
            && SaveOwned(st, Some(2), 1, JStr("x")) == Reply(st, Some(2), Error(Forbidden))
  {
    var st := Store(
      map[1 := User(Text("a"), "h1"), 2 := User(Text("b"), "h2")],
      map[1 := Project("p", 1)],
      map[1 := Segment("Hello.", Text(""), 1)],
      3, 2, 2);
    assert Text("a") != Text("b");
    SaveForeignSegment(st, 2, 1, JStr("x"));
  }
}
