# Icarus translation memory: the upload segmenter and the owner-scoped store

Icarus is a small translation-memory web application. Users register, upload a
`.json` or `.txt` file as a new project, read the project's segments, save
translations and delete projects. This Dafny project models the two parts of
the server that carry real logic.

- **The upload segmenter** (`server.js:109-128`) is a pure function from an
  uploaded file to the ordered rows `{ source, translation }` to insert.
  - A JSON file gives one row per key, with `value || ''` as translation.
  - A text file is split into lines with `/\r?\n/`, and whitespace-only lines
    are skipped.
  - Each line is cut into sentences with the global pattern
    `/[^.!?]+[.!?]*\s*/g`, falling back to the whole line when nothing
    matches. Each sentence is trimmed and empty ones are dropped.
  - The format is chosen by the lower-cased extension that Node's
    `path.extname` gives.
- **The store** is the three tables of `setup-database.js` as maps from row id
  to row, with AUTOINCREMENT counters. Each request handler is a pure
  transition `(store, session, request) -> (store, session, response)`.
  - The handlers are register, list projects, read segments, save a
    translation, upload and delete.
  - The schema's constraints are the invariant `Valid`: unique non-null
    usernames and the two foreign keys.
  - Deleting a project removes its segments. Deleting a user removes the
    user's projects and their segments.
  - `setupDb` creates the tables and seeds them exactly once.

Modules:

- `Wrappers`: `Option` and `Result`.
- `Strings`: JavaScript whitespace, spans, `trim()`, `split('\n')` and ASCII
  lower-casing.
- `Sentences`: the sentence pattern read two independent ways.
  - `MatchAll` follows the regular expression's global match.
  - `Scan` is a four-state automaton over the line.
  - `MatchAllIsScan` proves they agree.
- `Segmenter`: lines, sentences, JSON rows and the file format.
- `Schema`: tables, constraints, SQL statements and setup.
- `Server`: the request handlers.
- `Properties`: properties that relate several requests.

The driver is better-sqlite3, which runs with foreign keys enforced. The model
uses these binding rules for it:

- Strings bind as text.
- Numbers bind as numbers.
- `null` and an absent field bind as NULL.
- A boolean, an object or an array makes the statement throw.

## Model

| member | source | states |
|---|---|---|
| `Segmenter.SegmentFile` | server.js:109-128 | A `.json` name gives the JSON rows, or a parse error when `JSON.parse` throws. A `.txt` name gives the text rows. Any other extension is `UnsupportedFormat`. Each outcome holds exactly when its condition does. |
| `Segmenter.JsonSegments` | server.js:110-111 | One row per key, in enumeration order. The key is the source. The translation is the value when it is truthy, and `''` exactly when the value is falsy. |
| `Segmenter.FalsyValues` | server.js:111 | `Truthy` is JavaScript truthiness, as used by `value \|\| ''` here and by `!username \|\| !password` at line 35. A value is falsy exactly when it is `''`, `0`, `false` or `null`. |
| `Segmenter.OrEmpty` | server.js:111 | `value \|\| ''` is always truthy or `''`. It returns the value itself exactly when the value is truthy or already `''`. |
| `Segmenter.TextSegments` | server.js:114-124 | Every source is non-empty, trimmed and free of line feeds, and every translation is `''`. |
| `Segmenter.TextSources` | server.js:114-124 | Every source of a text upload is non-empty, trimmed and free of line feeds. |
| `Segmenter.SourcesOf` | server.js:115-123 | Lines are processed in order. Every source is non-empty and trimmed, and lines without line feeds give sources without line feeds. |
| `Segmenter.TextSourcesFirstLine` | server.js:114-124 | The first line's sources come first, followed by those of the rest of the text, so sources keep line order. |
| `Segmenter.TextSourcesLastLine` | server.js:114-124 | A text without line feeds is a single line, and its sources are that line's sources. |
| `Segmenter.HelloExample` | server.js:114-124 | The text `"Hello world. Bye!\nSecond line"` gives the sources `"Hello world."`, `"Bye!"` and `"Second line"`, in that order. |
| `Segmenter.BlankLineSkipped` | server.js:116 | A whitespace-only line adds no source. |
| `Segmenter.LineSources` | server.js:116-123 | A line that is all whitespace gives nothing. Every source of a line is non-empty and trimmed, and a line without line feeds gives sources without line feeds. `LineSourcesKeeps` gives the other direction. |
| `Segmenter.KeepTrimmed` | server.js:118-122 | It never gives more chunks than it gets. Every kept chunk is non-empty and trimmed, and no line feed is introduced. `KeepTrimmedAppend` and `KeepTrimmedOne` say which chunks are kept, and in what order. |
| `Segmenter.KeepTrimmedAppend` | server.js:118-122 | Chunks are handled one after another: the result for `a + b` is the result for `a` followed by the result for `b`. |
| `Segmenter.KeepTrimmedOne` | server.js:119-121 | A single chunk is kept, trimmed, exactly when it is not all whitespace. |
| `Segmenter.KeepTrimmedKeeps` | server.js:118-122 | Every chunk that is not all whitespace appears, trimmed, among the kept chunks. |
| `Segmenter.LineSourcesKeeps` | server.js:116-123 | On a line that is not blank, every match that is not all whitespace becomes a source after trimming. When nothing matches, the same holds for the line itself. |
| `Segmenter.SentencesOf` | server.js:117 | The `\|\| [paragraph]` fallback never introduces a line feed. |
| `Segmenter.TerminatorLineKeptWhole` | server.js:117 | A non-empty line made only of `.`, `!` and `?` is kept whole as one source. |
| `Segmenter.PlainLineOneSource` | server.js:117-119 | A line without terminators that is not all whitespace gives one source: the trimmed line. |
| `Segmenter.TwoSentenceLine` | server.js:117-121 | A line `x t w y u` gives the sources `x t` and `y u`, in that order. Here `x` and `y` are trimmed sentences without terminators, `t` and `u` are runs of terminators, and `w` is whitespace. |
| `Segmenter.Paragraphs` | server.js:114 | Splitting on `\r?\n` gives one line per piece of `split('\n')`, and no line holds a line feed. |
| `Segmenter.ParagraphsCRLF` | server.js:114 | Lines joined with `"\r\n"` split back into the same lines. |
| `Segmenter.ParagraphsLF` | server.js:114 | Lines joined with `"\n"` split back into the same lines, when no line but the last ends in `\r`. |
| `Segmenter.Extname` | server.js:109 | `path.extname` is empty or starts with a dot. |
| `Segmenter.FormatOf` | server.js:109-112 | JSON exactly when the lower-cased extension is `.json`, and text exactly when it is `.txt`. Everything else is unsupported. |
| `Segmenter.ExtnameOfSuffix` | server.js:109 | The extension of `stem + ext` is `ext`, for a non-empty stem and a suffix `.xyz` without other dots or slashes. |
| `Segmenter.DotFile` | server.js:109 | A name whose only dot is its first character, such as `.json`, has no extension. |
| `Segmenter.ExtnameLower` | server.js:109 | Lower-casing a name lower-cases its extension and nothing else. |
| `Segmenter.FormatCaseInsensitive` | server.js:109-112 | The format of a name and of its lower-cased form are the same. |
| `Segmenter.UpperCaseTxt` | server.js:112 | `Notes.TXT` is a text file. |
| `Segmenter.MixedCaseJson` | server.js:109 | `messages.Json` is a JSON file. |
| `Segmenter.PdfUnsupported` | server.js:125-127 | `report.pdf` is unsupported. |
| `Segmenter.DotJsonUnsupported` | server.js:109-127 | A file named `.json` is unsupported. |
| `Sentences.MatchAll` | server.js:117 | Every match is non-empty, starts with a character other than `.`, `!` or `?`, and has no line feed when the line has none. |
| `Sentences.MatchAllIsScan` | server.js:117 | The regular-expression reading of a line equals the automaton reading `Scan`. |
| `Sentences.MatchesKeepLine` | server.js:117-119 | Concatenating the matches gives the line with exactly the characters the automaton skips removed. |
| `Sentences.Skips` | server.js:117 | Only `.`, `!` and `?` are ever skipped. |
| `Sentences.LexKeeps` | server.js:117 | From any automaton state, the pending text plus the later matches is the input minus the skipped characters. |
| `Sentences.NoMatchIffAllTerminators` | server.js:117 | A line has no match exactly when every character is a terminator. |
| `Sentences.NoTerminatorOneMatch` | server.js:117 | A non-empty line without terminators is one match: the whole line. |
| `Sentences.MatchAllSentence` | server.js:117 | A terminator-free run, its terminators and its trailing whitespace form the first match, and matching resumes after them. |
| `Strings.Trim` | server.js:116-119 | The result has no whitespace at either end, and is empty exactly when the input is all whitespace. |
| `Strings.TrimOneLine` | server.js:119 | Trimming never brings in a line feed. |
| `Strings.TrimSlice` | server.js:116-119 | What `trim()` keeps is one slice of the input, with only whitespace before and after it. |
| `Strings.TrimTrimmed` | server.js:119 | Trimming a trimmed string changes nothing. |
| `Strings.TrimPadded` | server.js:119 | A trimmed, non-empty string followed by whitespace trims back to itself. |
| `Strings.JoinSplitLines` | server.js:114 | Splitting on line feeds and joining with line feeds gives back the text. |
| `Strings.SplitLines` | server.js:114 | `split('\n')` always gives at least one piece, and no piece holds a line feed. `JoinSplitLines` and `SplitJoinLines` make it the inverse of joining with line feeds. |
| `Strings.SplitJoinLines` | server.js:114 | Joining lines that hold no line feed and splitting again gives back the lines. |
| `Strings.LowerIdempotent` | server.js:109 | Lower-casing twice is lower-casing once. |
| `Schema.InsertUser` | setup-database.js:11-15 | The insert fails exactly on a NULL username or one already taken. Otherwise it adds one user under the next id and changes nothing else. |
| `Schema.InsertProject` | setup-database.js:20-25 | The insert fails with a foreign-key error exactly when the owner does not exist. Otherwise it adds one project under the next id. |
| `Schema.InsertSegment` | setup-database.js:30-36 | The insert fails with a foreign-key error exactly when the project does not exist. Otherwise it adds one segment under the next id. |
| `Schema.DeleteProject` | setup-database.js:35 | The project goes, and with it exactly the segments that refer to it. Every other row is unchanged, and one row counts as changed exactly when the project existed. |
| `Schema.DeleteUser` | setup-database.js:24-35 | The user goes, along with exactly that user's projects and the segments of those projects. Every other row is unchanged. |
| `Schema.UpdateTranslation` | server.js:93 | Only the translation of the named segment changes, and an unknown id changes nothing. |
| `Schema.Seed` | setup-database.js:40-54 | On an empty `users` table, `testuser` and the project `Kurumsal Web Sitesi` are added. Otherwise nothing changes. |
| `Schema.Setup` | setup-database.js:7-58 | After setup there is at least one user. |
| `Schema.SetupIdempotent` | setup-database.js:11-41 | Running setup again, even with another hash, changes nothing. |
| `Schema.SetupFresh` | setup-database.js:44-51 | On a new database, setup gives exactly user 1 `testuser`, project 1 `Kurumsal Web Sitesi` owned by user 1, and no segments. |
| `Schema.SetupValid` | setup-database.js:7-58 | Setup keeps the constraints. |
| `Schema.EmptyValid` | setup-database.js:10-37 | The new, empty tables meet the constraints. |
| `Schema.InsertUserValid` | setup-database.js:13 | A successful user insert keeps usernames unique and non-null, and keeps the foreign keys. |
| `Schema.InsertProjectValid` | setup-database.js:24 | A successful project insert keeps the constraints. |
| `Schema.InsertSegmentValid` | setup-database.js:35 | A successful segment insert keeps the constraints. |
| `Schema.DeleteProjectValid` | setup-database.js:35 | No segment outlives its project. |
| `Schema.DeleteUserValid` | setup-database.js:24-35 | No project outlives its owner, and no segment outlives its project. |
| `Schema.UpdateTranslationValid` | setup-database.js:33 | Saving a translation keeps the constraints. |
| `Server.Bind` | server.js:38 | The driver refuses exactly booleans and objects. NULL comes exactly from `null`. Text comes only from a string with the same characters. |
| `Server.Register` | server.js:33-44 | Exactly when the username or password is falsy, the reply is 400. Other errors are 409 and change nothing. The call succeeds exactly when the password is a non-empty string and the username is bindable and free; the new user is then added and the session becomes the new id. |
| `Server.OwnedProjects` | server.js:76 | Exactly the projects whose owner is the user, unchanged. |
| `Server.ProjectSegments` | server.js:85 | Exactly the segments of the project, unchanged. |
| `Server.ListProjects` | server.js:74-79 | The reply is 401 exactly without a session. Otherwise it is exactly the caller's projects, and the store is unchanged. |
| `Server.GetSegments` | server.js:81-88 | The reply is 401 without a session, and 403 exactly when the project is not the caller's (absent or foreign). When the caller owns the project, the reply succeeds with exactly that project's segments. The store is unchanged. |
| `Server.Save` | server.js:90-96 | As written: 401 without a session, and 500 exactly on an unbindable translation. With a session and a bindable translation the reply is always `Saved`, whoever owns the segment. Only the named segment's translation is overwritten. An unknown id leaves the store unchanged. |
| `Server.SaveOwned` | server.js:90-96 | Corrected save: 403 exactly when the segment is not the caller's, leaving the store alone. The owner's save of a bindable translation succeeds and changes only that segment's translation. |
| `Server.InsertRows` | server.js:133-134 | The segment loop fails exactly on an unbindable translation, or on a missing project when there are rows. Otherwise row `i` lands at id `nextSegment + i`, and existing rows are kept. |
| `Server.CreateProject` | server.js:130-138 | The transaction fails exactly when the owner is missing or a row cannot be bound, and then changes nothing. Otherwise it adds one project and its rows. |
| `Server.Upload` | server.js:99-145 | 401 exactly without a session. 400 exactly for a missing name, a missing file or an unsupported format. Success exactly when the rows can be built and inserted. Every error leaves the store as it was. |
| `Server.Delete` | server.js:147-162 | 401 without a session, and 403 exactly when the project is not the caller's, leaving the store alone. When the caller owns the project, the reply is `Deleted` and the project and its segments are gone. |
| `Server.Handle` | server.js:33-162 | The routes as written, with saving through `Save`. Only register changes the session, and reads leave the store unchanged. |
| `Server.HandleOwned` | server.js:33-162 | Corrected router: saving goes through `SaveOwned`. Every other request, and every successful save, is answered as `Handle` answers it. |
| `Properties.CreatedValid` | server.js:130-136 | The upload transaction keeps the constraints. |
| `Properties.CreatedKeeps` | server.js:130-136 | The upload transaction adds exactly one new project and keeps every existing row. |
| `Properties.CreatedThenRead` | server.js:130-136 | After the transaction the owner owns the project, and its segments are exactly the new rows, in order by id. |
| `Properties.RegisterValid` | server.js:33-44 | Register keeps the constraints, and the session names an existing user. |
| `Properties.UploadValid` | server.js:99-145 | Upload keeps the constraints. |
| `Properties.SaveOwnedValid` | server.js:90-96 | Saving keeps the constraints. |
| `Properties.SaveValid` | server.js:90-96 | Saving as written keeps the constraints. |
| `Properties.DeleteValid` | server.js:147-162 | Delete keeps the constraints. |
| `Properties.HandleValid` | server.js:33-162 | Under the routes as written, every request keeps the constraints, and the session keeps naming an existing user. |
| `Properties.HandleOwnedValid` | server.js:33-162 | The corrected router keeps the same constraints and the same session invariant. |
| `Properties.UploadThenRead` | server.js:99-145 | Reading a freshly uploaded project succeeds and gives exactly its rows: row `i` is segment `nextSegment + i`, with nothing else. |
| `Properties.JsonUploadThenRead` | server.js:110-111 | A JSON upload reads back one segment per key, with the key as source. The translation is `''` for a falsy value and the bound value otherwise. |
| `Properties.TextUploadThenRead` | server.js:114-124 | A text upload reads back its sources, each with the translation `''`. |
| `Properties.UploadAllOrNothing` | server.js:130-145 | A failed upload leaves the store exactly as it was. A successful one adds exactly one project, owned by the caller, and keeps every existing row. |
| `Properties.ForeignProjectForbidden` | server.js:83-152 | Reading or deleting a project that is foreign or absent gives 403 and changes nothing. An owner-checked save into one of its segments does the same. |
| `Properties.RegisterTwice` | server.js:35-42 | A second registration of a name gives 409 and changes nothing, and exactly one user has that name. |
| `Properties.SaveOwnedIdempotent` | server.js:90-96 | Saving the same translation twice is the same as saving it once. |
| `Properties.DeleteCascades` | server.js:147-162 | After a delete, no segment refers to the project, every other segment is kept, and reading the project is forbidden. |
| `Properties.DeleteNeverNotFound` | server.js:154-158 | Delete never answers 404, because the ownership check has already found the project. |
| `Properties.HandleIsolation` | server.js:33-162 | Corrected router: no request of one user changes another user's projects or segments. `HandleSaveForeign` shows this fails for the routes as written. |
| `Properties.SaveForeignSegment` | server.js:90-96 | As written, a logged-in user who does not own a segment still overwrites its translation and gets `Saved`. |
| `Properties.HandleSaveForeign` | server.js:90-96 | Through the routes as written, a save into another user's segment succeeds and overwrites it. The corrected router answers it with 403. |
| `Properties.SaveCrossUserExample` | server.js:90-96 | Concrete case: user 2 overwrites segment 1 of user 1's project through `Save`, and `SaveOwned` refuses it with 403. |

## Left out

- Login, logout and `/api/session` (`server.js:46-71`) are not part of this
  model. Neither are express routing, the `isAuthenticated` middleware and the
  session cookie: the session is an `Option<Id>` parameter, and 401 means it
  is `None`.
- bcrypt: the hash is a parameter (`hashed`) of register and of setup.
- multer, `fs.readFileSync` and `fs.unlinkSync`: the upload arrives as a file
  name and its text. The temporary file is not modelled, and neither is its
  removal. The code does not remove it when `JSON.parse` or the transaction
  throws.
- `JSON.parse` and `for ... in` are one parameter. It gives the object's
  entries in enumeration order, or `None` when parsing throws. JavaScript's
  key ordering is not reproduced.
- Numbers are integers. Floating point, and SQLite's conversion of numbers
  stored in TEXT columns, are not modelled.
- Arrays of bind parameters that better-sqlite3 spreads are not modelled: any
  array or object is unbindable.
- The rows that `SELECT` returns come back as maps from id to row, because the
  queries have no `ORDER BY` and no order is promised.
- Ids are mathematical integers. Route parameters and body ids are taken as
  already converted; a missing id in a save behaves like an id no row has.
- The project name of an upload is text, and a missing one is the empty
  string. Multipart fields are always strings.
- `DeleteUser` has no HTTP route; it states the cascade that the schema
  declares.
- A failure of `fs.readFileSync` (the 500 of the outer catch) is not modelled.
- The static file server and `app.listen` are not modelled.
- `Strings.Lower`: lower-cases ASCII letters only. Only the letters of `json`
  and `txt` matter to the format, and no other character lower-cases to those.
- `Strings.IsSpace` is the fixed set of ECMAScript WhiteSpace and
  LineTerminator code points. Unicode general category Zs is not consulted
  beyond that list.
- Where the documented behaviour and `server.js` differ, the model follows
  `server.js`:
  - Saving to an unknown segment id answers success.
  - The temporary file is not removed on every path.
  - The 404 branch of delete is unreachable, as `DeleteNeverNotFound` proves.

## Findings

| source | as written | input that shows it | evidently intended | confidence | as-written member | corrected member |
|---|---|---|---|---|---|---|
| server.js:90-96 | `/api/save` updates the segment with the given id without checking that its project belongs to the session user. Every other project route checks ownership (server.js:83-84, 149-152). | Users 1 and 2; project 1 owned by user 1 with segment 1. User 2 posts `{ id: 1, newTranslation: "x" }`, gets `{ success: true }`, and segment 1 now holds `x`. | A segment outside the caller's projects is answered with 403 and left unchanged. | not executed; high: the same check guards the neighbouring routes | `Properties.SaveForeignSegment` | `Server.SaveOwned` |

`Server.Handle` routes requests as the code does, with saving through
`Server.Save`. `Server.HandleOwned` is the corrected router: it routes saving
through `Server.SaveOwned` and answers every other request as `Handle` does.
`Properties.HandleIsolation` and `Properties.ForeignProjectForbidden` are proved
for the corrected behaviour. `Properties.HandleSaveForeign` and
`Properties.SaveCrossUserExample` show the code as written.
