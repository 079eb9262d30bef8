# EduLearn demo backend: catalog API and front-end file server

This project models the two pieces of sequential logic in the EduLearn demo.

The first is the catalog API in `server.js`. It keeps its whole state in memory: the `courses` and `videos` fixtures, and the `users` and `enrollments` lists. Its route handlers work on that state as follows:

- register and login of demo users, where login creates a "Demo User" for an unknown email;
- listing courses and videos, filtered by a case-insensitive category and cut into pages with `slice`;
- fetching a course by id;
- enrolling in a course, which appends an enrollment and adds one to the course's `studentsEnrolled`;
- fetching a video by id, which adds one to its `views`.

The second is the request handler of the static front-end server in `simple-server.js`. It maps `/` to `/index.html` and looks up the content type from the file extension. It then chooses the response from the outcome of reading the file:

- the file itself;
- the index document, as the single-page-application fallback for a missing file;
- a 500 message that names the error code.

Layout:

- `basics.dfy` (module `Basics`): `Option`, the JavaScript truthiness of an optional request field, and ASCII lower-casing.
- `listing.dfy` (module `Listing`): `find` by key, the category filter, `Array.prototype.slice` with its negative-index clamping, and the page window `[(page-1)*limit, (page-1)*limit+limit)`.
- `catalog.dfy` (module `Catalog`): the records, the fixtures, the response envelope and the list logic as pure functions. The class `Store` holds the four collections as `seq` fields. Its methods `Register`, `Login`, `Enroll` and `GetVideo` change them in place. `ListCourses`, `ListVideos` and `GetCourse` are functions that read it.
- `scenarios.dfy` (module `CatalogScenarios`): request sequences on a fresh store, answered from the handlers' contracts alone.
- `static_server.dfy` (module `StaticServer`): the path default, `path.extname`, the MIME table and the response choice. The file system is a function parameter `fs: string -> ReadOutcome`.

A handler's `Response` is `Ok(body)`, `BadRequest(message)` or `NotFound(message)`. Its `Status()` is 200, 400 or 404, and `Success()` is the envelope's `success` flag.

The following are parameters supplied by the caller:

- ids, creation and enrollment timestamps (`Date.now()`, `new Date()`);
- the `mock_jwt_token_` token.

Request fields are `Option<string>`. A field is missing in the JavaScript sense (`!x`) when it is absent or the empty string. The query parameters `page` and `limit` are `Option<int>`. When absent they take their defaults: page 1, and limit 10 for courses or 12 for videos.

The model keeps the code's behaviour where it may surprise a reader:

- A duplicate email on register answers 400, the same status as a missing field. There is no separate conflict status.
- Only the exact pathname `/` is replaced by the index document.
- Paths that climb above the root are not rejected.
- When the index document cannot be read on the fallback path, the second read's error is ignored. The answer is still 200 `text/html`, with an empty body, because `res.end(undefined)` sends nothing.

## Model

Four small definitions transcribe single lines of the source and carry no row of their own:
- `Basics.Truthy` is the `!x` test of server.js:104, 144 and 183.
- `Listing.PageStart` is the start index of server.js:189.
- `StaticServer.RequestPath` is the `/` default of simple-server.js:14-16.
- `StaticServer.ServerErrorText` is the 500 text of simple-server.js:50.

Their properties are carried by the rows of other members:
- `Truthy` by `Store.Register`, `Store.Login` and `Matching`;
- `PageStart` by `PageWindow` and `PagesAdjacent`;
- `RequestPath` by `RootIsIndex`;
- `ServerErrorText` by `ServerErrorTextNamesCode`.

| member | source | states |
|---|---|---|
| `Basics.ToLower` | simple-server.js:22 | lower-cased string has the same length and each character lower-cased (ASCII) |
| `Basics.ToLowerIdempotent` | server.js:185 | lower-casing twice equals lower-casing once |
| `Listing.IndexOf` | server.js:202 | `find`: the index of the first element with the key, none before it has it; none exactly when no element has it |
| `Listing.IndexOfAppend` | server.js:151-162 | appending a user never moves the first match of an email already present; an absent email is then found at the new last index |
| `Listing.FilterCategory` | server.js:183-186 | the filtered list keeps exactly the elements whose lower-cased category equals the lower-cased query, and is no longer than the input |
| `Listing.FilterAppend` | server.js:184-186 | filtering distributes over concatenation, i.e. keeps fixture order |
| `Listing.FilterMultiset` | server.js:184-186 | each matching element is kept as many times as it occurs, and no other element is kept |
| `Listing.FilterAll` | server.js:184-186 | when every element matches, the filter returns the list unchanged |
| `Listing.FilterNone` | server.js:184-186 | when no element matches, the filter returns the empty list |
| `Listing.SliceFromEnd` | server.js:191 | `slice` with a negative index from -length to -1 is `slice` with length plus that index, for either end; a start below -length is start 0 |
| `Listing.SliceClamp` | server.js:191 | a start at or past the length gives the empty list, an end at or past the length runs to the end, and `slice(0, length)` is the whole list |
| `Listing.SliceSplit` | server.js:191 | for 0 ≤ a ≤ b ≤ c, `slice(a, b)` followed by `slice(b, c)` is `slice(a, c)` |
| `Listing.Page` | server.js:189-191 | for any page number, the page holds at most `limit` items (limit ≥ 0) and no more than the list, all of them items of the list |
| `Listing.PageWindow` | server.js:189-191 | for page ≥ 1 and limit ≥ 0 the page starts at (page-1)*limit and holds at most `limit` items. It is the clamped window of consecutive items in list order, its length is `limit` or what is left, and it is empty past the end |
| `Listing.PagesAdjacent` | server.js:189-191 | page p followed by page p+1 is the window of 2*limit items that starts where page p starts |
| `Catalog.Matching` | server.js:181-187 | with no category (absent or empty) the handler works on all items; with one, on items of the list that are all in the category case-insensitively, keeping every item that is |
| `Catalog.ListItems` | server.js:193-197 | `count` is the length of `data`; `total` is the number of matching items |
| `Catalog.ListedItemsMatch` | server.js:181-186 | every listed item is a fixture item, and in the requested category when one is given |
| `Catalog.ListedPage` | server.js:189-197 | the listed page holds at most `limit` and at most `total` items. These are the matching items from index (page-1)*limit on, in order. The page is empty when that index is past `total` |
| `Catalog.UnmatchedCategory` | server.js:183-197 | a category no item is in lists no data, with `total` 0 and `count` 0 |
| `Catalog.NoCategoryListsAll` | server.js:181-197 | with no category, and all items fitting on one default page, every item is listed in fixture order |
| `Catalog.AddStudent` | server.js:238 | enrollment changes only that course's `studentsEnrolled`, by exactly +1; every other course and field is unchanged |
| `Catalog.AddView` | server.js:282 | a fetch changes only that video's `views`, by exactly +1; every other video and field is unchanged |
| `Catalog.AddViewKeepsIndex` | server.js:272-282 | after a fetch, looking the same id up again finds the same video |
| `Catalog.AddStudentKeepsIndex` | server.js:219-238 | after an enrollment, looking the same id up again finds the same course |
| `Catalog.RepeatedFetches` | server.js:272-282 | after n fetches of a video by its id, the next fetch by that id finds it at the same index (so n fetches by id leave the videos as `ViewedTimes` after n) |
| `Catalog.ViewsAddUp` | server.js:271-287 | n fetches of one video add exactly n to its views and change nothing else |
| `Catalog.Store.constructor` | server.js:11-84 | start-up state: the three course and three video fixtures, no users, no enrollments, emails unique |
| `Catalog.Store.Register` | server.js:101-139 | missing name/email/password gives 400 "Please provide name, email and password" and an existing email (exact match) gives 400 "User already exists", both with nothing changed. Otherwise exactly one `student` user with that name and email is appended and its view returned. Emails stay unique and the other collections are unchanged |
| `Catalog.Store.Login` | server.js:141-175 | missing email/password gives 400 with nothing changed. An existing email returns that user with nothing changed. Otherwise exactly one "Demo User" `student` with that email is appended and returned. Emails stay unique |
| `Catalog.Store.ListCourses` | server.js:178-199 | always 200; the body is the listing of the courses with a default page size of 10, so without `limit`/`page` the data is the first min(10, total) matching courses |
| `Catalog.Store.ListVideos` | server.js:248-269 | always 200; the same listing over the videos with a default page size of 12 |
| `Catalog.Store.GetCourse` | server.js:201-215 | 200 with the first course with that id exactly when one exists, else 404 "Course not found"; reads only |
| `Catalog.Store.Enroll` | server.js:217-245 | an unknown id gives 404 "Course not found" with nothing changed. A known id appends exactly one enrollment with that course id, student `mock_student_id` and progress 0, and adds one to that course's count alone. Users and videos are unchanged |
| `Catalog.Store.GetVideo` | server.js:271-288 | an unknown id gives 404 "Video not found" with nothing changed. A known id adds one to that video's views alone and returns the updated record |
| `CatalogScenarios.RegisterTwice` | server.js:101-139 | registering the same email twice gives success as a student, then 400 "User already exists" |
| `CatalogScenarios.LoginUnknown` | server.js:141-175 | a login with an unregistered email succeeds as a new "Demo User"; logging in again returns the same user |
| `CatalogScenarios.FetchVideoTwice` | server.js:271-288 | two fetches of a seeded video return its views plus 1, then plus 2, with every other field as seeded |
| `CatalogScenarios.EnrollSeeded` | server.js:217-245 | enrolling in a seeded course returns progress 0 for that course, and the course then shows one more student |
| `CatalogScenarios.UnknownIds` | server.js:201-209 | unknown course and video ids answer 404 with `success` false |
| `CatalogScenarios.ListAllSeeded` | server.js:178-199 | with no category and default paging, all three seeded courses are listed, `total` 3 |
| `CatalogScenarios.SecondPageOfOne` | server.js:189-197 | `limit=1&page=2` lists exactly the second seeded course, `count` 1, `total` 3 |
| `StaticServer.RootIsIndex` | simple-server.js:14-16 | `/` is answered exactly as `/index.html`; any other pathname is read unchanged |
| `StaticServer.ExtName` | simple-server.js:22 | the extension is empty, or a dot followed by no further dot and no slash; which one it is is stated by `ExtNameSuffix`, `ExtNameNoDot`, `ExtNameHiddenFile` and `ExtNameDotDot` for the path shapes they name (trailing slashes are covered only through the definition) |
| `StaticServer.ExtNameSuffix` | simple-server.js:22 | a path ending in a file name and then a dot with at least one more character, no further dot and no slash has exactly that extension (`/a/b.min.css` has `.css`) |
| `StaticServer.ExtNameNoDot` | simple-server.js:22-36 | a path without a dot has no extension and is served as `application/octet-stream` |
| `StaticServer.ExtNameLower` | simple-server.js:22 | taking the extension commutes with lower-casing |
| `StaticServer.MimeFor` | simple-server.js:22-36 | the lower-cased extension's table entry, and `application/octet-stream` exactly when it is not in the table |
| `StaticServer.ExtNameHiddenFile` | simple-server.js:22 | a last segment that starts with its only dot (`/.env`) has no extension |
| `StaticServer.ExtNameDotDot` | simple-server.js:22 | a last segment `..` has no extension |
| `StaticServer.MimeForTableKey` | simple-server.js:25-36 | every key of the table is in lower case, so it is looked up as it is and gets its own entry |
| `StaticServer.ContentType` | simple-server.js:19-36 | a path whose lower-cased extension is in the table is served with that extension's entry; it is served as octet-stream exactly when that extension is not in the table |
| `StaticServer.ContentTypeOfTableFile` | simple-server.js:19-36 | a request for a file named with a table extension gets that entry's type (`/app.js` as `text/javascript`) |
| `StaticServer.TextEntries` | simple-server.js:25-29 | `.html`, `.js`, `.css` and `.json` map to their fixed types |
| `StaticServer.ImageEntries` | simple-server.js:30-33 | `.png`, `.jpg` (as `image/jpg`), `.gif` and `.ico` map to their fixed types |
| `StaticServer.UnknownExtensions` | simple-server.js:36 | the empty extension and `.svg` give `application/octet-stream`; for every extension the general case is `MimeFor`'s second ensures |
| `StaticServer.ContentTypeIgnoresCase` | simple-server.js:22 | a path and its lower-cased form get the same content type (`.HTML` as `.html`) |
| `StaticServer.ServerErrorTextNamesCode` | simple-server.js:50 | two error codes give the same 500 text exactly when they are the same code |
| `StaticServer.Handle` | simple-server.js:39-59 | a read file gives 200 with its content type, `Access-Control-Allow-Origin: *` and its bytes. ENOENT gives 200 `text/html` with the index document's bytes, or an empty body if that read fails. Any other error gives 500 with no headers and "Sorry, check with the site admin for error: CODE ..\n". The status is 500 exactly in that last case |
| `StaticServer.MissingFilesLookAlike` | simple-server.js:41-46 | every missing file, whatever its extension, gets the same 200 index-document response |

## Left out

- Express and `http` setup, the `cors` and JSON-body middleware, `listen`, console logging, and the `GET /` banner route: these are I/O wiring.
- Ids, timestamps and tokens are opaque values supplied by the caller. Clocks are not modelled, and so neither is whether two ids can coincide.
- `price`, `originalPrice` and `rating` are carried as `real` and never computed on. Counters are unbounded integers: JavaScript's loss of precision above 2^53 is not modelled.
- Query coercion: `page` and `limit` are already-parsed integers. Non-numeric strings (`NaN`), fractional values and repeated query keys (arrays) are not modelled. A category sent as an array would make `toLowerCase` throw; that case is not modelled either.
- Request-body fields that are JSON values other than strings: truthiness is modelled only as absent versus empty versus non-empty string.
- `toLowerCase` is modelled on ASCII letters only. Unicode case mapping is not modelled.
- `url.parse` is not modelled; the pathname is an input. `path.join` normalisation is not modelled: `.` and `..` segments and repeated slashes can change the last segment that `extname` sees, and the model reads the extension from the pathname as given. A null pathname is not modelled.
- The file read is an input (`fs`); real file-system access and the UTF-8 encoding of the 500 text body are not modelled.
- Path traversal above the root is neither guarded nor asserted, since the code does not guard it.
- Concurrency: each handler is one atomic step on the store.
- The JSON responses of the get-by-id handlers serialise the live fixture object. The model returns its value at the time of the answer, and object identity and aliasing are not modelled.
