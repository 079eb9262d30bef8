/** The catalog API: the course and video fixtures, the users and
    enrollments lists, and the route handlers that read and change them.
    Each handler answers with a `Response`, whose constructor fixes the HTTP
    status and the `success` flag of the JSON envelope. */
module Catalog {
  import opened Basics
  import opened Listing

  // ------------------------------------------------------------ records

  datatype Instructor = Instructor(name: string, email: string)

  datatype Course = Course(
    id: string, title: string, description: string, category: string,
    price: real, originalPrice: real, duration: nat, rating: real,
    studentsEnrolled: nat, instructor: Instructor)

  datatype Video = Video(
    id: string, title: string, description: string, youtubeId: string,
    duration: nat, views: nat, category: string, instructor: Instructor)

  /** A stored user; `createdAt` is the caller-supplied clock reading. */
  datatype User = User(id: string, name: string, email: string, role: string, createdAt: int)

  /** The `user` object of an auth response: the stored user without its timestamp. */
  datatype UserView = UserView(id: string, name: string, email: string, role: string)

  datatype Enrollment = Enrollment(
    id: string, courseId: string, studentId: string, enrolledAt: int, progress: int)

  function View(u: User): UserView {
    UserView(u.id, u.name, u.email, u.role)
  }

  // Key accessors handed to `IndexOf` and `FilterCategory`.
  function CourseId(c: Course): string { c.id }
  function CourseCategory(c: Course): string { c.category }
  function VideoId(v: Video): string { v.id }
  function VideoCategory(v: Video): string { v.category }
  function UserEmail(u: User): string { u.email }

  // ----------------------------------------------------------- envelope

  /** The JSON envelope: `Ok` is `success: true` with status 200;
      the two failures carry `success: false` and a message. */
  datatype Response<T> = Ok(body: T) | BadRequest(message: string) | NotFound(message: string) {
    function Status(): nat {
      match this
      case Ok(_) => 200
      case BadRequest(_) => 400
      case NotFound(_) => 404
    }
    predicate Success() {
      Ok?
    }
  }

  /** Body of a register or login answer: the user view and a token. */
  datatype Session = Session(user: UserView, token: string)

  /** Body of a list answer: `count`, `total` and `data`. */
  datatype PageBody<T> = PageBody(count: nat, total: nat, data: seq<T>)

  /** Body of an enroll answer. */
  datatype Enrolled = Enrolled(message: string, data: Enrollment)

  const MissingRegisterFields := "Please provide name, email and password"
  const MissingLoginFields := "Please provide email and password"
  const UserExists := "User already exists"
  const CourseNotFound := "Course not found"
  const VideoNotFound := "Video not found"
  const EnrolledMessage := "Successfully enrolled in course!"
  const StudentRole := "student"
  const DemoUserName := "Demo User"
  const MockStudentId := "mock_student_id"
  const CoursePageSize := 10
  const VideoPageSize := 12

  // ----------------------------------------------------------- fixtures

  const SeedCourses: seq<Course> := [
    Course("1", "Complete Web Development Bootcamp",
      "Learn HTML, CSS, JavaScript, React, Node.js and more!", "Development",
      89.99, 199.99, 60, 4.8, 1500, Instructor("John Doe", "john@example.com")),
    Course("2", "Data Science & Machine Learning",
      "Python, Pandas, NumPy, Scikit-learn, TensorFlow", "Data Science",
      99.99, 249.99, 80, 4.9, 1200, Instructor("Jane Smith", "jane@example.com")),
    Course("3", "Digital Marketing Mastery",
      "SEO, Social Media, Google Ads, Analytics", "Marketing",
      79.99, 179.99, 45, 4.7, 800, Instructor("Mike Johnson", "mike@example.com"))
  ]

  const SeedVideos: seq<Video> := [
    Video("1", "HTML & CSS Crash Course",
      "Learn the fundamentals of web development with HTML and CSS in this comprehensive tutorial.",
      "hdI2bqOjy3c", 45, 12000, "Development", Instructor("John Doe", "john@example.com")),
    Video("2", "JavaScript Fundamentals",
      "Master JavaScript basics including variables, functions, and DOM manipulation.",
      "DLX62G4lc44", 60, 18000, "Development", Instructor("John Doe", "john@example.com")),
    Video("3", "React.js Tutorial for Beginners",
      "Learn React.js from scratch with practical examples and projects.",
      "jS4aFq5-91M", 120, 25000, "Development", Instructor("Jane Smith", "jane@example.com"))
  ]

  // ------------------------------------------------------------ listing

  /** The items a list handler pages through: all of them when no category
      is given (absent or empty), else those in the category, case-insensitively. */
  function Matching<T>(items: seq<T>, categoryOf: T -> string, category: Option<string>): (r: seq<T>)
    ensures !Truthy(category) ==> r == items
    ensures |r| <= |items| && forall k :: 0 <= k < |r| ==> r[k] in items
    ensures Truthy(category) ==>
              (forall k :: 0 <= k < |r| ==> InCategory(r[k], categoryOf, category.value)) &&
              (forall i :: 0 <= i < |items| && InCategory(items[i], categoryOf, category.value) ==> items[i] in r)
  {
    if Truthy(category) then FilterCategory(items, categoryOf, category.value) else items
  }

  /** The body of a list answer: the page of the matching items selected
      by `page` (default 1) and `limit` (default `defaultLimit`), with
      `count` its length and `total` the number of matching items. */
  function ListItems<T>(items: seq<T>, categoryOf: T -> string, category: Option<string>,
                        limit: Option<int>, page: Option<int>, defaultLimit: int): (r: PageBody<T>)
    ensures r.count == |r.data| && r.total == |Matching(items, categoryOf, category)|
  {
    var filtered := Matching(items, categoryOf, category);
    var data := Page(filtered, page.GetOr(1), limit.GetOr(defaultLimit));
    PageBody(|data|, |filtered|, data)
  }

  /** Every listed item is a fixture item, and in the requested category when one is given. */
  lemma ListedItemsMatch<T>(items: seq<T>, categoryOf: T -> string, category: Option<string>,
                            limit: Option<int>, page: Option<int>, defaultLimit: int)
    ensures var r := ListItems(items, categoryOf, category, limit, page, defaultLimit);
            forall k :: 0 <= k < |r.data| ==>
              r.data[k] in items && (Truthy(category) ==> InCategory(r.data[k], categoryOf, category.value))
  {
    var filtered := Matching(items, categoryOf, category);
    var r := ListItems(items, categoryOf, category, limit, page, defaultLimit);
    forall k | 0 <= k < |r.data|
      ensures r.data[k] in items && (Truthy(category) ==> InCategory(r.data[k], categoryOf, category.value))
    {
      var a := RelativeIndex(PageStart(page.GetOr(1), limit.GetOr(defaultLimit)), |filtered|);
      assert r.data[k] == filtered[a + k];
    }
  }

  /** For a page from 1 and a non-negative limit the page holds at most
      `limit` matching items, consecutive and in fixture order, starting at
      index (page - 1) * limit, and nothing past the end of the list. */
  lemma ListedPage<T>(items: seq<T>, categoryOf: T -> string, category: Option<string>,
                      limit: Option<int>, page: Option<int>, defaultLimit: int)
    requires page.GetOr(1) >= 1 && limit.GetOr(defaultLimit) >= 0
    ensures var r, filtered := ListItems(items, categoryOf, category, limit, page, defaultLimit),
                               Matching(items, categoryOf, category);
            var n, start := limit.GetOr(defaultLimit), PageStart(page.GetOr(1), limit.GetOr(defaultLimit));
            r.count <= n && r.count <= r.total &&
            (start >= r.total ==> r.data == []) &&
            (start < r.total ==> r.count == if start + n <= r.total then n else r.total - start) &&
            forall k :: 0 <= k < r.count ==> r.data[k] == filtered[start + k]
  {
    PageWindow(Matching(items, categoryOf, category), page.GetOr(1), limit.GetOr(defaultLimit));
  }

  /** A category that no item is in lists nothing, with `total: 0`, whatever the paging. */
  lemma UnmatchedCategory<T>(items: seq<T>, categoryOf: T -> string, category: Option<string>,
                             limit: Option<int>, page: Option<int>, defaultLimit: int)
    requires Truthy(category)
    requires forall k :: 0 <= k < |items| ==> !InCategory(items[k], categoryOf, category.value)
    ensures var r := ListItems(items, categoryOf, category, limit, page, defaultLimit);
            r.total == 0 && r.count == 0 && r.data == []
  {
    FilterNone(items, categoryOf, category.value);
  }

  /** Without a category every item is listed, in fixture order, when one
      page of the default size holds them all. */
  lemma NoCategoryListsAll<T>(items: seq<T>, categoryOf: T -> string, category: Option<string>, defaultLimit: int)
    requires !Truthy(category) && |items| <= defaultLimit
    ensures var r := ListItems(items, categoryOf, category, None, None, defaultLimit);
            r.data == items && r.total == |items|
  {
    PageWindow(items, 1, defaultLimit);
  }

  // ---------------------------------------------------- state functions

  ghost predicate EmailsUnique(users: seq<User>) {
    forall i, j :: 0 <= i < j < |users| ==> users[i].email != users[j].email
  }

  /** The courses after one successful enrollment in course `i`: only
      that course's `studentsEnrolled` moves, by exactly one. */
  function AddStudent(courses: seq<Course>, i: nat): (r: seq<Course>)
    requires i < |courses|
    ensures |r| == |courses|
    ensures r[i].studentsEnrolled == courses[i].studentsEnrolled + 1
    ensures r[i].(studentsEnrolled := courses[i].studentsEnrolled) == courses[i]
    ensures forall j :: 0 <= j < |r| && j != i ==> r[j] == courses[j]
  {
    courses[i := courses[i].(studentsEnrolled := courses[i].studentsEnrolled + 1)]
  }

  /** The videos after one fetch of video `i`: only its `views` moves, by exactly one. */
  function AddView(videos: seq<Video>, i: nat): (r: seq<Video>)
    requires i < |videos|
    ensures |r| == |videos|
    ensures r[i].views == videos[i].views + 1
    ensures r[i].(views := videos[i].views) == videos[i]
    ensures forall j :: 0 <= j < |r| && j != i ==> r[j] == videos[j]
  {
    videos[i := videos[i].(views := videos[i].views + 1)]
  }

  /** The videos after `n` successful fetches of video `i`; no id ever changes. */
  function ViewedTimes(videos: seq<Video>, i: nat, n: nat): (r: seq<Video>)
    requires i < |videos|
    ensures |r| == |videos|
    ensures forall j :: 0 <= j < |r| ==> r[j].id == videos[j].id
  {
    if n == 0 then videos else AddView(ViewedTimes(videos, i, n - 1), i)
  }

  /** A fetch changes no id, so the next fetch of the same id finds the same video. */
  lemma AddViewKeepsIndex(videos: seq<Video>, i: nat, id: string)
    requires i < |videos|
    ensures IndexOf(AddView(videos, i), VideoId, id) == IndexOf(videos, VideoId, id)
  {
    IndexOfSameKeys(videos, AddView(videos, i), VideoId, id);
  }

  /** Enrolling changes no id, so a later lookup of the same id finds the same course. */
  lemma AddStudentKeepsIndex(courses: seq<Course>, i: nat, id: string)
    requires i < |courses|
    ensures IndexOf(AddStudent(courses, i), CourseId, id) == IndexOf(courses, CourseId, id)
  {
    IndexOfSameKeys(courses, AddStudent(courses, i), CourseId, id);
  }

  /** Fetching the video with id `id`, found at `i`, n times keeps it at
      `i`: the next fetch by that id finds the same video. The second clause
      is `ViewedTimes`' own step, restated here so that, with
      `Store.GetVideo`'s contract, n fetches by id leave `ViewedTimes(videos, i, n)`. */
  lemma RepeatedFetches(videos: seq<Video>, i: nat, n: nat, id: string)
    requires IndexOf(videos, VideoId, id) == Some(i)
    ensures IndexOf(ViewedTimes(videos, i, n), VideoId, id) == Some(i)
    ensures AddView(ViewedTimes(videos, i, n), i) == ViewedTimes(videos, i, n + 1)
  {
    IndexOfSameKeys(videos, ViewedTimes(videos, i, n), VideoId, id);
  }

  /** `IndexOf` depends only on the keys. */
  lemma {:induction false} IndexOfSameKeys<T>(s: seq<T>, t: seq<T>, key: T -> string, k: string)
    requires |s| == |t|
    requires forall j :: 0 <= j < |s| ==> key(s[j]) == key(t[j])
    ensures IndexOf(s, key, k) == IndexOf(t, key, k)
  {
    if s != [] {
      IndexOfSameKeys(s[1..], t[1..], key, k);
    }
  }

  /** n fetches of one video add exactly n to its views and change nothing else. */
  lemma {:induction false} ViewsAddUp(videos: seq<Video>, i: nat, n: nat)
    requires i < |videos|
    ensures var after := ViewedTimes(videos, i, n);
            after[i].views == videos[i].views + n &&
            after[i].(views := videos[i].views) == videos[i] &&
            forall j :: 0 <= j < |videos| && j != i ==> after[j] == videos[j]
  {
    if n > 0 {
      ViewsAddUp(videos, i, n - 1);
    }
  }

  // -------------------------------------------------------------- store

  /** The process-wide state of the API: two fixture collections whose
      counters move, and two lists that only grow. */
  class Store {
    var courses: seq<Course>
    var videos: seq<Video>
    var users: seq<User>
    var enrollments: seq<Enrollment>

    /** No two users share an email. */
    ghost predicate Valid()
      reads this
    {
      EmailsUnique(users)
    }

    /** The state at start-up: the fixtures and no users or enrollments. */
    constructor ()
      ensures Valid()
      ensures courses == SeedCourses && videos == SeedVideos
      ensures users == [] && enrollments == []
    {
      courses := SeedCourses;
      videos := SeedVideos;
      users := [];
      enrollments := [];
    }

    /** POST /api/auth/register. */
    method Register(name: Option<string>, email: Option<string>, password: Option<string>,
                    userId: string, now: int, token: string) returns (r: Response<Session>)
      requires Valid()
      modifies this
      ensures Valid()
      ensures courses == old(courses) && videos == old(videos) && enrollments == old(enrollments)
      ensures !(Truthy(name) && Truthy(email) && Truthy(password)) ==>
                r == BadRequest(MissingRegisterFields) && users == old(users)
      ensures Truthy(name) && Truthy(email) && Truthy(password) &&
              (exists j :: 0 <= j < |old(users)| && old(users)[j].email == email.value) ==>
                r == BadRequest(UserExists) && users == old(users)
      ensures Truthy(name) && Truthy(email) && Truthy(password) &&
              (forall j :: 0 <= j < |old(users)| ==> old(users)[j].email != email.value) ==>
                var u := User(userId, name.value, email.value, StudentRole, now);
                users == old(users) + [u] && r == Ok(Session(View(u), token))
    {
      if !(Truthy(name) && Truthy(email) && Truthy(password)) {
        return BadRequest(MissingRegisterFields);
      }
      var existing := IndexOf(users, UserEmail, email.value);
      if existing.Some? {
        return BadRequest(UserExists);
      }
      var u := User(userId, name.value, email.value, StudentRole, now);
      users := users + [u];
      r := Ok(Session(View(u), token));
    }

    /** POST /api/auth/login: returns the user with that email, creating a
        "Demo User" first when there is none; the password is never checked. */
    method Login(email: Option<string>, password: Option<string>,
                 userId: string, now: int, token: string) returns (r: Response<Session>)
      requires Valid()
      modifies this
      ensures Valid()
      ensures courses == old(courses) && videos == old(videos) && enrollments == old(enrollments)
      ensures !(Truthy(email) && Truthy(password)) ==>
                r == BadRequest(MissingLoginFields) && users == old(users)
      ensures Truthy(email) && Truthy(password) ==>
                match IndexOf(old(users), UserEmail, email.value)
                case Some(i) => users == old(users) && r == Ok(Session(View(old(users)[i]), token))
                case None =>
                  var u := User(userId, DemoUserName, email.value, StudentRole, now);
                  users == old(users) + [u] && r == Ok(Session(View(u), token))
    {
      if !(Truthy(email) && Truthy(password)) {
        return BadRequest(MissingLoginFields);
      }
      var found := IndexOf(users, UserEmail, email.value);
      var user: User;
      if found.Some? {
        user := users[found.value];
      } else {
        user := User(userId, DemoUserName, email.value, StudentRole, now);
        users := users + [user];
      }
      r := Ok(Session(View(user), token));
    }

    /** GET /api/courses: pages of 10 unless `limit` is given. */
    function ListCourses(category: Option<string>, limit: Option<int>, page: Option<int>): (r: Response<PageBody<Course>>)
      reads this
      ensures r == Ok(ListItems(courses, CourseCategory, category, limit, page, CoursePageSize))
      ensures limit.None? && page.None? ==>
                var filtered := Matching(courses, CourseCategory, category);
                r.body.data == filtered[..if |filtered| < 10 then |filtered| else 10]
    {
      var r := ListItems(courses, CourseCategory, category, limit, page, CoursePageSize);
      if limit.None? && page.None? then
        ListedPage(courses, CourseCategory, category, limit, page, CoursePageSize);
        Ok(r)
      else
        Ok(r)
    }

    /** GET /api/videos: the same listing, in pages of 12 unless `limit` is given. */
    function ListVideos(category: Option<string>, limit: Option<int>, page: Option<int>): (r: Response<PageBody<Video>>)
      reads this
      ensures r == Ok(ListItems(videos, VideoCategory, category, limit, page, VideoPageSize))
      ensures limit.None? && page.None? ==>
                var filtered := Matching(videos, VideoCategory, category);
                r.body.data == filtered[..if |filtered| < 12 then |filtered| else 12]
    {
      var r := ListItems(videos, VideoCategory, category, limit, page, VideoPageSize);
      if limit.None? && page.None? then
        ListedPage(videos, VideoCategory, category, limit, page, VideoPageSize);
        Ok(r)
      else
        Ok(r)
    }

    /** GET /api/courses/:id: the first course with that id, or 404; nothing changes. */
    function GetCourse(id: string): (r: Response<Course>)
      reads this
      ensures r.Ok? || r == NotFound(CourseNotFound)
      ensures r.Ok? <==> exists i :: 0 <= i < |courses| && courses[i].id == id
      ensures r.Ok? ==> exists i :: 0 <= i < |courses| && courses[i] == r.body && r.body.id == id &&
                                    forall j :: 0 <= j < i ==> courses[j].id != id
    {
      match IndexOf(courses, CourseId, id)
      case None => NotFound(CourseNotFound)
      case Some(i) => Ok(courses[i])
    }

    /** POST /api/courses/:id/enroll. */
    method Enroll(courseId: string, enrollmentId: string, now: int) returns (r: Response<Enrolled>)
      requires Valid()
      modifies this
      ensures Valid()
      ensures videos == old(videos) && users == old(users)
      ensures (forall j :: 0 <= j < |old(courses)| ==> old(courses)[j].id != courseId) ==>
                r == NotFound(CourseNotFound) && courses == old(courses) && enrollments == old(enrollments)
      ensures IndexOf(old(courses), CourseId, courseId).Some? ==>
                var e := Enrollment(enrollmentId, courseId, MockStudentId, now, 0);
                enrollments == old(enrollments) + [e] &&
                courses == AddStudent(old(courses), IndexOf(old(courses), CourseId, courseId).value) &&
                r == Ok(Enrolled(EnrolledMessage, e))
    {
      var found := IndexOf(courses, CourseId, courseId);
      if found.None? {
        return NotFound(CourseNotFound);
      }
      var e := Enrollment(enrollmentId, courseId, MockStudentId, now, 0);
      enrollments := enrollments + [e];
      courses := AddStudent(courses, found.value);
      r := Ok(Enrolled(EnrolledMessage, e));
    }

    /** GET /api/videos/:id: counts a view and returns the updated record. */
    method GetVideo(id: string) returns (r: Response<Video>)
      requires Valid()
      modifies this
      ensures Valid()
      ensures courses == old(courses) && users == old(users) && enrollments == old(enrollments)
      ensures (forall j :: 0 <= j < |old(videos)| ==> old(videos)[j].id != id) ==>
                r == NotFound(VideoNotFound) && videos == old(videos)
      ensures IndexOf(old(videos), VideoId, id).Some? ==>
                var i := IndexOf(old(videos), VideoId, id).value;
                videos == AddView(old(videos), i) && r == Ok(videos[i])
    {
      var found := IndexOf(videos, VideoId, id);
      if found.None? {
        return NotFound(VideoNotFound);
      }
      videos := AddView(videos, found.value);
      r := Ok(videos[found.value]);
    }
  }
}
