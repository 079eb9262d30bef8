/** Request sequences against a freshly started catalog API, answered
    from the handlers' contracts alone. */
module CatalogScenarios {
  import opened Basics
  import opened Listing
  import opened Catalog

  /** Registering one email twice: the first call succeeds as a student,
      the second is refused with 400 "User already exists". */
  method RegisterTwice(name: string, email: string, password: string) returns (first: Response<Session>, second: Response<Session>)
    requires name != "" && email != "" && password != ""
    ensures first.Success() && first.body.user.email == email && first.body.user.role == StudentRole
    ensures second == BadRequest(UserExists) && second.Status() == 400
  {
    var store := new Store();
    first := store.Register(Some(name), Some(email), Some(password), "u1", 1, "t1");
    assert store.users[0].email == email;
    second := store.Register(Some(name), Some(email), Some(password), "u2", 2, "t2");
  }

  /** Logging in with an email nobody registered creates a "Demo User";
      logging in again returns that same user. */
  method LoginUnknown(email: string, password: string) returns (first: Response<Session>, again: Response<Session>)
    requires email != "" && password != ""
    ensures first.Success() && first.body.user == UserView("u1", DemoUserName, email, StudentRole)
    ensures again.Success() && again.body.user == first.body.user
  {
    var store := new Store();
    first := store.Login(Some(email), Some(password), "u1", 1, "t1");
    again := store.Login(Some(email), Some(password), "u2", 2, "t2");
  }

  /** Two fetches of a seeded video raise its views by exactly two. */
  method FetchVideoTwice(i: nat) returns (first: Response<Video>, second: Response<Video>)
    requires i < |SeedVideos|
    ensures first.Success() && first.body.views == SeedVideos[i].views + 1
    ensures second.Success() && second.body.views == SeedVideos[i].views + 2
    ensures second.body.(views := SeedVideos[i].views) == SeedVideos[i]
  {
    var store := new Store();
    var id := SeedVideos[i].id;
    SeedVideoFound(i);
    first := store.GetVideo(id);
    AddViewKeepsIndex(SeedVideos, i, id);
    second := store.GetVideo(id);
  }

  /** Enrolling in a seeded course answers with a fresh enrollment at
      progress 0, and the course then shows one more enrolled student. */
  method EnrollSeeded(i: nat) returns (r: Response<Enrolled>, after: Response<Course>)
    requires i < |SeedCourses|
    ensures r.Success() && r.body.data.progress == 0 && r.body.data.courseId == SeedCourses[i].id
    ensures after.Success() && after.body.studentsEnrolled == SeedCourses[i].studentsEnrolled + 1
  {
    var store := new Store();
    var id := SeedCourses[i].id;
    SeedCourseFound(i);
    r := store.Enroll(id, "e1", 1);
    AddStudentKeepsIndex(SeedCourses, i, id);
    after := store.GetCourse(id);
  }

  /** Each seeded course is the first one found by its own id. */
  lemma SeedCourseFound(i: nat)
    requires i < |SeedCourses|
    ensures IndexOf(SeedCourses, CourseId, SeedCourses[i].id) == Some(i)
  {
    SeedIds();
  }

  /** Each seeded video is the first one found by its own id. */
  lemma SeedVideoFound(i: nat)
    requires i < |SeedVideos|
    ensures IndexOf(SeedVideos, VideoId, SeedVideos[i].id) == Some(i)
  {
    SeedIds();
  }

  /** The ids of the seeded records are "1", "2" and "3". */
  lemma SeedIds()
    ensures |SeedCourses| == 3 && SeedCourses[0].id == "1" && SeedCourses[1].id == "2" && SeedCourses[2].id == "3"
    ensures |SeedVideos| == 3 && SeedVideos[0].id == "1" && SeedVideos[1].id == "2" && SeedVideos[2].id == "3"
  {
  }

  /** No seeded record has id "4". */
  lemma NoSeedFour()
    ensures forall j :: 0 <= j < |SeedCourses| ==> SeedCourses[j].id != "4"
    ensures forall j :: 0 <= j < |SeedVideos| ==> SeedVideos[j].id != "4"
  {
    SeedIds();
  }

  /** Unknown ids are answered with 404 and `success: false`. */
  method UnknownIds() returns (course: Response<Course>, video: Response<Video>)
    ensures course == NotFound(CourseNotFound) && course.Status() == 404 && !course.Success()
    ensures video == NotFound(VideoNotFound) && video.Status() == 404 && !video.Success()
  {
    var store := new Store();
    NoSeedFour();
    course := store.GetCourse("4");
    video := store.GetVideo("4");
  }

  /** With no category and the default paging every seeded course is listed. */
  method ListAllSeeded() returns (all: Response<PageBody<Course>>)
    ensures all.Success() && all.body.data == SeedCourses && all.body.total == 3 && all.body.count == 3
  {
    var store := new Store();
    all := store.ListCourses(None, None, None);
  }

  /** `limit=1&page=2` lists exactly the second seeded course. */
  method SecondPageOfOne() returns (second: Response<PageBody<Course>>)
    ensures second.Success() && second.body.data == [SeedCourses[1]] && second.body.count == 1
    ensures second.body.total == 3
  {
    var store := new Store();
    second := store.ListCourses(None, Some(1), Some(2));
    ListedPage(SeedCourses, CourseCategory, None, Some(1), Some(2), CoursePageSize);
  }
}
