/**
 * The FastAPI server of main.py: the course loaded once with theory rendered
 * to HTML, the lookups by lesson id and index, and answer checking with a
 * per-task attempt counter kept across requests.
 */
module MainApp {
  import opened Wrappers
  import opened PyStr
  import opened Course
  import Markdown

  /**
   * `load_course_data` of main.py: walks the manifest's modules and their
   * topics, appending one lesson per topic whose file exists, with the
   * theory rendered by `markdown_to_html`.
   */
  method LoadCourseData(manifest: Option<Manifest>, fs: FileSystem) returns (course: CourseData)
    ensures course == Loaded(manifest, fs, Markdown.Rendered)
  {
    var modules: seq<Module> := [];
    if manifest.Some? {
      modules := manifest.value.modules.GetOr([]);
    }
    var lessons: seq<Lesson> := [];
    var i := 0;
    while i < |modules|
      invariant 0 <= i <= |modules|
      invariant lessons == ModuleLessons(modules[..i], fs, Markdown.Rendered)
    {
      var m := modules[i];
      var topics := Topics(m);
      var j := 0;
      while j < |topics|
        invariant 0 <= j <= |topics|
        invariant lessons == ModuleLessons(modules[..i], fs, Markdown.Rendered)
                             + TopicLessons(m, topics[..j], fs, Markdown.Rendered)
      {
        var t := topics[j];
        assert topics[..j + 1][..j] == topics[..j];
        if t.path in fs {
          var lessonData := fs[t.path];
          var theory := Markdown.MarkdownToHtml(lessonData.theory.GetOr(""));
          lessons := lessons + [Lesson(t.id, m.title + " - " + t.title, m.id, t.id,
                                       theory, lessonData.tasks.GetOr([]))];
        }
        j := j + 1;
      }
      assert topics[..j] == topics;
      assert modules[..i + 1][..i] == modules[..i];
      i := i + 1;
    }
    assert modules[..i] == modules;
    course := CourseData(modules, lessons);
  }

  /**
   * The nested search of `check_answer`: the first task with the id, lessons
   * in order and tasks in order within a lesson.
   */
  method LocateTask(lessons: seq<Lesson>, taskId: string) returns (task: Option<Task>)
    ensures task == FirstTask(lessons, taskId)
  {
    task := None;
    var i := 0;
    while i < |lessons|
      invariant 0 <= i <= |lessons|
      invariant task.None?
      invariant forall k :: 0 <= k < i ==> TaskIndex(lessons[k].tasks, taskId).None?
    {
      var tasks := lessons[i].tasks;
      var j := 0;
      while j < |tasks|
        invariant 0 <= j <= |tasks|
        invariant task.None?
        invariant forall k :: 0 <= k < j ==> tasks[k].id != taskId
      {
        if tasks[j].id == taskId {
          TaskIndexAt(tasks, taskId, j);
          FirstTaskPosAt(lessons, taskId, i, j);
          task := Some(tasks[j]);
          break;
        }
        j := j + 1;
      }
      if task.Some? {
        break;
      }
      i := i + 1;
    }
  }

  /** The body of a `check_answer` reply. */
  datatype CheckReply = CheckReply(correct: bool, expected: string, hint: string, attempts: nat)

  /** `user_attempts.get(task_id, 0)`. */
  function AttemptsOf(attempts: map<string, nat>, taskId: string): nat {
    if taskId in attempts then attempts[taskId] else 0
  }

  /** One `check_answer` call as a value: the reply and the attempt counters afterwards. */
  function Submit(lessons: seq<Lesson>, attempts: map<string, nat>, taskId: string, answer: string)
    : (Result<CheckReply, ApiError>, map<string, nat>)
  {
    match FirstTask(lessons, taskId)
    case None => (Failure(TaskNotFound), attempts)
    case Some(t) =>
      var n := AttemptsOf(attempts, taskId) + 1;
      (Success(CheckReply(Normalize(answer) == Normalize(t.answer), t.answer, t.hint, n)),
       attempts[taskId := n])
  }

  /** An unknown task id is a not-found and leaves every counter as it was. */
  lemma SubmitUnknownTask(lessons: seq<Lesson>, attempts: map<string, nat>, taskId: string, answer: string)
    ensures var (r, after) := Submit(lessons, attempts, taskId, answer);
            && (r.Failure? <==> forall k, j :: 0 <= k < |lessons| && 0 <= j < |lessons[k].tasks| ==>
                                   lessons[k].tasks[j].id != taskId)
            && (r.Failure? ==> r.error == TaskNotFound && after == attempts)
  {
  }

  /** A found task bumps its own counter by one from a default of 0 and no other counter. */
  lemma SubmitCountsOneKey(lessons: seq<Lesson>, attempts: map<string, nat>, taskId: string, answer: string)
    ensures var (r, after) := Submit(lessons, attempts, taskId, answer);
            r.Success? ==>
              && after.Keys == attempts.Keys + {taskId}
              && after[taskId] == AttemptsOf(attempts, taskId) + 1
              && r.value.attempts == after[taskId]
              && forall k :: k in attempts && k != taskId ==> after[k] == attempts[k]
  {
    match FirstTask(lessons, taskId)
    case None =>
    case Some(t) =>
      BumpOneKey(attempts, taskId);
  }

  /** Raising one counter by one leaves every other counter as it was. */
  lemma BumpOneKey(attempts: map<string, nat>, taskId: string)
    ensures var after := attempts[taskId := AttemptsOf(attempts, taskId) + 1];
            && after.Keys == attempts.Keys + {taskId}
            && forall k :: k in attempts && k != taskId ==> after[k] == attempts[k]
  {
  }

  /**
   * A found task is judged on trimmed, lower-cased text, and the reply
   * carries the stored answer verbatim and the stored hint.
   */
  lemma SubmitCompares(lessons: seq<Lesson>, attempts: map<string, nat>, taskId: string, answer: string)
    ensures var (r, _) := Submit(lessons, attempts, taskId, answer);
            r.Success? ==>
              && FirstTask(lessons, taskId).Some?
              && r.value.expected == FirstTask(lessons, taskId).value.answer
              && r.value.hint == FirstTask(lessons, taskId).value.hint
              && (r.value.correct <==> Normalize(answer) == Normalize(r.value.expected))
  {
  }

  /** The counters after submitting each of `answers` for the same task id in turn. */
  function SubmitAll(lessons: seq<Lesson>, attempts: map<string, nat>, taskId: string, answers: seq<string>)
    : map<string, nat>
    decreases |answers|
  {
    if answers == [] then attempts
    else SubmitAll(lessons, Submit(lessons, attempts, taskId, answers[0]).1, taskId, answers[1..])
  }

  /** After `n` submissions for a known task its counter has grown by `n`, and no other counter moved. */
  lemma {:induction false} SubmitAllCounts(lessons: seq<Lesson>, attempts: map<string, nat>, taskId: string,
                                           answers: seq<string>)
    requires FirstTask(lessons, taskId).Some?
    decreases |answers|
    ensures var after := SubmitAll(lessons, attempts, taskId, answers);
            && AttemptsOf(after, taskId) == AttemptsOf(attempts, taskId) + |answers|
            && forall k :: k != taskId ==> (k in after <==> k in attempts)
                                           && (k in attempts ==> after[k] == attempts[k])
  {
    if answers != [] {
      var next := Submit(lessons, attempts, taskId, answers[0]).1;
      SubmitCountsOneKey(lessons, attempts, taskId, answers[0]);
      SubmitAllCounts(lessons, next, taskId, answers[1..]);
    }
  }

  /** Starting from no attempts, the reply to the n-th submission for a known task reports n. */
  lemma NthReplyCounts(lessons: seq<Lesson>, taskId: string, earlier: seq<string>, answer: string)
    requires FirstTask(lessons, taskId).Some?
    ensures var (r, _) := Submit(lessons, SubmitAll(lessons, map[], taskId, earlier), taskId, answer);
            r.Success? && r.value.attempts == |earlier| + 1
  {
    SubmitAllCounts(lessons, map[], taskId, earlier);
  }

  /** The server's state: the course loaded at start-up and the attempt counters. */
  class CourseApp {
    const courseData: CourseData
    var userAttempts: map<string, nat>
    /** The manifest and the lesson files the course was loaded from. */
    ghost const manifest: Option<Manifest>
    ghost const files: FileSystem

    ghost predicate Valid() {
      courseData == Loaded(manifest, files, Markdown.Rendered)
    }

    constructor(manifest: Option<Manifest>, fs: FileSystem)
      ensures Valid() && this.manifest == manifest && files == fs
      ensures userAttempts == map[]
    {
      var c := LoadCourseData(manifest, fs);
      courseData := c;
      userAttempts := map[];
      this.manifest := manifest;
      files := fs;
    }

    /** `get_lesson`: the first lesson with the id, or not-found when there is none. */
    method GetLesson(lessonId: string) returns (r: Result<Lesson, ApiError>)
      ensures r.Failure? <==> LessonIndex(courseData.lessons, lessonId).None?
      ensures r.Failure? ==> r.error == LessonNotFound
      ensures r.Success? ==> r.value == courseData.lessons[LessonIndex(courseData.lessons, lessonId).value]
    {
      var lessons := courseData.lessons;
      var i := 0;
      while i < |lessons|
        invariant 0 <= i <= |lessons|
        invariant forall k :: 0 <= k < i ==> lessons[k].id != lessonId
      {
        if lessons[i].id == lessonId {
          return Success(lessons[i]);
        }
        i := i + 1;
      }
      return Failure(LessonNotFound);
    }

    /** `get_lesson_tasks`: all tasks of the first lesson with the id. */
    method GetLessonTasks(lessonId: string) returns (r: Result<seq<Task>, ApiError>)
      ensures r.Failure? <==> LessonIndex(courseData.lessons, lessonId).None?
      ensures r.Failure? ==> r.error == LessonNotFound
      ensures r.Success? ==> r.value == courseData.lessons[LessonIndex(courseData.lessons, lessonId).value].tasks
    {
      var lesson := GetLesson(lessonId);
      if lesson.Failure? {
        return Failure(lesson.error);
      }
      return Success(lesson.value.tasks);
    }

    /** `get_lesson_theory`: the rendered theory of the first lesson with the id. */
    method GetLessonTheory(lessonId: string) returns (r: Result<string, ApiError>)
      ensures r.Failure? <==> LessonIndex(courseData.lessons, lessonId).None?
      ensures r.Failure? ==> r.error == LessonNotFound
      ensures r.Success? ==> r.value == courseData.lessons[LessonIndex(courseData.lessons, lessonId).value].theory
    {
      var lesson := GetLesson(lessonId);
      if lesson.Failure? {
        return Failure(lesson.error);
      }
      return Success(lesson.value.theory);
    }

    /**
     * `get_lesson_by_index`: the lesson at that position, or not-found exactly
     * for an index outside the lesson list.
     */
    function GetLessonByIndex(index: int): (r: Result<Lesson, ApiError>)
      ensures r.Failure? <==> index < 0 || |courseData.lessons| <= index
      ensures r.Failure? ==> r.error == BadLessonIndex
      ensures r.Success? ==> 0 <= index < |courseData.lessons| && r.value == courseData.lessons[index]
      ensures r.Success? ==> LessonIndex(courseData.lessons, r.value.id).Some?
                             && LessonIndex(courseData.lessons, r.value.id).value <= index
    {
      if index < 0 || index >= |courseData.lessons| then Failure(BadLessonIndex)
      else
        LessonIndexOfMember(courseData.lessons, index);
        Success(courseData.lessons[index])
    }

    /** `health_check`: the manifest's modules and the topics whose lesson file exists. */
    function HealthCheck(): (h: HealthReport)
      requires Valid()
      ensures h.status == "ok"
      ensures h.modulesCount == |ManifestModules(manifest)|
      ensures h.lessonsCount == |Present(Entries(ManifestModules(manifest)), files)|
    {
      HealthCounts(manifest, files, Markdown.Rendered);
      HealthReport("ok", |courseData.modules|, |courseData.lessons|)
    }

    /**
     * `check_answer`: not-found before any state change for an unknown id;
     * otherwise that task's counter alone goes up by one and the reply judges
     * the normalised answer and reports the new count.
     */
    method CheckAnswer(taskId: string, answer: string) returns (r: Result<CheckReply, ApiError>)
      modifies this
      ensures (r, userAttempts) == Submit(courseData.lessons, old(userAttempts), taskId, answer)
      ensures r.Failure? ==> userAttempts == old(userAttempts)
      ensures r.Success? ==> userAttempts == old(userAttempts)[taskId := r.value.attempts]
                             && r.value.attempts == AttemptsOf(old(userAttempts), taskId) + 1
    {
      ghost var spec := Submit(courseData.lessons, userAttempts, taskId, answer);
      var task := LocateTask(courseData.lessons, taskId);
      if task.None? {
        return Failure(TaskNotFound);
      }
      userAttempts := userAttempts[taskId := AttemptsOf(userAttempts, taskId) + 1];
      var correct := Normalize(answer) == Normalize(task.value.answer);
      r := Success(CheckReply(correct, task.value.answer, task.value.hint, userAttempts[taskId]));
      assert spec.0 == r && spec.1 == userAttempts;
    }
  }
}
