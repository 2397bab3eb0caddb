/**
 * The stand-alone HTTP server of run_simple.py: the course reloaded on every
 * request with theory kept as raw text, answer checking against the
 * normalised stored answer without attempt tracking, and the health counts.
 */
module SimpleServer {
  import opened Wrappers
  import opened PyStr
  import opened Course
  import Markdown
  import MainApp

  /**
   * `CourseHandler.load_course_data`: the same walk as main.py, but the
   * lesson's theory is the file's text as it is.
   */
  method LoadCourseData(manifest: Option<Manifest>, fs: FileSystem) returns (course: CourseData)
    ensures course == Loaded(manifest, fs, KeepRaw)
  {
    var modules: seq<Module> := [];
    if manifest.Some? {
      modules := manifest.value.modules.GetOr([]);
    }
    var lessons: seq<Lesson> := [];
    var i := 0;
    while i < |modules|
      invariant 0 <= i <= |modules|
      invariant lessons == ModuleLessons(modules[..i], fs, KeepRaw)
    {
      var m := modules[i];
      var topics := Topics(m);
      var j := 0;
      while j < |topics|
        invariant 0 <= j <= |topics|
        invariant lessons == ModuleLessons(modules[..i], fs, KeepRaw) + TopicLessons(m, topics[..j], fs, KeepRaw)
      {
        var t := topics[j];
        assert topics[..j + 1][..j] == topics[..j];
        if t.path in fs {
          var lessonData := fs[t.path];
          lessons := lessons + [Lesson(t.id, m.title + " - " + t.title, m.id, t.id,
                                       lessonData.theory.GetOr(""), lessonData.tasks.GetOr([]))];
        }
        j := j + 1;
      }
      assert topics[..j] == topics;
      assert modules[..i + 1][..i] == modules[..i];
      i := i + 1;
    }
    assert modules[..i] == modules;
    course := CourseData(modules, lessons);
  }

  /** `correct_answer` and `hint` once a task has matched. */
  datatype Expected = Expected(answer: string, hint: string)

  /** The pair of loop variables; `hint` means nothing while `correct_answer` is `None`. */
  function Pack(correctAnswer: Option<string>, hint: string): Option<Expected> {
    match correctAnswer
    case None => None
    case Some(a) => Some(Expected(a, hint))
  }

  /** `if correct_answer: break` -- a match stops the outer loop only when its normalised answer is non-empty. */
  predicate Settled(found: Option<Expected>) {
    found.Some? && found.value.answer != []
  }

  /** The loop variables after the inner loop over one lesson's tasks. */
  function AfterLesson(l: Lesson, taskId: string, found: Option<Expected>): Option<Expected> {
    match TaskIndex(l.tasks, taskId)
    case Some(j) => Some(Expected(Normalize(l.tasks[j].answer), l.tasks[j].hint))
    case None => found
  }

  /** The outer loop over `lessons`, starting from the loop variables `found`. */
  function Scan(lessons: seq<Lesson>, taskId: string, found: Option<Expected>): Option<Expected>
    decreases |lessons|
  {
    if lessons == [] then found
    else
      var next := AfterLesson(lessons[0], taskId, found);
      if Settled(next) then next else Scan(lessons[1..], taskId, next)
  }

  /** The outer loop from lesson `i` runs lesson `i`, then stops or carries on with lesson `i + 1`. */
  lemma ScanStep(lessons: seq<Lesson>, i: nat, taskId: string, found: Option<Expected>)
    requires i < |lessons|
    ensures var next := AfterLesson(lessons[i], taskId, found);
            Scan(lessons[i..], taskId, found)
            == if Settled(next) then next else Scan(lessons[i + 1..], taskId, next)
  {
    assert lessons[i..][0] == lessons[i] && lessons[i..][1..] == lessons[i + 1..];
  }

  /** The search loop of `handle_check_answer`. */
  method FindExpected(lessons: seq<Lesson>, taskId: string) returns (found: Option<Expected>)
    ensures found == Scan(lessons, taskId, None)
  {
    var correctAnswer: Option<string> := None;
    var hint := "";
    var i := 0;
    while i < |lessons|
      invariant 0 <= i <= |lessons|
      invariant Scan(lessons, taskId, None) == Scan(lessons[i..], taskId, Pack(correctAnswer, hint))
    {
      var tasks := lessons[i].tasks;
      ghost var before := Pack(correctAnswer, hint);
      var j := 0;
      while j < |tasks|
        invariant 0 <= j <= |tasks|
        invariant Pack(correctAnswer, hint) == before
        invariant forall k :: 0 <= k < j ==> tasks[k].id != taskId
      {
        if tasks[j].id == taskId {
          correctAnswer := Some(Normalize(tasks[j].answer));
          hint := tasks[j].hint;
          break;
        }
        j := j + 1;
      }
      TaskIndexAt(tasks, taskId, j);
      assert Pack(correctAnswer, hint) == AfterLesson(lessons[i], taskId, before);
      ScanStep(lessons, i, taskId, before);
      if correctAnswer.Some? && correctAnswer.value != [] {
        break;
      }
      assert Scan(lessons[i..], taskId, before) == Scan(lessons[i + 1..], taskId, Pack(correctAnswer, hint));
      i := i + 1;
    }
    found := Pack(correctAnswer, hint);
  }

  /** The JSON body of a check request; either key may be missing. */
  datatype CheckRequest = CheckRequest(taskId: Option<string>, answer: Option<string>)

  /** The body of a `handle_check_answer` reply. */
  datatype SimpleReply = SimpleReply(correct: bool, expected: string, hint: string, attempts: nat)

  /**
   * `handle_check_answer`: reloads the course, scans for a matching task, and
   * replies with the normalised stored answer and a constant attempt count.
   */
  method HandleCheckAnswer(manifest: Option<Manifest>, fs: FileSystem, request: CheckRequest)
    returns (r: Result<SimpleReply, ApiError>)
    ensures var found := Scan(Loaded(manifest, fs, KeepRaw).lessons, request.taskId.GetOr(""), None);
            && (r.Failure? <==> found.None?)
            && (r.Failure? ==> r.error == TaskNotFound)
            && (r.Success? ==> r.value.expected == found.value.answer && r.value.hint == found.value.hint)
    ensures r.Success? ==> r.value.attempts == 1
    ensures r.Success? ==> NormalForm(r.value.expected) && Normalize(r.value.expected) == r.value.expected
    ensures r.Success? ==> (r.value.correct <==> Normalize(request.answer.GetOr("")) == r.value.expected)
  {
    var taskId := request.taskId.GetOr("");
    var answer := Normalize(request.answer.GetOr(""));
    var course := LoadCourseData(manifest, fs);
    var found := FindExpected(course.lessons, taskId);
    assert found == Scan(Loaded(manifest, fs, KeepRaw).lessons, taskId, None);
    if found.None? {
      return Failure(TaskNotFound);
    }
    assert NormalForm(found.value.answer) && Normalize(found.value.answer) == found.value.answer by {
      ScanNormalised(course.lessons, taskId, None);
      NormalFormFixed(found.value.answer);
    }
    r := Success(SimpleReply(answer == found.value.answer, found.value.answer, found.value.hint, 1));
  }

  /** The `/api/health` branch: counts of the freshly loaded course. */
  method ServeHealth(manifest: Option<Manifest>, fs: FileSystem) returns (h: HealthReport)
    ensures h.status == "ok"
    ensures h.modulesCount == |ManifestModules(manifest)|
    ensures h.lessonsCount == |Present(Entries(ManifestModules(manifest)), fs)|
  {
    var course := LoadCourseData(manifest, fs);
    HealthCounts(manifest, fs, KeepRaw);
    h := HealthReport("ok", |course.modules|, |course.lessons|);
  }

  // ---------------------------------------------------------------------------
  // What the scan finds

  /** Every answer the scan reports is in normal form: trimmed and lower-case. */
  lemma {:induction false} ScanNormalised(lessons: seq<Lesson>, taskId: string, found: Option<Expected>)
    requires found.Some? ==> NormalForm(found.value.answer)
    ensures var r := Scan(lessons, taskId, found);
            r.Some? ==> NormalForm(r.value.answer)
    decreases |lessons|
  {
    if lessons != [] {
      var next := AfterLesson(lessons[0], taskId, found);
      var j := TaskIndex(lessons[0].tasks, taskId);
      if j.Some? {
        NormalizeNormalForm(lessons[0].tasks[j.value].answer);
      }
      if !Settled(next) {
        ScanNormalised(lessons[1..], taskId, next);
      }
    }
  }

  /** Not-found exactly when nothing was found before and no lesson holds a task with the id. */
  lemma {:induction false} ScanNone(lessons: seq<Lesson>, taskId: string, found: Option<Expected>)
    ensures Scan(lessons, taskId, found).None? <==> found.None? && FirstTask(lessons, taskId).None?
    decreases |lessons|
  {
    if lessons != [] {
      FirstTaskCons(lessons, taskId);
      var next := AfterLesson(lessons[0], taskId, found);
      if !Settled(next) {
        ScanNone(lessons[1..], taskId, next);
      }
    }
  }

  /**
   * When the first task with the id has a non-empty normalised answer, the
   * scan reports that task, as a first-match search would.
   */
  lemma {:induction false} ScanFindsFirstSettled(lessons: seq<Lesson>, taskId: string, found: Option<Expected>)
    requires FirstTask(lessons, taskId).Some?
    requires Normalize(FirstTask(lessons, taskId).value.answer) != []
    requires !Settled(found)
    ensures var t := FirstTask(lessons, taskId).value;
            Scan(lessons, taskId, found) == Some(Expected(Normalize(t.answer), t.hint))
    decreases |lessons|
  {
    FirstTaskCons(lessons, taskId);
    if TaskIndex(lessons[0].tasks, taskId).None? {
      ScanFindsFirstSettled(lessons[1..], taskId, found);
    }
  }

  /**
   * A match whose normalised answer is empty does not stop the scan: it is
   * reported only when no later lesson holds a task with the same id, and
   * otherwise the later lessons decide as if it had never been seen.
   */
  lemma {:induction false} ScanCarriesUnsettled(lessons: seq<Lesson>, taskId: string, found: Option<Expected>)
    requires !Settled(found)
    ensures Scan(lessons, taskId, found)
            == if FirstTask(lessons, taskId).Some? then Scan(lessons, taskId, None) else found
    decreases |lessons|
  {
    if lessons != [] {
      FirstTaskCons(lessons, taskId);
      if TaskIndex(lessons[0].tasks, taskId).None? {
        ScanCarriesUnsettled(lessons[1..], taskId, found);
        ScanCarriesUnsettled(lessons[1..], taskId, None);
      }
    }
  }

  /**
   * The override: when the first lesson's match normalises to the empty
   * string and a later lesson holds the same id, the later lesson's task is
   * reported, although a first-match search finds the earlier one.
   */
  lemma ScanOverride(first: Lesson, rest: seq<Lesson>, taskId: string)
    requires TaskIndex(first.tasks, taskId).Some?
    requires Normalize(first.tasks[TaskIndex(first.tasks, taskId).value].answer) == []
    requires FirstTask(rest, taskId).Some?
    ensures FirstTask([first] + rest, taskId) == Some(first.tasks[TaskIndex(first.tasks, taskId).value])
    ensures Scan([first] + rest, taskId, None) == Scan(rest, taskId, None)
  {
    var ls := [first] + rest;
    assert ls[0] == first && ls[1..] == rest;
    FirstTaskCons(ls, taskId);
    ScanCarriesUnsettled(rest, taskId, AfterLesson(first, taskId, None));
  }

  /**
   * The two servers agree on not-found, and when the first-found task has a
   * non-empty normalised answer they agree on the verdict and the hint, the
   * simple server reporting the normalised form of main.py's expected answer.
   */
  lemma SimpleMatchesMain(manifest: Option<Manifest>, fs: FileSystem, attempts: map<string, nat>,
                          taskId: string, answer: string)
    ensures var raw := Loaded(manifest, fs, KeepRaw).lessons;
            var (m, _) := MainApp.Submit(Loaded(manifest, fs, Markdown.Rendered).lessons, attempts, taskId, answer);
            Scan(raw, taskId, None).None? <==> m.Failure?
    ensures var raw := Loaded(manifest, fs, KeepRaw).lessons;
            var (m, _) := MainApp.Submit(Loaded(manifest, fs, Markdown.Rendered).lessons, attempts, taskId, answer);
            var s := Scan(raw, taskId, None);
            m.Success? && Normalize(m.value.expected) != [] ==>
              && s == Some(Expected(Normalize(m.value.expected), m.value.hint))
              && (m.value.correct <==> Normalize(answer) == s.value.answer)
  {
    var raw := Loaded(manifest, fs, KeepRaw).lessons;
    var ren := Loaded(manifest, fs, Markdown.Rendered).lessons;
    RenderedVersusRaw(manifest, fs, Markdown.Rendered);
    FirstTaskSeesOnlyTasks(raw, ren, taskId);
    ScanNone(raw, taskId, None);
    if FirstTask(raw, taskId).Some? && Normalize(FirstTask(raw, taskId).value.answer) != [] {
      ScanFindsFirstSettled(raw, taskId, None);
    }
  }
}
