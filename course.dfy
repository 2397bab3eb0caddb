/**
 * The course data both servers build: the module manifest, the lesson files it
 * points to, and the lessons obtained by joining each listed topic with its file.
 *
 * The filesystem is a map from path to the parsed content of a lesson file; a
 * path that is not a key does not exist. Optional JSON keys read with
 * `dict.get(key, default)` are `Option` fields.
 */
module Course {
  import opened Wrappers

  /** One exercise of a lesson file. */
  datatype Task = Task(id: string, question: string, answer: string, hint: string)

  /** A topic entry of the manifest: its id, its title and the path of its lesson file. */
  datatype Topic = Topic(id: string, title: string, path: string)

  /** A module of the manifest; `topics` may be absent. */
  datatype Module = Module(id: string, title: string, topics: Option<seq<Topic>>)

  /** The manifest file; `modules` may be absent. */
  datatype Manifest = Manifest(modules: Option<seq<Module>>)

  /** A parsed lesson file; `theory` and `tasks` may be absent. */
  datatype LessonFile = LessonFile(theory: Option<string>, tasks: Option<seq<Task>>)

  type FileSystem = map<string, LessonFile>

  /** One loaded lesson. */
  datatype Lesson = Lesson(id: string, title: string, moduleId: string, topicId: string,
                           theory: string, tasks: seq<Task>)

  /** The `modules` and `lessons` of the loaded course. */
  datatype CourseData = CourseData(modules: seq<Module>, lessons: seq<Lesson>)

  /** The module list: empty when the manifest is missing or has no `modules` key. */
  function ManifestModules(manifest: Option<Manifest>): seq<Module> {
    match manifest
    case None => []
    case Some(m) => m.modules.GetOr([])
  }

  /** A module's topics, empty when the key is absent. */
  function Topics(m: Module): seq<Topic> {
    m.topics.GetOr([])
  }

  /** The lesson built from a topic, its module and its file, with the theory passed through `render`. */
  function MakeLesson(m: Module, t: Topic, f: LessonFile, render: string -> string): Lesson {
    Lesson(t.id, m.title + " - " + t.title, m.id, t.id, render(f.theory.GetOr("")), f.tasks.GetOr([]))
  }

  /** The theory kept as the raw file text. */
  function KeepRaw(theory: string): string {
    theory
  }

  // ---------------------------------------------------------------------------
  // The nested loops, as the lessons appended after each step

  /** Lessons appended by the inner loop after the topics `ts` of module `m`. */
  function TopicLessons(m: Module, ts: seq<Topic>, fs: FileSystem, render: string -> string): seq<Lesson> {
    if ts == [] then []
    else
      var t := ts[|ts| - 1];
      TopicLessons(m, ts[..|ts| - 1], fs, render)
      + (if t.path in fs then [MakeLesson(m, t, fs[t.path], render)] else [])
  }

  /** Lessons appended by the outer loop after the modules `ms`. */
  function ModuleLessons(ms: seq<Module>, fs: FileSystem, render: string -> string): seq<Lesson> {
    if ms == [] then []
    else
      var m := ms[|ms| - 1];
      ModuleLessons(ms[..|ms| - 1], fs, render) + TopicLessons(m, Topics(m), fs, render)
  }

  /** The course `load_course_data` returns, with theory rendered by `render`. */
  function Loaded(manifest: Option<Manifest>, fs: FileSystem, render: string -> string): CourseData {
    var ms := ManifestModules(manifest);
    CourseData(ms, ModuleLessons(ms, fs, render))
  }

  // ---------------------------------------------------------------------------
  // Reference definition: the topics in module-then-topic order, joined with their files

  /** A topic together with the module that lists it. */
  datatype Entry = Entry(parent: Module, topic: Topic)

  function TopicEntries(m: Module, ts: seq<Topic>): seq<Entry> {
    if ts == [] then [] else [Entry(m, ts[0])] + TopicEntries(m, ts[1..])
  }

  /** Every topic of every module, in module order and, within a module, in topic order. */
  function Entries(ms: seq<Module>): seq<Entry> {
    if ms == [] then [] else TopicEntries(ms[0], Topics(ms[0])) + Entries(ms[1..])
  }

  /** The entries whose lesson file exists, in the same order. */
  function Present(es: seq<Entry>, fs: FileSystem): seq<Entry> {
    if es == [] then []
    else (if es[0].topic.path in fs then [es[0]] else []) + Present(es[1..], fs)
  }

  /** One lesson per present entry. */
  function Join(es: seq<Entry>, fs: FileSystem, render: string -> string): seq<Lesson> {
    if es == [] then []
    else
      var e := es[0];
      (if e.topic.path in fs then [MakeLesson(e.parent, e.topic, fs[e.topic.path], render)] else [])
      + Join(es[1..], fs, render)
  }

  lemma {:induction false} JoinAppend(a: seq<Entry>, b: seq<Entry>, fs: FileSystem, render: string -> string)
    ensures Join(a + b, fs, render) == Join(a, fs, render) + Join(b, fs, render)
  {
    if a == [] {
      assert a + b == b;
    } else {
      assert (a + b)[0] == a[0] && (a + b)[1..] == a[1..] + b;
      JoinAppend(a[1..], b, fs, render);
    }
  }

  lemma {:induction false} TopicEntriesSnoc(m: Module, ts: seq<Topic>)
    requires ts != []
    ensures TopicEntries(m, ts) == TopicEntries(m, ts[..|ts| - 1]) + [Entry(m, ts[|ts| - 1])]
  {
    if |ts| > 1 {
      assert ts[1..][..|ts| - 2] == ts[..|ts| - 1][1..];
      TopicEntriesSnoc(m, ts[1..]);
    }
  }

  lemma {:induction false} EntriesSnoc(ms: seq<Module>)
    requires ms != []
    ensures Entries(ms) == Entries(ms[..|ms| - 1]) + TopicEntries(ms[|ms| - 1], Topics(ms[|ms| - 1]))
  {
    if |ms| > 1 {
      assert ms[1..][..|ms| - 2] == ms[..|ms| - 1][1..];
      EntriesSnoc(ms[1..]);
    } else {
      assert ms[..0] == [];
    }
  }

  /** The inner loop appends the join of the module's topics. */
  lemma {:induction false} TopicLessonsIsJoin(m: Module, ts: seq<Topic>, fs: FileSystem, render: string -> string)
    ensures TopicLessons(m, ts, fs, render) == Join(TopicEntries(m, ts), fs, render)
  {
    if ts != [] {
      var t := ts[|ts| - 1];
      TopicLessonsIsJoin(m, ts[..|ts| - 1], fs, render);
      TopicEntriesSnoc(m, ts);
      JoinAppend(TopicEntries(m, ts[..|ts| - 1]), [Entry(m, t)], fs, render);
      assert Join([Entry(m, t)], fs, render)
             == (if t.path in fs then [MakeLesson(m, t, fs[t.path], render)] else []) + [];
    }
  }

  /** The loops build exactly the join of all entries, in module-then-topic order. */
  lemma {:induction false} ModuleLessonsIsJoin(ms: seq<Module>, fs: FileSystem, render: string -> string)
    ensures ModuleLessons(ms, fs, render) == Join(Entries(ms), fs, render)
  {
    if ms != [] {
      var m := ms[|ms| - 1];
      ModuleLessonsIsJoin(ms[..|ms| - 1], fs, render);
      EntriesSnoc(ms);
      TopicLessonsIsJoin(m, Topics(m), fs, render);
      JoinAppend(Entries(ms[..|ms| - 1]), TopicEntries(m, Topics(m)), fs, render);
    }
  }

  /**
   * One lesson per entry whose file exists, in order, with its fields composed
   * from the topic, its module and its file.
   */
  lemma {:induction false} JoinFields(es: seq<Entry>, fs: FileSystem, render: string -> string)
    ensures var ls := Join(es, fs, render);
            var ps := Present(es, fs);
            && |ls| == |ps|
            && forall i :: 0 <= i < |ps| ==>
                 && ps[i].topic.path in fs
                 && ls[i].id == ps[i].topic.id
                 && ls[i].topicId == ps[i].topic.id
                 && ls[i].moduleId == ps[i].parent.id
                 && ls[i].title == ps[i].parent.title + " - " + ps[i].topic.title
                 && ls[i].theory == render(fs[ps[i].topic.path].theory.GetOr(""))
                 && ls[i].tasks == fs[ps[i].topic.path].tasks.GetOr([])
  {
    if es != [] {
      JoinFields(es[1..], fs, render);
    }
  }

  /** An entry is kept exactly when it is listed and its file exists. */
  lemma {:induction false} PresentMembers(es: seq<Entry>, fs: FileSystem, e: Entry)
    ensures e in Present(es, fs) <==> e in es && e.topic.path in fs
  {
    if es != [] {
      PresentMembers(es[1..], fs, e);
      assert es == [es[0]] + es[1..];
    }
  }

  lemma {:induction false} TopicEntriesMembers(m: Module, ts: seq<Topic>, e: Entry)
    ensures e in TopicEntries(m, ts) <==> e.parent == m && e.topic in ts
  {
    if ts != [] {
      TopicEntriesMembers(m, ts[1..], e);
      assert ts == [ts[0]] + ts[1..];
    }
  }

  /** The entries are exactly the pairs of a listed module and one of its topics. */
  lemma {:induction false} EntriesMembers(ms: seq<Module>, e: Entry)
    ensures e in Entries(ms) <==> e.parent in ms && e.topic in Topics(e.parent)
  {
    if ms != [] {
      EntriesMembers(ms[1..], e);
      TopicEntriesMembers(ms[0], Topics(ms[0]), e);
      assert ms == [ms[0]] + ms[1..];
    }
  }

  /**
   * `load_course_data`: one lesson per listed topic whose file exists, in
   * module-then-topic order, each composed from its topic, module and file.
   */
  lemma LoadedLessons(manifest: Option<Manifest>, fs: FileSystem, render: string -> string)
    ensures var c := Loaded(manifest, fs, render);
            var ps := Present(Entries(c.modules), fs);
            && c.modules == ManifestModules(manifest)
            && |c.lessons| == |ps|
            && (forall e :: e in ps <==> e.parent in c.modules && e.topic in Topics(e.parent) && e.topic.path in fs)
            && forall i :: 0 <= i < |ps| ==>
                 && c.lessons[i].id == ps[i].topic.id
                 && c.lessons[i].topicId == ps[i].topic.id
                 && c.lessons[i].moduleId == ps[i].parent.id
                 && c.lessons[i].title == ps[i].parent.title + " - " + ps[i].topic.title
                 && c.lessons[i].theory == render(fs[ps[i].topic.path].theory.GetOr(""))
                 && c.lessons[i].tasks == fs[ps[i].topic.path].tasks.GetOr([])
  {
    var ms := ManifestModules(manifest);
    ModuleLessonsIsJoin(ms, fs, render);
    JoinFields(Entries(ms), fs, render);
    forall e ensures e in Present(Entries(ms), fs) <==> e.parent in ms && e.topic in Topics(e.parent) && e.topic.path in fs {
      PresentMembers(Entries(ms), fs, e);
      EntriesMembers(ms, e);
    }
  }

  /** Without a manifest there are no modules and no lessons. */
  lemma MissingManifest(fs: FileSystem, render: string -> string)
    ensures Loaded(None, fs, render) == CourseData([], [])
  {
  }

  /**
   * Rendering touches only the theory: the rendered course is the raw course
   * with each lesson's theory passed through `render`.
   */
  lemma {:induction false} JoinRendersTheoryOnly(es: seq<Entry>, fs: FileSystem, render: string -> string)
    ensures var raw := Join(es, fs, KeepRaw);
            var ren := Join(es, fs, render);
            && |ren| == |raw|
            && forall i :: 0 <= i < |raw| ==> ren[i] == raw[i].(theory := render(raw[i].theory))
  {
    if es != [] {
      JoinRendersTheoryOnly(es[1..], fs, render);
    }
  }

  /** The two loaders differ only in the theory text of each lesson. */
  lemma RenderedVersusRaw(manifest: Option<Manifest>, fs: FileSystem, render: string -> string)
    ensures var raw := Loaded(manifest, fs, KeepRaw);
            var ren := Loaded(manifest, fs, render);
            && ren.modules == raw.modules
            && |ren.lessons| == |raw.lessons|
            && forall i :: 0 <= i < |raw.lessons| ==>
                 ren.lessons[i] == raw.lessons[i].(theory := render(raw.lessons[i].theory))
  {
    var ms := ManifestModules(manifest);
    ModuleLessonsIsJoin(ms, fs, render);
    ModuleLessonsIsJoin(ms, fs, KeepRaw);
    JoinRendersTheoryOnly(Entries(ms), fs, render);
  }

  // ---------------------------------------------------------------------------
  // Lookups by id

  /**
   * Position of the first element of `xs` whose key is `id`: the scan with an
   * early `return` (or `break`) that both lookups by id perform.
   */
  function FirstIndex<T>(xs: seq<T>, key: T -> string, id: string): (r: Option<nat>)
    ensures r.Some? ==> r.value < |xs| && key(xs[r.value]) == id
    ensures r.Some? ==> forall k :: 0 <= k < r.value ==> key(xs[k]) != id
    ensures r.None? ==> forall k :: 0 <= k < |xs| ==> key(xs[k]) != id
  {
    if xs == [] then None
    else if key(xs[0]) == id then Some(0)
    else match FirstIndex(xs[1..], key, id)
      case Some(k) => Some(k + 1)
      case None => None
  }

  function LessonId(l: Lesson): string { l.id }

  function TaskId(t: Task): string { t.id }

  /** Position of the first lesson with the given id. */
  function LessonIndex(lessons: seq<Lesson>, id: string): Option<nat> {
    FirstIndex(lessons, LessonId, id)
  }

  /** Position of the first task with the given id within one lesson. */
  function TaskIndex(tasks: seq<Task>, id: string): Option<nat> {
    FirstIndex(tasks, TaskId, id)
  }

  /** A task position: the index of the lesson and the index of a task within that lesson. */
  datatype TaskPos = TaskPos(lesson: nat, task: nat)

  /**
   * The first task with the given id, scanning lessons in order and tasks in
   * order within each lesson: no earlier lesson holds a task with that id.
   */
  function FirstTaskPos(lessons: seq<Lesson>, id: string): (r: Option<TaskPos>)
    ensures r.Some? ==> r.value.lesson < |lessons|
                        && TaskIndex(lessons[r.value.lesson].tasks, id) == Some(r.value.task)
    ensures r.Some? ==> forall k :: 0 <= k < r.value.lesson ==> TaskIndex(lessons[k].tasks, id).None?
    ensures r.None? ==> forall k :: 0 <= k < |lessons| ==> TaskIndex(lessons[k].tasks, id).None?
  {
    if lessons == [] then None
    else match TaskIndex(lessons[0].tasks, id)
      case Some(j) => Some(TaskPos(0, j))
      case None =>
        match FirstTaskPos(lessons[1..], id)
        case Some(p) => Some(TaskPos(p.lesson + 1, p.task))
        case None => None
  }

  /** Result of the first-match scan. */
  function FirstTask(lessons: seq<Lesson>, id: string): (r: Option<Task>)
    ensures r.Some? ==> r.value.id == id
    ensures r.None? <==> forall k, j :: 0 <= k < |lessons| && 0 <= j < |lessons[k].tasks| ==> lessons[k].tasks[j].id != id
  {
    match FirstTaskPos(lessons, id)
    case Some(p) => Some(lessons[p.lesson].tasks[p.task])
    case None => None
  }

  /** The first-match scan either stops in the first lesson or continues with the rest. */
  lemma FirstTaskCons(lessons: seq<Lesson>, id: string)
    requires lessons != []
    ensures FirstTask(lessons, id) == match TaskIndex(lessons[0].tasks, id)
                                      case Some(j) => Some(lessons[0].tasks[j])
                                      case None => FirstTask(lessons[1..], id)
  {
  }

  /** The scan looks only at task lists: lessons with the same tasks give the same answer. */
  lemma {:induction false} FirstTaskSeesOnlyTasks(a: seq<Lesson>, b: seq<Lesson>, id: string)
    requires |a| == |b|
    requires forall k :: 0 <= k < |a| ==> a[k].tasks == b[k].tasks
    ensures FirstTask(a, id) == FirstTask(b, id)
  {
    if a != [] {
      FirstTaskSeesOnlyTasks(a[1..], b[1..], id);
    }
  }

  /** The first match is wherever the characterisation of `TaskIndex` says it is. */
  lemma TaskIndexAt(tasks: seq<Task>, id: string, j: nat)
    requires j <= |tasks|
    requires forall k :: 0 <= k < j ==> tasks[k].id != id
    ensures j < |tasks| && tasks[j].id == id ==> TaskIndex(tasks, id) == Some(j)
    ensures j == |tasks| ==> TaskIndex(tasks, id).None?
  {
  }

  /** The first-match scan stops at the first lesson holding a task with the id. */
  lemma FirstTaskPosAt(lessons: seq<Lesson>, id: string, i: nat, j: nat)
    requires i < |lessons| && TaskIndex(lessons[i].tasks, id) == Some(j)
    requires forall k :: 0 <= k < i ==> TaskIndex(lessons[k].tasks, id).None?
    ensures FirstTaskPos(lessons, id) == Some(TaskPos(i, j))
    ensures FirstTask(lessons, id) == Some(lessons[i].tasks[j])
  {
  }

  /** Looking up the id of the lesson at index `k` finds index `k`, or an earlier lesson with the same id. */
  lemma {:induction false} LessonIndexOfMember(lessons: seq<Lesson>, k: nat)
    requires k < |lessons|
    ensures var r := LessonIndex(lessons, lessons[k].id);
            r.Some? && r.value <= k
            && (r.value == k <==> forall m :: 0 <= m < k ==> lessons[m].id != lessons[k].id)
  {
  }

  // ---------------------------------------------------------------------------
  // Responses shared by both servers

  /** The not-found outcomes, each a 404 in the source. */
  datatype ApiError = LessonNotFound | BadLessonIndex | TaskNotFound

  /** The body of the health endpoint. */
  datatype HealthReport = HealthReport(status: string, modulesCount: nat, lessonsCount: nat)

  function HealthOf(c: CourseData): HealthReport {
    HealthReport("ok", |c.modules|, |c.lessons|)
  }

  /** Health counts the manifest's modules and the topics whose lesson file exists. */
  lemma HealthCounts(manifest: Option<Manifest>, fs: FileSystem, render: string -> string)
    ensures var h := HealthOf(Loaded(manifest, fs, render));
            && h.status == "ok"
            && h.modulesCount == |ManifestModules(manifest)|
            && h.lessonsCount == |Present(Entries(ManifestModules(manifest)), fs)|
  {
    LoadedLessons(manifest, fs, render);
  }
}
