# Online Python course: verified model of the course server core

This project models the logic of the two server shells of the online Python course.

- `main.py` is a FastAPI application. It loads the course once at start-up, renders each lesson's theory from a Markdown-like notation to HTML, and checks answers. It counts, per task, how often an answer was submitted.
- `run_simple.py` is a stand-alone HTTP server. It reloads the course on every request, keeps the theory as raw text, and checks answers without counting attempts.

The model covers three pieces of logic and proves their properties with Dafny.

1. **The markup renderer `markdown_to_html`.** It runs five ordered regular-expression substitutions:
   - fenced code block, with `&`, `<`, `>` escaped;
   - `**bold**`;
   - `*italic*`;
   - `` `inline code` ``;
   - newline to `<br>`.

   Each substitution is a left-to-right, leftmost, non-overlapping scan over `seq<char>`. The lazy group `(.*?)` followed by a delimiter is `LazyClose`: the first occurrence of the delimiter wins, and the group may not cross a newline unless the pattern is matched with DOTALL, which only the code-block pattern is.
2. **Course aggregation `load_course_data`.** The manifest is an optional value and the lesson files are a map from path to parsed content. Each loader is a method with nested loops. It is proved equal to a join of every (module, topic) entry, in module-then-topic order, with its lesson file. main.py passes the theory through the renderer; run_simple.py keeps it raw.
3. **Answer checking and lookups.**
   - main.py's `check_answer` is a method of the `CourseApp` class. It updates the `userAttempts` map in place and is specified by the value-level function `Submit`.
   - run_simple.py's search loop is specified by `Scan`, including its early-exit rule: the outer loop stops only at a match whose normalised answer is non-empty.
   - The lesson lookups by id and by index and the health counts are included.

Files:
- `wrappers.dfy`: `Option` and `Result`.
- `pystr.dfy`: `str.strip()` and `str.lower()` on ASCII.
- `markdown.dfy`: the renderer.
- `course.dfy`: data model, aggregation and first-match lookups.
- `main_app.dfy`: main.py.
- `simple_server.dfy`: run_simple.py.

Not-found outcomes, which the source raises as HTTP 404, are `Failure` values of `Course.ApiError`.

## Model

| member | source | states |
|---|---|---|
| PyStr.Strip | main.py:200 | the result is a slice `s[a..b]` where only whitespace lies outside the slice, and the result neither starts nor ends with whitespace |
| PyStr.Lower | main.py:200 | same length, each character lower-cased in place, no upper-case letter left |
| PyStr.NormalizeNormalForm | main.py:200 | `strip().lower()` always yields text with no surrounding whitespace and no upper-case letter |
| PyStr.NormalFormFixed | run_simple.py:137 | text in that normal form is its own `strip().lower()` |
| PyStr.NormalizeIdempotent | run_simple.py:137 | normalising twice is normalising once |
| PyStr.NormalizeExample | main.py:200 | `"  HeLLo "` normalises to `"hello"` |
| Markdown.LazyClose | main.py:76-79 | a lazy-group match from index k ends inside the text |
| Markdown.LazyCloseFirst | main.py:76-79 | a found close is the first occurrence of the delimiter; without DOTALL no newline lies before it; `None` means no delimiter is reachable |
| Markdown.LazyCloseAt | main.py:76-79 | conversely, the first reachable delimiter is the one found |
| Markdown.SpanPassMatch | main.py:77-79 | `d body d rest` becomes `open body close` followed by the pass over `rest`, when `body` has no newline and no earlier `d` |
| Markdown.SpanPassUnclosed | main.py:77-79 | an opening delimiter with no reachable close is copied and the scan moves on by one character |
| Markdown.SpanPassCopy | main.py:77-79 | a prefix without the delimiter's first character is copied unchanged |
| Markdown.SpanPassUnchanged | main.py:77-79 | text without the delimiter is left unchanged |
| Markdown.WordRunEnd | main.py:76 | the `\w*` run ends within the text |
| Markdown.WordRunEndMaximal | main.py:76 | the run is all word characters and is followed by a non-word character or the end (greedy) |
| Markdown.WordRunEndAt | main.py:76 | conversely, any such maximal run is the one found |
| Markdown.MatchFence | main.py:76 | a fence match has length at least 3 and within the text |
| Markdown.MatchFenceGroups | main.py:68-76 | a match splits the text as fence, language of word characters, newline, code without a fence inside it, fence, rest |
| Markdown.MatchFenceFound | main.py:76-85 | conversely, such a text matches with exactly those groups; the body ends at the first closing fence and may span lines |
| Markdown.ReplaceCharRemoves | main.py:71 | `str.replace` leaves no occurrence of the replaced character when the replacement lacks it, and text without it is unchanged |
| Markdown.EscapeHtmlIsPerCharacter | main.py:71 | escaping `&`, then `<`, then `>` equals escaping each character on its own: `&` to `&amp;`, `<` to `&lt;`, `>` to `&gt;` |
| Markdown.EscapedKeeps | main.py:71 | a character not involved in any entity is present after escaping exactly when it was present before |
| Markdown.EscapedHasNoAngleBrackets | main.py:71 | no `<` or `>` survives escaping |
| Markdown.EscapedIdentity | main.py:71 | code without `&`, `<`, `>` is left as it is |
| Markdown.EscapeRoundTrip | main.py:71 | decoding the three entities recovers the original code |
| Markdown.CodeBlockPassMatch | main.py:67-72 | a fenced block becomes the `code-block` HTML with the language and escaped code, then the pass continues after the closing fence |
| Markdown.CodeBlockPassCopy | main.py:76-85 | a prefix without a backtick is copied unchanged |
| Markdown.CodeBlockPassUnchanged | main.py:76-85 | text without a backtick is left unchanged |
| Markdown.LineBreakPass | main.py:80 | the result has no newline |
| Markdown.LineBreakBetween | main.py:80 | a newline between newline-free texts becomes `<br>` |
| Markdown.RenderedPasses | main.py:75-87 | rendering non-empty text is code block, bold, italic, inline code, line break, in that order |
| Markdown.RenderedHasNoNewline | main.py:80-89 | rendered text never contains a newline |
| Markdown.MarkdownToHtml | main.py:61-89 | the loop over the pattern list returns the rendering; it has no newline; empty text gives empty output |
| Markdown.PlainTextUnchanged | main.py:75-89 | text without `` ` ``, `*` or newline is returned unchanged |
| Markdown.RenderBold | main.py:77 | `**a**` renders exactly as `<strong>a</strong>`: the italic pass that runs after bold adds no `<em>` |
| Markdown.RenderItalic | main.py:78 | `*a*` renders as `<em>a</em>` |
| Markdown.BoldPassSkipsSingle | main.py:77 | the bold pass leaves single-star spans alone |
| Markdown.RenderBoldThenItalic | main.py:77-78 | `**a** *b*` renders both spans, bold first |
| Markdown.ItalicPassAcrossLine | main.py:78-87 | a star span containing a newline is not italicised |
| Markdown.RenderSpanStopsAtNewline | main.py:78-87 | `*a` newline `b*` renders as `*a<br>b*`: stars kept, newline broken |
| Markdown.RenderFencedBlock | main.py:67-85 | a fenced block renders as the code-block HTML with escaped code whose newlines become `<br>` |
| Markdown.RenderFormatsInsideCode | main.py:75-87 | later passes rewrite inside an emitted code block: a code line `*x*` becomes `<em>x</em>` followed by `<br>` |
| Course.ModuleLessonsIsJoin | main.py:108-124 | the lessons the nested loops append are the join of all (module, topic) entries, in order, with the files that exist |
| Course.JoinFields | main.py:116-123 | one lesson per present entry, in order, with id and topic id the topic's id, module id the module's id, title `module - topic`, rendered theory (default `""`) and tasks (default `[]`) of the file |
| Course.PresentMembers | main.py:111 | an entry is kept exactly when it is listed and its file exists |
| Course.EntriesMembers | main.py:108-109 | the entries are exactly the pairs of a listed module and one of its topics (missing `topics` is empty) |
| Course.LoadedLessons | main.py:101-124 | the loaded course has the manifest's modules and exactly one lesson per listed topic whose file exists, in module-then-topic order, with the fields composed as above |
| Course.MissingManifest | main.py:95-105 | without a manifest both lists are empty |
| Course.RenderedVersusRaw | run_simple.py:182-190 | the raw loader yields the same lessons as the rendering one, except that each theory is not rendered |
| Course.FirstIndex | main.py:161-165 | the index of the first element whose id is the one looked up, or none exactly when no element has it; the lesson lookup and the per-lesson task lookup (main.py:185-189) are both this search |
| Course.LessonIndexOfMember | main.py:169-174 | looking up the id of the lesson at index k finds k, or an earlier lesson with the same id, and finds k exactly when no earlier lesson shares the id |
| Course.FirstTaskPos | main.py:184-191 | the first match in lesson order, then task order: no earlier lesson has a task with the id |
| Course.FirstTask | main.py:184-194 | the found task has the id; not found exactly when no task of any lesson has it |
| Course.FirstTaskSeesOnlyTasks | main.py:184-191 | the search depends only on the lessons' task lists |
| Course.HealthCounts | main.py:231-237 | health reports `ok`, the number of manifest modules and the number of topics whose file exists |
| MainApp.LoadCourseData | main.py:93-126 | the loader method returns the course built with the renderer |
| MainApp.LocateTask | main.py:181-191 | the nested loop with break flags finds the first task with the id |
| MainApp.SubmitUnknownTask | main.py:193-194 | not-found exactly when no task has the id, and then every counter is unchanged |
| MainApp.SubmitCountsOneKey | main.py:197-206 | on a match only that task's counter changes, by one from a default of 0, and the reply's attempts is the new value |
| MainApp.SubmitCompares | main.py:200-205 | `correct` iff the stripped, lower-cased answer equals the stripped, lower-cased stored answer; expected is the stored answer verbatim; hint is the stored hint |
| MainApp.SubmitAllCounts | main.py:197 | after n submissions for a known task its counter has grown by n, and no other counter moved |
| MainApp.NthReplyCounts | main.py:197-206 | from no attempts, the reply to the n-th submission reports n |
| MainApp.CourseApp.constructor | main.py:130-133 | the app holds the course loaded with rendering and an empty attempt map |
| MainApp.CourseApp.GetLesson | main.py:159-165 | the first lesson with the id, or lesson-not-found exactly when there is none |
| MainApp.CourseApp.GetLessonTasks | main.py:211-217 | all tasks of the first lesson with the id, or not-found |
| MainApp.CourseApp.GetLessonTheory | main.py:221-227 | the theory of the first lesson with the id, or not-found |
| MainApp.CourseApp.GetLessonByIndex | main.py:169-174 | not-found exactly when `index < 0` or `index >= len(lessons)`; otherwise exactly `lessons[index]`, which a lookup by its id finds at that index or earlier |
| MainApp.CourseApp.HealthCheck | main.py:231-237 | status `ok`, the manifest's module count and the number of topics whose file exists |
| MainApp.CourseApp.CheckAnswer | main.py:178-207 | the reply and new counters are those of `Submit`; not-found leaves the map unchanged; on a match only that task's key changes, to its old count plus one, which is the reply's `attempts` |
| SimpleServer.LoadCourseData | run_simple.py:164-192 | the loader method returns the course with raw theory |
| SimpleServer.ScanStep | run_simple.py:134-141 | the outer loop handles one lesson, then stops if the normalised answer is non-empty, else continues |
| SimpleServer.FindExpected | run_simple.py:131-141 | the nested loop with its truthiness break computes `Scan` |
| SimpleServer.HandleCheckAnswer | run_simple.py:119-162 | not-found exactly when the scan finds nothing; expected is the scan's normalised answer, in normal form; `correct` iff the normalised request answer (missing key: `""`) equals it; attempts is always 1 |
| SimpleServer.ServeHealth | run_simple.py:101-106 | status `ok`, the manifest's module count and the number of topics whose file exists |
| SimpleServer.ScanNormalised | run_simple.py:137 | every answer the scan reports is trimmed and lower-case |
| SimpleServer.ScanNone | run_simple.py:143-144 | not-found exactly when no lesson holds a task with the id |
| SimpleServer.ScanFindsFirstSettled | run_simple.py:134-141 | when the first task with the id has a non-empty normalised answer, that task is reported |
| SimpleServer.ScanCarriesUnsettled | run_simple.py:140 | a match with an empty normalised answer is reported only if no later lesson holds the id; otherwise later lessons decide |
| SimpleServer.ScanOverride | run_simple.py:134-141 | when the first lesson's match normalises to `""` and a later lesson holds the id, the later task is reported although first-match finds the earlier one |
| SimpleServer.SimpleMatchesMain | run_simple.py:143-151 | the two servers agree on not-found; when the first task's normalised answer is non-empty they agree on the verdict and hint, and expected is the normalised form of main.py's |

## Left out

- HTTP routing and plumbing are not modelled: `do_GET`, `do_POST`, `serve_index`, `serve_css`, the FastAPI decorators, headers and status lines. Not-found is an error value.
- File I/O and JSON parsing are not modelled. The manifest is an `Option<Manifest>`, the files a map from path to parsed content.
- Malformed JSON, a missing required key (`id`, `title`, `path`, `answer`, `hint`, which raise `KeyError`) and non-string values are left out. So are the 500 responses these lead to in run_simple.py (lines 116-117, 161-162) and the start-up failure in main.py.
- A JSON `null` theory is left out. main.py would render it to `""` and run_simple.py would keep `None`.
- Python's `\w`, `str.strip()` and `str.lower()` are Unicode-aware. The model uses ASCII word characters, ASCII whitespace and ASCII case mapping.
- The listing endpoints `get_modules` and `get_lessons` are not modelled; they return the stored lists unchanged.
- The request-body model validation in main.py (lines 22-57) is not modelled. main.py's `check_answer` takes both fields as strings.
- `generate_modules_html`, `generate_lessons_js`, `open_browser`, threading, `main()`, `uvicorn.run` and test_structure.py are UI templating, process start-up or file-existence checks, and are not modelled.
- Concurrent requests updating `user_attempts` are not modelled; each `CheckAnswer` is one atomic step.
- run_simple.py re-reads the files on every request. The model passes the same manifest and files to each handler, so files changing between requests are not captured.
