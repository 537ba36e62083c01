# Admin controllers of the course-app front-end

The repository is a React administration front-end for three entities:
courses, instructors, and school-year periods. A period assigns one course
and one instructor to one year. Each admin screen holds a small controller:

- a cache of the rows last fetched from the server (`state.rows`), patched in
  place after every create, update and delete;
- an edit session driven by the flags `onEdit` and `isUpdating` and by a
  reactive form that is reset or pre-filled from a row;
- a validator made of required-field checks, which gates the save.

The period screen adds the one business rule. Before a create or an update
is sent, the form's (course, instructor, year) triple is checked against the
cached rows, and a match is rejected with an informational message.

This project models those three controllers in Dafny. There is one class per
component. Its fields are the component's state. Its methods are the
component's handlers, and each method's postcondition gives the new state.
Every remote call is a parameter: the reply the server gives (a body or a
failure), or just success or failure for calls that return no body.

Two ghost fields record what the controller did:

- `sent` is the calls made to the service module, with their bodies;
- `notices` is the kinds of snackbar message shown (success, info, error).

The cache operations shared by the three screens live in `RowCache`, over
any row type. They are the delete filter (`Filter`, `Without`) and the
`find` of the first row with an id, followed by a field rewrite
(`FirstIndex`, `UpdateFirst`). Lemmas there state what the controllers rely
on:

- a delete removes every row with the id and keeps the others in order and
  with their multiplicity;
- deleting an absent id changes nothing, and deleting twice equals deleting
  once;
- appending a record with a fresh id makes that id appear exactly once, and
  deleting it again gives the old cache back;
- an update changes one row and keeps every id in place.

Files: `common.dfy` (option, reply and notice types, the required
validator), `row_cache.dfy`, `course_admin.dfy`, `instructor_admin.dfy`,
`period_admin.dfy`.

Conventions taken from the code:

- A form control holding null or undefined is `None`.
- `form.reset()` sets every control to null, so the reset form is all `None`.
- The course and instructor forms start with `""` in their text controls. The
  period form starts with every control undefined.
- `Validators.required` fails on null, on undefined and on a value of length
  0. A numeric select value therefore passes whenever it is present.
- `find` returns the first row with a matching id, so an update changes only
  that row. When no row matches, the field write throws inside the `then`.
  The `catch` then shows an error after the success message, and the cache
  stays as it was.

Where the code departs from the evident intent, the model follows the
code as written:

- "Create" does not clear the form. `continueTo…` only sets `onEdit`.
- The period update check does not exclude the row being edited. Saving an
  edit that keeps the triple is always rejected
  (`UpdateCheckIncludesEditedRow`).
- After a period update, the cached `courseId` and `instructorId` are not
  refreshed. Only the names and the year are (`Refreshed`,
  `RefreshedCourseIsStale`).
- Because of that, the cache can stop being free of duplicate triples after
  a checked update, and the check then misses the triple the server really
  stores (`CheckedUpdateCanBreakUnique`). Uniqueness is proved only for
  create (`GuardedCreateKeepsUnique`).
- Course and instructor leave edit mode even when the request fails. The
  `await` in `saveCourse`/`saveInstructor` binds to `this.state.isUpdating`
  alone, so the request itself is never awaited.
- A period session is finalized only after a successful re-fetch. A
  duplicate, a failed call or a failed re-fetch leaves it open.

## Model

| member | source | states |
|---|---|---|
| RowCache.Filter | src/components/period-admin/PeriodAdminComponent.js:196-197 | `filter` keeps exactly the rows satisfying the predicate (membership in both directions), never more rows than given |
| RowCache.Without | src/components/period-admin/PeriodAdminComponent.js:272-273 | the delete filter `r.id !== id`: a row survives iff it was cached and does not carry the id |
| RowCache.FirstIndex | src/components/course-admin/CourseAdminComponent.js:165 | `find` by id: the index of the first row carrying the id, no earlier row carries it, and none means no row carries it |
| RowCache.FilterConcat | src/components/period-admin/PeriodAdminComponent.js:273 | filtering distributes over concatenation, so the kept rows keep their relative order |
| RowCache.FilterKeepsAll | src/components/period-admin/PeriodAdminComponent.js:273 | when every row is kept, the filter returns the cache unchanged |
| RowCache.FilterKeepsNone | src/components/period-admin/PeriodAdminComponent.js:196-197 | when no row satisfies the predicate, the filter is empty |
| RowCache.FilterMultiset | src/components/course-admin/CourseAdminComponent.js:182 | every kept row keeps its multiplicity, every dropped row has none |
| RowCache.WithoutAbsent | src/components/course-admin/CourseAdminComponent.js:181-184 | deleting an id no row carries leaves the cache unchanged |
| RowCache.WithoutIdempotent | src/components/instructor-admin/InstructorAdminComponent.js:153-156 | deleting the same id twice equals deleting it once |
| RowCache.WithoutConcat | src/components/instructor-admin/InstructorAdminComponent.js:154 | delete keeps the order of the remaining rows, piece by piece |
| RowCache.WithoutMultiset | src/components/period-admin/PeriodAdminComponent.js:272-275 | delete keeps every other row with its multiplicity and drops all rows with the id |
| RowCache.WithoutLeavesNone | src/components/period-admin/PeriodAdminComponent.js:273 | after a delete no row carries the deleted id |
| RowCache.AppendFresh | src/components/course-admin/CourseAdminComponent.js:149-150 | appending a record with a fresh id makes that id appear exactly once, and deleting that id restores the old cache |
| RowCache.UpdateFirstSpec | src/components/course-admin/CourseAdminComponent.js:165-169 | an update rewrites only the first row with the id, keeps the length and every other row, and fails iff no row carries the id |
| RowCache.UpdateFirstKeepsIds | src/components/instructor-admin/InstructorAdminComponent.js:137-141 | an id-preserving update keeps every row's id in place and the first row with the id stays the same |
| CourseAdmin.FormValid | src/components/course-admin/CourseAdminComponent.js:26-29 | the form is valid iff `name` is present and non-empty; `description` plays no part |
| CourseAdmin.Patched | src/components/course-admin/CourseAdminComponent.js:164-169 | a successful update gives the first row with the id the form's name and description, keeps its id, the length and all other rows; no such row (the thrown write) gives `None` |
| CourseAdmin.PatchedKeepsIds | src/components/course-admin/CourseAdminComponent.js:164-169 | an update keeps every row's id, and repeating it changes nothing more |
| CourseAdmin.CourseAdminComponent.constructor | src/components/course-admin/CourseAdminComponent.js:50-97 | empty cache, both flags false, form of two empty strings, page 0 of 10 rows |
| CourseAdmin.CourseAdminComponent.FindAll | src/components/course-admin/CourseAdminComponent.js:136-143 | the fetched list replaces the cache; a failure leaves it and shows an error |
| CourseAdmin.CourseAdminComponent.ChangePage | src/components/course-admin/CourseAdminComponent.js:125 | stores the new page |
| CourseAdmin.CourseAdminComponent.ChangeRowsPerPage | src/components/course-admin/CourseAdminComponent.js:127-130 | stores the new page size and resets the page to 0 |
| CourseAdmin.CourseAdminComponent.ContinueToCreate | src/components/course-admin/CourseAdminComponent.js:132-134 | sets `onEdit` and touches nothing else |
| CourseAdmin.CourseAdminComponent.Create | src/components/course-admin/CourseAdminComponent.js:145-158 | sends the form; on success appends exactly the returned course at the end; on failure the cache is unchanged and an error is shown |
| CourseAdmin.CourseAdminComponent.Update | src/components/course-admin/CourseAdminComponent.js:160-175 | sends the form; on success the cache becomes `Patched`; an absent id or a failed call leaves the cache and shows an error |
| CourseAdmin.CourseAdminComponent.Delete | src/components/course-admin/CourseAdminComponent.js:177-190 | sends the id; on success the cache becomes `Without` that id; on failure unchanged |
| CourseAdmin.CourseAdminComponent.Edit | src/components/course-admin/CourseAdminComponent.js:193-201 | sets both flags and loads name, description and id of the row into the form; the cache is untouched |
| CourseAdmin.CourseAdminComponent.FinalizeEdit | src/components/course-admin/CourseAdminComponent.js:216-219 | clears both flags and resets the form |
| CourseAdmin.CourseAdminComponent.Cancel | src/components/course-admin/CourseAdminComponent.js:203-205 | finalizes the session without touching the cache |
| CourseAdmin.CourseAdminComponent.Save | src/components/course-admin/CourseAdminComponent.js:207-214 | an invalid form changes nothing but shows an error; a valid one is sent as update or create by `isUpdating` and the session ends finalized whatever the reply |
| InstructorAdmin.FormValid | src/components/instructor-admin/InstructorAdminComponent.js:30-33 | the form is valid iff `name` and `identification` are both present and non-empty |
| InstructorAdmin.Patched | src/components/instructor-admin/InstructorAdminComponent.js:136-141 | a successful update gives the first row with the id the form's identification and name, keeps its id, the length and all other rows; no such row gives `None` |
| InstructorAdmin.PatchedKeepsIds | src/components/instructor-admin/InstructorAdminComponent.js:136-141 | an update keeps every row's id, and repeating it changes nothing more |
| InstructorAdmin.InstructorAdminComponent.constructor | src/components/instructor-admin/InstructorAdminComponent.js:54-76 | empty cache, both flags false, form of two empty strings |
| InstructorAdmin.InstructorAdminComponent.FindAll | src/components/instructor-admin/InstructorAdminComponent.js:108-115 | the fetched list replaces the cache; a failure leaves it and shows an error |
| InstructorAdmin.InstructorAdminComponent.ContinueToCreate | src/components/instructor-admin/InstructorAdminComponent.js:104-106 | sets `onEdit` and touches nothing else |
| InstructorAdmin.InstructorAdminComponent.Create | src/components/instructor-admin/InstructorAdminComponent.js:117-130 | sends the form; on success appends exactly the returned instructor at the end; on failure unchanged with an error |
| InstructorAdmin.InstructorAdminComponent.Update | src/components/instructor-admin/InstructorAdminComponent.js:132-147 | sends the form; on success the cache becomes `Patched`; an absent id or a failed call leaves the cache and shows an error |
| InstructorAdmin.InstructorAdminComponent.Delete | src/components/instructor-admin/InstructorAdminComponent.js:149-162 | sends the id; on success the cache becomes `Without` that id; on failure unchanged |
| InstructorAdmin.InstructorAdminComponent.Edit | src/components/instructor-admin/InstructorAdminComponent.js:165-173 | sets both flags and loads name, identification and id of the row into the form |
| InstructorAdmin.InstructorAdminComponent.FinalizeEdit | src/components/instructor-admin/InstructorAdminComponent.js:188-191 | clears both flags and resets the form |
| InstructorAdmin.InstructorAdminComponent.Cancel | src/components/instructor-admin/InstructorAdminComponent.js:175-177 | finalizes the session without touching the cache |
| InstructorAdmin.InstructorAdminComponent.Save | src/components/instructor-admin/InstructorAdminComponent.js:179-186 | an invalid form changes nothing but shows an error; a valid one is sent as update or create by `isUpdating` and the session ends finalized whatever the reply |
| PeriodAdmin.YearOptions | src/components/period-admin/PeriodAdminComponent.js:89-90 | ten options, the first 2021, each one more than the one before |
| PeriodAdmin.YearOptionsRange | src/components/period-admin/PeriodAdminComponent.js:89-90 | a year is offered iff it lies in 2021..2030 |
| PeriodAdmin.FormValid | src/components/period-admin/PeriodAdminComponent.js:34-38 | the form is valid iff course, instructor and year are all set |
| PeriodAdmin.Coincidences | src/components/period-admin/PeriodAdminComponent.js:196-197 | the coincidences are exactly the cached rows with the form's course, instructor and year |
| PeriodAdmin.IsDuplicate | src/components/period-admin/PeriodAdminComponent.js:196-199 | a candidate is a duplicate iff some cached row has its course, instructor and year |
| PeriodAdmin.GuardedCreateKeepsUnique | src/components/period-admin/PeriodAdminComponent.js:196-214 | a create that passed the check and whose re-fetched record has the form's triple keeps the cache free of duplicate triples |
| PeriodAdmin.UpdateCheckIncludesEditedRow | src/components/period-admin/PeriodAdminComponent.js:229-235 | an update whose triple equals any cached row's, the edited row itself included, is a duplicate |
| PeriodAdmin.Refreshed | src/components/period-admin/PeriodAdminComponent.js:247-254 | the first row with the id takes the re-fetched names and year and keeps its id, `courseId` and `instructorId`; length and other rows unchanged; no such row gives `None` |
| PeriodAdmin.RefreshedCourseIsStale | src/components/period-admin/PeriodAdminComponent.js:237-254 | after an update that moved the assignment to another course, the cached row's triple differs from the server's record |
| PeriodAdmin.CheckedUpdateCanBreakUnique | src/components/period-admin/PeriodAdminComponent.js:229-254 | for a cache of unique triples, an update the check lets through yields a cache with a repeated triple, and the server's real triple then passes the check |
| PeriodAdmin.PeriodAdminComponent.constructor | src/components/period-admin/PeriodAdminComponent.js:105-132 | empty cache, both flags false, every form control empty |
| PeriodAdmin.PeriodAdminComponent.FindAll | src/components/period-admin/PeriodAdminComponent.js:168-175 | the fetched list replaces the cache; a failure leaves it and shows an error |
| PeriodAdmin.PeriodAdminComponent.ContinueToCreate | src/components/period-admin/PeriodAdminComponent.js:164-166 | sets `onEdit` and touches nothing else |
| PeriodAdmin.PeriodAdminComponent.Create | src/components/period-admin/PeriodAdminComponent.js:195-226 | a duplicate sends nothing, keeps cache and session and shows info; otherwise creates, re-fetches by the new id, appends exactly the re-fetched record and finalizes; a failed call keeps cache and session |
| PeriodAdmin.PeriodAdminComponent.Update | src/components/period-admin/PeriodAdminComponent.js:228-266 | a duplicate of any cached row sends nothing and shows info; otherwise updates, re-fetches by id, the cache becomes `Refreshed` and the session is finalized; a failed call or absent id keeps cache and session |
| PeriodAdmin.PeriodAdminComponent.Delete | src/components/period-admin/PeriodAdminComponent.js:268-281 | sends the id; on success the cache becomes `Without` that id; on failure unchanged |
| PeriodAdmin.PeriodAdminComponent.Edit | src/components/period-admin/PeriodAdminComponent.js:283-292 | sets both flags and loads course, instructor, year and id of the row into the form |
| PeriodAdmin.PeriodAdminComponent.FinalizeEdit | src/components/period-admin/PeriodAdminComponent.js:306-309 | clears both flags and resets the form |
| PeriodAdmin.PeriodAdminComponent.Cancel | src/components/period-admin/PeriodAdminComponent.js:294-296 | finalizes the session without touching the cache |
| PeriodAdmin.PeriodAdminComponent.Save | src/components/period-admin/PeriodAdminComponent.js:298-304 | an invalid form changes nothing but shows an error; a valid one has the effect of update when `isUpdating`, else of create |

## Left out

- Rendering: `render`, `InputSelect`/`InputText`, the table cell `opts`, Material-UI styling and `makeStyles`. These are UI only.
- The snackbar message texts and their `setTimeout(…, 4000)` clearing. Only the kind of each message is kept, in the ghost log `notices`.
- The service modules (`CourseService`, `InstructorService`, `SchoolYearService`). They are thin axios wrappers. Their results are method parameters, and the calls made are kept in the ghost log `sent`.
- `findAllCourses`/`findAllInstructors` of the period screen. They fill the option lists of the course and instructor selects, and show an error when they fail; that error is not recorded in the ghost log `notices`.
- The `page` and `rowsPerPage` state of the period and instructor screens. No handler of theirs reads or writes it.
- src/App.js. It does routing and lazy loading through react-router, which is not part of this model.
- Promise asynchrony. Each handler's path through its promise chain is one atomic step, so double-submit races are not modelled. In course and instructor saves, the finalize that really runs before the reply arrives is modelled after it; the end state is the same.
- The aliasing between `state.rows` and its shallow copy is not modelled. It lets the in-place field writes reach the state before `setState`.
- `console.error` logging.
- `react-reactive-form` internals beyond "required means present and non-empty".
- Identifiers are unbounded integers, and JavaScript's `===` on them is plain equality.
