/** The controller inside `PeriodAdminComponent`: the cached school-year
    assignments, the edit session (`onEdit`, `isUpdating`, the form) and the
    one business rule, the client-side check that no two assignments share
    course, instructor and year. The remote calls of `SchoolYearService` are
    parameters: a reply for each call. */
module PeriodAdmin {
  import opened Common
  import RowCache

  /** An assignment as the server returns it, with the course and instructor
      names it denormalises for display. */
  datatype SchoolYear = SchoolYear(
    id: int, courseId: int, instructorId: int, year: int,
    courseName: string, instructorName: string)

  /** The values of the reactive form; `id` is the control `editSchoolYear` adds. */
  datatype PeriodForm = PeriodForm(
    courseId: Option<int>, instructorId: Option<int>, year: Option<int>, id: Option<int>)

  /** The calls the controller makes to `SchoolYearService`, with their bodies. */
  datatype Request =
    | FindAllSchoolYear
    | FindSchoolYearById(byId: Option<int>)
    | CreateSchoolYear(courseId: Option<int>, instructorId: Option<int>, year: Option<int>)
    | UpdateSchoolYear(body: PeriodForm)
    | DeleteSchoolYear(id: int)

  function IdOf(p: SchoolYear): int { p.id }

  /** The form as `FormBuilder.group` builds it, and after `form.reset()`:
      every control is empty. */
  const ClearedForm := PeriodForm(None, None, None, None)

  /** The first year offered and how many are offered (`Array(10).fill(2021)`). */
  const FirstYear := 2021
  const YearCount := 10

  /** The options of the year select: element `y` of the filled array is
      `2021 + y`. */
  function YearOptions(): (years: seq<int>)
    ensures |years| == 10 && years[0] == 2021
    ensures forall k :: 0 <= k < |years| - 1 ==> years[k + 1] == years[k] + 1
  {
    seq(YearCount, y => FirstYear + y)
  }

  /** The year options are exactly the years 2021 to 2030. */
  lemma YearOptionsRange(y: int)
    ensures y in YearOptions() <==> 2021 <= y <= 2030
  {
    var years := YearOptions();
    if 2021 <= y <= 2030 {
      assert years[y - 2021] == y;
    }
    if y in years {
      var k :| 0 <= k < |years| && years[k] == y;
      assert years[k] == 2021 + k;
    }
  }

  /** `form.valid`: course, instructor and year are all required. */
  predicate FormValid(f: PeriodForm)
    ensures FormValid(f) <==> f.courseId.Some? && f.instructorId.Some? && f.year.Some?
  {
    RequiredChoice(f.courseId) && RequiredChoice(f.instructorId) && RequiredChoice(f.year)
  }

  /** The filter of the duplicate check: `p.courseId === form.courseId &&
      p.instructorId === form.instructorId && p.year === form.year`. An empty
      control matches no row. */
  predicate Matches(f: PeriodForm, p: SchoolYear)
  {
    f.courseId == Some(p.courseId) && f.instructorId == Some(p.instructorId) && f.year == Some(p.year)
  }

  function Matching(f: PeriodForm): SchoolYear -> bool
  {
    p => Matches(f, p)
  }

  /** The `coincidences` of the duplicate check. */
  function Coincidences(rows: seq<SchoolYear>, f: PeriodForm): (c: seq<SchoolYear>)
    ensures forall p :: p in c <==> p in rows && Matches(f, p)
  {
    RowCache.Filter(rows, Matching(f))
  }

  /** `coincidences.length > 0`: some cached assignment has the form's course,
      instructor and year. */
  predicate IsDuplicate(rows: seq<SchoolYear>, f: PeriodForm)
    ensures IsDuplicate(rows, f) <==> exists p :: p in rows && Matches(f, p)
  {
    var c := Coincidences(rows, f);
    assert |c| > 0 ==> c[0] in c;
    |c| > 0
  }

  /** The triple no two assignments may share. */
  function Assignment(p: SchoolYear): (int, int, int)
  {
    (p.courseId, p.instructorId, p.year)
  }

  /** The uniqueness invariant of the cache. */
  ghost predicate UniqueAssignments(rows: seq<SchoolYear>)
  {
    forall i, j :: 0 <= i < j < |rows| ==> Assignment(rows[i]) != Assignment(rows[j])
  }

  /** A create that passed the duplicate check, and whose re-fetched record
      carries the form's triple, keeps the cache free of duplicates. */
  lemma GuardedCreateKeepsUnique(rows: seq<SchoolYear>, f: PeriodForm, fetched: SchoolYear)
    requires UniqueAssignments(rows)
    requires !IsDuplicate(rows, f)
    requires Matches(f, fetched)
    ensures UniqueAssignments(rows + [fetched])
  {
    var all := rows + [fetched];
    forall i, j | 0 <= i < j < |all| ensures Assignment(all[i]) != Assignment(all[j]) {
      if j == |rows| {
        assert all[i] in rows;
      }
    }
  }

  /** The update check does not leave out the row being edited: a form whose
      triple is that of any cached row, the edited row itself included, is
      rejected. So is every form `editSchoolYear` fills from a cached row and
      that is saved without a change. */
  lemma UpdateCheckIncludesEditedRow(rows: seq<SchoolYear>, k: int, f: PeriodForm)
    requires 0 <= k < |rows|
    requires f.courseId == Some(rows[k].courseId)
    requires f.instructorId == Some(rows[k].instructorId)
    requires f.year == Some(rows[k].year)
    ensures IsDuplicate(rows, f)
  {
    assert rows[k] in rows && Matches(f, rows[k]);
  }

  /** The field writes `row.courseName = …; row.instructorName = …;
      row.year = …` of `updateSchoolYear$`, from the re-fetched record. */
  function Refresh(fetched: SchoolYear): SchoolYear -> SchoolYear
  {
    (p: SchoolYear) => p.(courseName := fetched.courseName, instructorName := fetched.instructorName, year := fetched.year)
  }

  /** The cache after a successful update and re-fetch: the first row with the
      form's id takes the names and the year of the re-fetched record and
      KEEPS its cached `courseId` and `instructorId`. `None` when no row has
      that id (or the form has none): `find` gives undefined and the field
      write throws. */
  function Refreshed(rows: seq<SchoolYear>, id: Option<int>, fetched: SchoolYear): (r: Option<seq<SchoolYear>>)
    ensures r.None? <==> id.None? || forall j :: 0 <= j < |rows| ==> rows[j].id != id.value
    ensures r.Some? ==>
      var i := RowCache.FirstIndex(rows, id.value, IdOf).value;
      && |r.value| == |rows|
      && r.value[i].id == rows[i].id
      && r.value[i].courseId == rows[i].courseId
      && r.value[i].instructorId == rows[i].instructorId
      && r.value[i].year == fetched.year
      && r.value[i].courseName == fetched.courseName
      && r.value[i].instructorName == fetched.instructorName
      && forall j :: 0 <= j < |rows| && j != i ==> r.value[j] == rows[j]
  {
    if id.None? then None
    else RowCache.UpdateFirst(rows, id.value, IdOf, Refresh(fetched))
  }

  /** The cached `courseId` is stale after an update that moved the
      assignment to another course: the refreshed row's triple differs from
      the re-fetched record's, though both describe the same assignment. */
  lemma RefreshedCourseIsStale(rows: seq<SchoolYear>, fetched: SchoolYear)
    requires Refreshed(rows, Some(fetched.id), fetched).Some?
    requires fetched.courseId != rows[RowCache.FirstIndex(rows, fetched.id, IdOf).value].courseId
    ensures var r := Refreshed(rows, Some(fetched.id), fetched).value;
      exists j :: 0 <= j < |r| && r[j].id == fetched.id && Assignment(r[j]) != Assignment(fetched)
  {
    var r := Refreshed(rows, Some(fetched.id), fetched).value;
    var i := RowCache.FirstIndex(rows, fetched.id, IdOf).value;
    assert r[i].id == fetched.id && Assignment(r[i]) != Assignment(fetched);
  }

  /** A checked update can break the uniqueness invariant. Two cached rows
      differ only in their year; the first is moved to another course and to
      the second one's year. No cached row has the form's triple, so the check
      lets the update through; the refreshed row keeps its stale course and
      takes the new year, so the cache then holds the second row's triple
      twice. A later create of the triple the server really stores is not
      caught by the check either. */
  lemma CheckedUpdateCanBreakUnique()
    ensures var rows := [SchoolYear(1, 10, 20, 2021, "A", "P"), SchoolYear(2, 10, 20, 2022, "A", "P")];
      var f := PeriodForm(Some(11), Some(20), Some(2022), Some(1));
      var fetched := SchoolYear(1, 11, 20, 2022, "B", "P");
      && UniqueAssignments(rows)
      && !IsDuplicate(rows, f)
      && Refreshed(rows, f.id, fetched).Some?
      && !UniqueAssignments(Refreshed(rows, f.id, fetched).value)
      && !IsDuplicate(Refreshed(rows, f.id, fetched).value, PeriodForm(Some(11), Some(20), Some(2022), None))
  {
    var rows := [SchoolYear(1, 10, 20, 2021, "A", "P"), SchoolYear(2, 10, 20, 2022, "A", "P")];
    var f := PeriodForm(Some(11), Some(20), Some(2022), Some(1));
    var fetched := SchoolYear(1, 11, 20, 2022, "B", "P");
    assert !Matches(f, rows[0]) && !Matches(f, rows[1]);
    assert RowCache.FirstIndex(rows, 1, IdOf) == Some(0);
    var r := Refreshed(rows, f.id, fetched).value;
    assert r[0] == SchoolYear(1, 10, 20, 2022, "B", "P");
    assert r[1] == rows[1];
    assert Assignment(r[0]) == Assignment(r[1]);
    var g := PeriodForm(Some(11), Some(20), Some(2022), None);
    assert !Matches(g, r[0]) && !Matches(g, r[1]);
  }

  class PeriodAdminComponent {
    var rows: seq<SchoolYear>
    var onEdit: bool
    var isUpdating: bool
    var form: PeriodForm
    /** The snackbar messages shown, oldest first. */
    ghost var notices: seq<Notice>
    /** The calls made to `SchoolYearService`, oldest first. */
    ghost var sent: seq<Request>

    constructor ()
      ensures rows == [] && !onEdit && !isUpdating && form == ClearedForm
      ensures notices == [] && sent == []
    {
      rows, onEdit, isUpdating, form := [], false, false, ClearedForm;
      notices, sent := [], [];
    }

    /** Neither the edit flags nor the form changed. */
    twostate predicate SessionKept()
      reads this
    {
      onEdit == old(onEdit) && isUpdating == old(isUpdating) && form == old(form)
    }

    /** The session was finalized: both flags false and the form reset. */
    predicate Finalized()
      reads this
    {
      !onEdit && !isUpdating && form == ClearedForm
    }

    /** The effect of `createSchoolYear$` with the given replies to the create
        call and to the re-fetch by the new id. */
    twostate predicate CreateEffect(createReply: Reply<SchoolYear>, fetchReply: Reply<SchoolYear>)
      reads this
    {
      if IsDuplicate(old(rows), old(form)) then
        rows == old(rows) && sent == old(sent) && notices == old(notices) + [Info] && SessionKept()
      else
        var request := CreateSchoolYear(old(form).courseId, old(form).instructorId, old(form).year);
        match createReply
        case Failed =>
          rows == old(rows) && sent == old(sent) + [request]
          && notices == old(notices) + [Error] && SessionKept()
        case Delivered(created) =>
          && sent == old(sent) + [request, FindSchoolYearById(Some(created.id))]
          && match fetchReply
             case Failed =>
               rows == old(rows) && notices == old(notices) + [Success, Error] && SessionKept()
             case Delivered(schoolYear) =>
               rows == old(rows) + [schoolYear] && notices == old(notices) + [Success] && Finalized()
    }

    /** The effect of `updateSchoolYear$(updated)` with the given outcome of
        the update call and reply to the re-fetch by `updated.id`. The
        duplicate check reads the form, not `updated`. */
    twostate predicate UpdateEffect(updated: PeriodForm, ok: bool, fetchReply: Reply<SchoolYear>)
      reads this
    {
      if IsDuplicate(old(rows), old(form)) then
        rows == old(rows) && sent == old(sent) && notices == old(notices) + [Info] && SessionKept()
      else if !ok then
        rows == old(rows) && sent == old(sent) + [UpdateSchoolYear(updated)]
        && notices == old(notices) + [Error] && SessionKept()
      else
        && sent == old(sent) + [UpdateSchoolYear(updated), FindSchoolYearById(updated.id)]
        && match fetchReply
           case Failed =>
             rows == old(rows) && notices == old(notices) + [Success, Error] && SessionKept()
           case Delivered(schoolYear) =>
             match Refreshed(old(rows), updated.id, schoolYear)
             case None =>
               rows == old(rows) && notices == old(notices) + [Success, Error] && SessionKept()
             case Some(refreshed) =>
               rows == refreshed && notices == old(notices) + [Success] && Finalized()
    }

    /** `findAll`, run when the component mounts. */
    method FindAll(reply: Reply<seq<SchoolYear>>)
      modifies this`rows, this`notices, this`sent
      ensures sent == old(sent) + [FindAllSchoolYear]
      ensures reply.Delivered? ==> rows == reply.body && notices == old(notices)
      ensures reply.Failed? ==> rows == old(rows) && notices == old(notices) + [Error]
    {
      sent := sent + [FindAllSchoolYear];
      match reply
      case Delivered(all) => rows := all;
      case Failed => notices := notices + [Error];
    }

    /** `continueToCreateSchoolYear`: unlock the form, nothing else. */
    method ContinueToCreate()
      modifies this`onEdit
      ensures onEdit
    {
      onEdit := true;
    }

    /** `createSchoolYear$`: reject a duplicate of a cached assignment without
        calling the server; otherwise create, re-fetch the new record by its
        id, append it and finalize. A failed call keeps the session open. */
    method Create(createReply: Reply<SchoolYear>, fetchReply: Reply<SchoolYear>)
      modifies this`rows, this`onEdit, this`isUpdating, this`form, this`notices, this`sent
      ensures CreateEffect(createReply, fetchReply)
    {
      if IsDuplicate(rows, form) {
        notices := notices + [Info];
      } else {
        sent := sent + [CreateSchoolYear(form.courseId, form.instructorId, form.year)];
        match createReply
        case Failed =>
          notices := notices + [Error];
        case Delivered(created) =>
          notices := notices + [Success];
          sent := sent + [FindSchoolYearById(Some(created.id))];
          match fetchReply
          case Failed =>
            notices := notices + [Error];
          case Delivered(schoolYear) =>
            rows := rows + [schoolYear];
            FinalizeEdit();
      }
    }

    /** `updateSchoolYear$(updated)`: reject a form whose triple any cached row
        has; otherwise update, re-fetch by id, refresh the cached row and
        finalize. A failed call, or a cache without that id, keeps the
        session open. */
    method Update(updated: PeriodForm, ok: bool, fetchReply: Reply<SchoolYear>)
      modifies this`rows, this`onEdit, this`isUpdating, this`form, this`notices, this`sent
      ensures UpdateEffect(updated, ok, fetchReply)
    {
      if IsDuplicate(rows, form) {
        notices := notices + [Info];
      } else {
        sent := sent + [UpdateSchoolYear(updated)];
        if !ok {
          notices := notices + [Error];
        } else {
          notices := notices + [Success];
          sent := sent + [FindSchoolYearById(updated.id)];
          match fetchReply
          case Failed =>
            notices := notices + [Error];
          case Delivered(schoolYear) =>
            match Refreshed(rows, updated.id, schoolYear)
            case None =>
              notices := notices + [Error];
            case Some(refreshed) =>
              rows := refreshed;
              FinalizeEdit();
        }
      }
    }

    /** `deleteSchoolYear$(schoolYearId)`: on success drop every row with that id. */
    method Delete(id: int, ok: bool)
      modifies this`rows, this`notices, this`sent
      ensures sent == old(sent) + [DeleteSchoolYear(id)]
      ensures ok ==> rows == RowCache.Without(old(rows), id, IdOf) && notices == old(notices) + [Success]
      ensures !ok ==> rows == old(rows) && notices == old(notices) + [Error]
    {
      sent := sent + [DeleteSchoolYear(id)];
      if ok {
        notices := notices + [Success];
        rows := RowCache.Without(rows, id, IdOf);
      } else {
        notices := notices + [Error];
      }
    }

    /** `editSchoolYear(schoolYear)`: enter edit mode for an existing row and
        load its course, instructor, year and id into the form. */
    method Edit(schoolYear: SchoolYear)
      modifies this`onEdit, this`isUpdating, this`form
      ensures onEdit && isUpdating
      ensures form == PeriodForm(Some(schoolYear.courseId), Some(schoolYear.instructorId),
                                 Some(schoolYear.year), Some(schoolYear.id))
    {
      onEdit, isUpdating := true, true;
      form := PeriodForm(Some(schoolYear.courseId), Some(schoolYear.instructorId),
                         Some(schoolYear.year), Some(schoolYear.id));
    }

    /** `finalizeEdit`: leave edit mode and reset the form. */
    method FinalizeEdit()
      modifies this`onEdit, this`isUpdating, this`form
      ensures Finalized()
    {
      onEdit, isUpdating := false, false;
      form := ClearedForm;
    }

    /** `cancelEditSchoolYear`. */
    method Cancel()
      modifies this`onEdit, this`isUpdating, this`form
      ensures Finalized()
    {
      FinalizeEdit();
    }

    /** `saveSchoolYear`: an invalid form only raises an error; a valid one is
        dispatched to update when `isUpdating`, else to create. Finalizing is
        left to those handlers. */
    method Save(createReply: Reply<SchoolYear>, updateOk: bool, fetchReply: Reply<SchoolYear>)
      modifies this`rows, this`onEdit, this`isUpdating, this`form, this`notices, this`sent
      ensures !FormValid(old(form)) ==>
        rows == old(rows) && sent == old(sent) && notices == old(notices) + [Error] && SessionKept()
      ensures FormValid(old(form)) && old(isUpdating) ==> UpdateEffect(old(form), updateOk, fetchReply)
      ensures FormValid(old(form)) && !old(isUpdating) ==> CreateEffect(createReply, fetchReply)
    {
      if FormValid(form) {
        if isUpdating {
          Update(form, updateOk, fetchReply);
        } else {
          Create(createReply, fetchReply);
        }
      } else {
        notices := notices + [Error];
      }
    }
  }
}
