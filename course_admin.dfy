/** The controller inside `CourseAdminComponent`: the cached course rows, the
    edit session (`onEdit`, `isUpdating`, the form) and the table paging. The
    remote calls of `CourseService` are parameters: a reply for each call. */
module CourseAdmin {
  import opened Common
  import RowCache

  /** A course as the server returns it; `description` is optional. */
  datatype Course = Course(id: int, name: Text, description: Text)

  /** The values of the reactive form; `id` is the control `editCourse` adds. */
  datatype CourseForm = CourseForm(name: Text, description: Text, id: Option<int>)

  /** The calls the controller makes to `CourseService`, with their bodies. */
  datatype Request =
    | FindAllCourses
    | CreateCourse(body: CourseForm)
    | UpdateCourse(body: CourseForm)
    | DeleteCourse(id: int)

  function IdOf(c: Course): int { c.id }

  /** The form as `FormBuilder.group` builds it: both controls hold "". */
  const InitialForm := CourseForm(Some(""), Some(""), None)

  /** The form after `form.reset()`: every control holds null. */
  const ClearedForm := CourseForm(None, None, None)

  /** `form.valid`: `name` is required, `description` has no validator. */
  predicate FormValid(f: CourseForm)
    ensures FormValid(f) <==> f.name.Some? && f.name.value != ""
  {
    RequiredText(f.name)
  }

  /** The field writes `row.name = …; row.description = …` of `updateCourse$`. */
  function Overwrite(updated: CourseForm): Course -> Course
  {
    (c: Course) => c.(name := updated.name, description := updated.description)
  }

  /** The cache after a successful `updateCourse` call: the first row whose id
      is the form's id gets the form's name and description. `None` when no row
      has that id (or the form has none): `find` gives undefined and the field
      write throws. */
  function Patched(rows: seq<Course>, updated: CourseForm): (r: Option<seq<Course>>)
    ensures r.None? <==> updated.id.None? || forall j :: 0 <= j < |rows| ==> rows[j].id != updated.id.value
    ensures r.Some? ==>
      var i := RowCache.FirstIndex(rows, updated.id.value, IdOf).value;
      && |r.value| == |rows|
      && r.value[i] == Course(rows[i].id, updated.name, updated.description)
      && forall j :: 0 <= j < |rows| && j != i ==> r.value[j] == rows[j]
  {
    if updated.id.None? then None
    else RowCache.UpdateFirst(rows, updated.id.value, IdOf, Overwrite(updated))
  }

  /** An update keeps every row's id where it was, and repeating the same
      update changes nothing more. */
  lemma PatchedKeepsIds(rows: seq<Course>, updated: CourseForm)
    requires Patched(rows, updated).Some?
    ensures forall j :: 0 <= j < |rows| ==> Patched(rows, updated).value[j].id == rows[j].id
    ensures Patched(Patched(rows, updated).value, updated) == Patched(rows, updated)
  {
    var id := updated.id.value;
    RowCache.UpdateFirstKeepsIds(rows, id, IdOf, Overwrite(updated));
    var r := Patched(rows, updated).value;
    var i := RowCache.FirstIndex(rows, id, IdOf).value;
    assert r[i := Overwrite(updated)(r[i])] == r;
  }

  class CourseAdminComponent {
    var rows: seq<Course>
    var onEdit: bool
    var isUpdating: bool
    var form: CourseForm
    var page: int
    var rowsPerPage: int
    /** The snackbar messages shown, oldest first. */
    ghost var notices: seq<Notice>
    /** The calls made to `CourseService`, oldest first. */
    ghost var sent: seq<Request>

    constructor ()
      ensures rows == [] && !onEdit && !isUpdating && form == InitialForm
      ensures page == 0 && rowsPerPage == 10
      ensures notices == [] && sent == []
    {
      rows, onEdit, isUpdating, form := [], false, false, InitialForm;
      page, rowsPerPage := 0, 10;
      notices, sent := [], [];
    }

    /** `findAll`, run when the component mounts. */
    method FindAll(reply: Reply<seq<Course>>)
      modifies this`rows, this`notices, this`sent
      ensures sent == old(sent) + [FindAllCourses]
      ensures reply.Delivered? ==> rows == reply.body && notices == old(notices)
      ensures reply.Failed? ==> rows == old(rows) && notices == old(notices) + [Error]
    {
      sent := sent + [FindAllCourses];
      match reply
      case Delivered(all) => rows := all;
      case Failed => notices := notices + [Error];
    }

    /** `handleChangePage`. */
    method ChangePage(newPage: int)
      modifies this`page
      ensures page == newPage
    {
      page := newPage;
    }

    /** `handleChangeRowsPerPage`: store the size and go back to page 0. */
    method ChangeRowsPerPage(size: int)
      modifies this`rowsPerPage, this`page
      ensures rowsPerPage == size && page == 0
    {
      rowsPerPage := size;
      page := 0;
    }

    /** `continueToCreateCourse`: unlock the form, nothing else. */
    method ContinueToCreate()
      modifies this`onEdit
      ensures onEdit
    {
      onEdit := true;
    }

    /** `createCourse$`: send the form; on success append the returned course. */
    method Create(reply: Reply<Course>)
      modifies this`rows, this`notices, this`sent
      ensures sent == old(sent) + [CreateCourse(form)]
      ensures reply.Delivered? ==> rows == old(rows) + [reply.body] && notices == old(notices) + [Success]
      ensures reply.Failed? ==> rows == old(rows) && notices == old(notices) + [Error]
    {
      sent := sent + [CreateCourse(form)];
      match reply
      case Delivered(created) =>
        notices := notices + [Success];
        rows := rows + [created];
      case Failed =>
        notices := notices + [Error];
    }

    /** `updateCourse$(courseUpdated)`: send the form; on success overwrite the
        name and description of the first row with `courseUpdated`'s id. When
        no row has that id the write throws: the success message is followed
        by an error message and the cache is left alone. */
    method Update(updated: CourseForm, ok: bool)
      modifies this`rows, this`notices, this`sent
      ensures sent == old(sent) + [UpdateCourse(form)]
      ensures ok && Patched(old(rows), updated).Some? ==>
        rows == Patched(old(rows), updated).value && notices == old(notices) + [Success]
      ensures ok && Patched(old(rows), updated).None? ==>
        rows == old(rows) && notices == old(notices) + [Success, Error]
      ensures !ok ==> rows == old(rows) && notices == old(notices) + [Error]
    {
      sent := sent + [UpdateCourse(form)];
      if !ok {
        notices := notices + [Error];
      } else {
        notices := notices + [Success];
        match Patched(rows, updated)
        case Some(patched) => rows := patched;
        case None => notices := notices + [Error];
      }
    }

    /** `deleteCourse$(courseId)`: on success drop every row with that id. */
    method Delete(id: int, ok: bool)
      modifies this`rows, this`notices, this`sent
      ensures sent == old(sent) + [DeleteCourse(id)]
      ensures ok ==> rows == RowCache.Without(old(rows), id, IdOf) && notices == old(notices) + [Success]
      ensures !ok ==> rows == old(rows) && notices == old(notices) + [Error]
    {
      sent := sent + [DeleteCourse(id)];
      if ok {
        notices := notices + [Success];
        rows := RowCache.Without(rows, id, IdOf);
      } else {
        notices := notices + [Error];
      }
    }

    /** `editCourse(course)`: enter edit mode for an existing row and load its
        name, description and id into the form. */
    method Edit(course: Course)
      modifies this`onEdit, this`isUpdating, this`form
      ensures onEdit && isUpdating
      ensures form == CourseForm(course.name, course.description, Some(course.id))
    {
      onEdit, isUpdating := true, true;
      form := CourseForm(course.name, course.description, Some(course.id));
    }

    /** `finalizeEdit`: leave edit mode and reset the form. */
    method FinalizeEdit()
      modifies this`onEdit, this`isUpdating, this`form
      ensures !onEdit && !isUpdating && form == ClearedForm
    {
      onEdit, isUpdating := false, false;
      form := ClearedForm;
    }

    /** `cancelEditCourse`. */
    method Cancel()
      modifies this`onEdit, this`isUpdating, this`form
      ensures !onEdit && !isUpdating && form == ClearedForm
    {
      FinalizeEdit();
    }

    /** `saveCourse`: an invalid form only raises an error. A valid one is sent
        as an update or a create according to `isUpdating`, and the session is
        then finalized whatever the reply: the `await` binds to `this.state.isUpdating`
        alone, so the request itself is never awaited. */
    method Save(createReply: Reply<Course>, updateOk: bool)
      modifies this`rows, this`onEdit, this`isUpdating, this`form, this`notices, this`sent
      ensures !FormValid(old(form)) ==>
        && rows == old(rows) && sent == old(sent) && notices == old(notices) + [Error]
        && onEdit == old(onEdit) && isUpdating == old(isUpdating) && form == old(form)
      ensures FormValid(old(form)) ==> !onEdit && !isUpdating && form == ClearedForm
      ensures FormValid(old(form)) && old(isUpdating) ==>
        var patched := Patched(old(rows), old(form));
        && sent == old(sent) + [UpdateCourse(old(form))]
        && rows == (if updateOk && patched.Some? then patched.value else old(rows))
        && notices == old(notices) + (if !updateOk then [Error] else if patched.Some? then [Success] else [Success, Error])
      ensures FormValid(old(form)) && !old(isUpdating) ==>
        && sent == old(sent) + [CreateCourse(old(form))]
        && rows == (if createReply.Delivered? then old(rows) + [createReply.body] else old(rows))
        && notices == old(notices) + [if createReply.Delivered? then Success else Error]
    {
      if FormValid(form) {
        if isUpdating {
          Update(form, updateOk);
        } else {
          Create(createReply);
        }
        FinalizeEdit();
      } else {
        notices := notices + [Error];
      }
    }
  }
}
