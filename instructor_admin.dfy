/** The controller inside `InstructorAdminComponent`: the cached instructor
    rows and the edit session (`onEdit`, `isUpdating`, the form). The remote
    calls of `InstructorService` are parameters: a reply for each call. */
module InstructorAdmin {
  import opened Common
  import RowCache

  /** An instructor as the server returns it. */
  datatype Instructor = Instructor(id: int, identification: Text, name: Text)

  /** The values of the reactive form; `id` is the control `editInstructor` adds. */
  datatype InstructorForm = InstructorForm(name: Text, identification: Text, id: Option<int>)

  /** The calls the controller makes to `InstructorService`, with their bodies. */
  datatype Request =
    | FindAllInstructors
    | CreateInstructor(body: InstructorForm)
    | UpdateInstructor(body: InstructorForm)
    | DeleteInstructor(id: int)

  function IdOf(i: Instructor): int { i.id }

  /** The form as `FormBuilder.group` builds it: both controls hold "". */
  const InitialForm := InstructorForm(Some(""), Some(""), None)

  /** The form after `form.reset()`: every control holds null. */
  const ClearedForm := InstructorForm(None, None, None)

  /** `form.valid`: both `name` and `identification` are required. */
  predicate FormValid(f: InstructorForm)
    ensures FormValid(f) <==>
      f.name.Some? && f.name.value != "" && f.identification.Some? && f.identification.value != ""
  {
    RequiredText(f.name) && RequiredText(f.identification)
  }

  /** The field writes `row.identification = …; row.name = …` of `updateInstructor$`. */
  function Overwrite(updated: InstructorForm): Instructor -> Instructor
  {
    (i: Instructor) => i.(identification := updated.identification, name := updated.name)
  }

  /** The cache after a successful `updateInstructor` call: the first row
      whose id is the form's id gets the form's identification and name.
      `None` when no row has that id (or the form has none): `find` gives
      undefined and the field write throws. */
  function Patched(rows: seq<Instructor>, updated: InstructorForm): (r: Option<seq<Instructor>>)
    ensures r.None? <==> updated.id.None? || forall j :: 0 <= j < |rows| ==> rows[j].id != updated.id.value
    ensures r.Some? ==>
      var i := RowCache.FirstIndex(rows, updated.id.value, IdOf).value;
      && |r.value| == |rows|
      && r.value[i] == Instructor(rows[i].id, updated.identification, updated.name)
      && forall j :: 0 <= j < |rows| && j != i ==> r.value[j] == rows[j]
  {
    if updated.id.None? then None
    else RowCache.UpdateFirst(rows, updated.id.value, IdOf, Overwrite(updated))
  }

  /** An update keeps every row's id where it was, and repeating the same
      update changes nothing more. */
  lemma PatchedKeepsIds(rows: seq<Instructor>, updated: InstructorForm)
    requires Patched(rows, updated).Some?
    ensures forall j :: 0 <= j < |rows| ==> Patched(rows, updated).value[j].id == rows[j].id
    ensures Patched(Patched(rows, updated).value, updated) == Patched(rows, updated)
  {
    var id := updated.id.value;
    RowCache.UpdateFirstKeepsIds(rows, id, IdOf, Overwrite(updated));
    var r := Patched(rows, updated).value;
    var i := RowCache.FirstIndex(rows, id, IdOf).value;
    assert r[i := Overwrite(updated)(r[i])] == r;
  }

  class InstructorAdminComponent {
    var rows: seq<Instructor>
    var onEdit: bool
    var isUpdating: bool
    var form: InstructorForm
    /** The snackbar messages shown, oldest first. */
    ghost var notices: seq<Notice>
    /** The calls made to `InstructorService`, oldest first. */
    ghost var sent: seq<Request>

    constructor ()
      ensures rows == [] && !onEdit && !isUpdating && form == InitialForm
      ensures notices == [] && sent == []
    {
      rows, onEdit, isUpdating, form := [], false, false, InitialForm;
      notices, sent := [], [];
    }

    /** `findAll`, run when the component mounts. */
    method FindAll(reply: Reply<seq<Instructor>>)
      modifies this`rows, this`notices, this`sent
      ensures sent == old(sent) + [FindAllInstructors]
      ensures reply.Delivered? ==> rows == reply.body && notices == old(notices)
      ensures reply.Failed? ==> rows == old(rows) && notices == old(notices) + [Error]
    {
      sent := sent + [FindAllInstructors];
      match reply
      case Delivered(all) => rows := all;
      case Failed => notices := notices + [Error];
    }

    /** `continueToCreateInstructor`: unlock the form, nothing else. */
    method ContinueToCreate()
      modifies this`onEdit
      ensures onEdit
    {
      onEdit := true;
    }

    /** `createInstructor$`: send the form; on success append the returned
        instructor. */
    method Create(reply: Reply<Instructor>)
      modifies this`rows, this`notices, this`sent
      ensures sent == old(sent) + [CreateInstructor(form)]
      ensures reply.Delivered? ==> rows == old(rows) + [reply.body] && notices == old(notices) + [Success]
      ensures reply.Failed? ==> rows == old(rows) && notices == old(notices) + [Error]
    {
      sent := sent + [CreateInstructor(form)];
      match reply
      case Delivered(created) =>
        notices := notices + [Success];
        rows := rows + [created];
      case Failed =>
        notices := notices + [Error];
    }

    /** `updateInstructor$(instructorUpdated)`: send the form; on success
        overwrite identification and name of the first row with
        `instructorUpdated`'s id. When no row has that id the write throws:
        the success message is followed by an error message and the cache is
        left alone. */
    method Update(updated: InstructorForm, ok: bool)
      modifies this`rows, this`notices, this`sent
      ensures sent == old(sent) + [UpdateInstructor(form)]
      ensures ok && Patched(old(rows), updated).Some? ==>
        rows == Patched(old(rows), updated).value && notices == old(notices) + [Success]
      ensures ok && Patched(old(rows), updated).None? ==>
        rows == old(rows) && notices == old(notices) + [Success, Error]
      ensures !ok ==> rows == old(rows) && notices == old(notices) + [Error]
    {
      sent := sent + [UpdateInstructor(form)];
      if !ok {
        notices := notices + [Error];
      } else {
        notices := notices + [Success];
        match Patched(rows, updated)
        case Some(patched) => rows := patched;
        case None => notices := notices + [Error];
      }
    }

    /** `deleteInstructor$(instructorId)`: on success drop every row with that id. */
    method Delete(id: int, ok: bool)
      modifies this`rows, this`notices, this`sent
      ensures sent == old(sent) + [DeleteInstructor(id)]
      ensures ok ==> rows == RowCache.Without(old(rows), id, IdOf) && notices == old(notices) + [Success]
      ensures !ok ==> rows == old(rows) && notices == old(notices) + [Error]
    {
      sent := sent + [DeleteInstructor(id)];
      if ok {
        notices := notices + [Success];
        rows := RowCache.Without(rows, id, IdOf);
      } else {
        notices := notices + [Error];
      }
    }

    /** `editInstructor(instructor)`: enter edit mode for an existing row and
        load its name, identification and id into the form. */
    method Edit(instructor: Instructor)
      modifies this`onEdit, this`isUpdating, this`form
      ensures onEdit && isUpdating
      ensures form == InstructorForm(instructor.name, instructor.identification, Some(instructor.id))
    {
      onEdit, isUpdating := true, true;
      form := InstructorForm(instructor.name, instructor.identification, Some(instructor.id));
    }

    /** `finalizeEdit`: leave edit mode and reset the form. */
    method FinalizeEdit()
      modifies this`onEdit, this`isUpdating, this`form
      ensures !onEdit && !isUpdating && form == ClearedForm
    {
      onEdit, isUpdating := false, false;
      form := ClearedForm;
    }

    /** `cancelEditInstructor`. */
    method Cancel()
      modifies this`onEdit, this`isUpdating, this`form
      ensures !onEdit && !isUpdating && form == ClearedForm
    {
      FinalizeEdit();
    }

    /** `saveInstructor`: an invalid form only raises an error. A valid one is
        sent as an update or a create according to `isUpdating`, and the
        session is then finalized whatever the reply: the `await` binds to
        `this.state.isUpdating` alone, so the request itself is never awaited. */
    method Save(createReply: Reply<Instructor>, updateOk: bool)
      modifies this`rows, this`onEdit, this`isUpdating, this`form, this`notices, this`sent
      ensures !FormValid(old(form)) ==>
        && rows == old(rows) && sent == old(sent) && notices == old(notices) + [Error]
        && onEdit == old(onEdit) && isUpdating == old(isUpdating) && form == old(form)
      ensures FormValid(old(form)) ==> !onEdit && !isUpdating && form == ClearedForm
      ensures FormValid(old(form)) && old(isUpdating) ==>
        var patched := Patched(old(rows), old(form));
        && sent == old(sent) + [UpdateInstructor(old(form))]
        && rows == (if updateOk && patched.Some? then patched.value else old(rows))
        && notices == old(notices) + (if !updateOk then [Error] else if patched.Some? then [Success] else [Success, Error])
      ensures FormValid(old(form)) && !old(isUpdating) ==>
        && sent == old(sent) + [CreateInstructor(old(form))]
        && rows == (if createReply.Delivered? then old(rows) + [createReply.body] else old(rows))
        && notices == old(notices) + [if createReply.Delivered? then Success else Error]
    {
      if FormValid(form) {
        if isUpdating {
          Update(form, updateOk);
        } else {
          Create(createReply);
        }
        FinalizeEdit();
      } else {
        notices := notices + [Error];
      }
    }
  }
}
