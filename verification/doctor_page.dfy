/** The doctor dashboard page as a state machine: the list, the search term
    and the create/edit form, driven by the page's handlers. `alert` becomes
    the `Notice` a step reports, `confirm` a boolean argument of delete, and
    the clock-derived id and join date arguments of submit. */
module DoctorPage {
  import opened Seqs
  import opened Doctors

  /** The form state: whether it is shown, the record being edited (if any),
      and the field contents. */
  datatype Form = Form(show: bool, editing: Option<Doctor>, data: FormData)

  /** The edit session a form state stands for. */
  datatype Mode = Closed | Creating | Editing(record: Doctor)

  datatype Page = Page(doctors: seq<Doctor>, search: string, form: Form)

  /** What the page tells the user after a handler: nothing, the missing
      required fields, or the success of a create, update or delete. */
  datatype Notice = Silent | MissingFields | Added | Updated | Deleted

  datatype Step = Step(page: Page, notice: Notice)

  /** A change typed into one of the form's inputs or status buttons. */
  datatype FieldEdit =
    | SetName(name: string)
    | SetEmail(email: string)
    | SetPhone(phone: string)
    | SetSpecialization(specialization: string)
    | SetAddress(address: string)
    | SetStatus(status: Status)

  /** The user actions the page offers. */
  datatype Event =
    | HeaderButton
    | Cancel
    | EditField(edit: FieldEdit)
    | BeginEdit(record: Doctor)
    | Submit(newId: string, today: string)
    | Delete(id: string, confirmed: bool)
    | Toggle(id: string)
    | SetSearch(query: string)

  const ClosedForm := Form(false, None, EmptyForm)

  const InitialPage := Page(SeedDoctors, "", ClosedForm)

  function ModeOf(f: Form): Mode {
    if !f.show then Closed
    else if f.editing.Some? then Editing(f.editing.value)
    else Creating
  }

  /** The form states the page can reach: a hidden form is never editing
      and always holds the empty fields, since every way of hiding it goes
      through the reset. */
  predicate FormInv(f: Form) {
    !f.show ==> f.editing.None? && f.data == EmptyForm
  }

  // ---------------------------------------------------------------- form

  /** The reset after a cancel or a successful submit. */
  function ResetForm(f: Form): (r: Form)
    ensures ModeOf(r) == Closed && r.editing.None? && r.data == EmptyForm && FormInv(r)
  {
    ClosedForm
  }

  /** Opening an edit session for a record: the form shows the record's six
      editable fields, whatever session was open before. */
  function BeginEditForm(f: Form, d: Doctor): (r: Form)
    ensures ModeOf(r) == Editing(d)
    ensures HasForm(d, r.data)
    ensures FormInv(r)
  {
    Form(true, Some(d), FormOf(d))
  }

  /** The header button: "Cancel" while the form is shown, "Add Doctor" otherwise. */
  function HeaderButtonForm(f: Form): (r: Form)
    ensures f.show ==> r == ClosedForm
    ensures !f.show ==> r.show && r.editing == f.editing && r.data == f.data
    ensures FormInv(f) && !f.show ==> ModeOf(r) == Creating && r.data == EmptyForm
  {
    if f.show then ResetForm(f) else f.(show := true)
  }

  function ApplyEdit(data: FormData, e: FieldEdit): (r: FormData)
    ensures e.SetName? ==> r == data.(name := e.name)
    ensures e.SetEmail? ==> r == data.(email := e.email)
    ensures e.SetPhone? ==> r == data.(phone := e.phone)
    ensures e.SetSpecialization? ==> r == data.(specialization := e.specialization)
    ensures e.SetAddress? ==> r == data.(address := e.address)
    ensures e.SetStatus? ==> r == data.(status := e.status)
  {
    match e
    case SetName(v) => data.(name := v)
    case SetEmail(v) => data.(email := v)
    case SetPhone(v) => data.(phone := v)
    case SetSpecialization(v) => data.(specialization := v)
    case SetAddress(v) => data.(address := v)
    case SetStatus(v) => data.(status := v)
  }

  // ---------------------------------------------------------------- handlers

  /** The create handler: with a required field empty it reports the missing
      fields and changes nothing; otherwise it appends the new record, resets
      the form and reports the addition. */
  function CreateDoctor(p: Page, newId: string, today: string): (r: Step)
    ensures !Valid(p.form.data) ==> r == Step(p, MissingFields)
    ensures Valid(p.form.data) ==>
              && r.notice == Added
              && r.page.doctors == CreateList(p.doctors, p.form.data, newId, today)
              && r.page.search == p.search
              && r.page.form == ClosedForm
  {
    if !Valid(p.form.data) then Step(p, MissingFields)
    else
      Step(p.(doctors := CreateList(p.doctors, p.form.data, newId, today),
              form := ResetForm(p.form)), Added)
  }

  /** The update handler: without an edit session it does nothing; with a
      required field empty it reports the missing fields and changes nothing;
      otherwise it rewrites the records carrying the edited id, resets the
      form and reports the update. */
  function UpdateDoctor(p: Page): (r: Step)
    ensures p.form.editing.None? ==> r == Step(p, Silent)
    ensures p.form.editing.Some? && !Valid(p.form.data) ==> r == Step(p, MissingFields)
    ensures p.form.editing.Some? && Valid(p.form.data) ==>
              && r.notice == Updated
              && r.page.doctors == UpdateList(p.doctors, p.form.editing.value, p.form.data)
              && r.page.search == p.search
              && r.page.form == ClosedForm
  {
    match p.form.editing
    case None => Step(p, Silent)
    case Some(e) =>
      if !Valid(p.form.data) then Step(p, MissingFields)
      else
        Step(p.(doctors := UpdateList(p.doctors, e, p.form.data),
                form := ResetForm(p.form)), Updated)
  }

  /** The delete handler: an id `GetById` does not find, or a declined
      confirmation, changes nothing; otherwise every record with the id is
      removed and the deletion reported. The form is left alone. */
  function DeleteDoctor(p: Page, id: string, confirmed: bool): (r: Step)
    ensures GetById(p.doctors, id).None? || !confirmed ==> r == Step(p, Silent)
    ensures GetById(p.doctors, id).Some? && confirmed ==>
              && r.notice == Deleted
              && r.page == p.(doctors := DeleteList(p.doctors, id))
              && GetById(r.page.doctors, id).None?
              && |r.page.doctors| < |p.doctors|
  {
    match GetById(p.doctors, id)
    case None => Step(p, Silent)
    case Some(_) =>
      if confirmed then Step(p.(doctors := DeleteList(p.doctors, id)), Deleted)
      else Step(p, Silent)
  }

  /** The submit button dispatches on the session: update while editing, create otherwise. */
  function SubmitForm(p: Page, newId: string, today: string): (r: Step)
    ensures p.form.editing.Some? ==> r == UpdateDoctor(p)
    ensures p.form.editing.None? ==> r == CreateDoctor(p, newId, today)
  {
    if p.form.editing.Some? then UpdateDoctor(p) else CreateDoctor(p, newId, today)
  }

  /** Which events the rendered page offers: the form's inputs and buttons
      exist only while the form is shown, and the per-record edit button only
      on a record in the visible list. */
  predicate Enabled(p: Page, ev: Event) {
    match ev
    case Cancel => p.form.show
    case EditField(_) => p.form.show
    case Submit(_, _) => p.form.show
    case BeginEdit(d) => d in Search(p.doctors, p.search)
    case _ => true
  }

  /** One user action. */
  function Next(p: Page, ev: Event): (r: Step)
    requires Enabled(p, ev)
    ensures ev.Delete? || ev.Toggle? || ev.SetSearch? ==> r.page.form == p.form
    ensures ev.HeaderButton? || ev.Cancel? || ev.EditField? || ev.BeginEdit? ==> r.page.doctors == p.doctors
    ensures r.notice != Silent ==> ev.Submit? || ev.Delete?
    ensures !ev.SetSearch? ==> r.page.search == p.search
    ensures ev.SetSearch? ==> r == Step(p.(search := ev.query), Silent)
    ensures ev.Toggle? ==> r.page.doctors == ToggleStatus(p.doctors, ev.id)
    ensures ev.Cancel? ==> r.page.form == ClosedForm
    ensures ev.HeaderButton? ==> r.page.form == HeaderButtonForm(p.form)
    ensures ev.BeginEdit? ==> ModeOf(r.page.form) == Editing(ev.record) && HasForm(ev.record, r.page.form.data)
    ensures ev.EditField? ==> r.page.form == p.form.(data := ApplyEdit(p.form.data, ev.edit))
    ensures ev.Submit? ==> r == SubmitForm(p, ev.newId, ev.today)
    ensures ev.Delete? ==> r == DeleteDoctor(p, ev.id, ev.confirmed)
  {
    match ev
    case HeaderButton => Step(p.(form := HeaderButtonForm(p.form)), Silent)
    case Cancel => Step(p.(form := ResetForm(p.form)), Silent)
    case EditField(e) => Step(p.(form := p.form.(data := ApplyEdit(p.form.data, e))), Silent)
    case BeginEdit(d) => Step(p.(form := BeginEditForm(p.form, d)), Silent)
    case Submit(id, today) => SubmitForm(p, id, today)
    case Delete(id, confirmed) => DeleteDoctor(p, id, confirmed)
    case Toggle(id) => Step(p.(doctors := ToggleStatus(p.doctors, id)), Silent)
    case SetSearch(q) => Step(p.(search := q), Silent)
  }

  /** Every enabled action keeps the form invariant. */
  lemma NextKeepsFormInv(p: Page, ev: Event)
    requires Enabled(p, ev) && FormInv(p.form)
    ensures FormInv(Next(p, ev).page.form)
  {
  }

  /** Replays a sequence of actions; actions the page does not offer in the
      current state are skipped, since they cannot be issued there. */
  function Run(p: Page, evs: seq<Event>): Page
    decreases |evs|
  {
    if |evs| == 0 then p
    else
      var p' := if Enabled(p, evs[0]) then Next(p, evs[0]).page else p;
      Run(p', evs[1..])
  }

  /** Every page reachable from the initial one satisfies the form invariant:
      a hidden form is never in an edit session and always holds empty fields. */
  lemma {:induction false} ReachableFormInv(p: Page, evs: seq<Event>)
    requires FormInv(p.form)
    ensures FormInv(Run(p, evs).form)
    decreases |evs|
  {
    if |evs| > 0 {
      if Enabled(p, evs[0]) {
        NextKeepsFormInv(p, evs[0]);
      }
      var p' := if Enabled(p, evs[0]) then Next(p, evs[0]).page else p;
      ReachableFormInv(p', evs[1..]);
    }
  }

  lemma InitialFormInv()
    ensures FormInv(InitialPage.form) && ModeOf(InitialPage.form) == Closed
  {
  }

  /** Pressing the header button on a closed form always starts a fresh
      create session with empty fields, on every reachable page. */
  lemma HeaderButtonOpensBlankCreate(evs: seq<Event>)
    ensures var p := Run(InitialPage, evs);
            !p.form.show ==> (var f := Next(p, HeaderButton).page.form;
                              ModeOf(f) == Creating && f.data == EmptyForm)
  {
    ReachableFormInv(InitialPage, evs);
  }

  /** A submit with a valid form always ends the session, whichever handler runs. */
  lemma ValidSubmitCloses(p: Page, newId: string, today: string)
    requires p.form.show && Valid(p.form.data)
    ensures ModeOf(Next(p, Submit(newId, today)).page.form) == Closed
    ensures Next(p, Submit(newId, today)).notice in {Added, Updated}
  {
  }

  /** A submit with a required field empty keeps the page exactly as it was,
      form still open. */
  lemma InvalidSubmitKeepsPage(p: Page, newId: string, today: string)
    requires p.form.show && !Valid(p.form.data)
    ensures Next(p, Submit(newId, today)) == Step(p, MissingFields)
  {
  }

  /** If the edited record was deleted while its session was open, the update
      still closes the form and reports success but leaves the list unchanged. */
  lemma UpdateAfterDelete(p: Page)
    requires p.form.editing.Some? && Valid(p.form.data)
    requires GetById(p.doctors, p.form.editing.value.id).None?
    ensures UpdateDoctor(p).page.doctors == p.doctors
    ensures UpdateDoctor(p).notice == Updated
  {
    UpdateOfMissingRecord(p.doctors, p.form.editing.value, p.form.data);
  }

  /** Submitting an edit session writes the form back onto the edited
      record: reading its id afterwards returns the form's fields with the
      record's id, join date and order count. */
  lemma SubmitEditThenRead(p: Page, newId: string, today: string)
    requires p.form.show && p.form.editing.Some? && Valid(p.form.data)
    requires GetById(p.doctors, p.form.editing.value.id).Some?
    ensures var e := p.form.editing.value;
            var d := GetById(Next(p, Submit(newId, today)).page.doctors, e.id);
            d.Some? && HasForm(d.value, p.form.data)
            && d.value.id == e.id && d.value.joinDate == e.joinDate
            && d.value.totalOrders == e.totalOrders
  {
    var e := p.form.editing.value;
    var r := Next(p, Submit(newId, today));
    assert r == UpdateDoctor(p);
    assert r.page.doctors == UpdateList(p.doctors, e, p.form.data);
    UpdateThenRead(p.doctors, e, p.form.data);
  }
}
