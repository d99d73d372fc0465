/** The main window of clinic_app_v1.py (class ClinicApp): the session state
    its handlers share and one method per handler. The database file is the
    field `db`; the form inputs a handler reads are its parameters, the
    message box it ends with is its result, a confirmation dialog is a
    boolean parameter, a tree selection an optional parameter, and today's
    date a parameter. */
module Clinic {
  import opened Wrappers
  import opened Text
  import opened Dates
  import opened Records
  import opened Database
  import opened Search
  import Sorting

  /** Python truthiness of an id: None and 0 both mean "no id". */
  predicate Known(id: Option<int>) {
    id.Some? && id.value != 0
  }

  /** Every stored case date is a calendar date. */
  predicate CaseDatesParse(t: Tables) {
    forall c :: c in t.cases ==> ParseDate(t.cases[c].fields.caseDate).Some?
  }

  // ---------------------------------------------------------------------------
  // on_save_patient as a function of the tables and current_patient_id
  // ---------------------------------------------------------------------------

  /** The tables, current_patient_id and the error message after a save. */
  datatype PatientSave = PatientSave(db: Tables, current: Option<int>, error: Option<PatientError>)

  /** on_save_patient after its validation `v`: INSERT when no patient is
      current (the id read back is 0 when a patient with that phone is
      already on file) or UPDATE the current one (ignored when another
      patient has the phone). */
  function SavePatientOutcome(t: Tables, current: Option<int>, v: Result<Patient, PatientError>)
    : (r: PatientSave)
    requires Schema(t)
    ensures v.Err? ==> r == PatientSave(t, current, Some(v.error))
    ensures v.Ok? ==> r.error.None?
    ensures Schema(r.db) && r.db.cases == t.cases && r.db.plans == t.plans
    ensures (r.db.caseSeq, r.db.planSeq) == (t.caseSeq, t.planSeq)
    ensures current.Some? ==> r.current == current
    ensures v.Ok? && current.None? ==>
              (r.current == Some(0) <==> PhoneUsedByOther(t, v.value.phone, None))
    ensures v.Ok? && current.None? && r.current != Some(0) ==>
              && r.current.Some? && r.current.value !in t.patients
              && r.db.patients == t.patients[r.current.value := v.value]
    ensures v.Ok? && current.Some? ==>
              if current.value in t.patients && !PhoneUsedByOther(t, v.value.phone, current)
              then r.db.patients == t.patients[current.value := v.value]
              else r.db == t
    ensures (Known(current) ==> current.value in t.patients) ==>
              (Known(r.current) ==> r.current.value in r.db.patients)
  {
    if v.Err? then PatientSave(t, current, Some(v.error))
    else if current.None? then
      var (t', id) := InsertPatient(t, v.value);
      PatientSave(t', Some(id), None)
    else PatientSave(UpdatePatient(t, current.value, v.value), current, None)
  }

  /** A patient saved with a known id is on file, with exactly the
      validated fields when it was just inserted; every other patient keeps
      its row. */
  lemma SavedPatientOnFile(t: Tables, current: Option<int>, v: Result<Patient, PatientError>)
    requires Schema(t)
    requires Known(current) ==> current.value in t.patients
    ensures var r := SavePatientOutcome(t, current, v);
      && (Known(r.current) ==> r.current.value in r.db.patients)
      && (current.None? && Known(r.current) ==> v.Ok? && r.db.patients[r.current.value] == v.value)
      && (forall id :: id in t.patients && Some(id) != r.current ==>
            id in r.db.patients && r.db.patients[id] == t.patients[id])
  {
    var r := SavePatientOutcome(t, current, v);
    if v.Ok? && current.None? && r.current != Some(0) {
      assert r.current.value !in t.patients;
    }
  }

  /** The patient step that on_save_case runs first: nothing when a patient
      is known or a name is missing, on_save_patient otherwise. */
  function PatientStep(t: Tables, current: Option<int>, form: PatientForm): (r: (Tables, Option<int>))
    requires Schema(t)
    requires Known(current) ==> current.value in t.patients
    ensures Known(current) || Trim(form.first) == "" || Trim(form.last) == "" ==> r == (t, current)
    ensures Schema(r.0) && r.0.cases == t.cases && r.0.plans == t.plans
    ensures (r.0.caseSeq, r.0.planSeq) == (t.caseSeq, t.planSeq)
    ensures Known(r.1) ==> r.1.value in r.0.patients
    ensures Known(r.1) && !Known(current) ==>
              && ValidatePatient(form).Ok?
              && r.0.patients[r.1.value] == ValidatePatient(form).value
  {
    if Known(current) || Trim(form.first) == "" || Trim(form.last) == "" then (t, current)
    else
      var v := ValidatePatient(form);
      var s := SavePatientOutcome(t, current, v);
      SavedPatientOnFile(t, current, v);
      (s.db, s.current)
  }

  // ---------------------------------------------------------------------------
  // Facts about the save of a case
  // ---------------------------------------------------------------------------

  /** Saving a case and loading it back gives the plan list that was saved,
      up to the spelling of the durations. */
  lemma SaveThenLoadItems(t: Tables, t': Tables, current: Option<int>, pid: int,
                          fields: CaseFields, items: seq<PlanItem>, cid: int)
    requires forall k :: 0 <= k < |items| ==> WellFormedItem(items[k])
    requires CaseSaved(t, t', current, pid, fields, items, cid)
    ensures |FromRows(PlanRowsOf(t', cid))| == |items|
    ensures forall k :: 0 <= k < |items| ==> FromRows(PlanRowsOf(t', cid))[k] == Canonical(items[k])
  {
    RowsRoundTrip(cid, items);
  }

  /** A save under a current case id that names no row, with an empty plan
      list, commits and writes no case at all. */
  lemma StaleCaseSaveWritesNothing(t: Tables, cid: int, pid: int, fields: CaseFields, t': Tables)
    requires cid !in t.cases && InSqlRange(fields.opNumber)
    ensures SaveCommits(t, Some(cid), pid, fields, [])
    ensures CaseSaved(t, t', Some(cid), pid, fields, [], cid) ==> t'.cases == t.cases
  {
  }

  // ---------------------------------------------------------------------------
  // Outcomes of the handlers
  // ---------------------------------------------------------------------------

  datatype SaveCaseError =
    | SelectPatientFirst
    | PatientNotDetermined
    | FormError(form: CaseFormError)
    | DatabaseError(db: DbError)

  datatype PlanEditError =
    | NoEditInProgress
    | InvalidItem(item: PlanError)
    | StaleIndex

  /** on_add_plan after building the item: a valid item goes at the end of
      the list, an invalid one leaves the list as it was. */
  function PlanAddOutcome(items: seq<PlanItem>, built: Result<PlanItem, PlanError>)
    : (r: (seq<PlanItem>, Option<PlanError>))
    requires forall k :: 0 <= k < |items| ==> WellFormedItem(items[k])
    requires built.Ok? ==> WellFormedItem(built.value)
    ensures forall k :: 0 <= k < |r.0| ==> WellFormedItem(r.0[k])
    ensures built.Err? ==> r == (items, Some(built.error))
    ensures built.Ok? ==>
              && r.1.None? && |r.0| == |items| + 1
              && r.0[..|items|] == items && r.0[|items|] == built.value
  {
    if built.Err? then (items, Some(built.error)) else (items + [built.value], None)
  }

  /** The plan list, editing_plan_index and the message after "Save
      Changes". */
  datatype PlanEdit = PlanEdit(items: seq<PlanItem>, index: Option<nat>, error: Option<PlanEditError>)

  /** on_save_plan_changes: the remembered position gets the item built from
      the inputs, and editing ends. The position is never adjusted when the
      list changes, so it may lie past the end: the assignment then fails and
      nothing changes. */
  function PlanEditOutcome(items: seq<PlanItem>, index: Option<nat>,
                           built: Result<PlanItem, PlanError>): (r: PlanEdit)
    requires forall k :: 0 <= k < |items| ==> WellFormedItem(items[k])
    requires built.Ok? ==> WellFormedItem(built.value)
    ensures forall k :: 0 <= k < |r.items| ==> WellFormedItem(r.items[k])
    ensures index.None? ==> r.error == Some(NoEditInProgress)
    ensures index.Some? && built.Err? ==> r.error == Some(InvalidItem(built.error))
    ensures (index.Some? && built.Ok? && index.value >= |items|) ==> r.error == Some(StaleIndex)
    ensures r.error.Some? ==> r.items == items && r.index == index
    ensures r.error.None? ==>
              && index.Some? && built.Ok? && index.value < |items|
              && |r.items| == |items|
              && r.items[index.value] == built.value
              && (forall k :: 0 <= k < |items| && k != index.value ==> r.items[k] == items[k])
              && r.index.None?
  {
    if index.None? then PlanEdit(items, index, Some(NoEditInProgress))
    else if built.Err? then PlanEdit(items, index, Some(InvalidItem(built.error)))
    else if index.value >= |items| then PlanEdit(items, index, Some(StaleIndex))
    else PlanEdit(items[index.value := built.value], None, None)
  }

  /** How a handler guarded by a selection and a confirmation ended. */
  datatype Confirmed = NoSelection | Cancelled | Done

  class ClinicApp {
    var db: Tables
    var currentPatientId: Option<int>
    var currentCaseId: Option<int>
    var planItems: seq<PlanItem>
    var editingPlanIndex: Option<nat>
    var searchPage: nat

    /** The database keeps its constraints and its case dates are calendar
        dates, a known current patient is on file, and every plan item's
        duration converts to an integer. */
    ghost predicate Valid()
      reads this
    {
      && Schema(db)
      && CaseDatesParse(db)
      && (Known(currentPatientId) ==> currentPatientId.value in db.patients)
      && (forall k :: 0 <= k < |planItems| ==> WellFormedItem(planItems[k]))
    }

    /** The window as __init__ leaves it, over a database file. */
    constructor (t: Tables)
      requires Schema(t) && CaseDatesParse(t)
      ensures Valid()
      ensures db == t && currentPatientId.None? && currentCaseId.None?
      ensures planItems == [] && editingPlanIndex.None? && searchPage == 0
    {
      db := t;
      currentPatientId := None;
      currentCaseId := None;
      planItems := [];
      editingPlanIndex := None;
      searchPage := 0;
    }

    // -------------------------------------------------------------------------
    // Patients
    // -------------------------------------------------------------------------

    /** on_save_patient. */
    method SavePatient(form: PatientForm) returns (error: Option<PatientError>)
      requires Valid()
      modifies this
      ensures Valid()
      ensures var r := SavePatientOutcome(old(db), old(currentPatientId), ValidatePatient(form));
        db == r.db && currentPatientId == r.current && error == r.error
      ensures currentCaseId == old(currentCaseId) && planItems == old(planItems)
      ensures editingPlanIndex == old(editingPlanIndex) && searchPage == old(searchPage)
    {
      var r := SavePatientOutcome(db, currentPatientId, ValidatePatient(form));
      db, currentPatientId, error := r.db, r.current, r.error;
    }

    /** on_new_patient: no patient is current any more. */
    method NewPatient()
      requires Valid()
      modifies this
      ensures Valid()
      ensures currentPatientId.None?
      ensures db == old(db) && currentCaseId == old(currentCaseId) && planItems == old(planItems)
      ensures editingPlanIndex == old(editingPlanIndex) && searchPage == old(searchPage)
    {
      currentPatientId := None;
    }

    /** on_delete_patient: the selected patient goes with its cases and their
        plans, then the handler behaves as "New Patient". The current case and
        the plan list are left alone, so they may now refer to a deleted
        case. */
    method DeletePatient(selected: Option<int>, confirmed: bool) returns (r: Confirmed)
      requires Valid()
      modifies this
      ensures Valid()
      ensures selected.None? ==> r == NoSelection
      ensures selected.Some? && !confirmed ==> r == Cancelled
      ensures r != Done ==> db == old(db) && currentPatientId == old(currentPatientId)
      ensures r == Done ==>
                && selected.Some? && confirmed
                && db == Database.DeletePatient(old(db), selected.value)
                && currentPatientId.None?
                && selected.value !in db.patients
                && (forall c :: c in db.cases ==> db.cases[c].patientId != selected.value)
      ensures currentCaseId == old(currentCaseId) && planItems == old(planItems)
      ensures editingPlanIndex == old(editingPlanIndex) && searchPage == old(searchPage)
    {
      if selected.None? {
        return NoSelection;
      }
      if !confirmed {
        return Cancelled;
      }
      DeletePatientCascade(db, selected.value);
      db := Database.DeletePatient(db, selected.value);
      currentPatientId := None;
      return Done;
    }

    /** on_patient_selected: the selected row of the patient list becomes the
        current patient, and the patient inputs are filled from its row. The
        list only shows patients on file. */
    method SelectPatient(selected: Option<int>) returns (form: Option<PatientForm>)
      requires Valid()
      requires selected.Some? ==> selected.value in db.patients
      modifies this
      ensures Valid()
      ensures selected.None? ==> form.None? && currentPatientId == old(currentPatientId)
      ensures selected.Some? ==>
                && currentPatientId == selected
                && form == Some(PatientFormOf(db.patients[selected.value]))
      ensures db == old(db) && currentCaseId == old(currentCaseId) && planItems == old(planItems)
      ensures editingPlanIndex == old(editingPlanIndex) && searchPage == old(searchPage)
    {
      if selected.None? {
        return None;
      }
      currentPatientId := selected;
      return Some(PatientFormOf(db.patients[selected.value]));
    }

    /** on_patients_search: reads the database only. */
    method PatientsSearch(name: string, phone: string) returns (ids: seq<int>)
      requires Valid()
      ensures ids == PatientSearch(db, name, phone)
      ensures |ids| <= PatientLimit
      ensures Sorting.Distinct(ids) && Sorting.Sorted(ids, PatientOrder(db))
    {
      PatientSearchSpec(db, name, phone);
      ids := PatientSearch(db, name, phone);
    }

    // -------------------------------------------------------------------------
    // The plan list
    // -------------------------------------------------------------------------

    /** on_add_plan: the item built from the inputs goes at the end. */
    method AddPlan(form: PlanForm) returns (error: Option<PlanError>)
      requires Valid()
      modifies this
      ensures Valid()
      ensures (planItems, error) == PlanAddOutcome(old(planItems), BuildPlanItem(form))
      ensures db == old(db) && currentPatientId == old(currentPatientId)
      ensures currentCaseId == old(currentCaseId)
      ensures editingPlanIndex == old(editingPlanIndex) && searchPage == old(searchPage)
    {
      var built := BuildPlanItem(form);
      var r := PlanAddOutcome(planItems, built);
      planItems, error := r.0, r.1;
    }

    /** on_delete_plan: the selected row of the plan tree, which lists the
        items in order, is removed from the list. */
    method DeletePlan(selected: Option<nat>) returns (done: bool)
      requires Valid()
      requires selected.Some? ==> selected.value < |planItems|
      modifies this
      ensures Valid()
      ensures done <==> selected.Some?
      ensures selected.None? ==> planItems == old(planItems)
      ensures selected.Some? ==>
                planItems == old(planItems)[..selected.value] + old(planItems)[selected.value + 1..]
      ensures db == old(db) && currentPatientId == old(currentPatientId)
      ensures currentCaseId == old(currentCaseId)
      ensures editingPlanIndex == old(editingPlanIndex) && searchPage == old(searchPage)
    {
      if selected.None? {
        return false;
      }
      var i := selected.value;
      planItems := planItems[..i] + planItems[i + 1..];
      return true;
    }

    /** on_edit_plan: the selected item is loaded into the inputs and its
        position remembered. */
    method EditPlan(selected: Option<nat>) returns (form: Option<PlanForm>)
      requires Valid()
      requires selected.Some? ==> selected.value < |planItems|
      modifies this
      ensures Valid()
      ensures selected.None? ==> form.None? && editingPlanIndex == old(editingPlanIndex)
      ensures selected.Some? ==>
                && editingPlanIndex == selected
                && form == Some(FormOf(old(planItems)[selected.value]))
      ensures db == old(db) && currentPatientId == old(currentPatientId)
      ensures currentCaseId == old(currentCaseId) && planItems == old(planItems)
      ensures searchPage == old(searchPage)
    {
      if selected.None? {
        return None;
      }
      editingPlanIndex := selected;
      return Some(FormOf(planItems[selected.value]));
    }

    /** on_save_plan_changes. */
    method SavePlanChanges(form: PlanForm) returns (error: Option<PlanEditError>)
      requires Valid()
      modifies this
      ensures Valid()
      ensures var r := PlanEditOutcome(old(planItems), old(editingPlanIndex), BuildPlanItem(form));
        planItems == r.items && editingPlanIndex == r.index && error == r.error
      ensures db == old(db) && currentPatientId == old(currentPatientId)
      ensures currentCaseId == old(currentCaseId) && searchPage == old(searchPage)
    {
      var r := PlanEditOutcome(planItems, editingPlanIndex, BuildPlanItem(form));
      planItems, editingPlanIndex, error := r.items, r.index, r.error;
    }

    // -------------------------------------------------------------------------
    // Cases
    // -------------------------------------------------------------------------

    /** on_new_case: no case is current and the plan list is empty. */
    method NewCase()
      requires Valid()
      modifies this
      ensures Valid()
      ensures currentCaseId.None? && planItems == []
      ensures db == old(db) && currentPatientId == old(currentPatientId)
      ensures editingPlanIndex == old(editingPlanIndex) && searchPage == old(searchPage)
    {
      currentCaseId := None;
      planItems := [];
    }

    /** on_save_case: make sure a patient is current (saving the patient form
        when none is), validate the case form, then run the save block. */
    method SaveCase(patient: PatientForm, form: CaseForm, today: Date)
      returns (error: Option<SaveCaseError>)
      requires Valid() && ValidDate(today)
      modifies this
      ensures Valid()
      ensures var (t1, p1) := PatientStep(old(db), old(currentPatientId), patient);
        && currentPatientId == p1
        && (!Known(p1) ==>
              && error == Some(if Trim(patient.first) == "" || Trim(patient.last) == ""
                               then SelectPatientFirst else PatientNotDetermined)
              && db == t1 && currentCaseId == old(currentCaseId) && searchPage == old(searchPage))
        && (Known(p1) ==>
              CaseSaveOutcome(t1, old(currentCaseId), p1.value, old(planItems), old(searchPage),
                              ValidateCase(form, today), db, currentCaseId, searchPage, error))
      ensures planItems == old(planItems) && editingPlanIndex == old(editingPlanIndex)
    {
      if !Known(currentPatientId) {
        if Trim(patient.first) == "" || Trim(patient.last) == "" {
          return Some(SelectPatientFirst);
        }
        var patientError := SavePatient(patient);
        if !Known(currentPatientId) {
          return Some(PatientNotDetermined);
        }
      }
      error := SaveValidatedCase(ValidateCase(form, today));
    }

    /** The part of on_save_case after the patient check, for the outcome
        `v` of the case form's validation. */
    method SaveValidatedCase(v: Result<CaseFields, CaseFormError>) returns (error: Option<SaveCaseError>)
      requires Valid() && Known(currentPatientId)
      requires v.Ok? ==> ParseDate(v.value.caseDate).Some?
      modifies this
      ensures Valid()
      ensures currentPatientId == old(currentPatientId)
      ensures CaseSaveOutcome(old(db), old(currentCaseId), old(currentPatientId).value,
                              old(planItems), old(searchPage), v, db, currentCaseId, searchPage,
                              error)
      ensures planItems == old(planItems) && editingPlanIndex == old(editingPlanIndex)
    {
      if v.Err? {
        return Some(FormError(v.error));
      }
      var r, held := SaveCaseTransaction(db, currentCaseId, currentPatientId.value, v.value,
                                         planItems);
      if r.Err? {
        FailedSave(db, currentCaseId, currentPatientId.value, planItems, searchPage, v.value,
                   r.error, held);
        currentCaseId := held;
        return Some(DatabaseError(r.error));
      }
      CommittedSave(db, currentCaseId, currentPatientId.value, planItems, searchPage, v.value,
                    r.value.0, r.value.1);
      currentCaseId := held;
      CaseDatesKept(db, r.value.0, old(currentCaseId), currentPatientId.value, v.value,
                    planItems, r.value.1);
      db := r.value.0;
      searchPage := 0;
      return None;
    }

    /** load_case_by_id: the case and its patient become current and the
        plan list is rebuilt from the case's rows; the forms to fill in come
        back. A case id that matches no row, or a row whose patient is gone,
        changes nothing. */
    method LoadCaseById(caseId: int, today: Date) returns (forms: Option<(PatientForm, CaseForm)>)
      requires Valid() && ValidDate(today)
      modifies this
      ensures Valid()
      ensures forms.None? <==> !(caseId in db.cases && db.cases[caseId].patientId in db.patients)
      ensures forms.None? ==>
                && currentPatientId == old(currentPatientId) && currentCaseId == old(currentCaseId)
                && planItems == old(planItems)
      ensures forms.Some? ==>
                var pid := db.cases[caseId].patientId;
                && currentPatientId == Some(pid) && currentCaseId == Some(caseId)
                && planItems == FromRows(PlanRowsOf(db, caseId))
                && forms.value == (PatientFormOf(db.patients[pid]),
                                   CaseFormOf(db.cases[caseId].fields, today))
      ensures db == old(db) && editingPlanIndex == old(editingPlanIndex)
      ensures searchPage == old(searchPage)
    {
      if !(caseId in db.cases && db.cases[caseId].patientId in db.patients) {
        return None;
      }
      var row := db.cases[caseId];
      currentPatientId := Some(row.patientId);
      currentCaseId := Some(caseId);
      planItems := FromRows(PlanRowsOf(db, caseId));
      return Some((PatientFormOf(db.patients[row.patientId]), CaseFormOf(row.fields, today)));
    }

    /** on_close_case: with a case current and the dialog confirmed, that
        case's status becomes "Closed" with today as its closing date. */
    method CloseCase(confirmed: bool, today: Date) returns (r: Confirmed)
      requires Valid() && ValidDate(today)
      modifies this
      ensures Valid()
      ensures !Known(currentCaseId) ==> r == NoSelection
      ensures Known(currentCaseId) && !confirmed ==> r == Cancelled
      ensures r != Done ==> db == old(db)
      ensures r == Done ==>
                && Known(currentCaseId) && confirmed
                && db == Database.CloseCase(old(db), currentCaseId.value, today)
      ensures currentPatientId == old(currentPatientId) && currentCaseId == old(currentCaseId)
      ensures planItems == old(planItems) && editingPlanIndex == old(editingPlanIndex)
      ensures searchPage == old(searchPage)
    {
      if !Known(currentCaseId) {
        return NoSelection;
      }
      if !confirmed {
        return Cancelled;
      }
      db := Database.CloseCase(db, currentCaseId.value, today);
      return Done;
    }

    // -------------------------------------------------------------------------
    // Browse/Search
    // -------------------------------------------------------------------------

    /** on_search: the current page of the case search. */
    method RunSearch(form: SearchForm) returns (r: Result<seq<int>, SearchError>)
      requires Valid()
      ensures r == CaseSearch(db, form, searchPage)
      ensures r.Ok? ==> |r.value| <= PageSize
      ensures r.Ok? ==> forall id :: id in r.value ==> CaseMatches(db, id, BuildCaseFilter(form).value)
    {
      r := CaseSearch(db, form, searchPage);
      if r.Ok? {
        CaseResultsSpec(db, BuildCaseFilter(form).value);
      }
    }

    /** on_next_page: one page further, then search. */
    method NextPage(form: SearchForm) returns (r: Result<seq<int>, SearchError>)
      requires Valid()
      modifies this
      ensures Valid()
      ensures searchPage == old(searchPage) + 1
      ensures r == CaseSearch(db, form, searchPage)
      ensures db == old(db) && currentPatientId == old(currentPatientId)
      ensures currentCaseId == old(currentCaseId) && planItems == old(planItems)
      ensures editingPlanIndex == old(editingPlanIndex)
    {
      searchPage := searchPage + 1;
      r := CaseSearch(db, form, searchPage);
    }

    /** on_prev_page: one page back, never before the first, then search. */
    method PrevPage(form: SearchForm) returns (r: Result<seq<int>, SearchError>)
      requires Valid()
      modifies this
      ensures Valid()
      ensures searchPage == if old(searchPage) == 0 then 0 else old(searchPage) - 1
      ensures r == CaseSearch(db, form, searchPage)
      ensures db == old(db) && currentPatientId == old(currentPatientId)
      ensures currentCaseId == old(currentCaseId) && planItems == old(planItems)
      ensures editingPlanIndex == old(editingPlanIndex)
    {
      searchPage := if searchPage == 0 then 0 else searchPage - 1;
      r := CaseSearch(db, form, searchPage);
    }

    /** on_search_clear: empty filters, first page, then search. */
    method ClearSearch() returns (r: Result<seq<int>, SearchError>)
      requires Valid()
      modifies this
      ensures Valid()
      ensures searchPage == 0
      ensures r == CaseSearch(db, SearchForm("", "", "", "", ""), 0)
      ensures r.Ok? && |CaseResults(db, CaseFilter("", "", None, None, ""))| <= PageSize ==>
                forall id :: id in db.cases && db.cases[id].patientId in db.patients <==> id in r.value
      ensures db == old(db) && currentPatientId == old(currentPatientId)
      ensures currentCaseId == old(currentCaseId) && planItems == old(planItems)
      ensures editingPlanIndex == old(editingPlanIndex)
    {
      searchPage := 0;
      r := CaseSearch(db, SearchForm("", "", "", "", ""), 0);
      CaseResultsSpec(db, CaseFilter("", "", None, None, ""));
    }
  }

  /** What the save block of on_save_case leaves behind, from the tables
      `t`, the current case, the patient `pid`, the plan list and the search
      page before it, for the validation outcome `v`: an invalid form stops
      with its message and changes nothing; a valid one commits exactly when
      SaveCommits holds, and then the case and its plan are saved, the saved
      case is current and the search goes back to the first page; otherwise
      the tables stay as they were, and the current case is the id of a row
      that the rollback removed when the INSERT had already run. */
  ghost predicate CaseSaveOutcome(t: Tables, current: Option<int>, pid: int, items: seq<PlanItem>,
                                  page: nat, v: Result<CaseFields, CaseFormError>,
                                  t': Tables, current': Option<int>, page': nat,
                                  error: Option<SaveCaseError>)
    requires forall k :: 0 <= k < |items| ==> WellFormedItem(items[k])
  {
    && (v.Err? ==> error == Some(FormError(v.error)) && t' == t && current' == current && page' == page)
    && (v.Ok? ==>
          && (error.None? <==> SaveCommits(t, current, pid, v.value, items))
          && (error == Some(DatabaseError(UniqueViolation)) <==>
                InSqlRange(v.value.opNumber) && OpConflict(t, current, v.value.opNumber))
          && (error == Some(DatabaseError(ForeignKeyViolation)) ==>
                current.Some? && current.value !in t.cases)
          && (error.Some? ==>
                && error.value.DatabaseError? && t' == t && page' == page
                && current' == if CaseInsertRuns(t, current, pid, v.value) then Some(t.caseSeq + 1)
                               else current)
          && (error.Some? && CaseInsertRuns(t, current, pid, v.value) ==> current'.value !in t'.cases)
          && (error.None? ==>
                && current'.Some? && page' == 0
                && CaseSaved(t, t', current, pid, v.value, items, current'.value)
                && |FromRows(PlanRowsOf(t', current'.value))| == |items|
                && (forall k :: 0 <= k < |items| ==>
                      FromRows(PlanRowsOf(t', current'.value))[k] == Canonical(items[k]))))
  }

  /** The outcome of a committed save block. */
  lemma CommittedSave(t: Tables, current: Option<int>, pid: int, items: seq<PlanItem>, page: nat,
                      fields: CaseFields, t': Tables, cid: int)
    requires forall k :: 0 <= k < |items| ==> WellFormedItem(items[k])
    requires SaveCommits(t, current, pid, fields, items)
    requires CaseSaved(t, t', current, pid, fields, items, cid)
    ensures CaseSaveOutcome(t, current, pid, items, page, Ok(fields), t', Some(cid), 0, None)
  {
    SaveThenLoadItems(t, t', current, pid, fields, items, cid);
  }

  /** The outcome of a save block that rolled back with error e. */
  lemma FailedSave(t: Tables, current: Option<int>, pid: int, items: seq<PlanItem>, page: nat,
                   fields: CaseFields, e: DbError, held: Option<int>)
    requires forall k :: 0 <= k < |items| ==> WellFormedItem(items[k])
    requires pid in t.patients && !SaveCommits(t, current, pid, fields, items)
    requires e == UniqueViolation <==> InSqlRange(fields.opNumber) && OpConflict(t, current, fields.opNumber)
    requires e == ForeignKeyViolation ==>
               (current.None? && pid !in t.patients) || !CaseRowAfter(t, current)
    requires held == if CaseInsertRuns(t, current, pid, fields) then Some(t.caseSeq + 1) else current
    requires CaseInsertRuns(t, current, pid, fields) ==> t.caseSeq + 1 !in t.cases
    ensures CaseSaveOutcome(t, current, pid, items, page, Ok(fields), t, held, page,
                            Some(DatabaseError(e)))
  {
  }

  /** A committed save keeps every stored case date a calendar date. */
  lemma CaseDatesKept(t: Tables, t': Tables, current: Option<int>, pid: int,
                      fields: CaseFields, items: seq<PlanItem>, cid: int)
    requires forall k :: 0 <= k < |items| ==> WellFormedItem(items[k])
    requires CaseDatesParse(t) && ParseDate(fields.caseDate).Some?
    requires CaseSaved(t, t', current, pid, fields, items, cid)
    ensures CaseDatesParse(t')
  {
  }
}
