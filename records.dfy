/** The rows of the three tables, the raw form inputs the handlers read, and
    the validation that turns the one into the other (clinic_app_v1.py). */
module Records {
  import opened Wrappers
  import opened Text
  import opened Dates

  // ---------------------------------------------------------------------------
  // Rows
  // ---------------------------------------------------------------------------

  /** A row of `patients` without its id. Every column is written from a
      stripped form field, so none is ever NULL. */
  datatype Patient = Patient(
    first: string, last: string, gender: string, dob: string,
    phone: string, email: string, address: string)

  /** The columns of `cases` that a save writes (everything except the id,
      the patient and the creation stamp). */
  datatype CaseFields = CaseFields(
    opNumber: int, caseDate: string, followUp: Option<string>,
    status: string, closedDate: Option<string>,
    chiefComplaint: string, medicalHistory: string, dentalHistory: string,
    examination: string, diagnosis: string,
    consentObtained: bool, consentDate: Option<string>, consentFile: Option<string>,
    bp: string, hr: string, temp: string, weight: string)

  /** A row of `cases` without its id: the owning patient and the saved fields. */
  datatype CaseRow = CaseRow(patientId: int, fields: CaseFields)

  /** An entry of the in-memory plan list: every value is a string. */
  datatype PlanItem = PlanItem(
    itemType: string, name: string, dosage: string, frequency: string,
    duration: string, start: string, end: string, status: string, notes: string)

  /** A row of `treatment_plans` without its id. */
  datatype PlanRow = PlanRow(
    caseId: int, itemType: string, name: string, dosage: string, frequency: string,
    durationDays: Option<int>, startDate: Option<string>, endDate: Option<string>,
    status: string, notes: string)

  // ---------------------------------------------------------------------------
  // Form inputs, exactly as typed
  // ---------------------------------------------------------------------------

  datatype PatientForm = PatientForm(
    first: string, last: string, gender: string, dob: string,
    phone: string, email: string, address: string)

  datatype CaseForm = CaseForm(
    opNumber: string, caseDate: string, followUp: string, status: string,
    chiefComplaint: string, medicalHistory: string, dentalHistory: string,
    examination: string, diagnosis: string,
    consentObtained: bool, consentDate: string, consentFile: string,
    bp: string, hr: string, temp: string, weight: string)

  datatype PlanForm = PlanForm(
    itemType: string, name: string, dosage: string, frequency: string,
    duration: string, start: string, status: string, notes: string)

  // ---------------------------------------------------------------------------
  // Patient validation (on_save_patient)
  // ---------------------------------------------------------------------------

  datatype PatientError = FirstNameRequired | LastNameRequired | BadDateOfBirth

  /** A date field that is either left empty or holds a date. */
  predicate OptionalDate(s: string) {
    s == "" || ParseDate(s).Some?
  }

  /** The checks of on_save_patient in their order: first name, last name,
      then the date of birth when one is given; on success the row to write,
      every field stripped. */
  function ValidatePatient(f: PatientForm): (r: Result<Patient, PatientError>)
    ensures r.Ok? <==> Trim(f.first) != "" && Trim(f.last) != "" && OptionalDate(Trim(f.dob))
    ensures r.Err? && r.error == FirstNameRequired <==> Trim(f.first) == ""
    ensures r.Err? && r.error == LastNameRequired <==> Trim(f.first) != "" && Trim(f.last) == ""
    ensures r.Ok? ==> r.value == Patient(Trim(f.first), Trim(f.last), Trim(f.gender),
                                         Trim(f.dob), Trim(f.phone), Trim(f.email),
                                         Trim(f.address))
  {
    if Trim(f.first) == "" then Err(FirstNameRequired)
    else if Trim(f.last) == "" then Err(LastNameRequired)
    else if !OptionalDate(Trim(f.dob)) then Err(BadDateOfBirth)
    else Ok(Patient(Trim(f.first), Trim(f.last), Trim(f.gender), Trim(f.dob),
                    Trim(f.phone), Trim(f.email), Trim(f.address)))
  }

  /** The inputs a load fills in from a patient row (`x or ""`). */
  function PatientFormOf(p: Patient): (f: PatientForm)
    ensures f.first == p.first && f.last == p.last && f.phone == p.phone
  {
    PatientForm(p.first, p.last, p.gender, p.dob, p.phone, p.email, p.address)
  }

  /** A saved patient, loaded back into the form and saved again, is the
      same row. */
  lemma PatientFormRoundTrip(f: PatientForm, p: Patient)
    requires ValidatePatient(f) == Ok(p)
    ensures ValidatePatient(PatientFormOf(p)) == Ok(p)
  {
    TrimIdempotent(f.first);
    TrimIdempotent(f.last);
    TrimIdempotent(f.gender);
    TrimIdempotent(f.dob);
    TrimIdempotent(f.phone);
    TrimIdempotent(f.email);
    TrimIdempotent(f.address);
  }

  // ---------------------------------------------------------------------------
  // Case validation (on_save_case, after the patient check)
  // ---------------------------------------------------------------------------

  datatype CaseFormError =
    | OpNumberRequired | OpNumberNotPositive | ChiefComplaintRequired
    | BadCaseDate | BadFollowUpDate

  /** `safe_str(v or default)`: an empty field takes the default before it is
      stripped, a field of blanks does not. */
  function OrDefault(v: string, default: string): (r: string)
    ensures v == "" ==> r == Trim(default)
    ensures v != "" ==> r == Trim(v)
  {
    Trim(if v == "" then default else v)
  }

  /** `x or None` for a stripped string. */
  function NoneIfEmpty(s: string): (r: Option<string>)
    ensures r.None? <==> s == ""
    ensures OrEmpty(r) == s
  {
    if s == "" then None else Some(s)
  }

  /** The case date a save uses: the field, or today when it is empty. */
  function CaseDateOf(f: CaseForm, today: Date): string
    requires ValidDate(today)
  {
    OrDefault(f.caseDate, FormatDate(today))
  }

  /** The OP number as a positive integer, when it is one. */
  predicate PositiveOpNumber(s: string) {
    ParseInt(s).Some? && ParseInt(s).value > 0
  }

  /** The checks of on_save_case in their order, and on success the columns
      written: the status defaults to "Open", `closed_date` is today exactly
      when the status is "Closed" and NULL otherwise, and empty optional
      fields become NULL. */
  function ValidateCase(f: CaseForm, today: Date): (r: Result<CaseFields, CaseFormError>)
    requires ValidDate(today)
    ensures r.Ok? <==>
              && PositiveOpNumber(Trim(f.opNumber)) && Trim(f.chiefComplaint) != ""
              && ParseDate(CaseDateOf(f, today)).Some? && OptionalDate(Trim(f.followUp))
    ensures r.Err? && r.error == OpNumberRequired <==> Trim(f.opNumber) == ""
    ensures r.Err? && r.error == OpNumberNotPositive <==>
              Trim(f.opNumber) != "" && !PositiveOpNumber(Trim(f.opNumber))
    ensures r.Err? && r.error == ChiefComplaintRequired <==>
              PositiveOpNumber(Trim(f.opNumber)) && Trim(f.chiefComplaint) == ""
    ensures r.Err? && r.error == BadCaseDate <==>
              && PositiveOpNumber(Trim(f.opNumber)) && Trim(f.chiefComplaint) != ""
              && ParseDate(CaseDateOf(f, today)).None?
    ensures r.Err? && r.error == BadFollowUpDate <==>
              && PositiveOpNumber(Trim(f.opNumber)) && Trim(f.chiefComplaint) != ""
              && ParseDate(CaseDateOf(f, today)).Some? && !OptionalDate(Trim(f.followUp))
    ensures r.Ok? ==>
              && r.value.opNumber > 0
              && Some(r.value.opNumber) == ParseInt(Trim(f.opNumber))
              && r.value.caseDate == CaseDateOf(f, today)
              && ParseDate(r.value.caseDate).Some?
              && r.value.followUp == NoneIfEmpty(Trim(f.followUp))
              && (r.value.followUp.Some? ==> ParseDate(r.value.followUp.value).Some?)
              && r.value.chiefComplaint == Trim(f.chiefComplaint) != ""
              && r.value.status == OrDefault(f.status, "Open")
              && (r.value.closedDate == Some(FormatDate(today)) <==> r.value.status == "Closed")
              && (r.value.closedDate.None? <==> r.value.status != "Closed")
    ensures r.Ok? ==>
              && r.value.medicalHistory == Trim(f.medicalHistory)
              && r.value.dentalHistory == Trim(f.dentalHistory)
              && r.value.examination == Trim(f.examination)
              && r.value.diagnosis == Trim(f.diagnosis)
              && r.value.consentObtained == f.consentObtained
              && r.value.consentDate == NoneIfEmpty(Trim(f.consentDate))
              && r.value.consentFile == NoneIfEmpty(Trim(f.consentFile))
              && r.value.bp == Trim(f.bp) && r.value.hr == Trim(f.hr)
              && r.value.temp == Trim(f.temp) && r.value.weight == Trim(f.weight)
  {
    var op := Trim(f.opNumber);
    if op == "" then Err(OpNumberRequired)
    else if !PositiveOpNumber(op) then Err(OpNumberNotPositive)
    else if Trim(f.chiefComplaint) == "" then Err(ChiefComplaintRequired)
    else if ParseDate(CaseDateOf(f, today)).None? then Err(BadCaseDate)
    else if !OptionalDate(Trim(f.followUp)) then Err(BadFollowUpDate)
    else Ok(Columns(f, today))
  }

  /** The columns a validated case form is written as. */
  function Columns(f: CaseForm, today: Date): CaseFields
    requires ValidDate(today) && PositiveOpNumber(Trim(f.opNumber))
  {
    var status := OrDefault(f.status, "Open");
    CaseFields(
      ParseInt(Trim(f.opNumber)).value, CaseDateOf(f, today), NoneIfEmpty(Trim(f.followUp)),
      status, if status == "Closed" then Some(FormatDate(today)) else None,
      Trim(f.chiefComplaint), Trim(f.medicalHistory), Trim(f.dentalHistory),
      Trim(f.examination), Trim(f.diagnosis),
      f.consentObtained, NoneIfEmpty(Trim(f.consentDate)), NoneIfEmpty(Trim(f.consentFile)),
      Trim(f.bp), Trim(f.hr), Trim(f.temp), Trim(f.weight))
  }

  /** `x or ""` for a nullable column. */
  function OrEmpty(s: Option<string>): (r: string)
    ensures s.Some? ==> r == s.value
    ensures s.None? ==> r == ""
  {
    match s
    case None => ""
    case Some(v) => v
  }

  /** The inputs load_case_by_id fills in from a case row: the OP number as
      str() (empty for 0), the case date or today, the status or "Open". */
  function CaseFormOf(c: CaseFields, today: Date): (f: CaseForm)
    requires ValidDate(today)
    ensures f.opNumber == (if c.opNumber != 0 then IntToString(c.opNumber) else "")
    ensures f.status == (if c.status == "" then "Open" else c.status)
    ensures f.caseDate == (if c.caseDate == "" then FormatDate(today) else c.caseDate)
  {
    CaseForm(
      if c.opNumber != 0 then IntToString(c.opNumber) else "",
      if c.caseDate == "" then FormatDate(today) else c.caseDate,
      OrEmpty(c.followUp), if c.status == "" then "Open" else c.status,
      c.chiefComplaint, c.medicalHistory, c.dentalHistory, c.examination, c.diagnosis,
      c.consentObtained, OrEmpty(c.consentDate), OrEmpty(c.consentFile),
      c.bp, c.hr, c.temp, c.weight)
  }

  /** Loading a saved case and saving it again on some later day writes the
      same columns, except that `closed_date` is stamped afresh: a closed
      case takes the day of the new save as its closing date. */
  lemma CaseFormRoundTrip(f: CaseForm, saved: Date, c: CaseFields, later: Date)
    requires ValidDate(saved) && ValidDate(later)
    requires ValidateCase(f, saved) == Ok(c) && c.status != ""
    ensures ValidateCase(CaseFormOf(c, later), later) ==
              Ok(c.(closedDate := if c.status == "Closed" then Some(FormatDate(later)) else None))
  {
    LoadedCaseValidates(f, saved, c, later);
    var g := CaseFormOf(c, later);
    assert ValidateCase(g, later) == Ok(Columns(g, later));
    assert c == Columns(f, saved);
    ColumnsRoundTrip(f, saved, later);
  }

  /** The form a load fills in from a saved case passes validation again. */
  lemma LoadedCaseValidates(f: CaseForm, saved: Date, c: CaseFields, later: Date)
    requires ValidDate(saved) && ValidDate(later)
    requires ValidateCase(f, saved) == Ok(c)
    ensures ValidateCase(CaseFormOf(c, later), later).Ok?
  {
    var g := CaseFormOf(c, later);
    assert PositiveOpNumber(Trim(g.opNumber)) by {
      IntToStringUnpadded(c.opNumber);
      IntToStringRoundTrip(c.opNumber);
    }
    assert Trim(g.chiefComplaint) != "" by {
      TrimIdempotent(f.chiefComplaint);
    }
    assert ParseDate(CaseDateOf(g, later)).Some? by {
      TrimIdempotent(if f.caseDate == "" then FormatDate(saved) else f.caseDate);
      assert c.caseDate != "";
      assert CaseDateOf(g, later) == c.caseDate;
    }
    assert OptionalDate(Trim(g.followUp)) by {
      TrimIdempotent(f.followUp);
      assert Trim(g.followUp) == Trim(f.followUp);
    }
  }

  /** A nullable column loaded as `x or ""` and saved as `safe_str(x) or None`
      comes back as it was. */
  lemma NullableRoundTrip(s: string)
    ensures NoneIfEmpty(Trim(OrEmpty(NoneIfEmpty(Trim(s))))) == NoneIfEmpty(Trim(s))
  {
    TrimIdempotent(s);
  }

  lemma ColumnsRoundTrip(f: CaseForm, saved: Date, later: Date)
    requires ValidDate(saved) && ValidDate(later) && PositiveOpNumber(Trim(f.opNumber))
    requires PositiveOpNumber(Trim(CaseFormOf(Columns(f, saved), later).opNumber))
    requires Columns(f, saved).status != "" && Columns(f, saved).caseDate != ""
    ensures var c := Columns(f, saved);
            Columns(CaseFormOf(c, later), later) ==
              c.(closedDate := if c.status == "Closed" then Some(FormatDate(later)) else None)
  {
    var c := Columns(f, saved);
    var g := CaseFormOf(c, later);
    var r := Columns(g, later);
    assert r.opNumber == c.opNumber by {
      IntToStringUnpadded(c.opNumber);
      IntToStringRoundTrip(c.opNumber);
    }
    assert r.caseDate == c.caseDate by {
      TrimIdempotent(if f.caseDate == "" then FormatDate(saved) else f.caseDate);
    }
    assert r.status == c.status by {
      TrimIdempotent(if f.status == "" then "Open" else f.status);
    }
    assert r.followUp == c.followUp by { NullableRoundTrip(f.followUp); }
    assert r.consentDate == c.consentDate by { NullableRoundTrip(f.consentDate); }
    assert r.consentFile == c.consentFile by { NullableRoundTrip(f.consentFile); }
    assert r.chiefComplaint == c.chiefComplaint by { TrimIdempotent(f.chiefComplaint); }
    assert r.medicalHistory == c.medicalHistory by { TrimIdempotent(f.medicalHistory); }
    assert r.dentalHistory == c.dentalHistory by { TrimIdempotent(f.dentalHistory); }
    assert r.examination == c.examination by { TrimIdempotent(f.examination); }
    assert r.diagnosis == c.diagnosis by { TrimIdempotent(f.diagnosis); }
    assert r.bp == c.bp by { TrimIdempotent(f.bp); }
    assert r.hr == c.hr by { TrimIdempotent(f.hr); }
    assert r.temp == c.temp by { TrimIdempotent(f.temp); }
    assert r.weight == c.weight by { TrimIdempotent(f.weight); }
  }

  // ---------------------------------------------------------------------------
  // Plan items (on_add_plan, on_save_plan_changes, on_edit_plan)
  // ---------------------------------------------------------------------------

  datatype PlanError = NameRequired | BadStartDate | BadDuration

  /** A duration field that is empty or that int() accepts. */
  predicate OptionalInt(s: string) {
    s == "" || ParseInt(s).Some?
  }

  /** What every entry of the plan list satisfies: its duration converts to
      an integer when the case is saved. */
  predicate WellFormedItem(item: PlanItem) {
    OptionalInt(item.duration)
  }

  /** The end date of an item: calc_end_date of the start and int(duration)
      when a duration is given, empty otherwise. */
  function EndDateOf(start: string, duration: string): (r: string)
    requires OptionalInt(duration)
    ensures r != "" ==>
              && duration != "" && ParseDate(start).Some? && ParseDate(r).Some?
              && ToOrdinal(ParseDate(r).value) ==
                   ToOrdinal(ParseDate(start).value) + ParseInt(duration).value
    ensures r == "" <==>
              || duration == "" || start == "" || ParseInt(duration).value == 0
              || ParseDate(start).None?
              || !(1 <= ToOrdinal(ParseDate(start).value) + ParseInt(duration).value
                     <= ToOrdinal(LastDate))
  {
    if duration == "" then "" else CalcEndDate(start, ParseInt(duration).value)
  }

  /** The checks shared by "Add" and "Save Changes", in their order: a name,
      then a start date when one is given, then an integer duration when one
      is given. Type and status default to "Medication" and "Planned". */
  function BuildPlanItem(f: PlanForm): (r: Result<PlanItem, PlanError>)
    ensures r.Ok? <==> Trim(f.name) != "" && OptionalDate(Trim(f.start)) && OptionalInt(Trim(f.duration))
    ensures r.Err? && r.error == NameRequired <==> Trim(f.name) == ""
    ensures r.Err? && r.error == BadStartDate <==> Trim(f.name) != "" && !OptionalDate(Trim(f.start))
    ensures r.Ok? ==> WellFormedItem(r.value)
    ensures r.Ok? ==>
              && r.value.name == Trim(f.name) != ""
              && r.value.itemType == OrDefault(f.itemType, "Medication")
              && r.value.status == OrDefault(f.status, "Planned")
              && r.value.duration == Trim(f.duration)
              && r.value.start == Trim(f.start)
              && r.value.end == EndDateOf(r.value.start, r.value.duration)
              && r.value.dosage == Trim(f.dosage) && r.value.frequency == Trim(f.frequency)
              && r.value.notes == Trim(f.notes)
  {
    var name := Trim(f.name);
    var start := Trim(f.start);
    var duration := Trim(f.duration);
    if name == "" then Err(NameRequired)
    else if !OptionalDate(start) then Err(BadStartDate)
    else if !OptionalInt(duration) then Err(BadDuration)
    else Ok(PlanItem(
      OrDefault(f.itemType, "Medication"), name, Trim(f.dosage), Trim(f.frequency),
      duration, start, EndDateOf(start, duration), OrDefault(f.status, "Planned"),
      Trim(f.notes)))
  }

  /** The inputs on_edit_plan fills in from an item. */
  function FormOf(item: PlanItem): (f: PlanForm)
    ensures f.name == item.name && f.duration == item.duration && f.start == item.start
  {
    PlanForm(item.itemType, item.name, item.dosage, item.frequency,
             item.duration, item.start, item.status, item.notes)
  }

  /** Loading an item for editing and saving it unchanged gives the same item
      back, for any item "Add" produced whose type and status are not blank. */
  lemma EditUnchangedRoundTrip(f: PlanForm, item: PlanItem)
    requires BuildPlanItem(f) == Ok(item)
    requires item.itemType != "" && item.status != ""
    ensures BuildPlanItem(FormOf(item)) == Ok(item)
  {
    TrimIdempotent(f.name);
    TrimIdempotent(f.start);
    TrimIdempotent(f.duration);
    TrimIdempotent(f.dosage);
    TrimIdempotent(f.frequency);
    TrimIdempotent(f.notes);
    TrimIdempotent(if f.itemType == "" then "Medication" else f.itemType);
    TrimIdempotent(if f.status == "" then "Planned" else f.status);
  }

  // ---------------------------------------------------------------------------
  // Plan items to rows and back (on_save_case, load_case_by_id)
  // ---------------------------------------------------------------------------

  /** The row on_save_case inserts for an item: `int(duration)` when a
      duration is given, and NULL for an empty start or end. */
  function ToRow(caseId: int, item: PlanItem): (row: PlanRow)
    requires WellFormedItem(item)
    ensures row.caseId == caseId && row.name == item.name
    ensures row.durationDays.None? <==> item.duration == ""
    ensures row.durationDays.Some? ==> Some(row.durationDays.value) == ParseInt(item.duration)
  {
    PlanRow(caseId, item.itemType, item.name, item.dosage, item.frequency,
            if item.duration == "" then None else Some(ParseInt(item.duration).value),
            NoneIfEmpty(item.start), NoneIfEmpty(item.end), item.status, item.notes)
  }

  /** The rows for a whole plan list, in list order. */
  function ToRows(caseId: int, items: seq<PlanItem>): (rows: seq<PlanRow>)
    requires forall k :: 0 <= k < |items| ==> WellFormedItem(items[k])
    ensures |rows| == |items|
    ensures forall k :: 0 <= k < |items| ==> rows[k] == ToRow(caseId, items[k])
  {
    if items == [] then [] else [ToRow(caseId, items[0])] + ToRows(caseId, items[1..])
  }

  /** The text load_case_by_id shows for a stored duration:
      `str(duration_days or "")`, so a stored 0 comes back empty. */
  function DurationText(d: Option<int>): (s: string)
    ensures OptionalInt(s)
    ensures s == "" <==> d.None? || d.value == 0
    ensures s != "" ==> ParseInt(s) == d
  {
    match d
    case None => ""
    case Some(n) =>
      if n == 0 then "" else
        IntToStringRoundTrip(n);
        IntToString(n)
  }

  /** The item load_case_by_id rebuilds from a row (NULL becomes ""). */
  function FromRow(row: PlanRow): (item: PlanItem)
    ensures WellFormedItem(item)
    ensures item.name == row.name && item.duration == DurationText(row.durationDays)
  {
    PlanItem(row.itemType, row.name, row.dosage, row.frequency,
             DurationText(row.durationDays),
             match row.startDate case None => "" case Some(s) => s,
             match row.endDate case None => "" case Some(s) => s,
             row.status, row.notes)
  }

  /** The items for a sequence of rows, in row order. */
  function FromRows(rows: seq<PlanRow>): (items: seq<PlanItem>)
    ensures |items| == |rows|
    ensures forall k :: 0 <= k < |rows| ==> items[k] == FromRow(rows[k])
  {
    if rows == [] then [] else [FromRow(rows[0])] + FromRows(rows[1..])
  }

  /** The spelling a duration has after a save and a reload: the integer it
      denotes in Python's str() form, and empty for none or for zero. */
  function CanonicalDuration(s: string): (c: string)
    requires OptionalInt(s)
    ensures OptionalInt(c)
    ensures c == "" <==> s == "" || ParseInt(s).value == 0
    ensures c != "" ==> ParseInt(c) == ParseInt(s)
  {
    if s == "" then "" else DurationText(Some(ParseInt(s).value))
  }

  /** An item as it reads after a save and a reload. */
  function Canonical(item: PlanItem): PlanItem
    requires WellFormedItem(item)
  {
    item.(duration := CanonicalDuration(item.duration))
  }

  /** Saving an item and loading it back changes nothing but the spelling of
      its duration. */
  lemma RowRoundTrip(caseId: int, item: PlanItem)
    requires WellFormedItem(item)
    ensures FromRow(ToRow(caseId, item)) == Canonical(item)
  {
  }

  /** The same for a whole plan list, in order. */
  lemma {:induction false} RowsRoundTrip(caseId: int, items: seq<PlanItem>)
    requires forall k :: 0 <= k < |items| ==> WellFormedItem(items[k])
    ensures |FromRows(ToRows(caseId, items))| == |items|
    ensures forall k :: 0 <= k < |items| ==>
              FromRows(ToRows(caseId, items))[k] == Canonical(items[k])
  {
    forall k | 0 <= k < |items|
      ensures FromRows(ToRows(caseId, items))[k] == Canonical(items[k])
    {
      RowRoundTrip(caseId, items[k]);
    }
  }

  /** Reloading is stable: an item that has been through one save and reload
      comes back unchanged from the next. */
  lemma CanonicalStable(item: PlanItem)
    requires WellFormedItem(item)
    ensures WellFormedItem(Canonical(item)) && Canonical(Canonical(item)) == Canonical(item)
  {
    var d := item.duration;
    if d != "" && ParseInt(d).value != 0 {
      IntToStringRoundTrip(ParseInt(d).value);
    }
  }
}
