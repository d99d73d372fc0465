/** The database file of clinic_app_v1.py: the tables `patients`, `cases` and
    `treatment_plans` as maps from row id to row, the AUTOINCREMENT counters,
    the constraints declared by init_db, and the statements the handlers run. */
module Database {
  import opened Wrappers
  import opened Text
  import opened Dates
  import opened Records

  /** The three tables and, per table, the largest id AUTOINCREMENT has
      handed out (the table's entry in sqlite_sequence). */
  datatype Tables = Tables(
    patients: map<int, Patient>, cases: map<int, CaseRow>, plans: map<int, PlanRow>,
    patientSeq: nat, caseSeq: nat, planSeq: nat)

  /** The file right after init_db has created it. */
  const EmptyTables := Tables(map[], map[], map[], 0, 0, 0)

  /** Why a statement fails: a UNIQUE constraint without a conflict clause, a
      FOREIGN KEY constraint, or a Python int too wide for a 64-bit column. */
  datatype DbError = UniqueViolation | ForeignKeyViolation | IntegerOverflow

  /** The integers sqlite3 can bind to a parameter. */
  predicate InSqlRange(n: int) {
    -0x8000_0000_0000_0000 <= n <= 0x7FFF_FFFF_FFFF_FFFF
  }

  // ---------------------------------------------------------------------------
  // The schema's constraints
  // ---------------------------------------------------------------------------

  predicate IdsUpTo<T>(m: map<int, T>, last: nat) {
    forall id :: id in m ==> 1 <= id <= last
  }

  /** `op_number INTEGER UNIQUE`. */
  predicate UniqueOpNumbers(cases: map<int, CaseRow>) {
    forall a, b :: a in cases && b in cases && a != b ==>
      cases[a].fields.opNumber != cases[b].fields.opNumber
  }

  /** `UNIQUE(phone)`. */
  predicate UniquePhones(patients: map<int, Patient>) {
    forall a, b :: a in patients && b in patients && a != b ==>
      patients[a].phone != patients[b].phone
  }

  /** What the database guarantees about its own contents: ids come from the
      counters, both foreign keys point at existing rows, and the two UNIQUE
      columns hold no value twice. */
  predicate Schema(t: Tables) {
    && IdsUpTo(t.patients, t.patientSeq)
    && IdsUpTo(t.cases, t.caseSeq)
    && IdsUpTo(t.plans, t.planSeq)
    && (forall c :: c in t.cases ==> t.cases[c].patientId in t.patients)
    && (forall k :: k in t.plans ==> t.plans[k].caseId in t.cases)
    && UniqueOpNumbers(t.cases)
    && UniquePhones(t.patients)
  }

  lemma EmptySchema()
    ensures Schema(EmptyTables)
  {
  }

  // ---------------------------------------------------------------------------
  // patients
  // ---------------------------------------------------------------------------

  /** Some patient other than `except` has this phone. */
  predicate PhoneUsedByOther(t: Tables, phone: string, except: Option<int>) {
    exists id :: id in t.patients && Some(id) != except && t.patients[id].phone == phone
  }

  /** `INSERT INTO patients …` under `ON CONFLICT IGNORE`, followed by
      `last_insert_rowid()` on the same fresh connection: a patient whose
      phone is already on file is silently not inserted and the id read back
      is 0; otherwise the row gets the next id and that id is returned. */
  function InsertPatient(t: Tables, p: Patient): (r: (Tables, int))
    requires IdsUpTo(t.patients, t.patientSeq)
    ensures r.1 == 0 <==> PhoneUsedByOther(t, p.phone, None)
    ensures r.1 == 0 ==> r.0 == t
    ensures r.1 != 0 ==>
              && r.1 !in t.patients && r.1 > 0
              && r.0 == t.(patients := t.patients[r.1 := p], patientSeq := r.1)
    ensures Schema(t) ==> Schema(r.0)
  {
    if PhoneUsedByOther(t, p.phone, None) then (t, 0)
    else
      var id := t.patientSeq + 1;
      (t.(patients := t.patients[id := p], patientSeq := id), id)
  }

  /** `UPDATE patients SET … WHERE id=?` under `ON CONFLICT IGNORE`: nothing
      changes when no row has that id or when another patient has the phone. */
  function UpdatePatient(t: Tables, id: int, p: Patient): (r: Tables)
    ensures r != t ==> id in t.patients && !PhoneUsedByOther(t, p.phone, Some(id))
    ensures id in t.patients && !PhoneUsedByOther(t, p.phone, Some(id)) ==>
              r == t.(patients := t.patients[id := p])
    ensures Schema(t) ==> Schema(r)
  {
    if id in t.patients && !PhoneUsedByOther(t, p.phone, Some(id)) then
      t.(patients := t.patients[id := p])
    else t
  }

  /** The cases of one patient. */
  function CasesOf(t: Tables, pid: int): set<int> {
    set c | c in t.cases && t.cases[c].patientId == pid
  }

  /** `DELETE FROM patients WHERE id = ?` with foreign keys on: the
      patient's cases go with it and, through them, their plan rows. */
  function DeletePatient(t: Tables, pid: int): (r: Tables)
    ensures r.patients.Keys == t.patients.Keys - {pid}
    ensures forall c :: c in r.cases <==> c in t.cases && t.cases[c].patientId != pid
    ensures forall k :: k in r.plans <==> k in t.plans && t.plans[k].caseId !in CasesOf(t, pid)
    ensures forall id :: id in r.patients ==> r.patients[id] == t.patients[id]
    ensures forall c :: c in r.cases ==> r.cases[c] == t.cases[c]
    ensures forall k :: k in r.plans ==> r.plans[k] == t.plans[k]
    ensures (r.patientSeq, r.caseSeq, r.planSeq) == (t.patientSeq, t.caseSeq, t.planSeq)
  {
    var gone := CasesOf(t, pid);
    t.(patients := t.patients - {pid},
       cases := map c | c in t.cases && c !in gone :: t.cases[c],
       plans := map k | k in t.plans && t.plans[k].caseId !in gone :: t.plans[k])
  }

  /** After the cascade no row refers to the deleted patient, directly or
      through one of its cases, and the constraints still hold. */
  lemma DeletePatientCascade(t: Tables, pid: int)
    requires Schema(t)
    ensures var r := DeletePatient(t, pid);
      && Schema(r)
      && pid !in r.patients
      && (forall c :: c in r.cases ==> r.cases[c].patientId != pid)
      && (forall k :: k in r.plans ==> r.plans[k].caseId in r.cases)
      && (forall k :: k in t.plans && k !in r.plans ==>
            t.cases[t.plans[k].caseId].patientId == pid)
  {
    var r := DeletePatient(t, pid);
    forall k | k in r.plans ensures r.plans[k].caseId in r.cases {
      assert t.plans[k].caseId in t.cases;
    }
  }

  // ---------------------------------------------------------------------------
  // cases
  // ---------------------------------------------------------------------------

  /** Some case other than `except` has this OP number. */
  predicate OpUsedByOther(t: Tables, op: int, except: Option<int>) {
    exists c :: c in t.cases && Some(c) != except && t.cases[c].fields.opNumber == op
  }

  /** `INSERT INTO cases …` then `last_insert_rowid()`: refused when the OP
      number is on file (checked first) or the patient does not exist. */
  function InsertCase(t: Tables, pid: int, fields: CaseFields): (r: Result<(Tables, int), DbError>)
    requires IdsUpTo(t.cases, t.caseSeq)
    ensures r.Err? <==> OpUsedByOther(t, fields.opNumber, None) || pid !in t.patients
    ensures r.Err? ==> (r.error == UniqueViolation <==> OpUsedByOther(t, fields.opNumber, None))
    ensures r.Err? ==> r.error != IntegerOverflow
    ensures r.Ok? ==>
              && r.value.1 !in t.cases && r.value.1 == t.caseSeq + 1
              && r.value.0 == t.(cases := t.cases[r.value.1 := CaseRow(pid, fields)],
                                 caseSeq := r.value.1)
    ensures r.Ok? && Schema(t) ==> Schema(r.value.0)
  {
    if OpUsedByOther(t, fields.opNumber, None) then Err(UniqueViolation)
    else if pid !in t.patients then Err(ForeignKeyViolation)
    else
      var id := t.caseSeq + 1;
      Ok((t.(cases := t.cases[id := CaseRow(pid, fields)], caseSeq := id), id))
  }

  /** `UPDATE cases SET … WHERE id=?`: a missing id updates no row and is no
      error; otherwise refused when another case has the OP number. The owning
      patient is not among the columns set. */
  function UpdateCase(t: Tables, cid: int, fields: CaseFields): (r: Result<Tables, DbError>)
    ensures r.Err? <==> cid in t.cases && OpUsedByOther(t, fields.opNumber, Some(cid))
    ensures r.Err? ==> r.error == UniqueViolation
    ensures r.Ok? && cid !in t.cases ==> r.value == t
    ensures r.Ok? && cid in t.cases ==>
              r.value == t.(cases := t.cases[cid := CaseRow(t.cases[cid].patientId, fields)])
    ensures r.Ok? && Schema(t) ==> Schema(r.value)
  {
    if cid !in t.cases then Ok(t)
    else if OpUsedByOther(t, fields.opNumber, Some(cid)) then Err(UniqueViolation)
    else Ok(t.(cases := t.cases[cid := CaseRow(t.cases[cid].patientId, fields)]))
  }

  /** `UPDATE cases SET case_status = 'Closed', closed_date = ? WHERE id = ?`:
      only those two columns of that one row change. */
  function CloseCase(t: Tables, cid: int, today: Date): (r: Tables)
    requires ValidDate(today)
    ensures cid !in t.cases ==> r == t
    ensures cid in t.cases ==>
              && r.cases.Keys == t.cases.Keys
              && r.cases[cid].fields.status == "Closed"
              && r.cases[cid].fields.closedDate == Some(FormatDate(today))
              && r.cases[cid] == t.cases[cid].(fields := t.cases[cid].fields.(
                                                 status := "Closed",
                                                 closedDate := Some(FormatDate(today))))
              && (forall c :: c in t.cases && c != cid ==> r.cases[c] == t.cases[c])
              && r == t.(cases := r.cases)
    ensures Schema(t) ==> Schema(r)
  {
    if cid !in t.cases then t
    else
      var row := t.cases[cid];
      t.(cases := t.cases[cid := row.(fields := row.fields.(
                                         status := "Closed",
                                         closedDate := Some(FormatDate(today))))])
  }

  // ---------------------------------------------------------------------------
  // treatment_plans
  // ---------------------------------------------------------------------------

  /** The row with id k when it belongs to case cid, as a 0- or 1-element list. */
  function RowAt(plans: map<int, PlanRow>, cid: int, k: int): seq<PlanRow> {
    if k in plans && plans[k].caseId == cid then [plans[k]] else []
  }

  /** The rows of case cid among ids 1..n, by ascending id. */
  function RowsUpTo(plans: map<int, PlanRow>, cid: int, n: nat): seq<PlanRow> {
    if n == 0 then [] else RowsUpTo(plans, cid, n - 1) + RowAt(plans, cid, n)
  }

  /** `SELECT … FROM treatment_plans WHERE case_id = ? ORDER BY id`. */
  function PlanRowsOf(t: Tables, cid: int): seq<PlanRow> {
    RowsUpTo(t.plans, cid, t.planSeq)
  }

  /** The rows of a case depend only on the rows that carry its id. */
  lemma {:induction false} RowsFrame(p1: map<int, PlanRow>, p2: map<int, PlanRow>, cid: int, n: nat)
    requires forall k :: 1 <= k <= n ==> RowAt(p1, cid, k) == RowAt(p2, cid, k)
    ensures RowsUpTo(p1, cid, n) == RowsUpTo(p2, cid, n)
  {
    if n > 0 { RowsFrame(p1, p2, cid, n - 1); }
  }

  lemma {:induction false} NoRows(plans: map<int, PlanRow>, cid: int, n: nat)
    requires forall k :: 1 <= k <= n ==> RowAt(plans, cid, k) == []
    ensures RowsUpTo(plans, cid, n) == []
  {
    if n > 0 { NoRows(plans, cid, n - 1); }
  }

  /** `DELETE FROM treatment_plans WHERE case_id = ?`. */
  function DeletePlansOf(t: Tables, cid: int): (r: Tables)
    ensures forall k :: k in r.plans <==> k in t.plans && t.plans[k].caseId != cid
    ensures forall k :: k in r.plans ==> r.plans[k] == t.plans[k]
    ensures r == t.(plans := r.plans)
  {
    t.(plans := map k | k in t.plans && t.plans[k].caseId != cid :: t.plans[k])
  }

  /** After the delete the case has no plan rows and every other case keeps
      exactly the rows it had. */
  lemma DeletePlansRows(t: Tables, cid: int)
    ensures PlanRowsOf(DeletePlansOf(t, cid), cid) == []
    ensures forall c :: c != cid ==> PlanRowsOf(DeletePlansOf(t, cid), c) == PlanRowsOf(t, c)
    ensures Schema(t) ==> Schema(DeletePlansOf(t, cid))
  {
    var r := DeletePlansOf(t, cid);
    NoRows(r.plans, cid, r.planSeq);
    forall c | c != cid ensures PlanRowsOf(r, c) == PlanRowsOf(t, c) {
      RowsFrame(r.plans, t.plans, c, t.planSeq);
    }
  }

  /** The duration of a row binds as a 64-bit integer. */
  predicate DurationFits(row: PlanRow) {
    row.durationDays.None? || InSqlRange(row.durationDays.value)
  }

  /** The duration of an item binds as a 64-bit integer once converted. */
  predicate ItemFits(item: PlanItem)
    requires WellFormedItem(item)
  {
    item.duration == "" || InSqlRange(ParseInt(item.duration).value)
  }

  lemma ItemFitsRow(cid: int, item: PlanItem)
    requires WellFormedItem(item)
    ensures DurationFits(ToRow(cid, item)) <==> ItemFits(item)
  {
  }

  predicate AllItemsFit(items: seq<PlanItem>)
    requires forall k :: 0 <= k < |items| ==> WellFormedItem(items[k])
  {
    forall k :: 0 <= k < |items| ==> ItemFits(items[k])
  }

  lemma RowsFit(cid: int, items: seq<PlanItem>)
    requires forall k :: 0 <= k < |items| ==> WellFormedItem(items[k])
    ensures AllItemsFit(items) ==> forall k :: 0 <= k < |items| ==> DurationFits(ToRows(cid, items)[k])
    ensures (forall k :: 0 <= k < |items| ==> DurationFits(ToRows(cid, items)[k])) ==> AllItemsFit(items)
  {
    var rows := ToRows(cid, items);
    forall k | 0 <= k < |items|
      ensures DurationFits(rows[k]) <==> ItemFits(items[k])
    {
      assert rows[k] == ToRow(cid, items[k]);
      ItemFitsRow(cid, items[k]);
    }
    assert AllItemsFit(items) == (forall k :: 0 <= k < |items| ==> ItemFits(items[k]));
  }

  /** `INSERT INTO treatment_plans …`: the binding of the duration is checked
      first, then the foreign key to the case. */
  function InsertPlan(t: Tables, row: PlanRow): (r: Result<Tables, DbError>)
    requires IdsUpTo(t.plans, t.planSeq)
    ensures r.Ok? <==> DurationFits(row) && row.caseId in t.cases
    ensures r.Err? ==> r.error == (if DurationFits(row) then ForeignKeyViolation else IntegerOverflow)
    ensures r.Ok? ==>
              && t.planSeq + 1 !in t.plans
              && r.value == t.(plans := t.plans[t.planSeq + 1 := row], planSeq := t.planSeq + 1)
  {
    if !DurationFits(row) then Err(IntegerOverflow)
    else if row.caseId !in t.cases then Err(ForeignKeyViolation)
    else Ok(t.(plans := t.plans[t.planSeq + 1 := row], planSeq := t.planSeq + 1))
  }

  /** An inserted row comes last among its case's rows; no other case's rows
      change. */
  lemma InsertPlanRows(t: Tables, row: PlanRow)
    requires IdsUpTo(t.plans, t.planSeq) && InsertPlan(t, row).Ok?
    ensures var r := InsertPlan(t, row).value;
      && PlanRowsOf(r, row.caseId) == PlanRowsOf(t, row.caseId) + [row]
      && (forall c :: c != row.caseId ==> PlanRowsOf(r, c) == PlanRowsOf(t, c))
      && IdsUpTo(r.plans, r.planSeq)
      && (Schema(t) ==> Schema(r))
  {
    var r := InsertPlan(t, row).value;
    forall c ensures RowsUpTo(r.plans, c, t.planSeq) == RowsUpTo(t.plans, c, t.planSeq) {
      RowsFrame(r.plans, t.plans, c, t.planSeq);
    }
  }

  /** The plan loop of on_save_case: one INSERT per item, in list order,
      stopping at the first that fails. */
  method InsertPlans(t: Tables, cid: int, items: seq<PlanItem>) returns (r: Result<Tables, DbError>)
    requires IdsUpTo(t.plans, t.planSeq)
    requires forall k :: 0 <= k < |items| ==> WellFormedItem(items[k])
    ensures r.Ok? <==> (|items| == 0 || cid in t.cases) && AllItemsFit(items)
    ensures r.Err? && cid in t.cases ==> r.error == IntegerOverflow
    ensures r.Err? && cid !in t.cases ==>
              r.error == if ItemFits(items[0]) then ForeignKeyViolation else IntegerOverflow
    ensures r.Ok? ==>
              && (r.value.patients, r.value.cases) == (t.patients, t.cases)
              && (r.value.patientSeq, r.value.caseSeq) == (t.patientSeq, t.caseSeq)
              && PlanRowsOf(r.value, cid) == PlanRowsOf(t, cid) + ToRows(cid, items)
              && (forall c :: c != cid ==> PlanRowsOf(r.value, c) == PlanRowsOf(t, c))
              && (Schema(t) ==> Schema(r.value))
  {
    var rows := ToRows(cid, items);
    var cur := t;
    var i := 0;
    while i < |rows|
      invariant Inserted(t, cur, cid, rows, i)
    {
      var step := InsertPlan(cur, rows[i]);
      if step.Err? {
        ItemFitsRow(cid, items[0]);
        RowsFit(cid, items);
        return Err(step.error);
      }
      InsertedStep(t, cur, cid, rows, i);
      cur := step.value;
      i := i + 1;
    }
    assert rows[..i] == rows;
    RowsFit(cid, items);
    return Ok(cur);
  }

  /** The state of the plan loop after its first i inserts. */
  ghost predicate Inserted(t: Tables, cur: Tables, cid: int, rows: seq<PlanRow>, i: int) {
    && 0 <= i <= |rows|
    && (i > 0 ==> cid in t.cases)
    && (forall k :: 0 <= k < i ==> DurationFits(rows[k]))
    && IdsUpTo(cur.plans, cur.planSeq)
    && (cur.patients, cur.cases) == (t.patients, t.cases)
    && (cur.patientSeq, cur.caseSeq) == (t.patientSeq, t.caseSeq)
    && PlanRowsOf(cur, cid) == PlanRowsOf(t, cid) + rows[..i]
    && (forall c :: c != cid ==> PlanRowsOf(cur, c) == PlanRowsOf(t, c))
    && (Schema(t) ==> Schema(cur))
  }

  lemma InsertedStep(t: Tables, cur: Tables, cid: int, rows: seq<PlanRow>, i: int)
    requires Inserted(t, cur, cid, rows, i) && i < |rows| && rows[i].caseId == cid
    requires IdsUpTo(cur.plans, cur.planSeq) && InsertPlan(cur, rows[i]).Ok?
    ensures Inserted(t, InsertPlan(cur, rows[i]).value, cid, rows, i + 1)
  {
    InsertPlanRows(cur, rows[i]);
    assert rows[..i + 1] == rows[..i] + [rows[i]];
  }

  // ---------------------------------------------------------------------------
  // The save transaction of on_save_case
  // ---------------------------------------------------------------------------

  /** The save is refused because of the OP number: a new case whose number
      is on file, or an existing case whose number another case has. */
  predicate OpConflict(t: Tables, current: Option<int>, op: int) {
    match current
    case None => OpUsedByOther(t, op, None)
    case Some(cid) => cid in t.cases && OpUsedByOther(t, op, Some(cid))
  }

  /** The case the plan rows are written for exists once the case statement
      has run. */
  predicate CaseRowAfter(t: Tables, current: Option<int>) {
    current.None? || current.value in t.cases
  }

  /** The conditions under which the save block of on_save_case commits. */
  predicate SaveCommits(t: Tables, current: Option<int>, pid: int, fields: CaseFields,
                        items: seq<PlanItem>)
    requires forall k :: 0 <= k < |items| ==> WellFormedItem(items[k])
  {
    && InSqlRange(fields.opNumber) && !OpConflict(t, current, fields.opNumber)
    && (current.None? ==> pid in t.patients)
    && (|items| == 0 || CaseRowAfter(t, current))
    && AllItemsFit(items)
  }

  /** The INSERT of a new case runs and succeeds, whatever happens to the
      plan rows after it. */
  predicate CaseInsertRuns(t: Tables, current: Option<int>, pid: int, fields: CaseFields) {
    && current.None? && InSqlRange(fields.opNumber)
    && !OpUsedByOther(t, fields.opNumber, None) && pid in t.patients
  }

  /** What a committed save leaves in the tables: the patients as they were,
      the case row written (a fresh id after an insert, the same owner after an
      update, nothing when the current id names no row), exactly the given
      items as the case's plan rows in list order, and every other case's plan
      rows as they were. */
  ghost predicate CaseSaved(t: Tables, t': Tables, current: Option<int>, pid: int, fields: CaseFields,
                      items: seq<PlanItem>, cid: int)
    requires forall k :: 0 <= k < |items| ==> WellFormedItem(items[k])
  {
    && t'.patients == t.patients
    && (current.Some? ==> cid == current.value)
    && (current.None? ==> cid !in t.cases && cid > 0 && t'.cases == t.cases[cid := CaseRow(pid, fields)])
    && (current.Some? && cid in t.cases ==>
          t'.cases == t.cases[cid := CaseRow(t.cases[cid].patientId, fields)])
    && (current.Some? && cid !in t.cases ==> t'.cases == t.cases)
    && PlanRowsOf(t', cid) == ToRows(cid, items)
    && (forall c :: c != cid ==> PlanRowsOf(t', c) == PlanRowsOf(t, c))
  }

  /** One `with conn:` block of on_save_case: insert or update the case row,
      delete the case's plan rows, insert one row per item. Any failure rolls
      the whole block back, so the caller keeps the tables it had; on success
      the case id (the new one after an insert) comes back with the tables.
      `heldId` is what the handler holds as its current case afterwards: it
      stores the new id as soon as the INSERT has run, so a plan row that
      fails after it leaves the handler holding the id of a rolled-back row. */
  method SaveCaseTransaction(t: Tables, current: Option<int>, pid: int, fields: CaseFields,
                             items: seq<PlanItem>)
    returns (r: Result<(Tables, int), DbError>, heldId: Option<int>)
    requires Schema(t)
    requires forall k :: 0 <= k < |items| ==> WellFormedItem(items[k])
    ensures r.Err? && r.error == UniqueViolation <==>
              InSqlRange(fields.opNumber) && OpConflict(t, current, fields.opNumber)
    ensures r.Ok? <==> SaveCommits(t, current, pid, fields, items)
    ensures r.Err? && r.error == ForeignKeyViolation ==>
              (current.None? && pid !in t.patients) || !CaseRowAfter(t, current)
    ensures r.Ok? ==>
              && CaseSaved(t, r.value.0, current, pid, fields, items, r.value.1)
              && Schema(r.value.0)
              && heldId == Some(r.value.1)
    ensures r.Err? ==>
              heldId == if CaseInsertRuns(t, current, pid, fields) then Some(t.caseSeq + 1)
                          else current
    ensures r.Err? && CaseInsertRuns(t, current, pid, fields) ==> t.caseSeq + 1 !in t.cases
  {
    heldId := current;
    if !InSqlRange(fields.opNumber) {
      return Err(IntegerOverflow), heldId;
    }
    var t1: Tables;
    var cid: int;
    match current {
      case None =>
        var ins := InsertCase(t, pid, fields);
        if ins.Err? {
          return Err(ins.error), heldId;
        }
        t1, cid := ins.value.0, ins.value.1;
        heldId := Some(cid);
      case Some(c) =>
        var upd := UpdateCase(t, c, fields);
        if upd.Err? {
          return Err(upd.error), heldId;
        }
        t1, cid := upd.value, c;
    }
    var t2 := DeletePlansOf(t1, cid);
    DeletePlansRows(t1, cid);
    var ins := InsertPlans(t2, cid, items);
    if ins.Err? {
      return Err(ins.error), heldId;
    }
    return Ok((ins.value, cid)), heldId;
  }
}
