/** The two queries of clinic_app_v1.py: the patient list (on_patients_search)
    and the paged case search (build_where_clause, on_search). A query's
    result is the ids of the rows it returns, in the order it returns them. */
module Search {
  import opened Wrappers
  import opened Text
  import opened Dates
  import opened Records
  import opened Database
  import opened Sorting

  /** `LIMIT 500` of the patient list. */
  const PatientLimit := 500

  /** PAGE_SIZE: `LIMIT 50` of the case search. */
  const PageSize := 50

  // ---------------------------------------------------------------------------
  // Ids and orders
  // ---------------------------------------------------------------------------

  /** The ids 1..n present in m, ascending: the rows a table scan visits. */
  function KeysUpTo<T>(m: map<int, T>, n: nat): (r: seq<int>)
    ensures forall x :: x in r <==> x in m && 1 <= x <= n
    ensures forall i, j :: 0 <= i < j < |r| ==> r[i] < r[j]
    ensures forall i :: 0 <= i < |r| ==> r[i] <= n
  {
    if n == 0 then []
    else
      var rest := KeysUpTo(m, n - 1);
      if n in m then rest + [n] else rest
  }

  lemma AscendingDistinct(s: seq<int>)
    requires forall i, j :: 0 <= i < j < |s| ==> s[i] < s[j]
    ensures Distinct(s)
  {
  }

  /** Two-column order on text keys with the row id last: the shape of both
      ORDER BY clauses once ties are taken in id order. */
  predicate KeyLess(x1: string, x2: string, a: int, y1: string, y2: string, b: int) {
    StrLt(x1, y1) || (x1 == y1 && (StrLt(x2, y2) || (x2 == y2 && a < b)))
  }

  lemma KeyLessIrreflexive(x1: string, x2: string, a: int)
    ensures !KeyLess(x1, x2, a, x1, x2, a)
  {
    StrLtIrreflexive(x1);
    StrLtIrreflexive(x2);
  }

  lemma KeyLessTransitive(x1: string, x2: string, a: int, y1: string, y2: string, b: int,
                          z1: string, z2: string, c: int)
    requires KeyLess(x1, x2, a, y1, y2, b) && KeyLess(y1, y2, b, z1, z2, c)
    ensures KeyLess(x1, x2, a, z1, z2, c)
  {
    if StrLt(x1, y1) && StrLt(y1, z1) { StrLtTransitive(x1, y1, z1); }
    if x1 == y1 && y1 == z1 && StrLt(x2, y2) && StrLt(y2, z2) { StrLtTransitive(x2, y2, z2); }
  }

  lemma KeyLessTotal(x1: string, x2: string, a: int, y1: string, y2: string, b: int)
    requires a != b
    ensures KeyLess(x1, x2, a, y1, y2, b) || KeyLess(y1, y2, b, x1, x2, a)
  {
    StrLtTotal(x1, y1);
    StrLtTotal(x2, y2);
  }

  // ---------------------------------------------------------------------------
  // Patient list (on_patients_search)
  // ---------------------------------------------------------------------------

  /** The WHERE clause: the name is a case-insensitive substring of the first
      or the last name, and the phone one of the phone; an empty input drops
      its condition. */
  predicate PatientMatches(p: Patient, name: string, phone: string) {
    && (name == "" || ContainsCI(p.first, name) || ContainsCI(p.last, name))
    && (phone == "" || ContainsCI(p.phone, phone))
  }

  /** `ORDER BY last_name, first_name`, then id. */
  predicate PatientLess(t: Tables, a: int, b: int) {
    var pa := if a in t.patients then t.patients[a] else Patient("", "", "", "", "", "", "");
    var pb := if b in t.patients then t.patients[b] else Patient("", "", "", "", "", "", "");
    KeyLess(pa.last, pa.first, a, pb.last, pb.first, b)
  }

  function PatientOrder(t: Tables): (int, int) -> bool {
    (a, b) => PatientLess(t, a, b)
  }

  lemma PatientOrderTotal(t: Tables)
    ensures StrictTotal(PatientOrder(t))
  {
    var less := PatientOrder(t);
    var p := (x: int) => if x in t.patients then t.patients[x] else Patient("", "", "", "", "", "", "");
    forall a ensures !less(a, a) {
      KeyLessIrreflexive(p(a).last, p(a).first, a);
    }
    forall a, b, c | less(a, b) && less(b, c) ensures less(a, c) {
      KeyLessTransitive(p(a).last, p(a).first, a, p(b).last, p(b).first, b,
                        p(c).last, p(c).first, c);
    }
    forall a, b | a != b ensures less(a, b) || less(b, a) {
      KeyLessTotal(p(a).last, p(a).first, a, p(b).last, p(b).first, b);
    }
  }

  /** The patients the WHERE clause keeps. */
  function PatientMatchSet(t: Tables, name: string, phone: string): set<int> {
    set id | id in t.patients && PatientMatches(t.patients[id], name, phone)
  }

  /** The patients the WHERE clause keeps, in id order. */
  function PatientHits(t: Tables, name: string, phone: string): (r: seq<int>)
    ensures forall x :: x in r ==> x in PatientMatchSet(t, name, phone)
    ensures IdsUpTo(t.patients, t.patientSeq) ==>
              forall x :: x in r <==> x in PatientMatchSet(t, name, phone)
  {
    Filter(KeysUpTo(t.patients, t.patientSeq), id => id in PatientMatchSet(t, name, phone))
  }

  /** on_patients_search: both inputs stripped, the matching patients in
      (last, first) order, at most 500 of them. */
  function PatientSearch(t: Tables, nameInput: string, phoneInput: string): (r: seq<int>)
    ensures |r| <= PatientLimit
    ensures forall id :: id in r ==> id in PatientMatchSet(t, Trim(nameInput), Trim(phoneInput))
  {
    var hits := PatientHits(t, Trim(nameInput), Trim(phoneInput));
    Window(Sort(hits, PatientOrder(t)), 0, PatientLimit)
  }

  /** The patient list holds each matching patient at most once, in
      (last, first, id) order; it holds all of them when there are at most
      500, and otherwise the first 500 in that order: every patient left out
      sorts after every patient shown. */
  lemma PatientSearchSpec(t: Tables, nameInput: string, phoneInput: string)
    requires IdsUpTo(t.patients, t.patientSeq)
    ensures var r := PatientSearch(t, nameInput, phoneInput);
      var matches := PatientMatchSet(t, Trim(nameInput), Trim(phoneInput));
      && Distinct(r)
      && Sorted(r, PatientOrder(t))
      && (|matches| <= PatientLimit ==> (forall id :: id in matches ==> id in r))
      && (|r| == if |matches| <= PatientLimit then |matches| else PatientLimit)
      && (forall x, y :: x in matches && x !in r && y in r ==> PatientLess(t, y, x))
  {
    var name, phone := Trim(nameInput), Trim(phoneInput);
    var keys := KeysUpTo(t.patients, t.patientSeq);
    AscendingDistinct(keys);
    var hits := PatientHits(t, name, phone);
    FilterDistinct(keys, id => id in PatientMatchSet(t, name, phone));
    var matches := PatientMatchSet(t, name, phone);
    PatientOrderTotal(t);
    var sorted := Sort(hits, PatientOrder(t));
    SortSorted(hits, PatientOrder(t));
    TakeSpec(hits, sorted, matches, PatientOrder(t), PatientLimit);
  }

  /** The first `limit` elements of a sorted arrangement of the distinct
      elements of a set: what taking a limit after ordering means. */
  lemma TakeSpec(hits: seq<int>, sorted: seq<int>, matches: set<int>,
                 less: (int, int) -> bool, limit: nat)
    requires StrictTotal(less) && Distinct(hits) && (forall x :: x in hits <==> x in matches)
    requires multiset(sorted) == multiset(hits) && Sorted(sorted, less)
    ensures var r := Window(sorted, 0, limit);
      && Distinct(r)
      && Sorted(r, less)
      && (|matches| <= limit ==> (forall id :: id in matches ==> id in r))
      && (|r| == if |matches| <= limit then |matches| else limit)
      && (forall x, y :: x in matches && x !in r && y in r ==> less(y, x))
  {
    var r := Window(sorted, 0, limit);
    SortedDistinct(sorted, less);
    DistinctCard(hits, matches);
    assert |sorted| == |multiset(sorted)| == |multiset(hits)| == |hits|;
    forall x | x in matches ensures x in sorted {
      assert x in multiset(hits);
    }
    forall x, y | x in matches && x !in r && y in r ensures less(y, x) {
      assert x in multiset(sorted);
      var i :| 0 <= i < |sorted| && sorted[i] == x;
      var j :| 0 <= j < |r| && r[j] == y;
      assert i >= |r|;
      assert sorted[j] == y;
    }
  }

  /** A sequence without repeats is as long as the set of its elements. */
  lemma {:induction false} DistinctCard(s: seq<int>, elems: set<int>)
    requires Distinct(s) && (forall x :: x in s <==> x in elems)
    ensures |s| == |elems|
  {
    if s == [] {
      assert forall x :: x in elems ==> x in s;
      assert elems == {};
    } else {
      var rest := s[1..];
      assert s[0] !in rest by {
        forall k | 0 <= k < |rest| ensures rest[k] != s[0] {
          assert rest[k] == s[k + 1];
        }
      }
      assert forall x :: x in rest <==> x in elems - {s[0]};
      DistinctCard(rest, elems - {s[0]});
    }
  }

  // ---------------------------------------------------------------------------
  // Case search (build_where_clause, on_search)
  // ---------------------------------------------------------------------------

  /** The filter inputs of the Browse/Search tab, as typed. */
  datatype SearchForm = SearchForm(
    name: string, phone: string, from: string, to: string, diagnosis: string)

  /** The validated filter: stripped texts and the optional date bounds. */
  datatype CaseFilter = CaseFilter(
    name: string, phone: string, from: Option<string>, to: Option<string>, diagnosis: string)

  datatype SearchError = BadFromDate | BadToDate

  /** build_where_clause: each input stripped; a non-empty date bound must
      parse, the "from" bound checked first. */
  function BuildCaseFilter(f: SearchForm): (r: Result<CaseFilter, SearchError>)
    ensures r.Ok? <==> OptionalDate(Trim(f.from)) && OptionalDate(Trim(f.to))
    ensures r.Err? ==> (r.error == BadFromDate <==> !OptionalDate(Trim(f.from)))
    ensures r.Ok? ==>
              && r.value.name == Trim(f.name) && r.value.phone == Trim(f.phone)
              && r.value.diagnosis == Trim(f.diagnosis)
              && r.value.from == NoneIfEmpty(Trim(f.from)) && r.value.to == NoneIfEmpty(Trim(f.to))
              && (r.value.from.Some? ==> ParseDate(r.value.from.value).Some?)
              && (r.value.to.Some? ==> ParseDate(r.value.to.value).Some?)
  {
    var from, to := Trim(f.from), Trim(f.to);
    if !OptionalDate(from) then Err(BadFromDate)
    else if !OptionalDate(to) then Err(BadToDate)
    else Ok(CaseFilter(Trim(f.name), Trim(f.phone), NoneIfEmpty(from), NoneIfEmpty(to),
                       Trim(f.diagnosis)))
  }

  /** The WHERE clause of on_search over `cases JOIN patients`: the patient
      conditions of the patient list, `case_date >= from` and
      `case_date <= to` as text comparisons, and a case-insensitive
      substring of the diagnosis. */
  predicate CaseMatches(t: Tables, cid: int, f: CaseFilter) {
    && cid in t.cases
    && t.cases[cid].patientId in t.patients
    && PatientMatches(t.patients[t.cases[cid].patientId], f.name, f.phone)
    && (f.from.None? || StrLe(f.from.value, t.cases[cid].fields.caseDate))
    && (f.to.None? || StrLe(t.cases[cid].fields.caseDate, f.to.value))
    && (f.diagnosis == "" || ContainsCI(t.cases[cid].fields.diagnosis, f.diagnosis))
  }

  /** `ORDER BY c.case_date DESC, c.id DESC`: newest first. */
  predicate CaseLess(t: Tables, a: int, b: int) {
    var da := if a in t.cases then t.cases[a].fields.caseDate else "";
    var db := if b in t.cases then t.cases[b].fields.caseDate else "";
    KeyLess(db, "", b, da, "", a)
  }

  function CaseOrder(t: Tables): (int, int) -> bool {
    (a, b) => CaseLess(t, a, b)
  }

  lemma CaseOrderTotal(t: Tables)
    ensures StrictTotal(CaseOrder(t))
  {
    var less := CaseOrder(t);
    var d := (x: int) => if x in t.cases then t.cases[x].fields.caseDate else "";
    forall a ensures !less(a, a) {
      KeyLessIrreflexive(d(a), "", a);
    }
    forall a, b, c | less(a, b) && less(b, c) ensures less(a, c) {
      KeyLessTransitive(d(c), "", c, d(b), "", b, d(a), "", a);
    }
    forall a, b | a != b ensures less(a, b) || less(b, a) {
      KeyLessTotal(d(a), "", a, d(b), "", b);
    }
  }

  /** Every matching case, newest first: the query without LIMIT and OFFSET. */
  function CaseResults(t: Tables, f: CaseFilter): seq<int> {
    Sort(Filter(KeysUpTo(t.cases, t.caseSeq), id => CaseMatches(t, id, f)), CaseOrder(t))
  }

  /** on_search for a page: `LIMIT 50 OFFSET page*50` of the ordered
      results, or the error that stops the search before it runs. */
  function CaseSearch(t: Tables, form: SearchForm, page: nat): (r: Result<seq<int>, SearchError>)
    ensures r.Err? <==> BuildCaseFilter(form).Err?
    ensures r.Ok? ==>
              var all := CaseResults(t, BuildCaseFilter(form).value);
              && |r.value| <= PageSize
              && (page * PageSize <= |all| ==>
                    |r.value| == if |all| - page * PageSize < PageSize then |all| - page * PageSize
                                 else PageSize)
              && (forall k :: 0 <= k < |r.value| ==>
                    page * PageSize + k < |all| && r.value[k] == all[page * PageSize + k])
  {
    var f := BuildCaseFilter(form);
    if f.Err? then Err(f.error)
    else
      var all := CaseResults(t, f.value);
      Ok(Window(all, page * PageSize, PageSize))
  }

  /** The full result list holds each matching case exactly once, newest
      first, ties by higher id first. */
  lemma CaseResultsSpec(t: Tables, f: CaseFilter)
    requires IdsUpTo(t.cases, t.caseSeq)
    ensures var all := CaseResults(t, f);
      && (forall id :: id in all <==> CaseMatches(t, id, f))
      && Distinct(all)
      && Sorted(all, CaseOrder(t))
  {
    var keys := KeysUpTo(t.cases, t.caseSeq);
    AscendingDistinct(keys);
    var p := id => CaseMatches(t, id, f);
    var hits := Filter(keys, p);
    FilterDistinct(keys, p);
    CaseOrderTotal(t);
    SortSorted(hits, CaseOrder(t));
    var all := Sort(hits, CaseOrder(t));
    SortedDistinct(all, CaseOrder(t));
    forall id ensures id in all <==> CaseMatches(t, id, f) {
      assert id in all <==> id in multiset(hits);
    }
  }

  /** Consecutive pages do not overlap and leave no gap: page n + 1 starts
      where page n ends. */
  lemma PagesAdjacent(t: Tables, form: SearchForm, page: nat)
    requires BuildCaseFilter(form).Ok?
    ensures var all := CaseResults(t, BuildCaseFilter(form).value);
      var p0, p1 := CaseSearch(t, form, page).value, CaseSearch(t, form, page + 1).value;
      |p0| == PageSize ==> p0 + p1 == Window(all, page * PageSize, 2 * PageSize)
  {
    var all := CaseResults(t, BuildCaseFilter(form).value);
    assert (page + 1) * PageSize == page * PageSize + PageSize;
    WindowsAdjacent(all, page * PageSize, PageSize);
  }

  /** With dates stored in canonical form, the inclusive text bounds are the
      calendar bounds: from <= case_date <= to as days. */
  lemma DateBoundsAreCalendar(bound: string, caseDate: string)
    requires ParseDate(bound).Some? && ParseDate(caseDate).Some?
    ensures StrLe(bound, caseDate) <==>
              ToOrdinal(ParseDate(bound).value) <= ToOrdinal(ParseDate(caseDate).value)
  {
    var b, c := ParseDate(bound).value, ParseDate(caseDate).value;
    ParseThenFormat(bound);
    ParseThenFormat(caseDate);
    FormatOrder(b, c);
    if ToOrdinal(b) == ToOrdinal(c) {
      OrdinalInjective(b, c);
    } else if bound == caseDate {
      assert false;
    }
  }

  /** When the case's date is a stored calendar date, the date conditions of
      the search keep exactly the cases whose day lies between the bounds. */
  lemma CaseMatchesByCalendar(t: Tables, cid: int, form: SearchForm)
    requires BuildCaseFilter(form).Ok?
    requires cid in t.cases && ParseDate(t.cases[cid].fields.caseDate).Some?
    ensures var f := BuildCaseFilter(form).value;
      var day := ToOrdinal(ParseDate(t.cases[cid].fields.caseDate).value);
      CaseMatches(t, cid, f) <==>
        && t.cases[cid].patientId in t.patients
        && PatientMatches(t.patients[t.cases[cid].patientId], f.name, f.phone)
        && (f.from.None? || ToOrdinal(ParseDate(f.from.value).value) <= day)
        && (f.to.None? || day <= ToOrdinal(ParseDate(f.to.value).value))
        && (f.diagnosis == "" || ContainsCI(t.cases[cid].fields.diagnosis, f.diagnosis))
  {
    var f := BuildCaseFilter(form).value;
    var d := t.cases[cid].fields.caseDate;
    if f.from.Some? {
      DateBoundsAreCalendar(f.from.value, d);
    }
    if f.to.Some? {
      DateBoundsAreCalendar(d, f.to.value);
    }
  }
}
