/** The API service of backend/server.js with the document database replaced
    by an in-memory table: add-mark, update-mark, all-marks, check-mark and
    the admin login. The record schema (server.js:29-39) is part of the model
    where it decides an outcome: its required text fields refuse the empty
    string, and a mark must be readable as a number. */
module Server {
  import opened Text
  import opened Records
  import opened Seqs

  /** The body of an add-mark or update-mark request. An absent text field
      is the empty string (both are falsy to the handlers); `subjects` may be
      absent altogether. */
  datatype MarkRequest = MarkRequest(
    name: string,
    fatherName: string,
    registerNumber: string,
    className: string,
    examType: string,
    subjects: Option<seq<Subject>>)

  datatype AddResult =
    | Added(record: Record)            // 201 with the stored record
    | MissingFields                    // 400: a required field is missing
    | DuplicateExam(message: string)   // 400: the exam is already recorded
    | AddFailed                        // 500: the schema refused the record on save

  datatype UpdateResult =
    | Updated(record: Record)          // 200 with the record as it now is
    | RecordNotFound                   // 404
    | UpdateFailed                     // 500: no subject list, or a mark that does not cast to a number

  datatype CheckResult =
    | Found(records: seq<Record>)      // 200, found: true
    | NoMatch                          // 200, found: false
    | RegisterNumberRequired           // 400

  datatype LoginResult = LoginResult(status: nat, success: bool)

  const AdminPassword: string := "1156"

  /** `sub.subjectName && sub.mark !== '' && sub.mark !== null`: the filter
      that drops the empty slots of the form. A row without a `mark` field
      passes it, since `undefined` is neither `''` nor `null`. */
  predicate KeepSubject(s: Subject) {
    s.subjectName != "" && s.mark != Blank && s.mark != Null
  }

  /** The subject rows an add or an update stores. */
  function ValidSubjects(s: seq<Subject>): (r: seq<Subject>)
    ensures forall i :: 0 <= i < |r| ==> KeepSubject(r[i])
  {
    Filter(s, KeepSubject)
  }

  /** Every copy of a filled-in row is kept, every copy of an empty one is
      dropped. */
  lemma ValidSubjectsKeepsRows(s: seq<Subject>, x: Subject)
    ensures multiset(ValidSubjects(s))[x] == if KeepSubject(x) then multiset(s)[x] else 0
  {
    FilterCount(s, KeepSubject, x);
  }

  /** Filtering preserves the order of the rows and a second filtering
      changes nothing. */
  lemma ValidSubjectsOrderAndIdempotence(a: seq<Subject>, b: seq<Subject>)
    ensures ValidSubjects(a + b) == ValidSubjects(a) + ValidSubjects(b)
    ensures ValidSubjects(ValidSubjects(a)) == ValidSubjects(a)
  {
    FilterAppend(a, b, KeepSubject);
    FilterIdempotent(a, KeepSubject);
  }

  /** The required-field test of the add handler. */
  predicate MissingRequired(req: MarkRequest) {
    req.name == "" || req.registerNumber == "" || req.className == "" || req.examType == ""
  }

  /** `findOne({ registerNumber, examType })` finds something. */
  predicate HasExam(records: seq<Record>, registerNumber: string, examType: string) {
    exists r :: r in records && r.registerNumber == registerNumber && r.examType == examType
  }

  /** No two records share a (registerNumber, examType) pair. */
  ghost predicate UniqueExams(records: seq<Record>) {
    forall i, j :: 0 <= i < j < |records| ==>
      records[i].registerNumber != records[j].registerNumber || records[i].examType != records[j].examType
  }

  /** What the schema requires of a record that is saved. */
  predicate SchemaAccepts(r: Record) {
    && r.name != "" && r.registerNumber != "" && r.className != "" && r.examType != ""
    && MarksAreNumbers(r.subjects)
  }

  /** Every mark casts to the schema's Number type and is present, as its
      `required` validator demands on save. */
  predicate MarksAreNumbers(subjects: seq<Subject>) {
    forall i :: 0 <= i < |subjects| ==> subjects[i].mark.Number?
  }

  /** Every mark survives the cast of an update. An update runs no
      validators, so a row without a mark is stored without one; only a
      mark that is not a number makes the cast fail. */
  predicate MarksCast(subjects: seq<Subject>) {
    forall i :: 0 <= i < |subjects| ==> !subjects[i].mark.NotANumber?
  }

  function DuplicateMessage(name: string, registerNumber: string, examType: string): string {
    "Student " + name + " (" + registerNumber + ") already has marks for " + examType + "."
  }

  /** The add-mark handler on a table `records`, with `id` the identity and
      `now` the time the store would give a new record. */
  function AddOutcome(records: seq<Record>, id: nat, now: nat, req: MarkRequest): (r: AddResult)
    ensures r.MissingFields? <==> MissingRequired(req)
    ensures r.DuplicateExam? <==>
      !MissingRequired(req) && HasExam(records, Trim(req.registerNumber), Trim(req.examType))
    ensures r.DuplicateExam? ==>
      r.message == DuplicateMessage(req.name, Trim(req.registerNumber), Trim(req.examType))
    ensures r.Added? <==>
      && !MissingRequired(req)
      && !HasExam(records, Trim(req.registerNumber), Trim(req.examType))
      && Trim(req.name) != "" && Trim(req.registerNumber) != ""
      && Trim(req.className) != "" && Trim(req.examType) != ""
      && MarksAreNumbers(if req.subjects.Some? then ValidSubjects(req.subjects.value) else [])
    ensures r.Added? ==>
      && r.record.id == id && r.record.createdAt == now && r.record.updatedAt == now
      && r.record.registerNumber == Trim(req.registerNumber)
      && r.record.examType == Trim(req.examType)
      && r.record.name == Trim(req.name)
      && r.record.className == Trim(req.className)
      && r.record.fatherName == Trim(req.fatherName)
      && r.record.subjects == (if req.subjects.Some? then ValidSubjects(req.subjects.value) else [])
      && !HasExam(records, r.record.registerNumber, r.record.examType)
      && SchemaAccepts(r.record)
  {
    if MissingRequired(req) then MissingFields
    else
      var regNo := Trim(req.registerNumber);
      var exam := Trim(req.examType);
      if HasExam(records, regNo, exam) then DuplicateExam(DuplicateMessage(req.name, regNo, exam))
      else
        var rec := NewRecord(id, now, req);
        if SchemaAccepts(rec) then Added(rec) else AddFailed
  }

  /** The document the add handler builds: text fields trimmed, the father's
      name '' when absent, the subject rows filtered (none when the request
      has no subject list). */
  function NewRecord(id: nat, now: nat, req: MarkRequest): Record {
    var subjects := if req.subjects.Some? then ValidSubjects(req.subjects.value) else [];
    var father := if req.fatherName != "" then Trim(req.fatherName) else "";
    Record(id, Trim(req.name), father, Trim(req.registerNumber), Trim(req.className),
           Trim(req.examType), subjects, now, now)
  }

  /** An add that succeeds keeps the table free of duplicate exams. */
  lemma {:induction false} AddKeepsExamsUnique(records: seq<Record>, id: nat, now: nat, req: MarkRequest)
    requires UniqueExams(records)
    requires AddOutcome(records, id, now, req).Added?
    ensures UniqueExams(records + [AddOutcome(records, id, now, req).record])
  {
    var rec := AddOutcome(records, id, now, req).record;
    var s := records + [rec];
    forall i, j | 0 <= i < j < |s|
      ensures s[i].registerNumber != s[j].registerNumber || s[i].examType != s[j].examType
    {
      if j == |records| {
        assert s[i] in records;
      } else {
        assert s[i] == records[i] && s[j] == records[j];
      }
    }
  }

  /** Repeating an add for the same student and exam (after trimming) is a
      duplicate, whatever the other fields say, and so stores nothing. */
  lemma AddTwiceIsDuplicate(records: seq<Record>, id: nat, now: nat, req: MarkRequest,
                            id2: nat, now2: nat, req2: MarkRequest)
    requires AddOutcome(records, id, now, req).Added?
    requires !MissingRequired(req2)
    requires Trim(req2.registerNumber) == Trim(req.registerNumber)
    requires Trim(req2.examType) == Trim(req.examType)
    ensures AddOutcome(records + [AddOutcome(records, id, now, req).record], id2, now2, req2).DuplicateExam?
  {
    var rec := AddOutcome(records, id, now, req).record;
    assert rec in records + [rec];
  }

  /** A register number made only of whitespace gets past the required-field
      test but is empty once trimmed, and the schema refuses it on save. */
  lemma BlankRegisterNumberFailsOnSave(records: seq<Record>, id: nat, now: nat, req: MarkRequest)
    requires !MissingRequired(req)
    requires forall i :: 0 <= i < |req.registerNumber| ==> IsSpace(req.registerNumber[i])
    ensures AddOutcome(records, id, now, req).AddFailed? || AddOutcome(records, id, now, req).DuplicateExam?
  {
    TrimEmpty(req.registerNumber);
  }

  /** Position of the record with the given id. */
  function IndexOfId(records: seq<Record>, id: nat): (r: Option<nat>)
    ensures r.Some? ==> r.value < |records| && records[r.value].id == id
    ensures r.None? ==> forall i :: 0 <= i < |records| ==> records[i].id != id
  {
    if records == [] then None
    else if records[0].id == id then Some(0)
    else match IndexOfId(records[1..], id)
      case None => None
      case Some(k) => Some(k + 1)
  }

  /** The update-mark handler: `subjects.filter` fails when there is no
      subject list, the cast of the update fails on a mark that is not a
      number, and otherwise every field is overwritten as sent, a row
      without a mark included. */
  function UpdateOutcome(records: seq<Record>, id: nat, now: nat, req: MarkRequest): (r: UpdateResult)
    ensures r.UpdateFailed? <==> req.subjects.None? || !MarksCast(ValidSubjects(req.subjects.value))
    ensures r.Updated? <==>
      req.subjects.Some? && MarksCast(ValidSubjects(req.subjects.value))
      && exists i :: 0 <= i < |records| && records[i].id == id
    ensures r.RecordNotFound? <==>
      req.subjects.Some? && MarksCast(ValidSubjects(req.subjects.value))
      && forall i :: 0 <= i < |records| ==> records[i].id != id
    ensures r.Updated? ==>
      exists i :: 0 <= i < |records| && records[i].id == id
        && r.record == Record(id, req.name, req.fatherName, req.registerNumber, req.className,
                              req.examType, ValidSubjects(req.subjects.value), records[i].createdAt, now)
  {
    if req.subjects.None? then UpdateFailed
    else
      var subjects := ValidSubjects(req.subjects.value);
      if !MarksCast(subjects) then UpdateFailed
      else match IndexOfId(records, id)
        case None => RecordNotFound
        case Some(i) =>
          Updated(Record(id, req.name, req.fatherName, req.registerNumber, req.className,
                         req.examType, subjects, records[i].createdAt, now))
  }

  /** The table after a successful update: the record with that id is
      replaced, every other one is kept. */
  function Overwrite(records: seq<Record>, rec: Record): (r: seq<Record>)
    ensures |r| == |records|
    ensures forall i :: 0 <= i < |r| ==> r[i] == if records[i].id == rec.id then rec else records[i]
  {
    seq(|records|, i requires 0 <= i < |records| => if records[i].id == rec.id then rec else records[i])
  }

  /** The update does not re-check the exam pair: two distinct exams can be
      made into duplicates. */
  lemma UpdateCanDuplicateExam()
    ensures var a := Record(0, "Anu", "", "R100", "10", "Model Exam", [], 0, 0);
            var b := Record(1, "Binu", "", "R200", "10", "Model Exam", [], 1, 1);
            var req := MarkRequest("Binu", "", "R100", "10", "Model Exam", Some([]));
            && UniqueExams([a, b])
            && UpdateOutcome([a, b], 1, 2, req).Updated?
            && !UniqueExams(Overwrite([a, b], UpdateOutcome([a, b], 1, 2, req).record))
  {
    var a := Record(0, "Anu", "", "R100", "10", "Model Exam", [], 0, 0);
    var b := Record(1, "Binu", "", "R200", "10", "Model Exam", [], 1, 1);
    var req := MarkRequest("Binu", "", "R100", "10", "Model Exam", Some([]));
    assert "R100" != "R200" by {
      assert "R100"[1] != "R200"[1];
    }
    assert UniqueExams([a, b]) by {
      forall i, j | 0 <= i < j < 2
        ensures [a, b][i].registerNumber != [a, b][j].registerNumber
      {
        assert i == 0 && j == 1;
      }
    }
    assert ValidSubjects([]) == [];
    assert IndexOfId([a, b], 1) == Some(1) by {
      assert [a, b][1..] == [b];
    }
    var rec := Record(1, "Binu", "", "R100", "10", "Model Exam", [], 1, 2);
    assert UpdateOutcome([a, b], 1, 2, req) == Updated(rec);
    var after := Overwrite([a, b], rec);
    assert after[0] == a && after[1] == rec;
    assert after[0].registerNumber == after[1].registerNumber && after[0].examType == after[1].examType;
  }

  /** A subject row sent without a mark passes the subject filter. The add
      handler's save then refuses it, while an update stores it as sent. */
  lemma MissingMarkRow(records: seq<Record>, id: nat, now: nat, req: MarkRequest, name: string)
    requires name != ""
    requires req.subjects == Some([Subject(name, Absent)])
    ensures ValidSubjects(req.subjects.value) == [Subject(name, Absent)]
    ensures !AddOutcome(records, id, now, req).Added?
    ensures !UpdateOutcome(records, id, now, req).UpdateFailed?
  {
    assert KeepSubject(Subject(name, Absent));
  }

  /** `find({ registerNumber })`: the records with exactly that register
      number, in table order, each as often as the table holds it. */
  function Matching(records: seq<Record>, registerNumber: string): (r: seq<Record>)
    ensures forall i :: 0 <= i < |r| ==> r[i].registerNumber == registerNumber
    ensures forall x :: multiset(r)[x] == if x.registerNumber == registerNumber then multiset(records)[x] else 0
  {
    var r := Filter(records, WithRegisterNumber(registerNumber));
    forall x ensures multiset(r)[x] == if x.registerNumber == registerNumber then multiset(records)[x] else 0 {
      FilterCount(records, WithRegisterNumber(registerNumber), x);
    }
    r
  }

  function WithRegisterNumber(registerNumber: string): Record -> bool {
    (x: Record) => x.registerNumber == registerNumber
  }

  /** The check-mark handler. */
  function Lookup(records: seq<Record>, registerNumber: string): (r: CheckResult)
    ensures r.RegisterNumberRequired? <==> registerNumber == ""
    ensures r.NoMatch? <==>
      registerNumber != "" && forall x :: x in records ==> x.registerNumber != Trim(registerNumber)
    ensures r.Found? ==> r.records == Matching(records, Trim(registerNumber))
    ensures r.Found? ==>
      && r.records != []
      && forall x :: x in r.records <==> x in records && x.registerNumber == Trim(registerNumber)
  {
    if registerNumber == "" then RegisterNumberRequired
    else
      var found := Matching(records, Trim(registerNumber));
      assert forall x :: x in found <==> x in records && x.registerNumber == Trim(registerNumber) by {
        forall x ensures x in found <==> x in records && x.registerNumber == Trim(registerNumber) {
          FilterMembers(records, WithRegisterNumber(Trim(registerNumber)), x);
        }
      }
      if |found| > 0 then
        assert found[0] in found;
        Found(found)
      else
        assert forall x :: x in records ==> x.registerNumber != Trim(registerNumber) by {
          forall x | x in records ensures x.registerNumber != Trim(registerNumber) {
            FilterMembers(records, WithRegisterNumber(Trim(registerNumber)), x);
          }
        }
        NoMatch
  }

  /** A record stored by an add is found by a check with any padding of its
      register number. */
  lemma AddedIsFound(records: seq<Record>, id: nat, now: nat, req: MarkRequest, query: string)
    requires AddOutcome(records, id, now, req).Added?
    requires query != "" && Trim(query) == Trim(req.registerNumber)
    ensures var rec := AddOutcome(records, id, now, req).record;
            Lookup(records + [rec], query).Found? && rec in Lookup(records + [rec], query).records
  {
    var rec := AddOutcome(records, id, now, req).record;
    assert rec in records + [rec];
  }

  /** Only the trimmed register number matters to a lookup, unless it trims
      to nothing (the blank query is refused, the padded one is not). */
  lemma LookupTrimsInput(records: seq<Record>, query: string)
    requires Trim(query) != ""
    ensures Lookup(records, query) == Lookup(records, Trim(query))
  {
    TrimIdempotent(query);
  }

  /** The login check against the fixed shared password. */
  function AdminLogin(password: string): (r: LoginResult)
    ensures r.success <==> password == AdminPassword
    ensures r.status == if r.success then 200 else 401
  {
    if password == AdminPassword then LoginResult(200, true) else LoginResult(401, false)
  }

  /** Negated update time, so that sorting ascending by it puts the most
      recently changed record first (`sort({ updatedAt: -1 })`). */
  function Age(r: Record): int {
    -(r.updatedAt as int)
  }

  /** The all-marks listing: every record once, most recently updated first. */
  function NewestFirst(records: seq<Record>): (r: seq<Record>)
    ensures multiset(r) == multiset(records)
    ensures forall i, j :: 0 <= i < j < |r| ==> r[i].updatedAt >= r[j].updatedAt
  {
    var s := SortBy(records, Age);
    assert forall i, j :: 0 <= i < j < |s| ==> Age(s[i]) <= Age(s[j]);
    s
  }

  /** Every identity is below the next one to hand out, every time stamp is
      below the clock, and no identity or update time occurs twice. */
  ghost predicate WellStamped(records: seq<Record>, nextId: nat, clock: nat) {
    && (forall i :: 0 <= i < |records| ==>
          records[i].id < nextId && records[i].createdAt <= records[i].updatedAt < clock)
    && (forall i, j :: 0 <= i < j < |records| ==>
          records[i].id != records[j].id && records[i].updatedAt != records[j].updatedAt)
  }

  lemma StampedAppend(records: seq<Record>, nextId: nat, clock: nat, rec: Record)
    requires WellStamped(records, nextId, clock)
    requires rec.id == nextId && rec.createdAt == rec.updatedAt == clock
    ensures WellStamped(records + [rec], nextId + 1, clock + 1)
  {
  }

  lemma StampedOverwrite(records: seq<Record>, nextId: nat, clock: nat, k: nat, rec: Record)
    requires WellStamped(records, nextId, clock)
    requires k < |records| && rec.id == records[k].id
    requires rec.createdAt == records[k].createdAt && rec.updatedAt == clock
    ensures WellStamped(Overwrite(records, rec), nextId, clock + 1)
  {
    var after := Overwrite(records, rec);
    forall i | 0 <= i < |after| ensures after[i] == if i == k then rec else records[i] {
      if i != k {
        assert records[i].id != records[k].id;
      }
    }
  }

  /** The record table. Identities and update times come from counters
      that only grow, so they never repeat. */
  class MarkStore {
    var records: seq<Record>
    var nextId: nat
    var clock: nat

    ghost predicate Valid()
      reads this
    {
      WellStamped(records, nextId, clock)
    }

    constructor ()
      ensures Valid() && records == []
    {
      records, nextId, clock := [], 0, 0;
    }

    /** POST /api/admin/add-mark. */
    method AddMark(req: MarkRequest) returns (res: AddResult)
      requires Valid()
      modifies this
      ensures Valid()
      ensures res == AddOutcome(old(records), old(nextId), old(clock), req)
      ensures res.Added? ==>
        records == old(records) + [res.record] && nextId == old(nextId) + 1 && clock == old(clock) + 1
      ensures !res.Added? ==> unchanged(this)
    {
      if MissingRequired(req) {
        res := MissingFields;
      } else {
        var regNo := Trim(req.registerNumber);
        var exam := Trim(req.examType);
        if HasExam(records, regNo, exam) {
          res := DuplicateExam(DuplicateMessage(req.name, regNo, exam));
        } else {
          var rec := NewRecord(nextId, clock, req);
          if !SchemaAccepts(rec) {
            res := AddFailed;
          } else {
            Save(rec);
            res := Added(rec);
          }
        }
      }
    }

    /** Stores a new record under the next identity and the current time. */
    method Save(rec: Record)
      requires Valid()
      requires rec.id == nextId && rec.createdAt == rec.updatedAt == clock
      modifies this
      ensures Valid()
      ensures records == old(records) + [rec] && nextId == old(nextId) + 1 && clock == old(clock) + 1
    {
      StampedAppend(records, nextId, clock, rec);
      records := records + [rec];
      nextId := nextId + 1;
      clock := clock + 1;
    }

    /** PUT /api/admin/update-mark/:id. */
    method UpdateMark(id: nat, req: MarkRequest) returns (res: UpdateResult)
      requires Valid()
      modifies this
      ensures Valid()
      ensures res == UpdateOutcome(old(records), id, old(clock), req)
      ensures records == if res.Updated? then Overwrite(old(records), res.record) else old(records)
      ensures nextId == old(nextId)
      ensures clock == if res.Updated? then old(clock) + 1 else old(clock)
    {
      if req.subjects.None? {
        return UpdateFailed;
      }
      var subjects := ValidSubjects(req.subjects.value);
      if !MarksCast(subjects) {
        return UpdateFailed;
      }
      var found := IndexOfId(records, id);
      if found.None? {
        return RecordNotFound;
      }
      var i := found.value;
      var rec := Record(id, req.name, req.fatherName, req.registerNumber, req.className,
                        req.examType, subjects, records[i].createdAt, clock);
      StampedOverwrite(records, nextId, clock, i, rec);
      records := Overwrite(records, rec);
      clock := clock + 1;
      res := Updated(rec);
    }

    /** GET /api/admin/all-marks. */
    method AllMarks() returns (list: seq<Record>)
      ensures list == NewestFirst(records)
    {
      list := NewestFirst(records);
    }

    /** POST /api/user/check-mark. */
    method CheckMark(registerNumber: string) returns (res: CheckResult)
      ensures res == Lookup(records, registerNumber)
    {
      res := Lookup(records, registerNumber);
    }
  }
}
