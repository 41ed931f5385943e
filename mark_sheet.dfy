/** The admin mark sheet: the `marksData` dictionary keyed "<studentId>_<paramId>",
    the edits made to it, the batch posted on save and the totals shown. */
module MarkSheet {
  import opened Common

  /** A value of `marksData`: the empty string an emptied input leaves, or a number. */
  datatype Entry = Blank | Num(n: int)

  /** The raw value of a mark input: empty, or the integer typed. */
  datatype Input = EmptyInput | Typed(v: int)

  type Marks = map<string, Entry>

  /** The `marksData` key of one cell. */
  function CellKey(studentId: Id, paramId: Id): string {
    studentId + "_" + paramId
  }

  /** An identifier without the separator (ObjectIds are hexadecimal). */
  predicate PlainId(id: Id) {
    forall i :: 0 <= i < |id| ==> id[i] != '_'
  }

  /** Keys do not collide as long as student ids never contain the separator. */
  lemma {:induction false} CellKeyInjective(s1: Id, p1: Id, s2: Id, p2: Id)
    requires PlainId(s1) && PlainId(s2)
    ensures CellKey(s1, p1) == CellKey(s2, p2) <==> s1 == s2 && p1 == p2
  {
    var k1, k2 := CellKey(s1, p1), CellKey(s2, p2);
    if k1 == k2 {
      assert k1[|s1|] == '_' && k2[|s2|] == '_';
      assert forall i :: 0 <= i < |s2| ==> k2[i] == s2[i];
      assert forall i :: 0 <= i < |s1| ==> k1[i] == s1[i];
      assert |s1| >= |s2|;
      assert |s2| >= |s1|;
      assert s1 == k1[..|s1|] && s2 == k2[..|s2|];
      assert p1 == k1[|s1| + 1..] && p2 == k2[|s2| + 1..];
    }
  }

  /** A cell as the totals and the save batch read it: `Number(v) || 0` and
      `Number(v || 0)` agree on every value the dictionary can hold, and both turn
      a missing or blank cell into 0. */
  function CellValue(m: Marks, key: string): (r: int)
    ensures r != 0 ==> key in m && m[key] == Num(r)
    ensures key !in m || m[key].Blank? ==> r == 0
  {
    if key in m && m[key].Num? then m[key].n else 0
  }

  // ---------------------------------------------------------------------------
  // Totals

  /** `studentTotal`: the marks given to one student over all parameters. */
  function StudentTotal(m: Marks, studentId: Id, ps: seq<Parameter>): int {
    if ps == [] then 0
    else CellValue(m, CellKey(studentId, ps[0].id)) + StudentTotal(m, studentId, ps[1..])
  }

  /** `maxTotal`: the sum of all parameter maxima, the same for every student. */
  function MaxTotal(ps: seq<Parameter>): int {
    if ps == [] then 0 else ps[0].marks + MaxTotal(ps[1..])
  }

  /** `grandTotal.given`: the per-student totals summed over the roster. */
  function GrandGiven(m: Marks, roster: seq<Id>, ps: seq<Parameter>): int {
    if roster == [] then 0 else StudentTotal(m, roster[0], ps) + GrandGiven(m, roster[1..], ps)
  }

  /** `grandTotal.total`: the roster size times the sum of maxima (0 for no students). */
  function GrandMax(roster: seq<Id>, ps: seq<Parameter>): int {
    |roster| * MaxTotal(ps)
  }

  /** Every cell of every plain student id lies between 0 and its parameter's maximum. */
  ghost predicate InRange(m: Marks, ps: seq<Parameter>) {
    forall sid, j :: PlainId(sid) && 0 <= j < |ps| ==>
      0 <= CellValue(m, CellKey(sid, ps[j].id)) <= ps[j].marks
  }

  lemma {:induction false} StudentTotalWithinMax(m: Marks, sid: Id, ps: seq<Parameter>)
    requires PlainId(sid)
    requires InRange(m, ps)
    ensures 0 <= StudentTotal(m, sid, ps) <= MaxTotal(ps)
  {
    if ps != [] {
      assert 0 <= CellValue(m, CellKey(sid, ps[0].id)) <= ps[0].marks;
      assert InRange(m, ps[1..]) by {
        forall sid', j | PlainId(sid') && 0 <= j < |ps| - 1
          ensures 0 <= CellValue(m, CellKey(sid', ps[1..][j].id)) <= ps[1..][j].marks
        {
          assert ps[1..][j] == ps[j + 1];
        }
      }
      StudentTotalWithinMax(m, sid, ps[1..]);
    }
  }

  /** When every cell respects its maximum, each student's total lies in
      [0, maxTotal] and the grand total given lies in [0, grand maximum]. */
  lemma {:induction false} TotalsWithinMax(m: Marks, roster: seq<Id>, ps: seq<Parameter>)
    requires forall k :: 0 <= k < |roster| ==> PlainId(roster[k])
    requires InRange(m, ps)
    ensures forall k :: 0 <= k < |roster| ==> 0 <= StudentTotal(m, roster[k], ps) <= MaxTotal(ps)
    ensures 0 <= GrandGiven(m, roster, ps) <= GrandMax(roster, ps)
  {
    forall k | 0 <= k < |roster| ensures 0 <= StudentTotal(m, roster[k], ps) <= MaxTotal(ps) {
      StudentTotalWithinMax(m, roster[k], ps);
    }
    if roster != [] {
      TotalsWithinMax(m, roster[1..], ps);
      assert GrandMax(roster, ps) == MaxTotal(ps) + GrandMax(roster[1..], ps) by {
        assert |roster| == 1 + |roster[1..]|;
      }
    }
  }

  // ---------------------------------------------------------------------------
  // The batch built by handleSaveAllEvaluations

  /** One student's entries, in parameter order. */
  function Row(studentId: Id, ps: seq<Parameter>, m: Marks): (r: seq<BatchEntry>)
    ensures |r| == |ps|
  {
    seq(|ps|, j requires 0 <= j < |ps| =>
      BatchEntry(Some(studentId), Some(ps[j].id), CellValue(m, CellKey(studentId, ps[j].id))))
  }

  /** The dense batch: a row per student, flattened in roster order. */
  function BuildBatch(roster: seq<Id>, ps: seq<Parameter>, m: Marks): (r: seq<BatchEntry>)
    ensures |r| == |roster| * |ps|
    ensures forall e :: e in r ==> e.student.Some? && e.student.value in roster
  {
    if roster == [] then []
    else
      var rest := BuildBatch(roster[1..], ps, m);
      assert |roster| * |ps| == |ps| + |roster[1..]| * |ps| by {
        assert |roster| == 1 + |roster[1..]|;
      }
      Row(roster[0], ps, m) + rest
  }

  /** The batch is student-major then parameter order, with a missing or blank
      mark sent as 0. */
  lemma {:induction false} BatchAt(roster: seq<Id>, ps: seq<Parameter>, m: Marks, i: nat, j: nat)
    requires i < |roster| && j < |ps|
    ensures i * |ps| + j < |BuildBatch(roster, ps, m)|
    ensures BuildBatch(roster, ps, m)[i * |ps| + j]
         == BatchEntry(Some(roster[i]), Some(ps[j].id), CellValue(m, CellKey(roster[i], ps[j].id)))
  {
    var n := |ps|;
    var rest := BuildBatch(roster[1..], ps, m);
    assert BuildBatch(roster, ps, m) == Row(roster[0], ps, m) + rest;
    if i == 0 {
      assert i * n + j == j;
    } else {
      BatchAt(roster[1..], ps, m, i - 1, j);
      assert i * n == n + (i - 1) * n;
    }
  }

  function SumMarks(b: seq<BatchEntry>): int {
    if b == [] then 0 else b[0].marks + SumMarks(b[1..])
  }

  lemma {:induction false} SumMarksAppend(a: seq<BatchEntry>, b: seq<BatchEntry>)
    ensures SumMarks(a + b) == SumMarks(a) + SumMarks(b)
  {
    if a != [] {
      assert (a + b)[1..] == a[1..] + b;
      SumMarksAppend(a[1..], b);
    } else {
      assert a + b == b;
    }
  }

  lemma {:induction false} RowSumIsStudentTotal(sid: Id, ps: seq<Parameter>, m: Marks)
    ensures SumMarks(Row(sid, ps, m)) == StudentTotal(m, sid, ps)
  {
    if ps != [] {
      assert Row(sid, ps, m)[1..] == Row(sid, ps[1..], m);
      RowSumIsStudentTotal(sid, ps[1..], m);
    }
  }

  /** The marks posted on save add up to the grand total shown. */
  lemma {:induction false} BatchSumIsGrandGiven(roster: seq<Id>, ps: seq<Parameter>, m: Marks)
    ensures SumMarks(BuildBatch(roster, ps, m)) == GrandGiven(m, roster, ps)
  {
    if roster != [] {
      SumMarksAppend(Row(roster[0], ps, m), BuildBatch(roster[1..], ps, m));
      RowSumIsStudentTotal(roster[0], ps, m);
      BatchSumIsGrandGiven(roster[1..], ps, m);
    }
  }

  predicate NoDuplicates(roster: seq<Id>) {
    forall i, j :: 0 <= i < j < |roster| ==> roster[i] != roster[j]
  }

  predicate UniqueIds(ps: seq<Parameter>) {
    forall i, j :: 0 <= i < j < |ps| ==> ps[i].id != ps[j].id
  }

  /** A roster without repeats and a catalogue without repeated ids give a batch
      that addresses every cell once. */
  lemma {:induction false} BatchCellsDistinct(roster: seq<Id>, ps: seq<Parameter>, m: Marks)
    requires NoDuplicates(roster)
    requires UniqueIds(ps)
    ensures DistinctCells(BuildBatch(roster, ps, m))
  {
    if roster != [] {
      var row, rest := Row(roster[0], ps, m), BuildBatch(roster[1..], ps, m);
      assert NoDuplicates(roster[1..]) by {
        forall i, j | 0 <= i < j < |roster| - 1 ensures roster[1..][i] != roster[1..][j] {
          assert roster[1..][i] == roster[i + 1] && roster[1..][j] == roster[j + 1];
        }
      }
      BatchCellsDistinct(roster[1..], ps, m);
      var b := row + rest;
      forall i, j | 0 <= i < j < |b|
        ensures (b[i].student, b[i].parameter) != (b[j].student, b[j].parameter)
      {
        if j < |row| {
          assert b[i] == row[i] && b[j] == row[j];
        } else if i < |row| {
          assert b[i] == row[i] && b[j] == rest[j - |row|];
          assert rest[j - |row|] in rest;
          assert b[j].student.value in roster[1..];
          assert roster[0] !in roster[1..];
        } else {
          assert b[i] == rest[i - |row|] && b[j] == rest[j - |row|];
        }
      }
    }
  }

  // ---------------------------------------------------------------------------
  // handleMarkChange

  datatype EditOutcome =
    | Accepted
    | Rejected(max: int)   // the "Max N marks allowed" toast
    | NoSuchParameter      // `param.marks` read on undefined throws

  /** `evaluationParameters.find(p => p._id === paramId)`. */
  function FindParameter(ps: seq<Parameter>, pid: Id): (r: Option<Parameter>)
    ensures r.None? <==> forall j :: 0 <= j < |ps| ==> ps[j].id != pid
    ensures r.Some? ==> exists j :: 0 <= j < |ps| && ps[j] == r.value && r.value.id == pid
                                    && forall k :: 0 <= k < j ==> ps[k].id != pid
  {
    if ps == [] then None
    else if ps[0].id == pid then Some(ps[0])
    else
      var r := FindParameter(ps[1..], pid);
      assert forall k :: 1 <= k < |ps| ==> ps[k] == ps[1..][k - 1];
      r
  }

  /** `value === "" ? "" : Math.max(0, Number(value))`. */
  function Coerce(value: Input): (e: Entry)
    ensures value.EmptyInput? <==> e.Blank?
    ensures value.Typed? ==> e.n >= 0 && e.n >= value.v && (value.v >= 0 ==> e.n == value.v)
    ensures value.Typed? && value.v < 0 ==> e == Num(0)
  {
    match value
    case EmptyInput => Blank
    case Typed(v) => Num(if v < 0 then 0 else v)
  }

  /** An entry handleMarkChange may store for parameter `pid`: blank, zero, or a
      positive value no larger than the parameter's maximum. */
  predicate Admissible(ps: seq<Parameter>, pid: Id, e: Entry) {
    || e.Blank?
    || (e.Num? && e.n == 0)
    || (e.Num? && e.n > 0 && FindParameter(ps, pid).Some? && e.n <= FindParameter(ps, pid).value.marks)
  }

  predicate NonNegativeMaxima(ps: seq<Parameter>) {
    forall j :: 0 <= j < |ps| ==> ps[j].marks >= 0
  }

  /** Storing an admissible entry keeps every cell within its parameter's range. */
  lemma {:induction false} AdmissibleEditKeepsInRange(m: Marks, ps: seq<Parameter>, sid: Id, pid: Id, e: Entry)
    requires InRange(m, ps)
    requires UniqueIds(ps) && NonNegativeMaxima(ps)
    requires PlainId(sid)
    requires Admissible(ps, pid, e)
    ensures InRange(m[CellKey(sid, pid) := e], ps)
  {
    var m' := m[CellKey(sid, pid) := e];
    forall sid', j | PlainId(sid') && 0 <= j < |ps|
      ensures 0 <= CellValue(m', CellKey(sid', ps[j].id)) <= ps[j].marks
    {
      CellKeyInjective(sid', ps[j].id, sid, pid);
      if CellKey(sid', ps[j].id) == CellKey(sid, pid) {
        if e.Num? && e.n > 0 {
          var found := FindParameter(ps, pid).value;
          var k :| 0 <= k < |ps| && ps[k] == found && found.id == pid;
          assert k == j;
        }
      } else {
        assert CellValue(m', CellKey(sid', ps[j].id)) == CellValue(m, CellKey(sid', ps[j].id));
      }
    }
  }

  // ---------------------------------------------------------------------------
  // The loader of fetchGroupDetails

  /** An element of `groupData.evaluations` with the ids already converted with
      `String(...)`. */
  datatype LoadedEvaluation = LoadedEvaluation(studentId: Id, parameterId: Id, givenMarks: Entry)

  /** Whether the loader writes `e` under `key`: both ids must be non-empty. */
  predicate Writes(e: LoadedEvaluation, key: string) {
    e.studentId != "" && e.parameterId != "" && CellKey(e.studentId, e.parameterId) == key
  }

  /** The dictionary the `forEach` builds: later evaluations overwrite earlier ones. */
  function Loaded(evals: seq<LoadedEvaluation>): Marks {
    if evals == [] then map[]
    else
      var m := Loaded(evals[..|evals| - 1]);
      var e := evals[|evals| - 1];
      if e.studentId != "" && e.parameterId != "" then m[CellKey(e.studentId, e.parameterId) := e.givenMarks]
      else m
  }

  /** A key is loaded exactly when some evaluation writes it, and it holds the
      marks of the last evaluation that does. */
  lemma {:induction false} LoadedLastWins(evals: seq<LoadedEvaluation>, key: string)
    ensures key in Loaded(evals) <==> exists i :: 0 <= i < |evals| && Writes(evals[i], key)
    ensures forall i :: 0 <= i < |evals| && Writes(evals[i], key)
                        && (forall j :: i < j < |evals| ==> !Writes(evals[j], key))
                        ==> key in Loaded(evals) && Loaded(evals)[key] == evals[i].givenMarks
  {
    if evals != [] {
      var n := |evals| - 1;
      var init, e := evals[..n], evals[n];
      LoadedLastWins(init, key);
      var m := Loaded(init);
      assert forall i :: 0 <= i < n ==> init[i] == evals[i];
      if Writes(e, key) {
        assert Loaded(evals) == m[key := e.givenMarks];
        forall i | 0 <= i < |evals| && Writes(evals[i], key)
                   && (forall j :: i < j < |evals| ==> !Writes(evals[j], key))
          ensures Loaded(evals)[key] == evals[i].givenMarks
        {
          assert i == n;
        }
      } else {
        assert key in Loaded(evals) <==> key in m;
        assert key in m ==> Loaded(evals)[key] == m[key];
        assert (exists i :: 0 <= i < |evals| && Writes(evals[i], key))
           <==> (exists i :: 0 <= i < n && Writes(init[i], key));
      }
    }
  }

  // ---------------------------------------------------------------------------

  /** The state of the ProjectManagement page that the mark sheet reads and writes. */
  class MarkSheet {
    var parameters: seq<Parameter>   // evaluationParameters
    var roster: seq<Id>              // the selected group's student ids
    var marksData: Marks

    constructor (parameters: seq<Parameter>)
      ensures this.parameters == parameters && roster == [] && marksData == map[]
    {
      this.parameters := parameters;
      roster := [];
      marksData := map[];
    }

    /** fetchGroupDetails: take the group's students and rebuild `marksData` from
        its evaluations. */
    method LoadGroup(students: seq<Id>, evals: seq<LoadedEvaluation>)
      modifies this`roster, this`marksData
      ensures roster == students
      ensures marksData == Loaded(evals)
    {
      roster := students;
      var marks: Marks := map[];
      var i := 0;
      while i < |evals|
        invariant 0 <= i <= |evals|
        invariant marks == Loaded(evals[..i])
      {
        assert evals[..i + 1][..i] == evals[..i];
        var e := evals[i];
        if e.studentId != "" && e.parameterId != "" {
          marks := marks[CellKey(e.studentId, e.parameterId) := e.givenMarks];
        }
        i := i + 1;
      }
      assert evals[..i] == evals;
      marksData := marks;
    }

    /** handleMarkChange: an empty input or a value clamped to 0 is always stored;
        a positive value above the parameter's maximum is refused and nothing
        changes; an accepted edit writes only its own key. */
    method HandleMarkChange(studentId: Id, paramId: Id, value: Input) returns (outcome: EditOutcome)
      modifies this`marksData
      ensures outcome == Accepted ==> marksData == old(marksData)[CellKey(studentId, paramId) := Coerce(value)]
      ensures outcome != Accepted ==> marksData == old(marksData)
      ensures (value.EmptyInput? || value.v <= 0) ==> outcome == Accepted
      ensures outcome.Rejected? <==>
                value.Typed? && value.v > 0 && FindParameter(parameters, paramId).Some?
                && value.v > FindParameter(parameters, paramId).value.marks
      ensures outcome.Rejected? ==> outcome.max == FindParameter(parameters, paramId).value.marks
      ensures outcome == NoSuchParameter <==>
                value.Typed? && value.v > 0 && FindParameter(parameters, paramId).None?
      ensures outcome == Accepted ==> Admissible(parameters, paramId, Coerce(value))
      ensures && old(InRange(marksData, parameters)) && UniqueIds(parameters)
              && NonNegativeMaxima(parameters) && PlainId(studentId)
              ==> InRange(marksData, parameters)
    {
      var numValue := Coerce(value);
      var param := FindParameter(parameters, paramId);
      if numValue.Num? && numValue.n != 0 {
        if param.None? {
          return NoSuchParameter;
        }
        if numValue.n > param.value.marks {
          return Rejected(param.value.marks);
        }
      }
      if InRange(marksData, parameters) && UniqueIds(parameters) && NonNegativeMaxima(parameters) && PlainId(studentId) {
        AdmissibleEditKeepsInRange(marksData, parameters, studentId, paramId, numValue);
      }
      marksData := marksData[CellKey(studentId, paramId) := numValue];
      outcome := Accepted;
    }
  }
}
