/** The Evaluation collection's schema: which documents it accepts and the
    compound unique index on (group, student, parameter). */
module EvaluationSchema {
  import opened Common

  /** A document of the Evaluation collection after the schema has cast it; a path
      the document does not set is `None`. Paths the schema does not declare are
      dropped by the cast (strict mode), so they have no field here. */
  datatype Evaluation = Evaluation(
    group: Option<Id>,
    guide: Option<Id>,
    student: Option<Id>,
    parameter: Option<Id>,
    marks: Option<int>)

  /** The schema's validators: every path is required and `marks` has `min: 0`. */
  predicate ValidRecord(e: Evaluation) {
    && e.group.Some?
    && e.guide.Some?
    && e.student.Some?
    && e.parameter.Some?
    && e.marks.Some?
    && e.marks.value >= 0
  }

  /** Two documents collide on the compound unique index. */
  predicate SameTriple(a: Evaluation, b: Evaluation) {
    a.group == b.group && a.student == b.student && a.parameter == b.parameter
  }

  /** No two documents of the collection share a (group, student, parameter) triple. */
  predicate UniqueTriples(t: seq<Evaluation>) {
    forall i, j :: 0 <= i < j < |t| ==> !SameTriple(t[i], t[j])
  }

  /** The state every stored collection is in: all documents pass validation and
      the unique index holds. */
  predicate ValidTable(t: seq<Evaluation>) {
    (forall i :: 0 <= i < |t| ==> ValidRecord(t[i])) && UniqueTriples(t)
  }

  /** True when some document of `t` already holds the triple of `d`. */
  predicate Clashes(t: seq<Evaluation>, d: Evaluation) {
    exists i :: 0 <= i < |t| && SameTriple(t[i], d)
  }

  /** The marks stored for one triple, if any. */
  function MarksOf(t: seq<Evaluation>, g: Id, s: Id, p: Id): (r: Option<int>)
    ensures r.Some? ==> exists i :: 0 <= i < |t| && t[i].group == Some(g) && t[i].student == Some(s)
                                    && t[i].parameter == Some(p) && t[i].marks == r
    ensures r.None? ==> forall i :: 0 <= i < |t| ==> !(t[i].group == Some(g) && t[i].student == Some(s)
                                                       && t[i].parameter == Some(p) && t[i].marks.Some?)
  {
    if t == [] then None
    else if t[0].group == Some(g) && t[0].student == Some(s) && t[0].parameter == Some(p) && t[0].marks.Some?
    then t[0].marks
    else
      var r := MarksOf(t[1..], g, s, p);
      assert forall i :: 1 <= i < |t| ==> t[i] == t[1..][i - 1];
      r
  }

  /** Appending a valid document whose triple is free keeps the collection valid:
      this is what the unique index admits one insert at a time. */
  lemma {:induction false} AppendFreeTriple(t: seq<Evaluation>, d: Evaluation)
    requires ValidTable(t) && ValidRecord(d) && !Clashes(t, d)
    ensures ValidTable(t + [d])
  {
    var u := t + [d];
    forall i, j | 0 <= i < j < |u| ensures !SameTriple(u[i], u[j]) {
      if j == |t| {
        assert u[j] == d && u[i] == t[i];
      } else {
        assert u[i] == t[i] && u[j] == t[j];
      }
    }
  }

  /** In a valid collection a triple has at most one document, so its stored marks
      are determined by the triple. */
  lemma {:induction false} OneRecordPerTriple(t: seq<Evaluation>)
    requires ValidTable(t)
    ensures forall i, j :: 0 <= i < |t| && 0 <= j < |t| && SameTriple(t[i], t[j]) ==> i == j
  {
    forall i, j | 0 <= i < |t| && 0 <= j < |t| && i != j ensures !SameTriple(t[i], t[j]) {
      if i < j {
        assert !SameTriple(t[i], t[j]);
      } else {
        assert !SameTriple(t[j], t[i]);
      }
    }
  }

  /** In a valid collection, looking up a stored document's triple gives that
      document's marks. */
  lemma {:induction false} MarksOfStored(t: seq<Evaluation>, k: nat)
    requires ValidTable(t) && k < |t|
    ensures MarksOf(t, t[k].group.value, t[k].student.value, t[k].parameter.value) == t[k].marks
  {
    var d := t[k];
    var r := MarksOf(t, d.group.value, d.student.value, d.parameter.value);
    assert r.Some?;
    var k' :| 0 <= k' < |t| && t[k'].group == d.group && t[k'].student == d.student
                            && t[k'].parameter == d.parameter && t[k'].marks == r;
    OneRecordPerTriple(t);
    assert SameTriple(t[k], t[k']);
  }
}
