/** The server side of project evaluation: the Evaluation collection, the group
    status it drives, and the parameter catalogue. The pure functions describe one
    save as a state transition; the class EvaluationDb performs it step by step. */
module EvaluationStore {
  import opened Common
  import opened EvaluationSchema

  datatype GroupStatus = NotStarted | InProgress | Completed

  /** A document of the Group collection, reduced to the paths read here; `course`
      and `year` stand for the paths the evaluation lookup does not select. */
  datatype Group = Group(
    projectTitle: string,
    projectTechnology: string,
    status: GroupStatus,
    students: seq<Id>,
    course: string,
    year: string)

  datatype Student = Student(id: Id, name: string, enrollmentNumber: string)

  /** What getProjectEvaluationById answers with: the selected paths of the group,
      with its student references populated. */
  datatype GroupSummary = GroupSummary(
    id: Id,
    projectTitle: string,
    projectTechnology: string,
    status: GroupStatus,
    students: seq<Student>)

  /** Why insertMany threw, and at which document of the batch. */
  datatype InsertError = ValidationError(at: nat) | DuplicateKey(at: nat)

  datatype SaveOutcome = Saved | Failed(error: InsertError)

  /** The part of the database a save reads and writes. */
  datatype State = State(records: seq<Evaluation>, groups: map<Id, Group>)

  // ---------------------------------------------------------------------------
  // deleteMany({ group }) and the records of one group

  /** The collection after `deleteMany({ group: g })`, in collection order. */
  function Without(t: seq<Evaluation>, g: Id): (r: seq<Evaluation>)
    ensures forall e :: e in r <==> e in t && e.group != Some(g)
  {
    if t == [] then []
    else
      assert t == t[..|t| - 1] + [t[|t| - 1]];
      Without(t[..|t| - 1], g) + (if t[|t| - 1].group == Some(g) then [] else [t[|t| - 1]])
  }

  /** The records of group `g`, in collection order. */
  function OfGroup(t: seq<Evaluation>, g: Id): (r: seq<Evaluation>)
    ensures forall e :: e in r <==> e in t && e.group == Some(g)
  {
    if t == [] then []
    else
      assert t == t[..|t| - 1] + [t[|t| - 1]];
      OfGroup(t[..|t| - 1], g) + (if t[|t| - 1].group == Some(g) then [t[|t| - 1]] else [])
  }

  predicate AllOfGroup(docs: seq<Evaluation>, g: Id) {
    forall i :: 0 <= i < |docs| ==> docs[i].group == Some(g)
  }

  lemma {:induction false} WithoutAppendOnly(a: seq<Evaluation>, b: seq<Evaluation>, g: Id)
    ensures Without(a + b, g) == Without(a, g) + Without(b, g)
  {
    if b != [] {
      var b' := b[..|b| - 1];
      assert (a + b)[..|a + b| - 1] == a + b';
      WithoutAppendOnly(a, b', g);
    } else {
      assert a + b == a;
    }
  }

  lemma {:induction false} OfGroupAppend(a: seq<Evaluation>, b: seq<Evaluation>, g: Id)
    ensures OfGroup(a + b, g) == OfGroup(a, g) + OfGroup(b, g)
  {
    if b != [] {
      var b' := b[..|b| - 1];
      assert (a + b)[..|a + b| - 1] == a + b';
      OfGroupAppend(a, b', g);
    } else {
      assert a + b == a;
    }
  }

  /** The delete and the group's records both distribute over concatenation. */
  lemma WithoutAppend(a: seq<Evaluation>, b: seq<Evaluation>, g: Id)
    ensures Without(a + b, g) == Without(a, g) + Without(b, g)
    ensures OfGroup(a + b, g) == OfGroup(a, g) + OfGroup(b, g)
  {
    WithoutAppendOnly(a, b, g);
    OfGroupAppend(a, b, g);
  }

  /** Removing group `g` leaves no record of `g` and every record of every other
      group, in the same order. */
  lemma {:induction false} WithoutSeparatesGroups(t: seq<Evaluation>, g: Id, h: Id)
    ensures OfGroup(Without(t, g), g) == []
    ensures h != g ==> OfGroup(Without(t, g), h) == OfGroup(t, h)
    ensures Without(Without(t, g), g) == Without(t, g)
  {
    if t != [] {
      var init, last := t[..|t| - 1], t[|t| - 1];
      WithoutSeparatesGroups(init, g, h);
      var tail := if last.group == Some(g) then [] else [last];
      var w := Without(init, g);
      assert Without(t, g) == w + tail;
      assert OfGroup(t, h) == OfGroup(init, h) + (if last.group == Some(h) then [last] else []);
      WithoutAppend(w, tail, g);
      WithoutAppend(w, tail, h);
      if last.group != Some(g) {
        assert [last][..0] == [];
        assert Without(tail, g) == tail && OfGroup(tail, g) == [];
        assert OfGroup(tail, h) == (if last.group == Some(h) then [last] else []);
      } else {
        assert tail == [];
      }
    }
  }

  lemma AllOfGroupInit(d: seq<Evaluation>, g: Id)
    requires AllOfGroup(d, g) && d != []
    ensures AllOfGroup(d[..|d| - 1], g)
  {
    var init := d[..|d| - 1];
    forall i | 0 <= i < |init| ensures init[i].group == Some(g) {
      assert init[i] == d[i];
    }
  }

  lemma {:induction false} AllDeleted(d: seq<Evaluation>, g: Id)
    requires AllOfGroup(d, g)
    ensures Without(d, g) == []
  {
    if d != [] {
      AllOfGroupInit(d, g);
      AllDeleted(d[..|d| - 1], g);
      assert d[|d| - 1].group == Some(g);
    }
  }

  lemma {:induction false} AllSelected(d: seq<Evaluation>, g: Id)
    requires AllOfGroup(d, g)
    ensures OfGroup(d, g) == d
  {
    if d != [] {
      var init, last := d[..|d| - 1], d[|d| - 1];
      assert d == init + [last];
      AllOfGroupInit(d, g);
      AllSelected(init, g);
      calc {
        OfGroup(d, g);
        OfGroup(init, g) + [last];
        init + [last];
      }
    }
  }

  /** A batch whose documents all belong to `g` is wholly removed by the delete and
      wholly selected by the group's records. */
  lemma BatchOfOneGroup(d: seq<Evaluation>, g: Id)
    requires AllOfGroup(d, g)
    ensures Without(d, g) == [] && OfGroup(d, g) == d
  {
    AllDeleted(d, g);
    AllSelected(d, g);
  }

  /** deleteMany cannot break the collection's invariants. */
  lemma {:induction false} WithoutKeepsValid(t: seq<Evaluation>, g: Id)
    requires ValidTable(t)
    ensures ValidTable(Without(t, g))
  {
    if t != [] {
      var init, last := t[..|t| - 1], t[|t| - 1];
      assert ValidTable(init) by {
        forall i, j | 0 <= i < j < |init| ensures !SameTriple(init[i], init[j]) {
          assert init[i] == t[i] && init[j] == t[j];
        }
      }
      WithoutKeepsValid(init, g);
      if last.group != Some(g) {
        var kept := Without(init, g);
        forall i | 0 <= i < |kept| ensures !SameTriple(kept[i], last) {
          assert kept[i] in init;
          var k :| 0 <= k < |init| && init[k] == kept[i];
          assert t[k] == kept[i];
        }
        AppendFreeTriple(kept, last);
      }
    }
  }

  // ---------------------------------------------------------------------------
  // insertMany: every document is validated before any is written; the writes
  // are ordered and stop at the first duplicate key.

  /** The first document the schema's validators reject, if any. */
  function FirstInvalid(docs: seq<Evaluation>): (r: Option<nat>)
    ensures r.None? <==> forall i :: 0 <= i < |docs| ==> ValidRecord(docs[i])
    ensures r.Some? ==> r.value < |docs| && !ValidRecord(docs[r.value])
                        && forall i :: 0 <= i < r.value ==> ValidRecord(docs[i])
  {
    if docs == [] then None
    else if !ValidRecord(docs[0]) then Some(0)
    else
      match FirstInvalid(docs[1..])
      case None => None
      case Some(k) => Some(k + 1)
  }

  /** The first document whose triple is already held, by the collection `t` or by
      a document of the batch written before it, if any. */
  function FirstClash(t: seq<Evaluation>, docs: seq<Evaluation>): (r: Option<nat>)
    ensures r.None? ==> forall k :: 0 <= k < |docs| ==> !Clashes(t + docs[..k], docs[k])
    ensures r.Some? ==> && r.value < |docs|
                        && Clashes(t + docs[..r.value], docs[r.value])
                        && forall k :: 0 <= k < r.value ==> !Clashes(t + docs[..k], docs[k])
    decreases |docs|
  {
    if docs == [] then None
    else if Clashes(t, docs[0]) then (assert t + docs[..0] == t; Some(0))
    else
      var rest := FirstClash(t + [docs[0]], docs[1..]);
      assert t + docs[..0] == t;
      assert forall k :: 1 <= k <= |docs| ==> (t + [docs[0]]) + docs[1..][..k - 1] == t + docs[..k];
      match rest
      case None => None
      case Some(k) => Some(k + 1)
  }

  datatype Inserted = Inserted(table: seq<Evaluation>, error: Option<InsertError>)

  /** The collection after `insertMany(docs)` and whether it threw. */
  function InsertOutcome(t: seq<Evaluation>, docs: seq<Evaluation>): (r: Inserted)
    ensures r.error.None? <==> && (forall i :: 0 <= i < |docs| ==> ValidRecord(docs[i]))
                               && (forall k :: 0 <= k < |docs| ==> !Clashes(t + docs[..k], docs[k]))
    ensures r.error.None? ==> r.table == t + docs
    ensures r.error.Some? && r.error.value.ValidationError? ==>
              && r.error.value.at < |docs| && !ValidRecord(docs[r.error.value.at])
              && (forall i :: 0 <= i < r.error.value.at ==> ValidRecord(docs[i]))
              && r.table == t
    ensures r.error.Some? && r.error.value.DuplicateKey? ==>
              && r.error.value.at < |docs|
              && (forall i :: 0 <= i < |docs| ==> ValidRecord(docs[i]))
              && Clashes(t + docs[..r.error.value.at], docs[r.error.value.at])
              && (forall k :: 0 <= k < r.error.value.at ==> !Clashes(t + docs[..k], docs[k]))
              && r.table == t + docs[..r.error.value.at]
  {
    match FirstInvalid(docs)
    case Some(i) => Inserted(t, Some(ValidationError(i)))
    case None =>
      match FirstClash(t, docs)
      case None => Inserted(t + docs, None)
      case Some(k) => Inserted(t + docs[..k], Some(DuplicateKey(k)))
  }

  /** Writing the clash-free prefix of a validated batch keeps the invariants. */
  lemma {:induction false} PrefixWithoutClashKeepsValid(t: seq<Evaluation>, docs: seq<Evaluation>, n: nat)
    requires ValidTable(t)
    requires n <= |docs|
    requires forall i :: 0 <= i < |docs| ==> ValidRecord(docs[i])
    requires forall k :: 0 <= k < n ==> !Clashes(t + docs[..k], docs[k])
    ensures ValidTable(t + docs[..n])
  {
    if n == 0 {
      assert t + docs[..0] == t;
    } else {
      PrefixWithoutClashKeepsValid(t, docs, n - 1);
      AppendFreeTriple(t + docs[..n - 1], docs[n - 1]);
      assert t + docs[..n - 1] + [docs[n - 1]] == t + docs[..n];
    }
  }

  /** insertMany cannot break the collection's invariants, whatever the batch. */
  lemma {:induction false} InsertKeepsValid(t: seq<Evaluation>, docs: seq<Evaluation>)
    requires ValidTable(t)
    ensures ValidTable(InsertOutcome(t, docs).table)
  {
    if FirstInvalid(docs).None? {
      match FirstClash(t, docs)
      case None =>
        PrefixWithoutClashKeepsValid(t, docs, |docs|);
        assert docs[..|docs|] == docs;
      case Some(k) =>
        PrefixWithoutClashKeepsValid(t, docs, k);
    }
  }

  // ---------------------------------------------------------------------------
  // saveEvaluation as a state transition

  /** `Group.findByIdAndUpdate(g, { status: "Completed" })`: no effect on an unknown id. */
  function MarkCompleted(groups: map<Id, Group>, g: Id): (r: map<Id, Group>)
    ensures r.Keys == groups.Keys
    ensures forall h :: h in groups && h != g ==> r[h] == groups[h]
    ensures g in groups ==> r[g] == groups[g].(status := Completed)
  {
    if g in groups then groups[g := groups[g].(status := Completed)] else groups
  }

  /** One call of saveEvaluation with the documents it built: delete the group's
      records, insert the batch if it is non-empty, and only if nothing threw set
      the group's status. */
  function Save(s: State, g: Id, docs: seq<Evaluation>): (r: (State, SaveOutcome))
    ensures r.1.Saved? <==> && (forall i :: 0 <= i < |docs| ==> ValidRecord(docs[i]))
                            && (forall k :: 0 <= k < |docs| ==> !Clashes(Without(s.records, g) + docs[..k], docs[k]))
    ensures r.0.groups == if r.1.Saved? then MarkCompleted(s.groups, g) else s.groups
  {
    var kept := Without(s.records, g);
    if |docs| > 0 then
      var ins := InsertOutcome(kept, docs);
      if ins.error.Some? then (State(ins.table, s.groups), Failed(ins.error.value))
      else (State(ins.table, MarkCompleted(s.groups, g)), Saved)
    else (State(kept, MarkCompleted(s.groups, g)), Saved)
  }

  /** The collection after the delete and the write of `written`, all of group
      `g`: the other groups as before, and group `g` holding exactly `written`. */
  lemma {:induction false} ReplacedTable(t: seq<Evaluation>, g: Id, written: seq<Evaluation>)
    requires AllOfGroup(written, g)
    ensures Without(Without(t, g) + written, g) == Without(t, g)
    ensures OfGroup(Without(t, g) + written, g) == written
  {
    var kept := Without(t, g);
    WithoutSeparatesGroups(t, g, g);
    BatchOfOneGroup(written, g);
    WithoutAppend(kept, written, g);
  }

  /** A save touches only group `g`: the records of every other group survive in
      their order. On success the group's records are exactly the batch and its
      status is Completed, with no check that every cell was covered. */
  lemma {:induction false} SaveReplacesGroup(s: State, g: Id, docs: seq<Evaluation>)
    requires AllOfGroup(docs, g)
    ensures var (s', out) := Save(s, g, docs);
            && Without(s'.records, g) == Without(s.records, g)
            && (out.Saved? ==> OfGroup(s'.records, g) == docs)
            && (out.Saved? ==> s'.groups == MarkCompleted(s.groups, g))
            && (out.Saved? && g in s.groups ==> s'.groups[g].status == Completed)
  {
    var kept := Without(s.records, g);
    if |docs| == 0 {
      ReplacedTable(s.records, g, []);
      assert kept + [] == kept;
    } else {
      var ins := InsertOutcome(kept, docs);
      if ins.error.None? {
        ReplacedTable(s.records, g, docs);
      } else if ins.error.value.ValidationError? {
        ReplacedTable(s.records, g, []);
        assert kept + [] == kept;
      } else {
        var k := ins.error.value.at;
        assert AllOfGroup(docs[..k], g);
        ReplacedTable(s.records, g, docs[..k]);
      }
    }
  }

  /** An empty (or missing) batch still deletes all of the group's records and
      still completes the group. */
  lemma {:induction false} SaveEmptyBatch(s: State, g: Id)
    ensures var (s', out) := Save(s, g, []);
            && out == Saved
            && OfGroup(s'.records, g) == []
            && Without(s'.records, g) == Without(s.records, g)
            && (g in s.groups ==> s'.groups[g].status == Completed)
  {
    WithoutSeparatesGroups(s.records, g, g);
  }

  /** A failed insert is not rolled back: the delete stands, the documents written
      before the failure stay, and the status update is skipped. */
  lemma {:induction false} SaveFailureKeepsDeletion(s: State, g: Id, docs: seq<Evaluation>)
    requires AllOfGroup(docs, g)
    ensures var (s', out) := Save(s, g, docs);
            out.Failed? ==>
              && s'.groups == s.groups
              && Without(s'.records, g) == Without(s.records, g)
              && (out.error.ValidationError? ==> OfGroup(s'.records, g) == [])
              && (out.error.DuplicateKey? ==>
                    out.error.at < |docs| && OfGroup(s'.records, g) == docs[..out.error.at])
  {
    var kept := Without(s.records, g);
    SaveReplacesGroup(s, g, docs);
    var ins := InsertOutcome(kept, docs);
    if |docs| > 0 && ins.error.Some? {
      if ins.error.value.ValidationError? {
        ReplacedTable(s.records, g, []);
        assert kept + [] == kept;
      } else {
        var k := ins.error.value.at;
        assert AllOfGroup(docs[..k], g);
        ReplacedTable(s.records, g, docs[..k]);
      }
    }
  }

  /** Replace-all is idempotent: saving the same batch twice leaves the same state
      and reports the same outcome as saving it once. */
  lemma {:induction false} SaveIdempotent(s: State, g: Id, docs: seq<Evaluation>)
    requires AllOfGroup(docs, g)
    ensures Save(Save(s, g, docs).0, g, docs) == Save(s, g, docs)
  {
    var s1 := Save(s, g, docs).0;
    SaveReplacesGroup(s, g, docs);
    WithoutSeparatesGroups(s.records, g, g);
    assert Without(s1.records, g) == Without(s.records, g);
    if g in s.groups {
      assert MarkCompleted(MarkCompleted(s.groups, g), g) == MarkCompleted(s.groups, g);
    }
  }

  /** No save can break the collection's invariants. */
  lemma {:induction false} SaveKeepsValid(s: State, g: Id, docs: seq<Evaluation>)
    requires ValidTable(s.records)
    ensures ValidTable(Save(s, g, docs).0.records)
  {
    WithoutKeepsValid(s.records, g);
    InsertKeepsValid(Without(s.records, g), docs);
  }

  /** A batch that holds one triple twice cannot be stored in full: the save fails. */
  lemma {:induction false} DuplicateBatchFails(s: State, g: Id, docs: seq<Evaluation>, i: nat, j: nat)
    requires i < j < |docs|
    requires SameTriple(docs[i], docs[j])
    ensures Save(s, g, docs).1.Failed?
  {
    var kept := Without(s.records, g);
    assert (kept + docs[..j])[|kept| + i] == docs[i];
    assert Clashes(kept + docs[..j], docs[j]);
  }

  // ---------------------------------------------------------------------------
  // The documents saveEvaluation builds from the posted batch

  function Doc(g: Id, guide: Option<Id>, e: BatchEntry): Evaluation {
    Evaluation(Some(g), guide, e.student, e.parameter, Some(e.marks))
  }

  /** The documents as the controller builds them: `evaluatedBy` is not a path of
      the schema, so the cast drops it, and `guide` is never set. */
  function AsWrittenDocs(g: Id, batch: seq<BatchEntry>): (docs: seq<Evaluation>)
    ensures |docs| == |batch| && AllOfGroup(docs, g)
    ensures forall i :: 0 <= i < |docs| ==> !ValidRecord(docs[i])
  {
    seq(|batch|, i requires 0 <= i < |batch| => Doc(g, None, batch[i]))
  }

  /** The documents with the evaluator recorded in the schema's required `guide` path. */
  function DocsWithGuide(g: Id, batch: seq<BatchEntry>, evaluator: Id): (docs: seq<Evaluation>)
    ensures |docs| == |batch| && AllOfGroup(docs, g)
    ensures forall i :: 0 <= i < |docs| ==> (ValidRecord(docs[i]) <==> Complete(batch[i]))
  {
    seq(|batch|, i requires 0 <= i < |batch| => Doc(g, Some(evaluator), batch[i]))
  }

  /** As written, every non-empty save fails validation on its first document,
      after the group's records have been deleted and without completing the group. */
  lemma {:induction false} AsWrittenSaveLosesMarks(s: State, g: Id, batch: seq<BatchEntry>)
    requires |batch| > 0
    ensures var (s', out) := Save(s, g, AsWrittenDocs(g, batch));
            && out == Failed(ValidationError(0))
            && s'.groups == s.groups
            && OfGroup(s'.records, g) == []
            && Without(s'.records, g) == Without(s.records, g)
  {
    var docs := AsWrittenDocs(g, batch);
    assert !ValidRecord(docs[0]);
    WithoutSeparatesGroups(s.records, g, g);
  }

  /** A batch entry the schema accepts once it carries a guide. */
  predicate Complete(e: BatchEntry) {
    e.student.Some? && e.parameter.Some? && e.marks >= 0
  }

  /** With the guide recorded, a complete batch without repeated cells is stored
      exactly: the save succeeds, the group's records are the batch's documents in
      batch order, and the group is completed. */
  lemma {:induction false} SaveWithGuideStoresBatch(s: State, g: Id, batch: seq<BatchEntry>, evaluator: Id)
    requires forall i :: 0 <= i < |batch| ==> Complete(batch[i])
    requires DistinctCells(batch)
    ensures var docs := DocsWithGuide(g, batch, evaluator);
            var (s', out) := Save(s, g, docs);
            && out == Saved
            && OfGroup(s'.records, g) == docs
            && s'.groups == MarkCompleted(s.groups, g)
  {
    var docs := DocsWithGuide(g, batch, evaluator);
    var kept := Without(s.records, g);
    assert FirstInvalid(docs).None?;
    forall k | 0 <= k < |docs| ensures !Clashes(kept + docs[..k], docs[k]) {
      var u := kept + docs[..k];
      forall i | 0 <= i < |u| ensures !SameTriple(u[i], docs[k]) {
        if i < |kept| {
          assert u[i] in kept;
        } else {
          assert u[i] == docs[i - |kept|];
        }
      }
    }
    SaveReplacesGroup(s, g, docs);
  }

  // ---------------------------------------------------------------------------
  // getEvaluationParameters: the catalogue sorted by `order`

  predicate SortedByOrder(ps: seq<Parameter>) {
    forall i, j :: 0 <= i < j < |ps| ==> ps[i].order <= ps[j].order
  }

  /** No parameter of `ps` comes before `p`. */
  predicate OrderAtMost(p: Parameter, ps: seq<Parameter>) {
    forall k :: 0 <= k < |ps| ==> p.order <= ps[k].order
  }

  lemma ConsKeepsSorted(h: Parameter, s: seq<Parameter>)
    requires SortedByOrder(s) && OrderAtMost(h, s)
    ensures SortedByOrder([h] + s)
  {
    var r := [h] + s;
    forall i, j | 0 <= i < j < |r| ensures r[i].order <= r[j].order {
      assert r[j] == s[j - 1];
      if i > 0 {
        assert r[i] == s[i - 1];
      }
    }
  }

  /** A lower bound on the orders of `a` carries over to `a` with `p` added. */
  lemma BoundCarries(h: Parameter, a: seq<Parameter>, p: Parameter, b: seq<Parameter>)
    requires OrderAtMost(h, a) && h.order <= p.order
    requires multiset(b) == multiset(a) + multiset{p}
    ensures OrderAtMost(h, b)
  {
    forall k | 0 <= k < |b| ensures h.order <= b[k].order {
      assert b[k] in multiset(b);
      if b[k] != p {
        assert b[k] in multiset(a);
        var m :| 0 <= m < |a| && a[m] == b[k];
      }
    }
  }

  function InsertByOrder(p: Parameter, ps: seq<Parameter>): (r: seq<Parameter>)
    requires SortedByOrder(ps)
    ensures SortedByOrder(r)
    ensures multiset(r) == multiset(ps) + multiset{p}
  {
    if ps == [] || p.order <= ps[0].order then
      ConsKeepsSorted(p, ps);
      [p] + ps
    else
      var head, tail := ps[0], ps[1..];
      assert ps == [head] + tail;
      assert SortedByOrder(tail) && OrderAtMost(head, tail) by {
        forall k | 0 <= k < |tail| ensures tail[k] == ps[k + 1] && head.order <= tail[k].order {
        }
      }
      var rest := InsertByOrder(p, tail);
      BoundCarries(head, tail, p, rest);
      ConsKeepsSorted(head, rest);
      assert multiset([head] + rest) == multiset{head} + multiset(rest);
      [head] + rest
  }

  /** The catalogue in ascending `order`: sorted, and a permutation of its input. */
  function SortByOrder(ps: seq<Parameter>): (r: seq<Parameter>)
    ensures SortedByOrder(r)
    ensures multiset(r) == multiset(ps)
  {
    if ps == [] then []
    else
      assert ps == [ps[0]] + ps[1..];
      InsertByOrder(ps[0], SortByOrder(ps[1..]))
  }

  // ---------------------------------------------------------------------------
  // getProjectEvaluationById: populate the group's student references

  /** The populated student list: every reference that resolves, in roster order;
      a reference to a missing student is dropped. */
  function Resolve(ids: seq<Id>, table: map<Id, Student>): (r: seq<Student>)
    ensures |r| <= |ids|
    ensures forall st :: st in r <==> exists k :: 0 <= k < |ids| && ids[k] in table && table[ids[k]] == st
  {
    if ids == [] then []
    else
      var init, last := ids[..|ids| - 1], ids[|ids| - 1];
      var r := Resolve(init, table) + (if last in table then [table[last]] else []);
      assert forall k :: 0 <= k < |init| ==> init[k] == ids[k];
      r
  }

  /** populate resolves a roster piece by piece: the students of a joined roster
      are the students of each part, in that order, and a single reference gives
      its student or nothing. */
  lemma {:induction false} ResolveAppend(a: seq<Id>, b: seq<Id>, table: map<Id, Student>)
    ensures Resolve(a + b, table) == Resolve(a, table) + Resolve(b, table)
    ensures |b| == 1 ==> Resolve(b, table) == if b[0] in table then [table[b[0]]] else []
  {
    if b == [] {
      assert a + b == a;
    } else {
      var init, last := b[..|b| - 1], b[|b| - 1];
      var one := if last in table then [table[last]] else [];
      ResolveAppend(a, init, table);
      assert (a + b)[..|a + b| - 1] == a + init;
      assert (a + b)[|a + b| - 1] == last;
      assert Resolve(b, table) == Resolve(init, table) + one;
      calc {
        Resolve(a + b, table);
        Resolve(a + init, table) + one;
        (Resolve(a, table) + Resolve(init, table)) + one;
        Resolve(a, table) + (Resolve(init, table) + one);
        Resolve(a, table) + Resolve(b, table);
      }
    }
  }

  /** When every reference resolves, populate keeps the roster's length, order and
      repeats: position k holds the student referenced at position k. */
  lemma {:induction false} ResolveAllPresent(ids: seq<Id>, table: map<Id, Student>)
    requires forall k :: 0 <= k < |ids| ==> ids[k] in table
    ensures |Resolve(ids, table)| == |ids|
    ensures forall k :: 0 <= k < |ids| ==> Resolve(ids, table)[k] == table[ids[k]]
  {
    if ids != [] {
      var init := ids[..|ids| - 1];
      assert forall k :: 0 <= k < |init| ==> init[k] == ids[k];
      ResolveAllPresent(init, table);
    }
  }

  // ---------------------------------------------------------------------------

  /** The evaluation database: the Evaluation, Group, Student and
      EvaluationParameter collections. */
  class EvaluationDb {
    var records: seq<Evaluation>
    var groups: map<Id, Group>
    var students: map<Id, Student>
    var parameters: seq<Parameter>

    ghost predicate Valid()
      reads this
    {
      ValidTable(records)
    }

    function Snapshot(): State
      reads this
    {
      State(records, groups)
    }

    constructor (groups: map<Id, Group>, students: map<Id, Student>, parameters: seq<Parameter>)
      ensures Valid()
      ensures records == [] && this.groups == groups
      ensures this.students == students && this.parameters == parameters
    {
      records := [];
      this.groups := groups;
      this.students := students;
      this.parameters := parameters;
    }

    /** `Evaluation.deleteMany({ group: g })`. */
    method DeleteMany(g: Id)
      requires Valid()
      modifies this`records
      ensures Valid()
      ensures records == Without(old(records), g)
    {
      var kept: seq<Evaluation> := [];
      var i := 0;
      while i < |records|
        invariant 0 <= i <= |records|
        invariant kept == Without(records[..i], g)
      {
        assert records[..i + 1][..i] == records[..i];
        if records[i].group != Some(g) {
          kept := kept + [records[i]];
        }
        i := i + 1;
      }
      assert records[..i] == records;
      WithoutKeepsValid(records, g);
      records := kept;
    }

    /** `Evaluation.insertMany(docs)`: validation of every document first, then
        ordered writes that stop at the first duplicate key. */
    method InsertMany(docs: seq<Evaluation>) returns (error: Option<InsertError>)
      requires Valid()
      modifies this`records
      ensures Valid()
      ensures Inserted(records, error) == InsertOutcome(old(records), docs)
    {
      var i := 0;
      while i < |docs|
        invariant 0 <= i <= |docs|
        invariant forall k :: 0 <= k < i ==> ValidRecord(docs[k])
      {
        if !ValidRecord(docs[i]) {
          return Some(ValidationError(i));
        }
        i := i + 1;
      }
      ghost var t0 := records;
      i := 0;
      while i < |docs|
        invariant 0 <= i <= |docs|
        invariant records == t0 + docs[..i]
        invariant forall k :: 0 <= k < i ==> !Clashes(t0 + docs[..k], docs[k])
        invariant ValidTable(records)
      {
        if Clashes(records, docs[i]) {
          return Some(DuplicateKey(i));
        }
        AppendFreeTriple(records, docs[i]);
        assert t0 + docs[..i + 1] == t0 + docs[..i] + [docs[i]];
        records := records + [docs[i]];
        i := i + 1;
      }
      assert docs[..i] == docs;
      error := None;
    }

    /** The shared body of saveEvaluation once the documents are built. */
    method ReplaceGroup(g: Id, docs: seq<Evaluation>) returns (outcome: SaveOutcome)
      requires Valid()
      modifies this`records, this`groups
      ensures Valid()
      ensures (Snapshot(), outcome) == Save(old(Snapshot()), g, docs)
    {
      DeleteMany(g);
      if |docs| > 0 {
        var error := InsertMany(docs);
        if error.Some? {
          return Failed(error.value);
        }
      }
      if g in groups {
        groups := groups[g := groups[g].(status := Completed)];
      }
      outcome := Saved;
    }

    /** saveEvaluation as written. The evaluator identity is passed in but never
        reaches a stored document. */
    method SaveEvaluation(g: Id, batch: seq<BatchEntry>, evaluator: Id) returns (outcome: SaveOutcome)
      requires Valid()
      modifies this`records, this`groups
      ensures Valid()
      ensures (Snapshot(), outcome) == Save(old(Snapshot()), g, AsWrittenDocs(g, batch))
      ensures |batch| > 0 ==> outcome == Failed(ValidationError(0)) && groups == old(groups)
    {
      outcome := ReplaceGroup(g, AsWrittenDocs(g, batch));
      if |batch| > 0 {
        AsWrittenSaveLosesMarks(old(Snapshot()), g, batch);
      }
    }

    /** saveEvaluation with the evaluator stored in the required `guide` path. */
    method SaveEvaluationWithGuide(g: Id, batch: seq<BatchEntry>, evaluator: Id) returns (outcome: SaveOutcome)
      requires Valid()
      modifies this`records, this`groups
      ensures Valid()
      ensures (Snapshot(), outcome) == Save(old(Snapshot()), g, DocsWithGuide(g, batch, evaluator))
    {
      outcome := ReplaceGroup(g, DocsWithGuide(g, batch, evaluator));
    }

    /** getEvaluationParameters: the catalogue sorted by ascending `order`. */
    function GetEvaluationParameters(): (r: seq<Parameter>)
      reads this
      ensures SortedByOrder(r)
      ensures multiset(r) == multiset(parameters)
    {
      SortByOrder(parameters)
    }

    /** getProjectEvaluationById: `None` is the 404 for an unknown group; otherwise
        only the title, technology, status and populated students are returned. */
    method GetProjectEvaluationById(g: Id) returns (r: Option<GroupSummary>)
      ensures r.None? <==> g !in groups
      ensures r.Some? ==>
                var grp := groups[g];
                r.value == GroupSummary(g, grp.projectTitle, grp.projectTechnology, grp.status,
                                        Resolve(grp.students, students))
    {
      if g !in groups {
        return None;
      }
      var ids := groups[g].students;
      var populated: seq<Student> := [];
      var i := 0;
      while i < |ids|
        invariant 0 <= i <= |ids|
        invariant populated == Resolve(ids[..i], students)
      {
        assert ids[..i + 1][..i] == ids[..i];
        if ids[i] in students {
          populated := populated + [students[ids[i]]];
        }
        i := i + 1;
      }
      assert ids[..i] == ids;
      var grp := groups[g];
      r := Some(GroupSummary(g, grp.projectTitle, grp.projectTechnology, grp.status, populated));
    }
  }
}
