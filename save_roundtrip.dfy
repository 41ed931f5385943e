/** The mark sheet's "Save All" end to end: the dense batch the admin page builds
    from its marks map, sent to saveEvaluation and stored in the Evaluation
    collection. */
module SaveRoundTrip {
  import opened Common
  import opened EvaluationSchema
  import ES = EvaluationStore
  import MS = MarkSheet

  /** The sum of the marks held by a list of stored records. */
  function StoredTotal(t: seq<Evaluation>): int {
    if t == [] then 0
    else (if t[0].marks.Some? then t[0].marks.value else 0) + StoredTotal(t[1..])
  }

  /** No student id of the roster contains the key separator. */
  predicate PlainRoster(roster: seq<Id>) {
    forall i :: 0 <= i < |roster| ==> MS.PlainId(roster[i])
  }

  predicate AllComplete(b: seq<BatchEntry>) {
    forall k :: 0 <= k < |b| ==> ES.Complete(b[k])
  }

  /** A sheet whose cells are within range yields a batch the server accepts
      entry by entry: every entry names its student and parameter and carries a
      non-negative mark. */
  lemma {:induction false} BuiltBatchComplete(roster: seq<Id>, ps: seq<Parameter>, m: MS.Marks)
    requires PlainRoster(roster) && MS.InRange(m, ps)
    ensures AllComplete(MS.BuildBatch(roster, ps, m))
  {
    if roster != [] {
      var b := MS.BuildBatch(roster, ps, m);
      var row, rest := MS.Row(roster[0], ps, m), MS.BuildBatch(roster[1..], ps, m);
      assert PlainRoster(roster[1..]) by {
        forall i | 0 <= i < |roster| - 1 ensures MS.PlainId(roster[1..][i]) {
          assert roster[1..][i] == roster[i + 1];
        }
      }
      BuiltBatchComplete(roster[1..], ps, m);
      assert AllComplete(rest);
      assert b == row + rest;
      forall k | 0 <= k < |b| ensures ES.Complete(b[k]) {
        if k < |row| {
          assert MS.PlainId(roster[0]);
          assert 0 <= MS.CellValue(m, MS.CellKey(roster[0], ps[k].id));
          assert b[k] == row[k];
          assert row[k] == BatchEntry(Some(roster[0]), Some(ps[k].id), MS.CellValue(m, MS.CellKey(roster[0], ps[k].id)));
        } else {
          assert b[k] == rest[k - |row|];
        }
      }
    }
  }

  /** The documents built from a batch hold the batch's marks. */
  lemma {:induction false} StoredTotalOfDocs(g: Id, batch: seq<BatchEntry>, evaluator: Id)
    ensures StoredTotal(ES.DocsWithGuide(g, batch, evaluator)) == MS.SumMarks(batch)
  {
    if batch != [] {
      var docs := ES.DocsWithGuide(g, batch, evaluator);
      assert docs[1..] == ES.DocsWithGuide(g, batch[1..], evaluator);
      StoredTotalOfDocs(g, batch[1..], evaluator);
    }
  }

  /** Saving a sheet (with the evaluator recorded as guide) succeeds and stores one
      record per student and parameter, whose marks add up to the grand total the
      page shows; the group is completed. */
  lemma {:induction false} SavedSheetMatchesTotals(
    s: ES.State, g: Id, roster: seq<Id>, ps: seq<Parameter>, m: MS.Marks, evaluator: Id)
    requires MS.NoDuplicates(roster) && MS.UniqueIds(ps)
    requires PlainRoster(roster) && MS.InRange(m, ps)
    ensures var (s', out) := ES.Save(s, g, ES.DocsWithGuide(g, MS.BuildBatch(roster, ps, m), evaluator));
            && out == ES.Saved
            && |ES.OfGroup(s'.records, g)| == |roster| * |ps|
            && StoredTotal(ES.OfGroup(s'.records, g)) == MS.GrandGiven(m, roster, ps)
            && s'.groups == ES.MarkCompleted(s.groups, g)
  {
    var batch := MS.BuildBatch(roster, ps, m);
    BuiltBatchComplete(roster, ps, m);
    MS.BatchCellsDistinct(roster, ps, m);
    ES.SaveWithGuideStoresBatch(s, g, batch, evaluator);
    StoredTotalOfDocs(g, batch, evaluator);
    MS.BatchSumIsGrandGiven(roster, ps, m);
  }

  /** The group's records after the save are the batch's documents, in batch order. */
  lemma {:induction false} SavedSheetStoresBatch(
    s: ES.State, g: Id, roster: seq<Id>, ps: seq<Parameter>, m: MS.Marks, evaluator: Id)
    requires MS.NoDuplicates(roster) && MS.UniqueIds(ps)
    requires PlainRoster(roster) && MS.InRange(m, ps)
    ensures var docs := ES.DocsWithGuide(g, MS.BuildBatch(roster, ps, m), evaluator);
            ES.OfGroup(ES.Save(s, g, docs).0.records, g) == docs
  {
    var batch := MS.BuildBatch(roster, ps, m);
    BuiltBatchComplete(roster, ps, m);
    MS.BatchCellsDistinct(roster, ps, m);
    ES.SaveWithGuideStoresBatch(s, g, batch, evaluator);
  }

  /** The document built for cell (i, j) of the sheet. */
  lemma {:induction false} CellDocBuilt(
    g: Id, roster: seq<Id>, ps: seq<Parameter>, m: MS.Marks, evaluator: Id, i: nat, j: nat)
    requires i < |roster| && j < |ps|
    ensures Evaluation(Some(g), Some(evaluator), Some(roster[i]), Some(ps[j].id),
                       Some(MS.CellValue(m, MS.CellKey(roster[i], ps[j].id))))
            in ES.DocsWithGuide(g, MS.BuildBatch(roster, ps, m), evaluator)
  {
    var batch := MS.BuildBatch(roster, ps, m);
    var docs := ES.DocsWithGuide(g, batch, evaluator);
    MS.BatchAt(roster, ps, m, i, j);
    var k := i * |ps| + j;
    assert docs[k] == ES.Doc(g, Some(evaluator), batch[k]);
  }

  /** A document of the group's records is a record of the collection. */
  lemma StoredOfGroup(t: seq<Evaluation>, g: Id, d: Evaluation)
    requires d in ES.OfGroup(t, g)
    ensures exists k :: 0 <= k < |t| && t[k] == d
  {
  }

  /** After the save, looking up any cell of the sheet in the collection gives the
      mark the sheet showed for it (0 for a blank cell). */
  lemma {:induction false} SavedCellReadsBack(
    s: ES.State, g: Id, roster: seq<Id>, ps: seq<Parameter>, m: MS.Marks, evaluator: Id, i: nat, j: nat)
    requires ValidTable(s.records)
    requires MS.NoDuplicates(roster) && MS.UniqueIds(ps)
    requires PlainRoster(roster) && MS.InRange(m, ps)
    requires i < |roster| && j < |ps|
    ensures var t := ES.Save(s, g, ES.DocsWithGuide(g, MS.BuildBatch(roster, ps, m), evaluator)).0.records;
            MarksOf(t, g, roster[i], ps[j].id) == Some(MS.CellValue(m, MS.CellKey(roster[i], ps[j].id)))
  {
    var docs := ES.DocsWithGuide(g, MS.BuildBatch(roster, ps, m), evaluator);
    var t := ES.Save(s, g, docs).0.records;
    var v := MS.CellValue(m, MS.CellKey(roster[i], ps[j].id));
    var d := Evaluation(Some(g), Some(evaluator), Some(roster[i]), Some(ps[j].id), Some(v));
    CellDocBuilt(g, roster, ps, m, evaluator, i, j);
    SavedSheetStoresBatch(s, g, roster, ps, m, evaluator);
    StoredOfGroup(t, g, d);
    var k :| 0 <= k < |t| && t[k] == d;
    ES.SaveKeepsValid(s, g, docs);
    MarksOfStored(t, k);
  }

  /** As written, saving any non-empty sheet fails, after the group's stored marks
      have been deleted, and the group is not completed. */
  lemma {:induction false} AsWrittenSheetSaveLosesMarks(
    s: ES.State, g: Id, roster: seq<Id>, ps: seq<Parameter>, m: MS.Marks)
    requires |roster| > 0 && |ps| > 0
    ensures var (s', out) := ES.Save(s, g, ES.AsWrittenDocs(g, MS.BuildBatch(roster, ps, m)));
            && out.Failed?
            && ES.OfGroup(s'.records, g) == []
            && s'.groups == s.groups
  {
    var batch := MS.BuildBatch(roster, ps, m);
    assert |batch| > 0 by {
      MS.BatchAt(roster, ps, m, 0, 0);
    }
    ES.AsWrittenSaveLosesMarks(s, g, batch);
  }
}
