/** The project list of the admin page: the status/technology filter and the
    options of the technology dropdown. */
module ProjectList {
  import opened Common

  /** A group as the list shows it; `projectTechnology` is "" when the group has
      none (`p.projectTechnology || ""`). */
  datatype Project = Project(id: Id, projectTitle: string, projectTechnology: string, status: string)

  /** The dropdown value that switches a filter off. */
  const All: string := "All"

  predicate Shown(p: Project, statusFilter: string, techFilter: string) {
    && (statusFilter == All || p.status == statusFilter)
    && (techFilter == All || p.projectTechnology == techFilter)
  }

  /** `a` is `b` with some elements left out, the rest in their order. */
  predicate IsSubsequence<T(==)>(a: seq<T>, b: seq<T>)
    decreases |b|
  {
    if b == [] then a == []
    else (a != [] && a[0] == b[0] && IsSubsequence(a[1..], b[1..])) || IsSubsequence(a, b[1..])
  }

  /** `filteredProjects`: the projects both filters let through, as an
      order-preserving sublist that keeps every copy of a shown project. */
  function FilteredProjects(ps: seq<Project>, statusFilter: string, techFilter: string): (r: seq<Project>)
    ensures IsSubsequence(r, ps)
    ensures forall p :: p in r <==> p in ps && Shown(p, statusFilter, techFilter)
    ensures forall p :: multiset(r)[p] == if Shown(p, statusFilter, techFilter) then multiset(ps)[p] else 0
  {
    if ps == [] then []
    else
      var rest := FilteredProjects(ps[1..], statusFilter, techFilter);
      assert ps == [ps[0]] + ps[1..];
      if Shown(ps[0], statusFilter, techFilter) then
        assert ([ps[0]] + rest)[1..] == rest;
        [ps[0]] + rest
      else rest
  }

  /** `projects.map(p => p.projectTechnology)`. */
  function Technologies(ps: seq<Project>): (ts: seq<string>)
    ensures |ts| == |ps|
  {
    seq(|ps|, i requires 0 <= i < |ps| => ps[i].projectTechnology)
  }

  /** The position where `t` first occurs in `ts`. */
  function FirstIndex(ts: seq<string>, t: string): (k: nat)
    requires t in ts
    ensures k < |ts| && ts[k] == t && t !in ts[..k]
  {
    if ts[0] == t then 0
    else
      var k := FirstIndex(ts[1..], t);
      assert ts[..k + 1] == [ts[0]] + ts[1..][..k];
      k + 1
  }

  lemma {:induction false} FirstIndexUnique(ts: seq<string>, t: string, k: nat)
    requires k < |ts| && ts[k] == t && t !in ts[..k]
    ensures FirstIndex(ts, t) == k
  {
    var f := FirstIndex(ts, t);
    assert forall i :: 0 <= i < f ==> ts[..f][i] == ts[i];
    assert forall i :: 0 <= i < k ==> ts[..k][i] == ts[i];
  }

  /** `[...new Set(ts.filter(Boolean))]`: the non-empty values of `ts`, each once. */
  function DistinctNonEmpty(ts: seq<string>): (r: seq<string>)
    ensures forall t :: t in r <==> t in ts && t != ""
    ensures forall i, j :: 0 <= i < j < |r| ==> r[i] != r[j]
  {
    if ts == [] then []
    else
      var init, x := ts[..|ts| - 1], ts[|ts| - 1];
      assert ts == init + [x];
      var r := DistinctNonEmpty(init);
      if x == "" || x in r then r else r + [x]
  }

  /** Appending to a sequence does not move the first occurrence of a value it
      already holds, and a new value first occurs at the end. */
  lemma {:induction false} FirstIndexAfterAppend(init: seq<string>, x: string, y: string)
    requires y in init || y == x
    ensures y in init ==> FirstIndex(init + [x], y) == FirstIndex(init, y)
    ensures y !in init ==> FirstIndex(init + [x], y) == |init|
  {
    var ts := init + [x];
    if y in init {
      var k := FirstIndex(init, y);
      assert ts[..k] == init[..k];
      FirstIndexUnique(ts, y, k);
    } else {
      assert ts[..|init|] == init;
      FirstIndexUnique(ts, y, |init|);
    }
  }

  /** Every value of `r` occurs in `ts`, and earlier in `r` means first occurring
      earlier in `ts`. */
  predicate InFirstOccurrenceOrder(ts: seq<string>, r: seq<string>) {
    forall i, j :: 0 <= i < j < |r| ==> r[i] in ts && r[j] in ts && FirstIndex(ts, r[i]) < FirstIndex(ts, r[j])
  }

  /** A Set keeps insertion order: the distinct technologies come in the order of
      their first occurrence. */
  lemma {:induction false} DistinctInFirstOccurrenceOrder(ts: seq<string>)
    ensures InFirstOccurrenceOrder(ts, DistinctNonEmpty(ts))
  {
    if ts != [] {
      var init, x := ts[..|ts| - 1], ts[|ts| - 1];
      assert ts == init + [x];
      DistinctInFirstOccurrenceOrder(init);
      var r0 := DistinctNonEmpty(init);
      assert InFirstOccurrenceOrder(init, r0);
      var r := DistinctNonEmpty(ts);
      assert r == if x == "" || x in r0 then r0 else r0 + [x];
      forall i, j | 0 <= i < j < |r| ensures r[i] in ts && r[j] in ts && FirstIndex(ts, r[i]) < FirstIndex(ts, r[j]) {
        assert r[i] == r0[i] && r0[i] in init;
        FirstIndexAfterAppend(init, x, r[i]);
        if j < |r0| {
          assert r[j] == r0[j] && r0[j] in init;
          FirstIndexAfterAppend(init, x, r[j]);
          assert FirstIndex(init, r0[i]) < FirstIndex(init, r0[j]);
        } else {
          assert r[j] == x && x !in init;
          FirstIndexAfterAppend(init, x, x);
        }
      }
    }
  }

  /** `techOptions`: "All", then every non-empty technology of the projects once,
      in the order of first occurrence. */
  function TechOptions(ps: seq<Project>): (r: seq<string>)
    ensures |r| >= 1 && r[0] == All
    ensures forall t :: t in r[1..] <==> t != "" && exists p :: p in ps && p.projectTechnology == t
    ensures forall i, j :: 1 <= i < j < |r| ==> r[i] != r[j]
    ensures InFirstOccurrenceOrder(Technologies(ps), r[1..])
  {
    var ts := Technologies(ps);
    assert forall t :: t in ts <==> exists p :: p in ps && p.projectTechnology == t by {
      forall t ensures t in ts <==> exists p :: p in ps && p.projectTechnology == t {
        if t in ts {
          var i :| 0 <= i < |ts| && ts[i] == t;
          assert ps[i] in ps;
        }
        if exists p :: p in ps && p.projectTechnology == t {
          var p :| p in ps && p.projectTechnology == t;
          var i :| 0 <= i < |ps| && ps[i] == p;
          assert ts[i] == t;
        }
      }
    }
    DistinctInFirstOccurrenceOrder(ts);
    var r := [All] + DistinctNonEmpty(ts);
    assert r[1..] == DistinctNonEmpty(ts);
    assert forall i :: 1 <= i < |r| ==> r[i] == DistinctNonEmpty(ts)[i - 1];
    r
  }
}
