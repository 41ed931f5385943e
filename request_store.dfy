/** The request controller: a store of request tickets that students create, edit
    and withdraw, and that the admin lists, deletes and decides. The handlers'
    decisions are pure functions; the class RequestStore applies them to the
    collection. */
module RequestStore {
  import opened Common
  import opened RequestModel

  /** A request's `_id`. The store hands out fresh ids from a counter. */
  type RequestId = nat

  /** The handlers' failure answers. */
  datatype RequestError =
    | MissingFields     // 400: type or message absent or empty
    | ValidationFailed  // the schema rejected the document: the catch-all 500
    | NotFound          // 404: no such request, or not the caller's
    | InvalidStatus     // 400: status outside the enum

  datatype Response<T> = Ok(value: T) | Err(error: RequestError)

  /** JavaScript `a || b` on a body field: an absent or empty field falls back. */
  function Or(a: string, b: string): (r: string)
    ensures r == a || r == b
    ensures r == "" <==> a == "" && b == ""
  {
    if a != "" then a else b
  }

  // ---------------------------------------------------------------------------
  // createRequest and updateRequest: what gets stored

  /** createRequest's decision. Both body fields are required before the schema
      runs; the schema then fixes the owner, the default status "pending" and the
      trimmed message. */
  function NewRequest(student: Id, kind: string, message: string, now: int): (r: Response<Request>)
    ensures r == Err(MissingFields) <==> kind == "" || message == ""
    ensures r.Ok? <==> student != "" && ParseType(kind).Some? && Trim(message) != ""
    ensures r.Ok? ==> && WellFormed(r.value)
                      && r.value.student == student
                      && TypeName(r.value.kind) == kind
                      && r.value.message == Trim(message)
                      && r.value.status == Pending
                      && r.value.createdAt == now
  {
    if kind == "" || message == "" then Err(MissingFields)
    else match Validate(student, kind, message, Pending, now)
      case None => Err(ValidationFailed)
      case Some(q) => Ok(q)
  }

  /** updateRequest's edit of a stored request `q`: an empty field keeps the
      stored value, a given one replaces it, and the result is validated again
      when saved. Owner, status and creation time are never touched. */
  function Edited(q: Request, kind: string, message: string): (r: Option<Request>)
    requires WellFormed(q)
    ensures r.Some? <==> (kind == "" || ParseType(kind).Some?) && (message == "" || Trim(message) != "")
    ensures r.Some? ==> && WellFormed(r.value)
                        && r.value.student == q.student
                        && r.value.status == q.status
                        && r.value.createdAt == q.createdAt
                        && r.value.kind == (if kind == "" then q.kind else ParseType(kind).value)
                        && r.value.message == (if message == "" then q.message else Trim(message))
    ensures kind == "" && message == "" ==> r == Some(q)
  {
    Validate(q.student, Or(kind, TypeName(q.kind)), Or(message, q.message), q.status, q.createdAt)
  }

  /** Sending the same edit twice stores the same request as sending it once. */
  lemma {:induction false} EditIdempotent(q: Request, kind: string, message: string)
    requires WellFormed(q) && Edited(q, kind, message).Some?
    ensures Edited(Edited(q, kind, message).value, kind, message) == Edited(q, kind, message)
  {
    var q1 := Edited(q, kind, message).value;
    if message != "" {
      TrimIdempotent(message);
      assert q1.message == Trim(message);
    }
  }

  // ---------------------------------------------------------------------------
  // getMyRequests and getAllRequests: listings, newest first

  /** A request as it appears in a listing, with its id. */
  datatype Listed = Listed(id: RequestId, request: Request)

  /** `.sort({ createdAt: -1 })`. */
  predicate NewestFirst(ls: seq<Listed>) {
    forall i, j :: 0 <= i < j < |ls| ==> ls[i].request.createdAt >= ls[j].request.createdAt
  }

  predicate DistinctIds(ls: seq<Listed>) {
    forall i, j :: 0 <= i < j < |ls| ==> ls[i].id != ls[j].id
  }

  function Ids(ls: seq<Listed>): set<RequestId> {
    set l | l in ls :: l.id
  }

  /** The filter of a listing query: a student's own requests, or all of them. */
  predicate Matches(owner: Option<Id>, q: Request) {
    owner.None? || q.student == owner.value
  }

  /** The ids a listing query selects. */
  function Selected(rs: map<RequestId, Request>, owner: Option<Id>): set<RequestId> {
    set id | id in rs && Matches(owner, rs[id])
  }

  /** Place `x` into a newest-first listing. */
  function InsertNewest(x: Listed, ls: seq<Listed>): (r: seq<Listed>)
    requires NewestFirst(ls)
    ensures NewestFirst(r)
    ensures |r| == |ls| + 1
    ensures forall l :: l in r <==> l in ls || l == x
  {
    if ls == [] || x.request.createdAt >= ls[0].request.createdAt then
      [x] + ls
    else
      var rest := InsertNewest(x, ls[1..]);
      assert forall l :: l in ls[1..] ==> l in ls;
      assert forall k :: 0 <= k < |rest| ==> rest[k] in rest;
      [ls[0]] + rest
  }

  /** A request whose id is not yet listed is listed once after insertion. */
  lemma ConsKeepsDistinct(h: Listed, ls: seq<Listed>)
    requires DistinctIds(ls)
    requires forall l :: l in ls ==> l.id != h.id
    ensures DistinctIds([h] + ls)
  {
    var r := [h] + ls;
    forall i, j | 0 <= i < j < |r| ensures r[i].id != r[j].id {
      assert r[j] == ls[j - 1] && r[j] in ls;
      if i > 0 {
        assert r[i] == ls[i - 1];
      }
    }
  }

  lemma {:induction false} InsertNewestKeepsDistinct(x: Listed, ls: seq<Listed>)
    requires NewestFirst(ls) && DistinctIds(ls)
    requires forall l :: l in ls ==> l.id != x.id
    ensures DistinctIds(InsertNewest(x, ls))
  {
    if ls == [] || x.request.createdAt >= ls[0].request.createdAt {
      ConsKeepsDistinct(x, ls);
    } else {
      var head, tail := ls[0], ls[1..];
      assert ls == [head] + tail;
      assert DistinctIds(tail) by {
        forall i, j | 0 <= i < j < |tail| ensures tail[i].id != tail[j].id {
          assert tail[i] == ls[i + 1] && tail[j] == ls[j + 1];
        }
      }
      assert forall l :: l in tail ==> l.id != head.id by {
        forall l | l in tail ensures l.id != head.id {
          var k :| 0 <= k < |tail| && tail[k] == l;
          assert l == ls[k + 1];
        }
      }
      InsertNewestKeepsDistinct(x, tail);
      ConsKeepsDistinct(head, InsertNewest(x, tail));
    }
  }

  lemma InsertNewestIds(x: Listed, ls: seq<Listed>)
    requires NewestFirst(ls)
    ensures Ids(InsertNewest(x, ls)) == Ids(ls) + {x.id}
  {
    var r := InsertNewest(x, ls);
    assert x in r;
    forall d | d in Ids(ls) ensures d in Ids(r) {
      var l :| l in ls && l.id == d;
      assert l in r;
    }
  }

  /** Every listed request is the one stored under its id. */
  predicate AsStored(ls: seq<Listed>, rs: map<RequestId, Request>) {
    forall l :: l in ls ==> l.id in rs && l.request == rs[l.id]
  }

  /** Owner-scoped lookups: `findOne({ _id: id, student })`. */
  predicate Owns(rs: map<RequestId, Request>, id: RequestId, student: Id) {
    id in rs && rs[id].student == student
  }

  class RequestStore {
    var requests: map<RequestId, Request>
    var nextId: RequestId

    /** Every stored request passed the schema, and ids below the counter are the
        only ones in use. */
    ghost predicate Valid()
      reads this
    {
      forall id :: id in requests ==> id < nextId && WellFormed(requests[id])
    }

    constructor ()
      ensures Valid()
      ensures requests == map[] && nextId == 0
    {
      requests := map[];
      nextId := 0;
    }

    /** createRequest by `student` at time `now`: on success the new request is
        stored under a fresh id; on any failure nothing is stored. */
    method CreateRequest(student: Id, kind: string, message: string, now: int)
      returns (r: Response<RequestId>)
      requires Valid()
      modifies this
      ensures Valid()
      ensures match NewRequest(student, kind, message, now)
        case Err(e) =>
          r == Err(e) && requests == old(requests) && nextId == old(nextId)
        case Ok(q) =>
          && r == Ok(old(nextId))
          && old(nextId) !in old(requests)
          && requests == old(requests)[old(nextId) := q]
          && nextId == old(nextId) + 1
    {
      var outcome := NewRequest(student, kind, message, now);
      match outcome
      case Err(e) =>
        r := Err(e);
      case Ok(q) =>
        requests := requests[nextId := q];
        r := Ok(nextId);
        nextId := nextId + 1;
    }

    /** The common listing query, newest first: exactly the selected requests,
        each once and as stored. */
    method Query(owner: Option<Id>) returns (r: seq<Listed>)
      ensures NewestFirst(r) && DistinctIds(r)
      ensures Ids(r) == Selected(requests, owner)
      ensures AsStored(r, requests)
    {
      var rs := requests;
      var keys := rs.Keys;
      r := [];
      while keys != {}
        invariant keys <= rs.Keys
        invariant NewestFirst(r) && DistinctIds(r) && AsStored(r, rs)
        invariant forall d :: d in Ids(r) <==> d in Selected(rs, owner) && d !in keys
        decreases |keys|
      {
        var id :| id in keys;
        if Matches(owner, rs[id]) {
          var x := Listed(id, rs[id]);
          assert forall l :: l in r ==> l.id in Ids(r);
          InsertNewestKeepsDistinct(x, r);
          InsertNewestIds(x, r);
          r := InsertNewest(x, r);
        }
        keys := keys - {id};
      }
    }

    /** getMyRequests: the caller's own requests, newest first. */
    method GetMyRequests(student: Id) returns (r: seq<Listed>)
      ensures NewestFirst(r) && DistinctIds(r)
      ensures forall id :: id in Ids(r) <==> Owns(requests, id, student)
      ensures AsStored(r, requests)
    {
      r := Query(Some(student));
    }

    /** getAllRequests: every request, newest first. */
    method GetAllRequests() returns (r: seq<Listed>)
      ensures NewestFirst(r) && DistinctIds(r)
      ensures Ids(r) == requests.Keys
      ensures AsStored(r, requests)
    {
      r := Query(None);
    }

    /** updateRequest by `student`: someone else's or an unknown request is not
        found; otherwise the edit is stored if it validates. */
    method UpdateRequest(id: RequestId, student: Id, kind: string, message: string)
      returns (r: Response<Request>)
      requires Valid()
      modifies this`requests
      ensures Valid()
      ensures !Owns(old(requests), id, student) ==> r == Err(NotFound) && requests == old(requests)
      ensures Owns(old(requests), id, student) ==>
        match Edited(old(requests)[id], kind, message)
        case None => r == Err(ValidationFailed) && requests == old(requests)
        case Some(q) => r == Ok(q) && requests == old(requests)[id := q]
    {
      if !Owns(requests, id, student) {
        return Err(NotFound);
      }
      var edited := Edited(requests[id], kind, message);
      match edited
      case None =>
        r := Err(ValidationFailed);
      case Some(q) =>
        requests := requests[id := q];
        r := Ok(q);
    }

    /** deleteRequest by `student`: only the owner's request is removed. */
    method DeleteRequest(id: RequestId, student: Id) returns (r: Response<Request>)
      requires Valid()
      modifies this`requests
      ensures Valid()
      ensures !Owns(old(requests), id, student) ==> r == Err(NotFound) && requests == old(requests)
      ensures Owns(old(requests), id, student) ==>
        r == Ok(old(requests)[id]) && requests == old(requests) - {id}
    {
      if !Owns(requests, id, student) {
        return Err(NotFound);
      }
      r := Ok(requests[id]);
      requests := requests - {id};
    }

    /** deleteRequestByAdmin: removes the request whoever owns it. */
    method DeleteRequestByAdmin(id: RequestId) returns (r: Response<Request>)
      requires Valid()
      modifies this`requests
      ensures Valid()
      ensures id !in old(requests) ==> r == Err(NotFound) && requests == old(requests)
      ensures id in old(requests) ==> r == Ok(old(requests)[id]) && requests == old(requests) - {id}
    {
      if id !in requests {
        return Err(NotFound);
      }
      r := Ok(requests[id]);
      requests := requests - {id};
    }

    /** updateRequestStatusByAdmin: the status string is checked against the enum
        before the lookup; a valid status is set whatever the current one is. */
    method UpdateRequestStatusByAdmin(id: RequestId, status: string) returns (r: Response<Request>)
      requires Valid()
      modifies this`requests
      ensures Valid()
      ensures ParseStatus(status).None? ==> r == Err(InvalidStatus) && requests == old(requests)
      ensures ParseStatus(status).Some? && id !in old(requests) ==>
        r == Err(NotFound) && requests == old(requests)
      ensures ParseStatus(status).Some? && id in old(requests) ==>
        && r == Ok(old(requests)[id].(status := ParseStatus(status).value))
        && requests == old(requests)[id := old(requests)[id].(status := ParseStatus(status).value)]
    {
      var parsed := ParseStatus(status);
      if parsed.None? {
        return Err(InvalidStatus);
      }
      if id !in requests {
        return Err(NotFound);
      }
      var q := requests[id].(status := parsed.value);
      requests := requests[id := q];
      r := Ok(q);
    }
  }
}
