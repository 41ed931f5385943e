/** Shared vocabulary of the project-management server and its admin front end. */
module Common {

  /** A database identifier: a MongoDB ObjectId, carried in its string form as the
      front end sees it. A stored reference is a well-formed ObjectId; a path a
      document leaves unset is `None`. The empty string appears only where the
      code tests a value's truthiness (request body fields, the caller of a request
      handler, the loader's converted ids), and stands there for an absent one. */
  type Id = string

  datatype Option<T> = None | Some(value: T)

  /** An evaluation parameter (a column of the mark sheet): `marks` is its maximum
      and `order` its position in the catalogue. */
  datatype Parameter = Parameter(id: Id, name: string, marks: int, order: int)

  /** One element of the `evaluations` array posted to the save endpoint. A field
      the request body leaves out is `None`; marks are already `Number(e.marks)`. */
  datatype BatchEntry = BatchEntry(student: Option<Id>, parameter: Option<Id>, marks: int)

  /** No two entries of a batch address the same (student, parameter) cell. */
  predicate DistinctCells(batch: seq<BatchEntry>) {
    forall i, j :: 0 <= i < j < |batch| ==>
      (batch[i].student, batch[i].parameter) != (batch[j].student, batch[j].parameter)
  }
}
