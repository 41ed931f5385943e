/** The Request schema: its enums, the trimmed required message and the default
    status of a new request. */
module RequestModel {
  import opened Common

  datatype RequestType = Admin | Guide
  datatype RequestStatus = Pending | Approved | Rejected

  function TypeName(t: RequestType): string {
    match t
    case Admin => "admin"
    case Guide => "guide"
  }

  /** The `type` enum: exactly "admin" and "guide" are accepted. */
  function ParseType(s: string): (r: Option<RequestType>)
    ensures r.Some? <==> s == "admin" || s == "guide"
    ensures r.Some? ==> TypeName(r.value) == s
    ensures forall t :: s == TypeName(t) ==> r == Some(t)
  {
    if s == "admin" then Some(Admin)
    else if s == "guide" then Some(Guide)
    else None
  }

  function StatusName(st: RequestStatus): string {
    match st
    case Pending => "pending"
    case Approved => "approved"
    case Rejected => "rejected"
  }

  /** The `status` enum, also the list the admin handler checks against. */
  function ParseStatus(s: string): (r: Option<RequestStatus>)
    ensures r.Some? <==> s == "pending" || s == "approved" || s == "rejected"
    ensures r.Some? ==> StatusName(r.value) == s
    ensures forall st :: s == StatusName(st) ==> r == Some(st)
  {
    if s == "pending" then Some(Pending)
    else if s == "approved" then Some(Approved)
    else if s == "rejected" then Some(Rejected)
    else None
  }

  /** The characters `String.prototype.trim` removes: ECMAScript white space and
      line terminators. */
  predicate IsSpace(c: char) {
    || c == ' ' || c == '\t' || c == '\n' || c == '\r'
    || c == '\U{000B}' || c == '\U{000C}' || c == '\U{00A0}' || c == '\U{FEFF}'
    || c == '\U{1680}' || ('\U{2000}' <= c <= '\U{200A}')
    || c == '\U{2028}' || c == '\U{2029}' || c == '\U{202F}' || c == '\U{205F}' || c == '\U{3000}'
  }

  /** The index of the first character at or after `i` that is not white space
      (or `|s|`). */
  function SkipLeading(s: string, i: nat): (n: nat)
    requires i <= |s|
    ensures i <= n <= |s|
    ensures forall k :: i <= k < n ==> IsSpace(s[k])
    ensures n == |s| || !IsSpace(s[n])
    decreases |s| - i
  {
    if i < |s| && IsSpace(s[i]) then SkipLeading(s, i + 1) else i
  }

  /** The end of `s[lo..j]` once its trailing white space is dropped. */
  function SkipTrailing(s: string, lo: nat, j: nat): (m: nat)
    requires lo <= j <= |s|
    ensures lo <= m <= j
    ensures forall k :: m <= k < j ==> IsSpace(s[k])
    ensures m == lo || !IsSpace(s[m - 1])
    decreases j - lo
  {
    if lo < j && IsSpace(s[j - 1]) then SkipTrailing(s, lo, j - 1) else j
  }

  /** The schema's `trim: true` setter: `s` with its leading and trailing white
      space removed, and nothing else. */
  function Trim(s: string): (r: string)
    ensures |r| <= |s|
    ensures r == [] || (!IsSpace(r[0]) && !IsSpace(r[|r| - 1]))
    ensures var a := SkipLeading(s, 0);
            && a + |r| <= |s| && r == s[a..a + |r|]
            && (forall i :: 0 <= i < a ==> IsSpace(s[i]))
            && (forall i :: a + |r| <= i < |s| ==> IsSpace(s[i]))
  {
    var a := SkipLeading(s, 0);
    var b := SkipTrailing(s, a, |s|);
    if a == b then
      []
    else
      assert a < b && !IsSpace(s[a]) && !IsSpace(s[b - 1]);
      s[a..b]
  }

  /** Trimming twice is trimming once. */
  lemma {:induction false} TrimIdempotent(s: string)
    ensures Trim(Trim(s)) == Trim(s)
  {
    var r := Trim(s);
    if r != [] {
      assert SkipLeading(r, 0) == 0;
      assert SkipTrailing(r, 0, |r|) == |r|;
    }
  }

  /** A message is empty after trimming exactly when it is all white space. */
  lemma {:induction false} TrimEmptyIffBlank(s: string)
    ensures Trim(s) == "" <==> forall i :: 0 <= i < |s| ==> IsSpace(s[i])
  {
    var a := SkipLeading(s, 0);
    if Trim(s) == "" {
      forall i | 0 <= i < |s| ensures IsSpace(s[i]) {
        if i >= a {
          assert a + |Trim(s)| <= i;
        }
      }
    }
  }

  /** A stored request. `createdAt` is the creation timestamp as an abstract
      integer. */
  datatype Request = Request(
    student: Id,
    kind: RequestType,
    message: string,
    status: RequestStatus,
    createdAt: int)

  /** What the schema guarantees of every stored request beyond its enums: an
      owner, and a message that is non-empty and already trimmed. */
  predicate WellFormed(r: Request) {
    r.student != "" && r.message != "" && Trim(r.message) == r.message
  }

  /** Cast and validate a request document: the message is trimmed by its setter
      and then required, `type` must be in its enum, the owner is required. */
  function Validate(student: Id, kind: string, message: string, status: RequestStatus, createdAt: int)
    : (r: Option<Request>)
    ensures r.Some? <==> student != "" && ParseType(kind).Some? && Trim(message) != ""
    ensures r.Some? ==> && WellFormed(r.value)
                        && r.value.student == student
                        && TypeName(r.value.kind) == kind
                        && r.value.message == Trim(message)
                        && r.value.status == status
                        && r.value.createdAt == createdAt
  {
    var t := ParseType(kind);
    var m := Trim(message);
    if student != "" && t.Some? && m != "" then
      TrimIdempotent(message);
      Some(Request(student, t.value, m, status, createdAt))
    else None
  }
}
