/**
 * The records of the in-memory service and the request-body guards that decide,
 * before any route runs, whether an insert or update request is accepted.
 */
module Models {
  import opened Http
  import opened Errors

  /** A stored task. The id is assigned by the store, never by the client. */
  datatype Task = Task(id: nat, title: string, details: string)

  /** The body of an insert request. */
  datatype InsertTask = InsertTask(nonEmptyTitle: string, details: string)

  /** The body of an update request: which task, and its new title and details. */
  datatype UpdateTask = UpdateTask(id: nat, newTitle: string, details: string)

  // ---------------------------------------------------------------------------
  // `str::trim`
  // ---------------------------------------------------------------------------

  /**
   * `char::is_whitespace`: the characters with the Unicode White_Space property.
   * Among ASCII characters these are tab, line feed, vertical tab, form feed,
   * carriage return and space.
   */
  predicate IsWhitespace(c: char) {
    || '\t' <= c <= '\r'
    || c == ' '
    || c == '\U{85}'
    || c == '\U{A0}'
    || c == '\U{1680}'
    || '\U{2000}' <= c <= '\U{200A}'
    || c == '\U{2028}'
    || c == '\U{2029}'
    || c == '\U{202F}'
    || c == '\U{205F}'
    || c == '\U{3000}'
  }

  /**
   * The contract of `IsWhitespace`: on ASCII it is exactly tab, line feed,
   * vertical tab, form feed, carriage return and space, and no whitespace
   * character lies above U+3000.
   */
  lemma WhitespaceRange(c: char)
    ensures c as int < 0x80 ==> (IsWhitespace(c) <==> c as int in {9, 10, 11, 12, 13, 32})
    ensures IsWhitespace(c) ==> c as int <= 0x3000
  {
  }

  /**
   * The leading half of `trim`: the first index at or after `i` whose character
   * is not whitespace, or `|s|`; everything skipped is whitespace.
   */
  function SkipWhitespace(s: string, i: nat): (k: nat)
    requires i <= |s|
    ensures i <= k <= |s|
    ensures forall j :: i <= j < k ==> IsWhitespace(s[j])
    ensures k < |s| ==> !IsWhitespace(s[k])
    decreases |s| - i
  {
    if i == |s| || !IsWhitespace(s[i]) then i else SkipWhitespace(s, i + 1)
  }

  /**
   * The trailing half of `trim`: walking back from `e`, no further than `k`, the
   * end of the stretch once the whitespace before `e` is dropped; everything
   * dropped is whitespace and the last character kept is not.
   */
  function BackOverWhitespace(s: string, k: nat, e: nat): (n: nat)
    requires k <= e <= |s|
    ensures k <= n <= e
    ensures forall j :: n <= j < e ==> IsWhitespace(s[j])
    ensures k < n ==> !IsWhitespace(s[n - 1])
    decreases e - k
  {
    if e == k || !IsWhitespace(s[e - 1]) then e else BackOverWhitespace(s, k, e - 1)
  }

  /**
   * `str::trim`: the result is the stretch of `s` that starts at offset `k`, the
   * number of leading whitespace characters; everything before it and after it
   * is whitespace, and neither end of it is.
   */
  function Trim(s: string): (r: string)
    ensures var k := SkipWhitespace(s, 0); k + |r| <= |s| && r == s[k..k + |r|]
    ensures forall i :: 0 <= i < SkipWhitespace(s, 0) ==> IsWhitespace(s[i])
    ensures forall i :: SkipWhitespace(s, 0) + |r| <= i < |s| ==> IsWhitespace(s[i])
    ensures r == [] || (!IsWhitespace(r[0]) && !IsWhitespace(r[|r| - 1]))
  {
    var k := SkipWhitespace(s, 0);
    s[k..BackOverWhitespace(s, k, |s|)]
  }

  /** A string trims to nothing exactly when every character of it is whitespace. */
  lemma {:induction false} TrimEmptyIffAllWhitespace(s: string)
    ensures Trim(s) == [] <==> forall i :: 0 <= i < |s| ==> IsWhitespace(s[i])
  {
    var k := SkipWhitespace(s, 0);
    if k < |s| {
      assert s[k..k + |Trim(s)|] == Trim(s);
      assert BackOverWhitespace(s, k, |s|) > k;
    }
  }

  /** `s.trim().is_empty()`: holds exactly when every character of `s` is whitespace. */
  predicate Blank(s: string)
    ensures Blank(s) <==> forall i :: 0 <= i < |s| ==> IsWhitespace(s[i])
  {
    TrimEmptyIffAllWhitespace(s);
    Trim(s) == []
  }

  // ---------------------------------------------------------------------------
  // The `FromData` guards
  // ---------------------------------------------------------------------------

  /**
   * A request body as the guard sees it: `length` bytes that serde would decode
   * to `decoded`, or a body whose reading fails (with the text of the I/O
   * error). `Unreadable` stands both for a stream error and for a body whose
   * first min(length, limit) bytes are not valid UTF-8, a character cut by the
   * limit included; so an over-limit body can also be refused with 500.
   */
  datatype Body<T> = Body(length: nat, decoded: T) | Unreadable(detail: string)

  /** The three outcomes of reading a body into a string under a size limit. */
  datatype ReadResult<T> = Complete(value: T) | Incomplete | Failed(detail: string)

  /** What a `FromData` guard decides. */
  datatype Outcome<T> = Success(value: T) | Failure(status: nat, error: AppError)

  /** The limit used when none is configured for a guard. */
  const DefaultLimit: nat := 512

  /** `req.limits().get(name).unwrap_or(512.bytes())` */
  function LimitFor(limits: map<string, nat>, name: string): (limit: nat)
    ensures name in limits ==> limit == limits[name]
    ensures name !in limits ==> limit == DefaultLimit
  {
    if name in limits then limits[name] else DefaultLimit
  }

  /** `data.open(limit).into_string()`: complete when the body fits within the limit. */
  function Read<T>(body: Body<T>, limit: nat): (r: ReadResult<T>)
    ensures r.Complete? <==> body.Body? && body.length <= limit
    ensures r.Complete? ==> r.value == body.decoded
    ensures r.Failed? <==> body.Unreadable?
  {
    match body
    case Unreadable(detail) => Failed(detail)
    case Body(length, decoded) => if length <= limit then Complete(decoded) else Incomplete
  }

  /**
   * The decision both guards make once the body has been read: a size failure
   * or a read failure comes first, then the blank-title check, and an accepted
   * body is passed on as it was decoded.
   */
  function Decide<T>(read: ReadResult<T>, title: T -> string): (r: Outcome<T>)
    ensures r.Success? <==> read.Complete? && !Blank(title(read.value))
    ensures r.Success? ==> r.value == read.value
    ensures read.Incomplete? ==> r == Failure(PayloadTooLarge, Internal)
    ensures read.Failed? ==> r == Failure(InternalServerError, IO(read.detail))
    ensures r.Failure? && read.Complete? ==> r == Failure(BadRequest, EmptyTitle)
  {
    match read
    case Complete(value) =>
      if Blank(title(value)) then Failure(BadRequest, EmptyTitle) else Success(value)
    case Incomplete => Failure(PayloadTooLarge, Internal)
    case Failed(detail) => Failure(InternalServerError, IO(detail))
  }

  /** `FromData for InsertTask` */
  function InsertGuard(limits: map<string, nat>, body: Body<InsertTask>): (r: Outcome<InsertTask>)
    ensures r.Success? ==> body.Body? && r.value == body.decoded && !Blank(r.value.nonEmptyTitle)
    ensures r.Failure? ==> (r.status == BadRequest <==> r.error == EmptyTitle)
    ensures r.Failure? ==> (r.status == PayloadTooLarge <==> r.error == Internal)
    ensures r.Failure? ==> (r.status == InternalServerError <==> r.error.IO?)
  {
    Decide(Read(body, LimitFor(limits, "insert_task")), (t: InsertTask) => t.nonEmptyTitle)
  }

  /** `FromData for UpdateTask` */
  function UpdateGuard(limits: map<string, nat>, body: Body<UpdateTask>): (r: Outcome<UpdateTask>)
    ensures r.Success? ==> body.Body? && r.value == body.decoded && !Blank(r.value.newTitle)
    ensures r.Failure? ==> (r.status == BadRequest <==> r.error == EmptyTitle)
    ensures r.Failure? ==> (r.status == PayloadTooLarge <==> r.error == Internal)
    ensures r.Failure? ==> (r.status == InternalServerError <==> r.error.IO?)
  {
    Decide(Read(body, LimitFor(limits, "update_task")), (t: UpdateTask) => t.newTitle)
  }

  /** A body that fits the insert limit and decodes to a blank title is refused with 400 and `EmptyTitle`. */
  lemma InsertGuardRejectsBlankTitle(limits: map<string, nat>, ins: InsertTask, length: nat)
    requires length <= LimitFor(limits, "insert_task") && Blank(ins.nonEmptyTitle)
    ensures InsertGuard(limits, Body(length, ins)) == Failure(BadRequest, EmptyTitle)
  {
  }

  /** A body that fits the update limit and decodes to a blank new title is refused with 400 and `EmptyTitle`. */
  lemma UpdateGuardRejectsBlankTitle(limits: map<string, nat>, upd: UpdateTask, length: nat)
    requires length <= LimitFor(limits, "update_task") && Blank(upd.newTitle)
    ensures UpdateGuard(limits, Body(length, upd)) == Failure(BadRequest, EmptyTitle)
  {
  }

  /**
   * A body over the insert limit is refused with 413 and `Internal`, whatever
   * title it carries: the size is judged before the title.
   */
  lemma InsertGuardRejectsOversizedFirst(limits: map<string, nat>, ins: InsertTask, length: nat)
    requires length > LimitFor(limits, "insert_task")
    ensures InsertGuard(limits, Body(length, ins)) == Failure(PayloadTooLarge, Internal)
  {
  }

  /** The same for a body over the update limit. */
  lemma UpdateGuardRejectsOversizedFirst(limits: map<string, nat>, upd: UpdateTask, length: nat)
    requires length > LimitFor(limits, "update_task")
    ensures UpdateGuard(limits, Body(length, upd)) == Failure(PayloadTooLarge, Internal)
  {
  }

  /** A body that fails to read is refused with 500 and `IO` carrying the error's text. */
  lemma GuardsRejectReadError(limits: map<string, nat>, detail: string)
    ensures InsertGuard(limits, Unreadable(detail)) == Failure(InternalServerError, IO(detail))
    ensures UpdateGuard(limits, Unreadable(detail)) == Failure(InternalServerError, IO(detail))
  {
  }

  /**
   * The insert guard accepts exactly the readable, fitting bodies with a
   * non-blank title, and then hands on the decoded request untouched (the
   * title is not trimmed).
   */
  lemma InsertGuardAccepts(limits: map<string, nat>, body: Body<InsertTask>)
    ensures InsertGuard(limits, body).Success? <==>
            body.Body? && body.length <= LimitFor(limits, "insert_task") && !Blank(body.decoded.nonEmptyTitle)
    ensures InsertGuard(limits, body).Success? ==> InsertGuard(limits, body).value == body.decoded
  {
  }

  /** The same for the update guard. */
  lemma UpdateGuardAccepts(limits: map<string, nat>, body: Body<UpdateTask>)
    ensures UpdateGuard(limits, body).Success? <==>
            body.Body? && body.length <= LimitFor(limits, "update_task") && !Blank(body.decoded.newTitle)
    ensures UpdateGuard(limits, body).Success? ==> UpdateGuard(limits, body).value == body.decoded
  {
  }

  /**
   * With no limit configured, a 512-byte body passes the size check and a
   * 513-byte one does not.
   */
  lemma DefaultLimitIs512(limits: map<string, nat>, ins: InsertTask, upd: UpdateTask)
    requires "insert_task" !in limits && "update_task" !in limits
    ensures InsertGuard(limits, Body(512, ins)) != Failure(PayloadTooLarge, Internal)
    ensures UpdateGuard(limits, Body(512, upd)) != Failure(PayloadTooLarge, Internal)
    ensures InsertGuard(limits, Body(513, ins)) == Failure(PayloadTooLarge, Internal)
    ensures UpdateGuard(limits, Body(513, upd)) == Failure(PayloadTooLarge, Internal)
  {
  }

  /**
   * The guard refuses a blank title with 400, while the error's own responder
   * would answer 422; both are client errors and neither is the 404 of
   * `IdNotFound`.
   */
  lemma EmptyTitleStatusDiscrepancy(limits: map<string, nat>, ins: InsertTask, length: nat, id: nat)
    requires length <= LimitFor(limits, "insert_task") && Blank(ins.nonEmptyTitle)
    ensures InsertGuard(limits, Body(length, ins)).status == 400
    ensures RespondTo(InsertGuard(limits, Body(length, ins)).error).status == 422
    ensures IsClientError(400) && IsClientError(StatusOf(EmptyTitle))
    ensures 400 != StatusOf(IdNotFound(id)) && StatusOf(EmptyTitle) != StatusOf(IdNotFound(id))
  {
    InsertGuardRejectsBlankTitle(limits, ins, length);
  }
}
