/** The request handlers: each validates its input (the id path parameter first, then
    the body or query), calls the store only when everything is valid, and picks the
    status and payload from the outcome. A validation failure is answered with 400 and
    the formatted issues; a store fault is handed on to the error middleware as is. */
module MediaController {
  import opened Wrappers
  import opened JsConversions
  import opened MediaSchema
  import opened MediaService

  /** One entry of an `errors` payload. */
  datatype ErrorEntry = ErrorEntry(path: string, message: string, code: string)

  /** The `meta` object of a listing. */
  datatype Meta = Meta(total: nat, page: int, limit: int, totalPages: nat)

  /** The JSON body of a response. */
  datatype Payload =
    | RecordBody(media: Media)
    | ListBody(data: seq<Media>, meta: Meta)
    | ErrorsBody(errors: seq<ErrorEntry>)
    | MessageBody(message: string)
    | NoBody

  /** What a handler does: answer with a status and payload, or pass a store fault
      to the error middleware (next(error)). */
  datatype Response =
    | Reply(status: int, payload: Payload)
    | Forwarded(error: DbError)

  const InvalidIdResponse: Response := Reply(400, MessageBody("Invalid media ID"))
  const NotFoundResponse: Response := Reply(404, MessageBody("Media not found"))

  // Issue formatting.

  /** path.join("."). */
  function JoinPath(segments: seq<string>): (r: string)
    ensures segments == [] ==> r == ""
    ensures |segments| == 1 ==> r == segments[0]
  {
    if segments == [] then ""
    else if |segments| == 1 then segments[0]
    else segments[0] + "." + JoinPath(segments[1..])
  }

  /** The code string zod reports for an issue. */
  function CodeName(c: IssueCode): string {
    match c
    case InvalidType => "invalid_type"
    case TooSmall => "too_small"
    case InvalidValue => "invalid_value"
    case InvalidFormat => "invalid_format"
  }

  function FormatIssue(i: Issue): ErrorEntry {
    ErrorEntry(JoinPath(i.path), i.message, CodeName(i.code))
  }

  /** issues.map(...): one entry per issue, in the same order. */
  function FormatIssues(issues: seq<Issue>): (r: seq<ErrorEntry>)
    ensures |r| == |issues|
    ensures forall k :: 0 <= k < |r| ==> r[k] == FormatIssue(issues[k])
  {
    if issues == [] then [] else [FormatIssue(issues[0])] + FormatIssues(issues[1..])
  }

  /** The 400 answer to a body or query that fails validation. */
  function Rejected(issues: seq<Issue>): Response {
    Reply(400, ErrorsBody(FormatIssues(issues)))
  }

  /** Each entry of a rejected create names, in schema order, a field that breaks
      its rule, and every such field has an entry. */
  lemma CreateErrorsNameOffendingFields(body: Body, isUrl: string -> bool)
    ensures var r, bad := ValidateCreate(body, isUrl), Offending(body, Fields, isUrl, false);
      r.Failure? ==>
        var errors := FormatIssues(r.error);
        bad != [] && |errors| == |bad| && forall k :: 0 <= k < |bad| ==> errors[k].path == Key(bad[k])
  {
    CreateReportsEachOffendingField(body, isUrl);
  }

  /** The same for an update: only supplied fields can be named. */
  lemma UpdateErrorsNameOffendingFields(body: Body, isUrl: string -> bool)
    ensures var r, bad := ValidateUpdate(body, isUrl), Offending(body, Fields, isUrl, true);
      r.Failure? ==>
        var errors := FormatIssues(r.error);
        bad != [] && |errors| == |bad| && forall k :: 0 <= k < |bad| ==> errors[k].path == Key(bad[k])
  {
    UpdateReportsEachOffendingField(body, isUrl);
  }

  // The id path parameter.

  /** parseInt(raw, 10), rejected when NaN. */
  function CheckId(raw: string): (r: Result<int, Response>)
    ensures r.Failure? <==> ParseInt(raw).None?
    ensures r.Success? ==> r.value == ParseInt(raw).value
    ensures r.Failure? ==> r.error == InvalidIdResponse
  {
    match ParseInt(raw)
    case None => Failure(InvalidIdResponse)
    case Some(n) => Success(n)
  }

  /** An id is accepted exactly when the parameter has a decimal prefix (white space,
      an optional sign, digits), and the id is the signed value of those digits. */
  lemma IdAcceptedExactlyWithDecimalPrefix(raw: string)
    ensures CheckId(raw).Success? <==> exists a, b, c :: DecimalPrefix(raw, a, b, c)
    ensures forall a, b, c :: DecimalPrefix(raw, a, b, c) ==>
      CheckId(raw) == Success(Signed(raw[a..b] == "-", DigitsValue(raw[b..c])))
  {
    ParseIntFindsPrefix(raw);
    forall a, b, c | DecimalPrefix(raw, a, b, c)
      ensures CheckId(raw) == Success(Signed(raw[a..b] == "-", DigitsValue(raw[b..c])))
    {
      ParseIntReadsPrefix(raw, a, b, c);
    }
  }

  /** Every id the store hands out, written in decimal, reads back as itself. */
  lemma CheckIdReadsDecimal(n: nat)
    ensures CheckId(DecimalString(n)) == Success(n)
  {
    var d := DecimalString(n);
    assert "" + "" + d + "" == d;
    ParseIntReadsDecimal("", "", n, "");
  }

  /** parseInt stops at the first non-digit: "12abc" is the id 12. */
  lemma TrailingTextIgnored()
    ensures CheckId("12abc") == Success(12)
  {
    ParseIntOfTwelveAbc();
  }

  /** Without a leading digit there is no id: "abc" and "" are invalid. */
  lemma DigitlessIdsRejected()
    ensures CheckId("abc") == Failure(InvalidIdResponse)
    ensures CheckId("") == Failure(InvalidIdResponse)
  {
    ParseIntOfLetters();
    ParseIntOfEmpty();
  }

  // Status and payload selection.

  /** 201 with the stored row, or the fault passed on. */
  function CreateReply(outcome: Result<Media, DbError>): (r: Response)
    ensures r.Forwarded? <==> outcome.Failure?
    ensures r.Forwarded? ==> r.error == outcome.error
    ensures r.Reply? ==> r == Reply(201, RecordBody(outcome.value))
  {
    match outcome
    case Success(m) => Reply(201, RecordBody(m))
    case Failure(e) => Forwarded(e)
  }

  /** Math.ceil(total / limit) for a positive limit: the fewest pages of limit rows
      that hold total rows. */
  function CeilDiv(total: nat, limit: int): (r: nat)
    requires limit >= 1
    ensures r * limit >= total
    ensures r == 0 || (r - 1) * limit < total
  {
    var q := (total + limit - 1) / limit;
    assert total + limit - 1 == limit * q + (total + limit - 1) % limit;
    assert (q - 1) * limit == q * limit - limit;
    q
  }

  /** 200 with the page and its meta object, or the fault passed on. The meta object
      repeats the query and the store's count, and totalPages is the fewest pages of
      limit rows that hold every row. */
  function ListReply(query: Pagination, outcome: Result<PageResult, DbError>): (r: Response)
    requires query.limit >= 1
    ensures r.Forwarded? <==> outcome.Failure?
    ensures r.Forwarded? ==> r.error == outcome.error
    ensures r.Reply? ==>
      && r.status == 200 && r.payload.ListBody? && r.payload.data == outcome.value.media
      && r.payload.meta.total == outcome.value.total
      && r.payload.meta.page == query.page && r.payload.meta.limit == query.limit
      && r.payload.meta.totalPages * query.limit >= outcome.value.total
      && (r.payload.meta.totalPages == 0 || (r.payload.meta.totalPages - 1) * query.limit < outcome.value.total)
  {
    match outcome
    case Success(result) =>
      Reply(200, ListBody(result.media,
        Meta(result.total, query.page, query.limit, CeilDiv(result.total, query.limit))))
    case Failure(e) => Forwarded(e)
  }

  /** 200 with the rewritten row, 404 when the store found no row (a falsy result),
      or the fault passed on. */
  function UpdateReply(outcome: Result<Option<Media>, DbError>): (r: Response)
    ensures r == NotFoundResponse <==> outcome == Success(None)
    ensures r.Forwarded? <==> outcome.Failure?
    ensures r.Forwarded? ==> r.error == outcome.error
    ensures outcome.Success? && outcome.value.Some? ==> r == Reply(200, RecordBody(outcome.value.value))
  {
    match outcome
    case Success(None) => NotFoundResponse
    case Success(Some(m)) => Reply(200, RecordBody(m))
    case Failure(e) => Forwarded(e)
  }

  /** 204 with no body, 404 when the store found no row, or the fault passed on. */
  function DeleteReply(outcome: Result<Option<Media>, DbError>): (r: Response)
    ensures r == NotFoundResponse <==> outcome == Success(None)
    ensures r == Reply(204, NoBody) <==> outcome.Success? && outcome.value.Some?
    ensures r.Forwarded? <==> outcome.Failure?
    ensures r.Forwarded? ==> r.error == outcome.error
  {
    match outcome
    case Success(None) => NotFoundResponse
    case Success(Some(_)) => Reply(204, NoBody)
    case Failure(e) => Forwarded(e)
  }

  lemma MulMonotone(a: int, b: int, limit: int)
    requires a <= b && limit >= 1
    ensures a * limit <= b * limit
  {
    assert b * limit - a * limit == (b - a) * limit;
  }

  /** meta.totalPages counts exactly the non-empty pages: page p of the listing has
      rows if and only if 1 <= p <= totalPages. */
  lemma TotalPagesCountsNonEmptyPages<T>(s: seq<T>, page: int, limit: int)
    requires page >= 1 && limit >= 1
    ensures PageSlice(s, page, limit) != [] <==> page <= CeilDiv(|s|, limit)
  {
    var c := CeilDiv(|s|, limit);
    if page <= c {
      MulMonotone(page - 1, c - 1, limit);
      assert Skip(page, limit) < |s|;
      assert PageSlice(s, page, limit)[0] == s[Skip(page, limit)];
    } else {
      MulMonotone(c, page - 1, limit);
      assert Skip(page, limit) >= |s|;
    }
  }

  // The handlers.

  /** createMedia: 201 with the stored row when the body is valid and the store
      succeeds; 400 with the issues, without touching the store, when it is not. */
  method CreateMedia(store: MediaStore, body: Body, isUrl: string -> bool, failure: Option<DbError>)
    returns (res: Response)
    requires store.Valid()
    modifies store
    ensures store.Valid()
    ensures ValidateCreate(body, isUrl).Failure? ==>
      res == Rejected(ValidateCreate(body, isUrl).error) && unchanged(store)
    ensures ValidateCreate(body, isUrl).Success? ==>
      && store.calls == old(store.calls) + [CreateCall(ValidateCreate(body, isUrl).value)]
      && (failure.Some? ==> res == Forwarded(failure.value) && store.rows == old(store.rows))
      && (failure.None? ==>
            && res.Reply? && res.status == 201 && res.payload.RecordBody?
            && res.payload.media.id !in old(store.issued)
            && res.payload.media == NewRecord(res.payload.media.id, ValidateCreate(body, isUrl).value, res.payload.media.createdAt)
            && store.rows == old(store.rows)[res.payload.media.id := res.payload.media])
    ensures old(store.RowsValid()) ==> store.RowsValid()
  {
    var v := ValidateCreate(body, isUrl);
    if v.Failure? {
      return Rejected(v.error);
    }
    var outcome := store.CreateMedia(v.value, failure);
    res := CreateReply(outcome);
  }

  /** getAllMedia: 200 with the requested page newest first and its metadata when
      the query is valid; 400 with the issues, without calling the store, when not. */
  method GetAllMedia(store: MediaStore, query: Body, failure: Option<DbError>) returns (res: Response)
    requires store.Valid()
    modifies store`calls
    ensures store.Valid()
    ensures ValidatePagination(query).Failure? ==>
      res == Rejected(ValidatePagination(query).error) && store.calls == old(store.calls)
    ensures ValidatePagination(query).Success? ==>
      var q := ValidatePagination(query).value;
      && store.calls == old(store.calls) + [GetAllCall(q.page, q.limit)]
      && (failure.Some? ==> res == Forwarded(failure.value))
      && (failure.None? ==>
            res == Reply(200, ListBody(PageSlice(store.Listing(), q.page, q.limit),
              Meta(|store.rows|, q.page, q.limit, CeilDiv(|store.rows|, q.limit)))))
  {
    var v := ValidatePagination(query);
    if v.Failure? {
      return Rejected(v.error);
    }
    var outcome := store.GetAllMedia(v.value.page, v.value.limit, failure);
    res := ListReply(v.value, outcome);
  }

  /** updateMedia: the id is checked before the body; 200 with the rewritten row,
      404 when there is no such row; neither invalid input reaches the store. */
  method UpdateMedia(store: MediaStore, rawId: string, body: Body, isUrl: string -> bool, failure: Option<DbError>)
    returns (res: Response)
    requires store.Valid()
    modifies store
    ensures store.Valid()
    ensures ParseInt(rawId).None? ==> res == InvalidIdResponse && unchanged(store)
    ensures ParseInt(rawId).Some? && ValidateUpdate(body, isUrl).Failure? ==>
      res == Rejected(ValidateUpdate(body, isUrl).error) && unchanged(store)
    ensures ParseInt(rawId).Some? && ValidateUpdate(body, isUrl).Success? ==>
      var id, patch := ParseInt(rawId).value, ValidateUpdate(body, isUrl).value;
      && store.calls == old(store.calls) + [UpdateCall(id, patch)]
      && (failure.Some? ==> res == Forwarded(failure.value) && store.rows == old(store.rows))
      && (failure.None? && id !in old(store.rows) ==> res == NotFoundResponse && store.rows == old(store.rows))
      && (failure.None? && id in old(store.rows) ==>
            && res == Reply(200, RecordBody(ApplyPatch(old(store.rows)[id], patch)))
            && store.rows == old(store.rows)[id := ApplyPatch(old(store.rows)[id], patch)])
    ensures old(store.RowsValid()) ==> store.RowsValid()
  {
    var id := CheckId(rawId);
    if id.Failure? {
      return id.error;
    }
    var v := ValidateUpdate(body, isUrl);
    if v.Failure? {
      return Rejected(v.error);
    }
    var outcome := store.UpdateMedia(id.value, v.value, failure);
    res := UpdateReply(outcome);
  }

  /** deleteMedia: 204 with no body once the row is gone, 404 when there is no such
      row; an invalid id never reaches the store. */
  method DeleteMedia(store: MediaStore, rawId: string, failure: Option<DbError>) returns (res: Response)
    requires store.Valid()
    modifies store
    ensures store.Valid()
    ensures ParseInt(rawId).None? ==> res == InvalidIdResponse && unchanged(store)
    ensures ParseInt(rawId).Some? ==>
      var id := ParseInt(rawId).value;
      && store.calls == old(store.calls) + [DeleteCall(id)]
      && (failure.Some? ==> res == Forwarded(failure.value) && store.rows == old(store.rows))
      && (failure.None? && id !in old(store.rows) ==> res == NotFoundResponse && store.rows == old(store.rows))
      && (failure.None? && id in old(store.rows) ==> res == Reply(204, NoBody) && store.rows == old(store.rows) - {id})
    ensures old(store.RowsValid()) ==> store.RowsValid()
  {
    var id := CheckId(rawId);
    if id.Failure? {
      return id.error;
    }
    var outcome := store.DeleteMedia(id.value, failure);
    res := DeleteReply(outcome);
  }

  /** A client session: create a row, delete it through its URL id, then update it
      through the same URL: the update finds nothing, because ids are never reused. */
  method CreateDeleteThenUpdate(store: MediaStore, body: Body, changes: Body, isUrl: string -> bool)
    returns (created: Response, deleted: Response, updated: Response)
    requires store.Valid()
    requires ValidateCreate(body, isUrl).Success? && ValidateUpdate(changes, isUrl).Success?
    modifies store
    ensures created.Reply? && created.status == 201
    ensures deleted == Reply(204, NoBody)
    ensures updated == NotFoundResponse
  {
    created := CreateMedia(store, body, isUrl, None);
    var m := created.payload.media;
    assert m.id in store.issued;
    var url := DecimalString(m.id);
    CheckIdReadsDecimal(m.id);
    deleted := DeleteMedia(store, url, None);
    updated := UpdateMedia(store, url, changes, isUrl, None);
  }
}
