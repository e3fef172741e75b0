/** The request validation rules: the create schema of a media record, its partial
    form used for updates, and the pagination schema of the list query. Each schema is
    a total function from the untyped JSON input to either the validated value or the
    list of issues, at most one per field, in the order the schema declares its fields.
    Messages follow zod's English locale; the URL syntax check is a parameter. */
module MediaSchema {
  import opened Wrappers
  import opened JsConversions

  /** A JSON value; of a string only its text matters to the schemas. */
  datatype Json = JNull | JString(text: string) | JNumber | JBoolean | JArray | JObject

  /** A JSON object (a request body or a query); a key it lacks reads as undefined. */
  type Body = map<string, Json>

  function Lookup(body: Body, key: string): Option<Json> {
    if key in body then Some(body[key]) else None
  }

  /** The name zod's messages give to the type of a received value. */
  function TypeName(v: Option<Json>): string {
    match v
    case None => "undefined"
    case Some(JNull) => "null"
    case Some(JString(_)) => "string"
    case Some(JNumber) => "number"
    case Some(JBoolean) => "boolean"
    case Some(JArray) => "array"
    case Some(JObject) => "object"
  }

  /** zod's default message for a value of the wrong type. */
  function ExpectedMessage(expected: string, received: string): string {
    "Invalid input: expected " + expected + ", received " + received
  }

  datatype IssueCode = InvalidType | TooSmall | InvalidValue | InvalidFormat

  /** One validation failure: where (the key path), which check, and the message. */
  datatype Issue = Issue(path: seq<string>, code: IssueCode, message: string)

  datatype MediaType = Movie | TvShow

  function MediaTypeName(t: MediaType): string {
    match t
    case Movie => "Movie"
    case TvShow => "TV Show"
  }

  /** The fields of the media schema, in declaration order. */
  datatype Field = Title | Type | Director | Budget | Location | Duration | YearTime | ImageUrl

  const Fields: seq<Field> := [Title, Type, Director, Budget, Location, Duration, YearTime, ImageUrl]

  function Key(f: Field): string {
    match f
    case Title => "title"
    case Type => "type"
    case Director => "director"
    case Budget => "budget"
    case Location => "location"
    case Duration => "duration"
    case YearTime => "yearTime"
    case ImageUrl => "imageUrl"
  }

  /** The six required free-text fields. */
  predicate IsText(f: Field) {
    !f.Type? && !f.ImageUrl?
  }

  /** The schema's own message for each field's check. */
  function Message(f: Field): string {
    match f
    case Title => "Title is required"
    case Type => "Type must be \"Movie\" or \"TV Show\""
    case Director => "Director is required"
    case Budget => "Budget is required"
    case Location => "Location is required"
    case Duration => "Duration is required"
    case YearTime => "Year/Time is required"
    case ImageUrl => "Invalid URL format for image"
  }

  /** The value a validated record holds in one field. */
  datatype FieldValue = Text(text: string) | Kind(kind: MediaType) | Link(url: Option<string>)

  /** The JSON a field value is read from. */
  function ToJson(v: FieldValue): Json {
    match v
    case Text(s) => JString(s)
    case Kind(t) => JString(MediaTypeName(t))
    case Link(None) => JNull
    case Link(Some(u)) => JString(u)
  }

  /** A body the create schema accepted; an absent and a null imageUrl both give None. */
  datatype MediaInput = MediaInput(
    title: string, mediaType: MediaType, director: string, budget: string,
    location: string, duration: string, yearTime: string, imageUrl: Option<string>)

  /** A body the update schema accepted: None for a field the body does not supply;
      imageUrl is Some(None) when the body sets it to null. */
  datatype MediaPatch = MediaPatch(
    title: Option<string>, mediaType: Option<MediaType>, director: Option<string>,
    budget: Option<string>, location: Option<string>, duration: Option<string>,
    yearTime: Option<string>, imageUrl: Option<Option<string>>)

  const NoChanges: MediaPatch := MediaPatch(None, None, None, None, None, None, None, None)

  function InputField(d: MediaInput, f: Field): FieldValue {
    match f
    case Title => Text(d.title)
    case Type => Kind(d.mediaType)
    case Director => Text(d.director)
    case Budget => Text(d.budget)
    case Location => Text(d.location)
    case Duration => Text(d.duration)
    case YearTime => Text(d.yearTime)
    case ImageUrl => Link(d.imageUrl)
  }

  function Supplied(p: MediaPatch, f: Field): Option<FieldValue> {
    match f
    case Title => if p.title.Some? then Some(Text(p.title.value)) else None
    case Type => if p.mediaType.Some? then Some(Kind(p.mediaType.value)) else None
    case Director => if p.director.Some? then Some(Text(p.director.value)) else None
    case Budget => if p.budget.Some? then Some(Text(p.budget.value)) else None
    case Location => if p.location.Some? then Some(Text(p.location.value)) else None
    case Duration => if p.duration.Some? then Some(Text(p.duration.value)) else None
    case YearTime => if p.yearTime.Some? then Some(Text(p.yearTime.value)) else None
    case ImageUrl => if p.imageUrl.Some? then Some(Link(p.imageUrl.value)) else None
  }

  /** The record invariant the schema guarantees: no required text is empty. */
  predicate InputValid(d: MediaInput) {
    forall f :: IsText(f) ==> InputField(d, f) != Text("")
  }

  predicate PatchValid(p: MediaPatch) {
    forall f :: IsText(f) ==> Supplied(p, f) != Some(Text(""))
  }

  /** PatchValid checked one text field at a time. */
  lemma PatchValidByField(p: MediaPatch)
    requires p.title != Some("") && p.director != Some("") && p.budget != Some("")
    requires p.location != Some("") && p.duration != Some("") && p.yearTime != Some("")
    ensures PatchValid(p)
  {
    forall f | IsText(f) ensures Supplied(p, f) != Some(Text("")) {
      match f
      case Title =>
      case Director =>
      case Budget =>
      case Location =>
      case Duration =>
      case YearTime =>
    }
  }

  // The per-field rules, applied to the value found under the field's key.

  /** z.string().min(1, message) */
  function TextRule(f: Field, v: Option<Json>): Result<string, Issue> {
    match v
    case Some(JString(s)) =>
      if |s| >= 1 then Success(s) else Failure(Issue([Key(f)], TooSmall, Message(f)))
    case _ => Failure(Issue([Key(f)], InvalidType, ExpectedMessage("string", TypeName(v))))
  }

  /** z.enum(["Movie", "TV Show"], {message}): anything else, undefined included,
      is one invalid_value issue carrying the schema's message. */
  function TypeRule(v: Option<Json>): Result<MediaType, Issue> {
    if v == Some(JString("Movie")) then Success(Movie)
    else if v == Some(JString("TV Show")) then Success(TvShow)
    else Failure(Issue([Key(Type)], InvalidValue, Message(Type)))
  }

  /** z.url(message).optional().nullable() */
  function UrlRule(v: Option<Json>, isUrl: string -> bool): Result<Option<string>, Issue> {
    match v
    case None => Success(None)
    case Some(JNull) => Success(None)
    case Some(JString(s)) =>
      if isUrl(s) then Success(Some(s)) else Failure(Issue([Key(ImageUrl)], InvalidFormat, Message(ImageUrl)))
    case Some(_) => Failure(Issue([Key(ImageUrl)], InvalidType, Message(ImageUrl)))
  }

  /** A text field passes exactly when it holds a non-empty string, and yields that
      string. The empty string is a too_small issue with the field's own message;
      anything else, an absent key included, is an invalid_type issue naming what was
      received. Every issue is on the field's path. */
  lemma TextRuleContract(f: Field, v: Option<Json>)
    ensures var r := TextRule(f, v);
      && (r.Success? <==> v.Some? && v.value.JString? && v.value.text != "")
      && (r.Success? ==> v == Some(JString(r.value)))
      && (r.Failure? ==> r.error.path == [Key(f)])
      && (r.Failure? && v == Some(JString("")) ==> r.error.code == TooSmall && r.error.message == Message(f))
      && (r.Failure? && v != Some(JString("")) ==>
            r.error.code == InvalidType && r.error.message == ExpectedMessage("string", TypeName(v)))
  {
  }

  /** The type field passes exactly when it is one of the two names, and yields the
      media type of that name; everything else is one invalid_value issue. */
  lemma TypeRuleContract(v: Option<Json>)
    ensures var r := TypeRule(v);
      && (r.Success? <==> v == Some(JString("Movie")) || v == Some(JString("TV Show")))
      && (r.Success? ==> v == Some(JString(MediaTypeName(r.value))))
      && (r.Failure? ==> r.error == Issue([Key(Type)], InvalidValue, Message(Type)))
  {
  }

  /** imageUrl passes when absent, null, or a string the URL check accepts; absent and
      null both yield None, a string yields itself. A string that fails the check is an
      invalid_format issue, any other value an invalid_type issue, both with the
      schema's message. */
  lemma UrlRuleContract(v: Option<Json>, isUrl: string -> bool)
    ensures var r := UrlRule(v, isUrl);
      && (r.Success? <==> v.None? || v == Some(JNull) || (v.Some? && v.value.JString? && isUrl(v.value.text)))
      && (r.Success? ==> (r.value.None? <==> v.None? || v == Some(JNull)))
      && (r.Success? && r.value.Some? ==> v == Some(JString(r.value.value)))
      && (r.Failure? ==> r.error.path == [Key(ImageUrl)] && r.error.message == Message(ImageUrl))
      && (r.Failure? ==> (r.error.code == InvalidFormat <==> v.value.JString?))
      && (r.Failure? && !v.value.JString? ==> r.error.code == InvalidType)
  {
  }

  function IssueOf<T>(r: Result<T, Issue>): seq<Issue> {
    if r.Success? then [] else [r.error]
  }

  /** The issues one field contributes; with partial (.partial(), every field made
      optional), an absent key contributes none. */
  function FieldIssues(body: Body, f: Field, isUrl: string -> bool, partial: bool): seq<Issue> {
    if partial && Key(f) !in body then []
    else
      var v := Lookup(body, Key(f));
      match f
      case Type => IssueOf(TypeRule(v))
      case ImageUrl => IssueOf(UrlRule(v, isUrl))
      case _ => IssueOf(TextRule(f, v))
  }

  /** The issues of an object schema: each field's, in declaration order. */
  function IssuesFor(body: Body, fields: seq<Field>, isUrl: string -> bool, partial: bool): seq<Issue> {
    if fields == [] then []
    else FieldIssues(body, fields[0], isUrl, partial) + IssuesFor(body, fields[1..], isUrl, partial)
  }

  /** The create schema's rule for one field, read directly off the declaration:
      a non-empty string for the six text fields, exactly "Movie" or "TV Show" for
      type, and for imageUrl absent, null or a string the URL check accepts. */
  predicate Accepted(body: Body, f: Field, isUrl: string -> bool) {
    match f
    case Type => Key(f) in body && (body[Key(f)] == JString("Movie") || body[Key(f)] == JString("TV Show"))
    case ImageUrl =>
      Key(f) !in body || body[Key(f)] == JNull || (body[Key(f)].JString? && isUrl(body[Key(f)].text))
    case _ => Key(f) in body && body[Key(f)].JString? && body[Key(f)].text != ""
  }

  /** A field passes when its rule accepts it or, in the partial schema, when absent. */
  predicate Admitted(body: Body, f: Field, isUrl: string -> bool, partial: bool) {
    (partial && Key(f) !in body) || Accepted(body, f, isUrl)
  }

  /** The fields that fail, in the given order. */
  function Offending(body: Body, fields: seq<Field>, isUrl: string -> bool, partial: bool): (bad: seq<Field>)
    ensures forall f :: f in bad <==> f in fields && !Admitted(body, f, isUrl, partial)
  {
    if fields == [] then []
    else if Admitted(body, fields[0], isUrl, partial) then Offending(body, fields[1..], isUrl, partial)
    else [fields[0]] + Offending(body, fields[1..], isUrl, partial)
  }

  /** The record a body all of whose fields the create schema accepts parses to: each
      field holds its rule's value. */
  function InputOf(body: Body, isUrl: string -> bool): (d: MediaInput)
    requires forall f :: Accepted(body, f, isUrl)
    ensures InputValid(d)
  {
    assert Accepted(body, Title, isUrl) && Accepted(body, Type, isUrl) && Accepted(body, Director, isUrl);
    assert Accepted(body, Budget, isUrl) && Accepted(body, Location, isUrl) && Accepted(body, Duration, isUrl);
    assert Accepted(body, YearTime, isUrl) && Accepted(body, ImageUrl, isUrl);
    MediaInput(
      TextRule(Title, Lookup(body, Key(Title))).value, TypeRule(Lookup(body, Key(Type))).value,
      TextRule(Director, Lookup(body, Key(Director))).value, TextRule(Budget, Lookup(body, Key(Budget))).value,
      TextRule(Location, Lookup(body, Key(Location))).value, TextRule(Duration, Lookup(body, Key(Duration))).value,
      TextRule(YearTime, Lookup(body, Key(YearTime))).value, UrlRule(Lookup(body, Key(ImageUrl)), isUrl).value)
  }

  /** A text field's value when the body supplies it, None otherwise. */
  function GivenText(body: Body, f: Field, isUrl: string -> bool): (o: Option<string>)
    requires IsText(f) && (Key(f) in body ==> Accepted(body, f, isUrl))
    ensures o != Some("")
  {
    if Key(f) in body then Some(TextRule(f, Lookup(body, Key(f))).value) else None
  }

  /** The rule's value of a field the body supplies, None for one it lacks. */
  function PatchOf(body: Body, isUrl: string -> bool): (p: MediaPatch)
    requires forall f :: Key(f) in body ==> Accepted(body, f, isUrl)
    ensures PatchValid(p)
  {
    assert Key(Type) in body ==> Accepted(body, Type, isUrl);
    assert Key(ImageUrl) in body ==> Accepted(body, ImageUrl, isUrl);
    var p := MediaPatch(
      GivenText(body, Title, isUrl),
      if Key(Type) in body then Some(TypeRule(Lookup(body, Key(Type))).value) else None,
      GivenText(body, Director, isUrl), GivenText(body, Budget, isUrl), GivenText(body, Location, isUrl),
      GivenText(body, Duration, isUrl), GivenText(body, YearTime, isUrl),
      if Key(ImageUrl) in body then Some(UrlRule(Lookup(body, Key(ImageUrl)), isUrl).value) else None);
    PatchValidByField(p);
    p
  }

  /** mediaSchema.parse: every field is checked and its issues collected; with none,
      the validated record, otherwise the issues of every offending field. */
  function ValidateCreate(body: Body, isUrl: string -> bool): (r: Result<MediaInput, seq<Issue>>)
    ensures r.Success? ==> InputValid(r.value)
  {
    var issues := IssuesFor(body, Fields, isUrl, false);
    if issues == [] then
      NoCreateIssuesExactlyWhenAccepted(body, isUrl);
      Success(InputOf(body, isUrl))
    else
      Failure(issues)
  }

  /** updateMediaSchema.parse (the create schema made partial): the supplied fields,
      or the issues of every supplied field that fails its rule. */
  function ValidateUpdate(body: Body, isUrl: string -> bool): (r: Result<MediaPatch, seq<Issue>>)
    ensures r.Success? ==> PatchValid(r.value)
  {
    var issues := IssuesFor(body, Fields, isUrl, true);
    if issues == [] then
      NoUpdateIssuesExactlyWhenSuppliedAccepted(body, isUrl);
      Success(PatchOf(body, isUrl))
    else
      Failure(issues)
  }

  // Lemmas about the record schemas.

  lemma FieldIssuesFollowRule(body: Body, f: Field, isUrl: string -> bool, partial: bool)
    ensures FieldIssues(body, f, isUrl, partial) == [] <==> Admitted(body, f, isUrl, partial)
    ensures |FieldIssues(body, f, isUrl, partial)| <= 1
    ensures forall i :: i in FieldIssues(body, f, isUrl, partial) ==> i.path == [Key(f)]
  {
  }

  /** One step of the lemma below: prepending a field's issues (none when the field is
      admitted, one on its path otherwise) keeps issues and offending fields aligned. */
  lemma PrependFieldIssues(head: seq<Issue>, rest: seq<Issue>, f: Field, restBad: seq<Field>, admitted: bool)
    requires |head| <= 1 && (head == [] <==> admitted) && forall i :: i in head ==> i.path == [Key(f)]
    requires |rest| == |restBad| && forall i :: 0 <= i < |restBad| ==> rest[i].path == [Key(restBad[i])]
    ensures var issues, bad := head + rest, if admitted then restBad else [f] + restBad;
      |issues| == |bad| && forall i :: 0 <= i < |bad| ==> issues[i].path == [Key(bad[i])]
  {
    if !admitted {
      var issues, bad := head + rest, [f] + restBad;
      forall i | 0 <= i < |bad| ensures issues[i].path == [Key(bad[i])] {
        if i == 0 {
          assert issues[0] in head;
        } else {
          assert issues[i] == rest[i - 1] && bad[i] == restBad[i - 1];
        }
      }
    }
  }

  /** The issues of an object schema are one per offending field, in field order, each
      on that field's path. */
  lemma {:induction false} IssuesNameOffendingFields(body: Body, fields: seq<Field>, isUrl: string -> bool, partial: bool)
    ensures var issues, bad := IssuesFor(body, fields, isUrl, partial), Offending(body, fields, isUrl, partial);
      |issues| == |bad| && forall i :: 0 <= i < |bad| ==> issues[i].path == [Key(bad[i])]
  {
    if fields != [] {
      FieldIssuesFollowRule(body, fields[0], isUrl, partial);
      IssuesNameOffendingFields(body, fields[1..], isUrl, partial);
      PrependFieldIssues(FieldIssues(body, fields[0], isUrl, partial), IssuesFor(body, fields[1..], isUrl, partial),
                         fields[0], Offending(body, fields[1..], isUrl, partial), Admitted(body, fields[0], isUrl, partial));
    }
  }

  lemma AllFieldsListed(f: Field)
    ensures f in Fields
  {
  }

  /** An object schema reports no issue exactly when every field passes. */
  lemma NoIssuesExactlyWhenAdmitted(body: Body, isUrl: string -> bool, partial: bool)
    ensures IssuesFor(body, Fields, isUrl, partial) == [] <==> forall f :: Admitted(body, f, isUrl, partial)
  {
    IssuesNameOffendingFields(body, Fields, isUrl, partial);
    var bad := Offending(body, Fields, isUrl, partial);
    if forall f :: Admitted(body, f, isUrl, partial) {
      assert bad == [] || bad[0] in bad;
    }
    if IssuesFor(body, Fields, isUrl, partial) == [] {
      forall f ensures Admitted(body, f, isUrl, partial) {
        AllFieldsListed(f);
      }
    }
  }

  lemma NoCreateIssuesExactlyWhenAccepted(body: Body, isUrl: string -> bool)
    ensures IssuesFor(body, Fields, isUrl, false) == [] <==> forall f :: Accepted(body, f, isUrl)
  {
    NoIssuesExactlyWhenAdmitted(body, isUrl, false);
    assert forall f :: Admitted(body, f, isUrl, false) == Accepted(body, f, isUrl);
  }

  lemma NoUpdateIssuesExactlyWhenSuppliedAccepted(body: Body, isUrl: string -> bool)
    ensures IssuesFor(body, Fields, isUrl, true) == [] <==> forall f :: Key(f) in body ==> Accepted(body, f, isUrl)
  {
    NoIssuesExactlyWhenAdmitted(body, isUrl, true);
    assert forall f :: Admitted(body, f, isUrl, true) == (Key(f) in body ==> Accepted(body, f, isUrl));
  }

  /** The create schema accepts a body exactly when every field meets its rule. */
  lemma CreateAcceptsExactlyValidBodies(body: Body, isUrl: string -> bool)
    ensures ValidateCreate(body, isUrl).Success? <==> forall f :: Accepted(body, f, isUrl)
  {
    NoCreateIssuesExactlyWhenAccepted(body, isUrl);
  }

  /** A rejected create body gets one issue per offending field, in schema order, and
      at least one. */
  lemma CreateReportsEachOffendingField(body: Body, isUrl: string -> bool)
    ensures var r, bad := ValidateCreate(body, isUrl), Offending(body, Fields, isUrl, false);
      r.Failure? ==> bad != [] && |r.error| == |bad| && forall i :: 0 <= i < |bad| ==> r.error[i].path == [Key(bad[i])]
  {
    IssuesNameOffendingFields(body, Fields, isUrl, false);
  }

  /** The update schema accepts a body exactly when every field it supplies meets the
      create schema's rule for that field; absent fields are never an issue. */
  lemma UpdateAcceptsExactlySuppliedValid(body: Body, isUrl: string -> bool)
    ensures ValidateUpdate(body, isUrl).Success? <==> forall f :: Key(f) in body ==> Accepted(body, f, isUrl)
  {
    NoUpdateIssuesExactlyWhenSuppliedAccepted(body, isUrl);
  }

  /** An accepted create body is echoed: every key present holds the JSON of the value
      the record keeps for that field, and only imageUrl may be absent (then None). */
  lemma CreateKeepsSubmittedValues(body: Body, isUrl: string -> bool)
    requires ValidateCreate(body, isUrl).Success?
    ensures var d := ValidateCreate(body, isUrl).value;
      forall f :: Key(f) in body ==> ToJson(InputField(d, f)) == body[Key(f)]
    ensures var d := ValidateCreate(body, isUrl).value;
      forall f :: Key(f) !in body ==> f == ImageUrl && d.imageUrl == None
  {
    CreateAcceptsExactlyValidBodies(body, isUrl);
    var d := ValidateCreate(body, isUrl).value;
    assert d == InputOf(body, isUrl);
    forall f ensures (Key(f) in body ==> ToJson(InputField(d, f)) == body[Key(f)])
                  && (Key(f) !in body ==> f == ImageUrl && d.imageUrl == None) {
      assert Accepted(body, f, isUrl);
      match f
      case Title =>
      case Type =>
      case Director =>
      case Budget =>
      case Location =>
      case Duration =>
      case YearTime =>
      case ImageUrl =>
    }
  }

  /** An accepted update supplies exactly the fields the body has, each holding the
      value the body gives it. */
  lemma UpdateKeepsSuppliedValues(body: Body, isUrl: string -> bool)
    requires ValidateUpdate(body, isUrl).Success?
    ensures var p := ValidateUpdate(body, isUrl).value;
      forall f :: Supplied(p, f).Some? <==> Key(f) in body
    ensures var p := ValidateUpdate(body, isUrl).value;
      forall f :: Key(f) in body ==> Supplied(p, f).Some? && ToJson(Supplied(p, f).value) == body[Key(f)]
  {
    UpdateAcceptsExactlySuppliedValid(body, isUrl);
    var p := ValidateUpdate(body, isUrl).value;
    assert p == PatchOf(body, isUrl);
    forall f ensures (Supplied(p, f).Some? <==> Key(f) in body)
                  && (Key(f) in body ==> Supplied(p, f).Some? && ToJson(Supplied(p, f).value) == body[Key(f)]) {
      assert Key(f) in body ==> Accepted(body, f, isUrl);
      match f
      case Title =>
      case Type =>
      case Director =>
      case Budget =>
      case Location =>
      case Duration =>
      case YearTime =>
      case ImageUrl =>
    }
  }

  /** A rejected update body gets one issue per supplied field that fails, in schema
      order, and at least one. */
  lemma UpdateReportsEachOffendingField(body: Body, isUrl: string -> bool)
    ensures var r, bad := ValidateUpdate(body, isUrl), Offending(body, Fields, isUrl, true);
      r.Failure? ==> bad != [] && |r.error| == |bad| && forall i :: 0 <= i < |bad| ==> r.error[i].path == [Key(bad[i])]
  {
    IssuesNameOffendingFields(body, Fields, isUrl, true);
  }

  /** The empty object is a valid update that changes nothing. */
  lemma EmptyUpdateAccepted(isUrl: string -> bool)
    ensures ValidateUpdate(map[], isUrl) == Success(NoChanges)
  {
    UpdateAcceptsExactlySuppliedValid(map[], isUrl);
  }

  /** Every body the create schema accepts, the update schema accepts too: every field
      but imageUrl is supplied with the value the record holds, and imageUrl is
      supplied with that value exactly when the body has the key. */
  lemma CreateBodyIsValidUpdate(body: Body, isUrl: string -> bool)
    requires ValidateCreate(body, isUrl).Success?
    ensures ValidateUpdate(body, isUrl).Success?
    ensures forall f :: f != ImageUrl ==> Supplied(ValidateUpdate(body, isUrl).value, f) == Some(InputField(ValidateCreate(body, isUrl).value, f))
    ensures Key(ImageUrl) in body ==>
      Supplied(ValidateUpdate(body, isUrl).value, ImageUrl) == Some(InputField(ValidateCreate(body, isUrl).value, ImageUrl))
    ensures Key(ImageUrl) !in body ==> Supplied(ValidateUpdate(body, isUrl).value, ImageUrl) == None
  {
    CreateAcceptsExactlyValidBodies(body, isUrl);
    UpdateAcceptsExactlySuppliedValid(body, isUrl);
    var d, p := ValidateCreate(body, isUrl).value, ValidateUpdate(body, isUrl).value;
    assert d == InputOf(body, isUrl) && p == PatchOf(body, isUrl);
    forall f ensures Supplied(p, f) == if Key(f) in body then Some(InputField(d, f)) else None {
      assert Accepted(body, f, isUrl);
      match f
      case Title =>
      case Type =>
      case Director =>
      case Budget =>
      case Location =>
      case Duration =>
      case YearTime =>
      case ImageUrl =>
    }
    forall f | f != ImageUrl ensures Key(f) in body {
      assert Accepted(body, f, isUrl);
    }
  }

  // The pagination schema.

  /** The validated list query. */
  datatype Pagination = Pagination(page: int, limit: int)

  datatype Param = Page | Limit

  function ParamKey(p: Param): string {
    match p
    case Page => "page"
    case Limit => "limit"
  }

  function ParamDefault(p: Param): string {
    match p
    case Page => "1"
    case Limit => "10"
  }

  function ParamMessage(p: Param): string {
    match p
    case Page => "Page must be at least 1"
    case Limit => "Limit must be at least 1"
  }

  /** z.string().default(d).transform(Number).pipe(z.number().min(1, message)) */
  function ParamRule(p: Param, v: Option<Json>): (r: Result<int, Issue>)
    ensures r.Success? ==> r.value >= 1
    ensures r.Failure? ==> r.error.path == [ParamKey(p)]
    ensures v.Some? && !v.value.JString? ==>
      r == Failure(Issue([ParamKey(p)], InvalidType, ExpectedMessage("string", TypeName(v))))
  {
    match v
    case None => ConvertParam(p, ParamDefault(p))
    case Some(JString(s)) => ConvertParam(p, s)
    case Some(_) => Failure(Issue([ParamKey(p)], InvalidType, ExpectedMessage("string", TypeName(v))))
  }

  function ConvertParam(p: Param, s: string): (r: Result<int, Issue>)
    ensures r.Success? <==> ToNumber(s).Some? && ToNumber(s).value >= 1
    ensures r.Success? ==> r.value == ToNumber(s).value
    ensures r.Failure? ==> r.error.path == [ParamKey(p)]
    ensures r.Failure? ==> (r.error.code == InvalidType <==> ToNumber(s).None?)
    ensures r.Failure? && ToNumber(s).Some? ==> r.error == Issue([ParamKey(p)], TooSmall, ParamMessage(p))
    ensures ToNumber(s).None? ==> r == Failure(Issue([ParamKey(p)], InvalidType, ExpectedMessage("number", "NaN")))
  {
    match ToNumber(s)
    case None => Failure(Issue([ParamKey(p)], InvalidType, ExpectedMessage("number", "NaN")))
    case Some(n) => if n >= 1 then Success(n) else Failure(Issue([ParamKey(p)], TooSmall, ParamMessage(p)))
  }

  /** paginationSchema.parse */
  function ValidatePagination(query: Body): (r: Result<Pagination, seq<Issue>>)
    ensures r.Success? ==> r.value.page >= 1 && r.value.limit >= 1
    ensures r.Failure? ==> 1 <= |r.error| <= 2
  {
    var page := ParamRule(Page, Lookup(query, ParamKey(Page)));
    var limit := ParamRule(Limit, Lookup(query, ParamKey(Limit)));
    if page.Success? && limit.Success? then Success(Pagination(page.value, limit.value))
    else Failure(IssueOf(page) + IssueOf(limit))
  }

  /** The value a query parameter stands for: its default when absent, Number of its
      text when a string, nothing (a type error) otherwise. */
  function ParamNumber(query: Body, p: Param): Option<int> {
    if ParamKey(p) !in query then ToNumber(ParamDefault(p))
    else if query[ParamKey(p)].JString? then ToNumber(query[ParamKey(p)].text)
    else None
  }

  /** An empty query validates to page 1 of 10. */
  lemma PaginationDefaults()
    ensures ValidatePagination(map[]) == Success(Pagination(1, 10))
  {
    DefaultsAreNumbers();
    PaginationAcceptsExactly(map[]);
  }

  lemma DefaultsAreNumbers()
    ensures ToNumber(ParamDefault(Page)) == Some(1)
    ensures ToNumber(ParamDefault(Limit)) == Some(10)
  {
    assert DigitChar(1) == '1' && DigitChar(0) == '0';
    assert DecimalString(1) == "1";
    assert DecimalString(10) == DecimalString(1) + [DigitChar(0)] == "10";
    ToNumberReadsDecimal(1);
    ToNumberReadsDecimal(10);
  }

  lemma ParamRuleReadsNumber(query: Body, p: Param)
    ensures var r, n := ParamRule(p, Lookup(query, ParamKey(p))), ParamNumber(query, p);
      && (r.Success? <==> n.Some? && n.value >= 1)
      && (r.Success? ==> r.value == n.value)
  {
    var v := Lookup(query, ParamKey(p));
    if ParamKey(p) !in query {
      assert v == None;
      assert ParamRule(p, v) == ConvertParam(p, ParamDefault(p));
    } else if query[ParamKey(p)].JString? {
      assert v == Some(query[ParamKey(p)]);
      assert ParamRule(p, v) == ConvertParam(p, query[ParamKey(p)].text);
    } else {
      assert v == Some(query[ParamKey(p)]);
      assert ParamRule(p, v).Failure?;
    }
  }

  /** The pagination schema accepts a query exactly when both parameters stand for a
      number of at least 1, and then yields those numbers. */
  lemma PaginationAcceptsExactly(query: Body)
    ensures var r := ValidatePagination(query);
      r.Success? <==>
        && ParamNumber(query, Page).Some? && ParamNumber(query, Page).value >= 1
        && ParamNumber(query, Limit).Some? && ParamNumber(query, Limit).value >= 1
    ensures var r := ValidatePagination(query);
      r.Success? ==> r.value == Pagination(ParamNumber(query, Page).value, ParamNumber(query, Limit).value)
  {
    ParamRuleReadsNumber(query, Page);
    ParamRuleReadsNumber(query, Limit);
  }

  /** A rejected query gets one issue per failing parameter, page before limit, each
      on its own path; a parameter that passes contributes none. */
  lemma PaginationReportsEachFailingParam(query: Body)
    ensures var r := ValidatePagination(query);
      var pf := !(ParamNumber(query, Page).Some? && ParamNumber(query, Page).value >= 1);
      var lf := !(ParamNumber(query, Limit).Some? && ParamNumber(query, Limit).value >= 1);
      r.Failure? ==>
        && |r.error| == (if pf then 1 else 0) + (if lf then 1 else 0)
        && (pf ==> r.error[0].path == [ParamKey(Page)])
        && (lf ==> r.error[|r.error| - 1].path == [ParamKey(Limit)])
  {
    var page := ParamRule(Page, Lookup(query, ParamKey(Page)));
    var limit := ParamRule(Limit, Lookup(query, ParamKey(Limit)));
    assert page.Failure? <==> !(ParamNumber(query, Page).Some? && ParamNumber(query, Page).value >= 1) by {
      ParamRuleReadsNumber(query, Page);
    }
    assert limit.Failure? <==> !(ParamNumber(query, Limit).Some? && ParamNumber(query, Limit).value >= 1) by {
      ParamRuleReadsNumber(query, Limit);
    }
    IssuesOfPair(page, limit);
  }

  /** The issues of two results, in order: one per failure, each keeping its own path. */
  lemma IssuesOfPair<A, B>(x: Result<A, Issue>, y: Result<B, Issue>)
    ensures var e := IssueOf(x) + IssueOf(y);
      && |e| == (if x.Failure? then 1 else 0) + (if y.Failure? then 1 else 0)
      && (x.Failure? ==> e[0] == x.error)
      && (y.Failure? ==> e[|e| - 1] == y.error)
  {
  }

  /** A page or limit that is not numeric is an invalid_type issue on that parameter,
      never a value. */
  lemma NonNumericParamRejected(query: Body, p: Param)
    requires ParamKey(p) in query && query[ParamKey(p)].JString?
    requires ToNumber(query[ParamKey(p)].text) == None
    ensures var r := ValidatePagination(query);
      r.Failure? && exists i :: 0 <= i < |r.error| && r.error[i].path == [ParamKey(p)] && r.error[i].code == InvalidType
  {
    var own := ParamRule(p, Lookup(query, ParamKey(p)));
    assert own == ConvertParam(p, query[ParamKey(p)].text);
    assert own.Failure? && own.error.code == InvalidType;
    var page := ParamRule(Page, Lookup(query, ParamKey(Page)));
    var limit := ParamRule(Limit, Lookup(query, ParamKey(Limit)));
    var r := ValidatePagination(query);
    assert r.error == IssueOf(page) + IssueOf(limit);
    if p == Page {
      assert r.error[0] == own.error;
    } else {
      assert r.error[|r.error| - 1] == own.error;
    }
  }
}
