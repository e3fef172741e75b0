# favorite-movie-be: validation, handlers and media table

A model of the decision logic of a small REST service for a list of favourite movies and
TV shows. The service has four operations: create a media record, list records a page at
a time, update some fields of one record, and delete a record. The model has four
parts:

- `media_schema.dfy` (`MediaSchema`) covers the zod schemas. The record schema has six
  required non-empty strings, a `type` that is exactly `"Movie"` or `"TV Show"`, and an
  optional, nullable `imageUrl` that must be a URL when it is a string. The update schema
  is the same schema made partial. The pagination schema takes `page` and `limit`
  strings, defaults them to `"1"` and `"10"`, converts them with `Number` and requires at
  least 1. Each schema is a total function from the JSON body to either the validated
  value or the list of issues. An issue carries its path, code and message, in schema
  order.
- `js_conversions.dfy` (`JsConversions`) covers the two string-to-number conversions.
  `parseInt(s, 10)` follows section 19.2.5 of ECMA-262: it skips leading white space,
  takes an optional sign and reads the longest run of decimal digits, and gives NaN when
  there is no digit. `Number(s)` follows StringToNumber, section 7.1.4.1.1 of ECMA-262,
  over strings made of white space, signs and decimal digits; any other character that
  cannot occur in a numeric literal makes it NaN.
- `media_service.dfy` (`MediaService`) covers the persistence layer. The class
  `MediaStore` holds the rows by id and the ids in creation order. Create inserts a row
  under a fresh id. The listing computes `skip = (page - 1) * limit` and returns `limit`
  rows ordered by `createdAt` descending, together with the row count. Update rewrites
  only the supplied fields of one row. Delete removes one row.
- `media_controller.dfy` (`MediaController`) covers the four Express handlers. Update and
  delete check the `id` path parameter with `parseInt` before anything else; create and
  update validate the body, and the listing validates the query. Only when every input is
  valid does a handler call the store. It then picks the status
  and payload: 201, 200 or 204 on success; 400 with `{message: "Invalid media ID"}` or
  with the formatted `errors` list; 404 with `{message: "Media not found"}`; or it hands a
  store fault to the error middleware unchanged.

Three things the source does not show are parameters of the model:

- the URL syntax check of zod is `isUrl`;
- a fault the database raises is `failure`;
- the table's id counter and its clock for `createdAt` are fields of `MediaStore`.

The ghost field `calls` records each call the handlers make into the store. The handler
contracts use it to state when the store is and is not reached.

The issue codes and messages follow zod 4, whose top-level `z.url` API the schema uses:

- a missing or wrongly typed string field gives `invalid_type` with
  "Invalid input: expected string, received ...";
- an empty string gives `too_small` with the field's own message;
- any value outside the `type` enum, a missing one included, gives `invalid_value` with
  the enum's message;
- a string that is not a URL gives `invalid_format`, and any other non-null value gives
  `invalid_type`; both carry the URL message.

The code converts `page` and `limit` with `Number`, which accepts any numeric string; the model follows the code over the strings it covers (see "Left out").

## Model

| member | source | states |
|---|---|---|
| MediaSchema.TextRuleContract | src/schemas/mediaSchema.ts:4 | a text field passes if and only if it holds a non-empty string, and yields that string; the empty string is too_small with the field's own message; anything else, a missing key included, is invalid_type with "expected string, received ..."; every issue is on the field's path |
| MediaSchema.TypeRuleContract | src/schemas/mediaSchema.ts:5-7 | type passes if and only if it is "Movie" or "TV Show", and yields the media type of that name; anything else, a missing key included, is one invalid_value issue with the enum's message |
| MediaSchema.UrlRuleContract | src/schemas/mediaSchema.ts:13 | imageUrl passes if and only if it is absent, null, or a string the URL check accepts; absent and null both yield None and a string yields itself; a failing string is invalid_format and any other value invalid_type, both with the URL message on the imageUrl path |
| MediaSchema.FieldIssuesFollowRule | src/schemas/mediaSchema.ts:3-16 | a field contributes no issue exactly when it passes (or, in the partial schema, is absent), and otherwise exactly one issue on its own path |
| MediaSchema.Offending | src/schemas/mediaSchema.ts:3-16 | a field is listed if and only if it is in the given list and fails its rule, where absence is no failure in the partial schema |
| MediaSchema.IssuesNameOffendingFields | src/schemas/mediaSchema.ts:3-16 | the issues come one per offending field, in order, with that field's key as path |
| MediaSchema.NoIssuesExactlyWhenAdmitted | src/schemas/mediaSchema.ts:3-16 | an object schema reports no issue if and only if every field passes |
| MediaSchema.NoCreateIssuesExactlyWhenAccepted | src/schemas/mediaSchema.ts:3-14 | the create schema reports no issue if and only if every field meets its rule |
| MediaSchema.NoUpdateIssuesExactlyWhenSuppliedAccepted | src/schemas/mediaSchema.ts:16 | the update schema reports no issue if and only if every field the body contains meets its rule |
| MediaSchema.InputOf | src/schemas/mediaSchema.ts:3-14 | the record built from a body whose every field passes has all six required text fields non-empty |
| MediaSchema.GivenText | src/schemas/mediaSchema.ts:16 | a text field an update supplies and that passes its rule is never the empty string |
| MediaSchema.PatchOf | src/schemas/mediaSchema.ts:16 | the update built from a body whose supplied fields all pass supplies no empty text field |
| MediaSchema.ValidateCreate | src/schemas/mediaSchema.ts:3-14 | an accepted body yields a record whose six required text fields are all non-empty |
| MediaSchema.CreateAcceptsExactlyValidBodies | src/schemas/mediaSchema.ts:3-14 | a body is accepted if and only if each field meets its rule: a non-empty string for title, director, budget, location, duration and yearTime; exactly "Movie" or "TV Show" for type; absent, null or a URL string for imageUrl |
| MediaSchema.CreateReportsEachOffendingField | src/schemas/mediaSchema.ts:3-14 | a rejected body gets at least one issue, exactly one per offending field, in schema order, each on the path of that field's key |
| MediaSchema.CreateKeepsSubmittedValues | src/schemas/mediaSchema.ts:3-14 | the accepted record holds, for every key present, exactly the value the body gave; only imageUrl may be absent, and then it is None |
| MediaSchema.ValidateUpdate | src/schemas/mediaSchema.ts:16 | every text field an accepted update supplies is non-empty |
| MediaSchema.UpdateAcceptsExactlySuppliedValid | src/schemas/mediaSchema.ts:16 | an update body is accepted if and only if every field it contains meets the create schema's rule; absent fields are never an issue |
| MediaSchema.UpdateKeepsSuppliedValues | src/schemas/mediaSchema.ts:16 | an accepted update supplies exactly the fields the body contains, each with the body's value |
| MediaSchema.UpdateReportsEachOffendingField | src/schemas/mediaSchema.ts:16 | a rejected update gets at least one issue, exactly one per supplied field that fails, in schema order, each on that field's path |
| MediaSchema.EmptyUpdateAccepted | src/schemas/mediaSchema.ts:16 | the empty object is a valid update that supplies nothing |
| MediaSchema.CreateBodyIsValidUpdate | src/schemas/mediaSchema.ts:16 | every body the create schema accepts is also accepted by the update schema; every field but imageUrl is supplied with the record's value, and imageUrl is supplied with the record's value when the body has the key and left unsupplied when it does not |
| MediaSchema.ParamRule | src/schemas/mediaSchema.ts:19-28 | an accepted page or limit is at least 1; a rejected one has its issue on its own path; a page or limit that is present but not a string (an array, say) is invalid_type with "Invalid input: expected string, received <kind>" |
| MediaSchema.ConvertParam | src/schemas/mediaSchema.ts:22-28 | a string passes if and only if Number gives a value of at least 1, and then yields that value; the issue is invalid_type with "Invalid input: expected number, received NaN" exactly when Number gives NaN, and otherwise too_small with "Page must be at least 1" or "Limit must be at least 1", on the parameter's path |
| MediaSchema.ValidatePagination | src/schemas/mediaSchema.ts:18-29 | an accepted query has page >= 1 and limit >= 1; a rejected one has one or two issues |
| MediaSchema.DefaultsAreNumbers | src/schemas/mediaSchema.ts:21-22 | the defaults "1" and "10" convert to 1 and 10 |
| MediaSchema.PaginationDefaults | src/schemas/mediaSchema.ts:19-26 | an empty query validates to page 1 and limit 10 |
| MediaSchema.ParamRuleReadsNumber | src/schemas/mediaSchema.ts:19-28 | one parameter passes if and only if the number it stands for (its default when absent) is at least 1, and yields that number |
| MediaSchema.PaginationAcceptsExactly | src/schemas/mediaSchema.ts:18-29 | a query is accepted if and only if both parameters stand for numbers of at least 1, and then yields exactly those numbers |
| MediaSchema.PaginationReportsEachFailingParam | src/schemas/mediaSchema.ts:18-29 | a rejected query gets exactly one issue per parameter that does not stand for a number of at least 1, page's first and limit's last, each on its own path; a passing parameter contributes none |
| MediaSchema.NonNumericParamRejected | src/schemas/mediaSchema.ts:22-23 | a page or limit string that Number turns into NaN makes the query fail with an invalid_type issue on that parameter |
| JsConversions.ParseIntReadsPrefix | src/controllers/mediaController.ts:63 | parseInt yields the signed value of the digits of any decimal prefix (white space, an optional sign, the longest run of digits), whatever follows it |
| JsConversions.ParseIntFindsPrefix | src/controllers/mediaController.ts:63-64 | whenever parseInt yields a number the string has a decimal prefix and the number is its signed value; with ParseIntReadsPrefix, parseInt is NaN exactly for strings without one |
| JsConversions.ParseIntOfParts | src/controllers/mediaController.ts:63 | parseInt of white space, a sign, digits and a tail that does not start with a digit is the signed value of the digits |
| JsConversions.ParseIntReadsDecimal | src/controllers/mediaController.ts:63 | parseInt reads leading white space, a sign and the decimal digits of any natural number, and ignores whatever non-digit text follows |
| JsConversions.ParseIntNeedsDigit | src/controllers/mediaController.ts:63-64 | parseInt yields a number only when the string contains a decimal digit; otherwise NaN |
| JsConversions.ToNumberReadsNumeral | src/schemas/mediaSchema.ts:22 | Number yields the signed value of the digits of an integer numeral (white space, an optional sign, digits, white space) |
| JsConversions.ToNumberFindsNumeral | src/schemas/mediaSchema.ts:22-23 | whenever the model's Number yields a value, the string is blank and the value 0, or it is an integer numeral and the value is its signed digits |
| JsConversions.ToNumberOfParts | src/schemas/mediaSchema.ts:22 | Number of white space, a sign, digits and white space is the signed value of the digits |
| JsConversions.ToNumberReadsDecimal | src/schemas/mediaSchema.ts:22 | Number reads back the decimal spelling of every natural number |
| JsConversions.ToNumberRejectsForeignCharacter | src/schemas/mediaSchema.ts:22-23 | Number gives NaN for any string holding a character that is neither white space nor one that can occur in a numeric literal |
| MediaService.NewRecord | src/services/mediaService.ts:9-11 | the inserted row carries exactly the validated fields, with the given id and createdAt; a valid input gives a valid row |
| MediaService.ApplyPatch | src/services/mediaService.ts:26-31 | a supplied field takes the new value; every other field, the id and createdAt are unchanged |
| MediaService.PatchLaws | src/services/mediaService.ts:26-31 | the empty update is the identity, and applying an update twice equals applying it once |
| MediaService.PatchKeepsRowValid | src/services/mediaService.ts:26-31 | a validated update never empties a required field of a row |
| MediaService.Skip | src/services/mediaService.ts:14 | for page, limit >= 1 the offset is not negative |
| MediaService.SkipIsWholePages | src/services/mediaService.ts:14 | for page, limit >= 1 the offset is a non-negative multiple of limit |
| MediaService.Window | src/services/mediaService.ts:16-18 | skip/take yields at most take elements; they are the elements at positions skip, skip+1, ... of the ordering, and the result is cut short only at the end of the ordering |
| MediaService.PagesAdjacent | src/services/mediaService.ts:14-18 | pages p and p+1 together are the contiguous window of 2*limit elements starting at page p's offset |
| MediaService.PagesDisjoint | src/services/mediaService.ts:14-18 | two different pages of an ordering without repeats share no element |
| MediaService.FirstPagesArePrefix | src/services/mediaService.ts:14-18 | pages 1..n laid end to end are exactly the first n*limit rows of the ordering, or all of them |
| MediaService.NewestFirst | src/services/mediaService.ts:19 | the listing is the creation order reversed, one entry per id |
| MediaService.ListingSorted | src/services/mediaService.ts:16-20 | the listing is sorted by createdAt strictly descending |
| MediaService.ListingDistinct | src/services/mediaService.ts:16-20 | the listing repeats no row |
| MediaService.ListedPagesDisjoint | src/services/mediaService.ts:14-20 | two different pages of the table's listing share no row |
| MediaService.ListingRowsFromTable | src/services/mediaService.ts:16-20 | every listed entry is the table's row under its id |
| MediaService.ListingCoversTable | src/services/mediaService.ts:16-20 | every row of the table is listed |
| MediaService.TableSize | src/services/mediaService.ts:21 | the count equals the length of the creation order, so it equals the length of the full listing |
| MediaService.NewestFirstAppend | src/services/mediaService.ts:9-11 | a newly inserted row heads the listing, and the rest of the listing is unchanged |
| MediaService.NewestFirstUpdate | src/services/mediaService.ts:26-31 | rewriting one row changes only that row's entry in the listing and keeps every position |
| MediaService.NewestFirstRemove | src/services/mediaService.ts:33-35 | deleting a row removes exactly its entry from the listing and keeps the others in order |
| MediaService.RemoveKeepsTableOrder | src/services/mediaService.ts:33-35 | after a delete the remaining ids are still each listed once, in createdAt order |
| MediaService.NewestFirstDrop | src/services/mediaService.ts:33-35 | dropping one id from the creation order drops exactly the matching entry, counted from the other end, from the listing |
| MediaService.ListingAfterDelete | src/services/mediaService.ts:33-35 | after a delete the order is still a table order, and the new listing is the old one without the entry of the deleted id |
| MediaService.InsertIntoTable | src/services/mediaService.ts:9-11 | inserting a row under the next id at the current clock uses an id never issued, keeps the table invariant and puts the new row at the head of the listing |
| MediaService.UpdateInTable | src/services/mediaService.ts:26-31 | rewriting a row under its id and creation time keeps the table invariant and replaces only that row's entry of the listing |
| MediaService.DeleteFromTable | src/services/mediaService.ts:33-35 | deleting a row keeps the table invariant, and the listing loses exactly that row's entry |
| MediaService.MediaStore.Listing | src/services/mediaService.ts:16-20 | the listing has one entry per row of the table |
| MediaService.MediaStore.CreateMedia | src/services/mediaService.ts:9-11 | inserts exactly one row holding the data, under an id never issued before and newer than every row; existing rows are unchanged and the new row heads the listing; on a fault nothing changes |
| MediaService.MediaStore.GetAllMedia | src/services/mediaService.ts:13-24 | returns the page-th slice of limit rows of the newest-first listing, and a total equal to the row count, both from the same unchanged state |
| MediaService.MediaStore.UpdateMedia | src/services/mediaService.ts:26-31 | rewrites only the supplied fields of row id; other rows, the order and the ids are unchanged; None when there is no such row |
| MediaService.MediaStore.DeleteMedia | src/services/mediaService.ts:33-35 | removes exactly row id and returns it, and removes its entry from the listing; every other row is unchanged; None when there is no such row |
| MediaController.JoinPath | src/controllers/mediaController.ts:22 | a one-segment path is that segment; an empty path is "" |
| MediaController.FormatIssues | src/controllers/mediaController.ts:21-25 | one {path, message, code} entry per issue, in the same order |
| MediaController.CreateErrorsNameOffendingFields | src/controllers/mediaController.ts:17-27 | the errors of a rejected create name every offending field by its key, once each, in schema order |
| MediaController.UpdateErrorsNameOffendingFields | src/controllers/mediaController.ts:75-87 | the errors of a rejected update name every supplied field that fails, once each, in schema order |
| MediaController.CheckId | src/controllers/mediaController.ts:63-66 | the id is rejected if and only if parseInt gives NaN, and is then answered with 400 "Invalid media ID"; otherwise it is parseInt's value |
| MediaController.IdAcceptedExactlyWithDecimalPrefix | src/controllers/mediaController.ts:63-66 | an id parameter is accepted if and only if it has a decimal prefix, and the id is that prefix's signed value |
| MediaController.CheckIdReadsDecimal | src/controllers/mediaController.ts:95-98 | the decimal spelling of any id is accepted as that id |
| MediaController.TrailingTextIgnored | src/controllers/mediaController.ts:63 | "12abc" is accepted as the id 12 |
| MediaController.DigitlessIdsRejected | src/controllers/mediaController.ts:95-98 | "abc" and "" are rejected as invalid ids |
| MediaController.CreateReply | src/controllers/mediaController.ts:15-29 | a stored row is answered 201 with that row; a store fault, and only a fault, is forwarded unchanged |
| MediaController.ListReply | src/controllers/mediaController.ts:37-57 | a listing is answered 200 with the page as data, the store's total, the query's page and limit, and totalPages the fewest pages of limit rows holding total rows; a store fault, and only a fault, is forwarded unchanged |
| MediaController.UpdateReply | src/controllers/mediaController.ts:69-89 | 404 "Media not found" exactly when the store found no row; 200 with the rewritten row when it did; a store fault, and only a fault, is forwarded unchanged |
| MediaController.DeleteReply | src/controllers/mediaController.ts:99-105 | 404 "Media not found" exactly when the store found no row; 204 with no body exactly when it removed one; a store fault, and only a fault, is forwarded unchanged |
| MediaController.CeilDiv | src/controllers/mediaController.ts:44 | totalPages is the least number of pages of limit rows that hold total rows |
| MediaController.TotalPagesCountsNonEmptyPages | src/controllers/mediaController.ts:36-45 | page p of the listing has rows if and only if p <= totalPages |
| MediaController.CreateMedia | src/controllers/mediaController.ts:11-31 | an invalid body gets 400 with its formatted issues and the store is untouched; a valid body calls the store once, answering 201 with the new row; a store fault is forwarded |
| MediaController.GetAllMedia | src/controllers/mediaController.ts:33-59 | an invalid query gets 400 without calling the store; a valid one gets 200 with the requested page, total = row count, the validated page and limit echoed, and totalPages = ceil(total/limit); a store fault is forwarded |
| MediaController.UpdateMedia | src/controllers/mediaController.ts:61-91 | an id parseInt cannot read gets 400 before the body is looked at, and an invalid body gets 400 with its issues; neither reaches the store; otherwise 404 when the row is missing, else 200 with the row rewritten in only its supplied fields; a store fault is forwarded |
| MediaController.DeleteMedia | src/controllers/mediaController.ts:93-107 | an id parseInt cannot read gets 400 without reaching the store; otherwise 404 when the row is missing, else 204 with no body and exactly that row removed; every store fault is forwarded |
| MediaController.CreateDeleteThenUpdate | src/controllers/mediaController.ts:69-73 | creating a row, deleting it through its URL id, then updating it through the same URL yields 201, 204, 404 |

## Left out

- src/app.ts: process start-up, CORS, JSON body parsing and port reading. This is I/O plumbing.
- src/routes/mediaRoutes.ts: fixed verb and path wiring to the handlers, with no decisions in it.
- src/middlewares/errorHandler.ts: the error middleware writes the generic error response. The model stops at the handover (`Forwarded`).
- Logging: the `console.error` calls in the handlers write to the console only.
- Prisma internals: SQL, transactions, and the database's real id and `createdAt`. Ids come from a counter and `createdAt` from a strictly increasing clock, so two rows never share a `createdAt`.
- Whether the ORM returns null or raises an error on a missing row is not visible in the code. The store returns `None`, and the handlers take the falsy branch as written.
- Concurrency between requests and the async/await scheduling: each handler is one sequential step.
- The URL syntax zod checks is the parameter `isUrl`.
- Express: request bodies are JSON objects. An array-valued query parameter is modelled by its kind only: a page or limit that is an array is rejected with invalid_type "expected string, received array", as zod does; its elements are not modelled. Non-object bodies are not modelled.
- JSON numbers, booleans, arrays and objects keep only their kind. That is all the schemas look at, since every field except `type` and `imageUrl` must be a string.
- JsConversions.ToNumber: covers only strings made of white space, signs and decimal digits. Fractions, exponents, hexadecimal and "Infinity" are NaN in the model but numbers in JavaScript, so a page such as "2.5" or "1e1" is rejected by the model and accepted by the source. Its integers are exact, where JavaScript's are float64: "9007199254740993" becomes 9007199254740992 in the source, and a numeral whose value is about 1.8e308 or more (2^1024 − 2^970 and up) becomes Infinity, which zod rejects with 400 while the model accepts it.
- JsConversions.ParseInt: its integers are exact, where parseInt's result is a float64 that rounds above 2^53.
- JsConversions.ToNumberFindsNumeral: is a statement about the model's Number, which is NaN for the numeric literals it leaves out; ToNumberRejectsForeignCharacter holds of JavaScript's Number as well.
- MediaSchema.ValidatePagination: is weaker than the source for the same reason: its values are integers, and non-integer pages are not modelled.
- MediaController.CeilDiv: computes `Math.ceil(total / limit)` exactly. The floating-point division only differs for totals beyond 2^53.
- MediaService.MediaStore.GetAllMedia: requires page and limit of at least 1. Its only caller passes validated values; other values are not modelled.
- Numbers are unbounded. An id beyond the database's integer column, or beyond exact JavaScript integers, is a database fault in the source; in the model it is the `failure` parameter.
