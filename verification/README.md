# TelecomTalesAPI address resource in Dafny

This project models the core of the TelecomTalesAPI address service. It has two parts.

- **Content negotiation** (`api_utils.dfy`, module `ApiUtils`). The service reads two request headers, Content-Type and Accept. From them it decides whether the request body is XML (`is_request_xml`) and whether the response should be XML (`should_return_xml`). An absent header reads as `''`. The value is lower-cased and searched, as a substring, for `application/xml` or `text/xml`.
- **The address resource** (`address_routes.dfy`, module `AddressRoutes`). The database table becomes the class `Database`. It holds a map from generated ids to `Address` records, the next id to hand out, and the service records linked to addresses. Each route handler is a method that takes the table, the request headers and the request data. It returns a `Response`: a status code, a serialisation format and a body. The handlers cover list, create, partial update, delete, query, and the services of one address.

`wrappers.dfy` holds the `Option` datatype. It represents absent headers and absent payload fields.

Modelling decisions:
- **Schema validation.** Validation by the schema library is an input to the handlers. `schemaErrors` is the list of messages that `load` reports on the body; an empty list means the body loaded.
- **Create input.** On create, the loaded body is a complete `Address`. The declared input model marks all five fields as required.
- **Update input.** On update, the body is a `Partial`, a record of optional fields.
- **Response formats.** The format tag records what the handler itself produced: `Xml` a `to_xml` document, `Json` a `jsonify` response, `Plain` a bare Python value. Only the `Response(...)` of the list handler (address_routes.py:42) and the `jsonify` results are finished responses. Every other return value, the `to_xml(...), code, headers` tuples included, is serialised once more by the representation that flask_restx picks from the Accept header, with the signature of `output_json` and `output_xml` (api_utils.py:32-48). That representation step is not modelled.
- **The 404 response.** The handlers return the not-found message and the duplicate conflict as bare values (`Plain`) whatever the headers say. Their wire format is then the framework's choice.
- **Result order.** `Address.query.all()` leaves the row order to the database. The model returns rows in ascending id order.

## Model

| member | source | states |
|---|---|---|
| `ApiUtils.LowerChar` | telecomtalesapi/utils/api_utils.py:16 | the ASCII model of `.lower()` on one character: an ASCII capital becomes its small letter, any other character is kept, and the result is never an ASCII capital |
| `ApiUtils.Lower` | telecomtalesapi/utils/api_utils.py:16 | the ASCII `Lower` keeps the length, lowers each character on its own with `LowerChar`, and leaves no ASCII capital |
| `ApiUtils.LowerByChars` | telecomtalesapi/utils/api_utils.py:16 | a string whose characters lower one by one (ASCII `LowerChar`) to `t` lowers to `t` under the ASCII `Lower` |
| `ApiUtils.LowerIdempotent` | telecomtalesapi/utils/api_utils.py:16 | the ASCII `Lower` applied twice is the same as once |
| `ApiUtils.LowerAppend` | telecomtalesapi/utils/api_utils.py:16 | the ASCII `Lower` distributes over concatenation (Python's `.lower()` need not keep lengths, see Left out) |
| `ApiUtils.Contains` | telecomtalesapi/utils/api_utils.py:17 | the recursive substring test (`mime in content_type`) holds iff the MIME string occurs at some index |
| `ApiUtils.ShiftOccurrence` | telecomtalesapi/utils/api_utils.py:17 | when the text does not start with the MIME string, its occurrences are those of the text without its first character |
| `ApiUtils.ContainsAppendRight` | telecomtalesapi/utils/api_utils.py:17 | an occurrence survives appending text |
| `ApiUtils.ContainsAppendLeft` | telecomtalesapi/utils/api_utils.py:17 | an occurrence survives prepending text |
| `ApiUtils.ContainsKeepsChars` | telecomtalesapi/utils/api_utils.py:17 | every character of an occurring string occurs in the text |
| `ApiUtils.EmptyContainsNothing` | telecomtalesapi/utils/api_utils.py:16-17 | no non-empty MIME string occurs in `''` |
| `ApiUtils.AnyContained` | telecomtalesapi/utils/api_utils.py:17 | `any(mime in v for mime in mimes)` holds iff some listed MIME string occurs in `v` |
| `ApiUtils.MentionsXml` | telecomtalesapi/utils/api_utils.py:12-17 | a header read with `''` when absent and lower-cased mentions XML iff it contains `application/xml` or `text/xml` |
| `ApiUtils.IsRequestXml` | telecomtalesapi/utils/api_utils.py:15-17 | the request is XML iff the lower-cased Content-Type (`''` when absent) contains `application/xml` or `text/xml` |
| `ApiUtils.ShouldReturnXml` | telecomtalesapi/utils/api_utils.py:21-28 | the response should be XML iff the body is XML or the lower-cased Accept header (`''` when absent) contains `application/xml` or `text/xml`; an XML body always gets an XML response |
| `ApiUtils.CaseInsensitive` | telecomtalesapi/utils/api_utils.py:16 | two Content-Types equal after lower-casing get the same verdict; a value and its lower-cased form get the same verdict |
| `ApiUtils.MixedCaseRecognised` | telecomtalesapi/utils/api_utils.py:16-17 | `Application/XML` is recognised as XML |
| `ApiUtils.AbsentContentTypeNotXml` | telecomtalesapi/utils/api_utils.py:16 | an absent Content-Type is judged like `''`, and neither is XML |
| `ApiUtils.SurroundingTextKeepsMatch` | telecomtalesapi/utils/api_utils.py:17 | text before or after a recognised Content-Type (such as media-type parameters) keeps it recognised |
| `ApiUtils.ParameterisedTypeRecognised` | telecomtalesapi/utils/api_utils.py:17 | `text/xml; charset=utf-8` is recognised as XML |
| `ApiUtils.NoLetterXNotXml` | telecomtalesapi/utils/api_utils.py:12-17 | a Content-Type with no `x` or `X` is never XML |
| `ApiUtils.AcceptDecidesForNonXmlBody` | telecomtalesapi/utils/api_utils.py:26-28 | when the body is not XML, the response is XML iff the Accept header names an XML type |
| `ApiUtils.XmlAcceptRecognised` | telecomtalesapi/utils/api_utils.py:26-28 | `Accept: application/xml` gives an XML response whatever the Content-Type |
| `ApiUtils.JsonBodyXmlAccept` | telecomtalesapi/utils/api_utils.py:21-28 | with a JSON Content-Type and `Accept: application/xml`, the body is not XML but the response is |
| `ApiUtils.NoHeadersNoXml` | telecomtalesapi/utils/api_utils.py:21-28 | with both headers absent the response is not XML |
| `AddressRoutes.Piece` | telecomtalesapi/routes/address_routes.py:104 | the pair `data.items()` yields for one key is that key with its supplied value, and there is none when the key is absent |
| `AddressRoutes.Items` | telecomtalesapi/routes/address_routes.py:104 | `data.items()` (and `args.items()` at :139) yields exactly the supplied keys with their values, each key once |
| `AddressRoutes.Get` | telecomtalesapi/routes/address_routes.py:105 | `getattr(address, key)` (also `getattr(Address, key)` at :141) reads one attribute; only `postNo` is a number, the other four are text |
| `AddressRoutes.SetField` | telecomtalesapi/routes/address_routes.py:105 | after `setattr(address, key, value)` that attribute reads back as the value and every other attribute is unchanged |
| `AddressRoutes.Holds` | telecomtalesapi/routes/address_routes.py:141 | the filter `getattr(Address, key) == value` holds iff the attribute `key` equals `value`, which is iff setting that attribute to `value` leaves the address unchanged |
| `AddressRoutes.Truthy` | telecomtalesapi/routes/address_routes.py:140 | `if value` holds iff the value is truthy in Python: an integer `postNo` other than `0`, a text value other than `''` |
| `AddressRoutes.ApplyAll` | telecomtalesapi/routes/address_routes.py:104-105 | the `setattr` loop leaves every attribute no pair names unchanged, and the last pair's attribute reads back as its value |
| `AddressRoutes.ApplyAllAppend` | telecomtalesapi/routes/address_routes.py:104-105 | running the `setattr` loop over two runs of pairs is running it over their concatenation |
| `AddressRoutes.LastWriteWins` | telecomtalesapi/routes/address_routes.py:104-105 | an attribute ends with the value of the last pair that names it |
| `AddressRoutes.Patch` | telecomtalesapi/routes/address_routes.py:103-105 | the partial update: each attribute reads back as the supplied value when one is supplied, and as the old value otherwise |
| `AddressRoutes.ItemsNameSuppliedKeys` | telecomtalesapi/routes/address_routes.py:104 | a supplied key is named by some pair of `data.items()`, an absent key by none |
| `AddressRoutes.PatchByItemsAt` | telecomtalesapi/routes/address_routes.py:103-105 | for each attribute, the `setattr` loop over the supplied pairs gives it the value `Patch` gives it |
| `AddressRoutes.ApplyFields` | telecomtalesapi/routes/address_routes.py:104-105 | the `setattr` loop over the supplied pairs yields the field-by-field partial update `Patch` |
| `AddressRoutes.PatchByItems` | telecomtalesapi/routes/address_routes.py:103-105 | the `setattr` loop over the supplied pairs is exactly the field-by-field partial update `Patch` |
| `AddressRoutes.PatchNothing` | telecomtalesapi/routes/address_routes.py:103-105 | an empty payload leaves the address unchanged |
| `AddressRoutes.PatchIdempotent` | telecomtalesapi/routes/address_routes.py:103-105 | applying the same partial update twice is applying it once |
| `AddressRoutes.PatchCityOnly` | telecomtalesapi/routes/address_routes.py:103-105 | `{city: "Y"}` over `1, Main, X, P, 1` yields `1, Main, Y, P, 1` |
| `AddressRoutes.Matches` | telecomtalesapi/routes/address_routes.py:139-141 | an address matches the arguments iff every attribute with a truthy argument equals that argument |
| `AddressRoutes.MatchesKeyByKey` | telecomtalesapi/routes/address_routes.py:139-141 | the attribute-by-attribute form of the match is the conjunction of the five per-field equalities |
| `AddressRoutes.AllHold` | telecomtalesapi/routes/address_routes.py:139-141 | the chain of `query.filter(...)` calls accepts an address iff every argument in it that is truthy holds of it |
| `AddressRoutes.AllHoldAppend` | telecomtalesapi/routes/address_routes.py:139-141 | a chain of filters over two runs of arguments accepts what both runs accept |
| `AddressRoutes.AllHoldSingle` | telecomtalesapi/routes/address_routes.py:140-141 | one argument filters only when its value is truthy |
| `AddressRoutes.AllHoldPiece` | telecomtalesapi/routes/address_routes.py:139-141 | the filter for one key holds iff its argument, when present and truthy, equals the attribute |
| `AddressRoutes.MatchesByItems` | telecomtalesapi/routes/address_routes.py:139-141 | the filter chain built from the arguments accepts exactly the addresses `Matches` accepts (each truthy argument equals the field) |
| `AddressRoutes.FalsyArgumentsMatchAll` | telecomtalesapi/routes/address_routes.py:140 | absent, `''` and `0` arguments filter nothing out |
| `AddressRoutes.CityQueryIsExact` | telecomtalesapi/routes/address_routes.py:139-141 | `?city=Springfield` keeps exactly the addresses whose city equals `Springfield` |
| `AddressRoutes.Rows` | telecomtalesapi/routes/address_routes.py:37 | the rows with ids in a range are exactly the stored id/address pairs in that range, in ascending id order |
| `AddressRoutes.Keep` | telecomtalesapi/routes/address_routes.py:141 | one `filter` keeps exactly the rows its equality holds of, and keeps their order |
| `AddressRoutes.Select` | telecomtalesapi/routes/address_routes.py:139-143 | the reassigned query keeps exactly the rows every truthy argument holds of, and keeps their order |
| `AddressRoutes.ServicesOf` | telecomtalesapi/routes/address_routes.py:158 | `address.services.all()` holds exactly the services linked to that address, each as many times as it is stored (once per stored row) |
| `AddressRoutes.HasDuplicate` | telecomtalesapi/routes/address_routes.py:62-63 | `Address.query.filter_by(**data).first()` finds a row iff the five field values are among the stored addresses |
| `AddressRoutes.InsertKeepsDistinct` | telecomtalesapi/routes/address_routes.py:62-68 | storing an address that no stored address equals keeps all stored addresses pairwise distinct |
| `AddressRoutes.InsertDuplicateBreaksDistinct` | telecomtalesapi/routes/address_routes.py:53-57 | storing an address equal to a stored one leaves two equal entries |
| `AddressRoutes.Database.AllRows` | telecomtalesapi/routes/address_routes.py:37 | `Address.query.all()` returns every stored row exactly once, in ascending id order |
| `AddressRoutes.Database.Insert` | telecomtalesapi/routes/address_routes.py:55-57 | adding and committing stores the address under a new id that was not in use, and changes nothing else |
| `AddressRoutes.Database.Remove` | telecomtalesapi/routes/address_routes.py:124-125 | deleting and committing drops exactly that id |
| `AddressRoutes.ListAddresses` | telecomtalesapi/routes/address_routes.py:35-44 | status 200 with exactly the stored addresses; XML iff `should_return_xml`, otherwise JSON; the table is unchanged |
| `AddressRoutes.CreateAddress` | telecomtalesapi/routes/address_routes.py:48-76 | invalid body: 400 with the wrapped messages, table unchanged. JSON body equal to a stored address: 400 with the duplicate message, table unchanged. Otherwise 201, and exactly one new id maps to the fields while old entries stay. The XML path skips the duplicate check. Only the JSON path keeps the table free of duplicates |
| `AddressRoutes.UpdateAddress` | telecomtalesapi/routes/address_routes.py:95-116 | missing id: 404 and the table unchanged, whatever the body. Invalid JSON body: 400 and unchanged. Otherwise 200, only the supplied fields of that address are overwritten, and every other address is unchanged |
| `AddressRoutes.DeleteAddress` | telecomtalesapi/routes/address_routes.py:119-126 | missing id: 404 and the table unchanged. Existing id: 204 with an empty body, and only that id is removed |
| `AddressRoutes.QueryAddresses` | telecomtalesapi/routes/address_routes.py:132-148 | status 200 with exactly the stored addresses that `Matches` the arguments, in ascending id order; the table is unchanged |
| `AddressRoutes.ListServices` | telecomtalesapi/routes/address_routes.py:153-163 | missing address: 404. Otherwise 200 with exactly the services linked to that address, each with its stored multiplicity |

## Left out

- The web-framework plumbing is not modelled: the request object, `Response`, `jsonify`, route decorators, the Accept-driven representations, and query-string parsing. Headers and arguments are plain parameters.
- `QueryAddresses` takes its arguments already typed. In the source, `query_parser.parse_args()` is the handler's own first statement (address_routes.py:136). An argument that fails to parse, such as a non-integer `postNo`, makes that call abort the handler with a 400 before any filter is built. This error path is not modelled.
- Input validation by `@address_ns.expect(address_model, validate=True)` is not modelled. `address_model` marks all five fields required (address_routes.py:17-21), and both `post` (:47) and the second `put` (:94) carry the decorator. So a JSON body that leaves out a field, such as a `PUT` of `{"city": "Y"}`, gets the framework's 400 "Input payload validation failed" before the handler runs. Through JSON, the partial-overwrite path of `UpdateAddress` is reached only with full bodies. For missing fields, the same check pre-empts the `ValidationError` path of create (:70-76). Whether an XML body reaches either handler depends on the framework version. The modelled handlers accept every body the handler code accepts, so they cover more requests than the deployed routes let through.
- The authentication guard is not modelled. It is external middleware that runs before every handler.
- Schema validation is an input, `schemaErrors`, not a computation. The schema class is not part of this model.
- XML parsing and serialisation are not modelled: `xmltodict.parse`, `to_xml`, `output_xml` and `output_json`. Responses carry the data and a format tag, not bytes. `to_xml` is imported from `api_utils.py`, but that file does not define it.
- Errors that the handlers do not catch are not modelled. A malformed XML body, or an XML body without an `address` element, raises an exception that passes through to the framework.
- Database sessions, commit and rollback, and storage failures are not modelled. The table is an in-memory map, and every commit succeeds.
- On the XML update path, the parsed values are applied as typed fields. The source applies them as raw strings (a text `postNo`) and would also set keys that are not address fields. Neither is modelled.
- The first `put` of the id route (address_routes.py:82-91) is not modelled. The second `put` replaces it, so it is dead code.
- `Service` records have no contents besides their address link. `to_dict` is not part of this model.
- The delete handler removes only the address row (address_routes.py:124). What then happens to the linked services' foreign key depends on the relationship's cascade setting, and the relationship is not part of this model. The model keeps the link unchanged. No modelled handler can observe it, because ids are never reused.
- `ApiUtils.Lower` folds ASCII capitals only and keeps the length. Python's `str.lower` also folds non-ASCII letters, and a few of them lower into ASCII: U+212A (Kelvin sign) becomes `k`, and U+0130 becomes `i` followed by U+0307, which also lengthens the string. These cannot change the verdict. Neither XML MIME type contains `k`. The one `i` in `application/xml` is followed by `c`, not by U+0307, and `text/xml` has no `i`. Every other non-ASCII letter lowers to non-ASCII characters, which occur in neither MIME type. The full Unicode lowering is not modelled.
- Updates are not checked for duplicates. The source has no such check, so an update can make two stored addresses equal.
