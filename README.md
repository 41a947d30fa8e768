# url-shortener core, modelled in Dafny

The project models the core of a URL shortener. A client posts a long URL and
gets a short code back. Presenting the code later returns the original URL.

- **Identifier codec** (`Shortener.Encode` / `Shortener.Decode`). A row id plus
  `EncShift` = 2^20 is written as a base-62 numeral (`FormatInt`). That numeral's
  bytes are then encoded as a base-62 string (`EncodeToString`). Decoding undoes
  both layers. It rejects any value `<= EncShift` with `EncShiftErr`.
- **Base-62 library** (module `Base62`). The integer <-> numeral layer is modelled
  concretely over a 62-symbol digit alphabet whose order is left abstract. The
  bytes <-> string layer is a pair of functions carried by a `Library` value.
  Its round trip is the explicit assumption `Base62.Lawful`. `Lawful` also says
  that the digit alphabet is alphanumeric, that `DecodeString` accepts only the
  62 base-62 characters, and that the
  encoding of at least four bytes is at least six characters long. Every result that
  depends on it takes `Lawful` as a precondition. `Base62.LawfulIsSatisfiable`
  shows that a library meeting the assumption exists.
- **The `urls` table** (`Shortener.Table`). It holds the rows by id, the unique
  index on `url`, and the id sequence. `Shortener.Upsert` is the
  `INSERT ... ON CONFLICT(url) DO UPDATE SET date_created = NOW() RETURNING id`
  statement, over a sequential store.
- **Engine** (`Shortener.Engine`). This class holds the table. `Shorten` is a
  method that updates it. `Expand` is a read-only function over it.
- **Handlers** (module `Handlers`). This is the validation and status
  classification of `handleShorten` and `handleExpand`. A response is modelled
  as its status and the one JSON field that is set.

Two things are parameters: whether the store answers a query (`available`) and
the store's clock (`now`).

Two consequences of the code shape the model:

- The round trip holds for ids `>= 1` only. `Decode`'s `<=` test
  (pkg/business/shortener/shortener.go:80) rejects the code of id 0
  (`Shortener.EncodeNonPositiveRejected`). Ids from the table's sequence start at 1.
- `Expand` turns every decoding failure into `DecodeErr`
  (pkg/business/shortener/shortener.go:51-54). So the handler tells a bad code
  apart from a missing row by error kind alone.

## Model

| member | source | states |
|---|---|---|
| `Base62.FormatNat` | pkg/business/shortener/shortener.go:66 | the numeral of a value is non-empty and written only in digit symbols |
| `Base62.ParseInt` | pkg/business/shortener/shortener.go:75-78 | parsing succeeds exactly on a non-empty all-digit numeral whose value fits in an int64, and then returns that value (the two failure conditions are assumed library behaviour) |
| `Base62.NoLeadingZero` | pkg/business/shortener/shortener.go:66 | a numeral of more than one digit never starts with the zero digit |
| `Base62.NumeralRoundTrip` | pkg/business/shortener/shortener.go:66-75 | the value of the numeral of n is n, for every n, given an alphabet of 62 distinct symbols |
| `Base62.ParseFormat` | pkg/business/shortener/shortener.go:66-78 | `ParseInt(FormatInt(n)) == n` for every non-negative int64 |
| `Base62.FormatNatLength` | pkg/business/shortener/shortener.go:66 | a value of at least 62^k has more than k digits |
| `Base62.LawfulIsSatisfiable` | pkg/business/shortener/shortener.go:66-73 | the five assumed library laws can be met, so results that require them are not vacuous |
| `Shortener.Encode` | pkg/business/shortener/shortener.go:65-67 | the code of an id is the string encoding of the base-62 numeral of id + EncShift: the string layer decodes it back to exactly that numeral; its laws are `DecodeEncode`, `EncodeInjective` and `EncodeLength` |
| `Shortener.Decode` | pkg/business/shortener/shortener.go:69-85 | a successful decode gives the parsed value minus `EncShift`, an id in 1..2^63-1-2^20; it fails with the string-layer error exactly when that layer fails, with the numeral error exactly when parsing fails, and with `EncShiftErr` exactly when the parsed value is at most `EncShift` |
| `Shortener.DecodeEncode` | pkg/business/shortener/shortener.go:65-85 | round trip: `Decode(Encode(id)) == id` for every id with 1 <= id and id + 2^20 <= 2^63-1 |
| `Shortener.EncodeNonPositiveRejected` | pkg/business/shortener/shortener.go:65-82 | the code of id 0, or of any id that shifts to at most `EncShift`, fails to decode with `EncShiftErr` |
| `Shortener.EncodeInjective` | pkg/business/shortener/shortener.go:65-67 | distinct issuable ids get distinct codes |
| `Shortener.DecodeRejectsForeignChar` | pkg/business/shortener/shortener.go:70-73 | a code that contains a character outside base 62 (a UUID's '-') fails in the string layer |
| `Shortener.ShiftedNumeralLength` | pkg/business/shortener/shortener.go:15-16 | thanks to the shift, every id's numeral has at least four digits |
| `Shortener.EncodeLength` | pkg/business/shortener/shortener.go:65-67 | every issuable id's code is at least six characters long |
| `Shortener.Upsert` | pkg/business/shortener/shortener.go:35-36 | a known url keeps its id and only `date_created` changes; a new url gets the next sequence id as one new row; every old id/url association is kept and the table stays consistent |
| `Shortener.AtMostOneRowPerUrl` | pkg/business/shortener/shortener.go:35-36 | a consistent table has exactly the indexed row for a url, so at most one |
| `Shortener.UpsertLeavesOneRow` | pkg/business/shortener/shortener.go:35-39 | after an upsert exactly one row holds the url: the one whose id is returned |
| `Shortener.UpsertIdempotent` | pkg/business/shortener/shortener.go:35-36 | upserting a url again returns the same id and changes only that row's timestamp |
| `Shortener.Select` | pkg/business/shortener/shortener.go:49-57 | the lookup finds a url exactly when a row has the id, and returns that row's url |
| `Shortener.Engine.constructor` | pkg/business/shortener/shortener.go:28-31 | a new engine works over the given `urls` table, which may already hold rows |
| `Shortener.Engine.Shorten` | pkg/business/shortener/shortener.go:34-45 | on success the table is the upserted table and the result is `Encode` of the returned id; on a store failure or an exhausted sequence the error is wrapped and the table is unchanged |
| `Shortener.Engine.Expand` | pkg/business/shortener/shortener.go:48-63 | any decoding failure is `DecodeErr` whatever the store holds or whether it answers; a decodable code gives the row's url, a wrapped no-rows error when the row is absent, or a wrapped failure when the store fails |
| `Shortener.ShortenTwice` | pkg/business/shortener/shortener.go:34-45 | shortening a url twice returns the same code, leaves one row for it, and the second call changes only that row's timestamp |
| `Shortener.ExpandEncoded` | pkg/business/shortener/shortener.go:48-67 | expanding the code of an id gives that row's url, or no-rows when it is absent |
| `Shortener.ExpandStoredUrl` | pkg/business/shortener/shortener.go:34-63 | the code of a stored url's id expands back to that url |
| `Handlers.StatusText` | cmd/url-shortener/handlers/handlers.go:63-65 | gives Go's non-empty text for each of the four statuses the handlers use: "OK", "Bad Request", "Not Found", "Internal Server Error" |
| `Handlers.Utf8Len` | cmd/url-shortener/handlers/handlers.go:53 | Go's `len` of a string is its UTF-8 byte count: at least its character count, and equal to it exactly when every character is ASCII |
| `Handlers.ShortenOutcomeResponse` | cmd/url-shortener/handlers/handlers.go:61-70 | a shorten answers 200 exactly when `Shorten` succeeded, carrying the code; any failure answers 500 with the generic status text |
| `Handlers.HandleShorten` | cmd/url-shortener/handlers/handlers.go:45-72 | a url of fewer than 9 UTF-8 bytes gets 400 with a non-empty error and the table is untouched; otherwise the answer and the new table follow `Shorten` |
| `Handlers.ExpandStatus` | cmd/url-shortener/handlers/handlers.go:97-106 | 400 exactly for `DecodeErr`, 404 exactly for a wrapped no-rows error, 500 for every other error |
| `Handlers.ExpandOutcomeResponse` | cmd/url-shortener/handlers/handlers.go:90-110 | success answers 200 with the url; an error answers its classified status with that status's non-empty text as the only error body |
| `Handlers.HandleExpand` | cmd/url-shortener/handlers/handlers.go:75-113 | a missing code or one of fewer than 6 UTF-8 bytes gets 400 without consulting `Expand`; otherwise the answer is the classification of `Expand`'s outcome |
| `Handlers.EncodedCodeIsValid` | cmd/url-shortener/handlers/handlers.go:84 | the code of every issuable id passes the expand length validation |
| `Handlers.ExpandServesStoredRow` | cmd/url-shortener/handlers/handlers.go:90-95 | a stored row's code answers 200 with the row's url |
| `Handlers.ExpandAbsentRowNotFound` | cmd/url-shortener/handlers/handlers.go:103-110 | the code of an in-range id with no row answers 404 |
| `Handlers.ExpandUndecodableBadRequest` | cmd/url-shortener/handlers/handlers.go:99-101 | a valid-length code that does not decode answers 400, whatever the store's state |
| `Handlers.ExpandForeignCharBadRequest` | cmd/url-shortener/handlers/handlers_test.go:215-230 | a valid-length code with a non-base-62 character, such as a UUID, answers 400 |
| `Handlers.ExpandStoreFailureServerError` | cmd/url-shortener/handlers/handlers.go:97-110 | a decodable code answers 500 when the store fails |
| `Handlers.ShortenThenExpand` | cmd/url-shortener/handlers/handlers.go:45-113 | a url that shortens with 200 is stored, and its code expands back to it with 200 |

## Left out

- Route dispatch by gorilla/mux is a foreign library and is not modelled. `/{code}` is registered before `/readiness` and `/liveness`, so what a GET on those paths does depends on mux's first-match rule.
- `handleReadiness` and `handleLiveness` are left out: they are a database ping, a hostname lookup and environment variables, which are I/O only.
- `respond` is left out: it does JSON marshalling and writes to the connection. Only the status and which body field is set are modelled.
- cmd/url-shortener/url-shortener.go is not part of this model. It handles configuration, the database connection, signals and shutdown.
- Logging calls are left out.
- The internals and alphabet order of the base-62 library are not modelled. The digit alphabet is abstract, and the byte <-> string layer is assumed (`Base62.Lawful`).
- Base62.ParseInt: the library's handling of a leading '-' sign is not modelled. The model rejects it as a non-digit, since `Base62.Lawful` takes the digit alphabet to be alphanumeric. A negative value would be rejected by `Decode`'s `<=` test anyway, and `Expand` reports both as `DecodeErr`.
- Shortener.Encode: requires `0 <= id + EncShift <= 2^63-1`. Go's int64 addition would wrap for larger ids. The library's format for negative values is not modelled.
- Shortener.Upsert: the id sequence stops at 2^63-1-2^20 and then fails like any other store error. The column type of the real table is not part of this model.
- Shortener.Upsert: Postgres also consumes a sequence value when the insert conflicts. The model advances the sequence only on insert. This affects only gaps between ids.
- SQL concurrency is not modelled: the store is sequential, so the atomicity of the upsert under concurrent requests is not captured. `NOW()` is the `now` parameter, and context cancellation is a failure with `available` false.
- The error text of wrapped errors is not modelled, only the error kind.
- Base62.ParseInt: two failure conditions are assumed, because the library is treated as opaque. An empty numeral fails, and a value above 2^63-1 fails. A parser that accumulated in uint64 would return 0 for an empty numeral, which `Decode` would still reject with `EncShiftErr`. It would also wrap on overflow, so an over-long code could decode to an issued id.
- Base62.Lawful: the length law is assumed: the string encoding of at least four bytes is at least six characters. `Shortener.EncodeLength` and the expand lemmas that serve issued codes rely on it.
- Handlers.Utf8Len: a Go string is a sequence of bytes, and a form value or path variable may hold invalid UTF-8 (a form value `%FF%FF`, say). The model's strings are sequences of Unicode scalar values, so such inputs are outside the model.
