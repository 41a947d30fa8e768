/**
 * The request validation and error classification of the HTTP front end:
 * what `POST /shorten` and `GET /{code}` answer, as a status and the one
 * field set in the JSON body.
 */
module Handlers {
  import opened Wrappers
  import opened Base62
  import opened Shortener

  const URLMinLen: int := 9
  const CodeMinLen: int := 6

  const StatusOK: int := 200
  const StatusBadRequest: int := 400
  const StatusNotFound: int := 404
  const StatusInternalServerError: int := 500

  const ShortenInputErr: string := "input URL is incorrect"
  const ExpandInputErr: string := "input URL code is incorrect"

  /** `http.StatusText` for the statuses these handlers answer with. */
  function StatusText(status: int): (text: string)
    requires status in {StatusOK, StatusBadRequest, StatusNotFound, StatusInternalServerError}
    ensures text != []
    ensures status == StatusOK ==> text == "OK"
    ensures status == StatusBadRequest ==> text == "Bad Request"
    ensures status == StatusNotFound ==> text == "Not Found"
    ensures status == StatusInternalServerError ==> text == "Internal Server Error"
  {
    if status == StatusOK then "OK"
    else if status == StatusBadRequest then "Bad Request"
    else if status == StatusNotFound then "Not Found"
    else "Internal Server Error"
  }

  /** The number of bytes a character takes in UTF-8. */
  function Utf8Width(c: char): (w: nat)
    ensures 1 <= w <= 4
    ensures w == 1 <==> (c as int) < 0x80
  {
    if (c as int) < 0x80 then 1
    else if (c as int) < 0x800 then 2
    else if (c as int) < 0x1_0000 then 3
    else 4
  }

  /** Go's `len` of a string: the length of its UTF-8 encoding. */
  function Utf8Len(s: string): (n: nat)
    ensures n >= |s|
    ensures n == |s| <==> forall i :: 0 <= i < |s| ==> (s[i] as int) < 0x80
  {
    if s == [] then 0 else Utf8Width(s[0]) + Utf8Len(s[1..])
  }

  /** The one field set in the JSON body of a response. */
  datatype Body = ErrorField(error: string) | CodeField(code: string) | URLField(url: string)

  datatype Response = Response(status: int, body: Body)

  // ---------------------------------------------------------------- POST /shorten

  /** The answer to a valid-length url, from what `Shorten` returned. */
  function ShortenOutcomeResponse(outcome: Result<string, Error>): (resp: Response)
    ensures resp.status == StatusOK <==> outcome.Ok?
    ensures outcome.Ok? ==> resp.body == CodeField(outcome.value)
    ensures outcome.Err? ==>
      resp.status == StatusInternalServerError && resp.body == ErrorField(StatusText(resp.status))
  {
    match outcome
    case Ok(code) => Response(StatusOK, CodeField(code))
    case Err(_) => Response(StatusInternalServerError, ErrorField(StatusText(StatusInternalServerError)))
  }

  /**
   * `handleShorten`: a url of fewer than `URLMinLen` bytes is refused before
   * the engine is called, so the table is left as it was.
   */
  method HandleShorten(e: Engine, url: string, now: Time, available: bool) returns (resp: Response)
    requires e.Valid()
    modifies e
    ensures e.Valid()
    ensures Utf8Len(url) < URLMinLen ==>
      resp == Response(StatusBadRequest, ErrorField(ShortenInputErr)) && e.table == old(e.table)
    ensures Utf8Len(url) >= URLMinLen && !available ==>
      resp == Response(StatusInternalServerError, ErrorField(StatusText(StatusInternalServerError)))
      && e.table == old(e.table)
    ensures Utf8Len(url) >= URLMinLen && available ==>
      match Upsert(old(e.table), url, now)
      case Upserted(t, id) => e.table == t && resp == Response(StatusOK, CodeField(Encode(e.lib, id)))
      case SequenceExhausted =>
        e.table == old(e.table)
        && resp == Response(StatusInternalServerError, ErrorField(StatusText(StatusInternalServerError)))
  {
    if Utf8Len(url) < URLMinLen {
      return Response(StatusBadRequest, ErrorField(ShortenInputErr));
    }
    var outcome := e.Shorten(url, now, available);
    resp := ShortenOutcomeResponse(outcome);
  }

  // ---------------------------------------------------------------- GET /{code}

  /**
   * The status for an `Expand` error: `DecodeErr` is tested first, then an
   * error wrapping no-rows; anything else is a server error.
   */
  function ExpandStatus(err: Error): (status: int)
    ensures status == StatusBadRequest <==> err == DecodeErr
    ensures status == StatusNotFound <==> err == Query(NoRows)
    ensures status == StatusInternalServerError <==> err != DecodeErr && err != Query(NoRows)
  {
    if err == DecodeErr then StatusBadRequest
    else if err.Query? && err.fault == NoRows then StatusNotFound
    else StatusInternalServerError
  }

  /** The answer to a valid-length code, from what `Expand` returned. */
  function ExpandOutcomeResponse(outcome: Result<string, Error>): (resp: Response)
    ensures outcome.Ok? ==> resp == Response(StatusOK, URLField(outcome.value))
    ensures outcome.Err? ==>
      && resp.status in {StatusBadRequest, StatusNotFound, StatusInternalServerError}
      && resp.status == ExpandStatus(outcome.error)
      && resp.body == ErrorField(StatusText(resp.status))
      && resp.body.error != []
  {
    match outcome
    case Ok(url) => Response(StatusOK, URLField(url))
    case Err(err) =>
      var status := ExpandStatus(err);
      Response(status, ErrorField(StatusText(status)))
  }

  /** The code path variable is present and at least `CodeMinLen` bytes long. */
  predicate ValidCode(code: Option<string>) {
    code.Some? && Utf8Len(code.value) >= CodeMinLen
  }

  /**
   * `handleExpand`: a missing code, or one under `CodeMinLen` bytes, is refused without calling
   * `Expand`; otherwise the outcome of `Expand` is classified.
   */
  function HandleExpand(e: Engine, code: Option<string>, available: bool): (resp: Response)
    reads e
    ensures !ValidCode(code) ==> resp == Response(StatusBadRequest, ErrorField(ExpandInputErr))
    ensures ValidCode(code) ==> resp == ExpandOutcomeResponse(e.Expand(code.value, available))
  {
    if code.None? || Utf8Len(code.value) < CodeMinLen then
      Response(StatusBadRequest, ErrorField(ExpandInputErr))
    else
      ExpandOutcomeResponse(e.Expand(code.value, available))
  }

  /** Every issued code passes the expand validation. */
  lemma EncodedCodeIsValid(e: Engine, id: int)
    requires e.Valid() && 0 <= id <= MaxId
    ensures ValidCode(Some(Encode(e.lib, id)))
  {
    EncodeLength(e.lib, id);
  }

  /** A stored row's code answers 200 with its url. */
  lemma ExpandServesStoredRow(e: Engine, id: int)
    requires e.Valid() && id in e.table.rows
    ensures HandleExpand(e, Some(Encode(e.lib, id)), true) == Response(StatusOK, URLField(e.table.rows[id].url))
  {
    ExpandEncoded(e, id);
    EncodedCodeIsValid(e, id);
  }

  /** An in-range id with no row answers 404. */
  lemma ExpandAbsentRowNotFound(e: Engine, id: int)
    requires e.Valid() && 1 <= id <= MaxId && id !in e.table.rows
    ensures HandleExpand(e, Some(Encode(e.lib, id)), true) == Response(StatusNotFound, ErrorField("Not Found"))
  {
    ExpandEncoded(e, id);
    EncodedCodeIsValid(e, id);
  }

  /** A code that does not decode answers 400 whatever the state of the store. */
  lemma ExpandUndecodableBadRequest(e: Engine, code: string, available: bool)
    requires Utf8Len(code) >= CodeMinLen && Decode(e.lib, code).Err?
    ensures HandleExpand(e, Some(code), available) == Response(StatusBadRequest, ErrorField("Bad Request"))
  {
  }

  /** A code with a character outside base 62, such as a UUID, answers 400. */
  lemma ExpandForeignCharBadRequest(e: Engine, code: string, i: nat, available: bool)
    requires e.Valid() && Utf8Len(code) >= CodeMinLen && i < |code| && !IsBase62Char(code[i])
    ensures HandleExpand(e, Some(code), available) == Response(StatusBadRequest, ErrorField("Bad Request"))
  {
    DecodeRejectsForeignChar(e.lib, code, i);
  }

  /** A decodable code answers 500 when the store fails. */
  lemma ExpandStoreFailureServerError(e: Engine, code: string)
    requires Utf8Len(code) >= CodeMinLen && Decode(e.lib, code).Ok?
    ensures HandleExpand(e, Some(code), false) == Response(StatusInternalServerError, ErrorField("Internal Server Error"))
  {
  }

  /** Shortening a url and then expanding the code it was given returns the url. */
  method ShortenThenExpand(e: Engine, url: string, now: Time) returns (shortened: Response, expanded: Response)
    requires e.Valid() && Utf8Len(url) >= URLMinLen
    modifies e
    ensures e.Valid()
    ensures shortened.status == StatusOK ==> shortened.body.CodeField? && url in e.table.ids
    ensures shortened.status == StatusOK ==> expanded == Response(StatusOK, URLField(url))
  {
    shortened := HandleShorten(e, url, now, true);
    if shortened.status == StatusOK {
      var code := shortened.body.code;
      expanded := HandleExpand(e, Some(code), true);
      ExpandStoredUrl(e, url);
      EncodedCodeIsValid(e, e.table.ids[url]);
    } else {
      // Nothing to expand: the failed shorten answer is passed on.
      expanded := shortened;
    }
  }
}
