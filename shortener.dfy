/**
 * The shortening engine: the shifted base-62 identifier codec, the `urls`
 * table it persists to, and the `Shorten` / `Expand` operations over it.
 */
module Shortener {
  import opened Wrappers
  import opened Base62

  /** Added to a row id before it is written in base 62. */
  const EncShift: int := 1024 * 1024

  /** The largest id whose shifted value still fits in an `int64`. */
  const MaxId: int := MaxInt64 - EncShift

  /** Why a store query failed. */
  datatype StoreFault =
    | NoRows    // the query matched no row (`sql.ErrNoRows`)
    | Failure   // any other store error: connection, timeout, exhausted id sequence

  /** The closed set of errors the engine produces. */
  datatype Error =
    | DecodeErr               // Expand was given a code that does not decode
    | EncShiftErr             // the decoded value is not above `EncShift`
    | StringErr               // the string -> bytes layer rejected the code
    | NumeralErr              // the bytes -> integer layer rejected the bytes
    | Query(fault: StoreFault) // a store failure, wrapped with the query text

  // ---------------------------------------------------------------- codec

  /** The code of a row id: `id + EncShift` as a numeral, then encoded as a string. */
  function Encode(lib: Library, id: int): (code: string)
    requires |lib.digits| == 62
    requires 0 <= id + EncShift <= MaxInt64
    ensures Lawful(lib) ==> lib.decodeString(code) == Some(FormatNat(lib.digits, id + EncShift))
  {
    lib.encodeBytes(FormatNat(lib.digits, id + EncShift))
  }

  /** The row id a code stands for, or why it stands for none. */
  function Decode(lib: Library, code: string): (r: Result<int, Error>)
    ensures r.Ok? ==> 1 <= r.value <= MaxId
    ensures r.Ok? ==>
      && lib.decodeString(code).Some?
      && ParseInt(lib.digits, lib.decodeString(code).value).Some?
      && r.value == ParseInt(lib.digits, lib.decodeString(code).value).value - EncShift
    ensures r.Err? ==> r.error in {StringErr, NumeralErr, EncShiftErr}
    ensures r == Err(StringErr) <==> lib.decodeString(code).None?
    ensures r == Err(NumeralErr) <==>
      lib.decodeString(code).Some? && ParseInt(lib.digits, lib.decodeString(code).value).None?
    ensures r == Err(EncShiftErr) <==>
      && lib.decodeString(code).Some?
      && ParseInt(lib.digits, lib.decodeString(code).value).Some?
      && ParseInt(lib.digits, lib.decodeString(code).value).value <= EncShift
  {
    match lib.decodeString(code)
    case None => Err(StringErr)
    case Some(bb) =>
      match ParseInt(lib.digits, bb)
      case None => Err(NumeralErr)
      case Some(id) => if id <= EncShift then Err(EncShiftErr) else Ok(id - EncShift)
  }

  /** Every id a store can issue decodes back from its code. */
  lemma DecodeEncode(lib: Library, id: int)
    requires Lawful(lib) && 1 <= id <= MaxId
    ensures Decode(lib, Encode(lib, id)) == Ok(id)
  {
    ParseFormat(lib.digits, id + EncShift);
  }

  /** Id 0 (and any id that shifts to at most `EncShift`) has a code that never decodes. */
  lemma EncodeNonPositiveRejected(lib: Library, id: int)
    requires Lawful(lib) && -EncShift <= id <= 0
    ensures Decode(lib, Encode(lib, id)) == Err(EncShiftErr)
  {
    ParseFormat(lib.digits, id + EncShift);
  }

  /** Distinct issuable ids have distinct codes. */
  lemma EncodeInjective(lib: Library, id1: int, id2: int)
    requires Lawful(lib) && 1 <= id1 <= MaxId && 1 <= id2 <= MaxId
    ensures Encode(lib, id1) == Encode(lib, id2) ==> id1 == id2
  {
    DecodeEncode(lib, id1);
    DecodeEncode(lib, id2);
  }

  /** A code with a character outside the base-62 set (a UUID's '-') fails to decode. */
  lemma DecodeRejectsForeignChar(lib: Library, code: string, i: nat)
    requires Lawful(lib) && i < |code| && !IsBase62Char(code[i])
    ensures Decode(lib, code) == Err(StringErr)
  {
  }

  /** The numeral of a shifted id always has at least four digits. */
  lemma ShiftedNumeralLength(lib: Library, id: int)
    requires |lib.digits| == 62 && 0 <= id <= MaxId
    ensures |FormatNat(lib.digits, id + EncShift)| >= 4
  {
    assert Pow62(3) == 238328;
    FormatNatLength(lib.digits, id + EncShift, 3);
  }

  /** Every issuable id's code is at least six characters long. */
  lemma EncodeLength(lib: Library, id: int)
    requires Lawful(lib) && 0 <= id <= MaxId
    ensures |Encode(lib, id)| >= 6
  {
    ShiftedNumeralLength(lib, id);
  }

  // ---------------------------------------------------------------- the urls table

  type Time = int

  /** A row of the `urls` table, keyed by its id. */
  datatype Row = Row(url: string, dateCreated: Time)

  /**
   * The `urls` table: its rows by id, the unique index on `url`, and the
   * next value of the id sequence.
   */
  datatype Table = Table(ids: map<string, int>, rows: map<int, Row>, next: int) {

    /** The index and the rows agree, and every id was issued by the sequence. */
    ghost predicate Valid() {
      && 1 <= next <= MaxId + 1
      && (forall u :: u in ids ==> ids[u] in rows && rows[ids[u]].url == u)
      && (forall id :: id in rows ==> 1 <= id < next && rows[id].url in ids && ids[rows[id].url] == id)
    }
  }

  /** The ids of the rows holding `url`. */
  ghost function RowsFor(t: Table, url: string): set<int> {
    set id | id in t.rows && t.rows[id].url == url
  }

  /** Every row of `t` is still in `t'` with the same id and url. */
  ghost predicate KeepsAssociations(t: Table, t': Table) {
    (forall id :: id in t.rows ==> id in t'.rows && t'.rows[id].url == t.rows[id].url)
    && (forall u :: u in t.ids ==> u in t'.ids && t'.ids[u] == t.ids[u])
  }

  /** `t'` is `t` with only the `dateCreated` of row `id` set to `now`. */
  ghost predicate OnlyTimestampChanged(t: Table, t': Table, id: int, now: Time) {
    && id in t.rows
    && t'.ids == t.ids && t'.next == t.next
    && t'.rows.Keys == t.rows.Keys
    && t'.rows[id] == Row(t.rows[id].url, now)
    && (forall other :: other in t.rows && other != id ==> t'.rows[other] == t.rows[other])
  }

  /** `t'` is `t` with one new row holding `url`, stamped `now`, under the sequence's next id. */
  ghost predicate OneRowInserted(t: Table, t': Table, id: int, url: string, now: Time) {
    && id == t.next && id !in t.rows && url !in t.ids
    && t'.ids == t.ids[url := id]
    && t'.rows == t.rows[id := Row(url, now)]
    && t'.next == t.next + 1
  }

  /** The outcome of the upsert statement. */
  datatype Upserted = Upserted(table: Table, id: int) | SequenceExhausted

  /**
   * `INSERT ... ON CONFLICT(url) DO UPDATE SET date_created = NOW() RETURNING id`:
   * a new url gets the next id of the sequence, a known url keeps its id and
   * only has its timestamp refreshed.
   */
  function Upsert(t: Table, url: string, now: Time): (r: Upserted)
    requires t.Valid()
    ensures r.Upserted? ==> r.table.Valid() && KeepsAssociations(t, r.table)
    ensures r.Upserted? ==> url in r.table.ids && r.table.ids[url] == r.id && r.table.rows[r.id].url == url
    ensures url in t.ids ==> r.Upserted? && r.id == t.ids[url] && OnlyTimestampChanged(t, r.table, r.id, now)
    ensures url !in t.ids && t.next <= MaxId ==> r.Upserted? && OneRowInserted(t, r.table, r.id, url, now)
    ensures r.SequenceExhausted? <==> url !in t.ids && t.next > MaxId
  {
    if url in t.ids then
      var id := t.ids[url];
      Upserted(t.(rows := t.rows[id := Row(url, now)]), id)
    else if t.next <= MaxId then
      Upserted(Table(t.ids[url := t.next], t.rows[t.next := Row(url, now)], t.next + 1), t.next)
    else
      SequenceExhausted
  }

  /** A valid table holds at most one row per url. */
  lemma AtMostOneRowPerUrl(t: Table, url: string)
    requires t.Valid()
    ensures RowsFor(t, url) == if url in t.ids then {t.ids[url]} else {}
    ensures |RowsFor(t, url)| <= 1
  {
    if url in t.ids {
      forall id | id in RowsFor(t, url) ensures id == t.ids[url] { }
      assert t.ids[url] in RowsFor(t, url);
      assert RowsFor(t, url) == {t.ids[url]};
    } else {
      forall id | id in t.rows ensures t.rows[id].url != url { }
      assert RowsFor(t, url) == {};
    }
  }

  /** After an upsert the table holds exactly one row for the url, the one returned. */
  lemma UpsertLeavesOneRow(t: Table, url: string, now: Time)
    requires t.Valid() && Upsert(t, url, now).Upserted?
    ensures RowsFor(Upsert(t, url, now).table, url) == {Upsert(t, url, now).id}
  {
    AtMostOneRowPerUrl(Upsert(t, url, now).table, url);
  }

  /** Upserting the same url again returns the same id and changes only the timestamp. */
  lemma UpsertIdempotent(t: Table, url: string, now1: Time, now2: Time)
    requires t.Valid() && Upsert(t, url, now1).Upserted?
    ensures Upsert(Upsert(t, url, now1).table, url, now2).Upserted?
    ensures Upsert(Upsert(t, url, now1).table, url, now2).id == Upsert(t, url, now1).id
    ensures OnlyTimestampChanged(Upsert(t, url, now1).table, Upsert(Upsert(t, url, now1).table, url, now2).table,
                                 Upsert(t, url, now1).id, now2)
  {
  }

  /** `SELECT url FROM urls WHERE id = $1`. */
  function Select(t: Table, id: int): (r: Option<string>)
    ensures r.Some? <==> id in t.rows
    ensures r.Some? ==> r.value == t.rows[id].url
  {
    if id in t.rows then Some(t.rows[id].url) else None
  }

  // ---------------------------------------------------------------- the engine

  /**
   * The engine over its store. `available` says whether the store answers the
   * query (false: a connection error, a timeout, a cancelled context); `now`
   * is the store's clock.
   */
  class Engine {
    const lib: Library
    var table: Table

    ghost predicate Valid()
      reads this
    {
      table.Valid() && Lawful(lib)
    }

    /** An engine over a `urls` table that may already hold rows. */
    constructor (lib: Library, t: Table)
      requires Lawful(lib) && t.Valid()
      ensures Valid() && this.lib == lib && table == t
    {
      this.lib := lib;
      table := t;
    }

    /** Saves `url` (or refreshes its row) and returns the code of its id. */
    method Shorten(url: string, now: Time, available: bool) returns (r: Result<string, Error>)
      requires Valid()
      modifies this
      ensures Valid()
      ensures !available ==> r == Err(Query(Failure)) && table == old(table)
      ensures available ==>
        match Upsert(old(table), url, now)
        case Upserted(t, id) => table == t && r == Ok(Encode(lib, id))
        case SequenceExhausted => table == old(table) && r == Err(Query(Failure))
    {
      if !available {
        return Err(Query(Failure));
      }
      var u := Upsert(table, url, now);
      if u.SequenceExhausted? {
        return Err(Query(Failure));
      }
      table := u.table;
      r := Ok(Encode(lib, u.id));
    }

    /**
     * The url a code stands for. Any decoding failure is `DecodeErr` and the
     * store is not consulted; a store failure is returned wrapped.
     */
    function Expand(code: string, available: bool): (r: Result<string, Error>)
      reads this
      ensures Decode(lib, code).Err? ==> r == Err(DecodeErr)
      ensures Decode(lib, code).Ok? && !available ==> r == Err(Query(Failure))
      ensures Decode(lib, code).Ok? && available ==>
        (r.Ok? <==> Decode(lib, code).value in table.rows)
      ensures r.Ok? ==> r.value == table.rows[Decode(lib, code).value].url
      ensures r.Err? ==> r.error == DecodeErr || r.error.Query?
      ensures r == Err(Query(NoRows)) <==>
        available && Decode(lib, code).Ok? && Decode(lib, code).value !in table.rows
    {
      match Decode(lib, code)
      case Err(_) => Err(DecodeErr)
      case Ok(id) =>
        if !available then Err(Query(Failure))
        else
          match Select(table, id)
          case Some(url) => Ok(url)
          case None => Err(Query(NoRows))
    }
  }

  /** Shortening the same url twice gives the same code; the second call only refreshes the timestamp. */
  method ShortenTwice(e: Engine, url: string, now1: Time, now2: Time)
      returns (r1: Result<string, Error>, r2: Result<string, Error>)
    requires e.Valid()
    modifies e
    ensures e.Valid()
    ensures r1.Ok? ==> r2 == r1 && |RowsFor(e.table, url)| == 1
    ensures r1.Ok? ==>
      var first := Upsert(old(e.table), url, now1);
      first.Upserted? && OnlyTimestampChanged(first.table, e.table, first.id, now2)
  {
    r1 := e.Shorten(url, now1, true);
    r2 := e.Shorten(url, now2, true);
    if r1.Ok? {
      AtMostOneRowPerUrl(e.table, url);
    }
  }

  /** Expanding the code of an id gives that row's url, or no-rows when it is absent. */
  lemma ExpandEncoded(e: Engine, id: int)
    requires e.Valid() && 1 <= id <= MaxId
    ensures id in e.table.rows ==> e.Expand(Encode(e.lib, id), true) == Ok(e.table.rows[id].url)
    ensures id !in e.table.rows ==> e.Expand(Encode(e.lib, id), true) == Err(Query(NoRows))
  {
    DecodeEncode(e.lib, id);
  }

  /** The code `Shorten` returns for a stored url expands back to that url. */
  lemma ExpandStoredUrl(e: Engine, url: string)
    requires e.Valid() && url in e.table.ids
    ensures 1 <= e.table.ids[url] <= MaxId
    ensures e.Expand(Encode(e.lib, e.table.ids[url]), true) == Ok(url)
  {
    ExpandEncoded(e, e.table.ids[url]);
  }
}
