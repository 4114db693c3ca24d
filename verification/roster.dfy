/**
 The application's flows over the cache: a refresh from the sheet, a search by
 ID, and the consequences of combining them with status edits.
 */
module Roster {
  import opened Records
  import opened Sheet
  import opened PlayerStore
  import opened StatusSync
  import Decimal

  /** What the sheet request delivered: its rows, or a network or parse failure. */
  datatype Payload = Rows(rows: seq<Row>) | FetchFailed

  /** The keys the rows of a payload decode to. */
  function RowIds(rows: seq<Row>): set<string> {
    set i | 0 <= i < |rows| :: Decode(rows[i]).playerID
  }

  /** Row `i` is the last row whose decoded key is its own. */
  predicate LastRowWithId(rows: seq<Row>, i: nat)
    requires i < |rows|
  {
    forall j :: i < j < |rows| ==> Decode(rows[j]).playerID != Decode(rows[i]).playerID
  }

  /**
   A refresh from the sheet: every row's record is saved, the last row with a
   key winning; records whose key the sheet no longer has are kept; a failed
   fetch leaves the store as it was.
   */
  function Refresh(s: Store, payload: Payload): (r: Store)
    ensures payload.FetchFailed? ==> r == s
    ensures payload.Rows? ==>
              forall k :: k in Contents(r) <==> k in Contents(s) || k in RowIds(payload.rows)
    ensures payload.Rows? ==>
              forall k :: k in Contents(s) && k !in RowIds(payload.rows) ==> Contents(r)[k] == Contents(s)[k]
    ensures payload.Rows? ==>
              forall i :: 0 <= i < |payload.rows| && LastRowWithId(payload.rows, i) ==>
                && Decode(payload.rows[i]).playerID in Contents(r)
                && Contents(r)[Decode(payload.rows[i]).playerID] == Decode(payload.rows[i])
  {
    match payload
    case FetchFailed => s
    case Rows(rows) =>
      DecodedKeys(rows);
      SaveAll(s, DecodeRows(rows))
  }

  /** The decoded records carry exactly the rows' decoded keys, and the last row for a key gives the last record for it. */
  lemma DecodedKeys(rows: seq<Row>)
    ensures Ids(DecodeRows(rows)) == RowIds(rows)
    ensures forall i :: 0 <= i < |rows| && LastRowWithId(rows, i) ==> LastWithId(DecodeRows(rows), i)
  {
    var ps := DecodeRows(rows);
    assert forall i :: 0 <= i < |rows| ==> ps[i].playerID == Decode(rows[i]).playerID;
  }

  /** Refreshing twice from the same payload leaves the store as refreshing once. */
  lemma RefreshIdempotent(s: Store, payload: Payload)
    ensures Refresh(Refresh(s, payload), payload) == Refresh(s, payload)
  {
    if payload.Rows? {
      SaveAllIdempotent(s, DecodeRows(payload.rows));
    }
  }

  /** The result of a search: the store it ran against, and the record shown or nothing ("Player not found."). */
  datatype SearchResult = SearchResult(store: Store, player: Option<Player>)

  /** Searching by ID: online, the store is refreshed first and the lookup sees the refresh; offline, the cached store is read. */
  function Search(s: Store, id: string, online: bool, payload: Payload): (r: SearchResult)
    ensures r.store == (if online then Refresh(s, payload) else s)
    ensures r.player.Some? <==> id in Contents(r.store)
    ensures r.player.Some? ==> r.player.value.playerID == id && Stored(r.store, r.player.value)
  {
    var t := if online then Refresh(s, payload) else s;
    SearchResult(t, Get(t, id))
  }

  /** Online, a search for a key the sheet holds shows that key's last row, whatever the cache held before. */
  lemma SearchFindsSheetRow(s: Store, rows: seq<Row>, i: nat)
    requires i < |rows| && LastRowWithId(rows, i)
    ensures Search(s, Decode(rows[i]).playerID, true, Rows(rows)).player == Some(Decode(rows[i]))
  {
    assert rows[i] in rows;
  }

  /** Offline, or when the fetch fails, a key the cache never held is reported as not found. */
  lemma SearchMissesUnknownKey(s: Store, id: string, online: bool)
    requires id !in Contents(s)
    ensures Search(s, id, online, FetchFailed).player == None
  {
  }

  /** A numeric ID cell decodes to the number's text, so searching for that text finds the row. */
  lemma NumericIdsAreSearchable(s: Store, rows: seq<Row>, i: nat, n: int)
    requires i < |rows| && LastRowWithId(rows, i)
    requires CellValue(rows[i], PlayerIdColumn) == Some(Number(n)) && n != 0
    ensures Search(s, Decimal.IntText(n), true, Rows(rows)).player == Some(Decode(rows[i]))
  {
    Decimal.IntRoundTrip(n);
    var id := Decode(rows[i]).playerID;
    assert Decimal.IntValue(id) == Some(n);
    assert id == Decimal.IntText(n);
    SearchFindsSheetRow(s, rows, i);
  }

  /**
   An edit made offline is not queued: nothing is sent, and the next refresh
   from a sheet that still has the row puts the sheet's status back.
   */
  lemma OfflineEditLostOnRefresh(s: Store, id: string, st: string, rows: seq<Row>, i: nat)
    requires i < |rows| && LastRowWithId(rows, i) && Decode(rows[i]).playerID == id
    ensures UpdateStatus(s, id, st, false).sent == []
    ensures Get(Refresh(UpdateStatus(s, id, st, false).store, Rows(rows)), id) == Some(Decode(rows[i]))
  {
  }

  /** The worked example: player "7" of team "A" red-carded while online. */
  lemma RedCardExample()
    ensures var jo := Record("7", "A", "Jo", "Doe", "2000-01-01", "x.png", Clear);
      var s := Put(Empty, jo);
      var r := UpdateStatus(s, "7", RedCarded, true);
      && Get(r.store, "7") == Some(jo.(status := RedCarded))
      && r.sent == [Post(UpdateUrl, JsonContentType, StatusChange("7", RedCarded))]
  {
  }

  /** The same edit made offline: the local record changes, no request goes out. */
  lemma OfflineRedCardExample()
    ensures var jo := Record("7", "A", "Jo", "Doe", "2000-01-01", "x.png", Clear);
      var r := UpdateStatus(Put(Empty, jo), "7", RedCarded, false);
      Get(r.store, "7") == Some(jo.(status := RedCarded)) && r.sent == []
  {
  }

  /** An empty store finds nothing. */
  lemma EmptyStoreExample()
    ensures Get(Empty, "123") == None
  {
  }
}
