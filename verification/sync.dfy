/**
 Status edits: the local rewrite of one record's status, and the best-effort
 POST that publishes it to the sheet. The network is an emitted-request list
 and the browser's online flag is a parameter.
 */
module StatusSync {
  import opened Records
  import opened PlayerStore

  const UpdateUrl := "https://script.google.com/macros/s/AKfycbyprFLBIDfXhKLEG_lExmkQrPaCF-GXYbpwamKL6wrrUyCzSjbenK8cJRp2obC33zjw/exec"
  const JsonContentType := "application/json"

  /** The JSON body `{playerID, status}` of an update request. */
  datatype StatusChange = StatusChange(playerID: string, status: string)

  datatype Request = Post(url: string, contentType: string, body: StatusChange)

  /**
   Publishing a status: offline, nothing is sent and nothing is kept for later;
   online, exactly one POST to the update endpoint carrying the key and the new status.
   */
  function Sync(id: string, st: string, online: bool): (sent: seq<Request>)
    ensures |sent| == (if online then 1 else 0)
    ensures forall q :: q in sent ==>
              q.url == UpdateUrl && q.contentType == JsonContentType &&
              q.body.playerID == id && q.body.status == st
  {
    if online then [Post(UpdateUrl, JsonContentType, StatusChange(id, st))] else []
  }

  /** The store after an edit, and the requests the edit sent. */
  datatype Outcome = Outcome(store: Store, sent: seq<Request>)

  /**
   Editing a player's status: when the key is held, its record gets the new
   status, nothing else in the store changes, and the edit is published once;
   when it is not, the store is untouched and nothing is sent.
   */
  function UpdateStatus(s: Store, id: string, st: string, online: bool): (r: Outcome)
    ensures id !in Contents(s) ==> r.store == s && r.sent == []
    ensures id in Contents(s) ==>
              && Contents(r.store) == Contents(s)[id := Contents(s)[id].(status := st)]
              && r.sent == Sync(id, st, online)
  {
    match Get(s, id)
    case None => Outcome(s, [])
    case Some(p) => Outcome(Put(s, p.(status := st)), Sync(id, st, online))
  }

  /** Field by field: only the edited record's status moves; every other field and record stays. */
  lemma UpdateChangesOnlyStatus(s: Store, id: string, st: string, online: bool)
    requires id in Contents(s)
    ensures var r := UpdateStatus(s, id, st, online);
      && Contents(r.store).Keys == Contents(s).Keys
      && (forall k :: k in Contents(s) && k != id ==> Contents(r.store)[k] == Contents(s)[k])
      && var before, after := Contents(s)[id], Contents(r.store)[id];
         && after.status == st
         && after.playerID == before.playerID && after.team == before.team
         && after.name == before.name && after.surname == before.surname
         && after.dob == before.dob && after.image == before.image
  {
  }

  /** A lookup after the edit sees the new status. */
  lemma GetAfterUpdate(s: Store, id: string, st: string, online: bool)
    ensures var r := UpdateStatus(s, id, st, online);
      match Get(s, id)
      case None => Get(r.store, id) == None
      case Some(p) => Get(r.store, id) == Some(p.(status := st))
  {
  }
}
