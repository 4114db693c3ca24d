/**
 The object store "players": keyed by `playerID`, with a non-unique index on
 `team`. It is kept as its records in ascending key order, the order in which
 the store enumerates them; `Contents` is the same store seen as a map.
 */
module PlayerStore {
  import opened Records
  import opened KeyOrder

  /** Records in strictly ascending key order, hence at most one record per key. */
  predicate KeyOrdered(s: seq<Player>) {
    forall i, j :: 0 <= i < j < |s| ==> Below(s[i].playerID, s[j].playerID)
  }

  type Store = s: seq<Player> | KeyOrdered(s) witness []

  const Empty: Store := []

  /** The keys a sequence of records carries. */
  function Ids(ps: seq<Player>): set<string> {
    set i | 0 <= i < |ps| :: ps[i].playerID
  }

  /** The store as a map from key to record; every record sits under its own key. */
  function Contents(s: seq<Player>): (m: map<string, Player>)
    ensures forall k :: k in m ==> m[k].playerID == k
    decreases |s|
  {
    if s == [] then map[] else Contents(s[1..])[s[0].playerID := s[0]]
  }

  /** The keys held are exactly the keys of the records. */
  lemma {:induction false} ContentsKeys(s: seq<Player>)
    ensures Contents(s).Keys == Ids(s)
    decreases |s|
  {
    if s != [] {
      ContentsKeys(s[1..]);
      assert Ids(s) == Ids(s[1..]) + {s[0].playerID} by {
        forall k
          ensures k in Ids(s) <==> k in Ids(s[1..]) || k == s[0].playerID
        {
          if k in Ids(s) && k != s[0].playerID {
            var i :| 0 <= i < |s| && s[i].playerID == k;
            assert s[1..][i - 1].playerID == k;
          }
          if k in Ids(s[1..]) {
            var i :| 0 <= i < |s[1..]| && s[1..][i].playerID == k;
            assert s[i + 1].playerID == k;
          }
        }
      }
    }
  }

  /** The store holds exactly this record under its key. */
  predicate Stored(s: Store, p: Player) {
    p.playerID in Contents(s) && Contents(s)[p.playerID] == p
  }

  lemma ContentsOfOrdered(s: Store)
    requires s != []
    ensures s[0].playerID !in Contents(s[1..])
    ensures Contents(s[1..]) == Contents(s) - {s[0].playerID}
  {
    FirstKeyUnique(s);
    DropFirst(s);
  }

  /** The first key of a store occurs nowhere after it. */
  lemma FirstKeyUnique(s: Store)
    requires s != []
    ensures s[0].playerID !in Contents(s[1..])
  {
    ContentsKeys(s[1..]);
    if s[0].playerID in Ids(s[1..]) {
      var j :| 0 <= j < |s[1..]| && s[1..][j].playerID == s[0].playerID;
      assert s[j + 1].playerID == s[0].playerID;
      BelowIrreflexive(s[0].playerID);
      assert false;
    }
  }

  lemma DropFirst(s: seq<Player>)
    requires s != [] && s[0].playerID !in Contents(s[1..])
    ensures Contents(s[1..]) == Contents(s) - {s[0].playerID}
  {
  }

  /** A record is in the store's enumeration exactly when the store holds it under its key. */
  lemma {:induction false} MemberIffStored(s: Store, p: Player)
    ensures p in s <==> Stored(s, p)
    decreases |s|
  {
    if s != [] {
      ContentsOfOrdered(s);
      var t: Store := s[1..];
      MemberIffStored(t, p);
      assert p in s <==> p == s[0] || p in t;
    }
  }

  /** The store is determined by its contents: two stores holding the same records are the same store. */
  lemma {:induction false} ContentsDetermineStore(a: Store, b: Store)
    requires Contents(a) == Contents(b)
    ensures a == b
    decreases |a|
  {
    ContentsKeys(a);
    ContentsKeys(b);
    assert a != [] ==> a[0].playerID in Ids(a);
    assert b != [] ==> b[0].playerID in Ids(b);
    if a != [] && b != [] {
      if a[0].playerID != b[0].playerID {
        var i :| 0 <= i < |a| && a[i].playerID == b[0].playerID;
        var j :| 0 <= j < |b| && b[j].playerID == a[0].playerID;
        assert i > 0 && j > 0;
        BelowAsymmetric(a[0].playerID, b[0].playerID);
        assert false;
      }
      MemberIffStored(a, a[0]);
      MemberIffStored(b, b[0]);
      ContentsOfOrdered(a);
      ContentsOfOrdered(b);
      ContentsDetermineStore(a[1..], b[1..]);
      assert a == [a[0]] + a[1..] && b == [b[0]] + b[1..];
    }
  }

  /** Putting a record before an ordered run whose keys all follow it keeps the order. */
  lemma ConsOrdered(p: Player, s: Store)
    requires forall j :: 0 <= j < |s| ==> Below(p.playerID, s[j].playerID)
    ensures KeyOrdered([p] + s)
  {
  }

  /** Overwriting the first record with one of the same key keeps the order. */
  lemma ReplaceFirst(s: Store, p: Player)
    requires s != [] && s[0].playerID == p.playerID
    ensures KeyOrdered([p] + s[1..])
    ensures Contents([p] + s[1..]) == Contents(s)[p.playerID := p]
  {
    var t: Store := s[1..];
    assert forall j :: 0 <= j < |t| ==> t[j] == s[j + 1];
    ConsOrdered(p, t);
    assert ([p] + t)[1..] == t;
  }

  /** A record whose key sorts before the first key goes in front. */
  lemma InsertFirst(s: Store, p: Player)
    requires s != [] && Below(p.playerID, s[0].playerID)
    ensures KeyOrdered([p] + s)
  {
    forall j | 0 < j < |s|
      ensures Below(p.playerID, s[j].playerID)
    {
      BelowTransitive(p.playerID, s[0].playerID, s[j].playerID);
    }
    ConsOrdered(p, s);
  }

  /** A record whose key sorts after the first key goes somewhere behind it. */
  lemma InsertLater(s: Store, p: Player, rest: Store)
    requires s != [] && s[0].playerID != p.playerID && !Below(p.playerID, s[0].playerID)
    requires Contents(rest) == Contents(s[1..])[p.playerID := p]
    ensures KeyOrdered([s[0]] + rest)
  {
    BelowTotal(p.playerID, s[0].playerID);
    ContentsKeys(rest);
    ContentsKeys(s[1..]);
    forall j | 0 <= j < |rest|
      ensures Below(s[0].playerID, rest[j].playerID)
    {
      var k := rest[j].playerID;
      assert k in Ids(rest);
      if k != p.playerID {
        assert k in Ids(s[1..]);
        var i :| 0 <= i < |s[1..]| && s[1..][i].playerID == k;
        assert s[i + 1].playerID == k;
      }
    }
    ConsOrdered(s[0], rest);
  }

  /** Contents of a record put in front of a run of others. */
  lemma ContentsCons(q: Player, t: seq<Player>)
    ensures Contents([q] + t) == Contents(t)[q.playerID := q]
  {
    assert ([q] + t)[1..] == t;
  }

  /** Putting behind the first record commutes with the first record's own entry. */
  lemma InsertLaterContents(s: seq<Player>, p: Player, rest: seq<Player>)
    requires s != [] && s[0].playerID != p.playerID
    requires Contents(rest) == Contents(s[1..])[p.playerID := p]
    ensures Contents([s[0]] + rest) == Contents(s)[p.playerID := p]
  {
    ContentsCons(s[0], rest);
    ContentsCons(s[0], s[1..]);
    assert [s[0]] + s[1..] == s;
    UpdatesCommute(Contents(s[1..]), p.playerID, p, s[0].playerID, s[0]);
  }

  lemma UpdatesCommute(m: map<string, Player>, a: string, x: Player, b: string, y: Player)
    requires a != b
    ensures m[a := x][b := y] == m[b := y][a := x]
  {
  }

  /** Putting a record: insert it, or overwrite the record held under the same key. */
  function Put(s: Store, p: Player): (r: Store)
    ensures Contents(r) == Contents(s)[p.playerID := p]
    decreases |s|
  {
    if s == [] then
      ContentsCons(p, s);
      [p]
    else if s[0].playerID == p.playerID then
      ReplaceFirst(s, p);
      [p] + s[1..]
    else if Below(p.playerID, s[0].playerID) then
      InsertFirst(s, p);
      ContentsCons(p, s);
      [p] + s
    else
      var rest := Put(s[1..], p);
      InsertLater(s, p, rest);
      InsertLaterContents(s, p, rest);
      [s[0]] + rest
  }

  /** Index `i` holds the last record of `ps` with its key. */
  predicate LastWithId(ps: seq<Player>, i: nat)
    requires i < |ps|
  {
    forall j :: i < j < |ps| ==> ps[j].playerID != ps[i].playerID
  }

  /**
   Putting the records one by one in list order: every key of `ps` ends up
   holding the last record of `ps` with that key; every other key is untouched.
   */
  function SaveAll(s: Store, ps: seq<Player>): (r: Store)
    ensures forall k :: k in Contents(r) <==> k in Contents(s) || k in Ids(ps)
    ensures forall k :: k in Contents(s) && k !in Ids(ps) ==> Contents(r)[k] == Contents(s)[k]
    ensures forall i :: 0 <= i < |ps| && LastWithId(ps, i) ==>
              ps[i].playerID in Contents(r) && Contents(r)[ps[i].playerID] == ps[i]
    decreases |ps|
  {
    if ps == [] then s
    else
      IdsCons(ps);
      var r := SaveAll(Put(s, ps[0]), ps[1..]);
      assert forall i :: 0 < i < |ps| && LastWithId(ps, i) ==> LastWithId(ps[1..], i - 1);
      r
  }

  /** The keys of a non-empty list: its first key and the keys of the rest. */
  lemma IdsCons(ps: seq<Player>)
    requires ps != []
    ensures forall k :: k in Ids(ps) <==> k == ps[0].playerID || k in Ids(ps[1..])
    ensures LastWithId(ps, 0) ==> ps[0].playerID !in Ids(ps[1..])
  {
    forall k | k in Ids(ps) && k != ps[0].playerID
      ensures k in Ids(ps[1..])
    {
      var i :| 0 <= i < |ps| && ps[i].playerID == k;
      assert ps[1..][i - 1].playerID == k;
    }
    forall k | k in Ids(ps[1..])
      ensures k in Ids(ps)
    {
      var i :| 0 <= i < |ps[1..]| && ps[1..][i].playerID == k;
      assert ps[i + 1].playerID == k;
    }
  }

  /** Point lookup: the record held under the key, or nothing when there is none. */
  function Get(s: Store, id: string): (r: Option<Player>)
    ensures r.Some? <==> id in Contents(s)
    ensures r.Some? ==> r.value == Contents(s)[id]
    decreases |s|
  {
    if s == [] then None
    else if s[0].playerID == id then Some(s[0])
    else
      ContentsOfOrdered(s);
      Get(s[1..], id)
  }

  /** Query of the team index: the records whose team is the one asked for, in key order. */
  function ByTeam(s: Store, t: string): (r: Store)
    ensures forall p :: p in r <==> p in s && p.team == t
    decreases |s|
  {
    if s == [] then []
    else
      var rest := ByTeam(s[1..], t);
      if s[0].team == t then
        forall j | 0 <= j < |rest|
          ensures Below(s[0].playerID, rest[j].playerID)
        {
          assert rest[j] in s[1..];
          var i :| 0 <= i < |s[1..]| && s[1..][i] == rest[j];
          assert s[i + 1] == rest[j];
        }
        ConsOrdered(s[0], rest);
        [s[0]] + rest
      else
        rest
  }

  /** Every key of `ps` has a last record carrying it. */
  lemma LastIndexExists(ps: seq<Player>, k: string) returns (i: nat)
    requires k in Ids(ps)
    ensures i < |ps| && ps[i].playerID == k && LastWithId(ps, i)
  {
    var j :| 0 <= j < |ps| && ps[j].playerID == k;
    i := j;
    var n := j + 1;
    while n < |ps|
      invariant i < n <= |ps| && ps[i].playerID == k
      invariant forall m :: i < m < n ==> ps[m].playerID != k
    {
      if ps[n].playerID == k {
        i := n;
      }
      n := n + 1;
    }
  }

  /** Saving a list a second time holds the same contents as saving it once. */
  lemma ResaveKeepsContents(s: Store, ps: seq<Player>)
    ensures Contents(SaveAll(SaveAll(s, ps), ps)) == Contents(SaveAll(s, ps))
  {
    var once := Contents(SaveAll(s, ps));
    var twice := Contents(SaveAll(SaveAll(s, ps), ps));
    assert twice.Keys == once.Keys;
    forall k | k in twice
      ensures twice[k] == once[k]
    {
      if k in Ids(ps) {
        var i := LastIndexExists(ps, k);
      }
    }
  }

  /** Saving the same list a second time changes nothing. */
  lemma SaveAllIdempotent(s: Store, ps: seq<Player>)
    ensures SaveAll(SaveAll(s, ps), ps) == SaveAll(s, ps)
  {
    ResaveKeepsContents(s, ps);
    ContentsDetermineStore(SaveAll(SaveAll(s, ps), ps), SaveAll(s, ps));
  }

  /** After a save, looking up a saved key yields the last record saved under it; a key neither held nor saved yields nothing. */
  lemma GetAfterSave(s: Store, ps: seq<Player>, id: string)
    ensures id in Ids(ps) ==> exists i :: 0 <= i < |ps| && LastWithId(ps, i) && ps[i].playerID == id &&
                                         Get(SaveAll(s, ps), id) == Some(ps[i])
    ensures id !in Ids(ps) ==> Get(SaveAll(s, ps), id) == Get(s, id)
  {
    if id in Ids(ps) {
      var i := LastIndexExists(ps, id);
      assert Get(SaveAll(s, ps), id) == Some(ps[i]);
    }
  }

  /** The store holds one record per key, so its size is the number of distinct keys. */
  lemma {:induction false} SizeIsKeyCount(s: Store)
    ensures |s| == |Contents(s)|
    decreases |s|
  {
    if s != [] {
      ContentsOfOrdered(s);
      SizeIsKeyCount(s[1..]);
    }
  }

  /** Rows that share a key, the empty key included, collapse into one record. */
  lemma SavedRecordCount(ps: seq<Player>)
    ensures |SaveAll(Empty, ps)| == |Ids(ps)|
  {
    var r := SaveAll(Empty, ps);
    SizeIsKeyCount(r);
    assert Contents(r).Keys == Ids(ps);
  }

  /** The team index returns exactly the held records of that team, each once, and no others. */
  lemma ByTeamExact(s: Store, t: string, p: Player)
    ensures p in ByTeam(s, t) <==> Stored(s, p) && p.team == t
  {
    MemberIffStored(s, p);
  }
}
