/**
 The team dropdown: the distinct team values of the stored records, in the
 order the store enumerates them, each kept at its first occurrence.
 */
module TeamList {
  import opened Records
  import opened PlayerStore

  predicate NoDuplicates(xs: seq<string>) {
    forall i, j :: 0 <= i < j < |xs| ==> xs[i] != xs[j]
  }

  /**
   Removing duplicates with a set: every value of `xs` once, and no other; two values
   appear in the order of their first occurrences in `xs`.
   */
  function Distinct(xs: seq<string>): (r: seq<string>)
    ensures NoDuplicates(r)
    ensures forall x :: x in r <==> x in xs
    ensures forall i, j, k :: 0 <= i < j < |r| && 0 <= k < |xs| && xs[k] == r[j] ==> r[i] in xs[..k]
    decreases |xs|
  {
    if xs == [] then []
    else
      var front := xs[..|xs| - 1];
      var d := Distinct(front);
      var x := xs[|xs| - 1];
      assert forall k :: 0 <= k < |front| ==> front[..k] == xs[..k];
      assert forall y :: y in xs <==> y in front || y == x;
      if x in d then d
      else
        var r := d + [x];
        assert forall k :: 0 <= k < |front| ==> front[k] != x;
        assert forall y :: y in d ==> y in xs[..|xs| - 1];
        r
  }

  /** Some record held in the store has team `t`. */
  predicate HeldTeam(s: Store, t: string) {
    exists k :: k in Contents(s) && Contents(s)[k].team == t
  }

  /** One of the first `k` records the store enumerates has team `t`. */
  predicate TeamBefore(s: Store, t: string, k: int) {
    exists h :: 0 <= h < k && h < |s| && s[h].team == t
  }

  /**
   The team of each record, in the order the store enumerates them: a team
   appears in the column exactly when some record held in the store has it.
   */
  function TeamColumn(s: Store): (ts: seq<string>)
    ensures |ts| == |s|
    ensures forall i :: 0 <= i < |s| ==> ts[i] == s[i].team
    ensures forall t :: t in ts <==> HeldTeam(s, t)
  {
    var ts := seq(|s|, i requires 0 <= i < |s| => s[i].team);
    ColumnMembers(s, ts);
    ts
  }

  /** A column listing each record's team holds exactly the teams of the store's contents. */
  lemma ColumnMembers(s: Store, ts: seq<string>)
    requires |ts| == |s| && forall i :: 0 <= i < |s| ==> ts[i] == s[i].team
    ensures forall t :: t in ts <==> HeldTeam(s, t)
  {
    var m := Contents(s);
    forall t
      ensures t in ts <==> HeldTeam(s, t)
    {
      if t in ts {
        var i :| 0 <= i < |ts| && ts[i] == t;
        MemberIffStored(s, s[i]);
        var k := s[i].playerID;
        assert k in m && m[k].team == t;
      }
      if exists k :: k in m && m[k].team == t {
        var k :| k in m && m[k].team == t;
        MemberIffStored(s, m[k]);
        var i :| 0 <= i < |s| && s[i] == m[k];
        assert ts[i] == t;
      }
    }
  }

  /**
   The teams offered by the dropdown: no team twice, exactly the teams some
   stored record has, and ordered by where each team first appears in the
   store's enumeration: before any record of a later team there is a record
   of every earlier one.
   */
  function Teams(s: Store): (r: seq<string>)
    ensures NoDuplicates(r)
    ensures forall t :: t in r <==> exists p :: p in s && p.team == t
    ensures forall i, j, k :: 0 <= i < j < |r| && 0 <= k < |s| && s[k].team == r[j] ==> TeamBefore(s, r[i], k)
  {
    var ts := TeamColumn(s);
    assert forall t :: t in ts <==> exists p :: p in s && p.team == t by {
      forall t
        ensures t in ts <==> exists p :: p in s && p.team == t
      {
        if t in ts {
          var i :| 0 <= i < |ts| && ts[i] == t;
          assert s[i] in s;
        }
        if exists p :: p in s && p.team == t {
          var p :| p in s && p.team == t;
          var i :| 0 <= i < |s| && s[i] == p;
          assert ts[i] == t;
        }
      }
    }
    FirstOccurrenceOrder(s, ts, Distinct(ts));
    Distinct(ts)
  }

  /** First-occurrence order in the team column is first-occurrence order in the store. */
  lemma FirstOccurrenceOrder(s: Store, ts: seq<string>, r: seq<string>)
    requires |ts| == |s| && forall i :: 0 <= i < |s| ==> ts[i] == s[i].team
    requires forall i, j, k :: 0 <= i < j < |r| && 0 <= k < |ts| && ts[k] == r[j] ==> r[i] in ts[..k]
    ensures forall i, j, k :: 0 <= i < j < |r| && 0 <= k < |s| && s[k].team == r[j] ==> TeamBefore(s, r[i], k)
  {
    forall i, j, k | 0 <= i < j < |r| && 0 <= k < |s| && s[k].team == r[j]
      ensures TeamBefore(s, r[i], k)
    {
      assert ts[k] == r[j];
      assert r[i] in ts[..k];
      var h :| 0 <= h < k && ts[..k][h] == r[i];
      assert s[h].team == r[i];
    }
  }

  /** A team is offered exactly when the store holds a record of it. */
  lemma TeamsMatchContents(s: Store, t: string)
    ensures t in Teams(s) <==> exists k :: k in Contents(s) && Contents(s)[k].team == t
  {
    var m := Contents(s);
    if t in Teams(s) {
      var p :| p in s && p.team == t;
      MemberIffStored(s, p);
      var k := p.playerID;
      assert k in Contents(s) && Contents(s)[k].team == t;
    } else {
      forall k | k in m
        ensures m[k].team != t
      {
        MemberIffStored(s, m[k]);
      }
    }
  }

  /** Every team offered finds someone when filtered on, and every team that finds someone is offered. */
  lemma TeamsMatchFilter(s: Store, t: string)
    ensures t in Teams(s) <==> |ByTeam(s, t)| > 0
  {
    if t in Teams(s) {
      var p :| p in s && p.team == t;
      assert p in ByTeam(s, t);
    }
    if |ByTeam(s, t)| > 0 {
      assert ByTeam(s, t)[0] in ByTeam(s, t);
    }
  }
}
