/** The league registry: every team and every player ever registered, in
    registration order, with the counters that hand out their ids. */
module League {
  import opened Text
  import opened Players
  import opened Teams

  /** The position of the first team with the given id, or |ts| when none has it. */
  function FirstTeamWithId(ts: seq<Team>, id: int): (r: nat)
    ensures r <= |ts|
    ensures r < |ts| ==> ts[r].teamId == id
    ensures forall j :: 0 <= j < r ==> ts[j].teamId != id
  {
    if ts == [] then 0
    else if ts[0].teamId == id then 0
    else 1 + FirstTeamWithId(ts[1..], id)
  }

  /** The position of the first team whose name equals name ignoring case, or
      |ts| when none does. */
  function FirstTeamWithName(ts: seq<Team>, name: string): (r: nat)
    ensures r <= |ts|
    ensures r < |ts| ==> EqualsIgnoreCase(ts[r].teamName, name)
    ensures forall j :: 0 <= j < r ==> !EqualsIgnoreCase(ts[j].teamName, name)
  {
    if ts == [] then 0
    else if EqualsIgnoreCase(ts[0].teamName, name) then 0
    else 1 + FirstTeamWithName(ts[1..], name)
  }

  /** The players of ps that are on no team, in their order in ps. */
  ghost function UnassignedOf(ps: seq<Player>): seq<Player>
    reads ps
  {
    if ps == [] then []
    else
      var last := ps[|ps| - 1];
      UnassignedOf(ps[..|ps| - 1]) + if last.IsAssignedToTeam() then [] else [last]
  }

  /** How many players of ps are on a team. */
  ghost function AssignedCount(ps: seq<Player>): nat
    reads ps
  {
    if ps == [] then 0
    else
      var last := ps[|ps| - 1];
      AssignedCount(ps[..|ps| - 1]) + if last.IsAssignedToTeam() then 1 else 0
  }

  /** The search rule: the lower-cased term occurs in the lower-cased first
      name or in the lower-cased surname. */
  predicate MatchesName(p: Player, term: string): (m: bool)
    ensures m <==> (exists k :: OccursAt(Lower(p.firstName), term, k)) ||
                   (exists k :: OccursAt(Lower(p.surName), term, k))
  {
    ContainsIffOccurs(Lower(p.firstName), term);
    ContainsIffOccurs(Lower(p.surName), term);
    Contains(Lower(p.firstName), term) || Contains(Lower(p.surName), term)
  }

  /** The players of ps that match the (already lower-cased) term, in their order in ps. */
  ghost function MatchingPlayers(ps: seq<Player>, term: string): seq<Player>
  {
    if ps == [] then []
    else
      var last := ps[|ps| - 1];
      MatchingPlayers(ps[..|ps| - 1], term) + if MatchesName(last, term) then [last] else []
  }

  /** A player is in the unassigned list exactly when it is one of ps and on no team. */
  lemma {:induction false} UnassignedOfMembers(ps: seq<Player>, q: Player)
    ensures q in UnassignedOf(ps) <==> q in ps && !q.IsAssignedToTeam()
  {
    if ps != [] {
      var init := ps[..|ps| - 1];
      UnassignedOfMembers(init, q);
      assert ps == init + [ps[|ps| - 1]];
    }
  }

  /** The assigned count and the unassigned list split the players between them. */
  lemma {:induction false} AssignedPlusUnassigned(ps: seq<Player>)
    ensures AssignedCount(ps) + |UnassignedOf(ps)| == |ps|
  {
    if ps != [] {
      AssignedPlusUnassigned(ps[..|ps| - 1]);
    }
  }

  /** A player is a search result exactly when it is one of ps and matches the term. */
  lemma {:induction false} MatchingPlayersMembers(ps: seq<Player>, term: string, q: Player)
    ensures q in MatchingPlayers(ps, term) <==> q in ps && MatchesName(q, term)
  {
    if ps != [] {
      var init := ps[..|ps| - 1];
      MatchingPlayersMembers(init, term, q);
      assert ps == init + [ps[|ps| - 1]];
    }
  }

  /** An empty search term matches every player, since the empty string is
      contained in every name. */
  lemma {:induction false} EmptyTermMatchesAll(ps: seq<Player>)
    ensures MatchingPlayers(ps, "") == ps
  {
    if ps != [] {
      EmptyTermMatchesAll(ps[..|ps| - 1]);
      EmptyIsContained(Lower(ps[|ps| - 1].firstName));
      assert ps == ps[..|ps| - 1] + [ps[|ps| - 1]];
    }
  }

  /** The search lower-cases its term, so searching for a term that is
      already lower-cased, or for any term equal to it ignoring case, finds the
      same players. */
  lemma SearchIgnoresTermCase(ps: seq<Player>, a: string, b: string)
    ensures MatchingPlayers(ps, Lower(Lower(a))) == MatchingPlayers(ps, Lower(a))
    ensures EqualsIgnoreCase(a, b) ==> MatchingPlayers(ps, Lower(a)) == MatchingPlayers(ps, Lower(b))
  {
    LowerIdempotent(a);
  }

  /** The roster invariant on values. rosters holds every team's roster (team
      i + 1 at position i), ps every registered player and asg every player's
      team reference, position by position. Each roster is within capacity,
      has no repeats and holds only registered players; a reference is the
      sentinel or a registered team's id; and a player's reference names a
      team exactly when that team's roster holds the player. */
  ghost predicate Consistent(rosters: seq<seq<Player>>, ps: seq<Player>, asg: seq<int>)
  {
    && |asg| == |ps|
    && (forall i :: 0 <= i < |rosters| ==> |rosters[i]| <= MaxPlayers && Distinct(rosters[i]))
    && (forall i, q :: 0 <= i < |rosters| && q in rosters[i] ==> q in ps)
    && (forall k :: 0 <= k < |asg| ==> asg[k] == Unassigned || 1 <= asg[k] <= |rosters|)
    && (forall i, k :: 0 <= i < |rosters| && 0 <= k < |ps| ==>
          (asg[k] == i + 1 <==> ps[k] in rosters[i]))
  }

  /** Under the invariant, an assigned player is on exactly one roster: the
      one of the team its reference names. An unassigned one is on none. */
  lemma OnExactlyOneRoster(rosters: seq<seq<Player>>, ps: seq<Player>, asg: seq<int>, k: nat)
    requires Consistent(rosters, ps, asg) && k < |ps|
    ensures asg[k] != Unassigned <==> exists i :: 0 <= i < |rosters| && ps[k] in rosters[i]
    ensures forall i :: 0 <= i < |rosters| && ps[k] in rosters[i] ==> i == asg[k] - 1
  {
    if asg[k] != Unassigned {
      assert ps[k] in rosters[asg[k] - 1];
    }
  }

  /** A new team with an empty roster keeps the invariant. */
  lemma ConsistentAfterNewTeam(rosters: seq<seq<Player>>, ps: seq<Player>, asg: seq<int>)
    requires Consistent(rosters, ps, asg)
    ensures Consistent(rosters + [[]], ps, asg)
  {
    var rs := rosters + [[]];
    forall i, k | 0 <= i < |rs| && 0 <= k < |ps|
      ensures asg[k] == i + 1 <==> ps[k] in rs[i]
    {
      if i < |rosters| {
        assert rs[i] == rosters[i];
      }
    }
  }

  /** A new player on no team keeps the invariant. */
  lemma ConsistentAfterNewPlayer(rosters: seq<seq<Player>>, ps: seq<Player>, asg: seq<int>, p: Player)
    requires Consistent(rosters, ps, asg) && p !in ps
    ensures Consistent(rosters, ps + [p], asg + [Unassigned])
  {
    var ps', asg' := ps + [p], asg + [Unassigned];
    forall i, k | 0 <= i < |rosters| && 0 <= k < |ps'|
      ensures asg'[k] == i + 1 <==> ps'[k] in rosters[i]
    {
      if k < |ps| {
        assert ps'[k] == ps[k] && asg'[k] == asg[k];
      } else {
        assert p !in rosters[i];
      }
    }
  }

  /** Appending an unassigned player to a roster below capacity, and pointing
      the player at that team, keeps the invariant. */
  lemma ConsistentAfterJoin(rosters: seq<seq<Player>>, ps: seq<Player>, asg: seq<int>, ti: nat, pk: nat)
    requires Consistent(rosters, ps, asg) && Distinct(ps)
    requires ti < |rosters| && pk < |ps|
    requires asg[pk] == Unassigned && |rosters[ti]| < MaxPlayers
    ensures Consistent(rosters[ti := rosters[ti] + [ps[pk]]], ps, asg[pk := ti + 1])
  {
    var rs, asg' := rosters[ti := rosters[ti] + [ps[pk]]], asg[pk := ti + 1];
    var p := ps[pk];
    assert p !in rosters[ti];
    forall j, l | 0 <= j < l < |rs[ti]| ensures rs[ti][j] != rs[ti][l] {
      if l < |rosters[ti]| {
        assert rs[ti][j] == rosters[ti][j] && rs[ti][l] == rosters[ti][l];
      }
    }
    forall i, k | 0 <= i < |rs| && 0 <= k < |ps|
      ensures asg'[k] == i + 1 <==> ps[k] in rs[i]
    {
      if i == ti {
        assert ps[k] in rs[i] <==> ps[k] in rosters[ti] || ps[k] == p;
        if k != pk {
          assert ps[k] != p;
        }
      } else if k == pk {
        assert p !in rosters[i];
      }
    }
    forall i, q | 0 <= i < |rs| && q in rs[i] ensures q in ps {
      if i == ti {
        assert q in rosters[ti] || q == p;
      }
    }
  }

  /** Dropping a player from the roster of the team its reference names, and
      resetting the reference, keeps the invariant. */
  lemma ConsistentAfterLeave(rosters: seq<seq<Player>>, ps: seq<Player>, asg: seq<int>, pk: nat, j: nat)
    requires Consistent(rosters, ps, asg) && Distinct(ps)
    requires pk < |ps| && asg[pk] != Unassigned
    requires j < |rosters[asg[pk] - 1]| && rosters[asg[pk] - 1][j] == ps[pk]
    ensures var ti := asg[pk] - 1;
      Consistent(rosters[ti := rosters[ti][..j] + rosters[ti][j + 1..]], ps, asg[pk := Unassigned])
  {
    var ti := asg[pk] - 1;
    var rest := rosters[ti][..j] + rosters[ti][j + 1..];
    var rs, asg' := rosters[ti := rest], asg[pk := Unassigned];
    var p := ps[pk];
    RemoveAtDistinct(rosters[ti], j);
    assert forall q :: q in rest ==> q in rosters[ti];
    forall i, k | 0 <= i < |rs| && 0 <= k < |ps|
      ensures asg'[k] == i + 1 <==> ps[k] in rs[i]
    {
      if k == pk {
        if i != ti {
          assert p !in rosters[i];
        }
      } else {
        assert ps[k] != p;
        if i == ti {
          assert ps[k] in rest <==> ps[k] in rosters[ti];
        }
      }
    }
    forall i, q | 0 <= i < |rs| && q in rs[i] ensures q in ps {
      if i == ti {
        assert q in rosters[ti];
      }
    }
  }

  /** Under the invariant, an assigned player's entry on the roster its
      reference names is that roster's first entry carrying its id. */
  lemma RemovalEntry(rosters: seq<seq<Player>>, ps: seq<Player>, asg: seq<int>, pk: nat)
    requires Consistent(rosters, ps, asg)
    requires forall k :: 0 <= k < |ps| ==> ps[k].playerId == k + 1
    requires pk < |ps| && asg[pk] != Unassigned
    ensures var roster := rosters[asg[pk] - 1];
      FirstWithId(roster, pk + 1) < |roster| && roster[FirstWithId(roster, pk + 1)] == ps[pk]
  {
    var roster := rosters[asg[pk] - 1];
    var j := FirstWithId(roster, pk + 1);
    assert ps[pk] in roster;
    var m :| 0 <= m < |roster| && roster[m] == ps[pk];
    assert roster[m].playerId == pk + 1;
    assert roster[j] in ps;
    var k' :| 0 <= k' < |ps| && ps[k'] == roster[j];
  }

  /** Taking an assigned player off the roster its reference names, and
      marking it unassigned, keeps the invariant. */
  lemma ConsistentAfterRemoval(rosters: seq<seq<Player>>, ps: seq<Player>, asg: seq<int>, pk: nat, ti: nat)
    requires Consistent(rosters, ps, asg)
    requires forall k :: 0 <= k < |ps| ==> ps[k].playerId == k + 1
    requires pk < |ps| && asg[pk] == ti + 1
    ensures Consistent(rosters[ti := WithoutId(rosters[ti], pk + 1)], ps, asg[pk := Unassigned])
  {
    RemovalEntry(rosters, ps, asg, pk);
    assert Distinct(ps) by {
      forall a, b | 0 <= a < b < |ps| ensures ps[a] != ps[b] {
        assert ps[a].playerId != ps[b].playerId;
      }
    }
    WithoutIdSplices(rosters[ti], pk + 1);
    ConsistentAfterLeave(rosters, ps, asg, pk, FirstWithId(rosters[ti], pk + 1));
  }

  class LeagueManager {
    var teams: seq<Team>
    var allPlayers: seq<Player>
    var nextTeamId: int
    var nextPlayerId: int

    /** The registry invariant: identities as Registered says, and rosters
        and team references as Consistent says. */
    ghost predicate Valid()
      reads this, teams, allPlayers
    {
      Registered() && Consistent(Rosters(), allPlayers, Assignments())
    }

    /** The identity part of the invariant. The counters hand out ids in
        order, so the n-th team and the n-th player have id n, and team names
        differ ignoring case. */
    ghost predicate Registered()
      reads this
    {
      && nextTeamId == |teams| + 1
      && nextPlayerId == |allPlayers| + 1
      && (forall i :: 0 <= i < |teams| ==> teams[i].teamId == i + 1)
      && (forall k :: 0 <= k < |allPlayers| ==> allPlayers[k].playerId == k + 1)
      && (forall i, j :: 0 <= i < j < |teams| ==>
            !EqualsIgnoreCase(teams[i].teamName, teams[j].teamName))
    }

    /** Every team's roster, in team registration order. */
    ghost function Rosters(): (r: seq<seq<Player>>)
      reads this`teams, teams
      ensures |r| == |teams|
    {
      var ts := teams;
      seq(|ts|, i reads ts requires 0 <= i < |ts| => ts[i].players)
    }

    /** Every player's team reference, in player registration order. */
    ghost function Assignments(): (r: seq<int>)
      reads this`allPlayers, allPlayers
      ensures |r| == |allPlayers|
    {
      var ps := allPlayers;
      seq(|ps|, k reads ps requires 0 <= k < |ps| => ps[k].teamId)
    }

    /** The invariant, from its identity part and the views it constrains. */
    lemma ValidFromViews(rosters: seq<seq<Player>>, asg: seq<int>)
      requires Registered() && Rosters() == rosters && Assignments() == asg
      requires Consistent(rosters, allPlayers, asg)
      ensures Valid()
    {
    }

    /** Views that are those of a consistent registry with one unassigned
        player appended to a roster that has room, and referencing that
        team, satisfy the invariant. */
    lemma ValidAfterJoin(rosters: seq<seq<Player>>, asg: seq<int>, ti: nat, pk: nat)
      requires Registered() && Consistent(rosters, allPlayers, asg)
      requires ti < |rosters| && pk < |allPlayers|
      requires asg[pk] == Unassigned && |rosters[ti]| < MaxPlayers
      requires Rosters() == rosters[ti := rosters[ti] + [allPlayers[pk]]]
      requires Assignments() == asg[pk := ti + 1]
      ensures Valid()
    {
      PlayersDistinct();
      ConsistentAfterJoin(rosters, allPlayers, asg, ti, pk);
      ValidFromViews(rosters[ti := rosters[ti] + [allPlayers[pk]]], asg[pk := ti + 1]);
    }

    /** Views that are those of a consistent registry with one assigned
        player taken off the roster its reference names, and marked
        unassigned, satisfy the invariant. */
    lemma ValidAfterRemoval(rosters: seq<seq<Player>>, asg: seq<int>, id: int, ti: nat)
      requires Registered() && Consistent(rosters, allPlayers, asg)
      requires 1 <= id <= |allPlayers| && asg[id - 1] == ti + 1
      requires Rosters() == rosters[ti := WithoutId(rosters[ti], id)]
      requires Assignments() == asg[id - 1 := Unassigned]
      ensures Valid()
    {
      ConsistentAfterRemoval(rosters, allPlayers, asg, id - 1, ti);
      ValidFromViews(rosters[ti := WithoutId(rosters[ti], id)], asg[id - 1 := Unassigned]);
    }

    /** An empty league whose counters both start at 1. */
    constructor ()
      ensures Valid()
      ensures teams == [] && allPlayers == [] && nextTeamId == 1 && nextPlayerId == 1
    {
      teams := [];
      allPlayers := [];
      nextTeamId := 1;
      nextPlayerId := 1;
    }

    /** With the invariant, the player with id n is the n-th registered one,
        and ids outside 1..|allPlayers| find nobody. */
    lemma PlayerIdIsPosition(id: int)
      requires Registered()
      ensures FirstWithId(allPlayers, id) == if 1 <= id <= |allPlayers| then id - 1 else |allPlayers|
    {
      if 1 <= id <= |allPlayers| {
        assert allPlayers[id - 1].playerId == id;
      }
    }

    /** With the invariant, the team with id n is the n-th registered one,
        and ids outside 1..|teams| find nothing. */
    lemma TeamIdIsPosition(id: int)
      requires Registered()
      ensures FirstTeamWithId(teams, id) == if 1 <= id <= |teams| then id - 1 else |teams|
    {
      if 1 <= id <= |teams| {
        assert teams[id - 1].teamId == id;
      }
    }

    /** With the invariant, registered players are distinct objects. */
    lemma PlayersDistinct()
      requires Registered()
      ensures Distinct(allPlayers)
    {
      forall i, j | 0 <= i < j < |allPlayers| ensures allPlayers[i] != allPlayers[j] {
        assert allPlayers[i].playerId != allPlayers[j].playerId;
      }
    }

    /** With the invariant, a roster entry with a given id is the registered
        player with that id, and such an entry exists exactly when that player
        references the team. */
    lemma RosterEntryWithId(ti: nat, id: int)
      requires Valid() && ti < |teams|
      ensures var roster := teams[ti].players;
        var j := FirstWithId(roster, id);
        && (j < |roster| <==> 1 <= id <= |allPlayers| && allPlayers[id - 1].teamId == ti + 1)
        && (j < |roster| ==> roster[j] == allPlayers[id - 1])
    {
      var roster := teams[ti].players;
      var j := FirstWithId(roster, id);
      assert Rosters()[ti] == roster;
      if j < |roster| {
        var q := roster[j];
        assert q in allPlayers;
        var k :| 0 <= k < |allPlayers| && allPlayers[k] == q;
        assert k == id - 1;
      }
    }

    /** The agreement the registry keeps between players and teams: a
        registered player carries a registered team's id exactly when that
        team's roster holds it, and no roster exceeds the capacity. */
    lemma PlayerTeamAgreement(i: nat, k: nat)
      requires Valid() && i < |teams| && k < |allPlayers|
      ensures allPlayers[k].teamId == teams[i].teamId <==> allPlayers[k] in teams[i].players
      ensures |teams[i].players| <= MaxPlayers
    {
      assert Rosters()[i] == teams[i].players;
      assert Assignments()[k] == allPlayers[k].teamId;
    }

    /** When no object of the league changed, neither did the invariant or
        the views. */
    twostate lemma Untouched()
      requires old(Valid()) && unchanged(this) && unchanged(teams) && unchanged(allPlayers)
      ensures Valid() && Rosters() == old(Rosters()) && Assignments() == old(Assignments())
    {
    }

    /** When only the roster of team ti and the team reference of player pk
        changed, the views change only at those positions, and the
        registration facts survive. */
    twostate lemma ViewsAfterUpdate(new ti: nat, new pk: nat)
      requires old(Registered()) && unchanged(this)
      requires ti < |teams| && pk < |allPlayers|
      requires forall i :: 0 <= i < |teams| && i != ti ==> teams[i].players == old(teams[i].players)
      requires forall k :: 0 <= k < |allPlayers| && k != pk ==> allPlayers[k].teamId == old(allPlayers[k].teamId)
      ensures Rosters() == old(Rosters())[ti := teams[ti].players]
      ensures Assignments() == old(Assignments())[pk := allPlayers[pk].teamId]
      ensures Registered()
    {
    }

    /** What the team's own addition promises, read at the level of the
        league: on success the player is appended to that roster and
        references that team, while on refusal nothing changed; the
        identity part of the invariant survives either way. */
    twostate lemma JoinFrames(new pid: int, new tid: int, new ok: bool)
      requires old(Registered()) && unchanged(this)
      requires 1 <= pid <= |allPlayers| && 1 <= tid <= |teams|
      requires ok <==> !old(teams[tid - 1].IsFull()) && !old(allPlayers[pid - 1].IsAssignedToTeam())
      requires ok ==>
        && teams[tid - 1].players == old(teams[tid - 1].players) + [allPlayers[pid - 1]]
        && allPlayers[pid - 1].teamId == teams[tid - 1].teamId
      requires !ok ==>
        && teams[tid - 1].players == old(teams[tid - 1].players)
        && allPlayers[pid - 1].teamId == old(allPlayers[pid - 1].teamId)
      requires forall i :: 0 <= i < |teams| && teams[i] != teams[tid - 1] ==> teams[i].players == old(teams[i].players)
      requires forall k :: 0 <= k < |allPlayers| && allPlayers[k] != allPlayers[pid - 1] ==>
        allPlayers[k].teamId == old(allPlayers[k].teamId)
      ensures Registered()
      ensures ok ==>
        && old(Assignments())[pid - 1] == Unassigned && |old(Rosters())[tid - 1]| < MaxPlayers
        && Rosters() == old(Rosters())[tid - 1 := old(Rosters())[tid - 1] + [allPlayers[pid - 1]]]
        && Assignments() == old(Assignments())[pid - 1 := tid]
      ensures !ok ==> Rosters() == old(Rosters()) && Assignments() == old(Assignments())
    {
      var ti, pk := tid - 1, pid - 1;
      forall i | 0 <= i < |teams| && i != ti ensures teams[i] != teams[ti] {
        assert teams[i].teamId != teams[ti].teamId;
      }
      forall k | 0 <= k < |allPlayers| && k != pk ensures allPlayers[k] != allPlayers[pk] {
        assert allPlayers[k].playerId != allPlayers[pk].playerId;
      }
      ViewsAfterUpdate(ti, pk);
      assert old(Rosters())[ti] == old(teams[ti].players);
      assert old(Assignments())[pk] == old(allPlayers[pk].teamId);
    }

    /** What the team's own removal promises, read at the level of the
        league: the player's entry was on that roster, so the removal
        succeeded; the player is now unassigned and only the roster of its
        old team lost its entry. */
    twostate lemma RemovalFrames(new id: int, new ti: nat, new team: Team, new ok: bool)
      requires old(Registered()) && unchanged(this)
      requires 1 <= id <= |allPlayers| && ti < |teams| && team == teams[ti] && old(allPlayers[id - 1].teamId) == ti + 1
      requires FirstWithId(old(team.players), id) < |old(team.players)|
      requires old(team.players)[FirstWithId(old(team.players), id)] == allPlayers[id - 1]
      requires ok <==> FirstWithId(old(team.players), id) < |old(team.players)|
      requires team.players == WithoutId(old(team.players), id)
      requires ok ==> old(team.players)[FirstWithId(old(team.players), id)].teamId == Unassigned
      requires forall q :: q in old(team.players) && (ok ==> q != old(team.players)[FirstWithId(old(team.players), id)]) ==>
        q.teamId == old(q.teamId)
      requires forall k :: 0 <= k < |allPlayers| && allPlayers[k] !in old(team.players) ==>
        allPlayers[k].teamId == old(allPlayers[k].teamId)
      requires forall i :: 0 <= i < |teams| && teams[i] != team ==> teams[i].players == old(teams[i].players)
      ensures ok && old(allPlayers[id - 1].IsAssignedToTeam()) && Registered()
      ensures Assignments() == old(Assignments())[id - 1 := Unassigned]
      ensures Rosters() == old(Rosters())[ti := WithoutId(old(Rosters())[ti], id)]
      ensures var t := old(allPlayers[id - 1].teamId) - 1;
        Rosters() == old(Rosters())[t := WithoutId(old(Rosters())[t], id)]
    {
      var q := allPlayers[id - 1];
      forall i | 0 <= i < |teams| && i != ti ensures teams[i].players == old(teams[i].players) {
        assert teams[i].teamId != teams[ti].teamId;
      }
      forall k | 0 <= k < |allPlayers| && k != id - 1 ensures allPlayers[k].teamId == old(allPlayers[k].teamId) {
        assert allPlayers[k].playerId != q.playerId;
      }
      ViewsAfterUpdate(ti, id - 1);
      assert old(Rosters())[ti] == old(teams[ti].players);
    }

    /** With the invariant, the first team matching a name ignoring case is the
        only one. */
    lemma NameMatchIsUnique(name: string, i: nat)
      requires Registered()
      requires i < |teams| && EqualsIgnoreCase(teams[i].teamName, name)
      ensures i == FirstTeamWithName(teams, name)
    {
    }

    /** Register a team. A name already taken, ignoring case, is refused and
        nothing changes, the team counter included; otherwise the new team
        takes the next team id and is appended. */
    method RegisterTeam(teamName: string, city: string) returns (t: Team?)
      requires Valid()
      modifies this
      ensures Valid()
      ensures allPlayers == old(allPlayers) && nextPlayerId == old(nextPlayerId)
      ensures t == null <==>
                exists i :: 0 <= i < |old(teams)| && EqualsIgnoreCase(old(teams)[i].teamName, teamName)
      ensures t == null ==> teams == old(teams) && nextTeamId == old(nextTeamId)
      ensures t != null ==>
        && fresh(t) && t.teamId == old(nextTeamId) && t.players == []
        && t.teamName == teamName && t.city == city
        && teams == old(teams) + [t] && nextTeamId == old(nextTeamId) + 1
    {
      for i := 0 to |teams|
        invariant forall j :: 0 <= j < i ==> !EqualsIgnoreCase(teams[j].teamName, teamName)
      {
        if EqualsIgnoreCase(teams[i].teamName, teamName) {
          return null;
        }
      }
      ghost var rosters := Rosters();
      t := new Team(nextTeamId, teamName, city);
      nextTeamId := nextTeamId + 1;
      teams := teams + [t];
      assert Rosters() == rosters + [[]];
      ConsistentAfterNewTeam(rosters, allPlayers, Assignments());
    }

    /** The first team with the given id, or null; changes nothing. */
    method FindTeamById(teamId: int) returns (t: Team?)
      ensures t == null <==> forall i :: 0 <= i < |teams| ==> teams[i].teamId != teamId
      ensures t != null ==> t == teams[FirstTeamWithId(teams, teamId)]
    {
      for i := 0 to |teams|
        invariant forall j :: 0 <= j < i ==> teams[j].teamId != teamId
      {
        if teams[i].teamId == teamId {
          return teams[i];
        }
      }
      return null;
    }

    /** The first team whose name equals the given one ignoring case, or null;
        changes nothing. */
    method FindTeamByName(teamName: string) returns (t: Team?)
      ensures t == null <==>
                forall i :: 0 <= i < |teams| ==> !EqualsIgnoreCase(teams[i].teamName, teamName)
      ensures t != null ==> t == teams[FirstTeamWithName(teams, teamName)]
    {
      for i := 0 to |teams|
        invariant forall j :: 0 <= j < i ==> !EqualsIgnoreCase(teams[j].teamName, teamName)
      {
        if EqualsIgnoreCase(teams[i].teamName, teamName) {
          return teams[i];
        }
      }
      return null;
    }

    /** Register a player. This always succeeds: the new player takes the next
        player id, is on no team and is appended. */
    method RegisterPlayer(firstName: string, surName: string, position: string) returns (p: Player)
      requires Valid()
      modifies this
      ensures Valid()
      ensures teams == old(teams) && nextTeamId == old(nextTeamId)
      ensures fresh(p) && p.playerId == old(nextPlayerId) && p.teamId == Unassigned
      ensures p.firstName == firstName && p.surName == surName && p.position == position
      ensures allPlayers == old(allPlayers) + [p] && nextPlayerId == old(nextPlayerId) + 1
    {
      ghost var asg := Assignments();
      assert forall k :: 0 <= k < |allPlayers| ==> allPlayers[k].playerId != nextPlayerId;
      p := new Player(nextPlayerId, firstName, surName, position);
      assert p !in allPlayers;
      ConsistentAfterNewPlayer(Rosters(), allPlayers, asg, p);
      nextPlayerId := nextPlayerId + 1;
      allPlayers := allPlayers + [p];
      assert Assignments() == asg + [Unassigned];
    }

    /** Put a registered player on a registered team. An unknown player or team
        is refused with nothing changed; otherwise the outcome is the team's
        AddPlayer: refused when the team is full or the player is already on a
        team, else the player is appended to that roster and takes its id. */
    method AssignPlayerToTeam(playerId: int, teamId: int) returns (ok: bool)
      requires Valid()
      modifies teams, allPlayers
      ensures Valid()
      ensures ok <==>
        && 1 <= playerId <= |allPlayers| && 1 <= teamId <= |teams|
        && !old(allPlayers[playerId - 1].IsAssignedToTeam())
        && !old(teams[teamId - 1].IsFull())
      ensures ok ==>
        && Rosters() == old(Rosters())[teamId - 1 := old(Rosters())[teamId - 1] + [allPlayers[playerId - 1]]]
        && Assignments() == old(Assignments())[playerId - 1 := teamId]
      ensures !ok ==> Rosters() == old(Rosters()) && Assignments() == old(Assignments())
    {
      PlayerIdIsPosition(playerId);
      TeamIdIsPosition(teamId);
      var player := FindPlayerById(playerId);
      var team := FindTeamById(teamId);
      if player == null || team == null {
        Untouched();
        return false;
      }
      assert team.Valid() by {
        assert Rosters()[teamId - 1] == team.players;
      }
      ok := team.AddPlayer(player);
      JoinFrames(playerId, teamId, ok);
      if ok {
        ValidAfterJoin(old(Rosters()), old(Assignments()), teamId - 1, playerId - 1);
      } else {
        ValidFromViews(old(Rosters()), old(Assignments()));
      }
    }

    /** Take a registered, assigned player off its team. An unknown or
        unassigned player is refused with nothing changed; otherwise the team
        named by the player's team reference removes it, keeping the rest of
        its roster in order, and the player becomes unassigned. */
    method RemovePlayerFromTeam(playerId: int) returns (ok: bool)
      requires Valid()
      modifies teams, allPlayers
      ensures Valid()
      ensures ok <==> 1 <= playerId <= |allPlayers| && old(allPlayers[playerId - 1].IsAssignedToTeam())
      ensures ok ==> Assignments() == old(Assignments())[playerId - 1 := Unassigned]
      ensures ok ==>
        var ti := old(allPlayers[playerId - 1].teamId) - 1;
        && 0 <= ti < |teams|
        && Rosters() == old(Rosters())[ti := WithoutId(old(Rosters())[ti], playerId)]
      ensures !ok ==> Rosters() == old(Rosters()) && Assignments() == old(Assignments())
    {
      PlayerIdIsPosition(playerId);
      var player := FindPlayerById(playerId);
      if player == null || !player.IsAssignedToTeam() {
        Untouched();
        return false;
      }
      AssignedTeamIsRegistered(playerId - 1);
      TeamIdIsPosition(player.teamId);
      var team := FindTeamById(player.teamId);
      ghost var ti := player.teamId - 1;
      assert ti == old(allPlayers[playerId - 1].teamId) - 1;
      ok := team.RemovePlayer(playerId);
      RemovalFrames(playerId, ti, team, ok);
      ValidAfterRemoval(old(Rosters()), old(Assignments()), playerId, ti);
    }

    /** Under the invariant, an assigned player's team reference names a
        registered team, whose roster is within bounds, holds only registered
        players, and has that player as its first entry with the player's id. */
    lemma AssignedTeamIsRegistered(pk: nat)
      requires Valid() && pk < |allPlayers| && allPlayers[pk].teamId != Unassigned
      ensures var ti := allPlayers[pk].teamId - 1;
        && 0 <= ti < |teams| && teams[ti].teamId == ti + 1
        && teams[ti].Valid() && (forall q :: q in teams[ti].players ==> q in allPlayers)
        && FirstWithId(teams[ti].players, pk + 1) < |teams[ti].players|
        && teams[ti].players[FirstWithId(teams[ti].players, pk + 1)] == allPlayers[pk]
    {
      assert Assignments()[pk] == allPlayers[pk].teamId;
      assert Rosters()[allPlayers[pk].teamId - 1] == teams[allPlayers[pk].teamId - 1].players;
      RemovalEntry(Rosters(), allPlayers, Assignments(), pk);
    }

    /** The first registered player with the given id, or null; changes nothing. */
    method FindPlayerById(playerId: int) returns (p: Player?)
      ensures p == null <==> forall k :: 0 <= k < |allPlayers| ==> allPlayers[k].playerId != playerId
      ensures p != null ==> p == allPlayers[FirstWithId(allPlayers, playerId)]
    {
      for k := 0 to |allPlayers|
        invariant forall j :: 0 <= j < k ==> allPlayers[j].playerId != playerId
      {
        if allPlayers[k].playerId == playerId {
          return allPlayers[k];
        }
      }
      return null;
    }

    /** The players whose first name or surname contains the term, ignoring
        case, in registration order; changes nothing. */
    method SearchPlayersByName(name: string) returns (results: seq<Player>)
      ensures results == MatchingPlayers(allPlayers, Lower(name))
    {
      results := [];
      var searchTerm := Lower(name);
      for k := 0 to |allPlayers|
        invariant results == MatchingPlayers(allPlayers[..k], searchTerm)
      {
        var player := allPlayers[k];
        assert allPlayers[..k + 1][..k] == allPlayers[..k];
        if Contains(Lower(player.firstName), searchTerm) || Contains(Lower(player.surName), searchTerm) {
          results := results + [player];
        }
      }
      assert allPlayers[..|allPlayers|] == allPlayers;
    }

    /** The players on no team, in registration order; changes nothing. */
    method GetUnassignedPlayers() returns (unassigned: seq<Player>)
      ensures unassigned == UnassignedOf(allPlayers)
    {
      unassigned := [];
      for k := 0 to |allPlayers|
        invariant unassigned == UnassignedOf(allPlayers[..k])
      {
        var player := allPlayers[k];
        assert allPlayers[..k + 1][..k] == allPlayers[..k];
        if !player.IsAssignedToTeam() {
          unassigned := unassigned + [player];
        }
      }
      assert allPlayers[..|allPlayers|] == allPlayers;
    }

    /** How many registered teams there are: under the invariant, the number
        of team ids handed out. */
    function GetTotalTeams(): (n: nat)
      reads this
      ensures n == |teams|
      ensures Valid() ==> n == nextTeamId - 1
    {
      |teams|
    }

    /** How many registered players there are: under the invariant, the number
        of player ids handed out. */
    function GetTotalPlayers(): (n: nat)
      reads this
      ensures n == |allPlayers|
      ensures Valid() ==> n == nextPlayerId - 1
    {
      |allPlayers|
    }

    /** How many registered players are on a team; changes nothing. */
    method GetAssignedPlayers() returns (count: nat)
      ensures count == AssignedCount(allPlayers)
    {
      count := 0;
      for k := 0 to |allPlayers|
        invariant count == AssignedCount(allPlayers[..k])
      {
        assert allPlayers[..k + 1][..k] == allPlayers[..k];
        if allPlayers[k].IsAssignedToTeam() {
          count := count + 1;
        }
      }
      assert allPlayers[..|allPlayers|] == allPlayers;
    }

    /** A snapshot of the teams, in registration order. */
    method GetAllTeams() returns (r: seq<Team>)
      ensures r == teams
    {
      r := teams;
    }

    /** A snapshot of the players, in registration order. */
    method GetAllPlayers() returns (r: seq<Player>)
      ensures r == allPlayers
    {
      r := allPlayers;
    }
  }
}
