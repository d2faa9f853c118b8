/** A team: an immutable identity and names, and a roster of at most
    MaxPlayers players kept in the order they joined. */
module Teams {
  import opened Players

  /** The roster capacity. */
  const MaxPlayers: nat := 15

  /** The position of the first player in ps whose id is id, or |ps| when no
      player has that id. */
  function FirstWithId(ps: seq<Player>, id: int): (r: nat)
    ensures r <= |ps|
    ensures r < |ps| ==> ps[r].playerId == id
    ensures forall j :: 0 <= j < r ==> ps[j].playerId != id
  {
    if ps == [] then 0
    else if ps[0].playerId == id then 0
    else 1 + FirstWithId(ps[1..], id)
  }

  /** ps without its first entry whose id is id, or ps itself when no entry
      has that id. */
  function WithoutId(ps: seq<Player>, id: int): (r: seq<Player>)
    ensures |r| == if FirstWithId(ps, id) < |ps| then |ps| - 1 else |ps|
    ensures forall q :: q in r ==> q in ps
  {
    if ps == [] then []
    else if ps[0].playerId == id then ps[1..]
    else [ps[0]] + WithoutId(ps[1..], id)
  }

  /** Dropping the first entry with an id is cutting the list at the position
      FirstWithId finds. */
  lemma {:induction false} WithoutIdSplices(ps: seq<Player>, id: int)
    ensures var i := FirstWithId(ps, id);
      WithoutId(ps, id) == if i < |ps| then ps[..i] + ps[i + 1..] else ps
  {
    if ps != [] && ps[0].playerId != id {
      WithoutIdSplices(ps[1..], id);
      var i := FirstWithId(ps[1..], id);
      if i < |ps[1..]| {
        assert ps[..i + 1] == [ps[0]] + ps[1..][..i];
        assert ps[i + 2..] == ps[1..][i + 1..];
      } else {
        assert ps == [ps[0]] + ps[1..];
      }
    }
  }

  /** No player object occurs twice in ps. */
  ghost predicate Distinct(ps: seq<Player>)
  {
    forall i, j :: 0 <= i < j < |ps| ==> ps[i] != ps[j]
  }

  /** Dropping one entry from a list without repeats leaves a list without
      repeats that no longer holds the dropped player and still holds every
      other one. */
  lemma RemoveAtDistinct(ps: seq<Player>, i: nat)
    requires Distinct(ps) && i < |ps|
    ensures Distinct(ps[..i] + ps[i + 1..])
    ensures ps[i] !in ps[..i] + ps[i + 1..]
    ensures forall q :: q in ps && q != ps[i] ==> q in ps[..i] + ps[i + 1..]
  {
    var rest := ps[..i] + ps[i + 1..];
    assert forall k :: 0 <= k < |rest| ==> rest[k] == ps[if k < i then k else k + 1];
    forall q | q in ps && q != ps[i] ensures q in rest {
      var k :| 0 <= k < |ps| && ps[k] == q;
      assert rest[if k < i then k else k - 1] == q;
    }
  }

  class Team {
    const teamId: int
    const teamName: string
    const city: string
    /** The roster, in joining order. */
    var players: seq<Player>

    /** The capacity bound, the one roster property a team keeps on its own. */
    ghost predicate Valid()
      reads this
    {
      |players| <= MaxPlayers
    }

    /** A new team keeps the given identity and names and has an empty roster. */
    constructor (teamId: int, teamName: string, city: string)
      ensures this.teamId == teamId && this.teamName == teamName && this.city == city
      ensures players == [] && Valid() && !IsFull()
    {
      this.teamId := teamId;
      this.teamName := teamName;
      this.city := city;
      players := [];
    }

    /** Join a player to the roster. A full roster or a player already on some
        team (this one included) is refused and nothing changes; otherwise the
        player is appended and takes this team's id. */
    method AddPlayer(player: Player) returns (ok: bool)
      requires Valid()
      modifies this`players, player`teamId
      ensures Valid()
      ensures ok <==> !old(IsFull()) && !old(player.IsAssignedToTeam())
      ensures ok ==> players == old(players) + [player] && player.teamId == teamId
      ensures !ok ==> players == old(players) && player.teamId == old(player.teamId)
    {
      if |players| >= MaxPlayers {
        return false;
      }
      if player.IsAssignedToTeam() {
        return false;
      }
      players := players + [player];
      player.SetTeamId(teamId);
      return true;
    }

    /** Take the first roster entry with the given player id off the roster,
        keeping the others in order, and mark that player unassigned. With no
        such entry nothing changes. */
    method RemovePlayer(playerId: int) returns (ok: bool)
      requires Valid()
      modifies this`players, set q | q in players
      ensures Valid()
      ensures ok <==> FirstWithId(old(players), playerId) < |old(players)|
      ensures players == WithoutId(old(players), playerId)
      ensures !ok ==> players == old(players)
      ensures ok ==> old(players)[FirstWithId(old(players), playerId)].teamId == Unassigned
      ensures forall q :: q in old(players) && (ok ==> q != old(players)[FirstWithId(old(players), playerId)]) ==>
        q.teamId == old(q.teamId)
    {
      for i := 0 to |players|
        invariant players == old(players)
        invariant forall q :: q in old(players) ==> q.teamId == old(q.teamId)
        invariant forall j :: 0 <= j < i ==> players[j].playerId != playerId
      {
        if players[i].playerId == playerId {
          WithoutIdSplices(players, playerId);
          var removed := players[i];
          players := players[..i] + players[i + 1..];
          removed.SetTeamId(Unassigned);
          return true;
        }
      }
      WithoutIdSplices(players, playerId);
      return false;
    }

    /** The first roster player with the given id, or null; changes nothing. */
    method FindPlayer(playerId: int) returns (p: Player?)
      ensures p == null <==> forall q :: q in players ==> q.playerId != playerId
      ensures p != null ==> p == players[FirstWithId(players, playerId)]
    {
      for i := 0 to |players|
        invariant forall j :: 0 <= j < i ==> players[j].playerId != playerId
      {
        if players[i].playerId == playerId {
          return players[i];
        }
      }
      return null;
    }

    /** A snapshot of the roster: same players, same order. */
    method GetRoster() returns (roster: seq<Player>)
      ensures roster == players
    {
      roster := players;
    }

    /** The roster size, which the capacity bound keeps at most MaxPlayers. */
    function GetPlayerCount(): (n: nat)
      reads this
      ensures n == |players|
      ensures Valid() ==> n <= MaxPlayers
    {
      |players|
    }

    /** Full means the roster has reached the capacity; under the capacity
        bound that is exactly MaxPlayers players. */
    function IsFull(): (full: bool)
      reads this
      ensures Valid() ==> (full <==> |players| == MaxPlayers)
    {
      |players| >= MaxPlayers
    }
  }
}
