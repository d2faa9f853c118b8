/** A registered player: an immutable identity and names, and one mutable
    reference to the team whose roster currently holds the player. */
module Players {

  /** The team id a player carries while on no roster. */
  const Unassigned: int := -1

  class Player {
    const playerId: int
    const firstName: string
    const surName: string
    const position: string
    /** The id of the player's team, or Unassigned. */
    var teamId: int

    /** A new player keeps the given identity and names and is on no team. */
    constructor (playerId: int, firstName: string, surName: string, position: string)
      ensures this.playerId == playerId && this.firstName == firstName
      ensures this.surName == surName && this.position == position
      ensures teamId == Unassigned && !IsAssignedToTeam()
    {
      this.playerId := playerId;
      this.firstName := firstName;
      this.surName := surName;
      this.position := position;
      teamId := Unassigned;
    }

    /** Derived from the team reference: assigned means not the sentinel. */
    predicate IsAssignedToTeam(): (onTeam: bool)
      reads this
      ensures onTeam <==> teamId != -1
    {
      teamId != Unassigned
    }

    /** Overwrite the team reference; identity and names are constants and
        the frame lets nothing else change. */
    method SetTeamId(teamId: int)
      modifies this`teamId
      ensures this.teamId == teamId
      ensures IsAssignedToTeam() <==> teamId != Unassigned
    {
      this.teamId := teamId;
    }
  }
}
