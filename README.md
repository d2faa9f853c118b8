# Sports league registry: a Dafny model

This project models the domain layer of an in-memory sports-league registry and proves
properties of it. The layer has three classes:

- A **player** has a fixed id, first name, surname and position. It also has one mutable
  team reference, whose value `-1` (`Players.Unassigned`) means "on no team".
- A **team** has a fixed id, name and city. It also has a roster that holds at most
  15 players (`Teams.MaxPlayers`), kept in joining order.
- The **league manager** owns every registered team and player, in registration order. It
  also owns two id counters that start at 1.
  - Team names are unique, ignoring case.
  - Lookups return the first match.
  - Assigning and removing delegate to the team.
  - It answers name searches, the unassigned list and the assigned count.

The model keeps the source's imperative form. `Player`, `Team` and `LeagueManager` are
classes whose fields the methods update in place. A roster is a `seq<Player>` field of its
team. Adding or removing a roster entry also writes the player's `teamId` through the
shared object, just as the source does.

The registry invariant is `League.LeagueManager.Valid()`. It has two parts:

- `Registered()`: the n-th team and the n-th player carry id n, each counter is one past
  its list's length, and team names differ ignoring case.
- `Consistent(Rosters(), allPlayers, Assignments())`:
  - every roster stays within capacity, has no repeats and holds only registered players;
  - every team reference is `-1` or a registered team's id;
  - a player references a team exactly when that team's roster holds the player.

`Rosters()` and `Assignments()` are views of the heap as values: the list of every team's
roster, and the list of every player's team reference. `AssignPlayerToTeam` and `RemovePlayerFromTeam`
state their whole effect on those two views, and the value lemmas in `League` prove that
each such effect preserves `Consistent`. `RegisterTeam` and `RegisterPlayer` state their
effect on the team and player lists and on the id counters.

Character handling is ASCII. `Text.ToLower` folds `A`–`Z` only, and `Text.EqualsIgnoreCase`
compares lower-cased strings. `Text.Contains` is a left-to-right substring test, and it is
proved equal to "occurs at some position".

## Model

| member | source | states |
|---|---|---|
| Players.Player.constructor | src/main/java/com/sportsleague/Player.java:10-16 | a new player keeps the given id and names and starts unassigned (team id -1, not assigned) |
| Players.Player.IsAssignedToTeam | src/main/java/com/sportsleague/Player.java:43-45 | a player is assigned exactly when its team id is not -1 |
| Players.Player.SetTeamId | src/main/java/com/sportsleague/Player.java:39-45 | afterwards the team id is the argument, the player is assigned exactly when it is not -1, and only the team id may change |
| Teams.FirstWithId | src/main/java/com/sportsleague/Team.java:47-54 | the position of the first player with the id (earlier ones all differ), or the length when none matches |
| Teams.WithoutId | src/main/java/com/sportsleague/Team.java:35-41 | dropping the first entry with the id shortens the list by one exactly when such an entry exists, and adds nobody |
| Teams.WithoutIdSplices | src/main/java/com/sportsleague/Team.java:36-39 | dropping the first entry with the id is cutting the list at the first match, keeping the others in order |
| Teams.RemoveAtDistinct | src/main/java/com/sportsleague/Team.java:39 | removing one entry from a list without repeats keeps it without repeats, drops that player and keeps every other |
| Teams.Team.constructor | src/main/java/com/sportsleague/Team.java:13-18 | a new team keeps its id, name and city and has an empty roster that is within capacity and not full |
| Teams.Team.AddPlayer | src/main/java/com/sportsleague/Team.java:20-31 | succeeds exactly when the team is not full and the player is on no team; on success the player is appended and takes the team id, on refusal roster and player are unchanged; capacity is kept |
| Teams.Team.RemovePlayer | src/main/java/com/sportsleague/Team.java:33-45 | succeeds exactly when an entry has the id; the roster loses its first such entry, in order; that player becomes unassigned and every other player's team id is unchanged; a refusal leaves the roster as it was |
| Teams.Team.FindPlayer | src/main/java/com/sportsleague/Team.java:47-54 | null exactly when no roster player has the id, otherwise the first roster player with it |
| Teams.Team.GetRoster | src/main/java/com/sportsleague/Team.java:56-58 | a snapshot with the roster's players in the roster's order |
| Teams.Team.GetPlayerCount | src/main/java/com/sportsleague/Team.java:73-75 | the roster size, at most 15 under the capacity bound |
| Teams.Team.IsFull | src/main/java/com/sportsleague/Team.java:77-79 | under the capacity bound, full exactly when the roster holds 15 players |
| Text.EqualsIgnoreCaseCharwise | src/main/java/com/sportsleague/LeagueManager.java:21 | equality ignoring case is same length and position-by-position equal lower-cased characters |
| Text.LowerIdempotent | src/main/java/com/sportsleague/LeagueManager.java:90 | lower-casing twice is lower-casing once |
| Text.ContainsIffOccurs | src/main/java/com/sportsleague/LeagueManager.java:93-94 | the substring test holds exactly when the term occurs at some position |
| Text.EmptyIsContained | src/main/java/com/sportsleague/LeagueManager.java:93-94 | the empty term is contained in every string |
| League.FirstTeamWithId | src/main/java/com/sportsleague/LeagueManager.java:31-38 | the position of the first team with the id, or the length when none has it |
| League.FirstTeamWithName | src/main/java/com/sportsleague/LeagueManager.java:40-47 | the position of the first team whose name equals the given one ignoring case, or the length when none does |
| League.UnassignedOfMembers | src/main/java/com/sportsleague/LeagueManager.java:101-109 | a player is in the unassigned list exactly when it is registered and on no team |
| League.AssignedPlusUnassigned | src/main/java/com/sportsleague/LeagueManager.java:101-127 | the assigned count plus the length of the unassigned list is the number of players |
| League.MatchesName | src/main/java/com/sportsleague/LeagueManager.java:93-94 | a player matches exactly when the term occurs at some position of its lower-cased first name or of its lower-cased surname |
| League.SearchIgnoresTermCase | src/main/java/com/sportsleague/LeagueManager.java:90-94 | since the term is lower-cased first, a term already lower-cased and any term equal to it ignoring case find the same players |
| League.MatchingPlayersMembers | src/main/java/com/sportsleague/LeagueManager.java:88-99 | a player is a search result exactly when it is registered and its lower-cased first name or surname contains the term |
| League.EmptyTermMatchesAll | src/main/java/com/sportsleague/LeagueManager.java:88-99 | searching for the empty term returns every player in registration order |
| League.OnExactlyOneRoster | src/main/java/com/sportsleague/LeagueManager.java:66-77 | under the invariant an assigned player is on exactly one roster, the one its reference names, and an unassigned one is on none |
| League.ConsistentAfterNewTeam | src/main/java/com/sportsleague/LeagueManager.java:26-27 | appending a team with an empty roster keeps roster and reference agreement |
| League.ConsistentAfterNewPlayer | src/main/java/com/sportsleague/LeagueManager.java:50-51 | appending a new unassigned player keeps the agreement |
| League.ConsistentAfterJoin | src/main/java/com/sportsleague/Team.java:28-29 | appending an unassigned player to a roster below capacity and pointing it at that team keeps the agreement |
| League.ConsistentAfterLeave | src/main/java/com/sportsleague/Team.java:39-40 | cutting an assigned player out of its team's roster and resetting its reference keeps the agreement |
| League.RemovalEntry | src/main/java/com/sportsleague/LeagueManager.java:72-74 | under the invariant an assigned player is the first entry with its id on the roster its reference names |
| League.ConsistentAfterRemoval | src/main/java/com/sportsleague/LeagueManager.java:66-77 | removing an assigned player's first id match from its team's roster and unassigning it keeps the agreement |
| League.LeagueManager.ValidAfterJoin | src/main/java/com/sportsleague/LeagueManager.java:55-64 | views that are a consistent registry with one unassigned player appended to a roster with room satisfy the invariant |
| League.LeagueManager.ValidAfterRemoval | src/main/java/com/sportsleague/LeagueManager.java:66-77 | views that are a consistent registry with one assigned player removed from its team and unassigned satisfy the invariant |
| League.LeagueManager.constructor | src/main/java/com/sportsleague/LeagueManager.java:12-17 | an empty league with both counters at 1 satisfies the invariant |
| League.LeagueManager.PlayerIdIsPosition | src/main/java/com/sportsleague/LeagueManager.java:79-86 | with counter-issued ids the first player with id n is the n-th one, and ids outside 1..count find nobody |
| League.LeagueManager.TeamIdIsPosition | src/main/java/com/sportsleague/LeagueManager.java:31-38 | with counter-issued ids the first team with id n is the n-th one, and ids outside 1..count find nothing |
| League.LeagueManager.PlayersDistinct | src/main/java/com/sportsleague/LeagueManager.java:49-53 | players with counter-issued ids are distinct objects |
| League.LeagueManager.RosterEntryWithId | src/main/java/com/sportsleague/Team.java:33-45 | a roster entry with an id exists exactly when the player with that id references the team, and it is that player |
| League.LeagueManager.PlayerTeamAgreement | src/main/java/com/sportsleague/LeagueManager.java:55-77 | under the invariant a player's team id equals a team's id exactly when that team's roster holds the player, and no roster exceeds 15 |
| League.LeagueManager.JoinFrames | src/main/java/com/sportsleague/LeagueManager.java:63 | the team's own addition, read as views: on success one roster gains the player and one reference names the team, on refusal both views are unchanged |
| League.LeagueManager.RemovalFrames | src/main/java/com/sportsleague/LeagueManager.java:72-74 | the team's own removal, read as views: it succeeds, the player becomes unassigned and only its team's roster loses its first id match |
| League.LeagueManager.AssignedTeamIsRegistered | src/main/java/com/sportsleague/LeagueManager.java:72-73 | under the invariant an assigned player's reference names a registered team whose roster holds that player as its first entry with the id |
| League.LeagueManager.NameMatchIsUnique | src/main/java/com/sportsleague/LeagueManager.java:40-47 | with unique names ignoring case, any team matching a name is the first match |
| League.LeagueManager.RegisterTeam | src/main/java/com/sportsleague/LeagueManager.java:19-29 | refused exactly when an existing name equals the new one ignoring case, with teams and counter unchanged; otherwise the new team gets the counter's value as id and an empty roster, is appended, and the counter moves on; the invariant is kept |
| League.LeagueManager.FindTeamById | src/main/java/com/sportsleague/LeagueManager.java:31-38 | null exactly when no team has the id, otherwise the first team with it |
| League.LeagueManager.FindTeamByName | src/main/java/com/sportsleague/LeagueManager.java:40-47 | null exactly when no name equals it ignoring case, otherwise the first such team |
| League.LeagueManager.RegisterPlayer | src/main/java/com/sportsleague/LeagueManager.java:49-53 | always succeeds; the new player gets the counter's value as id, is unassigned and appended, and the counter moves on; the invariant is kept |
| League.LeagueManager.AssignPlayerToTeam | src/main/java/com/sportsleague/LeagueManager.java:55-64 | succeeds exactly when both ids are registered, the player is on no team and the team is not full; on success the player is appended to that roster and references that team, otherwise both views are unchanged; the invariant is kept |
| League.LeagueManager.RemovePlayerFromTeam | src/main/java/com/sportsleague/LeagueManager.java:66-77 | succeeds exactly when the id is registered and that player is assigned; on success the player is unassigned and only its team's roster loses it, in order; otherwise both views are unchanged; the invariant is kept |
| League.LeagueManager.FindPlayerById | src/main/java/com/sportsleague/LeagueManager.java:79-86 | null exactly when no player has the id, otherwise the first player with it |
| League.LeagueManager.SearchPlayersByName | src/main/java/com/sportsleague/LeagueManager.java:88-99 | the players whose lower-cased first name or surname contains the lower-cased term, in registration order |
| League.LeagueManager.GetUnassignedPlayers | src/main/java/com/sportsleague/LeagueManager.java:101-109 | the players on no team, in registration order |
| League.LeagueManager.GetTotalTeams | src/main/java/com/sportsleague/LeagueManager.java:111-113 | the number of teams, which under the invariant is the number of team ids handed out |
| League.LeagueManager.GetTotalPlayers | src/main/java/com/sportsleague/LeagueManager.java:115-117 | the number of players, which under the invariant is the number of player ids handed out |
| League.LeagueManager.GetAssignedPlayers | src/main/java/com/sportsleague/LeagueManager.java:119-127 | the number of players on a team |
| League.LeagueManager.GetAllTeams | src/main/java/com/sportsleague/LeagueManager.java:129-131 | a snapshot of the teams in registration order |
| League.LeagueManager.GetAllPlayers | src/main/java/com/sportsleague/LeagueManager.java:133-135 | a snapshot of the players in registration order |

## Left out

- `LeagueManagerCLI.java`: a console shell that reads input and prints menus. It is not part of this model.
- `toString` in `Team.java` and `Player.java`: display formatting only.
- The getters (`getTeamId`, `getTeamName`, `getCity`, `getPlayerId`, `getFirstName`, `getSurname`, `getPosition`) are plain field reads. Identity and names are `const` fields, so nothing can change them.
- Case folding and substring search are ASCII only. Java's `toLowerCase` and `equalsIgnoreCase` are not modelled for other characters.
- The id counters are unbounded integers. Java's `int` overflow after 2^31 - 1 registrations, and the repeated or negative ids it would produce, are not modelled.
- The `team == null` fallback in `removePlayerFromTeam` (`LeagueManager.java:76`) is not a branch of the model. `RemovePlayerFromTeam` proves that, under the invariant, the team named by an assigned player's reference exists.
- `Teams.Team.AddPlayer` and `Teams.Team.RemovePlayer` require the team's capacity bound. On a roster that is already over capacity their behaviour is not modelled. Teams built by the league never get there.
- The league methods that change state require the registry invariant. The constructor establishes it and every such method keeps it.
- The JUnit tests are not modelled as code.
