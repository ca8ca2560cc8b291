/**
  The data shapes the client receives from the game server: the status of a game,
  the two player identities, one guess of the history, and a full game snapshot.
 */
module GameApi {
  import opened Wrappers

  /** `in_progress | completed | cancelled` */
  datatype Status = InProgress | Completed | Cancelled

  /** `player_1 | player_2`; in Player-vs-AI mode player 1 is the human. */
  datatype Player = Player1 | Player2

  /** One entry of a game's history. `feedback` is opaque to the client. */
  datatype Guess = Guess(
    code: string,
    feedback: string,
    comments: Option<string>,
    player: Player)

  /** One complete snapshot of a game as the server sends it. */
  datatype GameState = GameState(
    gameId: string,
    player1SecretCode: string,
    player2SecretCode: string,
    history: seq<Guess>,
    status: Status,
    waitingForPlayer: Player,
    winner: Option<Player>)
}
