/**
 * The texts the game server writes to a player's stream. Every message but the
 * welcome text has the form `COMMAND|payload`. Both server copies (Server and
 * ControlPanel) use exactly these strings.
 */
module Protocol {

  /** The `COMMAND|payload` form of server messages. */
  function Encode(command: string, payload: string): string {
    command + "|" + payload
  }

  /** Sent once to a player right after registration; it holds no `|` unless the name does. */
  function Welcome(name: string): string {
    "Welcome, " + name + "! Waiting for opponent..."
  }

  /** Sent to each of a newly paired couple, naming the other one. */
  function Matched(opponent: string): string {
    Encode("MATCHED", "Game started! Your opponent is " + opponent)
  }

  /** The prompt for a move. */
  const Choose: string := Encode("CHOOSE", "Rock, Paper, or Scissors?")

  /** Sent to both players of a drawn round. */
  const Draw: string := Encode("DRAW", "It's a draw!")

  /** Sent to the winner of a round. */
  function Win(winner: string, loser: string): string {
    Encode("WIN", "You win! " + winner + " beats " + loser)
  }

  /** Sent to the loser of a round; it still names the winning move first. */
  function Lose(winner: string, loser: string): string {
    Encode("LOSE", "You lose! " + winner + " beats " + loser)
  }

  /** Sent to the player left behind when its opponent's connection ends. */
  const OpponentDisconnected: string := Encode("OPPONENT_DISCONNECTED", "Your opponent has disconnected.")
}
