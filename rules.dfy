/**
 * The round decision of `GameServer.DetermineWinner`: a fixed table over the two
 * recorded choices, identical in the Server and ControlPanel copies. A choice is
 * whatever text the client sent (it is never validated), or absent.
 */
module Rules {
  import opened Wrappers
  import Protocol

  /** The outcome for the first and the second player of a round. */
  datatype Verdict = Draw | FirstWins | SecondWins

  /** The three move strings of the game. */
  predicate IsMove(s: string) {
    s == "Rock" || s == "Paper" || s == "Scissors"
  }

  /** The three cases the server tests for "the first choice beats the second". */
  predicate Beats(c1: Option<string>, c2: Option<string>) {
    (c1 == Some("Rock") && c2 == Some("Scissors")) ||
    (c1 == Some("Paper") && c2 == Some("Rock")) ||
    (c1 == Some("Scissors") && c2 == Some("Paper"))
  }

  /** Equal choices draw; a beats-case awards the first player; anything else the second. */
  function Decide(c1: Option<string>, c2: Option<string>): Verdict {
    if c1 == c2 then Draw
    else if Beats(c1, c2) then FirstWins
    else SecondWins
  }

  /** The text a choice contributes to a message: C# interpolates null as "". */
  function Text(c: Option<string>): string {
    c.GetOr("")
  }

  /** The messages sent to the first and to the second player. */
  function ResultTexts(c1: Option<string>, c2: Option<string>): (string, string) {
    match Decide(c1, c2)
    case Draw => (Protocol.Draw, Protocol.Draw)
    case FirstWins => (Protocol.Win(Text(c1), Text(c2)), Protocol.Lose(Text(c1), Text(c2)))
    case SecondWins => (Protocol.Lose(Text(c2), Text(c1)), Protocol.Win(Text(c2), Text(c1)))
  }

  /** Swaps the roles of the two players. */
  function Flip(v: Verdict): Verdict {
    match v
    case Draw => Draw
    case FirstWins => SecondWins
    case SecondWins => FirstWins
  }

  // An independent statement of the game's rule: moves sit on a cycle
  // Rock -> Paper -> Scissors -> Rock, and each move beats the one before it.

  function Rank(m: string): (r: nat)
    requires IsMove(m)
    ensures r < 3
  {
    if m == "Rock" then 0 else if m == "Paper" then 1 else 2
  }

  function Reference(a: string, b: string): Verdict
    requires IsMove(a) && IsMove(b)
  {
    if Rank(a) == Rank(b) then Draw
    else if (Rank(a) - Rank(b) + 3) % 3 == 1 then FirstWins
    else SecondWins
  }

  /** Over the nine pairs of moves the server's table is the rule of the game. */
  lemma DecideIsTheGame(a: string, b: string)
    requires IsMove(a) && IsMove(b)
    ensures Decide(Some(a), Some(b)) == Reference(a, b)
  {
  }

  /** Over moves, swapping the players swaps WIN and LOSE and keeps DRAW. */
  lemma DecideSwaps(a: string, b: string)
    requires IsMove(a) && IsMove(b)
    ensures Decide(Some(b), Some(a)) == Flip(Decide(Some(a), Some(b)))
  {
    DecideIsTheGame(a, b);
    DecideIsTheGame(b, a);
  }

  /**
   * Unequal choices of which at least one is not a move always award the
   * second player, so for such text the outcome depends on the players' order.
   */
  lemma UnrecognisedFavoursSecond(c1: Option<string>, c2: Option<string>)
    requires c1 != c2
    requires !(c1.Some? && IsMove(c1.value)) || !(c2.Some? && IsMove(c2.value))
    ensures Decide(c1, c2) == SecondWins && Decide(c2, c1) == SecondWins
  {
  }

  /**
   * The messages of a round between two moves: both are told DRAW on equal
   * moves; otherwise the winner by the game's rule is told WIN and the loser
   * LOSE, both naming the winning move first.
   */
  lemma ResultTextsMeaning(a: string, b: string)
    requires IsMove(a) && IsMove(b)
    ensures var t := ResultTexts(Some(a), Some(b));
      match Reference(a, b)
      case Draw => t == (Protocol.Draw, Protocol.Draw)
      case FirstWins => t == (Protocol.Win(a, b), Protocol.Lose(a, b))
      case SecondWins => t == (Protocol.Lose(b, a), Protocol.Win(b, a))
  {
    DecideIsTheGame(a, b);
  }

  /** Over moves, the message a player receives does not depend on which of the two is listed first. */
  lemma ResultTextsSwap(a: string, b: string)
    requires IsMove(a) && IsMove(b)
    ensures ResultTexts(Some(b), Some(a)) == (ResultTexts(Some(a), Some(b)).1, ResultTexts(Some(a), Some(b)).0)
  {
    DecideSwaps(a, b);
  }
}
