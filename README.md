# Rock-paper-scissors game server: the player registry

The game server keeps a list of connected players in arrival order and a game-id
counter. It pairs the first two waiting players into a game, records each move a
player sends, resolves a round once both players of a game have chosen, and
sends the survivor of a game back to the lobby when its opponent's connection
ends. The `GameServer` class exists twice: one copy in the Server project and
one in the ControlPanel project. In the ControlPanel copy, `DetermineWinner` has
no null guard and sends both players a fresh `CHOOSE` prompt after their results.
The Server copy has the guard and sends no prompt. Every change to the list
happens under one lock, so each locked block is modelled as one atomic step.

The project has these modules:

- `Registry` (registry.dfy) holds the `Player` record, the list scans and the
  steps of the registry. Each step is a function from one `ServerState` to the
  next. It also holds the registry invariant `Inv`.
  - A player object becomes a unique `Handle`.
  - A C# `null` choice becomes `None`.
  - Each `SendMessage` becomes an entry appended to an outbox of `Send(handle, text)`.
  - A `Copy` parameter selects the Server or the ControlPanel behaviour of
    `DetermineWinner`.
- `RegistryLemmas` (registry_lemmas.dfy) proves that every step keeps `Inv`. It
  also proves what each step does: FIFO pairing with a fresh id, resolution
  only of a complete pair, and disconnection that resets exactly the opponent.
- `Server` and `ControlPanel` (server.dfy, controlpanel.dfy) each hold a
  `class GameServer` with the source's fields. These are `players` as a
  sequence, `gameIdCounter`, the outbox, and the next handle to hand out. Each
  method's postcondition states the new state as the registry step of the old
  one, and each method keeps `Valid()`. The LINQ scans `Where` and
  `FirstOrDefault`, and the search `List.Remove` makes, run as loops
  (`SelectGame`, `SearchOpponent`, `LocatePlayer`) proved equal to the scan
  functions.
- `Rules` (rules.dfy) holds the decision table of `DetermineWinner`. It is
  proved equal to an independent cyclic statement of the game over the three
  moves.
- `Protocol` (protocol.dfy) holds the message texts the server sends.
- `Client` (client.dfy) holds the client's `Split('|')` decoder, its name check
  and its move buttons. They are proved to pair with the server's
  `COMMAND|payload` texts.
- `Findings` (findings.dfy) holds the lobby-round defect, as written and as
  intended.

The code differs from what a reader of the protocol might expect:

- A message without `|` is not a protocol error. The client decodes it as a
  command with empty content (`Client.DecodeWithoutPipe`). The welcome text is
  such a message.
- A move from a player in the lobby is not rejected. It is recorded, and
  `CheckGameStatus(0)` may resolve it (see "## Findings").
- Move text is never validated. Unequal text that is not a move always awards
  the second player of the list (`Rules.UnrecognisedFavoursSecond`).
- The server accepts any non-empty first message as a name, including text that
  is all white space. A read of zero bytes ends the connection instead, so an
  empty name never registers. Only the client checks the name. `Join` and
  `SubmitMove` of both classes also accept `""`, which the source never passes.
- Only the ControlPanel copy prompts `CHOOSE` again after a round.

## Model

| member | source | states |
|---|---|---|
| Registry.GameIndices | Server/Program.cs:109 | `players.Where(p => p.GameId == id)` as positions: exactly the positions holding `id`, in increasing list order |
| Registry.PositionOf | Server/Program.cs:93 | the position `List.Remove` finds: the first player with the handle, or none when no player has it |
| Registry.FindOpponent | Server/Program.cs:178 | the `FirstOrDefault` opponent: the first player of the game other than the one gone, or none when there is no such player |
| Registry.SelectGame | Server/Program.cs:131 | the `Where` loop returns exactly `GameIndices` |
| Registry.LocatePlayer | Server/Program.cs:93 | the search loop returns exactly `PositionOf` |
| Registry.SearchOpponent | ControlPanel/Program.cs:214 | the `FirstOrDefault` loop returns exactly `FindOpponent` |
| RegistryLemmas.InitialInv | Server/Program.cs:13-15 | the empty list with counter 1 satisfies the invariant |
| RegistryLemmas.RegisteredKeepsInv | Server/Program.cs:67-71 | registering keeps the invariant, leaves every existing player unchanged, and appends `Player(h, name, 0, false, null)` |
| RegistryLemmas.MatchedFifo | Server/Program.cs:105-125 | with fewer than two lobby players nothing changes, counter included. Otherwise exactly the first two lobby players in list order (`w[0]` and `w[1]` of the `Where` scan) get the old counter as id and the counter grows by one. `w[0]` is sent `MATCHED` naming `w[1]`, then `w[1]` is sent `MATCHED` naming `w[0]`, then each is sent `CHOOSE`; no one else changes |
| RegistryLemmas.MatchedFreshGame | Server/Program.cs:112-114 | the new id is held by no one before pairing and by exactly the pair after it |
| RegistryLemmas.MatchedKeepsInv | Server/Program.cs:109-114 | pairing keeps counter >= 1, unique handles, ids below the counter, at most two holders per non-zero id, and choice flags agreeing with choices |
| RegistryLemmas.MovedKeepsInv | Server/Program.cs:77-78 | recording a move, whatever the player's game, keeps the invariant |
| RegistryLemmas.ResolvedKeepsInv | Server/Program.cs:168-171 | clearing both moves of a round keeps the invariant |
| RegistryLemmas.CheckedKeepsInv | Server/Program.cs:127-137 | `CheckGameStatus` keeps the invariant |
| RegistryLemmas.SubmittedKeepsInv | Server/Program.cs:75-80 | the move branch of `HandleClient` keeps the invariant |
| RegistryLemmas.CheckedSpec | Server/Program.cs:127-172 | a round resolves only when exactly two players hold the id and both have chosen; otherwise nothing changes. On resolution both players' moves are cleared, their ids are kept and no one else changes. Each player is sent its result (then `CHOOSE` in the ControlPanel copy) |
| RegistryLemmas.CopiesDifferOnlyInPrompt | ControlPanel/Program.cs:196-205 | the two copies reach the same players and counter; the ControlPanel outbox has the two `CHOOSE` prompts appended after a resolved round and is otherwise the same |
| RegistryLemmas.PairIsTheGame | Server/Program.cs:131 | the `Where` scan of a non-zero id shared by two players returns exactly that pair |
| RegistryLemmas.FirstMoveWaits | Server/Program.cs:131-134 | the first move of a game whose other player has not chosen is recorded and resolves nothing |
| RegistryLemmas.SecondMoveResolves | Server/Program.cs:131-134 | the second move of a game resolves the round. Both moves are cleared and the results, with prompts in the ControlPanel copy, go to the pair in list order |
| RegistryLemmas.RoundResolvedOnce | Server/Program.cs:75-80 | two moves of a fresh game: the first changes only its player's move and sends nothing. The second restores both players, leaves the counter alone, and sends each player its result once, with prompts in the ControlPanel copy |
| RegistryLemmas.RemovedKeepsInv | Server/Program.cs:91-94 | removing a player keeps the invariant |
| RegistryLemmas.NotifiedKeepsInv | Server/Program.cs:174-188 | resetting the opponent to the lobby keeps the invariant |
| RegistryLemmas.DisconnectedKeepsInv | Server/Program.cs:89-98 | the `finally` block keeps the invariant |
| RegistryLemmas.DisconnectedSpec | Server/Program.cs:89-98 | disconnecting removes the player and keeps the counter. The other player of its non-zero game, if any, is sent `OPPONENT_DISCONNECTED` and reset to game 0 with no move. Every other player is unchanged and otherwise nothing is sent |
| RegistryLemmas.OnlyOneOther | Server/Program.cs:178 | a player in a non-zero game has at most one opponent |
| Rules.DecideIsTheGame | Server/Program.cs:145-160 | over the nine pairs of moves, the table is the cyclic rule: equal draws, Rock beats Scissors, Paper beats Rock, Scissors beats Paper |
| Rules.DecideSwaps | Server/Program.cs:145-160 | over moves, swapping the players swaps WIN and LOSE and keeps DRAW |
| Rules.UnrecognisedFavoursSecond | Server/Program.cs:156-160 | unequal choices of which one is not a move award the second player in either order |
| Rules.ResultTextsMeaning | Server/Program.cs:145-160 | the texts sent: `DRAW` to both, or `WIN` to the winner by the rule and `LOSE` to the loser, both naming the winning move first |
| Rules.ResultTextsSwap | ControlPanel/Program.cs:179-194 | over moves, the text a player receives does not depend on which of the pair is listed first |
| Server.GameServer.constructor | Server/Program.cs:13-15 | an empty list, counter 1, empty outbox, satisfying the invariant |
| Server.GameServer.Join | Server/Program.cs:65-74 | a first message registers a player under a fresh handle, welcomes it, then runs matching |
| Server.GameServer.AddPlayer | Server/Program.cs:67-72 | appends the new player and the welcome message, keeping the invariant |
| Server.GameServer.MatchPlayers | Server/Program.cs:105-125 | the new state is the FIFO pairing step |
| Server.GameServer.SubmitMove | Server/Program.cs:75-80 | records the move whatever the game, then checks the game's status |
| Server.GameServer.CheckGameStatus | Server/Program.cs:127-137 | the new state is the status check of the Server copy |
| Server.GameServer.DetermineWinner | Server/Program.cs:139-172 | returns unchanged on a null choice; otherwise sends the two results and clears both moves |
| Server.GameServer.Disconnect | Server/Program.cs:89-98 | removes the player, then notifies its opponent when its game id is not 0 |
| Server.GameServer.RemovePlayer | Server/Program.cs:91-94 | removes the player with the handle, or changes nothing when there is none |
| Server.GameServer.NotifyOpponentDisconnected | Server/Program.cs:174-188 | notifies the first opponent and resets it to the lobby with no move |
| ControlPanel.GameServer.constructor | ControlPanel/Program.cs:46-48 | an empty list, counter 1, empty outbox, satisfying the invariant |
| ControlPanel.GameServer.Join | ControlPanel/Program.cs:101-110 | a first message registers a player under a fresh handle, welcomes it, then runs matching |
| ControlPanel.GameServer.AddPlayer | ControlPanel/Program.cs:103-108 | appends the new `GamePlayer` and the welcome message, keeping the invariant |
| ControlPanel.GameServer.MatchPlayers | ControlPanel/Program.cs:141-161 | the new state is the FIFO pairing step |
| ControlPanel.GameServer.SubmitMove | ControlPanel/Program.cs:111-116 | records the move whatever the game, then checks the game's status |
| ControlPanel.GameServer.CheckGameStatus | ControlPanel/Program.cs:163-173 | the new state is the status check of the ControlPanel copy |
| ControlPanel.GameServer.DetermineWinner | ControlPanel/Program.cs:175-208 | sends the two results, clears both moves, then prompts both players with `CHOOSE` |
| ControlPanel.GameServer.Disconnect | ControlPanel/Program.cs:125-134 | removes the player, then notifies its opponent when its game id is not 0 |
| ControlPanel.GameServer.RemovePlayer | ControlPanel/Program.cs:127-130 | removes the player with the handle, or changes nothing when there is none |
| ControlPanel.GameServer.NotifyOpponentDisconnected | ControlPanel/Program.cs:210-223 | notifies the first opponent and resets it to the lobby with no move |
| Client.Split | Client/Program.cs:218 | `Split('|')` yields at least one part, no part holds `|`, and joining the parts with `|` gives back the message |
| Client.SplitAtFirst | Client/Program.cs:218 | the text before the first `|` is the first part |
| Client.SplitNone | Client/Program.cs:218 | text without `|` is one part |
| Client.SplitJoin | Client/Program.cs:218 | splitting undoes joining parts without `|` |
| Client.DecodeWithoutPipe | Client/Program.cs:218-220 | without `|` the command is the whole message and the content `""` |
| Client.DecodeWithPipe | Client/Program.cs:218-220 | the command is the text before the first `|`; the content is the text after it up to the next `|` or the end |
| Client.DecodeEncode | Client/Program.cs:218-220 | `command|payload` decodes to `(command, payload)` when neither holds `|` |
| Client.WelcomeDecodes | Server/Program.cs:72 | the welcome text of a name without `|` decodes to the whole text with empty content |
| Client.MatchedDecodes | Server/Program.cs:116-117 | `MATCHED` decodes with the opponent's name in its content |
| Client.ChooseDecodes | Server/Program.cs:119-120 | the prompt decodes to `CHOOSE` and its question |
| Client.DrawDecodes | Server/Program.cs:147 | the draw text decodes to `DRAW` |
| Client.OpponentDisconnectedDecodes | Server/Program.cs:181 | the notice decodes to `OPPONENT_DISCONNECTED` |
| Client.WinLoseDecode | Server/Program.cs:153-154 | `WIN` and `LOSE` decode with both moves, winning move first |
| Client.ResultDecodes | Server/Program.cs:145-160 | a round between two moves decodes, for each player, to the command the game's rule gives it |
| Client.SubmitName | Client/Program.cs:71-78 | a name is accepted exactly when it is not null and holds a non-white-space character, and is then stored unchanged |
| Client.Tag | Client/Program.cs:126-157 | each button's tag is one of `Rock`, `Paper`, `Scissors` |
| Client.TagsAreTheMoves | Client/Program.cs:262-270 | the strings the client sends as moves are exactly the three moves, one per button |
| Findings.FirstJoins | Server/Program.cs:65-74 | the first player registers and waits in the lobby |
| Findings.SecondJoins | Server/Program.cs:105-114 | the second player is paired with the first in game 1 |
| Findings.ThirdJoins | Server/Program.cs:109-111 | a third player waits alone in the lobby |
| Findings.FirstLeaves | Server/Program.cs:178-184 | the first player leaves; the second is sent to the lobby beside the third and nothing pairs them |
| Findings.LobbyPairInv | Server/Program.cs:13-15 | that state satisfies the registry invariant |
| Findings.LobbyMovesResolve | Server/Program.cs:131-134 | the two lobby players' moves are both recorded, and the second resolves a round of game 0 |
| Findings.LobbyRoundAsWritten | Server/Program.cs:75-80 | the whole run from the empty server: a round of game 0 is played between two lobby players |
| Findings.NoLobbyRound | Server/Program.cs:131-134 | when lobby players hold no move, `CheckGameStatus(0)` changes nothing |
| Findings.RegisteredKeepsLobbyIdle | Server/Program.cs:213-220 | a new player holds no move |
| Findings.MatchedKeepsLobbyIdle | Server/Program.cs:109-114 | pairing keeps lobby players without a move |
| Findings.SubmittedIntendedKeepsLobbyIdle | Server/Program.cs:75-80 | with lobby moves ignored, the move branch keeps lobby players without a move |
| Findings.DisconnectedKeepsLobbyIdle | Server/Program.cs:182-184 | the survivor of a game enters the lobby without a move |

## Left out

- The `TcpListener` accept loop, `Start`/`Stop`, `isRunning` and one thread per client. The model is sequential, and each locked block is one atomic step.
- Interleaving between lock sections. `HandleClient` releases the lock between adding a player, sending the welcome and `MatchPlayers`, and between removing a player and notifying its opponent. These sequences are modelled as back-to-back steps with nothing in between.
- RegistryLemmas.MatchedKeepsInv, RegistryLemmas.MatchedFreshGame, RegistryLemmas.InitialInv: `gameIdCounter` is a 32-bit `int` and `gameIdCounter++` is unchecked, so it wraps. The model's counter is unbounded. The invariant's `counter >= 1` and "every id is below the counter", and "the new id is held by no one", hold only because the wrap is not modelled. After 2^31-1 matches the source hands out negative ids, and after about 2^32 matches it reuses ids, 0 (the lobby) included.
- The unlocked write of `Choice` and `HasMadeChoice` is a data race that a sequential model cannot show.
- `NetworkStream` reads and writes and ASCII encoding. An inbound message is a `string` parameter and each send is an entry in the outbox.
- Message framing. The model assumes one read is one message, as the source does.
- `SendMessage` failures. The Server copy catches a write exception; the ControlPanel copy lets it propagate to the handler of the connection that triggered the send. In the model every send succeeds.
- Server.GameServer.SubmitMove and ControlPanel.GameServer.SubmitMove: these require the player to be registered. The source holds that by construction, since a move arrives only on a connection whose player is in the list.
- Client, ControlPanel and Server user interfaces, `MessageBox`, `Invoke`, the `dotnet run` process launching, `LogAction` and console logging: these are UI or foreign calls with no stateable behaviour.
- The client's dispatch on the decoded command, beyond the decoder itself: it only updates UI labels and buttons.

## Findings

| source | as written | input that shows it | evidently intended | confidence | as-written member | corrected member |
|---|---|---|---|---|---|---|
| Server/Program.cs:77-79 | a move is recorded whatever the player's game id, and `CheckGameStatus(0)` resolves a round when exactly two lobby players have chosen (the move branch at ControlPanel/Program.cs:113-115 does the same) | A, B and C register; A and B are paired, and A disconnects. B is sent back to the lobby beside C and is not paired again. B sends `Rock` and C sends `Paper`: B is told `LOSE` and C `WIN` with no game between them | a move from a lobby player is ignored, so lobby players never hold a move and no round of game 0 is ever played | not executed | Findings.LobbyRoundAsWritten | Findings.SubmittedIntended |

The `GameServer` classes keep the code as written, since they model the source.
The corrected registry is stated on the registry steps themselves.
`Findings.SubmittedIntended` ignores a move from a lobby player. The pairing,
registration and disconnection steps, together with `SubmittedIntended`, keep
"lobby players hold no move" (`Findings.RegisteredKeepsLobbyIdle`,
`Findings.MatchedKeepsLobbyIdle`, `Findings.SubmittedIntendedKeepsLobbyIdle`,
`Findings.DisconnectedKeepsLobbyIdle`). Under that property
`CheckGameStatus(0)` never resolves anything (`Findings.NoLobbyRound`).
