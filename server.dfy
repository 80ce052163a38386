/**
 * `GameServer` of the Server project. Each method is one step the source runs
 * under `lock (lockObject)` (or, for the welcome and the move, just beside it),
 * and states its new state as the matching registry step of the old one, for
 * the Server copy: `DetermineWinner` returns at once on a null choice and no
 * prompt follows the results.
 */
module Server {
  import opened Wrappers
  import opened Registry
  import Protocol
  import Rules
  import RegistryLemmas

  class GameServer {
    var players: seq<Player>
    var gameIdCounter: int
    var outbox: seq<Send>
    /** The handle the next `Player` object gets. */
    var nextHandle: Handle

    function View(): ServerState
      reads this
    {
      ServerState(players, gameIdCounter, outbox)
    }

    ghost predicate Valid()
      reads this
    {
      Inv(View()) && forall i :: 0 <= i < |players| ==> players[i].handle < nextHandle
    }

    constructor ()
      ensures Valid() && View() == Initial() && nextHandle == 0
    {
      players := [];
      gameIdCounter := 1;
      outbox := [];
      nextHandle := 0;
    }

    /** The first message of a connection: a new player named by it is added and welcomed, then matching runs. */
    method Join(message: string) returns (h: Handle)
      requires Valid()
      modifies this
      ensures Valid() && nextHandle == old(nextHandle) + 1
      ensures forall i :: 0 <= i < |old(players)| ==> old(players)[i].handle != h
      ensures View() == Matched(Registered(old(View()), h, message))
    {
      h := AddPlayer(message);
      MatchPlayers();
    }

    /** `players.Add(new Player(client, stream, name))`, then the welcome message. */
    method AddPlayer(name: string) returns (h: Handle)
      requires Valid()
      modifies this
      ensures Valid() && nextHandle == old(nextHandle) + 1
      ensures forall i :: 0 <= i < |old(players)| ==> old(players)[i].handle != h
      ensures View() == Registered(old(View()), h, name)
    {
      h := nextHandle;
      RegistryLemmas.RegisteredKeepsInv(View(), h, name);
      players := players + [NewPlayer(h, name)];
      outbox := outbox + [Send(h, Protocol.Welcome(name))];
      nextHandle := nextHandle + 1;
    }

    method MatchPlayers()
      requires Valid()
      modifies this
      ensures Valid() && nextHandle == old(nextHandle)
      ensures View() == Matched(old(View()))
    {
      ghost var s := View();
      var waitingPlayers := SelectGame(players, 0);
      if |waitingPlayers| >= 2 {
        var gameId := gameIdCounter;
        gameIdCounter := gameIdCounter + 1;
        var first, second := players[waitingPlayers[0]], players[waitingPlayers[1]];
        players := players[waitingPlayers[0] := first.(gameId := gameId)];
        players := players[waitingPlayers[1] := second.(gameId := gameId)];
        outbox := outbox + [Send(first.handle, Protocol.Matched(second.name)), Send(second.handle, Protocol.Matched(first.name))];
        outbox := outbox + [Send(first.handle, Protocol.Choose), Send(second.handle, Protocol.Choose)];
        assert players == Matched(s).players;
        assert outbox == Matched(s).outbox;
      }
      assert View() == Matched(s);
      RegistryLemmas.MatchedKeepsInv(s);
      RegistryLemmas.MatchedKeepsHandles(s);
    }

    /** A later message of player `h`: it becomes the player's choice, then `CheckGameStatus(player.GameId)`. */
    method SubmitMove(h: Handle, message: string)
      requires Valid() && PositionOf(players, h).Some?
      modifies this
      ensures Valid() && nextHandle == old(nextHandle)
      ensures View() == Submitted(old(View()), h, message, ServerCopy)
    {
      var k := LocatePlayer(players, h);
      var i := k.value;
      RegistryLemmas.MovedKeepsInv(View(), i, message);
      players := players[i := players[i].(choice := Some(message), hasMadeChoice := true)];
      CheckGameStatus(players[i].gameId);
    }

    method CheckGameStatus(gameId: int)
      requires Valid()
      modifies this
      ensures Valid() && nextHandle == old(nextHandle)
      ensures View() == Checked(old(View()), gameId, ServerCopy)
    {
      var gamePlayers := SelectGame(players, gameId);
      if |gamePlayers| == 2 && players[gamePlayers[0]].hasMadeChoice && players[gamePlayers[1]].hasMadeChoice {
        DetermineWinner(gamePlayers[0], gamePlayers[1]);
      }
    }

    method DetermineWinner(i: nat, j: nat)
      requires Valid() && i < |players| && j < |players| && i != j
      modifies this
      ensures Valid() && nextHandle == old(nextHandle)
      ensures View() == Resolved(old(View()), i, j, ServerCopy)
    {
      RegistryLemmas.ResolvedKeepsInv(View(), i, j, ServerCopy);
      var player1, player2 := players[i], players[j];
      if player1.choice.None? || player2.choice.None? {
        return;
      }
      var results := Rules.ResultTexts(player1.choice, player2.choice);
      outbox := outbox + [Send(player1.handle, results.0), Send(player2.handle, results.1)];
      players := players[i := Cleared(player1)];
      players := players[j := Cleared(player2)];
    }

    /** The `finally` block of `HandleClient` for a registered player. */
    method Disconnect(h: Handle)
      requires Valid() && PositionOf(players, h).Some?
      modifies this
      ensures Valid() && nextHandle == old(nextHandle)
      ensures View() == Disconnected(old(View()), h)
    {
      var k := LocatePlayer(players, h);
      var player := players[k.value];
      RemovePlayer(h);
      if player.gameId != 0 {
        NotifyOpponentDisconnected(player);
      }
    }

    /** `players.Remove(player)`. */
    method RemovePlayer(h: Handle)
      requires Valid()
      modifies this
      ensures Valid() && nextHandle == old(nextHandle)
      ensures View() == Removed(old(View()), h)
    {
      ghost var s := View();
      var k := LocatePlayer(players, h);
      if k.Some? {
        RegistryLemmas.RemoveAt(players, k.value);
        players := players[..k.value] + players[k.value + 1..];
      }
      assert View() == Removed(s, h);
      RegistryLemmas.RemovedKeepsInv(s, h);
    }

    method NotifyOpponentDisconnected(disconnectedPlayer: Player)
      requires Valid()
      modifies this
      ensures Valid() && nextHandle == old(nextHandle)
      ensures View() == Notified(old(View()), disconnectedPlayer)
    {
      ghost var s := View();
      var opponent := SearchOpponent(players, disconnectedPlayer.gameId, disconnectedPlayer.handle);
      if opponent.Some? {
        var k := opponent.value;
        outbox := outbox + [Send(players[k].handle, Protocol.OpponentDisconnected)];
        players := players[k := Lobbied(players[k])];
      }
      assert View() == Notified(s, disconnectedPlayer);
      RegistryLemmas.NotifiedKeepsInv(s, disconnectedPlayer);
    }
  }
}
