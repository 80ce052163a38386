/**
 * A move is recorded whatever the player's game id, so two players left in
 * the lobby can play a "round" of game 0 against each other. The registry is
 * meant to keep lobby players without a move and to ignore a move made there.
 */
module Findings {
  import opened Wrappers
  import opened Registry
  import RegistryLemmas
  import Protocol

  /** Lobby players hold no move. */
  predicate LobbyIdle(ps: seq<Player>) {
    forall i :: 0 <= i < |ps| && ps[i].gameId == 0 ==> !ps[i].hasMadeChoice && ps[i].choice.None?
  }

  // ---------------------------------------------------------------------------
  // As written

  /** The first player registers into an empty registry and waits. */
  lemma FirstJoins(s: ServerState, na: string)
    requires s.players == [] && s.counter == 1
    ensures var t := Matched(Registered(s, 0, na));
      t.counter == 1 && t.players == [NewPlayer(0, na)]
  {
    var r := Registered(s, 0, na);
    RegistryLemmas.GameIndicesOfOne(r.players, 0, 0);
    assert Matched(r) == r;
  }

  /** The second player registers and is paired with the first in game 1. */
  lemma SecondJoins(s: ServerState, na: string, nb: string)
    requires s.players == [NewPlayer(0, na)] && s.counter == 1
    ensures var t := Matched(Registered(s, 1, nb));
      t.counter == 2 && t.players == [Player(0, na, 1, false, None), Player(1, nb, 1, false, None)]
  {
    var r := Registered(s, 1, nb);
    assert r.players == [NewPlayer(0, na), NewPlayer(1, nb)];
    RegistryLemmas.GameIndicesOfTwo(r.players, 0, 0, 1);
  }

  /** The third player registers and waits, since the first two are already playing. */
  lemma ThirdJoins(s: ServerState, na: string, nb: string, nc: string)
    requires s.players == [Player(0, na, 1, false, None), Player(1, nb, 1, false, None)] && s.counter == 2
    ensures var t := Matched(Registered(s, 2, nc));
      t.counter == 2 && t.players == [Player(0, na, 1, false, None), Player(1, nb, 1, false, None), NewPlayer(2, nc)]
  {
    var r := Registered(s, 2, nc);
    assert r.players == [Player(0, na, 1, false, None), Player(1, nb, 1, false, None), NewPlayer(2, nc)];
    RegistryLemmas.GameIndicesOfOne(r.players, 0, 2);
    assert Matched(r) == r;
  }

  /** The first player leaves: the second is sent back to the lobby beside the third, with nothing to pair them. */
  lemma FirstLeaves(s: ServerState, na: string, nb: string, nc: string)
    requires s.players == [Player(0, na, 1, false, None), Player(1, nb, 1, false, None), NewPlayer(2, nc)] && s.counter == 2
    ensures var s' := Disconnected(s, 0);
      s'.counter == 2 && s'.players == [NewPlayer(1, nb), NewPlayer(2, nc)]
  {
    assert PositionOf(s.players, 0) == Some(0);
    var rest := s.players[1..];
    assert Removed(s, 0).players == rest;
    assert FindOpponent(rest, 1, 0) == Some(0);
  }

  /** Two lobby players with distinct handles and a later counter form a valid registry. */
  lemma LobbyPairInv(s: ServerState, nb: string, nc: string)
    requires s.players == [NewPlayer(1, nb), NewPlayer(2, nc)] && s.counter == 2
    ensures Inv(s)
  {
  }

  /** Two lobby players send moves: both are recorded and the second resolves a round of game 0. */
  lemma LobbyMovesResolve(s: ServerState, copy: Copy)
    requires s.players == [NewPlayer(1, "B"), NewPlayer(2, "C")]
    ensures var s5 := Submitted(s, 1, "Rock", copy);
      var s6 := Submitted(s5, 2, "Paper", copy);
      !LobbyIdle(s5.players) &&
      s.outbox + [Send(1, Protocol.Lose("Paper", "Rock")), Send(2, Protocol.Win("Paper", "Rock"))] <= s6.outbox
  {
    assert PositionOf(s.players, 1) == Some(0);
    var m5 := Moved(s, 0, "Rock");
    RegistryLemmas.GameIndicesOfTwo(m5.players, 0, 0, 1);
    var s5 := Submitted(s, 1, "Rock", copy);
    assert s5 == m5;
    assert PositionOf(s5.players, 2) == Some(1);
    var m6 := Moved(s5, 1, "Paper");
    RegistryLemmas.GameIndicesOfTwo(m6.players, 0, 0, 1);
    assert RoundReady(m6.players, 0);
    assert Submitted(s5, 2, "Paper", copy) == Resolved(m6, 0, 1, copy);
  }

  /**
   * As written: A and B are paired, C waits, A leaves. B is sent back to the
   * lobby beside C, and nothing pairs them again until someone registers. B's
   * move and C's move are then both recorded, and `CheckGameStatus(0)` resolves
   * a round between them: B is told it lost, C that it won.
   */
  lemma LobbyRoundAsWritten(copy: Copy)
    ensures var s3 := Matched(Registered(Matched(Registered(Matched(Registered(Initial(), 0, "A")), 1, "B")), 2, "C"));
      var s4 := Disconnected(s3, 0);
      var s5 := Submitted(s4, 1, "Rock", copy);
      var s6 := Submitted(s5, 2, "Paper", copy);
      Inv(s4) && s4.players == [NewPlayer(1, "B"), NewPlayer(2, "C")] &&
      !LobbyIdle(s5.players) &&
      s4.outbox + [Send(1, Protocol.Lose("Paper", "Rock")), Send(2, Protocol.Win("Paper", "Rock"))] <= s6.outbox
  {
    var s0 := Initial();
    FirstJoins(s0, "A");
    var s1 := Matched(Registered(s0, 0, "A"));
    SecondJoins(s1, "A", "B");
    var s2 := Matched(Registered(s1, 1, "B"));
    ThirdJoins(s2, "A", "B", "C");
    var s3 := Matched(Registered(s2, 2, "C"));
    FirstLeaves(s3, "A", "B", "C");
    LobbyPairInv(Disconnected(s3, 0), "B", "C");
    LobbyMovesResolve(Disconnected(s3, 0), copy);
  }

  // ---------------------------------------------------------------------------
  // As intended

  /** Intended: a move from a player in the lobby is ignored; any other is handled as written. */
  function SubmittedIntended(s: ServerState, h: Handle, m: string, copy: Copy): ServerState {
    match PositionOf(s.players, h)
    case None => s
    case Some(k) => if s.players[k].gameId == 0 then s else Submitted(s, h, m, copy)
  }

  /** With lobby players idle, `CheckGameStatus(0)` never resolves anything. */
  lemma NoLobbyRound(s: ServerState, copy: Copy)
    requires Inv(s) && LobbyIdle(s.players)
    ensures Checked(s, 0, copy) == s
  {
    var g := GameIndices(s.players, 0);
    if |g| == 2 {
      assert !s.players[g[0]].hasMadeChoice;
    }
  }

  // Every step of the intended registry keeps lobby players idle.

  lemma RegisteredKeepsLobbyIdle(s: ServerState, h: Handle, name: string)
    requires LobbyIdle(s.players)
    ensures LobbyIdle(Registered(s, h, name).players)
  {
  }

  lemma MatchedKeepsLobbyIdle(s: ServerState)
    requires Inv(s) && LobbyIdle(s.players)
    ensures LobbyIdle(Matched(s).players)
  {
    RegistryLemmas.MatchedFifo(s);
  }

  lemma SubmittedIntendedKeepsLobbyIdle(s: ServerState, h: Handle, m: string, copy: Copy)
    requires Inv(s) && LobbyIdle(s.players)
    ensures LobbyIdle(SubmittedIntended(s, h, m, copy).players)
  {
    match PositionOf(s.players, h)
    case None =>
    case Some(k) =>
      if s.players[k].gameId != 0 {
        var mv := Moved(s, k, m);
        RegistryLemmas.MovedKeepsInv(s, k, m);
        RegistryLemmas.CheckedSpec(mv, s.players[k].gameId, copy);
        assert LobbyIdle(mv.players);
      }
  }

  lemma DisconnectedKeepsLobbyIdle(s: ServerState, h: Handle)
    requires Inv(s) && LobbyIdle(s.players)
    ensures LobbyIdle(Disconnected(s, h).players)
  {
    match PositionOf(s.players, h)
    case None =>
    case Some(k) =>
      RegistryLemmas.DisconnectedSpec(s, h);
      RegistryLemmas.RemoveAt(s.players, k);
  }
}
