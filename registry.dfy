/**
 * The player registry of `GameServer`, shared by the Server and ControlPanel
 * copies: the `Player` record, the list scans the server performs under its
 * lock, and each locked step as a function from the old state to the new one.
 * Player objects become unique handles; writes to a player's stream become
 * entries appended to an outbox.
 */
module Registry {
  import opened Wrappers
  import Protocol
  import Rules

  /** The identity of one `Player` object (one connection). */
  type Handle = nat

  /** `Player` / `GamePlayer`: `gameId` 0 is the lobby; `choice` is null until a move arrives. */
  datatype Player = Player(handle: Handle, name: string, gameId: int, hasMadeChoice: bool, choice: Option<string>)

  /** One `SendMessage(stream, text)` to the stream of player `to`. */
  datatype Send = Send(to: Handle, text: string)

  /** The fields of `GameServer`: `players` in arrival order, `gameIdCounter`, and what was sent. */
  datatype ServerState = ServerState(players: seq<Player>, counter: int, outbox: seq<Send>)

  /** Which of the two copies of `GameServer` a step follows. */
  datatype Copy = ServerCopy | ControlPanelCopy

  /** The state of a freshly constructed server. */
  function Initial(): ServerState {
    ServerState([], 1, [])
  }

  /** The `Player` constructor. */
  function NewPlayer(h: Handle, name: string): Player {
    Player(h, name, 0, false, None)
  }

  /** A player after its round has been resolved. */
  function Cleared(p: Player): Player {
    p.(hasMadeChoice := false, choice := None)
  }

  /** A player sent back to the lobby. */
  function Lobbied(p: Player): Player {
    p.(gameId := 0, hasMadeChoice := false, choice := None)
  }

  // ---------------------------------------------------------------------------
  // The list scans

  /** `players.Where(p => p.GameId == id).ToList()`, as positions in `ps`. */
  function GameIndices(ps: seq<Player>, id: int): (r: seq<nat>)
    ensures forall k :: 0 <= k < |r| ==> r[k] < |ps| && ps[r[k]].gameId == id
    ensures forall k, l :: 0 <= k < l < |r| ==> r[k] < r[l]
    ensures forall i :: 0 <= i < |ps| && ps[i].gameId == id ==> i in r
  {
    if |ps| == 0 then []
    else
      var init := ps[..|ps| - 1];
      var r0 := GameIndices(init, id);
      assert forall k :: 0 <= k < |r0| ==> ps[r0[k]] == init[r0[k]];
      r0 + (if ps[|ps| - 1].gameId == id then [|ps| - 1] else [])
  }

  /** The position of the player with handle `h`, which `players.Remove` removes. */
  function PositionOf(ps: seq<Player>, h: Handle): (r: Option<nat>)
    ensures r.Some? ==> r.value < |ps| && ps[r.value].handle == h
    ensures r.Some? ==> forall j :: 0 <= j < r.value ==> ps[j].handle != h
    ensures r.None? ==> forall j :: 0 <= j < |ps| ==> ps[j].handle != h
  {
    if |ps| == 0 then None
    else if ps[0].handle == h then Some(0)
    else match PositionOf(ps[1..], h)
      case None => None
      case Some(k) => Some(k + 1)
  }

  /** Whether `p` is an opponent of the player `h` of game `id`. */
  predicate IsOpponent(p: Player, id: int, h: Handle) {
    p.gameId == id && p.handle != h
  }

  /** `players.FirstOrDefault(p => p.GameId == id && p != gone)`, as a position. */
  function FindOpponent(ps: seq<Player>, id: int, h: Handle): (r: Option<nat>)
    ensures r.Some? ==> r.value < |ps| && IsOpponent(ps[r.value], id, h)
    ensures r.Some? ==> forall j :: 0 <= j < r.value ==> !IsOpponent(ps[j], id, h)
    ensures r.None? ==> forall j :: 0 <= j < |ps| ==> !IsOpponent(ps[j], id, h)
  {
    if |ps| == 0 then None
    else if IsOpponent(ps[0], id, h) then Some(0)
    else match FindOpponent(ps[1..], id, h)
      case None => None
      case Some(k) => Some(k + 1)
  }

  /** The `Where` scan as the loop it runs. */
  method SelectGame(ps: seq<Player>, id: int) returns (idx: seq<nat>)
    ensures idx == GameIndices(ps, id)
  {
    idx := [];
    var i := 0;
    while i < |ps|
      invariant 0 <= i <= |ps|
      invariant idx == GameIndices(ps[..i], id)
    {
      assert ps[..i + 1][..i] == ps[..i];
      if ps[i].gameId == id {
        idx := idx + [i];
      }
      i := i + 1;
    }
    assert ps[..|ps|] == ps;
  }

  /** The search `List.Remove` makes for the player's object. */
  method LocatePlayer(ps: seq<Player>, h: Handle) returns (r: Option<nat>)
    ensures r == PositionOf(ps, h)
  {
    var i := 0;
    while i < |ps|
      invariant 0 <= i <= |ps|
      invariant forall j :: 0 <= j < i ==> ps[j].handle != h
    {
      if ps[i].handle == h {
        return Some(i);
      }
      i := i + 1;
    }
    return None;
  }

  /** The `FirstOrDefault` scan as the loop it runs. */
  method SearchOpponent(ps: seq<Player>, id: int, h: Handle) returns (r: Option<nat>)
    ensures r == FindOpponent(ps, id, h)
  {
    var i := 0;
    while i < |ps|
      invariant 0 <= i <= |ps|
      invariant forall j :: 0 <= j < i ==> !IsOpponent(ps[j], id, h)
    {
      if ps[i].gameId == id && ps[i].handle != h {
        return Some(i);
      }
      i := i + 1;
    }
    return None;
  }

  // ---------------------------------------------------------------------------
  // The locked steps

  /** `players.Add(new Player(...))` followed by the welcome message. */
  function Registered(s: ServerState, h: Handle, name: string): ServerState {
    ServerState(s.players + [NewPlayer(h, name)], s.counter, s.outbox + [Send(h, Protocol.Welcome(name))])
  }

  /** `MatchPlayers`: the first two lobby players share the id `gameIdCounter++`. */
  function Matched(s: ServerState): ServerState {
    var w := GameIndices(s.players, 0);
    if |w| < 2 then s
    else
      var a := s.players[w[0]];
      var b := s.players[w[1]];
      ServerState(
        s.players[w[0] := a.(gameId := s.counter)][w[1] := b.(gameId := s.counter)],
        s.counter + 1,
        s.outbox + [Send(a.handle, Protocol.Matched(b.name)), Send(b.handle, Protocol.Matched(a.name)),
                    Send(a.handle, Protocol.Choose), Send(b.handle, Protocol.Choose)])
  }

  /** `player.Choice = message; player.HasMadeChoice = true;` whatever the player's game. */
  function Moved(s: ServerState, k: nat, m: string): ServerState
    requires k < |s.players|
  {
    s.(players := s.players[k := s.players[k].(choice := Some(m), hasMadeChoice := true)])
  }

  /**
   * `DetermineWinner(players[i], players[j])`. The Server copy returns at once
   * when a choice is null; the ControlPanel copy has no such guard and prompts
   * both players again after the results.
   */
  function Resolved(s: ServerState, i: nat, j: nat, copy: Copy): ServerState
    requires i < |s.players| && j < |s.players|
  {
    var p := s.players[i];
    var q := s.players[j];
    if copy == ServerCopy && (p.choice.None? || q.choice.None?) then s
    else
      var t := Rules.ResultTexts(p.choice, q.choice);
      var prompts := if copy == ControlPanelCopy then [Send(p.handle, Protocol.Choose), Send(q.handle, Protocol.Choose)] else [];
      ServerState(s.players[i := Cleared(p)][j := Cleared(q)], s.counter,
                  s.outbox + [Send(p.handle, t.0), Send(q.handle, t.1)] + prompts)
  }

  /** The condition `CheckGameStatus` tests: exactly two players hold `id` and both have chosen. */
  predicate RoundReady(ps: seq<Player>, id: int) {
    var g := GameIndices(ps, id);
    |g| == 2 && ps[g[0]].hasMadeChoice && ps[g[1]].hasMadeChoice
  }

  /** `CheckGameStatus(id)`. */
  function Checked(s: ServerState, id: int, copy: Copy): ServerState {
    var g := GameIndices(s.players, id);
    if RoundReady(s.players, id) then Resolved(s, g[0], g[1], copy) else s
  }

  /** The move branch of `HandleClient`: record the move, then `CheckGameStatus(player.GameId)`. */
  function Submitted(s: ServerState, h: Handle, m: string, copy: Copy): ServerState {
    match PositionOf(s.players, h)
    case None => s
    case Some(k) => Checked(Moved(s, k, m), s.players[k].gameId, copy)
  }

  /** `players.Remove(player)`. */
  function Removed(s: ServerState, h: Handle): ServerState {
    match PositionOf(s.players, h)
    case None => s
    case Some(k) => s.(players := s.players[..k] + s.players[k + 1..])
  }

  /** `NotifyOpponentDisconnected(gone)`. */
  function Notified(s: ServerState, gone: Player): ServerState {
    match FindOpponent(s.players, gone.gameId, gone.handle)
    case None => s
    case Some(k) =>
      ServerState(s.players[k := Lobbied(s.players[k])], s.counter,
                  s.outbox + [Send(s.players[k].handle, Protocol.OpponentDisconnected)])
  }

  /** The `finally` block of `HandleClient`: remove the player, then notify its opponent if it was in a game. */
  function Disconnected(s: ServerState, h: Handle): ServerState {
    match PositionOf(s.players, h)
    case None => s
    case Some(k) =>
      var rest := Removed(s, h);
      if s.players[k].gameId != 0 then Notified(rest, s.players[k]) else rest
  }

  // ---------------------------------------------------------------------------
  // The registry invariant

  predicate UniqueHandles(ps: seq<Player>) {
    forall i, j :: 0 <= i < j < |ps| ==> ps[i].handle != ps[j].handle
  }

  /** Every id is the lobby or one the counter has already handed out. */
  predicate IdsBelow(ps: seq<Player>, counter: int) {
    forall i :: 0 <= i < |ps| ==> 0 <= ps[i].gameId < counter
  }

  /** The game id at position `i`; the quantifier below is instantiated only on these terms. */
  function GameOf(ps: seq<Player>, i: nat): int
    requires i < |ps|
  {
    ps[i].gameId
  }

  /** No game id other than 0 is held by three players. */
  predicate AtMostTwoPerGame(ps: seq<Player>) {
    forall i, j, k :: 0 <= i < j < k < |ps| && GameOf(ps, i) == GameOf(ps, j) && GameOf(ps, j) == GameOf(ps, k) ==>
      GameOf(ps, i) == 0
  }

  /** `HasMadeChoice` is set exactly when `Choice` is not null. */
  predicate ChoiceFlagAgrees(ps: seq<Player>) {
    forall i :: 0 <= i < |ps| ==> (ps[i].hasMadeChoice <==> ps[i].choice.Some?)
  }

  predicate Inv(s: ServerState) {
    s.counter >= 1 && UniqueHandles(s.players) && IdsBelow(s.players, s.counter) &&
    AtMostTwoPerGame(s.players) && ChoiceFlagAgrees(s.players)
  }
}
