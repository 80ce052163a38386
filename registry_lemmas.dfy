/** What the registry steps promise, and the invariant they keep. */
module RegistryLemmas {
  import opened Wrappers
  import opened Registry
  import Protocol
  import Rules

  // ---------------------------------------------------------------------------
  // Facts about the `Where` scan

  lemma GameIndicesGrow(ps: seq<Player>, id: int, n: nat)
    requires n < |ps|
    ensures GameIndices(ps[..n + 1], id) == GameIndices(ps[..n], id) + (if ps[n].gameId == id then [n] else [])
  {
    assert ps[..n + 1][..n] == ps[..n];
  }

  /** Scanning a prefix of the list yields a prefix of the scan. */
  lemma {:induction false} GameIndicesPrefix(ps: seq<Player>, id: int, n: nat)
    requires n <= |ps|
    ensures GameIndices(ps[..n], id) <= GameIndices(ps, id)
    decreases |ps| - n
  {
    if n == |ps| {
      assert ps[..n] == ps;
    } else {
      GameIndicesGrow(ps, id, n);
      GameIndicesPrefix(ps, id, n + 1);
    }
  }

  /** The scan for `id` sees only which players hold `id`. */
  lemma {:induction false} GameIndicesSameHolders(ps: seq<Player>, qs: seq<Player>, id: int)
    requires |ps| == |qs|
    requires forall i :: 0 <= i < |ps| ==> (ps[i].gameId == id <==> qs[i].gameId == id)
    ensures GameIndices(ps, id) == GameIndices(qs, id)
  {
    if |ps| > 0 {
      GameIndicesSameHolders(ps[..|ps| - 1], qs[..|qs| - 1], id);
    }
  }

  /** One step of the scan: the last player is appended when it holds `id`. */
  lemma GameIndicesSnoc(ps: seq<Player>, id: int)
    requires |ps| > 0
    ensures GameIndices(ps, id) ==
      GameIndices(ps[..|ps| - 1], id) + (if ps[|ps| - 1].gameId == id then [|ps| - 1] else [])
  {
  }

  /** The holders of `id` in a prefix are the holders in the whole sequence that lie in it. */
  lemma PrefixHolders(ps: seq<Player>, init: seq<Player>, id: int, a: nat, b: nat)
    requires |ps| > 0 && init == ps[..|ps| - 1]
    requires forall i :: 0 <= i < |ps| && i != a && i != b ==> ps[i].gameId != id
    ensures forall i :: 0 <= i < |init| && i != a && i != b ==> init[i].gameId != id
  {
  }

  /** When exactly the players at `a < b` hold `id`, the scan is `[a, b]`. */
  lemma {:induction false} GameIndicesOfTwo(ps: seq<Player>, id: int, a: nat, b: nat)
    requires a < b < |ps| && ps[a].gameId == id && ps[b].gameId == id
    requires forall i :: 0 <= i < |ps| && i != a && i != b ==> ps[i].gameId != id
    ensures GameIndices(ps, id) == [a, b]
  {
    var init := ps[..|ps| - 1];
    GameIndicesSnoc(ps, id);
    PrefixHolders(ps, init, id, a, b);
    if b == |ps| - 1 {
      GameIndicesOfOne(init, id, a);
    } else {
      GameIndicesOfTwo(init, id, a, b);
    }
  }

  /** When only the player at `k` holds `id`, the scan is `[k]`. */
  lemma {:induction false} GameIndicesOfOne(ps: seq<Player>, id: int, k: nat)
    requires k < |ps| && ps[k].gameId == id
    requires forall i :: 0 <= i < |ps| && i != k ==> ps[i].gameId != id
    ensures GameIndices(ps, id) == [k]
  {
    var init := ps[..|ps| - 1];
    GameIndicesSnoc(ps, id);
    PrefixHolders(ps, init, id, k, k);
    if k == |ps| - 1 {
      GameIndicesNone(init, id);
    } else {
      GameIndicesOfOne(init, id, k);
    }
  }

  /** When no player holds `id`, the scan is empty. */
  lemma GameIndicesNone(ps: seq<Player>, id: int)
    requires forall i :: 0 <= i < |ps| ==> ps[i].gameId != id
    ensures GameIndices(ps, id) == []
  {
  }

  // ---------------------------------------------------------------------------
  // The invariant holds initially

  lemma InitialInv()
    ensures Inv(Initial())
  {
  }

  // ---------------------------------------------------------------------------
  // At most two players per game

  /** The invariant's bound on one triple of positions. */
  lemma AtMostTwoAt(ps: seq<Player>, i: nat, j: nat, k: nat)
    requires AtMostTwoPerGame(ps) && i < j < k < |ps|
    ensures ps[i].gameId == ps[j].gameId == ps[k].gameId ==> ps[i].gameId == 0
  {
    assert GameOf(ps, i) == ps[i].gameId && GameOf(ps, j) == ps[j].gameId && GameOf(ps, k) == ps[k].gameId;
  }

  /** The same bound for three positions in any order. */
  lemma AtMostTwoAmong(ps: seq<Player>, x: nat, y: nat, z: nat)
    requires AtMostTwoPerGame(ps) && x < |ps| && y < |ps| && z < |ps|
    ensures ps[x].gameId == ps[y].gameId == ps[z].gameId ==> x == y || y == z || x == z || ps[x].gameId == 0
  {
    if x < y < z { AtMostTwoAt(ps, x, y, z); }
    else if x < z < y { AtMostTwoAt(ps, x, z, y); }
    else if y < x < z { AtMostTwoAt(ps, y, x, z); }
    else if y < z < x { AtMostTwoAt(ps, y, z, x); }
    else if z < x < y { AtMostTwoAt(ps, z, x, y); }
    else if z < y < x { AtMostTwoAt(ps, z, y, x); }
  }

  /** Sending players to the lobby, and changing nothing else about game ids, keeps every game at two players or fewer. */
  lemma ZeroingKeepsAtMostTwo(ps: seq<Player>, qs: seq<Player>)
    requires AtMostTwoPerGame(ps) && |qs| == |ps|
    requires forall i :: 0 <= i < |ps| ==> qs[i].gameId == ps[i].gameId || qs[i].gameId == 0
    ensures AtMostTwoPerGame(qs)
  {
    forall i, j, k | 0 <= i < j < k < |qs| && GameOf(qs, i) == GameOf(qs, j) && GameOf(qs, j) == GameOf(qs, k)
      ensures GameOf(qs, i) == 0
    {
      AtMostTwoAt(ps, i, j, k);
    }
  }

  // ---------------------------------------------------------------------------
  // Registration

  /** Registration appends a lobby player with no move, names it a handle no one holds, and keeps the invariant. */
  lemma RegisteredKeepsInv(s: ServerState, h: Handle, name: string)
    requires Inv(s)
    requires forall i :: 0 <= i < |s.players| ==> s.players[i].handle != h
    ensures var s' := Registered(s, h, name);
      Inv(s') && s'.players[..|s.players|] == s.players &&
      s'.players[|s.players|] == Player(h, name, 0, false, None)
  {
    var s' := Registered(s, h, name);
    assert s'.players[..|s.players|] == s.players;
    var ps, qs := s.players, s'.players;
    forall i, j, k | 0 <= i < j < k < |qs| && GameOf(qs, i) == GameOf(qs, j) && GameOf(qs, j) == GameOf(qs, k)
      ensures GameOf(qs, i) == 0
    {
      if k < |ps| {
        AtMostTwoAt(ps, i, j, k);
      }
    }
  }

  // ---------------------------------------------------------------------------
  // Matchmaking

  /** A waiting player's place in the scan is the number of waiting players before it. */
  lemma ScanPosition(ps: seq<Player>, id: int, i: nat)
    requires i < |ps| && ps[i].gameId == id
    ensures |GameIndices(ps[..i], id)| < |GameIndices(ps, id)|
    ensures GameIndices(ps, id)[|GameIndices(ps[..i], id)|] == i
  {
    GameIndicesGrow(ps, id, i);
    GameIndicesPrefix(ps, id, i + 1);
  }

  /** Exactly the first two waiting players are picked: position `i` is paired iff it waits with fewer than two waiting before it. */
  lemma PairedAreTheFirstTwo(ps: seq<Player>, i: nat)
    requires i < |ps| && |GameIndices(ps, 0)| >= 2
    ensures var w := GameIndices(ps, 0);
      (i == w[0] || i == w[1]) <==> (ps[i].gameId == 0 && |GameIndices(ps[..i], 0)| < 2)
  {
    var w := GameIndices(ps, 0);
    if ps[i].gameId == 0 {
      ScanPosition(ps, 0, i);
      var c := |GameIndices(ps[..i], 0)|;
      assert w[c] == i;
      assert c >= 1 ==> w[0] < w[c];
      assert c >= 2 ==> w[1] < w[c];
    }
  }

  /**
   * `MatchPlayers`: with fewer than two waiting players nothing changes, the
   * counter included; otherwise exactly the two earliest waiting players get
   * the old counter as their game id, the counter grows by one, no one else
   * changes, and each of the pair is sent MATCHED naming the other and then
   * CHOOSE.
   */
  lemma MatchedFifo(s: ServerState)
    ensures var s' := Matched(s); var paired := |GameIndices(s.players, 0)| >= 2;
      (!paired ==> s' == s) &&
      |s'.players| == |s.players| &&
      s'.counter == (if paired then s.counter + 1 else s.counter) &&
      (forall i :: 0 <= i < |s.players| ==>
        s'.players[i] == if paired && s.players[i].gameId == 0 && |GameIndices(s.players[..i], 0)| < 2
                         then s.players[i].(gameId := s.counter) else s.players[i]) &&
      (paired ==>
        var w := GameIndices(s.players, 0);
        var a, b := s.players[w[0]], s.players[w[1]];
        w[0] < w[1] && a.gameId == 0 && b.gameId == 0 &&
        (forall i :: 0 <= i < w[1] && s.players[i].gameId == 0 ==> i == w[0]) &&
        s'.players[w[0]].gameId == s.counter && s'.players[w[1]].gameId == s.counter &&
        s'.outbox == s.outbox + [Send(a.handle, Protocol.Matched(b.name)), Send(b.handle, Protocol.Matched(a.name)),
                                 Send(a.handle, Protocol.Choose), Send(b.handle, Protocol.Choose)])
  {
    var w := GameIndices(s.players, 0);
    if |w| >= 2 {
      var s' := Matched(s);
      forall i | 0 <= i < |s.players|
        ensures s'.players[i] == if s.players[i].gameId == 0 && |GameIndices(s.players[..i], 0)| < 2
                                 then s.players[i].(gameId := s.counter) else s.players[i]
      {
        PairedAreTheFirstTwo(s.players, i);
      }
      assert w[0] < w[1];
    }
  }

  /** Pairing changes game ids only: every position keeps its player's handle. */
  lemma MatchedKeepsHandles(s: ServerState)
    ensures |Matched(s).players| == |s.players|
    ensures forall i :: 0 <= i < |s.players| ==> Matched(s).players[i].handle == s.players[i].handle
  {
  }

  /** The pairing uses an id no player held, and afterwards exactly the two paired players hold it. */
  lemma MatchedFreshGame(s: ServerState)
    requires IdsBelow(s.players, s.counter) && |GameIndices(s.players, 0)| >= 2
    ensures GameIndices(s.players, s.counter) == []
    ensures var w := GameIndices(s.players, 0);
      GameIndices(Matched(s).players, s.counter) == [w[0], w[1]]
  {
    var w := GameIndices(s.players, 0);
    var ps, qs := s.players, Matched(s).players;
    GameIndicesNone(ps, s.counter);
    assert w[0] < w[1];
    assert forall i :: 0 <= i < |qs| && i != w[0] && i != w[1] ==> qs[i] == ps[i];
    GameIndicesOfTwo(qs, s.counter, w[0], w[1]);
  }

  /** Giving the players at `a` and `b` a game id no one held keeps every game at two players or fewer. */
  lemma AssignFreshKeepsAtMostTwo(ps: seq<Player>, qs: seq<Player>, a: nat, b: nat, g: int)
    requires AtMostTwoPerGame(ps) && |qs| == |ps| && a < |ps| && b < |ps|
    requires forall i :: 0 <= i < |ps| ==> ps[i].gameId != g
    requires qs[a].gameId == g && qs[b].gameId == g
    requires forall i :: 0 <= i < |ps| && i != a && i != b ==> qs[i].gameId == ps[i].gameId
    ensures AtMostTwoPerGame(qs)
  {
    forall i, j, k | 0 <= i < j < k < |qs| && GameOf(qs, i) == GameOf(qs, j) && GameOf(qs, j) == GameOf(qs, k)
      ensures GameOf(qs, i) == 0
    {
      AtMostTwoAt(ps, i, j, k);
    }
  }

  lemma MatchedKeepsInv(s: ServerState)
    requires Inv(s)
    ensures Inv(Matched(s))
  {
    var w := GameIndices(s.players, 0);
    if |w| >= 2 {
      var ps := s.players;
      var qs := Matched(s).players;
      assert forall i :: 0 <= i < |qs| ==>
        qs[i].handle == ps[i].handle && qs[i].choice == ps[i].choice && qs[i].hasMadeChoice == ps[i].hasMadeChoice;
      AssignFreshKeepsAtMostTwo(ps, qs, w[0], w[1], s.counter);
    }
  }

  // ---------------------------------------------------------------------------
  // Rounds

  /** A change that keeps every handle and game id keeps the invariant's id and handle parts. */
  lemma SameIdsKeepInv(s: ServerState, t: ServerState)
    requires Inv(s) && t.counter == s.counter && |t.players| == |s.players|
    requires forall i :: 0 <= i < |s.players| ==>
      t.players[i].handle == s.players[i].handle && t.players[i].gameId == s.players[i].gameId
    requires ChoiceFlagAgrees(t.players)
    ensures Inv(t)
  {
    ZeroingKeepsAtMostTwo(s.players, t.players);
  }

  lemma MovedKeepsInv(s: ServerState, k: nat, m: string)
    requires Inv(s) && k < |s.players|
    ensures Inv(Moved(s, k, m))
  {
    SameIdsKeepInv(s, Moved(s, k, m));
  }

  lemma ResolvedKeepsInv(s: ServerState, i: nat, j: nat, copy: Copy)
    requires Inv(s) && i < |s.players| && j < |s.players|
    ensures Inv(Resolved(s, i, j, copy))
  {
    SameIdsKeepInv(s, Resolved(s, i, j, copy));
  }

  lemma CheckedKeepsInv(s: ServerState, id: int, copy: Copy)
    requires Inv(s)
    ensures Inv(Checked(s, id, copy))
  {
    if RoundReady(s.players, id) {
      var g := GameIndices(s.players, id);
      ResolvedKeepsInv(s, g[0], g[1], copy);
    }
  }

  lemma SubmittedKeepsInv(s: ServerState, h: Handle, m: string, copy: Copy)
    requires Inv(s)
    ensures Inv(Submitted(s, h, m, copy))
  {
    match PositionOf(s.players, h)
    case None =>
    case Some(k) =>
      MovedKeepsInv(s, k, m);
      CheckedKeepsInv(Moved(s, k, m), s.players[k].gameId, copy);
  }

  /**
   * `CheckGameStatus(id)` resolves a round exactly when two players hold `id`
   * and both have chosen, and otherwise changes nothing. A resolution clears
   * the moves of the players of game `id` and of no one else, keeps every game
   * id, and sends each of the two its result; the ControlPanel copy then sends
   * both a CHOOSE prompt, after both results.
   */
  lemma CheckedSpec(s: ServerState, id: int, copy: Copy)
    requires Inv(s)
    ensures var s' := Checked(s, id, copy); var ps := s.players; var ready := RoundReady(ps, id);
      (!ready ==> s' == s) &&
      s'.counter == s.counter && |s'.players| == |ps| &&
      (forall i :: 0 <= i < |ps| ==> s'.players[i] == if ready && ps[i].gameId == id then Cleared(ps[i]) else ps[i]) &&
      (ready ==>
        var g := GameIndices(ps, id);
        var p, q := ps[g[0]], ps[g[1]];
        var t := Rules.ResultTexts(p.choice, q.choice);
        p.choice.Some? && q.choice.Some? &&
        s'.outbox == s.outbox + [Send(p.handle, t.0), Send(q.handle, t.1)] +
          (if copy == ControlPanelCopy then [Send(p.handle, Protocol.Choose), Send(q.handle, Protocol.Choose)] else []))
  {
    var ps := s.players;
    if RoundReady(ps, id) {
      var g := GameIndices(ps, id);
      assert g[0] < g[1];
      assert forall i :: 0 <= i < |ps| && ps[i].gameId == id ==> i == g[0] || i == g[1];
    }
  }

  /** Under the invariant the Server copy's null guard never fires, so the copies differ only in the re-prompt. */
  lemma CopiesDifferOnlyInPrompt(s: ServerState, id: int)
    requires Inv(s)
    ensures var a := Checked(s, id, ServerCopy); var b := Checked(s, id, ControlPanelCopy);
      a.players == b.players && a.counter == b.counter &&
      (!RoundReady(s.players, id) ==> b.outbox == a.outbox) &&
      (RoundReady(s.players, id) ==>
        var g := GameIndices(s.players, id);
        b.outbox == a.outbox + [Send(s.players[g[0]].handle, Protocol.Choose), Send(s.players[g[1]].handle, Protocol.Choose)])
  {
    CheckedSpec(s, id, ServerCopy);
  }

  /** With the invariant, two distinct players holding the same non-zero id are the whole game. */
  lemma PairIsTheGame(ps: seq<Player>, x: nat, y: nat)
    requires AtMostTwoPerGame(ps) && x < |ps| && y < |ps| && x != y
    requires ps[x].gameId == ps[y].gameId != 0
    ensures GameIndices(ps, ps[x].gameId) == if x < y then [x, y] else [y, x]
  {
    var g := ps[x].gameId;
    var a, b := if x < y then x else y, if x < y then y else x;
    forall i | 0 <= i < |ps| && i != a && i != b
      ensures ps[i].gameId != g
    {
      AtMostTwoAmong(ps, a, b, i);
    }
    GameIndicesOfTwo(ps, g, a, b);
  }

  /** The search for a handle sees only the handles. */
  lemma PositionOfSameHandles(ps: seq<Player>, qs: seq<Player>, h: Handle)
    requires |ps| == |qs| && forall i :: 0 <= i < |ps| ==> ps[i].handle == qs[i].handle
    ensures PositionOf(ps, h) == PositionOf(qs, h)
  {
  }

  /** A move by one player of a game whose other player has not moved is recorded and resolves nothing. */
  lemma FirstMoveWaits(s: ServerState, x: nat, y: nat, a: string, copy: Copy)
    requires AtMostTwoPerGame(s.players) && x < |s.players| && y < |s.players| && x != y
    requires s.players[x].gameId != 0 && s.players[x].gameId == s.players[y].gameId
    requires !s.players[y].hasMadeChoice
    ensures Checked(Moved(s, x, a), s.players[x].gameId, copy) == Moved(s, x, a)
  {
    var g := s.players[x].gameId;
    var m := Moved(s, x, a);
    PairIsTheGame(s.players, x, y);
    GameIndicesSameHolders(m.players, s.players, g);
    assert m.players[y] == s.players[y];
    assert !RoundReady(m.players, g);
  }

  /** The move that completes a pair resolves the round between the two and sends each its result. */
  lemma SecondMoveResolves(s: ServerState, x: nat, y: nat, a: string, b: string, copy: Copy)
    requires AtMostTwoPerGame(s.players) && x < |s.players| && y < |s.players| && x != y
    requires s.players[x].gameId != 0 && s.players[x].gameId == s.players[y].gameId
    requires s.players[x].hasMadeChoice && s.players[x].choice == Some(a)
    ensures var s' := Checked(Moved(s, y, b), s.players[x].gameId, copy);
      var ps := s.players;
      var t := Rules.ResultTexts(Some(a), Some(b));
      var u := Rules.ResultTexts(Some(b), Some(a));
      var prompts := if copy == ControlPanelCopy then [Send(ps[x].handle, Protocol.Choose), Send(ps[y].handle, Protocol.Choose)] else [];
      var swapped := if copy == ControlPanelCopy then [Send(ps[y].handle, Protocol.Choose), Send(ps[x].handle, Protocol.Choose)] else [];
      s'.players == ps[x := Cleared(ps[x])][y := Cleared(ps[y])] && s'.counter == s.counter &&
      (x < y ==> s'.outbox == s.outbox + [Send(ps[x].handle, t.0), Send(ps[y].handle, t.1)] + prompts) &&
      (y < x ==> s'.outbox == s.outbox + [Send(ps[y].handle, u.0), Send(ps[x].handle, u.1)] + swapped)
  {
    var g := s.players[x].gameId;
    var m := Moved(s, y, b);
    MovedPairScan(s, x, y, b);
    ClearPairAfterMove(s.players, x, y, b);
    if x < y {
      CheckedPair(m, g, x, y, copy);
    } else {
      CheckedPair(m, g, y, x, copy);
    }
  }

  /** After the second move the scan of the pair's game still finds exactly the pair, in list order. */
  lemma MovedPairScan(s: ServerState, x: nat, y: nat, b: string)
    requires AtMostTwoPerGame(s.players) && x < |s.players| && y < |s.players| && x != y
    requires s.players[x].gameId != 0 && s.players[x].gameId == s.players[y].gameId
    ensures var qs := Moved(s, y, b).players;
      GameIndices(qs, s.players[x].gameId) == (if x < y then [x, y] else [y, x]) &&
      qs[x] == s.players[x] && qs[y] == s.players[y].(choice := Some(b), hasMadeChoice := true)
  {
    PairIsTheGame(s.players, x, y);
    GameIndicesSameHolders(Moved(s, y, b).players, s.players, s.players[x].gameId);
  }

  /** A game whose two players have both moved is resolved between them, in list order. */
  lemma CheckedPair(m: ServerState, g: int, lo: nat, hi: nat, copy: Copy)
    requires lo < hi < |m.players| && GameIndices(m.players, g) == [lo, hi]
    requires m.players[lo].hasMadeChoice && m.players[hi].hasMadeChoice
    ensures Checked(m, g, copy) == Resolved(m, lo, hi, copy)
  {
  }

  /** Clearing both players after the second move leaves what clearing them before it would. */
  lemma ClearPairAfterMove(ps: seq<Player>, x: nat, y: nat, b: string)
    requires x < |ps| && y < |ps| && x != y
    ensures var qs := ps[y := ps[y].(choice := Some(b), hasMadeChoice := true)];
      var cleared := ps[x := Cleared(ps[x])][y := Cleared(ps[y])];
      qs[x := Cleared(qs[x])][y := Cleared(qs[y])] == cleared &&
      qs[y := Cleared(qs[y])][x := Cleared(qs[x])] == cleared
  {
    var qs := ps[y := ps[y].(choice := Some(b), hasMadeChoice := true)];
    assert Cleared(qs[y]) == Cleared(ps[y]) && qs[x] == ps[x];
  }

  /** Clearing both players after the first move restores players who had not moved. */
  lemma ClearPairRestores(ps: seq<Player>, x: nat, y: nat, a: string)
    requires x < |ps| && y < |ps| && x != y
    requires !ps[x].hasMadeChoice && ps[x].choice.None? && !ps[y].hasMadeChoice && ps[y].choice.None?
    ensures var qs := ps[x := ps[x].(hasMadeChoice := true, choice := Some(a))];
      qs[x := Cleared(qs[x])][y := Cleared(qs[y])] == ps
  {
    var qs := ps[x := ps[x].(hasMadeChoice := true, choice := Some(a))];
    assert Cleared(qs[x]) == ps[x] && Cleared(qs[y]) == ps[y];
  }

  /**
   * A round between two paired players who have not moved: the first move is
   * recorded and nothing is sent; the second resolves the round exactly once,
   * each player receiving the result the game's rule gives it (the order of the
   * two sends follows the list), the ControlPanel copy then prompting both
   * again; afterwards the registry is as it was before the round.
   */
  lemma RoundResolvedOnce(s: ServerState, ha: Handle, hb: Handle, a: string, b: string, copy: Copy)
    requires Inv(s) && ha != hb && Rules.IsMove(a) && Rules.IsMove(b)
    requires PositionOf(s.players, ha).Some? && PositionOf(s.players, hb).Some?
    requires var x, y := PositionOf(s.players, ha).value, PositionOf(s.players, hb).value;
      s.players[x].gameId != 0 && s.players[x].gameId == s.players[y].gameId &&
      !s.players[x].hasMadeChoice && !s.players[y].hasMadeChoice
    ensures var s1 := Submitted(s, ha, a, copy); var x := PositionOf(s.players, ha).value;
      s1.outbox == s.outbox && s1.counter == s.counter &&
      s1.players == s.players[x := s.players[x].(hasMadeChoice := true, choice := Some(a))]
    ensures var s2 := Submitted(Submitted(s, ha, a, copy), hb, b, copy);
      var t := Rules.ResultTexts(Some(a), Some(b));
      var results := [Send(ha, t.0), Send(hb, t.1)];
      var prompts := if copy == ControlPanelCopy then [Send(ha, Protocol.Choose), Send(hb, Protocol.Choose)] else [];
      s2.players == s.players && s2.counter == s.counter &&
      (s2.outbox == s.outbox + results + prompts ||
       s2.outbox == s.outbox + [results[1], results[0]] + (if prompts == [] then [] else [prompts[1], prompts[0]]))
  {
    var ps := s.players;
    var x, y := PositionOf(ps, ha).value, PositionOf(ps, hb).value;
    var g := ps[x].gameId;
    FirstMoveWaits(s, x, y, a, copy);
    var s1 := Moved(s, x, a);
    assert Submitted(s, ha, a, copy) == s1;
    MovedKeepsInv(s, x, a);
    PositionOfSameHandles(ps, s1.players, hb);
    assert s1.players[y] == ps[y] && s1.players[x].gameId == g;
    assert Submitted(s1, hb, b, copy) == Checked(Moved(s1, y, b), g, copy);
    SecondMoveResolves(s1, x, y, a, b, copy);
    var s2 := Checked(Moved(s1, y, b), g, copy);
    ClearPairRestores(ps, x, y, a);
    assert s1.players[x].handle == ha && s1.players[y].handle == hb;
    Rules.ResultTextsSwap(a, b);
  }

  // ---------------------------------------------------------------------------
  // Disconnection

  /** Removing position `k` shifts the later players down by one. */
  lemma RemoveAt(ps: seq<Player>, k: nat)
    requires k < |ps|
    ensures var rest := ps[..k] + ps[k + 1..];
      |rest| == |ps| - 1 && forall i :: 0 <= i < |rest| ==> rest[i] == ps[if i < k then i else i + 1]
  {
  }

  lemma RemovedKeepsHandles(ps: seq<Player>, k: nat)
    requires UniqueHandles(ps) && k < |ps|
    ensures UniqueHandles(ps[..k] + ps[k + 1..])
  {
    var rest := ps[..k] + ps[k + 1..];
    RemoveAt(ps, k);
    forall i, j | 0 <= i < j < |rest|
      ensures rest[i].handle != rest[j].handle
    {
      var i', j' := if i < k then i else i + 1, if j < k then j else j + 1;
      assert rest[i] == ps[i'] && rest[j] == ps[j'];
    }
  }

  lemma RemovedKeepsGames(ps: seq<Player>, k: nat)
    requires AtMostTwoPerGame(ps) && k < |ps|
    ensures AtMostTwoPerGame(ps[..k] + ps[k + 1..])
  {
    var rest := ps[..k] + ps[k + 1..];
    RemoveAt(ps, k);
    forall i, j, l | 0 <= i < j < l < |rest| && GameOf(rest, i) == GameOf(rest, j) && GameOf(rest, j) == GameOf(rest, l)
      ensures GameOf(rest, i) == 0
    {
      var i', j', l' := if i < k then i else i + 1, if j < k then j else j + 1, if l < k then l else l + 1;
      AtMostTwoAt(ps, i', j', l');
    }
  }

  lemma RemovedKeepsInv(s: ServerState, h: Handle)
    requires Inv(s)
    ensures Inv(Removed(s, h))
  {
    match PositionOf(s.players, h)
    case None =>
    case Some(k) =>
      RemovedKeepsHandles(s.players, k);
      RemovedKeepsGames(s.players, k);
  }

  lemma NotifiedKeepsInv(s: ServerState, gone: Player)
    requires Inv(s)
    ensures Inv(Notified(s, gone))
  {
    match FindOpponent(s.players, gone.gameId, gone.handle)
    case None =>
    case Some(k) =>
      var ps := s.players;
      var qs := Notified(s, gone).players;
      assert forall i :: 0 <= i < |qs| && i != k ==> qs[i] == ps[i];
      ZeroingKeepsAtMostTwo(ps, qs);
  }

  lemma DisconnectedKeepsInv(s: ServerState, h: Handle)
    requires Inv(s)
    ensures Inv(Disconnected(s, h))
  {
    match PositionOf(s.players, h)
    case None =>
    case Some(k) =>
      RemovedKeepsInv(s, h);
      NotifiedKeepsInv(Removed(s, h), s.players[k]);
  }

  /** Beside a player of a non-zero game there is at most one other holder of its id. */
  lemma OnlyOneOther(ps: seq<Player>, k: nat, i: nat, j: nat)
    requires AtMostTwoPerGame(ps) && k < |ps| && i < |ps| && j < |ps| && i != k && j != k
    requires ps[k].gameId != 0 && ps[i].gameId == ps[k].gameId && ps[j].gameId == ps[k].gameId
    ensures i == j
  {
    AtMostTwoAmong(ps, i, j, k);
  }

  /**
   * The end of a connection: the player is removed and no one else. If it was
   * in a game, the other player holding that id, if there is one, is sent
   * OPPONENT_DISCONNECTED and put back in the lobby with no move; nobody
   * else is changed or sent anything, and the counter is kept.
   */
  lemma DisconnectedSpec(s: ServerState, h: Handle)
    requires Inv(s) && PositionOf(s.players, h).Some?
    ensures var k := PositionOf(s.players, h).value;
      var g := s.players[k].gameId;
      var rest := s.players[..k] + s.players[k + 1..];
      var s' := Disconnected(s, h);
      s'.counter == s.counter && |s'.players| == |rest| == |s.players| - 1 &&
      (forall i :: 0 <= i < |s'.players| ==> s'.players[i].handle != h) &&
      (forall i :: 0 <= i < |rest| ==>
        s'.players[i] == if g != 0 && rest[i].gameId == g then Lobbied(rest[i]) else rest[i]) &&
      (forall i :: 0 <= i < |rest| && g != 0 && rest[i].gameId == g ==>
        s'.outbox == s.outbox + [Send(rest[i].handle, Protocol.OpponentDisconnected)]) &&
      ((g == 0 || forall i :: 0 <= i < |rest| ==> rest[i].gameId != g) ==> s'.outbox == s.outbox)
  {
    var ps := s.players;
    var k := PositionOf(ps, h).value;
    var g := ps[k].gameId;
    var rest := ps[..k] + ps[k + 1..];
    RemovedLeavesOthers(ps, h, k, rest);
    DisconnectedShape(s, h);
    if g != 0 && FindOpponent(rest, g, h).Some? {
      OnlyOpponent(ps, k, rest, FindOpponent(rest, g, h).value);
    }
  }

  /** Removing the player at `k`, found by handle `h`, leaves no player with handle `h`. */
  lemma RemovedLeavesOthers(ps: seq<Player>, h: Handle, k: nat, rest: seq<Player>)
    requires UniqueHandles(ps) && PositionOf(ps, h) == Some(k) && rest == ps[..k] + ps[k + 1..]
    ensures forall i :: 0 <= i < |rest| ==> rest[i].handle != h
  {
    RemoveAt(ps, k);
    forall i | 0 <= i < |rest|
      ensures rest[i].handle != h
    {
      assert rest[i] == ps[if i < k then i else i + 1];
    }
  }

  /** The state after a disconnection, case by case. */
  lemma DisconnectedShape(s: ServerState, h: Handle)
    requires PositionOf(s.players, h).Some?
    ensures var k := PositionOf(s.players, h).value;
      var g := s.players[k].gameId;
      var rest := s.players[..k] + s.players[k + 1..];
      var o := FindOpponent(rest, g, h);
      Disconnected(s, h) ==
        if g != 0 && o.Some? then
          ServerState(rest[o.value := Lobbied(rest[o.value])], s.counter,
                      s.outbox + [Send(rest[o.value].handle, Protocol.OpponentDisconnected)])
        else s.(players := rest)
  {
    var k := PositionOf(s.players, h).value;
    assert Removed(s, h).players == s.players[..k] + s.players[k + 1..];
  }

  /** After removing the player at `k`, the opponent found for its game is the only holder of that id. */
  lemma OnlyOpponent(ps: seq<Player>, k: nat, rest: seq<Player>, j: nat)
    requires AtMostTwoPerGame(ps) && k < |ps| && ps[k].gameId != 0 && rest == ps[..k] + ps[k + 1..]
    requires j < |rest| && rest[j].gameId == ps[k].gameId
    ensures forall i :: 0 <= i < |rest| && rest[i].gameId == ps[k].gameId ==> i == j
  {
    RemoveAt(ps, k);
    forall i | 0 <= i < |rest| && rest[i].gameId == ps[k].gameId
      ensures i == j
    {
      OnlyOneOther(ps, k, if i < k then i else i + 1, if j < k then j else j + 1);
    }
  }
}
