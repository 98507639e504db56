/**
 * The older turn module, kept beside the current one: its turn record names only the current
 * player (the drawn flag is left alone here), Space passes the turn, and the D key draws the
 * first deck card with no draw-once guard.
 */
module LegacyTurnPlayer {
  import opened Cards
  import opened Seqs
  import opened World
  import opened CardUtils
  import opened CardHandles

  function AfterLegacyStartTurn(b: Board): Board {
    if |b.players| > 0 then b.(turn := b.turn.(current := b.players[0]), state := PlayerTurn)
    else b
  }

  method LegacyStartTurn(g: Game)
    modifies g
    ensures g.View() == AfterLegacyStartTurn(old(g.View()))
  {
    if |g.players| > 0 {
      g.turn := g.turn.(current := g.players[0]);
      g.state := PlayerTurn;
    }
  }

  function AfterLegacyNextTurn(b: Board, space: bool): Board {
    if !space then b
    else match Successor(b.players, b.turn.current)
      case None => b
      case Some(q) => b.(turn := b.turn.(current := q))
  }

  method LegacyNextTurn(g: Game, space: bool)
    modifies g
    ensures g.View() == AfterLegacyNextTurn(old(g.View()), space)
  {
    if space {
      var players := g.players;
      var pos := 0;
      while pos < |players| && players[pos] != g.turn.current
        invariant pos <= |players|
        invariant forall j :: 0 <= j < pos ==> players[j] != g.turn.current
      {
        pos := pos + 1;
      }
      if pos < |players| {
        assert IndexOf(players, g.turn.current) == pos;
        NextSeatMod(pos, |players|);
        g.turn := g.turn.(current := players[(pos + 1) % |players|]);
      }
    }
  }

  function AfterLegacyDraw(b: Board, keyD: bool): Board {
    if !keyD || |b.deck| == 0 then b
    else
      var id := b.deck[0];
      var rest := b.(deck := b.deck[1..]);
      if id in b.cards then rest.(cards := b.cards[id := Drawn(b.cards[id], b.turn.current)])
      else rest
  }

  method LegacyDraw(g: Game, keyD: bool)
    modifies g
    ensures g.View() == AfterLegacyDraw(old(g.View()), keyD)
  {
    if keyD {
      if |g.deck| == 0 {
        return;
      }
      var id := g.deck[0];
      g.deck := g.deck[1..];
      if id in g.cards {
        var c := g.cards[id];
        c := c.(zone := DrawnCard(g.turn.current));
        c := c.(owner := Some(g.turn.current));
        c := c.(faceUp := true);
        g.cards := g.cards[id := c];
      }
    }
  }

  /** Start gives the turn to the first player and starts play; without players nothing changes. */
  lemma LegacyStartTurnEffect(b: Board)
    ensures var r := AfterLegacyStartTurn(b);
      && (|b.players| > 0 ==>
            && r.turn.current == b.players[0] && r.state == PlayerTurn
            && r == b.(turn := r.turn, state := r.state) && r.turn.hasDrawnCard == b.turn.hasDrawnCard)
      && (b.players == [] ==> r == b)
  {
  }

  /**
   * Space passes the turn to the next seated player, wrapping after the last; an unseated
   * current player, or no Space, leaves the board unchanged. Nothing but the current player changes.
   */
  lemma LegacyNextTurnEffect(b: Board, space: bool, j: nat)
    requires NoDup(b.players) && j < |b.players| && b.turn.current == b.players[j]
    ensures var r := AfterLegacyNextTurn(b, space);
      && (space ==> r.turn.current == b.players[if j + 1 < |b.players| then j + 1 else 0])
      && (space ==> r == b.(turn := b.turn.(current := r.turn.current)))
      && (!space ==> r == b)
  {
    SuccessorAt(b.players, j);
  }

  lemma LegacyNextTurnUnseated(b: Board, space: bool)
    requires b.turn.current !in b.players
    ensures AfterLegacyNextTurn(b, space) == b
  {
  }

  /** The legacy pass agrees with the current change of turn on who plays next. */
  lemma LegacyNextTurnAgrees(b: Board)
    ensures AfterLegacyNextTurn(b, true).turn.current == AfterChangeTurn(b).turn.current
  {
  }

  /**
   * Without D, or with an empty deck, nothing changes; otherwise the first deck card becomes
   * the current player's face-up drawn card and the rest of the deck keeps its order.
   */
  lemma LegacyDrawEffect(b: Board, keyD: bool)
    ensures !keyD || b.deck == [] ==> AfterLegacyDraw(b, keyD) == b
    ensures keyD && b.deck != [] && b.deck[0] in b.cards ==>
      var r := AfterLegacyDraw(b, keyD); var id := b.deck[0];
      && b.deck == [id] + r.deck
      && r.cards[id] == Drawn(b.cards[id], b.turn.current)
      && (forall o :: o in b.cards && o != id ==> r.cards[o] == b.cards[o])
      && r.turn == b.turn
  {
    if keyD && b.deck != [] {
      assert b.deck == [b.deck[0]] + b.deck[1..];
    }
  }

  /**
   * With no draw-once guard, two D presses take the first two deck cards, both drawn by the
   * same player, while a second deck click in the current module changes nothing.
   */
  lemma LegacyDrawTwiceTakesTwo(b: Board)
    requires Placed(b) && |b.deck| >= 2 && !b.turn.hasDrawnCard
    ensures var r := AfterLegacyDraw(AfterLegacyDraw(b, true), true);
      && r.deck == b.deck[2..]
      && r.cards[b.deck[0]].zone == DrawnCard(b.turn.current)
      && r.cards[b.deck[1]].zone == DrawnCard(b.turn.current)
    ensures |AfterDeckClick(AfterDeckClick(b)).deck| == |b.deck| - 1
  {
    assert b.deck[0] != b.deck[1];
    DeckClickTwiceIsOnce(b);
  }

  /** The legacy draw keeps every card in one place, though the player may then hold two drawn cards. */
  lemma LegacyDrawConsistent(b: Board, keyD: bool)
    requires Consistent(b)
    ensures Consistent(AfterLegacyDraw(b, keyD))
  {
    if keyD && b.deck != [] {
      TailNoDup(b.deck, 1);
      assert b.deck == b.deck[..1] + b.deck[1..];
    }
  }
}
