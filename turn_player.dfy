/**
 * The current turn module: entering setup hands the first turn to the first player, and the
 * R key ends the round at any point of a turn.
 */
module TurnPlayer {
  import opened Cards
  import opened World
  import opened CardHandles

  function AfterStartTurn(b: Board): Board {
    if |b.players| > 0 then b.(turn := Turn(b.players[0], false), state := PlayerTurn)
    else b
  }

  method StartTurn(g: Game)
    modifies g
    ensures g.View() == AfterStartTurn(old(g.View()))
  {
    if |g.players| > 0 {
      g.turn := Turn(g.players[0], false);
      g.state := PlayerTurn;
    }
  }

  function AfterEndRound(b: Board, keyR: bool): Board {
    if keyR then b.(state := RoundEnd) else b
  }

  method EndRound(g: Game, keyR: bool)
    modifies g
    ensures g.View() == AfterEndRound(old(g.View()), keyR)
  {
    if keyR {
      g.state := RoundEnd;
    }
  }

  /**
   * With a player, the first player holds the turn, has not drawn, and play begins; only the
   * turn and the state change. Without players nothing changes.
   */
  lemma StartTurnEffect(b: Board)
    ensures var r := AfterStartTurn(b);
      && (|b.players| > 0 ==> r.turn == Turn(b.players[0], false) && r.state == PlayerTurn)
      && (|b.players| > 0 ==> r == b.(turn := r.turn, state := r.state))
      && (b.players == [] ==> r == b)
  {
  }

  /** The first player may draw right away: a deck click after the start draws for them. */
  lemma FirstPlayerDrawsFirst(b: Board)
    requires b.players != [] && b.deck != [] && b.deck[0] in b.cards
    ensures var r := AfterDeckClick(AfterStartTurn(b));
      && r.cards[b.deck[0]].zone == DrawnCard(b.players[0])
      && r.turn == Turn(b.players[0], true)
  {
    DeckClickDraws(AfterStartTurn(b));
  }

  lemma StartTurnConsistent(b: Board)
    requires Consistent(b)
    ensures Consistent(AfterStartTurn(b))
  {
  }

  /**
   * The R key ends the round whatever the turn holds, even before or after a draw; without it
   * nothing changes.
   */
  lemma EndRoundAnyTime(b: Board, keyR: bool)
    ensures keyR ==> forall t: Turn :: AfterEndRound(b.(turn := t), keyR).state == RoundEnd
    ensures !keyR ==> AfterEndRound(b, keyR) == b
  {
  }

  lemma EndRoundConsistent(b: Board, keyR: bool)
    requires Consistent(b)
    ensures Consistent(AfterEndRound(b, keyR))
  {
  }
}
