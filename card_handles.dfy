/**
 * What a click does once the dispatcher knows what it hit: drawing from the deck,
 * drawing from the graveyard, or clicking a card (discard, double-click swap, or select).
 */
module CardHandles {
  import opened Cards
  import opened Seqs
  import opened World
  import opened CardUtils

  /** Deck draw: blocked once the player has drawn this turn or when the deck is empty; takes index 0. */
  function AfterDeckClick(b: Board): Board {
    if b.turn.hasDrawnCard || |b.deck| == 0 then b
    else
      var id := b.deck[0];
      var rest := b.(deck := b.deck[1..]);
      if id in b.cards then
        rest.(cards := b.cards[id := Drawn(b.cards[id], b.turn.current)],
              turn := b.turn.(hasDrawnCard := true))
      else rest
  }

  method HandleDeckClick(g: Game)
    modifies g
    ensures g.View() == AfterDeckClick(old(g.View()))
  {
    if g.turn.hasDrawnCard {
      return;
    }
    if |g.deck| == 0 {
      return;
    }
    var id := g.deck[0];
    g.deck := g.deck[1..];
    if id in g.cards {
      g.cards := g.cards[id := Drawn(g.cards[id], g.turn.current)];
      g.turn := g.turn.(hasDrawnCard := true);
    }
  }

  /** Graveyard draw: the same guards, but pops the last (top) card. */
  function AfterGraveyardClick(b: Board): Board {
    if b.turn.hasDrawnCard || |b.graveyard| == 0 then b
    else
      var id := b.graveyard[|b.graveyard| - 1];
      var rest := b.(graveyard := b.graveyard[..|b.graveyard| - 1]);
      if id in b.cards then
        rest.(cards := b.cards[id := Drawn(b.cards[id], b.turn.current)],
              turn := b.turn.(hasDrawnCard := true))
      else rest
  }

  method HandleGraveyardClick(g: Game)
    modifies g
    ensures g.View() == AfterGraveyardClick(old(g.View()))
  {
    if g.turn.hasDrawnCard {
      return;
    }
    if |g.graveyard| == 0 {
      return;
    }
    var id := g.graveyard[|g.graveyard| - 1];
    g.graveyard := g.graveyard[..|g.graveyard| - 1];
    if id in g.cards {
      g.cards := g.cards[id := Drawn(g.cards[id], g.turn.current)];
      g.turn := g.turn.(hasDrawnCard := true);
    }
  }

  /** A second click on the same card within the time window. */
  predicate IsDoubleClick(dc: DoubleClick, id: CardId, now: real) {
    dc.lastCard == Some(id) && now - dc.lastClickTime <= dc.timeLimit
  }

  /** Card click: the current player's drawn card is discarded; otherwise a double click swaps and a single click selects. */
  function AfterCardClick(b: Board, id: CardId, now: real): Board {
    if CanDiscard(b, id) then AfterDiscard(b, id)
    else if IsDoubleClick(b.clicks, id, now) then AfterSwap(b, id)
    else b.(selected := {id}, clicks := b.clicks.(lastCard := Some(id), lastClickTime := now))
  }

  method HandleCardClick(g: Game, id: CardId, now: real)
    modifies g
    ensures g.View() == AfterCardClick(old(g.View()), id, now)
  {
    if id in g.cards && g.cards[id].zone == DrawnCard(g.turn.current) {
      DiscardCard(g, id);
      return;
    }
    var isDoubleClick := false;
    if g.clicks.lastCard == Some(id) {
      if now - g.clicks.lastClickTime <= g.clicks.timeLimit {
        isDoubleClick := true;
      }
    }
    if isDoubleClick {
      CardSwap(g, id);
    } else {
      g.ClearSelection();
      g.selected := g.selected + {id};
      g.clicks := g.clicks.(lastCard := Some(id), lastClickTime := now);
    }
  }

  /** A deck draw after the player has drawn, or on an empty deck, changes nothing. */
  lemma DeckClickBlocked(b: Board)
    requires b.turn.hasDrawnCard || b.deck == []
    ensures AfterDeckClick(b) == b
  {
  }

  /**
   * A deck draw removes exactly the first deck card, keeps the rest in order, and gives that
   * card to the current player as a face-up drawn card; nothing else changes.
   */
  lemma DeckClickDraws(b: Board)
    requires !b.turn.hasDrawnCard && b.deck != [] && b.deck[0] in b.cards
    ensures var r := AfterDeckClick(b); var id := b.deck[0];
      && b.deck == [id] + r.deck
      && r.cards.Keys == b.cards.Keys
      && r.cards[id].zone == DrawnCard(b.turn.current)
      && r.cards[id].owner == Some(b.turn.current) && r.cards[id].faceUp
      && (forall o :: o in b.cards && o != id ==> r.cards[o] == b.cards[o])
      && r.turn == Turn(b.turn.current, true)
      && r.graveyard == b.graveyard && r.hands == b.hands && r.effect == b.effect
  {
  }

  /** A graveyard draw after the player has drawn, or on an empty graveyard, changes nothing. */
  lemma GraveyardClickBlocked(b: Board)
    requires b.turn.hasDrawnCard || b.graveyard == []
    ensures AfterGraveyardClick(b) == b
  {
  }

  /** A graveyard draw pops the top card and gives it to the current player as a face-up drawn card. */
  lemma GraveyardClickDraws(b: Board)
    requires !b.turn.hasDrawnCard && b.graveyard != [] && b.graveyard[|b.graveyard| - 1] in b.cards
    ensures var r := AfterGraveyardClick(b); var id := b.graveyard[|b.graveyard| - 1];
      && b.graveyard == r.graveyard + [id]
      && r.cards.Keys == b.cards.Keys
      && r.cards[id].zone == DrawnCard(b.turn.current)
      && r.cards[id].owner == Some(b.turn.current) && r.cards[id].faceUp
      && (forall o :: o in b.cards && o != id ==> r.cards[o] == b.cards[o])
      && r.turn == Turn(b.turn.current, true)
      && r.deck == b.deck && r.hands == b.hands && r.effect == b.effect
      && r.cards[id] == Drawn(b.cards[id], b.turn.current)
      && r == b.(graveyard := r.graveyard, cards := r.cards, turn := r.turn)
  {
  }

  /** Neither draw changes whose turn it is. */
  lemma DrawsKeepCurrentPlayer(b: Board)
    ensures AfterDeckClick(b).turn.current == b.turn.current
    ensures AfterGraveyardClick(b).turn.current == b.turn.current
  {
  }

  /** With the zone invariant, a second deck draw in the same turn changes nothing. */
  lemma DeckClickTwiceIsOnce(b: Board)
    requires Placed(b)
    ensures AfterDeckClick(AfterDeckClick(b)) == AfterDeckClick(b)
  {
  }

  lemma DeckClickConsistent(b: Board)
    requires Consistent(b)
    ensures Consistent(AfterDeckClick(b))
    ensures AfterDeckClick(b).cards.Keys == b.cards.Keys
  {
    if !b.turn.hasDrawnCard && b.deck != [] {
      TailNoDup(b.deck, 1);
      assert b.deck == b.deck[..1] + b.deck[1..];
    }
  }

  /** Taking the top of the graveyard leaves every other card where its tag says, and the taken one in no container. */
  lemma GraveyardTakeTagsHeld(b: Board)
    requires Consistent(b) && !b.turn.hasDrawnCard && b.graveyard != []
    ensures forall id :: id in AfterGraveyardClick(b).cards ==> InItsContainer(AfterGraveyardClick(b), id)
  {
    var r := AfterGraveyardClick(b);
    var n := |b.graveyard| - 1;
    assert b.graveyard == b.graveyard[..n] + [b.graveyard[n]];
    forall id | id in r.cards ensures InItsContainer(r, id) {
      if id != b.graveyard[n] {
        assert InItsContainer(b, id);
      }
    }
  }

  /** Taking the top of the graveyard leaves the rest of it duplicate-free and still tagged as graveyard cards. */
  lemma GraveyardTakeRestTagged(b: Board)
    requires Consistent(b) && !b.turn.hasDrawnCard && b.graveyard != []
    ensures var r := AfterGraveyardClick(b);
      && NoDup(r.graveyard)
      && forall id :: id in r.graveyard ==> id in r.cards && r.cards[id].zone == Graveyard
  {
    var n := |b.graveyard| - 1;
    TailNoDup(b.graveyard, n);
    assert b.graveyard == b.graveyard[..n] + b.graveyard[n..];
  }

  lemma GraveyardClickConsistent(b: Board)
    requires Consistent(b)
    ensures Consistent(AfterGraveyardClick(b))
    ensures AfterGraveyardClick(b).cards.Keys == b.cards.Keys
  {
    if !b.turn.hasDrawnCard && b.graveyard != [] {
      GraveyardTakeTagsHeld(b);
      GraveyardTakeRestTagged(b);
    }
  }

  /**
   * Drawing from the deck and then discarding or swapping keeps every card in exactly one
   * place and changes the set of cards not at all.
   */
  lemma DrawThenResolveKeepsPlacement(b: Board, clicked: CardId, discard: bool)
    requires Consistent(b)
    ensures var r := if discard then AfterDiscard(AfterDeckClick(b), clicked)
                     else AfterSwap(AfterDeckClick(b), clicked);
      Consistent(r) && r.cards.Keys == b.cards.Keys
  {
    DeckClickConsistent(b);
    var m := AfterDeckClick(b);
    if discard {
      DiscardConsistent(m, clicked);
      if CanDiscard(m, clicked) { DiscardEffect(m, clicked); }
    } else {
      SwapConsistent(m, clicked);
      if CanSwap(m, clicked) { SwapEffect(m, clicked); }
    }
  }

  /** Clicking the current player's drawn card always discards it, whatever the click timing. */
  lemma DrawnCardClickDiscards(b: Board, id: CardId, now: real)
    requires CanDiscard(b, id)
    ensures AfterCardClick(b, id, now) == AfterDiscard(b, id)
    ensures AfterCardClick(b, id, now).clicks == b.clicks
  {
  }

  /** A single click selects exactly the clicked card and remembers it and the time. */
  lemma SingleClickSelects(b: Board, id: CardId, now: real)
    requires !CanDiscard(b, id) && !IsDoubleClick(b.clicks, id, now)
    ensures var r := AfterCardClick(b, id, now);
      && r.selected == {id}
      && r.clicks == DoubleClick(Some(id), now, b.clicks.timeLimit)
      && r == b.(selected := {id}, clicks := r.clicks)
  {
  }

  /**
   * Two clicks on the same card that is not the drawn card: the second one, if it comes within
   * the time window, is a swap request; if it comes later, it re-selects the card with the new time.
   */
  lemma SecondClickOnSameCard(b: Board, id: CardId, t1: real, t2: real)
    requires !CanDiscard(b, id) && !IsDoubleClick(b.clicks, id, t1)
    ensures var b1 := AfterCardClick(b, id, t1);
      && (t2 - t1 <= b.clicks.timeLimit ==> AfterCardClick(b1, id, t2) == AfterSwap(b1, id))
      && (t2 - t1 > b.clicks.timeLimit ==>
            AfterCardClick(b1, id, t2).selected == {id} &&
            AfterCardClick(b1, id, t2).clicks.lastClickTime == t2)
  {
  }

  lemma CardClickConsistent(b: Board, id: CardId, now: real)
    requires Consistent(b)
    ensures Consistent(AfterCardClick(b, id, now))
  {
    if CanDiscard(b, id) {
      DiscardConsistent(b, id);
    } else if IsDoubleClick(b.clicks, id, now) {
      SwapConsistent(b, id);
    } else {
      SameZonesConsistent(b, AfterCardClick(b, id, now));
    }
  }
}
