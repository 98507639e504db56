/**
 * The drawn-card slot rule (`World.SingleDrawn`: at most one drawn card, the current
 * player's, with the draw recorded in the turn) kept by every system of the current game
 * flow, and broken by the older D key.
 */
module DrawnSlot {
  import opened Cards
  import opened Seqs
  import opened World
  import opened CardUtils
  import opened CardHandles
  import opened CardSystem
  import opened HandSystem
  import opened RoundEnd
  import opened SpecialCards
  import opened SpecialEffects
  import opened DeckSystem
  import opened TurnPlayer
  import opened LegacyTurnPlayer

  /** A deck draw is allowed only while nothing is drawn, and draws exactly one card for the current player. */
  lemma DeckClickSingleDrawn(b: Board)
    requires SingleDrawn(b)
    ensures SingleDrawn(AfterDeckClick(b))
  {
    if !b.turn.hasDrawnCard && |b.deck| > 0 {
      assert NoDrawn(b);
    }
  }

  /** A graveyard draw is allowed only while nothing is drawn, and draws exactly one card for the current player. */
  lemma GraveyardClickSingleDrawn(b: Board)
    requires SingleDrawn(b)
    ensures SingleDrawn(AfterGraveyardClick(b))
  {
    if !b.turn.hasDrawnCard && |b.graveyard| > 0 {
      assert NoDrawn(b);
    }
  }

  /** A discard empties the slot: the one drawn card goes to the graveyard, so no card is drawn afterwards. */
  lemma DiscardEmptiesSlot(b: Board, id: CardId)
    requires SingleDrawn(b) && CanDiscard(b, id)
    ensures NoDrawn(AfterDiscard(b, id))
  {
    var m := b.(cards := b.cards[id := b.cards[id].(zone := Graveyard, faceUp := true)],
                graveyard := b.graveyard + [id],
                selected := {});
    forall o | o in m.cards ensures !m.cards[o].zone.DrawnCard? {
      if o != id {
        assert b.cards[o].zone.DrawnCard? ==> o == id;
      }
    }
    ChangeTurnOnlyTouchesTurn(m);
  }

  lemma DiscardSingleDrawn(b: Board, id: CardId)
    requires SingleDrawn(b)
    ensures SingleDrawn(AfterDiscard(b, id))
  {
    if CanDiscard(b, id) {
      DiscardEmptiesSlot(b, id);
      NoDrawnSingle(AfterDiscard(b, id));
    }
  }

  /** A swap empties the slot: the one drawn card goes into the hand, so no card is drawn afterwards. */
  lemma SwapEmptiesSlot(b: Board, clicked: CardId)
    requires SingleDrawn(b) && CanSwap(b, clicked)
    ensures NoDrawn(AfterSwap(b, clicked))
  {
    var d := DrawnCardOf(b, b.turn.current).value;
    var m := Exchanged(b, clicked);
    forall o | o in m.cards ensures !m.cards[o].zone.DrawnCard? {
      if o != d && o != clicked {
        assert b.cards[o].zone.DrawnCard? ==> o == d;
      }
    }
    ChangeTurnOnlyTouchesTurn(m);
  }

  lemma SwapSingleDrawn(b: Board, clicked: CardId)
    requires SingleDrawn(b)
    ensures SingleDrawn(AfterSwap(b, clicked))
  {
    if CanSwap(b, clicked) {
      SwapEmptiesSlot(b, clicked);
      NoDrawnSingle(AfterSwap(b, clicked));
    }
  }

  lemma CardClickSingleDrawn(b: Board, id: CardId, now: real)
    requires SingleDrawn(b)
    ensures SingleDrawn(AfterCardClick(b, id, now))
  {
    if CanDiscard(b, id) {
      DiscardSingleDrawn(b, id);
    } else if IsDoubleClick(b.clicks, id, now) {
      SwapSingleDrawn(b, id);
    } else {
      NoNewDrawn(b, AfterCardClick(b, id, now));
    }
  }

  /** Every outcome of a left click keeps the slot rule. */
  lemma SelectionSingleDrawn(b: Board, pressed: bool, hit: Hit, now: real)
    requires SingleDrawn(b)
    ensures SingleDrawn(AfterSelection(b, pressed, hit, now))
  {
    if !pressed {
    } else if AwaitingTarget(b) && hit.card.Some? {
      NoNewDrawn(b, AfterTargetClick(b, hit.card.value));
    } else if AwaitingOwnCard(b) && hit.card.Some? {
      NoNewDrawn(b, AfterOwnCardClick(b, hit.card.value));
    } else if hit.deck {
      DeckClickSingleDrawn(b);
    } else if hit.graveyard {
      GraveyardClickSingleDrawn(b);
    } else if hit.card.Some? {
      CardClickSingleDrawn(b, hit.card.value, now);
    } else {
      NoNewDrawn(b, b.(selected := {}));
    }
  }

  /** The inner deal loop only moves cards into a hand: it creates no drawn card. */
  lemma {:induction false} DealIntoNoNewDrawn(cards: map<CardId, Card>, ids: seq<CardId>, p: PlayerId, seat: nat, j: nat)
    requires j <= |ids|
    decreases |ids| - j
    ensures var r := DealInto(cards, ids, p, seat, j);
      forall id :: id in r && r[id].zone.DrawnCard? ==> id in cards && cards[id].zone == r[id].zone
  {
    if j < |ids| {
      var next := if ids[j] in cards then cards[ids[j] := Dealt(cards[ids[j]], p, seat, j)] else cards;
      DealIntoNoNewDrawn(next, ids, p, seat, j + 1);
    }
  }

  /** Dealing from seat `s` on keeps the turn and creates no drawn card. */
  lemma {:induction false} DealFromNoNewDrawn(b: Board, s: nat)
    requires s <= |b.players|
    decreases |b.players| - s
    ensures var r := DealFrom(b, s);
      && r.turn == b.turn
      && forall id :: id in r.cards && r.cards[id].zone.DrawnCard? ==> id in b.cards && b.cards[id].zone == r.cards[id].zone
  {
    if s < |b.players| {
      var m := DealOne(b, s);
      if |b.deck| >= 4 {
        DealIntoNoNewDrawn(b.cards, b.deck[..4], b.players[s], s, 0);
      }
      DealFromNoNewDrawn(m, s + 1);
    }
  }

  lemma DealSingleDrawn(b: Board)
    requires SingleDrawn(b)
    ensures SingleDrawn(AfterDeal(b))
  {
    DealFromNoNewDrawn(b, 0);
    NoNewDrawn(b, AfterDeal(b));
  }

  lemma RevealAllSingleDrawn(b: Board)
    requires SingleDrawn(b)
    ensures SingleDrawn(AfterRevealAll(b))
  {
    NoNewDrawn(b, AfterRevealAll(b));
  }

  lemma DetectSpecialSingleDrawn(b: Board, keyE: bool)
    requires SingleDrawn(b)
    ensures SingleDrawn(AfterDetectSpecial(b, keyE))
  {
    NoNewDrawn(b, AfterDetectSpecial(b, keyE));
  }

  lemma RevealEffectSingleDrawn(b: Board)
    requires SingleDrawn(b) && b.effect.Some?
    ensures SingleDrawn(AfterReveal(b))
  {
    NoNewDrawn(b, AfterReveal(b));
  }

  /** A new round leaves no card at all, hence none drawn. */
  lemma NewRoundSingleDrawn(b: Board, keyN: bool)
    requires SingleDrawn(b)
    ensures SingleDrawn(AfterNewRound(b, keyN))
    ensures keyN ==> NoDrawn(AfterNewRound(b, keyN))
  {
  }

  /** Spawned cards start in the deck; the cards that existed are untouched. */
  lemma SpawnSingleDrawn(b: Board, perm: seq<nat>)
    requires IsPermutation(perm, 48) && WellFormed(b) && SingleDrawn(b)
    ensures SingleDrawn(AfterSpawn(b, perm))
  {
    var r := AfterSpawn(b, perm);
    SpawnKeepsOldCards(b, perm);
    forall id | id in r.cards && r.cards[id].zone.DrawnCard?
      ensures id in b.cards && b.cards[id].zone == r.cards[id].zone
    {
      if id !in b.cards {
        SpawnedCard(b, perm, IndexOf(r.deck, id));
      }
    }
    NoNewDrawn(b, r);
  }

  /** Starting the turn clears the drawn flag, so it needs an empty slot, as after dealing a fresh round. */
  lemma StartTurnSingleDrawn(b: Board)
    requires NoDrawn(b)
    ensures SingleDrawn(AfterStartTurn(b)) && NoDrawn(AfterStartTurn(b))
    ensures |b.players| > 0 ==> !AfterStartTurn(b).turn.hasDrawnCard
  {
  }

  lemma EndRoundSingleDrawn(b: Board, keyR: bool)
    requires SingleDrawn(b)
    ensures SingleDrawn(AfterEndRound(b, keyR))
  {
    NoNewDrawn(b, AfterEndRound(b, keyR));
  }

  /** The older D key has no draw-once guard: pressed twice on a fresh turn, it leaves two drawn cards. */
  lemma LegacyDrawBreaksSingleDrawn(b: Board)
    requires Placed(b) && |b.deck| >= 2 && NoDrawn(b) && !b.turn.hasDrawnCard
    ensures SingleDrawn(b)
    ensures !SingleDrawn(AfterLegacyDraw(AfterLegacyDraw(b, true), true))
  {
    LegacyDrawTwiceTakesTwo(b);
    assert b.deck[0] != b.deck[1];
  }
}
