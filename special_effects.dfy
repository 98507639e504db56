/**
 * Resolving the Reveal power: the first face-down card of the current player's hand, in
 * hand order, is turned face up, and the effect record is cleared whether or not one was found.
 */
module SpecialEffects {
  import opened Cards
  import opened World

  /** Index of the first card of `hand[from..]` that exists and is face down. */
  function FirstFaceDown(hand: seq<CardId>, cards: map<CardId, Card>, from: nat): (r: Option<nat>)
    requires from <= |hand|
    decreases |hand| - from
    ensures r.Some? ==> from <= r.value < |hand| && hand[r.value] in cards && !cards[hand[r.value]].faceUp
    ensures r.Some? ==> forall j :: from <= j < r.value && hand[j] in cards ==> cards[hand[j]].faceUp
    ensures r.None? ==> forall j :: from <= j < |hand| && hand[j] in cards ==> cards[hand[j]].faceUp
  {
    if from == |hand| then None
    else if hand[from] in cards && !cards[hand[from]].faceUp then Some(from)
    else FirstFaceDown(hand, cards, from + 1)
  }

  /** The effect record with its card, type and awaiting flag reset. */
  function Cleared(e: SpecialCardEffect): SpecialCardEffect {
    e.(card := None, effectType := None, awaitingTarget := false)
  }

  function AfterReveal(b: Board): Board
    requires b.effect.Some?
  {
    var cur := b.turn.current;
    var cards :=
      if cur in b.players && cur in b.hands then
        match FirstFaceDown(b.hands[cur], b.cards, 0)
        case Some(j) => b.cards[b.hands[cur][j] := b.cards[b.hands[cur][j]].(faceUp := true)]
        case None => b.cards
      else b.cards;
    b.(cards := cards, effect := Some(Cleared(b.effect.value)))
  }

  method ExecuteRevealEffect(g: Game)
    requires g.effect.Some?
    modifies g
    ensures g.View() == AfterReveal(old(g.View()))
  {
    var cur := g.turn.current;
    if cur in g.players && cur in g.hands {
      var hand := g.hands[cur];
      var j := 0;
      while j < |hand|
        invariant j <= |hand|
        invariant FirstFaceDown(hand, g.cards, 0) == FirstFaceDown(hand, g.cards, j)
        invariant g.View() == old(g.View())
      {
        var id := hand[j];
        if id in g.cards {
          if !g.cards[id].faceUp {
            g.cards := g.cards[id := g.cards[id].(faceUp := true)];
            g.effect := Some(g.effect.value.(card := None));
            g.effect := Some(g.effect.value.(effectType := None));
            g.effect := Some(g.effect.value.(awaitingTarget := false));
            return;
          }
        }
        j := j + 1;
      }
    }
    g.effect := Some(g.effect.value.(card := None));
    g.effect := Some(g.effect.value.(effectType := None));
    g.effect := Some(g.effect.value.(awaitingTarget := false));
  }

  /**
   * Reveal turns face up exactly the first face-down card of the current player's hand list;
   * every earlier card of that list is already face up, no other card changes, and neither the
   * turn nor any container changes.
   */
  lemma RevealFlipsFirstFaceDown(b: Board)
    requires b.effect.Some?
    requires b.turn.current in b.players && b.turn.current in b.hands
    requires FirstFaceDown(b.hands[b.turn.current], b.cards, 0).Some?
    ensures var hand := b.hands[b.turn.current];
      var j := FirstFaceDown(hand, b.cards, 0).value;
      var r := AfterReveal(b);
      && r.cards.Keys == b.cards.Keys
      && !b.cards[hand[j]].faceUp && r.cards[hand[j]] == b.cards[hand[j]].(faceUp := true)
      && (forall k :: 0 <= k < j && hand[k] in b.cards ==> b.cards[hand[k]].faceUp)
      && (forall id :: id in b.cards && id != hand[j] ==> r.cards[id] == b.cards[id])
      && r == b.(cards := r.cards, effect := r.effect)
  {
  }

  /** With no face-down card in the hand (or no hand), Reveal changes no card. */
  lemma RevealWithoutFaceDownCard(b: Board)
    requires b.effect.Some?
    requires b.turn.current in b.players && b.turn.current in b.hands ==>
      forall id :: id in b.hands[b.turn.current] && id in b.cards ==> b.cards[id].faceUp
    ensures AfterReveal(b).cards == b.cards
  {
    var cur := b.turn.current;
    if cur in b.players && cur in b.hands {
      var f := FirstFaceDown(b.hands[cur], b.cards, 0);
      assert forall j :: 0 <= j < |b.hands[cur]| && b.hands[cur][j] in b.cards ==> b.cards[b.hands[cur][j]].faceUp;
      assert f.None?;
    }
  }

  /** Reveal always ends the effect: no card, no type, no awaited target; the other fields are kept. */
  lemma RevealClearsEffect(b: Board)
    requires b.effect.Some?
    ensures var e := AfterReveal(b).effect;
      && e.Some? && e.value.card.None? && e.value.effectType.None? && !e.value.awaitingTarget
      && e.value.targetPlayer == b.effect.value.targetPlayer
      && e.value.awaitingOwnCard == b.effect.value.awaitingOwnCard
      && e.value.ownCard == b.effect.value.ownCard
      && e.value.targetCard == b.effect.value.targetCard
  {
  }

  lemma RevealConsistent(b: Board)
    requires b.effect.Some? && Consistent(b)
    ensures Consistent(AfterReveal(b))
  {
    SameZonesConsistent(b, AfterReveal(b));
  }
}
