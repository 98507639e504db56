/**
 * Activating a power card: on the E key, the current player's drawn card of value 11, 9 or 7
 * starts a Shuffle, Reveal or Swap effect; Shuffle and Swap then wait for a target.
 */
module SpecialCards {
  import opened Cards
  import opened World
  import opened CardHandles
  import opened CardSystem

  /** The power of a card value. */
  function EffectOf(value: nat): Option<SpecialEffect> {
    match value
    case 11 => Some(Shuffle)
    case 9 => Some(Reveal)
    case 7 => Some(Swap)
    case _ => None
  }

  /** Only 7, 9 and 11 are power values, and the three powers are distinct. */
  lemma PowerValues(value: nat)
    ensures EffectOf(value).Some? <==> value == 7 || value == 9 || value == 11
    ensures EffectOf(value) == Some(Shuffle) <==> value == 11
    ensures EffectOf(value) == Some(Reveal) <==> value == 9
    ensures EffectOf(value) == Some(Swap) <==> value == 7
  {
  }

  /** The effect record once `d`, of power `k`, is activated: a new record, or the old one with three fields rewritten. */
  function Activated(effect: Option<SpecialCardEffect>, d: CardId, k: SpecialEffect): SpecialCardEffect {
    var awaiting := k == Shuffle || k == Swap;
    match effect
    case Some(e) => e.(card := Some(d), effectType := Some(k), awaitingTarget := awaiting)
    case None => SpecialCardEffect(Some(d), Some(k), awaiting, None, false, None, None)
  }

  function AfterDetectSpecial(b: Board, keyE: bool): Board {
    if AwaitingTarget(b) || !keyE then b
    else match DrawnCardOf(b, b.turn.current)
      case None => b
      case Some(d) =>
        match EffectOf(b.cards[d].value)
        case None => b
        case Some(k) => b.(effect := Some(Activated(b.effect, d, k)))
  }

  method DetectSpecialCard(g: Game, keyE: bool)
    modifies g
    ensures g.View() == AfterDetectSpecial(old(g.View()), keyE)
  {
    if g.effect.Some? && g.effect.value.awaitingTarget {
      return;
    }
    if !keyE {
      return;
    }
    var drawn := FindDrawn(g.cards, g.turn.current, 0, g.nextId);
    if drawn.Some? {
      var d := drawn.value;
      var kind := EffectOf(g.cards[d].value);
      if kind.Some? {
        var k := kind.value;
        var awaiting := k == Shuffle || k == Swap;
        match g.effect {
          case Some(e) =>
            e := e.(card := Some(d));
            e := e.(effectType := Some(k));
            e := e.(awaitingTarget := awaiting);
            g.effect := Some(e);
          case None =>
            g.effect := Some(SpecialCardEffect(Some(d), Some(k), awaiting, None, false, None, None));
        }
        return;
      }
    }
  }

  /** While a target is awaited, or without the E key, activation changes nothing. */
  lemma ActivationBlocked(b: Board, keyE: bool)
    requires AwaitingTarget(b) || !keyE
    ensures AfterDetectSpecial(b, keyE) == b
  {
  }

  /**
   * Activation considers only the current player's drawn card: with none, or with a value that
   * has no power, nothing changes. Otherwise only the effect record changes: it names the card
   * and its power, and awaits a target iff the power is Shuffle or Swap; a record that already
   * existed keeps its other fields.
   */
  lemma ActivationEffect(b: Board)
    requires !AwaitingTarget(b)
    ensures var r := AfterDetectSpecial(b, true); var d := DrawnCardOf(b, b.turn.current);
      && r == b.(effect := r.effect)
      && (d.None? || EffectOf(b.cards[d.value].value).None? ==> r == b)
      && (d.Some? && EffectOf(b.cards[d.value].value).Some? ==>
            var k := EffectOf(b.cards[d.value].value).value;
            && r.effect.Some?
            && b.cards[d.value].zone == DrawnCard(b.turn.current)
            && r.effect.value.card == d
            && r.effect.value.effectType == Some(k)
            && (r.effect.value.awaitingTarget <==> k == Shuffle || k == Swap)
            && (b.effect.Some? ==>
                  r.effect.value.awaitingOwnCard == b.effect.value.awaitingOwnCard &&
                  r.effect.value.targetPlayer == b.effect.value.targetPlayer &&
                  r.effect.value.ownCard == b.effect.value.ownCard &&
                  r.effect.value.targetCard == b.effect.value.targetCard)
            && (b.effect.None? ==>
                  !r.effect.value.awaitingOwnCard && r.effect.value.targetPlayer.None? &&
                  r.effect.value.ownCard.None? && r.effect.value.targetCard.None?))
  {
  }

  /**
   * Activation does not look at how the card was drawn: a 7 taken from the graveyard by a
   * player holding no other drawn card starts a Swap just as one taken from the deck would.
   */
  lemma GraveyardDrawCanActivate(b: Board)
    requires WellFormed(b) && !AwaitingTarget(b) && !b.turn.hasDrawnCard
    requires forall id :: id in b.cards ==> b.cards[id].zone != DrawnCard(b.turn.current)
    requires b.graveyard != [] && b.graveyard[|b.graveyard| - 1] in b.cards
    requires b.cards[b.graveyard[|b.graveyard| - 1]].value == 7
    ensures var r := AfterDetectSpecial(AfterGraveyardClick(b), true);
      r.effect.Some? && r.effect.value.effectType == Some(Swap) && r.effect.value.awaitingTarget
  {
    var m := AfterGraveyardClick(b);
    var t := b.graveyard[|b.graveyard| - 1];
    assert m.cards[t].zone == DrawnCard(b.turn.current);
    assert forall id :: id in m.cards && id != t ==> m.cards[id].zone != DrawnCard(m.turn.current);
    assert DrawnCardOf(m, m.turn.current) == Some(t);
  }
}
