/**
 * Entities of the card game: a card, the zone it lies in, the turn record, the
 * special-effect record, the double-click memory and the application state.
 */
module Cards {

  datatype Option<+T> = None | Some(value: T)

  /** Entity handles. */
  type CardId = nat
  type PlayerId = nat

  datatype Suit = Coarse | Cup | Gold | Sword

  /** Where a card lies; a drawn card is held by one player until it is resolved. */
  datatype Zone = Deck | Hand(player: PlayerId) | DrawnCard(player: PlayerId) | Graveyard

  /** `front` is the index of the card's face texture; `fromDeck` is the special-eligibility flag. */
  datatype Card = Card(
    suit: Suit,
    value: nat,
    faceUp: bool,
    owner: Option<PlayerId>,
    zone: Zone,
    front: nat,
    fromDeck: bool)

  datatype Turn = Turn(current: PlayerId, hasDrawnCard: bool)

  datatype SpecialEffect = Shuffle | Reveal | Swap

  /** The pending special effect and its target-acquisition flags. */
  datatype SpecialCardEffect = SpecialCardEffect(
    card: Option<CardId>,
    effectType: Option<SpecialEffect>,
    awaitingTarget: bool,
    targetPlayer: Option<PlayerId>,
    awaitingOwnCard: bool,
    ownCard: Option<CardId>,
    targetCard: Option<CardId>)

  /** Memory of the last single click, used to recognise a double click. */
  datatype DoubleClick = DoubleClick(lastCard: Option<CardId>, lastClickTime: real, timeLimit: real)

  datatype AppState = MainMenu | Setup | PlayerTurn | RoundEnd

  /** The card as the draw operations leave it: held by `p`, owned by `p`, face up. */
  function Drawn(c: Card, p: PlayerId): (r: Card)
    ensures r.zone == DrawnCard(p) && r.owner == Some(p) && r.faceUp
    ensures r.suit == c.suit && r.value == c.value && r.fromDeck == c.fromDeck
  {
    c.(zone := DrawnCard(p), owner := Some(p), faceUp := true)
  }
}
