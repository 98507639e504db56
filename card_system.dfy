/**
 * The per-frame click dispatcher: special-effect target acquisition first, then deck,
 * graveyard and card clicks in that order, and deselection when nothing was hit. Also the
 * suit-by-value enumeration of the card data.
 */
module CardSystem {
  import opened Cards
  import opened Seqs
  import opened World
  import opened CardUtils
  import opened CardHandles

  /** What the mouse cursor hit: the card under it (if any) and whether it lies in the deck or graveyard region. */
  datatype Hit = Hit(card: Option<CardId>, deck: bool, graveyard: bool)

  /** While awaiting a target: a click on a rival's hand card records it. */
  function AfterTargetClick(b: Board, id: CardId): Board
    requires b.effect.Some?
  {
    var e := b.effect.value;
    if id in b.cards && b.cards[id].zone.Hand? && b.cards[id].zone.player != b.turn.current then
      var e1 := e.(targetCard := Some(id));
      if e.effectType == Some(Swap) then
        b.(effect := Some(e1.(awaitingTarget := false, awaitingOwnCard := true)))
      else
        b.(effect := Some(e1.(targetPlayer := Some(b.cards[id].zone.player), awaitingTarget := false)))
    else b
  }

  /** While awaiting the player's own card (second step of Swap): a card of the current player's hand is recorded. */
  function AfterOwnCardClick(b: Board, id: CardId): Board
    requires b.effect.Some?
  {
    if id in b.cards && b.cards[id].zone == Hand(b.turn.current) then
      b.(effect := Some(b.effect.value.(ownCard := Some(id), awaitingOwnCard := false)))
    else b
  }

  predicate AwaitingTarget(b: Board) {
    b.effect.Some? && b.effect.value.awaitingTarget
  }

  predicate AwaitingOwnCard(b: Board) {
    b.effect.Some? && !b.effect.value.awaitingTarget && b.effect.value.awaitingOwnCard
  }

  /** One left click, at time `now`, when `pressed`. */
  function AfterSelection(b: Board, pressed: bool, hit: Hit, now: real): Board {
    if !pressed then b
    else if AwaitingTarget(b) && hit.card.Some? then AfterTargetClick(b, hit.card.value)
    else if AwaitingOwnCard(b) && hit.card.Some? then AfterOwnCardClick(b, hit.card.value)
    else if hit.deck then AfterDeckClick(b)
    else if hit.graveyard then AfterGraveyardClick(b)
    else if hit.card.Some? then AfterCardClick(b, hit.card.value, now)
    else b.(selected := {})
  }

  method CardSelection(g: Game, pressed: bool, hit: Hit, now: real)
    modifies g
    ensures g.View() == AfterSelection(old(g.View()), pressed, hit, now)
  {
    if !pressed {
      return;
    }
    if g.effect.Some? {
      var e := g.effect.value;
      if e.awaitingTarget {
        if hit.card.Some? {
          var id := hit.card.value;
          if id in g.cards && g.cards[id].zone.Hand? {
            var owner := g.cards[id].zone.player;
            if owner != g.turn.current {
              e := e.(targetCard := Some(id));
              if e.effectType == Some(Swap) {
                e := e.(awaitingTarget := false);
                e := e.(awaitingOwnCard := true);
              } else {
                e := e.(targetPlayer := Some(owner));
                e := e.(awaitingTarget := false);
              }
              g.effect := Some(e);
            }
          }
          return;
        }
      } else if e.awaitingOwnCard {
        if hit.card.Some? {
          var id := hit.card.value;
          if id in g.cards && g.cards[id].zone.Hand? {
            if g.cards[id].zone.player == g.turn.current {
              e := e.(ownCard := Some(id));
              e := e.(awaitingOwnCard := false);
              g.effect := Some(e);
            }
          }
          return;
        }
      }
    }
    if hit.deck {
      HandleDeckClick(g);
      return;
    }
    if hit.graveyard {
      HandleGraveyardClick(g);
      return;
    }
    if hit.card.Some? {
      HandleCardClick(g, hit.card.value, now);
      return;
    }
    g.ClearSelection();
  }

  /**
   * While a target is awaited, a click on a rival's hand card records that card; Swap then
   * waits for the player's own card, any other effect records the rival as target player.
   * Nothing but the effect record changes.
   */
  lemma RivalClickRecordsTarget(b: Board, id: CardId, now: real)
    requires AwaitingTarget(b)
    requires id in b.cards && b.cards[id].zone.Hand? && b.cards[id].zone.player != b.turn.current
    ensures var r := AfterSelection(b, true, Hit(Some(id), false, false), now);
      var e := b.effect.value;
      && r == b.(effect := r.effect) && r.effect.Some?
      && r.effect.value.targetCard == Some(id)
      && !r.effect.value.awaitingTarget
      && (e.effectType == Some(Swap) ==>
            r.effect.value.awaitingOwnCard && r.effect.value.targetPlayer == e.targetPlayer)
      && (e.effectType != Some(Swap) ==>
            r.effect.value.targetPlayer == Some(b.cards[id].zone.player) &&
            r.effect.value.awaitingOwnCard == e.awaitingOwnCard)
      && r.effect.value.effectType == e.effectType && r.effect.value.card == e.card
      && r.effect.value.ownCard == e.ownCard
  {
  }

  /** While a target is awaited, clicking one of the player's own cards changes nothing at all. */
  lemma OwnClickWhileAwaitingTarget(b: Board, id: CardId, hit: Hit, now: real)
    requires AwaitingTarget(b) && hit.card == Some(id)
    requires id in b.cards && b.cards[id].zone == Hand(b.turn.current)
    ensures AfterSelection(b, true, hit, now) == b
  {
  }

  /**
   * While the player's own card is awaited, a card of the current player's hand is recorded and
   * the wait ends; a rival's card changes nothing.
   */
  lemma OwnCardClickRecordsOwnCard(b: Board, id: CardId, hit: Hit, now: real)
    requires AwaitingOwnCard(b) && hit.card == Some(id) && id in b.cards
    ensures var r := AfterSelection(b, true, hit, now);
      && (b.cards[id].zone == Hand(b.turn.current) ==>
            r == b.(effect := Some(b.effect.value.(ownCard := Some(id), awaitingOwnCard := false))))
      && (b.cards[id].zone.Hand? && b.cards[id].zone.player != b.turn.current ==> r == b)
  {
  }

  /**
   * When an effect awaits a card and the click hit one, only the effect record may change:
   * no draw, discard, swap, selection or turn change happens.
   */
  lemma AwaitingCardHitOnlyTouchesEffect(b: Board, hit: Hit, now: real)
    requires AwaitingTarget(b) || AwaitingOwnCard(b)
    requires hit.card.Some?
    ensures var r := AfterSelection(b, true, hit, now);
      r == b.(effect := r.effect)
  {
  }

  /**
   * Dispatch order: a deck hit draws from the deck even when a graveyard or card hit coincides;
   * a graveyard hit comes next; a card hit only after both. This holds also while a target is
   * awaited, provided no card was hit.
   */
  lemma DispatchOrder(b: Board, hit: Hit, now: real)
    requires !(AwaitingTarget(b) && hit.card.Some?) && !(AwaitingOwnCard(b) && hit.card.Some?)
    ensures hit.deck ==> AfterSelection(b, true, hit, now) == AfterDeckClick(b)
    ensures !hit.deck && hit.graveyard ==> AfterSelection(b, true, hit, now) == AfterGraveyardClick(b)
    ensures !hit.deck && !hit.graveyard && hit.card.Some? ==>
      AfterSelection(b, true, hit, now) == AfterCardClick(b, hit.card.value, now)
  {
  }

  /** While a target is awaited, a click on the deck region that hits no card still draws. */
  lemma AwaitingTargetDoesNotBlockDeckDraw(b: Board, now: real)
    requires AwaitingTarget(b) && !b.turn.hasDrawnCard && b.deck != [] && b.deck[0] in b.cards
    ensures AfterSelection(b, true, Hit(None, true, false), now).turn.hasDrawnCard
    ensures AfterSelection(b, true, Hit(None, true, false), now).deck == b.deck[1..]
  {
  }

  /** A click that hits nothing clears every selection and changes nothing else; no press changes nothing. */
  lemma MissClearsSelection(b: Board, now: real)
    ensures AfterSelection(b, true, Hit(None, false, false), now) == b.(selected := {})
    ensures forall hit :: AfterSelection(b, false, hit, now) == b
  {
  }

  lemma SelectionConsistent(b: Board, pressed: bool, hit: Hit, now: real)
    requires Consistent(b)
    ensures Consistent(AfterSelection(b, pressed, hit, now))
  {
    var r := AfterSelection(b, pressed, hit, now);
    if !pressed {
    } else if AwaitingTarget(b) && hit.card.Some? {
      AwaitingCardHitOnlyTouchesEffect(b, hit, now);
      EffectOnlyChangeConsistent(b, r);
    } else if AwaitingOwnCard(b) && hit.card.Some? {
      AwaitingCardHitOnlyTouchesEffect(b, hit, now);
      EffectOnlyChangeConsistent(b, r);
    } else if hit.deck {
      DeckClickConsistent(b);
    } else if hit.graveyard {
      GraveyardClickConsistent(b);
    } else if hit.card.Some? {
      CardClickConsistent(b, hit.card.value, now);
    } else {
      EffectOnlyChangeConsistent(b, r);
    }
  }

  /** The zone invariant does not read the effect record or the selection. */
  lemma EffectOnlyChangeConsistent(b: Board, r: Board)
    requires Consistent(b)
    requires r == b.(effect := r.effect, selected := r.selected)
    ensures Consistent(r)
  {
    assert forall id :: id in b.cards ==> (InItsContainer(b, id) <==> InItsContainer(r, id));
  }

  /** The four suits in the order the card data lists them. */
  const Suits: seq<Suit> := [Coarse, Cup, Gold, Sword]

  /** Every (suit, value) pair, suit by suit, values 1 to 12 (the `flat_map` of the card data). */
  function PairsOf(suits: seq<Suit>): (r: seq<(Suit, nat)>)
    ensures |r| == 12 * |suits|
    ensures forall i :: 0 <= i < |r| ==> r[i] == (suits[i / 12], i % 12 + 1)
  {
    if suits == [] then []
    else
      var first := seq(12, v requires 0 <= v < 12 => (suits[0], v + 1));
      var rest := PairsOf(suits[1..]);
      assert forall i :: 12 <= i < 12 * |suits| ==> (first + rest)[i] == rest[i - 12];
      first + rest
  }

  function SuitValuePairs(): (r: seq<(Suit, nat)>) {
    PairsOf(Suits)
  }

  /** The card data holds 48 distinct pairs: every suit with every value 1..12, exactly once. */
  lemma SuitValuePairsComplete()
    ensures |SuitValuePairs()| == 48
    ensures NoDup(SuitValuePairs())
    ensures forall s: Suit, v: nat :: 1 <= v <= 12 ==> (s, v) in SuitValuePairs()
    ensures forall i :: 0 <= i < 48 ==> 1 <= SuitValuePairs()[i].1 <= 12
  {
    var r := SuitValuePairs();
    forall i, j | 0 <= i < j < |r| ensures r[i] != r[j] {
      if i / 12 == j / 12 {
        assert i % 12 != j % 12;
      } else {
        assert Suits[i / 12] != Suits[j / 12];
      }
    }
    forall s: Suit, v: nat | 1 <= v <= 12 ensures (s, v) in r {
      var k := match s case Coarse => 0 case Cup => 1 case Gold => 2 case Sword => 3;
      var i := 12 * k + v - 1;
      assert i / 12 == k && i % 12 == v - 1;
      assert r[i] == (s, v);
    }
  }
}
