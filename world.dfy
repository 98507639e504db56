/**
 * The whole game state as one value (`Board`), the class that holds it in place
 * (`Game`), and the zone invariant: every card lies in exactly one place.
 */
module World {
  import opened Cards
  import opened Seqs

  /**
   * Snapshot of every resource the rules read or write: the card entities, the deck
   * (drawn from index 0), the graveyard (a stack, drawn from the end), each player's
   * hand list, the players in creation order, the turn, the optional special-effect
   * record, the double-click memory, the cards marked `Selected`, the application
   * state, and the next free entity handle.
   */
  datatype Board = Board(
    cards: map<CardId, Card>,
    deck: seq<CardId>,
    graveyard: seq<CardId>,
    hands: map<PlayerId, seq<CardId>>,
    players: seq<PlayerId>,
    turn: Turn,
    effect: Option<SpecialCardEffect>,
    clicks: DoubleClick,
    selected: set<CardId>,
    state: AppState,
    nextId: nat)

  /** Structural facts the entity store guarantees: distinct players, one hand per player, handles below `nextId`. */
  ghost predicate WellFormed(b: Board) {
    && NoDup(b.players)
    && (forall p :: p in b.hands <==> p in b.players)
    && (forall id :: id in b.cards ==> id < b.nextId)
  }

  /** The container a card's zone tag names does hold it (a drawn card is held by no container). */
  ghost predicate InItsContainer(b: Board, id: CardId)
    requires id in b.cards
  {
    match b.cards[id].zone
    case Deck => id in b.deck
    case Graveyard => id in b.graveyard
    case Hand(p) => p in b.hands && id in b.hands[p]
    case DrawnCard(_) => true
  }

  /** Zone invariant: containers are duplicate-free and agree with every card's zone tag. */
  ghost predicate Placed(b: Board) {
    && NoDup(b.deck)
    && NoDup(b.graveyard)
    && (forall p :: p in b.hands ==> NoDup(b.hands[p]))
    && (forall id :: id in b.deck ==> id in b.cards && b.cards[id].zone == Deck)
    && (forall id :: id in b.graveyard ==> id in b.cards && b.cards[id].zone == Graveyard)
    && (forall p, id :: p in b.hands && id in b.hands[p] ==> id in b.cards && b.cards[id].zone == Hand(p))
    && (forall id :: id in b.cards ==> InItsContainer(b, id))
  }

  ghost predicate Consistent(b: Board) {
    WellFormed(b) && Placed(b)
  }

  /** The hands that hold `id`. */
  ghost function HoldersOf(b: Board, id: CardId): set<PlayerId> {
    set p | p in b.hands && id in b.hands[p]
  }

  /** How many places hold `id`: the deck, the graveyard, each hand, a drawn-card slot. */
  ghost function PlaceCount(b: Board, id: CardId): nat
    requires id in b.cards
  {
    (if id in b.deck then 1 else 0)
    + (if id in b.graveyard then 1 else 0)
    + |HoldersOf(b, id)|
    + (if b.cards[id].zone.DrawnCard? then 1 else 0)
  }

  /** Every card lies in exactly one place, and every id a container holds is a card. */
  lemma ExactlyOnePlace(b: Board, id: CardId)
    requires Placed(b)
    ensures id in b.deck || id in b.graveyard || HoldersOf(b, id) != {} ==> id in b.cards
    ensures id in b.cards ==> PlaceCount(b, id) == 1
  {
    if id in b.cards {
      var z := b.cards[id].zone;
      assert InItsContainer(b, id);
      if z.Hand? {
        assert HoldersOf(b, id) == {z.player};
      } else {
        assert HoldersOf(b, id) == {};
      }
    }
  }

  /** The zone invariant holds after a change that keeps every container, every player, and every card's zone. */
  lemma SameZonesConsistent(b: Board, r: Board)
    requires Consistent(b)
    requires r.cards.Keys == b.cards.Keys
    requires forall id :: id in b.cards ==> r.cards[id].zone == b.cards[id].zone
    requires r.deck == b.deck && r.graveyard == b.graveyard && r.hands == b.hands
    requires r.players == b.players && r.nextId == b.nextId
    ensures Consistent(r)
  {
    forall id | id in r.cards ensures InItsContainer(r, id) {
      assert InItsContainer(b, id);
    }
  }

  /** No card is in a drawn-card slot. */
  ghost predicate NoDrawn(b: Board) {
    forall id :: id in b.cards ==> !b.cards[id].zone.DrawnCard?
  }

  /**
   * The drawn-card slot rule: at most one card is drawn at any time, it is the current
   * player's, and the turn records that a draw happened.
   */
  ghost predicate SingleDrawn(b: Board) {
    && (forall id :: id in b.cards && b.cards[id].zone.DrawnCard? ==>
          b.cards[id].zone.player == b.turn.current && b.turn.hasDrawnCard)
    && (forall i, j :: i in b.cards && j in b.cards && b.cards[i].zone.DrawnCard? && b.cards[j].zone.DrawnCard? ==> i == j)
  }

  /** With no drawn card the slot rule holds whatever the turn. */
  lemma NoDrawnSingle(b: Board)
    requires NoDrawn(b)
    ensures SingleDrawn(b)
  {
  }

  /** A change that keeps the turn and creates no drawn card keeps the slot rule. */
  lemma NoNewDrawn(b: Board, r: Board)
    requires SingleDrawn(b) && r.turn == b.turn
    requires forall id :: id in r.cards && r.cards[id].zone.DrawnCard? ==> id in b.cards && b.cards[id].zone == r.cards[id].zone
    ensures SingleDrawn(r)
  {
  }

  /** The first card (lowest handle in `[from, bound)`) that is `p`'s drawn card. */
  function FindDrawn(cards: map<CardId, Card>, p: PlayerId, from: nat, bound: nat): (r: Option<CardId>)
    decreases bound - from
    ensures r.Some? ==> from <= r.value < bound && r.value in cards && cards[r.value].zone == DrawnCard(p)
    ensures r.Some? ==> forall id :: from <= id < r.value && id in cards ==> cards[id].zone != DrawnCard(p)
    ensures r.None? ==> forall id :: from <= id < bound && id in cards ==> cards[id].zone != DrawnCard(p)
  {
    if from >= bound then None
    else if from in cards && cards[from].zone == DrawnCard(p) then Some(from)
    else FindDrawn(cards, p, from + 1, bound)
  }

  /** The drawn card of `p` that a query over the card entities finds first. */
  function DrawnCardOf(b: Board, p: PlayerId): (r: Option<CardId>)
    ensures r.Some? ==> r.value in b.cards && b.cards[r.value].zone == DrawnCard(p)
    ensures WellFormed(b) && r.None? ==> forall id :: id in b.cards ==> b.cards[id].zone != DrawnCard(p)
  {
    FindDrawn(b.cards, p, 0, b.nextId)
  }

  /** Under the slot rule the lowest-handle search finds the one drawn card, whatever order a query would use. */
  lemma {:induction false} DrawnCardOfIsTheDrawnCard(b: Board, id: CardId)
    requires WellFormed(b) && SingleDrawn(b)
    requires id in b.cards && b.cards[id].zone.DrawnCard?
    ensures DrawnCardOf(b, b.cards[id].zone.player) == Some(id)
    ensures b.cards[id].zone.player == b.turn.current
  {
    var r := DrawnCardOf(b, b.cards[id].zone.player);
    assert id < b.nextId;
    if r.Some? {
      assert b.cards[r.value].zone.DrawnCard?;
    }
  }

  /** The state right after start-up: the players spawned, each with an empty hand, in the main menu. */
  function Startup(players: seq<PlayerId>, turn: Turn, timeLimit: real): (b: Board)
    requires NoDup(players)
    ensures Consistent(b) && NoDrawn(b)
    ensures forall p :: p in b.hands ==> b.hands[p] == []
  {
    Board(map[], [], [], map p | p in players :: [], players, turn, None,
          DoubleClick(None, 0.0, timeLimit), {}, MainMenu, 0)
  }

  /** The game state held in place; every system below updates these fields. */
  class Game {
    var cards: map<CardId, Card>
    var deck: seq<CardId>
    var graveyard: seq<CardId>
    var hands: map<PlayerId, seq<CardId>>
    var players: seq<PlayerId>
    var turn: Turn
    var effect: Option<SpecialCardEffect>
    var clicks: DoubleClick
    var selected: set<CardId>
    var state: AppState
    var nextId: nat

    ghost function View(): Board
      reads this
    {
      Board(cards, deck, graveyard, hands, players, turn, effect, clicks, selected, state, nextId)
    }

    constructor (players: seq<PlayerId>, turn: Turn, timeLimit: real)
      requires NoDup(players)
      ensures View() == Startup(players, turn, timeLimit)
    {
      this.cards := map[];
      this.deck := [];
      this.graveyard := [];
      this.hands := map p | p in players :: [];
      this.players := players;
      this.turn := turn;
      this.effect := None;
      this.clicks := DoubleClick(None, 0.0, timeLimit);
      this.selected := {};
      this.state := MainMenu;
      this.nextId := 0;
    }

    /** Removes every `Selected` marker, one at a time. */
    method ClearSelection()
      modifies this
      ensures View() == old(View()).(selected := {})
    {
      while selected != {}
        invariant View() == old(View()).(selected := selected)
        decreases selected
      {
        var s :| s in selected;
        selected := selected - {s};
      }
    }
  }
}
