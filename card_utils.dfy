/**
 * Resolving a drawn card: discarding it to the graveyard, or swapping it with a card
 * of the hand; either one hands the turn to the next seated player.
 */
module CardUtils {
  import opened Cards
  import opened Seqs
  import opened World

  /**
   * The player seated after `p`, cyclically, or None when `p` is not seated. The index is
   * written as "next, or 0 after the last"; `NextSeatMod` shows it equals `(pos + 1) % n`.
   */
  function Successor(players: seq<PlayerId>, p: PlayerId): (r: Option<PlayerId>)
    ensures r.Some? <==> p in players
    ensures r.Some? ==> r.value in players
  {
    if p in players then
      var pos := IndexOf(players, p);
      Some(players[if pos + 1 < |players| then pos + 1 else 0])
    else None
  }

  function AfterChangeTurn(b: Board): Board {
    match Successor(b.players, b.turn.current)
    case None => b
    case Some(q) => b.(turn := Turn(q, false))
  }

  /** Hands the turn to the next seated player; does nothing when the current player is not seated. */
  method ChangeTurn(g: Game)
    modifies g
    ensures g.View() == AfterChangeTurn(old(g.View()))
  {
    var pos := 0;
    while pos < |g.players| && g.players[pos] != g.turn.current
      invariant pos <= |g.players|
      invariant forall j :: 0 <= j < pos ==> g.players[j] != g.turn.current
    {
      pos := pos + 1;
    }
    if pos < |g.players| {
      assert IndexOf(g.players, g.turn.current) == pos;
      NextSeatMod(pos, |g.players|);
      g.turn := Turn(g.players[(pos + 1) % |g.players|], false);
    }
  }

  /** `ChangeTurn` applied `k` times. */
  function ChangeTurnTimes(b: Board, k: nat): Board
    decreases k
  {
    if k == 0 then b else ChangeTurnTimes(AfterChangeTurn(b), k - 1)
  }

  /** The successor's index, `(pos + 1) % n`, is the next index or wraps to 0. */
  lemma NextSeatMod(pos: nat, n: nat)
    requires pos < n
    ensures (pos + 1) % n == if pos + 1 < n then pos + 1 else 0
  {
    if pos + 1 == n {
      assert (pos + 1) % n == n % n;
    }
  }

  /** With distinct players, the successor of seat `j` sits at seat `j + 1`, or at seat 0 after the last. */
  lemma SuccessorAt(players: seq<PlayerId>, j: nat)
    requires NoDup(players) && j < |players|
    ensures Successor(players, players[j]) == Some(players[if j + 1 < |players| then j + 1 else 0])
  {
    assert IndexOf(players, players[j]) == j;
    NextSeatMod(j, |players|);
  }

  /** One turn change from seat `j` reaches seat `j + 1`, or seat 0 after the last. */
  lemma ChangeTurnAt(b: Board, j: nat)
    requires NoDup(b.players) && j < |b.players| && b.turn.current == b.players[j]
    ensures AfterChangeTurn(b).players == b.players
    ensures AfterChangeTurn(b).turn.current == b.players[if j + 1 < |b.players| then j + 1 else 0]
  {
    SuccessorAt(b.players, j);
  }

  /** With distinct players, `k <= n` turn changes from seat `i` reach seat `i + k`, wrapping once. */
  lemma {:induction false} ChangeTurnTimesAt(b: Board, i: nat, k: nat)
    requires NoDup(b.players) && i < |b.players| && k <= |b.players|
    requires b.turn.current == b.players[i]
    decreases k
    ensures ChangeTurnTimes(b, k).players == b.players
    ensures ChangeTurnTimes(b, k).turn.current ==
      b.players[if i + k < |b.players| then i + k else i + k - |b.players|]
  {
    if k > 0 {
      var n := |b.players|;
      var i' := if i + 1 < n then i + 1 else 0;
      ChangeTurnAt(b, i);
      ChangeTurnTimesAt(AfterChangeTurn(b), i', k - 1);
      assert (if i' + (k - 1) < n then i' + (k - 1) else i' + (k - 1) - n)
          == (if i + k < n then i + k else i + k - n);
    }
  }

  /** After as many turn changes as there are players, the turn is back with the player who had it. */
  lemma ChangeTurnFullCircle(b: Board)
    requires NoDup(b.players) && b.turn.current in b.players
    ensures ChangeTurnTimes(b, |b.players|).turn.current == b.turn.current
  {
    ChangeTurnTimesAt(b, IndexOf(b.players, b.turn.current), |b.players|);
  }

  /** With two or more distinct players the turn always goes to someone else, and the drawn flag resets. */
  lemma ChangeTurnNeverStays(b: Board)
    requires NoDup(b.players) && |b.players| >= 2 && b.turn.current in b.players
    ensures AfterChangeTurn(b).turn.current != b.turn.current
    ensures !AfterChangeTurn(b).turn.hasDrawnCard
  {
    NextSeatMod(IndexOf(b.players, b.turn.current), |b.players|);
  }

  /** Changing turn touches the turn record only, and only when the current player is seated. */
  lemma ChangeTurnOnlyTouchesTurn(b: Board)
    ensures AfterChangeTurn(b) == b.(turn := AfterChangeTurn(b).turn)
    ensures b.turn.current !in b.players ==> AfterChangeTurn(b) == b
    ensures b.turn.current in b.players ==>
      AfterChangeTurn(b).turn == Turn(b.players[(IndexOf(b.players, b.turn.current) + 1) % |b.players|], false)
  {
    if b.turn.current in b.players {
      NextSeatMod(IndexOf(b.players, b.turn.current), |b.players|);
    }
  }

  lemma ChangeTurnConsistent(b: Board)
    requires Consistent(b)
    ensures Consistent(AfterChangeTurn(b))
  {
  }

  /** A discard applies only to the current player's drawn card. */
  predicate CanDiscard(b: Board, id: CardId) {
    id in b.cards && b.cards[id].zone == DrawnCard(b.turn.current)
  }

  function AfterDiscard(b: Board, id: CardId): Board {
    if CanDiscard(b, id) then
      AfterChangeTurn(b.(cards := b.cards[id := b.cards[id].(zone := Graveyard, faceUp := true)],
                         graveyard := b.graveyard + [id],
                         selected := {}))
    else b
  }

  /** Sends the current player's drawn card to the top of the graveyard, face up, and changes turn. */
  method DiscardCard(g: Game, id: CardId)
    modifies g
    ensures g.View() == AfterDiscard(old(g.View()), id)
  {
    if id in g.cards && g.cards[id].zone == DrawnCard(g.turn.current) {
      g.cards := g.cards[id := g.cards[id].(zone := Graveyard, faceUp := true)];
      g.graveyard := g.graveyard + [id];
      g.ClearSelection();
      ChangeTurn(g);
    }
  }

  /** A discard of anything but the current player's drawn card changes nothing. */
  lemma DiscardRejected(b: Board, id: CardId)
    requires !CanDiscard(b, id)
    ensures AfterDiscard(b, id) == b
  {
  }

  /** A discard puts the card face up on top of the graveyard, leaves every other card, the deck and the hands alone, and advances the turn. */
  lemma DiscardEffect(b: Board, id: CardId)
    requires CanDiscard(b, id)
    ensures var r := AfterDiscard(b, id);
      && r.cards.Keys == b.cards.Keys
      && r.cards[id].zone == Graveyard && r.cards[id].faceUp
      && r.cards[id].owner == b.cards[id].owner
      && (forall o :: o in b.cards && o != id ==> r.cards[o] == b.cards[o])
      && r.graveyard == b.graveyard + [id] && r.graveyard[|r.graveyard| - 1] == id
      && r.deck == b.deck && r.hands == b.hands
      && r.turn == AfterChangeTurn(b).turn
      && r.selected == {}
  {
  }

  lemma DiscardConsistent(b: Board, id: CardId)
    requires Consistent(b)
    ensures Consistent(AfterDiscard(b, id))
  {
    if CanDiscard(b, id) {
      var m := b.(cards := b.cards[id := b.cards[id].(zone := Graveyard, faceUp := true)],
                  graveyard := b.graveyard + [id],
                  selected := {});
      assert id !in b.graveyard;
      AppendNoDup(b.graveyard, [id]);
      assert Placed(m);
      ChangeTurnConsistent(m);
    }
  }

  /** A swap needs a card of the current player's hand and a drawn card of that player. */
  predicate CanSwap(b: Board, clicked: CardId) {
    && clicked in b.cards && b.cards[clicked].zone == Hand(b.turn.current)
    && DrawnCardOf(b, b.turn.current).Some?
  }

  /** The exchange itself, before the turn changes. */
  function Exchanged(b: Board, clicked: CardId): Board
    requires CanSwap(b, clicked)
  {
    var cur := b.turn.current;
    var d := DrawnCardOf(b, cur).value;
    var cards := b.cards[d := b.cards[d].(zone := Hand(cur), faceUp := false)];
    var hands := if cur in b.players && cur in b.hands
      then b.hands[cur := Without(b.hands[cur], clicked) + [d]]
      else b.hands;
    b.(cards := cards[clicked := b.cards[clicked].(zone := Graveyard, faceUp := true)],
       graveyard := b.graveyard + [clicked],
       hands := hands,
       selected := {})
  }

  function AfterSwap(b: Board, clicked: CardId): Board {
    if CanSwap(b, clicked) then AfterChangeTurn(Exchanged(b, clicked)) else b
  }

  /** Exchanges the drawn card with a card of the current player's hand, which goes on top of the graveyard. */
  method CardSwap(g: Game, clicked: CardId)
    modifies g
    ensures g.View() == AfterSwap(old(g.View()), clicked)
  {
    var cur := g.turn.current;
    if clicked !in g.cards || g.cards[clicked].zone != Hand(cur) {
      return;
    }
    var found := FindDrawn(g.cards, cur, 0, g.nextId);
    if found.None? {
      return;
    }
    Exchange(g, clicked, found.value);
    ChangeTurn(g);
  }

  /** The exchange of a swap: drawn card `d` into the hand face down, the clicked card face up onto the graveyard. */
  method Exchange(g: Game, clicked: CardId, d: CardId)
    requires CanSwap(g.View(), clicked) && d == DrawnCardOf(g.View(), g.turn.current).value
    modifies g
    ensures g.View() == Exchanged(old(g.View()), clicked)
  {
    var cur := g.turn.current;
    var clickedCard := g.cards[clicked];
    g.cards := g.cards[d := g.cards[d].(zone := Hand(cur), faceUp := false)];
    g.cards := g.cards[clicked := clickedCard.(zone := Graveyard, faceUp := true)];
    g.graveyard := g.graveyard + [clicked];
    if cur in g.players && cur in g.hands {
      g.hands := g.hands[cur := Without(g.hands[cur], clicked) + [d]];
    }
    g.ClearSelection();
  }

  /** A swap that lacks the hand card or the drawn card leaves the hand list, both cards and the turn as they were. */
  lemma SwapRejected(b: Board, clicked: CardId)
    requires !CanSwap(b, clicked)
    ensures AfterSwap(b, clicked) == b
  {
  }

  /**
   * After a swap the drawn card is in the hand face down, the clicked card is face up on top
   * of the graveyard, the hand list lost the clicked card and gained the drawn one (so its
   * length is unchanged), and the turn has advanced.
   */
  lemma SwapEffect(b: Board, clicked: CardId)
    requires Consistent(b) && CanSwap(b, clicked)
    ensures var cur := b.turn.current;
      var d := DrawnCardOf(b, cur).value;
      var r := AfterSwap(b, clicked);
      && r.cards.Keys == b.cards.Keys
      && r.cards[d].zone == Hand(cur) && !r.cards[d].faceUp
      && r.cards[clicked].zone == Graveyard && r.cards[clicked].faceUp
      && (forall o :: o in b.cards && o != d && o != clicked ==> r.cards[o] == b.cards[o])
      && r.graveyard == b.graveyard + [clicked]
      && r.hands.Keys == b.hands.Keys
      && r.hands[cur] == Without(b.hands[cur], clicked) + [d]
      && clicked !in r.hands[cur] && d in r.hands[cur]
      && |r.hands[cur]| == |b.hands[cur]|
      && (forall p :: p in b.hands && p != cur ==> r.hands[p] == b.hands[p])
      && r.deck == b.deck
      && r.turn == AfterChangeTurn(b).turn
  {
    var m := Exchanged(b, clicked);
    ExchangedEffect(b, clicked);
    ChangeTurnOnlyTouchesTurn(m);
    assert AfterChangeTurn(m).turn == AfterChangeTurn(b).turn;
  }

  /** What the exchange alone does to the cards, the graveyard and the hands. */
  lemma ExchangedEffect(b: Board, clicked: CardId)
    requires Consistent(b) && CanSwap(b, clicked)
    ensures var cur := b.turn.current;
      var d := DrawnCardOf(b, cur).value;
      var m := Exchanged(b, clicked);
      && m.cards.Keys == b.cards.Keys
      && m.cards[d].zone == Hand(cur) && !m.cards[d].faceUp
      && m.cards[clicked].zone == Graveyard && m.cards[clicked].faceUp
      && (forall o :: o in b.cards && o != d && o != clicked ==> m.cards[o] == b.cards[o])
      && m.graveyard == b.graveyard + [clicked]
      && m.hands.Keys == b.hands.Keys
      && m.hands[cur] == Without(b.hands[cur], clicked) + [d]
      && clicked !in m.hands[cur] && d in m.hands[cur]
      && |m.hands[cur]| == |b.hands[cur]|
      && (forall p :: p in b.hands && p != cur ==> m.hands[p] == b.hands[p])
      && m.deck == b.deck
      && m.selected == {}
      && m == b.(cards := m.cards, graveyard := m.graveyard, hands := m.hands, selected := {})
  {
    ExchangeSetting(b, clicked);
    WithoutNoDup(b.hands[b.turn.current], clicked);
  }

  /** The facts about a legal exchange that the zone proofs below share. */
  lemma ExchangeSetting(b: Board, clicked: CardId)
    requires Consistent(b) && CanSwap(b, clicked)
    ensures var cur := b.turn.current; var d := DrawnCardOf(b, cur).value;
      && cur in b.players && cur in b.hands && clicked in b.hands[cur]
      && d != clicked && d !in b.deck && d !in b.graveyard && d !in b.hands[cur]
      && clicked !in b.graveyard && clicked !in b.deck
  {
    var cur := b.turn.current;
    var d := DrawnCardOf(b, cur).value;
    assert InItsContainer(b, clicked);
  }

  /** After the exchange, every card's zone tag names a container that holds it. */
  lemma ExchangedTagsHeld(b: Board, clicked: CardId)
    requires Consistent(b) && CanSwap(b, clicked)
    ensures forall id :: id in Exchanged(b, clicked).cards ==> InItsContainer(Exchanged(b, clicked), id)
  {
    ExchangeSetting(b, clicked);
    var m := Exchanged(b, clicked);
    var cur := b.turn.current;
    var d := DrawnCardOf(b, cur).value;
    forall id | id in m.cards ensures InItsContainer(m, id) {
      if id != clicked && id != d {
        assert InItsContainer(b, id);
      }
    }
  }

  /** After the exchange, every container holds only cards tagged with it, without duplicates. */
  lemma ExchangedContainersTagged(b: Board, clicked: CardId)
    requires Consistent(b) && CanSwap(b, clicked)
    ensures var m := Exchanged(b, clicked);
      && NoDup(m.graveyard)
      && (forall p :: p in m.hands ==> NoDup(m.hands[p]))
      && (forall id :: id in m.deck ==> id in m.cards && m.cards[id].zone == Deck)
      && (forall id :: id in m.graveyard ==> id in m.cards && m.cards[id].zone == Graveyard)
      && (forall p, id :: p in m.hands && id in m.hands[p] ==> id in m.cards && m.cards[id].zone == Hand(p))
  {
    ExchangeSetting(b, clicked);
    var cur := b.turn.current;
    var d := DrawnCardOf(b, cur).value;
    AppendNoDup(b.graveyard, [clicked]);
    WithoutNoDup(b.hands[cur], clicked);
    AppendNoDup(Without(b.hands[cur], clicked), [d]);
  }

  lemma SwapConsistent(b: Board, clicked: CardId)
    requires Consistent(b)
    ensures Consistent(AfterSwap(b, clicked))
  {
    if CanSwap(b, clicked) {
      var m := Exchanged(b, clicked);
      ExchangedTagsHeld(b, clicked);
      ExchangedContainersTagged(b, clicked);
      assert Placed(m);
      ChangeTurnConsistent(m);
    }
  }
}
