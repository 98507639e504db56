/**
 * End of a round: every hand card is turned face up, each player's score is the sum of the
 * values in their hand, the lowest score wins, and the N key clears the table for a new round.
 */
module RoundEnd {
  import opened Cards
  import opened Seqs
  import opened World

  /** Every card held in the hand of a player listed in `ps` turned face up. */
  function RevealHands(cards: map<CardId, Card>, ps: seq<PlayerId>): map<CardId, Card> {
    map id | id in cards :: if cards[id].zone.Hand? && cards[id].zone.player in ps then cards[id].(faceUp := true) else cards[id]
  }

  function AfterRevealAll(b: Board): Board {
    b.(cards := RevealHands(b.cards, b.players))
  }

  /** The cards held in `p`'s hand turned face up. */
  function RevealHand(cards: map<CardId, Card>, p: PlayerId): map<CardId, Card> {
    map id | id in cards :: if cards[id].zone == Hand(p) then cards[id].(faceUp := true) else cards[id]
  }

  /** Revealing one more player's hand extends the revealed prefix of players by that player. */
  lemma RevealHandsSnoc(cards: map<CardId, Card>, ps: seq<PlayerId>, p: PlayerId)
    ensures RevealHand(RevealHands(cards, ps), p) == RevealHands(cards, ps + [p])
  {
    var l := RevealHand(RevealHands(cards, ps), p);
    var r := RevealHands(cards, ps + [p]);
    forall id | id in cards ensures l[id] == r[id] {
      assert id in RevealHands(cards, ps);
    }
  }

  method RevealAllCards(g: Game)
    modifies g
    ensures g.View() == AfterRevealAll(old(g.View()))
  {
    ghost var c0 := g.cards;
    var i := 0;
    while i < |g.players|
      invariant i <= |g.players|
      invariant g.cards == RevealHands(c0, g.players[..i])
      invariant g.View() == old(g.View()).(cards := g.cards)
    {
      var p := g.players[i];
      RevealHandsSnoc(c0, g.players[..i], p);
      RevealPlayerCards(g, p);
      assert g.players[..i + 1] == g.players[..i] + [p];
      i := i + 1;
    }
    assert g.players[..i] == g.players;
  }

  /** The inner loop: every card whose zone is `p`'s hand is turned face up, one card at a time. */
  method RevealPlayerCards(g: Game, p: PlayerId)
    modifies g
    ensures g.View() == old(g.View()).(cards := RevealHand(old(g.cards), p))
  {
    var todo := g.cards.Keys;
    while todo != {}
      invariant todo <= g.cards.Keys && g.cards.Keys == old(g.cards).Keys
      invariant forall id :: id in g.cards ==>
        g.cards[id] == if id in todo then old(g.cards)[id] else RevealHand(old(g.cards), p)[id]
      invariant g.View() == old(g.View()).(cards := g.cards)
      decreases todo
    {
      var id :| id in todo;
      if g.cards[id].zone == Hand(p) {
        g.cards := g.cards[id := g.cards[id].(faceUp := true)];
      }
      todo := todo - {id};
    }
  }

  /**
   * Revealing turns face up exactly the cards held in a listed player's hand; no card changes
   * zone, and cards elsewhere are left as they were.
   */
  lemma RevealAllEffect(b: Board)
    ensures var r := AfterRevealAll(b);
      && r.cards.Keys == b.cards.Keys
      && (forall id :: id in b.cards && b.cards[id].zone.Hand? && b.cards[id].zone.player in b.players ==>
            r.cards[id] == b.cards[id].(faceUp := true))
      && (forall id :: id in b.cards && !(b.cards[id].zone.Hand? && b.cards[id].zone.player in b.players) ==>
            r.cards[id] == b.cards[id])
      && r == b.(cards := r.cards)
  {
  }

  lemma RevealAllConsistent(b: Board)
    requires Consistent(b)
    ensures Consistent(AfterRevealAll(b))
  {
    SameZonesConsistent(b, AfterRevealAll(b));
  }

  /** Sum of the values of the cards a hand list names (ids without a card add nothing). */
  function HandScore(hand: seq<CardId>, cards: map<CardId, Card>): nat {
    if hand == [] then 0
    else (if hand[0] in cards then cards[hand[0]].value else 0) + HandScore(hand[1..], cards)
  }

  datatype Score = Score(player: PlayerId, total: nat)

  /** One score per player that has a hand, in player order. */
  function Scores(players: seq<PlayerId>, hands: map<PlayerId, seq<CardId>>, cards: map<CardId, Card>): (r: seq<Score>)
    ensures |r| <= |players|
    ensures (forall p :: p in players ==> p in hands) ==> |r| == |players|
    ensures (forall p :: p in players ==> p in hands) ==>
      forall i :: 0 <= i < |r| ==> r[i] == Score(players[i], HandScore(hands[players[i]], cards))
  {
    if players == [] then []
    else
      var rest := Scores(players[1..], hands, cards);
      if players[0] in hands then [Score(players[0], HandScore(hands[players[0]], cards))] + rest
      else rest
  }

  /** Index of the first lowest score (`min_by_key` keeps the earliest of equal keys). */
  function MinIndex(s: seq<Score>): (r: nat)
    requires |s| > 0
    ensures r < |s|
    ensures forall j :: 0 <= j < |s| ==> s[r].total <= s[j].total
    ensures forall j :: 0 <= j < r ==> s[j].total > s[r].total
  {
    if |s| == 1 then 0
    else
      var k := MinIndex(s[..|s| - 1]);
      if s[|s| - 1].total < s[k].total then |s| - 1 else k
  }

  function Winner(b: Board): Option<Score> {
    var s := Scores(b.players, b.hands, b.cards);
    if |s| == 0 then None else Some(s[MinIndex(s)])
  }

  /**
   * The winner is a player with the lowest score; every player seated before the winner scored
   * strictly more; there is a winner iff some player has a hand.
   */
  lemma WinnerHasLowestScore(b: Board)
    requires WellFormed(b)
    ensures Winner(b).Some? <==> |b.players| > 0
    ensures Winner(b).Some? ==>
      exists i :: 0 <= i < |b.players| && b.players[i] == Winner(b).value.player
        && Winner(b).value.total == HandScore(b.hands[b.players[i]], b.cards)
        && (forall j :: 0 <= j < |b.players| ==> Winner(b).value.total <= HandScore(b.hands[b.players[j]], b.cards))
        && (forall j :: 0 <= j < i ==> HandScore(b.hands[b.players[j]], b.cards) > Winner(b).value.total)
  {
    var s := Scores(b.players, b.hands, b.cards);
    if |s| > 0 {
      var i := MinIndex(s);
      assert b.players[i] == Winner(b).value.player;
    }
  }

  /** With two seats the second player wins exactly with a strictly lower score; a tie goes to the first. */
  lemma TwoSeatWinner(a: Score, c: Score)
    ensures MinIndex([a, c]) == if c.total < a.total then 1 else 0
  {
  }

  lemma {:induction false} HandScoreAppend(h: seq<CardId>, t: seq<CardId>, cards: map<CardId, Card>)
    ensures HandScore(h + t, cards) == HandScore(h, cards) + HandScore(t, cards)
  {
    if h == [] {
      assert h + t == t;
    } else {
      assert (h + t)[1..] == h[1..] + t;
      HandScoreAppend(h[1..], t, cards);
    }
  }

  /** Dropping an id that occurs once lowers the score by that card's value. */
  lemma {:induction false} HandScoreWithout(h: seq<CardId>, c: CardId, cards: map<CardId, Card>)
    requires NoDup(h) && c in h && c in cards
    ensures HandScore(Without(h, c), cards) + cards[c].value == HandScore(h, cards)
  {
    if h[0] == c {
      assert c !in h[1..] by {
        forall k | 0 <= k < |h[1..]| ensures h[1..][k] != c { assert h[1..][k] == h[k + 1]; }
      }
      WithoutNoDup(h[1..], c);
    } else {
      assert NoDup(h[1..]) by {
        forall i, j | 0 <= i < j < |h[1..]| ensures h[1..][i] != h[1..][j] {
          assert h[1..][i] == h[i + 1] && h[1..][j] == h[j + 1];
        }
      }
      HandScoreWithout(h[1..], c, cards);
      assert Without(h, c) == [h[0]] + Without(h[1..], c);
      HandScoreAppend([h[0]], Without(h[1..], c), cards);
    }
  }

  /** Scores read card values only: changing faces or zones does not change a score. */
  lemma {:induction false} HandScoreValuesOnly(h: seq<CardId>, cards: map<CardId, Card>, cards': map<CardId, Card>)
    requires cards.Keys == cards'.Keys
    requires forall id :: id in cards ==> cards'[id].value == cards[id].value
    ensures HandScore(h, cards') == HandScore(h, cards)
  {
    if h != [] {
      HandScoreValuesOnly(h[1..], cards, cards');
    }
  }

  /** Swapping a hand card `c` for the drawn card `d` changes the hand's score by value(d) - value(c). */
  lemma SwapScoreDelta(h: seq<CardId>, c: CardId, d: CardId, cards: map<CardId, Card>, cards': map<CardId, Card>)
    requires NoDup(h) && c in h && c in cards && d in cards
    requires cards.Keys == cards'.Keys
    requires forall id :: id in cards ==> cards'[id].value == cards[id].value
    ensures HandScore(Without(h, c) + [d], cards') + cards[c].value == HandScore(h, cards) + cards[d].value
  {
    HandScoreValuesOnly(Without(h, c) + [d], cards, cards');
    HandScoreAppend(Without(h, c), [d], cards);
    HandScoreWithout(h, c, cards);
  }

  /** The N key clears every hand list, despawns every card with its selection marker, and returns to Setup. */
  function AfterNewRound(b: Board, keyN: bool): Board {
    if !keyN then b
    else b.(hands := map p | p in b.hands :: [],
            cards := map[],
            deck := [],
            graveyard := [],
            selected := b.selected - b.cards.Keys,
            turn := b.turn.(hasDrawnCard := false),
            state := Setup)
  }

  method PrepareNewRound(g: Game, keyN: bool)
    modifies g
    ensures g.View() == AfterNewRound(old(g.View()), keyN)
  {
    if !keyN {
      return;
    }
    ClearHands(g);
    DespawnCards(g);
    g.deck := [];
    g.graveyard := [];
    g.turn := g.turn.(hasDrawnCard := false);
    g.state := Setup;
  }

  /** Empties every hand list, one hand at a time. */
  method ClearHands(g: Game)
    modifies g
    ensures g.View() == old(g.View()).(hands := map p | p in old(g.hands) :: [])
  {
    var todo := g.hands.Keys;
    while todo != {}
      invariant todo <= g.hands.Keys && g.hands.Keys == old(g.hands.Keys)
      invariant forall p :: p in g.hands ==> g.hands[p] == if p in todo then old(g.hands[p]) else []
      invariant g.View() == old(g.View()).(hands := g.hands)
      decreases todo
    {
      var p :| p in todo;
      g.hands := g.hands[p := []];
      todo := todo - {p};
    }
  }

  /** Despawns every card entity, which also drops its selection marker. */
  method DespawnCards(g: Game)
    modifies g
    ensures g.View() == old(g.View()).(cards := map[], selected := old(g.selected) - old(g.cards.Keys))
  {
    while g.cards != map[]
      invariant g.cards.Keys <= old(g.cards.Keys)
      invariant g.selected == old(g.selected) - (old(g.cards.Keys) - g.cards.Keys)
      invariant g.View() == old(g.View()).(cards := g.cards, selected := g.selected)
      decreases |g.cards.Keys|
    {
      var id :| id in g.cards;
      g.cards := g.cards - {id};
      g.selected := g.selected - {id};
    }
  }

  /** After N the board is empty and consistent, every hand empty, the drawn flag cleared, and the state is Setup. */
  lemma NewRoundResets(b: Board)
    requires WellFormed(b)
    ensures var r := AfterNewRound(b, true);
      && Consistent(r) && r.cards == map[] && r.deck == [] && r.graveyard == []
      && (forall p :: p in r.hands <==> p in b.players)
      && (forall p :: p in r.hands ==> r.hands[p] == [])
      && !r.turn.hasDrawnCard && r.turn.current == b.turn.current && r.state == Setup
  {
  }

  lemma NewRoundNeedsKey(b: Board)
    ensures AfterNewRound(b, false) == b
  {
  }
}
