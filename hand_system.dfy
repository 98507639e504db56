/**
 * Dealing the initial hands: each player, in order, takes the first four deck cards; only
 * the first player's first two cards are dealt face up.
 */
module HandSystem {
  import opened Cards
  import opened Seqs
  import opened World

  /** A card as dealing leaves it: in `p`'s hand, owned by `p`, face up only for seat 0's first two cards. */
  function Dealt(c: Card, p: PlayerId, seat: nat, j: nat): Card {
    c.(owner := Some(p), zone := Hand(p), faceUp := seat == 0 && j < 2)
  }

  /** The inner loop: deals `ids[j..]`, one card after the other. */
  function DealInto(cards: map<CardId, Card>, ids: seq<CardId>, p: PlayerId, seat: nat, j: nat): map<CardId, Card>
    requires j <= |ids|
    decreases |ids| - j
  {
    if j == |ids| then cards
    else
      var next := if ids[j] in cards then cards[ids[j] := Dealt(cards[ids[j]], p, seat, j)] else cards;
      DealInto(next, ids, p, seat, j + 1)
  }

  /** The outer loop body for the player at `seat`: skipped when fewer than four cards remain. */
  function DealOne(b: Board, seat: nat): (r: Board)
    requires seat < |b.players|
    ensures r.players == b.players
  {
    var p := b.players[seat];
    if |b.deck| < 4 then b
    else
      var ids := b.deck[..4];
      b.(deck := b.deck[4..],
         cards := DealInto(b.cards, ids, p, seat, 0),
         hands := if p in b.hands then b.hands[p := ids] else b.hands)
  }

  function DealFrom(b: Board, seat: nat): Board
    requires seat <= |b.players|
    decreases |b.players| - seat
  {
    if seat == |b.players| then b else DealFrom(DealOne(b, seat), seat + 1)
  }

  function AfterDeal(b: Board): Board {
    DealFrom(b, 0)
  }

  method DealInitialHands(g: Game)
    modifies g
    ensures g.View() == AfterDeal(old(g.View()))
  {
    var seat := 0;
    while seat < |g.players|
      invariant seat <= |g.players| && g.players == old(g.players)
      invariant DealFrom(g.View(), seat) == AfterDeal(old(g.View()))
    {
      ghost var before := g.View();
      var p := g.players[seat];
      if |g.deck| < 4 {
        seat := seat + 1;
        continue;
      }
      var handCards := g.deck[..4];
      g.deck := g.deck[4..];
      ghost var drained := g.View();
      var j := 0;
      while j < |handCards|
        invariant j <= |handCards|
        invariant g.View() == drained.(cards := g.cards)
        invariant DealInto(g.cards, handCards, p, seat, j) == DealInto(drained.cards, handCards, p, seat, 0)
      {
        var id := handCards[j];
        if id in g.cards {
          g.cards := g.cards[id := Dealt(g.cards[id], p, seat, j)];
        }
        j := j + 1;
      }
      if p in g.hands {
        g.hands := g.hands[p := handCards];
      }
      assert g.View() == DealOne(before, seat);
      seat := seat + 1;
    }
  }

  /** Closed form of the inner loop on duplicate-free ids: the `k`-th id is dealt as card number `k`, the rest untouched. */
  lemma {:induction false} DealIntoAt(cards: map<CardId, Card>, ids: seq<CardId>, p: PlayerId, seat: nat, j: nat)
    requires NoDup(ids) && j <= |ids|
    ensures var r := DealInto(cards, ids, p, seat, j);
      && r.Keys == cards.Keys
      && (forall k :: j <= k < |ids| && ids[k] in cards ==> r[ids[k]] == Dealt(cards[ids[k]], p, seat, k))
      && (forall id :: id in cards && id !in ids[j..] ==> r[id] == cards[id])
    decreases |ids| - j
  {
    if j < |ids| {
      var next := if ids[j] in cards then cards[ids[j] := Dealt(cards[ids[j]], p, seat, j)] else cards;
      DealIntoAt(next, ids, p, seat, j + 1);
      assert forall k :: j < k < |ids| ==> ids[k] != ids[j];
      assert forall id :: id in ids[j + 1..] ==> id in ids[j..];
      assert ids[j..] == [ids[j]] + ids[j + 1..];
    }
  }

  /**
   * With fewer than four deck cards the player is skipped. Otherwise the player's hand list
   * becomes exactly the first four deck cards, the deck keeps the rest in order, and each dealt
   * card is in that hand, owned by that player, face up iff the player is seat 0 and the card is
   * one of its first two.
   */
  lemma DealOneEffect(b: Board, seat: nat)
    requires seat < |b.players| && NoDup(b.deck)
    ensures var r := DealOne(b, seat); var p := b.players[seat];
      && (|b.deck| < 4 ==> r == b)
      && (|b.deck| >= 4 ==>
            && b.deck == b.deck[..4] + r.deck
            && (p in b.hands ==> r.hands == b.hands[p := b.deck[..4]])
            && r.cards.Keys == b.cards.Keys && r.hands.Keys == b.hands.Keys
            && (forall k :: 0 <= k < 4 && b.deck[k] in b.cards ==>
                  && r.cards[b.deck[k]].owner == Some(p)
                  && r.cards[b.deck[k]].zone == Hand(p)
                  && (r.cards[b.deck[k]].faceUp <==> seat == 0 && k < 2))
            && (forall id :: id in b.cards && id !in b.deck[..4] ==> r.cards[id] == b.cards[id]))
  {
    if |b.deck| >= 4 {
      TailNoDup(b.deck, 4);
      DealIntoAt(b.cards, b.deck[..4], b.players[seat], seat, 0);
      assert b.deck == b.deck[..4] + b.deck[4..];
    }
  }

  /** With four cards left, the player at `seat` gets the first four and the deck keeps the rest. */
  lemma DealOneTakesFour(b: Board, seat: nat)
    requires seat < |b.players| && |b.deck| >= 4 && b.players[seat] in b.hands
    ensures DealOne(b, seat).deck == b.deck[4..]
    ensures DealOne(b, seat).hands == b.hands[b.players[seat] := b.deck[..4]]
  {
  }

  /** With enough cards for every remaining player, the deck loses exactly four cards per player, order kept. */
  lemma {:induction false} DealFromDeck(b: Board, s: nat)
    requires s <= |b.players| && |b.deck| >= 4 * (|b.players| - s)
    requires forall q :: q in b.players ==> q in b.hands
    ensures DealFrom(b, s).hands.Keys == b.hands.Keys
    ensures DealFrom(b, s).deck == b.deck[4 * (|b.players| - s)..]
    decreases |b.players| - s
  {
    if s < |b.players| {
      DealOneTakesFour(b, s);
      DealFromDeck(DealOne(b, s), s + 1);
    }
  }

  /**
   * With distinct players and enough cards for all of them, the player at seat `s + k` receives
   * deck cards `4k .. 4k+4`.
   */
  lemma {:induction false} DealFromHands(b: Board, s: nat)
    requires NoDup(b.players) && s <= |b.players|
    requires |b.deck| >= 4 * (|b.players| - s)
    requires forall q :: q in b.players ==> q in b.hands
    ensures forall k :: s <= k < |b.players| ==>
      b.players[k] in DealFrom(b, s).hands &&
      DealFrom(b, s).hands[b.players[k]] == b.deck[4 * (k - s) .. 4 * (k - s) + 4]
    decreases |b.players| - s
  {
    if s < |b.players| {
      var m := DealOne(b, s);
      DealOneTakesFour(b, s);
      DealFromHands(m, s + 1);
      DealFromKeepsEarlierHands(m, s + 1, s);
      forall k | s + 1 <= k < |b.players|
        ensures DealFrom(m, s + 1).hands[b.players[k]] == b.deck[4 * (k - s) .. 4 * (k - s) + 4]
      {
        SliceOfTail(b.deck, 4 * (k - s - 1));
      }
      assert DealFrom(b, s) == DealFrom(m, s + 1);
    }
  }

  lemma SliceOfTail<T>(s: seq<T>, a: nat)
    requires a + 8 <= |s|
    ensures s[4..][a .. a + 4] == s[a + 4 .. a + 8]
  {
  }

  /** Dealing from seat `s` on does not touch the hand of a player seated before `s`. */
  lemma {:induction false} DealFromKeepsEarlierHands(b: Board, s: nat, i: nat)
    requires NoDup(b.players) && i < s <= |b.players|
    requires b.players[i] in b.hands
    ensures b.players[i] in DealFrom(b, s).hands && DealFrom(b, s).hands[b.players[i]] == b.hands[b.players[i]]
    decreases |b.players| - s
  {
    if s < |b.players| {
      assert b.players[s] != b.players[i];
      DealFromKeepsEarlierHands(DealOne(b, s), s + 1, i);
    }
  }

  /** After dealing to a player whose hand was empty, every card's zone tag names a container that holds it. */
  lemma DealOneTagsHeld(b: Board, seat: nat)
    requires seat < |b.players| && Placed(b) && |b.deck| >= 4
    requires b.players[seat] in b.hands && b.hands[b.players[seat]] == []
    ensures forall id :: id in DealOne(b, seat).cards ==> InItsContainer(DealOne(b, seat), id)
  {
    DealOneEffect(b, seat);
    var r := DealOne(b, seat);
    var p := b.players[seat];
    var ids := b.deck[..4];
    forall id | id in r.cards ensures InItsContainer(r, id) {
      if id in ids {
        var k :| 0 <= k < 4 && ids[k] == id;
        assert r.cards[b.deck[k]].zone == Hand(p);
      } else {
        assert InItsContainer(b, id);
        if b.cards[id].zone == Deck {
          assert id in b.deck[..4] + r.deck;
        }
      }
    }
  }

  /** After dealing to a player whose hand was empty, every hand holds only cards tagged with that hand. */
  lemma DealOneHandsTagged(b: Board, seat: nat)
    requires seat < |b.players| && Placed(b) && |b.deck| >= 4
    requires b.players[seat] in b.hands && b.hands[b.players[seat]] == []
    ensures var r := DealOne(b, seat);
      forall q, id :: q in r.hands && id in r.hands[q] ==> id in r.cards && r.cards[id].zone == Hand(q)
  {
    DealOneEffect(b, seat);
    var r := DealOne(b, seat);
    var p := b.players[seat];
    var ids := b.deck[..4];
    forall q, id | q in r.hands && id in r.hands[q]
      ensures id in r.cards && r.cards[id].zone == Hand(q)
    {
      if q == p {
        var k :| 0 <= k < 4 && ids[k] == id;
        assert r.cards[b.deck[k]].zone == Hand(p);
      } else {
        assert id in b.hands[q];
        assert id !in b.deck;
      }
    }
  }

  /** After dealing, the deck and the graveyard hold only cards tagged with them. */
  lemma DealOnePilesTagged(b: Board, seat: nat)
    requires seat < |b.players| && Placed(b) && |b.deck| >= 4
    ensures var r := DealOne(b, seat);
      && (forall id :: id in r.graveyard ==> id in r.cards && r.cards[id].zone == Graveyard)
      && (forall id :: id in r.deck ==> id in r.cards && r.cards[id].zone == Deck)
  {
    DealOneEffect(b, seat);
    TailNoDup(b.deck, 4);
    var r := DealOne(b, seat);
    forall id | id in r.deck ensures id in r.cards && r.cards[id].zone == Deck {
      assert id in b.deck[..4] + r.deck;
    }
  }

  /** Dealing to a player whose hand is empty keeps the zone invariant. */
  lemma DealOneConsistentStep(b: Board, seat: nat)
    requires seat < |b.players| && Placed(b)
    requires b.players[seat] in b.hands && b.hands[b.players[seat]] == []
    ensures Placed(DealOne(b, seat))
    ensures DealOne(b, seat).cards.Keys == b.cards.Keys
    ensures DealOne(b, seat).hands.Keys == b.hands.Keys
    ensures DealOne(b, seat).nextId == b.nextId
  {
    DealOneEffect(b, seat);
    if |b.deck| >= 4 {
      TailNoDup(b.deck, 4);
      DealOneTagsHeld(b, seat);
      DealOneHandsTagged(b, seat);
      DealOnePilesTagged(b, seat);
    }
  }

  ghost predicate SeatedHandsEmptyFrom(b: Board, s: nat) {
    forall k :: s <= k < |b.players| && b.players[k] in b.hands ==> b.hands[b.players[k]] == []
  }

  /** From a consistent board whose hands are all empty, dealing keeps the zone invariant and the set of cards. */
  lemma {:induction false} DealFromConsistent(b: Board, s: nat)
    requires Consistent(b) && s <= |b.players| && SeatedHandsEmptyFrom(b, s)
    ensures Consistent(DealFrom(b, s)) && DealFrom(b, s).cards.Keys == b.cards.Keys
    decreases |b.players| - s
  {
    if s < |b.players| {
      DealOneConsistentStep(b, s);
      var m := DealOne(b, s);
      forall k | s + 1 <= k < |b.players| && b.players[k] in m.hands
        ensures m.hands[b.players[k]] == []
      {
        assert b.players[k] != b.players[s];
      }
      DealFromConsistent(m, s + 1);
    }
  }

  lemma DealConsistent(b: Board)
    requires Consistent(b)
    requires forall p :: p in b.hands ==> b.hands[p] == []
    ensures Consistent(AfterDeal(b)) && AfterDeal(b).cards.Keys == b.cards.Keys
  {
    DealFromConsistent(b, 0);
  }

  /** Dealing to two players from a full 48-card deck leaves 40 cards in the deck. */
  lemma DealTwoFromFortyEight(b: Board)
    requires Consistent(b) && |b.players| == 2 && |b.deck| == 48
    ensures |AfterDeal(b).deck| == 40
    ensures b.players[0] in AfterDeal(b).hands && b.players[1] in AfterDeal(b).hands
    ensures AfterDeal(b).hands[b.players[0]] == b.deck[..4]
    ensures AfterDeal(b).hands[b.players[1]] == b.deck[4..8]
  {
    DealFromDeck(b, 0);
    DealFromHands(b, 0);
  }
}
