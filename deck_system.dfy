/**
 * Spawning the deck: the 48 (suit, value) pairs are shuffled, one face-down card per pair is
 * created in the deck zone with the texture `suit index * 12 + value - 1`, and the deck entity
 * lists the new cards in shuffled order.
 */
module DeckSystem {
  import opened Cards
  import opened Seqs
  import opened World
  import opened CardSystem

  function SuitIndex(s: Suit): (r: nat)
    ensures r < 4
  {
    match s
    case Coarse => 0
    case Cup => 1
    case Gold => 2
    case Sword => 3
  }

  /** Position of a card's front image in the loaded texture list. */
  function TextureIndex(s: Suit, v: nat): int {
    SuitIndex(s) * 12 + v - 1
  }

  /** Texture indices of the 48 pairs are distinct, lie in [0, 48) and follow the pair order. */
  lemma TextureIndexBijective()
    ensures forall s: Suit, v: nat :: 1 <= v <= 12 ==> 0 <= TextureIndex(s, v) < 48
    ensures forall s1: Suit, v1: nat, s2: Suit, v2: nat ::
      1 <= v1 <= 12 && 1 <= v2 <= 12 && TextureIndex(s1, v1) == TextureIndex(s2, v2) ==> s1 == s2 && v1 == v2
    ensures forall i :: 0 <= i < 48 ==> TextureIndex(SuitValuePairs()[i].0, SuitValuePairs()[i].1) == i
  {
    forall s1: Suit, v1: nat, s2: Suit, v2: nat |
      1 <= v1 <= 12 && 1 <= v2 <= 12 && TextureIndex(s1, v1) == TextureIndex(s2, v2)
      ensures s1 == s2 && v1 == v2
    {
      assert SuitIndex(s1) == SuitIndex(s2);
    }
    var r := SuitValuePairs();
    forall i | 0 <= i < 48 ensures TextureIndex(r[i].0, r[i].1) == i {
      var q := i / 12;
      assert r[i] == (Suits[q], i % 12 + 1);
      assert SuitIndex(Suits[q]) == q by {
        assert q < 4;
      }
    }
  }

  /** `perm` maps the positions `[0, n)` one-to-one onto themselves (the outcome of a shuffle). */
  predicate IsPermutation(perm: seq<nat>, n: nat) {
    && |perm| == n
    && (forall i :: 0 <= i < n ==> perm[i] < n)
    && (forall k :: 0 <= k < n ==> k in perm)
    && NoDup(perm)
  }

  /** Position `i` of the result holds `s[perm[i]]`. */
  function Permute<T>(s: seq<T>, perm: seq<nat>): (r: seq<T>)
    requires forall i :: 0 <= i < |perm| ==> perm[i] < |s|
    ensures |r| == |perm|
    ensures forall i :: 0 <= i < |perm| ==> r[i] == s[perm[i]]
  {
    seq(|perm|, i requires 0 <= i < |perm| => s[perm[i]])
  }

  /** Shuffling a duplicate-free sequence by a permutation reorders it: same multiset, still duplicate-free. */
  lemma PermuteReorders<T>(s: seq<T>, perm: seq<nat>)
    requires IsPermutation(perm, |s|) && NoDup(s)
    ensures NoDup(Permute(s, perm))
    ensures multiset(Permute(s, perm)) == multiset(s)
  {
    var r := Permute(s, perm);
    forall i, j | 0 <= i < j < |r| ensures r[i] != r[j] {
      assert perm[i] != perm[j];
    }
    forall x ensures x in r <==> x in s {
      if x in s {
        var k :| 0 <= k < |s| && s[k] == x;
        var i := IndexOf(perm, k);
        assert r[i] == x;
      }
    }
    SameElementsSameMultiset(r, s);
  }

  /** The card created for a pair: face down, ownerless, in the deck, not marked as drawn from it. */
  function NewCard(pair: (Suit, nat)): Card {
    Card(pair.0, pair.1, false, None, Deck, if pair.1 >= 1 then TextureIndex(pair.0, pair.1) as nat else 0, false)
  }

  /** The shuffled pairs. */
  function Shuffled(perm: seq<nat>): (r: seq<(Suit, nat)>)
    requires IsPermutation(perm, 48)
    ensures |r| == 48
  {
    SuitValuePairsComplete();
    Permute(SuitValuePairs(), perm)
  }

  /** The spawned handles in order: `nextId`, `nextId + 1`, ... */
  function Fresh(from: nat, n: nat): (r: seq<CardId>)
    ensures |r| == n && forall i :: 0 <= i < n ==> r[i] == from + i
  {
    seq(n, i => from + i)
  }

  /** `cards` with one new card per pair, the `k`-th under handle `from + k`. */
  function AddCards(cards: map<CardId, Card>, pairs: seq<(Suit, nat)>, from: nat): (r: map<CardId, Card>)
    ensures forall id :: id in r <==> id in cards || from <= id < from + |pairs|
    ensures forall k :: 0 <= k < |pairs| ==> r[from + k] == NewCard(pairs[k])
    ensures forall id :: id in cards && !(from <= id < from + |pairs|) ==> r[id] == cards[id]
  {
    if pairs == [] then cards
    else
      var last := |pairs| - 1;
      AddCards(cards, pairs[..last], from)[from + last := NewCard(pairs[last])]
  }

  /** Adding one more pair adds its card under the next handle. */
  lemma AddCardsSnoc(cards: map<CardId, Card>, pairs: seq<(Suit, nat)>, from: nat, i: nat)
    requires i < |pairs|
    ensures AddCards(cards, pairs[..i + 1], from) == AddCards(cards, pairs[..i], from)[from + i := NewCard(pairs[i])]
  {
    assert pairs[..i + 1][..i] == pairs[..i];
  }

  /** One more fresh handle extends the list by the next handle. */
  lemma FreshSnoc(from: nat, n: nat)
    ensures Fresh(from, n + 1) == Fresh(from, n) + [from + n]
  {
  }

  function AfterSpawn(b: Board, perm: seq<nat>): Board
    requires IsPermutation(perm, 48)
  {
    b.(cards := AddCards(b.cards, Shuffled(perm), b.nextId),
       deck := Fresh(b.nextId, 48),
       nextId := b.nextId + 48)
  }

  /** The spawn loop: one new card per pair under consecutive handles from `from`, and the list of those handles. */
  method SpawnAll(cards: map<CardId, Card>, pairs: seq<(Suit, nat)>, from: nat)
    returns (r: map<CardId, Card>, entities: seq<CardId>)
    ensures r == AddCards(cards, pairs, from)
    ensures entities == Fresh(from, |pairs|)
  {
    r := cards;
    entities := [];
    var i := 0;
    while i < |pairs|
      invariant 0 <= i <= |pairs|
      invariant entities == Fresh(from, i)
      invariant r == AddCards(cards, pairs[..i], from)
    {
      AddCardsSnoc(cards, pairs, from, i);
      FreshSnoc(from, i);
      r := r[from + i := NewCard(pairs[i])];
      entities := entities + [from + i];
      i := i + 1;
    }
    assert pairs[..|pairs|] == pairs;
  }

  /**
   * Spawns one card per shuffled pair under consecutive handles, then the deck listing them;
   * the spawns are queued commands, so the world changes once, when they are applied.
   */
  method SpawnCards(g: Game, perm: seq<nat>)
    requires IsPermutation(perm, 48)
    modifies g
    ensures g.View() == AfterSpawn(old(g.View()), perm)
  {
    var pairs := Shuffled(perm);
    var cards, entities := SpawnAll(g.cards, pairs, g.nextId);
    g.cards, g.deck, g.nextId := cards, entities, g.nextId + 48;
  }

  /** The shuffled pairs are all 48 pairs, each once, in some order, every value in 1..12. */
  lemma ShuffledPairs(perm: seq<nat>)
    requires IsPermutation(perm, 48)
    ensures multiset(Shuffled(perm)) == multiset(SuitValuePairs())
    ensures NoDup(Shuffled(perm))
    ensures forall i :: 0 <= i < 48 ==> 1 <= Shuffled(perm)[i].1 <= 12
  {
    SuitValuePairsComplete();
    PermuteReorders(SuitValuePairs(), perm);
    var pairs := Shuffled(perm);
    forall i | 0 <= i < 48 ensures 1 <= pairs[i].1 <= 12 {
      assert pairs[i] == SuitValuePairs()[perm[i]];
    }
  }

  /** The `i`-th spawned card sits at deck position `i` under handle `nextId + i`, built from the `i`-th shuffled pair. */
  lemma SpawnedCard(b: Board, perm: seq<nat>, i: nat)
    requires IsPermutation(perm, 48) && i < 48
    ensures var r := AfterSpawn(b, perm);
      && r.deck[i] == b.nextId + i
      && r.deck[i] in r.cards
      && r.cards[r.deck[i]] == NewCard(Shuffled(perm)[i])
  {
    var pairs := Shuffled(perm);
    assert AddCards(b.cards, pairs, b.nextId)[b.nextId + i] == NewCard(pairs[i]);
  }

  /** A card that existed before the spawn keeps its handle and its data. */
  lemma OldCardKept(b: Board, perm: seq<nat>, id: CardId)
    requires IsPermutation(perm, 48) && WellFormed(b) && id in b.cards
    ensures id in AfterSpawn(b, perm).cards && AfterSpawn(b, perm).cards[id] == b.cards[id]
  {
    assert id < b.nextId;
  }

  /**
   * The spawned deck lists 48 new, distinct cards, all face down, ownerless, tagged as deck
   * cards, showing the texture of their own pair; read in deck order their pairs are the
   * shuffled pairs, a reordering of all 48 pairs.
   */
  lemma SpawnDeck(b: Board, perm: seq<nat>)
    requires IsPermutation(perm, 48)
    requires WellFormed(b)
    ensures var r := AfterSpawn(b, perm);
      && |r.deck| == 48 && NoDup(r.deck)
      && (forall id :: id in r.deck ==> id !in b.cards && id in r.cards)
      && (forall id :: id in r.deck ==>
            && !r.cards[id].faceUp && r.cards[id].owner.None? && r.cards[id].zone == Deck && !r.cards[id].fromDeck
            && 1 <= r.cards[id].value <= 12 && r.cards[id].front == TextureIndex(r.cards[id].suit, r.cards[id].value))
      && (forall i :: 0 <= i < 48 ==> (r.cards[r.deck[i]].suit, r.cards[r.deck[i]].value) == Shuffled(perm)[i])
      && multiset(Shuffled(perm)) == multiset(SuitValuePairs())
  {
    var r := AfterSpawn(b, perm);
    var pairs := Shuffled(perm);
    ShuffledPairs(perm);
    forall i | 0 <= i < 48
      ensures (r.cards[r.deck[i]].suit, r.cards[r.deck[i]].value) == pairs[i]
    {
      SpawnedCard(b, perm, i);
    }
    forall id | id in r.deck
      ensures id !in b.cards && id in r.cards
      ensures && !r.cards[id].faceUp && r.cards[id].owner.None? && r.cards[id].zone == Deck && !r.cards[id].fromDeck
        && 1 <= r.cards[id].value <= 12 && r.cards[id].front == TextureIndex(r.cards[id].suit, r.cards[id].value)
    {
      var i := IndexOf(r.deck, id);
      SpawnedCard(b, perm, i);
      assert 1 <= pairs[i].1 <= 12;
    }
  }

  /** Cards that already existed are untouched, and the only new cards are the deck's. */
  lemma SpawnKeepsOldCards(b: Board, perm: seq<nat>)
    requires IsPermutation(perm, 48)
    requires WellFormed(b)
    ensures var r := AfterSpawn(b, perm);
      && (forall id :: id in b.cards ==> id in r.cards && r.cards[id] == b.cards[id])
      && (forall id :: id in r.cards <==> id in b.cards || id in r.deck)
  {
    var r := AfterSpawn(b, perm);
    var n := b.nextId;
    forall id | id in b.cards ensures id in r.cards && r.cards[id] == b.cards[id] {
      OldCardKept(b, perm, id);
    }
    forall id | id in r.deck ensures id in r.cards {
      SpawnedCard(b, perm, IndexOf(r.deck, id));
    }
    forall id | id in r.cards && id !in b.cards ensures id in r.deck {
      assert r.deck[id - n] == id;
    }
  }

  /** After spawning onto an empty deck, every card's zone tag names a container that holds it. */
  lemma SpawnTagsHeld(b: Board, perm: seq<nat>)
    requires IsPermutation(perm, 48)
    requires Consistent(b) && b.deck == []
    ensures forall id :: id in AfterSpawn(b, perm).cards ==> InItsContainer(AfterSpawn(b, perm), id)
  {
    var r := AfterSpawn(b, perm);
    forall id | id in r.cards ensures InItsContainer(r, id) {
      if id in b.cards {
        assert InItsContainer(b, id);
        OldCardKept(b, perm, id);
      } else {
        SpawnedCard(b, perm, id - b.nextId);
      }
    }
  }

  /** After spawning, the deck holds only deck-tagged cards and the other containers keep their cards' data. */
  lemma SpawnContainersTagged(b: Board, perm: seq<nat>)
    requires IsPermutation(perm, 48)
    requires Consistent(b)
    ensures var r := AfterSpawn(b, perm);
      && (forall id :: id in r.deck ==> id in r.cards && r.cards[id].zone == Deck)
      && (forall id :: id in r.graveyard ==> id in r.cards && r.cards[id] == b.cards[id])
      && (forall p, id :: p in r.hands && id in r.hands[p] ==> id in r.cards && r.cards[id] == b.cards[id])
  {
    var r := AfterSpawn(b, perm);
    forall id | id in r.deck ensures id in r.cards && r.cards[id].zone == Deck {
      SpawnedCard(b, perm, IndexOf(r.deck, id));
    }
    forall id | id in r.graveyard ensures id in r.cards && r.cards[id] == b.cards[id] {
      OldCardKept(b, perm, id);
    }
    forall p, id | p in r.hands && id in r.hands[p] ensures id in r.cards && r.cards[id] == b.cards[id] {
      OldCardKept(b, perm, id);
    }
  }

  /** Spawning onto a board with an empty deck keeps every card in exactly one place. */
  lemma SpawnConsistent(b: Board, perm: seq<nat>)
    requires IsPermutation(perm, 48)
    requires Consistent(b) && b.deck == []
    ensures Consistent(AfterSpawn(b, perm))
  {
    SpawnTagsHeld(b, perm);
    SpawnContainersTagged(b, perm);
  }

  /** Spawning onto a board without cards leaves exactly the 48 deck cards, each in the deck once. */
  lemma SpawnOnEmpty(b: Board, perm: seq<nat>)
    requires IsPermutation(perm, 48)
    requires Consistent(b) && b.cards == map[] && b.deck == []
    ensures var r := AfterSpawn(b, perm);
      Consistent(r) && |r.cards| == 48 && r.cards.Keys == Elements(r.deck)
  {
    var r := AfterSpawn(b, perm);
    SpawnConsistent(b, perm);
    SpawnKeepsOldCards(b, perm);
    assert r.cards.Keys == Elements(r.deck);
    assert NoDup(r.deck);
    NoDupCardinality(r.deck);
  }

  /** A fresh game whose deck has just been spawned holds exactly the 48 deck cards. */
  lemma StartupSpawn(players: seq<PlayerId>, turn: Turn, timeLimit: real, perm: seq<nat>)
    requires NoDup(players) && IsPermutation(perm, 48)
    ensures var r := AfterSpawn(Startup(players, turn, timeLimit), perm);
      Consistent(r) && |r.cards| == 48
  {
    SpawnOnEmpty(Startup(players, turn, timeLimit), perm);
  }
}
