# Card game rule engine — Dafny model

This project models the rule engine of a Spanish-deck card game, designed for two players,
built on an entity-component-system engine. The start-up code spawns a single local player;
the model takes the list of seats as a parameter. Forty-eight cards (four suits, values 1 to 12) are spawned
into a shuffled deck. Each player is dealt four cards. On a turn the current player draws
once, from the deck or from the top of the graveyard. The player then discards the drawn
card, or double-clicks a hand card to swap it for the drawn card. Either way the turn passes
to the next player. A drawn 11, 9 or 7 can start a Shuffle, Reveal or Swap power. Pressing R
ends the round. At round end every hand is revealed, hands are scored by the sum of their
values, and the lowest score wins. Pressing N clears the table for a new round.

The whole game state is the value `World.Board`: the card entities, the deck list, the
graveyard stack, each player's hand list, the players in creation order, the turn record, the
special-effect record, the double-click memory, the `Selected` markers, the application
state and the next free card handle. `World.Game` is a class with the same fields. Every
system is a method that updates a `Game` in place, and its postcondition ties the new state to
a function of the old one (`g.View() == AfterDiscard(old(g.View()), id)`). The rules are then
proved as lemmas about those functions. The central invariant is `World.Consistent`. It
says that every card lies in exactly one place, namely the container its zone tag names, and
that no container holds a card twice. A second invariant, `World.SingleDrawn`, is the
drawn-slot rule: at most one card is drawn, it is the current player's, and the turn records
the draw. Module `DrawnSlot` proves that every system of the current game flow keeps it.

Modules follow the source tree: `CardHandles` (card/handles.rs), `CardUtils`
(card/utils.rs), `CardSystem` (card/system.rs), `HandSystem`, `RoundEnd`, `SpecialCards`
(special_cards/system.rs), `SpecialEffects` (special_cards/effect.rs), `DeckSystem`,
`TurnPlayer` (turn_player/) and `LegacyTurnPlayer` (the older turnPlayer/ module). `Cards`,
`World` and `Seqs` hold the data model and sequence helpers.

Modelling choices:
- Entities are natural-number handles. "The first card a query finds" is the card with the
  lowest handle (`World.FindDrawn`).
- Cursor hit-testing becomes an input `CardSystem.Hit`: the card under the mouse cursor, and
  whether the mouse cursor lies in the deck region and in the graveyard region. The three
  detectors are independent in the source, so the dispatch order is part of the model.
- Keys, mouse presses and the clock are parameters. The shuffle is a permutation of the 48
  positions that the caller supplies (`DeckSystem.IsPermutation`).
- Deferred commands and state transitions take effect immediately.

Where the code and the written design disagree, the model follows the code:
- The `from_deck` flag is never set to true, and power activation never reads it. A power
  card taken from the graveyard can therefore be activated (`SpecialCards.GraveyardDrawCanActivate`).
- A discard does not clear the card's owner (`CardUtils.DiscardEffect`).
- While a target is awaited, only a click that hits a card is consumed. A click on the deck
  or graveyard that hits no card still draws (`CardSystem.AwaitingTargetDoesNotBlockDeckDraw`).
- Preparing a new round does not reset the special-effect record.
- Reveal flips the first face-down card of the current hand, in hand order (special_cards/effect.rs:15-26), not a randomly chosen one (`SpecialEffects.RevealFlipsFirstFaceDown`).
- There are two `Turn` resource types. round_end/system.rs:2 imports the older
  `turnPlayer::component::Turn` and line 85 resets `has_drawn_card` on it, while the older
  start at turnPlayer/system.rs:12-14 builds that record without the field. The model keeps one
  turn record, `Board.turn`, so the older Space and D keys and the new-round reset act on the
  same record as the current turn flow.
- The data types are taken from how the behaviour files use them. card/component.rs declares
  no `DrawnCard` position and no suit. special_cards/resource.rs declares no
  `awaiting_own_card`, `own_card` or `target_card` fields. The systems use all of these.
- Several call sites do not compile as written, and the model reads each of them as the
  evident intent:
  - special_cards/system.rs:46 and :52 use an undefined `card_entity` (the query at line 7
    has no `Entity`). The model records the handle of the current player's drawn card there.
  - card/handles.rs:26 calls `discard_card` with 4 arguments, but card/utils.rs:7-16 takes 8.
  - card/handles.rs:45 calls `card_swap` with 6 arguments, but card/utils.rs:62-72 takes 9.
  - card/system.rs:151 and :157 pass `windows` to `handle_deck_click` and
    `handle_graveyard_click`, which take 3 parameters (card/handles.rs:59-63 and 98-102).

  Each such call is modelled as running the whole callee.
- A newly created effect record gets only its card, type and awaiting flag from
  special_cards/system.rs:51-55. Its other fields start empty, as the resource's `Default`
  gives them.

## Model

| member | source | states |
|---|---|---|
| World.ExactlyOnePlace | src/game/card/component.rs:11-16 | under the zone invariant a card is in exactly one place (deck, graveyard, one hand, or a drawn slot), and every id a container holds is a card |
| World.FindDrawn | src/game/card/utils.rs:85-86 | returns a card in `DrawnCard(p)` with no lower handle in that zone, or none when no card is there |
| World.DrawnCardOf | src/game/special_cards/system.rs:25-29 | the current player's drawn card as the query finds it; on a well-formed board, none means the player holds no drawn card |
| World.Startup | src/game/player/system.rs:5-14 | every seat of a given list of distinct players (the source spawns exactly one, "Local Player") gets an empty hand, the game is in the main menu, the board satisfies the zone invariant and no card is drawn |
| World.DrawnCardOfIsTheDrawnCard | src/game/special_cards/system.rs:25-29 | under the drawn-slot rule a drawn card belongs to the current player and is the one the search finds, so the lowest-handle choice stands for any query order |
| World.NoNewDrawn | src/game/card/component.rs:11-16 | a change that keeps the turn and puts no card into a drawn slot keeps the drawn-slot rule |
| World.Game.constructor | src/game/gamestate.rs:4-10 | a new game is the start-up state, in the default `MainMenu` state |
| World.Game.ClearSelection | src/game/card/handles.rs:48-50 | removing every `Selected` marker empties the selection and changes nothing else |
| Seqs.WithoutNoDup | src/game/card/utils.rs:142 | `retain` keeps a hand duplicate-free, removes the card, and shortens the hand by one exactly when the card was in it |
| CardUtils.Successor | src/game/card/utils.rs:171-173 | the next player exists exactly when the current player is in the player list, and is a listed player |
| CardUtils.ChangeTurn | src/game/card/utils.rs:162-178 | the position loop advances the turn to the next player and clears the drawn flag, or does nothing for an unseated player |
| CardUtils.ChangeTurnAt | src/game/card/utils.rs:171-177 | one turn change from seat j hands the turn to seat j+1, or to seat 0 after the last seat |
| CardUtils.SuccessorAt | src/game/card/utils.rs:171-174 | with distinct players, the player after seat j is seat j+1, wrapping to seat 0 after the last |
| CardUtils.ChangeTurnTimesAt | src/game/card/utils.rs:171-174 | k ≤ n turn changes from seat i reach seat i+k, wrapping once |
| CardUtils.ChangeTurnFullCircle | src/game/card/utils.rs:171-174 | n turn changes among n distinct players bring the turn back to the same player |
| CardUtils.ChangeTurnNeverStays | src/game/card/utils.rs:171-174 | with two or more players the turn always moves to another player, who has not drawn |
| CardUtils.ChangeTurnOnlyTouchesTurn | src/game/card/utils.rs:162-178 | a turn change writes only the turn record: `players[(pos+1) % n]` with the flag cleared, or nothing when the current player is unseated |
| CardUtils.ChangeTurnConsistent | src/game/card/utils.rs:162-178 | a turn change keeps the zone invariant |
| CardUtils.DiscardCard | src/game/card/utils.rs:7-60 | the drawn card goes face up on top of the graveyard, the selection is cleared and the turn advances; any other card is ignored |
| CardUtils.DiscardRejected | src/game/card/utils.rs:17-18 | discarding anything but the current player's drawn card changes nothing |
| CardUtils.DiscardEffect | src/game/card/utils.rs:20-55 | after a discard the card is face up and last in the graveyard, its owner is kept, no other card, hand or deck changes, the selection is empty and the turn is the successor's |
| CardUtils.DiscardConsistent | src/game/card/utils.rs:7-60 | a discard keeps the zone invariant |
| CardUtils.CardSwap | src/game/card/utils.rs:62-159 | the clicked hand card and the drawn card trade places, the selection is cleared and the turn advances, or nothing happens when either card is missing |
| CardUtils.Exchange | src/game/card/utils.rs:110-146 | the in-place exchange: drawn card into the hand face down, clicked card face up onto the graveyard, hand list updated, selection cleared |
| CardUtils.ExchangedEffect | src/game/card/utils.rs:110-153 | before the turn changes, the drawn card is in the hand face down, the clicked card face up on top of the graveyard, the hand list lost one card and gained the other, the selection is cleared, and no other field (deck, turn, effect, click memory, players, state) changed |
| CardUtils.SwapRejected | src/game/card/utils.rs:77-91 | without a clicked card in the current hand, or without a drawn card, nothing changes |
| CardUtils.SwapEffect | src/game/card/utils.rs:110-155 | the drawn card enters the hand face down, the clicked card goes face up on top of the graveyard, the hand list loses one card and gains the other with its length unchanged, other hands and the deck are kept, and the turn advances |
| CardUtils.SwapConsistent | src/game/card/utils.rs:110-146 | a swap keeps the zone invariant |
| CardHandles.HandleDeckClick | src/game/card/handles.rs:59-96 | the deck draw as a state change: guard checks, removal of the first deck card, the card becomes drawn, the flag is set |
| CardHandles.DeckClickBlocked | src/game/card/handles.rs:64-83 | after a draw this turn, or on an empty deck, a deck click changes nothing |
| CardHandles.DeckClickDraws | src/game/card/handles.rs:85-95 | a deck draw removes exactly the first deck card, keeps the rest in order, gives it to the current player face up, sets the drawn flag, and changes no other card |
| CardHandles.HandleGraveyardClick | src/game/card/handles.rs:98-142 | the graveyard draw as a state change: guard checks, pop of the top card, the card becomes drawn, the flag is set |
| CardHandles.GraveyardClickBlocked | src/game/card/handles.rs:103-122 | after a draw this turn, or on an empty graveyard, a graveyard click changes nothing |
| CardHandles.GraveyardClickDraws | src/game/card/handles.rs:124-141 | a graveyard draw pops exactly the top card and makes it the current player's drawn card (owned, face up, suit and value kept); only the graveyard, that card and the flag change |
| CardHandles.DrawsKeepCurrentPlayer | src/game/card/handles.rs:85-95 | neither draw changes whose turn it is |
| CardHandles.DeckClickTwiceIsOnce | src/game/card/handles.rs:64-68 | under the zone invariant a second deck click in the same turn changes nothing |
| CardHandles.DeckClickConsistent | src/game/card/handles.rs:85-95 | a deck draw keeps the zone invariant and the set of cards |
| CardHandles.GraveyardClickConsistent | src/game/card/handles.rs:124-141 | a graveyard draw keeps the zone invariant and the set of cards |
| CardHandles.DrawThenResolveKeepsPlacement | src/game/card/handles.rs:19-45 | drawing and then discarding or swapping keeps every card in exactly one place and the set of cards unchanged |
| CardHandles.HandleCardClick | src/game/card/handles.rs:7-57 | a card click discards the drawn card, swaps on a double click, or selects the card and records the click |
| CardHandles.DrawnCardClickDiscards | src/game/card/handles.rs:19-29 | clicking the current player's drawn card always discards it and leaves the click memory alone |
| CardHandles.SingleClickSelects | src/game/card/handles.rs:46-55 | a single click makes the clicked card the only selected card and records it with the time; nothing else changes |
| CardHandles.SecondClickOnSameCard | src/game/card/handles.rs:32-45 | a second click on the same card within the time limit is a swap; a later one re-selects it with the new time |
| CardHandles.CardClickConsistent | src/game/card/handles.rs:7-57 | a card click keeps the zone invariant |
| CardSystem.CardSelection | src/game/card/system.rs:74-177 | one left click is dispatched to target acquisition, deck, graveyard, card or deselection, as the source orders them |
| CardSystem.RivalClickRecordsTarget | src/game/card/system.rs:102-128 | while a target is awaited, a rival's hand card becomes the target card; Swap then awaits the player's own card, other powers record the rival as target player; the effect's card, type and own card are kept and nothing else on the board changes |
| CardSystem.OwnClickWhileAwaitingTarget | src/game/card/system.rs:104-128 | while a target is awaited, clicking one's own hand card changes nothing at all |
| CardSystem.OwnCardClickRecordsOwnCard | src/game/card/system.rs:130-145 | while one's own card is awaited, a current-hand card is recorded and the wait ends; a rival's card changes nothing |
| CardSystem.AwaitingCardHitOnlyTouchesEffect | src/game/card/system.rs:100-147 | while an effect awaits a card, a click that hits a card changes only the effect record |
| CardSystem.DispatchOrder | src/game/card/system.rs:149-168 | a deck hit wins over graveyard and card hits, then a graveyard hit, then a card hit |
| CardSystem.AwaitingTargetDoesNotBlockDeckDraw | src/game/card/system.rs:100-153 | while a target is awaited, a deck click that hits no card still draws |
| CardSystem.MissClearsSelection | src/game/card/system.rs:170-176 | a click that hits nothing clears the selection and nothing else; without a press nothing changes |
| CardSystem.SelectionConsistent | src/game/card/system.rs:74-177 | every outcome of a click keeps the zone invariant |
| CardSystem.EffectOnlyChangeConsistent | src/game/card/system.rs:100-147 | a change of only the effect record or the selection keeps the zone invariant |
| CardSystem.PairsOf | src/game/card/system.rs:38-42 | the `flat_map` lists 12 pairs per suit, with pair i being suit i/12 and value i%12+1 |
| CardSystem.SuitValuePairsComplete | src/game/card/system.rs:38-42 | the card data is 48 distinct pairs, covering every suit with every value 1 to 12 |
| HandSystem.DealInitialHands | src/game/hand/system.rs:10-60 | nested loops deal four deck cards to each player in order |
| HandSystem.DealIntoAt | src/game/hand/system.rs:46-54 | the inner loop deals the k-th card as card number k and touches no other card |
| HandSystem.DealOneEffect | src/game/hand/system.rs:27-58 | a player is skipped when fewer than 4 cards remain; otherwise the hand becomes the first 4 deck cards, owned, in the hand zone, face up iff seat 0 and one of the first two, and the deck keeps the rest in order |
| HandSystem.DealOneTakesFour | src/game/hand/system.rs:28-33 | with four or more cards left, the player gets exactly the first four and the deck keeps the rest |
| HandSystem.DealFromHands | src/game/hand/system.rs:27-58 | with enough cards, the player at seat s+k receives deck cards 4k to 4k+3 |
| HandSystem.DealFromDeck | src/game/hand/system.rs:27-33 | with enough cards, dealing from seat s removes exactly the first 4 cards per remaining player from the deck, order kept, and keeps the set of hands |
| HandSystem.DealFromKeepsEarlierHands | src/game/hand/system.rs:27-58 | dealing to later seats leaves earlier seats' hands untouched |
| HandSystem.DealOneConsistentStep | src/game/hand/system.rs:46-58 | dealing to a player with an empty hand keeps the zone invariant and the set of cards |
| HandSystem.DealFromConsistent | src/game/hand/system.rs:27-58 | dealing to every remaining player keeps the zone invariant and the set of cards |
| HandSystem.DealConsistent | src/game/hand/system.rs:10-60 | the whole deal from empty hands keeps the zone invariant and the set of cards |
| HandSystem.DealTwoFromFortyEight | src/game/hand/system.rs:27-33 | two players dealt from 48 cards get deck cards 0-3 and 4-7, and 40 remain |
| RoundEnd.RevealAllCards | src/game/round_end/system.rs:5-20 | the nested player/card loops turn face up every hand card of a listed player |
| RoundEnd.RevealPlayerCards | src/game/round_end/system.rs:11-18 | the inner loop over the card entities turns face up exactly the cards in the given player's hand zone |
| RoundEnd.RevealHandsSnoc | src/game/round_end/system.rs:10-18 | one more pass of the outer loop extends the revealed players by the next player |
| RoundEnd.RevealAllEffect | src/game/round_end/system.rs:10-18 | exactly the cards in a listed player's hand zone are turned face up; no zone and no other card changes |
| RoundEnd.RevealAllConsistent | src/game/round_end/system.rs:5-20 | revealing keeps the zone invariant |
| RoundEnd.Scores | src/game/round_end/system.rs:32-45 | one score per player with a hand, in player order, each the sum of that hand's card values |
| RoundEnd.MinIndex | src/game/round_end/system.rs:48 | `min_by_key` picks a lowest score, the first among equals |
| RoundEnd.WinnerHasLowestScore | src/game/round_end/system.rs:47-50 | a winner exists iff there are players; the winner's score is lowest and every earlier player scored more |
| RoundEnd.TwoSeatWinner | src/game/round_end/system.rs:48 | with two seats the second player wins exactly when its score is strictly lower; a tie goes to the first player, as `min_by_key` keeps the first minimum |
| RoundEnd.HandScoreAppend | src/game/round_end/system.rs:36-40 | the score of a concatenation is the sum of the scores |
| RoundEnd.HandScoreWithout | src/game/round_end/system.rs:36-40 | removing a card lowers the score by its value |
| RoundEnd.HandScoreValuesOnly | src/game/round_end/system.rs:36-40 | scores read only card values, not faces or zones |
| RoundEnd.SwapScoreDelta | src/game/card/utils.rs:142-144 | a swap changes the hand's score by the drawn card's value minus the discarded card's value |
| RoundEnd.PrepareNewRound | src/game/round_end/system.rs:56-89 | on N, hands are emptied, cards, deck and graveyard are despawned, the drawn flag is cleared and the state returns to Setup |
| RoundEnd.ClearHands | src/game/round_end/system.rs:69-72 | the hand loop empties every hand list and changes nothing else |
| RoundEnd.DespawnCards | src/game/round_end/system.rs:75-77 | the despawn loop removes every card with its selection marker |
| RoundEnd.NewRoundResets | src/game/round_end/system.rs:66-88 | after N the board is empty and consistent, every player has an empty hand, the flag is cleared, the current player is kept, and the state is Setup |
| RoundEnd.NewRoundNeedsKey | src/game/round_end/system.rs:66 | without N nothing changes |
| SpecialCards.PowerValues | src/game/special_cards/system.rs:33-38 | 11 is Shuffle, 9 is Reveal, 7 is Swap, and no other value has a power |
| SpecialCards.DetectSpecialCard | src/game/special_cards/system.rs:5-69 | activation as a state change on the effect record |
| SpecialCards.ActivationBlocked | src/game/special_cards/system.rs:16-22 | while a target is awaited, or without E, nothing changes |
| SpecialCards.ActivationEffect | src/game/special_cards/system.rs:25-57 | only the current player's drawn card is considered; a power card sets the record's card and type and awaits a target iff Shuffle or Swap, keeping the other fields; anything else changes nothing |
| SpecialCards.GraveyardDrawCanActivate | src/game/special_cards/system.rs:25-40 | a 7 drawn from the graveyard activates Swap, since activation ignores where the card came from |
| SpecialEffects.FirstFaceDown | src/game/special_cards/effect.rs:15-18 | the first existing face-down card of the hand list, every earlier card being face up; none when all are face up |
| SpecialEffects.ExecuteRevealEffect | src/game/special_cards/effect.rs:4-37 | the hand loop with early return flips the first face-down card and clears the effect |
| SpecialEffects.RevealFlipsFirstFaceDown | src/game/special_cards/effect.rs:13-26 | exactly the first face-down hand card is turned face up; no other card, container or the turn changes |
| SpecialEffects.RevealWithoutFaceDownCard | src/game/special_cards/effect.rs:29-36 | with no face-down card in the hand, or no hand, no card changes |
| SpecialEffects.RevealClearsEffect | src/game/special_cards/effect.rs:21-36 | the effect always ends with no card, no type and no awaited target; target player, target card, own card and the own-card wait are kept |
| SpecialEffects.RevealConsistent | src/game/special_cards/effect.rs:4-37 | Reveal keeps the zone invariant |
| DeckSystem.TextureIndexBijective | src/game/deck/system.rs:24-31 | suit index × 12 + value − 1 maps the 48 pairs one-to-one onto 0..47, in pair order |
| DeckSystem.PermuteReorders | src/game/deck/system.rs:17-18 | a shuffle of distinct items keeps them distinct and is a permutation |
| DeckSystem.ShuffledPairs | src/game/deck/system.rs:8-18 | the shuffled card data is all 48 pairs, each once, values 1 to 12 |
| DeckSystem.AddCards | src/game/deck/system.rs:22-48 | one new card per pair, the k-th under handle from+k; other cards are kept |
| DeckSystem.SpawnAll | src/game/deck/system.rs:21-48 | the loop builds exactly the cards AddCards describes and lists their handles in spawn order |
| DeckSystem.SpawnCards | src/game/deck/system.rs:7-54 | the spawn loop creates one card per shuffled pair and the deck lists them in order |
| DeckSystem.SpawnedCard | src/game/deck/system.rs:33-47 | the i-th spawned card is at deck position i and is built from the i-th shuffled pair |
| DeckSystem.OldCardKept | src/game/deck/system.rs:21-48 | spawning does not touch existing cards |
| DeckSystem.SpawnDeck | src/game/deck/system.rs:22-53 | the deck lists 48 new distinct cards, face down, ownerless, in the deck zone, showing their own texture, whose pairs in deck order are a reordering of all 48 pairs |
| DeckSystem.SpawnKeepsOldCards | src/game/deck/system.rs:21-48 | existing cards are untouched and the only new cards are the deck's |
| DeckSystem.SpawnConsistent | src/game/deck/system.rs:7-54 | spawning onto a board with an empty deck keeps the zone invariant |
| DeckSystem.SpawnOnEmpty | src/game/deck/system.rs:7-54 | spawning onto an empty board leaves exactly 48 cards, all in the deck |
| DeckSystem.StartupSpawn | src/game/deck/system.rs:7-54 | a fresh game with its deck spawned is consistent and holds 48 cards |
| TurnPlayer.StartTurn | src/game/turn_player/system.rs:6-21 | entering setup gives the turn to the first player with the flag cleared and starts play |
| TurnPlayer.StartTurnEffect | src/game/turn_player/system.rs:11-19 | with players, the first player holds the turn, has not drawn, and the state is PlayerTurn; only those change; without players nothing changes |
| TurnPlayer.FirstPlayerDrawsFirst | src/game/turn_player/system.rs:12-15 | right after the start, a deck click draws for the first player |
| TurnPlayer.StartTurnConsistent | src/game/turn_player/system.rs:6-21 | starting the turn keeps the zone invariant |
| TurnPlayer.EndRound | src/game/turn_player/system.rs:24-32 | R sets the state to RoundEnd |
| TurnPlayer.EndRoundAnyTime | src/game/turn_player/system.rs:28-30 | R ends the round whatever the turn record holds; without R nothing changes |
| TurnPlayer.EndRoundConsistent | src/game/turn_player/system.rs:24-32 | ending the round keeps the zone invariant |
| LegacyTurnPlayer.LegacyStartTurn | src/game/turnPlayer/system.rs:6-20 | the older start gives the turn to the first player and starts play |
| LegacyTurnPlayer.LegacyStartTurnEffect | src/game/turnPlayer/system.rs:11-19 | with players only the current player and the state change; without players nothing changes |
| LegacyTurnPlayer.LegacyNextTurn | src/game/turnPlayer/system.rs:23-40 | Space advances the current player with a position loop |
| LegacyTurnPlayer.LegacyNextTurnEffect | src/game/turnPlayer/system.rs:28-35 | Space passes the turn to the next seat, wrapping after the last, and changes nothing else; without Space nothing changes |
| LegacyTurnPlayer.LegacyNextTurnUnseated | src/game/turnPlayer/system.rs:31 | an unseated current player leaves the board unchanged |
| LegacyTurnPlayer.LegacyNextTurnAgrees | src/game/turnPlayer/system.rs:31-33 | the older pass picks the same next player as the automatic turn change |
| LegacyTurnPlayer.LegacyDraw | src/game/turnPlayer/system.rs:43-78 | D removes the first deck card and makes it the current player's drawn card |
| LegacyTurnPlayer.LegacyDrawEffect | src/game/turnPlayer/system.rs:49-76 | without D or on an empty deck nothing changes; otherwise the first card becomes the face-up drawn card of the current player, the rest of the deck keeps its order, and the turn is untouched |
| LegacyTurnPlayer.LegacyDrawTwiceTakesTwo | src/game/turnPlayer/system.rs:43-78 | with no draw-once guard, two D presses draw two cards, where two deck clicks draw one |
| LegacyTurnPlayer.LegacyDrawConsistent | src/game/turnPlayer/system.rs:43-78 | the older draw keeps the zone invariant |
| DrawnSlot.DeckClickSingleDrawn | src/game/card/handles.rs:59-96 | a deck draw keeps the drawn-slot rule: it runs only while nothing is drawn and draws one card for the current player |
| DrawnSlot.GraveyardClickSingleDrawn | src/game/card/handles.rs:98-142 | a graveyard draw keeps the drawn-slot rule |
| DrawnSlot.DiscardEmptiesSlot | src/game/card/utils.rs:7-60 | after a discard no card is drawn |
| DrawnSlot.DiscardSingleDrawn | src/game/card/utils.rs:7-60 | a discard keeps the drawn-slot rule |
| DrawnSlot.SwapEmptiesSlot | src/game/card/utils.rs:62-159 | after a swap no card is drawn |
| DrawnSlot.SwapSingleDrawn | src/game/card/utils.rs:62-159 | a swap keeps the drawn-slot rule |
| DrawnSlot.CardClickSingleDrawn | src/game/card/handles.rs:7-57 | a card click keeps the drawn-slot rule |
| DrawnSlot.SelectionSingleDrawn | src/game/card/system.rs:74-177 | every outcome of a left click keeps the drawn-slot rule |
| DrawnSlot.DealIntoNoNewDrawn | src/game/hand/system.rs:46-54 | the inner deal loop puts no card into a drawn slot |
| DrawnSlot.DealFromNoNewDrawn | src/game/hand/system.rs:27-58 | dealing keeps the turn and puts no card into a drawn slot |
| DrawnSlot.DealSingleDrawn | src/game/hand/system.rs:10-60 | the deal keeps the drawn-slot rule |
| DrawnSlot.RevealAllSingleDrawn | src/game/round_end/system.rs:5-20 | revealing all hands keeps the drawn-slot rule |
| DrawnSlot.DetectSpecialSingleDrawn | src/game/special_cards/system.rs:5-69 | activating a power keeps the drawn-slot rule |
| DrawnSlot.RevealEffectSingleDrawn | src/game/special_cards/effect.rs:4-37 | the Reveal power keeps the drawn-slot rule |
| DrawnSlot.NewRoundSingleDrawn | src/game/round_end/system.rs:56-88 | a new round keeps the drawn-slot rule and, on N, leaves no drawn card |
| DrawnSlot.SpawnSingleDrawn | src/game/deck/system.rs:7-54 | spawning keeps the drawn-slot rule: new cards start in the deck |
| DrawnSlot.StartTurnSingleDrawn | src/game/turn_player/system.rs:6-21 | starting the turn from a board with no drawn card keeps the rule and leaves the first player not having drawn |
| DrawnSlot.EndRoundSingleDrawn | src/game/turn_player/system.rs:24-31 | ending the round keeps the drawn-slot rule |
| DrawnSlot.LegacyDrawBreaksSingleDrawn | src/game/turnPlayer/system.rs:43-78 | the older D key, pressed twice on a fresh turn, leaves two drawn cards and breaks the rule |

## Left out

- Cursor hit-testing (`detect_card_click`, `detect_deck_click`, `detect_graveyard_click`) works on floating-point windows and hitboxes. It becomes the `Hit` input.
- Transforms, graveyard stack offsets, random rotations, player positions and the selection highlight are presentation only and are not modelled.
- Rendering and textures (`card_face`, texture loading and sampling) are left out. Only the texture index formula is kept, as `Card.front`.
- Animations, the turn indicator, the menu, back button and background UI, and audio are left out as presentation and I/O.
- Plugin wiring (`mod.rs` files, `main.rs`) only registers systems. System scheduling and frame order are not modelled.
- Logging (`info!`, `warn!`, `error!`) has no effect on state.
- The random shuffle cannot be verified. It is a permutation the caller supplies.
- The bodies of `shuffle_effect`, `swap_effect` and `handle_special_effects` are not part of this model. Only their registration is visible.
- Missing singletons are not modelled: no window, camera, deck entity or graveyard entity, or several of them. The model assumes exactly one of each. In the source, a missing window in `discard_card`, `card_swap` or `deal_initial_hands` returns part-way through, after some fields were already written.
- A missing `Turn` resource is not modelled. The board always holds a turn record.
- The `BoardSlot` card position is declared but never used by the rules, so it is left out.
- `spawn_cards` spawns a new deck entity each time. The model has one deck list, which the spawn replaces; `DeckSystem.SpawnConsistent` therefore requires an empty deck, as it is after start-up and after a new round. The back button returns to the main menu without despawning cards, and starting the game again then spawns a second deck over the old board; that menu path is not modelled.
- LegacyTurnPlayer.LegacyStartTurn: the older turn record has no drawn flag, so the model leaves that field of the shared turn record as it was.
- Card values are `u8` and scores `u32` in the source. With 48 cards of value at most 12, neither can overflow, so both are unbounded naturals here.
- Double-click timing uses `real` numbers. The source reads an `f32` clock (card/handles.rs:32-38), so rounding at the edge of `<= time_limit` is not modelled.
- The source spawns a single local player (player/system.rs:5-14). The model takes the list of seats as a parameter, so lemmas about two seats (`CardUtils.ChangeTurnNeverStays`, `HandSystem.DealTwoFromFortyEight`, `RoundEnd.TwoSeatWinner`, the rival-target lemmas in `CardSystem`) describe seat lists the start-up code shown does not create.
