# Token ring

A Dafny model of `score.models.TokenRing` from the score-keeping web
application: a single token (the server in ping pong, the dealer in a card
game) passed around a fixed, ordered list of players. `next()` hands the
token to the following player and wraps from the last player to the first;
`previous()` hands it back and wraps from the first to the last. An
unassigned token goes to the first player on `next()` and to the last on
`previous()`.

The ring is modelled as a value `Ring(players, token)`: `players` is an
immutable `seq<Player>` and `token` an `Option<Player>`, the player object the
token was last assigned. As in the source, the holder is identified by its
`id`, which is used directly as an index into `players`. `Next` and `Previous`
are pure functions returning the ring with the token reassigned. That is the
only write the source makes, so both keep `players` unchanged.

Preconditions (`TokenRing.Valid`) are what the code silently relies on:
- the ring is non-empty;
- every player's `id` is its position;
- an assigned holder's `id` is in range: below N for `next()`; at most N
  for `previous()` (`TokenRing.ValidForPrevious`), which still gives a
  defined result at N.

The source checks none of these.

Files:
- `token_ring.dfy`: the data model, `Next` and `Previous`.
- `ring_iteration.dfy`: repeated calls, full rounds and undo over several steps.
- `ring_properties.dfy`: single-step undo, the dealer example from the class comment, and a four-player walk-through.
- `mod_arith.dfy`: Euclidean-remainder facts used by the proofs.
- `wrappers.dfy`: `Option`.

The contracts state positions with the mathematical (Euclidean) modulus,
as Dafny's `%` computes it: the remainder is never negative, so `-1 mod N`
is `N - 1`. This differs from JavaScript's `%`, which truncates and gives
`-1 % 4 === -1`. The source itself never uses `%`. At lines 85 and 99 it
compares with the last (or first) index and wraps explicitly, and that
comparison computes the Euclidean value: `previous()` from holder 0 goes to
`N - 1`. The bodies of `Next` and `Previous` follow the source's
comparisons, and their contracts state the result as the Euclidean modulus.

A full round from an unassigned token: N calls of `next()` visit players 0
to N-1 in order, so the token ends with the LAST player. It is the (N+1)-th
call that brings it back to player 0 (`RingIteration.NextNFromUnassigned`).
From a token held by a member, N calls give back the same ring
(`RingIteration.FullRound`). From any assigned holder, N calls restore the
holder's index (`RingIteration.NextNFromHolder`).

## Model

| member | source | states |
|---|---|---|
| TokenRing.Next | web/common/js/score/models/TokenRing.js:83-87 | the result is valid and has the same players; the new holder is player `(h + 1) mod N`, where `h` is the current holder or N-1 when unassigned, so an unassigned token goes to player 0; the token holds that very player object |
| TokenRing.Previous | web/common/js/score/models/TokenRing.js:97-101 | the result is valid and has the same players; the new holder is player `(h - 1) mod N`, where `h` is the current holder or 0 when unassigned, so an unassigned token goes to player N-1, and so does a holder id equal to N; the token holds that very player object |
| RingIteration.NextN | web/common/js/score/models/TokenRing.js:83-87 | after k >= 1 calls of `next()` the ring is valid, the players are unchanged and the holder is `(h + k) mod N`; zero calls change nothing |
| RingIteration.PreviousN | web/common/js/score/models/TokenRing.js:97-101 | from any state `previous()` accepts, including a holder id of N: after k >= 1 calls of `previous()` the ring is valid, the token is held by a member, the players are unchanged, and the holder is `(h - k) mod N`; zero calls change nothing |
| RingIteration.Visits | web/common/js/score/models/TokenRing.js:83-87 | over k successive calls of `next()`, the j-th call hands the token to player `(h + j + 1) mod N` |
| RingIteration.NextNFromHolder | web/common/js/score/models/TokenRing.js:84-86 | from holder i, k calls of `next()` leave the token with player `(i + k) mod N` |
| RingIteration.PreviousNFromHolder | web/common/js/score/models/TokenRing.js:98-100 | from holder i, k calls of `previous()` leave the token with player `(i - k) mod N` |
| RingIteration.PreviousNFromSizeId | web/common/js/score/models/TokenRing.js:53-59 | from a holder id of exactly N, k >= 1 calls of `previous()` count back as if from holder 0, ending at `(-k) mod N`; k calls of `next()` then end at player 0, so the undo does not restore the holder |
| RingIteration.NextNFromUnassigned | web/common/js/score/models/TokenRing.js:76-87 | from an unassigned token, the k-th call of `next()` lands on player `(k - 1) mod N`; N calls end at the last player and N+1 calls end at the first |
| RingIteration.FullRound | web/common/js/score/models/TokenRing.js:83-101 | from a token held by a member, N calls of `next()`, or N calls of `previous()`, give back the same ring |
| RingIteration.SinglePlayerNeverChanges | web/common/js/score/models/TokenRing.js:84-86 | with one player, and the token held by that player, any number of calls of either operation leaves the ring unchanged; from an unassigned token the first call of either operation does change it |
| RingIteration.UndoSteps | web/common/js/score/models/TokenRing.js:53-59 | from an assigned holder, k calls of `previous()` undo k calls of `next()`, and vice versa; the ring itself comes back when the token was a member |
| RingIteration.VisitsInOrderFromUnassigned | web/common/js/score/models/TokenRing.js:76-87 | from an unassigned token, the first N calls of `next()` hand the token to players 0, 1, ..., N-1 in order, each exactly once |
| RingIteration.EveryPlayerWithinRound | web/common/js/score/models/TokenRing.js:31-36 | from any valid state, every player receives the token within N calls of `next()` |
| RingProperties.PreviousUndoesNext | web/common/js/score/models/TokenRing.js:53-59 | from an assigned holder, `previous()` after `next()` restores the holder, and restores the whole ring when the token was a member |
| RingProperties.NextUndoesPrevious | web/common/js/score/models/TokenRing.js:53-59 | from an assigned holder, `next()` after `previous()` restores the holder, and restores the whole ring when the token was a member |
| RingProperties.NoUndoFromUnassigned | web/common/js/score/models/TokenRing.js:75-101 | from an unassigned token neither order undoes: `next()` then `previous()` leaves the token with the last player, and `previous()` then `next()` leaves it with the first |
| RingProperties.NextPreviousInverse | web/common/js/score/models/TokenRing.js:83-101 | between rings whose token is a member, `next()` takes s to t exactly when `previous()` takes t to s |
| RingProperties.DealerExample | web/common/js/score/models/TokenRing.js:48-59 | with four players and player two (index 1) as the first dealer, `next()` makes index 2 the dealer and `previous()` gives back the original ring |
| RingProperties.FourPlayerWalkThrough | web/common/js/score/models/TokenRing.js:83-101 | with four players and no holder, three calls of `next()` hand the token to players 0, 1 and 2, and `previous()` then hands it back to 1 |

## Left out

- Empty ring: both operations require a non-empty ring. On an empty list the source reads `players[-1]` or `players[0]`, which is `undefined` in JavaScript, and passes that to the token. What the token then does is up to `score.models.Token`, which is not part of this model.
- Holder ids out of range are excluded where the source would read `undefined`. That is any id of N or more for `next()` (it reads `players[id + 1]`), and any id above N for `previous()` (it reads `players[id - 1]`). A holder id of exactly N is defined for `previous()`: it is not 0, so the token goes to `players[N - 1]`. `TokenRing.Previous` and `RingIteration.PreviousN` admit and model that case, and `RingIteration.PreviousNFromSizeId` shows that the undo fails from there.
- Ids that are not positions are excluded by `TokenRing.WellIndexed`, which assumes the zero-based numbering that `score.models.Players` gives (TokenRing.js:49). Without that numbering the source's behaviour is still defined but is no rotation. For example, with `[P(id 1), P(id 0)]` and the token on the first player, `next()` reads holder 1, wraps to index 0 and reassigns the same player.
- The token's change notification (`score.models.Token` events, TokenRing.js:61) and its accessor style, where one function is a getter with no arguments and a setter with one. The token is a plain `Option<Player>` field here.
- `score.models.Players`, which builds the player list and assigns ids, is not part of this model. `TokenRing.Player` keeps only the `id` the rotation reads and a `name`.
- `TokenRing.Player.id` is a `nat`, because `Players` numbers players from zero (TokenRing.js:49). Negative ids are therefore excluded, even though `next()` handles a holder id of -1: it differs from N-1, so line 85 gives index 0 and line 86 assigns the first player.
- The model reads `players` as an array, through `players.length` and `players[i]` (TokenRing.js:84-86, 98-100), as the `@param` at line 66 describes it. The class comment writes `players(1)` (line 51), as if `Players` returned an accessor function. `RingProperties.DealerExample` takes `players(1)` to mean `players[1]`.
- JavaScript truthiness of `token()`: a player object is always truthy, so "assigned" is `token.Some?`.
- Re-entrant calls from a token observer are not modelled, because the model has no observers.
- test/score/tts/gameWinner-test.js exercises the game, feature, rule and announcer modules, whose source is not part of this model.
