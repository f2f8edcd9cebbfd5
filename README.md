# Secret Santa assignment core, modelled in Dafny

This project models the core of a small Secret Santa backend (`server.js`). The backend keeps
a fixed roster of eight participants. An administrator draws a pairing in which nobody gives
to themselves. Each participant may then ask once for the name they drew. Anyone may ask how
many participants have already looked.

The model has four modules:

- `Sequences` (`sequences.dfy`) holds facts about sequences without repeated values. The roster
  is one, and any reordering of it is one too.
- `Shuffling` (`shuffle.dfy`) models `shuffle`. It is a Fisher–Yates shuffle on a copy of its
  input, swapping in place on an array while `i` walks down from the last index to 1.
  `Math.random()` is a parameter: a sequence `draws` of reals in [0, 1). The index swapped with
  `i` is `floor(draw * (i + 1))`. The method `Shuffle` is proved equal to the function
  `Shuffled`, and `Shuffled` is proved to be a permutation of its input.
- `Derangement` (`derangement.dfy`) models the retry loop of the `/api/assign` handler. It pairs
  `santas[i]` with `recipients[i]`, and on any fixed point it reshuffles and restarts the scan.
  Each call of `shuffle` takes its draws from `attempts[k]`. The loop is proved to compute
  `FirstDerangement`: the first attempt whose shuffle has no fixed point. That function is
  proved sound (no fixed point, a permutation of the roster) and complete (it finds a
  derangement exactly when one of the attempts gives one). It is also proved that a
  one-participant roster can never get one, and that two or more distinct names always can.
- `AssignmentStore` (`store.dfy`) models the `assignments` table. The class `Store` keeps the
  roster and a map from `santa` to `Row(recipient, picked)`. Its object invariant says the table
  is either empty or a complete assignment. A complete assignment has one row per participant,
  nobody drawing themselves, recipients drawn from the roster, and no recipient drawn twice.
  `Assign` wipes the table and inserts the derangement. `Reveal` follows the function
  `RevealStep`, and lemmas about that function state the single-use guarantee. `Progress` counts
  the picked rows. Three client methods, `AssignRotated`, `RevealScenario` and
  `RevealAgainAndProgress`, step through the assign / reveal / reveal-again / progress /
  unknown-name sequence on the real roster.

Facts about `server.js` that the model keeps:

- Reveal is not atomic. It does a `SELECT`, then an `UPDATE` in a later callback. The model
  is sequential (see Left out).
- No check rejects a roster of fewer than two names. With one participant the handler
  reshuffles forever (`SingleParticipantNeverAssigned`). With none it inserts nothing and
  reports success.
- The `picked` column is an integer that only ever holds 0 or 1. The model uses `bool`.

## Model

| member | source | states |
|---|---|---|
| `Shuffling.Pick` | server.js:33 | the index `floor(draw * (i + 1))` drawn for step `i` is at most `i`, so the swap stays in bounds |
| `Shuffling.SwapInPlace` | server.js:34 | the destructuring swap exchanges `arr[i]` and `arr[j]` and touches nothing else |
| `Shuffling.Shuffle` | server.js:30-37 | the shuffled copy equals `Shuffled(input, draws)` and has the input's length and multiset; the input cannot change because it is a value |
| `Shuffling.ShuffleFrom` | server.js:32-35 | the descending swap loop from step `i` down to 1 keeps the array's length; it is the reference the method `Shuffle` is proved against |
| `Shuffling.ShuffleFromKeepsAbove` | server.js:32-35 | the loop from step `i` downward never touches a position above `i`, since each step swaps `arr[i]` with an index at or below it |
| `Shuffling.Shuffled` | server.js:30-37 | what `shuffle` returns for given draws has the input's length; `ShuffledIsPermutation` proves it a permutation |
| `Shuffling.ShuffleFromPermutes` | server.js:32-35 | each run of the descending swap loop keeps the length and the multiset of elements |
| `Shuffling.ShuffledIsPermutation` | server.js:30-37 | whatever `Math.random()` returns, `shuffle` returns a permutation of its input |
| `Shuffling.ShuffleFromZeroDraws` | server.js:32-35 | when every draw is 0, steps `i` down to 1 shift `s[1..i+1]` left by one place and put `s[0]` at `i` |
| `Shuffling.ShuffledZeroDrawsRotates` | server.js:30-37 | with all draws 0, `shuffle` rotates its input one place to the left |
| `Derangement.FirstDerangement` | server.js:44-51 | the result of rejection sampling: the first attempted shuffle with no fixed point; what it returns pairs nobody with themselves |
| `Derangement.AssignRecipients` | server.js:43-51 | the reshuffle-and-restart loop returns exactly `FirstDerangement(participants, attempts)`, so on exit `santas[k] != recipients[k]` for every `k` |
| `Derangement.FirstDerangementSound` | server.js:46-51 | the recipients the loop settles on have no fixed point and are a permutation of the roster |
| `Derangement.FirstDerangementComplete` | server.js:46-51 | the loop finds an assignment if and only if one of the attempted shuffles has no fixed point |
| `Derangement.SingleParticipantNeverAssigned` | server.js:46-51 | with a one-name roster every shuffle is a fixed point, so no number of retries ends the loop |
| `Derangement.DerangementReachable` | server.js:44-51 | for two or more distinct names some draws make the loop exit (all-zero draws rotate the roster) |
| `AssignmentStore.ParticipantsAreDistinct` | server.js:25-27 | the roster has 8 names and none repeats, as the store requires |
| `AssignmentStore.Pairing` | server.js:52-55 | the inserts, in order, of `(santas[i], recipients[i], 0)` leave exactly one row per listed santa; `PairingRows` gives each row's contents |
| `AssignmentStore.PickedCount` | server.js:80 | the number of rows whose `picked` is set is at most the number of rows |
| `AssignmentStore.PairingRows` | server.js:52-55 | inserting `(santas[i], recipients[i], 0)` for all `i` gives exactly one row per santa, holding that santa's recipient with `picked = 0` |
| `AssignmentStore.PairingIsAssignmentSet` | server.js:41-55 | the rows assign inserts form a complete assignment (keys = roster, no self-pairing, recipients in the roster, no shared recipient) and none is picked |
| `AssignmentStore.EveryParticipantDrawn` | server.js:43-55 | in a complete assignment every participant is someone's recipient, so santa to recipient is a bijection of the roster |
| `AssignmentStore.RevealStep` | server.js:62-76 | reveal answers with a recipient if and only if the name is listed, has a row and is unpicked; that answer is the stored recipient and the row is then picked; no row is added or removed; a refusal leaves the table as it was |
| `AssignmentStore.RevealRefusals` | server.js:64-70 | an unknown name gets `InvalidName`, a missing row `NotFound`, a picked row `AlreadyPicked`, and each refusal leaves the table unchanged |
| `AssignmentStore.RevealMarksOnce` | server.js:67-73 | a successful reveal returns the stored recipient, sets `picked` on that row only, raises the picked count by one, and a second reveal of the name is refused with `AlreadyPicked` |
| `AssignmentStore.RevealPreservesAssignmentSet` | server.js:71 | the `UPDATE` of `picked` keeps a complete assignment complete |
| `AssignmentStore.PickedCountBounded` | server.js:79-83 | the number of picked rows never exceeds the roster size |
| `AssignmentStore.Store.constructor` | server.js:16-22 | a newly created table is empty and the store invariant holds |
| `AssignmentStore.Store.Assign` | server.js:40-58 | assign empties the table first; on success the table is `Pairing(roster, FirstDerangement(...))`, a complete assignment with no picked row, so no earlier row or flag survives; if the draws run out the table stays empty |
| `AssignmentStore.Store.InsertRows` | server.js:52-55 | for a roster without repeated names, the insert loop turns the emptied table into `Pairing(santas, recipients)` |
| `AssignmentStore.Store.Reveal` | server.js:62-76 | reveal behaves as `RevealStep`; it succeeds if and only if the name is listed, has a row and is unpicked; success adds one to the picked count; a refusal changes nothing |
| `AssignmentStore.Store.Progress` | server.js:79-83 | progress reports the picked count and `PARTICIPANTS.length`; the count is at most the total, and once assigned the total is the number of rows |

## Left out

- Express routing, CORS, JSON body parsing and `app.listen` (server.js:2-11, 86-88) are transport. HTTP 400/404/403 are the `RevealError` values. The `{ success: true }` reply of assign is the `bool` result.
- SQLite is an in-memory map. Left out are opening the file and the throw on failure (server.js:14-15), the `id` column, and every storage-error branch answering HTTP 500 (server.js:42, 68, 72, 81). A table that persists from an earlier run is also left out: the constructor starts empty.
- A roster with a repeated name is not modelled. The constructor requires distinct names, so the `UNIQUE(santa)` constraint never rejects an insert.
- A request whose `name` is missing or not a string is not modelled. `Reveal` takes a string; the source answers such a request with 400 because `includes` fails.
- Concurrency is left out. Two reveals of the same name can both pass the `SELECT` before either `UPDATE` (server.js:67-71). Assign answers before `stmt.finalize` completes (server.js:56-57). The model runs one operation at a time.
- `Math.random()` is a parameter, and uniformity of the shuffle or of the derangement is not stated. `draw * (i + 1)` is computed on exact reals, so floating-point rounding is not modelled.
- Derangement.AssignRecipients: the source reshuffles without bound. The model stops when the supplied attempts run out and returns `None`. It also returns `None` when no attempt is supplied at all.
- AssignmentStore.Store.Assign: when the supplied attempts run out, the model returns `false` with the table already emptied. In the source the handler would still be looping and would send no response.
