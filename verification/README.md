# Badminton/tennis tournament engine — a Dafny model

This project models the tournament engine of `app.py`, a single-file Flask
application, without Flask or pandas. The engine keeps three pieces of state:

- a registry of players (`pemain_df`), with these columns:
  - id and name;
  - the raw point total `Total_Poin`;
  - `Total_Bye`;
  - `Games_Played`, `W`, `L`, `T` and `Ranking_W_L = W - L`;
- a schedule of matches (`jadwal_df`), with these columns:
  - match id, round, court and mode;
  - four player cells (team 1: A, B; team 2: A, B);
  - two team scores and a status;
- two counters: the current round (`putaran_saat_ini`) and the next match
  id. The next player id is a third counter.

It offers five operations on that state:

- **Statistics engine** (`hitung_games_played`, `hitung_wlt`): derives the
  per-player statistics from scratch over the completed matches. Each match
  gives one game to every distinct resolved participant. It also gives one
  win, loss or tie per cell a player occupies, by comparing the two scores.
- **Registration**: appends a player under a trimmed, non-empty name while
  fewer than 32 are registered.
- **Removal** (`hapus_pemain`): drops a registry row and recomputes the
  statistics.
- **Score recording** (`input_skor`): rejects negative scores and unknown
  match ids. Otherwise it completes the match with the new scores. It moves
  `Total_Poin` by the new result, minus the earlier result when the match
  was already completed. Then it recomputes the statistics.
- **Round generation** (`generasi_jadwal`):
  - Orders the players. The first round uses a random shuffle. Later rounds
    use the Swiss ladder: `Ranking_W_L` descending, then `Total_Poin`
    descending, then `Games_Played` ascending; the sort is stable.
  - With an odd count, one player sits out. That player is the first with
    the fewest `Total_Bye` and then the lowest `Ranking_W_L`. It is recorded
    in a completed court-0 placeholder row. The placeholder is scored 0-0,
    so at the next recomputation it counts as a tied game for that player:
    one Games_Played and one T.
  - Refuses to continue while some match is still to be played.
  - Otherwise pairs the rest greedily. Each player at the head of the list
    meets the first remaining player they never shared a match with, or the
    next one if they shared one with everybody.
  - Appends one singles match per pair and advances the round.

Modules, following the structure of the source:

| module | file | contents |
|---|---|---|
| `Types` | types.dfy | players, slots (`Empty`, `Bye`, `Ref(id)`), matches, the state, its invariant `Valid`, and slot resolution (`get_player_id`) |
| `Stats` | stats.dfy | the statistics engine and its algebra |
| `Registry` | registry.dfy | `str.strip`, registration, removal |
| `Scores` | scores.dfy | the score recorder |
| `Priority` | priority.dfy | the ladder order, the first-round shuffle, the choice of who sits out |
| `Pairing` | pairing.dfy | the rematch test, greedy pairing, building the singles rows |
| `Rounds` | rounds.dfy | the round generator as a whole, and the generator as written (see Findings) |

The random choices of the source are inputs of the model:

- The first-round `sample(frac=1)` is a permutation `perm` of row positions.
- Each `random.choice([True, False])` is an entry of a sequence `flips` of
  side choices.

Every property below holds for every permutation and every choice sequence.

The source documents `Total_Poin` as the cumulative score (app.py:13).
`Stats.PointsFresh` states this. Each player's `Total_Poin` equals a sum
over the completed schedule rows: for every cell the player fills, the
score of that cell's team. The empty tournament satisfies it, and
registration, removal, score recording and round generation all keep it.

## Model

| member | source | states |
|---|---|---|
| Types.Resolve | app.py:32-48 | a cell resolves to a participant only when it refers to a registered player, and then to that player; empty cells, the bye sentinel and removed players resolve to none (partner: Types.ResolveAll, Types.ParticipantsBySlot) |
| Types.ResolveAll | app.py:50-52 | the resolved participants of some cells are only registered ids, and each registered id occurs exactly as often as cells refer to it (repetitions kept, bye/empty cells and unknown players dropped) |
| Types.ParticipantsBySlot | app.py:69-73 | a player is one of the distinct resolved participants of a match exactly when registered and named in one of its four cells |
| Types.InitialValid | app.py:11-28 | the empty tournament (no players, no matches, round 0, both counters at 1) satisfies the state invariant |
| Stats.Contribution | app.py:97-131 | one schedule row adds nothing unless completed and the player registered; otherwise at most one game, and exactly one of W, L or T per cell the player fills (partners: Stats.ContributionOfResolvedTeams, Stats.GamesOncePerMatch, Stats.WinLossTieOfMatch) |
| Stats.ContributionOfResolvedTeams | app.py:66-131 | per completed match, a player gets one game iff a distinct resolved participant, and wins/losses/ties counted by their occurrences in the resolved team lists according to the score comparison; a match not completed adds nothing |
| Stats.GamesOncePerMatch | app.py:66-75 | a completed match adds exactly one game to each registered player named in any of its cells, however many cells, and nothing otherwise |
| Stats.WinLossTieOfMatch | app.py:114-131 | team-1 win: each team-1 cell a win and each team-2 cell a loss; team-2 win symmetric; equal scores: each cell a tie; a scheduled match nothing |
| Stats.RepeatedSlotCountsTwiceForWins | app.py:68-117 | a player written into both team-1 cells of a won match gets one game but two wins: games are per distinct participant, wins per cell |
| Stats.Recompute | app.py:133-137 | recomputation keeps every row's id, name, Total_Poin and Total_Bye and the set of ids, and afterwards Ranking_W_L = W - L on every row |
| Stats.RecomputeByScan | app.py:86-131 | the loop that resets every derived column and then adds each schedule row's credits to the columns accumulated so far computes exactly the recomputed registry |
| Stats.TallyAppend | app.py:97-131 | scanning two stretches of the schedule one after the other adds their tallies |
| Stats.TallyPermutation | app.py:97-131 | any rearrangement of the schedule gives every player the same statistics |
| Stats.TallyDependsOnMembership | app.py:110-112 | a player's statistics depend on the registry only through whether they are in it |
| Stats.RecomputeReadsRecordedColumns | app.py:61-64 | two registries agreeing on id, name, Total_Poin and Total_Bye row by row recompute to the same registry: the old derived columns are discarded |
| Stats.RecomputeIdempotent | app.py:89-93 | recomputing an already recomputed registry over the same schedule changes nothing |
| Stats.BalancedTally | app.py:97-131 | when no match names a player twice, W + L + T = Games_Played for every registered player |
| Stats.InitialPointsFresh | app.py:11-14 | in the empty tournament every Total_Poin is the cumulative score, as the column's definition says |
| Stats.EarnedUpdate | app.py:281-300 | replacing one schedule row moves an id's cumulative score by the replacing row's points minus the replaced row's points |
| Stats.EarnedAppend | app.py:472-482 | the cumulative score over two schedules placed end to end is the sum of the two |
| Registry.Trim | app.py:150 | the stripped name is a contiguous stretch of the raw name with only whitespace before and after it; it is empty iff the raw name is all whitespace, and otherwise starts and ends with a non-whitespace character (partners: Registry.TrimUnique, Registry.TrimIdempotent) |
| Registry.TrimUnique | app.py:150 | any stretch of the raw name with only whitespace around it that is empty, or starts and ends with a non-whitespace character, is the stripped name: the contract determines `str.strip()` |
| Registry.TrimIdempotent | app.py:150 | stripping an already stripped name changes nothing |
| Registry.AddPlayer | app.py:148-156 | an admissible name (some non-whitespace, fewer than 32 players) appends a row with the trimmed name, id nextPlayerId and all-zero statistics, keeps the other rows and the schedule, and advances the id counter; any other request changes nothing |
| Registry.AddPlayerValid | app.py:150-156 | registration keeps the state invariant; the stored name is non-empty and trimmed, and the new id exceeds every registered id, so ids are never reused |
| Registry.AddPlayerKeepsStatsFresh | app.py:153 | a new player's all-zero statistics agree with the schedule, and nobody else's change; this holds because no issued cell refers to a fresh id, whereas in the source a new player whose name equals a removed player's, ignoring case, inherits that player's cells (see Left out) |
| Registry.AddPlayerKeepsPointsFresh | app.py:150-156 | in a consistent state a new player's Total_Poin of 0 is their cumulative score, because no issued cell refers to a fresh id, and nobody else's changes; the same caveat about reused names applies (see Left out) |
| Registry.DeletePlayer | app.py:214-249 | removing a registered id removes exactly that id, keeps schedule and counters, and leaves the statistics agreeing with the schedule; an unknown id changes nothing |
| Registry.DeletePlayerValid | app.py:218-220 | removal keeps the state invariant and shrinks the registry by exactly one row |
| Registry.DeletePlayerEffect | app.py:235-247 | survivors keep id, name, Total_Poin and Total_Bye in the old order, and no schedule row resolves to the removed player any more |
| Registry.DeletePlayerKeepsPointsFresh | app.py:214-249 | after a removal every remaining Total_Poin still equals that player's cumulative score over the schedule |
| Scores.RecordScore | app.py:265-312 | recording never changes the counters, the round, the number of rows, or any row's match id or cells, and a negative score changes nothing at all (full effect: Scores.RecordScoreRejects, Scores.RecordScoreEffect, Scores.RecordScoreCorrection, Scores.RecordScoreValid) |
| Scores.FindMatch | app.py:267-269 | the search returns the first row holding the match id, or reports that no row holds it |
| Scores.RecordScoreRejects | app.py:259-267 | a negative score or an unknown match id leaves the state unchanged |
| Scores.RecordScoreEffect | app.py:265-312 | an accepted submission completes the found row with the new scores and touches no other row; each player's Total_Poin moves by the new scores minus the previously recorded ones (if any), once per cell they fill; the statistics agree with the new schedule; counters and round are kept |
| Scores.DepositWithdrawDeposit | app.py:281-300 | depositing result A, withdrawing it and depositing B moves every Total_Poin exactly as depositing only B |
| Scores.RecordScoreCorrection | app.py:278-300 | recording A and then B for a match leaves exactly the state that recording B alone leaves |
| Scores.RecordScoreValid | app.py:265-312 | recording a result keeps the state invariant |
| Scores.RecordScoreKeepsPointsFresh | app.py:265-312 | if every Total_Poin equalled the player's cumulative score over the schedule, it still does after any submission, accepted or rejected, including a correction of an already completed match |
| Priority.Sort | app.py:340-347 | the ladder sort returns the same rows, in ladder order, without repeated ids |
| Priority.OrderedUnique | app.py:344-347 | two arrangements of the same rows in ladder order are equal, so the stable three-key sort is determined by the rows alone |
| Priority.ArrangeKeepsRows | app.py:349-351 | a shuffle keeps exactly the rows it was given, without repeated ids |
| Priority.Order | app.py:338-351 | the walking order has the same rows, without repeated ids, and is in ladder order from the second round on |
| Priority.ByeIndex | app.py:362-376 | the player who sits out has bye keys (Total_Bye, then Ranking_W_L) no one undercuts, and strictly better keys than every player before them in the walking order |
| Priority.ByeIndexUnique | app.py:365-376 | exactly one position has those two properties, so the stable sort plus first-candidate loop is determined |
| Pairing.Met | app.py:415-427 | the rematch test (is_pair_found over every row, then `any`) only holds between registered players (partners: Pairing.MetSomewhere, Pairing.MetSymmetric) |
| Pairing.MetSymmetric | app.py:419-427 | the rematch test gives the same answer whichever of the two players is asked about first |
| Pairing.MetSomewhere | app.py:415-427 | the rematch test holds exactly when some schedule row seats both players |
| Pairing.TogetherByParticipants | app.py:419-424 | within one row, being seated together is being among the row's resolved participants together |
| Pairing.FirstFresh | app.py:415-433 | the opponent search finds the first remaining player the head has not met, or reports that the head met all of them |
| Pairing.Pairs | app.py:408-437 | the greedy loop produces half as many pairs as listed players, rounded down (partners: Pairing.PairsCover, Pairing.PairsHead, Pairing.PairsAvoidRematches) |
| Pairing.PairsCover | app.py:408-437 | nobody is paired who was not listed, and an even list is used up: every listed player is paired exactly as often as listed |
| Pairing.PairsApart | app.py:408-437 | when no id is listed twice, every greedy pair joins two different players |
| Pairing.PairsHead | app.py:409-437 | the first pair is the head of the list with the first player they have never met, or with the next player when they have met everybody |
| Pairing.PairsAvoidRematches | app.py:408-437 | when a pair has met before, its first player had met every player paired after it |
| Pairing.BuildMatches | app.py:439-470 | one row per pair, with consecutive match ids and courts 1, 2, ... |
| Pairing.SinglesMatchSeats | app.py:445-467 | a singles row seats exactly the two players of its pair, one per team, the partner cells empty, the side fixed by the choice |
| Rounds.GenerateRound | app.py:317-484 | a request is accepted exactly when every match is completed; the player id counter and the number of registry rows never change, and an accepted request keeps the old rows as a prefix (partners: the Rounds lemmas below) |
| Rounds.Advance | app.py:358-482 | generation from any walking order: the same guarantees, and a refused request keeps the schedule and the round (partners: Rounds.AdvanceSinglesRows, Rounds.AdvanceValid, Rounds.GenerateRefusesIncompleteRound) |
| Rounds.View | app.py:324-336 | the registry as the generator reads it keeps row order, ids and Total_Bye |
| Rounds.WalkFollowsLadder | app.py:340-347 | from the second round on the walk is the ladder order of the players, and the only arrangement of them in ladder order |
| Rounds.WalkShuffles | app.py:349-351 | in the first round the walk is the given shuffle applied to the registry |
| Rounds.WalkListsRegistry | app.py:354 | the walk lists every registered player exactly once |
| Rounds.PlayingCount | app.py:372-376 | after the bye is removed, every walked player except the one sitting out remains exactly once |
| Rounds.GrantBye | app.py:379-382 | Total_Bye of the player sitting out rises by one and every other row stays as it was |
| Rounds.ByeMatch | app.py:384-396 | the placeholder is a completed court-0 row with equal scores that refers to the player sitting out and nobody else |
| Rounds.ByeCountsAsTie | app.py:385-396 | at the next recomputation the placeholder gives the player sitting out one Games_Played and one T, and gives every other player nothing |
| Rounds.GenerateRefusesIncompleteRound | app.py:379-405 | the generator refuses exactly when some schedule row is not completed; a refusal keeps the schedule and round, but still consumes the bye's match id |
| Rounds.ByeGoesToOnePlayer | app.py:358-382 | an even count changes no Total_Bye; an odd count raises by one the Total_Bye of exactly one registered player (the first in walking order with unbeaten bye keys), refusal or not |
| Rounds.GeneratedCounters | app.py:472-482 | an accepted request keeps the old rows, appends n mod 2 + n/2 rows for n players, moves the match counter past them, and advances the round exactly when n > 0 |
| Rounds.GeneratedByeRow | app.py:384-397 | with an odd count, the first appended row is the bye placeholder: the match counter's id, the next round, court 0, the bye player then three bye cells, 0-0, completed |
| Rounds.AdvanceSinglesRows | app.py:439-470 | the singles rows follow the placeholder with consecutive match ids, the next round, courts 1, 2, ..., the k-th greedy pair and the k-th side choice |
| Rounds.EveryPlayerSeatedOnce | app.py:358-470 | an accepted request seats every registered player except the one sitting out in exactly one new singles match, nobody else, with n/2 matches |
| Rounds.PairedRowsNoRepeat | app.py:439-466 | every singles row of a round names two different players, once each: the walk repeats no id, so nobody is paired with themselves |
| Rounds.GeneratedRowsNoRepeat | app.py:384-470 | every row a request appends, the bye placeholder included, names each player at most once, which is the hypothesis of Stats.BalancedTally |
| Rounds.AdvanceEarnsNothing | app.py:384-470 | a round, accepted or refused, leaves every id's cumulative score over the schedule unchanged: the placeholder is completed at 0-0 and the singles rows are still to be played |
| Rounds.AdvanceKeepsPointsFresh | app.py:358-482 | from any walking order, if every Total_Poin equalled the player's cumulative score over the schedule before the round, it still does after it |
| Rounds.GenerateRoundKeepsPointsFresh | app.py:317-484 | the generator as called keeps every Total_Poin equal to the player's cumulative score over the schedule |
| Rounds.SinglesRows | app.py:447-469 | the singles rows have consecutive ids after the placeholder, the next round, and refer only to registered players |
| Rounds.GenerateRoundValid | app.py:317-484 | generation keeps the state invariant, whether accepted or refused |
| Rounds.GenerateRoundAsWritten | app.py:325-347 | the generator as written agrees with the intended one in the first round and on an empty registry |
| Rounds.SecondRoundNeverGenerated | app.py:330-347 | once a round exists and a player is registered, with every match completed, the intended generator starts the next round but the written one fails |

## Left out

- Flask routes, form parsing, redirects and templates. The operations take
  typed arguments; a score that fails `int()` is a rejected request, and
  that request is not modelled.
- pandas mechanics (`concat`, `merge`, `astype`, `loc`). The registry and
  the schedule are sequences of records in row order. The model writes out
  the pandas behaviour the engine relies on:
  - the three-key and two-key `sort_values` calls are stable;
  - `merge(how='left')` on the index keeps the registry's row order, which
    the ladder's final tie-break (row order, that is id order) depends on;
  - `sample(frac=1)` returns a permutation of the rows, taken as the
    parameter `perm`;
  - `apply(...).any()` over an empty schedule is False, so in the first
    round nobody has met anyone.

  The clashing-column `merge` is modelled separately; see Findings.
- Name lookup in `get_player_id` (app.py:35-48). Cells store player names
  (app.py:390, 442-443), while the model's cells hold `Ref(id)`.
  Registration never checks that a name is unique (app.py:150-156). So the
  model does not capture these cases:
  - a cell whose text parses as an integer. It resolves to the registered
    player with that id, whatever that player's name. When no player has
    that id, it resolves to nobody: the failed id test at app.py:39-41
    falls through to `return None` at app.py:48 without trying the name
    lookup. So a player named `7` is credited as player 7, or as nobody;
  - several registered players whose names are equal ignoring case. Every
    cell with that name resolves to the first of them;
  - a name reused after a removal. Remove `Ana` (id 1); her rows stay in
    the schedule (app.py:223-233). Then register `ana` (id 3). At the next
    recomputation the old cells resolve to id 3, who inherits Ana's
    Games_Played and W/L/T, and the rematch test treats id 3 as having met
    Ana's opponents. Re-recording one of Ana's old matches withdraws her
    old points from id 3's Total_Poin (app.py:285-291), which can then go
    negative. The model's fresh ids never collide this way;
  - a player registered under the name `Bye`, who never resolves, because
    the sentinel test at app.py:35 runs before the name lookup; such a
    player never gets Games_Played, W/L/T or Total_Poin credit and is
    invisible to the rematch test, while the model credits them;
  - renaming.
- The removal cascade at app.py:222-233. It compares cell text with
  `str(player_id)` while cells hold names. So it drops no match unless some
  player's name is the decimal text of the removed id: removing player 7
  drops every match of a player named `7`. Removal is modelled as registry
  removal plus recomputation. The model never drops a match, and the
  removed player's matches stop counting because their cells no longer
  resolve. In the source this holds only until someone registers a name
  equal to the removed player's, ignoring case (see name reuse above).
- Concurrency. Every operation is modelled as one atomic step. The
  development server (`app.run(debug=True)`) serves requests on threads
  that change the module-level frames and counters without a lock;
  interleaved requests are not modelled.
- The display ranking in `index` (app.py:160-212): the sort into
  `Peringkat`, the active-round list and the bye list. They are display
  only. The same clashing-column merge (app.py:170-173) also breaks that
  ranking sort; since it is display only, it is not modelled.
- CSV export, the visual recap and the main runner (app.py:486-569). They
  are output only.
- The random number generator itself. Shuffles and side choices are inputs.
- Duplicate match ids in the schedule. The invariant `Valid` keeps ids
  strictly increasing, so `FindMatch` takes the first row, which is then the
  only one.
- Integer widths. Scores, points and counters are unbounded integers. The
  source's values are Python integers or int64 columns that stay small.
- Rounds.AdvanceSinglesRows: states the singles rows for the generator's
  inner step over any walk. It is not restated with `Walk(s, perm)`
  substituted. It holds for that walk too, since it is stated for all walks.
- Rounds.GenerateRoundAsWritten: models the written generator's `KeyError`
  as `None`. It does not model the error response Flask then returns.

## Findings

| source | as written | input that shows it | evidently intended | confidence | as-written member | corrected member |
|---|---|---|---|---|---|---|
| app.py:330-347 | the recomputed registry already has a `Games_Played` column, and `merge` joins it with the freshly counted `Games_Played` frame, so both come out renamed (`Games_Played_x`, `Games_Played_y`); the ladder sort then names `Games_Played` and raises `KeyError` | any state whose round counter is at least 1 with at least one registered player and every match completed, such as after one player registers and the first round is generated | sort on the freshly counted Games_Played, so the second and later rounds are generated | high; not executed | Rounds.SecondRoundNeverGenerated | Rounds.GeneratedCounters |
