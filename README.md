# optimal-congress, modelled in Dafny

optimal-congress builds a personal schedule for the Chaos Communication
Congress. The user rates talks and workshops, and the program picks the set of
mutually non-overlapping events whose ratings add up to the most. It writes
this choice as a 0/1 integer linear program and hands it to the PuLP library,
which calls the CBC solver.

This project models the core of that program:

- **models** (`models.dfy`, module `Models`): the records `Event`, `Rating`
  and `EventRating`, the page address of an event, the half-open
  overlap test `EventsOverlap`, and `VarName`, the name PuLP gives to the
  variable of an event (every `-` in its slug becomes `_`).
- **ratings** (`ratings.dfy`, module `Ratings`): `FilterLatestRatings` keeps
  the most recent rating of every event. It is an imperative loop over the
  ratings after a stable sort by timestamp, latest first. `UnratedEvents`
  keeps the events that carry no rating. `JoinRatings` is the join from
  `optimal_congress/cli.py` that pairs each rating with its event before the
  optimizer runs.
- **formulation** (`formulation.dfy`, module `Formulation`): the integer
  program that both optimizer versions build. It has one binary variable per
  event. Its objective is the sum of score × variable. It has one constraint
  `x_i + x_j <= 1` for every overlapping pair `i < j`, generated by the
  nested loop `OverlapConstraints`. The solver is not code of this
  repository, so it is a parameter: an `Answer` holding a status and one
  value per variable. `SolverContract` states what an optimal answer
  promises: the values are binary, feasible and maximal. The exhaustive
  include/exclude search `Search` is a reference solver that is proved to
  keep that promise, so the contract can be met.
- **optimize** (`optimize.dfy`, module `Optimize`): `OptimizeSchedule`, the
  current optimizer. It takes (event, rating) pairs and returns the set of
  scheduled events, or the `ValueError` of a non-optimal solve. The central
  theorem is `Formulation.ChosenIsOptimalSchedule`: the returned set never
  holds two overlapping events, and no other such set scores more.
- **legacy optimize** (`legacy_optimize.dfy`, module `LegacyOptimize`):
  `OptimizeScheduleLegacy`, the earlier optimizer. It takes parallel lists
  of events and ratings and returns a list in input order. It also holds the
  one defect described under "## Findings".
- `sequences.dfy` (module `Sequences`) defines the "subsequence of"
  relation that the order-preserving filters are stated with.

Instants (`datetime`) are modelled as integers, because only their order is
used. Scores are integers, and UUIDs are integers.

## Model

| member | source | states |
|---|---|---|
| Models.Url | optimal_congress/models.py:39-42 | the page address is the hub route of optimal_congress/config.py:8, then a slash, then the slug; its length is the sum of theirs |
| Models.UrlInjective | optimal_congress/models.py:39-42 | the page of an event is the hub route, a slash and the slug, so two events share a page exactly when they share a slug |
| Models.EventsOverlap | optimal_congress/models.py:45-50 | defines the overlap test: each event starts before the other ends; its properties are the lemmas in the rows below |
| Models.OverlapSymmetric | optimal_congress/models.py:45-50 | whether two events overlap does not depend on the order of the arguments |
| Models.OverlapDependsOnlyOnSchedule | optimal_congress/models.py:45-50 | only the start and end of the two events decide the overlap; id, slug, name and room do not |
| Models.OverlapIffCommonInstant | optimal_congress/models.py:45-50 | for events of positive length, overlap holds exactly when some instant lies in both half-open intervals |
| Models.OverlapReflexive | optimal_congress/models.py:45-50 | an event of positive length overlaps itself, which is why the optimizer skips i == j |
| Models.OverlapExamples | tests/optimal_congress/test_schema.py:94-101 | 12-14 overlaps 13-15; 12-14 does not overlap 15-17; 12-13 and 13-14 only touch, so they do not overlap, in either order |
| Models.TouchingDoNotOverlap | optimal_congress/models.py:45-50 | an event that ends when another starts overlaps it in neither order |
| Models.VarName | optimal_congress/optimize.py:80 | the variable name has the slug's length, has `_` wherever the slug has `-`, agrees with the slug elsewhere, and contains no `-` |
| Models.VarNameWithoutDash | optimal_congress/optimize.py:80 | a slug without `-` is its own variable name |
| Models.VarNameCollision | optimal_congress/optimize.py:34-40 | the distinct slugs `a-b` and `a_b` get the same variable name |
| Ratings.SortDesc | optimal_congress/ratings.py:17 | defines the library sort by timestamp, latest first, as an insertion sort that puts each rating before the first one that is not later; its properties are stated by SortDescSpec and SortDescStable |
| Ratings.SortDescSpec | optimal_congress/ratings.py:17 | sorting by timestamp, latest first, permutes the ratings (same multiset and length) and leaves them in non-increasing timestamp order |
| Ratings.SortDescStable | optimal_congress/ratings.py:17 | the sort is stable: for every timestamp, the ratings that carry it come out in the order they went in |
| Ratings.SortDescOfSorted | optimal_congress/ratings.py:17 | a list already in latest-first order is returned unchanged |
| Ratings.LatestOfSpec | optimal_congress/ratings.py:8-24 | the reference choice for an event exists exactly when the event is rated; it is a rating of that event with the latest timestamp, and it is the first such rating in the input |
| Ratings.FirstForSortDesc | optimal_congress/ratings.py:17-23 | after the stable sort, the first rating of an event is the reference choice for that event (ties go to the earliest in the input) |
| Ratings.KeepFirst | optimal_congress/ratings.py:20-23 | defines the loop's result on a list: each rating is kept when no earlier rating of the list has its event; its properties are stated by the KeepFirst lemmas below |
| Ratings.KeepFirstIds | optimal_congress/ratings.py:20-23 | keeping the first rating of each event keeps one rating per event and exactly the events that were rated |
| Ratings.KeepFirstSubMultiset | optimal_congress/ratings.py:20-23 | the kept ratings are drawn from the input, so there are no more of them than there are inputs |
| Ratings.KeepFirstFirst | optimal_congress/ratings.py:20-23 | each kept rating is the first rating of its event in the scanned list |
| Ratings.KeepFirstSorted | optimal_congress/ratings.py:20-23 | the kept ratings keep the latest-first order |
| Ratings.KeepFirstOfDistinct | optimal_congress/ratings.py:20-23 | a list that already has one rating per event is kept whole |
| Ratings.LatestRatings | optimal_congress/ratings.py:8-24 | defines the filter as KeepFirst after SortDesc; its meaning is stated by LatestRatingsSpec |
| Ratings.LatestRatingsSpec | optimal_congress/ratings.py:8-24 | the result has one rating per rated event and covers exactly the rated events; each entry is the latest rating of its event (the first such in the input on ties), is taken from the input, and the result is latest-first |
| Ratings.LatestRatingsIdempotent | optimal_congress/ratings.py:8-24 | filtering the result again changes nothing |
| Ratings.FilterLatestRatings | optimal_congress/ratings.py:8-24 | the loop returns LatestRatings of its input: distinct events, the same rated events, and no kept rating older than any other rating of its event |
| Ratings.LatestRatingsExamples | tests/optimal_congress/test_ratings.py:14-38 | no ratings give none; one rating gives itself; of two ratings of one event, the later one is kept |
| Ratings.UnratedEvents | optimal_congress/ratings.py:27-41 | an event is in the result exactly when it is in the input and no rating names its id; multiplicities are kept |
| Ratings.UnratedEventsInOrder | optimal_congress/ratings.py:39-41 | the unrated events appear in their input order |
| Ratings.UnratedEventsNoRatings | optimal_congress/ratings.py:39-41 | with no ratings, every event is returned unchanged |
| Ratings.JoinRatings | optimal_congress/cli.py:126-129 | the join fails exactly when some rating names an event that is not in the list; otherwise it pairs each rating, in order, with the first event in the list that carries its id |
| Formulation.Objective | optimal_congress/optimize.py:43 | defines the objective: the sum of variable × score over the positions of both lists, truncated to the shorter as `zip` does; its maximality under the solver's promise is stated by ChosenIsOptimalSchedule |
| Formulation.Search | optimal_congress/optimize.py:62 | the reference solver returns one binary value per variable that extends the given prefix and satisfies every constraint |
| Formulation.SearchOptimal | optimal_congress/optimize.py:43 | no feasible binary assignment that extends the same prefix scores more than the search's result |
| Formulation.ExhaustiveSolveMeetsContract | optimal_congress/optimize.py:62-67 | every generated program has an optimal answer that keeps the solver's promise, so the optimizer's precondition can be met |
| Formulation.RowPairsSpec | optimal_congress/optimize.py:47-56 | the inner loop for row i yields exactly the pairs (i, j), i < j, of overlapping events, in increasing j |
| Formulation.PairsBeforeSpec | optimal_congress/optimize.py:46-56 | the first i rows yield exactly the overlapping pairs whose first index is below i, in row-major order |
| Formulation.OverlapPairsSpec | optimal_congress/optimize.py:46-56 | there is a constraint for (i, j) exactly when i < j and events i and j overlap; the constraints come in row-major order, without repeats |
| Formulation.OverlapConstraints | optimal_congress/optimize.py:46-56 | the nested loop with its `continue` emits exactly those constraints: each joins two overlapping events i < j, and every overlapping pair gets one |
| Formulation.ScheduleProblemWellFormed | optimal_congress/optimize.py:34-56 | the program has one name and one objective coefficient per event, and every constraint refers to two of its variables |
| Formulation.FeasibleIffIndependent | optimal_congress/optimize.py:46-56 | a binary assignment satisfies the constraints exactly when it never selects two overlapping events |
| Formulation.DistinctEvents | optimal_congress/optimize.py:34-40 | with distinct variable names, two positions hold the same event only when they are the same position |
| Formulation.ScheduledNames | optimal_congress/optimize.py:74-76 | defines the set of names of the variables whose value is 1; InScheduledNames states what it holds |
| Formulation.InScheduledNames | optimal_congress/optimize.py:74-76 | an event's variable name is among the names with value 1 exactly when that event's value is 1 |
| Formulation.IndicatorOfChosen | optimal_congress/optimize.py:74-81 | decoding the values into a set of events loses nothing: the set's 0/1 indicator is the values again |
| Formulation.ChosenIsOptimalSchedule | optimal_congress/optimize.py:10-82 | for an optimal answer, the decoded events never overlap pairwise, and every non-overlapping set of input events scores at most as much |
| Optimize.ProblemForAligned | optimal_congress/optimize.py:24-43 | there is one variable per pair, named after the pair's event and weighted by the pair's score, and the program is well formed |
| Optimize.ScheduledEvents | optimal_congress/optimize.py:77-81 | defines the extraction: the input events whose renamed slug is a scheduled name; ScheduledEventsAreChosen states what it returns |
| Optimize.ScheduledEventsAreChosen | optimal_congress/optimize.py:74-81 | selecting events by comparing the renamed slug with the names of the variables set to 1 selects exactly the events whose value is 1 |
| Optimize.OptimizeSchedule | optimal_congress/optimize.py:10-82 | the optimizer fails exactly when the solver's status is not Optimal (the source's `ValueError`); otherwise it returns a set of input events that never overlap pairwise and whose total score no other such set exceeds |
| Optimize.ScenarioValues | tests/optimal_congress/test_optimize.py:18-70 | for foo 7-9 (score 8), bar 8-10 (10) and baz 9-12 (5), the only answer the solver may give sets foo and baz |
| Optimize.OptimizeScenario | tests/optimal_congress/test_optimize.py:18-70 | in that case the optimizer schedules exactly foo and baz |
| LegacyOptimize.Selected | congress_optimizer/optimize.py:66-68 | the returned list is a subsequence of the events, and it holds exactly the events whose value is 1 |
| LegacyOptimize.ScheduledEventsAsWritten | congress_optimizer/optimize.py:66-68 | the extraction as written returns a subsequence of the events, holding exactly the input events whose raw slug is a scheduled name |
| LegacyOptimize.ScheduledEventsCorrected | congress_optimizer/optimize.py:66-68 | the corrected extraction returns a subsequence of the events, holding exactly the input events whose renamed slug is a scheduled name |
| LegacyOptimize.CorrectedIsSelected | congress_optimizer/optimize.py:62-68 | extraction by renamed slug returns, in input order, the events whose value is 1 |
| LegacyOptimize.OptimizeScheduleLegacy | congress_optimizer/optimize.py:9-69 | with the corrected extraction (see ## Findings): lists of different lengths fail the sanity check; otherwise it fails exactly when the status is not Optimal (the source's `ValueError`), and on success returns the chosen events in input order, never two that overlap, at the highest total score |
| LegacyOptimize.VersionsAgree | congress_optimizer/optimize.py:24-52 | given the events and ratings of the same pairs, the earlier version builds the same program as the current one, and, with the corrected extraction (see ## Findings), returns the same events for the same answer |
| LegacyOptimize.CompareVersions | congress_optimizer/optimize.py:9-69 | run on the events and ratings of the same pairs with the same solver answer, the two optimizer versions (the earlier one with the corrected extraction, see ## Findings) fail together with the same error, and on success the earlier version's list, a subsequence of the events, holds exactly the current version's set |
| LegacyOptimize.LegacyScenario | tests/congress_optimizer/test_optimize.py:14-63 | on foo, bar and baz the earlier version returns foo then baz |
| LegacyOptimize.AsWrittenAgreesWithoutDash | congress_optimizer/optimize.py:66-68 | when no slug contains `-`, the raw-slug extraction as written equals the corrected one |
| LegacyOptimize.DashedSlugOnlyOptimum | congress_optimizer/optimize.py:39-60 | for the single event `a-b` scored 1, an answer reported Optimal that keeps the solver's promise sets its variable to 1 |
| LegacyOptimize.AsWrittenDropsDashedSlug | congress_optimizer/optimize.py:66-68 | for one event with slug `a-b` and score 1, the answer that sets it keeps the solver's promise and every optimal answer sets it, yet the extraction as written returns nothing; the corrected one returns the event, which scores more |

## Left out

- Network access, the on-disk caches, the interactive rating prompt
  (`enquire_and_save_ratings`), the command-line commands, logging and
  printing are not modelled. The display sort in
  `optimal_congress/cli.py:134-136` is not modelled either.
- The solver (PuLP and CBC) is not modelled as code. It is the parameter
  `answer`, constrained by `SolverContract`. Which of several optimal
  assignments the solver picks is left open, and every property is proved
  for all of them. Solver values are floats in PuLP; here they are integers.
- Of PuLP's renaming of variable names, only `-` → `_` is modelled. Other
  characters PuLP rewrites are not. Constraint names are not modelled. Nor
  is PuLP's error on duplicate constraint names, which the earlier version
  can hit, because it names constraints after event names that need not be
  unique.
- LegacyOptimize.OptimizeScheduleLegacy: extracts the scheduled events with
  the corrected comparison of the renamed slug, not the raw-slug comparison
  at `congress_optimizer/optimize.py:67`; for slugs containing `-` it
  returns events the source drops (see "## Findings"). The code as written
  is ScheduledEventsAsWritten.
- Optimize.OptimizeSchedule and LegacyOptimize.OptimizeScheduleLegacy: the
  source raises `ValueError("No optimal solution found.")`, which carries no
  status; the model's `NoOptimalSolution(status)` records the solver's
  status as well.
- Optimize.OptimizeSchedule and LegacyOptimize.OptimizeScheduleLegacy: both
  require distinct variable names (`DistinctVarNames`; the earlier version
  only when the lengths match, since its length check comes first). The source passes
  duplicates on to PuLP, which rejects a program with repeated variable
  names. That rejection is not modelled.
- Scores are `float` in the source and integers here. Instants are
  timezone-aware `datetime` values in the source and integers here.
- Python sets have no defined iteration order. The current optimizer's input
  set is modelled as a sequence in some order, and every property holds for
  every order.
- Event equality is structural, as for the pydantic records in
  `optimal_congress/models.py`. `optimal_congress/schema.py`, whose events
  compare by id, is not part of this model.
- Ratings.JoinRatings: a rating whose event is not in the list makes
  `[...][0]` at `optimal_congress/cli.py:127` raise `IndexError`. The rating
  is not skipped, and the model returns `None`.
- The `optimize` command in `optimal_congress/cli.py` passes the keyword
  `events_ratings=`, while the function's parameter is `event_ratings`. The
  command layer is not modelled, so this mismatch is not captured.
- The `Room` record (optimal_congress/models.py:11-16) is not modelled: no
  modelled operation uses it.
- The first optimizer version's `congress_optimizer/models.py` has the same
  record fields and URL as the current one. It is not modelled separately.

## Findings

| source | as written | input that shows it | evidently intended | confidence | as-written member | corrected member |
|---|---|---|---|---|---|---|
| congress_optimizer/optimize.py:66-68 | scheduled events are chosen by testing whether the raw `event.slug` is among the solver's variable names, but PuLP names each variable after the slug with `-` replaced by `_` | one event with slug `a-b`, scored 1: the optimal answer sets its variable, named `a_b`, to 1, yet `a-b` is not among the names, so nothing is scheduled | compare the renamed slug, as `optimal_congress/optimize.py:80` does | medium, not executed | LegacyOptimize.AsWrittenDropsDashedSlug | LegacyOptimize.ScheduledEventsCorrected |
