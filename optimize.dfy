/** The schedule optimizer of the current version: it takes (event, rating)
    pairs, builds the 0/1 program, lets the external solver answer, and
    decodes the events whose variable is 1. */
module Optimize {
  import opened Models
  import opened Formulation

  /** The events of the pairs, in iteration order. */
  function EventsOf(pairs: seq<EventRating>): (events: seq<Event>)
    ensures |events| == |pairs|
    ensures forall k :: 0 <= k < |pairs| ==> events[k] == pairs[k].event
  {
    seq(|pairs|, k requires 0 <= k < |pairs| => pairs[k].event)
  }

  /** The scores of the pairs, in the same order. */
  function ScoresOf(pairs: seq<EventRating>): (scores: seq<int>)
    ensures |scores| == |pairs|
    ensures forall k :: 0 <= k < |pairs| ==> scores[k] == pairs[k].rating.score
  {
    Scores(RatingsOf(pairs))
  }

  /** The ratings of the pairs, in the same order. */
  function RatingsOf(pairs: seq<EventRating>): (ratings: seq<Rating>)
    ensures |ratings| == |pairs|
    ensures forall k :: 0 <= k < |pairs| ==> ratings[k] == pairs[k].rating
  {
    seq(|pairs|, k requires 0 <= k < |pairs| => pairs[k].rating)
  }

  /** The program the optimizer hands to the solver. */
  function ProblemFor(pairs: seq<EventRating>): Problem {
    ScheduleProblem(EventsOf(pairs), ScoresOf(pairs))
  }

  /** One variable per pair, named after the pair's event and weighted by
      the pair's score, and every constraint refers to two variables. */
  lemma ProblemForAligned(pairs: seq<EventRating>)
    ensures |ProblemFor(pairs).names| == |ProblemFor(pairs).objective| == |pairs|
    ensures forall k :: 0 <= k < |pairs| ==>
      && ProblemFor(pairs).names[k] == VarName(pairs[k].event.slug)
      && ProblemFor(pairs).objective[k] == pairs[k].rating.score
    ensures WellFormed(ProblemFor(pairs))
  {
    ScheduleProblemWellFormed(EventsOf(pairs), ScoresOf(pairs));
  }

  /** The events whose slug, with '-' replaced by '_', is a scheduled name. */
  function ScheduledEvents(events: seq<Event>, names: set<string>): set<Event> {
    set e | e in events && VarName(e.slug) in names
  }

  /** With distinct variable names, the events decoded by name are exactly
      the events whose variable is 1. */
  lemma ScheduledEventsAreChosen(events: seq<Event>, scores: seq<int>, values: seq<int>)
    requires DistinctVarNames(events) && |values| == |events|
    ensures ScheduledEvents(events, ScheduledNames(ScheduleProblem(events, scores), values)) == Chosen(events, values)
  {
  }

  /** Optimizes the schedule: one binary variable per pair, named after the
      event's slug; objective the sum of variable times score; a constraint
      for every overlapping pair; fails unless the solver reports Optimal;
      otherwise returns the events whose variable is 1. Given an answer that
      keeps the solver's promise, the result is a set of input events no two
      of which overlap, and no such set has a larger total score. */
  method OptimizeSchedule(eventRatings: seq<EventRating>, answer: Answer) returns (r: Result<set<Event>>)
    requires DistinctVarNames(EventsOf(eventRatings))
    requires SolverContract(ProblemFor(eventRatings), answer)
    ensures r.Failure? <==> answer.status != Optimal
    ensures r.Failure? ==> r.error == NoOptimalSolution(answer.status)
    ensures r.Success? ==> r.value == Chosen(EventsOf(eventRatings), answer.values)
    ensures r.Success? ==> IsSchedule(EventsOf(eventRatings), r.value)
    ensures r.Success? ==> forall t :: IsSchedule(EventsOf(eventRatings), t) ==>
      TotalScore(EventsOf(eventRatings), ScoresOf(eventRatings), t) <=
      TotalScore(EventsOf(eventRatings), ScoresOf(eventRatings), r.value)
  {
    var events := seq(|eventRatings|, k requires 0 <= k < |eventRatings| => eventRatings[k].event);
    var ratings := seq(|eventRatings|, k requires 0 <= k < |eventRatings| => eventRatings[k].rating);
    assert |events| == |ratings|;

    var names := seq(|events|, k requires 0 <= k < |events| => VarName(events[k].slug));
    var objective := seq(|ratings|, k requires 0 <= k < |ratings| => ratings[k].score);
    var constraints := OverlapConstraints(events);
    var prob := Problem(names, objective, constraints);
    assert prob == ProblemFor(eventRatings);

    // `answer` is the solver's report on `prob`
    if answer.status != Optimal {
      return Failure(NoOptimalSolution(answer.status));
    }

    var scheduledNames := ScheduledNames(prob, answer.values);
    var scheduled := ScheduledEvents(events, scheduledNames);
    ScheduledEventsAreChosen(events, objective, answer.values);
    ChosenIsOptimalSchedule(events, objective, answer);
    return Success(scheduled);
  }

  function Foo(): Event { At(1, "foo", 7, 9) }
  function Bar(): Event { At(2, "bar", 8, 10) }
  function Baz(): Event { At(3, "baz", 9, 12) }

  /** foo [7,9) scored 8, bar [8,10) scored 10, baz [9,12) scored 5: bar
      overlaps both others, foo and baz only touch. */
  function ScenarioPairs(): seq<EventRating> {
    [ EventRating(Foo(), Rating(1, 8, 0)),
      EventRating(Bar(), Rating(2, 10, 0)),
      EventRating(Baz(), Rating(3, 5, 0)) ]
  }

  lemma ScenarioNamesDistinct()
    ensures DistinctVarNames(EventsOf(ScenarioPairs()))
  {
  }

  lemma ScenarioData()
    ensures EventsOf(ScenarioPairs()) == [Foo(), Bar(), Baz()]
    ensures ScoresOf(ScenarioPairs()) == [8, 10, 5]
    ensures EventsOverlap(Foo(), Bar()) && EventsOverlap(Bar(), Baz()) && !EventsOverlap(Foo(), Baz())
  {
  }

  lemma {:induction false} ObjectiveOfThree(x: seq<int>, c: seq<int>)
    requires |x| == 3 && |c| == 3
    ensures Objective(x, c) == x[0] * c[0] + x[1] * c[1] + x[2] * c[2]
  {
    assert Objective(x[2..], c[2..]) == x[2] * c[2] + Objective(x[3..], c[3..]);
    assert Objective(x[1..], c[1..]) == x[1] * c[1] + Objective(x[2..], c[2..]);
    assert x[3..] == [];
  }

  /** The only 0/1 choice for foo, bar and baz that respects both overlaps
      and reaches 13 points is foo and baz. */
  lemma ScenarioOptimum(x: seq<int>)
    requires |x| == 3 && IsBinary(x)
    requires !(x[0] == 1 && x[1] == 1) && !(x[1] == 1 && x[2] == 1)
    requires x[0] * 8 + x[1] * 10 + x[2] * 5 >= 13
    ensures x == [1, 0, 1]
  {
  }

  /** A feasible 0/1 choice never takes bar together with foo or baz. */
  lemma ScenarioFeasible(x: seq<int>)
    requires |x| == 3 && IsBinary(x) && Feasible(ProblemFor(ScenarioPairs()), x)
    ensures !(x[0] == 1 && x[1] == 1) && !(x[1] == 1 && x[2] == 1)
  {
    ScenarioData();
    FeasibleIffIndependent(EventsOf(ScenarioPairs()), ScoresOf(ScenarioPairs()), x);
    assert Independent(EventsOf(ScenarioPairs()), x);
  }

  /** Taking foo and baz is feasible and worth 13 points. */
  lemma ScenarioCandidate()
    ensures IsBinary([1, 0, 1]) && Feasible(ProblemFor(ScenarioPairs()), [1, 0, 1])
    ensures Objective([1, 0, 1], ProblemFor(ScenarioPairs()).objective) == 13
  {
    ScenarioData();
    var events, scores := EventsOf(ScenarioPairs()), ScoresOf(ScenarioPairs());
    assert Independent(events, [1, 0, 1]);
    FeasibleIffIndependent(events, scores, [1, 0, 1]);
    ObjectiveOfThree([1, 0, 1], scores);
  }

  /** In the scenario every answer that keeps the solver's promise sets
      exactly the variables of foo and baz (13 points, against 10 for bar
      alone). */
  lemma ScenarioValues(answer: Answer)
    requires SolverContract(ProblemFor(ScenarioPairs()), answer) && answer.status == Optimal
    ensures answer.values == [1, 0, 1]
  {
    ScenarioData();
    var x := answer.values;
    ScenarioFeasible(x);
    ScenarioCandidate();
    ObjectiveOfThree(x, ScoresOf(ScenarioPairs()));
    ScenarioOptimum(x);
  }

  /** So the optimizer schedules exactly foo and baz. */
  lemma OptimizeScenario(answer: Answer)
    requires SolverContract(ProblemFor(ScenarioPairs()), answer) && answer.status == Optimal
    ensures Chosen(EventsOf(ScenarioPairs()), answer.values) == {Foo(), Baz()}
  {
    ScenarioData();
    ScenarioValues(answer);
    var events := EventsOf(ScenarioPairs());
    assert events[0] in Chosen(events, answer.values) && events[2] in Chosen(events, answer.values);
  }
}
