/** The schedule optimizer of the earlier version: events and ratings come
    as two lists matched by position, and the scheduled events are returned
    as a list in input order. */
module LegacyOptimize {
  import opened Models
  import opened Sequences
  import opened Formulation
  import Optimize

  /** The program the earlier optimizer hands to the solver. */
  function LegacyProblem(events: seq<Event>, ratings: seq<Rating>): Problem {
    ScheduleProblem(events, Scores(ratings))
  }

  /** The events whose variable is 1, in input order. */
  function Selected(events: seq<Event>, x: seq<int>): (s: seq<Event>)
    requires |x| == |events|
    ensures IsSubsequence(s, events)
    ensures forall e :: e in s <==> e in Chosen(events, x)
  {
    if events == [] then []
    else
      var rest := Selected(events[1..], x[1..]);
      assert forall e :: e in Chosen(events, x) <==>
        (x[0] == 1 && e == events[0]) || e in Chosen(events[1..], x[1..]) by {
        forall e | e in Chosen(events[1..], x[1..]) ensures e in Chosen(events, x) {
          var k :| 0 <= k < |events[1..]| && k < |x[1..]| && x[1..][k] == 1 && events[1..][k] == e;
          assert x[k + 1] == 1 && events[k + 1] == e;
        }
        forall e | e in Chosen(events, x) && e != events[0] ensures e in Chosen(events[1..], x[1..]) {
          var k :| 0 <= k < |events| && k < |x| && x[k] == 1 && events[k] == e;
          assert x[1..][k - 1] == 1 && events[1..][k - 1] == e;
        }
      }
      if x[0] == 1 then [events[0]] + rest else rest
  }

  /** The extraction as the earlier version writes it: an event is kept
      when its slug, unchanged, is the name of a scheduled variable. */
  function ScheduledEventsAsWritten(events: seq<Event>, names: set<string>): (s: seq<Event>)
    ensures IsSubsequence(s, events)
    ensures forall e :: e in s <==> e in events && e.slug in names
  {
    if events == [] then []
    else
      var rest := ScheduledEventsAsWritten(events[1..], names);
      if events[0].slug in names then
        assert ([events[0]] + rest)[1..] == rest;
        [events[0]] + rest
      else
        assert forall e :: e in events <==> e == events[0] || e in events[1..];
        rest
  }

  /** The extraction as intended: an event is kept when its slug, with '-'
      replaced by '_' as in the variable names, is a scheduled name. */
  function ScheduledEventsCorrected(events: seq<Event>, names: set<string>): (s: seq<Event>)
    ensures IsSubsequence(s, events)
    ensures forall e :: e in s <==> e in events && VarName(e.slug) in names
  {
    if events == [] then []
    else
      var rest := ScheduledEventsCorrected(events[1..], names);
      if VarName(events[0].slug) in names then
        assert ([events[0]] + rest)[1..] == rest;
        [events[0]] + rest
      else
        assert forall e :: e in events <==> e == events[0] || e in events[1..];
        rest
  }

  lemma {:induction false} CorrectedIsSelectedFrom(events: seq<Event>, x: seq<int>, names: set<string>)
    requires |x| == |events|
    requires forall k :: 0 <= k < |events| ==> (VarName(events[k].slug) in names <==> x[k] == 1)
    ensures ScheduledEventsCorrected(events, names) == Selected(events, x)
  {
    if events != [] {
      assert VarName(events[0].slug) in names <==> x[0] == 1;
      forall k | 0 <= k < |events[1..]| ensures VarName(events[1..][k].slug) in names <==> x[1..][k] == 1 {
        assert events[1..][k] == events[k + 1] && x[1..][k] == x[k + 1];
      }
      CorrectedIsSelectedFrom(events[1..], x[1..], names);
    }
  }

  /** With distinct variable names, the corrected extraction returns the
      events whose variable is 1, in input order. */
  lemma CorrectedIsSelected(events: seq<Event>, scores: seq<int>, values: seq<int>)
    requires DistinctVarNames(events) && |values| == |events|
    ensures ScheduledEventsCorrected(events, ScheduledNames(ScheduleProblem(events, scores), values)) ==
      Selected(events, values)
  {
    forall k | 0 <= k < |events|
      ensures VarName(events[k].slug) in ScheduledNames(ScheduleProblem(events, scores), values) <==> values[k] == 1
    {
      InScheduledNames(events, scores, values, k);
    }
    CorrectedIsSelectedFrom(events, values, ScheduledNames(ScheduleProblem(events, scores), values));
  }

  /** Optimizes the schedule: fails when the two lists differ in length;
      otherwise one binary variable per event named after its slug,
      objective the sum of variable times the score at the same position, a
      constraint for every overlapping pair; fails unless the solver reports
      Optimal; otherwise returns, in input order, the events whose variable
      is 1. The extraction is the corrected one (ScheduledEventsCorrected),
      which compares the renamed slug; the source compares the raw slug,
      see ScheduledEventsAsWritten and AsWrittenDropsDashedSlug. Given an answer that keeps the solver's promise, no two of them
      overlap and no set of input events without overlaps scores more. */
  method OptimizeScheduleLegacy(events: seq<Event>, ratings: seq<Rating>, answer: Answer)
    returns (r: Result<seq<Event>>)
    requires |events| == |ratings| ==> DistinctVarNames(events)
    requires |events| == |ratings| ==> SolverContract(LegacyProblem(events, ratings), answer)
    ensures |events| != |ratings| ==> r == Failure(LengthMismatch)
    ensures |events| == |ratings| ==> (r.Failure? <==> answer.status != Optimal)
    ensures |events| == |ratings| && r.Failure? ==> r.error == NoOptimalSolution(answer.status)
    ensures r.Success? ==> r.value == Selected(events, answer.values)
    ensures r.Success? ==> IsSubsequence(r.value, events)
    ensures r.Success? ==> IsSchedule(events, set e | e in r.value)
    ensures r.Success? ==> forall t :: IsSchedule(events, t) ==>
      TotalScore(events, Scores(ratings), t) <= TotalScore(events, Scores(ratings), set e | e in r.value)
  {
    if |events| != |ratings| {
      return Failure(LengthMismatch);
    }

    var names := seq(|events|, k requires 0 <= k < |events| => VarName(events[k].slug));
    var objective := seq(|ratings|, k requires 0 <= k < |ratings| => ratings[k].score);
    var constraints := OverlapConstraints(events);
    var prob := Problem(names, objective, constraints);
    assert prob == LegacyProblem(events, ratings);

    // `answer` is the solver's report on `prob`
    if answer.status != Optimal {
      return Failure(NoOptimalSolution(answer.status));
    }

    var scheduledNames := ScheduledNames(prob, answer.values);
    var scheduled := ScheduledEventsCorrected(events, scheduledNames);
    CorrectedIsSelected(events, objective, answer.values);
    ChosenIsOptimalSchedule(events, objective, answer);
    assert (set e | e in scheduled) == Chosen(events, answer.values);
    return Success(scheduled);
  }

  /** Fed the events and ratings of the same pairs, both versions build the
      same program, and for the same answer the earlier version returns, as
      a list in input order, the set the current version returns. */
  lemma VersionsAgree(pairs: seq<EventRating>, values: seq<int>)
    requires |values| == |pairs|
    ensures LegacyProblem(Optimize.EventsOf(pairs), Optimize.RatingsOf(pairs)) == Optimize.ProblemFor(pairs)
    ensures (set e | e in Selected(Optimize.EventsOf(pairs), values)) == Chosen(Optimize.EventsOf(pairs), values)
  {
  }

  /** Runs both versions on the events and ratings of the same pairs with the
      same solver answer: they fail together, with the same error, and on
      success the earlier version's list holds exactly the current version's
      set, in input order. */
  method CompareVersions(pairs: seq<EventRating>, answer: Answer)
    returns (current: Result<set<Event>>, earlier: Result<seq<Event>>)
    requires DistinctVarNames(Optimize.EventsOf(pairs))
    requires SolverContract(Optimize.ProblemFor(pairs), answer)
    ensures current.Failure? <==> earlier.Failure?
    ensures current.Failure? ==> current.error == earlier.error
    ensures current.Success? ==> (set e | e in earlier.value) == current.value
    ensures earlier.Success? ==> IsSubsequence(earlier.value, Optimize.EventsOf(pairs))
  {
    assert LegacyProblem(Optimize.EventsOf(pairs), Optimize.RatingsOf(pairs)) == Optimize.ProblemFor(pairs);
    current := Optimize.OptimizeSchedule(pairs, answer);
    earlier := OptimizeScheduleLegacy(Optimize.EventsOf(pairs), Optimize.RatingsOf(pairs), answer);
    if current.Success? {
      VersionsAgree(pairs, answer.values);
    }
  }

  /** The earlier version on foo, bar and baz (scores 8, 10, 5) returns
      foo then baz for every answer that keeps the solver's promise. */
  lemma LegacyScenario(answer: Answer)
    requires SolverContract(LegacyProblem([Optimize.Foo(), Optimize.Bar(), Optimize.Baz()],
      [Rating(1, 8, 0), Rating(2, 10, 0), Rating(3, 5, 0)]), answer)
    requires answer.status == Optimal
    ensures Selected([Optimize.Foo(), Optimize.Bar(), Optimize.Baz()], answer.values) ==
      [Optimize.Foo(), Optimize.Baz()]
  {
    var events := [Optimize.Foo(), Optimize.Bar(), Optimize.Baz()];
    Optimize.ScenarioData();
    VersionsAgree(Optimize.ScenarioPairs(), [1, 0, 1]);
    assert Optimize.RatingsOf(Optimize.ScenarioPairs()) == [Rating(1, 8, 0), Rating(2, 10, 0), Rating(3, 5, 0)];
    Optimize.ScenarioValues(answer);
    var x := answer.values;
    assert Selected(events[2..], x[2..]) == [Optimize.Baz()];
    assert Selected(events[1..], x[1..]) == [Optimize.Baz()];
  }

  /** Without '-' in any slug the extraction as written is the intended one. */
  lemma {:induction false} AsWrittenAgreesWithoutDash(events: seq<Event>, names: set<string>)
    requires forall e :: e in events ==> '-' !in e.slug
    ensures ScheduledEventsAsWritten(events, names) == ScheduledEventsCorrected(events, names)
  {
    if events != [] {
      VarNameWithoutDash(events[0].slug);
      AsWrittenAgreesWithoutDash(events[1..], names);
    }
  }

  /** The program for one event with slug "a-b", scored 1: one variable,
      named "a_b", with coefficient 1, and no constraint. */
  lemma DashedSlugProblem()
    ensures var p := LegacyProblem([At(1, "a-b", 7, 9)], [Rating(1, 1, 0)]);
      p.names == ["a_b"] && p.objective == [1] && p.constraints == []
  {
    var e := At(1, "a-b", 7, 9);
    assert VarName("a-b") == "a_b";
    assert RowPairs([e], 0, 1) == RowPairs([e], 0, 0) == [];
    assert PairsBefore([e], 1) == PairsBefore([e], 0) + RowPairs([e], 0, 1);
  }

  /** For that program the only answer the solver may report as optimal
      sets the variable to 1. */
  lemma DashedSlugOnlyOptimum(a: Answer)
    requires SolverContract(LegacyProblem([At(1, "a-b", 7, 9)], [Rating(1, 1, 0)]), a)
    requires a.status == Optimal
    ensures a.values == [1]
  {
    var p := LegacyProblem([At(1, "a-b", 7, 9)], [Rating(1, 1, 0)]);
    DashedSlugProblem();
    var x := a.values;
    assert IsBinary([1]) && Feasible(p, [1]);
    assert Objective([1], p.objective) == 1;
    assert Objective(x, p.objective) == x[0];
    assert x == [x[0]];
  }

  /** One event with slug "a-b", scored 1 and overlapping nothing. The only
      optimal answer chooses it (any other answer scores 0), and its
      variable is named "a_b"; the extraction as written then returns no
      event, whose total score 0 is below the optimum 1, while the
      corrected extraction returns the event. */
  lemma AsWrittenDropsDashedSlug()
    ensures var e := At(1, "a-b", 7, 9);
      var p := LegacyProblem([e], [Rating(1, 1, 0)]);
      && SolverContract(p, Answer(Optimal, [1]))
      && (forall a :: SolverContract(p, a) && a.status == Optimal ==> a.values == [1])
      && ScheduledEventsAsWritten([e], ScheduledNames(p, [1])) == []
      && ScheduledEventsCorrected([e], ScheduledNames(p, [1])) == [e]
      && TotalScore([e], [1], {}) < TotalScore([e], [1], {e})
  {
    var e := At(1, "a-b", 7, 9);
    var p := LegacyProblem([e], [Rating(1, 1, 0)]);
    DashedSlugProblem();
    assert ScheduledNames(p, [1]) == {"a_b"} by {
      assert p.names[0] in ScheduledNames(p, [1]);
    }
    forall y | IsBinary(y) && Feasible(p, y) ensures Objective(y, p.objective) <= Objective([1], p.objective) {
      assert y == [y[0]];
    }
    forall a | SolverContract(p, a) && a.status == Optimal ensures a.values == [1] {
      DashedSlugOnlyOptimum(a);
    }
    assert Indicator([e], {}) == [0];
    assert Indicator([e], {e}) == [1];
  }
}
