/** The 0/1 integer program both optimizer versions build: one binary
    variable per event, the objective "sum of variable times score", and a
    constraint x_i + x_j <= 1 for every overlapping pair i < j. Also the
    contract of the external solver, an exhaustive reference solver that
    meets it, and the theorem that decoding an optimal answer yields a
    non-overlapping set of events of maximum total score. */
module Formulation {
  import opened Models

  // ---------------------------------------------------------------------
  // The program.
  // ---------------------------------------------------------------------

  /** x_i + x_j <= 1: at most one of events i and j is scheduled. */
  datatype Constraint = AtMostOne(i: nat, j: nat)

  /** Variable names, objective coefficients (one per variable, in the same
      order) and constraints of a maximisation problem. */
  datatype Problem = Problem(names: seq<string>, objective: seq<int>, constraints: seq<Constraint>)

  predicate WellFormed(p: Problem) {
    && |p.names| == |p.objective|
    && forall c :: c in p.constraints ==> c.i < |p.names| && c.j < |p.names|
  }

  /** Every value of x is 0 or 1. */
  predicate IsBinary(x: seq<int>) {
    forall k :: 0 <= k < |x| ==> x[k] == 0 || x[k] == 1
  }

  predicate Satisfies(x: seq<int>, c: Constraint) {
    c.i < |x| && c.j < |x| && x[c.i] + x[c.j] <= 1
  }

  /** x gives a value to every variable of p and meets every constraint. */
  predicate Feasible(p: Problem, x: seq<int>) {
    |x| == |p.names| && forall c :: c in p.constraints ==> Satisfies(x, c)
  }

  /** Sum of x_k * coeffs_k, pairing the two sequences position by position. */
  function Objective(x: seq<int>, coeffs: seq<int>): int {
    if x == [] || coeffs == [] then 0 else x[0] * coeffs[0] + Objective(x[1..], coeffs[1..])
  }

  // ---------------------------------------------------------------------
  // The external solver, specified by its contract.
  // ---------------------------------------------------------------------

  /** The statuses the solver library reports. */
  datatype Status = NotSolved | Optimal | Infeasible | Unbounded | Undefined

  /** What the solver reports: a status and the value of every variable. */
  datatype Answer = Answer(status: Status, values: seq<int>)

  /** Why an optimization fails: the solver found no optimal solution, or
      (earlier version only) the events and ratings differ in number. */
  datatype OptimizeError = NoOptimalSolution(status: Status) | LengthMismatch

  datatype Result<T> = Success(value: T) | Failure(error: OptimizeError)

  /** The promise of the solver: when it reports Optimal, its values are a
      0/1 assignment that meets every constraint and whose objective no
      other such assignment exceeds. Which of several equally good
      assignments it reports is not specified. */
  ghost predicate SolverContract(p: Problem, a: Answer) {
    a.status == Optimal ==>
      && IsBinary(a.values)
      && Feasible(p, a.values)
      && forall y :: IsBinary(y) && Feasible(p, y) ==> Objective(y, p.objective) <= Objective(a.values, p.objective)
  }

  /** The constraints among the first |x| variables hold. */
  predicate PartlyFeasible(cs: seq<Constraint>, x: seq<int>) {
    forall c :: c in cs && c.i < |x| && c.j < |x| ==> x[c.i] + x[c.j] <= 1
  }

  /** Exhaustive include/exclude search: the best feasible 0/1 completion
      of prefix (on equal objective, the one that leaves the next variable 0). */
  function Search(p: Problem, prefix: seq<int>): (x: seq<int>)
    requires WellFormed(p) && |prefix| <= |p.names|
    requires IsBinary(prefix) && PartlyFeasible(p.constraints, prefix)
    ensures |x| == |p.names| && x[..|prefix|] == prefix
    ensures IsBinary(x) && Feasible(p, x)
    decreases |p.names| - |prefix|
  {
    if |prefix| == |p.names| then
      assert prefix[..|prefix|] == prefix;
      prefix
    else
      var skip := Search(p, prefix + [0]);
      assert skip[..|prefix|] == (skip[..|prefix| + 1])[..|prefix|];
      if PartlyFeasible(p.constraints, prefix + [1]) then
        var take := Search(p, prefix + [1]);
        assert take[..|prefix|] == (take[..|prefix| + 1])[..|prefix|];
        if Objective(take, p.objective) > Objective(skip, p.objective) then take else skip
      else skip
  }

  /** No feasible 0/1 completion of prefix beats the search. */
  lemma {:induction false} SearchOptimal(p: Problem, prefix: seq<int>, y: seq<int>)
    requires WellFormed(p) && |prefix| <= |p.names|
    requires IsBinary(prefix) && PartlyFeasible(p.constraints, prefix)
    requires IsBinary(y) && Feasible(p, y) && y[..|prefix|] == prefix
    ensures Objective(y, p.objective) <= Objective(Search(p, prefix), p.objective)
    decreases |p.names| - |prefix|
  {
    if |prefix| == |p.names| {
      assert y == y[..|prefix|];
    } else {
      var k := |prefix|;
      var next := prefix + [y[k]];
      assert y[..k + 1] == next;
      assert PartlyFeasible(p.constraints, next) by {
        forall c | c in p.constraints && c.i < |next| && c.j < |next|
          ensures next[c.i] + next[c.j] <= 1
        {
          assert Satisfies(y, c);
        }
      }
      SearchOptimal(p, next, y);
    }
  }

  /** The reference solver: always Optimal, with the searched values. */
  function ExhaustiveSolve(p: Problem): Answer
    requires WellFormed(p)
  {
    Answer(Optimal, Search(p, []))
  }

  /** The reference solver meets the solver contract on every problem. */
  lemma ExhaustiveSolveMeetsContract(p: Problem)
    requires WellFormed(p)
    ensures ExhaustiveSolve(p).status == Optimal
    ensures SolverContract(p, ExhaustiveSolve(p))
  {
    var x := Search(p, []);
    forall y | IsBinary(y) && Feasible(p, y)
      ensures Objective(y, p.objective) <= Objective(x, p.objective)
    {
      SearchOptimal(p, [], y);
    }
  }

  // ---------------------------------------------------------------------
  // Constraint generation.
  // ---------------------------------------------------------------------

  /** The constraints the inner loop adds for row i after looking at the
      columns below j: pairs (i, j') with i < j' < j whose events overlap. */
  function RowPairs(events: seq<Event>, i: nat, j: nat): seq<Constraint>
    requires i < |events| && j <= |events|
  {
    if j == 0 then []
    else
      RowPairs(events, i, j - 1) +
      (if i < j - 1 && EventsOverlap(events[i], events[j - 1]) then [AtMostOne(i, j - 1)] else [])
  }

  /** The constraints the outer loop has added for the rows below i. */
  function PairsBefore(events: seq<Event>, i: nat): seq<Constraint>
    requires i <= |events|
  {
    if i == 0 then [] else PairsBefore(events, i - 1) + RowPairs(events, i - 1, |events|)
  }

  /** All constraints, in the order the nested loop adds them. */
  function OverlapPairs(events: seq<Event>): seq<Constraint> {
    PairsBefore(events, |events|)
  }

  /** Row by row, then column by column. */
  predicate Before(a: Constraint, b: Constraint) {
    a.i < b.i || (a.i == b.i && a.j < b.j)
  }

  predicate Ordered(cs: seq<Constraint>) {
    forall k, l :: 0 <= k < l < |cs| ==> Before(cs[k], cs[l])
  }

  lemma {:induction false} RowPairsSpec(events: seq<Event>, i: nat, j: nat)
    requires i < |events| && j <= |events|
    ensures forall c :: c in RowPairs(events, i, j) <==>
      c.i == i && i < c.j < j && EventsOverlap(events[c.i], events[c.j])
    ensures Ordered(RowPairs(events, i, j))
  {
    if j > 0 {
      RowPairsSpec(events, i, j - 1);
    }
  }

  lemma {:induction false} PairsBeforeSpec(events: seq<Event>, i: nat)
    requires i <= |events|
    ensures forall c :: c in PairsBefore(events, i) <==>
      c.i < i && c.i < c.j < |events| && EventsOverlap(events[c.i], events[c.j])
    ensures Ordered(PairsBefore(events, i))
  {
    if i > 0 {
      PairsBeforeSpec(events, i - 1);
      RowPairsSpec(events, i - 1, |events|);
      OrderedAppend(PairsBefore(events, i - 1), RowPairs(events, i - 1, |events|));
    }
  }

  /** Two ordered lists, every element of the first before every element of
      the second, concatenate to an ordered list. */
  lemma OrderedAppend(a: seq<Constraint>, b: seq<Constraint>)
    requires Ordered(a) && Ordered(b)
    requires forall c, d :: c in a && d in b ==> Before(c, d)
    ensures Ordered(a + b)
  {
    forall k, l | 0 <= k < l < |a + b| ensures Before((a + b)[k], (a + b)[l]) {
      if k < |a| && l >= |a| {
        assert (a + b)[k] in a && (a + b)[l] in b;
      }
    }
  }

  /** A constraint is generated exactly for each pair i < j of overlapping
      events; no event is paired with itself and, the order being strict,
      no pair is generated twice. */
  lemma OverlapPairsSpec(events: seq<Event>)
    ensures forall c :: c in OverlapPairs(events) <==>
      c.i < c.j < |events| && EventsOverlap(events[c.i], events[c.j])
    ensures Ordered(OverlapPairs(events))
    ensures forall k, l :: 0 <= k < l < |OverlapPairs(events)| ==> OverlapPairs(events)[k] != OverlapPairs(events)[l]
  {
    PairsBeforeSpec(events, |events|);
  }

  /** The nested loop of the source: for every i and every j, skip j <= i,
      and add x_i + x_j <= 1 when events i and j overlap. */
  method OverlapConstraints(events: seq<Event>) returns (cs: seq<Constraint>)
    ensures cs == OverlapPairs(events)
    ensures forall c :: c in cs ==> c.i < c.j < |events| && EventsOverlap(events[c.i], events[c.j])
    ensures forall i, j :: 0 <= i < j < |events| && EventsOverlap(events[i], events[j]) ==> AtMostOne(i, j) in cs
    ensures Ordered(cs)
  {
    cs := [];
    for i := 0 to |events|
      invariant cs == PairsBefore(events, i)
    {
      for j := 0 to |events|
        invariant cs == PairsBefore(events, i) + RowPairs(events, i, j)
      {
        if i >= j {
          continue;
        }
        if EventsOverlap(events[i], events[j]) {
          cs := cs + [AtMostOne(i, j)];
        }
      }
    }
    OverlapPairsSpec(events);
    forall i, j | 0 <= i < j < |events| && EventsOverlap(events[i], events[j])
      ensures AtMostOne(i, j) in cs
    {
      assert AtMostOne(i, j).i == i;
    }
  }

  // ---------------------------------------------------------------------
  // The program built from events and scores.
  // ---------------------------------------------------------------------

  /** One variable per event, named after its slug. */
  function VarNames(events: seq<Event>): (names: seq<string>)
    ensures |names| == |events|
    ensures forall k :: 0 <= k < |events| ==> names[k] == VarName(events[k].slug)
  {
    seq(|events|, k requires 0 <= k < |events| => VarName(events[k].slug))
  }

  /** The program for events scored by scores, position by position. */
  function ScheduleProblem(events: seq<Event>, scores: seq<int>): Problem {
    Problem(VarNames(events), scores, OverlapPairs(events))
  }

  lemma ScheduleProblemWellFormed(events: seq<Event>, scores: seq<int>)
    requires |scores| == |events|
    ensures WellFormed(ScheduleProblem(events, scores))
  {
    OverlapPairsSpec(events);
  }

  /** No two chosen events (value 1) overlap. */
  predicate Independent(events: seq<Event>, x: seq<int>)
    requires |x| == |events|
  {
    forall i, j :: 0 <= i < j < |events| && x[i] == 1 && x[j] == 1 ==> !EventsOverlap(events[i], events[j])
  }

  /** For 0/1 assignments, meeting the generated constraints is the same as
      choosing an independent set of the overlap graph. */
  lemma FeasibleIffIndependent(events: seq<Event>, scores: seq<int>, x: seq<int>)
    requires |x| == |events| && IsBinary(x)
    ensures Feasible(ScheduleProblem(events, scores), x) <==> Independent(events, x)
  {
    var p := ScheduleProblem(events, scores);
    OverlapPairsSpec(events);
    if Feasible(p, x) {
      forall i: nat, j: nat | i < j < |events| && x[i] == 1 && x[j] == 1
        ensures !EventsOverlap(events[i], events[j])
      {
        assert EventsOverlap(events[i], events[j]) ==> AtMostOne(i, j) in p.constraints;
      }
    }
  }

  // ---------------------------------------------------------------------
  // Schedules: sets of events.
  // ---------------------------------------------------------------------

  /** Variable names are distinct, so each name decodes to one event. */
  predicate DistinctVarNames(events: seq<Event>) {
    forall i, j :: 0 <= i < j < |events| ==> VarName(events[i].slug) != VarName(events[j].slug)
  }

  /** The events whose variable has value 1. */
  function Chosen(events: seq<Event>, x: seq<int>): set<Event> {
    set k | 0 <= k < |events| && k < |x| && x[k] == 1 :: events[k]
  }

  /** The 0/1 assignment that chooses exactly the events of t. */
  function Indicator(events: seq<Event>, t: set<Event>): seq<int> {
    seq(|events|, k requires 0 <= k < |events| => if events[k] in t then 1 else 0)
  }

  /** The total score of the events of t. */
  function TotalScore(events: seq<Event>, scores: seq<int>, t: set<Event>): int {
    Objective(Indicator(events, t), scores)
  }

  /** No two events of t overlap. */
  predicate NonOverlapping(t: set<Event>) {
    forall a, b :: a in t && b in t && a != b ==> !EventsOverlap(a, b)
  }

  /** t is a set of input events, no two of which overlap. */
  predicate IsSchedule(events: seq<Event>, t: set<Event>) {
    (forall e :: e in t ==> e in events) && NonOverlapping(t)
  }

  lemma DistinctEvents(events: seq<Event>, i: int, j: int)
    requires DistinctVarNames(events) && 0 <= i < |events| && 0 <= j < |events|
    ensures events[i] == events[j] <==> i == j
  {
  }

  /** The names of the variables whose value is 1. */
  function ScheduledNames(p: Problem, values: seq<int>): set<string> {
    set k | 0 <= k < |p.names| && k < |values| && values[k] == 1 :: p.names[k]
  }

  /** With distinct names, the name of event k is scheduled exactly when
      its own variable is 1. */
  lemma InScheduledNames(events: seq<Event>, scores: seq<int>, values: seq<int>, k: int)
    requires DistinctVarNames(events) && |values| == |events| && 0 <= k < |events|
    ensures VarName(events[k].slug) in ScheduledNames(ScheduleProblem(events, scores), values) <==> values[k] == 1
  {
  }

  /** With distinct names, decoding a 0/1 assignment and encoding the result
      again gives back the assignment. */
  lemma IndicatorOfChosen(events: seq<Event>, x: seq<int>)
    requires DistinctVarNames(events) && |x| == |events| && IsBinary(x)
    ensures Indicator(events, Chosen(events, x)) == x
    ensures forall k :: 0 <= k < |events| ==> (events[k] in Chosen(events, x) <==> x[k] == 1)
  {
  }

  /** The central theorem: given an answer that meets the solver contract,
      the decoded events form a schedule, and no schedule of the input has a
      larger total score. */
  lemma ChosenIsOptimalSchedule(events: seq<Event>, scores: seq<int>, a: Answer)
    requires DistinctVarNames(events) && |scores| == |events|
    requires SolverContract(ScheduleProblem(events, scores), a) && a.status == Optimal
    ensures IsSchedule(events, Chosen(events, a.values))
    ensures forall t :: IsSchedule(events, t) ==>
      TotalScore(events, scores, t) <= TotalScore(events, scores, Chosen(events, a.values))
  {
    var p, x := ScheduleProblem(events, scores), a.values;
    var chosen := Chosen(events, x);
    FeasibleIffIndependent(events, scores, x);
    IndicatorOfChosen(events, x);
    forall e1, e2 | e1 in chosen && e2 in chosen && e1 != e2 ensures !EventsOverlap(e1, e2) {
      var i :| 0 <= i < |events| && i < |x| && x[i] == 1 && events[i] == e1;
      var j :| 0 <= j < |events| && j < |x| && x[j] == 1 && events[j] == e2;
      if i > j {
        assert !EventsOverlap(events[j], events[i]);
      }
    }
    forall t | IsSchedule(events, t)
      ensures TotalScore(events, scores, t) <= TotalScore(events, scores, chosen)
    {
      var y := Indicator(events, t);
      forall i, j | 0 <= i < j < |events| && y[i] == 1 && y[j] == 1
        ensures !EventsOverlap(events[i], events[j])
      {
        DistinctEvents(events, i, j);
      }
      FeasibleIffIndependent(events, scores, y);
    }
  }
}
