/** The whole-plan view of progression: on a plan where every unit has a
    lesson, every lesson has a step and no step is an explicit "end", the
    positions of all steps in document order form a walk that repeated
    advances follow from the start, each step exactly once, ending pinned at
    the final step. */
module ProgressWalk {
  import opened Results
  import opened LessonPlan
  import opened ClassroomState

  /** `p` names an actual step of the plan. */
  predicate OnStep(plan: Plan, p: Position) {
    && 0 <= p.unit < |plan.units|
    && 0 <= p.lesson < |plan.units[p.unit].lessons|
    && 0 <= p.step < |plan.units[p.unit].lessons[p.lesson].steps|
  }

  /** Every unit has a lesson and every lesson has a step. */
  predicate Complete(plan: Plan) {
    && |plan.units| > 0
    && (forall u :: 0 <= u < |plan.units| ==> |plan.units[u].lessons| > 0)
    && (forall u, l :: 0 <= u < |plan.units| && 0 <= l < |plan.units[u].lessons| ==>
          |plan.units[u].lessons[l].steps| > 0)
  }

  predicate NoEndSteps(plan: Plan) {
    forall u, l, s ::
      0 <= u < |plan.units| && 0 <= l < |plan.units[u].lessons| &&
      0 <= s < |plan.units[u].lessons[l].steps| ==>
        plan.units[u].lessons[l].steps[s].kind != EndKind
  }

  /** One move of the state machine leads from `p` to `q`. */
  predicate MovesTo(plan: Plan, p: Position, q: Position) {
    OnStep(plan, p) && Move(plan, p.unit, p.lesson, p.step) == Ok(q)
  }

  /** Step `i` of `w` moves to step `i + 1`. */
  predicate MovesAt(plan: Plan, w: seq<Position>, i: int)
    requires 0 <= i < |w| - 1
  {
    MovesTo(plan, w[i], w[i + 1])
  }

  predicate IsWalk(plan: Plan, w: seq<Position>) {
    forall i :: 0 <= i < |w| - 1 ==> MovesAt(plan, w, i)
  }

  predicate Ascending(w: seq<Position>) {
    forall i, j :: 0 <= i < j < |w| ==> LexLess(w[i], w[j])
  }

  lemma {:induction false} AppendWalk(plan: Plan, a: seq<Position>, b: seq<Position>)
    requires IsWalk(plan, a) && IsWalk(plan, b)
    requires |a| > 0 && |b| > 0 && MovesTo(plan, a[|a| - 1], b[0])
    ensures IsWalk(plan, a + b)
  {
    var w := a + b;
    forall i | 0 <= i < |w| - 1
      ensures MovesAt(plan, w, i)
    {
      if i < |a| - 1 {
        assert MovesAt(plan, a, i);
        assert w[i] == a[i] && w[i + 1] == a[i + 1];
      } else if i == |a| - 1 {
        assert w[i] == a[|a| - 1] && w[i + 1] == b[0];
      } else {
        assert MovesAt(plan, b, i - |a|);
        assert w[i] == b[i - |a|] && w[i + 1] == b[i - |a| + 1];
      }
    }
  }

  /** The steps of lesson `l` of unit `u`, in order. */
  function LessonWalk(plan: Plan, u: int, l: int): (r: seq<Position>)
    requires 0 <= u < |plan.units| && 0 <= l < |plan.units[u].lessons|
    ensures |r| == |plan.units[u].lessons[l].steps|
    ensures forall i :: 0 <= i < |r| ==> r[i] == Position(u, l, i)
  {
    seq(|plan.units[u].lessons[l].steps|, i => Position(u, l, i))
  }

  /** `r` runs through the steps of lessons `from..` of unit `u` in order:
      it starts at the first step of lesson `from`, ends at the last step of
      the unit, and holds exactly those steps. */
  ghost predicate WalksUnit(plan: Plan, u: int, from: nat, r: seq<Position>) {
    && 0 <= u < |plan.units| && from < |plan.units[u].lessons|
    && |r| > 0 && r[0] == Position(u, from, 0)
    && (var last := |plan.units[u].lessons| - 1;
        r[|r| - 1] == Position(u, last, |plan.units[u].lessons[last].steps| - 1))
    && IsWalk(plan, r) && Ascending(r)
    && forall p :: p in r <==> (OnStep(plan, p) && p.unit == u && from <= p.lesson)
  }

  /** The steps of lessons `from..` of unit `u`, in order. */
  function UnitWalk(plan: Plan, u: int, from: nat): (r: seq<Position>)
    requires 0 <= u < |plan.units| && Complete(plan)
    requires from < |plan.units[u].lessons|
    ensures WalksUnit(plan, u, from, r)
    decreases |plan.units[u].lessons| - from
  {
    if from + 1 == |plan.units[u].lessons| then
      LastLesson(plan, u, from);
      LessonWalk(plan, u, from)
    else
      var rest := UnitWalk(plan, u, from + 1);
      JoinLessons(plan, u, from, rest);
      LessonWalk(plan, u, from) + rest
  }

  /** The last lesson of a unit on its own. */
  lemma LastLesson(plan: Plan, u: int, from: nat)
    requires 0 <= u < |plan.units| && Complete(plan)
    requires from + 1 == |plan.units[u].lessons|
    ensures WalksUnit(plan, u, from, LessonWalk(plan, u, from))
  {
    var here := LessonWalk(plan, u, from);
    LessonWalkFacts(plan, u, from);
    assert here[|here| - 1] == Position(u, from, |here| - 1);
  }

  /** The steps of lesson `from` followed by those of the later lessons of
      the unit. */
  lemma JoinLessons(plan: Plan, u: int, from: nat, rest: seq<Position>)
    requires 0 <= u < |plan.units| && Complete(plan)
    requires from + 1 < |plan.units[u].lessons|
    requires WalksUnit(plan, u, from + 1, rest)
    ensures WalksUnit(plan, u, from, LessonWalk(plan, u, from) + rest)
  {
    var here := LessonWalk(plan, u, from);
    LessonWalkFacts(plan, u, from);
    var r := here + rest;
    assert MovesTo(plan, here[|here| - 1], rest[0]);
    AppendWalk(plan, here, rest);
    AppendAscending(here, rest);
    assert r[|r| - 1] == rest[|rest| - 1];
  }

  /** `r` runs through the steps of units `from..` in order: it starts at the
      first step of unit `from`, ends at the final step of the plan, and
      holds exactly those steps. */
  ghost predicate WalksPlan(plan: Plan, from: nat, r: seq<Position>) {
    && |r| > 0 && r[0] == Position(from, 0, 0)
    && IsFinal(plan, r[|r| - 1])
    && IsWalk(plan, r) && Ascending(r)
    && forall p :: p in r <==> (OnStep(plan, p) && from <= p.unit)
  }

  /** The steps of units `from..`, in order. */
  function WalkFrom(plan: Plan, from: nat): (r: seq<Position>)
    requires Complete(plan) && from < |plan.units|
    ensures WalksPlan(plan, from, r)
    decreases |plan.units| - from
  {
    if from + 1 == |plan.units| then
      LastUnit(plan, from);
      UnitWalk(plan, from, 0)
    else
      var rest := WalkFrom(plan, from + 1);
      JoinUnits(plan, from, rest);
      UnitWalk(plan, from, 0) + rest
  }

  /** The last unit on its own. */
  lemma LastUnit(plan: Plan, from: nat)
    requires Complete(plan) && from + 1 == |plan.units|
    ensures WalksPlan(plan, from, UnitWalk(plan, from, 0))
  {
  }

  /** The steps of unit `from` followed by those of the later units. */
  lemma JoinUnits(plan: Plan, from: nat, rest: seq<Position>)
    requires Complete(plan) && from + 1 < |plan.units|
    requires WalksPlan(plan, from + 1, rest)
    ensures WalksPlan(plan, from, UnitWalk(plan, from, 0) + rest)
  {
    var here := UnitWalk(plan, from, 0);
    UnitBoundary(plan, from);
    AppendWalk(plan, here, rest);
    assert forall x, y :: x in here && y in rest ==> LexLess(x, y) by {
      forall x, y | x in here && y in rest ensures LexLess(x, y) {
        assert x.unit == from < y.unit;
      }
    }
    AppendAscending(here, rest);
    var r := here + rest;
    assert r[|r| - 1] == rest[|rest| - 1];
  }

  /** Every step of the plan, in document order. */
  function Walk(plan: Plan): (r: seq<Position>)
    requires Complete(plan)
    ensures |r| > 0 && r[0] == Start && IsFinal(plan, r[|r| - 1])
    ensures IsWalk(plan, r)
    ensures Ascending(r)
    ensures forall p :: p in r <==> OnStep(plan, p)
  {
    WalkFrom(plan, 0)
  }

  lemma LessonWalkFacts(plan: Plan, u: int, l: int)
    requires 0 <= u < |plan.units| && 0 <= l < |plan.units[u].lessons|
    requires |plan.units[u].lessons[l].steps| > 0
    ensures IsWalk(plan, LessonWalk(plan, u, l)) && Ascending(LessonWalk(plan, u, l))
    ensures forall p :: p in LessonWalk(plan, u, l) <==> (OnStep(plan, p) && p.unit == u && p.lesson == l)
  {
    var w := LessonWalk(plan, u, l);
    forall p | OnStep(plan, p) && p.unit == u && p.lesson == l
      ensures p in w
    {
      assert w[p.step] == p;
    }
  }

  /** The last step of unit `u` moves to the first step of unit `u + 1`. */
  lemma UnitBoundary(plan: Plan, u: int)
    requires Complete(plan) && 0 <= u && u + 1 < |plan.units|
    ensures var last := |plan.units[u].lessons| - 1;
            MovesTo(plan, Position(u, last, |plan.units[u].lessons[last].steps| - 1),
                    Position(u + 1, 0, 0))
  {
  }

  lemma AppendAscending(a: seq<Position>, b: seq<Position>)
    requires Ascending(a) && Ascending(b)
    requires forall x, y :: x in a && y in b ==> LexLess(x, y)
    ensures Ascending(a + b)
  {
    var w := a + b;
    forall i, j | 0 <= i < j < |w|
      ensures LexLess(w[i], w[j])
    {
      if j < |a| {
        assert w[i] == a[i] && w[j] == a[j];
      } else if i >= |a| {
        assert w[i] == b[i - |a|] && w[j] == b[j - |a|];
      } else {
        assert w[i] in a && w[j] in b;
      }
    }
  }

  // ---------------------------------------------------------------------
  // Advance follows the walk.

  /** `w` is a walk over steps of the plan that ends at the final step. */
  predicate Traverses(plan: Plan, w: seq<Position>) {
    && |w| > 0
    && IsWalk(plan, w)
    && IsFinal(plan, w[|w| - 1])
    && forall k :: 0 <= k < |w| ==> OnStep(plan, w[k])
  }

  lemma WalkTraverses(plan: Plan)
    requires Complete(plan)
    ensures Traverses(plan, Walk(plan))
  {
    var w := Walk(plan);
    forall k | 0 <= k < |w|
      ensures OnStep(plan, w[k])
    {
      assert w[k] in w;
    }
  }

  /** One advance from any step of a traversal stores the next step of the
      traversal, or stays on the last one. */
  lemma AdvanceAlongWalk(plans: map<string, Plan>, cohorts: Cohorts, id: string, w: seq<Position>, i: nat)
    requires id in plans && NoEndSteps(plans[id]) && Traverses(plans[id], w)
    requires i < |w| && Stored(cohorts, id) == w[i]
    ensures Advance(plans, cohorts, id) == Ok(cohorts[id := w[if i + 1 < |w| then i + 1 else i]])
  {
    var plan := plans[id];
    var p := w[i];
    OnStepFacts(plan, p);
    AdvanceOnOrdinaryStep(plans, cohorts, id);
    if i + 1 < |w| {
      assert MovesAt(plan, w, i);
    } else {
      MoveForward(plan, p.unit, p.lesson, p.step);
    }
  }

  /** A step of the plan is already clamped, and is an ordinary step. */
  lemma OnStepFacts(plan: Plan, p: Position)
    requires OnStep(plan, p) && NoEndSteps(plan)
    ensures ClampPos(plan, p) == p
    ensures !Degenerate(plan, p)
    ensures StepAt(plan, p).kind != EndKind
  {
    assert StepAt(plan, p) == plan.units[p.unit].lessons[p.lesson].steps[p.step];
  }

  /** `n` advances in a row, as the session loop issues them. */
  function AdvanceTimes(plans: map<string, Plan>, cohorts: Cohorts, id: string, n: nat): Result<Cohorts>
    decreases n
  {
    if n == 0 then Ok(cohorts)
    else
      var next :- Advance(plans, cohorts, id);
      AdvanceTimes(plans, next, id, n - 1)
  }

  lemma AdvanceTimesStep(plans: map<string, Plan>, cohorts: Cohorts, id: string, n: nat,
                         next: Cohorts, target: Cohorts)
    requires n > 0 && Advance(plans, cohorts, id) == Ok(next)
    requires AdvanceTimes(plans, next, id, n - 1) == Ok(target)
    ensures AdvanceTimes(plans, cohorts, id, n) == Ok(target)
  {
  }

  /** From step `i` of a traversal, `n` advances reach step `i + n`, pinned at
      the final step once the traversal is exhausted. */
  lemma {:induction false} AdvanceTimesAlongWalk(plans: map<string, Plan>, cohorts: Cohorts, id: string,
                                                 w: seq<Position>, i: nat, n: nat)
    requires id in plans && NoEndSteps(plans[id]) && Traverses(plans[id], w)
    requires i < |w| && id in cohorts && cohorts[id] == w[i]
    ensures AdvanceTimes(plans, cohorts, id, n)
              == Ok(cohorts[id := w[if i + n < |w| then i + n else |w| - 1]])
    decreases n
  {
    if n == 0 {
      assert cohorts[id := w[i]] == cohorts;
    } else {
      AdvanceAlongWalk(plans, cohorts, id, w, i);
      var j := if i + 1 < |w| then i + 1 else i;
      var next := cohorts[id := w[j]];
      AdvanceTimesAlongWalk(plans, next, id, w, j, n - 1);
      var k := if i + n < |w| then i + n else |w| - 1;
      SameUpdate(cohorts, id, w[j], w[k]);
      AdvanceTimesStep(plans, cohorts, id, n, next, cohorts[id := w[k]]);
    }
  }

  lemma SameUpdate(cohorts: Cohorts, id: string, a: Position, b: Position)
    ensures cohorts[id := a][id := b] == cohorts[id := b]
  {
  }

  /** After a reset, the k-th advance lands on the k-th step of the plan in
      document order (each step once, since the walk is strictly ascending),
      and every advance after the last step leaves the cohort there. */
  lemma ResetThenAdvance(plans: map<string, Plan>, cohorts: Cohorts, id: string, n: nat)
    requires id in plans && Complete(plans[id]) && NoEndSteps(plans[id])
    ensures var w := Walk(plans[id]);
            AdvanceTimes(plans, Reset(cohorts, id), id, n)
              == Ok(Reset(cohorts, id)[id := w[if n < |w| then n else |w| - 1]])
  {
    WalkTraverses(plans[id]);
    AdvanceTimesAlongWalk(plans, Reset(cohorts, id), id, Walk(plans[id]), 0, n);
  }
}
