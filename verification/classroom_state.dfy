/** The progression state machine: each cohort's position in its lesson plan is
    a (unit, lesson, step) triple kept in a map keyed by cohort id. */
module ClassroomState {
  import opened Results
  import opened LessonPlan

  datatype Position = Position(unit: int, lesson: int, step: int)

  /** The persisted `cohorts` object, held in memory. */
  type Cohorts = map<string, Position>

  const Start: Position := Position(0, 0, 0)

  /** Strict lexicographic order on positions: document order in a plan. */
  predicate LexLess(a: Position, b: Position) {
    || a.unit < b.unit
    || (a.unit == b.unit && a.lesson < b.lesson)
    || (a.unit == b.unit && a.lesson == b.lesson && a.step < b.step)
  }

  /** `get_or_create_cohort_state`: an absent cohort is created at the start;
      an existing cohort is returned and nothing else changes. */
  function GetOrCreate(cohorts: Cohorts, id: string): (r: (Cohorts, Position))
    ensures id in r.0 && r.1 == r.0[id]
    ensures r.0.Keys == cohorts.Keys + {id}
    ensures forall k :: k in cohorts ==> r.0[k] == cohorts[k]
    ensures id !in cohorts ==> r.1 == Start
  {
    if id in cohorts then (cohorts, cohorts[id]) else (cohorts[id := Start], Start)
  }

  /** `reset_cohort`: the cohort is back at the start whatever it was before;
      every other cohort is untouched. */
  function Reset(cohorts: Cohorts, id: string): (r: Cohorts)
    ensures r.Keys == cohorts.Keys + {id}
    ensures r[id] == Start
    ensures forall k :: k in cohorts && k != id ==> r[k] == cohorts[k]
  {
    cohorts[id := Start]
  }

  /** `max(0, min(x, n - 1))` */
  function Clamp(x: int, n: int): (r: int)
    ensures 1 <= n ==> 0 <= r < n
    ensures n <= 0 ==> r == 0
    ensures 0 <= x < n ==> r == x
    ensures 1 <= n <= x ==> r == n - 1
    ensures x < 0 ==> r == 0
  {
    var m := if x < n - 1 then x else n - 1;
    if m < 0 then 0 else m
  }

  /** The stored triple, or the start when the cohort has none. */
  function Stored(cohorts: Cohorts, id: string): Position {
    if id in cohorts then cohorts[id] else Start
  }

  /** `advance_step`: clamp the stored triple to the plan's shape, stop on a
      degenerate plan or an explicit "end" step, otherwise move one step on.
      Only this cohort's entry is ever rewritten. */
  function Advance(plans: map<string, Plan>, cohorts: Cohorts, id: string): Result<Cohorts> {
    var plan :- LoadPlan(plans, id);
    var units := plan.units;
    if |units| == 0 then Ok(cohorts)
    else
      var p := Stored(cohorts, id);
      var u := Clamp(p.unit, |units|);
      var lessons := units[u].lessons;
      if |lessons| == 0 then Ok(cohorts)
      else
        var l := Clamp(p.lesson, |lessons|);
        var lesson :- GetLesson(plan, u, l);
        var steps := lesson.steps;
        if |steps| == 0 then Ok(cohorts)
        else
          var s := Clamp(p.step, |steps|);
          var current :- GetStep(lesson, s);
          if current.kind == EndKind then Ok(cohorts[id := Position(u, l, s)])
          else
            var next :- Move(plan, u, l, s);
            Ok(cohorts[id := next])
  }

  /** The move from a clamped, non-terminal position: next step, else first
      step of the next lesson, else first step of the next unit, else the last
      step of the last lesson of the last unit. */
  function Move(plan: Plan, u: int, l: int, s: int): Result<Position>
    requires 0 <= u < |plan.units|
    requires 0 <= l < |plan.units[u].lessons|
    requires 0 <= s < |plan.units[u].lessons[l].steps|
  {
    var lessons := plan.units[u].lessons;
    var steps := lessons[l].steps;
    if s + 1 < |steps| then Ok(Position(u, l, s + 1))
    else if l + 1 < |lessons| then Ok(Position(u, l + 1, 0))
    else if u + 1 < |plan.units| then Ok(Position(u + 1, 0, 0))
    else
      var lastUnit := |plan.units| - 1;
      var lastLessons := plan.units[lastUnit].lessons;
      var lastLesson := if |lastLessons| > 0 then |lastLessons| - 1 else 0;
      var lesson :- GetLesson(plan, lastUnit, lastLesson);
      var lastSteps := lesson.steps;
      Ok(Position(lastUnit, lastLesson, if |lastSteps| > 0 then |lastSteps| - 1 else 0))
  }

  // ---------------------------------------------------------------------
  // A declarative view of the plan's shape, independent of Advance.

  function LessonsAt(plan: Plan, u: int): seq<Lesson> {
    if 0 <= u < |plan.units| then plan.units[u].lessons else []
  }

  function StepsAt(plan: Plan, u: int, l: int): seq<Step> {
    var lessons := LessonsAt(plan, u);
    if 0 <= l < |lessons| then lessons[l].steps else []
  }

  /** Each index of `p` clamped into its level of the plan, outermost first. */
  function ClampPos(plan: Plan, p: Position): Position {
    var u := Clamp(p.unit, |plan.units|);
    var l := Clamp(p.lesson, |LessonsAt(plan, u)|);
    Position(u, l, Clamp(p.step, |StepsAt(plan, u, l)|))
  }

  /** Every index lies inside its level, or is 0 where that level is empty. */
  predicate Normalized(plan: Plan, p: Position) {
    ClampPos(plan, p) == p
  }

  /** Clamping leaves no step to stand on: the plan has no units, or the clamped
      unit has no lessons, or the clamped lesson has no steps. */
  predicate Degenerate(plan: Plan, p: Position) {
    var c := ClampPos(plan, p);
    |StepsAt(plan, c.unit, c.lesson)| == 0
  }

  /** The step a clamped, non-degenerate position stands on. */
  function StepAt(plan: Plan, c: Position): Step
    requires 0 <= c.step < |StepsAt(plan, c.unit, c.lesson)|
  {
    StepsAt(plan, c.unit, c.lesson)[c.step]
  }

  /** `c` is the last step of the last lesson of the last unit. */
  predicate IsFinal(plan: Plan, c: Position) {
    && c.unit == |plan.units| - 1
    && c.lesson == |LessonsAt(plan, c.unit)| - 1
    && c.step == |StepsAt(plan, c.unit, c.lesson)| - 1
  }

  // ---------------------------------------------------------------------
  // Properties of a single advance.

  /** Clamping is idempotent: a clamped position is normalized. */
  lemma ClampPosNormalized(plan: Plan, p: Position)
    ensures Normalized(plan, ClampPos(plan, p))
  {
  }

  /** On a normalized position, the moves go strictly forward in document
      order to a normalized position, except at the final step where they stay. */
  lemma MoveForward(plan: Plan, u: int, l: int, s: int)
    requires 0 <= u < |plan.units|
    requires 0 <= l < |plan.units[u].lessons|
    requires 0 <= s < |plan.units[u].lessons[l].steps|
    ensures Move(plan, u, l, s).Ok?
    ensures IsFinal(plan, Position(u, l, s)) ==> Move(plan, u, l, s).value == Position(u, l, s)
    ensures !IsFinal(plan, Position(u, l, s)) ==>
              LexLess(Position(u, l, s), Move(plan, u, l, s).value)
    ensures Normalized(plan, Move(plan, u, l, s).value)
    ensures 0 <= Move(plan, u, l, s).value.unit < |plan.units|
  {
  }

  /** A missing plan fails with NotFound. */
  lemma AdvanceWithoutPlan(plans: map<string, Plan>, cohorts: Cohorts, id: string)
    requires id !in plans
    ensures Advance(plans, cohorts, id) == Err(NotFound("lesson plan"))
  {
  }

  /** No units, no lessons in the clamped unit, or no steps in the clamped
      lesson: advance writes nothing and raises nothing. */
  lemma AdvanceDegenerate(plans: map<string, Plan>, cohorts: Cohorts, id: string)
    requires id in plans
    requires Degenerate(plans[id], Stored(cohorts, id))
    ensures Advance(plans, cohorts, id) == Ok(cohorts)
  {
  }

  /** Standing on an explicit "end" step, advance stores the clamped triple
      and does not move. */
  lemma AdvanceAtEndStep(plans: map<string, Plan>, cohorts: Cohorts, id: string)
    requires id in plans
    requires !Degenerate(plans[id], Stored(cohorts, id))
    requires StepAt(plans[id], ClampPos(plans[id], Stored(cohorts, id))).kind == EndKind
    ensures Advance(plans, cohorts, id) == Ok(cohorts[id := ClampPos(plans[id], Stored(cohorts, id))])
  {
  }

  /** Anywhere else but the final step, advance stores a triple strictly after
      the clamped one in document order. */
  lemma AdvanceMovesForward(plans: map<string, Plan>, cohorts: Cohorts, id: string)
    requires id in plans
    requires !Degenerate(plans[id], Stored(cohorts, id))
    requires StepAt(plans[id], ClampPos(plans[id], Stored(cohorts, id))).kind != EndKind
    requires !IsFinal(plans[id], ClampPos(plans[id], Stored(cohorts, id)))
    ensures Advance(plans, cohorts, id).Ok?
    ensures var r := Advance(plans, cohorts, id).value;
            && r == cohorts[id := r[id]]
            && LexLess(ClampPos(plans[id], Stored(cohorts, id)), r[id])
            && Normalized(plans[id], r[id])
  {
    var plan := plans[id];
    var c := ClampPos(plan, Stored(cohorts, id));
    MoveForward(plan, c.unit, c.lesson, c.step);
  }

  /** On an ordinary (non-"end") step, advance stores exactly what the moves
      compute from the clamped triple. */
  lemma AdvanceOnOrdinaryStep(plans: map<string, Plan>, cohorts: Cohorts, id: string)
    requires id in plans
    requires !Degenerate(plans[id], Stored(cohorts, id))
    requires StepAt(plans[id], ClampPos(plans[id], Stored(cohorts, id))).kind != EndKind
    ensures var c := ClampPos(plans[id], Stored(cohorts, id));
            && Move(plans[id], c.unit, c.lesson, c.step).Ok?
            && Advance(plans, cohorts, id)
                 == Ok(cohorts[id := Move(plans[id], c.unit, c.lesson, c.step).value])
  {
    var plan := plans[id];
    var c := ClampPos(plan, Stored(cohorts, id));
    MoveForward(plan, c.unit, c.lesson, c.step);
  }

  /** At the last step of the last lesson of the last unit, advance stores
      the clamped triple: the final position is pinned. */
  lemma AdvanceAtFinal(plans: map<string, Plan>, cohorts: Cohorts, id: string)
    requires id in plans
    requires !Degenerate(plans[id], Stored(cohorts, id))
    requires IsFinal(plans[id], ClampPos(plans[id], Stored(cohorts, id)))
    ensures Advance(plans, cohorts, id) == Ok(cohorts[id := ClampPos(plans[id], Stored(cohorts, id))])
  {
    var plan := plans[id];
    var c := ClampPos(plan, Stored(cohorts, id));
    MoveForward(plan, c.unit, c.lesson, c.step);
  }

  /** With a plan present, advance never fails; it either leaves the store
      alone or rewrites only this cohort, to a normalized triple whose unit
      index is a valid unit. */
  lemma AdvanceShape(plans: map<string, Plan>, cohorts: Cohorts, id: string)
    requires id in plans
    ensures Advance(plans, cohorts, id).Ok?
    ensures var r := Advance(plans, cohorts, id).value;
            || r == cohorts
            || (&& r == cohorts[id := r[id]]
                && Normalized(plans[id], r[id])
                && 0 <= r[id].unit < |plans[id].units|)
  {
    var plan := plans[id];
    var c := ClampPos(plan, Stored(cohorts, id));
    if !Degenerate(plan, Stored(cohorts, id)) {
      ClampPosNormalized(plan, Stored(cohorts, id));
      MoveForward(plan, c.unit, c.lesson, c.step);
    }
  }

  /** A cohort with no entry advances exactly as one stored at the start,
      unless the plan is degenerate there (then nothing is written at all). */
  lemma AdvanceMissingEntry(plans: map<string, Plan>, cohorts: Cohorts, id: string)
    requires id in plans && id !in cohorts
    requires !Degenerate(plans[id], Start)
    ensures Advance(plans, cohorts, id) == Advance(plans, cohorts[id := Start], id)
  {
    var plan := plans[id];
    var created := cohorts[id := Start];
    assert Stored(cohorts, id) == Stored(created, id) == Start;
    var c := ClampPos(plan, Start);
    if StepAt(plan, c).kind == EndKind {
      AdvanceAtEndStep(plans, cohorts, id);
      AdvanceAtEndStep(plans, created, id);
      assert created[id := c] == cohorts[id := c];
    } else if IsFinal(plan, c) {
      AdvanceAtFinal(plans, cohorts, id);
      AdvanceAtFinal(plans, created, id);
      assert created[id := c] == cohorts[id := c];
    } else {
      MoveForward(plan, c.unit, c.lesson, c.step);
      var n := Move(plan, c.unit, c.lesson, c.step).value;
      assert Advance(plans, cohorts, id) == Ok(cohorts[id := n]);
      assert Advance(plans, created, id) == Ok(created[id := n]);
      assert created[id := n] == cohorts[id := n];
    }
  }

  /** Once advance has stopped (an "end" step or the final step), advancing
      again changes nothing. */
  lemma AdvanceIdempotentWhenStopped(plans: map<string, Plan>, cohorts: Cohorts, id: string)
    requires id in plans
    requires !Degenerate(plans[id], Stored(cohorts, id))
    requires var c := ClampPos(plans[id], Stored(cohorts, id));
             StepAt(plans[id], c).kind == EndKind || IsFinal(plans[id], c)
    ensures Advance(plans, cohorts, id).Ok?
    ensures var r := Advance(plans, cohorts, id).value;
            Advance(plans, r, id) == Ok(r)
  {
    var plan := plans[id];
    var c := ClampPos(plan, Stored(cohorts, id));
    MoveForward(plan, c.unit, c.lesson, c.step);
    var r := cohorts[id := c];
    assert Advance(plans, cohorts, id) == Ok(r);
    ClampPosNormalized(plan, Stored(cohorts, id));
    assert Stored(r, id) == c;
    if StepAt(plan, c).kind == EndKind {
      AdvanceAtEndStep(plans, r, id);
    } else {
      AdvanceAtFinal(plans, r, id);
    }
    assert r[id := c] == r;
  }

  /** Moving into a lesson of the same unit that has no steps stores a
      position that is degenerate, so every later advance is a no-op: the
      cohort stays there for good. */
  lemma StuckBeforeEmptyLesson(plans: map<string, Plan>, cohorts: Cohorts, id: string)
    requires id in plans
    requires !Degenerate(plans[id], Stored(cohorts, id))
    requires var c := ClampPos(plans[id], Stored(cohorts, id));
             && StepAt(plans[id], c).kind != EndKind
             && c.step == |StepsAt(plans[id], c.unit, c.lesson)| - 1
             && c.lesson + 1 < |LessonsAt(plans[id], c.unit)|
             && LessonsAt(plans[id], c.unit)[c.lesson + 1].steps == []
    ensures var c := ClampPos(plans[id], Stored(cohorts, id));
            var r := cohorts[id := Position(c.unit, c.lesson + 1, 0)];
            && Advance(plans, cohorts, id) == Ok(r)
            && Advance(plans, r, id) == Ok(r)
  {
    var plan := plans[id];
    var c := ClampPos(plan, Stored(cohorts, id));
    var r := cohorts[id := Position(c.unit, c.lesson + 1, 0)];
    assert Advance(plans, cohorts, id) == Ok(r);
    assert Degenerate(plan, Stored(r, id));
    AdvanceDegenerate(plans, r, id);
  }
  /** Moving past the last lesson of a unit into a next unit that has no
      lessons, or whose first lesson has no steps, is stuck the same way:
      the position stored is the next unit's start and every later advance
      leaves it there. */
  lemma StuckBeforeEmptyUnit(plans: map<string, Plan>, cohorts: Cohorts, id: string)
    requires id in plans
    requires !Degenerate(plans[id], Stored(cohorts, id))
    requires var c := ClampPos(plans[id], Stored(cohorts, id));
             && StepAt(plans[id], c).kind != EndKind
             && c.step == |StepsAt(plans[id], c.unit, c.lesson)| - 1
             && c.lesson == |LessonsAt(plans[id], c.unit)| - 1
             && c.unit + 1 < |plans[id].units|
             && (|LessonsAt(plans[id], c.unit + 1)| == 0 || LessonsAt(plans[id], c.unit + 1)[0].steps == [])
    ensures var c := ClampPos(plans[id], Stored(cohorts, id));
            var r := cohorts[id := Position(c.unit + 1, 0, 0)];
            && Advance(plans, cohorts, id) == Ok(r)
            && Advance(plans, r, id) == Ok(r)
  {
    var plan := plans[id];
    var c := ClampPos(plan, Stored(cohorts, id));
    var r := cohorts[id := Position(c.unit + 1, 0, 0)];
    assert Advance(plans, cohorts, id) == Ok(r);
    assert Degenerate(plan, Stored(r, id));
    AdvanceDegenerate(plans, r, id);
  }

}
