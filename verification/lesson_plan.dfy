/** Lesson plans: an immutable unit -> lesson -> step hierarchy, one plan per
    cohort, and the two accessors the progression machine reads it through. */
module LessonPlan {
  import opened Results

  /** A teaching step. `kind` is the JSON `type` tag ("explain", "example",
      "check_question", "end", ...); only "end" means anything to the core. */
  datatype Step = Step(kind: string, text: string)

  /** A missing `steps` / `lessons` / `units` field is the empty sequence: every
      reader in the core uses `.get(field, [])`. */
  datatype Lesson = Lesson(title: string, objectives: seq<string>, steps: seq<Step>)
  datatype Unit = Unit(title: string, lessons: seq<Lesson>)
  datatype Plan = Plan(subject: string, year: string, term: string, units: seq<Unit>)

  const EndKind: string := "end"

  /** The terminal step reported past the last step of a lesson. */
  const EndStep: Step := Step(EndKind, "Lesson completed.")

  /** `load_plan`: plans are stored one per cohort id. */
  function LoadPlan(plans: map<string, Plan>, cohortId: string): (r: Result<Plan>)
    ensures cohortId !in plans ==> r == Err(NotFound("lesson plan"))
    ensures cohortId in plans ==> r == Ok(plans[cohortId])
  {
    Load(plans, cohortId, "lesson plan")
  }

  /** `get_lesson`: `plan["units"][u]["lessons"][l]` with Python subscripts. */
  function GetLesson(plan: Plan, u: int, l: int): (r: Result<Lesson>)
    ensures (u < -|plan.units| || |plan.units| <= u) ==> r == Err(IndexOutOfRange)
    ensures -|plan.units| <= u < |plan.units| ==>
              var ls := plan.units[if u < 0 then |plan.units| + u else u].lessons;
              && (0 <= l < |ls| ==> r == Ok(ls[l]))
              && (-|ls| <= l < 0 ==> r == Ok(ls[|ls| + l]))
              && (l < -|ls| || |ls| <= l ==> r == Err(IndexOutOfRange))
  {
    var unit :- Subscript(plan.units, u);
    Subscript(unit.lessons, l)
  }

  /** `get_step`: an index at or past the end yields the synthetic end step;
      a negative index is a Python subscript from the end. */
  function GetStep(lesson: Lesson, i: int): (r: Result<Step>)
    ensures |lesson.steps| <= i ==> r == Ok(EndStep)
    ensures 0 <= i < |lesson.steps| ==> r == Ok(lesson.steps[i])
    ensures -|lesson.steps| <= i < 0 ==> r == Ok(lesson.steps[|lesson.steps| + i])
    ensures i < -|lesson.steps| ==> r == Err(IndexOutOfRange)
  {
    if i >= |lesson.steps| then Ok(EndStep) else Subscript(lesson.steps, i)
  }

  /** A lesson without steps is already complete: every non-negative index
      reports the end step, and nothing else can be returned. */
  lemma GetStepOfEmptyLesson(lesson: Lesson, i: int)
    requires lesson.steps == []
    ensures 0 <= i ==> GetStep(lesson, i) == Ok(EndStep)
    ensures GetStep(lesson, i).Ok? ==> GetStep(lesson, i).value == EndStep
  {
  }
}
