/** The part of `workflow.json` the synchroniser interprets: the step
    records under `workflow.definition.steps`. Everything else in the
    document is carried as an uninterpreted JSON remainder. */
module Workflow {
  import opened Results

  /** A JSON value. Numbers are kept as their literal text. */
  datatype Json =
    | Null
    | Bool(b: bool)
    | Number(literal: string)
    | String(s: string)
    | Array(items: seq<Json>)
    | Object(members: seq<(string, Json)>)

  /** The `instruction` member of a step: missing, or present with some
      value (possibly `null`). */
  datatype Field = Absent | Present(value: Json)

  /** A step record: its `id`, its `instruction`, and all its other
      members, which the synchroniser never touches. */
  datatype Step = Step(id: string, instruction: Field, others: seq<(string, Json)>)

  /** The loaded document. `steps` is `None` when the path
      `workflow.definition.steps` does not exist; `rest` is the document
      with that list left out. */
  datatype Document = Document(steps: Option<seq<Step>>, rest: Json)

  /** `step.get("instruction") is not None`: the member is there and is not
      `null`. */
  predicate HasInstruction(st: Step): (b: bool)
    ensures !b <==> st.instruction == Absent || st.instruction == Present(Null)
  {
    st.instruction.Present? && st.instruction.value != Null
  }

  /** `step["instruction"] = content`. */
  function WithInstruction(st: Step, content: string): (r: Step)
    ensures r.id == st.id && r.others == st.others
    ensures HasInstruction(r) && r.instruction.value == String(content)
  {
    st.(instruction := Present(String(content)))
  }
}
