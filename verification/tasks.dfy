/** The one record both halves of the widget exchange: a task of the checklist. */
module Tasks {

  /** `{text, completed}`: the shape the browser serialises and the server stores. */
  datatype Task = Task(text: string, completed: bool)

  /** How many tasks of `ts` are marked completed. */
  function CountDone(ts: seq<Task>): (n: nat)
    ensures n <= |ts|
  {
    if ts == [] then 0 else (if ts[0].completed then 1 else 0) + CountDone(ts[1..])
  }
}
