/**
 * What the trainer receives from a topic module: the settings object, the
 * result of `task.generate()` and the result of `isAnswerCorrect`. The task
 * definitions themselves stay opaque (a type parameter), and the topic's
 * functions become function-typed parameters of the operations that call them.
 */
module Topic {
  import opened Common

  /** `trainerSettings`; an absent property is `None`. */
  datatype Settings = Settings(
    title: Option<string>,
    subtitle: Option<string>,
    totalTime: Option<int>,
    problemsToSelect: Option<int>)

  /** What `task.generate()` returns. */
  datatype Generated<V> = Generated(problemText: string, variables: V)

  /** What `isAnswerCorrect(answer, task, variables)` returns. */
  datatype Verdict = Verdict(correct: bool, correctAnswerText: string)

  /** JavaScript `x || d` for a number setting: `undefined` and `0` are falsy. */
  function NumberOr(x: Option<int>, d: int): (r: int)
    ensures r == d || x == Some(r)
    ensures d != 0 ==> r != 0
  {
    if x.Some? && x.value != 0 then x.value else d
  }

  /** JavaScript `x || d` for a string setting: `undefined` and `""` are falsy. */
  function TextOr(x: Option<string>, d: string): (r: string)
    ensures r == d || x == Some(r)
    ensures d != "" ==> r != ""
  {
    if x.Some? && x.value != "" then x.value else d
  }
}
