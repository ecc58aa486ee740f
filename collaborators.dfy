/** The conversation messages and the two external collaborators of the
    agents: the language model and the BabyAI text environment, both given
    as oracles. */
module Collaborators {
  import opened Vocabulary

  datatype Role = System | User | Assistant

  /** One chat message, `{"role": ..., "content": ...}`. */
  datatype Message = Message(role: Role, content: string)

  /** The language model as seen by one scoring run: the raw text of its
      answer to the k-th chat request of the run (k counted from 0). */
  type Model = nat -> string

  /** What `env.reset()` yields: the mission of the new episode and the
      textual descriptions of the first observation. */
  datatype Reset = Reset(mission: string, descriptions: seq<string>)

  /** What `env.step(action)` yields, without the unused observation dict. */
  datatype StepResult = StepResult(descriptions: seq<string>, reward: real, done: bool)

  /** The BabyAI environment. `reset(e)` starts episode `e`; `step(e, acts)`
      answers the last action of `acts`, the actions taken so far in episode
      `e`; `maxSteps` is the environment's step limit. */
  datatype Environment = Environment(
    reset: nat -> Reset,
    step: (nat, seq<ActionId>) -> StepResult,
    maxSteps: nat)
  {
    /** One `env.step` call: the simulator's answer, with `done` forced once
        the episode has used up its step limit. */
    function Step(episode: nat, actions: seq<ActionId>): (r: StepResult)
      ensures r.descriptions == step(episode, actions).descriptions
      ensures r.reward == step(episode, actions).reward
      ensures r.done <==> step(episode, actions).done || |actions| >= maxSteps
    {
      var r := step(episode, actions);
      if |actions| >= maxSteps then r.(done := true) else r
    }
  }
}
