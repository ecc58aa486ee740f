/** The agent of llm_play: builds a short prompt from the mission and the
    observation, lets a text generator answer it, picks the first action
    phrase that occurs in the lower-cased answer (falling back to "done"),
    and steps the environment with it until the episode is done. */
module LlmPlay {
  import opened Vocabulary
  import opened Text
  import opened Prompts

  /** The text generator: the generated text of its `k`-th call in an
      episode (`k` counted from 0) for a given prompt. The call number stands
      for the sampling state, which changes from call to call. */
  type Generator = (nat, string) -> string

  // ---------------------------------------------------------------------
  // The prompt
  // ---------------------------------------------------------------------

  /** `obs_text`: the descriptions joined by line breaks, or a placeholder
      when there are none. */
  function ObsText(descriptions: seq<string>): string
  {
    if descriptions == [] then "No descriptions" else Join(descriptions, "\n")
  }

  /** Without descriptions the observation text is the placeholder. */
  lemma ObsTextEmpty(descriptions: seq<string>)
    requires descriptions == []
    ensures ObsText(descriptions) == "No descriptions"
  {
  }

  /** With descriptions the observation text is the text score_ollama_llm
      builds from the same descriptions without its final line break, and it
      holds every description. */
  lemma ObsTextLines(descriptions: seq<string>, k: nat)
    requires k < |descriptions|
    ensures ObsText(descriptions) + "\n" == Lines(descriptions)
    ensures Contains(ObsText(descriptions), descriptions[k])
  {
    LinesAsJoin(descriptions);
    JoinContainsParts(descriptions, "\n", k);
  }

  /** The keys of a list of dictionary items, in order. */
  function Keys(items: seq<(string, ActionId)>): (keys: seq<string>)
    ensures |keys| == |items|
    ensures forall i :: 0 <= i < |items| ==> keys[i] == items[i].0
  {
    if items == [] then [] else [items[0].0] + Keys(items[1..])
  }

  /** `text_to_action.keys()` lists the phrases in id order. */
  lemma ActionKeysArePhrases()
    ensures Keys(TextToActionItems) == Phrases
  {
    TextToActionItemsInOrder();
  }

  /** The fixed parts of the prompt of `llm_choose_action`, around the
      mission, the observation text and the action list. */
  const PromptHead: string := "You are an agent in a simple navigation game. Your goal is to: "
  const PromptObservation: string := ".\n\nCurrent observation:\n"
  const PromptChoices: string := "\n\nYou can choose ONE of these actions: "
  const PromptTail: string := ".\nWhich action will you take next? Respond with exactly one action from the list."

  /** The prompt of `llm_choose_action`. */
  function Prompt(mission: string, descriptions: seq<string>): string
  {
    PromptHead + mission + PromptObservation + ObsText(descriptions)
    + PromptChoices + Join(Keys(TextToActionItems), ", ") + PromptTail
  }

  /** A text built from fixed parts around a mission, an observation and a
      list of parts joined by ", " holds the mission, the observation, the
      joined list and each of its parts. */
  lemma {:induction false} Framed(a: string, mission: string, b: string, obs: string, c: string,
                                  parts: seq<string>, d: string, k: nat)
    requires k < |parts|
    ensures var text := a + mission + b + obs + c + Join(parts, ", ") + d;
      && Contains(text, mission) && Contains(text, obs)
      && Contains(text, Join(parts, ", ")) && Contains(text, parts[k])
  {
    var joined := Join(parts, ", ");
    var text := a + mission + b + obs + c + joined + d;
    ContainsMiddle(a, mission, b + obs + c + joined + d);
    assert text == a + mission + (b + obs + c + joined + d);
    ContainsMiddle(a + mission + b, obs, c + joined + d);
    assert text == (a + mission + b) + obs + (c + joined + d);
    ContainsMiddle(a + mission + b + obs + c, joined, d);
    JoinContainsParts(parts, ", ", k);
    ContainsExtend(a + mission + b + obs + c, joined, d, parts[k]);
  }

  /** The prompt states the mission and the observation text, and lists
      every action phrase, all of them joined by ", " in id order. */
  lemma PromptMentions(mission: string, descriptions: seq<string>, id: ActionId)
    ensures Contains(Prompt(mission, descriptions), mission)
    ensures Contains(Prompt(mission, descriptions), ObsText(descriptions))
    ensures Contains(Prompt(mission, descriptions), Join(Phrases, ", "))
    ensures Contains(Prompt(mission, descriptions), Phrases[id])
  {
    ActionKeysArePhrases();
    Framed(PromptHead, mission, PromptObservation, ObsText(descriptions), PromptChoices, Phrases, PromptTail, id);
  }

  // ---------------------------------------------------------------------
  // The matcher
  // ---------------------------------------------------------------------

  /** The first id, from `from` on, whose phrase occurs in `response`, or 6
      ("done") when there is none. */
  function MatchFrom(response: string, from: nat): ActionId
    requires from <= 7
    decreases 7 - from
  {
    if from == 7 then 6
    else if Contains(response, Phrases[from]) then from
    else MatchFrom(response, from + 1)
  }

  /** The action the matcher of `llm_choose_action` picks for a lower-cased
      response. */
  function MatchAction(response: string): ActionId
  {
    MatchFrom(response, 0)
  }

  /** From `from` on, the search skips only phrases that do not occur and
      stops at one that does, or falls back to 6 when none does. */
  lemma {:induction false} MatchFromFinds(response: string, from: nat)
    requires from <= 7
    ensures var id := MatchFrom(response, from);
      && (forall j :: from <= j < 7 && j < id ==> !Contains(response, Phrases[j]))
      && ((exists j :: from <= j < 7 && Contains(response, Phrases[j])) ==> from <= id && Contains(response, Phrases[id]))
      && ((forall j :: from <= j < 7 ==> !Contains(response, Phrases[j])) ==> id == 6)
    decreases 7 - from
  {
    if from < 7 && !Contains(response, Phrases[from]) {
      MatchFromFinds(response, from + 1);
      var id := MatchFrom(response, from + 1);
      forall j | from <= j < 7 && j < id
        ensures !Contains(response, Phrases[j])
      {
        if j != from {
          assert from + 1 <= j;
        }
      }
    }
  }

  /** The matcher picks the first phrase, in id order, that occurs in the
      response: no phrase before it occurs, and it occurs itself unless no
      phrase does, in which case the answer is 6 ("done"). */
  lemma MatchActionSpec(response: string)
    ensures forall j :: 0 <= j < MatchAction(response) ==> !Contains(response, Phrases[j])
    ensures (exists j :: 0 <= j < 7 && Contains(response, Phrases[j])) ==> Contains(response, Phrases[MatchAction(response)])
    ensures (forall j :: 0 <= j < 7 ==> !Contains(response, Phrases[j])) ==> MatchAction(response) == 6
  {
    MatchFromFinds(response, 0);
  }

  /** `llm_choose_action`: prompts the generator, lower-cases its text and
      returns the id of the first phrase of `text_to_action` that occurs in
      it, or 6 when none does. */
  method LlmChooseAction(generator: Generator, call: nat, mission: string, descriptions: seq<string>)
    returns (actionId: ActionId)
    ensures actionId == MatchAction(Lower(generator(call, Prompt(mission, descriptions))))
  {
    var prompt := Prompt(mission, descriptions);
    var response := Lower(generator(call, prompt));
    TextToActionItemsInOrder();
    for i := 0 to |TextToActionItems|
      invariant MatchFrom(response, i) == MatchAction(response)
    {
      var (actionStr, id) := TextToActionItems[i];
      if Contains(response, actionStr) {
        return id;
      }
    }
    return 6;
  }

  /** A response in which "turn left" occurs yields that action, the
      first of the vocabulary. */
  lemma FirstPhraseWins(response: string)
    requires Contains(response, Phrases[0])
    ensures MatchAction(response) == 0
  {
  }

  /** A text that starts with a text mentioning "turn left" still mentions
      it once lower-cased. */
  lemma EchoKeepsTurnLeft(prompt: string, continuation: string)
    requires Contains(prompt, Phrases[0])
    ensures Contains(Lower(prompt + continuation), Phrases[0])
  {
    ContainsExtend("", prompt, continuation, Phrases[0]);
    assert "" + prompt + continuation == prompt + continuation;
    LowerKeepsOccurrence(prompt + continuation, Phrases[0]);
  }

  /** A generated text that starts with the prompt itself always yields
      "turn left": the prompt lists that phrase first. */
  lemma EchoedPromptPicksTurnLeft(mission: string, descriptions: seq<string>, continuation: string)
    ensures MatchAction(Lower(Prompt(mission, descriptions) + continuation)) == 0
  {
    PromptMentions(mission, descriptions, 0);
    EchoKeepsTurnLeft(Prompt(mission, descriptions), continuation);
    FirstPhraseWins(Lower(Prompt(mission, descriptions) + continuation));
  }

  // ---------------------------------------------------------------------
  // The label of an action
  // ---------------------------------------------------------------------

  /** The number a string of decimal digits denotes. */
  function DigitsValue(s: string): nat
  {
    if s == [] then 0
    else DigitsValue(s[..|s| - 1]) * 10 + (if '0' <= s[|s| - 1] <= '9' then s[|s| - 1] as int - '0' as int else 0)
  }

  /** The decimal digits of `n`, as `str(n)` writes them: a non-empty string
      of digits that reads back as `n`. */
  function Digits(n: nat): (r: string)
    ensures r != [] && forall i :: 0 <= i < |r| ==> '0' <= r[i] <= '9'
    ensures DigitsValue(r) == n
  {
    if n < 10 then [(n + '0' as int) as char]
    else
      var d := Digits(n / 10);
      var r := d + [(n % 10 + '0' as int) as char];
      assert r[..|r| - 1] == d;
      r
  }

  /** `action_to_text.get(action_id, f"Unknown({action_id})")`. */
  function ActionLabel(id: int): string
  {
    if 0 <= id < 7 then ActionToText[id]
    else "Unknown(" + (if id < 0 then "-" + Digits(-id) else Digits(id)) + ")"
  }

  /** The label of an action id is its phrase, and only ids of the
      vocabulary get a phrase as their label. */
  lemma ActionLabelIsPhrase(id: int)
    ensures 0 <= id < 7 ==> ActionLabel(id) == Phrases[id]
    ensures ActionLabel(id) in Phrases <==> 0 <= id < 7
  {
    if !(0 <= id < 7) {
      var text := ActionLabel(id);
      assert text[0] == 'U';
      forall k | 0 <= k < 7 ensures Phrases[k] != text {
        assert Phrases[k][0] != 'U';
      }
    }
  }

  /** The labels the steps of an episode log for its actions, in order. */
  function Labels(actions: seq<ActionId>): (labels: seq<string>)
    ensures |labels| == |actions|
  {
    if actions == [] then [] else Labels(actions[..|actions| - 1]) + [ActionLabel(actions[|actions| - 1])]
  }

  /** Every step logs the phrase of its action. */
  lemma {:induction false} LabelsArePhrases(actions: seq<ActionId>)
    ensures forall i :: 0 <= i < |actions| ==> Labels(actions)[i] == Phrases[actions[i]] && Labels(actions)[i] in Phrases
  {
    if actions != [] {
      var init := actions[..|actions| - 1];
      LabelsArePhrases(init);
      ActionLabelIsPhrase(actions[|actions| - 1]);
      assert forall i :: 0 <= i < |init| ==> actions[i] == init[i];
    }
  }

  /** Logging one more step appends the label of its action. */
  lemma LabelsSnoc(actions: seq<ActionId>, id: ActionId, taken: seq<ActionId>, logged: string)
    requires taken == actions + [id] && logged == ActionLabel(id)
    ensures Labels(taken) == Labels(actions) + [logged]
  {
    assert taken[..|taken| - 1] == actions;
  }

  // ---------------------------------------------------------------------
  // One episode
  // ---------------------------------------------------------------------

  /** What `env.step` returns that `run_episode` reads: the descriptions of
      the new `info`, if it has any, the reward and `done`. */
  datatype Outcome = Outcome(descriptions: Option<seq<string>>, reward: real, done: bool)

  /** The environment of llm_play: the mission and descriptions `env.reset()`
      returns, if present, and `step(acts)`, the answer to the last action of
      `acts`, the actions taken so far in the episode; `maxSteps` is the
      environment's step limit. It is a type of its own rather than
      `Collaborators.Environment` because run_episode reads the mission and
      the descriptions with defaults (`obs.get("mission", ...)`,
      `info.get("descriptions", [])`), so either may be missing, and because it
      plays a single episode. Its `Step` forces `done` at the step limit
      just as `Environment.Step` does. */
  datatype PlayEnvironment = PlayEnvironment(
    mission: Option<string>,
    descriptions: Option<seq<string>>,
    step: seq<ActionId> -> Outcome,
    maxSteps: nat)
  {
    /** One `env.step` call, with `done` forced once the episode has used up
        its step limit. */
    function Step(actions: seq<ActionId>): (r: Outcome)
      ensures r.descriptions == step(actions).descriptions && r.reward == step(actions).reward
      ensures r.done <==> step(actions).done || |actions| >= maxSteps
    {
      var r := step(actions);
      if |actions| >= maxSteps then r.(done := true) else r
    }
  }

  /** `obs.get("mission", "No mission provided")`. */
  function MissionOf(mission: Option<string>): string
  {
    if mission.Some? then mission.value else "No mission provided"
  }

  /** `info.get("descriptions", [])`. */
  function DescriptionsOf(descriptions: Option<seq<string>>): seq<string>
  {
    if descriptions.Some? then descriptions.value else []
  }

  /** How an agent picks the action of its `k`-th step (counted from 0) for
      a mission and the current descriptions. */
  type Policy = (nat, string, seq<string>) -> ActionId

  /** The policy of `llm_choose_action` with a given generator. */
  function LlmPolicy(generator: Generator): Policy
  {
    (call: nat, mission: string, descriptions: seq<string>) =>
      MatchAction(Lower(generator(call, Prompt(mission, descriptions))))
  }

  /** The actions of the rest of an episode, after `actions`, with the
      current observation described by `descriptions`: one per environment
      step, each picked by the policy, until the environment reports the
      episode done. */
  function Moves(policy: Policy, env: PlayEnvironment, mission: string, descriptions: seq<string>,
                 actions: seq<ActionId>): (all: seq<ActionId>)
    ensures |actions| < |all| && all[..|actions|] == actions
    decreases env.maxSteps - |actions|
  {
    var taken := actions + [policy(|actions|, mission, descriptions)];
    var outcome := env.Step(taken);
    if outcome.done then taken
    else
      var all := Moves(policy, env, mission, DescriptionsOf(outcome.descriptions), taken);
      assert all[..|actions|] == all[..|taken|][..|actions|];
      all
  }

  /** An episode ends at the first step the environment reports as done,
      and so takes at most as many steps as the environment's limit allows
      (and at least one). */
  lemma {:induction false} MovesEndAtDone(policy: Policy, env: PlayEnvironment, mission: string,
                                          descriptions: seq<string>, actions: seq<ActionId>)
    ensures var all := Moves(policy, env, mission, descriptions, actions);
      && env.Step(all).done
      && (forall j :: |actions| < j < |all| ==> !env.Step(all[..j]).done)
      && |all| <= (if |actions| < env.maxSteps then env.maxSteps else |actions| + 1)
    decreases env.maxSteps - |actions|
  {
    var taken := actions + [policy(|actions|, mission, descriptions)];
    var outcome := env.Step(taken);
    if !outcome.done {
      var rest := DescriptionsOf(outcome.descriptions);
      MovesEndAtDone(policy, env, mission, rest, taken);
      var all := Moves(policy, env, mission, rest, taken);
      forall j | |actions| < j < |all| ensures !env.Step(all[..j]).done {
        if j == |taken| {
          assert all[..j] == taken;
        }
      }
    }
  }

  /** One pass of the loop of `run_episode` moves from the rest of the
      episode to the rest after the action it takes. */
  lemma MovesStep(policy: Policy, env: PlayEnvironment, mission: string, descriptions: seq<string>,
                  actions: seq<ActionId>, id: ActionId, taken: seq<ActionId>, outcome: Outcome)
    requires id == policy(|actions|, mission, descriptions)
    requires taken == actions + [id] && outcome == env.Step(taken)
    ensures Moves(policy, env, mission, descriptions, actions)
            == if outcome.done then taken
               else Moves(policy, env, mission, DescriptionsOf(outcome.descriptions), taken)
  {
  }

  /** The action `llm_choose_action` picks is the one of the policy. */
  lemma LlmPolicyPicks(generator: Generator, call: nat, mission: string, descriptions: seq<string>, id: ActionId)
    requires id == MatchAction(Lower(generator(call, Prompt(mission, descriptions))))
    ensures id == LlmPolicy(generator)(call, mission, descriptions)
  {
  }

  /** `run_episode`: resets the environment, then asks for an action and
      steps the environment with it until the episode is done, counting the
      steps. Returns the step count, the actions sent to the environment and
      the label each step logs (lemma LabelsArePhrases shows each is the
      phrase of its action). */
  method RunEpisode(generator: Generator, env: PlayEnvironment)
    returns (step: nat, actions: seq<ActionId>, labels: seq<string>)
    ensures actions == Moves(LlmPolicy(generator), env, MissionOf(env.mission), DescriptionsOf(env.descriptions), [])
    ensures step == |actions|
    ensures labels == Labels(actions)
  {
    var done := false;
    step := 0;
    var mission := MissionOf(env.mission);
    var info := env.descriptions;
    actions, labels := [], [];
    ghost var policy := LlmPolicy(generator);
    ghost var target := Moves(policy, env, mission, DescriptionsOf(info), []);
    while !done
      invariant step == |actions| && labels == Labels(actions)
      invariant !done ==> |actions| <= env.maxSteps
      invariant !done ==> target == Moves(policy, env, mission, DescriptionsOf(info), actions)
      invariant done ==> target == actions
      decreases if done then 0 else env.maxSteps - |actions| + 1
    {
      ghost var before := actions;
      step := step + 1;
      var descriptions := DescriptionsOf(info);
      var actionId := LlmChooseAction(generator, |actions|, mission, descriptions);
      LlmPolicyPicks(generator, |before|, mission, descriptions, actionId);
      var actionStr := ActionLabel(actionId);
      actions := actions + [actionId];
      labels := labels + [actionStr];
      LabelsSnoc(before, actionId, actions, actionStr);
      var outcome := env.Step(actions);
      done := outcome.done;
      info := outcome.descriptions;
      MovesStep(policy, env, mission, descriptions, before, actionId, actions, outcome);
    }
  }
}
