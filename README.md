# Language-model agents for BabyAI-Text, in Dafny

This project models the two agents of the repository that let a language model
play BabyAI text games:

- `score_ollama_llm.py`, the scoring loop. It runs `num_episodes` episodes. In
  each one a chat model gets the game's instructions and the observations as a
  conversation and must answer with exactly one of seven action phrases. A
  reply that is not a phrase is counted, answered with a corrective message and
  asked again. When one step has drawn `max_invalid_per_step` rejected
  replies, the episode is abandoned with reward 0. The loop returns the reward
  and the number of rejected replies of every episode, as two parallel lists.
- `llm_play.py`, the text-generation player. For every step it builds a prompt
  from the mission, the observation and the action list, and picks the first
  action phrase, in vocabulary order, that occurs in the lower-cased generated
  text. When none occurs it picks "done". It counts the steps of the episode.

The model is in seven modules:

- `Vocabulary` (vocabulary.dfy): the `action_to_text` and `text_to_action`
  dictionaries, and `parse_action`.
- `Text` (text.dfy): `str.join`, the `in` substring test, `lower()`, `strip()`
  and the cleaning of replies.
- `Prompts` (prompts.dfy): `get_instructions`, `parse_observation` and
  `invalid_action_message`.
- `Collaborators` (collaborators.dfy): chat messages, the chat model and the
  environment, as oracles.
- `Scoring` (scoring.dfy): the three nested loops of `score_ollama_llm`. They
  are the methods `DecideAction`, `RunEpisode` and `ScoreOllamaLlm`, each
  proved equal to a recursive definition (`Decide`, `Play`/`Episode`,
  `RunFrom`/`Runs`). The properties of these definitions are proved as lemmas.
- `LlmPlay` (llm_play.dfy): the prompt, the matcher `llm_choose_action` (a
  method with its loop), the action labels and `run_episode` (a method with its
  loop).
- `Scenarios` (scenarios.dfy): particular conversations worked out from the
  `Scoring` definitions.

The collaborators the code cannot see are parameters:

- The chat model is the function `Model`, from the number of a request within
  the scoring run to its raw reply. For a fixed environment, the conversation
  at each request is fixed by the replies before it. So an oracle indexed by
  request number can stand for any deterministic model.
- The text generator of `llm_play.py` is the function `Generator`, from the
  call number and the prompt to the generated text.
- The environment is a value with `reset` and `step` functions and a step
  limit, after which it reports the episode done (BabyAI's `max_steps`).

The scoring definitions are stated over any `Protocol`: a parser, a
corrective message, an instruction builder and an observation renderer. The
methods run with `SourceProtocol`, the protocol of `score_ollama_llm.py`.

Three behaviours of the code worth noting:

- The scoring loop accepts a reply only when it is exactly an action phrase,
  through a dictionary lookup (`score_ollama_llm.py:92`). It does not accept a
  reply that merely contains one. `Scenarios.ContainingIsNotEnough` shows such
  a reply being rejected. `llm_play.py`, by contrast, matches substrings.
- The instruction text lists six actions and their descriptions. It leaves out
  "done".
- A step makes at most `max(max_invalid_per_step, 1)` requests, not
  `max_invalid_per_step`. The first request is made before the counter is
  checked, so a limit of 0 or less still allows one request.

A consequence of the matcher is proved as `LlmPlay.EchoedPromptPicksTurnLeft`.
A text-generation pipeline returns the prompt followed by its continuation by
default. When the generator's text starts with the prompt, "turn left" always
occurs in it, because the prompt lists that phrase first. So the agent then
always chooses action 0, whatever the continuation says.

## Model

The loop proofs also use one-case unfoldings of the recursive definitions,
which state no property of their own and have no row below:
`Scoring.DecideGivesUp`, `Scoring.DecideRetries` and `Scoring.DecideAccepts`
(the three branches of one request, score_ollama_llm.py:92-107),
`Scoring.PlayAbandons` and `Scoring.PlayTakes` (the two ends of a step,
score_ollama_llm.py:111-131), `LlmPlay.MovesStep` (one pass of the loop of
`run_episode`) and `LlmPlay.LlmPolicyPicks` (the action of
`llm_choose_action` as the agent's policy).

| member | source | states |
|---|---|---|
| Vocabulary.PhrasesDistinct | score_ollama_llm.py:11-19 | the seven action phrases are pairwise distinct |
| Vocabulary.ActionToTextInjective | score_ollama_llm.py:11-19 | two action ids have the same phrase exactly when they are the same id |
| Vocabulary.LookupPhrase | score_ollama_llm.py:20 | every phrase is a key of `text_to_action` and maps back to its own id |
| Vocabulary.TextToActionInverse | score_ollama_llm.py:11-20 | `text_to_action` and `action_to_text` are inverse to each other both ways, and the keys of `text_to_action` are exactly the phrases |
| Vocabulary.LookupFinds | score_ollama_llm.py:57 | the search from an id on returns an id whose phrase is the text, or nothing exactly when no phrase from that id on is the text |
| Vocabulary.ParseActionSpec | score_ollama_llm.py:53-57 | `parse_action` succeeds exactly when the text is an action phrase, and then returns that phrase's id |
| Vocabulary.ParseActionIsLookup | score_ollama_llm.py:57 | `parse_action` is `text_to_action.get(action, None)` |
| Vocabulary.ParseActionExact | score_ollama_llm.py:53-57 | `parse_action` returns id `i` exactly when the text equals phrase `i`, with no substring match |
| Vocabulary.TextToActionItemsInOrder | llm_play.py:19 | the items of `text_to_action` come in id order, and each pairs a phrase with the id it maps to |
| Text.JoinContainsParts | llm_play.py:45-47 | every part of a `sep.join(parts)` occurs in it |
| Text.LowerKeepsOccurrence | llm_play.py:64-68 | an occurrence of a lower-case phrase in a text survives lower-casing the text |
| Text.StripTrims | score_ollama_llm.py:106 | `strip()` returns a slice of its input with only white space outside the slice |
| Text.StripEnds | score_ollama_llm.py:106 | a non-empty stripped text neither starts nor ends with white space |
| Text.NormalizeIsLowerStrip | score_ollama_llm.py:106 | the cleaning of a reply equals `reply.lower().strip()` |
| Prompts.InstructionsDetermineGoal | score_ollama_llm.py:24-41 | the instructions hold the goal in bold at a fixed position, and different goals give different instructions |
| Prompts.ParseObservation | score_ollama_llm.py:43-50 | the loop builds the text of the descriptions, each followed by a newline |
| Prompts.LinesAsJoin | score_ollama_llm.py:43-50 | the observation text is empty exactly when there are no descriptions, and is otherwise the descriptions joined by newlines plus a final newline |
| Prompts.LinesContainDescription | score_ollama_llm.py:48-49 | every description occurs in the observation text, followed by a newline |
| Prompts.InvalidActionMessageListsPhrases | score_ollama_llm.py:59-60 | the corrective message names every action phrase |
| Scoring.DecideShape | score_ollama_llm.py:89-109 | a step makes between 1 and `max(max_invalid_per_step, 1)` requests. Every reply but the last is rejected. The step takes the last reply's action exactly when that reply parses. It abandons the episode exactly when the per-step counter reaches `max(max_invalid_per_step, 1)` |
| Scoring.DecideRejected | score_ollama_llm.py:90-95 | the per-step counter starts at 0 and ends at the number of rejected replies of the step |
| Scoring.DecideAssistants | score_ollama_llm.py:105-107 | a step appends its replies, in order, as assistant messages |
| Scoring.DecideUsers | score_ollama_llm.py:102 | a step appends one corrective user message per rejected reply, except the reply that abandons the episode |
| Scoring.ExchangeAssistants | score_ollama_llm.py:105-107 | the assistant messages of a step's exchange are its replies in order |
| Scoring.ExchangeUsers | score_ollama_llm.py:102 | the exchange of a step of `n` requests has `n - 1` corrective user messages |
| Scoring.LogObservation | score_ollama_llm.py:119-120 | logging an observation adds one user message and no assistant message |
| Scoring.PlayShape | score_ollama_llm.py:86-131 | the log and the action list only grow. An abandoned episode records reward 0 and its last step sends no action. Any other episode ends at the first step the environment reports done, and records that step's reward |
| Scoring.PlayReplies | score_ollama_llm.py:105-107 | the assistant messages an episode adds are all its replies, in request order |
| Scoring.PlayRejected | score_ollama_llm.py:81-94 | the episode's invalid counter grows by exactly the number of rejected replies |
| Scoring.PlayUsers | score_ollama_llm.py:102-120 | the user messages an episode adds are one per environment step plus one per rejected reply, less the abandoning one |
| Scoring.EpisodeLog | score_ollama_llm.py:72-131 | the conversation starts with the system instructions and the first observation, and then holds every reply as an assistant message. The invalid count starts at 0 and equals the number of rejected replies. The user messages are counted as in `PlayUsers` |
| Scoring.RunFrom | score_ollama_llm.py:70 | a run of `count` episodes has `count` entries |
| Scoring.RunFromAt | score_ollama_llm.py:70 | entry `i` of a run is episode `i`, starting with the request after the previous episode's last |
| Scoring.RecordOne | score_ollama_llm.py:112-113 | recording an episode appends its reward and its invalid count to the two lists |
| Scoring.ScoreShape | score_ollama_llm.py:63-133 | both lists have one entry per episode of `range(num_episodes)`, in episode order. Entry `i` holds episode `i`'s reward (0 when it was abandoned) and its number of rejected replies |
| Scoring.DecideAction | score_ollama_llm.py:89-109 | the retry loop computes `Decide`, appends `Exchange` to the conversation and adds the per-step counter to the episode counter |
| Scoring.RunEpisode | score_ollama_llm.py:72-131 | the loop over the steps of an episode computes `Episode` |
| Scoring.ScoreOllamaLlm | score_ollama_llm.py:63-133 | the scoring run returns the rewards and the invalid counts of `Runs`, the episodes in order |
| Scenarios.ContainingIsNotEnough | score_ollama_llm.py:53-57 | "go forward." contains a phrase but does not parse |
| Scenarios.RejectedTwiceThenToggle | score_ollama_llm.py:89-109 | the replies "fly", "fly", "toggle" with a limit of 5 take action 5 after three requests with a per-step count of 2, and log the three replies with a correction after each of the first two |
| Scenarios.SingleRejectionAbandons | score_ollama_llm.py:92-114 | with a limit of 1 or less, a first rejected reply ends the episode after one request: reward 0, no action, one rejected reply, only that reply added to the conversation |
| Scenarios.GoForwardOnce | score_ollama_llm.py:86-131 | a model answering "go forward" in an environment that ends after one step with reward 1 gives reward 1 and no rejected reply |
| LlmPlay.ObsTextEmpty | llm_play.py:48 | without descriptions the observation text is "No descriptions" |
| LlmPlay.ObsTextLines | llm_play.py:48 | with descriptions the observation text is the scoring loop's observation text without its final newline, and it holds every description |
| LlmPlay.ActionKeysArePhrases | llm_play.py:45-47 | the keys of `text_to_action`, in order, are the seven phrases in id order |
| LlmPlay.PromptMentions | llm_play.py:50-55 | the prompt holds the mission, the observation text, the phrases joined by ", " in id order, and hence every phrase |
| LlmPlay.MatchFromFinds | llm_play.py:66-73 | the search from an id on skips only phrases absent from the response. It returns a phrase that occurs if one does, and 6 if none does |
| LlmPlay.MatchActionSpec | llm_play.py:66-73 | the chosen action is the first phrase, in id order, that occurs in the response. No earlier phrase occurs, and the answer is 6 ("done") when no phrase occurs |
| LlmPlay.LlmChooseAction | llm_play.py:36-73 | the matching loop over `text_to_action.items()` returns the action `MatchAction` picks for the lower-cased generated text |
| LlmPlay.FirstPhraseWins | llm_play.py:67-69 | a response containing "turn left" yields action 0 |
| LlmPlay.EchoedPromptPicksTurnLeft | llm_play.py:50-69 | a generated text that starts with the prompt always yields action 0 |
| LlmPlay.Digits | llm_play.py:102 | `str(n)` of a natural number is a non-empty string of decimal digits that reads back as `n` |
| LlmPlay.ActionLabelIsPhrase | llm_play.py:102 | the label of an id in 0..6 is its phrase, and only such ids get a phrase as their label |
| LlmPlay.Labels | llm_play.py:102 | an episode logs one label per action |
| LlmPlay.LabelsArePhrases | llm_play.py:101-102 | every label the episode logs is the phrase of its action, never "Unknown(...)" |
| LlmPlay.Moves | llm_play.py:93-105 | the actions of the rest of an episode extend the actions so far by at least one |
| LlmPlay.MovesEndAtDone | llm_play.py:93-105 | an episode's actions end at the first step the environment reports done, and never exceed the step limit |
| LlmPlay.RunEpisode | llm_play.py:76-113 | the episode loop sends exactly the actions of `Moves`, using the mission of the first observation. Its step counter equals the number of `env.step` calls, and it labels each step with its action's phrase |

## Left out

- The printing of `verbose`, the `tqdm` progress bar and every `print` of
  `llm_play.py` are left out. This includes its `parse_observation`
  (llm_play.py:22-33), which only prints, and the final message of
  `run_episode`.
- The chat client (`ollama.chat`) and the text-generation pipeline
  (`transformers.pipeline`) are oracles. The sampling settings
  (`max_new_tokens`, `do_sample`, `top_p`, `truncation`) and client errors or
  timeouts are not modelled.
- `gym.make`, `env.seed(0)` and the `env_name` parameter (the source ignores it
  and always makes "BabyAI-GoToObj-v0") are not modelled. The environment is a
  parameter, and its rewards are opaque real numbers.
- The source loops until the environment reports done. The model assumes the
  environment's step limit forces done, as BabyAI's `max_steps` does, so
  every episode ends. An environment without a step limit is not modelled.
- `main()` of `llm_play.py` and `human_play.py` are not part of this model.
- The model's `lower()` maps only the ASCII capitals. Python's `str.lower()`
  also maps other Unicode letters. `strip()` uses Python's set of white-space
  characters.
- The unused `possible_actions` string (llm_play.py:45-47) is the same join of
  the keys that the prompt uses, so `ActionKeysArePhrases` covers it. The
  observation dictionaries returned by `env.reset`/`env.step` are reduced to
  the mission and the descriptions.
- The forced reward is the integer `0` in the source and the real `0.0` here.
