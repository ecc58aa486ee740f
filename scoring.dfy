/** The scoring loop of score_ollama_llm: runs a number of BabyAI episodes
    with a language model choosing the actions, rejects replies that are not
    exactly an action phrase, abandons an episode once one step has drawn too
    many rejected replies, and records the reward and the number of rejected
    replies of every episode.

    The three nested loops of the source are three methods here, each proved
    equal to a recursive specification function: DecideAction (the retry
    loop of one step) against Decide, RunEpisode (the loop over the steps of
    an episode) against Play, and ScoreOllamaLlm (the loop over episodes)
    against RunFrom. */
module Scoring {
  import opened Vocabulary
  import opened Text
  import opened Prompts
  import opened Collaborators

  /** `max(n, 1)`: how many requests one step may make at most. */
  function AtLeastOne(n: int): nat
  {
    if n > 1 then n else 1
  }

  /** The replies of a model as the loop checks and records them: the reply
      to request `k`, lower-cased and stripped. The specification functions
      below are stated over any such oracle of cleaned replies. */
  function Cleaned(model: Model): nat -> string
  {
    (k: nat) => Normalize(model(k))
  }

  /** `replies` holds the cleaned replies of `model`. The loops below are
      stated over such an oracle. */
  ghost predicate Cleans(model: Model, replies: nat -> string)
  {
    forall k: nat {:trigger Normalize(model(k))} :: replies(k) == Normalize(model(k))
  }

  /** The cleaned replies of a model are such an oracle. */
  lemma CleanedCleans(model: Model)
    ensures Cleans(model, Cleaned(model))
  {
  }

  /** What the scoring loop takes from the rest of the program: the parser
      that turns a cleaned reply into an action or rejects it, the corrective
      message sent after a rejected reply, the instructions for a mission and
      the text of an observation. The specification below is stated for any
      protocol; score_ollama_llm runs with `SourceProtocol`. */
  datatype Protocol = Protocol(
    parse: string -> Option<ActionId>,
    correction: string,
    instructions: string -> string,
    observation: seq<string> -> string)

  /** The protocol of score_ollama_llm: exact phrase lookup,
      `invalid_action_message`, `get_instructions` and `parse_observation`. */
  const SourceProtocol: Protocol := Protocol(ParseAction, InvalidActionMessage, GetInstructions, Lines)

  /** The cleaned replies to requests `from` up to `upTo` (not included). */
  function Replies(replies: nat -> string, from: nat, upTo: nat): seq<string>
    decreases upTo - from
  {
    if upTo <= from then [] else [replies(from)] + Replies(replies, from + 1, upTo)
  }

  /** The number of texts that are not action phrases. */
  function Rejected(p: Protocol, texts: seq<string>): nat
  {
    if texts == [] then 0
    else (if p.parse(texts[0]).Some? then 0 else 1) + Rejected(p, texts[1..])
  }

  /** The contents of the assistant messages of a log, in order. */
  function AssistantTexts(log: seq<Message>): seq<string>
  {
    if log == [] then []
    else (if log[0].role == Assistant then [log[0].content] else []) + AssistantTexts(log[1..])
  }

  /** The number of user messages in a log. */
  function UserCount(log: seq<Message>): nat
  {
    if log == [] then 0
    else (if log[0].role == User then 1 else 0) + UserCount(log[1..])
  }

  // ---------------------------------------------------------------------
  // One step-decision cycle (the inner `while action_text not in
  // text_to_action` loop)
  // ---------------------------------------------------------------------

  /** How a step-decision cycle ends: with an action to take, or with the
      episode abandoned because the step drew too many rejected replies. */
  datatype Decision = Chosen(action: ActionId) | Abandoned

  /** The end state of a cycle: the decision, the index of the next model
      request and the per-step counter. What the cycle adds to the
      conversation is its `Exchange`. */
  datatype Cycle = Cycle(decision: Decision, next: nat, strikes: nat)

  /** The cycle, from the moment request `next` is about to be made with
      `strikes` replies of this step already rejected. */
  function Decide(p: Protocol, replies: nat -> string, next: nat, strikes: nat, maxInvalid: int): (c: Cycle)
    requires strikes < AtLeastOne(maxInvalid)
    ensures next < c.next
    decreases AtLeastOne(maxInvalid) - strikes
  {
    match p.parse(replies(next))
    case Some(action) => Cycle(Chosen(action), next + 1, strikes)
    case None =>
      if strikes + 1 >= maxInvalid then Cycle(Abandoned, next + 1, strikes + 1)
      else Decide(p, replies, next + 1, strikes + 1, maxInvalid)
  }

  /** The messages a cycle that makes requests `from` up to `upTo` (not
      included) appends: every cleaned reply as an assistant message, and the
      corrective message after every reply but the last. */
  function Exchange(p: Protocol, replies: nat -> string, from: nat, upTo: nat): seq<Message>
    decreases upTo - from
  {
    if upTo <= from then []
    else if upTo == from + 1 then [Message(Assistant, replies(from))]
    else
      [Message(Assistant, replies(from)), Message(User, p.correction)]
      + Exchange(p, replies, from + 1, upTo)
  }

  /** A cycle makes at least one and at most `max(maxInvalid, 1) - strikes`
      requests; it stops at the first reply that is an action phrase, taking
      that action, or abandons the episode exactly when the per-step counter
      reaches `max(maxInvalid, 1)`. Every reply before the last was rejected
      and counted. */
  lemma {:induction false} DecideShape(p: Protocol, replies: nat -> string, next: nat, strikes: nat, maxInvalid: int)
    requires strikes < AtLeastOne(maxInvalid)
    ensures var c := Decide(p, replies, next, strikes, maxInvalid);
      && c.next <= next + AtLeastOne(maxInvalid) - strikes
      && (forall k :: next <= k < c.next - 1 ==> p.parse(replies(k)).None?)
      && (c.decision.Chosen? <==> p.parse(replies(c.next - 1)).Some?)
      && (c.decision.Chosen? ==>
            c.decision.action == p.parse(replies(c.next - 1)).value
            && c.strikes == strikes + (c.next - next - 1) && c.strikes < AtLeastOne(maxInvalid))
      && (c.decision.Abandoned? ==>
            c.strikes == strikes + (c.next - next) && c.strikes == AtLeastOne(maxInvalid))
    decreases AtLeastOne(maxInvalid) - strikes
  {
    if p.parse(replies(next)).None? && strikes + 1 < maxInvalid {
      DecideShape(p, replies, next + 1, strikes + 1, maxInvalid);
    }
  }

  /** The per-step counter ends up raised by the number of rejected replies
      among the cycle's requests. */
  lemma {:induction false} DecideRejected(p: Protocol, replies: nat -> string, next: nat, strikes: nat, maxInvalid: int)
    requires strikes < AtLeastOne(maxInvalid)
    ensures var c := Decide(p, replies, next, strikes, maxInvalid);
      Rejected(p, Replies(replies, next, c.next)) == c.strikes - strikes
    decreases AtLeastOne(maxInvalid) - strikes
  {
    var text := replies(next);
    assert Replies(replies, next, next + 1) == [text];
    assert [text][1..] == [];
    if p.parse(text).None? && strikes + 1 < maxInvalid {
      DecideRejected(p, replies, next + 1, strikes + 1, maxInvalid);
      var c := Decide(p, replies, next + 1, strikes + 1, maxInvalid);
      var rs := Replies(replies, next + 1, c.next);
      assert Replies(replies, next, c.next) == [text] + rs;
      assert ([text] + rs)[1..] == rs;
    }
  }

  /** A rejected reply that brings the per-step counter to `maxInvalid`
      abandons the episode. */
  lemma DecideGivesUp(p: Protocol, replies: nat -> string, at: nat, strikes: nat, maxInvalid: int,
                      after: nat, strikesAfter: nat)
    requires strikes < AtLeastOne(maxInvalid) && p.parse(replies(at)).None?
    requires after == at + 1 && strikesAfter == strikes + 1 && strikesAfter >= maxInvalid
    ensures Decide(p, replies, at, strikes, maxInvalid) == Cycle(Abandoned, after, strikesAfter)
  {
  }

  /** Any other rejected reply leads to the next request. */
  lemma DecideRetries(p: Protocol, replies: nat -> string, at: nat, strikes: nat, maxInvalid: int,
                      after: nat, strikesAfter: nat)
    requires strikes < AtLeastOne(maxInvalid) && p.parse(replies(at)).None?
    requires after == at + 1 && strikesAfter == strikes + 1 && strikesAfter < maxInvalid
    ensures strikesAfter < AtLeastOne(maxInvalid)
    ensures Decide(p, replies, at, strikes, maxInvalid) == Decide(p, replies, after, strikesAfter, maxInvalid)
  {
  }

  /** A reply that is an action phrase ends the cycle with that action. */
  lemma DecideAccepts(p: Protocol, replies: nat -> string, at: nat, strikes: nat, maxInvalid: int,
                      after: nat, action: ActionId)
    requires strikes < AtLeastOne(maxInvalid) && p.parse(replies(at)) == Some(action) && after == at + 1
    ensures Decide(p, replies, at, strikes, maxInvalid) == Cycle(Chosen(action), after, strikes)
  {
  }

  // ---------------------------------------------------------------------
  // Counting over logs
  // ---------------------------------------------------------------------

  lemma {:induction false} AssistantTextsAppend(a: seq<Message>, b: seq<Message>)
    ensures AssistantTexts(a + b) == AssistantTexts(a) + AssistantTexts(b)
    decreases |a|
  {
    if a != [] {
      AssistantTextsAppend(a[1..], b);
      assert (a + b)[1..] == a[1..] + b;
    } else {
      assert a + b == b;
    }
  }

  lemma {:induction false} UserCountAppend(a: seq<Message>, b: seq<Message>)
    ensures UserCount(a + b) == UserCount(a) + UserCount(b)
    decreases |a|
  {
    if a != [] {
      UserCountAppend(a[1..], b);
      assert (a + b)[1..] == a[1..] + b;
    } else {
      assert a + b == b;
    }
  }

  lemma {:induction false} RejectedAppend(p: Protocol, a: seq<string>, b: seq<string>)
    ensures Rejected(p, a + b) == Rejected(p, a) + Rejected(p, b)
    decreases |a|
  {
    if a != [] {
      RejectedAppend(p, a[1..], b);
      assert (a + b)[1..] == a[1..] + b;
    } else {
      assert a + b == b;
    }
  }

  /** The replies to consecutive requests split at any point. */
  lemma {:induction false} RepliesSplit(replies: nat -> string, from: nat, mid: nat, upTo: nat)
    requires from <= mid <= upTo
    ensures Replies(replies, from, upTo) == Replies(replies, from, mid) + Replies(replies, mid, upTo)
    decreases mid - from
  {
    if from < mid {
      RepliesSplit(replies, from + 1, mid, upTo);
    }
  }

  /** The exchange of a cycle holds one assistant message per request, in
      request order. */
  lemma {:induction false} ExchangeAssistants(p: Protocol, replies: nat -> string, from: nat, upTo: nat)
    requires from < upTo
    ensures AssistantTexts(Exchange(p, replies, from, upTo)) == Replies(replies, from, upTo)
    decreases upTo - from
  {
    var head := Message(Assistant, replies(from));
    if upTo == from + 1 {
      assert [head][1..] == [];
    } else {
      var pair := [head, Message(User, p.correction)];
      var rest := Exchange(p, replies, from + 1, upTo);
      ExchangeAssistants(p, replies, from + 1, upTo);
      AssistantTextsAppend(pair, rest);
      assert pair[1..][1..] == [];
      assert AssistantTexts(pair) == [replies(from)];
    }
  }

  /** The exchange of a cycle holds one corrective message per reply but the
      last. */
  lemma {:induction false} ExchangeUsers(p: Protocol, replies: nat -> string, from: nat, upTo: nat)
    requires from < upTo
    ensures UserCount(Exchange(p, replies, from, upTo)) == upTo - from - 1
    decreases upTo - from
  {
    var head := Message(Assistant, replies(from));
    if upTo == from + 1 {
      assert [head][1..] == [];
    } else {
      var pair := [head, Message(User, p.correction)];
      var rest := Exchange(p, replies, from + 1, upTo);
      ExchangeUsers(p, replies, from + 1, upTo);
      UserCountAppend(pair, rest);
      assert pair[1..][1..] == [];
    }
  }

  /** One more request extends an exchange by the corrective message and
      the new reply. */
  lemma {:induction false} ExchangeSnoc(p: Protocol, replies: nat -> string, from: nat, upTo: nat)
    requires from < upTo
    ensures Exchange(p, replies, from, upTo + 1)
      == Exchange(p, replies, from, upTo) + [Message(User, p.correction), Message(Assistant, replies(upTo))]
    decreases upTo - from
  {
    if upTo > from + 1 {
      ExchangeSnoc(p, replies, from + 1, upTo);
    }
  }

  /** The log of a cycle after its first request. */
  lemma ExchangeStarts(p: Protocol, replies: nat -> string, base: seq<Message>, from: nat, after: nat,
                       reply: string, logged: seq<Message>)
    requires after == from + 1 && reply == replies(from)
    requires logged == base + [Message(Assistant, reply)]
    ensures logged == base + Exchange(p, replies, from, after)
  {
  }

  /** The log of a cycle after a rejected reply and the next request. */
  lemma ExchangeGoesOn(p: Protocol, replies: nat -> string, base: seq<Message>, from: nat, upTo: nat, after: nat,
                       log: seq<Message>, reply: string, logged: seq<Message>)
    requires from < upTo && after == upTo + 1 && reply == replies(upTo)
    requires log == base + Exchange(p, replies, from, upTo)
    requires logged == log + [Message(User, p.correction)] + [Message(Assistant, reply)]
    ensures logged == base + Exchange(p, replies, from, after)
  {
    ExchangeSnoc(p, replies, from, upTo);
  }

  /** A cycle logs the cleaned replies to its requests as assistant
      messages. */
  lemma DecideAssistants(p: Protocol, replies: nat -> string, next: nat, log: seq<Message>, maxInvalid: int)
    ensures var c := Decide(p, replies, next, 0, maxInvalid);
      AssistantTexts(log + Exchange(p, replies, next, c.next)) == AssistantTexts(log) + Replies(replies, next, c.next)
  {
    var c := Decide(p, replies, next, 0, maxInvalid);
    ExchangeAssistants(p, replies, next, c.next);
    AssistantTextsAppend(log, Exchange(p, replies, next, c.next));
  }

  /** A cycle logs one user message per rejected reply except the one that
      abandons the episode. */
  lemma DecideUsers(p: Protocol, replies: nat -> string, next: nat, log: seq<Message>, maxInvalid: int)
    ensures var c := Decide(p, replies, next, 0, maxInvalid);
      UserCount(log + Exchange(p, replies, next, c.next))
      == UserCount(log) + c.strikes - (if c.decision.Abandoned? then 1 else 0)
  {
    DecideShape(p, replies, next, 0, maxInvalid);
    var c := Decide(p, replies, next, 0, maxInvalid);
    ExchangeUsers(p, replies, next, c.next);
    UserCountAppend(log, Exchange(p, replies, next, c.next));
  }

  /** Logging an observation adds one user message and no reply. */
  lemma LogObservation(log: seq<Message>, text: string, logged: seq<Message>)
    requires logged == log + [Message(User, text)]
    ensures AssistantTexts(logged) == AssistantTexts(log)
    ensures UserCount(logged) == UserCount(log) + 1
  {
    var obs := [Message(User, text)];
    AssistantTextsAppend(log, obs);
    UserCountAppend(log, obs);
    assert obs[1..] == [];
  }

  /** Replies logged over consecutive stretches of requests add up. */
  lemma ChainReplies(replies: nat -> string, base: seq<string>, from: nat, mid: nat, upTo: nat,
                     middle: seq<string>, total: seq<string>)
    requires from <= mid <= upTo
    requires middle == base + Replies(replies, from, mid)
    requires total == middle + Replies(replies, mid, upTo)
    ensures total == base + Replies(replies, from, upTo)
  {
    RepliesSplit(replies, from, mid, upTo);
  }

  /** Rejected replies counted over consecutive stretches of requests add
      up. */
  lemma ChainRejected(p: Protocol, replies: nat -> string, base: nat, from: nat, mid: nat, upTo: nat,
                      middle: nat, total: nat)
    requires from <= mid <= upTo
    requires middle == base + Rejected(p, Replies(replies, from, mid))
    requires total == middle + Rejected(p, Replies(replies, mid, upTo))
    ensures total == base + Rejected(p, Replies(replies, from, upTo))
  {
    RepliesSplit(replies, from, mid, upTo);
    RejectedAppend(p, Replies(replies, from, mid), Replies(replies, mid, upTo));
  }

  // ---------------------------------------------------------------------
  // One episode (the outer `while not done` loop)
  // ---------------------------------------------------------------------

  /** The outcome of one episode: the recorded reward and number of rejected
      replies, the index of the next model request, the final conversation,
      the actions sent to the environment, and whether the episode was
      abandoned rather than ended by the environment. */
  datatype EpisodeRun = EpisodeRun(
    reward: real, invalidActions: nat, next: nat,
    log: seq<Message>, actions: seq<ActionId>, forced: bool)

  /** The rest of an episode, from the start of a step-decision cycle. */
  function Play(p: Protocol, replies: nat -> string, env: Environment, episode: nat, next: nat, log: seq<Message>,
                invalid: nat, actions: seq<ActionId>, maxInvalid: int): (r: EpisodeRun)
    ensures next < r.next && invalid <= r.invalidActions && |actions| <= |r.actions|
    decreases env.maxSteps - |actions|
  {
    var c := Decide(p, replies, next, 0, maxInvalid);
    var exchanged := log + Exchange(p, replies, next, c.next);
    match c.decision
    case Abandoned => EpisodeRun(0.0, invalid + c.strikes, c.next, exchanged, actions, true)
    case Chosen(action) =>
      var taken := actions + [action];
      var result := env.Step(episode, taken);
      var logged := exchanged + [Message(User, p.observation(result.descriptions))];
      if result.done then EpisodeRun(result.reward, invalid + c.strikes, c.next, logged, taken, false)
      else Play(p, replies, env, episode, c.next, logged, invalid + c.strikes, taken, maxInvalid)
  }

  /** An episode whose cycle abandons it ends there, with reward 0, the log
      after the cycle's exchange and no further action. */
  lemma PlayAbandons(p: Protocol, replies: nat -> string, env: Environment, episode: nat, next: nat, log: seq<Message>,
                     invalid: nat, actions: seq<ActionId>, maxInvalid: int,
                     after: nat, strikes: nat, exchanged: seq<Message>, invalidAfter: nat)
    requires Cycle(Abandoned, after, strikes) == Decide(p, replies, next, 0, maxInvalid)
    requires exchanged == log + Exchange(p, replies, next, after)
    requires invalidAfter == invalid + strikes
    ensures Play(p, replies, env, episode, next, log, invalid, actions, maxInvalid)
            == EpisodeRun(0.0, invalidAfter, after, exchanged, actions, true)
  {
  }

  /** An episode whose cycle picks an action sends it to the environment and
      logs the observation; it ends if the environment reports the episode
      done, and otherwise goes on with the next cycle. */
  lemma PlayTakes(p: Protocol, replies: nat -> string, env: Environment, episode: nat, next: nat, log: seq<Message>,
                  invalid: nat, actions: seq<ActionId>, maxInvalid: int,
                  decision: Decision, after: nat, strikes: nat, exchanged: seq<Message>, invalidAfter: nat,
                  taken: seq<ActionId>, logged: seq<Message>)
    requires Cycle(decision, after, strikes) == Decide(p, replies, next, 0, maxInvalid)
    requires decision.Chosen?
    requires exchanged == log + Exchange(p, replies, next, after)
    requires invalidAfter == invalid + strikes
    requires taken == actions + [decision.action]
    requires logged == exchanged + [Message(User, p.observation(env.Step(episode, taken).descriptions))]
    ensures Play(p, replies, env, episode, next, log, invalid, actions, maxInvalid)
            == if env.Step(episode, taken).done
               then EpisodeRun(env.Step(episode, taken).reward, invalidAfter, after, logged, taken, false)
               else Play(p, replies, env, episode, after, logged, invalidAfter, taken, maxInvalid)
  {
  }

  /** An episode only grows its log, its action list and its invalid count.
      An abandoned episode records reward 0; any other ends at the first step
      the environment reports as done, and records that step's reward. The
      cycle that abandons an episode sends no action to the environment. */
  lemma {:induction false} PlayShape(p: Protocol, replies: nat -> string, env: Environment, episode: nat, next: nat,
                                     log: seq<Message>, invalid: nat, actions: seq<ActionId>, maxInvalid: int)
    ensures var r := Play(p, replies, env, episode, next, log, invalid, actions, maxInvalid);
      && log <= r.log && actions <= r.actions && next < r.next && invalid <= r.invalidActions
      && (r.forced ==> r.reward == 0.0)
      && (r.forced && |r.actions| > |actions| ==> !env.Step(episode, r.actions).done)
      && (!r.forced ==> |r.actions| > |actions| && env.Step(episode, r.actions).done
                        && r.reward == env.Step(episode, r.actions).reward)
      && (forall j :: |actions| < j < |r.actions| ==> !env.Step(episode, r.actions[..j]).done)
    decreases env.maxSteps - |actions|
  {
    var c := Decide(p, replies, next, 0, maxInvalid);
    var exchanged := log + Exchange(p, replies, next, c.next);
    assert log <= exchanged;
    if c.decision.Chosen? {
      var taken := actions + [c.decision.action];
      var result := env.Step(episode, taken);
      var logged := exchanged + [Message(User, p.observation(result.descriptions))];
      if !result.done {
        PlayShape(p, replies, env, episode, c.next, logged, invalid + c.strikes, taken, maxInvalid);
        var r := Play(p, replies, env, episode, c.next, logged, invalid + c.strikes, taken, maxInvalid);
        assert r.actions[..|taken|] == taken;
        forall j | |actions| < j < |r.actions| ensures !env.Step(episode, r.actions[..j]).done {
          if j == |taken| {
            assert r.actions[..j] == taken;
          }
        }
        if |r.actions| == |taken| {
          assert r.actions == taken;
        }
      }
    }
  }

  /** An episode abandoned by the current cycle logs just that cycle's
      replies from there on. */
  lemma RepliesWhenAbandoned(p: Protocol, replies: nat -> string, env: Environment, episode: nat, next: nat,
      log: seq<Message>, invalid: nat, actions: seq<ActionId>, maxInvalid: int)
    requires Decide(p, replies, next, 0, maxInvalid).decision.Abandoned?
    ensures var r := Play(p, replies, env, episode, next, log, invalid, actions, maxInvalid);
      AssistantTexts(r.log) == AssistantTexts(log) + Replies(replies, next, r.next)
  {
    DecideAssistants(p, replies, next, log, maxInvalid);
  }

  /** An episode whose next step is its last logs just the current cycle's
      replies from there on. */
  lemma RepliesWhenDone(p: Protocol, replies: nat -> string, env: Environment, episode: nat, next: nat,
      log: seq<Message>, invalid: nat, actions: seq<ActionId>, maxInvalid: int)
    requires var c := Decide(p, replies, next, 0, maxInvalid);
      c.decision.Chosen? && env.Step(episode, actions + [c.decision.action]).done
    ensures var r := Play(p, replies, env, episode, next, log, invalid, actions, maxInvalid);
      AssistantTexts(r.log) == AssistantTexts(log) + Replies(replies, next, r.next)
  {
    DecideAssistants(p, replies, next, log, maxInvalid);
    var c := Decide(p, replies, next, 0, maxInvalid);
    var taken := actions + [c.decision.action];
    var result := env.Step(episode, taken);
    var exchanged := log + Exchange(p, replies, next, c.next);
    var logged := exchanged + [Message(User, p.observation(result.descriptions))];
    LogObservation(exchanged, p.observation(result.descriptions), logged);
  }

  /** The replies logged over the rest of an episode are those of the
      current cycle followed by those logged after the next step. */
  lemma RepliesWhenGoingOn(p: Protocol, replies: nat -> string, env: Environment, episode: nat, next: nat,
      log: seq<Message>, invalid: nat, actions: seq<ActionId>, maxInvalid: int)
    requires var c := Decide(p, replies, next, 0, maxInvalid);
      c.decision.Chosen? && !env.Step(episode, actions + [c.decision.action]).done
    requires var c := Decide(p, replies, next, 0, maxInvalid);
      var taken := actions + [c.decision.action];
      var logged := log + Exchange(p, replies, next, c.next)
        + [Message(User, p.observation(env.Step(episode, taken).descriptions))];
      var r := Play(p, replies, env, episode, c.next, logged, invalid + c.strikes, taken, maxInvalid);
      AssistantTexts(r.log) == AssistantTexts(logged) + Replies(replies, c.next, r.next)
    ensures var r := Play(p, replies, env, episode, next, log, invalid, actions, maxInvalid);
      AssistantTexts(r.log) == AssistantTexts(log) + Replies(replies, next, r.next)
  {
    DecideAssistants(p, replies, next, log, maxInvalid);
    var c := Decide(p, replies, next, 0, maxInvalid);
    var taken := actions + [c.decision.action];
    var result := env.Step(episode, taken);
    var exchanged := log + Exchange(p, replies, next, c.next);
    var logged := exchanged + [Message(User, p.observation(result.descriptions))];
    LogObservation(exchanged, p.observation(result.descriptions), logged);
    var r := Play(p, replies, env, episode, c.next, logged, invalid + c.strikes, taken, maxInvalid);
    ChainReplies(replies, AssistantTexts(log), next, c.next, r.next, AssistantTexts(logged), AssistantTexts(r.log));
  }

  /** Over the rest of an episode, every model reply is logged as an
      assistant message, in request order. */
  lemma {:induction false} PlayReplies(p: Protocol, replies: nat -> string, env: Environment, episode: nat, next: nat,
      log: seq<Message>, invalid: nat, actions: seq<ActionId>, maxInvalid: int)
    ensures var r := Play(p, replies, env, episode, next, log, invalid, actions, maxInvalid);
      AssistantTexts(r.log) == AssistantTexts(log) + Replies(replies, next, r.next)
    decreases env.maxSteps - |actions|
  {
    var c := Decide(p, replies, next, 0, maxInvalid);
    if c.decision.Abandoned? {
      RepliesWhenAbandoned(p, replies, env, episode, next, log, invalid, actions, maxInvalid);
    } else if env.Step(episode, actions + [c.decision.action]).done {
      RepliesWhenDone(p, replies, env, episode, next, log, invalid, actions, maxInvalid);
    } else {
      var taken := actions + [c.decision.action];
      var logged := log + Exchange(p, replies, next, c.next)
        + [Message(User, p.observation(env.Step(episode, taken).descriptions))];
      PlayReplies(p, replies, env, episode, c.next, logged, invalid + c.strikes, taken, maxInvalid);
      RepliesWhenGoingOn(p, replies, env, episode, next, log, invalid, actions, maxInvalid);
    }
  }

  /** An episode abandoned by the current cycle counts just that cycle's
      rejected replies from there on. */
  lemma RejectedWhenAbandoned(p: Protocol, replies: nat -> string, env: Environment, episode: nat, next: nat,
      log: seq<Message>, invalid: nat, actions: seq<ActionId>, maxInvalid: int)
    requires Decide(p, replies, next, 0, maxInvalid).decision.Abandoned?
    ensures var r := Play(p, replies, env, episode, next, log, invalid, actions, maxInvalid);
      r.invalidActions == invalid + Rejected(p, Replies(replies, next, r.next))
  {
    DecideRejected(p, replies, next, 0, maxInvalid);
  }

  /** An episode whose next step is its last counts just the current
      cycle's rejected replies from there on. */
  lemma RejectedWhenDone(p: Protocol, replies: nat -> string, env: Environment, episode: nat, next: nat,
      log: seq<Message>, invalid: nat, actions: seq<ActionId>, maxInvalid: int)
    requires var c := Decide(p, replies, next, 0, maxInvalid);
      c.decision.Chosen? && env.Step(episode, actions + [c.decision.action]).done
    ensures var r := Play(p, replies, env, episode, next, log, invalid, actions, maxInvalid);
      r.invalidActions == invalid + Rejected(p, Replies(replies, next, r.next))
  {
    DecideRejected(p, replies, next, 0, maxInvalid);
  }

  /** The rejected replies counted over the rest of an episode are those of
      the current cycle and those counted after the next step. */
  lemma RejectedWhenGoingOn(p: Protocol, replies: nat -> string, env: Environment, episode: nat, next: nat,
      log: seq<Message>, invalid: nat, actions: seq<ActionId>, maxInvalid: int)
    requires var c := Decide(p, replies, next, 0, maxInvalid);
      c.decision.Chosen? && !env.Step(episode, actions + [c.decision.action]).done
    requires var c := Decide(p, replies, next, 0, maxInvalid);
      var taken := actions + [c.decision.action];
      var logged := log + Exchange(p, replies, next, c.next)
        + [Message(User, p.observation(env.Step(episode, taken).descriptions))];
      var r := Play(p, replies, env, episode, c.next, logged, invalid + c.strikes, taken, maxInvalid);
      r.invalidActions == invalid + c.strikes + Rejected(p, Replies(replies, c.next, r.next))
    ensures var r := Play(p, replies, env, episode, next, log, invalid, actions, maxInvalid);
      r.invalidActions == invalid + Rejected(p, Replies(replies, next, r.next))
  {
    DecideRejected(p, replies, next, 0, maxInvalid);
    var c := Decide(p, replies, next, 0, maxInvalid);
    var taken := actions + [c.decision.action];
    var result := env.Step(episode, taken);
    var exchanged := log + Exchange(p, replies, next, c.next);
    var logged := exchanged + [Message(User, p.observation(result.descriptions))];
    var r := Play(p, replies, env, episode, c.next, logged, invalid + c.strikes, taken, maxInvalid);
    ChainRejected(p, replies, invalid, next, c.next, r.next, invalid + c.strikes, r.invalidActions);
  }

  /** Over the rest of an episode, the invalid count grows by the number of
      rejected replies. */
  lemma {:induction false} PlayRejected(p: Protocol, replies: nat -> string, env: Environment, episode: nat, next: nat,
      log: seq<Message>, invalid: nat, actions: seq<ActionId>, maxInvalid: int)
    ensures var r := Play(p, replies, env, episode, next, log, invalid, actions, maxInvalid);
      r.invalidActions == invalid + Rejected(p, Replies(replies, next, r.next))
    decreases env.maxSteps - |actions|
  {
    var c := Decide(p, replies, next, 0, maxInvalid);
    if c.decision.Abandoned? {
      RejectedWhenAbandoned(p, replies, env, episode, next, log, invalid, actions, maxInvalid);
    } else if env.Step(episode, actions + [c.decision.action]).done {
      RejectedWhenDone(p, replies, env, episode, next, log, invalid, actions, maxInvalid);
    } else {
      var taken := actions + [c.decision.action];
      var logged := log + Exchange(p, replies, next, c.next)
        + [Message(User, p.observation(env.Step(episode, taken).descriptions))];
      PlayRejected(p, replies, env, episode, c.next, logged, invalid + c.strikes, taken, maxInvalid);
      RejectedWhenGoingOn(p, replies, env, episode, next, log, invalid, actions, maxInvalid);
    }
  }

  /** An episode abandoned by the current cycle logs one user message per
      rejected reply of that cycle but the last. */
  lemma UsersWhenAbandoned(p: Protocol, replies: nat -> string, env: Environment, episode: nat, next: nat,
      log: seq<Message>, invalid: nat, actions: seq<ActionId>, maxInvalid: int)
    requires Decide(p, replies, next, 0, maxInvalid).decision.Abandoned?
    ensures var r := Play(p, replies, env, episode, next, log, invalid, actions, maxInvalid);
      UserCount(r.log) + (if r.forced then 1 else 0)
      == UserCount(log) + (|r.actions| - |actions|) + (r.invalidActions - invalid)
  {
    DecideUsers(p, replies, next, log, maxInvalid);
  }

  /** An episode whose next step is its last logs one user message per
      rejected reply of the current cycle and one for the observation. */
  lemma UsersWhenDone(p: Protocol, replies: nat -> string, env: Environment, episode: nat, next: nat,
      log: seq<Message>, invalid: nat, actions: seq<ActionId>, maxInvalid: int)
    requires var c := Decide(p, replies, next, 0, maxInvalid);
      c.decision.Chosen? && env.Step(episode, actions + [c.decision.action]).done
    ensures var r := Play(p, replies, env, episode, next, log, invalid, actions, maxInvalid);
      UserCount(r.log) + (if r.forced then 1 else 0)
      == UserCount(log) + (|r.actions| - |actions|) + (r.invalidActions - invalid)
  {
    DecideUsers(p, replies, next, log, maxInvalid);
    var c := Decide(p, replies, next, 0, maxInvalid);
    var taken := actions + [c.decision.action];
    var result := env.Step(episode, taken);
    var exchanged := log + Exchange(p, replies, next, c.next);
    var logged := exchanged + [Message(User, p.observation(result.descriptions))];
    LogObservation(exchanged, p.observation(result.descriptions), logged);
  }

  /** The user messages logged over the rest of an episode are those of the
      current cycle and its observation and those logged after the next step. */
  lemma UsersWhenGoingOn(p: Protocol, replies: nat -> string, env: Environment, episode: nat, next: nat,
      log: seq<Message>, invalid: nat, actions: seq<ActionId>, maxInvalid: int)
    requires var c := Decide(p, replies, next, 0, maxInvalid);
      c.decision.Chosen? && !env.Step(episode, actions + [c.decision.action]).done
    requires var c := Decide(p, replies, next, 0, maxInvalid);
      var taken := actions + [c.decision.action];
      var logged := log + Exchange(p, replies, next, c.next)
        + [Message(User, p.observation(env.Step(episode, taken).descriptions))];
      var r := Play(p, replies, env, episode, c.next, logged, invalid + c.strikes, taken, maxInvalid);
      UserCount(r.log) + (if r.forced then 1 else 0)
      == UserCount(logged) + (|r.actions| - |taken|) + (r.invalidActions - (invalid + c.strikes))
    ensures var r := Play(p, replies, env, episode, next, log, invalid, actions, maxInvalid);
      UserCount(r.log) + (if r.forced then 1 else 0)
      == UserCount(log) + (|r.actions| - |actions|) + (r.invalidActions - invalid)
  {
    DecideUsers(p, replies, next, log, maxInvalid);
    var c := Decide(p, replies, next, 0, maxInvalid);
    var taken := actions + [c.decision.action];
    var result := env.Step(episode, taken);
    var exchanged := log + Exchange(p, replies, next, c.next);
    var logged := exchanged + [Message(User, p.observation(result.descriptions))];
    LogObservation(exchanged, p.observation(result.descriptions), logged);
  }

  /** Over the rest of an episode, the user messages grow by one per
      environment step plus one per rejected reply, minus the one that
      abandons the episode. */
  lemma {:induction false} PlayUsers(p: Protocol, replies: nat -> string, env: Environment, episode: nat, next: nat,
      log: seq<Message>, invalid: nat, actions: seq<ActionId>, maxInvalid: int)
    ensures var r := Play(p, replies, env, episode, next, log, invalid, actions, maxInvalid);
      UserCount(r.log) + (if r.forced then 1 else 0)
      == UserCount(log) + (|r.actions| - |actions|) + (r.invalidActions - invalid)
    decreases env.maxSteps - |actions|
  {
    var c := Decide(p, replies, next, 0, maxInvalid);
    if c.decision.Abandoned? {
      UsersWhenAbandoned(p, replies, env, episode, next, log, invalid, actions, maxInvalid);
    } else if env.Step(episode, actions + [c.decision.action]).done {
      UsersWhenDone(p, replies, env, episode, next, log, invalid, actions, maxInvalid);
    } else {
      var taken := actions + [c.decision.action];
      var logged := log + Exchange(p, replies, next, c.next)
        + [Message(User, p.observation(env.Step(episode, taken).descriptions))];
      PlayUsers(p, replies, env, episode, c.next, logged, invalid + c.strikes, taken, maxInvalid);
      UsersWhenGoingOn(p, replies, env, episode, next, log, invalid, actions, maxInvalid);
    }
  }

  /** The conversation an episode starts with: the instructions for its
      mission as the system message and its first observation as a user
      message. */
  function InitialLog(p: Protocol, start: Reset): seq<Message>
  {
    [Message(System, p.instructions(start.mission)), Message(User, p.observation(start.descriptions))]
  }

  /** Episode `episode`, with its first model request numbered `next`. */
  function Episode(p: Protocol, replies: nat -> string, env: Environment, episode: nat, next: nat, maxInvalid: int): EpisodeRun
  {
    Play(p, replies, env, episode, next, InitialLog(p, env.reset(episode)), 0, [], maxInvalid)
  }

  /** An episode's conversation starts with the system instructions and the
      first observation and then only grows; it holds every model reply, in
      order, as an assistant message; the episode's invalid count starts at 0
      and equals the number of rejected replies; and it holds one user message
      per environment step and per rejected reply, apart from the first
      observation and the reply that abandons the episode. */
  lemma EpisodeLog(p: Protocol, replies: nat -> string, env: Environment, episode: nat, next: nat, maxInvalid: int)
    ensures var r := Episode(p, replies, env, episode, next, maxInvalid);
      var start := env.reset(episode);
      && |r.log| >= 2
      && r.log[0] == Message(System, p.instructions(start.mission))
      && r.log[1] == Message(User, p.observation(start.descriptions))
      && AssistantTexts(r.log) == Replies(replies, next, r.next)
      && r.invalidActions == Rejected(p, Replies(replies, next, r.next))
      && UserCount(r.log) == 1 + |r.actions| + r.invalidActions - (if r.forced then 1 else 0)
  {
    var init := InitialLog(p, env.reset(episode));
    PlayShape(p, replies, env, episode, next, init, 0, [], maxInvalid);
    PlayReplies(p, replies, env, episode, next, init, 0, [], maxInvalid);
    PlayRejected(p, replies, env, episode, next, init, 0, [], maxInvalid);
    PlayUsers(p, replies, env, episode, next, init, 0, [], maxInvalid);
    assert init[1..][1..] == [];
    assert AssistantTexts(init[1..]) == [] && UserCount(init[1..]) == 1;
    assert AssistantTexts(init) == [] && UserCount(init) == 1;
  }

  // ---------------------------------------------------------------------
  // The scoring run (the loop over episodes)
  // ---------------------------------------------------------------------

  /** The episodes of a run as a function of the episode number and the
      number of its first model request. */
  function EpisodeOf(p: Protocol, replies: nat -> string, env: Environment, maxInvalid: int): (nat, nat) -> EpisodeRun
  {
    (episode: nat, next: nat) => Episode(p, replies, env, episode, next, maxInvalid)
  }

  /** Episodes `episode`, `episode + 1`, ... (`count` of them), each starting
      with the model request after the last one of the episode before. */
  function RunFrom(play: (nat, nat) -> EpisodeRun, episode: nat, count: nat, next: nat): (runs: seq<EpisodeRun>)
    ensures |runs| == count
    decreases count
  {
    if count == 0 then []
    else
      var r := play(episode, next);
      [r] + RunFrom(play, episode + 1, count - 1, r.next)
  }

  /** The number of episodes `range(num_episodes)` runs. */
  function EpisodeCount(numEpisodes: int): nat
  {
    if numEpisodes > 0 then numEpisodes else 0
  }

  /** The episodes of a scoring run, in the order they are run. */
  function Runs(p: Protocol, replies: nat -> string, env: Environment, numEpisodes: int, maxInvalid: int): seq<EpisodeRun>
  {
    RunFrom(EpisodeOf(p, replies, env, maxInvalid), 0, EpisodeCount(numEpisodes), 0)
  }

  /** The rewards of a list of episodes. */
  function Rewards(runs: seq<EpisodeRun>): seq<real>
  {
    seq(|runs|, i requires 0 <= i < |runs| => runs[i].reward)
  }

  /** The invalid counts of a list of episodes. */
  function InvalidCounts(runs: seq<EpisodeRun>): seq<nat>
  {
    seq(|runs|, i requires 0 <= i < |runs| => runs[i].invalidActions)
  }

  /** A run function built from the episodes answers with the episode. */
  lemma EpisodeOfApply(p: Protocol, replies: nat -> string, env: Environment, maxInvalid: int, episode: nat, next: nat)
    ensures EpisodeOf(p, replies, env, maxInvalid)(episode, next) == Episode(p, replies, env, episode, next, maxInvalid)
  {
  }

  /** Running one episode moves it from the runs still to come to the runs
      done. */
  lemma RunFromFirst(play: (nat, nat) -> EpisodeRun, done: seq<EpisodeRun>, episode: nat, count: nat, next: nat, run: EpisodeRun)
    requires count > 0 && run == play(episode, next)
    ensures done + RunFrom(play, episode, count, next) == (done + [run]) + RunFrom(play, episode + 1, count - 1, run.next)
  {
  }

  /** Recording one more episode appends its reward and its invalid count. */
  lemma RecordOne(runs: seq<EpisodeRun>, run: EpisodeRun)
    ensures Rewards(runs + [run]) == Rewards(runs) + [run.reward]
    ensures InvalidCounts(runs + [run]) == InvalidCounts(runs) + [run.invalidActions]
  {
  }

  /** Run `i` of `RunFrom` is episode `episode + i`, started at the request
      after the last one of run `i - 1`. */
  lemma {:induction false} RunFromAt(play: (nat, nat) -> EpisodeRun, episode: nat, count: nat, next: nat, i: nat)
    requires i < count
    ensures var runs := RunFrom(play, episode, count, next);
      runs[i] == play(episode + i, if i == 0 then next else runs[i - 1].next)
    decreases i
  {
    if i > 0 {
      RunFromAt(play, episode + 1, count - 1, play(episode, next).next, i - 1);
    }
  }

  /** A scoring run records exactly one reward and one invalid count per
      episode of `range(num_episodes)`, in episode order: entry `i` of both
      lists belongs to episode `i`, which starts with the model request after
      the last one of episode `i - 1`. An abandoned episode records reward 0
      and every episode records its number of rejected replies. */
  lemma ScoreShape(p: Protocol, replies: nat -> string, env: Environment, numEpisodes: int, maxInvalid: int, i: nat)
    requires i < EpisodeCount(numEpisodes)
    ensures var runs := Runs(p, replies, env, numEpisodes, maxInvalid);
      var rewards := Rewards(runs);
      var invalids := InvalidCounts(runs);
      var first := if i == 0 then 0 else runs[i - 1].next;
      && |rewards| == |invalids| == EpisodeCount(numEpisodes)
      && runs[i] == Episode(p, replies, env, i, first, maxInvalid)
      && rewards[i] == runs[i].reward && invalids[i] == runs[i].invalidActions
      && (runs[i].forced ==> rewards[i] == 0.0)
      && invalids[i] == Rejected(p, Replies(replies, first, runs[i].next))
  {
    var runs := Runs(p, replies, env, numEpisodes, maxInvalid);
    RunFromAt(EpisodeOf(p, replies, env, maxInvalid), 0, EpisodeCount(numEpisodes), 0, i);
    var first := if i == 0 then 0 else runs[i - 1].next;
    PlayShape(p, replies, env, i, first, InitialLog(p, env.reset(i)), 0, [], maxInvalid);
    EpisodeLog(p, replies, env, i, first, maxInvalid);
  }

  // ---------------------------------------------------------------------
  // The loops themselves
  // ---------------------------------------------------------------------

  /** The retry loop of one step: asks the model until a cleaned reply is an
      action phrase, or until the per-step counter reaches
      `maxInvalidPerStep`, logging every reply and every corrective message.
      The per-step counter starts at 0, and it and the episode's counter go
      up by one for every rejected reply. */
  method DecideAction(model: Model, ghost replies: nat -> string, next0: nat, messages0: seq<Message>,
                      invalidActions0: nat, maxInvalidPerStep: int)
    returns (decision: Decision, next: nat, invalidThisStep: nat, invalidActions: nat, messages: seq<Message>)
    requires Cleans(model, replies)
    ensures Cycle(decision, next, invalidThisStep) == Decide(SourceProtocol, replies, next0, 0, maxInvalidPerStep)
    ensures messages == messages0 + Exchange(SourceProtocol, replies, next0, next)
    ensures invalidActions == invalidActions0 + invalidThisStep
  {
    var actionText: Option<string> := None;
    ghost var asked := next0;
    next, invalidThisStep, invalidActions, messages := next0, 0, invalidActions0, messages0;
    // `action_text not in text_to_action`, as a parse that fails (lemma
    // ParseActionIsLookup)
    while !(actionText.Some? && ParseAction(actionText.value).Some?)
      invariant actionText.None? ==> next == next0 && messages == messages0 && invalidThisStep == 0
      invariant actionText.Some? ==>
        && next0 <= asked && next == asked + 1 && actionText.value == replies(asked)
        && messages == messages0 + Exchange(SourceProtocol, replies, next0, next)
        && invalidThisStep < AtLeastOne(maxInvalidPerStep)
        && Decide(SourceProtocol, replies, next0, 0, maxInvalidPerStep)
           == Decide(SourceProtocol, replies, asked, invalidThisStep, maxInvalidPerStep)
      invariant invalidActions == invalidActions0 + invalidThisStep
      decreases AtLeastOne(maxInvalidPerStep) - invalidThisStep, if actionText.None? then 1 else 0
    {
      ghost var log := messages;
      if actionText.Some? {
        invalidActions := invalidActions + 1;
        invalidThisStep := invalidThisStep + 1;
        if invalidThisStep >= maxInvalidPerStep {
          DecideGivesUp(SourceProtocol, replies, asked, invalidThisStep - 1, maxInvalidPerStep, next, invalidThisStep);
          decision := Abandoned;
          return;
        }
        DecideRetries(SourceProtocol, replies, asked, invalidThisStep - 1, maxInvalidPerStep, next, invalidThisStep);
        messages := messages + [Message(User, InvalidActionMessage)];
      }
      var response := model(next);
      ghost var at := next;
      next := next + 1;
      actionText := Some(Normalize(response));
      messages := messages + [Message(Assistant, actionText.value)];
      if at == next0 {
        ExchangeStarts(SourceProtocol, replies, messages0, next0, next, actionText.value, messages);
      } else {
        ExchangeGoesOn(SourceProtocol, replies, messages0, next0, at, next, log, actionText.value, messages);
      }
      asked := at;
    }
    DecideAccepts(SourceProtocol, replies, asked, invalidThisStep, maxInvalidPerStep, next, ParseAction(actionText.value).value);
    decision := Chosen(ParseAction(actionText.value).value);
  }

  /** One episode: resets the environment, starts the conversation, and
      alternates step-decision cycles with environment steps until the
      episode is abandoned or the environment reports it done. */
  method RunEpisode(model: Model, ghost replies: nat -> string, env: Environment, episode: nat, next0: nat,
                    maxInvalidPerStep: int)
    returns (reward: real, invalidActions: nat, next: nat, messages: seq<Message>,
             actions: seq<ActionId>, forced: bool)
    requires Cleans(model, replies)
    ensures EpisodeRun(reward, invalidActions, next, messages, actions, forced)
            == Episode(SourceProtocol, replies, env, episode, next0, maxInvalidPerStep)
  {
    var start := env.reset(episode);
    var goal := start.mission;
    var done := false;
    var instructions := GetInstructions(goal);
    var obsText := ParseObservation(start.descriptions);
    messages := [Message(System, instructions), Message(User, obsText)];
    invalidActions := 0;
    next, actions, reward, forced := next0, [], 0.0, false;
    ghost var outcome := Episode(SourceProtocol, replies, env, episode, next0, maxInvalidPerStep);
    while !done
      invariant outcome == Play(SourceProtocol, replies, env, episode, next, messages, invalidActions, actions, maxInvalidPerStep)
      decreases env.maxSteps - |actions|
    {
      ghost var before, logBefore, invalidBefore := next, messages, invalidActions;
      var decision, invalidThisStep;
      decision, next, invalidThisStep, invalidActions, messages :=
        DecideAction(model, replies, next, messages, invalidActions, maxInvalidPerStep);
      if decision.Abandoned? {
        PlayAbandons(SourceProtocol, replies, env, episode, before, logBefore, invalidBefore, actions, maxInvalidPerStep,
                     next, invalidThisStep, messages, invalidActions);
        done := true;
        reward := 0.0;
        forced := true;
        return;
      }
      ghost var exchanged, actionsBefore := messages, actions;
      var action := decision.action;
      actions := actions + [action];
      var result := env.Step(episode, actions);
      reward, done := result.reward, result.done;
      obsText := ParseObservation(result.descriptions);
      messages := messages + [Message(User, obsText)];
      PlayTakes(SourceProtocol, replies, env, episode, before, logBefore, invalidBefore, actionsBefore, maxInvalidPerStep,
                decision, next, invalidThisStep, exchanged, invalidActions, actions, messages);
      if done {
        return;
      }
    }
  }

  /** `score_ollama_llm`: runs `num_episodes` episodes and returns the two
      parallel lists of rewards and invalid counts. */
  method ScoreOllamaLlm(model: Model, ghost replies: nat -> string, env: Environment, numEpisodes: int,
                        maxInvalidPerStep: int)
    returns (rewards: seq<real>, invalidActionsPerEpisode: seq<nat>)
    requires Cleans(model, replies)
    ensures rewards == Rewards(Runs(SourceProtocol, replies, env, numEpisodes, maxInvalidPerStep))
    ensures invalidActionsPerEpisode == InvalidCounts(Runs(SourceProtocol, replies, env, numEpisodes, maxInvalidPerStep))
  {
    rewards, invalidActionsPerEpisode := [], [];
    var count := EpisodeCount(numEpisodes);
    var next := 0;
    ghost var play := EpisodeOf(SourceProtocol, replies, env, maxInvalidPerStep);
    ghost var runs: seq<EpisodeRun> := [];
    for episode := 0 to count
      invariant |runs| == episode
      invariant Runs(SourceProtocol, replies, env, numEpisodes, maxInvalidPerStep)
                == runs + RunFrom(play, episode, count - episode, next)
      invariant rewards == Rewards(runs) && invalidActionsPerEpisode == InvalidCounts(runs)
    {
      var reward, invalidActions, after, messages, actions, forced :=
        RunEpisode(model, replies, env, episode, next, maxInvalidPerStep);
      ghost var run := EpisodeRun(reward, invalidActions, after, messages, actions, forced);
      EpisodeOfApply(SourceProtocol, replies, env, maxInvalidPerStep, episode, next);
      RunFromFirst(play, runs, episode, count - episode, next, run);
      RecordOne(runs, run);
      rewards := rewards + [reward];
      invalidActionsPerEpisode := invalidActionsPerEpisode + [invalidActions];
      runs := runs + [run];
      next := after;
    }
  }
}
