/** Particular conversations of the scoring loop, worked out from the
    `Scoring` definitions: how near-miss replies are rejected, how the
    per-episode counter grows over a step, and what a step limit of one
    rejected reply does to an episode. */
module Scenarios {
  import opened Vocabulary
  import opened Text
  import opened Prompts
  import opened Collaborators
  import opened Scoring

  /** A reply that merely contains an action phrase is rejected: the scoring
      loop matches whole replies only. */
  lemma ContainingIsNotEnough()
    ensures Contains("go forward.", Phrases[2])
    ensures ParseAction("go forward.") == None
  {
    ContainsMiddle("", Phrases[2], ".");
    assert "" + Phrases[2] + "." == "go forward.";
    ParseActionSpec("go forward.");
    assert forall id :: 0 <= id < 7 ==> |Phrases[id]| != |"go forward."|;
  }

  /** The messages of a cycle of three requests. */
  lemma ExchangeOfThree(p: Protocol, replies: nat -> string, next: nat)
    ensures Exchange(p, replies, next, next + 3)
            == [Message(Assistant, replies(next)), Message(User, p.correction),
                Message(Assistant, replies(next + 1)), Message(User, p.correction),
                Message(Assistant, replies(next + 2))]
  {
    var last := [Message(Assistant, replies(next + 2))];
    assert Exchange(p, replies, next + 2, next + 3) == last;
    assert Exchange(p, replies, next + 1, next + 3)
           == [Message(Assistant, replies(next + 1)), Message(User, p.correction)] + last;
  }

  /** Two rejected replies and then "toggle", with at most five rejections
      per step: the step takes action 5 after three requests, both rejections
      count, and the conversation gets the three replies with a correction
      after each of the first two. */
  lemma RejectedTwiceThenToggle(replies: nat -> string, next: nat)
    requires replies(next) == "fly" && replies(next + 1) == "fly" && replies(next + 2) == "toggle"
    ensures Decide(SourceProtocol, replies, next, 0, 5) == Cycle(Chosen(5), next + 3, 2)
    ensures Exchange(SourceProtocol, replies, next, next + 3)
            == [Message(Assistant, "fly"), Message(User, InvalidActionMessage),
                Message(Assistant, "fly"), Message(User, InvalidActionMessage),
                Message(Assistant, "toggle")]
  {
    ParseActionSpec("fly");
    assert forall id :: 0 <= id < 7 ==> |Phrases[id]| != |"fly"|;
    ParseActionExact("toggle", 5);
    DecideAccepts(SourceProtocol, replies, next + 2, 2, 5, next + 3, 5);
    DecideRetries(SourceProtocol, replies, next + 1, 1, 5, next + 2, 2);
    DecideRetries(SourceProtocol, replies, next, 0, 5, next + 1, 1);
    ExchangeOfThree(SourceProtocol, replies, next);
  }

  /** With at most one rejected reply per step (`max_invalid_per_step` of 1
      or less), an episode whose first reply is rejected makes one request,
      sends no action, records reward 0 and one rejected reply, and ends
      with only that reply added to its conversation. */
  lemma SingleRejectionAbandons(p: Protocol, replies: nat -> string, env: Environment, episode: nat,
                                next: nat, maxInvalid: int)
    requires maxInvalid <= 1 && p.parse(replies(next)).None?
    ensures var r := Episode(p, replies, env, episode, next, maxInvalid);
      && r.next == next + 1 && r.forced && r.reward == 0.0 && r.actions == []
      && r.invalidActions == 1
      && r.log == InitialLog(p, env.reset(episode)) + [Message(Assistant, replies(next))]
  {
    DecideGivesUp(p, replies, next, 0, maxInvalid, next + 1, 1);
    PlayAbandons(p, replies, env, episode, next, InitialLog(p, env.reset(episode)), 0, [], maxInvalid,
                 next + 1, 1, InitialLog(p, env.reset(episode)) + Exchange(p, replies, next, next + 1), 1);
  }

  /** A model that answers "go forward" at once, in an environment whose
      episode ends after that one step with reward 1: the episode records
      reward 1 and no rejected reply, after one request and one step. */
  lemma GoForwardOnce(replies: nat -> string, env: Environment, episode: nat, next: nat, maxInvalid: int)
    requires replies(next) == "go forward"
    requires env.Step(episode, [2]).done && env.Step(episode, [2]).reward == 1.0
    ensures var r := Episode(SourceProtocol, replies, env, episode, next, maxInvalid);
      && r.reward == 1.0 && r.invalidActions == 0 && r.actions == [2] && !r.forced && r.next == next + 1
  {
    var p := SourceProtocol;
    var init := InitialLog(p, env.reset(episode));
    ParseActionExact("go forward", 2);
    DecideAccepts(p, replies, next, 0, maxInvalid, next + 1, 2);
    var exchanged := init + Exchange(p, replies, next, next + 1);
    PlayTakes(p, replies, env, episode, next, init, 0, [], maxInvalid, Chosen(2), next + 1, 0, exchanged, 0,
              [2], exchanged + [Message(User, p.observation(env.Step(episode, [2]).descriptions))]);
  }
}
