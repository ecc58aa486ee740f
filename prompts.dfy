/** The texts the scoring loop puts into the conversation: the system
    instructions, the rendering of an observation and the corrective message
    sent after an unrecognised reply. */
module Prompts {
  import opened Vocabulary
  import opened Text

  /** The part of the instructions before the emphasised goal. */
  const InstructionsHead: string :=
    "\nYou are an agent playing a simple navigation game. Your goal is to "

  /** The action catalogue: one line per action phrase with its meaning.
      It describes six of the seven phrases; "done" is not listed. */
  const ActionCatalogue: string :=
    "turn left: turn to the left,\n"
    + "turn right: turn to the right,\n"
    + "go forward: take one step forward,\n"
    + "pick up: pick up the object below you,\n"
    + "drop: drop the object that you are holding,\n"
    + "toggle: manipulate the object in front of you."

  /** The part of the instructions after the emphasised goal. */
  const InstructionsTail: string :=
    ". The following are the possible actions you can take in the game, followed by a short description of each action:\n\n"
    + ActionCatalogue
    + "\n\nIn a moment I will present you an observation.\n\nTips:\n"
    + "- Once the desired object you want to interact or pickup in front of you, you can use the 'toggle' action to interact with it.\n"
    + "- It doesn't make sense to repeat the same action over and over if the observation doesn't change.\n\nPLAY!"

  /** `get_instructions(goal)`: the system message of every episode, with
      the goal set in bold (between `**` markers). */
  function GetInstructions(goal: string): string
  {
    InstructionsHead + "**" + goal + "**" + InstructionsTail
  }

  /** A text made of a fixed head, a goal between `**` markers and a fixed
      tail quotes the goal at a fixed position, so the goal can be read back
      from it and different goals give different texts. */
  lemma {:induction false} Emphasised(head: string, goal: string, other: string, tail: string)
    ensures Contains(head + "**" + goal + "**" + tail, "**" + goal + "**")
    ensures |head + "**" + goal + "**" + tail| == |head| + |goal| + 4 + |tail|
    ensures (head + "**" + goal + "**" + tail)[|head| + 2..|head| + 2 + |goal|] == goal
    ensures head + "**" + goal + "**" + tail == head + "**" + other + "**" + tail <==> goal == other
  {
    var text := head + "**" + goal + "**" + tail;
    var h := |head| + 2;
    ContainsMiddle(head, "**" + goal + "**", tail);
    assert text == head + ("**" + goal + "**") + tail;
    assert text[h..h + |goal|] == goal;
    if text == head + "**" + other + "**" + tail {
      assert |goal| == |other|;
      assert (head + "**" + other + "**" + tail)[h..h + |other|] == other;
    }
  }

  /** The instructions quote the goal between `**` markers at a fixed
      position, so different goals give different instructions and the goal
      can be read back from the text. */
  lemma InstructionsDetermineGoal(goal: string, other: string)
    ensures Contains(GetInstructions(goal), "**" + goal + "**")
    ensures |GetInstructions(goal)| == |InstructionsHead| + |goal| + 4 + |InstructionsTail|
    ensures GetInstructions(goal)[|InstructionsHead| + 2..|InstructionsHead| + 2 + |goal|] == goal
    ensures GetInstructions(goal) == GetInstructions(other) <==> goal == other
  {
    Emphasised(InstructionsHead, goal, other, InstructionsTail);
  }

  /** The observation text built from a list of descriptions: each
      description followed by a line break, in order. */
  function Lines(descriptions: seq<string>): string
  {
    if descriptions == [] then ""
    else Lines(descriptions[..|descriptions| - 1]) + descriptions[|descriptions| - 1] + "\n"
  }

  /** `parse_observation(obs, info)`: appends every description and a line
      break to an accumulator. */
  method ParseObservation(descriptions: seq<string>) returns (out: string)
    ensures out == Lines(descriptions)
  {
    out := "";
    for i := 0 to |descriptions|
      invariant out == Lines(descriptions[..i])
    {
      assert descriptions[..i + 1][..i] == descriptions[..i];
      out := out + descriptions[i] + "\n";
    }
    assert descriptions[..|descriptions|] == descriptions;
  }

  /** The observation text is empty exactly when there are no descriptions;
      otherwise it is the descriptions joined by line breaks, with a final
      line break. */
  lemma {:induction false} LinesAsJoin(descriptions: seq<string>)
    ensures Lines(descriptions) == "" <==> descriptions == []
    ensures descriptions != [] ==> Lines(descriptions) == Join(descriptions, "\n") + "\n"
    decreases |descriptions|
  {
    var n := |descriptions|;
    if n > 1 {
      var init := descriptions[..n - 1];
      LinesAsJoin(init);
      JoinSnoc(init, descriptions[n - 1], "\n");
      assert init + [descriptions[n - 1]] == descriptions;
    } else if n == 1 {
      assert descriptions[..0] == [];
    }
  }

  /** Joining one more part appends the separator and the part. */
  lemma {:induction false} JoinSnoc(parts: seq<string>, last: string, sep: string)
    requires parts != []
    ensures Join(parts + [last], sep) == Join(parts, sep) + sep + last
    decreases |parts|
  {
    if |parts| > 1 {
      JoinSnoc(parts[1..], last, sep);
      assert (parts + [last])[1..] == parts[1..] + [last];
    } else {
      assert (parts + [last])[1..] == [last];
    }
  }

  /** Every description of an observation appears in its text as a whole
      line. */
  lemma {:induction false} LinesContainDescription(descriptions: seq<string>, k: nat)
    requires k < |descriptions|
    ensures Contains(Lines(descriptions), descriptions[k] + "\n")
    decreases |descriptions|
  {
    var n := |descriptions|;
    var init := descriptions[..n - 1];
    if k == n - 1 {
      ContainsMiddle(Lines(init), descriptions[k] + "\n", "");
      assert Lines(init) + (descriptions[k] + "\n") + "" == Lines(descriptions);
    } else {
      LinesContainDescription(init, k);
      ContainsExtend("", Lines(init), descriptions[n - 1] + "\n", descriptions[k] + "\n");
      assert "" + Lines(init) + (descriptions[n - 1] + "\n") == Lines(descriptions);
    }
  }

  /** The corrective message sent after an unrecognised reply: the action
      phrases in id order, joined by ", ", and a request to answer with one
      of them. */
  const InvalidActionMessage: string :=
    "Invalid action, the valid actions are: " + Join(Phrases, ", ") + ".\n"
    + "Please output one of the above actions and nothing else."

  /** Every part of a join occurs in any text that quotes the join. */
  lemma QuotesParts(prefix: string, parts: seq<string>, sep: string, suffix: string, k: nat)
    requires k < |parts|
    ensures Contains(prefix + Join(parts, sep) + suffix, parts[k])
  {
    JoinContainsParts(parts, sep, k);
    ContainsExtend(prefix, Join(parts, sep), suffix, parts[k]);
  }

  /** The corrective message names every action phrase. */
  lemma InvalidActionMessageListsPhrases(id: ActionId)
    ensures Contains(InvalidActionMessage, Phrases[id])
  {
    QuotesParts("Invalid action, the valid actions are: ", Phrases, ", ",
      ".\n" + "Please output one of the above actions and nothing else.", id);
    assert InvalidActionMessage == "Invalid action, the valid actions are: " + Join(Phrases, ", ")
      + (".\n" + "Please output one of the above actions and nothing else.");
  }
}
