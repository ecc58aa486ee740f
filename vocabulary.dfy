/** The fixed action vocabulary of the BabyAI text agents: seven action ids
    and their canonical phrases, in id order (the insertion order of the
    `action_to_text` dictionary, which is also the iteration order of the
    derived `text_to_action` dictionary). */
module Vocabulary {

  datatype Option<+T> = None | Some(value: T)

  /** A BabyAI action identifier. */
  type ActionId = i: nat | i < 7

  /** The action phrases, indexed by action id. */
  const Phrases: seq<string> :=
    ["turn left", "turn right", "go forward", "pick up", "drop", "toggle", "done"]

  /** The `action_to_text` dictionary. */
  const ActionToText: map<ActionId, string> := map id: ActionId | 0 <= id < 7 :: Phrases[id]

  /** The first `n` entries of the dictionary comprehension that swaps the
      keys and values of `action_to_text`, inserted in id order (a later
      entry with the same key would overwrite an earlier one). */
  function Inverted(n: nat): map<string, ActionId>
    requires n <= 7
  {
    if n == 0 then map[] else Inverted(n - 1)[Phrases[n - 1] := n - 1]
  }

  /** The `text_to_action` dictionary. */
  const TextToAction: map<string, ActionId> := Inverted(7)

  /** The phrases are pairwise distinct, so `text_to_action` loses nothing. */
  lemma PhrasesDistinct()
    ensures forall i, j :: 0 <= i < j < |Phrases| ==> Phrases[i] != Phrases[j]
  {
    assert Phrases[0] == "turn left" && Phrases[1] == "turn right" && Phrases[2] == "go forward";
    assert Phrases[3] == "pick up" && Phrases[4] == "drop" && Phrases[5] == "toggle" && Phrases[6] == "done";
    assert "turn right"[0] != "go forward"[0];
    assert "drop"[1] != "done"[1];
  }

  /** Looking up the phrase of `id` in `text_to_action` yields `id`. */
  lemma LookupPhrase(id: ActionId)
    ensures Phrases[id] in TextToAction && TextToAction[Phrases[id]] == id
  {
    assert TextToAction == map["turn left" := 0, "turn right" := 1, "go forward" := 2,
      "pick up" := 3, "drop" := 4, "toggle" := 5, "done" := 6];
  }

  /** `text_to_action` is the inverse of `action_to_text`: every id survives
      the round trip, every phrase key maps back to itself, and the phrase
      keys are exactly the vocabulary. */
  lemma TextToActionInverse()
    ensures forall id: ActionId :: id in ActionToText && ActionToText[id] == Phrases[id]
    ensures forall id: ActionId :: ActionToText[id] in TextToAction && TextToAction[ActionToText[id]] == id
    ensures forall t :: t in TextToAction <==> t in Phrases
    ensures forall t :: t in TextToAction ==> ActionToText[TextToAction[t]] == t
  {
    forall id: ActionId ensures Phrases[id] in TextToAction && TextToAction[Phrases[id]] == id {
      LookupPhrase(id);
    }
  }

  /** `action_to_text` is injective. */
  lemma ActionToTextInjective(a: ActionId, b: ActionId)
    ensures ActionToText[a] == ActionToText[b] <==> a == b
  {
    PhrasesDistinct();
  }

  /** The first id, from `from` on, whose phrase is `text`. */
  function Lookup(text: string, from: nat): Option<ActionId>
    requires from <= 7
    decreases 7 - from
  {
    if from == 7 then None else if Phrases[from] == text then Some(from) else Lookup(text, from + 1)
  }

  /** The search finds only ids whose phrase is `text`, and misses only when
      no id from `from` on has that phrase. */
  lemma {:induction false} LookupFinds(text: string, from: nat)
    requires from <= 7
    ensures Lookup(text, from).Some? ==> from <= Lookup(text, from).value && Phrases[Lookup(text, from).value] == text
    ensures Lookup(text, from).None? ==> forall id :: from <= id < 7 ==> Phrases[id] != text
    decreases 7 - from
  {
    if from < 7 && Phrases[from] != text {
      LookupFinds(text, from + 1);
    }
  }

  /** `parse_action` in score_ollama_llm, `text_to_action.get(text)`:
      computed by a search through the phrases (lemma ParseActionIsLookup
      shows it agrees with the dictionary). */
  function ParseAction(text: string): Option<ActionId>
  {
    Lookup(text, 0)
  }

  /** Parsing succeeds exactly on the vocabulary phrases, and yields the id
      of the phrase. */
  lemma ParseActionSpec(text: string)
    ensures ParseAction(text).Some? <==> text in Phrases
    ensures ParseAction(text).Some? ==> Phrases[ParseAction(text).value] == text
  {
    LookupFinds(text, 0);
  }

  /** The search agrees with a `text_to_action` lookup: it succeeds exactly
      on the dictionary's keys, with the dictionary's value. */
  lemma ParseActionIsLookup(text: string)
    ensures ParseAction(text).Some? <==> text in TextToAction
    ensures text in TextToAction ==> ParseAction(text) == Some(TextToAction[text])
  {
    ParseActionSpec(text);
    TextToActionInverse();
    PhrasesDistinct();
  }

  /** Parsing a phrase yields its id, and only that phrase yields it. */
  lemma ParseActionExact(text: string, id: ActionId)
    ensures ParseAction(text) == Some(id) <==> text == Phrases[id]
  {
    ParseActionSpec(text);
    PhrasesDistinct();
  }
  /** The items of the dictionary that swaps the keys and values of the
      id-to-phrase dictionary with the given phrases: the comprehension
      inserts the swapped pairs in id order, and a dictionary iterates in
      insertion order. */
  function SwappedItems(phrases: seq<string>): seq<(string, ActionId)>
    requires |phrases| <= 7
  {
    seq(|phrases|, i requires 0 <= i < |phrases| => (phrases[i], i as ActionId))
  }

  /** `text_to_action.items()`, in iteration order. */
  const TextToActionItems: seq<(string, ActionId)> := SwappedItems(Phrases)

  /** `text_to_action` iterates in id order: entry `i` is the phrase of id
      `i` with the value `i`, which is also what the dictionary maps that
      phrase to. */
  lemma TextToActionItemsInOrder()
    ensures |TextToActionItems| == 7
    ensures forall i :: 0 <= i < 7 ==> TextToActionItems[i] == (Phrases[i], i as ActionId)
    ensures forall i :: 0 <= i < 7 ==> TextToAction[TextToActionItems[i].0] == TextToActionItems[i].1
  {
    TextToActionInverse();
  }
}
