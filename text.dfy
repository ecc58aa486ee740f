/** The Python string operations the agents rely on: `sep.join(parts)`,
    the `in` substring test, `str.lower()` and `str.strip()`. */
module Text {

  /** `sep.join(parts)`. */
  function Join(parts: seq<string>, sep: string): string
  {
    if |parts| == 0 then ""
    else if |parts| == 1 then parts[0]
    else parts[0] + sep + Join(parts[1..], sep)
  }

  /** `needle` occurs in `hay` starting at position `i`. */
  predicate OccursAt(hay: string, needle: string, i: nat)
  {
    i + |needle| <= |hay| && hay[i..i + |needle|] == needle
  }

  /** Python's `needle in hay` on strings. */
  predicate Contains(hay: string, needle: string)
  {
    exists i: nat :: i <= |hay| && OccursAt(hay, needle, i)
  }

  /** Anything occurs in a string that has it as a middle part. */
  lemma ContainsMiddle(a: string, needle: string, b: string)
    ensures Contains(a + needle + b, needle)
  {
    var hay := a + needle + b;
    assert hay[|a|..|a| + |needle|] == needle;
    assert OccursAt(hay, needle, |a|);
  }

  /** An occurrence survives extending the string on either side. */
  lemma ContainsExtend(a: string, mid: string, b: string, needle: string)
    requires Contains(mid, needle)
    ensures Contains(a + mid + b, needle)
  {
    var i: nat :| i <= |mid| && OccursAt(mid, needle, i);
    var hay := a + mid + b;
    assert hay[|a| + i..|a| + i + |needle|] == mid[i..i + |needle|];
    assert OccursAt(hay, needle, |a| + i);
  }

  /** Every part of a join occurs in it. */
  lemma {:induction false} JoinContainsParts(parts: seq<string>, sep: string, k: nat)
    requires k < |parts|
    ensures Contains(Join(parts, sep), parts[k])
  {
    if |parts| == 1 {
      ContainsMiddle("", parts[0], "");
      assert "" + parts[0] + "" == parts[0];
    } else if k == 0 {
      ContainsMiddle("", parts[0], sep + Join(parts[1..], sep));
      assert "" + parts[0] + (sep + Join(parts[1..], sep)) == Join(parts, sep);
    } else {
      JoinContainsParts(parts[1..], sep, k - 1);
      ContainsExtend(parts[0] + sep, Join(parts[1..], sep), "", parts[k]);
      assert parts[0] + sep + Join(parts[1..], sep) + "" == Join(parts, sep);
    }
  }

  /** `str.lower()` on one character, for the ASCII letters. */
  function LowerChar(c: char): char
  {
    if 'A' <= c <= 'Z' then (c as int - 'A' as int + 'a' as int) as char else c
  }

  /** `str.lower()`, character by character. */
  function Lower(s: string): (r: string)
    ensures |r| == |s|
  {
    if s == [] then [] else [LowerChar(s[0])] + Lower(s[1..])
  }

  /** Lowering maps every character on its own. */
  lemma {:induction false} LowerEach(s: string)
    ensures forall i :: 0 <= i < |s| ==> Lower(s)[i] == LowerChar(s[i])
  {
    if s != [] {
      LowerEach(s[1..]);
    }
  }

  /** Lowering distributes over concatenation. */
  lemma {:induction false} LowerAppend(a: string, b: string)
    ensures Lower(a + b) == Lower(a) + Lower(b)
    decreases |a|
  {
    if a != [] {
      LowerAppend(a[1..], b);
      assert (a + b)[1..] == a[1..] + b;
    } else {
      assert a + b == b;
    }
  }

  /** A text without capital letters is its own lower-case form. */
  lemma {:induction false} LowerKeepsLowerCase(s: string)
    requires forall i :: 0 <= i < |s| ==> !('A' <= s[i] <= 'Z')
    ensures Lower(s) == s
    decreases |s|
  {
    if s != [] {
      LowerKeepsLowerCase(s[1..]);
    }
  }

  /** An occurrence of a lower-case needle survives lowering the text. */
  lemma LowerKeepsOccurrence(hay: string, needle: string)
    requires Contains(hay, needle)
    requires forall i :: 0 <= i < |needle| ==> !('A' <= needle[i] <= 'Z')
    ensures Contains(Lower(hay), needle)
  {
    var i: nat :| i <= |hay| && OccursAt(hay, needle, i);
    var j := i + |needle|;
    assert hay == hay[..i] + needle + hay[j..];
    LowerAppend(hay[..i] + needle, hay[j..]);
    LowerAppend(hay[..i], needle);
    LowerKeepsLowerCase(needle);
    ContainsMiddle(Lower(hay[..i]), needle, Lower(hay[j..]));
  }

  /** `c.isspace()`: the characters Python counts as white space. */
  predicate IsSpace(c: char)
  {
    c == ' ' || '\t' <= c <= '\r' || '\U{1c}' <= c <= '\U{1f}' || c == '\U{85}' || c == '\U{a0}'
    || c == '\U{1680}' || '\U{2000}' <= c <= '\U{200a}' || c == '\U{2028}' || c == '\U{2029}'
    || c == '\U{202f}' || c == '\U{205f}' || c == '\U{3000}'
  }

  /** Lowering neither creates nor removes white space. */
  lemma LowerCharKeepsSpace(c: char)
    ensures IsSpace(LowerChar(c)) <==> IsSpace(c)
  {
  }

  /** `str.strip()`: removes white space from both ends. */
  function Strip(s: string): string
    decreases |s|
  {
    if s != [] && IsSpace(s[0]) then Strip(s[1..])
    else if s != [] && IsSpace(s[|s| - 1]) then Strip(s[..|s| - 1])
    else s
  }

  /** `r` is the slice of `s` starting at `lo`, and everything of `s`
      outside that slice is white space. */
  predicate TrimmedAt(s: string, r: string, lo: nat)
  {
    lo + |r| <= |s| && r == s[lo..lo + |r|]
    && (forall i :: 0 <= i < lo ==> IsSpace(s[i]))
    && (forall i :: lo + |r| <= i < |s| ==> IsSpace(s[i]))
  }

  /** A trimmed slice of the string without its leading white space is a
      trimmed slice of the whole string. */
  lemma TrimmedAfterFirst(s: string, r: string, lo: nat)
    requires s != [] && IsSpace(s[0]) && TrimmedAt(s[1..], r, lo)
    ensures TrimmedAt(s, r, lo + 1)
  {
    assert s[1..][lo..lo + |r|] == s[lo + 1..lo + 1 + |r|];
    assert forall i :: 1 <= i < |s| ==> s[i] == s[1..][i - 1];
  }

  /** A trimmed slice of the string without its trailing white space is a
      trimmed slice of the whole string. */
  lemma TrimmedBeforeLast(s: string, r: string, lo: nat)
    requires s != [] && IsSpace(s[|s| - 1]) && TrimmedAt(s[..|s| - 1], r, lo)
    ensures TrimmedAt(s, r, lo)
  {
    assert s[..|s| - 1][lo..lo + |r|] == s[lo..lo + |r|];
  }

  /** The stripped text is a slice of `s` with only white space around it. */
  lemma {:induction false} StripTrims(s: string)
    ensures exists lo: nat :: TrimmedAt(s, Strip(s), lo)
    decreases |s|
  {
    var r := Strip(s);
    if s != [] && IsSpace(s[0]) {
      StripTrims(s[1..]);
      var lo: nat :| TrimmedAt(s[1..], r, lo);
      TrimmedAfterFirst(s, r, lo);
    } else if s != [] && IsSpace(s[|s| - 1]) {
      StripTrims(s[..|s| - 1]);
      var lo: nat :| TrimmedAt(s[..|s| - 1], r, lo);
      TrimmedBeforeLast(s, r, lo);
    } else {
      assert TrimmedAt(s, r, 0);
    }
  }

  /** The stripped text neither starts nor ends with white space. */
  lemma {:induction false} StripEnds(s: string)
    ensures Strip(s) != [] ==> !IsSpace(Strip(s)[0]) && !IsSpace(Strip(s)[|Strip(s)| - 1])
    decreases |s|
  {
    if s != [] && IsSpace(s[0]) {
      StripEnds(s[1..]);
    } else if s != [] && IsSpace(s[|s| - 1]) {
      StripEnds(s[..|s| - 1]);
    }
  }

  /** Lowering commutes with dropping the first character. */
  lemma LowerTail(s: string)
    requires s != []
    ensures Lower(s)[0] == LowerChar(s[0]) && Lower(s)[1..] == Lower(s[1..])
  {
  }

  /** Lowering commutes with dropping the last character. */
  lemma {:induction false} LowerInit(s: string)
    requires s != []
    ensures Lower(s)[|s| - 1] == LowerChar(s[|s| - 1]) && Lower(s)[..|s| - 1] == Lower(s[..|s| - 1])
  {
    LowerEach(s);
    LowerEach(s[..|s| - 1]);
  }

  /** `text.lower().strip()`, the cleaning the scoring loop applies to a model
      reply, computed by stripping first (lemma NormalizeIsLowerStrip shows
      the order does not matter). */
  function Normalize(raw: string): string
    decreases |raw|
  {
    if raw != [] && IsSpace(raw[0]) then Normalize(raw[1..])
    else if raw != [] && IsSpace(raw[|raw| - 1]) then Normalize(raw[..|raw| - 1])
    else Lower(raw)
  }

  /** Cleaning a reply is `raw.lower().strip()`. */
  lemma {:induction false} NormalizeIsLowerStrip(raw: string)
    ensures Normalize(raw) == Strip(Lower(raw))
    decreases |raw|
  {
    if raw != [] {
      var low := Lower(raw);
      LowerTail(raw);
      LowerInit(raw);
      LowerCharKeepsSpace(raw[0]);
      LowerCharKeepsSpace(raw[|raw| - 1]);
      if IsSpace(raw[0]) {
        NormalizeIsLowerStrip(raw[1..]);
      } else if IsSpace(raw[|raw| - 1]) {
        NormalizeIsLowerStrip(raw[..|raw| - 1]);
      }
    }
  }
}
