/**
 * Display titles for repository names (app.js `humanizeRepoName`):
 * every `-` and `_` becomes a space, then every `\w` character that
 * starts a word in the sense of the regular expression `\b\w` is upper-cased.
 */
module Humanize {

  /** JavaScript's `\w`: ASCII letters, digits and the underscore. Every other character is a non-word character. */
  predicate IsWordChar(c: char) {
    ('a' <= c <= 'z') || ('A' <= c <= 'Z') || ('0' <= c <= '9') || c == '_'
  }

  /** ASCII letters and digits: the word characters that survive the first replacement. */
  predicate IsAlnum(c: char) {
    ('a' <= c <= 'z') || ('A' <= c <= 'Z') || ('0' <= c <= '9')
  }

  predicate IsSeparator(c: char) {
    c == '-' || c == '_'
  }

  /** `toUpperCase` on a single `\w` character: only `a`..`z` change. */
  function Upper(c: char): (u: char)
    ensures IsWordChar(u) == IsWordChar(c) && IsAlnum(u) == IsAlnum(c)
    ensures !IsSeparator(c) ==> !IsSeparator(u)
    ensures !('a' <= u <= 'z')
    ensures u != c ==> 'a' <= c <= 'z' && 'A' <= u <= 'Z'
    ensures 'a' <= c <= 'z' ==> u as int - 'A' as int == c as int - 'a' as int
  {
    if 'a' <= c <= 'z' then (c as int - 32) as char else c
  }

  /** The first replacement, `replace(/[-_]/g, ' ')`. */
  function SeparatorsToSpaces(s: string): (r: string)
    ensures |r| == |s|
    ensures forall i :: 0 <= i < |s| ==> r[i] == if IsSeparator(s[i]) then ' ' else s[i]
  {
    if s == [] then []
    else [if IsSeparator(s[0]) then ' ' else s[0]] + SeparatorsToSpaces(s[1..])
  }

  /**
   * Whether `\b\w` matches at position i of s: s[i] is a word character and
   * the character before it (or, at i = 0, the context `afterWord`) is not.
   */
  predicate MatchesWordStart(s: string, i: int, afterWord: bool)
    requires 0 <= i < |s|
  {
    IsWordChar(s[i]) && !(if i == 0 then afterWord else IsWordChar(s[i - 1]))
  }

  /**
   * The second replacement, `replace(/\b\w/g, c => c.toUpperCase())`, scanning
   * left to right; `afterWord` says whether the text before s is a word character.
   */
  function UpcaseWordStarts(s: string, afterWord: bool): (r: string)
    ensures |r| == |s|
    ensures forall i :: 0 <= i < |s| ==>
      r[i] == if MatchesWordStart(s, i, afterWord) then Upper(s[i]) else s[i]
  {
    if s == [] then []
    else
      [if IsWordChar(s[0]) && !afterWord then Upper(s[0]) else s[0]]
      + UpcaseWordStarts(s[1..], IsWordChar(s[0]))
  }

  /**
   * A letter or digit that begins the name or follows a character that is
   * neither a letter nor a digit (hyphens and underscores included).
   */
  predicate BeginsWord(name: string, i: int)
    requires 0 <= i < |name|
  {
    IsAlnum(name[i]) && (i == 0 || !IsAlnum(name[i - 1]))
  }

  function HumanizeRepoName(name: string): (title: string)
    ensures |title| == |name|
    ensures forall i :: 0 <= i < |name| ==>
      title[i] == if IsSeparator(name[i]) then ' '
                  else if BeginsWord(name, i) then Upper(name[i])
                  else name[i]
    ensures forall i :: 0 <= i < |title| ==> !IsSeparator(title[i])
  {
    var spaced := SeparatorsToSpaces(name);
    forall i | 0 <= i < |name|
      ensures MatchesWordStart(spaced, i, false) == BeginsWord(name, i)
    {
    }
    UpcaseWordStarts(spaced, false)
  }

  /** Humanizing a title again changes nothing. */
  lemma HumanizeIdempotent(name: string)
    ensures HumanizeRepoName(HumanizeRepoName(name)) == HumanizeRepoName(name)
  {
    var title := HumanizeRepoName(name);
    var again := HumanizeRepoName(title);
    forall i | 0 <= i < |name|
      ensures IsAlnum(title[i]) == IsAlnum(name[i])
    {
    }
    forall i | 0 <= i < |name|
      ensures again[i] == title[i]
    {
      assert BeginsWord(title, i) == BeginsWord(name, i);
    }
  }

  predicate AllAlnum(w: string) {
    forall i :: 0 <= i < |w| ==> IsAlnum(w[i])
  }

  /** A word with its first character upper-cased. */
  function Capitalize(w: string): string
    requires w != []
  {
    [Upper(w[0])] + w[1..]
  }

  /** A name of letters and digits only is one word: just its first character changes. */
  lemma HumanizeWord(w: string)
    requires w != [] && AllAlnum(w)
    ensures HumanizeRepoName(w) == Capitalize(w)
  {
    var title := HumanizeRepoName(w);
    forall i | 0 <= i < |w|
      ensures title[i] == Capitalize(w)[i]
    {
      if i > 0 {
        assert !BeginsWord(w, i);
      }
    }
  }

  /**
   * A leading word and the separator after it are humanized on their own:
   * the word is capitalized, the separator becomes a space, and the rest of
   * the name is humanized as if it stood alone.
   */
  lemma HumanizeAfterWord(w: string, sep: char, rest: string)
    requires w != [] && AllAlnum(w) && IsSeparator(sep)
    ensures HumanizeRepoName(w + [sep] + rest) == Capitalize(w) + " " + HumanizeRepoName(rest)
  {
    var name := w + [sep] + rest;
    var title := HumanizeRepoName(name);
    var expected := Capitalize(w) + " " + HumanizeRepoName(rest);
    forall i | 0 <= i < |name|
      ensures title[i] == expected[i]
    {
      if i < |w| {
        if i > 0 {
          assert !BeginsWord(name, i);
        }
      } else if i > |w| {
        var k := i - |w| - 1;
        assert name[i] == rest[k];
        assert BeginsWord(name, i) == BeginsWord(rest, k);
      }
    }
  }

  /** Three words joined by separators: each word capitalized, each separator a space. */
  lemma HumanizeThreeWords(w1: string, s1: char, w2: string, s2: char, w3: string)
    requires w1 != [] && AllAlnum(w1) && w2 != [] && AllAlnum(w2) && w3 != [] && AllAlnum(w3)
    requires IsSeparator(s1) && IsSeparator(s2)
    ensures HumanizeRepoName(w1 + [s1] + (w2 + [s2] + w3))
         == Capitalize(w1) + " " + (Capitalize(w2) + " " + Capitalize(w3))
  {
    HumanizeAfterWord(w1, s1, w2 + [s2] + w3);
    HumanizeAfterWord(w2, s2, w3);
    HumanizeWord(w3);
  }

  /** The worked example: `fetch-quest_tracker` is shown as `Fetch Quest Tracker`. */
  lemma HumanizeExample(name: string)
    requires name == "fetch-quest_tracker"
    ensures HumanizeRepoName(name) == "Fetch Quest Tracker"
  {
    var fetch, quest, tracker := "fetch", "quest", "tracker";
    ExampleParts(name, fetch, quest, tracker);
    HumanizeThreeWords(fetch, '-', quest, '_', tracker);
    ExampleWords(fetch, quest, tracker);
  }

  lemma ExampleParts(name: string, fetch: string, quest: string, tracker: string)
    requires name == "fetch-quest_tracker"
    requires fetch == "fetch" && quest == "quest" && tracker == "tracker"
    ensures name == fetch + ['-'] + (quest + ['_'] + tracker)
    ensures fetch != [] && AllAlnum(fetch) && quest != [] && AllAlnum(quest) && tracker != [] && AllAlnum(tracker)
  {
  }

  lemma ExampleWords(fetch: string, quest: string, tracker: string)
    requires fetch == "fetch" && quest == "quest" && tracker == "tracker"
    ensures Capitalize(fetch) + " " + (Capitalize(quest) + " " + Capitalize(tracker)) == "Fetch Quest Tracker"
  {
    assert Upper('f') == 'F' && Upper('q') == 'Q' && Upper('t') == 'T';
    assert Capitalize(fetch) == "Fetch";
    assert Capitalize(quest) == "Quest";
    assert Capitalize(tracker) == "Tracker";
  }
}
