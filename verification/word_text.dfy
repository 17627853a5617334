/** The words of a text as the word counter prints them, said without its tables: a text is
    first freed of the hyphens that end a line inside a word, and then cut at everything that
    is neither a letter nor a hyphen between letters. */
module WordText {
  predicate Small(c: char) { 'a' <= c <= 'z' }

  predicate Capital(c: char) { 'A' <= c <= 'Z' }

  predicate InAlphabet(c: char) { Small(c) || Capital(c) }

  /** The small letter of a letter. */
  function Lower(c: char): (r: char)
    requires InAlphabet(c)
    ensures Small(r)
  {
    if Capital(c) then (c as int + 32) as char else c
  }

  /** t without each hyphen and line end that stand between two letters; `after` tells whether a
      letter stands before t. */
  function Unwrapped(t: string, after: bool): string
    decreases |t|
  {
    if t == "" then ""
    else if after && |t| > 2 && t[0] == '-' && t[1] == '\n' && InAlphabet(t[2]) then Unwrapped(t[2..], false)
    else [t[0]] + Unwrapped(t[1..], InAlphabet(t[0]))
  }

  function Whole(word: string): seq<string> { if word == "" then [] else [word] }

  /** The words of u, the first of which has begun with `word`. */
  function Runs(u: string, word: string): seq<string>
    decreases |u|
  {
    if u == "" then Whole(word)
    else if InAlphabet(u[0]) then Runs(u[1..], word + [Lower(u[0])])
    else if u[0] == '-' && word != "" && |u| > 1 && InAlphabet(u[1]) then Runs(u[1..], word + "-")
    else Whole(word) + Runs(u[1..], "")
  }

  function TextWords(t: string): seq<string> { Runs(Unwrapped(t, false), "") }

  /** What stands first in `Unwrapped` is what stood first, unless a line end was taken out. */
  lemma UnwrappedFirst(t: string)
    ensures Unwrapped(t, false) == if t == "" then "" else [t[0]] + Unwrapped(t[1..], InAlphabet(t[0]))
  {
  }

  // ---- the shape of the words ----

  /** Small letters, and single hyphens between them. */
  predicate WordShape(s: string) {
    && s != "" && Small(s[0]) && Small(s[|s| - 1])
    && (forall i :: 0 <= i < |s| ==> Small(s[i]) || s[i] == '-')
    && (forall i :: 0 < i < |s| ==> s[i - 1] != '-' || s[i] != '-')
  }

  /** A word that has begun, possibly just after a hyphen that a letter follows. */
  predicate Begun(word: string, u: string) {
    word == "" || WordShape(word)
    || (|word| > 1 && word[|word| - 1] == '-' && WordShape(word[..|word| - 1]) && u != "" && InAlphabet(u[0]))
  }

  lemma {:induction false} RunsShaped(u: string, word: string)
    requires Begun(word, u)
    ensures forall s :: s in Runs(u, word) ==> WordShape(s)
    decreases |u|
  {
    if u != "" {
      if InAlphabet(u[0]) {
        LetterGoesOn(word, u);
        RunsShaped(u[1..], word + [Lower(u[0])]);
      } else if u[0] == '-' && word != "" && |u| > 1 && InAlphabet(u[1]) {
        assert (word + "-")[..|word|] == word;
        RunsShaped(u[1..], word + "-");
      } else {
        RunsShaped(u[1..], "");
      }
    }
  }

  lemma LetterGoesOn(word: string, u: string)
    requires Begun(word, u) && u != "" && InAlphabet(u[0])
    ensures WordShape(word + [Lower(u[0])])
  {
    if word != "" && !WordShape(word) {
      var w := word[..|word| - 1];
      assert word == w + "-";
    }
  }

  /** Every word of a text has this shape. */
  lemma TextWordsShaped(t: string)
    ensures forall s :: s in TextWords(t) ==> WordShape(s)
  {
    RunsShaped(Unwrapped(t, false), "");
  }

  // ---- the listing ----

  /** A printed line. */
  type Line = (string, nat)

  /** s is listed before t: t goes on from s, or where they first differ s has the earlier letter
      or t a hyphen. */
  predicate Before(s: string, t: string) {
    exists k :: 0 <= k <= |s| && k < |t| && s[..k] == t[..k]
                && (k == |s| || (s[k] != '-' && (t[k] == '-' || s[k] < t[k])))
  }

  /** The lines list exactly these words, each once, in order, with how often it occurs. */
  ghost predicate Lists(lines: seq<Line>, words: seq<string>) {
    && (forall i, j :: 0 <= i < j < |lines| ==> Before(lines[i].0, lines[j].0))
    && (forall s :: s in words <==> exists i :: 0 <= i < |lines| && lines[i].0 == s)
    && (forall i :: 0 <= i < |lines| ==> lines[i].1 == multiset(words)[lines[i].0])
  }

  /** No word is listed before itself, so none is listed twice. */
  lemma NotBeforeItself(s: string)
    ensures !Before(s, s)
  {
  }
}
