/**
 * The text a project card derives from a project record (`createProjectCard`):
 * the display title built from the repository name, and the description cut
 * down to a fixed length.
 */
module Text {

  /** Descriptions longer than this many characters are cut. */
  const MaxDescriptionLength: nat := 150

  /** What replaces the cut-off part of a long description. */
  const Ellipsis: string := "..."

  /** ASCII upper-casing: `a`..`z` become `A`..`Z`, everything else is kept. */
  function ToUpper(c: char): (u: char)
    ensures u == c || 'A' <= u <= 'Z'
  {
    if 'a' <= c <= 'z' then (c as int - 32) as char else c
  }

  /** The first step of the title: every `-` becomes a space. */
  function DashToSpace(c: char): char {
    if c == '-' then ' ' else c
  }

  /** `name.replace(/-/g, ' ')`. */
  function ReplaceDashes(s: string): (r: string)
    ensures |r| == |s|
    ensures forall i :: 0 <= i < |s| ==> r[i] == DashToSpace(s[i])
  {
    seq(|s|, i requires 0 <= i < |s| => DashToSpace(s[i]))
  }

  /**
   * `s.split(' ')`: the maximal space-free runs of `s`, in order. Two adjacent
   * spaces, or a space at either end, give an empty word; the empty text
   * gives one empty word.
   */
  function SplitOnSpace(s: string): (words: seq<string>)
    ensures |words| > 0
    ensures forall k :: 0 <= k < |words| ==> ' ' !in words[k]
    decreases |s|
  {
    if |s| == 0 then [""]
    else
      var tail := SplitOnSpace(s[1..]);
      if s[0] == ' ' then [""] + tail
      else [[s[0]] + tail[0]] + tail[1..]
  }

  /** `words.join(' ')`. */
  function Join(words: seq<string>): string
    requires |words| > 0
    decreases |words|
  {
    if |words| == 1 then words[0] else words[0] + " " + Join(words[1..])
  }

  /** `word.charAt(0).toUpperCase() + word.slice(1)`. */
  function Capitalize(word: string): string {
    if |word| == 0 then word else [ToUpper(word[0])] + word[1..]
  }

  /** `words.map(Capitalize)`. */
  function CapitalizeAll(words: seq<string>): (r: seq<string>)
    ensures |r| == |words|
    decreases |words|
  {
    if |words| == 0 then [] else [Capitalize(words[0])] + CapitalizeAll(words[1..])
  }

  /** Every word but the first capitalized. */
  function CapitalizeAllButFirst(words: seq<string>): seq<string>
    requires |words| > 0
  {
    [words[0]] + CapitalizeAll(words[1..])
  }

  /**
   * Reference definition of title-casing, one character at a time: a
   * character is upper-cased when it starts the text (and `atStart` holds)
   * or follows a space.
   */
  function UpperAfterSpaces(t: string, atStart: bool): string
    decreases |t|
  {
    if |t| == 0 then ""
    else [if atStart then ToUpper(t[0]) else t[0]] + UpperAfterSpaces(t[1..], t[0] == ' ')
  }

  /** Joining with a space is right-associative at the first character. */
  lemma JoinConsChar(c: char, w: string, rest: seq<string>)
    ensures Join([[c] + w] + rest) == [c] + Join([w] + rest)
  {
    assert ([[c] + w] + rest)[1..] == rest;
    assert ([w] + rest)[1..] == rest;
  }

  /** Joining the words of a text with a space gives the text back. */
  lemma {:induction false} JoinSplit(s: string)
    ensures Join(SplitOnSpace(s)) == s
    decreases |s|
  {
    if |s| > 0 {
      var tail := SplitOnSpace(s[1..]);
      JoinSplit(s[1..]);
      if s[0] == ' ' {
        assert ([""] + tail)[1..] == tail;
      } else {
        JoinConsChar(s[0], tail[0], tail[1..]);
        assert [tail[0]] + tail[1..] == tail;
      }
      assert [s[0]] + s[1..] == s;
    }
  }

  /**
   * Split, capitalize and join agrees with the reference definition, both
   * when the first word is capitalized and when it is not.
   */
  lemma {:induction false} SplitCapitalizeJoin(t: string)
    ensures Join(CapitalizeAll(SplitOnSpace(t))) == UpperAfterSpaces(t, true)
    ensures Join(CapitalizeAllButFirst(SplitOnSpace(t))) == UpperAfterSpaces(t, false)
    decreases |t|
  {
    if |t| > 0 {
      var tail := SplitOnSpace(t[1..]);
      SplitCapitalizeJoin(t[1..]);
      if t[0] == ' ' {
        var words := [""] + tail;
        assert words[1..] == tail;
        assert CapitalizeAll(words) == [""] + CapitalizeAll(tail);
        assert CapitalizeAllButFirst(words) == [""] + CapitalizeAll(tail);
      } else {
        var words := [[t[0]] + tail[0]] + tail[1..];
        assert words[1..] == tail[1..];
        assert ([t[0]] + tail[0])[1..] == tail[0];
        assert CapitalizeAll(words) == [[ToUpper(t[0])] + tail[0]] + CapitalizeAll(tail[1..]);
        JoinConsChar(ToUpper(t[0]), tail[0], CapitalizeAll(tail[1..]));
        JoinConsChar(t[0], tail[0], CapitalizeAll(tail[1..]));
      }
    }
  }

  /** Character-level meaning of the reference definition. */
  lemma {:induction false} UpperAfterSpacesAt(t: string, atStart: bool)
    ensures |UpperAfterSpaces(t, atStart)| == |t|
    ensures forall i :: 0 <= i < |t| ==>
      UpperAfterSpaces(t, atStart)[i] ==
        (if (i == 0 && atStart) || (i > 0 && t[i - 1] == ' ') then ToUpper(t[i]) else t[i])
    decreases |t|
  {
    if |t| > 0 {
      UpperAfterSpacesAt(t[1..], t[0] == ' ');
      var r := UpperAfterSpaces(t, atStart);
      forall i | 0 < i < |t|
        ensures r[i] == (if t[i - 1] == ' ' then ToUpper(t[i]) else t[i])
      {
        assert r[i] == UpperAfterSpaces(t[1..], t[0] == ' ')[i - 1];
        assert t[1..][i - 1] == t[i];
        if i > 1 {
          assert t[1..][i - 2] == t[i - 1];
        }
      }
    }
  }

  /** Upper-casing after spaces never brings back a dash. */
  lemma NoDashAfterUpper(spaced: string, title: string)
    requires forall i :: 0 <= i < |spaced| ==> spaced[i] != '-'
    requires title == UpperAfterSpaces(spaced, true)
    ensures forall i :: 0 <= i < |title| ==> title[i] != '-'
  {
    UpperAfterSpacesAt(spaced, true);
    forall i | 0 <= i < |title|
      ensures title[i] != '-'
    {
      if i == 0 || spaced[i - 1] == ' ' {
        assert title[i] == ToUpper(spaced[i]);
      } else {
        assert title[i] == spaced[i];
      }
    }
  }

  /**
   * The display title of a project (`createProjectCard`): dashes become
   * spaces, and the first character and every character after a dash or a
   * space is upper-cased; every other character is kept.
   */
  function FormatTitle(name: string): (title: string)
    ensures |title| == |name|
    ensures forall i :: 0 <= i < |name| ==>
      title[i] ==
        (if i == 0 || name[i - 1] == '-' || name[i - 1] == ' '
         then ToUpper(DashToSpace(name[i]))
         else DashToSpace(name[i]))
    ensures forall i :: 0 <= i < |title| ==> title[i] != '-'
  {
    var spaced := ReplaceDashes(name);
    var title := Join(CapitalizeAll(SplitOnSpace(spaced)));
    SplitCapitalizeJoin(spaced);
    UpperAfterSpacesAt(spaced, true);
    NoDashAfterUpper(spaced, title);
    title
  }

  /** The description as shown on a card: long ones are cut and get an ellipsis. */
  function Truncate(d: string): (r: string)
    ensures |r| <= MaxDescriptionLength + |Ellipsis|
    ensures |d| <= MaxDescriptionLength ==> r == d
    ensures |d| > MaxDescriptionLength ==>
      |r| == MaxDescriptionLength + |Ellipsis|
      && r[..MaxDescriptionLength] == d[..MaxDescriptionLength]
      && r[MaxDescriptionLength..] == Ellipsis
  {
    if |d| > MaxDescriptionLength then d[..MaxDescriptionLength] + Ellipsis else d
  }
}
