/**
 * HTML escaping of untrusted text (`escapeHtml`): each of the five characters
 * `& < > " '` is replaced by its entity and every other character is kept.
 *
 * `Unescape` is not part of the script; it is the reference decoder used to
 * state that escaping loses no information.
 */
module Html {

  /** The five characters `escapeHtml` replaces. */
  predicate IsSpecial(c: char) {
    c == '&' || c == '<' || c == '>' || c == '"' || c == '\''
  }

  /** The characters that open or close a tag or an attribute value. */
  predicate IsMarkup(c: char) {
    c == '<' || c == '>' || c == '"' || c == '\''
  }

  /** The replacement for one character: its entity, or the character itself. */
  function EscapeChar(c: char): string {
    if c == '&' then "&amp;"
    else if c == '<' then "&lt;"
    else if c == '>' then "&gt;"
    else if c == '"' then "&quot;"
    else if c == '\'' then "&#039;"
    else [c]
  }

  /** `escapeHtml`: the global, character-wise replacement. */
  function Escape(s: string): string
    decreases |s|
  {
    if |s| == 0 then "" else EscapeChar(s[0]) + Escape(s[1..])
  }

  /** The text `p` occurs in `t` starting at index `i`. */
  predicate OccursAt(p: string, t: string, i: nat) {
    i + |p| <= |t| && t[i..i + |p|] == p
  }

  /** One of the five entities starts at index `i` of `t`. */
  predicate EntityAt(t: string, i: nat) {
    || OccursAt("&amp;", t, i)
    || OccursAt("&lt;", t, i)
    || OccursAt("&gt;", t, i)
    || OccursAt("&quot;", t, i)
    || OccursAt("&#039;", t, i)
  }

  /**
   * Text that is safe between tags: no raw markup character, and every
   * ampersand is the start of one of the five entities.
   */
  predicate WellEscaped(t: string) {
    && (forall i :: 0 <= i < |t| ==> !IsMarkup(t[i]))
    && (forall i :: 0 <= i < |t| && t[i] == '&' ==> EntityAt(t, i))
  }

  /** Reference decoder: replaces each of the five entities by its character. */
  function Unescape(t: string): string
    decreases |t|
  {
    if |t| == 0 then ""
    else if OccursAt("&amp;", t, 0) then "&" + Unescape(t[5..])
    else if OccursAt("&lt;", t, 0) then "<" + Unescape(t[4..])
    else if OccursAt("&gt;", t, 0) then ">" + Unescape(t[4..])
    else if OccursAt("&quot;", t, 0) then "\"" + Unescape(t[6..])
    else if OccursAt("&#039;", t, 0) then "'" + Unescape(t[6..])
    else [t[0]] + Unescape(t[1..])
  }

  /** An entity found in `a` is still found, at the same place, in `a + b`. */
  lemma EntityAtExtend(a: string, b: string, i: nat)
    requires EntityAt(a, i)
    ensures EntityAt(a + b, i)
  {
    forall p: string | OccursAt(p, a, i)
      ensures OccursAt(p, a + b, i)
    {
      assert (a + b)[i..i + |p|] == a[i..i + |p|];
    }
  }

  /** An entity found in `b` is found in `a + b`, shifted by `|a|`. */
  lemma EntityAtShift(a: string, b: string, j: nat)
    requires EntityAt(b, j)
    ensures EntityAt(a + b, |a| + j)
  {
    forall p: string | OccursAt(p, b, j)
      ensures OccursAt(p, a + b, |a| + j)
    {
      assert (a + b)[|a| + j..|a| + j + |p|] == b[j..j + |p|];
    }
  }

  /** Joining two well-escaped texts yields a well-escaped text. */
  lemma WellEscapedConcat(a: string, b: string)
    requires WellEscaped(a) && WellEscaped(b)
    ensures WellEscaped(a + b)
  {
    var t := a + b;
    forall i | 0 <= i < |t| && t[i] == '&'
      ensures EntityAt(t, i)
    {
      if i < |a| {
        EntityAtExtend(a, b, i);
      } else {
        EntityAtShift(a, b, i - |a|);
      }
    }
  }

  /** The replacement of a single character is well escaped. */
  lemma EscapeCharWellEscaped(c: char)
    ensures WellEscaped(EscapeChar(c))
  {
    var e := EscapeChar(c);
    if IsSpecial(c) {
      assert OccursAt(e, e, 0);
    }
  }

  /** The output of `escapeHtml` contains none of `< > " '`, and each `&` starts an entity. */
  lemma {:induction false} EscapeIsWellEscaped(s: string)
    ensures WellEscaped(Escape(s))
    decreases |s|
  {
    if |s| > 0 {
      EscapeCharWellEscaped(s[0]);
      EscapeIsWellEscaped(s[1..]);
      WellEscapedConcat(EscapeChar(s[0]), Escape(s[1..]));
    }
  }

  /** Escaping distributes over concatenation. */
  lemma {:induction false} EscapeAppend(a: string, b: string)
    ensures Escape(a + b) == Escape(a) + Escape(b)
    decreases |a|
  {
    if |a| == 0 {
      assert a + b == b;
    } else {
      assert (a + b)[0] == a[0];
      assert (a + b)[1..] == a[1..] + b;
      EscapeAppend(a[1..], b);
    }
  }

  /** Escaping never shortens a text, and lengthens every text holding one of the five characters. */
  lemma {:induction false} EscapeLength(s: string)
    ensures |Escape(s)| >= |s|
    ensures (exists i :: 0 <= i < |s| && IsSpecial(s[i])) ==> |Escape(s)| > |s|
    decreases |s|
  {
    if |s| > 0 {
      EscapeLength(s[1..]);
      if !IsSpecial(s[0]) && exists i :: 0 <= i < |s| && IsSpecial(s[i]) {
        var i :| 0 <= i < |s| && IsSpecial(s[i]);
        assert IsSpecial(s[1..][i - 1]);
      }
    }
  }

  /** A text is returned unchanged exactly when it holds none of the five characters. */
  lemma {:induction false} EscapeIdentity(s: string)
    ensures Escape(s) == s <==> forall i :: 0 <= i < |s| ==> !IsSpecial(s[i])
    decreases |s|
  {
    EscapeLength(s);
    if |s| > 0 && forall i :: 0 <= i < |s| ==> !IsSpecial(s[i]) {
      assert forall i :: 0 <= i < |s[1..]| ==> !IsSpecial(s[1..][i]) by {
        forall i | 0 <= i < |s[1..]| ensures !IsSpecial(s[1..][i]) {
          assert s[1..][i] == s[i + 1];
        }
      }
      EscapeIdentity(s[1..]);
    }
  }

  /** `p` does not start `t` when the two differ at some index of `p`. */
  lemma NotOccursAtStart(p: string, t: string, k: nat)
    requires k < |p| && k < |t| && p[k] != t[k]
    ensures !OccursAt(p, t, 0)
  {
  }

  /** `p` starts `p + rest`, and what follows it is `rest`. */
  lemma OccursAtFront(p: string, rest: string)
    ensures OccursAt(p, p + rest, 0)
    ensures (p + rest)[|p|..] == rest
  {
    assert (p + rest)[0..|p|] == p;
  }

  /** Decoding the replacement of one character gives back that character. */
  lemma UnescapeEscapeChar(c: char, rest: string)
    ensures Unescape(EscapeChar(c) + rest) == [c] + Unescape(rest)
  {
    var e := EscapeChar(c);
    var t := e + rest;
    OccursAtFront(e, rest);
    if c == '&' {
    } else if c == '<' {
      NotOccursAtStart("&amp;", t, 1);
    } else if c == '>' {
      NotOccursAtStart("&amp;", t, 1);
      NotOccursAtStart("&lt;", t, 1);
    } else if c == '"' {
      NotOccursAtStart("&amp;", t, 1);
      NotOccursAtStart("&lt;", t, 1);
      NotOccursAtStart("&gt;", t, 1);
    } else if c == '\'' {
      NotOccursAtStart("&amp;", t, 1);
      NotOccursAtStart("&lt;", t, 1);
      NotOccursAtStart("&gt;", t, 1);
      NotOccursAtStart("&quot;", t, 1);
    } else {
      NotOccursAtStart("&amp;", t, 0);
      NotOccursAtStart("&lt;", t, 0);
      NotOccursAtStart("&gt;", t, 0);
      NotOccursAtStart("&quot;", t, 0);
      NotOccursAtStart("&#039;", t, 0);
    }
  }

  /** Escaping loses nothing: the reference decoder recovers the original text. */
  lemma {:induction false} UnescapeEscape(s: string)
    ensures Unescape(Escape(s)) == s
    decreases |s|
  {
    if |s| > 0 {
      UnescapeEscapeChar(s[0], Escape(s[1..]));
      UnescapeEscape(s[1..]);
      assert [s[0]] + s[1..] == s;
    }
  }
}
