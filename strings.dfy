/** The three operations on Python 2 byte strings that the entity layer relies on:
    the ordering used by `sorted`, the substring test `x in s`, and splitting at the
    first occurrence of a separator (the reading side of the `nick!user@host` prefix). */
module Strings {
  import opened Wrappers

  /** Python's `a <= b` on strings: lexicographic by character code, a proper
      prefix comes first. */
  predicate LexLeq(a: string, b: string)
    decreases |a|
  {
    |a| == 0 || (|b| > 0 && (a[0] < b[0] || (a[0] == b[0] && LexLeq(a[1..], b[1..]))))
  }

  lemma {:induction false} LexLeqReflexive(a: string)
    ensures LexLeq(a, a)
    decreases |a|
  {
    if |a| > 0 { LexLeqReflexive(a[1..]); }
  }

  lemma {:induction false} LexLeqTotal(a: string, b: string)
    ensures LexLeq(a, b) || LexLeq(b, a)
    decreases |a|
  {
    if |a| > 0 && |b| > 0 && a[0] == b[0] { LexLeqTotal(a[1..], b[1..]); }
  }

  lemma {:induction false} LexLeqAntisymmetric(a: string, b: string)
    requires LexLeq(a, b) && LexLeq(b, a)
    ensures a == b
    decreases |a|
  {
    if |a| > 0 {
      LexLeqAntisymmetric(a[1..], b[1..]);
      assert a == [a[0]] + a[1..] && b == [b[0]] + b[1..];
    }
  }

  lemma {:induction false} LexLeqTransitive(a: string, b: string, c: string)
    requires LexLeq(a, b) && LexLeq(b, c)
    ensures LexLeq(a, c)
    decreases |a|
  {
    if |a| > 0 && a[0] == b[0] && b[0] == c[0] {
      LexLeqTransitive(a[1..], b[1..], c[1..]);
    }
  }

  /** Python's `needle in hay` on strings: `needle` occurs as a contiguous
      piece of `hay` (the empty string occurs in every string). */
  predicate IsSubstring(needle: string, hay: string)
    decreases |hay|
  {
    |needle| <= |hay| && (hay[..|needle|] == needle || IsSubstring(needle, hay[1..]))
  }

  /** A one-letter needle occurs exactly when the letter is one of the characters. */
  lemma {:induction false} SingleLetterSubstring(c: char, hay: string)
    ensures IsSubstring([c], hay) <==> c in hay
    decreases |hay|
  {
    if |hay| > 0 {
      SingleLetterSubstring(c, hay[1..]);
      assert hay == [hay[0]] + hay[1..];
    }
  }

  /** Split `s` at the first `sep`: the part before it and the part after it,
      or None when `sep` does not occur. */
  function Split(s: string, sep: char): (r: Option<(string, string)>)
    ensures r.None? <==> sep !in s
    ensures r.Some? ==> s == r.value.0 + [sep] + r.value.1 && sep !in r.value.0
    decreases |s|
  {
    if |s| == 0 then None
    else if s[0] == sep then Some(([], s[1..]))
    else
      match Split(s[1..], sep)
      case None => None
      case Some((before, after)) => Some(([s[0]] + before, after))
  }

  /** Splitting a joined string at a separator that does not occur in its first
      part gives back both parts. */
  lemma {:induction false} SplitJoined(before: string, sep: char, after: string)
    requires sep !in before
    ensures Split(before + [sep] + after, sep) == Some((before, after))
    decreases |before|
  {
    var s := before + [sep] + after;
    if |before| > 0 {
      SplitJoined(before[1..], sep, after);
      assert s[1..] == before[1..] + [sep] + after;
      assert before == [before[0]] + before[1..];
    } else {
      assert s[1..] == after;
    }
  }
}
