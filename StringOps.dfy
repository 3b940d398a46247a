/**
 * The three string operations the repository leans on, with the semantics of
 * the languages it is written in:
 *  - Python's `str.replace(old, new)`: every non-overlapping occurrence of
 *    `old`, scanned left to right, becomes `new`;
 *  - `str.split(sep)` (Python) and `String.prototype.split(sep)` (JavaScript)
 *    for a one-character separator: the maximal pieces between separators,
 *    empty pieces included, so that `"".split(sep)` is `[""]`;
 *  - Python's `sep.join(words)`.
 */
module StringOps {

  /** Python's `pat in s`: `pat` occurs in `s` at some position. */
  predicate Contains(s: string, pat: string)
    ensures Contains(s, pat) ==> |pat| <= |s|
    decreases |s|
  {
    if |s| < |pat| then false
    else s[..|pat|] == pat || (s != [] && Contains(s[1..], pat))
  }

  /** `pat` occurs in `s` starting at position `i`. */
  predicate OccursAt(s: string, pat: string, i: int)
  {
    0 <= i && i + |pat| <= |s| && s[i..i + |pat|] == pat
  }

  /** `Contains` finds an occurrence: it holds exactly when `pat` occurs in
      `s` at some position. */
  lemma {:induction false} ContainsAt(s: string, pat: string)
    ensures Contains(s, pat) <==> exists i :: OccursAt(s, pat, i)
    decreases |s|
  {
    if |s| >= |pat| {
      if s[..|pat|] == pat {
        assert OccursAt(s, pat, 0);
      } else if s != [] {
        ContainsAt(s[1..], pat);
        if exists i :: OccursAt(s, pat, i) {
          var i :| OccursAt(s, pat, i);
          assert i != 0;
          assert s[1..][i - 1..i - 1 + |pat|] == s[i..i + |pat|];
          assert OccursAt(s[1..], pat, i - 1);
        }
        if exists i :: OccursAt(s[1..], pat, i) {
          var i :| OccursAt(s[1..], pat, i);
          assert s[i + 1..i + 1 + |pat|] == s[1..][i..i + |pat|];
          assert OccursAt(s, pat, i + 1);
        }
      }
    }
  }

  /** A one-character text occurs exactly where that character does. */
  lemma {:induction false} ContainsChar(s: string, c: char)
    ensures Contains(s, [c]) <==> c in s
    decreases |s|
  {
    if s != [] {
      ContainsChar(s[1..], c);
      assert s == [s[0]] + s[1..];
    }
  }

  /** A pattern whose first character is not in `s` does not occur in it. */
  lemma {:induction false} NoFirstChar(s: string, pat: string)
    requires pat != [] && pat[0] !in s
    ensures !Contains(s, pat)
    decreases |s|
  {
    if |s| >= |pat| {
      assert s[..|pat|][0] == s[0];
      NoFirstChar(s[1..], pat);
    }
  }

  /** A pattern whose second character is not in `s` does not occur in it. */
  lemma {:induction false} NoSecondChar(s: string, pat: string)
    requires |pat| >= 2 && pat[1] !in s
    ensures !Contains(s, pat)
    decreases |s|
  {
    if |s| >= |pat| {
      assert s[..|pat|][1] == s[1];
      NoSecondChar(s[1..], pat);
    }
  }

  /** At a match the pattern is replaced and the scan goes on after it. */
  lemma ReplaceAtMatch(pat: string, t: string, rep: string)
    requires |pat| > 0
    ensures ReplaceAll(pat + t, pat, rep) == rep + ReplaceAll(t, pat, rep)
  {
    assert (pat + t)[..|pat|] == pat;
    assert (pat + t)[|pat|..] == t;
  }

  /** A character other than the one-character pattern is copied. */
  lemma ReplaceSkipsChar(x: char, t: string, c: char, rep: string)
    requires x != c
    ensures ReplaceAll([x] + t, [c], rep) == [x] + ReplaceAll(t, [c], rep)
  {
    var s := [x] + t;
    assert s[..1] == [x] && s[1..] == t;
  }

  /** Before the first occurrence of a one-character pattern the text is
      copied; the occurrence itself is replaced. */
  lemma {:induction false} ReplaceFirstChar(a: string, c: char, b: string, rep: string)
    requires c !in a
    ensures ReplaceAll(a + [c] + b, [c], rep) == a + rep + ReplaceAll(b, [c], rep)
    decreases |a|
  {
    if a == [] {
      ReplaceAtMatch([c], b, rep);
      assert a + [c] + b == [c] + b;
    } else {
      ReplaceFirstChar(a[1..], c, b, rep);
      CopyFirstChar(a, c, b, rep);
    }
  }

  /** The step of `ReplaceFirstChar`: the first character of `a` is copied
      in front of what the rest of the text becomes. */
  lemma CopyFirstChar(a: string, c: char, b: string, rep: string)
    requires a != [] && c !in a
    requires ReplaceAll(a[1..] + [c] + b, [c], rep) == a[1..] + rep + ReplaceAll(b, [c], rep)
    ensures ReplaceAll(a + [c] + b, [c], rep) == a + rep + ReplaceAll(b, [c], rep)
  {
    var t := a[1..] + [c] + b;
    assert ReplaceAll(a + [c] + b, [c], rep) == [a[0]] + ReplaceAll(t, [c], rep) by {
      assert a[0] in a;
      assert a + [c] + b == [a[0]] + t;
      ReplaceSkipsChar(a[0], t, c, rep);
    }
    var r := ReplaceAll(b, [c], rep);
    assert [a[0]] + (a[1..] + rep + r) == a + rep + r by {
      assert a == [a[0]] + a[1..];
    }
  }

  /** Python's `s.replace(pat, rep)`. An empty `pat` matches before every
      character and at the end, as in Python. */
  function ReplaceAll(s: string, pat: string, rep: string): (r: string)
    ensures |pat| > 0 && |rep| == |pat| ==> |r| == |s|
    decreases |s|
  {
    if |pat| == 0 then
      (if s == [] then rep else rep + [s[0]] + ReplaceAll(s[1..], pat, rep))
    else if |s| < |pat| then s
    else if s[..|pat|] == pat then rep + ReplaceAll(s[|pat|..], pat, rep)
    else [s[0]] + ReplaceAll(s[1..], pat, rep)
  }

  /** Where `pat` does not occur, replacing it changes nothing. */
  lemma {:induction false} ReplaceAbsent(s: string, pat: string, rep: string)
    requires !Contains(s, pat)
    ensures ReplaceAll(s, pat, rep) == s
    decreases |s|
  {
    if |s| >= |pat| {
      assert s != [];
      ReplaceAbsent(s[1..], pat, rep);
    }
  }

  /** Replacing a one-character pattern by text without that character
      leaves none of it behind. */
  lemma {:induction false} ReplaceCharRemovesIt(s: string, c: char, rep: string)
    requires c !in rep
    ensures c !in ReplaceAll(s, [c], rep)
    decreases |s|
  {
    if |s| >= 1 {
      ReplaceCharRemovesIt(s[1..], c, rep);
    }
  }

  /** A character found neither in the text nor in the replacement is not
      in the result either. */
  lemma {:induction false} ReplaceKeepsCharOut(s: string, pat: string, rep: string, c: char)
    requires c !in s && c !in rep
    ensures c !in ReplaceAll(s, pat, rep)
    decreases |s|
  {
    if |pat| == 0 {
      if s != [] {
        ReplaceKeepsCharOut(s[1..], pat, rep, c);
      }
    } else if |s| >= |pat| {
      if s[..|pat|] == pat {
        ReplaceKeepsCharOut(s[|pat|..], pat, rep, c);
      } else {
        ReplaceKeepsCharOut(s[1..], pat, rep, c);
      }
    }
  }

  /** `s.split(sep)` for a one-character separator. */
  function Split(s: string, sep: char): (parts: seq<string>)
    ensures |parts| >= 1
    ensures forall k :: 0 <= k < |parts| ==> sep !in parts[k]
    decreases |s|
  {
    if s == [] then [[]]
    else
      var rest := Split(s[1..], sep);
      if s[0] == sep then [[]] + rest
      else [[s[0]] + rest[0]] + rest[1..]
  }

  /** `sep.join(words)`. */
  function Join(words: seq<string>, sep: char): (r: string)
    ensures r == [] <==> words == [] || (|words| == 1 && words[0] == [])
    ensures |words| >= 2 ==> sep in r
    ensures forall k :: 0 <= k < |words| ==> |words[k]| <= |r|
    decreases |words|
  {
    if words == [] then []
    else if |words| == 1 then words[0]
    else words[0] + [sep] + Join(words[1..], sep)
  }

  /** Splitting a word that has no separator gives back that word. */
  lemma {:induction false} SplitNoSeparator(w: string, sep: char)
    requires sep !in w
    ensures Split(w, sep) == [w]
    decreases |w|
  {
    if w != [] {
      SplitNoSeparator(w[1..], sep);
      assert [w[0]] + w[1..] == w;
    }
  }

  /** A separator after a word without separators cuts exactly there. */
  lemma {:induction false} SplitAfterWord(w: string, sep: char, t: string)
    requires sep !in w
    ensures Split(w + [sep] + t, sep) == [w] + Split(t, sep)
    decreases |w|
  {
    var s := w + [sep] + t;
    if w == [] {
      assert s[0] == sep && s[1..] == t;
    } else {
      assert s[0] == w[0];
      assert s[1..] == w[1..] + [sep] + t;
      SplitAfterWord(w[1..], sep, t);
      assert [w[0]] + w[1..] == w;
    }
  }

  /** Splitting what `Join` built recovers the words, as long as there is at
      least one word and none of them contains the separator. */
  lemma {:induction false} SplitJoin(words: seq<string>, sep: char)
    requires words != []
    requires forall k :: 0 <= k < |words| ==> sep !in words[k]
    ensures Split(Join(words, sep), sep) == words
    decreases |words|
  {
    if |words| == 1 {
      SplitNoSeparator(words[0], sep);
    } else {
      SplitJoin(words[1..], sep);
      SplitAfterWord(words[0], sep, Join(words[1..], sep));
      assert [words[0]] + words[1..] == words;
    }
  }
}
