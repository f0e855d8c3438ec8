/**
 * Characters and strings as the tokenizer sees them: a string is a sequence
 * of Unicode code points (Python 3 `str`), and `Replace` is Python's
 * `str.replace` with pattern `pat` and replacement `rep`.
 */
module Text {

  /** The CJK range `一-龥` used by both regular expressions and by `count_chinese`. */
  predicate IsCjk(c: char)
  {
    '\U{4E00}' <= c <= '\U{9FA5}'
  }

  /** `[a-zA-Z0-9]`. */
  predicate IsAsciiAlnum(c: char)
  {
    'a' <= c <= 'z' || 'A' <= c <= 'Z' || '0' <= c <= '9'
  }

  predicate AllCjk(s: string)
  {
    forall i :: 0 <= i < |s| ==> IsCjk(s[i])
  }

  /**
   * Python's `s.replace(pat, rep)`: occurrences of `pat` are found left to
   * right and replaced without overlapping; the scan resumes after each
   * replaced occurrence. An empty `pat` inserts `rep` before every character
   * and at the end (`"ab".replace("", "X") == "XaXbX"`).
   */
  function Replace(s: string, pat: string, rep: string): string
    decreases |s|
  {
    if pat == [] then InsertEverywhere(s, rep)
    else if |pat| <= |s| && s[..|pat|] == pat then rep + Replace(s[|pat|..], pat, rep)
    else if s == [] then []
    else [s[0]] + Replace(s[1..], pat, rep)
  }

  function InsertEverywhere(s: string, rep: string): string
  {
    if s == [] then rep else rep + [s[0]] + InsertEverywhere(s[1..], rep)
  }

  /** Replacing never introduces a character that is in neither `s` nor `rep`. */
  lemma {:induction false} ReplaceIntroducesNothing(s: string, pat: string, rep: string, c: char)
    requires c !in s && c !in rep
    ensures c !in Replace(s, pat, rep)
    decreases |s|
  {
    if pat == [] {
      InsertEverywhereIntroducesNothing(s, rep, c);
    } else if |pat| <= |s| && s[..|pat|] == pat {
      assert forall i :: 0 <= i < |s[|pat|..]| ==> s[|pat|..][i] == s[|pat| + i];
      ReplaceIntroducesNothing(s[|pat|..], pat, rep, c);
    } else if s != [] {
      assert forall i :: 0 <= i < |s[1..]| ==> s[1..][i] == s[1 + i];
      ReplaceIntroducesNothing(s[1..], pat, rep, c);
    }
  }

  lemma {:induction false} InsertEverywhereIntroducesNothing(s: string, rep: string, c: char)
    requires c !in s && c !in rep
    ensures c !in InsertEverywhere(s, rep)
  {
    if s != [] {
      assert forall i :: 0 <= i < |s[1..]| ==> s[1..][i] == s[1 + i];
      InsertEverywhereIntroducesNothing(s[1..], rep, c);
    }
  }

  /** Replacing the one-character string `[c]` by text without `c` leaves no `c`. */
  lemma {:induction false} ReplaceRemovesChar(s: string, c: char, rep: string)
    requires c !in rep
    ensures c !in Replace(s, [c], rep)
    decreases |s|
  {
    if |s| >= 1 && s[..1] == [c] {
      ReplaceRemovesChar(s[1..], c, rep);
    } else if s != [] {
      assert s[0] != c by { assert s[..1] == [s[0]]; }
      ReplaceRemovesChar(s[1..], c, rep);
    }
  }

  /** `s.replace("", "")` is `s`: deleting an empty record name changes nothing. */
  lemma {:induction false} ReplaceEmptyByEmpty(s: string)
    ensures Replace(s, [], []) == s
  {
    if s != [] {
      ReplaceEmptyByEmpty(s[1..]);
    }
  }

  /** The positions of `w` that hold a CJK ideograph. */
  ghost function CjkPositions(w: string, upTo: nat): set<nat>
  {
    set i: nat | i < upTo && i < |w| && IsCjk(w[i])
  }

  /**
   * `count_chinese(word)`: the `for` loop that counts the characters in
   * U+4E00..U+9FA5. The result is the number of such positions, so it is at
   * most `|w|`.
   */
  method CountChinese(w: string) returns (count: nat)
    ensures count == |CjkPositions(w, |w|)|
    ensures count <= |w|
    ensures count == 0 <==> forall i :: 0 <= i < |w| ==> !IsCjk(w[i])
  {
    count := 0;
    for i := 0 to |w|
      invariant count == |CjkPositions(w, i)|
      invariant count <= i
    {
      if '\U{4E00}' <= w[i] <= '\U{9FA5}' {
        assert CjkPositions(w, i + 1) == CjkPositions(w, i) + {i};
        count := count + 1;
      } else {
        assert CjkPositions(w, i + 1) == CjkPositions(w, i);
      }
    }
    assert forall i :: 0 <= i < |w| && IsCjk(w[i]) ==> i in CjkPositions(w, |w|);
  }
}
