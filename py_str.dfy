/** Python's `str.replace(old, new)` for a non-empty `old`: occurrences are
    found from the left and replaced without overlapping, and the scan
    resumes right after each replacement. */
module PyStr {

  function Replace(s: string, pat: string, rep: string): (r: string)
    requires |pat| > 0
    decreases |s|
  {
    if |s| < |pat| then s
    else if s[..|pat|] == pat then rep + Replace(s[|pat|..], pat, rep)
    else [s[0]] + Replace(s[1..], pat, rep)
  }

  /** Nothing changes when the pattern's first character never occurs. */
  lemma {:induction false} ReplaceAbsent(s: string, pat: string, rep: string)
    requires |pat| > 0
    requires forall i :: 0 <= i < |s| ==> s[i] != pat[0]
    ensures Replace(s, pat, rep) == s
    decreases |s|
  {
    if |s| >= |pat| {
      assert s[..|pat|][0] == s[0] != pat[0];
      ReplaceAbsent(s[1..], pat, rep);
      assert [s[0]] + s[1..] == s;
    }
  }

  /** A one-character pattern is replaced character by character, so the
      replacement distributes over concatenation. */
  lemma {:induction false} ReplaceCharConcat(a: string, b: string, c: char, rep: string)
    ensures Replace(a + b, [c], rep) == Replace(a, [c], rep) + Replace(b, [c], rep)
    decreases |a|
  {
    if a != [] {
      assert (a + b)[1..] == a[1..] + b;
      assert (a + b)[..1] == a[..1];
      ReplaceCharConcat(a[1..], b, c, rep);
    } else {
      assert a + b == b;
    }
  }

  /** A two-character pattern distributes over `a + b` unless an occurrence
      could straddle the boundary. */
  lemma {:induction false} ReplacePairConcat(a: string, b: string, pat: string, rep: string)
    requires |pat| == 2
    requires a == [] || b == [] || a[|a| - 1] != pat[0] || b[0] != pat[1]
    ensures Replace(a + b, pat, rep) == Replace(a, pat, rep) + Replace(b, pat, rep)
    decreases |a|
  {
    if a == [] {
      assert a + b == b;
    } else if b == [] {
      assert a + b == a;
    } else if |a| == 1 {
      assert (a + b)[..2] == [a[0], b[0]];
      assert (a + b)[1..] == b;
    } else if a[..2] == pat {
      assert (a + b)[..2] == a[..2];
      assert (a + b)[2..] == a[2..] + b;
      ReplacePairConcat(a[2..], b, pat, rep);
    } else {
      assert (a + b)[..2] == a[..2];
      assert (a + b)[1..] == a[1..] + b;
      ReplacePairConcat(a[1..], b, pat, rep);
    }
  }
}
