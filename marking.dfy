/** `_diff_to_marked_html`: each entry of a diff script becomes an HTML-safe
    fragment, wrapped in `<ins>` or `<del>` by its operation code, and the
    fragments are joined in script order. */
module Marking {
  import opened Wrappers
  import opened PyStr
  import HtmlEscape
  import opened HtmlReader
  import opened SafeText

  /** One entry of a diff script: an operation code and its text. The codes
      are those of diff-match-patch; any other integer may be present. */
  datatype Diff = Diff(op: int, text: string)

  const DELETE: int := -1
  const EQUAL: int := 0
  const INSERT: int := 1

  /** The fragment one entry becomes. */
  function Fragment(d: Diff): string
  {
    var safe := Safe(d.text);
    if d.op == EQUAL then safe
    else if d.op == INSERT then "<ins>" + safe + "</ins>"
    else if d.op == DELETE then "<del>" + safe + "</del>"
    else safe
  }

  /** The marked HTML of a whole script: its fragments in order. */
  function Mark(ds: seq<Diff>): string
    decreases |ds|
  {
    if ds == [] then "" else Fragment(ds[0]) + Mark(ds[1..])
  }

  /** The texts of a script, concatenated in order. */
  function Texts(ds: seq<Diff>): string
    decreases |ds|
  {
    if ds == [] then "" else ds[0].text + Texts(ds[1..])
  }

  /** What a reader finds in one fragment: the reference tokens of its text,
      inside one `<ins>` pair for an insertion, one `<del>` pair for a
      deletion, and no tag at all for an equal or unknown entry. */
  function FragmentTokens(d: Diff): seq<Token>
  {
    var body := TextTokens(d.text);
    if d.op == INSERT then [InsOpen] + body + [InsClose]
    else if d.op == DELETE then [DelOpen] + body + [DelClose]
    else body
  }

  lemma FragmentTokensShape(d: Diff)
    ensures var ts := FragmentTokens(d);
      && (d.op == INSERT ==> |ts| >= 2 && ts[0] == InsOpen && ts[|ts| - 1] == InsClose)
      && (d.op == DELETE ==> |ts| >= 2 && ts[0] == DelOpen && ts[|ts| - 1] == DelClose)
      && (forall i :: 0 <= i < |ts| && IsTag(ts[i]) ==>
            (d.op == INSERT || d.op == DELETE) && (i == 0 || i == |ts| - 1))
      && TextOf(ts) == ExpandTabs(d.text)
  {
    var body := TextTokens(d.text);
    TextTokensRead(d.text);
    TextTokensShape(d.text);
    if d.op == INSERT {
      TextOfConcat([InsOpen] + body, [InsClose]);
      TextOfConcat([InsOpen], body);
    } else if d.op == DELETE {
      TextOfConcat([DelOpen] + body, [DelClose]);
      TextOfConcat([DelOpen], body);
    }
  }

  /** The tokens of a whole script, fragment after fragment. */
  function MarkTokens(ds: seq<Diff>): seq<Token>
    decreases |ds|
  {
    if ds == [] then [] else FragmentTokens(ds[0]) + MarkTokens(ds[1..])
  }

  /** The `"".join(parts)` of the source. */
  function Join(parts: seq<string>): string
    decreases |parts|
  {
    if parts == [] then "" else Join(parts[..|parts| - 1]) + parts[|parts| - 1]
  }

  /** Marking is a homomorphism: the marked form of `a + b` is that of `a`
      followed by that of `b`. */
  lemma {:induction false} MarkConcat(a: seq<Diff>, b: seq<Diff>)
    ensures Mark(a + b) == Mark(a) + Mark(b)
    decreases |a|
  {
    if a == [] {
      assert a + b == b;
    } else {
      assert (a + b)[1..] == a[1..] + b;
      MarkConcat(a[1..], b);
    }
  }

  lemma {:induction false} MarkTokensConcat(a: seq<Diff>, b: seq<Diff>)
    ensures MarkTokens(a + b) == MarkTokens(a) + MarkTokens(b)
    decreases |a|
  {
    if a == [] {
      assert a + b == b;
    } else {
      assert (a + b)[1..] == a[1..] + b;
      MarkTokensConcat(a[1..], b);
    }
  }

  lemma {:induction false} TextsConcat(a: seq<Diff>, b: seq<Diff>)
    ensures Texts(a + b) == Texts(a) + Texts(b)
    decreases |a|
  {
    if a == [] {
      assert a + b == b;
    } else {
      assert (a + b)[1..] == a[1..] + b;
      TextsConcat(a[1..], b);
    }
  }

  lemma {:induction false} ExpandTabsConcat(a: string, b: string)
    ensures ExpandTabs(a + b) == ExpandTabs(a) + ExpandTabs(b)
    decreases |a|
  {
    if a == [] {
      assert a + b == b;
    } else {
      assert (a + b)[1..] == a[1..] + b;
      ExpandTabsConcat(a[1..], b);
    }
  }

  /** A fragment is the rendering of its reference tokens. */
  lemma FragmentIsRendering(d: Diff)
    ensures Fragment(d) == Render(FragmentTokens(d))
  {
    var body := TextTokens(d.text);
    SafeIsRendering(d.text);
    if d.op == INSERT {
      RenderConcat([InsOpen] + body, [InsClose]);
      RenderConcat([InsOpen], body);
    } else if d.op == DELETE {
      RenderConcat([DelOpen] + body, [DelClose]);
      RenderConcat([DelOpen], body);
    }
  }

  /** A fragment holds no markup but its own wrapper and line breaks, and a
      reader finds in it the entry's text wrapped exactly once when the entry
      is an insertion or a deletion. */
  lemma FragmentReads(d: Diff)
    ensures Lex(Fragment(d)) == Some(FragmentTokens(d))
  {
    FragmentIsRendering(d);
    LexRender(FragmentTokens(d));
  }

  lemma {:induction false} MarkIsRendering(ds: seq<Diff>)
    ensures Mark(ds) == Render(MarkTokens(ds))
    decreases |ds|
  {
    if ds != [] {
      FragmentIsRendering(ds[0]);
      MarkIsRendering(ds[1..]);
      RenderConcat(FragmentTokens(ds[0]), MarkTokens(ds[1..]));
    }
  }

  lemma {:induction false} MarkTokensText(ds: seq<Diff>)
    ensures TextOf(MarkTokens(ds)) == ExpandTabs(Texts(ds))
    decreases |ds|
  {
    if ds != [] {
      FragmentTokensShape(ds[0]);
      MarkTokensText(ds[1..]);
      TextOfConcat(FragmentTokens(ds[0]), MarkTokens(ds[1..]));
      ExpandTabsConcat(ds[0].text, Texts(ds[1..]));
    }
  }

  /** The marked HTML of any script is accepted by the reader, fragment by
      fragment, and read as text it is the script's texts in order, tabs
      shown as four spaces. */
  lemma MarkReads(ds: seq<Diff>)
    ensures Lex(Mark(ds)) == Some(MarkTokens(ds))
    ensures TextOf(MarkTokens(ds)) == ExpandTabs(Texts(ds))
  {
    MarkIsRendering(ds);
    LexRender(MarkTokens(ds));
    MarkTokensText(ds);
  }

  /** `w` occurs in `s` starting at index `k`. */
  predicate OccursAt(s: string, w: string, k: int)
  {
    0 <= k <= |s| - |w| && s[k..k + |w|] == w
  }

  /** `w` occurs in `s` as a contiguous run. */
  predicate Contains(s: string, w: string)
  {
    exists k | 0 <= k <= |s| - |w| :: OccursAt(s, w, k)
  }

  lemma ContainsMiddle(x: string, w: string, y: string)
    ensures Contains(x + w + y, w)
  {
    var s := x + w + y;
    assert s[|x|..|x| + |w|] == w;
    assert OccursAt(s, w, |x|);
  }

  lemma ContainsWithin(s: string, v: string, w: string)
    requires Contains(s, v) && Contains(v, w)
    ensures Contains(s, w)
  {
    var k :| 0 <= k <= |s| - |v| && OccursAt(s, v, k);
    var j :| 0 <= j <= |v| - |w| && OccursAt(v, w, j);
    assert s[k..k + |v|] == v;
    assert v[j..j + |w|] == w;
    assert s[k + j..k + j + |w|] == w by {
      forall n | 0 <= n < |w|
        ensures s[k + j + n] == w[n]
      {
        assert s[k + j + n] == s[k..k + |v|][j + n];
        assert w[n] == v[j..j + |w|][n];
      }
    }
    assert OccursAt(s, w, k + j);
  }

  /** The fragment of entry `i` sits between the marked entries before it
      and those after it. */
  lemma MarkAround(ds: seq<Diff>, i: nat)
    requires i < |ds|
    ensures Mark(ds) == Mark(ds[..i]) + Fragment(ds[i]) + Mark(ds[i + 1..])
  {
    var pre, d, post := ds[..i], ds[i], ds[i + 1..];
    SplitAt(ds, i);
    MarkConcat3(pre, [d], post);
    MarkSingle(d);
  }

  lemma SplitAt(ds: seq<Diff>, i: nat)
    requires i < |ds|
    ensures ds == ds[..i] + [ds[i]] + ds[i + 1..]
  {
  }

  lemma MarkConcat3(a: seq<Diff>, b: seq<Diff>, c: seq<Diff>)
    ensures Mark(a + b + c) == Mark(a) + Mark(b) + Mark(c)
  {
    MarkConcat(a + b, c);
    MarkConcat(a, b);
  }

  lemma MarkSingle(d: Diff)
    ensures Mark([d]) == Fragment(d)
  {
    assert [d][1..] == [];
  }

  /** Every entry's fragment appears verbatim in the marked script. */
  lemma MarkHoldsFragment(ds: seq<Diff>, i: nat)
    requires i < |ds|
    ensures Contains(Mark(ds), Fragment(ds[i]))
  {
    MarkAround(ds, i);
    ContainsMiddle(Mark(ds[..i]), Fragment(ds[i]), Mark(ds[i + 1..]));
  }

  /** An insertion's fragment opens with `<ins>`, a deletion's with `<del>`. */
  lemma FragmentOpens(d: Diff)
    ensures d.op == INSERT ==> Contains(Fragment(d), "<ins>")
    ensures d.op == DELETE ==> Contains(Fragment(d), "<del>")
  {
    if d.op == INSERT {
      Opens("<ins>", Safe(d.text) + "</ins>");
      assert Fragment(d) == "<ins>" + (Safe(d.text) + "</ins>");
    } else if d.op == DELETE {
      Opens("<del>", Safe(d.text) + "</del>");
      assert Fragment(d) == "<del>" + (Safe(d.text) + "</del>");
    }
  }

  lemma Opens(open: string, rest: string)
    ensures Contains(open + rest, open)
  {
    assert (open + rest)[0..|open|] == open;
    assert OccursAt(open + rest, open, 0);
  }

  /** A plain run inside the text of an entry appears verbatim in that
      entry's fragment. */
  lemma FragmentKeepsPlainRun(d: Diff, a: string, w: string, b: string)
    requires d.text == a + w + b
    requires w != [] && forall j :: 0 <= j < |w| ==> Plain(w[j])
    ensures Contains(Fragment(d), w)
  {
    var f := Fragment(d);
    var middle := Safe(a) + w + Safe(b);
    PlainPassesThrough(a, w, b);
    assert Safe(d.text) == middle;
    ContainsMiddle(Safe(a), w, Safe(b));
    if d.op == INSERT {
      ContainsMiddle("<ins>", middle, "</ins>");
    } else if d.op == DELETE {
      ContainsMiddle("<del>", middle, "</del>");
    } else {
      ContainsMiddle([], f, []);
      assert [] + f + [] == f;
    }
    ContainsWithin(f, middle, w);
  }

  /** A plain run inside the text of any entry appears verbatim in the
      marked HTML of a script holding that entry. */
  lemma MarkKeepsPlainRun(ds: seq<Diff>, i: nat, a: string, w: string, b: string)
    requires i < |ds| && ds[i].text == a + w + b
    requires w != [] && forall j :: 0 <= j < |w| ==> Plain(w[j])
    ensures Contains(Mark(ds), w)
  {
    MarkAround(ds, i);
    FragmentKeepsPlainRun(ds[i], a, w, b);
    ContainsMiddle(Mark(ds[..i]), Fragment(ds[i]), Mark(ds[i + 1..]));
    ContainsWithin(Mark(ds), Fragment(ds[i]), w);
  }

  /** Lines 25-44: the loop that builds `parts`, then the join. */
  method DiffToMarkedHtml(diffs: seq<Diff>) returns (html: string)
    ensures html == Mark(diffs)
    ensures Lex(html) == Some(MarkTokens(diffs))
  {
    var parts: seq<string> := [];
    for i := 0 to |diffs|
      invariant Join(parts) == Mark(diffs[..i])
    {
      ghost var before := parts;
      var op, text := diffs[i].op, diffs[i].text;
      var safe := HtmlEscape.Escape(text);
      safe := Replace(safe, "\n", BR);
      safe := Replace(safe, "\t", NBSP4);
      safe := Replace(safe, "  ", NBSP2);
      assert safe == Safe(text);
      if op == EQUAL {
        parts := parts + [safe];
      } else if op == INSERT {
        parts := parts + ["<ins>" + safe + "</ins>"];
      } else if op == DELETE {
        parts := parts + ["<del>" + safe + "</del>"];
      } else {
        parts := parts + [safe];
      }
      assert parts[|parts| - 1] == Fragment(diffs[i]);
      assert parts[..|parts| - 1] == before;
      MarkAround(diffs[..i + 1], i);
      assert diffs[..i + 1][..i] == diffs[..i];
    }
    assert diffs[..|diffs|] == diffs;
    html := Join(parts);
    MarkReads(diffs);
  }
}
