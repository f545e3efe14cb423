/** `generate_redline_html`: the diff script is split into the entries the
    original-side view shows (equal and deleted text) and those the
    amended-side view shows (equal and inserted text); each side is marked,
    and both fragments are embedded, with the escaped titles, in one page.

    The script itself is computed by diff-match-patch, which is not part of
    this model: it is an input here, and the library's guarantee about it
    (its equal and deleted texts spell the original, its equal and inserted
    texts the amended text) is the precondition `ValidScript`. */
module Redline {
  import opened Wrappers
  import HtmlEscape
  import opened HtmlReader
  import opened SafeText
  import opened Marking

  /** The three strings handed back to the caller. */
  datatype RedlineResult = RedlineResult(originalHtml: string, amendedHtml: string, sideBySideHtml: string)

  /** The entries of `ds` whose code is `EQUAL` or `edit`, in their order;
      entries with any other code are dropped. */
  function Keep(ds: seq<Diff>, edit: int): (kept: seq<Diff>)
    ensures forall d :: d in kept <==> d in ds && (d.op == EQUAL || d.op == edit)
    ensures |kept| <= |ds|
    decreases |ds|
  {
    if ds == [] then []
    else (if ds[0].op == EQUAL || ds[0].op == edit then [ds[0]] else []) + Keep(ds[1..], edit)
  }

  /** What the original-side view shows: equal and deleted entries. */
  function LeftOps(ds: seq<Diff>): seq<Diff>
  {
    Keep(ds, DELETE)
  }

  /** What the amended-side view shows: equal and inserted entries. */
  function RightOps(ds: seq<Diff>): seq<Diff>
  {
    Keep(ds, INSERT)
  }

  /** The texts of all entries whose code is not `skip`, concatenated in
      order: with `skip == INSERT` the text a script turns into something
      else, with `skip == DELETE` the text it produces. */
  function TextWithout(ds: seq<Diff>, skip: int): string
    decreases |ds|
  {
    if ds == [] then ""
    else (if ds[0].op != skip then ds[0].text else "") + TextWithout(ds[1..], skip)
  }

  /** Every code is one diff-match-patch emits. */
  predicate WellFormedScript(ds: seq<Diff>)
  {
    forall i :: 0 <= i < |ds| ==> ds[i].op == DELETE || ds[i].op == EQUAL || ds[i].op == INSERT
  }

  /** A script diff-match-patch may return for the two texts. */
  predicate ValidScript(ds: seq<Diff>, original: string, amended: string)
  {
    && WellFormedScript(ds)
    && TextWithout(ds, INSERT) == original
    && TextWithout(ds, DELETE) == amended
  }

  /** Filtering distributes over concatenation: the order of the script is
      kept. */
  lemma {:induction false} KeepConcat(a: seq<Diff>, b: seq<Diff>, edit: int)
    ensures Keep(a + b, edit) == Keep(a, edit) + Keep(b, edit)
    decreases |a|
  {
    if a == [] {
      assert a + b == b;
    } else {
      assert (a + b)[1..] == a[1..] + b;
      KeepConcat(a[1..], b, edit);
    }
  }

  /** On a well-formed script the kept entries spell exactly the text that
      skips the other kind of edit. */
  lemma {:induction false} KeepTexts(ds: seq<Diff>, edit: int)
    requires WellFormedScript(ds)
    requires edit == DELETE || edit == INSERT
    ensures Texts(Keep(ds, edit)) == TextWithout(ds, -edit)
    decreases |ds|
  {
    if ds != [] {
      KeepTexts(ds[1..], edit);
      var head := if ds[0].op == EQUAL || ds[0].op == edit then [ds[0]] else [];
      TextsConcat(head, Keep(ds[1..], edit));
      assert Texts(head) == if ds[0].op != -edit then ds[0].text else "";
    }
  }

  /** The original-side entries reconstruct the original text and the
      amended-side entries the amended text. */
  lemma Reconstruction(ds: seq<Diff>, original: string, amended: string)
    requires ValidScript(ds, original, amended)
    ensures Texts(LeftOps(ds)) == original
    ensures Texts(RightOps(ds)) == amended
  {
    KeepTexts(ds, DELETE);
    KeepTexts(ds, INSERT);
  }

  /** A marked list without insertions holds no `<ins>` tag, and one
      without deletions no `<del>` tag. */
  lemma {:induction false} MarkersOfSide(ds: seq<Diff>)
    ensures (forall d :: d in ds ==> d.op != INSERT) ==>
      forall t :: t in MarkTokens(ds) ==> t != InsOpen && t != InsClose
    ensures (forall d :: d in ds ==> d.op != DELETE) ==>
      forall t :: t in MarkTokens(ds) ==> t != DelOpen && t != DelClose
    decreases |ds|
  {
    if ds != [] {
      MarkersOfSide(ds[1..]);
      FragmentMarkers(ds[0]);
      assert forall d :: d in ds[1..] ==> d in ds;
      assert MarkTokens(ds) == FragmentTokens(ds[0]) + MarkTokens(ds[1..]);
    }
  }

  /** Only an insertion's fragment has `<ins>` tags, and only a deletion's
      fragment `<del>` tags. */
  lemma FragmentMarkers(d: Diff)
    ensures d.op != INSERT ==> forall t :: t in FragmentTokens(d) ==> t != InsOpen && t != InsClose
    ensures d.op != DELETE ==> forall t :: t in FragmentTokens(d) ==> t != DelOpen && t != DelClose
  {
    var f := FragmentTokens(d);
    FragmentTokensShape(d);
    forall t | t in f
      ensures d.op != INSERT ==> t != InsOpen && t != InsClose
      ensures d.op != DELETE ==> t != DelOpen && t != DelClose
    {
      var i :| 0 <= i < |f| && f[i] == t;
      assert IsTag(InsOpen) && IsTag(InsClose) && IsTag(DelOpen) && IsTag(DelClose);
    }
  }

  /** Insertions are never marked in the original-side view and deletions
      never in the amended-side view. */
  lemma SideMarkers(ds: seq<Diff>)
    ensures forall t :: t in MarkTokens(LeftOps(ds)) ==> t != InsOpen && t != InsClose
    ensures forall t :: t in MarkTokens(RightOps(ds)) ==> t != DelOpen && t != DelClose
  {
    MarkersOfSide(LeftOps(ds));
    MarkersOfSide(RightOps(ds));
  }

  /** A side view is accepted by the reader and, read as text, is the side's
      document with tabs shown as four spaces. */
  lemma ViewReadsBack(ds: seq<Diff>, original: string, amended: string)
    requires ValidScript(ds, original, amended)
    ensures Lex(Mark(LeftOps(ds))).Some?
    ensures TextOf(Lex(Mark(LeftOps(ds))).value) == ExpandTabs(original)
    ensures Lex(Mark(RightOps(ds))).Some?
    ensures TextOf(Lex(Mark(RightOps(ds))).value) == ExpandTabs(amended)
  {
    Reconstruction(ds, original, amended);
    MarkReads(LeftOps(ds));
    MarkReads(RightOps(ds));
  }

  /** A plain run inside an entry's text appears verbatim in every view that
      shows the entry: an equal entry's in both, a deletion's in the
      original-side view, an insertion's in the amended-side view. */
  lemma ViewsKeepPlainRun(ds: seq<Diff>, i: nat, a: string, w: string, b: string)
    requires i < |ds| && ds[i].text == a + w + b
    requires w != [] && forall j :: 0 <= j < |w| ==> Plain(w[j])
    ensures ds[i].op == EQUAL || ds[i].op == DELETE ==> Contains(Mark(LeftOps(ds)), w)
    ensures ds[i].op == EQUAL || ds[i].op == INSERT ==> Contains(Mark(RightOps(ds)), w)
  {
    var d := ds[i];
    if d.op == EQUAL || d.op == DELETE {
      KeptIndex(ds, i, DELETE);
      var k :| 0 <= k < |LeftOps(ds)| && LeftOps(ds)[k] == d;
      MarkKeepsPlainRun(LeftOps(ds), k, a, w, b);
    }
    if d.op == EQUAL || d.op == INSERT {
      KeptIndex(ds, i, INSERT);
      var k :| 0 <= k < |RightOps(ds)| && RightOps(ds)[k] == d;
      MarkKeepsPlainRun(RightOps(ds), k, a, w, b);
    }
  }

  /** A script with a deletion marks it in the original-side view, and one
      with an insertion marks it in the amended-side view. */
  lemma EditsAreMarked(ds: seq<Diff>, i: nat)
    requires i < |ds|
    ensures ds[i].op == DELETE ==> Contains(Mark(LeftOps(ds)), "<del>")
    ensures ds[i].op == INSERT ==> Contains(Mark(RightOps(ds)), "<ins>")
  {
    var d := ds[i];
    FragmentOpens(d);
    if d.op == DELETE {
      KeptIndex(ds, i, DELETE);
      var k :| 0 <= k < |LeftOps(ds)| && LeftOps(ds)[k] == d;
      MarkHoldsFragment(LeftOps(ds), k);
      ContainsWithin(Mark(LeftOps(ds)), Fragment(d), "<del>");
    } else if d.op == INSERT {
      KeptIndex(ds, i, INSERT);
      var k :| 0 <= k < |RightOps(ds)| && RightOps(ds)[k] == d;
      MarkHoldsFragment(RightOps(ds), k);
      ContainsWithin(Mark(RightOps(ds)), Fragment(d), "<ins>");
    }
  }

  lemma KeptIndex(ds: seq<Diff>, i: nat, edit: int)
    requires i < |ds| && (ds[i].op == EQUAL || ds[i].op == edit)
    ensures exists k :: 0 <= k < |Keep(ds, edit)| && Keep(ds, edit)[k] == ds[i]
  {
    assert ds[i] in ds;
    assert ds[i] in Keep(ds, edit);
  }

  /** A script with no edit in it, as diff-match-patch returns for two
      identical texts, gives two identical views. */
  lemma {:induction false} EditFreeViewsAgree(ds: seq<Diff>)
    requires forall i :: 0 <= i < |ds| ==> ds[i].op == EQUAL
    ensures LeftOps(ds) == ds == RightOps(ds)
    ensures Mark(LeftOps(ds)) == Mark(RightOps(ds)) == Mark(ds)
    decreases |ds|
  {
    if ds != [] {
      EditFreeViewsAgree(ds[1..]);
      assert [ds[0]] + ds[1..] == ds;
    }
  }

  /** An equal entry ending with a space, a deletion, and an equal entry
      starting with a space. */
  function SpacedScript(u: string, c: string, v: string): seq<Diff>
  {
    [Diff(EQUAL, u + " "), Diff(DELETE, c), Diff(EQUAL, " " + v)]
  }

  lemma SpacedScriptShape(u: string, c: string, v: string)
    ensures var ds := SpacedScript(u, c, v);
      && ValidScript(ds, u + " " + c + " " + v, u + "  " + v)
      && RightOps(ds) == [ds[0], ds[2]]
  {
    var ds := SpacedScript(u, c, v);
    var b := " " + v;
    assert ds[1..][1..] == [ds[2]];
    assert ds[1..][1..][1..] == [];
    assert Keep(ds[1..][1..], INSERT) == [ds[2]];
    assert Keep(ds[1..], INSERT) == [ds[2]];
    assert TextWithout(ds[1..][1..], INSERT) == b;
    assert TextWithout(ds[1..], INSERT) == c + b;
    assert TextWithout(ds[1..][1..], DELETE) == b;
    assert TextWithout(ds[1..], DELETE) == b;
  }

  lemma SafeSpaceAfter(u: string)
    requires u == [] || u[|u| - 1] != ' '
    ensures Safe(u + " ") == Safe(u) + " "
  {
    SafeLoneSpace();
    SafeConcat(u, " ");
  }

  lemma SafeSpaceBefore(v: string)
    requires v == [] || v[0] != ' '
    ensures Safe(" " + v) == " " + Safe(v)
  {
    SafeLoneSpace();
    SafeConcat(" ", v);
  }

  /** The amended-side view of a spaced script is the two equal fragments
      side by side. */
  lemma SpacedRightView(u: string, c: string, v: string)
    requires u == [] || u[|u| - 1] != ' '
    requires v == [] || v[0] != ' '
    ensures Mark(RightOps(SpacedScript(u, c, v))) == Safe(u) + "  " + Safe(v)
  {
    var ds := SpacedScript(u, c, v);
    var x, y := Safe(u), Safe(v);
    SpacedScriptShape(u, c, v);
    assert Mark(RightOps(ds)) == Fragment(ds[0]) + Fragment(ds[2]) by {
      MarkConcat([ds[0]], [ds[2]]);
      assert [ds[0]] + [ds[2]] == [ds[0], ds[2]];
      MarkSingle(ds[0]);
      MarkSingle(ds[2]);
    }
    assert Fragment(ds[0]) == x + " " by {
      SafeSpaceAfter(u);
    }
    assert Fragment(ds[2]) == " " + y by {
      SafeSpaceBefore(v);
    }
    JoinAtSpace(x, y);
  }

  lemma JoinAtSpace(x: string, y: string)
    ensures (x + " ") + (" " + y) == x + "  " + y
  {
    var l, r := x + " " + " " + y, x + "  " + y;
    assert |l| == |r|;
    forall i | 0 <= i < |l|
      ensures l[i] == r[i]
    {
      if i < |x| {
      } else if i < |x| + 2 {
      } else {
      }
    }
  }

  /** The guarantee that no two raw spaces meet holds fragment by fragment,
      not across the join of two fragments: when a deletion sits between an
      equal entry ending with a space and one starting with a space, each
      fragment is clean but the amended-side view puts the two spaces side
      by side, although the amended text's own double space, marked as one
      entry, would have become `&nbsp;&nbsp;`. */
  lemma SpacesMeetAcrossFragments(u: string, c: string, v: string)
    requires u == [] || u[|u| - 1] != ' '
    requires v == [] || v[0] != ' '
    ensures var ds := SpacedScript(u, c, v);
      && ValidScript(ds, u + " " + c + " " + v, u + "  " + v)
      && NoCollapsibleSpace(Fragment(ds[0])) && NoCollapsibleSpace(Fragment(ds[2]))
      && !NoCollapsibleSpace(Mark(RightOps(ds)))
      && NoCollapsibleSpace(Mark([Diff(EQUAL, u + "  " + v)]))
  {
    var ds := SpacedScript(u, c, v);
    SpacedScriptShape(u, c, v);
    SafeNoCollapsibleSpace(ds[0].text);
    SafeNoCollapsibleSpace(ds[2].text);
    SpacedRightView(u, c, v);
    var m := Safe(u) + "  " + Safe(v);
    assert m[|Safe(u)|] == ' ' && m[|Safe(u)| + 1] == ' ';
    MarkSingle(Diff(EQUAL, u + "  " + v));
    SafeNoCollapsibleSpace(u + "  " + v);
  }

  const PageTop: string :=
    "<!doctype html>\n<html lang=\"en\">\n<head>\n  <meta charset=\"utf-8\"/>\n"
    + "  <meta name=\"viewport\" content=\"width=device-width, initial-scale=1\"/>\n"
    + "  <title>Redline Comparison</title>\n  <style>\n  </style>\n</head>\n<body>\n  <header>\n"
    + "    <div class=\"title\">"
  const Heading: string := "Contract Redline (Deterministic Diff)"
  const MetaOpen: string := "</div>\n    <div class=\"meta\">Generated "
  const MainOpen: string := "</div>\n  </header>\n\n  <main class=\"wrap\">\n"
  const PanelOpen: string := "    <section class=\"panel\">\n      <h2>"
  const PanelMiddle: string := "</h2>\n      <div class=\"content\">"
  const PanelClose: string := "</div>\n    </section>\n"
  const PageBottom: string := "  </main>\n</body>\n</html>\n"

  /** One column of the page: the escaped title over the marked fragment. */
  function Panel(title: string, html: string): string
  {
    PanelOpen + HtmlEscape.Escape(title) + PanelMiddle + html + PanelClose
  }

  /** Everything above the two columns, given the formatted generation
      time `now`. */
  function PageHead(now: string): string
  {
    PageTop + Heading + (MetaOpen + now + MainOpen)
  }

  /** The standalone page. */
  function Page(now: string, titleLeft: string, leftHtml: string, titleRight: string, rightHtml: string): string
  {
    PageHead(now) + Panel(titleLeft, leftHtml) + Panel(titleRight, rightHtml) + PageBottom
  }

  lemma PanelEmbeds(title: string, html: string)
    ensures Contains(Panel(title, html), html)
    ensures Contains(Panel(title, html), HtmlEscape.Escape(title))
  {
    BothEmbedded(PanelOpen, HtmlEscape.Escape(title), PanelMiddle, html, PanelClose);
  }

  lemma BothEmbedded(a: string, x: string, b: string, y: string, c: string)
    ensures Contains(a + x + b + y + c, x) && Contains(a + x + b + y + c, y)
  {
    ContainsMiddle(a + x + b, y, c);
    assert a + x + b + y + c == a + x + (b + y + c);
    ContainsMiddle(a, x, b + y + c);
  }

  lemma PageHasParts(head: string, left: string, right: string)
    ensures Contains(head + left + right + PageBottom, head)
    ensures Contains(head + left + right + PageBottom, left)
    ensures Contains(head + left + right + PageBottom, right)
  {
    assert head + left + right + PageBottom == head + left + (right + PageBottom);
    ContainsMiddle([], head, left + right + PageBottom);
    assert [] + head + (left + right + PageBottom) == head + left + right + PageBottom;
    ContainsMiddle(head, left, right + PageBottom);
    ContainsMiddle(head + left, right, PageBottom);
  }

  lemma HeadHasHeading(now: string)
    ensures Contains(PageHead(now), "Contract Redline")
  {
    HeadingAnywhere(PageTop, MetaOpen + now + MainOpen);
  }

  lemma HeadingAnywhere(top: string, rest: string)
    ensures Contains(top + Heading + rest, "Contract Redline")
  {
    ContainsMiddle(top, Heading, rest);
    HeadingNamesRedline();
    ContainsWithin(top + Heading + rest, Heading, "Contract Redline");
  }

  lemma HeadingNamesRedline()
    ensures Contains(Heading, "Contract Redline")
  {
    assert Heading[0..16] == "Contract Redline";
    assert OccursAt(Heading, "Contract Redline", 0);
  }

  /** The page carries the heading the test looks for, and each side's
      fragment and escaped title verbatim. */
  lemma PageEmbeds(now: string, titleLeft: string, leftHtml: string, titleRight: string, rightHtml: string)
    ensures var page := Page(now, titleLeft, leftHtml, titleRight, rightHtml);
      && Contains(page, "Contract Redline")
      && Contains(page, leftHtml) && Contains(page, HtmlEscape.Escape(titleLeft))
      && Contains(page, rightHtml) && Contains(page, HtmlEscape.Escape(titleRight))
  {
    var page := Page(now, titleLeft, leftHtml, titleRight, rightHtml);
    var head := PageHead(now);
    var left, right := Panel(titleLeft, leftHtml), Panel(titleRight, rightHtml);
    PageHasParts(head, left, right);
    HeadHasHeading(now);
    ContainsWithin(page, head, "Contract Redline");
    PanelEmbeds(titleLeft, leftHtml);
    PanelEmbeds(titleRight, rightHtml);
    ContainsWithin(page, left, leftHtml);
    ContainsWithin(page, left, HtmlEscape.Escape(titleLeft));
    ContainsWithin(page, right, rightHtml);
    ContainsWithin(page, right, HtmlEscape.Escape(titleRight));
  }

  /** Filtering one more entry of a script appends it when its code is kept. */
  lemma KeepStep(ds: seq<Diff>, i: nat, edit: int)
    requires i < |ds|
    ensures Keep(ds[..i + 1], edit)
      == Keep(ds[..i], edit) + (if ds[i].op == EQUAL || ds[i].op == edit then [ds[i]] else [])
  {
    assert ds[..i + 1] == ds[..i] + [ds[i]];
    KeepConcat(ds[..i], [ds[i]], edit);
    assert [ds[i]][1..] == [];
  }

  /** Lines 61-91 and 206-210 without the diff computation: partition the
      script, mark both sides, assemble the page. */
  method GenerateRedlineHtml(ghost original: string, ghost amended: string, diffs: seq<Diff>,
                             titleLeft: string, titleRight: string, now: string)
    returns (result: RedlineResult)
    requires ValidScript(diffs, original, amended)
    ensures result.originalHtml == Mark(LeftOps(diffs))
    ensures result.amendedHtml == Mark(RightOps(diffs))
    ensures result.sideBySideHtml == Page(now, titleLeft, result.originalHtml, titleRight, result.amendedHtml)
    ensures Lex(result.originalHtml).Some?
    ensures TextOf(Lex(result.originalHtml).value) == ExpandTabs(original)
    ensures Lex(result.amendedHtml).Some?
    ensures TextOf(Lex(result.amendedHtml).value) == ExpandTabs(amended)
  {
    var diffsForLeft: seq<Diff> := [];
    var diffsForRight: seq<Diff> := [];
    for i := 0 to |diffs|
      invariant diffsForLeft == LeftOps(diffs[..i])
      invariant diffsForRight == RightOps(diffs[..i])
    {
      var op, text := diffs[i].op, diffs[i].text;
      if op == EQUAL {
        diffsForLeft := diffsForLeft + [Diff(EQUAL, text)];
        diffsForRight := diffsForRight + [Diff(EQUAL, text)];
      } else if op == DELETE {
        diffsForLeft := diffsForLeft + [Diff(DELETE, text)];
      } else if op == INSERT {
        diffsForRight := diffsForRight + [Diff(INSERT, text)];
      }
      KeepStep(diffs, i, DELETE);
      KeepStep(diffs, i, INSERT);
    }
    assert diffs[..|diffs|] == diffs;
    var leftHtml := DiffToMarkedHtml(diffsForLeft);
    var rightHtml := DiffToMarkedHtml(diffsForRight);
    var page := Page(now, titleLeft, leftHtml, titleRight, rightHtml);
    result := RedlineResult(leftHtml, rightHtml, page);
    ViewReadsBack(diffs, original, amended);
  }
}
