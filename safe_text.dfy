/** The per-operation text rewriting of `_diff_to_marked_html`: the text of
    one diff entry is escaped, then newlines become `<br/>`, tabs become four
    `&nbsp;` and each pair of spaces, taken from the left, becomes
    `&nbsp;&nbsp;`. */
module SafeText {
  import opened Wrappers
  import opened PyStr
  import HtmlEscape
  import opened HtmlReader

  const NBSP2: string := NBSP + NBSP
  const NBSP4: string := NBSP + NBSP + NBSP + NBSP

  /** Escaping followed by the newline and tab rewrites. */
  function EscapeAndBreak(text: string): string
  {
    var escaped := HtmlEscape.Escape(text);
    var lines := Replace(escaped, "\n", BR);
    Replace(lines, "\t", NBSP4)
  }

  /** The HTML-safe form of one entry's text. */
  function Safe(text: string): string
  {
    Replace(EscapeAndBreak(text), "  ", NBSP2)
  }

  /** What a reader of the page sees of a document text: the text itself,
      each tab shown as four spaces. */
  function ExpandTabs(t: string): (r: string)
    ensures |r| >= |t|
    decreases |t|
  {
    if t == [] then []
    else (if t[0] == '\t' then "    " else [t[0]]) + ExpandTabs(t[1..])
  }

  /** Reference tokenisation of a document text, read in one left-to-right
      pass: a newline is a line break, a tab four kept spaces, two spaces in
      a row two kept spaces, every other character itself. */
  function TextTokens(t: string): seq<Token>
    decreases |t|
  {
    if t == [] then []
    else if t[0] == '\n' then [Br] + TextTokens(t[1..])
    else if t[0] == '\t' then [Nbsp, Nbsp, Nbsp, Nbsp] + TextTokens(t[1..])
    else if |t| >= 2 && t[0] == ' ' && t[1] == ' ' then [Nbsp, Nbsp] + TextTokens(t[2..])
    else [Text(t[0])] + TextTokens(t[1..])
  }

  /** No markup tag, raw newline or raw tab occurs among the reference
      tokens, and a plain space is never followed by another plain space. */
  lemma {:induction false} TextTokensShape(t: string)
    ensures var ts := TextTokens(t);
      && (forall i :: 0 <= i < |ts| ==> !IsTag(ts[i]) && ts[i] != Text('\n') && ts[i] != Text('\t'))
      && (forall i :: 0 <= i < |ts| - 1 ==> !(ts[i] == Text(' ') && ts[i + 1] == Text(' ')))
      && (|ts| > 0 ==> |t| > 0 && (ts[0] == Text(' ') ==> t[0] == ' '))
    decreases |t|
  {
    if t != [] {
      var pairStart := |t| >= 2 && t[0] == ' ' && t[1] == ' ';
      var n := if pairStart then 2 else 1;
      var head := if pairStart then [Nbsp, Nbsp] else CharTokens(t[0]);
      if pairStart {
        TextTokensPair(t);
      } else {
        TextTokensFirst(t);
        CharTokensShape(t[0]);
      }
      TextTokensShape(t[n..]);
      assert t[n..] != [] ==> t[n..][0] == t[n];
      JoinTokensShape(head, TextTokens(t[n..]));
    }
  }

  /** The tokens of one character that does not open a pair of spaces. */
  lemma CharTokensShape(c: char)
    ensures var ts := CharTokens(c);
      && ts != []
      && (forall i :: 0 <= i < |ts| ==> !IsTag(ts[i]) && ts[i] != Text('\n') && ts[i] != Text('\t'))
      && (forall i :: 0 <= i < |ts| - 1 ==> !(ts[i] == Text(' ') && ts[i + 1] == Text(' ')))
      && (ts[|ts| - 1] == Text(' ') ==> c == ' ')
  {
  }

  /** Two token runs with no tag, raw newline or raw tab and no two plain
      spaces in a row, not meeting at two plain spaces, join into one. */
  lemma JoinTokensShape(head: seq<Token>, rest: seq<Token>)
    requires head != []
    requires forall i :: 0 <= i < |head| ==> !IsTag(head[i]) && head[i] != Text('\n') && head[i] != Text('\t')
    requires forall i :: 0 <= i < |rest| ==> !IsTag(rest[i]) && rest[i] != Text('\n') && rest[i] != Text('\t')
    requires forall i :: 0 <= i < |head| - 1 ==> !(head[i] == Text(' ') && head[i + 1] == Text(' '))
    requires forall i :: 0 <= i < |rest| - 1 ==> !(rest[i] == Text(' ') && rest[i + 1] == Text(' '))
    requires head[|head| - 1] == Text(' ') && rest != [] ==> rest[0] != Text(' ')
    ensures var ts := head + rest;
      && (forall i :: 0 <= i < |ts| ==> !IsTag(ts[i]) && ts[i] != Text('\n') && ts[i] != Text('\t'))
      && (forall i :: 0 <= i < |ts| - 1 ==> !(ts[i] == Text(' ') && ts[i + 1] == Text(' ')))
      && ts[0] == head[0]
  {
    var ts := head + rest;
    forall i | 0 <= i < |ts|
      ensures !IsTag(ts[i]) && ts[i] != Text('\n') && ts[i] != Text('\t')
    {
      if i >= |head| {
        assert ts[i] == rest[i - |head|];
      }
    }
    forall i | 0 <= i < |ts| - 1
      ensures !(ts[i] == Text(' ') && ts[i + 1] == Text(' '))
    {
      if i >= |head| {
        assert ts[i] == rest[i - |head|] && ts[i + 1] == rest[i + 1 - |head|];
      } else if i == |head| - 1 {
        assert ts[i + 1] == rest[0];
      }
    }
  }

  /** No raw newline, no raw tab and no two raw spaces side by side: none
      of them is left for the browser to collapse. */
  predicate NoCollapsibleSpace(s: string)
  {
    && (forall i :: 0 <= i < |s| ==> s[i] != '\n' && s[i] != '\t')
    && (forall i :: 0 <= i < |s| - 1 ==> !(s[i] == ' ' && s[i + 1] == ' '))
  }

  lemma {:induction false} EscapeAndBreakConcat(a: string, b: string)
    ensures EscapeAndBreak(a + b) == EscapeAndBreak(a) + EscapeAndBreak(b)
  {
    HtmlEscape.EscapeConcat(a, b);
    var ea, eb := HtmlEscape.Escape(a), HtmlEscape.Escape(b);
    ReplaceCharConcat(ea, eb, '\n', BR);
    ReplaceCharConcat(Replace(ea, "\n", BR), Replace(eb, "\n", BR), '\t', NBSP4);
  }

  /** One character through escaping and the newline and tab rewrites. */
  lemma EscapeAndBreakChar(c: char)
    ensures EscapeAndBreak([c]) ==
      if c == '\n' then BR else if c == '\t' then NBSP4 else HtmlEscape.EscapeChar(c)
  {
    var e := HtmlEscape.EscapeChar(c);
    assert HtmlEscape.Escape([c]) == e by {
      assert [c][1..] == [];
    }
    if c == '\n' {
      BreakNewline();
    } else if c == '\t' {
      BreakTab();
    } else {
      ReplaceAbsent(e, "\n", BR);
      ReplaceAbsent(e, "\t", NBSP4);
    }
  }

  lemma BreakNewline()
    ensures Replace(Replace("\n", "\n", BR), "\t", NBSP4) == BR
  {
    var s := "\n";
    assert s[..1] == "\n" && s[1..] == [];
    assert Replace(s, "\n", BR) == BR + Replace([], "\n", BR);
    assert Replace([], "\n", BR) == [];
    assert Replace(s, "\n", BR) == BR;
    ReplaceAbsent(BR, "\t", NBSP4);
  }

  lemma BreakTab()
    ensures Replace(Replace("\t", "\n", BR), "\t", NBSP4) == NBSP4
  {
    ReplaceAbsent("\t", "\n", BR);
    assert "\t"[..1] == "\t";
  }

  /** The rewritten text starts with a space exactly when the text does. */
  lemma EscapeAndBreakHead(t: string)
    requires t != []
    ensures EscapeAndBreak(t) != []
    ensures EscapeAndBreak(t)[0] == ' ' <==> t[0] == ' '
  {
    assert t == [t[0]] + t[1..];
    EscapeAndBreakConcat([t[0]], t[1..]);
    EscapeAndBreakChar(t[0]);
  }

  /** Two spaces at the front become `&nbsp;&nbsp;`. */
  lemma ReplaceLeadingPair(x: string)
    ensures Replace("  " + x, "  ", NBSP2) == NBSP2 + Replace(x, "  ", NBSP2)
  {
    var s := "  " + x;
    assert s[..2] == "  ";
    assert s[2..] == x;
  }

  /** Two spaces at the front of a text become `&nbsp;&nbsp;`. */
  lemma SafeLeadingPair(r: string)
    ensures Safe("  " + r) == NBSP2 + Safe(r)
  {
    EscapeAndBreakConcat("  ", r);
    EscapeAndBreakConcat(" ", " ");
    EscapeAndBreakChar(' ');
    assert EscapeAndBreak("  ") == "  ";
    ReplaceLeadingPair(EscapeAndBreak(r));
  }

  /** A leading character that does not open a pair of spaces is rewritten
      on its own. */
  lemma SafeLeadingChar(c: char, r: string)
    requires c != ' ' || r == [] || r[0] != ' '
    ensures Safe([c] + r) == EscapeAndBreak([c]) + Safe(r)
  {
    EscapeAndBreakConcat([c], r);
    var head, tail := EscapeAndBreak([c]), EscapeAndBreak(r);
    if c == ' ' {
      EscapeAndBreakChar(' ');
      if r != [] {
        EscapeAndBreakHead(r);
      }
      ReplacePairConcat(head, tail, "  ", NBSP2);
    } else {
      CharHasNoSpace(c);
      ReplacePairConcat(head, tail, "  ", NBSP2);
      ReplaceAbsent(head, "  ", NBSP2);
    }
  }

  /** Any character but a space is rewritten to something without a space. */
  lemma CharHasNoSpace(c: char)
    requires c != ' '
    ensures EscapeAndBreak([c]) != []
    ensures forall i :: 0 <= i < |EscapeAndBreak([c])| ==> EscapeAndBreak([c])[i] != ' '
  {
    EscapeAndBreakChar(c);
    if c == '\n' {
      assert BR == "<br/>";
    } else if c == '\t' {
      assert NBSP4 == "&nbsp;&nbsp;&nbsp;&nbsp;";
    } else {
      EscapeCharNoSpace(c);
    }
  }

  lemma EscapeCharNoSpace(c: char)
    requires c != ' '
    ensures forall i :: 0 <= i < |HtmlEscape.EscapeChar(c)| ==> HtmlEscape.EscapeChar(c)[i] != ' '
  {
    if !HtmlEscape.Reserved(c) {
      assert HtmlEscape.EscapeChar(c) == [c];
    }
  }

  /** The tokens of a character that does not open a pair of spaces. */
  function CharTokens(c: char): seq<Token>
  {
    if c == '\n' then [Br] else if c == '\t' then [Nbsp, Nbsp, Nbsp, Nbsp] else [Text(c)]
  }

  lemma RenderCharTokens(c: char)
    ensures Render(CharTokens(c)) == EscapeAndBreak([c])
    ensures TextOf(CharTokens(c)) == ExpandTabs([c])
  {
    EscapeAndBreakChar(c);
    var tok := CharTokens(c);
    assert [c][1..] == [];
    if c == '\t' {
      RenderTabTokens();
    }
  }

  lemma RenderTabTokens()
    ensures Render([Nbsp, Nbsp, Nbsp, Nbsp]) == NBSP4
    ensures TextOf([Nbsp, Nbsp, Nbsp, Nbsp]) == "    "
  {
    var tok := [Nbsp, Nbsp, Nbsp, Nbsp];
    assert tok[1..][1..][1..] == [Nbsp];
    assert Render(tok[1..][1..][1..]) == NBSP && TextOf(tok[1..][1..][1..]) == " ";
    assert Render(tok[1..][1..]) == NBSP + NBSP && TextOf(tok[1..][1..]) == "  ";
    assert Render(tok[1..]) == NBSP + NBSP + NBSP && TextOf(tok[1..]) == "   ";
  }

  /** The rewriting chain produces exactly the rendering of the reference
      tokenisation. */
  lemma {:induction false} SafeIsRendering(t: string)
    ensures Safe(t) == Render(TextTokens(t))
    decreases |t|
  {
    if t == [] {
      assert HtmlEscape.Escape(t) == [];
    } else if |t| >= 2 && t[0] == ' ' && t[1] == ' ' {
      SafeIsRendering(t[2..]);
      PairStep(t);
    } else {
      SafeIsRendering(t[1..]);
      CharStep(t);
    }
  }

  /** The step of `SafeIsRendering` for a leading pair of spaces. */
  lemma PairStep(t: string)
    requires |t| >= 2 && t[0] == ' ' && t[1] == ' '
    requires Safe(t[2..]) == Render(TextTokens(t[2..]))
    ensures Safe(t) == Render(TextTokens(t))
  {
    SafePairFirst(t);
    TextTokensPair(t);
    RenderConcat([Nbsp, Nbsp], TextTokens(t[2..]));
    RenderPair();
  }

  lemma SafePairFirst(t: string)
    requires |t| >= 2 && t[0] == ' ' && t[1] == ' '
    ensures Safe(t) == NBSP2 + Safe(t[2..])
  {
    assert t == "  " + t[2..];
    SafeLeadingPair(t[2..]);
  }

  lemma TextTokensPair(t: string)
    requires |t| >= 2 && t[0] == ' ' && t[1] == ' '
    ensures TextTokens(t) == [Nbsp, Nbsp] + TextTokens(t[2..])
  {
  }

  lemma RenderPair()
    ensures Render([Nbsp, Nbsp]) == NBSP2
  {
    assert [Nbsp, Nbsp][1..] == [Nbsp];
  }

  /** The step of `SafeIsRendering` for a leading character that does not
      open a pair of spaces. */
  lemma CharStep(t: string)
    requires t != [] && !(|t| >= 2 && t[0] == ' ' && t[1] == ' ')
    requires Safe(t[1..]) == Render(TextTokens(t[1..]))
    ensures Safe(t) == Render(TextTokens(t))
  {
    SafeFirstChar(t);
    TextTokensFirst(t);
    RenderConcat(CharTokens(t[0]), TextTokens(t[1..]));
    RenderCharTokens(t[0]);
  }

  /** A leading character that does not open a pair of spaces gives its
      own tokens. */
  lemma TextTokensFirst(t: string)
    requires t != [] && !(|t| >= 2 && t[0] == ' ' && t[1] == ' ')
    ensures TextTokens(t) == CharTokens(t[0]) + TextTokens(t[1..])
  {
  }

  /** `SafeLeadingChar` for the first character of a text. */
  lemma SafeFirstChar(t: string)
    requires t != [] && !(|t| >= 2 && t[0] == ' ' && t[1] == ' ')
    ensures Safe(t) == EscapeAndBreak([t[0]]) + Safe(t[1..])
  {
    assert t == [t[0]] + t[1..];
    SafeLeadingChar(t[0], t[1..]);
  }

  /** A rendering of tokens with no raw newline or tab and no two plain
      spaces in a row leaves nothing for the browser to collapse. */
  lemma {:induction false} RenderNoCollapsibleSpace(ts: seq<Token>)
    requires forall i :: 0 <= i < |ts| ==> ts[i] != Text('\n') && ts[i] != Text('\t')
    requires forall i :: 0 <= i < |ts| - 1 ==> !(ts[i] == Text(' ') && ts[i + 1] == Text(' '))
    ensures NoCollapsibleSpace(Render(ts))
    ensures ts != [] ==> Render(ts) != [] && (Render(ts)[0] == ' ' <==> ts[0] == Text(' '))
    decreases |ts|
  {
    if ts != [] {
      RenderNoCollapsibleSpace(ts[1..]);
      EncodeNoCollapsibleSpace(ts[0]);
      JoinNoCollapsibleSpace(Encode(ts[0]), Render(ts[1..]));
    }
  }

  /** A token other than a raw newline or tab is spelled with nothing to
      collapse, and its spelling starts or ends with a space only when it
      is a plain space. */
  lemma EncodeNoCollapsibleSpace(t: Token)
    requires t != Text('\n') && t != Text('\t')
    ensures NoCollapsibleSpace(Encode(t))
    ensures Encode(t)[0] == ' ' <==> t == Text(' ')
    ensures Encode(t)[|Encode(t)| - 1] == ' ' ==> t == Text(' ')
  {
  }

  /** Two pieces with nothing to collapse, not meeting at two spaces, give
      a whole with nothing to collapse. */
  lemma JoinNoCollapsibleSpace(e: string, rest: string)
    requires e != [] && NoCollapsibleSpace(e) && NoCollapsibleSpace(rest)
    requires e[|e| - 1] == ' ' && rest != [] ==> rest[0] != ' '
    ensures NoCollapsibleSpace(e + rest) && (e + rest)[0] == e[0]
  {
    var s := e + rest;
    forall i | 0 <= i < |s|
      ensures s[i] != '\n' && s[i] != '\t'
    {
      if i >= |e| {
        assert s[i] == rest[i - |e|];
      }
    }
    forall i | 0 <= i < |s| - 1
      ensures !(s[i] == ' ' && s[i + 1] == ' ')
    {
      if i == |e| - 1 {
        assert s[i + 1] == rest[0];
      } else if i >= |e| {
        assert s[i] == rest[i - |e|] && s[i + 1] == rest[i + 1 - |e|];
      }
    }
  }

  /** After rewriting, no text contains a newline, a tab or two spaces in a
      row. */
  lemma SafeNoCollapsibleSpace(t: string)
    ensures NoCollapsibleSpace(Safe(t))
  {
    SafeIsRendering(t);
    TextTokensShape(t);
    RenderNoCollapsibleSpace(TextTokens(t));
  }

  /** Read back, the reference tokenisation gives the text with its tabs
      expanded; for a text without tabs, the text itself. */
  lemma {:induction false} TextTokensRead(t: string)
    ensures TextOf(TextTokens(t)) == ExpandTabs(t)
    decreases |t|
  {
    if t != [] {
      var c := t[0];
      if |t| >= 2 && c == ' ' && t[1] == ' ' {
        TextTokensRead(t[2..]);
        TextOfConcat([Nbsp, Nbsp], TextTokens(t[2..]));
        assert ExpandTabs(t) == " " + ExpandTabs(t[1..]);
        assert t[1..][1..] == t[2..];
        assert ExpandTabs(t[1..]) == " " + ExpandTabs(t[2..]);
      } else {
        TextTokensRead(t[1..]);
        assert TextTokens(t) == CharTokens(c) + TextTokens(t[1..]);
        TextOfConcat(CharTokens(c), TextTokens(t[1..]));
        RenderCharTokens(c);
        assert ExpandTabs([c]) == (if c == '\t' then "    " else [c]) by {
          assert [c][1..] == [];
        }
      }
    }
  }

  /** A rewritten text contains no raw markup and reads back as the text,
      with tabs shown as four spaces. */
  lemma SafeReadsBack(t: string)
    ensures Lex(Safe(t)) == Some(TextTokens(t))
    ensures TextOf(TextTokens(t)) == ExpandTabs(t)
  {
    SafeIsRendering(t);
    LexRender(TextTokens(t));
    TextTokensRead(t);
  }

  /** A character that is neither reserved in HTML nor whitespace the
      rewriting touches. */
  predicate Plain(c: char)
  {
    !HtmlEscape.Reserved(c) && c != '\n' && c != '\t' && c != ' '
  }

  lemma PlainUnchanged(w: string)
    requires forall i :: 0 <= i < |w| ==> Plain(w[i])
    ensures EscapeAndBreak(w) == w && Replace(w, "  ", NBSP2) == w
  {
    ReplaceAbsent(w, "\n", BR);
    ReplaceAbsent(w, "\t", NBSP4);
    ReplaceAbsent(w, "  ", NBSP2);
  }

  /** Escaping and the newline and tab rewrites leave a plain run in place. */
  lemma EscapeAndBreakAroundPlain(a: string, w: string, b: string)
    requires forall i :: 0 <= i < |w| ==> Plain(w[i])
    ensures EscapeAndBreak(a + w + b) == EscapeAndBreak(a) + (w + EscapeAndBreak(b))
  {
    PlainUnchanged(w);
    EscapeAndBreakConcat(a + w, b);
    EscapeAndBreakConcat(a, w);
  }

  lemma PairsAroundPlain(x: string, w: string, y: string)
    requires w != []
    requires forall i :: 0 <= i < |w| ==> Plain(w[i])
    ensures Replace(x + (w + y), "  ", NBSP2) == Replace(x, "  ", NBSP2) + w + Replace(y, "  ", NBSP2)
  {
    PlainUnchanged(w);
    var pat := "  ";
    assert w[0] != pat[1] && w[|w| - 1] != pat[0] by {
      assert Plain(w[0]) && Plain(w[|w| - 1]);
    }
    assert (w + y)[0] == w[0];
    ReplacePairConcat(w, y, pat, NBSP2);
    ReplacePairConcat(x, w + y, pat, NBSP2);
  }

  /** A non-empty run of plain characters passes through the rewriting
      verbatim, whatever surrounds it. */
  lemma PlainPassesThrough(a: string, w: string, b: string)
    requires w != []
    requires forall i :: 0 <= i < |w| ==> Plain(w[i])
    ensures Safe(a + w + b) == Safe(a) + w + Safe(b)
  {
    EscapeAndBreakAroundPlain(a, w, b);
    PairsAroundPlain(EscapeAndBreak(a), w, EscapeAndBreak(b));
  }

  /** The rewritten text ends with a space exactly when the text does. */
  lemma EscapeAndBreakLast(t: string)
    requires t != []
    ensures EscapeAndBreak(t) != []
    ensures EscapeAndBreak(t)[|EscapeAndBreak(t)| - 1] == ' ' <==> t[|t| - 1] == ' '
  {
    var c := t[|t| - 1];
    assert t == t[..|t| - 1] + [c];
    EscapeAndBreakConcat(t[..|t| - 1], [c]);
    EscapeAndBreakChar(c);
  }

  /** Rewriting distributes over concatenation unless the first part ends
      and the second starts with a space. */
  lemma SafeConcat(a: string, b: string)
    requires a == [] || b == [] || a[|a| - 1] != ' ' || b[0] != ' '
    ensures Safe(a + b) == Safe(a) + Safe(b)
  {
    EscapeAndBreakConcat(a, b);
    if a != [] {
      EscapeAndBreakLast(a);
    }
    if b != [] {
      EscapeAndBreakHead(b);
    }
    ReplacePairConcat(EscapeAndBreak(a), EscapeAndBreak(b), "  ", NBSP2);
  }

  /** A lone space is kept as it is. */
  lemma SafeLoneSpace()
    ensures Safe(" ") == " "
  {
    SafeLeadingChar(' ', []);
    EscapeAndBreakChar(' ');
    assert [' '] + [] == " ";
    assert HtmlEscape.Escape([]) == [];
  }
}
