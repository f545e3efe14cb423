/** A reader for the small piece of HTML the redline renderer emits, used as
    an independent account of what a browser makes of a marked fragment.
    It knows the five character references produced by escaping, `&nbsp;`,
    the line break `<br/>` and the insertion and deletion tags; a raw `<`,
    `>`, `"`, `'` or `&` that does not begin one of these is rejected, so a
    fragment the reader accepts carries no markup but the renderer's own. */
module HtmlReader {
  import opened Wrappers
  import HtmlEscape

  datatype Token =
    | Text(c: char)   // a character of document text
    | Nbsp            // `&nbsp;`, a space the browser keeps
    | Br              // `<br/>`
    | InsOpen | InsClose | DelOpen | DelClose

  predicate IsTag(t: Token)
  {
    t == InsOpen || t == InsClose || t == DelOpen || t == DelClose
  }

  const NBSP: string := "&nbsp;"
  const BR: string := "<br/>"

  /** The canonical spelling of a token. */
  function Encode(t: Token): (r: string)
    ensures |r| > 0
  {
    match t
    case Text(c) => HtmlEscape.EscapeChar(c)
    case Nbsp => NBSP
    case Br => BR
    case InsOpen => "<ins>"
    case InsClose => "</ins>"
    case DelOpen => "<del>"
    case DelClose => "</del>"
  }

  function Render(ts: seq<Token>): (r: string)
    decreases |ts|
  {
    if ts == [] then [] else Encode(ts[0]) + Render(ts[1..])
  }

  predicate StartsWith(s: string, p: string)
  {
    |p| <= |s| && s[..|p|] == p
  }

  /** Reads one token from the front of `s`, with the number of characters
      it spans; a stray reserved character is an error. */
  function Next(s: string): (r: Option<(Token, nat)>)
    requires s != []
    ensures r.Some? ==> 0 < r.value.1 <= |s| && s[..r.value.1] == Encode(r.value.0)
    ensures r.None? ==> HtmlEscape.Reserved(s[0])
    ensures !HtmlEscape.Reserved(s[0]) ==> r == Some((Text(s[0]), 1))
  {
    if StartsWith(s, "&amp;") then Some((Text('&'), 5))
    else if StartsWith(s, "&lt;") then Some((Text('<'), 4))
    else if StartsWith(s, "&gt;") then Some((Text('>'), 4))
    else if StartsWith(s, "&quot;") then Some((Text('"'), 6))
    else if StartsWith(s, "&#x27;") then Some((Text('\''), 6))
    else if StartsWith(s, NBSP) then Some((Nbsp, 6))
    else if StartsWith(s, BR) then Some((Br, 5))
    else if StartsWith(s, "<ins>") then Some((InsOpen, 5))
    else if StartsWith(s, "</ins>") then Some((InsClose, 6))
    else if StartsWith(s, "<del>") then Some((DelOpen, 5))
    else if StartsWith(s, "</del>") then Some((DelClose, 6))
    else if HtmlEscape.Reserved(s[0]) then None
    else Some((Text(s[0]), 1))
  }

  /** Reads a whole string, or rejects it. */
  function Lex(s: string): (r: Option<seq<Token>>)
    ensures r.Some? ==> Render(r.value) == s
    decreases |s|
  {
    if s == [] then Some([])
    else match Next(s)
      case None => None
      case Some((t, n)) =>
        match Lex(s[n..])
        case None => None
        case Some(ts) =>
          assert s == s[..n] + s[n..];
          Some([t] + ts)
  }

  /** The text a reader sees: tags vanish, `&nbsp;` reads as a space and
      `<br/>` as a line break. */
  function TextOf(ts: seq<Token>): (r: string)
    decreases |ts|
  {
    if ts == [] then []
    else
      var head := match ts[0]
        case Text(c) => [c]
        case Nbsp => " "
        case Br => "\n"
        case _ => "";
      head + TextOf(ts[1..])
  }

  lemma {:induction false} RenderConcat(a: seq<Token>, b: seq<Token>)
    ensures Render(a + b) == Render(a) + Render(b)
    decreases |a|
  {
    if a == [] {
      assert a + b == b;
    } else {
      assert (a + b)[1..] == a[1..] + b;
      RenderConcat(a[1..], b);
    }
  }

  lemma {:induction false} TextOfConcat(a: seq<Token>, b: seq<Token>)
    ensures TextOf(a + b) == TextOf(a) + TextOf(b)
    decreases |a|
  {
    if a == [] {
      assert a + b == b;
    } else {
      assert (a + b)[1..] == a[1..] + b;
      TextOfConcat(a[1..], b);
    }
  }

  /** A pattern whose `k`-th character differs from that of `s` does not
      start it. */
  lemma Differs(s: string, p: string, k: nat)
    requires k < |p| && k < |s| && s[k] != p[k]
    ensures !StartsWith(s, p)
  {
    assert |p| <= |s| ==> s[..|p|][k] == s[k];
  }

  /** The reader takes back exactly the token its canonical spelling came
      from, whatever follows. */
  lemma NextEncode(t: Token, rest: string)
    ensures Next(Encode(t) + rest) == Some((t, |Encode(t)|))
  {
    var e := Encode(t);
    var s := e + rest;
    assert s[..|e|] == e;
    match t
    case Text(c) =>
      if c == '<' {
        Differs(s, "&amp;", 1);
      } else if c == '>' {
        Differs(s, "&amp;", 1); Differs(s, "&lt;", 1);
      } else if c == '"' {
        Differs(s, "&amp;", 1); Differs(s, "&lt;", 1); Differs(s, "&gt;", 1);
      } else if c == '\'' {
        Differs(s, "&amp;", 1); Differs(s, "&lt;", 1); Differs(s, "&gt;", 1);
        Differs(s, "&quot;", 1);
      } else if c != '&' {
        AmpersandPatterns(s);
        AnglePatterns(s);
      }
    case Nbsp =>
      Differs(s, "&amp;", 1); Differs(s, "&lt;", 1); Differs(s, "&gt;", 1);
      Differs(s, "&quot;", 1); Differs(s, "&#x27;", 1);
    case Br =>
      AmpersandPatterns(s);
    case InsOpen =>
      AmpersandPatterns(s); Differs(s, BR, 1);
    case InsClose =>
      AmpersandPatterns(s); Differs(s, BR, 1); Differs(s, "<ins>", 1);
    case DelOpen =>
      AmpersandPatterns(s); Differs(s, BR, 1); Differs(s, "<ins>", 1);
      Differs(s, "</ins>", 1);
    case DelClose =>
      AmpersandPatterns(s); Differs(s, BR, 1); Differs(s, "<ins>", 1);
      Differs(s, "</ins>", 2); Differs(s, "<del>", 1);
  }

  /** A string not starting with `&` starts with no character reference. */
  lemma AmpersandPatterns(s: string)
    requires s != [] && s[0] != '&'
    ensures !StartsWith(s, "&amp;") && !StartsWith(s, "&lt;") && !StartsWith(s, "&gt;")
    ensures !StartsWith(s, "&quot;") && !StartsWith(s, "&#x27;") && !StartsWith(s, NBSP)
  {
    Differs(s, "&amp;", 0); Differs(s, "&lt;", 0); Differs(s, "&gt;", 0);
    Differs(s, "&quot;", 0); Differs(s, "&#x27;", 0); Differs(s, NBSP, 0);
  }

  /** A string not starting with `<` starts with no tag. */
  lemma AnglePatterns(s: string)
    requires s != [] && s[0] != '<'
    ensures !StartsWith(s, BR) && !StartsWith(s, "<ins>") && !StartsWith(s, "</ins>")
    ensures !StartsWith(s, "<del>") && !StartsWith(s, "</del>")
  {
    Differs(s, BR, 0); Differs(s, "<ins>", 0); Differs(s, "</ins>", 0);
    Differs(s, "<del>", 0); Differs(s, "</del>", 0);
  }

  /** Reading is the inverse of rendering: every token sequence reads back
      from its rendering. */
  lemma {:induction false} LexRender(ts: seq<Token>)
    ensures Lex(Render(ts)) == Some(ts)
    decreases |ts|
  {
    if ts != [] {
      var e, rest := Encode(ts[0]), Render(ts[1..]);
      NextEncode(ts[0], rest);
      LexRender(ts[1..]);
      LexStep(e + rest, ts[0], |e|, ts[1..]);
      assert (e + rest)[|e|..] == rest;
      assert [ts[0]] + ts[1..] == ts;
    }
  }

  /** Reading a string is reading its first token, then the rest. */
  lemma LexStep(s: string, t: Token, n: nat, ts: seq<Token>)
    requires s != [] && Next(s) == Some((t, n))
    requires Lex(s[n..]) == Some(ts)
    ensures Lex(s) == Some([t] + ts)
  {
  }

  /** The tokens of a text taken character by character. */
  function Chars(s: string): (ts: seq<Token>)
    ensures |ts| == |s|
    decreases |s|
  {
    if s == [] then [] else [Text(s[0])] + Chars(s[1..])
  }

  lemma {:induction false} EscapeIsRendering(s: string)
    ensures HtmlEscape.Escape(s) == Render(Chars(s))
    ensures TextOf(Chars(s)) == s
    decreases |s|
  {
    if s != [] {
      EscapeIsRendering(s[1..]);
      assert [Text(s[0])] + Chars(s[1..]) == Chars(s);
      assert Render(Chars(s)) == Encode(Text(s[0])) + Render(Chars(s[1..]));
      assert TextOf(Chars(s)) == [s[0]] + TextOf(Chars(s[1..]));
      assert [s[0]] + s[1..] == s;
    }
  }

  /** An escaped text, such as a page title, holds no markup and reads back
      as the text itself, character for character. */
  lemma EscapeReadsBack(s: string)
    ensures Lex(HtmlEscape.Escape(s)) == Some(Chars(s))
    ensures TextOf(Chars(s)) == s
  {
    EscapeIsRendering(s);
    LexRender(Chars(s));
  }
}
