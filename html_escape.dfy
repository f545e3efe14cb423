/** Python's `html.escape(s)` with its default `quote=True`: the five
    characters that are significant in HTML are replaced by character
    references, every other character is kept. */
module HtmlEscape {

  /** The characters `html.escape` rewrites. */
  predicate Reserved(c: char)
  {
    c == '&' || c == '<' || c == '>' || c == '"' || c == '\''
  }

  function EscapeChar(c: char): (r: string)
    ensures |r| > 0
    ensures Reserved(c) <==> r != [c]
    ensures forall i :: 0 <= i < |r| ==> !Reserved(r[i]) || (i == 0 && r[i] == '&')
  {
    match c
    case '&' => "&amp;"
    case '<' => "&lt;"
    case '>' => "&gt;"
    case '"' => "&quot;"
    case '\'' => "&#x27;"
    case _ => [c]
  }

  /** The escaped text holds no `<`, `>`, `"` or `'` at all, and every
      character of the input that is not reserved is kept as it is. */
  function Escape(s: string): (r: string)
    ensures forall i :: 0 <= i < |r| ==> r[i] != '<' && r[i] != '>' && r[i] != '"' && r[i] != '\''
    ensures (forall i :: 0 <= i < |s| ==> !Reserved(s[i])) ==> r == s
    decreases |s|
  {
    if s == [] then [] else EscapeChar(s[0]) + Escape(s[1..])
  }

  lemma {:induction false} EscapeConcat(a: string, b: string)
    ensures Escape(a + b) == Escape(a) + Escape(b)
    decreases |a|
  {
    if a == [] {
      assert a + b == b;
    } else {
      assert (a + b)[1..] == a[1..] + b;
      EscapeConcat(a[1..], b);
    }
  }
}
