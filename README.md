# Redline renderer

A model of the rendering half of the contract redline generator,
`api/src/contract_ai/redline/diff_engine.py`. The generator compares an
original and an amended contract text and produces three HTML strings:
- the original text with deletions marked `<del>…</del>`;
- the amended text with insertions marked `<ins>…</ins>`;
- a standalone two-column page holding both.

The diff script, a list of `(op, text)` entries with op codes -1 (delete),
0 (equal) and 1 (insert), comes from the diff-match-patch library. Here the
script is an input. The library's guarantee about it is the precondition
`Redline.ValidScript`:
- every code is -1, 0 or 1;
- the equal and deleted texts spell the original;
- the equal and inserted texts spell the amended text.

Modules:
- `PyStr`: Python's `str.replace`. The pattern is non-empty, matches are
  found from the left and do not overlap.
- `HtmlEscape`: Python's `html.escape` with `quote=True`.
- `HtmlReader`: a reader for the HTML the renderer emits. It knows the five
  character references, `&nbsp;`, `<br/>`, and the `<ins>`/`<del>` tags. It
  rejects any other `&`, `<`, `>`, `"` or `'`. `Render` is its canonical
  spelling of tokens, and `TextOf` is the text a reader sees. The reader is
  the independent account that the escaping and whitespace properties are
  stated against.
- `SafeText`: the per-entry rewrite chain (lines 28-33). `Safe` is escape,
  then newline to `<br/>`, tab to four `&nbsp;`, and space pairs to
  `&nbsp;&nbsp;`. `TextTokens` is a one-pass reference tokenisation of a
  text, and the main theorem says the chain is the rendering of it.
- `Marking`: `_diff_to_marked_html` (lines 19-44).
  - `DiffToMarkedHtml` is the loop that builds `parts`, then the join.
  - `Fragment` and `Mark` are the functions it is proved against.
- `Redline`:
  - the partition loop of `generate_redline_html` (lines 74-88), modelled as
    the method `GenerateRedlineHtml`;
  - the two marked views;
  - the page (lines 95-205) and the `RedlineResult` record (lines 12-16,
    206-210).

The guarantee that no raw newline, tab or pair of spaces survives holds
fragment by fragment. `Redline.SpacesMeetAcrossFragments` shows that it
does not hold for a whole view. Take an equal entry ending in a space, a
deletion, and an equal entry starting with a space. The amended-side view
joins the two equal fragments, so two raw spaces meet. The same amended
text marked as a single entry would show `&nbsp;&nbsp;`.

## Model

| member | source | states |
|---|---|---|
| HtmlEscape.EscapeChar | api/src/contract_ai/redline/diff_engine.py:28 | A character changes exactly when it is one of `& < > " '`. The only reserved character left in its replacement is a leading `&`. |
| HtmlEscape.Escape | api/src/contract_ai/redline/diff_engine.py:28 | An escaped text holds no `<`, `>`, `"` or `'`. A text without reserved characters is returned unchanged. |
| HtmlReader.Lex | api/src/contract_ai/redline/diff_engine.py:28-40 | Whatever the reader accepts is the rendering of the tokens it returns. |
| HtmlReader.LexRender | api/src/contract_ai/redline/diff_engine.py:28-40 | Reading inverts rendering: every token sequence is read back from its spelling. |
| HtmlReader.EscapeReadsBack | api/src/contract_ai/redline/diff_engine.py:195 | An escaped title is accepted by the reader with no markup in it, and reads back as the title itself. |
| PyStr.ReplacePairConcat | api/src/contract_ai/redline/diff_engine.py:33 | Replacing a two-character pattern distributes over `a + b` unless an occurrence could straddle the join. |
| SafeText.SafeIsRendering | api/src/contract_ai/redline/diff_engine.py:28-33 | The rewrite chain equals the rendering of the one-pass tokenisation. A newline becomes a line break and a tab four kept spaces. Space pairs taken from the left become two kept spaces. Every other character is itself, escaped. |
| SafeText.TextTokensShape | api/src/contract_ai/redline/diff_engine.py:31-33 | The tokens of a text hold no tag, raw newline or raw tab, and no two plain spaces in a row. |
| SafeText.SafeNoCollapsibleSpace | api/src/contract_ai/redline/diff_engine.py:31-33 | No newline, tab or two consecutive spaces survive the rewriting. |
| SafeText.SafeReadsBack | api/src/contract_ai/redline/diff_engine.py:28-33 | A rewritten text is accepted by the reader, so it contains no markup from the input. It reads back as the input with tabs shown as four spaces. |
| SafeText.PlainPassesThrough | api/src/contract_ai/redline/diff_engine.py:28-33 | A run of characters other than `& < > " '`, newline, tab and space comes out of the rewriting verbatim, whatever surrounds it. |
| SafeText.SafeConcat | api/src/contract_ai/redline/diff_engine.py:33 | Rewriting distributes over `a + b` unless `a` ends and `b` starts with a space. |
| Marking.FragmentTokensShape | api/src/contract_ai/redline/diff_engine.py:35-42 | An insertion is wrapped exactly once in `<ins>…</ins>` and a deletion in `<del>…</del>`. Equal and unknown codes get no tag. The text read back is the entry's text with tabs expanded. |
| Marking.FragmentReads | api/src/contract_ai/redline/diff_engine.py:28-42 | A fragment is accepted by the reader and yields exactly those tokens. Its only markup is its wrapper and line breaks. |
| Marking.FragmentOpens | api/src/contract_ai/redline/diff_engine.py:37-40 | An insertion's fragment contains `<ins>` and a deletion's contains `<del>`. |
| Marking.MarkConcat | api/src/contract_ai/redline/diff_engine.py:25-44 | Marking is a homomorphism: marking `a + b` is marking `a` followed by marking `b`, so fragments appear in script order. |
| Marking.MarkAround | api/src/contract_ai/redline/diff_engine.py:25-44 | Entry `i`'s fragment sits between the marked entries before it and those after it. |
| Marking.MarkHoldsFragment | api/src/contract_ai/redline/diff_engine.py:44 | Every entry's fragment appears verbatim in the marked script. |
| Marking.MarkReads | api/src/contract_ai/redline/diff_engine.py:25-44 | The marked script is accepted by the reader. Read as text, it is the entries' texts in order with tabs expanded. |
| Marking.MarkKeepsPlainRun | api/src/contract_ai/redline/diff_engine.py:25-44 | A plain run inside any entry's text appears verbatim in the marked script. |
| Marking.DiffToMarkedHtml | api/src/contract_ai/redline/diff_engine.py:19-44 | The loop over `parts` and the join return the fragments of the entries in order, and the reader accepts the result with the script's tokens. |
| Redline.Keep | api/src/contract_ai/redline/diff_engine.py:77-88 | An entry is kept exactly when it is in the script and its code is 0 or the side's edit code. Other codes are dropped. |
| Redline.KeepConcat | api/src/contract_ai/redline/diff_engine.py:74-88 | Filtering distributes over concatenation, so the script order is kept. |
| Redline.KeepStep | api/src/contract_ai/redline/diff_engine.py:77-88 | One more entry is appended to a side exactly when its code belongs to that side. |
| Redline.KeepTexts | api/src/contract_ai/redline/diff_engine.py:77-88 | A side's texts are the script's texts without the other side's edits. |
| Redline.Reconstruction | api/src/contract_ai/redline/diff_engine.py:71-88 | For a valid script, the left list spells the original and the right list the amended text. |
| Redline.SideMarkers | api/src/contract_ai/redline/diff_engine.py:77-88 | The original-side view holds no `<ins>` tag and the amended-side view no `<del>` tag. |
| Redline.ViewReadsBack | api/src/contract_ai/redline/diff_engine.py:90-91 | Each view is accepted by the reader. Read as text, it is that side's document with tabs expanded. |
| Redline.ViewsKeepPlainRun | api/src/contract_ai/redline/diff_engine.py:77-91 | A plain run in an entry appears verbatim in every view that shows the entry. |
| Redline.EditsAreMarked | api/src/contract_ai/tests/test_redline.py:11 | A deletion in the script puts `<del>` in the original-side view, and an insertion puts `<ins>` in the amended-side view. |
| Redline.EditFreeViewsAgree | api/src/contract_ai/redline/diff_engine.py:77-91 | A script of equal entries gives the same list and the same HTML on both sides. |
| Redline.SpacesMeetAcrossFragments | api/src/contract_ai/redline/diff_engine.py:30-44 | Two clean fragments can put two raw spaces side by side in a view. |
| Redline.PanelEmbeds | api/src/contract_ai/redline/diff_engine.py:194-201 | A column holds its escaped title and its fragment verbatim. |
| Redline.HeadHasHeading | api/src/contract_ai/redline/diff_engine.py:189 | The page head carries "Contract Redline". |
| Redline.PageEmbeds | api/src/contract_ai/redline/diff_engine.py:189-200 | The page carries the heading and, verbatim, each side's fragment and escaped title. |
| Redline.GenerateRedlineHtml | api/src/contract_ai/redline/diff_engine.py:74-91 | The partition loop builds exactly the left and right lists. The result holds both marked views and the page built from them. Each view is accepted by the reader and reads back as its document. |

## Left out

- The diff computation is not modelled: `diff_main`, `diff_cleanupSemantic` and `diff_cleanupEfficiency` (lines 9, 61-69). The script is an input, and `ValidScript` states what the library guarantees about it. `original` and `amended` are ghost parameters of `GenerateRedlineHtml` for that reason.
- The `context_cleanup` flag (lines 53, 67-69) only selects cleanup passes of that library, so it is left out with them.
- The generation time from `datetime.utcnow()` (line 94) is a clock reading. It is the parameter `now`, and its format is not modelled.
- The CSS rules inside `<style>` (lines 102-184) are fixed text with nothing to state. The model's page keeps an empty `<style>` element and every other line of the page.
- The default titles "Original" and "Amended" (lines 51-52): Dafny has no keyword defaults, so the titles are plain parameters.
- HtmlEscape.Escape is defined character by character. CPython replaces `&` first and then the other four characters in turn. Both give the same string, because no replacement introduces a character rewritten later except `&`, which is handled first.
- Unicode encoding is not modelled: texts are sequences of Dafny `char`.
- `api/src/contract_ai/tests/run_redline_demo.py` is a demo that writes a file and prints, so it is not part of this model.
