# Apple Notes rich text to HTML, in Dafny

This project models the code in the Apple Notes parser that renders a note's
rich text into HTML. A note body is a string plus a sequence of *attribute
runs*. Each run is a stretch of text with one set of attributes:

- a paragraph style: style type, alignment, indent amount, checklist;
- a font, a font weight, underline, strikethrough and super/subscript;
- a link, a colour and an attachment.

`generate_html` renders one run into a shared HTML fragment. It can open:

- a heading or `pre` block;
- nested `ol`/`ul` containers, one per indent level, each marked with its
  indent in a `data-apple-notes-indent-amount` attribute.

Later runs find those containers again through the markers. Inside the
block, `add_html_text` cuts the text at line breaks, and `add_inline_html`
wraps every piece in the run's character tags (`b`, `i`, `u`, `s`,
`sup`/`sub`, `div`, `span`, `a`).

The modules follow the source's layers:

- `Styles`: paragraph-style equality.
- `Colors`: hexadecimal colour strings.
- `Runs`: attribute runs, their predicates and comparisons, and the
  recursive total indent.
- `Html`: a persistent element tree with paths. It stands in for the
  document library and provides the lookups the renderer uses: the last
  element child of a node, the last `li` below a node, the first
  descendant marked with an indent (falling back to the node itself), and
  the nearest marker on the node or its ancestors.
- `Builder`: the cursor machine of `open_html_tag` / `close_html_tag`.
  The state is a root, the path of the active node, and a depth count.
- `Split`: Ruby's `String#split` with a capturing separator pattern.
- `Inline`: `add_inline_html` and `add_html_text`.
- `Generate`: `generate_html`.

Every renderer is a pure function from the old tree to the new one. The
lemmas relate that tree to independent descriptions:

- inline rendering appends exactly one wrapped text node;
- the text inline rendering leaves in the tree is its input minus every
  line separator and, outside `pre`, minus every newline;
- list text placed at an `ol` or `ul` becomes one `li` per line, empty
  lines included, and those items hold the input minus its line breaks;
- a list run appends at most one chain of containers, marked with
  consecutive levels from the first missing level to the run's indent;
  none when the container marked with its indent already exists;
- a container found by its marker is reused, not duplicated;
- the tree only ever grows.

## Model

| member | source | states |
|---|---|---|
| Styles.StyleEquals | lib/ProtoPatches.rb:5-15 | paragraph styles are equal exactly when style type, alignment, indent amount and the whole checklist agree; a missing other style is never equal |
| Styles.OptionalStyleEquals | lib/ProtoPatches.rb:45 | comparing two optional paragraph styles is equality of the options (nil equals only nil) |
| Styles.StyleEqualsReflexive | lib/ProtoPatches.rb:5-15 | every paragraph style equals itself |
| Styles.StyleEqualsSymmetric | lib/ProtoPatches.rb:5-15 | the paragraph-style comparison does not depend on argument order |
| Styles.StyleEqualsTransitive | lib/ProtoPatches.rb:5-15 | the paragraph-style comparison is transitive, so runs can be grouped by it |
| Colors.ToHex | lib/ProtoPatches.rb:18-28 | a channel renders as upper-case hex digits with no leading zero (one digit below 16, at most two below 256) |
| Colors.ParseToHex | lib/ProtoPatches.rb:18-28 | reading the rendered hex digits back gives the channel value |
| Colors.FullHexString | lib/ProtoPatches.rb:30-32 | the colour string is '#' followed by 3 to 6 hex digits |
| Colors.FullHexRoundTrip | lib/ProtoPatches.rb:30-32 | when every channel is at least 16 the string has 7 characters and each two-digit group reads back as its channel |
| Colors.UnpaddedRenderingIsAmbiguous | lib/ProtoPatches.rb:18-32 | without zero padding, two different colours can render to the same string |
| Runs.StyleTypeOf | lib/ProtoPatches.rb:39-41 | a run has a style type exactly when it has a paragraph style whose type is present; type 0 (title) counts |
| Runs.ListPredicatesNeedStyle | lib/ProtoPatches.rb:119-145 | the list predicates fail without a paragraph style, and a run is some kind of list exactly when its style type is numbered, dotted, dashed or checkbox |
| Runs.SameStyleType | lib/ProtoPatches.rb:79-96 | a missing other run never matches; runs without a style type match only each other; styled runs match exactly when their raw indents and style types agree and, if both are checkboxes, their checklist uuids agree; checklists are needed only when both runs are checkboxes with equal indents |
| Runs.SameStyleTypeSymmetric | lib/ProtoPatches.rb:79-96 | the block comparison does not depend on argument order |
| Runs.SameStyleTypePrevious | lib/ProtoPatches.rb:65-67 | a run continues the block exactly when it has a predecessor and the two match; only the run and its predecessor are read |
| Runs.SameStyleTypeNext | lib/ProtoPatches.rb:72-74 | comparing a run with its successor is the successor's comparison with its predecessor; the last run has no successor |
| Runs.SameStyle | lib/ProtoPatches.rb:43-61 | two runs have the same style exactly when all their attributes are equal and the run carries no attachment |
| Runs.SameFontWeightSymmetric | lib/ProtoPatches.rb:100-103 | the font-weight comparison of two runs does not depend on argument order |
| Runs.SameFontWeightStretch | lib/ProtoPatches.rb:107-109 | when every run after a first one has the same weight as its predecessor, the whole stretch shares the first run's weight |
| Runs.SameFontWeightNext | lib/ProtoPatches.rb:113-115 | comparing a run with its successor is the successor's comparison with its predecessor; the last run has no successor |
| Runs.TotalIndentIsPrefixSum | lib/ProtoPatches.rb:150-169 | the recursive total indent of run i is the sum of the own indents of runs 0..i, a missing style or amount counting 0 |
| Runs.TotalIndentBounds | lib/ProtoPatches.rb:150-169 | with non-negative indents, the total is at least the run's own indent and never decreases from one run to the next |
| Builder.OpenTag | lib/ProtoPatches.rb:171-182 | opening a tag appends an empty element as the active node's last child, makes it active and counts one more level |
| Builder.CloseTag | lib/ProtoPatches.rb:184-191 | closing moves to the parent and counts one level less; at the root nothing changes |
| Builder.OpenAllAppendsNest | lib/ProtoPatches.rb:171-182 | opening a list of tags in turn appends one nest of them at the active node and leaves its innermost element active |
| Builder.OpenAddClose | lib/ProtoPatches.rb:171-191 | opening tags, adding a child and closing as many tags appends the wrapped child and returns the cursor to where it was |
| Split.RubySplit | lib/ProtoPatches.rb:277 | the pieces concatenate back to the input; fields sit at even positions and single separators at odd ones, so a field, possibly empty, precedes every separator; no trailing empty piece; the empty string splits to nothing |
| Split.SplitSeparatorFree | lib/ProtoPatches.rb:277 | a non-empty text without separators splits into itself alone |
| Inline.EscapeRoundTrip | lib/ProtoPatches.rb:252 | escaping quotes in a font name can be undone, and an escaped name never starts with a bare quote |
| Inline.SpanDeclarations | lib/ProtoPatches.rb:248-263 | the span style holds at most font family, size and colour; the family comes first, quoted with its quotes escaped, exactly when the font has a name; a size in `px` is present exactly when the font has a point size; a colour declaration is present exactly when the run has a colour, and it comes last with the colour's hex string |
| Inline.InlineTagsOrder | lib/ProtoPatches.rb:193-267 | inline tags open in the fixed order b, i, u, s, sup or sub, div, span, a; no `b` inside h1-h3; never both `sup` and `sub` |
| Inline.BoldOutsideHeading | lib/ProtoPatches.rb:197-213 | outside a heading, a bold or bold-italic run opens `b` first |
| Inline.AddInlineHtml | lib/ProtoPatches.rb:193-274 | the tree gains exactly one subtree at the active node: the run's inline tags nested around one text node; the cursor and the depth count are unchanged |
| Inline.AddHtmlTextAppends | lib/ProtoPatches.rb:276-295 | the active node gains, in order, one node per piece: `br` for a line separator; for a newline, an inline "\n" in `pre`, nothing in a heading, `br` elsewhere; the wrapped text otherwise |
| Inline.AddHtmlTextKeepsText | lib/ProtoPatches.rb:276-295 | the text placed in the tree is the input minus every line separator and, outside `pre`, minus every newline; nothing else is lost, duplicated or reordered |
| Generate.TagIsOpenMatchesSplit | lib/ProtoPatches.rb:305 | the open-item flag is set exactly when the newline split of the text is empty or ends in a field, so the list phase leaves its last item open |
| Generate.OpenBlock | lib/ProtoPatches.rb:308-319 | a run that starts a new title, heading, subheading or monospaced block appends an empty h1, h2, h3 or pre at the root and enters it; any other run changes nothing |
| Generate.ContinuationSharesBlock | lib/ProtoPatches.rb:308 | a run with the same style type as the previous run opens no second block |
| Generate.ListTag | lib/ProtoPatches.rb:321-339 | a container is used exactly for list runs and runs indented above 0: plain `ol` for numbered lists, `ul` with class `dotted`, `dashed` or `checklist` for the other list styles, `ul` with class `none` for a non-list |
| Generate.NominalDepthSign | lib/ProtoPatches.rb:342-345 | for a run with a container, the depth test passes exactly when the indent is not negative |
| Generate.Relocation | lib/ProtoPatches.rb:348-368 | only container runs after a list or indented run move, and an unindented one only when its style type continues; then a deeper run, or an equally deep one after an open item, goes to the last item, and any other with a non-negative indent goes to the marked container |
| Generate.Relocate | lib/ProtoPatches.rb:348-368 | the cursor goes to the last `li` below the root's last element child, or to the first descendant there marked with the run's indent in document order, that child itself only when no descendant is marked; it goes to the root when there is none |
| Generate.ContainerStart | lib/ProtoPatches.rb:383-388 | the first level to open is one past the deepest marker on the path to the active node, or 0 when there is none |
| Generate.OpenLevelsAppendsChain | lib/ProtoPatches.rb:390-400 | the loop over levels start..indent appends one chain (container, li, container, ...) at the active node and leaves the innermost container active |
| Generate.ChainMarkers | lib/ProtoPatches.rb:390-400 | the chain has one container per level, marked with consecutive levels from start to indent |
| Generate.AddListPiece | lib/ProtoPatches.rb:420-435 | a text piece always ends up inside an `li`, reusing the active one; a newline closes the active tag unless it is the last piece, which changes nothing |
| Generate.FieldOpensItem | lib/ProtoPatches.rb:427-433 | outside an `li`, a field appends one new item with the run's item attributes and the field's rendered text, and enters it |
| Generate.AddListTextAppendsItems | lib/ProtoPatches.rb:410-435 | at a container, list text appends one `li` per field of its newline split, empty fields included, in order; each carries the checkbox class (`checked` or `unchecked`) for checkbox runs and holds its field rendered as inline text |
| Generate.ListTextKeepsText | lib/ProtoPatches.rb:410-435 | the text placed in the items is the input minus every newline and line separator; nothing else is lost, duplicated or reordered |
| Generate.ListTextGoesInAsItems | lib/ProtoPatches.rb:410-435 | whenever the cursor ends on an `ol` or `ul`, the run's whole contribution after the containers is that sequence of items |
| Generate.GenerateHtml | lib/ProtoPatches.rb:298-452 | the run reports an open item exactly when its text does not end with a newline, and the fragment only grows: nothing already present is removed or changed |
| Generate.PlainRunAppendsOneSubtree | lib/ProtoPatches.rb:298-437 | an unstyled run whose non-empty text has no line breaks appends exactly one wrapped text subtree to the fragment |
| Generate.EmptyPlainRunAddsNothing | lib/ProtoPatches.rb:298-437 | an unstyled run with no text leaves the fragment as it was |
| Generate.UnstyledRunStaysAtRoot | lib/ProtoPatches.rb:308-368 | an unstyled run opens no block and no container, and its text goes in at the fragment root |
| Generate.ListRunAppendsChain | lib/ProtoPatches.rb:348-400 | a list run that opens no heading appends at most one chain, at the relocated node, for the levels from the first missing one to its indent, and its text goes into the innermost, empty container |
| Generate.FirstListRunOpensEveryLevel | lib/ProtoPatches.rb:348-402 | a list run with no predecessor opens containers for every level 0..indent, marked 0..indent, and leaves the cursor on the innermost one, an `ol` or `ul`, so its text goes in as list items |
| Generate.MarkedContainerIsReused | lib/ProtoPatches.rb:358-400 | a run that finds the container marked with its indent opens nothing new and continues in that container |
| Html.LastLiIsLast | lib/ProtoPatches.rb:356 | the search returns an `li` strictly below the node that comes last in document order, and nothing when there is none |
| Html.MarkedLookupIsFirst | lib/ProtoPatches.rb:360 | the search returns the first marked descendant in document order, the node itself only when no descendant is marked, and nothing when none is |
| Html.NearestMarkerIsDeepest | lib/ProtoPatches.rb:383 | the marker read from the active node or its nearest marked ancestor is the last marker present on the path from the root |

## Left out

- Logging: every `puts` is left out. The logging of the found container at
  lib/ProtoPatches.rb:362-365 calls `last_element_child.css` on the found
  node. That raises when the node has no element child, and the model does
  not reproduce that failure.
- Protocol-buffer decoding: `ParagraphStyle`, `Font`, `Color`, `Checklist`
  and `AttributeRun` are plain datatypes with the fields the renderer
  reads. An absent field is `None`; protobuf default values are not
  modelled.
- Floating point:
  - Colour channels are given as bytes that are already scaled by 255 and
    rounded.
  - A font's point size is given as its already-formatted decimal string.
- The document library: `Html` keeps tag names, attributes, the indent
  marker and children. Serialization and XPath/CSS parsing are not
  modelled; only the lookups the renderer performs are.
- The marker attribute is kept as an integer field. The source writes it
  as an attribute string and reads it back with `to_i`.
- The `track_depth: false` parameter of `open_html_tag`/`close_html_tag`
  is not modelled. No live call passes it.
- The `indent` and `start` values computed at lib/ProtoPatches.rb:371-382
  are overwritten before use. The commented-out closing loop at
  lib/ProtoPatches.rb:440-449 never runs.
- The constants `STYLE_TYPE_*`, `FONT_TYPE_*` and `STYLE_ALIGNMENT_*` come
  from lib/AppleNote.rb, which is not part of this model. Their values are
  restated in `Styles`, and the proofs rely only on them being distinct.
- The note-level driver that loops over the runs is not part of this model.
  It links `previous_run`/`next_run` and threads `tag_is_open` and the
  fragment. Here the previous run and its flag are parameters
  (`Generate.PreviousRun`).
- `Runs.TotalIndent` has no cache, because the source computes the total
  afresh too.
- Generate.GenerateHtml requires a checklist for the previous run exactly
  where the source reads it: both runs are checkboxes with equal indent
  amounts. For the run itself it requires a checklist whenever it is a
  checkbox. The source reads it only when the text lands in a list item,
  so this part is slightly stronger.
- Runs.SameStyle compares colours as channel bytes that are already scaled
  and rounded, and point sizes as their formatted strings. The source
  compares the floating-point values, so two colours that round to the
  same bytes count as equal here but not there.
- Generate.GenerateHtml requires that the root have an element child when
  the run relocates, unless a heading was just opened. In the source,
  `last_element_child` would be nil there and the call on it would raise.
- Generate.GenerateHtml states only that the fragment grows and what
  `tag_is_open` becomes. The shape of what it adds is stated by the
  `Generate` lemmas above for unstyled runs, list runs and reused
  containers. There is no single formula for every combination of
  heading, relocation and list text.
- Paragraph-style equality compares the whole checklist, uuid and done
  flag. Negative indent amounts are used as they are.
- Adjacent text nodes are not merged. When no inline tag opens and the
  active node's last child is text, the document library joins the new
  text onto that node, while the model appends a second text node. The
  serialized HTML and every lookup the renderer makes are the same
  either way.
