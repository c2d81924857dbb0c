# static_site_generator in Dafny

This project is a model of the core of a small static site generator, with
proofs about that model. The core has three parts:

- **The inline delimiter tokenizer.** It takes text nodes and splits each
  TEXT node at `**`, `_` and `` ` `` markers into bold, italic and code
  fragments. It is modelled in three steps:
  - `_find_delimiters_in_text` is `DelimiterScan.FindDelimiters`. It scans
    left to right, tries the longest token first, then prunes odd lists.
  - `_parse_styled_spans` is `StyledSpans.ParseStyledSpans`. It labels each
    occurrence open or close by parity, then sorts the events by position.
  - `split_nodes_delimiter` is `MarkdownParser.SplitNodesDelimiter`. It walks
    the events with a cursor and the list of active styles.
- **The HTML node tree** and its serialisation:
  - the base node, `HtmlNodes`;
  - leaves, `LeafNodes`;
  - parents, `ParentNodes`.
- **Title extraction**, `HelperFunctions.ExtractTitle`: the first `# `
  line of a document, stripped.

Each imperative Python function is a Dafny `method` with the same loop. Most
methods are proved equal to a specification function, and the properties are
proved as lemmas about those functions. `ExtractTitle` is specified directly:
it succeeds exactly when some line is a heading, and then returns the stripped
rest of the first one. Errors that Python raises are
modelled as `Result.Failure` values. They carry the same exception class and
message.

Files, in dependency order:
- `wrappers.dfy`: Option, Result and error values.
- `textnode.dfy`: TextType and TextNode.
- `config.dfy`: the fixed delimiter table `**`→Bold, `_`→Italic,
  `` ` ``→Code.
- `sorting.dfy`: `list.sort` as an insertion sort by an integer key.
- `strings.dfy`: `rstrip`, `strip` and `splitlines`.
- `find_delimiters.dfy`, `styled_spans.dfy`, `markdownparser.dfy`: the
  tokenizer.
- `htmlnode.dfy`, `leafnode.dfy`, `parentnode.dfy`: the HTML tree.
- `helperfunctions.dfy`: title extraction.

Where the behaviour is not obvious from the description, the model follows
the code:
- There is no code-span masking. A `**` between backticks is still a marker.
- A region under several active styles is emitted once per style.

## Model

| member | source | states |
|---|---|---|
| Config.KeysDescribeTable | src/markdownparser.py:1 | the delimiter table's keys are exactly the tokens `**`, `_` and `` ` ``; they are distinct and non-empty; no two map to the same style, and none maps to TEXT |
| DelimiterScan.FindDelimiters | src/markdownparser.py:55-72 | the `while` scan and the pruning loop produce, for every token, the positions of `FoundIndexes`: the scan's matches of that token, pruned |
| DelimiterScan.FirstPresent | src/markdownparser.py:60-65 | the inner `for … break` returns the first token, in longest-first order, present at the index, or none |
| DelimiterScan.ScanStep | src/markdownparser.py:58-67 | one round of the scan records the first token present, in longest-first order, and moves past it, or records nothing and moves one character on; the positions recorded so far stay those of the recorded matches |
| DelimiterScan.DropUnpaired | src/markdownparser.py:69-71 | the pruning loop keeps the same keys and replaces every list by its pruned form |
| DelimiterScan.Prune | src/markdownparser.py:70-71 | a pruned list has even length, is a prefix of the original, and is at most one element shorter; an even list is unchanged |
| DelimiterScan.LongestFirstOrders | src/markdownparser.py:60 | the scan order holds the same tokens, sorted by non-increasing length |
| DelimiterScan.FirstMatchFinds | src/markdownparser.py:60-65 | the chosen token is present at the index, no earlier token in the order is, and none is when nothing is chosen |
| DelimiterScan.ScanSound | src/markdownparser.py:57-67 | every recorded match is a token literally present at its position; matches never overlap, since each starts at or after the end of the one before |
| DelimiterScan.LongestWins | src/markdownparser.py:60-61 | at a recorded position no longer token is present |
| DelimiterScan.ScanCovers | src/markdownparser.py:58-67 | every occurrence of a token in the text lies inside some recorded match: the scan misses nothing |
| DelimiterScan.ScanFromNothing | src/markdownparser.py:66-67 | where no token occurs, the scan only advances and records nothing |
| DelimiterScan.PositionsOfSeparated | src/markdownparser.py:62-63 | one token's positions are strictly ascending, each at least the token's length past the one before, and each is a recorded match |
| DelimiterScan.FoundIndexesSound | src/markdownparser.py:56-72 | the result has one key per token; every list has even length, is the recorded list less at most its last element, holds only positions where the token occurs, and ascends |
| StyledSpans.Group | src/markdownparser.py:47-49 | the i-th occurrence of a token becomes an event at that position, open when i is even and close when it is odd |
| StyledSpans.ParseStyledSpans | src/markdownparser.py:44-52 | the nested loops and the sort give the labelled events of every token, sorted by position |
| Sorting.SortByPermutesAndSorts | src/markdownparser.py:51 | the sort returns a permutation of its input, ordered by the key |
| Sorting.SortedUnique | src/markdownparser.py:51 | when the keys are distinct, the sorted order is the only ordering of the same elements, so the tuple tie-break never matters |
| StyledSpans.SurvivorsPrune | src/markdownparser.py:69-71 | the matches that survive pruning, taken in scan order, give each token exactly its pruned position list |
| StyledSpans.SortedEventsAreEvents | src/markdownparser.py:44-52 | sorting the labelled events of the pruned lists gives the surviving matches in scan order, each labelled by the parity of its rank among its token's survivors |
| StyledSpans.EventsWellPlaced | src/markdownparser.py:44-72 | every event is a token present at its position; events are in ascending order and do not overlap; each is open or close by the parity of the earlier events of its token; every token has an even number of events |
| StyledSpans.LabelsOfShape | src/markdownparser.py:47-49 | the k-th event is the k-th match, labelled by how many matches of its token precede it |
| MarkdownParser.SplitNodesDelimiter | src/markdownparser.py:4-41 | the output is `SplitAll` of the input: each node's fragments, in order |
| MarkdownParser.WalkEvents | src/markdownparser.py:12-39 | the event loop and the final flush append exactly the fragments of `SplitText` |
| MarkdownParser.AppendSpan | src/markdownparser.py:18-22 | one span adds its fragments to the output |
| MarkdownParser.FlushShape | src/markdownparser.py:18-22 | with no active style a span is one TEXT fragment; otherwise it is one fragment per active style, in activation order, all with the same text |
| MarkdownParser.EmitGap | src/markdownparser.py:16-22 | the text between the cursor and the next event adds exactly that event's fragments to the output |
| MarkdownParser.ApplyEvent | src/markdownparser.py:24-29 | one event's update of the active list is `Step`: an open event appends its style, a close event removes the style's first occurrence when there is one |
| MarkdownParser.RemoveFirstMembers | src/markdownparser.py:28-29 | `remove` adds no style, and every style other than the removed one is present after exactly when it was before |
| MarkdownParser.RemoveFirstNoDup | src/markdownparser.py:28-29 | on a list without repeats, `remove` takes the style out entirely and keeps the list free of repeats |
| MarkdownParser.NonTextKept | src/markdownparser.py:7-9 | a non-TEXT node is copied to the output unchanged, and the fragments of the nodes around it keep their places |
| MarkdownParser.NoTextUnchanged | src/markdownparser.py:7-9 | a list with no TEXT node comes out unchanged |
| MarkdownParser.SplitAllAppend | src/markdownparser.py:6 | the nodes are processed independently and in order |
| MarkdownParser.TextEvents | src/markdownparser.py:11 | the events the walk receives are well placed and paired |
| MarkdownParser.CursorBeforeNext | src/markdownparser.py:15-31 | the cursor never passes the next event's position, and never passes the end of the text |
| MarkdownParser.NoEmptyFragments | src/markdownparser.py:16-39 | no fragment has empty text and none has a url |
| MarkdownParser.Tiling | src/markdownparser.py:15-39 | the gaps between events, with the tokens between them, rebuild the text exactly; the output is the fragments of the non-empty gaps, each under the styles active at its start, so no token is ever emitted |
| MarkdownParser.EmittedAreGaps | src/markdownparser.py:16-31 | before each event the walk emits exactly the fragments of the gaps so far |
| MarkdownParser.ActiveStyles | src/markdownparser.py:24-29 | after every event, the active list has no repeats; it holds a token's style exactly when that token has been seen an odd number of times |
| MarkdownParser.ActiveEmptyAtEnd | src/markdownparser.py:33-39 | since every token is paired, no style is active after the last event |
| MarkdownParser.PlainText | src/markdownparser.py:33-36 | a TEXT node containing no token becomes one TEXT fragment with the same text, or nothing when the text is empty |
| HtmlNodes.DefaultsUnset | src/nodes/htmlnode.py:2-6 | a node built without arguments has tag, value, children and attributes all unset |
| HtmlNodes.PropsToHtml | src/nodes/htmlnode.py:11-15 | the loop followed by `rstrip` gives the attributes joined by single spaces; unset attributes fail with a TypeError |
| HtmlNodes.JoinAttributesEnds | src/nodes/htmlnode.py:12-15 | the joined attributes are empty exactly when there are none, and otherwise end with a quote: never a trailing space |
| HtmlNodes.JoinTwoAttributes | src/nodes/htmlnode.py:13-14 | two attributes render as `name="value"`, in insertion order, with one space between them |
| HtmlNodes.BaseToHtml | src/nodes/htmlnode.py:8-9 | the base node's serialisation always fails with NotImplementedError |
| LeafNodes.LeafNeedsValue | src/nodes/leafnode.py:8-9 | a leaf without a value fails with ValueError, whatever its tag and attributes |
| LeafNodes.UntaggedLeaf | src/nodes/leafnode.py:10-11 | a leaf without a tag is its value verbatim, and its attributes are ignored |
| LeafNodes.TaggedLeaf | src/nodes/leafnode.py:12-17 | with unset or empty attributes a tagged leaf is `<tag>value</tag>`, otherwise `<tag attrs>value</tag>`; the tag and the unescaped value can be read back from the output |
| LeafNodes.PlainLeafExample | src/nodes/leafnode.py:12-17 | `p` around `This is a value` gives `<p>This is a value</p>` |
| LeafNodes.LinkLeafExample | src/nodes/leafnode.py:12-17 | an `a` leaf with an `href` renders the attribute inside the opening tag |
| ParentNodes.ToHtml | src/nodes/parentnode.py:7-17 | the method with its loop over the children computes `Html`, including the first failing child's error |
| ParentNodes.FailurePersists | src/nodes/parentnode.py:14-15 | once a child fails, the later children do not change the outcome |
| ParentNodes.ParentNeedsTag | src/nodes/parentnode.py:8-9 | a parent without a tag fails with ValueError before its children are looked at |
| ParentNodes.ParentNeedsChildren | src/nodes/parentnode.py:10-11 | a tagged parent whose children are unset fails with ValueError |
| ParentNodes.EmptyParent | src/nodes/parentnode.py:12-17 | a tagged parent with no children is `<tag></tag>` |
| ParentNodes.ParentIgnoresProps | src/nodes/parentnode.py:13 | a parent's attributes never change its serialisation |
| ParentNodes.FirstFailureWins | src/nodes/parentnode.py:14-15 | when child k is the first to fail, the parent's failure is child k's error |
| ParentNodes.PrefixSucceeds | src/nodes/parentnode.py:14-15 | children that all serialise give a successful concatenation |
| ParentNodes.SerialisesIffWellFormed | src/nodes/parentnode.py:7-17 | a node serialises exactly when every node below it does: leaves have values, parents have tags and children, and there are no base nodes |
| ParentNodes.SingleChild | src/nodes/parentnode.py:13-16 | a parent with one child wraps that child's serialisation |
| ParentNodes.NestedParents | src/nodes/parentnode.py:15 | serialisation recurses through a parent inside a parent around a tagged leaf, nesting the tags |
| Strings.RStrip | src/nodes/htmlnode.py:15 | the result is a prefix of the input that does not end in whitespace; everything cut was whitespace |
| Strings.LStrip | src/helperfunctions.py:25 | the result is a suffix of the input that does not start with whitespace; everything cut was whitespace |
| Strings.StripTrims | src/helperfunctions.py:25 | the stripped string is a slice of the input with only whitespace cut away at either end, and is either empty or starts and ends with non-whitespace |
| Strings.StripKeepsOut | src/helperfunctions.py:25 | stripping adds no character |
| Strings.SplitJoin | src/helperfunctions.py:22 | the pieces between line breaks contain no break, and joining them with breaks gives back the text |
| Strings.LinesRoundTrip | src/helperfunctions.py:22 | the lines contain no break, and joining them with breaks, plus a final break if the text had one, gives back the text |
| HelperFunctions.ExtractTitle | src/helperfunctions.py:21-26 | the method succeeds exactly when some line starts with `# `; it then returns the stripped rest of the first such line, and otherwise fails with ValueError |
| HelperFunctions.TitleIsTrimmed | src/helperfunctions.py:25 | a title has no whitespace at either end and no line break |
| HelperFunctions.EmptyHasNoLines | src/helperfunctions.py:22 | an empty document has no lines, so it has no title |
| HelperFunctions.OnlyLevelOne | src/helperfunctions.py:24 | `#` alone and `##…` headings are not titles |
| HelperFunctions.OneLine | src/helperfunctions.py:22 | a text without breaks is a single line |
| HelperFunctions.OnlyTitle | src/helperfunctions.py:22-25 | a document made of `# ` and a trimmed title has that title |

## Left out

- I/O: `copy_from_dir_to_dir`, `generate_page` and `generate_page_recursive` read and write files and print. `main.py` is a printing demo.
- Functions whose source is not part of this model: the image and link passes, `text_to_textnodes` and `markdown_to_html_node`.
- `HTMLNode.__repr__`, and `str()` coercion of non-string tags and values. Tags, values and attribute values are strings.
- `config.py` and `nodes/textnode.py` are not part of this model. The delimiter table and the `TextNode` record are defined here with the values the tests use.
- The class hierarchy HTMLNode/LeafNode/ParentNode is one datatype with three constructors. A `LeafNode` always has unset children and a `ParentNode` always has an unset value, so those fields are not stored.
- Attributes are an ordered list of pairs, in the dict's insertion order. Unlike a dict, the list can repeat a key.
- Strings.SplitLines: lines break at `\n` only. Python's `splitlines` also breaks at `\r`, `\v`, `\f`, `\x1c`–`\x1e`, `\x85` and the Unicode line separators.
- Strings.RStrip, Strings.LStrip: whitespace is the ASCII whitespace of `str.isspace` only: space, `\t` to `\r`, and `\x1c` to `\x1f`. Python also strips the non-ASCII spaces, such as `\x85`, `\xa0` and the Unicode space separators.
- StyledSpans.ParseStyledSpans: `events.sort()` compares whole tuples; the model sorts by position alone. Positions are distinct, and Sorting.SortedUnique shows that the result is then the same. Sort stability is not proved.
- MarkdownParser.SplitNodesDelimiter: a TEXT node's `url` is not carried over to its fragments. The Python code builds every fragment with the two-argument constructor, so the url is unset there too.
- DelimiterScan.FirstPresent, DelimiterScan.ScanStep, DelimiterScan.DropUnpaired, MarkdownParser.WalkEvents, MarkdownParser.EmitGap, MarkdownParser.ApplyEvent, MarkdownParser.AppendSpan: these are blocks of a single Python function, factored out as methods of their own. The loops are unchanged.
- LeafNodes.LinkLeafExample, ParentNodes.NestedParents: the tests' literal strings are replaced by short or symbolic ones.
