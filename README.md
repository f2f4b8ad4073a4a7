# zhlint tokenizer state machine in Dafny

This project models the per-character tokenizer of zhlint, a linter for mixed
Chinese/English prose (`src/parser/util.ts`). A driver feeds the tokenizer the
input one character at a time. Content characters are merged into a pending
leaf token of one character class. Punctuation is routed in a fixed order:

1. left bracket;
2. right bracket;
3. neutral quote;
4. left quote;
5. right quote;
6. anything else.

Brackets open and close *marks*. A mark is a metadata record that the
one-character bracket tokens refer to. Quotes open and close nested *groups*.
A group is a container of tokens and groups. A closing bracket with no mark
open, or a closing quote with no group open, is an error.

Files:

- `tokens.dfy` (module `Tokens`): the value types. These are character
  classes, tokens, marks, groups, the character tables and the parse errors.
- `transitions.dfy` (module `Transitions`): the parse status as a value
  (`State`), with one function per operation. The contract of each status
  operation gives the new status field by field and keeps the invariant
  `WellFormed`. `RouteOf` only classifies a character. `Punctuate` states its
  error conditions in its own contract; what each successful route produces
  is stated by the lemmas in `Properties`.
  - Marks and groups live in arenas addressed by id. Tokens refer to marks by
    id, and groups hold their children as `Leaf(token)` or `Sub(groupId)`.
    Marks are updated after tokens already refer to them, and groups gain
    children after they were attached to their parent. The arenas model that
    sharing.
- `parse_status.dfy` (module `Parser`): the class `ParseStatus`, whose
  methods update its fields in place as the source does. Each method is
  proved to leave `Snapshot()` equal to the matching `Transitions` function
  applied to the old snapshot. `IsShorthand` is a read-only query on it.
- `runs.dfy` (module `Runs`): characters fed one at a time as content
  (`ContentAll`) or as punctuation (`PunctuateAll`), and the reference
  bracket matcher `MatchBrackets` with the relation `Tracks` between a
  status and the matcher's stack.
- `lookahead.dfy` (module `Lookahead`): the space-run scan
  `getConnectingSpaceLength`, written as a loop.
- `properties.dfy` (module `Properties`): properties that relate several
  calls:
  - the stack discipline of marks and groups;
  - bracket runs checked against a reference stack matcher (`MatchBrackets`);
  - the error conditions;
  - the merging of content runs;
  - the concrete scenarios `"(hi)"`, `"a"` and `don't`.

In these places the model follows the code as written, which a reader might
not expect:

- `finalizeCurrentGroup` pops into `lastGroup`, or leaves no group open when
  the group stack is empty. So the root group is *not* a floor: a right quote
  with only the root open closes the root (`RightQuoteClosesRoot`).
- A new group's end fields are absent (`None`) rather than `-1`, because
  `createNewGroup` never sets them.
- A new mark has `endIndex == -1`, and its `rawEndContent` is absent until
  the mark is closed.
- `createNewGroup` with no open group and an empty group stack reads past the
  end of the stack and fails. This is the error `NoEnclosingGroup`, and
  nothing is changed.
- When `handlePunctuation` throws, the pending token has already been
  finalized. The status after an error is therefore `FinalizeToken` of the
  old status.

## Model

| member | source | states |
|---|---|---|
| Transitions.FinalizeToken | src/parser/util.ts:94-103 | a pending token gets length `index - token.index`, becomes the last child of the open group (dropped if no group is open), and is cleared; with nothing pending nothing changes; the open group's other fields and every other group are unchanged |
| Transitions.FinalizeMark | src/parser/util.ts:105-121 | the open mark gets end index, end content and raw end content `c`; the most recently pushed mark is reinstated or none is open; the open-mark count drops by one; with no open mark it is a no-op |
| Transitions.FinalizeGroup | src/parser/util.ts:123-138 | the open group's record becomes the old one with end index, end content and raw end content set (start fields and children kept); the group stack is popped into `lastGroup`, or no group is left open when the stack is empty, even for the root |
| Transitions.CreateBracket | src/parser/util.ts:142-162 | the open mark (if any) is pushed; a fresh mark (`endIndex -1`, `endContent ""`) is appended to the marks and becomes the innermost one; the open-mark count grows by one |
| Transitions.AppendBracket | src/parser/util.ts:164-181 | a length-1 bracket token that refers to the innermost open mark becomes the last child of the open group, whose other fields are unchanged; nothing is pending afterwards; nothing else changes |
| Transitions.AppendHyperMark | src/parser/util.ts:185-203 | one token covering the whole delimiter, tagged with the mark's kind and referring to it, becomes the last child of the open group, whose other fields are unchanged; a pending token is discarded, not finalized; nothing else changes |
| Transitions.AppendHyperContent | src/parser/util.ts:205-219 | one hyper-content token of the content's length becomes the last child of the open group, whose other fields are unchanged; a pending token is discarded; nothing else changes |
| Transitions.CreateNewGroup | src/parser/util.ts:223-237 | fails exactly when no group is open and the stack is empty; otherwise the open group is pushed, and the new group (end fields absent, no children) becomes the last child of the stack top, is recorded in `groups` and is innermost; the group depth grows by one |
| Transitions.CreateContent | src/parser/util.ts:241-248 | the pending token becomes a one-character token of the given class; nothing else changes |
| Transitions.AppendContent | src/parser/util.ts:250-256 | the pending token grows by `c`, `raw` follows `content`, `length` grows by one; with nothing pending nothing changes |
| Transitions.AddNormalPunctuation | src/parser/util.ts:285-294 | a one-character token of the given class becomes the last child of the open group, whose other fields are unchanged; nothing is pending afterwards; nothing else changes |
| Transitions.RouteOf | src/parser/util.ts:33-65 | the route of a punctuation character follows the test order; a left bracket wins over every later test |
| Transitions.Punctuate | src/parser/util.ts:18-66 | success leaves nothing pending and keeps both stacks floored (empty whenever nothing of their kind is open); UnmatchedBracket exactly for a right bracket with no open mark; UnmatchedQuote exactly for a right quote with no open group; NoEnclosingGroup exactly for an opening quote with no group open and an empty stack; each error carries the character and index |
| Transitions.Content | src/parser/util.ts:68-87 | a content character starts a new token (after finalizing the old one) when nothing is pending or its known class differs; otherwise the pending token grows by one character with `raw == content`, keeps its index, class, mark and mark side, and nothing else changes |
| Parser.ParseStatus.HandlePunctuation | src/parser/util.ts:18-66 | the in-place update equals `Punctuate`; when an error is returned the status is the old one with its pending token finalized |
| Parser.ParseStatus.HandleContent | src/parser/util.ts:68-87 | the in-place update equals `Content` |
| Parser.ParseStatus.FinalizeCurrentToken | src/parser/util.ts:94-103 | the in-place update equals `FinalizeToken` |
| Parser.ParseStatus.FinalizeCurrentMark | src/parser/util.ts:105-121 | the in-place update equals `FinalizeMark` |
| Parser.ParseStatus.FinalizeCurrentGroup | src/parser/util.ts:123-138 | the in-place update equals `FinalizeGroup` |
| Parser.ParseStatus.CreateBracket | src/parser/util.ts:142-162 | the in-place update equals `Transitions.CreateBracket` |
| Parser.ParseStatus.AppendBracket | src/parser/util.ts:164-181 | the in-place update equals `Transitions.AppendBracket` |
| Parser.ParseStatus.AppendHyperMark | src/parser/util.ts:185-203 | the in-place update equals `Transitions.AppendHyperMark` |
| Parser.ParseStatus.AppendHyperContent | src/parser/util.ts:205-219 | the in-place update equals `Transitions.AppendHyperContent` |
| Parser.ParseStatus.CreateNewGroup | src/parser/util.ts:223-237 | the in-place update equals `Transitions.CreateNewGroup`; on failure the status is unchanged |
| Parser.ParseStatus.CreateContent | src/parser/util.ts:241-248 | the in-place update equals `Transitions.CreateContent` |
| Parser.ParseStatus.AppendContent | src/parser/util.ts:250-256 | the in-place update equals `Transitions.AppendContent` |
| Parser.ParseStatus.AddNormalPunctuation | src/parser/util.ts:285-294 | the in-place update equals `Transitions.AddNormalPunctuation` |
| Parser.ParseStatus.IsShorthand | src/parser/util.ts:296-322 | true only for a shorthand character after a pending half-width content token when the next character is half-width content or a space; true whenever the next is half-width content; before a space, true exactly when no group is open or the open group was not opened by the character's paired quote |
| Lookahead.GetConnectingSpaceLength | src/parser/util.ts:263-283 | 0 exactly when the character at `start` is not a space; otherwise every character in `[start, start+n)` is a space and `start+n` is the end of the text or a non-space; and, for a start inside the text, never more than `|str| - start` |
| Properties.SameClassRunMerges | src/parser/util.ts:68-87 | characters of the pending token's own class collapse into it: content and raw grow by exactly those characters and length by their count; nothing else changes |
| Properties.RunBecomesOneToken | src/parser/util.ts:68-87 | a run of one known class started with nothing pending is one pending token covering the run |
| Properties.ContentSplitsOnClassChange | src/parser/util.ts:68-103 | a content character of a known class other than the pending token's finalizes that token (length fixed to the new index minus its start) and starts a one-character token; finalizing one index later leaves exactly those two tokens, in order, as the last children of the open group, with nothing pending |
| Properties.OpenThenCloseMarkRestores | src/parser/util.ts:105-162 | opening a mark and closing it restores the innermost mark and the mark stack, and records the mark with both ends |
| Properties.LeftBracketOpensMark | src/parser/util.ts:33-38 | a left bracket pushes the open mark, opens a fresh innermost mark and emits a length-1 LEFT bracket token referring to it, after the finalized pending token; the group list, every other group and the open group's fields other than its children are unchanged |
| Properties.RightBracketClosesMark | src/parser/util.ts:39-47 | a right bracket with a mark open emits a length-1 RIGHT bracket token referring to that mark, then closes the mark and reinstates the previous one or none; the group list, every other group and the open group's fields other than its children are unchanged |
| Properties.OpenBracketStep | src/parser/util.ts:33-38 | a left bracket pushes onto the open marks a mark opened by that character, as the reference matcher pushes the character |
| Properties.CloseBracketStep | src/parser/util.ts:39-47 | a right bracket with marks open pops the innermost one, as the reference matcher pops |
| Properties.BracketRunAccepted | src/parser/util.ts:33-47 | a bracket run that the reference stack matcher accepts runs without error, and the open marks afterwards are, in order, those opened by the matcher's final stack |
| Properties.BracketRunRejected | src/parser/util.ts:33-47 | a bracket run that the matcher rejects at position k runs without error up to k with no mark open, and fails at k with UnmatchedBracket of that character and index |
| Properties.AnyRightBracketClosesOpenMark | src/parser/util.ts:39-47 | a right bracket of another kind still closes the open mark: brackets match by nesting, not by kind |
| Properties.ParenthesizedWord | src/parser/util.ts:33-87 | on "(hi)" the open group receives the LEFT bracket token at 0, one content token of length 2 at 1 and the RIGHT bracket token at 3, both bracket tokens referring to the same new mark |
| Properties.ParenthesizedWordMark | src/parser/util.ts:33-47 | on "(hi)" the new mark spans indices 0 to 3 with both ends recorded, and no mark is open afterwards |
| Properties.OpenThenCloseGroupRestores | src/parser/util.ts:123-237 | opening a group under an open group and closing it restores `lastGroup` and the group stack; the new group is the last child of the previous group, with both ends and no children |
| Properties.QuoteStep | src/parser/util.ts:48-62 | a closing quote lowers the group depth by one or is UnmatchedQuote at depth 0; an opening quote raises it by one or is NoEnclosingGroup at depth 0; the stacks stay floored |
| Properties.QuoteOpensGroup | src/parser/util.ts:48-57 | a left quote, or a neutral quote not matching the open group's opening, pushes the open group and opens a new group as its last child; the parent keeps its fields other than its children, other groups and all mark fields are unchanged |
| Properties.QuoteClosesGroup | src/parser/util.ts:48-62 | a right quote, or a neutral quote matching the open group's opening, gives the closed group's whole record (end index, end content and raw end content all the quote, start fields kept, the finalized pending token as last child) and pops the group stack, or leaves no group open; other groups and all mark fields are unchanged |
| Properties.NeutralQuoteToggles | src/parser/util.ts:48-55 | on a neutral quote, a content character and the same quote, the first opens a group and the second closes it around the content; the enclosing group is innermost again with its opening unchanged |
| Properties.RightQuoteClosesRoot | src/parser/util.ts:123-138 | with only the root open, a right quote closes the root without error; content after it is dropped when finalized; a following left quote is NoEnclosingGroup |
| Properties.OtherPunctuationAppendsToken | src/parser/util.ts:63-65 | any other punctuation succeeds: after the finalized pending token (if any) the open group receives a one-character token of the character's class; nothing is pending, the open group keeps its fields other than its children, and marks, stacks and other groups are unchanged |
| Properties.ContentKeepsFloored | src/parser/util.ts:68-87 | content keeps both stacks empty whenever nothing of their kind is open |
| Properties.ApostropheInsideWord | src/parser/util.ts:296-312 | in "don't", with a pending half-width token "don", the apostrophe at index 3 is part of the word |

## Left out

- The driver loop, which calls these operations per character, seeds the root group and runs the lookaheads, is not part of this model. `Parser.Initial` and the class constructor stand in for the seeding.
- The whole-document properties depend on the driver. One is that the root's children cover the input exactly. The other is that every token referring to a mark lies between the mark's start and end.
- The core itself also drops text, so the covering property does not hold for every input even with the driver. After a right quote closes the root, finalized content has no group to go to and is dropped (`RightQuoteClosesRoot`). The hyper appenders discard a pending token without finalizing it (`Transitions.AppendHyperMark`, `Transitions.AppendHyperContent`).
- Strings are sequences of Unicode scalar values, while the source's strings are UTF-16. Lengths (`content.length`, `str.length`) and positions (`str[index + 1]`, the driver's index) count UTF-16 code units in the source. On text outside the Basic Multilingual Plane, such as CJK Extension B characters or emoji, hyper-token lengths, space-run lengths and lookahead positions therefore differ from the source's.
- The character classifier `checkCharType` is not part of this model. It is the parameter `classify`, and an out-of-range read is passed to it as `None`.
- The character tables (bracket, quote and shorthand sets, and the shorthand pair map) are not part of this model. They are the parameter `CharTables`.
- Error message strings are not modelled. An error is a `ParseError` carrying the character and the index.
- The token type of a hyper mark is built at run time from the mark's type. It is the constructor `MarkContent(kind)` over the mark kinds `Brackets`, `Hyper` and `Raw`.
- The group container is modelled as a `Group` value with a `children` sequence, not the array/object hybrid of the source. Its constant type tag is not stored.
- Transitions.AppendHyperMark: requires the mark to be one of the recorded marks. The source accepts any mark object.
- Parser.ParseStatus.IsShorthand: a group's opening is always a string. A root seeded without `startContent` is not modelled.
- Tokens are values. Two places holding the same token object in the source are two equal values here. No mutation of a token happens after it was appended, so nothing observable is lost.
- Indices are unbounded integers. JavaScript numbers do not overflow at these sizes.
