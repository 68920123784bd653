# Verified models of libcurl and litehtml

The repository bundles libcurl and the litehtml layout engine. This project models the parts of
them whose correctness is decided by their own code, and proves what each part is for. `dafny
verify dfyconfig.toml` checks everything.

The parts are independent of each other.

* **Flexible lengths** (`FlexModel`, `FlexLaws`, `FlexRounds`, `FlexGoal`, `FlexShrink`, `FlexEven`,
  `FlexPlain`, `FlexLine`). The loop that freezes and redistributes (CSS Flexible Box Layout Module
  Level 1, section 9.7) computes the unique solution of the line: one level for all flexible items,
  each clamped to its bounds.
* **Chunked byte queue** (`Bufq`, `BufqQueue`, `BufqIO`, `BufqRun`). Linked chunks with offsets,
  spares, a pool and a limit answer, over every run, as one plain sequence of bytes.
* **Selectors and restyling** (`Selectors`, `SelectorMeaning`, `SelectorLaws`, `SelectorSearch`,
  `Cascade`, `Restyle`). Two-phase matching and remembered rules always give the style that
  matching everything from scratch gives.
* **Floats** (`Floats`, `FloatsContext`). Sorted lists, the two cached edges, and the search that
  tries only float edges but finds the least of all heights.
* **Threaded resolver** (`Resolver`, `ResolverLaws`, `ResolverCalls`). All interleavings of a
  transfer with its resolver threads.
* **Tokenizer** (`Utf8`, `CssSyntax`, `CssNumber`, `CssWriting`, `CssTokenizer`). A cursor over
  UTF-8 bytes (section 3 of RFC 3629) that peeks at single bytes agrees with tokenization of the
  code points, and every value written is read back (CSS Syntax Module Level 3, section 4.3).
* **Parser** (`CssTokens`, `Componentize`, `CssDeclaration`, `CssRules`, `CssRuleWriting`,
  `CssParser`, `Whitespace`). Component values, declarations, rules, and the two ways to remove
  whitespace (CSS Syntax Module Level 3, section 5).
* **Tables** (`TableModel`, `TableSpread`, `TableShrink`, `TableWidths`, `TableHeights`,
  `TableGrid`). Sizing conserves width and height.
* **URLs** (`Url`, `UrlResolve`, `UrlText`). Printing and reparsing, resolution, percent-encoding
  (sections 3 and 5 of RFC 3986).
* **var()** (`VarSubst`). Substitution ends, and when it does the whole job.

## How the code is modelled

Classes of the source are classes here, with the same fields; vectors and maps they change are
sequences and maps they reassign, linked chunks are linked chunks. Ghost fields (the chunks in a
list, the code points left) only say what the real fields stand for. Loops are loops, proved
against functions, and the theorems are about the functions. Some loops that the source writes out
twice, for growing and shrinking or for blocks and functions, are written once with a parameter.
The two halves of a long function are sometimes two methods.

* Sizes (`pixel_t`) and the values of numbers are exact reals. Flex factors are whole thousandths,
  as in the source.
* Memory failure is a choice at every allocation of the queue; callbacks return any code and any
  amount they are allowed to. A reader draws on a finite stream. Freed memory is memory no longer
  referred to.
* Elements are numbers in a tree, parents before children. Attribute tests are a set of tests an
  element passes. First and last child are nth-child with 0n+1. Whether a rule's media query holds
  is fixed per rule. The order in which one rule's declarations are added is arbitrary.
* In the resolver a critical section is one step, and so is each stretch of code between two of
  them. Cancellation fires while the name is resolved or the socket pair is written, between the
  push and the pop of the cleanup handler; a cancellation still pending when the last holder closes
  the socket pair is not modelled. The handles, the socket pair and the mutex go with the context.
* The bit masks of UTF-8 are quotients and remainders by powers of two.
* Token lists are values. The tokenizer's tokens carry their texts; the parser's keep only what the
  parser looks at, with one number for the content of a number, string or the like.

## What the proofs found

* A flex line whose sizes fill its container exactly goes through the shrinking loop. With an item
  over its maximum the loop shrinks the others, freezes that item, finds nothing left to share and
  stops with the shrunk sizes (`FlexEven.NotKept`, and exactly when in `FlexEven.KeepsEven`).
* On a line with no room for its least sizes and a flexible item without a weight, such as an empty
  one, the shrinking loop divides zero by zero (`FlexShrink.DividesByZero`, and exactly when in
  `FlexShrink.Resolved`); with factors below one even with room (`FlexShrink.SmallFactorsDivide`).
* `get_line_right`: a cached right edge asked for again with a wider default edge is wrong
  (`Floats.StaleRightEdge`); the contract says exactly when a cached answer is right.
* `find_next_line_top` tries only float edges, so it finds the least height under the assumption
  that the box does not fit at the top and fits where no float is. Because of that cache it can pass
  by its answer, exactly in the cases of `Floats.Misses` (`Floats.MissedEdge`).
* `Curl_bufq_write_pass` reports too small a count when memory runs out: bytes the failing write
  took in stay in the queue and are not counted; in the first round on a queue that is not full
  they fill at least the tail and the spares (`BufqIO.WritePass`). `Curl_bufq_peek` drops a drained
  head although its comment promises not to modify the queue. `Curl_bufq_sipn` answers AGAIN, not
  out of memory, when a soft-limited queue at its limit cannot get a chunk (`BufqIO.Sipn`).
* Table columns with percentages can be narrowed below their minimum, by less than a pixel, even
  in a table that fits exactly in the end (`TableWidths.TooNarrow`), and a table below its block;
  `TableWidths.SizedMinimum` and `TableWidths.SizedTable` say exactly when. A table that does not
  fit and whose percentages add up to nothing divides by them (`TableWidths.NothingPercent`).
* Removing whitespace from long and short lists differs for the predicate passed for media queries:
  of a run of whitespace between `<` and `=` the short form keeps one and the long form none
  (`Whitespace.MediaDiffer`, and exactly when in `Whitespace.MediaAgree`).
* A declaration that ends in `! important`, with whitespace inside, is not important, and keeps the
  two tokens in its value (`CssDeclaration.SpacedMark`, and in general `CssDeclaration.TakenIs`).
* A custom property used twice in one value is substituted only once; the second use is taken for a
  cycle (`VarSubst.UsedTwice`, and exactly when in `VarSubst.AllSubstitutedIffOnceEach`).
* A relative path resolved against a URL with a host and an empty path runs into the host
  (`UrlResolve.HostAndPage`). Parsing and printing loses the delimiter of a component that is there
  and empty, such as the colon a text starts with (`Url.ColonIsLost`, and exactly when in
  `Url.ParsedPrintsBack`).
* The comment in `css_tokenizer.h` that the parser works the same on plain tokens and on component
  values holds (`CssRules.RulesReadTheSame`, `CssRules.StyleBlockReadsTheSame`).

## Model

| member | source | states |
|---|---|---|
| `FlexLine.FlexItem.Init` | html.mod/litehtml/src/flex_item.cpp:9-43 | Negative factors become 0 (grow) and 1000 (shrink), the base size is clamped between minimum and maximum, and the item is ready for distribution |
| `FlexLine.Line.DistributeFreeSpace` | html.mod/litehtml/src/flex_line.cpp:5-18 | Grows when the hypothetical sizes are below the container and shrinks otherwise, sizes equal to the container among these, with the results of the two cases below |
| `FlexLine.Line.DistributeFreeSpaceGrow` | html.mod/litehtml/src/flex_line.cpp:20-109 | For every line that leaves room: it ends; every item is within its bounds, inflexible items keep their size; one positive level gives every flexible item clamp(base + level * factor), and the line fills the container, or every flexible item is at its maximum, or factors below one (1000) limited the level; it never overflows |
| `FlexLine.Line.DistributeFreeSpaceShrink` | html.mod/litehtml/src/flex_line.cpp:111-204 | It ends on every line, dividing by zero or not, in the state the passes of step 4 lead to, with every item within its bounds and inflexible items unchanged. When sizes overflow no item gets wider and the line is never underfilled; items frozen are at a bound, and the others are at one level at which the line reaches the container or, if their factors sum to less than one (1000), has taken back just that part of the initial overflow from them. When no flexible factor is below one, it divides by zero exactly when the least sizes do not fit and a flexible item has no weight, with every other item at its least size, and otherwise one negative level solves the line. When sizes fill the container exactly it divides by zero exactly when an item is over its maximum and none has a weight; otherwise sizes stay exactly when no item is over its maximum or no other can be shrunk, else room is left |
| `FlexLine.Line.GrowPass` | html.mod/litehtml/src/flex_line.cpp:53-108 | One pass keeps the two levels that bracket the solution and, unless it ends the loop, freezes at least one more item |
| `FlexLine.Line.ShrinkPass` | html.mod/litehtml/src/flex_line.cpp:147-203 | The same for one shrinking pass, or the division by zero that ends it |
| `FlexLine.Line.FreezeInflexible` | html.mod/litehtml/src/flex_line.cpp:22-51 | Inflexible items are frozen at their size, the initial free space is what the others leave, and it is known whether none is flexible |
| `FlexLine.Line.Remaining` | html.mod/litehtml/src/flex_line.cpp:55-68 | The remaining free space and the factor sums are those of the unfrozen items |
| `FlexLine.Line.FixMinMaxViolations` | html.mod/litehtml/src/flex_line.cpp:206-267 | Clamps every unfrozen item; a zero total ends the loop, otherwise exactly the items that violate on the side of the total are frozen, and there is at least one |
| `FlexModel.LevelUnique` | html.mod/litehtml/src/flex_line.cpp:20-109 | Two levels that fill the container give every item the same size: the result is the only one |
| `FlexLaws.LevelBetween` | html.mod/litehtml/src/flex_line.cpp:53-108 | The level chosen in a pass lies between the levels of the last freeze at a maximum and the last at a minimum |
| `FlexLaws.FreezeMin` | html.mod/litehtml/src/flex_line.cpp:245-266 | Freezing the minimum violators when the total violation is positive keeps the bracket: they would end at their minimum anyway |
| `FlexLaws.FreezeMax` | html.mod/litehtml/src/flex_line.cpp:245-266 | The mirror image for maximum violators |
| `FlexLaws.EndBalanced` | html.mod/litehtml/src/flex_line.cpp:206-267 | A pass without violation in total solves the line at its level |
| `FlexRounds.RemainingBelowInitial` | html.mod/litehtml/src/flex_line.cpp:62-90 | The free space of a later pass never exceeds the initial free space, so the cap for small factors is reached only when they stay small |
| `FlexRounds.NextSound` | html.mod/litehtml/src/flex_line.cpp:206-267 | With no assumption on factors, a pass that does not end the loop freezes one more item and keeps bounds and inflexible sizes |
| `FlexShrink.OnlyWeightless` | html.mod/litehtml/src/flex_line.cpp:147-203 | When only items of no weight are left, every other item is at its least size, and together these need more than the container |
| `FlexShrink.NeverEnough` | html.mod/litehtml/src/flex_line.cpp:147-203 | When there is no room for the least sizes, a pass at the level of the line neither ends the loop nor freezes an item without a weight |
| `FlexShrink.EndsOnce` | html.mod/litehtml/src/flex_line.cpp:147-203 | The passes lead to one end only, whatever the factors: so the state the loop ends in is determined |
| `FlexShrink.OverfullRemaining` | html.mod/litehtml/src/flex_line.cpp:158-180 | While sizes overflow there is always something to take back in a pass, however small the factors |
| `FlexShrink.OverfullNext` | html.mod/litehtml/src/flex_line.cpp:185-203 | A pass that takes something back keeps the line overfull until the loop ends, and then it is not underfilled |
| `FlexShrink.NoneStopped` | html.mod/litehtml/src/flex_line.cpp:158-199 | When no bound stops an item at the level that takes back the part of the overflow the factors stand for, all if they sum to one (1000) or more, every flexible item is at that level and the line gives up exactly that part |
| `FlexGoal.EndLeveled` | html.mod/litehtml/src/flex_line.cpp:158-203 | A pass that ends the loop ends it with the items not frozen at one level and the line at its goal, small factors included |
| `FlexPlain.GrowsToFill` | html.mod/litehtml/src/flex_line.cpp:20-109 | Items with a factor of one (1000) or more, no maximum and a base size not below the minimum fill the container, each at its base and the same level times its factor |
| `FlexPlain.ShrinksToFit` | html.mod/litehtml/src/flex_line.cpp:111-204 | Items with a weight, a factor of one or more and no maximum, whose minima fit, fill it as well, each at its base less the same level times its weight, or at its minimum |
| `FlexShrink.DividesByZero` | html.mod/litehtml/src/flex_line.cpp:111-204 | An empty item beside one that shrinks from 200 to 150 at least, in 100, is such a line |
| `FlexShrink.SmallFactorsDivide` | html.mod/litehtml/src/flex_line.cpp:147-203 | With factors of 0.3 the second pass over a line divides by zero although there is room for the least sizes |
| `FlexEven.EvenShares` | html.mod/litehtml/src/flex_line.cpp:151-180 | On an exactly filled line with something to share there is no weight to divide by exactly when no flexible item has one |
| `FlexEven.EvenRemaining` | html.mod/litehtml/src/flex_line.cpp:158-180 | On an exactly filled line, the free space of a pass is zero exactly when no unfrozen item is over its maximum |
| `FlexEven.EvenPass` | html.mod/litehtml/src/flex_line.cpp:185-203 | On an exactly filled line, a pass that shares ends with all sizes as they were or freezes items at their maximum and leaves those that can be shrunk too narrow |
| `FlexEven.EvenStop` | html.mod/litehtml/src/flex_line.cpp:183-203 | A pass with nothing to share ends the loop with the sizes of the pass before, too narrow ones among them |
| `FlexEven.NotKept` | html.mod/litehtml/src/flex_line.cpp:111-204 | A line of 60 and 100 in 160 that is not kept |
| `Bufq.Chunk.Append` | libcurl.mod/libcurl/lib/bufq.c:54-66 | Takes the longest prefix that fits and puts it after what the chunk holds |
| `Bufq.Chunk.Read` | libcurl.mod/libcurl/lib/bufq.c:68-87 | Returns and removes the longest prefix up to the length asked; an emptied chunk is rewound |
| `Bufq.Chunk.Skip` | libcurl.mod/libcurl/lib/bufq.c:128-139 | Removes the same prefix without returning it |
| `Bufq.Pool.Take` | libcurl.mod/libcurl/lib/bufq.c:162-190 | Hands out a spare, reset, or a new chunk, or nothing when memory is exhausted |
| `Bufq.Pool.Put` | libcurl.mod/libcurl/lib/bufq.c:192-204 | Keeps the chunk as a spare only while fewer than spare_max are kept, so there are never more |
| `BufqQueue.Queue.GetSpare` | libcurl.mod/libcurl/lib/bufq.c:289-322 | A spare, a pooled or a new chunk of the queue; nothing exactly when a hard limit is reached or memory is exhausted; the room shrinks by one chunk |
| `BufqQueue.Queue.GetNonFullTail` | libcurl.mod/libcurl/lib/bufq.c:352-371 | The tail with room, made when missing or full, without changing contents or room; there is one whenever the tail or a spare of the queue has room |
| `BufqQueue.Queue.PruneHead` | libcurl.mod/libcurl/lib/bufq.c:324-350 | Drops drained heads to the pool, the spares or memory; contents stay, counts stay exact, and the next head is unread |
| `BufqQueue.Queue.Write` | libcurl.mod/libcurl/lib/bufq.c:373-398 | Appends exactly the accepted prefix; without memory failure that is everything with a soft limit and min(length, room) with a hard one, and room goes down by as much; memory failure leaves only what the tail and the own spares could not take |
| `BufqQueue.Queue.Read` | libcurl.mod/libcurl/lib/bufq.c:407-421 | Returns and removes exactly the first min(length, size) bytes; nothing read is AGAIN; the read part of the first chunk moves on by as much, modulo the chunk size |
| `BufqQueue.Queue.Skip` | libcurl.mod/libcurl/lib/bufq.c:467-476 | Removes exactly the first min(amount, size) bytes and moves on the same way |
| `BufqQueue.Queue.Peek` | libcurl.mod/libcurl/lib/bufq.c:429-442 | Shows the contents up to the end of the first chunk whenever there are any, and changes neither contents nor the read part |
| `BufqQueue.Queue.PeekAt` | libcurl.mod/libcurl/lib/bufq.c:444-465 | Shows the contents from the offset to the end of its chunk, exactly when the offset is inside |
| `BufqQueue.Queue.Len` | libcurl.mod/libcurl/lib/bufq.c:261-270 | The length of the contents |
| `BufqQueue.Queue.IsEmpty` | libcurl.mod/libcurl/lib/bufq.c:272-275 | Empty exactly when the contents are |
| `BufqQueue.Queue.IsFull` | libcurl.mod/libcurl/lib/bufq.c:277-287 | With a hard limit, full exactly when not one more byte fits |
| `BufqQueue.Queue.Reset` | libcurl.mod/libcurl/lib/bufq.c:249-259 | Empties the queue; every chunk becomes a spare and the count stays |
| `BufqQueue.Queue.RoomLeft` | libcurl.mod/libcurl/lib/bufq.c:289-371 | With a hard limit the room left is the chunks times their size, less what is queued and what is read of the first chunk |
| `BufqIO.Pass` | libcurl.mod/libcurl/lib/bufq.c:478-508 | For any writer: it ends; what the writer has received followed by what is left in the queue stays the same; the writer is called exactly when there is something, and it stops only when the queue is empty or the writer took nothing; the code is the one the writer's last answer calls for |
| `BufqIO.WritePass` | libcurl.mod/libcurl/lib/bufq.c:510-557 | For any writer and any memory failure: what the writer has received followed by the queue grows by exactly what was taken in. Without memory failure the count is that, and less than all only when the writer was called and took nothing: the queue is full then, with code AGAIN or OK, or the code is the writer's error. A hard-limited queue with room for all does not call the writer. With memory failure the count is too small when it happened in the first round with room in the tail or the spares |
| `BufqIO.Sipn` | libcurl.mod/libcurl/lib/bufq.c:559-575 | For any reader: one call of it if there is a tail and none else; appends exactly what it supplied, at most the limit and the room of the tail; without a tail the code is OUT_OF_MEMORY only for a failed allocation below the chunk limit, AGAIN at or above it |
| `BufqIO.Slurpn` | libcurl.mod/libcurl/lib/bufq.c:585-619 | Appends exactly what the reader supplied and counts it; stops only when the limit is reached, the reader was called and gave less than asked, or there was no chunk to read into, with the code that calls for |
| `BufqIO.Slurp` | libcurl.mod/libcurl/lib/bufq.c:621-625 | The same without a limit |
| `BufqRun.Run` | libcurl.mod/libcurl/lib/bufq.c:373-476 | Over every run of write, read, skip, peek and reset: each answer is the one a plain sequence of bytes gives - how much a write takes, which bytes a read or peek shows, which code - whatever chunks, spares and pool do, only memory failure left open within bounds; at the end the queue is that sequence, and within its limit |
| `BufqRun.QueueIsStream` | libcurl.mod/libcurl/lib/bufq.c:373-476 | In every run the queue is the old contents followed by all accepted prefixes, from the point all removals together have reached |
| `BufqRun.SeenInOrder` | libcurl.mod/libcurl/lib/bufq.c:373-476 | Every read and every peek of a run shows that stream at the place the operations before it have reached |
| `BufqRun.NothingLost` | libcurl.mod/libcurl/lib/bufq.c:373-476 | Without skips and resets, everything read followed by what is left is the old contents followed by everything accepted |
| `SelectorLaws.StrictMeans` | html.mod/litehtml/src/html_tag.cpp:387-471 | Strict matching holds exactly when some assignment of elements to all compounds satisfies every compound and combinator, so taking the first ancestor or sibling loses nothing |
| `SelectorLaws.PermissiveMeans` | html.mod/litehtml/src/html_tag.cpp:387-538 | Permissive matching holds exactly when some assignment satisfies every compound but for the states, which it takes for granted |
| `SelectorLaws.HoldsMeans` | html.mod/litehtml/src/html_tag.cpp:473-651 | A sub-selector holds exactly when it means something true of the element: class, id, attribute, state and language as the tree and the states have them, :is() when one of its selectors means the element and :not() when none does |
| `SelectorLaws.NthIs` | html.mod/litehtml/src/html_tag.cpp:569-619 | The index of an element is the number of counted siblings up to it, and it passes when some a*n+b with n >= 0 is that |
| `SelectorMeaning.OnlyChildIs` | html.mod/litehtml/src/html_tag.cpp:1347-1372 | An element is an only child exactly when no other element child is of the kind asked for |
| `SelectorMeaning.BeforeIs` | html.mod/litehtml/src/html_tag.cpp:1211-1345 | The elements before and after an element are the element children of its parent that precede it or that it precedes |
| `SelectorMeaning.AdjacentIs` | html.mod/litehtml/src/html_tag.cpp:1277-1312 | The last element before it is the one that no other stands between |
| `SelectorLaws.PermissiveCovers` | html.mod/litehtml/src/html_tag.cpp:473-538 | The permissive pass matches whenever the strict one does, and without its flag it is the strict one |
| `SelectorLaws.Unflagged` | html.mod/litehtml/src/html_tag.cpp:473-538 | A selector without anything to take for granted never gets the flag |
| `SelectorLaws.PermissiveStable` | html.mod/litehtml/src/html_tag.cpp:473-538 | What the permissive pass says never depends on hover and other states |
| `SelectorLaws.AncestorMeans` | html.mod/litehtml/src/html_tag.cpp:715-738 | The ancestor search finds a matching ancestor exactly when there is one |
| `SelectorLaws.SiblingMeans` | html.mod/litehtml/src/html_tag.cpp:1314-1345 | The sibling search finds a matching earlier sibling exactly when there is one |
| `SelectorLaws.StepsIsProgression` | html.mod/litehtml/src/html_tag.cpp:1211-1275 | The index test of :nth-child(an+b) holds exactly when some n >= 0 gives the index, for every sign of a |
| `SelectorSearch.FindSiblingLoop` | html.mod/litehtml/src/html_tag.cpp:1314-1345 | The loop over the children computes the search the theorems are about |
| `SelectorSearch.FindAdjacentLoop` | html.mod/litehtml/src/html_tag.cpp:1277-1312 | The loop tries exactly the element child just before |
| `SelectorSearch.IsNthChild` | html.mod/litehtml/src/html_tag.cpp:1211-1242 | The loop counts exactly the element children before that the sub-selector counts |
| `SelectorSearch.IsNthLastChild` | html.mod/litehtml/src/html_tag.cpp:1244-1275 | The loop from the end counts exactly those after |
| `Cascade.PrefilterIsSafe` | html.mod/litehtml/src/html_tag.cpp:186-200 | The tag and first-class test turns away no rule the permissive pass lets in |
| `Cascade.StyleProperties.AddParsedProperty` | html.mod/litehtml/src/style.cpp:1548-1562 | An important declaration only gives way to an important one |
| `Cascade.StyleProperties.CombineWith` | html.mod/litehtml/src/style.cpp:1576-1582 | Combining adds every declaration of the other style |
| `Cascade.CombineAnyOrder` | html.mod/litehtml/src/style.cpp:1576-1582 | The order in which the declarations of a rule are added does not matter |
| `Cascade.FoldWinner` | html.mod/litehtml/src/style.cpp:1548-1582 | After any list of rules the last important declaration of a property wins, else the last one |
| `Cascade.FullIsFold` | html.mod/litehtml/src/html_tag.cpp:182-278 | The style from scratch is the cascade, in order, of the styles of exactly the rules whose selector means the element |
| `Cascade.RememberedSuffices` | html.mod/litehtml/src/html_tag.cpp:1429-1498 | Applying only the remembered rules gives the style that all rules give |
| `Cascade.RememberedStable` | html.mod/litehtml/src/html_tag.cpp:1429-1498 | The remembered rules stay the right ones whatever states change |
| `Restyle.Document.ApplyOne` | html.mod/litehtml/src/html_tag.cpp:186-265 | Filter, permissive pass, and strict pass only when flagged, together apply a rule exactly when it matches strictly, and remember it exactly when it can ever match |
| `Restyle.Document.ApplyStylesheet` | html.mod/litehtml/src/html_tag.cpp:182-278 | Every element below gets the full style of the sheet and remembers the rules with right marks; others stay as they are |
| `Restyle.Document.AddSheet` | html.mod/litehtml/src/html_tag.cpp:182-278 | After any earlier changes of state a further sheet keeps every element's marks and style in agreement |
| `Restyle.Document.RefreshStyles` | html.mod/litehtml/src/html_tag.cpp:1429-1498 | Every element below gets the style of its remembered rules under the present states, with every mark renewed |
| `Restyle.Document.RefreshAll` | html.mod/litehtml/src/html_tag.cpp:1429-1498 | Afterwards every element has the style that applying all sheets from scratch gives |
| `Restyle.Document.RequiresStylesUpdate` | html.mod/litehtml/src/element.cpp:191-205 | True exactly when some mark is not what strict matching gives now |
| `Restyle.Document.FindStylesChanges` | html.mod/litehtml/src/element.cpp:212-258 | Every element below ends with its from-scratch style; true exactly when something below was out of date; when false nothing was changed |
| `Restyle.Document.SetPseudoClass` | html.mod/litehtml/src/html_tag.cpp:993-1014 | Reports a change exactly when there is one, and keeps everything remembered valid |
| `Restyle.Document.Run` | html.mod/litehtml/src/html_tag.cpp:182-278 | Over every sequence of sheets, state changes and refreshes: the rules and states at the end are those of the sequence, and unless a state changed since the document was last brought up to date every element has the style that applying all sheets from scratch under these states gives |
| `FloatsContext.FormattingContext.AddFloat` | html.mod/litehtml/src/formatting_context.cpp:5-65 | The float is inserted so that its list stays sorted by edge, and the cache on its side is dropped |
| `FloatsContext.FormattingContext.GetLineLeft` | html.mod/litehtml/src/formatting_context.cpp:167-196 | The left edge, cached or not, is the one an uncached scan gives |
| `FloatsContext.FormattingContext.GetLineRight` | html.mod/litehtml/src/formatting_context.cpp:198-233 | An uncached answer is the scan's; a cached one is what the entry gives, and that is the scan's exactly when the remembered entry serves the default edge asked with |
| `FloatsContext.FormattingContext.ClearFloats` | html.mod/litehtml/src/formatting_context.cpp:236-263 | Keeps exactly the floats of outer contexts, in order, and the caches true |
| `FloatsContext.FormattingContext.UpdateFloats` | html.mod/litehtml/src/formatting_context.cpp:375-403 | Moves exactly the floats under the block and keeps lists sorted and caches true |
| `FloatsContext.FormattingContext.FindNextLineTop` | html.mod/litehtml/src/formatting_context.cpp:310-373 | The first edge at or below the top where the box fits, else the last edge; wrong exactly when the first edge fits, a remembered right edge there is too narrow and there are more edges, and then the first such edge behind it |
| `Floats.LeastFit` | html.mod/litehtml/src/formatting_context.cpp:310-373 | If the box does not fit at the top but fits without floats, that height is the least of all real heights where it fits |
| `Floats.BandIsConstant` | html.mod/litehtml/src/formatting_context.cpp:310-373 | Between two consecutive edges the room between the floats is the same |
| `Floats.ScanLeftIsMax` | html.mod/litehtml/src/formatting_context.cpp:167-196 | The left scan is the largest right side of the floats at that height |
| `Floats.ScanRightIsMin` | html.mod/litehtml/src/formatting_context.cpp:198-233 | The right scan is the smallest left side of the floats at that height, or the limit |
| `Floats.LeftEdgeIs` | html.mod/litehtml/src/formatting_context.cpp:167-196 | The left edge as seen from a context is the farthest right side of a float beside that height, or its own edge, and not negative |
| `Floats.RightEdgeIs` | html.mod/litehtml/src/formatting_context.cpp:198-233 | The right edge is the nearest left side of a float beside that height, or the default one, and zero if that is left of the context |
| `Floats.FitsIs` | html.mod/litehtml/src/formatting_context.cpp:310-373 | A box fits at a height exactly when there is room for it: some left side with it inside the limits and clear of every float there |
| `Floats.FitsAloneIs` | html.mod/litehtml/src/formatting_context.cpp:310-373 | And where no float is, when it fits between the limits |
| `Floats.KeptAre` | html.mod/litehtml/src/formatting_context.cpp:236-263 | What clearing keeps are the floats of outer contexts, each as often as it was there |
| `Floats.KeptOfParts` | html.mod/litehtml/src/formatting_context.cpp:236-263 | And in their order |
| `Floats.StaleRightEdge` | html.mod/litehtml/src/formatting_context.cpp:198-233 | A cached right edge asked for again with a wider default edge can be wrong |
| `Floats.SeenIsNarrower` | html.mod/litehtml/src/formatting_context.cpp:198-233 | A remembered right edge is never farther right than the real one, so a box is never placed where it does not fit |
| `Floats.MissedEdge` | html.mod/litehtml/src/formatting_context.cpp:310-373 | A search that passes by the height where the box fits |
| `ResolverLaws.EveryStepIsSafe` | libcurl.mod/libcurl/lib/asyn-thrdd.c:120-689 | In every interleaving: nothing is touched after it is freed, no handle is used that is not live, no reference is given up that is not held, and the result is written before thrd_done and taken after the thread is gone |
| `ResolverLaws.EveryStateIsSound` | libcurl.mod/libcurl/lib/asyn-thrdd.c:120-153 | In every interleaving: the count is the number of holders, a context is freed at most once and then has none, a handle is joined or detached at most once, a result is taken or freed at most once |
| `ResolverLaws.StepKeeps` | libcurl.mod/libcurl/lib/asyn-thrdd.c:120-689 | Every step of the transfer, of a thread and of a cancellation keeps the invariant |
| `ResolverLaws.NoDeadlock` | libcurl.mod/libcurl/lib/asyn-thrdd.c:509-536 | Until the transfer is idle and the threads are gone someone can go on |
| `ResolverLaws.StepsRunOut` | libcurl.mod/libcurl/lib/asyn-thrdd.c:509-570 | Between two calls only finitely many steps are possible |
| `ResolverLaws.ComesToRest` | libcurl.mod/libcurl/lib/asyn-thrdd.c:509-570 | From every reachable state the steps under way can be brought to an end |
| `ResolverLaws.DestroyLeavesNothing` | libcurl.mod/libcurl/lib/asyn-thrdd.c:354-391 | After destroy, however the steps interleave, at their end every context was freed once, every thread's handle joined or detached once, and every result taken or freed once |
| `ResolverLaws.RestIsTidy` | libcurl.mod/libcurl/lib/asyn-thrdd.c:120-153 | The same for any state at rest without a context |
| `ResolverLaws.TornDownIsTidy` | libcurl.mod/libcurl/lib/asyn-thrdd.c:120-689 | Whatever a run did before destroy is called and however the steps after it interleave: when nothing moves any more, every context was freed once, every handle joined or detached once, every result taken or freed once |
| `ResolverLaws.TeardownEnds` | libcurl.mod/libcurl/lib/asyn-thrdd.c:354-391 | And every such run can be brought there |
| `ResolverCalls.PollDelivers` | libcurl.mod/libcurl/lib/asyn-thrdd.c:618-689 | In every interleaving, a poll entered after the thread is gone, and not answered before, has taken all the thread made when it returns; one that returns before the thread is gone, or after an answer, takes nothing and leaves the answer as it was |
| `ResolverCalls.AwaitDelivers` | libcurl.mod/libcurl/lib/asyn-thrdd.c:545-572 | An await that wants a result waits for the thread and takes what it made |
| `ResolverCalls.PolledIsKept` | libcurl.mod/libcurl/lib/asyn-thrdd.c:120-689 | Over whole runs: after such a poll no result of that context is ever thrown away |
| `ResolverCalls.ShutdownStops` | libcurl.mod/libcurl/lib/asyn-thrdd.c:515-540 | A shutdown has told the thread to give up when it returns, and cancelled it if it was not gone |
| `ResolverCalls.GivesUpForGood` | libcurl.mod/libcurl/lib/asyn-thrdd.c:218-285 | A thread told before it resolves never resolves |
| `ResolverCalls.FinishedHasNotified` | libcurl.mod/libcurl/lib/asyn-thrdd.c:218-285 | A thread that is done has notified the transfer, unless it was told to give up |
| `ResolverCalls.SilentForGood` | libcurl.mod/libcurl/lib/asyn-thrdd.c:218-285 | A thread told before it looks again never does |
| `ResolverCalls.DestroyWaits` | libcurl.mod/libcurl/lib/asyn-thrdd.c:354-393 | A destroy that is not quick tells the thread to give up, waits for it, takes nothing and lets the context go |
| `ResolverCalls.InitStarts` | libcurl.mod/libcurl/lib/asyn-thrdd.c:446-513 | An init that gets its memory and thread, whatever was there before, leaves a new context with a running thread, nothing asked of it and no answer yet |
| `ResolverCalls.InitEnds` | libcurl.mod/libcurl/lib/asyn-thrdd.c:446-513 | Any init ends with such a context or with none, and with no answer from before |
| `Utf8.ReadAppended` | html.mod/litehtml/src/utf8_strings.cpp:8-88 | Reading where a scalar was appended gives it back and stops right after it |
| `Utf8.EncodeInjective` | html.mod/litehtml/src/utf8_strings.cpp:8-101 | Two lists of scalars with the same bytes are the same |
| `Utf8.AppendedIsUtf8` | html.mod/litehtml/src/utf8_strings.cpp:60-88 | A scalar becomes the well-formed sequence of RFC 3629 that carries its bits, anything else nothing |
| `Utf8.PrevUtf8Char` | html.mod/litehtml/src/utf8_strings.cpp:53-58 | Steps back exactly to the start of the code point before |
| `Utf8.Utf8ToUtf32` | html.mod/litehtml/src/utf8_strings.cpp:90-95 | Decoding the encoding of a list of scalars gives the list |
| `Utf8.Utf32ToUtf8` | html.mod/litehtml/src/utf8_strings.cpp:97-101 | Appends every code point |
| `CssTokenizer.Tokenizer.ConsumeChar` | html.mod/litehtml/src/css_tokenizer.cpp:78-82 | Moves on one code point, or stays at the end |
| `CssTokenizer.Tokenizer.UnconsumeChar` | html.mod/litehtml/src/css_tokenizer.cpp:87-95 | Undoes the consumption just before it, also at the end |
| `CssTokenizer.ByteHere` | html.mod/litehtml/src/css_tokenizer.cpp:78-113 | Looking at a byte is looking at a code point when either is ASCII |
| `CssTokenizer.FindMatches` | html.mod/litehtml/src/css_tokenizer.cpp:115-135 | Searching the bytes for the end of a comment finds the end in the text |
| `CssTokenizer.Tokenizer.ConsumeComments` | html.mod/litehtml/src/css_tokenizer.cpp:115-135 | Skips exactly the comments |
| `CssTokenizer.Tokenizer.ConsumeEscapedCodePoint` | html.mod/litehtml/src/css_tokenizer.cpp:140-173 | Reads up to six hexadecimal digits and one whitespace; what is no scalar becomes U+FFFD |
| `CssTokenizer.Tokenizer.ConsumeStringToken` | html.mod/litehtml/src/css_tokenizer.cpp:176-217 | Agrees with the text-level string |
| `CssTokenizer.Tokenizer.ConsumeIdentSequence` | html.mod/litehtml/src/css_tokenizer.cpp:242-267 | Agrees with the text-level name |
| `CssTokenizer.Tokenizer.ConsumeNumber` | html.mod/litehtml/src/css_tokenizer.cpp:334-386 | Takes exactly the longest number, knows whether it is an integer, and gives the value of its spelling |
| `CssNumber.ConvertStringToNumber` | html.mod/litehtml/src/css_tokenizer.cpp:289-331 | The loops over the seven components of a spelling compute its value, in exact arithmetic |
| `CssNumber.ValueIsDecimal` | html.mod/litehtml/src/css_tokenizer.cpp:289-331 | That value is the integer of all digits, moved by the exponent less the number of digits behind the point, with the sign |
| `CssNumber.NumberIsItsParts` | html.mod/litehtml/src/css_tokenizer.cpp:334-386 | The spelling of a number token is exactly its components, and an integer has no fraction or exponent |
| `CssNumber.SpelledIsRead` | html.mod/litehtml/src/css_tokenizer.cpp:289-331 | Every natural number is read back from its digits |
| `CssTokenizer.Tokenizer.ConsumeNumericToken` | html.mod/litehtml/src/css_tokenizer.cpp:389-419 | Dimension, percentage or number as on the text |
| `CssTokenizer.Tokenizer.ConsumeRemnantsOfBadUrl` | html.mod/litehtml/src/css_tokenizer.cpp:422-438 | Skips what is left of a bad url |
| `CssTokenizer.Tokenizer.ConsumeUrlToken` | html.mod/litehtml/src/css_tokenizer.cpp:441-517 | Agrees with the text-level url |
| `CssTokenizer.Tokenizer.ConsumeIdentLikeToken` | html.mod/litehtml/src/css_tokenizer.cpp:521-557 | Identifier, function or url as on the text; a quoted url keeps one whitespace |
| `CssTokenizer.Tokenizer.ConsumeToken` | html.mod/litehtml/src/css_tokenizer.cpp:560-710 | The token at the position after the comments is the one the code points have, with its bytes as representation |
| `CssTokenizer.Tokenizer.Tokenize` | html.mod/litehtml/src/css_tokenizer.cpp:712-722 | Tokenizing the bytes of any text of nonzero scalars ends, gives the tokens of the code points, and comments and representations together are the string |
| `CssSyntax.TokenMovesOn` | html.mod/litehtml/src/css_tokenizer.cpp:560-710 | Every token is made of at least one code point |
| `CssSyntax.Lossless` | html.mod/litehtml/src/css_tokenizer.cpp:712-722 | Comments and token texts in order are the whole text, and no token is empty |
| `CssSyntax.CommentsAreComments` | html.mod/litehtml/src/css_tokenizer.cpp:115-135 | What is skipped is a run of comments, the last possibly cut off |
| `CssWriting.EscapeIsRead` | html.mod/litehtml/src/css_tokenizer.cpp:140-173 | One to six hexadecimal digits in either case, with zeros in front or not, are the scalar they spell, and U+FFFD for zero, surrogates and what is beyond Unicode; one whitespace behind is taken with them |
| `CssWriting.StringIsRead` | html.mod/litehtml/src/css_tokenizer.cpp:176-217 | Any text between quotes, with quotes, backslashes and newlines escaped, is a string token of that text |
| `CssWriting.StringEnds` | html.mod/litehtml/src/css_tokenizer.cpp:176-217 | A newline in a string makes it bad and stays, the end of the text does not; a newline behind a backslash is left out |
| `CssWriting.IdentIsRead` | html.mod/litehtml/src/css_tokenizer.cpp:220-267 | Any name that starts as one, with what cannot stand in one escaped and anything else if wished, is an identifier token of that name, or a function before a parenthesis |
| `CssWriting.MarkedIsRead` | html.mod/litehtml/src/css_tokenizer.cpp:560-710 | Behind "#" any name is a hash, an id exactly when it starts as an identifier; behind "@" it is an at-keyword exactly then |
| `CssWriting.UrlIsRead` | html.mod/litehtml/src/css_tokenizer.cpp:441-557 | Any text in url(), with what cannot stand there escaped, is a url token of that text |
| `CssWriting.UrlOrFunction` | html.mod/litehtml/src/css_tokenizer.cpp:521-557 | "url(" and spaces before a quote are a function token that leaves one space, before anything else a url |
| `CssWriting.UrlSpaces` | html.mod/litehtml/src/css_tokenizer.cpp:441-517 | Whitespace before the closing parenthesis or the end does not count; anything else behind it makes the url bad |
| `CssWriting.BadUrlEnds` | html.mod/litehtml/src/css_tokenizer.cpp:422-438 | A bad url goes on to the first closing parenthesis that is not escaped, or to the end |
| `CssWriting.BadUrlNewline` | html.mod/litehtml/src/css_tokenizer.cpp:422-438 | A backslash before a newline escapes nothing there |
| `CssWriting.UrlIsBad` | html.mod/litehtml/src/css_tokenizer.cpp:441-517 | Quotes, parentheses and control characters not escaped make it a bad url |
| `CssWriting.NumericIsRead` | html.mod/litehtml/src/css_tokenizer.cpp:270-419 | A spelling of sign, digits, fraction and exponent is a number or, before a percent sign, a percentage with just that spelling, an integer exactly without the last two |
| `CssWriting.DimensionIsRead` | html.mod/litehtml/src/css_tokenizer.cpp:389-419 | And with a name behind it, a dimension in that unit exactly when the name starts as an identifier |
| `CssWriting.WhitespaceIsRead` | html.mod/litehtml/src/css_tokenizer.cpp:560-710 | A run of whitespace is one token |
| `CssWriting.DelimIsRead` | html.mod/litehtml/src/css_tokenizer.cpp:560-710 | A code point that starts nothing else is a token by itself |
| `CssWriting.LoneMark` | html.mod/litehtml/src/css_tokenizer.cpp:560-710 | So are the marks of numbers, hashes, at-keywords, comments and escapes where they start none |
| `CssWriting.MarkupComments` | html.mod/litehtml/src/css_tokenizer.cpp:560-710 | The two marks of comments in markup are tokens of their own |
| `CssParser.Parser.ConsumeComponentValue` | html.mod/litehtml/src/css_parser.cpp:338-357 | Reads one component value and stops after it |
| `CssParser.Parser.ConsumeUntil` | html.mod/litehtml/src/css_parser.cpp:305-386 | The common loop of blocks and functions: values up to the closing bracket or the end |
| `CssParser.Parser.Componentize` | html.mod/litehtml/src/css_parser.cpp:114-125 | Ends on every token list and gives its component values |
| `CssParser.Parser.ConsumeQualifiedRule` | html.mod/litehtml/src/css_parser.cpp:231-262 | A rule up to its block, or nothing at the end |
| `CssParser.Parser.ConsumeAtRule` | html.mod/litehtml/src/css_parser.cpp:265-300 | An at-rule up to its block, a semicolon or the end |
| `CssParser.Parser.ConsumeListOfRules` | html.mod/litehtml/src/css_parser.cpp:183-228 | Ends and gives the rules in order |
| `CssParser.Parser.ConsumeDeclaration` | html.mod/litehtml/src/css_parser.cpp:401-445 | A declaration read from its name on, or none without a colon |
| `CssDeclaration.TakenIs` | html.mod/litehtml/src/css_parser.cpp:423-445 | A declaration is important when the last two tokens that are no whitespace are "!" and "important" in any case, unless whitespace stands between them; its value is the tokens without that mark, and neither begins nor ends with whitespace |
| `CssDeclaration.TrimIsInside` | html.mod/litehtml/src/css_parser.cpp:392-396 | Trimming takes whitespace off both ends and nothing else |
| `CssDeclaration.SpacedMark` | html.mod/litehtml/src/css_parser.cpp:433-437 | "red ! important" is not important |
| `CssParser.Parser.ConsumeStyleBlockContents` | html.mod/litehtml/src/css_parser.cpp:448-505 | Ends and gives the declarations and rules in order, each declaration taken apart into name, value and importance |
| `Componentize.NothingIsLost` | html.mod/litehtml/src/css_parser.cpp:305-386 | Flattening the component values gives back the tokens, followed by one closer for every bracket an independent scan finds open at the end, innermost first |
| `Componentize.AllIsIdempotent` | html.mod/litehtml/src/css_parser.cpp:114-125 | Componentizing twice is componentizing once |
| `Componentize.GroupedIsFixed` | html.mod/litehtml/src/css_parser.cpp:114-125 | Componentizing leaves a list alone exactly when no bracket or function is left to group |
| `Componentize.ThinIsMadeProper` | html.mod/litehtml/src/css_parser.cpp:305-386 | Plain tokens become proper values: nothing ungrouped inside, no closer of their own bracket |
| `Componentize.GroupingUndoesFlattening` | html.mod/litehtml/src/css_parser.cpp:305-386 | Componentizing the tokens of proper values gives the values back |
| `CssRules.QualifiedKeeps` | html.mod/litehtml/src/css_parser.cpp:231-262 | A qualified rule is its prelude and its block in order: together with what is left they are the tokens read, followed by closers only for what the end cut off |
| `CssRules.AtKeeps` | html.mod/litehtml/src/css_parser.cpp:265-300 | So is an at-rule, which ends with its block, a semicolon or the end of the input |
| `CssRules.ToSemicolonKeeps` | html.mod/litehtml/src/css_parser.cpp:473-501 | The values collected for a declaration are the tokens up to the semicolon or the end, none dropped |
| `CssRules.RulesReadTheSame` | html.mod/litehtml/src/css_parser.cpp:183-300 | The rules are the same whether the tokens were componentized first or not |
| `CssRules.StyleBlockReadsTheSame` | html.mod/litehtml/src/css_parser.cpp:448-505 | So are the declarations and rules of a style block |
| `CssRuleWriting.RulesAreRead` | html.mod/litehtml/src/css_parser.cpp:183-300 | Rules written one after the other, with what is passed over between them, are all returned, once and in order, and what comes after is read as if it were alone |
| `CssRuleWriting.TokensAreRead` | html.mod/litehtml/src/css_parser.cpp:183-300 | The same from their plain tokens |
| `CssRuleWriting.CutOff` | html.mod/litehtml/src/css_parser.cpp:231-300 | A qualified rule cut off before its block is not returned, an at-rule is |
| `CssRuleWriting.EntriesAreRead` | html.mod/litehtml/src/css_parser.cpp:448-505 | Every declaration and every nested rule of a style block is returned, in order |
| `CssRuleWriting.PlainDeclaration` | html.mod/litehtml/src/css_parser.cpp:392-445 | A name, a colon and a value are that declaration, whatever whitespace is around |
| `CssRuleWriting.ImportantIs` | html.mod/litehtml/src/css_parser.cpp:433-437 | "important" counts in any case |
| `Whitespace.RemoveWhitespaceLarge` | html.mod/litehtml/src/css_parser.cpp:46-81 | The loop over a long list removes what its specification does |
| `Whitespace.RemoveWhitespaceSmall` | html.mod/litehtml/src/css_parser.cpp:83-104 | The erasing loop over a short list does |
| `Whitespace.RemoveWhitespace` | html.mod/litehtml/src/css_parser.cpp:106-112 | Chooses between them by length, at every level |
| `Whitespace.AgreeWithoutRuns` | html.mod/litehtml/src/css_parser.cpp:46-104 | Both give the same without a predicate, and with any predicate when no two whitespace tokens are adjacent |
| `Whitespace.AgreeIffAlike` | html.mod/litehtml/src/css_parser.cpp:46-104 | On a list both agree exactly when they keep as much of every run of whitespace: the long form judges its first, middle and last tokens apart, the short form forgets what it dropped |
| `Whitespace.AgreeIffRunBlind` | html.mod/litehtml/src/css_parser.cpp:46-104 | For a predicate both agree on all lists exactly when it cannot tell a run of whitespace from a single one |
| `Whitespace.MediaKeepIsNotRunBlind` | html.mod/litehtml/src/media_query.cpp:191-195 | The predicate passed for media queries can |
| `Whitespace.MediaAgree` | html.mod/litehtml/src/media_query.cpp:191-195 | On a list of media queries both agree exactly when no run of two or more whitespace tokens stands between an angle bracket and an equals sign |
| `Whitespace.MediaDiffer` | html.mod/litehtml/src/media_query.cpp:191-195 | Of such a run the short form keeps one and the long form none |
| `Whitespace.RemovedIsSolid` | html.mod/litehtml/src/css_parser.cpp:46-112 | Without a predicate exactly the whitespace goes, at every level |
| `TableGrid.Grid.DistributeSpan` | html.mod/litehtml/src/table.cpp:162-190 | Adds exactly the width of a spanning cell to its columns, by their maximum widths, and touches no other |
| `TableGrid.Grid.DistributeWidth` | html.mod/litehtml/src/table.cpp:192-288 | For any width and any columns: the three steps of the source, each with its parts, floors and what is left to the next, and the division by zero exactly where a column below its minimum has no part |
| `TableSpread.SpreadWidens` | html.mod/litehtml/src/table.cpp:192-288 | A width to give goes to the auto columns if there are any, else to those with a percentage, else to all, exactly by how far each can grow, and none is left over |
| `TableSpread.SpreadNarrows` | html.mod/litehtml/src/table.cpp:192-288 | A width to take back makes no column wider, and none narrower than its minimum but the last of a step whose columns cannot grow |
| `TableSpread.SpreadSum` | html.mod/litehtml/src/table.cpp:192-288 | The columns change by exactly what of the width was given out, and twice what columns were short of their minima |
| `TableSpread.SpreadGives` | html.mod/litehtml/src/table.cpp:192-288 | A width to give is given out in full even with columns below their minima |
| `TableGrid.Grid.ShrinkPercents` | html.mod/litehtml/src/table.cpp:379-406 | The shrinking loop ends; it narrows by the whole excess if that is a whole number the columns can give, else as often as they can, and every column by the number of its turns among these |
| `TableGrid.Grid.CalcTableWidth` | html.mod/litehtml/src/table.cpp:290-409 | It divides by zero exactly when the table does not fit and has percentages that add up to nothing. Otherwise the width returned is that of the columns; with room a table with a width of its own fills its block exactly and one without fills it or has every auto column at its maximum; without room percentages are scaled, then each column is narrowed by a number of pixels that is given |
| `TableGrid.Grid.CalcRowsHeight` | html.mod/litehtml/src/table.cpp:484-578 | Rows whose own heights leave no room keep them. Otherwise rows with a percentage are served in order as long as extra height is left, the last of them with what there is; what is left after all is split evenly among the auto rows, or among all if there are none |
| `TableHeights.ServedFills` | html.mod/litehtml/src/table.cpp:484-578 | So rows that leave room fill the block exactly, none below its minimum |
| `TableHeights.ServedInOrder` | html.mod/litehtml/src/table.cpp:484-578 | A row that gets less than its percentage of the block leaves nothing to the rows behind it, nor to those without a percentage |
| `TableHeights.RestIsSplit` | html.mod/litehtml/src/table.cpp:484-578 | What is over when all have theirs goes in equal parts to the auto rows, or to all if there are none |
| `TableModel.SpanSharesAddUp` | html.mod/litehtml/src/table.cpp:169-184 | The parts of a spanning cell's width add up to it |
| `TableModel.SpanIsProportional` | html.mod/litehtml/src/table.cpp:169-184 | Two of them are as the maximum widths of their columns, or equal if those are all zero |
| `TableSpread.SharesAddUp` | html.mod/litehtml/src/table.cpp:246-272 | So do the parts of a step over a table |
| `TableShrink.SweptIsShrunk` | html.mod/litehtml/src/table.cpp:379-406 | Sweeping over the columns narrows each by the number of its turns among the first so many of all |
| `TableShrink.TurnCame` | html.mod/litehtml/src/table.cpp:379-406 | The t-th turn of a column has come exactly when it was passed t times: the columns up to it had t turns, those behind it one less |
| `TableWidths.SizedMinimum` | html.mod/litehtml/src/table.cpp:290-409 | A column ends below its minimum exactly when the table was narrowed, the way from its scaled width to its minimum is no whole number of pixels, and the last of its turns came; never by a pixel or more |
| `TableWidths.SizedTable` | html.mod/litehtml/src/table.cpp:290-409 | A table that does not fit ends below its block exactly when the excess is no whole number of pixels and the columns can give more, and above it exactly when they cannot give it all |
| `TableWidths.ScaledFills` | html.mod/litehtml/src/table.cpp:350-378 | Scaled percentages fill the table exactly when none is held at its minimum, and otherwise more than fill it |
| `TableWidths.ScaledProportional` | html.mod/litehtml/src/table.cpp:346-378 | Two columns with percentages that are not held end in proportion to them |
| `TableWidths.RestIsShared` | html.mod/litehtml/src/table.cpp:340-347 | In a table that is filled up, columns that take part gain as far as they can grow, two of them in proportion, others nothing: the auto columns if there are any, else those with a percentage, else all |
| `TableWidths.LastTakesAll` | html.mod/litehtml/src/table.cpp:340-347 | If none of them can grow the last one gains it all |
| `TableWidths.TooNarrow` | html.mod/litehtml/src/table.cpp:290-409 | A table that fits exactly in the end with a column below its minimum |
| `TableWidths.NothingPercent` | html.mod/litehtml/src/table.cpp:346-366 | A table that does not fit and whose only percentage is 0%: the division is by zero |
| `UrlText.ParseUrl` | html.mod/litehtml/src/url.cpp:40-95 | Taking components off a shrinking text gives the parts the theorems are about |
| `Url.PrintedIsReadBack` | html.mod/litehtml/src/url.cpp:40-127 | Components survive printing and reparsing exactly when none holds or imitates a delimiter |
| `Url.ParsedParts` | html.mod/litehtml/src/url.cpp:40-95 | What parsing guarantees of the components of any text |
| `Url.SchemeChars` | html.mod/litehtml/src/codepoint.cpp:67-80 | A scheme is of letters, digits, plus, minus and point |
| `Url.ParsedPrintsBack` | html.mod/litehtml/src/url.cpp:40-127 | A text survives parsing and printing exactly when no component in it is there and empty: scheme, authority, query or fragment; printing never makes it longer |
| `Url.ColonIsLost` | html.mod/litehtml/src/url.cpp:40-127 | ":a" is printed back as "a" |
| `UrlResolve.ResolvedIsReadBack` | html.mod/litehtml/src/url.cpp:180-212 | A resolved url survives printing and reparsing exactly when the reference is not a relative path against a host without a path |
| `UrlResolve.ResolvedFrom` | html.mod/litehtml/src/url.cpp:180-212 | Each component comes from the reference, or from the base if the reference has neither it nor any before it; the fragment always from the reference |
| `UrlResolve.ResolvedPath` | html.mod/litehtml/src/url_path.cpp:39-85 | What a relative path becomes |
| `UrlResolve.HostAndPage` | html.mod/litehtml/src/url.cpp:180-212 | "http://host" and "page" resolve to a text that reads as another host |
| `UrlText.Encode` | html.mod/litehtml/src/url.cpp:130-147 | Percent-encodes every byte but the unreserved, codes below 16 padded with a space |
| `UrlText.Decode` | html.mod/litehtml/src/url.cpp:149-178 | Decodes, for any bytes |
| `UrlText.DecodeUndoesEncode` | html.mod/litehtml/src/url.cpp:130-178 | Decoding undoes encoding for every string of bytes |
| `UrlText.CodedIs` | html.mod/litehtml/src/url.cpp:130-147 | Letters, digits and four marks stand for themselves, any other byte becomes a percent sign and its code in upper case, padded with a space |
| `UrlText.AnyWritingIsDecoded` | html.mod/litehtml/src/url.cpp:149-178 | However bytes were written, plainly, a plus for a space, or coded with digits in either case, decoding gives them back |
| `UrlText.OddCodes` | html.mod/litehtml/src/url.cpp:149-178 | What two characters that are no code decode to: a digit alone counts, behind a blank, a plus or a minus sign too, anything else is zero |
| `UrlText.CutOffCode` | html.mod/litehtml/src/url.cpp:149-178 | A code the end cuts off ends the result |
| `VarSubst.SubstVar` | html.mod/litehtml/src/style.cpp:1616-1648 | One substitution as specified: the first var() that can be replaced is |
| `VarSubst.SubstProgress` | html.mod/litehtml/src/style.cpp:1616-1648 | A substitution uses up a name of the text and brings in none but those of the properties; otherwise the text stays |
| `VarSubst.SubstVars` | html.mod/litehtml/src/style.cpp:1650-1655 | Substitution ends for every text and all properties, cyclic ones too, after no more steps than there are names |
| `VarSubst.AllSubstitutedIffOnceEach` | html.mod/litehtml/src/style.cpp:1616-1655 | For every text and all properties, nested, cyclic or missing: no var() is left exactly when the full expansion exists and uses no name twice, nor the one being set, and then the result is that expansion |
| `VarSubst.SubstIsSteady` | html.mod/litehtml/src/style.cpp:1616-1648 | A substitution that does something keeps the expansion and uses up the first of its names; one that does nothing has nothing left to do or cannot succeed |
| `VarSubst.NotNeeded` | html.mod/litehtml/src/style.cpp:1626-1641 | An expansion that does without a property is the same when it is missing |
| `VarSubst.UsedTwice` | html.mod/litehtml/src/style.cpp:1616-1655 | Of the same var() twice, one always stays |
| `VarSubst.IsVarIs` | html.mod/litehtml/src/style.cpp:1620-1621 | The function is recognised in any case |
| `VarSubst.VarSyntaxIs` | html.mod/litehtml/src/style.cpp:1595-1610 | The arguments of a var() are a name of three or more characters that starts with two dashes, and behind a comma tokens with nothing broken at any depth and no semicolon or exclamation mark at the top |
| `VarSubst.AnyTokensMeans` | html.mod/litehtml/src/css_parser.cpp:532-544 | Any value holds no bad token, no closing bracket and no empty block or function, at any depth |
| `VarSubst.IsAnyValue` | html.mod/litehtml/src/css_parser.cpp:532-544 | The loop with its recursion decides that |
| `VarSubst.IsDeclarationValue` | html.mod/litehtml/src/css_parser.cpp:547-560 | So does the loop for a declaration value, from any index |

## Left out

- FlexLine.Line.DistributeFreeSpaceShrink: with a flexible factor below 1000 and sizes that overflow, which items end frozen and whether it divides by zero are stated as what the passes lead to, with no condition on the line alone unless no bound stops an item, because the part of the initial overflow that small factors may use changes the level from pass to pass. Weights are not negative. A division by zero is an outcome; the sizes that are no numbers in the source are left as they were.
- FlexLine.Line.DistributeFreeSpaceGrow: an item's maximum is not below its minimum, where it has one.
- BufqIO.WritePass: when memory runs out in a later round the difference between the count and what was taken in is only bounded from one side.
- BufqQueue.Queue.Write: with a soft limit only memory bounds what is accepted.
- TableGrid.Grid.DistributeWidth: the range is not reversed, where the source reads behind an empty list; that no column's maximum is below its minimum is assumed where the parts must have the sign of the width.
- TableGrid.Grid.DistributeSpan: the correction of what rounding left over never applies to exact reals.
- TableGrid.Grid.CalcTableWidth: a column's maximum is not below its minimum.
- Restyle.Document.Run: no pseudo-elements (their creation changes the tree), no counters, no inline or presentational styles; media queries do not change.
- ResolverLaws.EveryStepIsSafe: an HTTPS-RR query beside the address query, and the timing of polling, are not part of the model.
- Colours, gradients and every property's own syntax: floating point and many easy branches.
- Filtering code points before tokenization and guessing encodings.
- `Curl_bufq_free`, the initializers of queue and pool, and the `char` wrappers: nothing beyond what is modelled.
- Table columns' borders, positions and captions, and finding the grid from rowspans: simple sums and copies.
- Auto margins, justification and lines of flex items; inline layout; drawing; events; fonts; networking; the wrappers in the other modules.
