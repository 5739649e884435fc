# vcf-toolbar-layout: overflow engine and source-snippet extractor

This project models two parts of the vcf-toolbar-layout component in Dafny
and proves properties of them.

**The overflow/collapse engine of the `vcf-toolbar-layout` web component**
(`toolbar_layout.dfy`, module `ToolbarLayout`).
- The element keeps its slotted items in two ordered containers: the main row
  and the overflow container shown in a popover.
- After a resize, a debounced `_updateOverflowingItems` chooses one of two
  loops:
  - the expand loop brings items back from one end of the overflow container
    while they fit;
  - the collapse loop pushes items from one end of the main row into the
    overflow container until the row's last item fits.
- `reverseCollapse` decides which end each loop uses.
- The element is the class `Toolbar`. Its fields are the two containers, the
  `reverseCollapse` flag, the button's `visible` class, the debounce state
  and `updateDebounceDelay`.
- Its methods mirror the element's methods:
  - `UpdateOverflowingItems` and `FireTimer` are proved against the pure
    function `Update`, which describes one update on values;
  - the two loops and their single passes (`RestoreOverflowedItems`,
    `CollapseVisibleItems`, `TryRestoreItem`, `TryCollapseItem`) are proved
    against the parts of `Update`: the counts `Restored` and `CollapseKept`
    and the containers `Grow`/`Remaining` and `Keep`/`Drop` they lead to;
  - `MoveItemToOverflowContainer`, `MoveItemToMainContainer`,
    `UpdateOverflowButtonState`, `RequestOverflowUpdate` and `Disconnect`
    state their new fields directly.
- Lemmas about `Update` prove several properties:
  - the combined contents are kept as a permutation;
  - the logical order is kept;
  - the update stops at the first misfit;
  - the update is monotone in the container width;
  - with the geometry held fixed, a second update moves nothing.
- `Measure` gives the geometry the element measures: a hidden overflow button
  is `display: none` and measures 0, and in reverse-collapse mode a shown
  button is ordered first and moves the row right by its width plus the
  host's gap. With that measurement a second update moves nothing unless the
  first one showed the button; then it can move further items out, and the
  update after that moves nothing.
- Pixel measurement is replaced by natural-number widths. The right edge of
  the k-th item of the main row is the row's left edge plus the widths of
  items 0..k.

**The source-snippet extractor of the demo application**
(`source_content_resolver.dfy`, module `SourceContentResolver`).
- `SpringSourceContentResolver` scans the lines of a Java file for blocks
  between `// begin-source-example` and `// end-source-example`.
- From each block it pulls out an optional heading line and an optional type
  line.
- It then strips the common indentation of the remaining lines and joins them
  with "\n".
- The Java list that the code changes in place is the class `LineList`. The
  `subList` view the code removes lines through is the class `SubList`.
- Every loop is a method proved against a specification function:
  - `ParseSourceCodeExamples` against `ScanInPlace`;
  - `ParseValueFromPattern` against `ValueFromPattern`;
  - `TrimWhitespaceAtStart` against `TrimIndent`;
  - `GetWhitespaceCountAtStart` against `Indent`.
- A second scan, `ExtractExamples`, takes each block's body as a copy. It is
  the corrected form of the scan (see "## Findings").
- The regular expressions are modelled as line predicates:
  - `\s*` is the longest run of the characters `\s` matches;
  - the marker or prefix must follow exactly;
  - for the heading, the capture is the rest of the line without line
    terminators;
  - for the type, the capture is one or more capital letters.

The element's `_isElementVisibleInContainer` is the predicate
`IsElementVisibleInContainer`. Its `_isOverflowButtonVisible` is the function
`Toolbar.IsOverflowButtonVisible`.

## Model

| member | source | states |
|---|---|---|
| ToolbarLayout.VisibleItemsFormPrefix | vcf-template/src/main/resources/META-INF/resources/frontend/src/vcf-toolbar-layout/src/component/vcf-toolbar-layout.js:363-371 | When an item's right edge plus the reserve is at most the container's right edge, the same holds for every earlier item. |
| ToolbarLayout.LastItemVisible | vcf-template/src/main/resources/META-INF/resources/frontend/src/vcf-toolbar-layout/src/component/vcf-toolbar-layout.js:315-318 | The visibility test of the row's last item holds exactly when the whole row fits with the reserve. Equality counts as fitting. |
| ToolbarLayout.IndexOf | vcf-template/src/main/resources/META-INF/resources/frontend/src/vcf-toolbar-layout/src/component/vcf-toolbar-layout.js:331 | `indexOf` gives a position holding the item, and no earlier position holds it. |
| ToolbarLayout.WithoutMultiset | vcf-template/src/main/resources/META-INF/resources/frontend/src/vcf-toolbar-layout/src/component/vcf-toolbar-layout.js:379 | Detaching an item from its container removes exactly one occurrence of it. |
| ToolbarLayout.GrowFromOrder | vcf-template/src/main/resources/META-INF/resources/frontend/src/vcf-toolbar-layout/src/component/vcf-toolbar-layout.js:319-332 | Containers that keep the logical order, after n items came back, are the row grown by n items at the restoring end and the overflow minus those items. |
| ToolbarLayout.KeepFromOrder | vcf-template/src/main/resources/META-INF/resources/frontend/src/vcf-toolbar-layout/src/component/vcf-toolbar-layout.js:337-351 | Containers that keep the logical order, with k items left in the row, are the kept prefix (a suffix in reverse mode) and the overflow with the dropped items at the right end. |
| ToolbarLayout.CollapseKept | vcf-template/src/main/resources/META-INF/resources/frontend/src/vcf-toolbar-layout/src/component/vcf-toolbar-layout.js:337-351 | The collapse loop keeps at most as many items as the row had. |
| ToolbarLayout.CollapseKeptIsLargestFit | vcf-template/src/main/resources/META-INF/resources/frontend/src/vcf-toolbar-layout/src/component/vcf-toolbar-layout.js:337-351 | The collapse keeps the largest count whose row fits: the kept row is empty or fits with the reserve, and every longer kept row would not fit. |
| ToolbarLayout.Restored | vcf-template/src/main/resources/META-INF/resources/frontend/src/vcf-toolbar-layout/src/component/vcf-toolbar-layout.js:319-332 | The expand loop brings back at most as many items as the overflow container holds. |
| ToolbarLayout.RestoredStopsAtFirstMisfit | vcf-template/src/main/resources/META-INF/resources/frontend/src/vcf-toolbar-layout/src/component/vcf-toolbar-layout.js:319-332 | Every row the expand loop builds on its way fits with the button reserve. The first row it rejects does not fit. |
| ToolbarLayout.Update | vcf-template/src/main/resources/META-INF/resources/frontend/src/vcf-toolbar-layout/src/component/vcf-toolbar-layout.js:310-355 | One update keeps `main ++ overflow` (`overflow ++ main` in reverse mode). It moves items in one direction only, chosen once by whether the row is empty or fits with the button reserved. |
| ToolbarLayout.UpdateIsPermutation | vcf-template/src/main/resources/META-INF/resources/frontend/src/vcf-toolbar-layout/src/component/vcf-toolbar-layout.js:378-401 | No item is lost or duplicated: the multiset of both containers is unchanged. |
| ToolbarLayout.UpdatedRowFits | vcf-template/src/main/resources/META-INF/resources/frontend/src/vcf-toolbar-layout/src/component/vcf-toolbar-layout.js:318-351 | After an update the row is empty or fits. The reserve is the one of the branch taken: the button width when expanding, and when collapsing 0 in reverse mode with the button visible. |
| ToolbarLayout.UpdateStopsAtFirstMisfit | vcf-template/src/main/resources/META-INF/resources/frontend/src/vcf-toolbar-layout/src/component/vcf-toolbar-layout.js:319-351 | After an expand, the next overflow item would not fit. After a collapse that moved items, keeping one more item would not fit. |
| ToolbarLayout.RestoredMonotoneInWidth | vcf-template/src/main/resources/META-INF/resources/frontend/src/vcf-toolbar-layout/src/component/vcf-toolbar-layout.js:319-332 | A wider container never brings back fewer items. |
| ToolbarLayout.CollapseKeptMonotoneInWidth | vcf-template/src/main/resources/META-INF/resources/frontend/src/vcf-toolbar-layout/src/component/vcf-toolbar-layout.js:337-351 | A wider container never keeps fewer items when collapsing. |
| ToolbarLayout.UpdateMonotoneInWidth | vcf-template/src/main/resources/META-INF/resources/frontend/src/vcf-toolbar-layout/src/component/vcf-toolbar-layout.js:318-351 | A wider container never leaves fewer items in the main row, across both branches. |
| ToolbarLayout.PutBackAfterCollapse | vcf-template/src/main/resources/META-INF/resources/frontend/src/vcf-toolbar-layout/src/component/vcf-toolbar-layout.js:321-322 | Expanding by one item right after a collapse brings back the last item that collapse moved out, at the end it came from. |
| ToolbarLayout.UpdateMovesNothing | vcf-template/src/main/resources/META-INF/resources/frontend/src/vcf-toolbar-layout/src/component/vcf-toolbar-layout.js:318-351 | When the chosen loop stops at once, the update leaves both containers as they are. |
| ToolbarLayout.ExpandLeavesNothingToRestore | vcf-template/src/main/resources/META-INF/resources/frontend/src/vcf-toolbar-layout/src/component/vcf-toolbar-layout.js:319-332 | After an expand, the row still takes the expand branch, and no further overflow item would fit. |
| ToolbarLayout.SecondUpdateAfterExpand | vcf-template/src/main/resources/META-INF/resources/frontend/src/vcf-toolbar-layout/src/component/vcf-toolbar-layout.js:310-355 | A second update after an expand moves nothing, whatever the button state. |
| ToolbarLayout.CollapseLeavesNothingToMove | vcf-template/src/main/resources/META-INF/resources/frontend/src/vcf-toolbar-layout/src/component/vcf-toolbar-layout.js:337-354 | After a collapse, with the button shown exactly when items overflow, the next update finds no item to restore and no item to collapse. |
| ToolbarLayout.SecondUpdateAfterCollapse | vcf-template/src/main/resources/META-INF/resources/frontend/src/vcf-toolbar-layout/src/component/vcf-toolbar-layout.js:310-355 | A second update after a collapse moves nothing, with the button state that update set. |
| ToolbarLayout.UpdateIdempotent | vcf-template/src/main/resources/META-INF/resources/frontend/src/vcf-toolbar-layout/src/component/vcf-toolbar-layout.js:310-355 | With the same geometry and a button state matching the overflow container, a second update returns the containers unchanged. |
| ToolbarLayout.MeasuredUpdateSettles | vcf-template/src/main/resources/META-INF/resources/frontend/src/vcf-toolbar-layout/src/component/vcf-toolbar-layout.js:310-355 | Both updates measured by `Measure` on the same layout, with the button shown exactly when items overflow: the second update returns the containers unchanged, unless the first update is the one that showed the button. |
| ToolbarLayout.MeasuredSecondUpdateCollapsesMore | vcf-template/src/main/resources/META-INF/resources/frontend/src/vcf-toolbar-layout/src/component/vcf-toolbar-layout.js:312-351 | The excluded case happens: four items 50 wide in a container 110 wide with a 20-wide button keep two items while the button is hidden and measures 0, and the next update, now reserving 20, keeps one. |
| ToolbarLayout.ScenarioFourItems | vcf-template/src/main/resources/META-INF/resources/frontend/src/vcf-toolbar-layout/src/component/vcf-toolbar-layout.js:337-351 | Four items 50 wide in a row from 0 to 140 with a 20-wide button keep the first two items, or the last two in reverse mode. |
| ToolbarLayout.CollapseCanEmptyRow | vcf-template/src/main/resources/META-INF/resources/frontend/src/vcf-toolbar-layout/src/component/vcf-toolbar-layout.js:337-351 | The collapse loop can empty the main row: a single item wider than the container is moved out. |
| ToolbarLayout.ExpandOrder | vcf-template/src/main/resources/META-INF/resources/frontend/src/vcf-toolbar-layout/src/component/vcf-toolbar-layout.js:321-322 | Moving the next overflow item back grows the row by one at the restoring end and keeps the logical order. |
| ToolbarLayout.ExpandRemoval | vcf-template/src/main/resources/META-INF/resources/frontend/src/vcf-toolbar-layout/src/component/vcf-toolbar-layout.js:321-331 | Detaching the next overflow item leaves the rest of the container. In normal mode, looking it up in the grown row finds it at the end. Detaching it again gives the row back. |
| ToolbarLayout.RestoredStep | vcf-template/src/main/resources/META-INF/resources/frontend/src/vcf-toolbar-layout/src/component/vcf-toolbar-layout.js:320-329 | In one pass of the expand loop, either the item fits and counting goes on from the grown row, or nothing comes back. |
| ToolbarLayout.CollapseKeptStep | vcf-template/src/main/resources/META-INF/resources/frontend/src/vcf-toolbar-layout/src/component/vcf-toolbar-layout.js:338-348 | In one pass of the collapse loop, a fitting row is kept whole, or the count is that of the row with one item fewer. |
| ToolbarLayout.CollapseOrder | vcf-template/src/main/resources/META-INF/resources/frontend/src/vcf-toolbar-layout/src/component/vcf-toolbar-layout.js:346-348 | The collapse moves out the first item in reverse mode and the last one otherwise. Either way the logical order is kept. |
| ToolbarLayout.CollapseRemoval | vcf-template/src/main/resources/META-INF/resources/frontend/src/vcf-toolbar-layout/src/component/vcf-toolbar-layout.js:338-350 | The row's last item is found at the end of the row. Detaching the collapsing item leaves the kept row. |
| ToolbarLayout.Toolbar.constructor | vcf-template/src/main/resources/META-INF/resources/frontend/src/vcf-toolbar-layout/src/component/vcf-toolbar-layout.js:173-178 | A new element has every item in the main row, an empty overflow container, reverse collapse off, no pending timer and a delay of 20. |
| ToolbarLayout.Toolbar.MoveItemToOverflowContainer | vcf-template/src/main/resources/META-INF/resources/frontend/src/vcf-toolbar-layout/src/component/vcf-toolbar-layout.js:378-389 | The item leaves the main row. It is appended to the overflow container in reverse mode and prepended otherwise. Items stay distinct. |
| ToolbarLayout.Toolbar.MoveItemToMainContainer | vcf-template/src/main/resources/META-INF/resources/frontend/src/vcf-toolbar-layout/src/component/vcf-toolbar-layout.js:390-401 | The item leaves the overflow container. It is prepended to the main row in reverse mode and appended otherwise. Items stay distinct. |
| ToolbarLayout.Toolbar.UpdateOverflowButtonState | vcf-template/src/main/resources/META-INF/resources/frontend/src/vcf-toolbar-layout/src/component/vcf-toolbar-layout.js:405-412 | The button is visible exactly when the overflow container has items. |
| ToolbarLayout.Toolbar.UpdateOverflowingItems | vcf-template/src/main/resources/META-INF/resources/frontend/src/vcf-toolbar-layout/src/component/vcf-toolbar-layout.js:310-355 | The new containers are `Update` of the old ones, with the geometry `Measure` gives for the layout and the button state before the update, so the logical order is unchanged. The button is visible exactly when items overflow. |
| ToolbarLayout.Toolbar.RestoreOverflowedItems | vcf-template/src/main/resources/META-INF/resources/frontend/src/vcf-toolbar-layout/src/component/vcf-toolbar-layout.js:319-332 | The expand loop restores exactly `Restored` items: a prefix of the overflow container, or a suffix in reverse mode, in order. |
| ToolbarLayout.Toolbar.TryRestoreItem | vcf-template/src/main/resources/META-INF/resources/frontend/src/vcf-toolbar-layout/src/component/vcf-toolbar-layout.js:320-329 | The tentative move stays exactly when the grown row fits with the button reserve. Otherwise the item goes back to where it was and both containers are unchanged. |
| ToolbarLayout.Toolbar.CollapseVisibleItems | vcf-template/src/main/resources/META-INF/resources/frontend/src/vcf-toolbar-layout/src/component/vcf-toolbar-layout.js:337-351 | The collapse loop keeps exactly `CollapseKept` items. The dropped ones go to the overflow container's near end in logical order. |
| ToolbarLayout.Toolbar.TryCollapseItem | vcf-template/src/main/resources/META-INF/resources/frontend/src/vcf-toolbar-layout/src/component/vcf-toolbar-layout.js:338-348 | An item moves exactly when the row does not fit with the reserve. The moved item is the first one (reverse) or the last one. Otherwise nothing changes. |
| ToolbarLayout.Toolbar.RequestOverflowUpdate | vcf-template/src/main/resources/META-INF/resources/frontend/src/vcf-toolbar-layout/src/component/vcf-toolbar-layout.js:299-304 | Any armed timer is replaced: exactly one timer is pending, armed with the current `updateDebounceDelay`. |
| ToolbarLayout.Toolbar.FireTimer | vcf-template/src/main/resources/META-INF/resources/frontend/src/vcf-toolbar-layout/src/component/vcf-toolbar-layout.js:303 | The pending timer runs one update, with the same effect as `UpdateOverflowingItems` (measured by `Measure` with the button state before it), and is spent. |
| ToolbarLayout.Toolbar.Disconnect | vcf-template/src/main/resources/META-INF/resources/frontend/src/vcf-toolbar-layout/src/component/vcf-toolbar-layout.js:243-246 | After disconnecting, no timer is pending. |
| SourceContentResolver.LeadingRunSpec | vcf-toolbar-layout-flow-demo/src/main/java/org/vaadin/addons/componentfactory/demo/helpers/SpringSourceContentResolver.java:182-188 | The counted run consists of class members and stops at the first non-member. |
| SourceContentResolver.SpaceRunIsSpaces | vcf-toolbar-layout-flow-demo/src/main/java/org/vaadin/addons/componentfactory/demo/helpers/SpringSourceContentResolver.java:30-37 | What the leading `\s*` consumes is `\s` characters only. |
| SourceContentResolver.MarkerMatchIff | vcf-toolbar-layout-flow-demo/src/main/java/org/vaadin/addons/componentfactory/demo/helpers/SpringSourceContentResolver.java:30-33 | A line matches a marker pattern exactly when it is `\s` characters followed by the marker text. |
| SourceContentResolver.MarkerMatchesPadded | vcf-toolbar-layout-flow-demo/src/main/java/org/vaadin/addons/componentfactory/demo/helpers/SpringSourceContentResolver.java:30-33 | Any run of `\s` characters followed by the marker matches. |
| SourceContentResolver.KindOfMatches | vcf-toolbar-layout-flow-demo/src/main/java/org/vaadin/addons/componentfactory/demo/helpers/SpringSourceContentResolver.java:109-115 | A line is classified as a begin line exactly when it matches the begin pattern, as an end line exactly when it matches the end pattern, and as neither exactly when it matches neither. |
| SourceContentResolver.EndIsNotBegin | vcf-toolbar-layout-flow-demo/src/main/java/org/vaadin/addons/componentfactory/demo/helpers/SpringSourceContentResolver.java:109-115 | No line matches both the begin and the end pattern, so the order in which the two are tried does not matter. |
| SourceContentResolver.CaptureOfPadded | vcf-toolbar-layout-flow-demo/src/main/java/org/vaadin/addons/componentfactory/demo/helpers/SpringSourceContentResolver.java:34-37 | Spaces, the prefix and a value the group accepts always match, and group 1 is that value. |
| SourceContentResolver.CaptureDecomposes | vcf-toolbar-layout-flow-demo/src/main/java/org/vaadin/addons/componentfactory/demo/helpers/SpringSourceContentResolver.java:34-37 | A matching line is spaces, the prefix and the captured value, and the group accepts that value. |
| SourceContentResolver.HeadingIsNotType | vcf-toolbar-layout-flow-demo/src/main/java/org/vaadin/addons/componentfactory/demo/helpers/SpringSourceContentResolver.java:34-37 | No line is both a heading line and a type line. |
| SourceContentResolver.NotAMarker | vcf-toolbar-layout-flow-demo/src/main/java/org/vaadin/addons/componentfactory/demo/helpers/SpringSourceContentResolver.java:30-37 | A line starting with neither a `\s` character nor '/' matches none of the four patterns. |
| SourceContentResolver.MarkerKinds | vcf-toolbar-layout-flow-demo/src/main/java/org/vaadin/addons/componentfactory/demo/helpers/SpringSourceContentResolver.java:30-33 | Fact about the sample input of the finding: the bare begin marker is classified as a begin line and the bare end marker as an end line. |
| SourceContentResolver.UnpaddedMarkerMatch | vcf-toolbar-layout-flow-demo/src/main/java/org/vaadin/addons/componentfactory/demo/helpers/SpringSourceContentResolver.java:30-33 | A line not starting with a `\s` character matches a marker pattern exactly when it is the marker. |
| SourceContentResolver.HeadingLineIsNoMarker | vcf-toolbar-layout-flow-demo/src/main/java/org/vaadin/addons/componentfactory/demo/helpers/SpringSourceContentResolver.java:30-35 | A heading line is neither a begin nor an end line. |
| SourceContentResolver.SampleHeadingMatches | vcf-toolbar-layout-flow-demo/src/main/java/org/vaadin/addons/componentfactory/demo/helpers/SpringSourceContentResolver.java:34-35 | Fact about the sample input of the finding: the unindented heading prefix followed by "A" is a heading line. |
| SourceContentResolver.LineList.constructor | vcf-toolbar-layout-flow-demo/src/main/java/org/vaadin/addons/componentfactory/demo/helpers/SpringSourceContentResolver.java:103-104 | The list handed to the scan holds the given lines. |
| SourceContentResolver.SubList.constructor | vcf-toolbar-layout-flow-demo/src/main/java/org/vaadin/addons/componentfactory/demo/helpers/SpringSourceContentResolver.java:119 | The view shows the backing lines from `startIndex + 1` up to `endIndex`, with the lines before and after it outside the window. |
| SourceContentResolver.SubList.Whole | vcf-toolbar-layout-flow-demo/src/main/java/org/vaadin/addons/componentfactory/demo/helpers/SpringSourceContentResolver.java:119 | The backing list is the lines before the window, then the window, then the lines after it. |
| SourceContentResolver.SubList.Remove | vcf-toolbar-layout-flow-demo/src/main/java/org/vaadin/addons/componentfactory/demo/helpers/SpringSourceContentResolver.java:150 | Removing through the view drops exactly the i-th window line, and drops it from the backing list too. The lines outside the window are unchanged. |
| SourceContentResolver.ValueFromPattern | vcf-toolbar-layout-flow-demo/src/main/java/org/vaadin/addons/componentfactory/demo/helpers/SpringSourceContentResolver.java:144-155 | At most one line is removed, and a value found is one the capture group accepts. |
| SourceContentResolver.ValueFromPatternFirst | vcf-toolbar-layout-flow-demo/src/main/java/org/vaadin/addons/componentfactory/demo/helpers/SpringSourceContentResolver.java:147-152 | With a first matching line at i, the value is its capture and exactly line i is removed. |
| SourceContentResolver.ValueFromPatternNone | vcf-toolbar-layout-flow-demo/src/main/java/org/vaadin/addons/componentfactory/demo/helpers/SpringSourceContentResolver.java:147-154 | The value is missing exactly when no line matches, and then the lines are untouched. |
| SourceContentResolver.ValueFromPatternSpec | vcf-toolbar-layout-flow-demo/src/main/java/org/vaadin/addons/componentfactory/demo/helpers/SpringSourceContentResolver.java:147-154 | On a match, the result is the capture of the first matching line, and exactly that line is removed, the others keeping their order. With no match, the value is missing and the list is untouched. A value is found exactly when some line matches. |
| SourceContentResolver.ValueFromPatternKeepsLines | vcf-toolbar-layout-flow-demo/src/main/java/org/vaadin/addons/componentfactory/demo/helpers/SpringSourceContentResolver.java:150 | The lines left are lines of the input (multiset inclusion). |
| SourceContentResolver.RemovingOtherLineKeepsValue | vcf-toolbar-layout-flow-demo/src/main/java/org/vaadin/addons/componentfactory/demo/helpers/SpringSourceContentResolver.java:147-152 | Removing a line that does not match a pattern does not change what a search for that pattern captures. |
| SourceContentResolver.RemovingFirstMatchKeepsOtherValue | vcf-toolbar-layout-flow-demo/src/main/java/org/vaadin/addons/componentfactory/demo/helpers/SpringSourceContentResolver.java:129-134 | When no line matches both patterns, removing the first line of one pattern does not change what the other captures. |
| SourceContentResolver.TypeUnaffectedByHeading | vcf-toolbar-layout-flow-demo/src/main/java/org/vaadin/addons/componentfactory/demo/helpers/SpringSourceContentResolver.java:129-134 | The type found after the heading line is removed is the one a search of the whole block finds. |
| SourceContentResolver.ParseValueFromPattern | vcf-toolbar-layout-flow-demo/src/main/java/org/vaadin/addons/componentfactory/demo/helpers/SpringSourceContentResolver.java:144-155 | The value returned and the view's new window are `ValueFromPattern` of the old window. The backing lines outside the window are unchanged. |
| SourceContentResolver.GetWhitespaceCountAtStart | vcf-toolbar-layout-flow-demo/src/main/java/org/vaadin/addons/componentfactory/demo/helpers/SpringSourceContentResolver.java:180-189 | The count n satisfies 0 <= n <= length. The first n characters are whitespace (Character.isWhitespace), and character n, if any, is not. |
| SourceContentResolver.MinIndentIsLowerBound | vcf-toolbar-layout-flow-demo/src/main/java/org/vaadin/addons/componentfactory/demo/helpers/SpringSourceContentResolver.java:159-168 | The minimum indent is at most the indent of every non-empty line. |
| SourceContentResolver.MinIndentIsAttained | vcf-toolbar-layout-flow-demo/src/main/java/org/vaadin/addons/componentfactory/demo/helpers/SpringSourceContentResolver.java:159-168 | Some non-empty line has exactly the minimum indent. With no non-empty line, the minimum stays Integer.MAX_VALUE. |
| SourceContentResolver.TrimLines | vcf-toolbar-layout-flow-demo/src/main/java/org/vaadin/addons/componentfactory/demo/helpers/SpringSourceContentResolver.java:169-177 | The trimmed list has one line per input line. |
| SourceContentResolver.TrimLinesAt | vcf-toolbar-layout-flow-demo/src/main/java/org/vaadin/addons/componentfactory/demo/helpers/SpringSourceContentResolver.java:170-176 | Line j of the result is "" for an empty line, and otherwise the line with its first m characters cut off. |
| SourceContentResolver.TrimIndent | vcf-toolbar-layout-flow-demo/src/main/java/org/vaadin/addons/componentfactory/demo/helpers/SpringSourceContentResolver.java:157-178 | Trimming keeps the number of lines. |
| SourceContentResolver.TrimIndentStripsCommonIndent | vcf-toolbar-layout-flow-demo/src/main/java/org/vaadin/addons/componentfactory/demo/helpers/SpringSourceContentResolver.java:157-178 | The result has the same length. Empty lines become "". Every other line loses exactly the minimum indent, all of it whitespace, and the rest is kept. |
| SourceContentResolver.TrimIndentLeavesOneLineFlush | vcf-toolbar-layout-flow-demo/src/main/java/org/vaadin/addons/componentfactory/demo/helpers/SpringSourceContentResolver.java:159-176 | With some non-empty line, some non-empty line keeps no leading whitespace after trimming: it is cut to "" or starts with a non-whitespace character. |
| SourceContentResolver.TrimIndentFlushWithoutBlankLines | vcf-toolbar-layout-flow-demo/src/main/java/org/vaadin/addons/componentfactory/demo/helpers/SpringSourceContentResolver.java:159-176 | When no non-empty line is all whitespace, some trimmed line starts with a non-whitespace character. |
| SourceContentResolver.TrimWhitespaceAtStart | vcf-toolbar-layout-flow-demo/src/main/java/org/vaadin/addons/componentfactory/demo/helpers/SpringSourceContentResolver.java:157-178 | The two loops compute `TrimIndent` of the lines. |
| SourceContentResolver.NewlineIndex | vcf-toolbar-layout-flow-demo/src/main/java/org/vaadin/addons/componentfactory/demo/helpers/SpringSourceContentResolver.java:140 | The position found holds the first "\n" of the text. |
| SourceContentResolver.SplitLines | vcf-toolbar-layout-flow-demo/src/main/java/org/vaadin/addons/componentfactory/demo/helpers/SpringSourceContentResolver.java:140 | Splitting any text at "\n" gives at least one piece. |
| SourceContentResolver.SplitJoin | vcf-toolbar-layout-flow-demo/src/main/java/org/vaadin/addons/componentfactory/demo/helpers/SpringSourceContentResolver.java:140 | Joining lines without "\n" with "\n" and splitting again gives the lines back. |
| SourceContentResolver.JoinSplit | vcf-toolbar-layout-flow-demo/src/main/java/org/vaadin/addons/componentfactory/demo/helpers/SpringSourceContentResolver.java:140 | Splitting any text and joining the pieces with "\n" gives the text back. |
| SourceContentResolver.ParseExample | vcf-toolbar-layout-flow-demo/src/main/java/org/vaadin/addons/componentfactory/demo/helpers/SpringSourceContentResolver.java:127-142 | Parsing a block never adds lines to it. |
| SourceContentResolver.ParseExampleTypeIsValid | vcf-toolbar-layout-flow-demo/src/main/java/org/vaadin/addons/componentfactory/demo/helpers/SpringSourceContentResolver.java:132-134 | The type is UNDEFINED or a non-empty word of capitals. |
| SourceContentResolver.ParseExampleValues | vcf-toolbar-layout-flow-demo/src/main/java/org/vaadin/addons/componentfactory/demo/helpers/SpringSourceContentResolver.java:129-134 | The heading is the capture of the first heading line, and is missing exactly when there is none. The type is UNDEFINED when no line is a type line, and otherwise the capture of the first type line. |
| SourceContentResolver.TrimmedLinesSplitBack | vcf-toolbar-layout-flow-demo/src/main/java/org/vaadin/addons/componentfactory/demo/helpers/SpringSourceContentResolver.java:139-140 | Trimmed lines without "\n", once joined, split back into exactly those lines. |
| SourceContentResolver.SourceCodeSplitsIntoTrimmedLines | vcf-toolbar-layout-flow-demo/src/main/java/org/vaadin/addons/componentfactory/demo/helpers/SpringSourceContentResolver.java:136-140 | When some line is left after the heading and type lines are removed, an example's source text splits back into those lines, trimmed of their common indent. With no line left the text is "", which splits into one empty line. |
| SourceContentResolver.ParseSourceCodeExample | vcf-toolbar-layout-flow-demo/src/main/java/org/vaadin/addons/componentfactory/demo/helpers/SpringSourceContentResolver.java:127-142 | The example is `ParseExample` of the view's old window. The window loses the heading and type lines, and the backing lines outside it are unchanged. |
| SourceContentResolver.ParseBlock | vcf-toolbar-layout-flow-demo/src/main/java/org/vaadin/addons/componentfactory/demo/helpers/SpringSourceContentResolver.java:118-119 | Parsing the body between the markers through a view gives `ParseExample` of the body. The backing list becomes its lines up to the begin marker, then the body's remaining lines, then the lines from the end marker on. |
| SourceContentResolver.ResumeEmitStep | vcf-toolbar-layout-flow-demo/src/main/java/org/vaadin/addons/componentfactory/demo/helpers/SpringSourceContentResolver.java:116-122 | When the markers become ready, the scan's result is the example just parsed followed by the scan of the shortened list from the next index, with both markers reset. |
| SourceContentResolver.ResumeSkipStep | vcf-toolbar-layout-flow-demo/src/main/java/org/vaadin/addons/componentfactory/demo/helpers/SpringSourceContentResolver.java:108-116 | A line that does not complete a block only updates the markers. |
| SourceContentResolver.ParseSourceCodeExamples | vcf-toolbar-layout-flow-demo/src/main/java/org/vaadin/addons/componentfactory/demo/helpers/SpringSourceContentResolver.java:103-125 | The examples returned, and the list left behind, are those of `ScanInPlace`: the scan as written, with removals through the view shortening the scanned list. |
| SourceContentResolver.BlocksWellFormed | vcf-toolbar-layout-flow-demo/src/main/java/org/vaadin/addons/componentfactory/demo/helpers/SpringSourceContentResolver.java:108-122 | Every block lies strictly between a begin line and a later end line, with at least one line and no other begin line in between. Blocks come out in source order without overlapping. |
| SourceContentResolver.BlocksAtMostEndMarkers | vcf-toolbar-layout-flow-demo/src/main/java/org/vaadin/addons/componentfactory/demo/helpers/SpringSourceContentResolver.java:112-122 | There are at most as many blocks as end marker lines. |
| SourceContentResolver.BlocksComplete | vcf-toolbar-layout-flow-demo/src/main/java/org/vaadin/addons/componentfactory/demo/helpers/SpringSourceContentResolver.java:108-122 | A begin line and a later end line with at least one line and no marker line between them always give a block. |
| SourceContentResolver.ExamplesOf | vcf-toolbar-layout-flow-demo/src/main/java/org/vaadin/addons/componentfactory/demo/helpers/SpringSourceContentResolver.java:118-119 | There is one example per block. |
| SourceContentResolver.ExtractExamples | vcf-toolbar-layout-flow-demo/src/main/java/org/vaadin/addons/componentfactory/demo/helpers/SpringSourceContentResolver.java:103-125 | The copying scan gives one example per block. |
| SourceContentResolver.ExtractExamplesAt | vcf-toolbar-layout-flow-demo/src/main/java/org/vaadin/addons/componentfactory/demo/helpers/SpringSourceContentResolver.java:116-119 | The k-th example is parsed from the lines strictly between the k-th block's markers, and that block is well formed. |
| SourceContentResolver.ScanInPlaceFromKeepingLines | vcf-toolbar-layout-flow-demo/src/main/java/org/vaadin/addons/componentfactory/demo/helpers/SpringSourceContentResolver.java:108-122 | When the parser removes nothing, the in-place scan leaves the list unchanged and finds the examples of the blocks. |
| SourceContentResolver.ScanInPlaceAgreesWithoutValueLines | vcf-toolbar-layout-flow-demo/src/main/java/org/vaadin/addons/componentfactory/demo/helpers/SpringSourceContentResolver.java:103-125 | Without heading or type lines, the scan as written returns exactly the copying scan's examples and leaves the list unchanged. |
| SourceContentResolver.HeadedBlockParse | vcf-toolbar-layout-flow-demo/src/main/java/org/vaadin/addons/componentfactory/demo/helpers/SpringSourceContentResolver.java:129-134 | Fact about the sample input of the finding: in a block of a heading line and one other line, the heading line is removed and the other stays. |
| SourceContentResolver.SkipsBlockAfterRemoval | vcf-toolbar-layout-flow-demo/src/main/java/org/vaadin/addons/componentfactory/demo/helpers/SpringSourceContentResolver.java:108-122 | For any classifier and parser, seven lines with two blocks, where the parser removes a line of the first block, give one example from the in-place scan but two blocks from the copying scan. |
| SourceContentResolver.CopyScanIsExamplesOfBlocks | vcf-toolbar-layout-flow-demo/src/main/java/org/vaadin/addons/componentfactory/demo/helpers/SpringSourceContentResolver.java:108-122 | The examples of the blocks from line i on are those of a single pass that keeps the body of the open block as a copy: a begin line opens an empty body, an end line closing a non-empty body emits its parse, any other line extends the body. |
| SourceContentResolver.ExtractExamplesIsCopyScan | vcf-toolbar-layout-flow-demo/src/main/java/org/vaadin/addons/componentfactory/demo/helpers/SpringSourceContentResolver.java:103-125 | The copying scan over a file is that single pass started with no open block. |
| SourceContentResolver.CopyScanDropIsSuffix | vcf-toolbar-layout-flow-demo/src/main/java/org/vaadin/addons/componentfactory/demo/helpers/SpringSourceContentResolver.java:108-122 | Dropping lines from the front of the rest of the input, with no block open, leaves examples that are a suffix of the examples found before. |
| SourceContentResolver.ScanInPlaceFromIsSubsequence | vcf-toolbar-layout-flow-demo/src/main/java/org/vaadin/addons/componentfactory/demo/helpers/SpringSourceContentResolver.java:103-125 | From any line, with markers that do not yet form a block, for any classifier and any parser that never adds lines, the examples of the scan as written are a subsequence of those of the single copying pass over the same lines and open block. |
| SourceContentResolver.ScanInPlaceIsSubsequence | vcf-toolbar-layout-flow-demo/src/main/java/org/vaadin/addons/componentfactory/demo/helpers/SpringSourceContentResolver.java:103-125 | The examples of the scan as written are a subsequence of those of the corrected copying scan: removing heading and type lines can only make it skip examples, never invent, reorder or change one. |
| SourceContentResolver.ScanInPlaceAtMostEndMarkers | vcf-toolbar-layout-flow-demo/src/main/java/org/vaadin/addons/componentfactory/demo/helpers/SpringSourceContentResolver.java:103-125 | The scan as written finds at most as many examples as the file has end marker lines. |
| SourceContentResolver.ScanInPlaceSkipsExample | vcf-toolbar-layout-flow-demo/src/main/java/org/vaadin/addons/componentfactory/demo/helpers/SpringSourceContentResolver.java:108-150 | A headed example followed by a second example gives one example from the scan as written and two from the copying scan. |
| SourceContentResolver.ReplaceCharRoundTrip | vcf-toolbar-layout-flow-demo/src/main/java/org/vaadin/addons/componentfactory/demo/helpers/SpringSourceContentResolver.java:76 | Replacing '.' by '/' and back restores a name without '/', and the replaced name holds no '.'. |
| SourceContentResolver.ResourcePath | vcf-toolbar-layout-flow-demo/src/main/java/org/vaadin/addons/componentfactory/demo/helpers/SpringSourceContentResolver.java:74-77 | The path is the package name with no '.' left, then '/', then the simple name followed by ".java"; its length is the two lengths plus 6. |
| SourceContentResolver.ResourcePathInjective | vcf-toolbar-layout-flow-demo/src/main/java/org/vaadin/addons/componentfactory/demo/helpers/SpringSourceContentResolver.java:74-77 | The path is the package with '.' replaced by '/', then "/", the simple name and ".java". Classes whose names have no '/' get different paths. |

## Left out

- Pixel measurement (`getBoundingClientRect`) is replaced by natural-number widths and prefix sums. Floating point and padding are not modelled. An item's width is how far it moves the right edge of the row, so the gap between items is part of it. Only the button reserve is the button's own width without a gap, as in the source (the comment at line 312 of the element).
- The geometry of one update is fixed. The code measures the overflow button once, and its `visible` class changes only after the items have moved, so neither its width nor the row's left edge changes during an update. `Measure` derives the geometry from a `Box` (the container's right edge, the left edge of the row, the button's rendered width, and how far a shown button placed first pushes the row: its width plus the host's gap) and the button state. The shift is a number of its own; the model does not derive it from the CSS. The `Box` itself is a parameter: a layout that changes between two updates is not modelled.
- ToolbarLayout.UpdateIdempotent holds for one fixed `Geometry`. Two updates measured by the element can see different geometries, because the button's measured width and position depend on its state; `MeasuredUpdateSettles` states what still holds then.
- ToolbarLayout.SecondUpdateAfterCollapse holds for one fixed `Geometry`, for the same reason.
- ToolbarLayout.SecondUpdateAfterExpand holds for one fixed `Geometry`, for the same reason.
- ToolbarLayout.CollapseLeavesNothingToMove holds for one fixed `Geometry`, for the same reason.
- `_getVisibleItems` and `_getOverflowedItems` are the two `seq` fields. Children of the host that sit in other slots are not distinguished.
- `setTimeout`, `clearTimeout` and the `ResizeObserver` are modelled as the `pending` flag, the `armedDelay` of the armed timer and explicit calls to `FireTimer`. Elapsed time is not modelled.
- The `setTimeout(…, 0)` of `firstUpdated` is left out. It is the same update run once after the first render.
- The CSS text, style injection and removal, the popover, `render` and `firstUpdated` wiring, and `console.log` calls are not modelled.
- ToolbarLayout.Toolbar.IsOverflowButtonVisible reads the button's state. It has no contract of its own; `TryCollapseItem` uses it.
- `ToolbarLayout.java`, the Vaadin server-side binding, is not part of this model. Nor are the variant enums, the type declarations or the demo view.
- Reading the resource through the class loader, the existence check and its exception in `getResourcePath`, and `isAvailable` are left out as I/O. The `ConcurrentHashMap` cache and `Collections.unmodifiableList` are left out too.
- `SourceType.valueOf` is not modelled: the type is the captured name, or "UNDEFINED". An unknown capital-letter name, which throws in Java, is not told apart.
- The value providers are applied after capture. The model returns the captured string, with the heading's `Function.identity()` and the null default as `Option`.
- Lines are never null: they come from `BufferedReader.lines()`. The null branches of `trimWhitespaceAtStart` coincide with the empty-line branches.
- Strings are sequences of Dafny `char`, which are Unicode scalar values, while Java's `charAt` returns UTF-16 code units: a character outside the Basic Multilingual Plane is one `char` here and two in Java. No count in the model depends on this, because every character that `\s` or `Character.isWhitespace` accepts lies in that plane and a surrogate is not whitespace. Character encoding and decoding when the file is read are not modelled.
- SourceContentResolver.MinIndentIsAttained requires every line to be at most Integer.MAX_VALUE characters long, which any Java string is.
- SourceContentResolver.TrimIndentLeavesOneLineFlush has the same line-length requirement, for the same reason.
- SourceContentResolver.TrimIndentFlushWithoutBlankLines has the same line-length requirement, for the same reason.
- SourceContentResolver.ParseBlock is a method of its own for the body of the `if` at lines 116-122. It exists to keep the proof of the scan small and changes nothing in behaviour.

Behaviour of the code a reader may not expect:
- The collapse loop can empty the main row (`CollapseCanEmptyRow`).
- The element's default debounce delay is 20 ms (lines 173-178 of the element), while the server-side getter `ToolbarLayout.getUpdateDebounceDelay` falls back to 0 (line 69 of `ToolbarLayout.java`).
- A delay of 0 still goes through `setTimeout`, so the update never runs synchronously.
- The reserve is the measured button width, which is 0 while the button is hidden. The collapse loop of reverse mode drops the reserve while the button is shown.
- Items are moved one at a time from the current containers; no partition is planned from scratch.

## Findings

| source | as written | input that shows it | evidently intended | confidence | as-written member | corrected member |
|---|---|---|---|---|---|---|
| vcf-toolbar-layout-flow-demo/src/main/java/org/vaadin/addons/componentfactory/demo/helpers/SpringSourceContentResolver.java:108-150 | `parseValueFromPattern` removes the heading and type lines through the `subList` view, which shortens the scanned list. The scan index `i` is not moved back, so the lines shift under it and the line after an end marker is skipped; a begin marker there is lost with its whole example. | The seven lines `// begin-source-example`, `// source-example-heading: A`, `a`, `// end-source-example`, `// begin-source-example`, `b`, `// end-source-example` give one example, although they hold two blocks. | Every block between a begin marker and the next end marker gives an example, whatever lines its parse removes. | not executed; follows from the proved lemmas | SourceContentResolver.ScanInPlaceSkipsExample | SourceContentResolver.ExtractExamples |

`ScanInPlace` and the method `ParseSourceCodeExamples` model the scan as written. `SkipsBlockAfterRemoval` and `ScanInPlaceSkipsExample` show the skip. `ScanInPlaceIsSubsequence` bounds the damage: the scan as written only ever drops examples of the corrected scan. The lines of the sample input are classified by `MarkerKinds`, `NotAMarker` and `SampleHeadingMatches`.

`ExtractExamples` is the corrected scan: it parses a copy of each block's body over the unchanged list. `BlocksWellFormed`, `BlocksComplete`, `BlocksAtMostEndMarkers` and `ExtractExamplesAt` prove its intended properties. `ScanInPlaceAgreesWithoutValueLines` shows that the two scans agree when no heading or type line is removed.
