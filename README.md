# Skylines and UI value types

This project models two parts of MuseScore in Dafny.

**The skyline collision envelope** (`skyline.h`, `skyline.cpp` in `src/engraving/libmscore`).
Layout uses it to keep elements from colliding.
- A `SkylineLine` is a list of segments `(x, y, w)`. The north line traces the top edges of everything added to it. The south line traces the bottom edges.
- `add` makes the line more extreme wherever a new span is more extreme: lower `y` on the north line, higher `y` on the south line.
- `minDistance` measures how far one skyline has to sit below another.
- A `Skyline` owns one north and one south line.

**The plain data logic of the UI types** (`src/framework/ui/uitypes.h`):
- theme-code classification;
- first-match lookup in an action list;
- equality of actions, action states and tool-bar items;
- the validity predicates.

Coordinates are `real`. MAXIMUM_Y (1e6), MINIMUM_Y (-1e6) and the sliver tolerance 1e-7 are named constants.

The model has five files:
- `skyline_geometry.dfy` (module `SkylineGeometry`): segments and the height a line reports at a point. It also holds `AddSpec`, an independent reference for what `add` produces: every old segment split where the span is more extreme, then the part of the span past the old end appended.
- `skyline_laws.dfy` (module `SkylineLaws`): what `AddSpec` does to heights and structure. It also holds the lemmas that connect `add`'s loop to `AddSpec`, `InsideCut` and `RightCut` (the cuts cases E and D actually perform, 1e-7 slivers included), the whole-number grid on which `add` is always exact, shapes, and the extreme height of a line.
- `skyline_clearance.dfy` (module `SkylineClearance`): `Clearance`, the specification of `minDistance`. It also relates `Clearance` to heights.
- `skyline.dfy` (module `Skylines`): the classes `SkylineLine` and `Skyline`. Their methods follow the source's loops, and each is proved against the functions above.
- `uitypes.dfy` (module `UiTypes`): the UI types as datatypes and functions.

Where the source takes a `RectF` or a `Shape`, the model takes a `Rect(x, top, bottom, width)` and a sequence of them.

## Model

| member | source | states |
|---|---|---|
| Skylines.SkylineLine.constructor | src/engraving/libmscore/skyline.h:55-69 | a new line has the given direction and no segments; the direction is a constant that nothing changes |
| Skylines.SkylineLine.Clear | src/engraving/libmscore/skyline.h:73 | clear empties the segment list and leaves the direction as it is |
| Skylines.SkylineLine.IsNorth | src/engraving/libmscore/skyline.h:80 | isNorth() is the direction, which decides the sentinel: MAXIMUM_Y for north, MINIMUM_Y for south |
| Skylines.SkylineLine.HasSegments | src/engraving/libmscore/skyline.cpp:304-307 | valid() is false only for an empty line, which reports the sentinel everywhere; on a contiguous line it is true exactly when the line covers a positive width |
| Skylines.SkylineLine.Find | src/engraving/libmscore/skyline.cpp:83-90 | the upper_bound search returns the last segment whose x is at most x, or the first segment; later segments start after x |
| Skylines.SkylineLine.Insert | src/engraving/libmscore/skyline.cpp:59-68 | the new segment goes before position i; the segment that was at i moves right to start at x + w when it started earlier, and otherwise stays as it was |
| Skylines.SkylineLine.Append | src/engraving/libmscore/skyline.cpp:74-77 | the new segment is added at the end and nothing else changes |
| Skylines.SkylineLine.SplitInside | src/engraving/libmscore/skyline.cpp:152-172 | case E at a cursor: the segment becomes InsideCut, i.e. its left remainder, the span at height y and its right remainder, where a remainder of at most 1e-7 is not kept (without a left remainder the segment itself takes the span's height and width and keeps its start); for a sliver-free span this is exactly Pieces |
| Skylines.SkylineLine.SplitLeft | src/engraving/libmscore/skyline.cpp:176-181 | case C: a span that starts before a segment and ends inside it takes that segment's left part |
| Skylines.SkylineLine.SplitRight | src/engraving/libmscore/skyline.cpp:182-192 | case D at a cursor: the segment becomes RightCut, i.e. its part left of x and the part from x on at height y, or it stays as it was when that part is at most 1e-7 wide; the returned cursor is the last piece and ends where the segment ended; for a sliver-free span this is exactly Pieces |
| Skylines.SkylineLine.AddAt | src/engraving/libmscore/skyline.cpp:139-193 | one pass of add's loop stops on case A, E or C and otherwise moves the cursor on by the width of the segment it leaves |
| Skylines.SkylineLine.AddTail | src/engraving/libmscore/skyline.cpp:195-205 | past the old end add appends a sentinel filler up to x and then the span, or it appends the overhang of the span |
| Skylines.SkylineLine.Add | src/engraving/libmscore/skyline.cpp:124-206 | a span clipped away at 0 leaves the line unchanged; on a line contiguous from 0 and a span that leaves no remainder in (0, 1e-7] against any segment it overlaps, the result is exactly AddSpec |
| SkylineLaws.AddSpecChain | src/engraving/libmscore/skyline.cpp:137-205 | after add the line is still contiguous from 0 with positive widths, and it reaches the span's right edge when that lies further |
| SkylineLaws.AddSpecHeight | src/engraving/libmscore/skyline.cpp:137-205 | after add the height inside the span is the more extreme of the old height and y, or y past the old end; outside the span it is the old height |
| SkylineLaws.AddSpecExtremeLaw | src/engraving/libmscore/skyline.cpp:148-205 | for a height within the sentinels, the new height is Ext(old height, y) on the span and the old height everywhere else |
| SkylineLaws.AddSpecDominatedNoOp | src/engraving/libmscore/skyline.cpp:148-151 | a span whose every overlapped segment already dominates y, and that ends inside the line, changes nothing |
| SkylineLaws.AddSpecIdempotent | src/engraving/libmscore/skyline.cpp:148-151 | adding the same span and height a second time changes nothing |
| SkylineLaws.ChainSorted | src/engraving/libmscore/skyline.cpp:83-90 | a contiguous line is sorted by x, as find's upper_bound requires |
| SkylineLaws.AddBegin | src/engraving/libmscore/skyline.cpp:137-138 | add's loop starts at the segment find returns; the segments before it are left alone, and cx is their total width |
| SkylineLaws.AddAdvance | src/engraving/libmscore/skyline.cpp:139-193 | each pass of add's loop replaces one more old segment by its pieces, or stops with exactly AddSpec |
| SkylineLaws.AddEndTail | src/engraving/libmscore/skyline.cpp:195-205 | when the loop runs off the end, every old segment has been merged, and appending the tail gives AddSpec |
| SkylineLaws.PiecesInside | src/engraving/libmscore/skyline.cpp:152-172 | for a span with no remainder in (0, 1e-7], the cut of case E is the reference Pieces: left remainder, span, right remainder, the right one wider than 1e-7 |
| SkylineLaws.InsideCutSlivers | src/engraving/libmscore/skyline.cpp:157-172 | a left remainder in (0, 1e-7] puts the span's height at the segment's own start instead of x; a right remainder in (0, 1e-7] leaves the cut narrower than the segment; with either, the cut differs from Pieces |
| SkylineLaws.PiecesCovered | src/engraving/libmscore/skyline.cpp:173-175 | case F: a covered segment takes the new height and keeps its extent |
| SkylineLaws.PiecesLeftPart | src/engraving/libmscore/skyline.cpp:176-181 | case C: the overlap at the new height comes first, then the rest of the segment at its old height |
| SkylineLaws.PiecesRightPart | src/engraving/libmscore/skyline.cpp:182-192 | for a span with no overlap in (0, 1e-7], the cut of case D is the reference Pieces: the left part kept and the overlap at the new height |
| SkylineLaws.RightCutSliver | src/engraving/libmscore/skyline.cpp:183-192 | an overlap in (0, 1e-7] that y is more extreme than keeps the old segment and its height, so the cut differs from Pieces |
| SkylineLaws.GridExact | src/engraving/libmscore/skyline.cpp:157-185 | on a whole-number line every whole-number span is free of 1e-7 remainders, so add is exact |
| SkylineLaws.SplitExample | src/engraving/libmscore/skyline.cpp:152-172 | adding (3, 5, 4) to the north line (0, 10, 10) gives (0, 10, 3), (3, 5, 4), (7, 10, 3) |
| SkylineLaws.FillerExample | src/engraving/libmscore/skyline.cpp:195-202 | adding a span past the end of a north line first appends a MAXIMUM_Y filler over the gap |
| Skylines.SkylineLine.AddRect | src/engraving/libmscore/skyline.cpp:108-115 | adding a rectangle adds its span at the top edge on the north line and at the bottom edge on the south line |
| Skylines.SkylineLine.AddShape | src/engraving/libmscore/skyline.cpp:101-106 | the shape's rectangles are added in order; when each is exact, the line is AddShapeSpec and its height at every point is the extreme of the old height and every rectangle covering that point |
| SkylineLaws.AddShapeLaw | src/engraving/libmscore/skyline.cpp:101-106 | after a whole shape the line is contiguous, and its height is pointwise the extreme of the old height and the covering rectangles |
| SkylineLaws.AddShapeOrderFree | src/engraving/libmscore/skyline.cpp:101-106 | two shapes holding the same rectangles, in any order and with any repeats, leave the same heights |
| SkylineLaws.ShapeGridExact | src/engraving/libmscore/skyline.cpp:101-106 | a whole-number shape added to a whole-number line is exact at every step |
| Skylines.SkylineLine.Max | src/engraving/libmscore/skyline.cpp:341-356 | max() folds every height into the side's sentinel with qMin (north) or qMax (south); this is Extreme, which dominates every height and equals the sentinel or one of them |
| SkylineLaws.Valid | src/engraving/libmscore/skyline.cpp:309-312 | valid(segment) is true exactly when the height is not the side's sentinel: not MAXIMUM_Y on the north line, not MINIMUM_Y on the south line |
| SkylineLaws.ExtremeOfHeights | src/engraving/libmscore/skyline.cpp:304-356 | on a contiguous line within the sentinels, max() dominates the height at every point and is the height at some point; it differs from the sentinel exactly when some segment is valid(s) |
| Skylines.SkylineLine.MinDistance | src/engraving/libmscore/skyline.cpp:229-264 | the sweep returns at least MINIMUM_Y, and exactly MINIMUM_Y when either line is empty; for widths that are not negative it returns Clearance |
| Skylines.SweepRow | src/engraving/libmscore/skyline.cpp:244-257 | the inner loop visits every segment of the other line that overlaps segment i; when the other line runs out, no later segment overlaps anything |
| SkylineClearance.ClearanceUnique | src/engraving/libmscore/skyline.cpp:229-264 | Clearance is the only value that is at least MINIMUM_Y, bounds every overlapping height difference, and is MINIMUM_Y or one of those differences |
| SkylineClearance.PrefixClearance | src/engraving/libmscore/skyline.cpp:236-262 | the maximum over the first n segments of this line bounds each of their overlapping differences and is attained by one of them or is MINIMUM_Y |
| SkylineClearance.ClearancePointwise | src/engraving/libmscore/skyline.cpp:224-264 | for contiguous lines, Clearance is the largest vertical gap between the two heights over the range both lines cover |
| SkylineClearance.ClearanceAfterAddAbove | src/engraving/libmscore/skyline.cpp:224-264 | adding a span to the upper skyline's south line never lowers the clearance |
| SkylineClearance.ClearanceAfterAddBelow | src/engraving/libmscore/skyline.cpp:224-264 | adding a span to the lower skyline's north line never lowers the clearance |
| Skylines.Skyline.constructor | src/engraving/libmscore/skyline.h:92-110 | a skyline owns two distinct, empty lines: north with direction true and south with direction false |
| Skylines.Skyline.Add | src/engraving/libmscore/skyline.cpp:49-53 | the top edge goes to the north line and the bottom edge to the south line, each exactly AddSpec when exact |
| Skylines.Skyline.AddShape | src/engraving/libmscore/skyline.cpp:117-122 | every rectangle of the shape goes to both lines in order |
| Skylines.Skyline.Clear | src/engraving/libmscore/skyline.cpp:212-216 | both lines are emptied |
| Skylines.Skyline.MinDistance | src/engraving/libmscore/skyline.cpp:224-227 | the distance is measured from this skyline's south line to the other skyline's north line |
| UiTypes.AllStandardThemeCodes | src/framework/ui/uitypes.h:45-58 | the list holds exactly the four standard codes in the order light, dark, high_contrast_white, high_contrast_black, each once |
| UiTypes.IsDarkTheme | src/framework/ui/uitypes.h:60-64 | only a standard code can be dark, and neither light nor high_contrast_white is |
| UiTypes.IsHighContrastTheme | src/framework/ui/uitypes.h:66-70 | only a standard code can be high contrast, and neither light nor dark is |
| UiTypes.ThemeClassification | src/framework/ui/uitypes.h:60-70 | light is neither dark nor high contrast, dark is only dark, high_contrast_white is only high contrast, and high_contrast_black is both; a standard theme is determined by the two answers |
| UiTypes.NonStandardThemeIsPlain | src/framework/ui/uitypes.h:60-70 | a code outside the standard list is neither dark nor high contrast |
| UiTypes.EqualsAsWritten | src/framework/ui/uitypes.h:233-242 | operator== as written holds exactly when two actions agree on everything except their shortcuts |
| UiTypes.ShortcutsIgnored | src/framework/ui/uitypes.h:241 | two different actions that differ only in one added shortcut compare equal under operator== as written |
| UiTypes.Equals | src/framework/ui/uitypes.h:233-242 | operator== with the shortcuts compared to the other action's holds exactly when the actions are equal |
| UiTypes.EqualsRefinesAsWritten | src/framework/ui/uitypes.h:233-242 | the corrected equality implies the written one, and the two differ only on the shortcuts |
| UiTypes.IsValid | src/framework/ui/uitypes.h:211-214 | an action is valid exactly when its code is not empty |
| UiTypes.IndexFrom | src/framework/ui/uitypes.h:262-271 | the loop from position i returns the first position at or after i whose action has the code, or none when no such position exists |
| UiTypes.IndexOf | src/framework/ui/uitypes.h:262-271 | indexOf returns the smallest index whose action has the code, or none exactly when no action has it |
| UiTypes.Contains | src/framework/ui/uitypes.h:254-260 | contains is true exactly when some action has the code |
| UiTypes.ContainsAgreesWithIndexOf | src/framework/ui/uitypes.h:254-271 | contains is true exactly when indexOf returns a value |
| UiTypes.IndexOfAppend | src/framework/ui/uitypes.h:262-271 | appending actions behind the list does not move a match that indexOf already finds |
| UiTypes.ValidActionsMissEmptyCode | src/framework/ui/uitypes.h:211-214 | in a list of valid actions no action has the empty code, so indexOf and contains do not find it |
| UiTypes.StateEquals | src/framework/ui/uitypes.h:279-282 | comparing the two flags is equality of the states |
| UiTypes.StateNotEquals | src/framework/ui/uitypes.h:284-287 | operator!= is the negation of equality |
| UiTypes.MakeDisabled | src/framework/ui/uitypes.h:289-292 | make_disabled gives a state that is not enabled and keeps the given checked flag, which defaults to false |
| UiTypes.MakeEnabled | src/framework/ui/uitypes.h:294-297 | make_enabled gives an enabled state that keeps the given checked flag, which defaults to false |
| UiTypes.FactoriesCoverStates | src/framework/ui/uitypes.h:289-297 | every state is make_enabled or make_disabled of its own checked flag, no enabled state equals a disabled one, make_enabled is one-to-one, and both give an unchecked state when called without an argument |
| UiTypes.ItemEquals | src/framework/ui/uitypes.h:324-328 | comparing action and visibility is equality of the items |
| UiTypes.IsSeparator | src/framework/ui/uitypes.h:319-322 | an item is a separator exactly when its action code is empty |
| UiTypes.ToolConfigIsValid | src/framework/ui/uitypes.h:333 | a tool configuration is valid exactly when it has at least one item |
| UiTypes.SeparatorNamesNoAction | src/framework/ui/uitypes.h:211-214 | a separator's empty action code is not found in a list of valid actions, and no action with that code is valid |
| UiTypes.ToolConfigValidity | src/framework/ui/uitypes.h:333 | a tool configuration is invalid exactly when it has no items, and adding an item makes it valid |

## Left out

- `paint` and `dump` (skyline.cpp:266-302, 318-335) and the `DP` debug macro: drawing and printf output, not layout logic.
- IEEE rounding: coordinates are exact reals. The 1e-7 tolerance is kept as a named constant where the code compares against it.
- `Shape` and `RectF` are not part of this model. A rectangle is `(x, top, bottom, width)` and a shape is a sequence of rectangles in iteration order.
- The `north()` and `south()` accessors and `begin()`/`end()` are the constant fields `north`/`south` and the sequence `seg` themselves, so they have no separate members.
- Skylines.SkylineLine.Add: the result is stated only for lines that are contiguous from 0 with positive widths, and for spans that are `Exact`. A span clipped away at 0 is covered for every line. Positivity of widths is not stated for arbitrary lines; under these conditions it follows from `AddSpecChain`.
- Skylines.SkylineLine.Add: `Exact` rules out every span that leaves a remainder in (0, 1e-7] against any segment it overlaps. That includes segments that already dominate y, which add skips unchanged (skyline.cpp:148-151), so for those the condition is stronger than the code needs.
- Skylines.SkylineLine.Add: each kind of sliver has its own effect, stated per segment by `SplitInside` and `SplitRight` but not carried through to the whole line. A left remainder in case E (skyline.cpp:157-165) puts the new height at the segment's stored start, so stored x fields and cumulative widths stop agreeing. A right remainder in case E (skyline.cpp:167-171) is dropped, which leaves a gap of its width before the next segment. An overlap in case D (skyline.cpp:185) leaves the segment as it was, so the x fields stay consistent but the height over that overlap misses y and the extreme law fails there.
- SkylineLaws.PiecesInside: equality with `Pieces` is stated for sliver-free spans only, because `Pieces` is the tolerance-free reference. What case E does with slivers is `InsideCut`, and `InsideCutSlivers` states how it departs.
- SkylineLaws.PiecesRightPart: equality with `Pieces` is stated for sliver-free spans only. What case D does with a sliver is `RightCut`, and `RightCutSliver` states how it departs.
- Skylines.SkylineLine.AddShape and Skylines.Skyline.AddShape: stated under the condition that every step is exact. `ShapeGridExact` discharges that condition for whole-number coordinates.
- Skylines.SkylineLine.MinDistance: equality with `Clearance` is stated for lines without negative widths, which is what the two-cursor sweep relies on. The lower bound and the empty-line result hold for all lines.
- The commented-out `Q_ASSERT(w >= 0.0)` in add is not turned into a precondition. A span whose clipped width is not positive and that starts at or after 0 is left outside the exactness condition.
- The Qt-bound parts of uitypes.h: `toMap`, `ContainerType`/`ContainerMeta`, `ThemeInfo`, `themeCodeFromString` and the `UiAction` constructors, which build Qt strings.
- `UiContext`'s `strcmp` on C strings: a context is modelled by its text, so the null context of a default-constructed `UiContext` is not represented.

## Findings

| source | as written | input that shows it | evidently intended | confidence | as-written member | corrected member |
|---|---|---|---|---|---|---|
| src/framework/ui/uitypes.h:241 | `shortcuts == shortcuts` compares the action's shortcuts with themselves, so operator== ignores shortcuts | two actions equal in every field except that the second has one more shortcut | `shortcuts == other.shortcuts` | high; not executed | UiTypes.ShortcutsIgnored | UiTypes.Equals |
