# ZodiacGraph core in Dafny

This project models the core of ZodiacGraph, a Qt node-graph widget. Nodes carry
named plugs; plug edges run from an outgoing plug of one node to an incoming plug
of another. The model covers the plug-placement pipeline and the bookkeeping
around it.

- **PlugArranger** (`plugarranger.dfy`) is the greedy assignment solver
  `zodiac::arrangePlugs`. It takes a row-major cost table and picks one zone
  column per connected plug, with no column used twice. It has three phases:
  - start from each row's cheapest column;
  - repeatedly move one conflicting row into the free column that raises its
    cost least;
  - make one pass of favourable pairwise swaps.

  Each phase is specified as a function on sequences. The in-place methods work
  on arrays, as the source works on its `QVector`s, and are proved to compute
  those functions.
- **NodeLayout** (`nodelayout.dfy`) is `Node::arrangePlugs`. It covers the even
  zone layout either side of the label's dead zone and the cost table (angular
  distance times priority, squared). It also covers the merge of the solver's
  answer into the identity placement, and the collapse of the one unused zone
  when the plug count is odd. Angles are exact reals, and pi is an abstract
  positive constant.
- **Expansion** (`expansion.dfy`) holds a node's expansion transitions
  (`setExpansion`, the soft and forced variants, toggles), as functions on the
  pair of current and last state.
- **PlugNames** (`plugnames.dfy`) builds the `name_2`, `name_3`, … candidates of
  `getUniquePlugName`. It proves that different indices give different names.
- **LabelText** (`labeltext.dfy`) covers `LabelTextFactory` and
  `EdgeGroupPair::getLabelText`:
  - name lengths in UTF-16 code units, as `QString::length` counts them;
  - padded label lines whose arrows line up;
  - a centred separator of odd length;
  - the stacked label of a pair of edge groups.
- **Graph** (`graph.dfy`) holds the object graph as classes with mutable fields:
  `Node`, `Plug`, `PlugEdge`, `StraightEdge`, `EdgeGroup`, `EdgeGroupPair` and
  `Scene`. It models:
  - a node's plug registry and every plug in exactly one direction set;
  - a plug's edges and connected plugs;
  - an edge group's bent count and the visibility rules it drives;
  - the scene's edge table, its group table (keyed by the ordered node pair)
    and its set of group pairs.

  `Scene.Valid` states that the three tables agree. Every scene operation
  preserves it.

Where a source function asserts a precondition in debug builds and returns early
in release builds, the model follows the release build. For example, `createPlug`
turns `BOTH` into `IN`, and `removePlug` of a foreign plug returns `false`.

## Model

| member | source | states |
|---|---|---|
| PlugArranger.ScanRow | zodiacgraph/plugarranger.cpp:25-31 | the strict-`<` scan keeps the running minimum or replaces it by the first cell strictly below it; the result is at most every cell |
| PlugArranger.MinScan | zodiacgraph/plugarranger.cpp:24-31 | the search from DBL_MAX ends at a cost at most every cell; below DBL_MAX it is the first cell holding that cost |
| PlugArranger.MinScanFindsFirstMin | zodiacgraph/plugarranger.cpp:22-32 | when some cost is below DBL_MAX, a row's scan returns the first index of a smallest cost |
| PlugArranger.InitialGuess | zodiacgraph/plugarranger.cpp:22-32 | the first guess gives every row a column of the table |
| PlugArranger.InitialGuessIsRowMinimum | zodiacgraph/plugarranger.cpp:22-32 | each row's first column is a cheapest column of that row, and every column of lower index is strictly dearer |
| PlugArranger.Count | zodiacgraph/plugarranger.cpp:9 | `QVector::count` is 0 exactly when the value is absent, and at most the length |
| PlugArranger.CountAbove1 | zodiacgraph/plugarranger.cpp:9 | a row's column is counted more than once exactly when another row holds it |
| PlugArranger.ProblemRowsUpTo | zodiacgraph/plugarranger.cpp:5-14 | the listed rows are below the bound, and there are no more of them than the bound |
| PlugArranger.ProblemRowsUpToMembers | zodiacgraph/plugarranger.cpp:5-14 | a row is listed exactly when it is below the bound and its column is shared |
| PlugArranger.ProblemRowsUpToIncreasing | zodiacgraph/plugarranger.cpp:5-14 | the rows in conflict are listed in increasing order |
| PlugArranger.ProblemRows | zodiacgraph/plugarranger.cpp:5-14 | every listed row exists |
| PlugArranger.ProblemRowsSpec | zodiacgraph/plugarranger.cpp:5-14 | `getProblemRows` lists exactly the rows whose column another row also holds, in increasing order |
| PlugArranger.NoProblemRowsIffDistinct | zodiacgraph/plugarranger.cpp:50-89 | the repair loop stops exactly when the columns are pairwise distinct |
| PlugArranger.EmptyColumnsUpTo | zodiacgraph/plugarranger.cpp:41-47 | the free columns listed are below the bound |
| PlugArranger.EmptyColumnsUpToSpec | zodiacgraph/plugarranger.cpp:41-47 | a column is listed exactly when no row holds it, in increasing order |
| PlugArranger.EmptyColumns | zodiacgraph/plugarranger.cpp:41-47 | the free columns are columns of the table |
| PlugArranger.EmptyColumnsMissing | zodiacgraph/plugarranger.cpp:41 | at most `columnCount - 1` columns are free, so the buffer of that size is large enough |
| PlugArranger.FreeColumnExists | zodiacgraph/plugarranger.cpp:50-79 | while a row is in conflict some column is free (at most as many rows as columns), so a move exists |
| PlugArranger.EmptyColumnsAfterMove | zodiacgraph/plugarranger.cpp:79-85 | moving a conflicting row into free column `j` leaves exactly the old free list with entry `j` taken out |
| PlugArranger.Delta | zodiacgraph/plugarranger.cpp:58-59 | each cost change stays below DBL_MAX, so the best-move search always finds a move |
| PlugArranger.DeltaRows | zodiacgraph/plugarranger.cpp:54-61 | cell `(i, j)` of the delta table is the cost change of moving conflicting row `i` to free column `j` |
| PlugArranger.MinScan2 | zodiacgraph/plugarranger.cpp:66-78 | the nested search returns a cell at most every cell, and strictly below every cell before it in row-major order |
| PlugArranger.MinScan2Step | zodiacgraph/plugarranger.cpp:69-77 | the nested search takes in one row at a time with the row scan |
| PlugArranger.BestMove | zodiacgraph/plugarranger.cpp:66-79 | the chosen move names an existing conflicting row and an existing free column |
| PlugArranger.BestMoveIsFirstMinimum | zodiacgraph/plugarranger.cpp:66-79 | the move made has the least cost change of all moves, and every earlier move in row-major order is strictly dearer |
| PlugArranger.Repair | zodiacgraph/plugarranger.cpp:50-90 | the repair loop ends, its measure being the number of free columns, and still gives every row a column |
| PlugArranger.RepairFacts | zodiacgraph/plugarranger.cpp:50-90 | after repair the columns are distinct; a row not in conflict keeps its column; a row that moved sits in a column nobody held before |
| PlugArranger.RepairStep | zodiacgraph/plugarranger.cpp:53-89 | one repair move keeps an assignment |
| PlugArranger.RepairStepFacts | zodiacgraph/plugarranger.cpp:53-89 | one move uses up exactly the chosen free column, leaves rows without conflict alone, and moves a row into a column nobody held |
| PlugArranger.TrySwap | zodiacgraph/plugarranger.cpp:96-104 | a swap attempt keeps an assignment |
| PlugArranger.TrySwapFacts | zodiacgraph/plugarranger.cpp:96-104 | a swap exchanges two columns or changes nothing; it keeps distinctness and is made only when it strictly lowers the summed cost |
| PlugArranger.SwapRight | zodiacgraph/plugarranger.cpp:95-105 | the inner swap loop keeps an assignment |
| PlugArranger.SwapRightFacts | zodiacgraph/plugarranger.cpp:95-105 | the inner loop keeps the multiset of columns and their distinctness, and never raises the summed cost |
| PlugArranger.SwapPass | zodiacgraph/plugarranger.cpp:94-106 | the swap pass keeps an assignment |
| PlugArranger.SwapPassFacts | zodiacgraph/plugarranger.cpp:94-106 | the whole swap pass is a permutation of the columns that keeps them distinct and never raises the summed cost |
| PlugArranger.Arrange | zodiacgraph/plugarranger.cpp:18-109 | `arrangePlugs` on values: the first guess, then the repair, then one swap pass; its properties are the lemmas that follow |
| PlugArranger.ArrangeIsAssignment | zodiacgraph/plugarranger.cpp:18-109 | for `1 <= rows <= columns` the result has one entry per row, each a column of the table, pairwise distinct |
| PlugArranger.ArrangeImprovesRepair | zodiacgraph/plugarranger.cpp:92-106 | the final swap pass only reorders the repaired columns and never raises their summed cost |
| PlugArranger.NoFavourableSwapAt | zodiacgraph/plugarranger.cpp:100 | a swap that is not strictly cheaper is not made |
| PlugArranger.SwapRightKeepsRowMinimal | zodiacgraph/plugarranger.cpp:95-105 | when every row holds a cheapest column, the inner loop swaps nothing |
| PlugArranger.SwapPassKeepsRowMinimal | zodiacgraph/plugarranger.cpp:94-106 | when every row holds a cheapest column, the swap pass changes nothing |
| PlugArranger.ArrangeOfDistinctMinima | zodiacgraph/plugarranger.cpp:22-106 | if the rows' cheapest columns already differ, the result is exactly those columns, and no assignment costs less |
| PlugArranger.RowMinimalIsCheapest | zodiacgraph/plugarranger.cpp:22-32 | a row-wise cheapest assignment costs no more than any other assignment |
| PlugArranger.DocumentedExample | zodiacgraph/plugarranger.h:41-58 | the documented 3x3 table 87 15 75 / 41 32 68 / 93 54 21 gives the columns [1, 0, 2] |
| PlugArranger.FirstGuess | zodiacgraph/plugarranger.cpp:22-32 | the first-guess loop fills a new array with the initial guess |
| PlugArranger.CheapestColumn | zodiacgraph/plugarranger.cpp:24-31 | the inner loop ends at the column the row scan names |
| PlugArranger.GetProblemRows | zodiacgraph/plugarranger.cpp:5-14 | `getProblemRows` writes exactly the rows in conflict, in order, to the front of the buffer and returns their number |
| PlugArranger.FindEmptyColumns | zodiacgraph/plugarranger.cpp:41-47 | the loop writes exactly the free columns, in order, into the `columnCount - 1` buffer and counts them |
| PlugArranger.FillDeltaTable | zodiacgraph/plugarranger.cpp:54-61 | every cell `(i, j)` of the row-major delta buffer of width `emptyColumnCount` holds the cost change of that move |
| PlugArranger.FindBestMove | zodiacgraph/plugarranger.cpp:66-78 | the loop ends at the first smallest delta in row-major order |
| PlugArranger.ScanDeltaRow | zodiacgraph/plugarranger.cpp:69-77 | the inner loop continues the running minimum as the row scan does |
| PlugArranger.RemoveAt | zodiacgraph/plugarranger.cpp:82-85 | the shift moves the entries after the used one down by one and keeps every other entry |
| PlugArranger.TrySwapInPlace | zodiacgraph/plugarranger.cpp:96-104 | one comparison of the swap pass in place computes `TrySwap` |
| PlugArranger.SwapRightInPlace | zodiacgraph/plugarranger.cpp:95-105 | the inner swap loop in place computes `SwapRight` |
| PlugArranger.SwapInPlace | zodiacgraph/plugarranger.cpp:94-106 | the swap pass in place computes `SwapPass` |
| PlugArranger.RepairMove | zodiacgraph/plugarranger.cpp:52-89 | one round in place makes the best move and keeps the buffers of conflicting rows and free columns exact; the free count drops by one |
| PlugArranger.ChooseMove | zodiacgraph/plugarranger.cpp:54-78 | filling and searching the delta table finds the move `BestMove` names |
| PlugArranger.RepairLoop | zodiacgraph/plugarranger.cpp:50-90 | the `while` loop in place computes `Repair` |
| PlugArranger.RepairInPlace | zodiacgraph/plugarranger.cpp:34-90 | setting up the three buffers and running the loop computes `Repair` |
| PlugArranger.ArrangePlugs | zodiacgraph/plugarranger.cpp:18-109 | `arrangePlugs` returns `Arrange` of its table: one column per row, every column in range, no column twice |
| NodeLayout.AngularDistance | zodiacgraph/node.cpp:805-815 | the distance is at most pi, and 0 between equal angles |
| NodeLayout.AngularDistanceSymmetric | zodiacgraph/node.cpp:805-815 | the distance does not depend on the order of the angles |
| NodeLayout.AngularDistanceIsShorterArc | zodiacgraph/node.cpp:805-815 | for angles at most a full turn apart the distance lies in [0, pi] and is the shorter of the two arcs |
| NodeLayout.EvenZoneCount | zodiacgraph/node.cpp:551 | the zone count is the plug count rounded up to even, and equals it exactly when the plug count is even |
| NodeLayout.HalfZoneCount | zodiacgraph/node.cpp:552 | each half holds half the zones, at least one when there are plugs |
| NodeLayout.ZoneSpan | zodiacgraph/node.cpp:563 | the width of one zone: pi less the dead zone and the gaps, shared among the zones of a half; `ZonesFillHalf` shows that the zones then fill the half |
| NodeLayout.ZoneCentre | zodiacgraph/node.cpp:566-576 | the centre of zone `k`: the start angle, half the dead zone, a gap and half a zone, then `k` steps of a gap and a zone |
| NodeLayout.ZoneCentreStep | zodiacgraph/node.cpp:566-576 | each zone centre lies one gap and one zone past the previous one, as the source's running `currentAngle += gapAngle + zoneSpan` adds |
| NodeLayout.ZonesFillHalf | zodiacgraph/node.cpp:563-576 | the zones of a half and their gaps fill exactly the half-turn left beside the dead zone |
| NodeLayout.InitialZones | zodiacgraph/node.cpp:560-576 | there is one zone direction per zone |
| NodeLayout.InitialZonesShape | zodiacgraph/node.cpp:563-576 | upper centres start at `halfDead + gap + span/2` and rise by `gap + span`; each lower centre is the upper one of equal rank turned by `-pi` |
| NodeLayout.ZoneDirections | zodiacgraph/node.cpp:560-577 | the two loops fill `zoneDirections` with the initial zones |
| NodeLayout.Connected | zodiacgraph/node.cpp:582-591 | the cost-table rows are positions of plugs |
| NodeLayout.ConnectedSpec | zodiacgraph/node.cpp:582-591 | the rows are exactly the plugs with at least one edge, each once, in plug order |
| NodeLayout.ConnectedPlugs | zodiacgraph/node.cpp:582-591 | the loop that skips plugs without edges collects exactly `Connected` |
| NodeLayout.CostEntry | zodiacgraph/node.cpp:609-610 | a cost is non-negative |
| NodeLayout.CostRow | zodiacgraph/node.cpp:608-611 | a plug's row has one cost per zone, the cost for that zone |
| NodeLayout.CostTable | zodiacgraph/node.cpp:604-612 | the table has `rows * zones` cells |
| NodeLayout.CostTableEntry | zodiacgraph/node.cpp:604-612 | cell `row * zones + col` is (angular distance to zone `col` times the priority) squared |
| NodeLayout.CostTableRow | zodiacgraph/node.cpp:604-612 | each row of the table is that row's plug's cost row |
| NodeLayout.BuildCostTable | zodiacgraph/node.cpp:604-612 | the nested loops fill a new array with the cost table |
| NodeLayout.FillCostRow | zodiacgraph/node.cpp:608-611 | the inner loop writes one plug's row and keeps the rows before it |
| NodeLayout.CostsBelowMaxInRange | zodiacgraph/node.cpp:609-610 | angles within [-pi, pi] and a priority with (pi * priority)^2 below DBL_MAX keep every cost below DBL_MAX |
| NodeLayout.CostAtMostHalfTurn | zodiacgraph/node.cpp:609-610 | no cost exceeds that of a plug half a turn from its zone, (pi * priority)^2 |
| NodeLayout.CostTableValid | zodiacgraph/node.cpp:601-616 | the solver is called with at least one row and at most as many rows as zones, as it requires |
| NodeLayout.IndexOf | zodiacgraph/node.cpp:619 | `indexOf` returns the first position of the value, or -1 exactly when it is absent |
| NodeLayout.Identity | zodiacgraph/node.cpp:595-598 | the trivial path puts plug `i` in zone `i` |
| NodeLayout.MergeStep | zodiacgraph/node.cpp:617-623 | a merge step keeps the length of the path |
| NodeLayout.MergeStepFacts | zodiacgraph/node.cpp:617-623 | the plug takes its zone and the displaced plug takes the vacated one; nobody else moves, and the path stays injective and in range |
| NodeLayout.Merge | zodiacgraph/node.cpp:615-625 | the merge keeps the length of the path |
| NodeLayout.MergeKeepsInjective | zodiacgraph/node.cpp:615-625 | merging keeps the identity path injective into `[0, evenZoneCount)` |
| NodeLayout.MergeHonoursChoice | zodiacgraph/node.cpp:615-625 | with distinct rows and zones, every connected plug ends in the zone the solver chose for it |
| NodeLayout.MergeOneMore | zodiacgraph/node.cpp:617-623 | one more pass of the merge loop applies one more merge step to the result so far |
| NodeLayout.MergePath | zodiacgraph/node.cpp:594-625 | the path array is the identity with the solver's answer merged in |
| NodeLayout.ApplyMergeStep | zodiacgraph/node.cpp:617-623 | one pass of the merge loop on the array is `MergeStep` |
| NodeLayout.FirstAbsentFrom | zodiacgraph/node.cpp:632-638 | the result is the smallest zone from `from` that no plug holds, or -1 when every such zone is held |
| NodeLayout.FirstAbsent | zodiacgraph/node.cpp:632-638 | the empty zone index is -1 or a zone |
| NodeLayout.EmptyZoneExists | zodiacgraph/node.cpp:629-638 | with an odd plug count there is an empty zone, and it is the smallest zone no plug holds |
| NodeLayout.FindEmptyZone | zodiacgraph/node.cpp:632-638 | the search loop with its `break` finds `FirstAbsent` |
| NodeLayout.Collapsed | zodiacgraph/node.cpp:640-665 | the collapse keeps the number of zones |
| NodeLayout.CollapseZone | zodiacgraph/node.cpp:640-665 | the collapse loop on the array, skipping the empty index, computes `Collapsed` |
| NodeLayout.CollapseIsSmallerLayout | zodiacgraph/node.cpp:640-665 | the re-laid half equals the same half of the layout for one plug fewer; the other half and the empty zone keep their directions |
| NodeLayout.CollapseOfOnePlug | zodiacgraph/node.cpp:656-664 | with one plug the collapse changes nothing, so the division by `halfZoneCount - 1 = 0` is never used |
| NodeLayout.Assignment | zodiacgraph/node.cpp:600-616 | the solver gives each connected plug a zone, no zone twice |
| NodeLayout.LayoutPath | zodiacgraph/node.cpp:593-625 | every plug is given a zone |
| NodeLayout.LayoutZones | zodiacgraph/node.cpp:627-665 | the zone directions after the collapse, one per zone |
| NodeLayout.Layout | zodiacgraph/node.cpp:542-673 | every plug is given one angle; no plugs, no angles |
| NodeLayout.LayoutPathFacts | zodiacgraph/node.cpp:593-638 | plugs get distinct zones; connected plugs get the solver's zones; with an odd count the first zone no plug holds exists |
| NodeLayout.LayoutPathInjective | zodiacgraph/node.cpp:593-625 | no two plugs share a zone, and every zone exists |
| NodeLayout.LayoutPathHonoursAssignment | zodiacgraph/node.cpp:600-625 | every connected plug sits in the zone the solver chose for it |
| NodeLayout.ArrangeNodePlugs | zodiacgraph/node.cpp:542-673 | `Node::arrangePlugs` places each plug at the angle `Layout` gives it |
| NodeLayout.CollapseIfOdd | zodiacgraph/node.cpp:628-665 | the zones after the optional collapse are `LayoutZones` |
| NodeLayout.PlugPath | zodiacgraph/node.cpp:579-625 | the path array after the cost table, the solver and the merge is `LayoutPath` |
| NodeLayout.PlaceOnZones | zodiacgraph/node.cpp:667-672 | each plug gets the direction of its zone |
| Expansion.SetExpansion | zodiacgraph/node.cpp:454-499 | setting the current state changes nothing; any other state becomes current and the old one is remembered |
| Expansion.ResetExpansion | zodiacgraph/node.h:694 | a reset makes the remembered state current |
| Expansion.SoftSetExpansion | zodiacgraph/node.h:303-305 | a soft set is ignored while forced open, and otherwise sets the state |
| Expansion.SoftResetExpansion | zodiacgraph/node.h:310-312 | a soft reset is ignored while forced open, and otherwise restores the remembered state |
| Expansion.ForceCollapse | zodiacgraph/node.h:317-320 | from BOTH both states become NONE; from any other state nothing changes |
| Expansion.ToggleExpansion | zodiacgraph/node.h:325-328 | IN and OUT swap, remembering the old one; NONE and BOTH stay |
| Expansion.ToggleForcedExpansion | zodiacgraph/node.h:333-335 | a state other than BOTH becomes BOTH and is remembered; BOTH goes back to the remembered state |
| Expansion.SetExpansionIdempotent | zodiacgraph/node.cpp:454-499 | setting the same state twice equals setting it once |
| Expansion.ToggleForcedTwiceRestores | zodiacgraph/node.h:333-335 | toggling the forced expansion twice from a state other than BOTH restores that state, remembering BOTH |
| Expansion.ToggleTwiceRestores | zodiacgraph/node.h:325-328 | toggling twice restores the direction and remembers the opposite one; a collapsed or forced-open node is left as it was |
| Expansion.SoftResetUndoesSoftSet | zodiacgraph/node.h:303-312 | a soft reset undoes a soft set to a new state other than BOTH |
| Expansion.WhenTransitionsForceOpen | zodiacgraph/node.h:303-328 | exactly when each soft transition and the toggle end forced open (both directions of each condition); `forceCollapse` never does |
| Expansion.SoftResetReopens | zodiacgraph/node.h:310-312 | a soft reset of a node whose remembered state is BOTH forces it open again and remembers the state it left |
| PlugNames.NumberString | zodiacgraph/node.cpp:430 | `QString::number` gives at least one decimal digit and ends in the last digit of the number |
| PlugNames.NumberStringRoundTrip | zodiacgraph/node.cpp:430 | reading the digits back gives the number |
| PlugNames.NumberStringNoLeadingZero | zodiacgraph/node.cpp:430 | a non-zero number has no leading zero |
| PlugNames.NumberStringInjective | zodiacgraph/node.cpp:430 | different numbers have different renderings |
| PlugNames.Candidate | zodiacgraph/node.cpp:430 | a candidate is the name and the suffix followed by at least one more character |
| PlugNames.CandidateInjective | zodiacgraph/node.cpp:426-435 | different indices give different candidates |
| PlugNames.CandidatesBelowExclude | zodiacgraph/node.cpp:426-435 | a later candidate is none of the earlier ones |
| PlugNames.CandidatesBelowCount | zodiacgraph/node.cpp:426-435 | the search reaches index `k` after `k - 2` different names, so it ends within the number of plugs |
| LabelText.Utf16Length | zodiacgraph/labeltextfactory.cpp:27 | `QString::length`: two UTF-16 units for a character outside the Basic Multilingual Plane, one otherwise; additive over concatenation (`Utf16LengthAppend`) |
| LabelText.Utf16LengthAppend | zodiacgraph/labeltextfactory.cpp:27 | the UTF-16 length of a concatenation is the sum of the lengths |
| LabelText.FullNameParts | zodiacgraph/labeltextfactory.cpp:25-26 | a printed name is the node's display name, a dot, then the plug's name, and it splits back into them at that dot; its UTF-16 length is theirs plus one |
| LabelText.Longest | zodiacgraph/labeltextfactory.cpp:27 | the longest name, in UTF-16 units as `QString::length` counts, is at least every from- and to-name, is one of them, and is 0 without edges |
| LabelText.NewFactory | zodiacgraph/labeltextfactory.cpp:15-30 | the constructor loop stores one name pair per edge, in order, and the longest name in UTF-16 units; the result is `FactoryOf(edges)` |
| LabelText.FactoryOf | zodiacgraph/labeltextfactory.cpp:15-30 | a factory holds one name pair per edge and the longest of their names in UTF-16 units |
| LabelText.LabelLine | zodiacgraph/labeltextfactory.cpp:43-48 | the from-name padded on the left to the width, the arrow, the to-name padded on the right, padding counted in UTF-16 units; its layout is `LabelLineLayout` |
| LabelText.LabelLineLayout | zodiacgraph/labeltextfactory.cpp:43-48 | a line is the padding, the from-name, the arrow at UTF-16 unit `L`, the to-name and the padding; its UTF-16 length is `2L + 5` |
| LabelText.LinesWidth | zodiacgraph/labeltextfactory.cpp:43-48 | every line padded to `L` has UTF-16 length `2L + 5` |
| LabelText.SurrogatePairCountsTwice | zodiacgraph/labeltextfactory.cpp:27 | `n.😀` and `n.ab` both have length 4, so the longest name is 4 and the line between them has no padding |
| LabelText.ProduceLabel | zodiacgraph/labeltextfactory.cpp:37-50 | every name pair's line, padded to the larger of the argument and the longest name, joined by newlines; its UTF-16 length is `ProduceLabelLength` |
| LabelText.ProduceLabelLength | zodiacgraph/labeltextfactory.cpp:37-50 | `produceLabel` pads to `L = max(argument, own max)`; `n` lines joined by newlines have UTF-16 length `n(2L + 5) + n - 1` |
| LabelText.HorizontalLine | zodiacgraph/labeltextfactory.cpp:52-76 | the spaces, the repeated line character and the trailing spaces of `getHorizontalLine`; its shape is `HorizontalLineShape` |
| LabelText.HorizontalLineShape | zodiacgraph/labeltextfactory.cpp:52-76 | the separator has an odd number of line characters, at most 7, centred, with UTF-16 length `2m + 5` |
| LabelText.PairLabelText | zodiacgraph/edgegrouppair.cpp:79-93 | the first group's label, the separator and the second group's label, padded to the longer of the two longest names; its lines are `PairLabelLines` |
| LabelText.PairLabelJoin | zodiacgraph/edgegrouppair.cpp:79-93 | joining both blocks and the separator is joining all their lines in order |
| LabelText.PairLabelWidths | zodiacgraph/edgegrouppair.cpp:79-93 | every line of a pair's label has the same UTF-16 length |
| LabelText.PairLabelLines | zodiacgraph/edgegrouppair.cpp:79-93 | a pair's label is the first group's lines, the separator and the second group's lines, padded to the shared longest name, all of one UTF-16 length |
| Graph.Node.constructor | zodiacgraph/node.cpp:47-94 | a new node has no plugs and no straight edges, is collapsed, and remembers a collapsed state |
| Graph.Node.SetExpansion | zodiacgraph/node.cpp:454-499 | the node's state moves as `Expansion.SetExpansion` says, and nothing else changes |
| Graph.Node.ResetExpansion | zodiacgraph/node.h:694 | the node's state moves as `Expansion.ResetExpansion` says, and nothing else changes |
| Graph.Node.SoftSetExpansion | zodiacgraph/node.h:303-305 | the node's state moves as `Expansion.SoftSetExpansion` says, and nothing else changes |
| Graph.Node.SoftResetExpansion | zodiacgraph/node.h:310-312 | the node's state moves as `Expansion.SoftResetExpansion` says, and nothing else changes |
| Graph.Node.ForceCollapse | zodiacgraph/node.h:317-320 | the node's state moves as `Expansion.ForceCollapse` says, and nothing else changes |
| Graph.Node.ToggleExpansion | zodiacgraph/node.h:325-328 | the node's state moves as `Expansion.ToggleExpansion` says, and nothing else changes |
| Graph.Node.ToggleForcedExpansion | zodiacgraph/node.h:333-335 | the node's state moves as `Expansion.ToggleForcedExpansion` says, and nothing else changes |
| Graph.Node.AddStraightEdge | zodiacgraph/node.h:166 | the straight edge joins the node's set, and nothing else changes |
| Graph.Node.RemoveStraightEdge | zodiacgraph/node.h:176-177 | the straight edge leaves the node's set, and nothing else changes |
| Graph.Node.IsRemovable | zodiacgraph/node.h:289 | a node is removable exactly when no straight edge ends at it; `Graph.Scene.RemoveNode` removes only such nodes |
| Graph.Node.RegistryKept | zodiacgraph/node.h:812-822 | the plug tables stay consistent (each plug under its own name, in the set of its direction) through any change that keeps the tables and every plug's name and direction |
| Graph.Node.UniquePlugName | zodiacgraph/node.cpp:418-437 | a free proposal is returned as is; otherwise the result is `name_k` for the first `k >= 2` that is free or names the given plug |
| Graph.Node.CreatePlug | zodiacgraph/node.cpp:96-122 | BOTH becomes IN; the plug is filed under a name no plug had, the proposal when free, and joins exactly its direction set |
| Graph.Node.RemovePlug | zodiacgraph/node.cpp:124-165 | a plug is removed exactly when it is this node's and has no edges; it then leaves the name table and its direction set, and otherwise nothing changes |
| Graph.Node.TogglePlugDirection | zodiacgraph/node.cpp:233-269 | a plug toggles exactly when it is this node's and has no edges; it then flips direction and moves to the other set, and otherwise nothing changes |
| Graph.Node.RenamePlug | zodiacgraph/node.cpp:212-231 | a foreign plug gives "" and no change; this node's plug is filed again under a name no other plug has, the requested one when free |
| Graph.FirstFitUnique | zodiacgraph/node.cpp:426-435 | the index the name search stops at is unique |
| Graph.TakenCandidatesBound | zodiacgraph/node.cpp:426-435 | every candidate the search skips is a different plug name, so the index stays within the number of plugs plus 2 |
| Graph.Plug.constructor | zodiacgraph/plug.cpp:30-58 | a new plug has its node, name and direction, no edges, and is hidden |
| Graph.Plug.EdgeCount | zodiacgraph/plug.h:179 | the number of the plug's edges |
| Graph.Plug.IsRemovable | zodiacgraph/plug.h:186 | a plug is removable exactly when it has no edge; `Graph.Node.RemovePlug` removes only such plugs |
| Graph.Plug.IsConnectedWith | zodiacgraph/plug.h:195 | the given plug is among the connected plugs; `Graph.Refuses` uses it to turn away a second edge between the same plugs |
| Graph.Plug.AddEdge | zodiacgraph/plug.cpp:60-85 | an admitted edge (touches this plug, is new, neither end connected, an incoming plug still free) is stored with exactly the opposite plug; any other edge changes nothing |
| Graph.Plug.AddedEdgeKeepsValid | zodiacgraph/plug.cpp:79-84 | adding an admitted edge keeps the plug consistent, so an incoming plug never holds two edges |
| Graph.Plug.DroppedEnd | zodiacgraph/plug.cpp:100-108 | `removeEdge` drops the start plug when it is connected, the end plug otherwise |
| Graph.Plug.RemovedEdgeKeepsValid | zodiacgraph/plug.cpp:97-108 | on a consistent plug, dropping an edge with the end so chosen removes exactly the opposite plug and keeps the plug consistent |
| Graph.Plug.RemoveEdge | zodiacgraph/plug.cpp:87-109 | an unknown edge changes nothing; a known one leaves together with its opposite plug, and consistency is kept |
| Graph.Plug.ArrangementPriority | zodiacgraph/plug.cpp:308-316 | the priority is the own edge count plus half the connected plugs' edge counts; it is at least 0, and at least 1 with an edge |
| Graph.Plug.NotSelfConnected | zodiacgraph/plug.cpp:65-69 | a consistent plug is not connected with itself |
| Graph.Plug.NoEdgesNoConnections | zodiacgraph/plug.cpp:79-84 | a consistent plug without edges has no connected plugs |
| Graph.Plug.MayReceiveInput | zodiacgraph/plug.cpp:428-436 | an incoming plug may receive input when it is free and its node shows inputs; an outgoing one when its node shows outputs; its cases are the two lemmas that follow |
| Graph.Plug.CollapsedNodeReceivesNothing | zodiacgraph/plug.cpp:428-436 | no plug of a collapsed node may receive input |
| Graph.Plug.MayReceiveInputCases | zodiacgraph/plug.cpp:428-436 | on a node forced open, a plug may receive input exactly when it is outgoing or free; an incoming plug needs to be free |
| Graph.Plug.SetName | zodiacgraph/plug.cpp:387-396 | the plug takes the new name, and nothing else changes |
| Graph.Plug.SetDirection | zodiacgraph/plug.h:442 | the plug takes the new direction, and nothing else changes |
| Graph.StraightEdge.constructor | zodiacgraph/straightedge.cpp:13-29 | the straight edge registers with both of its nodes, and nothing else of them changes |
| Graph.BentChange | zodiacgraph/plugedge.cpp:39-46 | the count moves by +1 exactly when an edge becomes bent, by -1 exactly when it stops being bent, and not otherwise |
| Graph.PlugEdge.constructor | zodiacgraph/plugedge.cpp:14-20 | a new edge joins the given plugs in the given group and starts unbent |
| Graph.PlugEdge.Attach | zodiacgraph/plugedge.cpp:21-32 | the edge registers with each plug that admits it and with its group if it runs the group's way; it becomes bent exactly when a plug is shown, counted once; the plugs keep their names and directions |
| Graph.PlugEdge.RegisterWithPlugs | zodiacgraph/plugedge.cpp:21-23 | each plug that admits the edge stores it with the other plug, and stays consistent |
| Graph.PlugEdge.JoinGroup | zodiacgraph/plugedge.cpp:25-32 | the edge joins a group it runs with, and the count rises by one exactly when the edge comes out bent |
| Graph.PlugEdge.PlugHasChanged | zodiacgraph/plugedge.cpp:35-46 | the edge is bent exactly when a plug is shown, and the group's count moves only when that flag flips |
| Graph.BentAfterRemoval | zodiacgraph/edgegroup.cpp:72-79 | removing the last edge from a count of 0 leaves 0; every other removal lowers the count by one |
| Graph.LastRemovalKeepsCountNonNegative | zodiacgraph/edgegroup.cpp:76-79 | removing the last edge never leaves a negative count |
| Graph.RemovalCanMakeCountNegative | zodiacgraph/edgegroup.cpp:76-93 | removing an edge from a count of 0 while another edge stays gives -1, which the assertion at line 93 rejects |
| Graph.EdgeGroup.constructor | zodiacgraph/edgegroup.cpp:13-32 | a new group is empty with count 0, and its hidden straight edge registers with both nodes |
| Graph.EdgeGroup.Key | zodiacgraph/edgegroup.cpp:109-112 | the group's key depends only on its ordered node pair |
| Graph.EdgeGroup.AddEdge | zodiacgraph/edgegroup.cpp:46-61 | only an edge running from `fromNode` to `toNode` joins; any other leaves the group as it was |
| Graph.EdgeGroup.RemoveEdge | zodiacgraph/edgegroup.cpp:63-82 | a non-member changes nothing; a member leaves, the count is `BentAfterRemoval`, the remaining edges are shown exactly when the count is not 0, the other group's edges keep their visibility, and both straight edges give way to the double edge exactly when both would be shown (`DecreaseShown`) |
| Graph.EdgeGroup.DropMember | zodiacgraph/edgegroup.cpp:72-79 | a member leaves, the count is `BentAfterRemoval`, the remaining edges are shown exactly when the count is not 0, the other group's edges keep their visibility, and both straight edges give way to the double edge exactly when both would be shown |
| Graph.EdgeGroup.Leave | zodiacgraph/edgegroup.cpp:72-78 | the edge leaves, and the count before the decrease is one above `BentAfterRemoval` |
| Graph.EdgeGroup.IncreaseBentCount | zodiacgraph/edgegroup.cpp:84-88 | the count rises by one, the double edge is hidden, both groups show their bent state, and an empty other group keeps its straight edge's visibility |
| Graph.EdgeGroup.DecreaseBentCount | zodiacgraph/edgegroup.cpp:90-96 | the count falls by one, the group shows its bent state, and both straight edges give way to the double edge exactly when both end up shown |
| Graph.EdgeGroup.ShowBentCount | zodiacgraph/edgegroup.cpp:94-95 | the visibility follows the count, and the double edge replaces two shown straight edges |
| Graph.EdgeGroup.UpdateVisibility | zodiacgraph/edgegroup.cpp:98-107 | each plug edge is shown exactly when the count is not 0; the straight edge is shown exactly when it is 0, but only in a non-empty group |
| Graph.EdgeGroupPair.constructor | zodiacgraph/edgegrouppair.cpp:15-24 | the first group runs A to B, the second B to A; both are empty, and all three straight edges start hidden and register with both nodes |
| Graph.EdgeGroupPair.DisjointGroups | zodiacgraph/edgegroup.cpp:46-56 | no edge belongs to both groups of a pair |
| Graph.EdgeGroupPair.GroupKeysDiffer | zodiacgraph/edgegrouppair.cpp:18-19 | the two groups have reverse keys, so the scene files them apart |
| Graph.EdgeGroupPair.IsEmpty | zodiacgraph/edgegrouppair.cpp:46-49 | neither group of the pair holds an edge; `Graph.Scene.DropPairIfEmpty` drops the pair exactly then |
| Graph.EdgeGroupPair.UpdateDoubleEdgeVisibility | zodiacgraph/edgegrouppair.cpp:51-62 | nothing changes unless both straight edges are shown; then both are hidden and the double edge is shown |
| Graph.EdgeGroupPair.HideDoubleEdge | zodiacgraph/edgegrouppair.cpp:64-72 | the double edge is hidden and both groups show their bent state |
| Graph.EdgeGroupPair.Delete | zodiacgraph/edgegrouppair.cpp:26-44 | the three straight edges leave both nodes, and nothing else of them changes |
| Graph.FiledAddPair | zodiacgraph/scene.cpp:104-113 | filing a new pair of empty groups under both keys keeps the scene's tables in agreement |
| Graph.FiledWithoutPair | zodiacgraph/scene.cpp:152-159 | dropping an empty pair with both of its keys keeps the scene's tables in agreement |
| Graph.Refuses | zodiacgraph/scene.cpp:76-95 | the four early returns of `createEdge`: the same node, already connected, not out to in, or an input already taken; `Graph.Scene.CreateEdge` gives null exactly then |
| Graph.Scene.constructor | zodiacgraph/scene.cpp:14-25 | a new scene has empty tables that agree |
| Graph.Scene.GetEdge | zodiacgraph/scene.cpp:175-179 | the result is the edge filed under the two plugs, or null exactly when there is none |
| Graph.Scene.GetEdgeFacts | zodiacgraph/scene.cpp:116-117 | a filed edge runs between the plugs asked for, is known to both, and sits in the group of their nodes |
| Graph.Scene.ReverseKeyFiled | zodiacgraph/scene.cpp:104-113 | a group key is filed only together with its reverse |
| Graph.Scene.CreateNode | zodiacgraph/scene.cpp:42-48 | a new collapsed node without plugs joins the scene, and the tables stay as they were |
| Graph.Scene.RemoveNode | zodiacgraph/scene.cpp:50-71 | a node is removed exactly when it is in the scene and has no straight edges; otherwise nothing changes |
| Graph.Scene.AddGroupPair | zodiacgraph/scene.cpp:104-113 | a fresh pair running from `fromNode` to `toNode` is registered, its first group is filed under (from, to) and its second under (to, from), and both nodes gain exactly its three straight edges, nothing else of them changing; the new group counts no bent edge |
| Graph.Scene.InsertGroupPair | zodiacgraph/scene.cpp:105-112 | the pair is made and both groups filed, nothing the tables depended on changes, and both nodes gain exactly the pair's three straight edges; the new group counts no bent edge |
| Graph.Scene.CreateEdge | zodiacgraph/scene.cpp:73-124 | refused plugs (same node, already connected, wrong directions, busy input) give null and leave the scene, both plugs, both nodes and the group as they were; otherwise the new edge joins both plugs, each connected with the other, its group and the table, and `GetEdge` finds it; an existing group leaves both nodes as they were, a new pair gives both nodes exactly its three straight edges; the plugs keep their names and directions, and the edge is bent exactly when a plug is shown, the count rising by one exactly then |
| Graph.Scene.CreateAdmittedEdge | zodiacgraph/scene.cpp:97-123 | the new edge joins both plugs, each connected with the other, its group and the table; the first edge between two nodes files one new pair and gives both nodes exactly its three straight edges, a later edge joins the existing group and leaves both nodes as they were; the plugs keep their names and directions, and the edge is bent exactly when a plug is shown, the count rising by one exactly then |
| Graph.Scene.ListEdgeInNewPair | zodiacgraph/scene.cpp:104-117 | without a group yet, a new pair is filed under both keys, the edge is its first group's only edge and joins both plugs, both nodes gain exactly the pair's three straight edges, and the plugs keep their names and directions; the edge is bent exactly when a plug is shown, and the new group counts 1 exactly then |
| Graph.Scene.ListNewEdge | zodiacgraph/scene.cpp:116-117 | with its group known, the new edge joins both plugs, the group and the table, the nodes and the plugs' names and directions stay as they were, and the tables keep agreeing, and the edge is bent exactly when a plug is shown, the count rising by one exactly then |
| Graph.Scene.InsertNewEdge | zodiacgraph/scene.cpp:116-117 | making and filing the edge changes no other group, no other plug and neither node, and the edge is bent exactly when a plug is shown, the count rising by one exactly then |
| Graph.Scene.AttachNewEdge | zodiacgraph/scene.cpp:116 | making the edge registers it with both plugs and the group only, and leaves the nodes as they were, and the edge is bent exactly when a plug is shown, the count rising by one exactly then |
| Graph.Scene.MakeEdge | zodiacgraph/plugedge.cpp:14-32 | the new edge joins both plugs, each with the other plug, and its group, and the edge is bent exactly when a plug is shown, the count rising by one exactly then |
| Graph.Scene.RequestRemoval | zodiacgraph/edgegroup.cpp:140-148 | a group with one edge has the scene remove that edge: it leaves the table and both its plugs, with their connections; an empty pair then goes with both keys and its straight edges leave both nodes, otherwise the nodes stay as they were; any other group leaves the scene, the group, its plugs and nodes as they were; a removed sole edge leaves the count at `BentAfterRemoval` of the old count plus one, with no edge left |
| Graph.Scene.RemoveSoleEdge | zodiacgraph/edgegroup.cpp:143-146 | a group's sole edge leaves the group, the table and both plugs with their connections; an empty pair then goes with both keys and its straight edges leave both nodes, otherwise the nodes stay as they were; a removed sole edge leaves the count at `BentAfterRemoval` of the old count plus one, with no edge left |
| Graph.Scene.BumpBentCount | zodiacgraph/edgegroup.cpp:144 | raising the count keeps the edges, the pair and the tables' agreement |
| Graph.Scene.RaiseBentCount | zodiacgraph/edgegroup.cpp:144 | raising a group's count changes no other group and no plug |
| Graph.Scene.RemoveEdge | zodiacgraph/scene.cpp:126-173 | an unfiled edge leaves the scene, its plugs, its group and its nodes as they were; a filed one leaves the table, its group and both plugs, each losing the edge and the end it drops; the pair with both keys goes exactly when it is empty, its straight edges then leaving both nodes, and otherwise the nodes stay as they were; the plugs keep their names, directions and consistency; the group's count is `BentAfterRemoval` of the old count and the edges left |
| Graph.Scene.RemoveListedEdge | zodiacgraph/scene.cpp:139-162 | a filed edge leaves the table, its group and both plugs with their connections; an empty pair goes with both keys and its straight edges leave both nodes, otherwise the pair set and nodes stay; the tables keep agreeing; the group's count is `BentAfterRemoval` of the old count and the edges left |
| Graph.Scene.DropPairIfEmpty | zodiacgraph/scene.cpp:151-162 | an empty pair leaves the pair set with both group keys, and its three straight edges leave both nodes; a pair still holding an edge leaves the scene and both nodes unchanged; the tables keep agreeing |
| Graph.Scene.DetachListedEdge | zodiacgraph/scene.cpp:139-149 | the edge leaves both plugs, each dropping the end it chooses, the table and its group; the nodes stay as they were, and the tables keep agreeing; the group's count is `BentAfterRemoval` of the old count and the edges left |
| Graph.Scene.UnlistEdge | zodiacgraph/scene.cpp:139-149 | detaching the edge changes no other group, no other plug and neither node, and keeps the plugs' names, directions and consistency; the group's count is `BentAfterRemoval` of the old count and the edges left |
| Graph.Scene.DetachFromPlugs | zodiacgraph/scene.cpp:140-141 | both plugs drop the edge and the end each chooses, keep their names and directions, and stay consistent |
| Graph.Scene.DetachFromGroup | zodiacgraph/scene.cpp:147-148 | the group drops the edge and keeps its pair; for a member, the count is `BentAfterRemoval` and the visibility is as `Graph.EdgeGroup.RemoveEdge` states |
| Graph.Scene.DropPair | zodiacgraph/scene.cpp:150-162 | an empty pair leaves the pair set with both group keys, its three straight edges leave both nodes with nothing else of them changing, and the tables keep agreeing |
| Graph.Scene.UnfilePair | zodiacgraph/scene.cpp:153-159 | the tables lose exactly the pair and its two keys |

## Left out

- Floating point: costs, angles and spans are exact reals, and pi is an abstract positive constant. Rounding and `qFuzzyCompare` are not modelled. DBL_MAX is the exact value of the largest double.
- Geometry inputs: `NodeLayout.ArrangeNodePlugs` takes the half dead-zone angle and the gap angle as parameters. It does not compute them from the label height, the perimeter radius and the plug width (`getGapAngle` and `getDeadZoneAngle`, node.cpp:680-688). Each plug's target direction is a given angle (`PlugInfo.target`), not the `atan2` of its target normal (node.cpp:587-590).
- The plug and gap sweeps (`s_plugSweep` and `s_plugGap`, node.cpp:38-39), their setters (node.h:491-512) and `adjustRadius` (node.cpp:690-720) are not part of this model, because they only size the perimeter.
- Graph.Node.UniquePlugName: the text between a duplicate name and its counter is fixed to the default `_` (node.cpp:37, `PlugNames.DefaultSuffix`). `setPlugSuffix` (node.h:484), which changes it for all nodes, is not modelled.
- Rendering and painting, Bezier and straight edge shapes, arrows, labels' transforms, and `defineShape` are not part of this model; `PlaceOnZones` returns the angle each plug is given instead.
- Animations, signals and Qt event handling are not modelled. A node's expansion methods change only the two state fields. The `arrangePlugs` call that `setExpansion` makes when a node expands afresh is not modelled either.
- Qt containers: sets are Dafny sets, and the iteration order of a `QSet` or `QMap` is a given sequence (`LabelText.NewFactory` takes its edges in order, and `NodeLayout` takes its plugs in order).
- The group table's `qHash` key is replaced by the ordered node pair, and hash collisions are not modelled.
- Integer widths: indices, counts and string lengths are unbounded; the `uint` counter of `getUniquePlugName` and `int` overflow are not modelled.
- PlugArranger.ArrangePlugs: requires at least one row, at most as many rows as columns, and every cost in [0, DBL_MAX). With no rows the source writes past `emptyColumns`; with a delta at DBL_MAX it reads `inRow` and `inCol` uninitialised. Its callers meet these by construction (`NodeLayout.CostTableValid`).
- NodeLayout.ArrangeNodePlugs: requires every cost below DBL_MAX, which `NodeLayout.CostsBelowMaxInRange` derives from angles within [-pi, pi] and bounded priorities.
- Graph.EdgeGroup.RemoveEdge: states the count the source computes, which can be -1 (`Graph.RemovalCanMakeCountNegative`); the debug assertion at edgegroup.cpp:93 is not modelled as an error.
- Graph.PlugEdge.PlugHasChanged: does not state the visibility of the plug edges, the straight edges and the double edge afterwards, only the bent count; `Graph.EdgeGroup.IncreaseBentCount` and `Graph.EdgeGroup.DecreaseBentCount` state it for the step it takes.
- Graph.PlugEdge.JoinGroup: does not state the visibility of the plug edges, the straight edges and the double edge afterwards, only the bent count; it is the visibility `Graph.PlugEdge.PlugHasChanged` leaves.
- Graph.PlugEdge.Attach: does not state the visibility of the plug edges, the straight edges and the double edge afterwards, only the bent count; it is the visibility `Graph.PlugEdge.PlugHasChanged` leaves.
- Graph.Scene.MakeEdge: does not state the visibility of the plug edges, the straight edges and the double edge afterwards, only the bent count; it is the visibility `Graph.PlugEdge.Attach` leaves.
- Graph.Scene.AttachNewEdge: does not state the visibility of the plug edges, the straight edges and the double edge afterwards, only the bent count; it is the visibility `Graph.PlugEdge.Attach` leaves.
- Graph.Scene.InsertNewEdge: does not state the visibility of the plug edges, the straight edges and the double edge afterwards, only the bent count; it is the visibility `Graph.PlugEdge.Attach` leaves.
- Graph.Scene.ListNewEdge: does not state the visibility of the plug edges, the straight edges and the double edge afterwards, only the bent count; it is the visibility `Graph.PlugEdge.Attach` leaves.
- Graph.Scene.ListEdgeInNewPair: does not state the visibility of the plug edges, the straight edges and the double edge afterwards, only the bent count; it is the visibility `Graph.PlugEdge.Attach` leaves.
- Graph.Scene.CreateAdmittedEdge: does not state the visibility of the plug edges, the straight edges and the double edge afterwards, only the bent count; it is the visibility `Graph.PlugEdge.Attach` leaves.
- Graph.Scene.CreateEdge: does not state the visibility of the plug edges, the straight edges and the double edge afterwards, only the bent count; it is the visibility `Graph.PlugEdge.Attach` leaves.
- Graph.Scene.UnlistEdge: does not state the visibility of the plug edges, the straight edges and the double edge afterwards, only the bent count; `Graph.Scene.DetachFromGroup` states it, and carrying it across the plug step costs too much proof.
- Graph.Scene.DetachListedEdge: does not state the visibility of the plug edges, the straight edges and the double edge afterwards, only the bent count; `Graph.Scene.DetachFromGroup` states it.
- Graph.Scene.RemoveListedEdge: does not state the visibility of the plug edges, the straight edges and the double edge afterwards, only the bent count; `Graph.Scene.DetachFromGroup` states it.
- Graph.Scene.RemoveEdge: does not state the visibility of the plug edges, the straight edges and the double edge afterwards, only the bent count; `Graph.Scene.DetachFromGroup` states it.
- Graph.Scene.RemoveSoleEdge: does not state the visibility of the plug edges, the straight edges and the double edge afterwards, only the bent count; `Graph.EdgeGroup.IncreaseBentCount` and `Graph.Scene.DetachFromGroup` state it for each step.
- Graph.Scene.RequestRemoval: does not state the visibility of the plug edges, the straight edges and the double edge afterwards, only the bent count; `Graph.EdgeGroup.IncreaseBentCount` and `Graph.Scene.DetachFromGroup` state it for each step.
- Graph.Scene.BumpBentCount: does not state the visibility of the plug edges, the straight edges and the double edge afterwards, only the bent count; `Graph.EdgeGroup.IncreaseBentCount` states it.
- Graph.Scene.RaiseBentCount: does not state the visibility of the plug edges, the straight edges and the double edge afterwards, only the bent count; `Graph.EdgeGroup.IncreaseBentCount` states it.
- Graph.Scene.RemoveEdge: requires that an edge filed under the same two plugs is this edge object. The source frees removed edges, so no second object with the same plugs exists.
- Memory management: `delete`, `deleteLater` and the removal of items from the graphics scene are not modelled; a removed object simply stops being referenced by the tables.
- The Qt debug build's `Q_ASSERT` checks are not modelled. The model follows the release build's early returns.
- `PlugEdge`'s constructor is split into `Graph.PlugEdge.constructor` and `Graph.PlugEdge.Attach`, because a Dafny constructor cannot pass the new object to other objects' methods before it is complete.
- Label updates (`updateLabel`, `updateLabelText`) and style updates are not modelled.
- The handle wrappers (nodehandle.cpp, plughandle.cpp, scenehandle.cpp), the draw-edge drag gesture, and the demo application are not part of this model.
