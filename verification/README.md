# Cooler-facility risk-assessment checklist: a Dafny model

The app shows a single screen with a six-row table. Row 0 is a header that has
only a label. Each of rows 1 to 5 has a label, a three-way segmented control
("Acceptable", "Unacceptable", "N/A"), a comment button and a comment text
field that starts hidden. All cells share one activation table of
`(row, activated)` pairs. When a row's control changes, its entry is set to
`(row, true)`. A scan of the table then decides whether every answerable row
has been answered. If it has, the header row is painted green.

The model has three modules:

- `Appearance` (`appearance.dfy`): small enums that stand in for the UIKit
  colours and the two SF Symbol images the screen uses, plus `Option`.
- `CustomTableViewCell` (`custom_table_view_cell.dfy`):
  - The activation table as a value: `Initial`, `MarkEntry`, `ApplyMarks` and
    the completion predicate `AllRowsAnswered`, with their lemmas.
  - The class `RowActivations`. It owns the six-entry `array` and whether the
    header has been highlighted. Its methods are `Mark`, the literal scan
    `ScanComplete` (`for` loop with `continue` and `break`) and the event
    handler `ControlSegmentEnabled`.
  - The segment tint rule `SegmentTint`.
  - The class `Cell`, which holds the comment button image, whether the text
    field is hidden, and the segment tint.
- `TableViewController` (`table_view_controller.dfy`): the row count, the
  labels, the alternating background computed with the platform's truncating
  `%`, and the layout of each row. It also links the layout to the
  activation table. The lemma `HeaderNeverActivated` proves that, for cells
  laid out fresh as `CellForRow` describes them, no control event comes from
  row 0. The method `AnswerRows` drives a fresh tracker through any
  series of control events. It proves the header is highlighted exactly when
  rows 1 to 5 have all been answered.

The main result is `RowActivations.ScanComplete`. The scan skips an entry equal
to `(0, false)`, stops at the first unactivated entry, and reports completion
only on reaching `(5, true)`. The method's contract proves that, when entry `i`
names row `i`, this scan is exactly "entries 1 to 5 are all activated", and
that entry 0 does not affect it.

The table keeps an entry `(0, false)` for the header row, and the scan skips
it. Writing entry 0 is in bounds, so `Mark(0)` is allowed.
`HeaderNeverActivated` proves that, for cells laid out fresh as `CellForRow`
describes them, no control event comes from row 0, because row 0 has no
control. `HeaderMarkIrrelevant` proves that a mark at row 0 would not change
completion anyway.

## Model

| member | source | states |
|---|---|---|
| `CustomTableViewCell.Initial` | CustomTableViewCell.swift:35-43 | the starting table has six entries, entry i is row i, and no entry is activated |
| `CustomTableViewCell.InitialIncomplete` | CustomTableViewCell.swift:35-43 | before any answer, the checklist is not complete |
| `CustomTableViewCell.RowActivations.constructor` | CustomTableViewCell.swift:35-43 | a fresh tracker holds the starting table, the header is not highlighted, and the highlight agrees with completion |
| `CustomTableViewCell.MarkEntry` | CustomTableViewCell.swift:155 | marking row r sets entry r to (r, true) and leaves every other entry alone; row r becomes activated and nothing becomes unactivated; entry i still names row i |
| `CustomTableViewCell.RowActivations.Mark` | CustomTableViewCell.swift:153-155 | needs 0 <= row < 6, the bounds of the unchecked array write; the array afterwards is the old table marked at row, and entry i still names row i |
| `CustomTableViewCell.ApplyMarks` | CustomTableViewCell.swift:155 | after a series of marks, a row is activated exactly when it was activated before or appears in the series; the length and the row naming are kept |
| `CustomTableViewCell.ApplyMarksAppend` | CustomTableViewCell.swift:155 | one more mark after a series of marks gives the table of the series extended by that row |
| `CustomTableViewCell.MarkIsMonotone` | CustomTableViewCell.swift:155 | an activated entry stays activated after any mark |
| `CustomTableViewCell.MarkIsIdempotent` | CustomTableViewCell.swift:155 | marking a row twice gives the same table as marking it once |
| `CustomTableViewCell.HeaderMarkIrrelevant` | CustomTableViewCell.swift:155-172 | writing (0, true) into a well-indexed six-entry table never changes whether the checklist is complete |
| `CustomTableViewCell.MarkOrderIrrelevant` | CustomTableViewCell.swift:155 | two series of marks over the same set of rows, in any order and with any repetitions, give the same table |
| `CustomTableViewCell.CompletionIsStable` | CustomTableViewCell.swift:155-172 | once rows 1 to 5 are all activated, any further mark keeps them so |
| `CustomTableViewCell.CompleteIffEveryRowMarked` | CustomTableViewCell.swift:155-172 | from the starting table, the checklist is complete if and only if every row 1 to 5 was marked at least once |
| `CustomTableViewCell.RowActivations.ScanComplete` | CustomTableViewCell.swift:157-172 | the literal continue/break/last-row scan reports completion if and only if entries 1 to 5 are all activated, whatever entry 0 holds |
| `CustomTableViewCell.RowActivations.ControlSegmentEnabled` | CustomTableViewCell.swift:148-178 | the table is marked at row; the result is true exactly when rows 1 to 5 are all activated; the header becomes highlighted when it is, and is never un-highlighted; if the highlight agreed with completion before, it still does |
| `CustomTableViewCell.SegmentTint` | CustomTableViewCell.swift:130-144 | the "Acceptable" segment (index 0) is tinted green, "Unacceptable" (1) red and "N/A" (2) gray; the fallback pink is used exactly for an index outside the three segments |
| `CustomTableViewCell.SegmentTintsDistinct` | CustomTableViewCell.swift:130-144 | the three segments get three different tints |
| `CustomTableViewCell.Cell.ControlSegmentDidChange` | CustomTableViewCell.swift:126-145 | the control's selected-segment tint becomes the tint of the selected index |
| `CustomTableViewCell.Toggled` | CustomTableViewCell.swift:110-119 | a press always changes the comment button image |
| `CustomTableViewCell.ToggledTwice` | CustomTableViewCell.swift:110-119 | two image changes give back the starting image |
| `CustomTableViewCell.Cell.constructor` | CustomTableViewCell.swift:54-94 | a new answerable cell shows "plus.bubble", hides its text field and has no segment tint; the field is hidden exactly when the image is "plus.bubble" |
| `CustomTableViewCell.Cell.RevealTextField` | CustomTableViewCell.swift:181-184 | the text field is shown |
| `CustomTableViewCell.Cell.HideTextField` | CustomTableViewCell.swift:187-190 | the text field is hidden |
| `CustomTableViewCell.Cell.CommentButtonPressed` | CustomTableViewCell.swift:104-123 | the image swaps between "plus.bubble" and "xmark" and the field's visibility flips; the field stays shown exactly when the image is "xmark"; the segment tint is untouched |
| `CustomTableViewCell.PressCommentTwice` | CustomTableViewCell.swift:104-123 | two presses restore both the button image and the text field's visibility |
| `TableViewController.TruncatedRemainder2` | TableViewController.swift:41 | the remainder of n by 2 is 0 on even n, 1 on positive odd n and -1 on negative odd n |
| `TableViewController.RowBackground` | TableViewController.swift:41-53 | rows 0 and up get light gray when even and white when odd; the unset-background fallback happens only for a negative odd row, so the table never reaches it |
| `TableViewController.CellForRow` | TableViewController.swift:41-67 | every requested row has a label (the label list is exactly as long as the row count) and a background, light gray or white by `RowBackground`; the header alone gets no subviews; rows 1 to 5 get the comment button, segmented control, text field and container view |
| `TableViewController.RowsMatchLabelsAndActivations` | TableViewController.swift:17-28 | the row count, the number of labels and the size of the activation table are all 6 |
| `TableViewController.AnswerRows` | CustomTableViewCell.swift:148-177 | on a fresh tracker driven by the segment-change handler for any series of rows whose fresh layout has a control, the table is those marks, the header entry stays (0, false), and the header is highlighted exactly when every row 1 to 5 was answered |
| `TableViewController.HeaderNeverActivated` | TableViewController.swift:58-67 | for cells laid out fresh, for any series of control events, which can only come from rows whose layout has a control, entry 0 of the activation table stays (0, false) |

## Left out

- The row is passed as a parameter. The code instead walks the control's superview chain to reach the cell and asks the table for its index path (CustomTableViewCell.swift:150-153). The guard returns that end the handler when that walk fails are not modelled either.
- The process-wide static table is modelled as one owned `RowActivations` object. Nothing is concurrent.
- `CustomTableViewCell.RowActivations.ControlSegmentEnabled`: the code paints the header through the table's cell lookup for row 0 (CustomTableViewCell.swift:176), which finds no cell, and so paints nothing, when the header is off screen. `headerHighlighted` records only that the handler asked for the paint, not that a visible cell was painted. The table view and its cells are not modelled as objects.
- Cell reuse is not modelled. If a dequeued cell already had its subviews, they would be added again. If the table reloaded row 0, its background would go back to light gray. `CellForRow` describes a fresh cell. A reused answerable cell shown at row 0 keeps its segmented control, so the code can write entry 0 as `(0, true)`. `HeaderNeverActivated` and `AnswerRows` cover only freshly laid-out cells. `HeaderMarkIrrelevant`, together with `ScanComplete`'s contract, shows that entry 0 never changes completion.
- `CustomTableViewCell.Cell.CommentButtonPressed`: the button image is one of the two symbol images, so the fallback branch for any other image is not modelled. That branch only logs a message. UIImage identity comparison is not modelled.
- The comment button's fixed red tint, the comment text itself, and the initial default tint of the segmented control are not modelled. The model writes that default tint as `None`.
- All Auto Layout constraints and subview insertion (TableViewController.swift:69-86, CustomTableViewCell.swift:48-94), and PrimaryViewController.swift, are UI construction with no state rules. PrimaryViewController.swift is not part of this model.
- Logging in the fallback branches has no effect on state and is not modelled.
- Swift's 64-bit `Int` bounds are not modelled. Row and segment indices are small.
