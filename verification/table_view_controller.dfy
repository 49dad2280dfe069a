/**
 The checklist table: how many rows it has, the label of each row, the
 alternating row background, and which rows receive the answer controls.
 */
module TableViewController {
  import opened Appearance
  import CustomTableViewCell

  /** Number of rows in the checklist table. */
  const NumberOfRows := 6

  /** The label of each row, in row order; row 0 is the header. */
  const LabelTexts: seq<string> := [
    "Areas of observation - please note concern(s) if any, as well as corrective action(s)",
    "Surrounding Areas / Adjacent Activities",
    "Building Grounds",
    "Building Structure",
    "Water System",
    "Other"
  ]

  /** The views added to an answerable row's cell. */
  datatype Subview = CommentButton | SegmentedControl | TextField | ContainerView

  /** What the table sets on the cell of a row. */
  datatype CellLayout = CellLayout(background: Option<Color>, text: string, subviews: set<Subview>)

  function Abs(n: int): nat {
    if n < 0 then -n else n
  }

  /** The remainder of dividing by 2 with the quotient truncated toward zero,
      as the platform's `%` computes it: it is 0 on even numbers and takes
      the sign of the dividend on odd ones. */
  function TruncatedRemainder2(n: int): (r: int)
    ensures r == 0 <==> n % 2 == 0
    ensures r == 1 <==> n > 0 && n % 2 == 1
    ensures r == -1 <==> n < 0 && n % 2 == 1
  {
    var m := Abs(n) % 2;
    if n < 0 then -m else m
  }

  /** The background of a row's cell, chosen on the row's remainder modulo 2;
      a remainder other than 0 or 1 leaves the background unset. Every row the
      table can request (row >= 0) gets one: light gray on even rows, white on
      odd ones. Only a negative odd row reaches the fallback. */
  function RowBackground(row: int): (color: Option<Color>)
    ensures row >= 0 ==> color == Some(if row % 2 == 0 then LightGray else White)
    ensures color == None <==> row < 0 && row % 2 == 1
  {
    match TruncatedRemainder2(row)
    case 0 => Some(LightGray)
    case 1 => Some(White)
    case _ => None
  }

  /** The cell the table builds for a row: a background, the row's label, and
      for every row but the header the answer controls. */
  function CellForRow(row: int): (cell: CellLayout)
    requires 0 <= row < NumberOfRows
    ensures cell.text == LabelTexts[row]
    ensures cell.background == RowBackground(row) && cell.background.Some?
    ensures cell.subviews == {} <==> row == 0
    ensures row != 0 ==> cell.subviews == {CommentButton, SegmentedControl, TextField, ContainerView}
  {
    var background := RowBackground(row);
    var text := LabelTexts[row];
    if row == 0 then CellLayout(background, text, {})
    else CellLayout(background, text, {CommentButton, SegmentedControl, TextField, ContainerView})
  }

  /** The table has a label for each of its rows and an activation entry for
      each of them. */
  lemma RowsMatchLabelsAndActivations()
    ensures NumberOfRows == |LabelTexts| == CustomTableViewCell.TableSize
  {
  }

  /** A row can report an answer only if its cell has a segmented control. */
  predicate Selectable(row: int) {
    0 <= row < NumberOfRows && SegmentedControl in CellForRow(row).subviews
  }

  /** For cells laid out fresh, as `CellForRow` describes them, whatever rows
      the user answers, in whatever order, the header entry of the activation
      table is never activated. */
  lemma HeaderNeverActivated(rows: seq<int>)
    requires forall k :: k in rows ==> Selectable(k)
    ensures forall k :: k in rows ==> 0 <= k < CustomTableViewCell.TableSize
    ensures CustomTableViewCell.ApplyMarks(CustomTableViewCell.Initial(), rows)[0] == (0, false)
  {
  }

  /** A session on a fresh screen, with cells laid out as `CellForRow`
      describes them, in which the user changes the controls of `rows`, in
      that order. Afterwards the tracker holds those marks, the
      header entry is still unactivated, and the header has been highlighted
      exactly when every answerable row has had its control used at least once. */
  method AnswerRows(rows: seq<int>) returns (tracker: CustomTableViewCell.RowActivations)
    requires forall k :: k in rows ==> Selectable(k)
    ensures fresh(tracker.entries) && tracker.Consistent()
    ensures forall k :: k in rows ==> 0 <= k < CustomTableViewCell.TableSize
    ensures tracker.entries[..] == CustomTableViewCell.ApplyMarks(CustomTableViewCell.Initial(), rows)
    ensures tracker.entries[0] == (0, false)
    ensures tracker.headerHighlighted <==> forall k :: 1 <= k < NumberOfRows ==> k in rows
  {
    tracker := new CustomTableViewCell.RowActivations();
    assert rows[..0] == [];
    for i := 0 to |rows|
      invariant fresh(tracker.entries) && tracker.Consistent()
      invariant forall k :: k in rows[..i] ==> k in rows
      invariant tracker.entries[..] == CustomTableViewCell.ApplyMarks(CustomTableViewCell.Initial(), rows[..i])
    {
      assert rows[i] in rows;
      assert rows[..i + 1] == rows[..i] + [rows[i]];
      CustomTableViewCell.ApplyMarksAppend(CustomTableViewCell.Initial(), rows[..i], rows[i]);
      var _ := tracker.ControlSegmentEnabled(rows[i]);
    }
    assert rows[..|rows|] == rows;
    HeaderNeverActivated(rows);
    CustomTableViewCell.CompleteIffEveryRowMarked(rows);
  }
}
