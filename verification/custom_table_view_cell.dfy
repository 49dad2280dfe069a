/**
 The checklist cell: the shared table recording which rows have been answered,
 the scan that decides whether the whole checklist is answered, the colour a
 selected segment is tinted with, and the comment button that opens and closes
 a row's comment field.
 */
module CustomTableViewCell {
  import opened Appearance

  /** One entry of the activation table: a row index and whether that row's
      segmented control has been used. */
  type Activation = (int, bool)

  /** Number of entries in the activation table: the header row 0 and the
      answerable rows 1 to 5. */
  const TableSize := 6

  /** The row whose activation completes the scan. */
  const LastRow := 5

  /** The titles of the three segments, in segment-index order. */
  const SegmentTitles: seq<string> := ["Acceptable", "Unacceptable", "N/A"]

  // ---------------------------------------------------------------------------
  // The activation table as a value

  /** Entry i of the table names row i. */
  predicate WellIndexed(s: seq<Activation>) {
    forall i :: 0 <= i < |s| ==> s[i].0 == i
  }

  /** Every answerable row (all but the header row 0) has been activated. */
  predicate AllRowsAnswered(s: seq<Activation>) {
    forall i :: 1 <= i < |s| ==> s[i].1
  }

  /** The table as the screen starts it: every row present, none activated. */
  function Initial(): (s: seq<Activation>)
    ensures |s| == TableSize && WellIndexed(s)
    ensures forall i :: 0 <= i < |s| ==> !s[i].1
  {
    [(0, false), (1, false), (2, false), (3, false), (4, false), (5, false)]
  }

  /** The table after the control of `row` reported a change. */
  function MarkEntry(s: seq<Activation>, row: int): (t: seq<Activation>)
    requires 0 <= row < |s|
    ensures |t| == |s|
    ensures t[row] == (row, true)
    ensures forall i :: 0 <= i < |s| && i != row ==> t[i] == s[i]
    ensures forall i :: 0 <= i < |s| ==> (t[i].1 <==> s[i].1 || i == row)
    ensures WellIndexed(s) ==> WellIndexed(t)
  {
    s[row := (row, true)]
  }

  /** The table after the controls of `rows` reported changes, in that order. */
  function ApplyMarks(s: seq<Activation>, rows: seq<int>): (t: seq<Activation>)
    requires forall k :: k in rows ==> 0 <= k < |s|
    ensures |t| == |s|
    ensures forall i :: 0 <= i < |s| ==> (t[i].1 <==> s[i].1 || i in rows)
    ensures WellIndexed(s) ==> WellIndexed(t)
    decreases |rows|
  {
    if rows == [] then s
    else
      var row := rows[0];
      assert row in rows;
      assert forall k :: k in rows[1..] ==> k in rows;
      ApplyMarks(MarkEntry(s, row), rows[1..])
  }

  /** Before any answer, the checklist is not complete. */
  lemma InitialIncomplete()
    ensures !AllRowsAnswered(Initial())
  {
    assert !Initial()[1].1;
  }

  /** Marking one more row after a series of marks is the series extended by
      that row. */
  lemma {:induction false} ApplyMarksAppend(s: seq<Activation>, rows: seq<int>, row: int)
    requires forall k :: k in rows ==> 0 <= k < |s|
    requires 0 <= row < |s|
    ensures forall k :: k in rows + [row] ==> 0 <= k < |s|
    ensures ApplyMarks(s, rows + [row]) == MarkEntry(ApplyMarks(s, rows), row)
    decreases |rows|
  {
    if rows == [] {
      assert rows + [row] == [row];
      assert [row][1..] == [];
    } else {
      assert (rows + [row])[0] == rows[0];
      assert (rows + [row])[1..] == rows[1..] + [row];
      assert rows[0] in rows;
      assert forall k :: k in rows[1..] ==> k in rows;
      ApplyMarksAppend(MarkEntry(s, rows[0]), rows[1..], row);
    }
  }

  /** Marking only ever activates: no entry goes from activated back to not. */
  lemma MarkIsMonotone(s: seq<Activation>, row: int, i: int)
    requires 0 <= row < |s| && 0 <= i < |s|
    requires s[i].1
    ensures MarkEntry(s, row)[i].1
  {
  }

  /** Marking a row twice gives the same table as marking it once. */
  lemma MarkIsIdempotent(s: seq<Activation>, row: int)
    requires 0 <= row < |s|
    ensures MarkEntry(MarkEntry(s, row), row) == MarkEntry(s, row)
  {
  }

  /** Once every answerable row is activated, further marks keep it so. */
  lemma CompletionIsStable(s: seq<Activation>, row: int)
    requires 0 <= row < |s|
    requires AllRowsAnswered(s)
    ensures AllRowsAnswered(MarkEntry(s, row))
  {
  }

  /** A mark at the header row 0 never changes whether the checklist is
      complete: completion is decided by rows 1 to 5 alone. */
  lemma HeaderMarkIrrelevant(s: seq<Activation>)
    requires |s| == TableSize && WellIndexed(s)
    ensures AllRowsAnswered(MarkEntry(s, 0)) <==> AllRowsAnswered(s)
  {
  }

  /** The order in which rows are answered, and repetitions, do not matter:
      only which rows were answered determines the table. */
  lemma MarkOrderIrrelevant(s: seq<Activation>, rows: seq<int>, others: seq<int>)
    requires WellIndexed(s)
    requires forall k :: k in rows ==> 0 <= k < |s|
    requires forall k :: k in others ==> 0 <= k < |s|
    requires forall k :: k in rows <==> k in others
    ensures ApplyMarks(s, rows) == ApplyMarks(s, others)
  {
  }

  /** Starting from the initial table, the checklist is complete exactly when
      every answerable row 1..5 has been marked at least once; any set of marks
      missing one of them leaves it incomplete. */
  lemma CompleteIffEveryRowMarked(rows: seq<int>)
    requires forall k :: k in rows ==> 0 <= k < TableSize
    ensures AllRowsAnswered(ApplyMarks(Initial(), rows))
            <==> forall k :: 1 <= k < TableSize ==> k in rows
  {
  }

  // ---------------------------------------------------------------------------
  // The shared activation table and its completion scan

  /** The activation table every cell of the screen shares, together with
      whether the header row has been painted as completed. */
  class RowActivations {
    const entries: array<Activation>

    /** The header row's background has been set to the completion colour. */
    var headerHighlighted: bool

    /** The table keeps its six entries, entry i naming row i. */
    ghost predicate Valid()
      reads entries
    {
      entries.Length == TableSize && WellIndexed(entries[..])
    }

    /** Valid, and the header is highlighted exactly when the checklist is
        complete: what holds between control events. */
    ghost predicate Consistent()
      reads this, entries
    {
      Valid() && (headerHighlighted <==> AllRowsAnswered(entries[..]))
    }

    constructor ()
      ensures Consistent() && fresh(entries)
      ensures entries[..] == Initial()
      ensures !headerHighlighted
    {
      entries := new Activation[TableSize](i requires 0 <= i < TableSize => Initial()[i]);
      headerHighlighted := false;
      new;
      assert entries[..] == Initial();
      InitialIncomplete();
    }

    /** Records that the control of `row` was used. */
    method Mark(row: int)
      requires Valid()
      requires 0 <= row < entries.Length
      modifies entries
      ensures Valid()
      ensures entries[..] == MarkEntry(old(entries[..]), row)
    {
      entries[row] := (row, true);
    }

    /** The completion scan as the screen performs it: the unactivated header
        entry is skipped, the first unactivated entry ends the scan, and only
        reaching an activated last row reports completion. Given that entry i
        names row i, this is exactly "rows 1..5 are all activated". */
    method ScanComplete() returns (allItemsCompleted: bool)
      requires Valid()
      ensures allItemsCompleted <==> AllRowsAnswered(entries[..])
    {
      allItemsCompleted := false;
      for i := 0 to entries.Length
        invariant forall k :: 1 <= k < i ==> entries[k].1
        invariant allItemsCompleted <==> i > LastRow
      {
        var item := entries[i];
        if item == (0, false) {
          continue;
        }
        if item.1 == false {
          break;
        }
        if item == (LastRow, true) {
          allItemsCompleted := true;
        }
      }
    }

    /** The handler of a segment change in `row`: marks the row, scans, and
        highlights the header when the scan reports completion. */
    method ControlSegmentEnabled(row: int) returns (allItemsCompleted: bool)
      requires Valid()
      requires 0 <= row < entries.Length
      modifies this, entries
      ensures Valid()
      ensures entries[..] == MarkEntry(old(entries[..]), row)
      ensures allItemsCompleted <==> AllRowsAnswered(entries[..])
      ensures headerHighlighted == (old(headerHighlighted) || allItemsCompleted)
      ensures old(Consistent()) ==> Consistent()
    {
      Mark(row);
      allItemsCompleted := ScanComplete();
      if allItemsCompleted {
        headerHighlighted := true;
      }
      if old(Consistent()) && old(headerHighlighted) {
        CompletionIsStable(old(entries[..]), row);
      }
    }
  }

  // ---------------------------------------------------------------------------
  // Per-row controls

  /** The tint given to the selected segment of a row's control: green for
      "Acceptable", red for "Unacceptable", gray for "N/A", and pink for an
      index without a segment. */
  function SegmentTint(selectedSegmentIndex: int): (tint: Color)
    ensures tint == SystemPink <==> !(0 <= selectedSegmentIndex < |SegmentTitles|)
    ensures 0 <= selectedSegmentIndex < |SegmentTitles| && SegmentTitles[selectedSegmentIndex] == "Acceptable"
            ==> tint == SystemGreen
    ensures 0 <= selectedSegmentIndex < |SegmentTitles| && SegmentTitles[selectedSegmentIndex] == "Unacceptable"
            ==> tint == SystemRed
    ensures 0 <= selectedSegmentIndex < |SegmentTitles| && SegmentTitles[selectedSegmentIndex] == "N/A"
            ==> tint == SystemGray
    ensures tint in {SystemGreen, SystemRed, SystemGray, SystemPink}
  {
    match selectedSegmentIndex
    case 0 => SystemGreen
    case 1 => SystemRed
    case 2 => SystemGray
    case _ => SystemPink
  }

  /** Different segments of the control are told apart by their tint. */
  lemma SegmentTintsDistinct(i: int, j: int)
    requires 0 <= i < |SegmentTitles| && 0 <= j < |SegmentTitles|
    requires i != j
    ensures SegmentTint(i) != SegmentTint(j)
  {
  }

  /** The image the comment button switches to when pressed. */
  function Toggled(image: SymbolImage): (next: SymbolImage)
    ensures next != image
  {
    match image
    case PlusBubble => XMark
    case XMark => PlusBubble
  }

  /** Pressing the comment button twice shows the image it started with. */
  lemma ToggledTwice(image: SymbolImage)
    ensures Toggled(Toggled(image)) == image
  {
  }

  /** An answerable row's cell: its comment button, its comment field and
      the tint of its segmented control. */
  class Cell {
    var commentImage: SymbolImage
    var textFieldHidden: bool
    var selectedSegmentTint: Option<Color>

    /** The comment field is shown exactly when the button offers to close it. */
    ghost predicate Valid()
      reads this
    {
      textFieldHidden <==> commentImage == PlusBubble
    }

    /** A cell after its comment button, segmented control and text field were
        added: button on "plus.bubble", field hidden, no segment tint yet. */
    constructor ()
      ensures Valid()
      ensures commentImage == PlusBubble && textFieldHidden
      ensures selectedSegmentTint == None
    {
      commentImage := PlusBubble;
      textFieldHidden := true;
      selectedSegmentTint := None;
    }

    method RevealTextField()
      modifies this`textFieldHidden
      ensures !textFieldHidden
    {
      textFieldHidden := false;
    }

    method HideTextField()
      modifies this`textFieldHidden
      ensures textFieldHidden
    {
      textFieldHidden := true;
    }

    /** Swaps the button image and opens or closes the comment field. */
    method CommentButtonPressed()
      requires Valid()
      modifies this
      ensures Valid()
      ensures commentImage == Toggled(old(commentImage))
      ensures textFieldHidden == !old(textFieldHidden)
      ensures selectedSegmentTint == old(selectedSegmentTint)
    {
      match commentImage
      case PlusBubble =>
        commentImage := XMark;
        RevealTextField();
      case XMark =>
        commentImage := PlusBubble;
        HideTextField();
    }

    /** Tints the control by the segment just selected. */
    method ControlSegmentDidChange(selectedSegmentIndex: int)
      modifies this`selectedSegmentTint
      ensures selectedSegmentTint == Some(SegmentTint(selectedSegmentIndex))
    {
      selectedSegmentTint := Some(SegmentTint(selectedSegmentIndex));
    }
  }

  /** Two presses of the comment button restore the cell's comment state. */
  method PressCommentTwice(cell: Cell)
    requires cell.Valid()
    modifies cell
    ensures cell.Valid()
    ensures cell.commentImage == old(cell.commentImage)
    ensures cell.textFieldHidden == old(cell.textFieldHidden)
  {
    cell.CommentButtonPressed();
    cell.CommentButtonPressed();
    ToggledTwice(old(cell.commentImage));
  }
}
