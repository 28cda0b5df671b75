/**
 * One spreadsheet row of the shift schedule and what processing it does to
 * it: the fixed column layout, padding, the three-way classification, the
 * row as it is left afterwards, and the marker column written back.
 */
module ShiftRows {
  import opened Wrappers
  import opened Dates

  /** A row as read from the sheet: its cells, possibly fewer than the layout names. */
  type Row = seq<string>

  // Column positions of the fixed layout.
  const EventCol := 0
  const DateCol := 1
  const TimeCol := 2
  const LocationCol := 3
  const R1Col := 5
  const ApprovalCol := 7
  const AnnounceCol := 11

  /** The sentinel that marks a confirmation as announced. */
  const Marker := "Yes!"

  /** The inclusive window of days for which open shifts are collected. */
  datatype Window = Window(first: Date, last: Date)

  /** The window `processShiftRow` fixes: September 5 to September 14, 2019. */
  const SourceWindow := Window(Date(2019, 9, 5), Date(2019, 9, 14))

  /** The three outcomes of processing a row, plus "already announced". */
  datatype Outcome = AlreadyAnnounced | Confirmation | OpenShift | Ignored

  /** What a cell reads as once the row is padded: itself, or '' when missing. */
  function CellOrBlank(row: Row, k: nat): string {
    if k < |row| then row[k] else ""
  }

  /**
   * The row already carries the marker. A row too short to have a marker
   * cell reads it as undefined, which is not the marker.
   */
  predicate Announced(row: Row) {
    |row| > AnnounceCol && row[AnnounceCol] == Marker
  }

  /** The row extended with '' cells until it has a marker cell. */
  function Pad(row: Row): (r: Row)
    ensures |r| == if |row| > AnnounceCol then |row| else AnnounceCol + 1
    ensures r[..|row|] == row
    ensures forall k :: |row| <= k < |r| ==> r[k] == ""
    ensures forall k :: 0 <= k < |r| ==> r[k] == CellOrBlank(row, k)
  {
    if |row| > AnnounceCol then row else row + seq(AnnounceCol + 1 - |row|, _ => "")
  }

  /** The parsed day falls in the window, both ends included; an invalid date never does. */
  predicate InWindow(d: Option<Date>, w: Window) {
    d.Some? && DateLe(w.first, d.value) && DateLe(d.value, w.last)
  }

  /**
   * Which of the outcomes processing `row` has, reading each cell as it is
   * once the row is padded: a confirmation when the approval cell is not ''
   * (no trimming); an open shift when it is '', the date cell parses to a
   * day inside the window and the first-responder cell is not ''.
   */
  function Classify(row: Row, w: Window): (o: Outcome)
    ensures o == AlreadyAnnounced <==> Step(row) == row && Announced(row)
    ensures o == Confirmation <==> !Announced(row) && Announced(Step(row))
    ensures o == OpenShift <==>
      !Announced(row) && Step(row) == Pad(row) && InWindow(ParseDate(Pad(row)[DateCol]), w) && Pad(row)[R1Col] != ""
  {
    if Announced(row) then AlreadyAnnounced
    else if CellOrBlank(row, ApprovalCol) != "" then Confirmation
    else if InWindow(ParseDate(CellOrBlank(row, DateCol)), w) && CellOrBlank(row, R1Col) != "" then OpenShift
    else Ignored
  }

  /**
   * The row as processing leaves it: an announced row untouched; otherwise
   * padded, and given the marker when its approval cell is not ''.
   */
  function Step(row: Row): (r: Row)
    ensures Announced(row) ==> r == row
    ensures !Announced(row) ==> |r| == if |row| > AnnounceCol then |row| else AnnounceCol + 1
    ensures !Announced(row) ==> forall k :: 0 <= k < |row| && k != AnnounceCol ==> r[k] == row[k]
    ensures !Announced(row) ==> forall k :: |row| <= k < |r| && k != AnnounceCol ==> r[k] == ""
    ensures !Announced(row) ==>
      r[AnnounceCol] == if CellOrBlank(row, ApprovalCol) != "" then Marker else CellOrBlank(row, AnnounceCol)
  {
    if Announced(row) then row
    else
      var p := Pad(row);
      if p[ApprovalCol] != "" then p[AnnounceCol := Marker] else p
  }

  /** An announced row is skipped: unchanged, and in neither list. */
  lemma AnnouncedRowSkipped(row: Row, w: Window)
    requires Announced(row)
    ensures Step(row) == row
    ensures Classify(row, w) != Confirmation && Classify(row, w) != OpenShift
  {
  }

  /** A row whose date cell does not parse is never an open shift. */
  lemma InvalidDateNotOpen(row: Row, w: Window)
    requires ParseDate(CellOrBlank(row, DateCol)).None?
    ensures Classify(row, w) != OpenShift
  {
  }

  /** After processing, a row carries the marker exactly when it was or just became a confirmation. */
  lemma MarkerAfterStep(row: Row, w: Window)
    ensures |Step(row)| > AnnounceCol
    ensures Announced(Step(row)) <==> Classify(row, w) == AlreadyAnnounced || Classify(row, w) == Confirmation
    ensures Classify(row, w) == OpenShift || Classify(row, w) == Ignored ==>
      Step(row)[AnnounceCol] == CellOrBlank(row, AnnounceCol)
  {
    if !Announced(row) && CellOrBlank(row, ApprovalCol) == "" {
      assert Step(row)[AnnounceCol] == CellOrBlank(row, AnnounceCol) != Marker;
    }
  }

  /** Classification reads only cells 1, 5, 7 and 11 (as padding shows them). */
  lemma ClassifySameCells(a: Row, b: Row, w: Window)
    requires CellOrBlank(a, DateCol) == CellOrBlank(b, DateCol)
    requires CellOrBlank(a, R1Col) == CellOrBlank(b, R1Col)
    requires CellOrBlank(a, ApprovalCol) == CellOrBlank(b, ApprovalCol)
    requires Announced(a) == Announced(b)
    ensures Classify(a, w) == Classify(b, w)
  {
    if !Announced(a) {
      assert Pad(a)[DateCol] == Pad(b)[DateCol];
      assert Pad(a)[R1Col] == Pad(b)[R1Col];
      assert Pad(a)[ApprovalCol] == Pad(b)[ApprovalCol];
    }
  }

  /**
   * Processing a row a second time changes nothing, and a confirmation is
   * skipped the second time; other outcomes are the same again.
   */
  lemma StepIdempotent(row: Row, w: Window)
    ensures Step(Step(row)) == Step(row)
    ensures Classify(Step(row), w) ==
      if Classify(row, w) == Confirmation then AlreadyAnnounced else Classify(row, w)
  {
    MarkerAfterStep(row, w);
    var r := Step(row);
    if !Announced(row) {
      assert CellOrBlank(r, DateCol) == CellOrBlank(row, DateCol);
      assert CellOrBlank(r, R1Col) == CellOrBlank(row, R1Col);
      assert CellOrBlank(r, ApprovalCol) == CellOrBlank(row, ApprovalCol);
      if Classify(row, w) != Confirmation {
        assert Pad(r) == r;
        ClassifySameCells(r, row, w);
      }
    }
  }

  /** Every row of the sheet after one pass. */
  function StepAll(rows: seq<Row>): (r: seq<Row>)
    ensures |r| == |rows|
    ensures forall i :: 0 <= i < |rows| ==> r[i] == Step(rows[i])
  {
    seq(|rows|, i requires 0 <= i < |rows| => Step(rows[i]))
  }

  /** Processing one more row of a partly processed sheet. */
  lemma StepAllNext(rows: seq<Row>, i: nat)
    requires i < |rows|
    ensures (StepAll(rows[..i]) + rows[i..])[i] == rows[i]
    ensures (StepAll(rows[..i]) + rows[i..])[i := Step(rows[i])] == StepAll(rows[..i + 1]) + rows[i + 1..]
  {
    var a, b := StepAll(rows[..i]) + rows[i..], StepAll(rows[..i + 1]) + rows[i + 1..];
    assert |a[i := Step(rows[i])]| == |b|;
    forall k | 0 <= k < |b| ensures a[i := Step(rows[i])][k] == b[k] {
      if k < i {
        assert a[k] == StepAll(rows[..i])[k] == Step(rows[k]);
        assert b[k] == StepAll(rows[..i + 1])[k] == Step(rows[k]);
      } else if k > i {
        assert a[k] == rows[i..][k - i] == rows[k];
        assert b[k] == rows[i + 1..][k - i - 1] == rows[k];
      }
    }
  }

  /** The outcome of every row, in row order. */
  function Outcomes(rows: seq<Row>, w: Window): (os: seq<Outcome>)
    ensures |os| == |rows|
  {
    if rows == [] then [] else Outcomes(rows[..|rows| - 1], w) + [Classify(rows[|rows| - 1], w)]
  }

  /** Position `i` of the outcomes is the outcome of row `i`. */
  lemma {:induction false} OutcomeAt(rows: seq<Row>, w: Window, i: nat)
    requires i < |rows|
    ensures Outcomes(rows, w)[i] == Classify(rows[i], w)
  {
    if i < |rows| - 1 {
      OutcomeAt(rows[..|rows| - 1], w, i);
    }
  }

  /**
   * The indices, in increasing order, of the first `n` positions whose
   * outcome is `o`: the list a pass over those rows builds for `o`.
   */
  function Picked(os: seq<Outcome>, o: Outcome, n: nat): (r: seq<nat>)
    requires n <= |os|
    ensures |r| <= n
  {
    if n == 0 then []
    else Picked(os, o, n - 1) + if os[n - 1] == o then [n - 1] else []
  }

  /**
   * The list holds exactly the positions below `n` whose outcome is `o`,
   * each once, in increasing order.
   */
  lemma {:induction false} PickedExactly(os: seq<Outcome>, o: Outcome, n: nat)
    requires n <= |os|
    ensures forall j :: 0 <= j < |Picked(os, o, n)| ==> Picked(os, o, n)[j] < n && os[Picked(os, o, n)[j]] == o
    ensures forall i :: 0 <= i < n && os[i] == o ==> i in Picked(os, o, n)
    ensures forall j, k :: 0 <= j < k < |Picked(os, o, n)| ==> Picked(os, o, n)[j] < Picked(os, o, n)[k]
  {
    if n > 0 {
      PickedExactly(os, o, n - 1);
    }
  }

  /** One more position either extends the list by its index or leaves it as it was. */
  lemma PickedNext(os: seq<Outcome>, o: Outcome, n: nat)
    requires n < |os|
    ensures os[n] == o ==> Picked(os, o, n + 1) == Picked(os, o, n) + [n]
    ensures os[n] != o ==> Picked(os, o, n + 1) == Picked(os, o, n)
  {
  }

  /** Every position of the outcomes is the outcome of its row. */
  lemma OutcomesAll(rows: seq<Row>, w: Window)
    ensures forall i :: 0 <= i < |rows| ==> Outcomes(rows, w)[i] == Classify(rows[i], w)
  {
    forall i | 0 <= i < |rows| ensures Outcomes(rows, w)[i] == Classify(rows[i], w) {
      OutcomeAt(rows, w, i);
    }
  }

  /** The rows a pass announces as confirmations: each confirmation row once, in row order. */
  function Announces(rows: seq<Row>, w: Window): (r: seq<nat>)
    ensures forall j :: 0 <= j < |r| ==> r[j] < |rows| && Classify(rows[r[j]], w) == Confirmation
    ensures forall i :: 0 <= i < |rows| && Classify(rows[i], w) == Confirmation ==> i in r
    ensures forall j, k :: 0 <= j < k < |r| ==> r[j] < r[k]
  {
    OutcomesAll(rows, w);
    PickedExactly(Outcomes(rows, w), Confirmation, |rows|);
    Picked(Outcomes(rows, w), Confirmation, |rows|)
  }

  /** The rows a pass collects as open shifts: each open-shift row once, in row order. */
  function Shifts(rows: seq<Row>, w: Window): (r: seq<nat>)
    ensures forall j :: 0 <= j < |r| ==> r[j] < |rows| && Classify(rows[r[j]], w) == OpenShift
    ensures forall i :: 0 <= i < |rows| && Classify(rows[i], w) == OpenShift ==> i in r
    ensures forall j, k :: 0 <= j < k < |r| ==> r[j] < r[k]
  {
    OutcomesAll(rows, w);
    PickedExactly(Outcomes(rows, w), OpenShift, |rows|);
    Picked(Outcomes(rows, w), OpenShift, |rows|)
  }

  /**
   * The lists a pass builds: the confirmations and the open shifts, each
   * holding every such row once, in row order, and no row in both.
   */
  lemma {:induction false} PassLists(rows: seq<Row>, w: Window)
    ensures forall j :: 0 <= j < |Announces(rows, w)| ==>
      Announces(rows, w)[j] < |rows| && Classify(rows[Announces(rows, w)[j]], w) == Confirmation
    ensures forall i :: 0 <= i < |rows| && Classify(rows[i], w) == Confirmation ==> i in Announces(rows, w)
    ensures forall j, k :: 0 <= j < k < |Announces(rows, w)| ==> Announces(rows, w)[j] < Announces(rows, w)[k]
    ensures forall j :: 0 <= j < |Shifts(rows, w)| ==>
      Shifts(rows, w)[j] < |rows| && Classify(rows[Shifts(rows, w)[j]], w) == OpenShift
    ensures forall i :: 0 <= i < |rows| && Classify(rows[i], w) == OpenShift ==> i in Shifts(rows, w)
    ensures forall j, k :: 0 <= j < k < |Shifts(rows, w)| ==> Shifts(rows, w)[j] < Shifts(rows, w)[k]
    ensures forall i :: i in Announces(rows, w) ==> i !in Shifts(rows, w)
  {
    var os := Outcomes(rows, w);
    forall i | 0 <= i < |rows| ensures os[i] == Classify(rows[i], w) {
      OutcomeAt(rows, w, i);
    }
    PickedExactly(os, Confirmation, |rows|);
    PickedExactly(os, OpenShift, |rows|);
  }

  /** Picking from the outcomes after a pass, given how the pass changes each outcome. */
  lemma {:induction false} PickedAfterPass(os: seq<Outcome>, after: seq<Outcome>, n: nat)
    requires n <= |os| == |after|
    requires forall i :: 0 <= i < |os| ==> after[i] == if os[i] == Confirmation then AlreadyAnnounced else os[i]
    ensures Picked(after, Confirmation, n) == []
    ensures Picked(after, OpenShift, n) == Picked(os, OpenShift, n)
  {
    if n > 0 {
      PickedAfterPass(os, after, n - 1);
    }
  }

  /**
   * Running the pass again on the rows it left: no row changes, no row is
   * announced a second time, and the same open shifts are collected.
   */
  lemma PassIdempotent(rows: seq<Row>, w: Window)
    ensures StepAll(StepAll(rows)) == StepAll(rows)
    ensures Announces(StepAll(rows), w) == []
    ensures Shifts(StepAll(rows), w) == Shifts(rows, w)
  {
    var os, after := Outcomes(rows, w), Outcomes(StepAll(rows), w);
    forall i | 0 <= i < |rows|
      ensures Step(Step(rows[i])) == Step(rows[i])
      ensures after[i] == if os[i] == Confirmation then AlreadyAnnounced else os[i]
    {
      StepIdempotent(rows[i], w);
      OutcomeAt(rows, w, i);
      OutcomeAt(StepAll(rows), w, i);
    }
    PickedAfterPass(os, after, |rows|);
  }

  /**
   * The one-column table written back: for each row, in order, a one-cell
   * row holding its marker cell, `None` when the row has no such cell.
   */
  function MarkerColumn(rows: seq<Row>): (table: seq<seq<Option<string>>>)
    ensures |table| == |rows|
    ensures forall i :: 0 <= i < |rows| ==>
      table[i] == [if |rows[i]| > AnnounceCol then Some(rows[i][AnnounceCol]) else None]
  {
    if rows == [] then []
    else [[if |rows[0]| > AnnounceCol then Some(rows[0][AnnounceCol]) else None]] + MarkerColumn(rows[1..])
  }

  /**
   * After a pass every row has a marker cell, so the column written back has
   * a defined entry per row, aligned with the rows, and that entry is the
   * marker exactly for rows that were or just became confirmations.
   */
  lemma MarkerColumnAfterPass(rows: seq<Row>, w: Window)
    ensures |MarkerColumn(StepAll(rows))| == |rows|
    ensures forall i :: 0 <= i < |rows| ==>
      MarkerColumn(StepAll(rows))[i] == [Some(StepAll(rows)[i][AnnounceCol])]
    ensures forall i :: 0 <= i < |rows| ==>
      (MarkerColumn(StepAll(rows))[i] == [Some(Marker)] <==>
        Classify(rows[i], w) == AlreadyAnnounced || Classify(rows[i], w) == Confirmation)
  {
    forall i | 0 <= i < |rows|
      ensures MarkerColumn(StepAll(rows))[i] == [Some(StepAll(rows)[i][AnnounceCol])]
      ensures MarkerColumn(StepAll(rows))[i] == [Some(Marker)] <==>
        Classify(rows[i], w) == AlreadyAnnounced || Classify(rows[i], w) == Confirmation
    {
      MarkerAfterStep(rows[i], w);
    }
  }

  /** The window `processShiftRow` fixes is what its two date strings parse to. */
  lemma SourceWindowParses()
    ensures ParseDate("9/5/2019") == Some(SourceWindow.first)
    ensures ParseDate("9/14/2019") == Some(SourceWindow.last)
  {
    ParseWindowStart();
    ParseWindowEnd();
  }

  /** A filled, unapproved shift on September 10, 2019 is an open shift of the fixed window. */
  lemma OpenShiftScenario()
    ensures Classify(["EMS Cover", "09/10/2019", "18:00", "HQ", "", "Alice", "Bob", ""], SourceWindow) == OpenShift
  {
    ParseShiftDate();
  }

  /** The same shift with a pending approval is a confirmation and gets the marker. */
  lemma ConfirmationScenario()
    ensures Classify(["EMS Cover", "09/10/2019", "18:00", "HQ", "", "Alice", "Bob", "Carol"], SourceWindow) == Confirmation
    ensures Step(["EMS Cover", "09/10/2019", "18:00", "HQ", "", "Alice", "Bob", "Carol"]) ==
      ["EMS Cover", "09/10/2019", "18:00", "HQ", "", "Alice", "Bob", "Carol", "", "", "", Marker]
  {
  }
}
