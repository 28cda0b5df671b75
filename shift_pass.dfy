/**
 * The pass over the sheet's rows: each row is processed in place, in order,
 * and pushed onto the list of confirmations to announce or the list of open
 * shifts. A list entry is the index of the row it holds, since the lists
 * hold the row objects themselves.
 */
module Pass {
  import opened ShiftRows
  import Dates

  class ShiftPass {
    var rows: seq<Row>
    var announces: seq<nat>
    var shifts: seq<nat>

    /** A pass over `sheetRows` with both lists empty. */
    constructor (sheetRows: seq<Row>)
      ensures rows == sheetRows && announces == [] && shifts == []
    {
      rows := sheetRows;
      announces := [];
      shifts := [];
    }

    /**
     * Processes row `i`: an announced row is skipped; otherwise the row is
     * padded with '' cells up to its marker cell, then either marked and
     * announced (approval cell not '') or collected as an open shift (dated
     * inside `w` and with a first responder).
     */
    method ProcessShiftRow(i: nat, w: Window)
      requires i < |rows|
      modifies this
      ensures rows == old(rows)[i := Step(old(rows)[i])]
      ensures Classify(old(rows)[i], w) == Confirmation ==> announces == old(announces) + [i]
      ensures Classify(old(rows)[i], w) != Confirmation ==> announces == old(announces)
      ensures Classify(old(rows)[i], w) == OpenShift ==> shifts == old(shifts) + [i]
      ensures Classify(old(rows)[i], w) != OpenShift ==> shifts == old(shifts)
    {
      var row := rows[i];
      if |row| > AnnounceCol && row[AnnounceCol] == Marker {
        return;
      }
      while |row| <= AnnounceCol
        invariant |old(rows)[i]| <= |row| <= if |old(rows)[i]| > AnnounceCol then |old(rows)[i]| else AnnounceCol + 1
        invariant row[..|old(rows)[i]|] == old(rows)[i]
        invariant forall k :: |old(rows)[i]| <= k < |row| ==> row[k] == ""
        decreases AnnounceCol + 1 - |row|
      {
        row := row + [""];
      }
      assert row == Pad(old(rows)[i]);
      if row[ApprovalCol] != "" {
        row := row[AnnounceCol := Marker];
        announces := announces + [i];
      } else {
        var shiftDate := Dates.ParseDate(row[DateCol]);
        var r1 := row[R1Col];
        if InWindow(shiftDate, w) && r1 != "" {
          shifts := shifts + [i];
        }
      }
      rows := rows[i := row];
    }

    /** Processes every row, first to last, into the two lists, which start empty. */
    method ProcessAll(w: Window)
      requires announces == [] && shifts == []
      modifies this
      ensures rows == StepAll(old(rows))
      ensures announces == Announces(old(rows), w)
      ensures shifts == Shifts(old(rows), w)
    {
      ghost var rows0 := rows;
      ghost var os := Outcomes(rows, w);
      for i := 0 to |rows|
        invariant rows == StepAll(rows0[..i]) + rows0[i..]
        invariant announces == Picked(os, Confirmation, i)
        invariant shifts == Picked(os, OpenShift, i)
      {
        OutcomeAt(rows0, w, i);
        PickedNext(os, Confirmation, i);
        PickedNext(os, OpenShift, i);
        StepAllNext(rows0, i);
        ProcessShiftRow(i, w);
      }
      assert rows0[..|rows0|] == rows0;
    }
  }

  /**
   * Reads the sheet's rows and processes them all: returns the rows as the
   * pass leaves them, the confirmations to announce and the open shifts,
   * both in row order, no row in both.
   */
  method GetShifts(sheetRows: seq<Row>, w: Window) returns (rows: seq<Row>, announces: seq<nat>, shifts: seq<nat>)
    ensures rows == StepAll(sheetRows)
    ensures announces == Announces(sheetRows, w)
    ensures shifts == Shifts(sheetRows, w)
    ensures forall i :: i in announces ==> i !in shifts
  {
    var pass := new ShiftPass(sheetRows);
    pass.ProcessAll(w);
    rows, announces, shifts := pass.rows, pass.announces, pass.shifts;
    PassLists(sheetRows, w);
  }
}
