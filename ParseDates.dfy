/** parse_dates as a whole (parsing-dates-earthquakes.py:110-304): copy the
    column, strip times, unify separators, parse strictly, reconcile the rows
    left as NaT and parse them again. The specification function
    ParseDatesSpec composes the stages; the method ParseDates performs them
    on arrays, as the source does on its copy of the Series. */
module ParseDates {
  import opened Text
  import opened TimeStrip
  import opened Separators
  import opened Strptime
  import opened Reconcile

  /** A cell of the datetime column: NaT, a timestamp (midnight of a date),
      or a string written into it by the reconciliation loop. */
  datatype Cell = NaT | Stamp(date: Date) | Pending(text: string)

  /** How a call ends: the returned column, None after the ValueError handler
      of lines 301-302 has printed its message, or an exception the handler
      does not catch. */
  datatype Outcome = Returned(cells: seq<Cell>) | PrintedNone(message: ValueCause) | Crashed(error: Raise)

  /** The text `sep` contributes to the format string. */
  function SepText(sep: Sep): (r: string)
    ensures sep.CharSep? ==> r == [sep.c]
    ensures !sep.CharSep? ==> r == []
  {
    match sep
    case CharSep(c) => [c]
    case _ => []
  }

  function ParsedCell(o: Option<Date>): Cell {
    match o
    case None => NaT
    case Some(d) => Stamp(d)
  }

  /** Line 182: the strict parse of every entry, failures coerced to NaT. */
  function StrictColumn(col: seq<string>, fmt: string): (r: seq<Cell>)
    ensures |r| == |col|
    ensures forall i :: 0 <= i < |col| ==> r[i] == ParsedCell(StrictParse(col[i], fmt))
  {
    seq(|col|, i requires 0 <= i < |col| => ParsedCell(StrictParse(col[i], fmt)))
  }

  /** Lines 184-185: the positions holding NaT, in index order. */
  function NatPositions(cells: seq<Cell>): (r: seq<nat>)
    ensures ValidKeys(r, |cells|)
    decreases |cells|
  {
    if cells == [] then []
    else
      var n := |cells| - 1;
      NatPositions(cells[..n]) + (if cells[n] == NaT then [n] else [])
  }

  /** Every position in `keys` set to c. */
  function Settle(cells: seq<Cell>, keys: seq<nat>, c: Cell): (r: seq<Cell>)
    ensures |r| == |cells|
    ensures forall i :: 0 <= i < |cells| ==> r[i] == if i in keys then c else cells[i]
  {
    seq(|cells|, i requires 0 <= i < |cells| => if i in keys then c else cells[i])
  }

  /** The column after the loop of line 188: every NaT position holds the
      string written last, if any was written. */
  function PendingCells(cells: seq<Cell>, keys: seq<nat>, pending: Option<string>): (r: seq<Cell>)
    ensures |r| == |cells|
    ensures forall i :: 0 <= i < |cells| ==>
      r[i] == if pending.Some? && i in keys then Pending(pending.value) else cells[i]
  {
    match pending
    case None => cells
    case Some(t) => Settle(cells, keys, Pending(t))
  }

  /** The entries as stages A and B leave them. */
  function Prepared(col: seq<string>, dateonly: bool, sep: Sep): (r: seq<string>)
    ensures |r| == |col|
    ensures forall i :: 0 <= i < |col| ==> |r[i]| <= |col[i]|
    ensures forall i :: 0 <= i < |col| && (!dateonly || !Long(col[i])) ==> |r[i]| == |col[i]|
  {
    UnifyStage(StripStage(col, dateonly), sep)
  }

  /** How the call ends once the loop of line 188 has run over the NaT
      positions `nats` of `parsed`, ending in state st: an exception leaves,
      or the pending string is parsed by line 299 into every NaT position. */
  function Conclude(parsed: seq<Cell>, nats: seq<nat>, st: LoopState, fmt: string): (r: Outcome)
    ensures r.Returned? ==> |r.cells| == |parsed|
    ensures r.Crashed? ==> !r.error.ValueError?
    ensures st.stopped.Some? && st.stopped.value.ValueError? ==> r == PrintedNone(st.stopped.value.cause)
    ensures st.stopped.Some? && !st.stopped.value.ValueError? ==> r == Crashed(st.stopped.value)
    ensures st.stopped.None? && st.pending.Some? && StrictParse(st.pending.value, fmt).None? ==>
      r == PrintedNone(Reparse(st.pending.value))
    ensures st.stopped.None? && st.pending.None? ==> r == Returned(parsed)
  {
    match st.stopped
    case Some(e) => if e.ValueError? then PrintedNone(e.cause) else Crashed(e)
    case None =>
      match st.pending
      case None => Returned(parsed)
      case Some(t) =>
        match StrictParse(t, fmt)
        case None => PrintedNone(Reparse(t))
        case Some(d) => Returned(Settle(parsed, nats, Stamp(d)))
  }

  /** What one call returns, prints or raises, for a column of strings, the
      current year standing in for date.today(). */
  function ParseDatesSpec(col: seq<string>, dateonly: bool, f: DateFormat, sep: Sep, currentYear: int): (r: Outcome)
    ensures r.Returned? ==> |r.cells| == |col|
  {
    var unified := Prepared(col, dateonly, sep);
    if sep.NoneSep? then Crashed(TypeError(NoneConcat))
    else
      var fmt := FormatString(f, SepText(sep));
      var parsed := StrictColumn(unified, fmt);
      var nats := NatPositions(parsed);
      if nats == [] then Returned(parsed)
      else Conclude(parsed, nats, Fold(unified, nats, sep, f, currentYear), fmt)
  }

  /** ParseDatesSpec in terms of its parts, for the lemmas below. */
  lemma SpecParts(col: seq<string>, dateonly: bool, f: DateFormat, sep: Sep, currentYear: int)
    requires !sep.NoneSep?
    ensures var unified := Prepared(col, dateonly, sep);
      var fmt := FormatString(f, SepText(sep));
      var parsed := StrictColumn(unified, fmt);
      var nats := NatPositions(parsed);
      ParseDatesSpec(col, dateonly, f, sep, currentYear) ==
        if nats == [] then Returned(parsed) else Conclude(parsed, nats, Fold(unified, nats, sep, f, currentYear), fmt)
  {
  }

  // ---------------------------------------------------------------------
  // Properties of the specification

  /** Property: NatPositions lists exactly the NaT positions, each once, in
      increasing order. */
  lemma {:induction false} NatPositionsExact(cells: seq<Cell>)
    ensures var r := NatPositions(cells);
      (forall i :: 0 <= i < |cells| ==> (i in r <==> cells[i] == NaT)) &&
      (forall j, k :: 0 <= j < k < |r| ==> r[j] < r[k])
    decreases |cells|
  {
    if cells != [] {
      var n := |cells| - 1;
      NatPositionsExact(cells[..n]);
      assert forall i :: 0 <= i < n ==> cells[..n][i] == cells[i];
    }
  }

  /** The returned column keeps the cells the strict parse resolved and gives
      all NaT positions one and the same cell, which is not a string. */
  lemma ConcludeCells(parsed: seq<Cell>, nats: seq<nat>, st: LoopState, fmt: string)
    requires nats == NatPositions(parsed)
    requires forall i :: 0 <= i < |parsed| ==> !parsed[i].Pending?
    ensures var r := Conclude(parsed, nats, st, fmt);
      r.Returned? ==>
        (forall i :: 0 <= i < |parsed| && parsed[i] != NaT ==> r.cells[i] == parsed[i]) &&
        (forall i, j :: 0 <= i < |parsed| && 0 <= j < |parsed| && parsed[i] == NaT && parsed[j] == NaT ==>
          r.cells[i] == r.cells[j] && !r.cells[i].Pending?)
  {
    NatPositionsExact(parsed);
  }

  lemma StrictColumnNoText(col: seq<string>, fmt: string)
    ensures forall i :: 0 <= i < |col| ==> !StrictColumn(col, fmt)[i].Pending?
    ensures forall i :: 0 <= i < |col| ==> (StrictColumn(col, fmt)[i] == NaT <==> StrictParse(col[i], fmt).None?)
  {
  }

  /** Property: rows resolved by the strict parse of line 182 keep that
      date; only NaT positions are rewritten. */
  lemma ResolvedRowsKept(col: seq<string>, dateonly: bool, f: DateFormat, sep: Sep, currentYear: int, i: nat)
    requires i < |col|
    requires StrictParse(Prepared(col, dateonly, sep)[i], FormatString(f, SepText(sep))).Some?
    ensures var r := ParseDatesSpec(col, dateonly, f, sep, currentYear);
      r.Returned? ==> r.cells[i] == Stamp(StrictParse(Prepared(col, dateonly, sep)[i], FormatString(f, SepText(sep))).value)
  {
    if !sep.NoneSep? {
      SpecParts(col, dateonly, f, sep, currentYear);
      var unified := Prepared(col, dateonly, sep);
      var fmt := FormatString(f, SepText(sep));
      var parsed := StrictColumn(unified, fmt);
      var x := StrictParse(unified[i], fmt);
      assert parsed[i] == Stamp(x.value);
      StrictColumnNoText(unified, fmt);
      var nats := NatPositions(parsed);
      if nats != [] {
        ConcludeCells(parsed, nats, Fold(unified, nats, sep, f, currentYear), fmt);
      }
    }
  }

  /** Property: every row the strict parse left as NaT ends with the same
      cell: the write of lines 199-298 goes to all NaT positions at once, so
      the last reassembled string wins, and its parse at line 299 fills them
      all. No string is left in the returned column. */
  lemma NatRowsAgree(col: seq<string>, dateonly: bool, f: DateFormat, sep: Sep, currentYear: int, i: nat, j: nat)
    requires i < |col| && j < |col|
    requires StrictParse(Prepared(col, dateonly, sep)[i], FormatString(f, SepText(sep))).None?
    requires StrictParse(Prepared(col, dateonly, sep)[j], FormatString(f, SepText(sep))).None?
    ensures var r := ParseDatesSpec(col, dateonly, f, sep, currentYear);
      r.Returned? ==> r.cells[i] == r.cells[j] && !r.cells[i].Pending?
  {
    if !sep.NoneSep? {
      SpecParts(col, dateonly, f, sep, currentYear);
      var unified := Prepared(col, dateonly, sep);
      var fmt := FormatString(f, SepText(sep));
      StrictColumnNoText(unified, fmt);
      var parsed := StrictColumn(unified, fmt);
      var nats := NatPositions(parsed);
      NatPositionsExact(parsed);
      assert i in nats;
      ConcludeCells(parsed, nats, Fold(unified, nats, sep, f, currentYear), fmt);
    }
  }

  /** The state after a loop that raised nothing: the text of the last
      step that writes is pending. */
  lemma LastWritePending(steps: seq<Step>, k: nat)
    requires k < |steps| && steps[k].Write?
    requires forall m :: k < m < |steps| ==> steps[m] == Skip
    requires forall m :: 0 <= m < |steps| ==> !steps[m].Fail?
    ensures Run(steps) == LoopState(Some(steps[k].text), None)
  {
    RunLastWriteWins(steps);
    RunStopsAtFirstFailure(steps);
    var st := Run(steps);
    var j :| 0 <= j < |steps| && steps[j] == Write(st.pending.value) &&
      (forall m :: j < m < |steps| ==> steps[m] == Skip);
    assert j == k;
  }

  /** The outcome after a loop whose last write parses to d. */
  lemma ConcludeLastWrite(parsed: seq<Cell>, nats: seq<nat>, steps: seq<Step>, fmt: string, k: nat, d: Date)
    requires k < |steps| && steps[k].Write? && StrictParse(steps[k].text, fmt) == Some(d)
    requires forall m :: k < m < |steps| ==> steps[m] == Skip
    requires forall m :: 0 <= m < |steps| ==> !steps[m].Fail?
    ensures Conclude(parsed, nats, Run(steps), fmt) == Returned(Settle(parsed, nats, Stamp(d)))
  {
    LastWritePending(steps, k);
  }

  /** Property: when the loop ends without an exception and some row was
      written, every NaT position holds the date of the string written by
      the last row that was written. */
  lemma LastWrittenRowWins(col: seq<string>, dateonly: bool, f: DateFormat, sep: Sep, currentYear: int, k: nat, d: Date)
    requires !sep.NoneSep?
    requires var unified := Prepared(col, dateonly, sep);
      var fmt := FormatString(f, SepText(sep));
      var steps := Steps(unified, NatPositions(StrictColumn(unified, fmt)), sep, f, currentYear);
      k < |steps| && steps[k].Write? && StrictParse(steps[k].text, fmt) == Some(d) &&
      (forall m :: k < m < |steps| ==> steps[m] == Skip) &&
      (forall m :: 0 <= m < |steps| ==> !steps[m].Fail?)
    ensures var unified := Prepared(col, dateonly, sep);
      var fmt := FormatString(f, SepText(sep));
      var nats := NatPositions(StrictColumn(unified, fmt));
      var r := ParseDatesSpec(col, dateonly, f, sep, currentYear);
      r.Returned? && forall i :: 0 <= i < |nats| ==> r.cells[nats[i]] == Stamp(d)
  {
    SpecParts(col, dateonly, f, sep, currentYear);
    var unified := Prepared(col, dateonly, sep);
    var fmt := FormatString(f, SepText(sep));
    var parsed := StrictColumn(unified, fmt);
    var nats := NatPositions(parsed);
    var steps := Steps(unified, nats, sep, f, currentYear);
    ConcludeLastWrite(parsed, nats, steps, fmt, k, d);
  }

  /** Property: when the loop ends without an exception and the string
      written last does not parse under the format, the strict parse of
      line 299 raises its ValueError: it is printed and None returned. */
  lemma LastWriteFailsReparse(col: seq<string>, dateonly: bool, f: DateFormat, sep: Sep, currentYear: int, k: nat)
    requires !sep.NoneSep?
    requires var unified := Prepared(col, dateonly, sep);
      var fmt := FormatString(f, SepText(sep));
      var steps := Steps(unified, NatPositions(StrictColumn(unified, fmt)), sep, f, currentYear);
      k < |steps| && steps[k].Write? && StrictParse(steps[k].text, fmt).None? &&
      (forall m :: k < m < |steps| ==> steps[m] == Skip) &&
      (forall m :: 0 <= m < |steps| ==> !steps[m].Fail?)
    ensures var unified := Prepared(col, dateonly, sep);
      var fmt := FormatString(f, SepText(sep));
      var steps := Steps(unified, NatPositions(StrictColumn(unified, fmt)), sep, f, currentYear);
      ParseDatesSpec(col, dateonly, f, sep, currentYear) == PrintedNone(Reparse(steps[k].text))
  {
    SpecParts(col, dateonly, f, sep, currentYear);
    var unified := Prepared(col, dateonly, sep);
    var fmt := FormatString(f, SepText(sep));
    var parsed := StrictColumn(unified, fmt);
    var nats := NatPositions(parsed);
    var steps := Steps(unified, nats, sep, f, currentYear);
    LastWritePending(steps, k);
  }

  /** Property: the row whose loop step raises first decides the call,
      however many unresolved rows before it were skipped or written: a
      ValueError is printed and None returned (lines 301-302), any other
      exception leaves the function. */
  lemma ReachedRowRaises(col: seq<string>, dateonly: bool, f: DateFormat, sep: Sep, currentYear: int, i: nat, e: Raise)
    requires !sep.NoneSep? && i < |col|
    requires var unified := Prepared(col, dateonly, sep);
      var fmt := FormatString(f, SepText(sep));
      StrictParse(unified[i], fmt).None? &&
      (forall j :: 0 <= j < i && StrictParse(unified[j], fmt).None? ==>
        !RowStep(unified[j], j, sep, f, currentYear).Fail?) &&
      RowStep(unified[i], i, sep, f, currentYear) == Fail(e)
    ensures ParseDatesSpec(col, dateonly, f, sep, currentYear) ==
      if e.ValueError? then PrintedNone(e.cause) else Crashed(e)
  {
    SpecParts(col, dateonly, f, sep, currentYear);
    var unified := Prepared(col, dateonly, sep);
    var fmt := FormatString(f, SepText(sep));
    StrictColumnNoText(unified, fmt);
    var parsed := StrictColumn(unified, fmt);
    var nats := NatPositions(parsed);
    NatPositionsExact(parsed);
    assert i in nats;
    var p :| 0 <= p < |nats| && nats[p] == i;
    var steps := Steps(unified, nats, sep, f, currentYear);
    forall m | 0 <= m < p
      ensures !steps[m].Fail?
    {
      assert nats[m] < i && nats[m] in nats;
    }
    FailureStopsLoop(steps, p);
  }

  /** Property: an entry the strict parse left unresolved that does not
      contain the separator, or any such entry when the separator is empty,
      ends the call with the ValueError of line 190 naming that entry and
      its index, printed, and None returned, once the loop reaches it. */
  lemma ReachedRowWithoutSeparator(col: seq<string>, dateonly: bool, f: DateFormat, sep: Sep, currentYear: int, i: nat)
    requires !sep.NoneSep? && i < |col|
    requires var unified := Prepared(col, dateonly, sep);
      var fmt := FormatString(f, SepText(sep));
      StrictParse(unified[i], fmt).None? &&
      (forall j :: 0 <= j < i && StrictParse(unified[j], fmt).None? ==>
        !RowStep(unified[j], j, sep, f, currentYear).Fail?) &&
      (sep == EmptySep || sep.c !in unified[i])
    ensures ParseDatesSpec(col, dateonly, f, sep, currentYear) ==
      PrintedNone(NotInFormat(Prepared(col, dateonly, sep)[i], i))
  {
    var u := Prepared(col, dateonly, sep)[i];
    ReachedRowRaises(col, dateonly, f, sep, currentYear, i, ValueError(NotInFormat(u, i)));
  }

  /** A loop stops with the exception of the first step that raises. */
  lemma FailureStopsLoop(steps: seq<Step>, p: nat)
    requires p < |steps| && steps[p].Fail?
    requires forall m :: 0 <= m < p ==> !steps[m].Fail?
    ensures Run(steps).stopped == Some(steps[p].error)
  {
    RunStopsAtFirstFailure(steps);
    var j :| 0 <= j < |steps| && steps[j] == Fail(Run(steps).stopped.value) &&
      (forall m :: 0 <= m < j ==> !steps[m].Fail?);
    assert j == p;
  }

  /** Property: with sep=None the call raises the TypeError of line 182,
      which the handler does not catch; a ValueError never escapes. */
  lemma ExceptionsThatEscape(col: seq<string>, dateonly: bool, f: DateFormat, sep: Sep, currentYear: int)
    ensures sep.NoneSep? ==> ParseDatesSpec(col, dateonly, f, sep, currentYear) == Crashed(TypeError(NoneConcat))
    ensures var r := ParseDatesSpec(col, dateonly, f, sep, currentYear);
      r.Crashed? ==> !r.error.ValueError?
  {
    if !sep.NoneSep? {
      SpecParts(col, dateonly, f, sep, currentYear);
    }
  }

  // ---------------------------------------------------------------------
  // The imperative pipeline

  /** Line 127: `date_obj_col.copy()`. */
  method CopyColumn(col: array<string>) returns (work: array<string>)
    ensures fresh(work) && work[..] == col[..]
  {
    work := new string[col.Length];
    for i := 0 to col.Length
      invariant forall j :: 0 <= j < i ==> work[j] == col[j]
    {
      work[i] := col[i];
    }
  }

  /** Line 182 over the working copy: a new datetime column. */
  method StrictParseColumn(work: array<string>, fmt: string) returns (cells: array<Cell>)
    ensures fresh(cells) && cells[..] == StrictColumn(work[..], fmt)
  {
    cells := new Cell[work.Length];
    for i := 0 to work.Length
      invariant forall j :: 0 <= j < i ==> cells[j] == ParsedCell(StrictParse(work[j], fmt))
    {
      cells[i] := ParsedCell(StrictParse(work[i], fmt));
    }
  }

  /** Lines 184-185: `date_col_copy_final[nat_condition].index.tolist()`. */
  method NatIndices(cells: array<Cell>) returns (nats: seq<nat>)
    ensures nats == NatPositions(cells[..])
  {
    nats := [];
    for i := 0 to cells.Length
      invariant nats == NatPositions(cells[..i])
    {
      assert cells[..i + 1][..i] == cells[..i];
      if cells[i] == NaT {
        nats := nats + [i];
      }
    }
    assert cells[..cells.Length] == cells[..];
  }

  /** `date_col_copy_final[nat_indices] = c`. */
  method WriteAll(cells: array<Cell>, keys: seq<nat>, c: Cell)
    requires ValidKeys(keys, cells.Length)
    modifies cells
    ensures cells[..] == Settle(old(cells[..]), keys, c)
  {
    for j := 0 to |keys|
      invariant forall i :: 0 <= i < cells.Length ==> cells[i] == if i in keys[..j] then c else old(cells[i])
    {
      cells[keys[j]] := c;
      assert forall i :: i in keys[..j + 1] <==> i in keys[..j] || i == keys[j];
    }
    assert keys[..|keys|] == keys;
  }

  /** Once the loop has stopped, later rows change nothing. */
  lemma {:induction false} RunAfterStop(steps: seq<Step>, j: nat)
    requires j <= |steps| && Run(steps[..j]).stopped.Some?
    ensures Run(steps) == Run(steps[..j])
    decreases |steps| - j
  {
    if j < |steps| {
      assert steps[..j + 1][..j] == steps[..j];
      RunAfterStop(steps, j + 1);
    } else {
      assert steps[..j] == steps;
    }
  }

  /** One more turn of the loop adds one step to the run. */
  lemma RunExtend(steps: seq<Step>, j: nat)
    requires j < |steps|
    ensures Run(steps[..j + 1]) == Next(Run(steps[..j]), steps[j])
  {
    assert steps[..j + 1][..j] == steps[..j];
  }

  /** Writing to every NaT position overrides whatever was written before. */
  lemma SettleOverPending(cells: seq<Cell>, keys: seq<nat>, pending: Option<string>, t: string)
    ensures Settle(PendingCells(cells, keys, pending), keys, Pending(t)) == PendingCells(cells, keys, Some(t))
  {
  }

  /** The loop of lines 188-298. It stops at the first exception; each
      write goes to every NaT position. */
  method ReconcileRows(work: array<string>, cells: array<Cell>, nats: seq<nat>, sep: Sep, f: DateFormat, currentYear: int)
    returns (st: LoopState)
    requires ValidKeys(nats, work.Length) && cells.Length == work.Length
    modifies cells
    ensures st == Fold(work[..], nats, sep, f, currentYear)
    ensures cells[..] == PendingCells(old(cells[..]), nats, st.pending)
  {
    ghost var steps := Steps(work[..], nats, sep, f, currentYear);
    st := LoopState(None, None);
    var j := 0;
    while j < |nats| && st.stopped.None?
      invariant 0 <= j <= |nats|
      invariant st == Run(steps[..j])
      invariant cells[..] == PendingCells(old(cells[..]), nats, st.pending)
    {
      var key := nats[j];
      var step := RowStep(work[key], key, sep, f, currentYear);
      assert steps[j] == step;
      RunExtend(steps, j);
      match step {
        case Write(t) =>
          SettleOverPending(old(cells[..]), nats, st.pending, t);
          WriteAll(cells, nats, Pending(t));
          st := LoopState(Some(t), None);
        case Skip =>
        case Fail(e) =>
          st := LoopState(st.pending, Some(e));
      }
      j := j + 1;
    }
    if st.stopped.Some? {
      RunAfterStop(steps, j);
    } else {
      assert steps[..j] == steps;
    }
  }

  /** parse_dates on a column of strings. The caller's array is only read:
      the method has no modifies clause, so the column is unchanged, as the
      copy of line 127 guarantees in the source. */
  method ParseDates(col: array<string>, dateonly: bool, f: DateFormat, sep: Sep, currentYear: int)
    returns (r: Outcome)
    ensures r == ParseDatesSpec(col[..], dateonly, f, sep, currentYear)
  {
    var work := CopyColumn(col);
    StripTimes(work, dateonly);
    UnifySeparators(work, sep);
    assert work[..] == Prepared(col[..], dateonly, sep);
    if sep.NoneSep? {
      return Crashed(TypeError(NoneConcat));
    }
    var fmt := FormatString(f, SepText(sep));
    var cells := StrictParseColumn(work, fmt);
    ghost var parsed := cells[..];
    var nats := NatIndices(cells);
    if nats == [] {
      return Returned(cells[..]);
    }
    var st := ReconcileRows(work, cells, nats, sep, f, currentYear);
    if st.stopped.Some? {
      var e := st.stopped.value;
      if e.ValueError? {
        return PrintedNone(e.cause);
      }
      return Crashed(e);
    }
    if st.pending.None? {
      return Returned(cells[..]);
    }
    // Line 299: every NaT position now holds the pending string.
    var t := st.pending.value;
    var d := StrictParse(t, fmt);
    if d.None? {
      return PrintedNone(Reparse(t));
    }
    WriteAll(cells, nats, Stamp(d.value));
    assert cells[..] == Settle(parsed, nats, Stamp(d.value));
    r := Returned(cells[..]);
  }
}
