/** Stage D of parse_dates, row by row: an entry the strict parse left as NaT
    is split on the separator, its fields are checked the way lines 192-298
    check them, and it is written back in the order of date_format
    (parsing-dates-earthquakes.py:188-298). */
module Reconcile {
  import opened Text
  import opened Strptime
  import opened Separators

  /** Why a ValueError was raised; the handler of lines 301-302 prints it and
      the function returns None. */
  datatype ValueCause =
    | NotInFormat(value: string, index: nat) // line 190
    | BadInt(field: string)                  // int() of a field that is not a number
    | Reparse(value: string)                 // the strict parse of line 299

  datatype TypeCause =
    | NoneConcat // `date_format[:2] + None` at line 182
    | LenOfBool  // `len(split_date[0]==2)` in the elif of line 200 and its five copies

  /** An exception leaving the loop. Only ValueError is caught (line 301). */
  datatype Raise = ValueError(cause: ValueCause) | TypeError(tcause: TypeCause) | IndexError

  /** What the loop body does with one unresolved row. */
  datatype Step = Write(text: string) | Skip | Fail(error: Raise)

  /** `int(str(date.today().year)[2:])` for a four-digit year. */
  function YearSuffix(currentYear: int): int {
    currentYear % 100
  }

  /** `len(x)==n and int(x) in range(lo, hi+1)`, with int() evaluated only
      when the length test holds: None where int() raises. */
  function FieldInRange(x: string, n: nat, lo: int, hi: int): (r: Option<bool>)
    ensures r == Some(true) <==> |x| == n && PyInt(x).Some? && lo <= PyInt(x).value <= hi
    ensures r.None? <==> |x| == n && PyInt(x).None?
  {
    if |x| != n then Some(false)
    else match PyInt(x)
      case None => None
      case Some(v) => Some(lo <= v <= hi)
  }

  /** The year-first test that opens each of the six branches (line 195 and
      its copies): a 2-character year in [0, yy] or a 4-character year in
      [1945, current year]. */
  function YearFirst(x: string, currentYear: int): (r: Option<bool>)
    ensures r == Some(true) <==>
      PyInt(x).Some? &&
      ((|x| == 2 && 0 <= PyInt(x).value <= YearSuffix(currentYear)) ||
       (|x| == 4 && 1945 <= PyInt(x).value <= currentYear))
    ensures r.None? <==> (|x| == 2 || |x| == 4) && PyInt(x).None?
  {
    if |x| == 2 then FieldInRange(x, 2, 0, YearSuffix(currentYear))
    else FieldInRange(x, 4, 1945, currentYear)
  }

  /** `s0 if len(s0)==2 else s0[2:]`: the year as written for a %y target. */
  function ShortYear(s0: string): (r: string)
    requires |s0| == 2 || |s0| == 4
    ensures |r| == 2 && r == s0[|s0| - 2..]
  {
    if |s0| == 2 then s0 else s0[2..]
  }

  /** `s0 if len(s0)==4 else ('19' if int(s0)>45 else '20')+s0`: the year as
      written for a %Y target, v0 being int(s0). */
  function LongYear(s0: string, v0: int): (r: string)
    requires |s0| == 2 || |s0| == 4
    ensures |r| == 4 && r[2..] == s0[|s0| - 2..]
  {
    if |s0| == 4 then s0 else (if v0 > 45 then "19" else "20") + s0
  }

  /** The string written back for a year-first row with year s0 (value v0),
      month s1 and day s2, one case per branch (lines 199, 215, 231, 247,
      263 and 279-280). */
  function Reassemble(f: DateFormat, c: char, s0: string, v0: int, s1: string, s2: string): (r: string)
    requires |s0| == 2 || |s0| == 4
    ensures |r| == |s1| + |s2| + 2 + (if 'Y' in Codes(f) then 4 else 2)
  {
    match f
    case MDy => s1 + [c] + s2 + [c] + ShortYear(s0)
    case MDY => s1 + [c] + s2 + [c] + LongYear(s0, v0)
    case DMy => s2 + [c] + s1 + [c] + ShortYear(s0)
    case DMY => s2 + [c] + s1 + [c] + LongYear(s0, v0)
    case yMD => ShortYear(s0) + [c] + s1 + [c] + s2
    case YMD => LongYear(s0, v0) + [c] + s1 + [c] + s2
  }

  /** The body of the loop of line 188 for the row at index `key` holding
      `val`. The six branches on date_format share their tests, and only the
      first arm of each is reachable: when the year-first test fails, the
      elif raises the TypeError before anything else is looked at. */
  function RowStep(val: string, key: nat, sep: Sep, f: DateFormat, currentYear: int): (r: Step)
    ensures (!sep.CharSep? || sep.c !in val) <==> r == Fail(ValueError(NotInFormat(val, key)))
    ensures r == Fail(TypeError(LenOfBool)) <==>
      sep.CharSep? && sep.c in val && YearFirst(Split(val, sep.c)[0], currentYear) == Some(false)
    ensures r == Skip ==> sep.CharSep? && YearFirst(Split(val, sep.c)[0], currentYear) == Some(true)
    ensures r == Fail(IndexError) ==> sep.CharSep? && |Split(val, sep.c)| == 2
    ensures r.Write? ==> |r.text| == (if 'Y' in Codes(f) then 10 else 8)
  {
    if !sep.CharSep? || sep.c !in val then Fail(ValueError(NotInFormat(val, key)))
    else
      var p := Split(val, sep.c);
      match YearFirst(p[0], currentYear)
      case None => Fail(ValueError(BadInt(p[0])))
      case Some(false) => Fail(TypeError(LenOfBool))
      case Some(true) =>
        match FieldInRange(p[1], 2, 1, 12)
        case None => Fail(ValueError(BadInt(p[1])))
        case Some(false) => Skip
        case Some(true) =>
          if |p| < 3 then Fail(IndexError)
          else
            match FieldInRange(p[2], 2, 1, 31)
            case None => Fail(ValueError(BadInt(p[2])))
            case Some(false) => Skip
            case Some(true) => Write(Reassemble(f, sep.c, p[0], PyInt(p[0]).value, p[1], p[2]))
  }

  /** The loop's state: the string last written to the NaT positions, and
      the exception that ended the loop, if any. */
  datatype LoopState = LoopState(pending: Option<string>, stopped: Option<Raise>)

  predicate ValidKeys(keys: seq<nat>, n: nat) {
    forall j :: 0 <= j < |keys| ==> keys[j] < n
  }

  /** One turn of the loop: a stopped loop stays stopped, a write replaces
      what is pending, a skip changes nothing. */
  function Next(st: LoopState, step: Step): (r: LoopState)
    ensures st.stopped.Some? ==> r == st
    ensures r.stopped.Some? <==> st.stopped.Some? || step.Fail?
    ensures step == Skip ==> r == st
  {
    if st.stopped.Some? then st
    else
      match step
      case Write(t) => LoopState(Some(t), None)
      case Skip => st
      case Fail(e) => LoopState(st.pending, Some(e))
  }

  /** The steps taken for the unresolved rows `keys` of `vals`, in order. */
  function Steps(vals: seq<string>, keys: seq<nat>, sep: Sep, f: DateFormat, currentYear: int): (r: seq<Step>)
    requires ValidKeys(keys, |vals|)
    ensures |r| == |keys|
    ensures forall j :: 0 <= j < |keys| ==> r[j] == RowStep(vals[keys[j]], keys[j], sep, f, currentYear)
  {
    seq(|keys|, j requires 0 <= j < |keys| => RowStep(vals[keys[j]], keys[j], sep, f, currentYear))
  }

  /** The loop run over a sequence of steps. */
  function Run(steps: seq<Step>): LoopState
    decreases |steps|
  {
    if steps == [] then LoopState(None, None)
    else Next(Run(steps[..|steps| - 1]), steps[|steps| - 1])
  }

  /** The loop of line 188 run over the rows `keys` of `vals`, in order. */
  function Fold(vals: seq<string>, keys: seq<nat>, sep: Sep, f: DateFormat, currentYear: int): (r: LoopState)
    requires ValidKeys(keys, |vals|)
    ensures r.stopped.None? <==> forall j :: 0 <= j < |keys| ==> !RowStep(vals[keys[j]], keys[j], sep, f, currentYear).Fail?
  {
    RunStopsAtFirstFailure(Steps(vals, keys, sep, f, currentYear));
    Run(Steps(vals, keys, sep, f, currentYear))
  }

  // ---------------------------------------------------------------------
  // Properties of one row

  /** The field that fills the slot of directive `code` in the reassembled
      string: the month s1, the day s2, or the year in the width the target
      asks for. */
  function SlotText(code: char, s0: string, v0: int, s1: string, s2: string): string
    requires |s0| == 2 || |s0| == 4
  {
    if code == 'm' then s1
    else if code == 'd' then s2
    else if code == 'y' then ShortYear(s0)
    else LongYear(s0, v0)
  }

  /** Property: the row is written in the order the format names its fields,
      with the separator between them, so it has the shape the format at
      line 299 expects. */
  lemma ReassembleFollowsFormat(f: DateFormat, c: char, s0: string, v0: int, s1: string, s2: string)
    requires |s0| == 2 || |s0| == 4
    ensures var cs := Codes(f);
      Reassemble(f, c, s0, v0, s1, s2) ==
        SlotText(cs[0], s0, v0, s1, s2) + [c] + SlotText(cs[1], s0, v0, s1, s2) + [c] + SlotText(cs[2], s0, v0, s1, s2)
  {
  }

  /** Property: for a 2-digit year the '19' arm of the pivot is dead while
      the current year lies in 2000-2045: the year-first test keeps only
      years up to yy, which is at most 45. */
  lemma PivotAlwaysTwenty(s0: string, currentYear: int)
    requires 2000 <= currentYear <= 2045 && |s0| == 2
    requires YearFirst(s0, currentYear) == Some(true)
    ensures LongYear(s0, PyInt(s0).value) == "20" + s0
  {
    EarlyYearSuffix(currentYear);
    TwentyPrefix(s0, PyInt(s0).value);
  }

  lemma EarlyYearSuffix(currentYear: int)
    requires 2000 <= currentYear <= 2045
    ensures YearSuffix(currentYear) <= 45
  {
  }

  lemma TwentyPrefix(s0: string, v0: int)
    requires |s0| == 2 && v0 <= 45
    ensures LongYear(s0, v0) == "20" + s0
  {
  }

  /** The year strptime reads back from the year text written for format f. */
  function WrittenYear(f: DateFormat, s0: string, v0: int): int
    requires (|s0| == 2 || |s0| == 4) && AllDigits(s0)
  {
    if Codes(f)[2] == 'y' || Codes(f)[0] == 'y' then CenturyOf(DigitsValue(ShortYear(s0)))
    else WrittenYearLong(s0, v0)
  }

  function WrittenYearLong(s0: string, v0: int): int
    requires (|s0| == 2 || |s0| == 4) && AllDigits(s0)
  {
    if |s0| == 4 then DigitsValue(s0) else (if v0 > 45 then 1900 else 2000) + DigitsValue(s0)
  }

  /** A row made of three digit fields separated by c. */
  predicate DigitRow(c: char, s0: string, s1: string, s2: string) {
    AllDigits(s0) && AllDigits(s1) && AllDigits(s2) && s0 != [] && s1 != [] && s2 != [] &&
    c !in s0 && c !in s1 && c !in s2
  }

  function RowText(c: char, s0: string, s1: string, s2: string): string {
    s0 + [c] + s1 + [c] + s2
  }

  lemma SplitRow(c: char, s0: string, s1: string, s2: string)
    requires c !in s0 && c !in s1 && c !in s2
    ensures Split(RowText(c, s0, s1, s2), c) == [s0, s1, s2]
  {
    var pieces := [s0, s1, s2];
    assert pieces[1..] == [s1, s2] && [s1, s2][1..] == [s2];
    assert Join([s2], c) == s2;
    assert Join([s1, s2], c) == s1 + [c] + s2;
    assert Join(pieces, c) == RowText(c, s0, s1, s2);
    SplitJoin(pieces, c);
  }

  /** On a digit string the range test is decided by its value. */
  lemma DigitFieldInRange(x: string, n: nat, lo: int, hi: int)
    requires AllDigits(x) && x != []
    ensures FieldInRange(x, n, lo, hi) == Some(|x| == n && lo <= DigitsValue(x) <= hi)
  {
  }

  /** Property: on a row of three digit fields the loop body writes exactly
      when the year-first test holds, the month is two digits in 1..12 and
      the day two digits in 1..31; it skips the row exactly when the year
      holds but the month or the day does not; and it raises the TypeError
      exactly when the year-first test fails. */
  lemma DigitRowStep(val: string, key: nat, c: char, f: DateFormat, currentYear: int, s0: string, s1: string, s2: string)
    requires DigitRow(c, s0, s1, s2) && val == RowText(c, s0, s1, s2)
    ensures var yearOk := (|s0| == 2 && DigitsValue(s0) <= YearSuffix(currentYear))
      || (|s0| == 4 && 1945 <= DigitsValue(s0) <= currentYear);
      var monthOk := |s1| == 2 && 1 <= DigitsValue(s1) <= 12;
      var dayOk := |s2| == 2 && 1 <= DigitsValue(s2) <= 31;
      var r := RowStep(val, key, CharSep(c), f, currentYear);
      (r.Write? <==> yearOk && monthOk && dayOk) &&
      (r == Skip <==> yearOk && !(monthOk && dayOk)) &&
      (r == Fail(TypeError(LenOfBool)) <==> !yearOk) &&
      (r.Write? ==> r.text == Reassemble(f, c, s0, DigitsValue(s0), s1, s2))
  {
    SplitRow(c, s0, s1, s2);
    assert c in val by {
      assert val[|s0|] == c;
    }
    var yearOk := (|s0| == 2 && DigitsValue(s0) <= YearSuffix(currentYear))
      || (|s0| == 4 && 1945 <= DigitsValue(s0) <= currentYear);
    var monthOk := |s1| == 2 && 1 <= DigitsValue(s1) <= 12;
    var dayOk := |s2| == 2 && 1 <= DigitsValue(s2) <= 31;
    DigitFieldInRange(s0, 2, 0, YearSuffix(currentYear));
    DigitFieldInRange(s0, 4, 1945, currentYear);
    DigitFieldInRange(s1, 2, 1, 12);
    DigitFieldInRange(s2, 2, 1, 31);
    assert YearFirst(s0, currentYear) == Some(yearOk);
    assert PyInt(s0) == Some(DigitsValue(s0) as int);
    var r := RowStep(val, key, CharSep(c), f, currentYear);
    if !yearOk {
      assert r == Fail(TypeError(LenOfBool));
    } else if !(monthOk && dayOk) {
      assert r == Skip;
    } else {
      assert r == Write(Reassemble(f, c, s0, DigitsValue(s0), s1, s2));
    }
  }

  /** Property: a field that int() cannot read ends the loop with the
      ValueError of line 195, 197 or 198 (printed by the handler of lines
      301-302), once the tests before it have passed: the year field when it
      has the length of a year, the month field when the year passed and it
      has two characters, the day field when the month passed too. */
  lemma NonNumericFieldRaises(val: string, key: nat, c: char, f: DateFormat, currentYear: int)
    requires c in val
    ensures var p := Split(val, c);
      (|p[0]| == 2 || |p[0]| == 4) && (exists i :: 0 <= i < |p[0]| && NeverInInt(p[0][i])) ==>
        RowStep(val, key, CharSep(c), f, currentYear) == Fail(ValueError(BadInt(p[0])))
    ensures var p := Split(val, c);
      YearFirst(p[0], currentYear) == Some(true) && |p[1]| == 2 && (exists i :: 0 <= i < 2 && NeverInInt(p[1][i])) ==>
        RowStep(val, key, CharSep(c), f, currentYear) == Fail(ValueError(BadInt(p[1])))
    ensures var p := Split(val, c);
      YearFirst(p[0], currentYear) == Some(true) && FieldInRange(p[1], 2, 1, 12) == Some(true) &&
      |p| >= 3 && |p[2]| == 2 && (exists i :: 0 <= i < 2 && NeverInInt(p[2][i])) ==>
        RowStep(val, key, CharSep(c), f, currentYear) == Fail(ValueError(BadInt(p[2])))
  {
  }

  /** Property: a row of only two fields whose year and month pass their
      tests raises the IndexError of `split_date[2]` (line 198), which the
      handler does not catch. */
  lemma TwoFieldRowRaises(val: string, key: nat, c: char, f: DateFormat, currentYear: int, s0: string, s1: string)
    requires c !in s0 && c !in s1 && val == s0 + [c] + s1
    requires YearFirst(s0, currentYear) == Some(true) && FieldInRange(s1, 2, 1, 12) == Some(true)
    ensures RowStep(val, key, CharSep(c), f, currentYear) == Fail(IndexError)
  {
    SplitTwo(c, s0, s1);
  }

  lemma SplitTwo(c: char, s0: string, s1: string)
    requires c !in s0 && c !in s1
    ensures c in s0 + [c] + s1
    ensures Split(s0 + [c] + s1, c) == [s0, s1]
  {
    var pieces := [s0, s1];
    assert pieces[1..] == [s1];
    assert Join(pieces, c) == s0 + [c] + s1;
    SplitJoin(pieces, c);
    assert (s0 + [c] + s1)[|s0|] == c;
  }

  /** Property: a row written back parses, under the format of line 299, to
      the date its fields name (month s1, day s2, the year as rewritten),
      exactly when that date exists and is representable. */
  lemma WrittenRowParses(f: DateFormat, c: char, s0: string, v0: int, s1: string, s2: string)
    requires c != '%'
    requires (|s0| == 2 || |s0| == 4) && AllDigits(s0) && v0 == DigitsValue(s0)
    requires AllDigits(s1) && |s1| == 2 && 1 <= DigitsValue(s1) <= 12
    requires AllDigits(s2) && |s2| == 2 && 1 <= DigitsValue(s2) <= 31
    ensures var d := Date(WrittenYear(f, s0, v0), DigitsValue(s1), DigitsValue(s2));
      StrictParse(Reassemble(f, c, s0, v0, s1, s2), FormatString(f, [c])) ==
        if ValidDate(d) && InTimestampRange(d) then Some(d) else None
  {
    var cs := Codes(f);
    var x0, x1, x2 := SlotText(cs[0], s0, v0, s1, s2), SlotText(cs[1], s0, v0, s1, s2), SlotText(cs[2], s0, v0, s1, s2);
    ReassembleFollowsFormat(f, c, s0, v0, s1, s2);
    assert AllDigits(ShortYear(s0));
    LongYearDigits(s0, v0);
    CanonicalParses(f, [c], x0, x1, x2);
    assert x0 + [c] + x1 + [c] + x2 == Reassemble(f, c, s0, v0, s1, s2);
    BuildFields(f, s0, v0, s1, s2);
  }

  /** The 4-digit year written back is made of digits and reads as the
      year it stands for. */
  lemma LongYearDigits(s0: string, v0: int)
    requires (|s0| == 2 || |s0| == 4) && AllDigits(s0)
    ensures AllDigits(LongYear(s0, v0)) && DigitsValue(LongYear(s0, v0)) == WrittenYearLong(s0, v0)
  {
    var ly := LongYear(s0, v0);
    assert AllDigits(ly) by {
      if |s0| != 4 {
        forall i | 0 <= i < 4 ensures IsDigit(ly[i]) {
          if i >= 2 { assert ly[i] == s0[i - 2]; }
        }
      }
    }
    DigitsValueBound(ly);
    DigitsValueTwo(ly[..2]);
    if |s0| == 2 {
      assert ly[2..] == s0;
    } else {
      assert ly == s0;
    }
  }

  /** Storing one slot of the written row sets the field its code names. */
  lemma AssignSlot(d: Date, code: char, s0: string, v0: int, s1: string, s2: string)
    requires (|s0| == 2 || |s0| == 4) && AllDigits(s0) && v0 == DigitsValue(s0)
    requires AllDigits(s1) && AllDigits(s2)
    requires code == 'm' || code == 'd' || code == 'y' || code == 'Y'
    ensures Assign(d, code, SlotText(code, s0, v0, s1, s2)) ==
      if code == 'm' then d.(month := DigitsValue(s1))
      else if code == 'd' then d.(day := DigitsValue(s2))
      else if code == 'y' then d.(year := CenturyOf(DigitsValue(ShortYear(s0))))
      else d.(year := WrittenYearLong(s0, v0))
  {
    if code == 'y' {
      assert AllDigits(ShortYear(s0));
    } else if code == 'Y' {
      LongYearDigits(s0, v0);
    }
  }

  /** The date strptime builds from the fields of a written row carries the
      year as rewritten, the month and the day. */
  lemma BuildFields(f: DateFormat, s0: string, v0: int, s1: string, s2: string)
    requires (|s0| == 2 || |s0| == 4) && AllDigits(s0) && v0 == DigitsValue(s0)
    requires AllDigits(s1) && AllDigits(s2)
    ensures var cs := Codes(f);
      FieldsDate(f, SlotText(cs[0], s0, v0, s1, s2), SlotText(cs[1], s0, v0, s1, s2), SlotText(cs[2], s0, v0, s1, s2))
        == Date(WrittenYear(f, s0, v0), DigitsValue(s1), DigitsValue(s2))
  {
    var cs := Codes(f);
    var x0, x1, x2 := SlotText(cs[0], s0, v0, s1, s2), SlotText(cs[1], s0, v0, s1, s2), SlotText(cs[2], s0, v0, s1, s2);
    BuildThree(cs, [x0, x1, x2]);
    var d0 := Date(1900, 1, 1);
    AssignSlot(d0, cs[0], s0, v0, s1, s2);
    var d1 := Assign(d0, cs[0], x0);
    AssignSlot(d1, cs[1], s0, v0, s1, s2);
    var d2 := Assign(d1, cs[1], x1);
    AssignSlot(d2, cs[2], s0, v0, s1, s2);
  }

  // ---------------------------------------------------------------------
  // Properties of the loop

  /** Property: the loop stops at the first step that raises, with that
      exception; a loop that does not stop met no such step. */
  lemma {:induction false} RunStopsAtFirstFailure(steps: seq<Step>)
    ensures Run(steps).stopped.None? <==> forall j :: 0 <= j < |steps| ==> !steps[j].Fail?
    ensures Run(steps).stopped.Some? ==>
      exists j :: 0 <= j < |steps| && steps[j] == Fail(Run(steps).stopped.value) &&
        (forall i :: 0 <= i < j ==> !steps[i].Fail?)
    decreases |steps|
  {
    if steps != [] {
      var pre := steps[..|steps| - 1];
      RunStopsAtFirstFailure(pre);
      assert forall i :: 0 <= i < |pre| ==> pre[i] == steps[i];
    }
  }

  /** Property: each write replaces the previous one. When the loop runs to
      the end, the string left pending is the one written by the last step
      that writes, and nothing is pending exactly when every step skips. */
  lemma {:induction false} RunLastWriteWins(steps: seq<Step>)
    ensures Run(steps).stopped.None? ==>
      (Run(steps).pending.None? <==> forall j :: 0 <= j < |steps| ==> steps[j] == Skip)
    ensures Run(steps).stopped.None? && Run(steps).pending.Some? ==>
      exists j :: 0 <= j < |steps| && steps[j] == Write(Run(steps).pending.value) &&
        (forall i :: j < i < |steps| ==> steps[i] == Skip)
    decreases |steps|
  {
    if steps != [] {
      var pre := steps[..|steps| - 1];
      RunLastWriteWins(pre);
      RunStopsAtFirstFailure(pre);
      assert forall i :: 0 <= i < |pre| ==> pre[i] == steps[i];
    }
  }
}
