/** Worked examples of parse_dates on one-entry columns and on single rows,
    with the current year 2026. */
module Examples {
  import opened Text
  import opened Regex
  import opened TimeStrip
  import opened Separators
  import opened Strptime
  import opened Reconcile
  import opened ParseDates

  lemma Value(s: string, v: nat)
    requires |s| == 2 && AllDigits(s) && 10 * DigitValue(s[0]) + DigitValue(s[1]) == v
    ensures DigitsValue(s) == v
  {
    DigitsValueTwo(s);
  }

  lemma Value4(s: string, v: nat)
    requires |s| == 4 && AllDigits(s)
    requires 1000 * DigitValue(s[0]) + 100 * DigitValue(s[1]) + 10 * DigitValue(s[2]) + DigitValue(s[3]) == v
    ensures DigitsValue(s) == v
  {
    DigitsValueBound(s);
    DigitsValueTwo(s[..2]);
    DigitsValueTwo(s[2..]);
  }

  lemma NatPositionsOne(c: Cell)
    ensures NatPositions([c]) == if c == NaT then [0] else []
  {
    assert [c][..0] == [];
  }

  lemma FoldOne(u: string, sep: Sep, f: DateFormat, currentYear: int)
    ensures Fold([u], [0], sep, f, currentYear) == Next(LoopState(None, None), RowStep(u, 0, sep, f, currentYear))
  {
    var steps := Steps([u], [0], sep, f, currentYear);
    assert steps == [RowStep(u, 0, sep, f, currentYear)];
    assert steps[..0] == [];
    assert Run(steps) == Next(Run(steps[..0]), steps[0]);
  }

  /** A one-entry column: the call is decided by the strict parse of the
      prepared entry and, when that fails, by the one loop step for it. */
  lemma OneEntry(col: seq<string>, dateonly: bool, f: DateFormat, sep: Sep, currentYear: int, u: string)
    requires !sep.NoneSep? && Prepared(col, dateonly, sep) == [u]
    ensures var fmt := FormatString(f, SepText(sep));
      ParseDatesSpec(col, dateonly, f, sep, currentYear) ==
        match StrictParse(u, fmt)
        case Some(d) => Returned([Stamp(d)])
        case None => Conclude([NaT], [0], Next(LoopState(None, None), RowStep(u, 0, sep, f, currentYear)), fmt)
  {
    SpecParts(col, dateonly, f, sep, currentYear);
    var fmt := FormatString(f, SepText(sep));
    var o := StrictParse(u, fmt);
    var parsed := StrictColumn([u], fmt);
    assert parsed == [ParsedCell(o)];
    NatPositionsOne(ParsedCell(o));
    FoldOne(u, sep, f, currentYear);
  }

  /** An entry that starts with "19", such as a 4-digit year, fails the %m
      directive followed by a separator other than '9': the only alternative
      that fits is the single digit '1', and the separator then meets '9'. */
  lemma NineteenNotMonth(s: string, c: char, rest: seq<Tok>)
    requires |s| >= 2 && s[0] == '1' && s[1] == '9' && c != '9'
    ensures MatchTokens(s, 0, [Directive('m')] + ([Lit(c)] + rest), 0).None?
  {
    var alts := Alternatives('m');
    var toks := [Directive('m')] + ([Lit(c)] + rest);
    assert !Accepts(alts[0][1], s[0 + 1]);
    AltMiss(s, 0, 'm', [Lit(c)] + rest, 0);
    assert !Accepts(alts[1][0], s[0 + 0]);
    AltMiss(s, 0, 'm', [Lit(c)] + rest, 1);
    assert MatchAt(s, 0, alts[2]);
    var after := [Lit(c)] + rest;
    assert after[0] == Lit(c) && s[1] != c;
    assert MatchTokens(s, 1, after, 0).None?;
    assert toks[0] == Directive('m') && toks[1..] == after;
    assert MatchTokens(s, 0, toks, 2) == MatchTokens(s, 0, toks, 3);
  }

  lemma NineteenFailsMDY(s: string)
    requires |s| >= 2 && s[0] == '1' && s[1] == '9'
    ensures StrictParse(s, FormatString(MDY, "/")) == None
  {
    FormatTokens(MDY, "/");
    var cs := Codes(MDY);
    assert cs[0] == 'm';
    var toks := Tokens(FormatString(MDY, "/"));
    assert toks == [Directive('m')] + ([Lit('/')] + toks[2..]);
    NineteenNotMonth(s, '/', toks[2..]);
  }

  // ---------------------------------------------------------------------
  // The three outcomes of one loop step on a row of digit fields

  lemma SkipRow(val: string, c: char, f: DateFormat, currentYear: int, s0: string, s1: string, s2: string)
    requires DigitRow(c, s0, s1, s2) && val == RowText(c, s0, s1, s2) && |s0| == 2 && DigitsValue(s0) <= YearSuffix(currentYear)
    requires |s1| == 2 && DigitsValue(s1) > 12
    ensures RowStep(val, 0, CharSep(c), f, currentYear) == Skip
  {
    DigitRowStep(val, 0, c, f, currentYear, s0, s1, s2);
  }

  lemma CrashRow(val: string, c: char, f: DateFormat, currentYear: int, s0: string, s1: string, s2: string)
    requires DigitRow(c, s0, s1, s2) && val == RowText(c, s0, s1, s2) && |s0| == 2 && DigitsValue(s0) > YearSuffix(currentYear)
    ensures RowStep(val, 0, CharSep(c), f, currentYear) == Fail(TypeError(LenOfBool))
  {
    DigitRowStep(val, 0, c, f, currentYear, s0, s1, s2);
  }

  lemma WriteRow(val: string, c: char, f: DateFormat, currentYear: int, s0: string, s1: string, s2: string)
    requires DigitRow(c, s0, s1, s2) && val == RowText(c, s0, s1, s2)
    requires (|s0| == 2 && DigitsValue(s0) <= YearSuffix(currentYear)) || (|s0| == 4 && 1945 <= DigitsValue(s0) <= currentYear)
    requires |s1| == 2 && 1 <= DigitsValue(s1) <= 12 && |s2| == 2 && 1 <= DigitsValue(s2) <= 31
    ensures RowStep(val, 0, CharSep(c), f, currentYear) == Write(Reassemble(f, c, s0, DigitsValue(s0), s1, s2))
  {
    DigitRowStep(val, 0, c, f, currentYear, s0, s1, s2);
  }

  // ---------------------------------------------------------------------
  // Columns

  lemma PreparedMonthFirst()
    ensures Prepared(["01/02/1965"], true, CharSep('/')) == ["01/02/1965"]
  {
    var s := "01/02/1965";
    assert !Long(s);
    assert StripStage([s], true) == [s];
    assert !AnyContains([s], '-') && !AnyContains([s], '.');
  }

  /** Under "%m/%d/%Y" a slash-separated entry of canonical fields parses to
      the date its fields name, when that date exists. */
  lemma MonthDayYearParse(s: string, x0: string, x1: string, x2: string)
    requires s == x0 + "/" + x1 + "/" + x2
    requires Canonical('m', x0) && Canonical('d', x1) && Canonical('Y', x2)
    ensures var d := Date(DigitsValue(x2), DigitsValue(x0), DigitsValue(x1));
      StrictParse(s, FormatString(MDY, "/")) ==
        if ValidDate(d) && InTimestampRange(d) then Some(d) else None
  {
    assert FieldValue(x0) == DigitsValue(x0) && FieldValue(x1) == DigitsValue(x1) && FieldValue(x2) == DigitsValue(x2);
    assert FieldsDate(MDY, x0, x1, x2) == Date(DigitsValue(x2), DigitsValue(x0), DigitsValue(x1)) by {
      assert Codes(MDY) == ['m', 'd', 'Y'];
      BuildThree(Codes(MDY), [x0, x1, x2]);
    }
    CanonicalParses(MDY, "/", x0, x1, x2);
  }

  /** The same under "%m/%d/%y", where the year goes through strptime's pivot. */
  lemma MonthDayShortYearParse(s: string, x0: string, x1: string, x2: string)
    requires s == x0 + "/" + x1 + "/" + x2
    requires Canonical('m', x0) && Canonical('d', x1) && Canonical('y', x2)
    ensures var d := Date(CenturyOf(DigitsValue(x2)), DigitsValue(x0), DigitsValue(x1));
      StrictParse(s, FormatString(MDy, "/")) ==
        if ValidDate(d) && InTimestampRange(d) then Some(d) else None
  {
    assert FieldValue(x0) == DigitsValue(x0) && FieldValue(x1) == DigitsValue(x1) && FieldValue(x2) == DigitsValue(x2);
    assert FieldsDate(MDy, x0, x1, x2) == Date(CenturyOf(DigitsValue(x2)), DigitsValue(x0), DigitsValue(x1)) by {
      assert Codes(MDy) == ['m', 'd', 'y'];
      BuildThree(Codes(MDy), [x0, x1, x2]);
    }
    CanonicalParses(MDy, "/", x0, x1, x2);
  }

  lemma MonthFirstText()
    ensures "01/02/1965" == "01" + "/" + "02" + "/" + "1965"
  {
  }

  lemma TwoDigitYearText()
    ensures "03/15/65" == "03" + "/" + "15" + "/" + "65"
  {
  }

  lemma February30Text()
    ensures "02/30/1970" == "02" + "/" + "30" + "/" + "1970"
  {
  }

  lemma TimestampText()
    ensures "02/23/1975" == "02" + "/" + "23" + "/" + "1975"
  {
  }

  lemma ParseMonthFirst()
    ensures StrictParse("01/02/1965", FormatString(MDY, "/")) == Some(Date(1965, 1, 2))
  {
    Value("01", 1);
    Value("02", 2);
    Value4("1965", 1965);
    MonthFirstText();
    MonthDayYearParse("01/02/1965", "01", "02", "1965");
  }

  /** "01/02/1965" with month-day-4-digit-year is resolved by the strict
      parse alone: 2 January 1965. */
  lemma MonthFirstColumn()
    ensures ParseDatesSpec(["01/02/1965"], true, MDY, CharSep('/'), 2026) == Returned([Stamp(Date(1965, 1, 2))])
  {
    PreparedMonthFirst();
    ParseMonthFirst();
    OneEntry(["01/02/1965"], true, MDY, CharSep('/'), 2026, "01/02/1965");
  }

  /** A 2-digit year under a %y format is read by strptime's own rule at
      line 182: "03/15/65" is 15 March 2065. */
  lemma TwoDigitYearParse()
    ensures StrictParse("03/15/65", FormatString(MDy, "/")) == Some(Date(2065, 3, 15))
  {
    Value("03", 3);
    Value("15", 15);
    Value("65", 65);
    TwoDigitYearText();
    MonthDayShortYearParse("03/15/65", "03", "15", "65");
  }

  /** A one-entry column holding dashes and no dots, unified to slashes. */
  lemma DashesToSlashes(u: string)
    requires '-' in u && '.' !in u
    ensures UnifyStage([u], CharSep('/')) == [ReplaceChar(u, '-', '/')]
  {
    var k :| 0 <= k < |u| && u[k] == '-';
    assert AnyContains([u], '-') by { assert '-' in [u][0]; }
    ReplaceIfPresentIsReplace([u], '-', '/');
    var v := ReplaceChar(u, '-', '/');
    assert ReplaceInColumn([u], '-', '/') == [v];
    assert !AnyContains([v], '.') by {
      forall j | 0 <= j < |v| ensures v[j] != '.' {
        assert u[j] in u;
      }
    }
  }

  lemma TwoDigitYearSlashes()
    ensures ReplaceChar("03-15-65", '-', '/') == "03/15/65"
  {
  }

  lemma PreparedTwoDigitYear()
    ensures Prepared(["03-15-65"], true, CharSep('/')) == ["03/15/65"]
  {
    var s := "03-15-65";
    assert !Long(s);
    assert StripStage([s], true) == [s];
    assert s[2] == '-';
    DashesToSlashes(s);
    TwoDigitYearSlashes();
  }

  /** "03-15-65" with month-day-2-digit-year: the dashes become slashes and
      strptime reads the year 65 as 2065 (its 1969 pivot), so the row never
      reaches the reconciliation and its '19'/'20' rule. */
  lemma TwoDigitYearColumn()
    ensures ParseDatesSpec(["03-15-65"], true, MDy, CharSep('/'), 2026) == Returned([Stamp(Date(2065, 3, 15))])
  {
    PreparedTwoDigitYear();
    TwoDigitYearParse();
    OneEntry(["03-15-65"], true, MDy, CharSep('/'), 2026, "03/15/65");
  }

  lemma PreparedFebruary30()
    ensures Prepared(["02/30/1970"], true, CharSep('/')) == ["02/30/1970"]
  {
    var s := "02/30/1970";
    assert !Long(s);
    assert StripStage([s], true) == [s];
    assert !AnyContains([s], '-') && !AnyContains([s], '.');
  }

  lemma February30Parse()
    ensures StrictParse("02/30/1970", FormatString(MDY, "/")) == None
  {
    Value("02", 2);
    Value("30", 30);
    Value4("1970", 1970);
    February30Text();
    MonthDayYearParse("02/30/1970", "02", "30", "1970");
    assert !ValidDate(Date(1970, 2, 30));
  }

  lemma February30Step()
    ensures RowStep("02/30/1970", 0, CharSep('/'), MDY, 2026) == Skip
  {
    Value("02", 2);
    Value("30", 30);
    February30Fields();
    SkipRow("02/30/1970", '/', MDY, 2026, "02", "30", "1970");
  }

  lemma February30Fields()
    ensures DigitRow('/', "02", "30", "1970") && RowText('/', "02", "30", "1970") == "02/30/1970"
  {
  }

  /** "02/30/1970" with month-day-4-digit-year: the strict parse rejects
      30 February, and the reconciliation takes "02" for a year and "30" for
      a month, so it skips the row and the cell stays NaT. */
  lemma February30Column()
    ensures ParseDatesSpec(["02/30/1970"], true, MDY, CharSep('/'), 2026) == Returned([NaT])
  {
    PreparedFebruary30();
    February30Parse();
    February30Step();
    OneEntry(["02/30/1970"], true, MDY, CharSep('/'), 2026, "02/30/1970");
  }

  lemma NoSeparatorParts()
    ensures Prepared(["19700215"], true, CharSep('/')) == ["19700215"]
    ensures StrictParse("19700215", FormatString(MDY, "/")) == None
    ensures RowStep("19700215", 0, CharSep('/'), MDY, 2026) == Fail(ValueError(NotInFormat("19700215", 0)))
  {
    var s := "19700215";
    assert !Long(s);
    assert StripStage([s], true) == [s];
    assert !AnyContains([s], '/') && !AnyContains([s], '-') && !AnyContains([s], '.');
    UnifyLeavesColumn([s], CharSep('/'));
    NineteenFailsMDY(s);
  }

  /** "19700215", with no separator at all: the strict parse fails and the
      loop raises the ValueError of line 190 for index 0; it is printed and
      the call returns None. */
  lemma NoSeparatorColumn()
    ensures ParseDatesSpec(["19700215"], true, MDY, CharSep('/'), 2026) == PrintedNone(NotInFormat("19700215", 0))
  {
    NoSeparatorParts();
    OneEntry(["19700215"], true, MDY, CharSep('/'), 2026, "19700215");
  }

  lemma TimestampStripped()
    ensures StripStage(["1975-02-23T02:58:41.000Z"], true) == ["1975-02-23"]
  {
    var s := "1975-02-23T02:58:41.000Z";
    assert Long(s);
    assert CountLong([s]) == 1 by {
      assert [s][..0] == [];
    }
    IsoTimestampExample(false);
  }

  lemma TimestampSlashes()
    ensures ReplaceChar("1975-02-23", '-', '/') == "1975/02/23"
  {
  }

  lemma PreparedTimestamp()
    ensures Prepared(["1975-02-23T02:58:41.000Z"], true, CharSep('/')) == ["1975/02/23"]
  {
    TimestampStripped();
    TimestampUnified();
    PreparedFrom(["1975-02-23T02:58:41.000Z"], true, CharSep('/'), ["1975-02-23"]);
  }

  lemma TimestampUnified()
    ensures UnifyStage(["1975-02-23"], CharSep('/')) == ["1975/02/23"]
  {
    var d := "1975-02-23";
    assert d[4] == '-';
    DashesToSlashes(d);
    TimestampSlashes();
  }

  lemma PreparedFrom(col: seq<string>, dateonly: bool, sep: Sep, stripped: seq<string>)
    requires StripStage(col, dateonly) == stripped
    ensures Prepared(col, dateonly, sep) == UnifyStage(stripped, sep)
  {
  }

  lemma TimestampFields()
    ensures DigitRow('/', "1975", "02", "23") && RowText('/', "1975", "02", "23") == "1975/02/23"
    ensures Reassemble(MDY, '/', "1975", 1975, "02", "23") == "02/23/1975"
  {
  }

  lemma TimestampStep()
    ensures RowStep("1975/02/23", 0, CharSep('/'), MDY, 2026) == Write("02/23/1975")
  {
    Value("02", 2);
    Value("23", 23);
    Value4("1975", 1975);
    TimestampFields();
    WriteRow("1975/02/23", '/', MDY, 2026, "1975", "02", "23");
  }

  lemma TimestampReparse()
    ensures StrictParse("02/23/1975", FormatString(MDY, "/")) == Some(Date(1975, 2, 23))
  {
    Value("02", 2);
    Value("23", 23);
    Value4("1975", 1975);
    TimestampText();
    MonthDayYearParse("02/23/1975", "02", "23", "1975");
  }

  /** A one-entry column whose loop step writes t, and t parses at line 299. */
  lemma WrittenEntry(t: string, fmt: string, d: Date)
    requires StrictParse(t, fmt) == Some(d)
    ensures Conclude([NaT], [0], Next(LoopState(None, None), Write(t)), fmt) == Returned([Stamp(d)])
  {
    assert Settle([NaT], [0], Stamp(d)) == [Stamp(d)];
  }

  lemma TimestampStrictMiss()
    ensures StrictParse("1975/02/23", FormatString(MDY, "/")) == None
  {
    NineteenFailsMDY("1975/02/23");
  }

  /** A one-entry column that the strict parse misses and whose loop step
      writes a text that parses: the cell gets the date of that text. */
  lemma OneEntryWritten(col: seq<string>, dateonly: bool, f: DateFormat, sep: Sep, currentYear: int, u: string, t: string, d: Date)
    requires !sep.NoneSep? && Prepared(col, dateonly, sep) == [u]
    requires StrictParse(u, FormatString(f, SepText(sep))) == None
    requires RowStep(u, 0, sep, f, currentYear) == Write(t)
    requires StrictParse(t, FormatString(f, SepText(sep))) == Some(d)
    ensures ParseDatesSpec(col, dateonly, f, sep, currentYear) == Returned([Stamp(d)])
  {
    OneEntry(col, dateonly, f, sep, currentYear, u);
    WrittenEntry(t, FormatString(f, SepText(sep)), d);
  }

  /** An earthquake timestamp "1975-02-23T02:58:41.000Z" with
      month-day-4-digit-year: the time is stripped, the dashes become
      slashes, the strict parse fails on the year-first order, and the
      reconciliation rewrites the row as "02/23/1975": 23 February 1975. */
  lemma TimestampColumn()
    ensures ParseDatesSpec(["1975-02-23T02:58:41.000Z"], true, MDY, CharSep('/'), 2026)
      == Returned([Stamp(Date(1975, 2, 23))])
  {
    PreparedTimestamp();
    TimestampStrictMiss();
    TimestampStep();
    TimestampReparse();
    assert SepText(CharSep('/')) == "/";
    OneEntryWritten(["1975-02-23T02:58:41.000Z"], true, MDY, CharSep('/'), 2026, "1975/02/23", "02/23/1975", Date(1975, 2, 23));
  }

  // ---------------------------------------------------------------------
  // Rows

  /** "30/12/1965" under day-month-2-digit-year: %y takes "19" and leaves
      "65" unconverted, so the strict parse misses the entry. */
  lemma DayFirstStrictMiss()
    ensures StrictParse("30/12/1965", FormatString(DMy, "/")) == None
  {
    Value("30", 30);
    Value("12", 12);
    assert "30/12/1965" == "30" + ['/'] + "12" + ['/'] + "19" + "65";
    UnconvertedDataRemains(DMy, '/', "30", "12", "19", "65");
  }

  /** The loop then reads 30 as a year after 26, and the elif evaluates
      len(False): a TypeError. */
  lemma DayFirstRowCrashes()
    ensures RowStep("30/12/1965", 0, CharSep('/'), DMy, 2026) == Fail(TypeError(LenOfBool))
  {
    Value("30", 30);
    DayFirstFields();
    CrashRow("30/12/1965", '/', DMy, 2026, "30", "12", "1965");
  }

  lemma DayFirstFields()
    ensures DigitRow('/', "30", "12", "1965") && RowText('/', "30", "12", "1965") == "30/12/1965"
  {
  }

  lemma PreparedDayFirst()
    ensures Prepared(["30/12/1965"], true, CharSep('/')) == ["30/12/1965"]
  {
    var s := "30/12/1965";
    assert !Long(s);
    assert StripStage([s], true) == [s];
    assert !AnyContains([s], '-') && !AnyContains([s], '.');
  }

  /** "30/12/1965" with day-month-2-digit-year: the TypeError of the elif
      is not caught, so the call raises it. */
  lemma DayFirstColumnCrashes()
    ensures ParseDatesSpec(["30/12/1965"], true, DMy, CharSep('/'), 2026) == Crashed(TypeError(LenOfBool))
  {
    PreparedDayFirst();
    DayFirstStrictMiss();
    DayFirstRowCrashes();
    assert SepText(CharSep('/')) == "/";
    OneEntry(["30/12/1965"], true, DMy, CharSep('/'), 2026, "30/12/1965");
  }

  /** "01/02/03" under month-day-4-digit-year is read year-first and written
      as "02/03/2001". */
  lemma AmbiguousRowYearFirst()
    ensures RowStep("01/02/03", 0, CharSep('/'), MDY, 2026) == Write("02/03/2001")
  {
    Value("01", 1);
    Value("02", 2);
    Value("03", 3);
    AmbiguousRowFields();
    WriteRow("01/02/03", '/', MDY, 2026, "01", "02", "03");
    AmbiguousRowText();
  }

  lemma AmbiguousRowFields()
    ensures DigitRow('/', "01", "02", "03") && RowText('/', "01", "02", "03") == "01/02/03"
  {
  }

  lemma AmbiguousRowText()
    ensures Reassemble(MDY, '/', "01", 1, "02", "03") == "02/03/2001"
  {
    assert LongYear("01", 1) == "2001";
  }
}
