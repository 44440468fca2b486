/** The strict parse `pd.to_datetime(col, format=...)` (lines 182 and 299),
    modelled on the strptime machinery it follows: the format is read as
    directives and literal characters, each directive stands for an ordered
    list of alternatives (those of CPython's _strptime.TimeRE), the first
    match found by backtracking is taken, it must consume the whole entry,
    and the fields must form a real calendar date inside the range of a
    nanosecond timestamp. */
module Strptime {
  import opened Text
  import opened Regex

  datatype Date = Date(year: int, month: int, day: int)

  /** The six accepted values of `date_format` (docstring, line 118):
      y is a 2-digit year, Y a 4-digit year. */
  datatype DateFormat = MDy | MDY | DMy | DMY | yMD | YMD

  function Code(f: DateFormat): (s: string)
    ensures |s| == 6 && s[0] == '%' && s[2] == '%' && s[4] == '%'
  {
    match f
    case MDy => "%m%d%y"
    case MDY => "%m%d%Y"
    case DMy => "%d%m%y"
    case DMY => "%d%m%Y"
    case yMD => "%y%m%d"
    case YMD => "%Y%m%d"
  }

  /** The directive letters of f, in field order. */
  function Codes(f: DateFormat): (cs: seq<char>)
    ensures |cs| == 3
  {
    [Code(f)[1], Code(f)[3], Code(f)[5]]
  }

  /** `date_format[:2]+sep+date_format[2:4]+sep+date_format[4:6]` (lines 182, 299). */
  function FormatString(f: DateFormat, sep: string): (r: string)
    ensures |r| == 6 + 2 * |sep|
  {
    var code := Code(f);
    code[..2] + sep + code[2..4] + sep + code[4..6]
  }

  datatype Tok = Directive(code: char) | Lit(c: char)

  /** How strptime reads a format: `%x` is the directive x, every other
      character stands for itself. */
  function Tokens(fmt: string): (r: seq<Tok>)
    ensures |r| <= |fmt|
    ensures '%' !in fmt ==> |r| == |fmt| && forall k :: 0 <= k < |fmt| ==> r[k] == Lit(fmt[k])
  {
    if fmt == [] then []
    else if fmt[0] == '%' && |fmt| >= 2 then [Directive(fmt[1])] + Tokens(fmt[2..])
    else [Lit(fmt[0])] + Tokens(fmt[1..])
  }

  /** Property: the format built at line 182 reads as the three directives of
      date_format with the separator between each pair, for instance
      '%m%d%Y' with '/' gives '%m/%d/%Y'. */
  lemma FormatTokens(f: DateFormat, sep: string)
    requires sep == [] || (|sep| == 1 && sep[0] != '%')
    ensures var cs := Codes(f);
      Tokens(FormatString(f, sep)) ==
        if sep == [] then [Directive(cs[0]), Directive(cs[1]), Directive(cs[2])]
        else [Directive(cs[0]), Lit(sep[0]), Directive(cs[1]), Lit(sep[0]), Directive(cs[2])]
  {
    var code := Code(f);
    var fs := FormatString(f, sep);
    var cs := Codes(f);
    var a, b, y := code[..2], code[2..4], code[4..6];
    assert Tokens([]) == [];
    assert Tokens(y) == [Directive(cs[2])] + Tokens(y[2..]);
    assert y[2..] == [];
    if sep == [] {
      assert fs == a + b + y;
      assert fs[2..] == b + y && fs[4..] == y;
      assert Tokens(fs[2..]) == [Directive(cs[1])] + Tokens(fs[4..]);
      assert Tokens(fs) == [Directive(cs[0])] + Tokens(fs[2..]);
    } else {
      assert fs == a + sep + b + sep + y;
      assert fs[2..] == sep + b + sep + y;
      assert fs[3..] == b + sep + y;
      assert fs[5..] == sep + y;
      assert fs[6..] == y;
      assert Tokens(fs[5..]) == [Lit(sep[0])] + Tokens(fs[6..]);
      assert Tokens(fs[3..]) == [Directive(cs[1])] + Tokens(fs[5..]);
      assert Tokens(fs[2..]) == [Lit(sep[0])] + Tokens(fs[3..]);
      assert Tokens(fs) == [Directive(cs[0])] + Tokens(fs[2..]);
    }
  }

  lemma FormatExample()
    ensures FormatString(MDY, "/") == "%m/%d/%Y"
  {
  }

  const NonZero: string := "123456789"

  /** The alternatives of each directive, in the order the regular
      expression tries them: %m is `1[0-2]|0[1-9]|[1-9]`, %d is
      `3[01]|[12]\d|0[1-9]|[1-9]| [1-9]`, %y is `\d\d`, %Y is `\d\d\d\d`,
      and %% is a literal '%'. */
  function Alternatives(code: char): (alts: seq<seq<CharClass>>)
    ensures |alts| <= 5
    ensures forall k :: 0 <= k < |alts| ==> |alts[k]| > 0
  {
    if code == 'm' then [[Exactly('1'), OneOf("012")], [Exactly('0'), OneOf(NonZero)], [OneOf(NonZero)]]
    else if code == 'd' then
      [[Exactly('3'), OneOf("01")], [OneOf("12"), AsciiDigit], [Exactly('0'), OneOf(NonZero)],
       [OneOf(NonZero)], [Exactly(' '), OneOf(NonZero)]]
    else if code == 'y' then [[AsciiDigit, AsciiDigit]]
    else if code == 'Y' then [[AsciiDigit, AsciiDigit, AsciiDigit, AsciiDigit]]
    else if code == '%' then [[Exactly('%')]]
    else []
  }

  function Directives(toks: seq<Tok>): (n: nat)
    ensures n <= |toks|
  {
    if toks == [] then 0 else (if toks[0].Directive? then 1 else 0) + Directives(toks[1..])
  }

  /** A successful match: the captured field texts and the end position. */
  datatype Match = Match(caps: seq<string>, end: nat)

  /** The first match of toks at position i, trying the alternatives of the
      leading directive from number `alt` on, as a backtracking regular
      expression engine does. As with `re.match`, the match need not reach
      the end of s. */
  function MatchTokens(s: string, i: nat, toks: seq<Tok>, alt: nat): (r: Option<Match>)
    requires i <= |s|
    ensures r.Some? ==> |r.value.caps| == Directives(toks) && i <= r.value.end <= |s|
    decreases |toks|, if toks != [] && toks[0].Directive? then |Alternatives(toks[0].code)| - alt else 0
  {
    if toks == [] then Some(Match([], i))
    else
      match toks[0]
      case Lit(c) =>
        if i < |s| && s[i] == c then MatchTokens(s, i + 1, toks[1..], 0) else None
      case Directive(code) =>
        var alts := Alternatives(code);
        if alt >= |alts| then None
        else
          var a := alts[alt];
          if MatchAt(s, i, a) then
            match MatchTokens(s, i + |a|, toks[1..], 0)
            case Some(m) => Some(Match([s[i..i + |a|]] + m.caps, m.end))
            case None => MatchTokens(s, i, toks, alt + 1)
          else MatchTokens(s, i, toks, alt + 1)
  }

  /** int() of a captured field: its digits (a %d field may start with a space). */
  function FieldValue(field: string): nat {
    DigitsValue(DigitsOf(field))
  }

  /** The %y rule of strptime: 69-99 are 1969-1999, 00-68 are 2000-2068. */
  function CenturyOf(yy: int): int {
    if yy <= 68 then 2000 + yy else 1900 + yy
  }

  /** Stores one captured field, as strptime does; unset fields keep the
      defaults 1900-01-01. */
  function Assign(d: Date, code: char, field: string): Date {
    var v := FieldValue(field);
    if code == 'Y' then d.(year := v)
    else if code == 'y' then d.(year := CenturyOf(v))
    else if code == 'm' then d.(month := v)
    else if code == 'd' then d.(day := v)
    else d
  }

  function DirectiveCodes(toks: seq<Tok>): (cs: seq<char>)
    ensures |cs| == Directives(toks)
  {
    if toks == [] then []
    else (if toks[0].Directive? then [toks[0].code] else []) + DirectiveCodes(toks[1..])
  }

  function Build(codes: seq<char>, caps: seq<string>): (d: Date)
    requires |codes| == |caps|
    ensures 'm' !in codes ==> d.month == 1
    ensures 'd' !in codes ==> d.day == 1
    ensures 'y' !in codes && 'Y' !in codes ==> d.year == 1900
  {
    if codes == [] then Date(1900, 1, 1)
    else Assign(Build(codes[..|codes| - 1], caps[..|caps| - 1]), codes[|codes| - 1], caps[|caps| - 1])
  }

  predicate LeapYear(y: int) {
    (y % 4 == 0 && y % 100 != 0) || y % 400 == 0
  }

  function DaysInMonth(y: int, m: int): (n: int)
    requires 1 <= m <= 12
    ensures 28 <= n <= 31
    ensures n == 29 <==> m == 2 && LeapYear(y)
  {
    if m == 2 then (if LeapYear(y) then 29 else 28)
    else if m == 4 || m == 6 || m == 9 || m == 11 then 30
    else 31
  }

  /** What datetime(year, month, day) accepts. */
  predicate ValidDate(d: Date)
    ensures ValidDate(d) ==> 1 <= d.month <= 12 && 1 <= d.day <= 31
    ensures ValidDate(d) && d.month == 2 ==> d.day <= 29
  {
    1 <= d.year <= 9999 && 1 <= d.month <= 12 && 1 <= d.day <= DaysInMonth(d.year, d.month)
  }

  /** Midnight of d lies between pandas' Timestamp.min (1677-09-21 00:12:43)
      and Timestamp.max (2262-04-11 23:47:16). */
  predicate InTimestampRange(d: Date)
    ensures InTimestampRange(d) ==> 1677 <= d.year <= 2262
  {
    (d.year > 1677 || (d.year == 1677 && (d.month > 9 || (d.month == 9 && d.day >= 22)))) &&
    (d.year < 2262 || (d.year == 2262 && (d.month < 4 || (d.month == 4 && d.day <= 11))))
  }

  /** The strict parse of one entry against a format string: the date, or
      None where the library reports a failure (NaT under errors='coerce',
      a ValueError otherwise). */
  function StrictParse(s: string, fmt: string): (r: Option<Date>)
    ensures r.Some? ==> ValidDate(r.value) && InTimestampRange(r.value)
    ensures r.Some? ==> MatchTokens(s, 0, Tokens(fmt), 0).Some? && MatchTokens(s, 0, Tokens(fmt), 0).value.end == |s|
  {
    var toks := Tokens(fmt);
    match MatchTokens(s, 0, toks, 0)
    case None => None
    case Some(m) =>
      if m.end != |s| then None
      else
        var d := Build(DirectiveCodes(toks), m.caps);
        if ValidDate(d) && InTimestampRange(d) then Some(d) else None
  }

  /** A field text in the form the reconciliation writes back: two digits
      for a month (01-12) or a day (01-31) or a 2-digit year, four digits
      for a 4-digit year. */
  predicate Canonical(code: char, field: string) {
    AllDigits(field) &&
    if code == 'm' then |field| == 2 && 1 <= DigitsValue(field) <= 12
    else if code == 'd' then |field| == 2 && 1 <= DigitsValue(field) <= 31
    else if code == 'y' then |field| == 2
    else if code == 'Y' then |field| == 4
    else false
  }

  /** An alternative that fails on the spot hands over to the next one. */
  lemma AltMiss(s: string, i: nat, code: char, rest: seq<Tok>, k: nat)
    requires i <= |s| && k < |Alternatives(code)|
    requires !MatchAt(s, i, Alternatives(code)[k])
    ensures MatchTokens(s, i, [Directive(code)] + rest, k) == MatchTokens(s, i, [Directive(code)] + rest, k + 1)
  {
    var toks := [Directive(code)] + rest;
    assert toks[0] == Directive(code) && toks[1..] == rest;
  }

  /** An alternative that matches, followed by a successful match of the rest, is the result. */
  lemma AltHit(s: string, i: nat, code: char, rest: seq<Tok>, k: nat)
    requires i <= |s| && k < |Alternatives(code)|
    requires MatchAt(s, i, Alternatives(code)[k])
    requires MatchTokens(s, i + |Alternatives(code)[k]|, rest, 0).Some?
    ensures var n := |Alternatives(code)[k]|;
      var m := MatchTokens(s, i + n, rest, 0).value;
      MatchTokens(s, i, [Directive(code)] + rest, k) == Some(Match([s[i..i + n]] + m.caps, m.end))
  {
    var toks := [Directive(code)] + rest;
    assert toks[0] == Directive(code) && toks[1..] == rest;
  }

  /** A canonical field is captured whole: every alternative tried before the
      one of its full length fails on its first characters, whatever follows. */
  lemma CanonicalFieldMatches(s: string, i: nat, code: char, field: string, rest: seq<Tok>)
    requires Canonical(code, field)
    requires i + |field| <= |s| && s[i..i + |field|] == field
    requires MatchTokens(s, i + |field|, rest, 0).Some?
    ensures var m := MatchTokens(s, i + |field|, rest, 0).value;
      MatchTokens(s, i, [Directive(code)] + rest, 0) == Some(Match([field] + m.caps, m.end))
  {
    var alts := Alternatives(code);
    assert forall j :: 0 <= j < |field| ==> s[i + j] == field[j];
    if code == 'm' {
      MonthMatches(s, i, field, rest);
    } else if code == 'd' {
      DayMatches(s, i, field, rest);
    } else {
      assert |alts[0]| == |field|;
      forall j | 0 <= j < |alts[0]| ensures Accepts(alts[0][j], s[i + j]) {
        assert s[i + j] == field[j];
      }
      AltHit(s, i, code, rest, 0);
    }
  }

  lemma MonthMatches(s: string, i: nat, field: string, rest: seq<Tok>)
    requires Canonical('m', field)
    requires i + 2 <= |s| && s[i] == field[0] && s[i + 1] == field[1] && s[i..i + 2] == field
    requires MatchTokens(s, i + 2, rest, 0).Some?
    ensures var m := MatchTokens(s, i + 2, rest, 0).value;
      MatchTokens(s, i, [Directive('m')] + rest, 0) == Some(Match([field] + m.caps, m.end))
  {
    var alts := Alternatives('m');
    DigitsValueTwo(field);
    if field[0] == '1' {
      assert MatchAt(s, i, alts[0]);
      AltHit(s, i, 'm', rest, 0);
    } else {
      assert !Accepts(alts[0][0], s[i + 0]);
      AltMiss(s, i, 'm', rest, 0);
      assert MatchAt(s, i, alts[1]);
      AltHit(s, i, 'm', rest, 1);
    }
  }

  lemma DayMatches(s: string, i: nat, field: string, rest: seq<Tok>)
    requires Canonical('d', field)
    requires i + 2 <= |s| && s[i] == field[0] && s[i + 1] == field[1] && s[i..i + 2] == field
    requires MatchTokens(s, i + 2, rest, 0).Some?
    ensures var m := MatchTokens(s, i + 2, rest, 0).value;
      MatchTokens(s, i, [Directive('d')] + rest, 0) == Some(Match([field] + m.caps, m.end))
  {
    var alts := Alternatives('d');
    DigitsValueTwo(field);
    if field[0] == '3' {
      assert MatchAt(s, i, alts[0]);
      AltHit(s, i, 'd', rest, 0);
    } else {
      assert !Accepts(alts[0][0], s[i + 0]);
      AltMiss(s, i, 'd', rest, 0);
      LowDayMatches(s, i, field, rest);
    }
  }

  /** A day below 30 is taken by the second alternative, or by the third
      when it starts with '0'. */
  lemma LowDayMatches(s: string, i: nat, field: string, rest: seq<Tok>)
    requires Canonical('d', field) && field[0] != '3'
    requires i + 2 <= |s| && s[i] == field[0] && s[i + 1] == field[1] && s[i..i + 2] == field
    requires MatchTokens(s, i + 2, rest, 0).Some?
    ensures var m := MatchTokens(s, i + 2, rest, 0).value;
      MatchTokens(s, i, [Directive('d')] + rest, 1) == Some(Match([field] + m.caps, m.end))
  {
    var alts := Alternatives('d');
    if field[0] == '1' || field[0] == '2' {
      assert MatchAt(s, i, alts[1]);
      AltHit(s, i, 'd', rest, 1);
    } else {
      DigitsValueTwo(field);
      assert field[0] == '0' && field[1] != '0';
      assert !Accepts(alts[1][0], s[i + 0]);
      AltMiss(s, i, 'd', rest, 1);
      assert MatchAt(s, i, alts[2]);
      AltHit(s, i, 'd', rest, 2);
    }
  }

  /** Building from three fields stores them one after the other. */
  lemma BuildThree(codes: seq<char>, caps: seq<string>)
    requires |codes| == 3 && |caps| == 3
    ensures Build(codes, caps) ==
      Assign(Assign(Assign(Date(1900, 1, 1), codes[0], caps[0]), codes[1], caps[1]), codes[2], caps[2])
  {
    var c1, p1 := codes[..1], caps[..1];
    var c2, p2 := codes[..2], caps[..2];
    assert c1[..0] == [] && p1[..0] == [];
    assert Build(c1, p1) == Assign(Date(1900, 1, 1), codes[0], caps[0]);
    assert c2[..1] == c1 && p2[..1] == p1;
    assert Build(c2, p2) == Assign(Build(c1, p1), codes[1], caps[1]);
    assert codes[..2] == c2 && caps[..2] == p2;
  }

  /** The date strptime builds from three canonical fields laid out as the
      format f says. */
  function FieldsDate(f: DateFormat, x0: string, x1: string, x2: string): Date {
    Build(Codes(f), [x0, x1, x2])
  }

  /** The last field of an entry, matched at its own position. */
  lemma LastFieldMatches(s: string, i: nat, code: char, x2: string)
    requires Canonical(code, x2)
    requires i + |x2| == |s| && s[i..] == x2
    ensures MatchTokens(s, i, [Directive(code)], 0) == Some(Match([x2], |s|))
  {
    assert MatchTokens(s, |s|, [], 0) == Some(Match([], |s|));
    assert [Directive(code)] == [Directive(code)] + [];
    assert s[i..i + |x2|] == x2;
    CanonicalFieldMatches(s, i, code, x2, []);
    assert [x2] + [] == [x2];
  }

  /** Three canonical fields without separators are matched whole. */
  lemma AdjacentFieldsMatch(f: DateFormat, x0: string, x1: string, x2: string)
    requires Canonical(Codes(f)[0], x0) && Canonical(Codes(f)[1], x1) && Canonical(Codes(f)[2], x2)
    ensures var cs := Codes(f);
      var s := x0 + x1 + x2;
      MatchTokens(s, 0, [Directive(cs[0]), Directive(cs[1]), Directive(cs[2])], 0) == Some(Match([x0, x1, x2], |s|))
  {
    var cs := Codes(f);
    var s := x0 + x1 + x2;
    var last := [Directive(cs[2])];
    var n0, n1 := |x0|, |x0| + |x1|;
    assert s[n1..] == x2;
    LastFieldMatches(s, n1, cs[2], x2);
    var t1 := [Directive(cs[1])] + last;
    assert s[n0..n0 + |x1|] == x1;
    CanonicalFieldMatches(s, n0, cs[1], x1, last);
    assert [x1] + [x2] == [x1, x2];
    assert s[0..|x0|] == x0;
    CanonicalFieldMatches(s, 0, cs[0], x0, t1);
    assert [x0] + [x1, x2] == [x0, x1, x2];
    assert [Directive(cs[0]), Directive(cs[1]), Directive(cs[2])] == [Directive(cs[0])] + t1;
  }

  /** Three canonical fields with a one-character separator between each pair
      are matched whole. */
  lemma SeparatedFieldsMatch(f: DateFormat, c: char, x0: string, x1: string, x2: string)
    requires Canonical(Codes(f)[0], x0) && Canonical(Codes(f)[1], x1) && Canonical(Codes(f)[2], x2)
    ensures var cs := Codes(f);
      var s := x0 + [c] + x1 + [c] + x2;
      MatchTokens(s, 0, [Directive(cs[0]), Lit(c), Directive(cs[1]), Lit(c), Directive(cs[2])], 0)
        == Some(Match([x0, x1, x2], |s|))
  {
    var s := x0 + [c] + x1 + [c] + x2;
    assert s + [] == s;
    SeparatedFieldsPrefix(f, c, x0, x1, x2, []);
  }

  /** The same fields followed by any text t: the match stops where the
      fields end, since re.match need not reach the end of the string. */
  lemma SeparatedFieldsPrefix(f: DateFormat, c: char, x0: string, x1: string, x2: string, t: string)
    requires Canonical(Codes(f)[0], x0) && Canonical(Codes(f)[1], x1) && Canonical(Codes(f)[2], x2)
    ensures var cs := Codes(f);
      var s := x0 + [c] + x1 + [c] + x2 + t;
      MatchTokens(s, 0, [Directive(cs[0]), Lit(c), Directive(cs[1]), Lit(c), Directive(cs[2])], 0)
        == Some(Match([x0, x1, x2], |s| - |t|))
  {
    var cs := Codes(f);
    var s := x0 + [c] + x1 + [c] + x2 + t;
    var n0, n1 := |x0|, |x0| + 1 + |x1|;
    var n2 := n1 + 1 + |x2|;
    var last := [Directive(cs[2])];
    assert MatchTokens(s, n2, [], 0) == Some(Match([], n2));
    assert s[n1 + 1..n1 + 1 + |x2|] == x2;
    CanonicalFieldMatches(s, n1 + 1, cs[2], x2, []);
    assert [Directive(cs[2])] + [] == last && [x2] + [] == [x2];
    var t2 := [Lit(c)] + last;
    assert s[n1] == c && t2[1..] == last;
    assert MatchTokens(s, n1, t2, 0) == Some(Match([x2], n2));
    var t1 := [Directive(cs[1])] + t2;
    assert s[n0 + 1..n0 + 1 + |x1|] == x1;
    CanonicalFieldMatches(s, n0 + 1, cs[1], x1, t2);
    assert [x1] + [x2] == [x1, x2];
    var t0 := [Lit(c)] + t1;
    assert s[n0] == c && t0[1..] == t1;
    assert MatchTokens(s, n0, t0, 0) == Some(Match([x1, x2], n2));
    assert s[0..|x0|] == x0;
    CanonicalFieldMatches(s, 0, cs[0], x0, t0);
    assert [x0] + [x1, x2] == [x0, x1, x2];
    assert [Directive(cs[0]), Lit(c), Directive(cs[1]), Lit(c), Directive(cs[2])] == [Directive(cs[0])] + t0;
  }

  /** Property: canonical fields joined by the separator and followed by
      more text fail the strict parse, because strptime reports the rest as
      unconverted data; under errors='coerce' the entry becomes NaT. */
  lemma UnconvertedDataRemains(f: DateFormat, c: char, x0: string, x1: string, x2: string, t: string)
    requires c != '%' && t != []
    requires Canonical(Codes(f)[0], x0) && Canonical(Codes(f)[1], x1) && Canonical(Codes(f)[2], x2)
    ensures StrictParse(x0 + [c] + x1 + [c] + x2 + t, FormatString(f, [c])).None?
  {
    FormatTokens(f, [c]);
    SeparatedFieldsPrefix(f, c, x0, x1, x2, t);
  }

  lemma DirectiveCodesOfFormat(f: DateFormat, sep: string)
    requires sep == [] || (|sep| == 1 && sep[0] != '%')
    ensures DirectiveCodes(Tokens(FormatString(f, sep))) == Codes(f)
  {
    FormatTokens(f, sep);
    var cs := Codes(f);
    var last := [Directive(cs[2])];
    assert DirectiveCodes([]) == [];
    assert DirectiveCodes(last) == [cs[2]];
    if sep != [] {
      var t2 := [Lit(sep[0])] + last;
      var t1 := [Directive(cs[1])] + t2;
      var t0 := [Lit(sep[0])] + t1;
      assert DirectiveCodes(t2) == [cs[2]];
      assert DirectiveCodes(t1) == [cs[1], cs[2]];
      assert DirectiveCodes(t0) == [cs[1], cs[2]];
      assert DirectiveCodes([Directive(cs[0])] + t0) == cs;
      assert Tokens(FormatString(f, sep)) == [Directive(cs[0])] + t0;
    } else {
      var t1 := [Directive(cs[1])] + last;
      assert DirectiveCodes(t1) == [cs[1], cs[2]];
      assert DirectiveCodes([Directive(cs[0])] + t1) == cs;
      assert Tokens(FormatString(f, sep)) == [Directive(cs[0])] + t1;
    }
  }

  /** Property: an entry made of canonical fields in the order of f, joined
      by the separator, parses to the date those fields name, exactly when
      that date exists and is in the timestamp range. */
  lemma CanonicalParses(f: DateFormat, sep: string, x0: string, x1: string, x2: string)
    requires sep == [] || (|sep| == 1 && sep[0] != '%')
    requires Canonical(Codes(f)[0], x0) && Canonical(Codes(f)[1], x1) && Canonical(Codes(f)[2], x2)
    ensures var d := FieldsDate(f, x0, x1, x2);
      StrictParse(x0 + sep + x1 + sep + x2, FormatString(f, sep)) ==
        if ValidDate(d) && InTimestampRange(d) then Some(d) else None
  {
    var s := x0 + sep + x1 + sep + x2;
    var toks := Tokens(FormatString(f, sep));
    FormatTokens(f, sep);
    DirectiveCodesOfFormat(f, sep);
    if sep == [] {
      assert s == x0 + x1 + x2;
      AdjacentFieldsMatch(f, x0, x1, x2);
    } else {
      assert sep == [sep[0]];
      SeparatedFieldsMatch(f, sep[0], x0, x1, x2);
    }
    assert MatchTokens(s, 0, toks, 0) == Some(Match([x0, x1, x2], |s|));
  }
}
