/** Stage A of parse_dates: with dateonly set, the entries longer than ten
    characters have time-of-day text deleted by eight replacements applied
    one after the other (parsing-dates-earthquakes.py:129-151). */
module TimeStrip {
  import opened Text
  import opened Regex

  datatype Stripper =
    | RegexSub(pattern: seq<CharClass>) // str.replace(p, '', regex=True), Series.replace(p, '', regex=True)
    | LiteralSub(text: string)          // str.replace(p, '') with regex off: p is plain text
    | WholeValue(text: string)          // Series.replace(p, '') without regex: whole values equal to p

  function Apply(st: Stripper, s: string): (r: string)
    ensures |r| <= |s|
  {
    match st
    case RegexSub(p) => if p == [] then s else Sub(s, p)
    case LiteralSub(t) => if t == [] then s else Sub(s, Literal(t))
    case WholeValue(t) => if s == t then "" else s
  }

  const ClockHMS: seq<CharClass> :=
    [TOrSpace, AsciiDigit, AsciiDigit, Exactly(':'), AsciiDigit, AsciiDigit, Exactly(':'), AsciiDigit, AsciiDigit]
  const ClockCompact: seq<CharClass> :=
    [TOrSpace, AsciiDigit, AsciiDigit, AsciiDigit, AsciiDigit, AsciiDigit, AsciiDigit]
  const Millis: seq<CharClass> := [NotNewline, AsciiDigit, AsciiDigit, AsciiDigit]

  /** The six regular expressions of lines 133-138 (and 143-148), in order. */
  const RegexPatterns: seq<seq<CharClass>> := [
    ClockHMS + Millis + [Exactly('Z')],
    ClockHMS + Millis,
    ClockHMS,
    ClockCompact,
    ClockCompact + Millis + [Exactly('Z')],
    ClockCompact + Millis
  ]

  /** The texts of lines 140-141 and 150-151, which are used without regex. */
  const AmPmSeconds: string := "[T\\s][0-9]{2}:[0-9]{2}:[0-9]{2} [AaPp][Mm]"
  const AmPmMinutes: string := "[T\\s][0-9]{2}:[0-9]{2} [AaPp][Mm]"

  /** The eight replacements in source order; `many` tells whether more than
      one entry is long (line 132) or exactly one (line 142). */
  function Strippers(many: bool): (sts: seq<Stripper>)
    ensures |sts| == 8
    ensures forall k :: 0 <= k < 6 ==> sts[k] == RegexSub(RegexPatterns[k])
    ensures many ==> sts[6..] == [LiteralSub(AmPmSeconds), LiteralSub(AmPmMinutes)]
    ensures !many ==> sts[6..] == [WholeValue(AmPmSeconds), WholeValue(AmPmMinutes)]
  {
    [ RegexSub(RegexPatterns[0]), RegexSub(RegexPatterns[1]), RegexSub(RegexPatterns[2]),
      RegexSub(RegexPatterns[3]), RegexSub(RegexPatterns[4]), RegexSub(RegexPatterns[5]) ]
    + (if many then [LiteralSub(AmPmSeconds), LiteralSub(AmPmMinutes)]
       else [WholeValue(AmPmSeconds), WholeValue(AmPmMinutes)])
  }

  /** The first k replacements of sts applied to s, in order. */
  function ApplyFirst(sts: seq<Stripper>, k: nat, s: string): (r: string)
    requires k <= |sts|
    ensures |r| <= |s|
  {
    if k == 0 then s else Apply(sts[k - 1], ApplyFirst(sts, k - 1, s))
  }

  function StripEntry(s: string, many: bool): (r: string)
    ensures |r| <= |s|
  {
    ApplyFirst(Strippers(many), 8, s)
  }

  /** The mask of line 131: `str.len() > 10`. */
  predicate Long(s: string) {
    |s| > 10
  }

  /** The positions of the entries the mask of line 131 selects. */
  function LongIndices(col: seq<string>): set<nat> {
    set i: nat | i < |col| && Long(col[i])
  }

  /** `mask.sum()`: the number of long entries, which decides between the
      branches of lines 132 and 142 (CountLongCounts). */
  function CountLong(col: seq<string>): (n: nat)
    ensures n <= |col|
    ensures n > 0 <==> exists i :: 0 <= i < |col| && Long(col[i])
  {
    if col == [] then 0
    else
      var n := CountLong(col[..|col| - 1]) + (if Long(col[|col| - 1]) then 1 else 0);
      assert forall i :: 0 <= i < |col| - 1 ==> col[..|col| - 1][i] == col[i];
      n
  }

  /** Property: CountLong is the number of entries the mask selects, and it
      exceeds 1 exactly when two different entries are long. */
  lemma {:induction false} CountLongCounts(col: seq<string>)
    ensures CountLong(col) == |LongIndices(col)|
    ensures CountLong(col) > 1 <==> exists i, j :: 0 <= i < j < |col| && Long(col[i]) && Long(col[j])
    decreases |col|
  {
    if col != [] {
      var m := |col| - 1;
      var pre := col[..m];
      CountLongCounts(pre);
      assert forall i :: 0 <= i < m ==> pre[i] == col[i];
      assert LongIndices(col) == LongIndices(pre) + (if Long(col[m]) then {m} else {});
      assert m !in LongIndices(pre);
    }
  }

  /** The column after stage A. */
  function StripStage(col: seq<string>, dateonly: bool): (r: seq<string>)
    ensures |r| == |col|
    ensures !dateonly ==> r == col
    ensures forall i :: 0 <= i < |col| && !Long(col[i]) ==> r[i] == col[i]
    ensures forall i :: 0 <= i < |col| ==> |r[i]| <= |col[i]|
  {
    if dateonly && CountLong(col) > 0 then
      var many := CountLong(col) > 1;
      seq(|col|, i requires 0 <= i < |col| => if Long(col[i]) then StripEntry(col[i], many) else col[i])
    else col
  }

  /** A text that none of the eight replacements can start a match in. */
  predicate Clean(s: string) {
    forall i :: 0 <= i < |s| ==> s[i] != 'T' && !IsSpace(s[i]) && s[i] != '['
  }

  /** The two plain-text replacements of lines 140-141 and 150-151 can change
      only an entry that contains a '[' (in fact only one that contains, or
      is, their pattern text literally). */
  lemma AmPmStrippersInert(s: string, many: bool, k: nat)
    requires 6 <= k < 8
    requires '[' !in s
    ensures Apply(Strippers(many)[k], s) == s
  {
    var t := if k == 6 then AmPmSeconds else AmPmMinutes;
    assert t[0] == '[';
    assert Strippers(many)[k] == (if many then LiteralSub(t) else WholeValue(t));
    forall i: nat ensures !OccursAt(s, t, i) {
      if i + |t| <= |s| {
        assert s[i..i + |t|][0] == s[i] != '[';
      }
    }
    LiteralInert(s, t);
  }

  /** Neither a plain-text replacement nor a whole-value replacement changes
      a string in which the text does not occur. */
  lemma LiteralInert(s: string, t: string)
    requires t != [] && forall i: nat :: !OccursAt(s, t, i)
    ensures Sub(s, Literal(t)) == s
    ensures s != t
  {
    var p := Literal(t);
    forall i: nat | i < |s| ensures !MatchAt(s, i, p) {
      if i + |t| <= |s| {
        var w := s[i..i + |t|];
        assert !OccursAt(s, t, i);
        var j :| 0 <= j < |t| && w[j] != t[j];
        assert !Accepts(p[j], s[i + j]);
      }
    }
    SubNoMatch(s, p);
    if |t| == |s| {
      assert s[0..0 + |t|] == s;
    }
  }

  /** Every replacement leaves a clean text unchanged. */
  lemma CleanInert(s: string, many: bool, k: nat)
    requires Clean(s) && k < 8
    ensures Apply(Strippers(many)[k], s) == s
  {
    if k < 6 {
      var p := RegexPatterns[k];
      NoMatchWithoutStart(s, p);
      SubNoMatch(s, p);
    } else {
      forall i | 0 <= i < |s| ensures s[i] != '[' {}
      assert '[' !in s;
      AmPmStrippersInert(s, many, k);
    }
  }

  lemma {:induction false} CleanInertFrom(s: string, many: bool, k: nat, u: string)
    requires Clean(s) && k <= 8
    requires ApplyFirst(Strippers(many), k, u) == s
    ensures StripEntry(u, many) == s
    decreases 8 - k
  {
    if k < 8 {
      CleanInert(s, many, k);
      CleanInertFrom(s, many, k + 1, u);
    }
  }

  /** A pattern longer than the time text cannot match in date + time when the
      date is clean. */
  lemma TooLongNoMatch(d: string, t: string, p: seq<CharClass>)
    requires Clean(d) && |p| > |t| && p[0] == TOrSpace
    ensures NoMatch(d + t, p)
  {
    var s := d + t;
    forall i: nat | i < |s| ensures !MatchAt(s, i, p) {
      if i < |d| {
        assert s[i] == d[i];
        assert !Accepts(p[0], s[i + 0]);
      }
    }
  }

  /** Deleting a match in the middle: nothing before it matches and nothing
      after it can. */
  lemma {:induction false} SubMiddle(d: string, t: string, rest: string, p: seq<CharClass>)
    requires |p| > 0 && |t| == |p| && MatchAt(t, 0, p)
    requires forall i: nat :: i < |d| ==> !MatchAt(d + t + rest, i, p)
    requires NoMatch(rest, p)
    ensures Sub(d + t + rest, p) == d + rest
    decreases |d|
  {
    var s := d + t + rest;
    if d == [] {
      assert s == t + rest;
      SubLeading(t, rest, p);
    } else {
      assert s[0] == d[0];
      assert !MatchAt(s, 0, p);
      assert |s| >= |p|;
      assert s[1..] == d[1..] + t + rest;
      forall i: nat | i < |d[1..]| ensures !MatchAt(d[1..] + t + rest, i, p) {
        ShiftMatch(s, p, 1, i);
      }
      SubMiddle(d[1..], t, rest, p);
      assert [d[0]] + (d[1..] + rest) == d + rest;
    }
  }

  /** Property: a date followed by one of the time texts of lines 133-136
      (`THH:MM:SS.mmmZ`, `THH:MM:SS.mmm`, `THH:MM:SS`, `THHMMSS`, with 'T' or
      whitespace in front) comes out of stage A as the bare date. */
  lemma TrailingTimeStripped(d: string, t: string, k: nat, many: bool)
    requires k < 4 && Clean(d)
    requires |t| == |RegexPatterns[k]| && MatchAt(t, 0, RegexPatterns[k])
    ensures StripEntry(d + t, many) == d
  {
    var sts := Strippers(many);
    var s := d + t;
    ApplyFirstBefore(d, t, k, many, k);
    var p := RegexPatterns[k];
    forall i: nat | i < |d| ensures !MatchAt(s, i, p) {
      assert s[i] == d[i];
      assert !Accepts(p[0], s[i + 0]);
    }
    assert d + t + [] == s;
    SubMiddle(d, t, [], p);
    assert ApplyFirst(sts, k + 1, s) == d;
    CleanInertFrom(d, many, k + 1, s);
  }

  lemma {:induction false} ApplyFirstBefore(d: string, t: string, k: nat, many: bool, j: nat)
    requires j <= k < 4 && Clean(d)
    requires |t| == |RegexPatterns[k]|
    ensures ApplyFirst(Strippers(many), j, d + t) == d + t
    decreases j
  {
    if j > 0 {
      ApplyFirstBefore(d, t, k, many, j - 1);
      var p := RegexPatterns[j - 1];
      TooLongNoMatch(d, t, p);
      SubNoMatch(d + t, p);
    }
  }

  /** `THHMMSS.mmmZ` (or whitespace for 'T'), the text line 137 is meant to delete. */
  predicate CompactMillisZ(t: string) {
    |t| == 12 && (t[0] == 'T' || IsSpace(t[0])) && AllDigits(t[1..7]) &&
    t[7] == '.' && AllDigits(t[8..11]) && t[11] == 'Z'
  }

  /** Property (ordering of lines 136-138): a compact time with milliseconds
      and 'Z' is never deleted whole, because the compact pattern of line 136
      runs first and removes only `THHMMSS`; the milliseconds are left behind. */
  lemma CompactMillisResidue(d: string, t: string, many: bool)
    requires Clean(d) && CompactMillisZ(t)
    ensures StripEntry(d + t, many) == d + t[7..]
  {
    var sts := Strippers(many);
    var s := d + t;
    TooLongNoMatch(d, t, RegexPatterns[0]);
    SubNoMatch(s, RegexPatterns[0]);
    TooLongNoMatch(d, t, RegexPatterns[1]);
    SubNoMatch(s, RegexPatterns[1]);
    CompactNoClockMatch(d, t);
    SubNoMatch(s, RegexPatterns[2]);
    assert ApplyFirst(sts, 1, s) == s;
    assert ApplyFirst(sts, 2, s) == s;
    assert ApplyFirst(sts, 3, s) == s;
    CompactPrefixDeleted(d, t);
    assert ApplyFirst(sts, 4, s) == d + t[7..];
    CleanInertFrom(d + t[7..], many, 4, s);
  }

  lemma CompactNoClockMatch(d: string, t: string)
    requires Clean(d) && CompactMillisZ(t)
    ensures NoMatch(d + t, RegexPatterns[2])
  {
    var s, p := d + t, RegexPatterns[2];
    forall i: nat | i < |s| ensures !MatchAt(s, i, p) {
      if i < |d| {
        assert s[i] == d[i] && !Accepts(p[0], s[i + 0]);
      } else if i == |d| {
        assert t[1..7][2] == t[3];
        assert s[i + 3] == t[3] && !Accepts(p[3], s[i + 3]);
      } else if i + |p| <= |s| {
        var j := i - |d|;
        assert t[1..7][j - 1] == t[j];
        assert s[i] == t[j] && !Accepts(p[0], s[i + 0]);
      }
    }
  }

  lemma CompactPrefixDeleted(d: string, t: string)
    requires Clean(d) && CompactMillisZ(t)
    ensures Sub(d + t, RegexPatterns[3]) == d + t[7..]
    ensures Clean(d + t[7..])
  {
    var p := RegexPatterns[3];
    var u, rest := t[..7], t[7..];
    assert MatchAt(u, 0, p) by {
      forall j | 1 <= j < 7 ensures Accepts(p[j], u[j]) {
        assert t[1..7][j - 1] == u[j];
      }
    }
    assert Clean(rest) by {
      forall j | 0 < j < 4 ensures rest[j] == t[8..11][j - 1] {}
    }
    NoMatchWithoutStart(rest, p);
    forall i: nat | i < |d| ensures !MatchAt(d + u + rest, i, p) {
      assert (d + u + rest)[i] == d[i];
      assert !Accepts(p[0], (d + u + rest)[i + 0]);
    }
    assert d + u + rest == d + t;
    SubMiddle(d, u, rest, p);
  }

  /** Property: the timestamps of the earthquake data keep their date part. */
  lemma IsoTimestampExample(many: bool)
    ensures StripEntry("1975-02-23T02:58:41.000Z", many) == "1975-02-23"
  {
    var d, t := "1975-02-23", "T02:58:41.000Z";
    assert Clean(d);
    assert MatchAt(t, 0, RegexPatterns[0]);
    TrailingTimeStripped(d, t, 0, many);
    assert d + t == "1975-02-23T02:58:41.000Z";
  }

  /** The mask of line 131 and the number of entries it selects. */
  method LongMask(work: array<string>) returns (mask: seq<bool>, n: nat)
    ensures |mask| == work.Length
    ensures forall i :: 0 <= i < work.Length ==> mask[i] == Long(work[i])
    ensures n == CountLong(work[..])
  {
    mask, n := [], 0;
    for i := 0 to work.Length
      invariant |mask| == i
      invariant forall j :: 0 <= j < i ==> mask[j] == Long(work[j])
      invariant n == CountLong(work[..i])
    {
      assert work[..i + 1][..i] == work[..i];
      mask := mask + [Long(work[i])];
      n := n + if Long(work[i]) then 1 else 0;
    }
    assert work[..work.Length] == work[..];
  }

  /** One masked assignment `date_col_copy[indices] = ...` of lines 133-151. */
  method ApplyMasked(work: array<string>, mask: seq<bool>, st: Stripper)
    requires |mask| == work.Length
    modifies work
    ensures forall j :: 0 <= j < work.Length ==>
      work[j] == if mask[j] then Apply(st, old(work[j])) else old(work[j])
  {
    for i := 0 to work.Length
      invariant forall j :: 0 <= j < i ==> work[j] == if mask[j] then Apply(st, old(work[j])) else old(work[j])
      invariant forall j :: i <= j < work.Length ==> work[j] == old(work[j])
    {
      if mask[i] {
        work[i] := Apply(st, work[i]);
      }
    }
  }

  /** The replacements applied in order, each through the mask. */
  method ApplyAllMasked(work: array<string>, mask: seq<bool>, sts: seq<Stripper>)
    requires |mask| == work.Length
    modifies work
    ensures forall i :: 0 <= i < work.Length ==>
      work[i] == if mask[i] then ApplyFirst(sts, |sts|, old(work[i])) else old(work[i])
  {
    for k := 0 to |sts|
      invariant forall i :: 0 <= i < work.Length ==>
        work[i] == if mask[i] then ApplyFirst(sts, k, old(work[i])) else old(work[i])
    {
      ApplyMasked(work, mask, sts[k]);
    }
  }

  lemma StripEntryIsApplyFirst(s: string, many: bool)
    ensures StripEntry(s, many) == ApplyFirst(Strippers(many), |Strippers(many)|, s)
  {
  }

  /** The column that stage A produces, entry by entry. */
  lemma StripStageFrom(col: seq<string>, out: seq<string>)
    requires CountLong(col) > 0 && |out| == |col|
    requires forall i :: 0 <= i < |col| ==> out[i] == if Long(col[i]) then StripEntry(col[i], CountLong(col) > 1) else col[i]
    ensures out == StripStage(col, true)
  {
  }

  /** The replacements of lines 133-151 on the long entries selected by
      the mask; n of them. */
  method StripLong(work: array<string>, mask: seq<bool>, n: nat)
    requires |mask| == work.Length && n > 0 && n == CountLong(work[..])
    requires forall i :: 0 <= i < work.Length ==> mask[i] == Long(work[i])
    modifies work
    ensures work[..] == StripStage(old(work[..]), true)
  {
    ghost var orig := work[..];
    var sts := Strippers(n > 1);
    ApplyAllMasked(work, mask, sts);
    ghost var out := work[..];
    forall i | 0 <= i < |orig|
      ensures out[i] == if Long(orig[i]) then StripEntry(orig[i], n > 1) else orig[i]
    {
      StripEntryIsApplyFirst(orig[i], n > 1);
    }
    StripStageFrom(orig, out);
  }

  /** Stage A in place on the working copy: each replacement in turn is
      assigned through the mask to every long entry, as lines 131-151 do. */
  method StripTimes(work: array<string>, dateonly: bool)
    modifies work
    ensures work[..] == StripStage(old(work[..]), dateonly)
  {
    if dateonly {
      var mask, n := LongMask(work);
      if n > 0 {
        StripLong(work, mask, n);
      }
    }
  }
}
