/** Character predicates and the handful of Python string operations that
    parse_dates relies on: `c in s`, str.replace of one character by another,
    str.split on a one-character separator, and int() applied to a field. */
module Text {

  datatype Option<T> = None | Some(value: T)

  /** `[0-9]` in a regular expression: the ASCII digits. */
  predicate IsDigit(c: char) {
    '0' <= c <= '9'
  }

  predicate AllDigits(s: string) {
    forall i :: 0 <= i < |s| ==> IsDigit(s[i])
  }

  /** Python's str.isspace(); the same set is what `\s` matches in a str
      regular expression and what int() strips from both ends. */
  predicate IsSpace(c: char) {
    var n := c as int;
    (9 <= n <= 13) || (28 <= n <= 32) || n == 0x85 || n == 0xA0 || n == 0x1680
    || (0x2000 <= n <= 0x200A) || n == 0x2028 || n == 0x2029 || n == 0x202F
    || n == 0x205F || n == 0x3000
  }

  function DigitValue(c: char): (v: nat)
    requires IsDigit(c)
    ensures v < 10
  {
    c as int - '0' as int
  }

  /** The number written by a string of decimal digits (most significant first). */
  function DigitsValue(s: string): (v: nat)
    requires AllDigits(s)
    decreases |s|
  {
    if s == [] then 0 else DigitsValue(s[..|s| - 1]) * 10 + DigitValue(s[|s| - 1])
  }

  lemma DigitsValueTwo(s: string)
    requires |s| == 2 && AllDigits(s)
    ensures DigitsValue(s) == 10 * DigitValue(s[0]) + DigitValue(s[1])
  {
    var h := s[..1];
    assert s[..|s| - 1] == h && h[0] == s[0] && h[..0] == [];
    assert DigitsValue(h) == DigitsValue(h[..0]) * 10 + DigitValue(h[0]);
  }

  lemma {:induction false} DigitsValueBound(s: string)
    requires AllDigits(s)
    ensures |s| == 2 ==> DigitsValue(s) < 100
    ensures |s| == 4 ==> DigitsValue(s) < 10000
    ensures |s| == 4 ==> DigitsValue(s) == 100 * DigitsValue(s[..2]) + DigitsValue(s[2..])
  {
    if |s| == 4 {
      var a, b := s[..2], s[2..];
      DigitsValueTwo(a);
      DigitsValueTwo(b);
      assert s[..3][..2] == a;
      assert s[..3] == s[..2] + [s[2]];
      assert s[..3][..2][..1] == [s[0]];
      assert s[..3][..2][..1][..0] == [];
    } else if |s| == 2 {
      DigitsValueTwo(s);
    }
  }

  /** Python str.strip() with no argument. */
  function StripLeft(s: string): (r: string)
    ensures |r| <= |s| && r == s[|s| - |r|..]
    ensures r != [] ==> !IsSpace(r[0])
    ensures forall j :: 0 <= j < |s| - |r| ==> IsSpace(s[j])
  {
    if s != [] && IsSpace(s[0]) then StripLeft(s[1..]) else s
  }

  function StripRight(s: string): (r: string)
    ensures |r| <= |s| && r == s[..|r|]
    ensures r != [] ==> !IsSpace(r[|r| - 1])
    ensures forall j :: |r| <= j < |s| ==> IsSpace(s[j])
  {
    if s != [] && IsSpace(s[|s| - 1]) then StripRight(s[..|s| - 1]) else s
  }

  function Strip(s: string): string {
    StripRight(StripLeft(s))
  }

  /** Stripping removes only whitespace: every other character of s is
      still there, and a string of whitespace strips to nothing. */
  lemma StripKeeps(s: string)
    ensures forall i :: 0 <= i < |s| && !IsSpace(s[i]) ==> s[i] in Strip(s)
    ensures (forall i :: 0 <= i < |s| ==> IsSpace(s[i])) ==> Strip(s) == []
  {
    var l := StripLeft(s);
    var r := StripRight(l);
    var off := |s| - |l|;
    forall i | 0 <= i < |s| && !IsSpace(s[i]) ensures s[i] in r {
      assert i >= off;
      assert l[i - off] == s[i];
      assert i - off < |r|;
      assert r[i - off] == s[i];
    }
  }

  /** A character int() never accepts, wherever it stands. */
  predicate NeverInInt(c: char) {
    !IsDigit(c) && !IsSpace(c) && c != '+' && c != '-' && c != '_'
  }

  /** What int() sees after stripping a string that holds a character that
      can never be part of a number: no digit run, with or without a leading
      sign. */
  lemma StripRejects(s: string)
    ensures (exists i :: 0 <= i < |s| && NeverInInt(s[i])) ==>
      !DigitRun(Strip(s)) && (Strip(s) != [] ==> (Strip(s)[0] != '+' && Strip(s)[0] != '-') || !DigitRun(Strip(s)[1..]))
  {
    if exists i :: 0 <= i < |s| && NeverInInt(s[i]) {
      var i :| 0 <= i < |s| && NeverInInt(s[i]);
      StripRejectsAt(s, i);
    }
  }

  lemma StripRejectsAt(s: string, i: nat)
    requires i < |s| && NeverInInt(s[i])
    ensures !DigitRun(Strip(s)) && (Strip(s) != [] ==> (Strip(s)[0] != '+' && Strip(s)[0] != '-') || !DigitRun(Strip(s)[1..]))
  {
    StripKeeps(s);
    var t := Strip(s);
    assert s[i] in t;
    var k :| 0 <= k < |t| && t[k] == s[i];
    NoDigitRun(t, k);
    if t[0] == '+' || t[0] == '-' {
      assert k > 0 && t[1..][k - 1] == s[i];
      NoDigitRun(t[1..], k - 1);
    }
  }

  /** A string with a character that is neither a digit nor '_' is no digit run. */
  lemma NoDigitRun(u: string, k: nat)
    requires k < |u| && !IsDigit(u[k]) && u[k] != '_'
    ensures !DigitRun(u)
  {
  }

  /** Digits with single underscores between them: what int() accepts after
      the sign (ASCII digits only). */
  predicate DigitRun(u: string) {
    |u| > 0 && IsDigit(u[0]) &&
    forall i {:trigger u[i]} :: 0 <= i < |u| ==> IsDigit(u[i]) || (u[i] == '_' && i + 1 < |u| && IsDigit(u[i + 1]))
  }

  /** The digits of u in order, separators dropped. */
  function DigitsOf(u: string): (r: string)
    ensures AllDigits(r)
    ensures AllDigits(u) ==> r == u
  {
    if u == [] then [] else (if IsDigit(u[0]) then [u[0]] else []) + DigitsOf(u[1..])
  }

  /** Python's int(s) for a str argument in base 10: Some(value), or None where
      Python raises ValueError. */
  function PyInt(s: string): (r: Option<int>)
    ensures AllDigits(s) && s != [] ==> r == Some(DigitsValue(s))
    ensures (forall i :: 0 <= i < |s| ==> IsSpace(s[i])) ==> r.None?
    ensures (exists i :: 0 <= i < |s| && NeverInInt(s[i])) ==> r.None?
  {
    var t := Strip(s);
    StripDigits(s);
    StripKeeps(s);
    StripRejects(s);
    if t != [] && (t[0] == '+' || t[0] == '-') then
      var u := t[1..];
      if DigitRun(u) then
        var v: int := DigitsValue(DigitsOf(u));
        Some(if t[0] == '-' then -v else v)
      else None
    else if DigitRun(t) then
      Some(DigitsValue(DigitsOf(t)))
    else None
  }

  lemma StripDigits(s: string)
    ensures AllDigits(s) ==> Strip(s) == s
  {
    if AllDigits(s) && s != [] {
      assert !IsSpace(s[0]) && !IsSpace(s[|s| - 1]);
    }
  }

  /** The text t occurs in s starting at position i. */
  predicate OccursAt(s: string, t: string, i: nat) {
    i + |t| <= |s| && s[i..i + |t|] == t
  }

  /** str.replace(a, b) for two one-character strings. */
  function ReplaceChar(s: string, a: char, b: char): (r: string)
    ensures |r| == |s|
    ensures forall i :: 0 <= i < |s| ==> r[i] == (if s[i] == a then b else s[i])
  {
    if s == [] then [] else [if s[0] == a then b else s[0]] + ReplaceChar(s[1..], a, b)
  }

  /** str.split(c) for a one-character separator c: the pieces between the
      occurrences of c, in order, empty pieces included. */
  function Split(s: string, c: char): (r: seq<string>)
    ensures |r| >= 1
    ensures forall i :: 0 <= i < |r| ==> c !in r[i]
    ensures Join(r, c) == s
    ensures |r| == 1 <==> c !in s
  {
    if s == [] then [""]
    else
      var rest := Split(s[1..], c);
      if s[0] == c then [""] + rest
      else
        var r := [[s[0]] + rest[0]] + rest[1..];
        assert Join(rest, c) == rest[0] + (if |rest| == 1 then [] else [c] + Join(rest[1..], c));
        assert Join(r, c) == r[0] + (if |rest| == 1 then [] else [c] + Join(rest[1..], c));
        assert s == [s[0]] + s[1..];
        r
  }

  /** The inverse of Split: the pieces glued back together with c between them. */
  function Join(pieces: seq<string>, c: char): string
    requires |pieces| >= 1
  {
    if |pieces| == 1 then pieces[0] else pieces[0] + [c] + Join(pieces[1..], c)
  }

  /** Splitting a string made of pieces that do not contain the separator
      gives those pieces back. */
  lemma {:induction false} SplitJoin(pieces: seq<string>, c: char)
    requires |pieces| >= 1
    requires forall i :: 0 <= i < |pieces| ==> c !in pieces[i]
    ensures Split(Join(pieces, c), c) == pieces
  {
    if |pieces| == 1 {
      SplitFree(pieces[0], c);
    } else {
      SplitJoin(pieces[1..], c);
      SplitPrefix(pieces[0], c, Join(pieces[1..], c));
    }
  }

  lemma {:induction false} SplitFree(a: string, c: char)
    requires c !in a
    ensures Split(a, c) == [a]
  {
  }

  lemma {:induction false} SplitPrefix(a: string, c: char, rest: string)
    requires c !in a
    ensures Split(a + [c] + rest, c) == [a] + Split(rest, c)
    decreases |a|
  {
    if a == [] {
      assert (a + [c] + rest)[1..] == rest;
    } else {
      var s := a + [c] + rest;
      assert s[1..] == a[1..] + [c] + rest;
      SplitPrefix(a[1..], c, rest);
      var tail := Split(s[1..], c);
      assert s[0] == a[0] && a[0] in a;
      assert Split(s, c) == [[s[0]] + tail[0]] + tail[1..];
      assert tail[0] == a[1..] && tail[1..] == Split(rest, c);
      assert [a[0]] + a[1..] == a;
    }
  }
}
