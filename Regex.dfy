/** The fragment of Python's `re` that parse_dates uses: patterns that are a
    fixed sequence of one-character classes, and re.sub(pattern, '', s), which
    deletes every non-overlapping match, scanning left to right. */
module Regex {
  import opened Text

  datatype CharClass =
    | Exactly(c: char)     // a literal character
    | AsciiDigit           // [0-9]
    | TOrSpace             // [T\s]
    | NotNewline           // .
    | OneOf(chars: string) // [...] listing its members

  predicate Accepts(k: CharClass, c: char) {
    match k
    case Exactly(x) => c == x
    case AsciiDigit => IsDigit(c)
    case TOrSpace => c == 'T' || IsSpace(c)
    case NotNewline => c != '\n'
    case OneOf(cs) => c in cs
  }

  /** The pattern p matches s at position i. */
  predicate MatchAt(s: string, i: nat, p: seq<CharClass>) {
    i + |p| <= |s| && forall j :: 0 <= j < |p| ==> Accepts(p[j], s[i + j])
  }

  /** No position of s starts a match of p. */
  predicate NoMatch(s: string, p: seq<CharClass>) {
    forall i: nat :: i < |s| ==> !MatchAt(s, i, p)
  }

  /** The pattern that matches exactly the text t (a plain str.replace). */
  function Literal(t: string): (p: seq<CharClass>)
    ensures |p| == |t|
    ensures forall j :: 0 <= j < |t| ==> p[j] == Exactly(t[j])
  {
    if t == [] then [] else [Exactly(t[0])] + Literal(t[1..])
  }

  /** re.sub(p, '', s) for a non-empty fixed-length pattern p. */
  function Sub(s: string, p: seq<CharClass>): (r: string)
    requires |p| > 0
    ensures |r| <= |s|
    decreases |s|
  {
    if |s| < |p| then s
    else if MatchAt(s, 0, p) then Sub(s[|p|..], p)
    else [s[0]] + Sub(s[1..], p)
  }

  lemma ShiftMatch(s: string, p: seq<CharClass>, k: nat, i: nat)
    requires k <= |s|
    ensures MatchAt(s[k..], i, p) <==> MatchAt(s, k + i, p)
  {
    if MatchAt(s, k + i, p) {
      forall j | 0 <= j < |p| ensures Accepts(p[j], s[k..][i + j]) {
        assert s[k..][i + j] == s[k + i + j];
      }
    }
    if MatchAt(s[k..], i, p) {
      forall j | 0 <= j < |p| ensures Accepts(p[j], s[k + i + j]) {
        assert s[k..][i + j] == s[k + i + j];
      }
    }
  }

  /** A string without any match is left as it is. */
  lemma {:induction false} SubNoMatch(s: string, p: seq<CharClass>)
    requires |p| > 0 && NoMatch(s, p)
    ensures Sub(s, p) == s
    decreases |s|
  {
    if |s| >= |p| {
      assert !MatchAt(s, 0, p);
      forall i: nat | i < |s[1..]| ensures !MatchAt(s[1..], i, p) {
        ShiftMatch(s, p, 1, i);
      }
      SubNoMatch(s[1..], p);
      assert [s[0]] + s[1..] == s;
    }
  }

  /** A trailing match of p is deleted when no earlier position starts a match. */
  lemma {:induction false} SubTrailing(d: string, t: string, p: seq<CharClass>)
    requires |p| > 0 && |t| == |p| && MatchAt(t, 0, p)
    requires forall i: nat :: i < |d| ==> !MatchAt(d + t, i, p)
    ensures Sub(d + t, p) == d
    decreases |d|
  {
    var s := d + t;
    if d == [] {
      assert s == t && s[|p|..] == [];
    } else {
      assert !MatchAt(s, 0, p);
      assert s[1..] == d[1..] + t;
      forall i: nat | i < |d[1..]| ensures !MatchAt(d[1..] + t, i, p) {
        ShiftMatch(s, p, 1, i);
      }
      SubTrailing(d[1..], t, p);
      assert [d[0]] + d[1..] == d;
    }
  }

  /** A match at the start followed by a text without matches leaves that text. */
  lemma SubLeading(t: string, rest: string, p: seq<CharClass>)
    requires |p| > 0 && |t| == |p| && MatchAt(t, 0, p)
    requires NoMatch(rest, p)
    ensures Sub(t + rest, p) == rest
  {
    var s := t + rest;
    assert MatchAt(s, 0, p) by {
      forall j | 0 <= j < |p| ensures Accepts(p[j], s[j]) {
        assert s[j] == t[j];
      }
    }
    assert s[|p|..] == rest;
    SubNoMatch(rest, p);
  }

  /** A pattern whose first class needs 'T' or whitespace cannot match in a
      string that has neither. */
  lemma NoMatchWithoutStart(s: string, p: seq<CharClass>)
    requires |p| > 0 && p[0] == TOrSpace
    requires forall i :: 0 <= i < |s| ==> s[i] != 'T' && !IsSpace(s[i])
    ensures NoMatch(s, p)
  {
    forall i: nat | i < |s| ensures !MatchAt(s, i, p) {
      assert !Accepts(p[0], s[i + 0]);
    }
  }
}
