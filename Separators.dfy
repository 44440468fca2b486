/** Stage B of parse_dates: when some entry holds '/', '-' or '.', the other
    two of these are rewritten to the target separator across the whole
    column (parsing-dates-earthquakes.py:155-174). */
module Separators {
  import opened Text

  /** The `sep` argument: None, the empty string, or a one-character string. */
  datatype Sep = NoneSep | EmptySep | CharSep(c: char)

  /** The three separators the source recognises. */
  predicate IsDateSep(ch: char) {
    ch == '/' || ch == '-' || ch == '.'
  }

  /** `(col.str.find(ch) != -1).any()` */
  predicate AnyContains(col: seq<string>, ch: char) {
    exists i :: 0 <= i < |col| && ch in col[i]
  }

  /** `col.str.replace(a, b)` for one-character a and b. */
  function ReplaceInColumn(col: seq<string>, a: char, b: char): (r: seq<string>)
    ensures |r| == |col|
    ensures forall i :: 0 <= i < |col| ==> r[i] == ReplaceChar(col[i], a, b)
  {
    seq(|col|, i requires 0 <= i < |col| => ReplaceChar(col[i], a, b))
  }

  /** One guarded step such as lines 157-158. */
  function ReplaceIfPresent(col: seq<string>, a: char, b: char): (r: seq<string>)
    ensures |r| == |col| && forall i :: 0 <= i < |col| ==> |r[i]| == |col[i]|
  {
    if AnyContains(col, a) then ReplaceInColumn(col, a, b) else col
  }

  /** The column after stage B. */
  function UnifyStage(col: seq<string>, sep: Sep): (r: seq<string>)
    ensures |r| == |col|
    ensures forall i :: 0 <= i < |col| ==> |r[i]| == |col[i]|
  {
    if AnyContains(col, '/') || AnyContains(col, '-') || AnyContains(col, '.') then
      if sep == CharSep('/') then ReplaceIfPresent(ReplaceIfPresent(col, '-', '/'), '.', '/')
      else if sep == CharSep('-') then ReplaceIfPresent(ReplaceIfPresent(col, '/', '-'), '.', '-')
      else if sep == CharSep('.') then ReplaceIfPresent(ReplaceIfPresent(col, '/', '.'), '-', '.')
      else col
    else col
  }

  /** The guard of a step only saves work: replacing a character no entry
      holds changes nothing. */
  lemma ReplaceIfPresentIsReplace(col: seq<string>, a: char, b: char)
    ensures ReplaceIfPresent(col, a, b) == ReplaceInColumn(col, a, b)
  {
    if !AnyContains(col, a) {
      forall i | 0 <= i < |col| ensures ReplaceChar(col[i], a, b) == col[i] {
        assert a !in col[i];
        forall j | 0 <= j < |col[i]| ensures col[i][j] != a {
          assert col[i][j] in col[i];
        }
      }
    }
  }

  /** Property: when some entry holds a separator and the target is one of
      the three, every separator character of every entry becomes the target
      and every other character stays; in particular no entry keeps either of
      the two other separators. */
  lemma UnifyRewritesSeparators(col: seq<string>, c: char)
    requires IsDateSep(c)
    requires AnyContains(col, '/') || AnyContains(col, '-') || AnyContains(col, '.')
    ensures var r := UnifyStage(col, CharSep(c));
      forall i :: 0 <= i < |col| ==>
        |r[i]| == |col[i]| &&
        (forall j :: 0 <= j < |col[i]| ==> r[i][j] == if IsDateSep(col[i][j]) then c else col[i][j])
    ensures var r := UnifyStage(col, CharSep(c));
      forall i, o :: 0 <= i < |col| && IsDateSep(o) && o != c ==> o !in r[i]
  {
    var r := UnifyStage(col, CharSep(c));
    var o1, o2 := if c == '/' then '-' else '/', if c == '.' then '-' else '.';
    var mid := ReplaceIfPresent(col, o1, c);
    ReplaceIfPresentIsReplace(col, o1, c);
    ReplaceIfPresentIsReplace(mid, o2, c);
    assert r == ReplaceInColumn(mid, o2, c);
    forall i | 0 <= i < |col|
      ensures |r[i]| == |col[i]|
      ensures forall j :: 0 <= j < |col[i]| ==> r[i][j] == if IsDateSep(col[i][j]) then c else col[i][j]
    {
      assert r[i] == ReplaceChar(ReplaceChar(col[i], o1, c), o2, c);
    }
    forall i, o | 0 <= i < |col| && IsDateSep(o) && o != c ensures o !in r[i] {
      forall j | 0 <= j < |r[i]| ensures r[i][j] != o {
        assert r[i][j] == if IsDateSep(col[i][j]) then c else col[i][j];
      }
    }
  }

  /** Property: a column with no separator at all (the unimplemented branch
      of lines 171-174), or a target that is not one of the three, is left as
      it is. */
  lemma UnifyLeavesColumn(col: seq<string>, sep: Sep)
    requires !(AnyContains(col, '/') || AnyContains(col, '-') || AnyContains(col, '.'))
      || !(sep.CharSep? && IsDateSep(sep.c))
    ensures UnifyStage(col, sep) == col
  {
  }

  /** `(work.str.find(ch) != -1).any()` over the working copy. */
  method ColumnContains(work: array<string>, ch: char) returns (found: bool)
    ensures found == AnyContains(work[..], ch)
  {
    found := false;
    for i := 0 to work.Length
      invariant found == exists j :: 0 <= j < i && ch in work[j]
    {
      if ch in work[i] {
        found := true;
      }
    }
  }

  /** `work = work.str.replace(a, b)`, done entry by entry. */
  method ReplaceColumn(work: array<string>, a: char, b: char)
    modifies work
    ensures work[..] == ReplaceInColumn(old(work[..]), a, b)
  {
    for i := 0 to work.Length
      invariant forall j :: 0 <= j < i ==> work[j] == ReplaceChar(old(work[j]), a, b)
      invariant forall j :: i <= j < work.Length ==> work[j] == old(work[j])
    {
      work[i] := ReplaceChar(work[i], a, b);
    }
  }

  method ReplaceColumnIfPresent(work: array<string>, a: char, b: char)
    modifies work
    ensures work[..] == ReplaceIfPresent(old(work[..]), a, b)
  {
    var present := ColumnContains(work, a);
    if present {
      ReplaceColumn(work, a, b);
    }
  }

  /** Stage B on the working copy, with the tests and branches of lines 155-174. */
  method UnifySeparators(work: array<string>, sep: Sep)
    modifies work
    ensures work[..] == UnifyStage(old(work[..]), sep)
  {
    var slash := ColumnContains(work, '/');
    var dash := ColumnContains(work, '-');
    var dot := ColumnContains(work, '.');
    if slash || dash || dot {
      if sep == CharSep('/') {
        ReplaceColumnIfPresent(work, '-', '/');
        ReplaceColumnIfPresent(work, '.', '/');
      } else if sep == CharSep('-') {
        ReplaceColumnIfPresent(work, '/', '-');
        ReplaceColumnIfPresent(work, '.', '-');
      } else if sep == CharSep('.') {
        ReplaceColumnIfPresent(work, '/', '.');
        ReplaceColumnIfPresent(work, '-', '.');
      }
    }
    // else: no separator anywhere, the "TO DO" branch of lines 171-174
  }
}
