/**
 * The coordinate tokens the dashboard pulls out of a `lat/long` cell with
 * the pattern `POINT \(([^ ]+) ([^ ]+)\)`, searched for anywhere in the text
 * as pandas' `str.extract` does. Both extractions of the source use the same
 * pattern (only the captured group differs), so one match gives both tokens.
 * The numeric conversion that follows in the source is not modelled.
 */
module Geometry {
  import opened Wrappers
  import opened Text

  const POINT_OPEN: string := "POINT ("

  /** The two captured tokens: the first is the longitude, the second the latitude. */
  datatype Point = Point(long: string, lat: string)

  /** A run that `[^ ]+` can match: non-empty and free of spaces. */
  predicate IsToken(t: string) { |t| > 0 && NoSpace(t) }

  /** The text of a full match with tokens `a` and `b`. */
  function PointText(a: string, b: string): string { POINT_OPEN + a + " " + b + ")" }

  /** The pattern matches at position `p` of `s`, capturing `a` and `b`. */
  predicate MatchesAt(s: string, p: nat, a: string, b: string) {
    p <= |s| && IsToken(a) && IsToken(b) && PointText(a, b) <= s[p..]
  }

  /** The end of the run of non-space characters of `s` that starts at `i`. */
  function RunEnd(s: string, i: nat): (e: nat)
    requires i <= |s|
    ensures i <= e <= |s|
    ensures forall k :: i <= k < e ==> s[k] != ' '
    ensures e < |s| ==> s[e] == ' '
    decreases |s| - i
  {
    if i == |s| || s[i] == ' ' then i else RunEnd(s, i + 1)
  }

  /** The last `)` strictly between `lo` and `hi`, if there is one. */
  function LastClose(s: string, lo: nat, hi: nat): (r: Option<nat>)
    requires lo <= hi <= |s|
    ensures r.Some? ==> lo < r.value < hi && s[r.value] == ')'
    ensures r.Some? ==> forall k :: r.value < k < hi ==> s[k] != ')'
    ensures r.None? ==> forall k :: lo < k < hi ==> s[k] != ')'
    decreases hi
  {
    if hi <= lo + 1 then None
    else if s[hi - 1] == ')' then Some(hi - 1)
    else LastClose(s, lo, hi - 1)
  }

  /**
   * The match the regular-expression engine finds at position `p`. The first
   * token takes the whole run of non-space characters, since it must be
   * followed by a space; the second token backtracks from the end of its run
   * to the last `)` in it.
   */
  function MatchAt(s: string, p: nat): (r: Option<Point>)
    requires p <= |s|
    ensures r.Some? ==> MatchesAt(s, p, r.value.long, r.value.lat)
    ensures r.Some? ==> forall a, b :: MatchesAt(s, p, a, b) ==> a == r.value.long && |b| <= |r.value.lat|
    ensures r.None? ==> forall a, b :: !MatchesAt(s, p, a, b)
  {
    if p + |POINT_OPEN| > |s| || s[p..p + |POINT_OPEN|] != POINT_OPEN then
      NoMatchWithoutOpen(s, p);
      None
    else
      var a0 := p + |POINT_OPEN|;
      var e1 := RunEnd(s, a0);
      if e1 == a0 || e1 == |s| then
        NoMatchWithoutFirstToken(s, p, e1);
        None
      else
        var b0 := e1 + 1;
        var e2 := RunEnd(s, b0);
        match LastClose(s, b0, e2)
        case None =>
          NoMatchWithoutClose(s, p, e1, e2);
          None
        case Some(j) =>
          var r := Point(s[a0..e1], s[b0..j]);
          FoundMatch(s, p, e1, e2, j);
          Some(r)
  }

  /** Where a match at `p` with tokens `a` and `b` puts its pieces. */
  lemma MatchLayout(s: string, p: nat, a: string, b: string)
    requires MatchesAt(s, p, a, b)
    ensures p + |PointText(a, b)| <= |s|
    ensures s[p..p + |POINT_OPEN|] == POINT_OPEN
    ensures s[p + |POINT_OPEN|..p + |POINT_OPEN| + |a|] == a
    ensures s[p + |POINT_OPEN| + |a|] == ' '
    ensures s[p + |POINT_OPEN| + |a| + 1..p + |POINT_OPEN| + |a| + 1 + |b|] == b
    ensures s[p + |POINT_OPEN| + |a| + 1 + |b|] == ')'
  {
    var t := PointText(a, b);
    var n := |POINT_OPEN|;
    assert s[p..][..|t|] == t;
    assert s[p..p + |t|] == t;
    assert t[..n] == POINT_OPEN;
    assert t[n..n + |a|] == a;
    assert t[n + |a|] == ' ';
    assert t[n + |a| + 1..n + |a| + 1 + |b|] == b;
    assert t[n + |a| + 1 + |b|] == ')';
  }

  lemma NoMatchWithoutOpen(s: string, p: nat)
    requires p <= |s|
    requires p + |POINT_OPEN| > |s| || s[p..p + |POINT_OPEN|] != POINT_OPEN
    ensures forall a, b :: !MatchesAt(s, p, a, b)
  {
    forall a, b | MatchesAt(s, p, a, b) ensures false {
      MatchLayout(s, p, a, b);
    }
  }

  /** Any match at `p` has as first token the run that starts after `POINT (`. */
  lemma FirstTokenIsRun(s: string, p: nat, a: string, b: string)
    requires MatchesAt(s, p, a, b)
    ensures p + |POINT_OPEN| <= |s| && RunEnd(s, p + |POINT_OPEN|) == p + |POINT_OPEN| + |a|
  {
    MatchLayout(s, p, a, b);
  }

  lemma NoMatchWithoutFirstToken(s: string, p: nat, e1: nat)
    requires p + |POINT_OPEN| <= |s|
    requires e1 == RunEnd(s, p + |POINT_OPEN|)
    requires e1 == p + |POINT_OPEN| || e1 == |s|
    ensures forall a, b :: !MatchesAt(s, p, a, b)
  {
    forall a, b | MatchesAt(s, p, a, b) ensures false {
      FirstTokenIsRun(s, p, a, b);
      MatchLayout(s, p, a, b);
    }
  }

  /** Any match at `p` ends with a `)` inside the run that follows the first token. */
  lemma CloseInSecondRun(s: string, p: nat, a: string, b: string, e1: nat, e2: nat)
    requires MatchesAt(s, p, a, b)
    requires p + |POINT_OPEN| <= |s| && e1 == RunEnd(s, p + |POINT_OPEN|)
    requires e1 < |s| && e2 == RunEnd(s, e1 + 1)
    ensures e1 + 1 < e1 + 1 + |b| < e2
    ensures s[e1 + 1 + |b|] == ')'
    ensures s[e1 + 1..e1 + 1 + |b|] == b
  {
    FirstTokenIsRun(s, p, a, b);
    MatchLayout(s, p, a, b);
  }

  lemma NoMatchWithoutClose(s: string, p: nat, e1: nat, e2: nat)
    requires p + |POINT_OPEN| <= |s| && e1 == RunEnd(s, p + |POINT_OPEN|)
    requires e1 < |s| && e2 == RunEnd(s, e1 + 1)
    requires LastClose(s, e1 + 1, e2).None?
    ensures forall a, b :: !MatchesAt(s, p, a, b)
  {
    forall a, b | MatchesAt(s, p, a, b) ensures false {
      CloseInSecondRun(s, p, a, b, e1, e2);
    }
  }

  /** The runs found by `MatchAt` form a match. */
  lemma FoundMatch(s: string, p: nat, e1: nat, e2: nat, j: nat)
    requires p + |POINT_OPEN| <= |s| && s[p..p + |POINT_OPEN|] == POINT_OPEN
    requires e1 == RunEnd(s, p + |POINT_OPEN|) && p + |POINT_OPEN| < e1 < |s|
    requires e2 == RunEnd(s, e1 + 1)
    requires LastClose(s, e1 + 1, e2) == Some(j)
    ensures MatchesAt(s, p, s[p + |POINT_OPEN|..e1], s[e1 + 1..j])
    ensures forall a, b :: MatchesAt(s, p, a, b) ==> a == s[p + |POINT_OPEN|..e1] && |b| <= |s[e1 + 1..j]|
  {
    var a0 := p + |POINT_OPEN|;
    var a, b := s[a0..e1], s[e1 + 1..j];
    var t := PointText(a, b);
    assert s[p..e1] == POINT_OPEN + a by {
      assert s[p..e1] == s[p..a0] + s[a0..e1];
    }
    assert s[p..e1 + 1] == POINT_OPEN + a + " " by {
      assert s[p..e1 + 1] == s[p..e1] + [s[e1]];
    }
    assert s[p..j] == POINT_OPEN + a + " " + b by {
      assert s[p..j] == s[p..e1 + 1] + s[e1 + 1..j];
    }
    assert s[p..j + 1] == t by {
      assert s[p..j + 1] == s[p..j] + [s[j]];
    }
    assert s[p..][..|t|] == s[p..j + 1];
    FoundMatchGreedy(s, p, e1, e2, j);
  }

  /** Every match where `MatchAt` found one has the same first token and a second token no longer. */
  lemma FoundMatchGreedy(s: string, p: nat, e1: nat, e2: nat, j: nat)
    requires p + |POINT_OPEN| <= |s| && e1 == RunEnd(s, p + |POINT_OPEN|) && e1 < |s|
    requires e2 == RunEnd(s, e1 + 1)
    requires LastClose(s, e1 + 1, e2) == Some(j)
    ensures forall a, b :: MatchesAt(s, p, a, b) ==> a == s[p + |POINT_OPEN|..e1] && |b| <= |s[e1 + 1..j]|
  {
    forall a, b | MatchesAt(s, p, a, b) ensures a == s[p + |POINT_OPEN|..e1] && |b| <= j - (e1 + 1) {
      FirstTokenIsRun(s, p, a, b);
      MatchLayout(s, p, a, b);
      CloseInSecondRun(s, p, a, b, e1, e2);
    }
  }

  /** The first position at or after `p` where the pattern matches. */
  function LeftmostMatch(s: string, p: nat): (r: Option<nat>)
    requires p <= |s|
    ensures r.Some? ==> p <= r.value <= |s| && MatchAt(s, r.value).Some?
    ensures r.Some? ==> forall k :: p <= k < r.value ==> MatchAt(s, k).None?
    ensures r.None? ==> forall k :: p <= k <= |s| ==> MatchAt(s, k).None?
    decreases |s| - p
  {
    if MatchAt(s, p).Some? then Some(p)
    else if p == |s| then None
    else LeftmostMatch(s, p + 1)
  }

  lemma NoMatchBefore(s: string, q: nat)
    requires forall k :: 0 <= k < q && k <= |s| ==> MatchAt(s, k).None?
    ensures forall k: nat, a, b :: k < q ==> !MatchesAt(s, k, a, b)
  {
    forall k: nat, a, b | k < q && k <= |s| ensures !MatchesAt(s, k, a, b) {
      var m := MatchAt(s, k);
    }
  }

  /**
   * `pt` is what a regular-expression search reports: the pattern matches at
   * `q` with these tokens, at no earlier position, and no match at `q` has a
   * longer latitude token.
   */
  ghost predicate IsLeftmostGreedy(s: string, q: nat, pt: Point) {
    && MatchesAt(s, q, pt.long, pt.lat)
    && (forall k: nat, a, b :: k < q ==> !MatchesAt(s, k, a, b))
    && (forall a, b :: MatchesAt(s, q, a, b) ==> a == pt.long && |b| <= |pt.lat|)
  }

  /** `str.extract` with the point pattern on one string: the leftmost match, or nothing. */
  function ExtractPoint(s: string): (r: Option<Point>)
    ensures r.None? <==> forall p: nat, a, b :: !MatchesAt(s, p, a, b)
    ensures r.Some? ==> exists q: nat :: IsLeftmostGreedy(s, q, r.value)
  {
    match LeftmostMatch(s, 0)
    case None =>
      NoMatchBefore(s, |s| + 1);
      None
    case Some(q) =>
      var pt := MatchAt(s, q).value;
      NoMatchBefore(s, q);
      assert IsLeftmostGreedy(s, q, pt);
      Some(pt)
  }

  /** A cell that is exactly `POINT (a b)` yields `a` as longitude and `b` as latitude. */
  lemma {:induction false} ExtractWellFormed(a: string, b: string)
    requires IsToken(a) && IsToken(b)
    ensures ExtractPoint(PointText(a, b)) == Some(Point(a, b))
  {
    var s := PointText(a, b);
    assert MatchesAt(s, 0, a, b) by {
      assert s[0..] == s;
    }
    assert LeftmostMatch(s, 0) == Some(0);
    var r := MatchAt(s, 0).value;
    assert r.long == a;
    assert |b| <= |r.lat|;
    assert MatchesAt(s, 0, r.long, r.lat);
    MatchLayout(s, 0, r.long, r.lat);
    assert |r.lat| == |b|;
    assert r.lat == s[|POINT_OPEN| + |a| + 1..|POINT_OPEN| + |a| + 1 + |b|] == b;
  }

  /** The map centre of the dashboard, written as a geometry cell. */
  lemma ExtractCentralPark()
    ensures ExtractPoint("POINT (-73.9656 40.7826)") == Some(Point("-73.9656", "40.7826"))
  {
    assert "POINT (-73.9656 40.7826)" == PointText("-73.9656", "40.7826");
    ExtractWellFormed("-73.9656", "40.7826");
  }

  /** The cell the source stores in `long`: the first token, or a missing value. */
  function LongOf(cell: Option<string>): (r: Option<string>)
    ensures r.Some? ==> cell.Some? && exists p: nat, b :: MatchesAt(cell.value, p, r.value, b)
    ensures r.Some? ==> exists q: nat, b :: IsLeftmostGreedy(cell.value, q, Point(r.value, b))
    ensures cell.None? ==> r.None?
  {
    match cell
    case None => None
    case Some(s) =>
      match ExtractPoint(s)
      case None => None
      case Some(pt) => Some(pt.long)
  }

  /** The cell the source stores in `lat`: the second token, or a missing value. */
  function LatOf(cell: Option<string>): (r: Option<string>)
    ensures r.Some? ==> cell.Some? && exists p: nat, a :: MatchesAt(cell.value, p, a, r.value)
    ensures r.Some? ==> exists q: nat, a :: IsLeftmostGreedy(cell.value, q, Point(a, r.value))
    ensures cell.None? ==> r.None?
  {
    match cell
    case None => None
    case Some(s) =>
      match ExtractPoint(s)
      case None => None
      case Some(pt) => Some(pt.lat)
  }

  /** Both extractions use the same pattern: a cell gives both tokens or neither. */
  lemma LatPresentIffLong(cell: Option<string>)
    ensures LatOf(cell).Some? <==> LongOf(cell).Some?
    ensures LatOf(cell).Some? <==> cell.Some? && exists p: nat, a, b :: MatchesAt(cell.value, p, a, b)
  {
  }
}
