/**
 * The vertical clearance between two skyline lines, as SkylineLine::minDistance measures it
 * (skyline.cpp:229-264): both lines are laid out end to end from 0 by their widths, and every
 * pair of segments whose x-ranges overlap contributes the difference of their heights. The
 * clearance is the largest such difference, or MinimumY when no pair overlaps.
 */
module SkylineClearance {
  import opened SkylineGeometry
  import opened SkylineLaws

  /** Where segment i starts when the segments are laid end to end from 0. */
  function Offset(s: seq<Segment>, i: nat): real
    requires i <= |s|
  {
    if i == 0 then 0.0 else Offset(s, i - 1) + s[i - 1].w
  }

  /** Segment i of a and segment k of b share a stretch of positive length. */
  predicate Overlaps(a: seq<Segment>, i: nat, b: seq<Segment>, k: nat)
    requires i < |a| && k < |b|
  {
    Offset(a, i) + a[i].w > Offset(b, k) && Offset(a, i) < Offset(b, k) + b[k].w
  }

  /** d bounds the difference of a[i] and each of the first m segments of b that overlap it. */
  predicate RowBounded(a: seq<Segment>, i: nat, b: seq<Segment>, m: nat, d: real)
    requires i < |a| && m <= |b|
  {
    forall k :: 0 <= k < m && Overlaps(a, i, b, k) ==> a[i].y - b[k].y <= d
  }

  /** d is MinimumY or the difference of a[i] and one of the first m segments of b that overlaps it. */
  predicate RowWitnessed(a: seq<Segment>, i: nat, b: seq<Segment>, m: nat, d: real)
    requires i < |a| && m <= |b|
  {
    d == MinimumY || exists k :: 0 <= k < m && Overlaps(a, i, b, k) && d == a[i].y - b[k].y
  }

  /** d bounds the difference of every overlapping pair in the first n segments of a. */
  predicate Bounded(a: seq<Segment>, b: seq<Segment>, n: nat, d: real)
    requires n <= |a|
  {
    forall i, k :: 0 <= i < n && 0 <= k < |b| && Overlaps(a, i, b, k) ==> a[i].y - b[k].y <= d
  }

  /** d is MinimumY or the difference of some overlapping pair in the first n segments of a. */
  predicate Witnessed(a: seq<Segment>, b: seq<Segment>, n: nat, d: real)
    requires n <= |a|
  {
    d == MinimumY || exists i, k :: 0 <= i < n && 0 <= k < |b| && Overlaps(a, i, b, k) && d == a[i].y - b[k].y
  }

  /** The largest a[i].y - b[k].y over the segments k < m of b that overlap a[i], and MinimumY. */
  function RowClearance(a: seq<Segment>, i: nat, b: seq<Segment>, m: nat): (r: real)
    requires i < |a| && m <= |b|
    ensures r >= MinimumY && RowBounded(a, i, b, m, r) && RowWitnessed(a, i, b, m, r)
  {
    if m == 0 then MinimumY
    else
      var r := RowClearance(a, i, b, m - 1);
      if Overlaps(a, i, b, m - 1) then MaxR(r, a[i].y - b[m - 1].y) else r
  }

  /** The largest a[i].y - b[k].y over the overlapping pairs with i < n, and MinimumY. */
  function PrefixClearance(a: seq<Segment>, b: seq<Segment>, n: nat): (r: real)
    requires n <= |a|
    ensures r >= MinimumY && Bounded(a, b, n, r) && Witnessed(a, b, n, r)
  {
    if n == 0 then MinimumY
    else
      var p, q := PrefixClearance(a, b, n - 1), RowClearance(a, n - 1, b, |b|);
      PrefixStep(a, b, n, p, q);
      MaxR(p, q)
  }

  /** The maximum over n - 1 rows and the maximum of row n - 1 give the maximum over n rows. */
  lemma PrefixStep(a: seq<Segment>, b: seq<Segment>, n: nat, p: real, q: real)
    requires 0 < n <= |a|
    requires p >= MinimumY && Bounded(a, b, n - 1, p) && Witnessed(a, b, n - 1, p)
    requires q >= MinimumY && RowBounded(a, n - 1, b, |b|, q) && RowWitnessed(a, n - 1, b, |b|, q)
    ensures MaxR(p, q) >= MinimumY && Bounded(a, b, n, MaxR(p, q)) && Witnessed(a, b, n, MaxR(p, q))
  {
    forall i, k | 0 <= i < n && 0 <= k < |b| && Overlaps(a, i, b, k) ensures a[i].y - b[k].y <= MaxR(p, q) {
      if i < n - 1 {
        assert a[i].y - b[k].y <= p;
      } else {
        assert a[n - 1].y - b[k].y <= q;
      }
    }
    if MaxR(p, q) != MinimumY {
      if p >= q {
        var i, k :| 0 <= i < n - 1 && 0 <= k < |b| && Overlaps(a, i, b, k) && p == a[i].y - b[k].y;
        assert 0 <= i < n;
      } else {
        var k :| 0 <= k < |b| && Overlaps(a, n - 1, b, k) && q == a[n - 1].y - b[k].y;
      }
    }
  }

  /** How far a must be moved up to clear b: the largest height difference over overlapping segments. */
  function Clearance(a: seq<Segment>, b: seq<Segment>): real
  {
    PrefixClearance(a, b, |a|)
  }

  /** The clearance is the one value that bounds every overlapping difference and is MinimumY or one of them. */
  lemma ClearanceUnique(a: seq<Segment>, b: seq<Segment>, d: real)
    requires d >= MinimumY
    requires forall i, k :: 0 <= i < |a| && 0 <= k < |b| && Overlaps(a, i, b, k) ==> a[i].y - b[k].y <= d
    requires d == MinimumY || exists i, k :: 0 <= i < |a| && 0 <= k < |b| && Overlaps(a, i, b, k) && d == a[i].y - b[k].y
    ensures d == Clearance(a, b)
  {
  }

  //---------------------------------------------------------------------------
  //   Offsets
  //---------------------------------------------------------------------------

  /** Offsets never decrease along a line whose widths are non-negative. */
  lemma {:induction false} OffsetMonotone(s: seq<Segment>, i: nat, j: nat)
    requires NonNegWidths(s) && i <= j <= |s|
    ensures Offset(s, i) <= Offset(s, j)
    decreases j - i
  {
    if i < j {
      OffsetMonotone(s, i, j - 1);
    }
  }

  /** The offset of segment i is the width of the segments before it. */
  lemma {:induction false} OffsetWidth(s: seq<Segment>, i: nat)
    requires i <= |s|
    ensures Offset(s, i) == Width(s[..i])
  {
    if i > 0 {
      OffsetWidth(s, i - 1);
      assert s[..i] == s[..i - 1] + [s[i - 1]];
      WidthConcat(s[..i - 1], [s[i - 1]]);
      Singleton(s[i - 1]);
    } else {
      assert s[..0] == [];
    }
  }

  /** In a chain from 0, the offsets agree with the stored x fields, and the last offset is the width. */
  lemma ChainOffsets(s: seq<Segment>)
    requires Chain(s, 0.0)
    ensures forall i :: 0 <= i < |s| ==> Offset(s, i) == s[i].x
    ensures Offset(s, |s|) == Width(s)
  {
    forall i | 0 <= i < |s| ensures Offset(s, i) == s[i].x {
      OffsetWidth(s, i);
      ChainOffset(s, 0.0, i);
    }
    OffsetWidth(s, |s|);
    assert s[..|s|] == s;
  }

  /** A segment of b ending at or before a[i] starts does not overlap a[i]. */
  lemma BeforeIsClear(a: seq<Segment>, i: nat, b: seq<Segment>, k: nat)
    requires NonNegWidths(b) && i < |a| && k <= |b| && Offset(b, k) <= Offset(a, i)
    ensures forall k' :: 0 <= k' < k ==> !Overlaps(a, i, b, k')
  {
    forall k' | 0 <= k' < k ensures !Overlaps(a, i, b, k') {
      OffsetMonotone(b, k' + 1, k);
    }
  }

  /** The segments of b after one that reaches the end of a[i] do not overlap a[i]. */
  lemma BeyondIsClear(a: seq<Segment>, i: nat, b: seq<Segment>, k: nat)
    requires NonNegWidths(b) && i < |a| && k < |b| && Offset(b, k + 1) >= Offset(a, i) + a[i].w
    ensures forall k' :: k < k' < |b| ==> !Overlaps(a, i, b, k')
  {
    forall k' | k < k' < |b| ensures !Overlaps(a, i, b, k') {
      OffsetMonotone(b, k + 1, k');
    }
  }

  /** Once b ends at or before a[i] starts, no segment of a from i on overlaps b. */
  lemma RowsClear(a: seq<Segment>, i: nat, b: seq<Segment>)
    requires NonNegWidths(a) && NonNegWidths(b) && i <= |a| && Offset(b, |b|) <= Offset(a, i)
    ensures forall i', k' :: i <= i' < |a| && 0 <= k' < |b| ==> !Overlaps(a, i', b, k')
  {
    forall i', k' | i <= i' < |a| && 0 <= k' < |b| ensures !Overlaps(a, i', b, k') {
      OffsetMonotone(a, i, i');
      OffsetMonotone(b, k' + 1, |b|);
    }
  }

  //---------------------------------------------------------------------------
  //   The sweep of minDistance, one step at a time
  //---------------------------------------------------------------------------

  /** Visiting the pair (i, k): an overlapping pair raises the running maximum to its difference. */
  lemma SweepVisit(a: seq<Segment>, b: seq<Segment>, i: nat, k: nat, d: real, d2: real)
    requires i < |a| && k < |b| && d >= MinimumY && Witnessed(a, b, |a|, d)
    requires Overlaps(a, i, b, k) ==> d2 == MaxR(d, a[i].y - b[k].y)
    requires !Overlaps(a, i, b, k) ==> d2 == d
    ensures d2 >= MinimumY && Witnessed(a, b, |a|, d2)
    ensures Bounded(a, b, i, d) ==> Bounded(a, b, i, d2)
    ensures RowBounded(a, i, b, k, d) ==> RowBounded(a, i, b, k + 1, d2)
  {
  }

  /** The segments of b before one starting at or before a[i] need no visit. */
  lemma RowStart(a: seq<Segment>, i: nat, b: seq<Segment>, k: nat, d: real)
    requires NonNegWidths(b) && i < |a| && k <= |b| && Offset(b, k) <= Offset(a, i)
    ensures RowBounded(a, i, b, k, d)
  {
    BeforeIsClear(a, i, b, k);
  }

  /** A row visited up to a segment of b reaching past a[i]'s end is complete. */
  lemma RowDone(a: seq<Segment>, b: seq<Segment>, i: nat, k: nat, d: real)
    requires NonNegWidths(b) && i < |a| && k < |b| && Offset(b, k) + b[k].w >= Offset(a, i) + a[i].w
    requires Bounded(a, b, i, d) && RowBounded(a, i, b, k + 1, d)
    ensures Bounded(a, b, i + 1, d)
  {
    BeyondIsClear(a, i, b, k);
  }

  /** Once b ends at or before a[n] starts, the rows from n on need no visit. */
  lemma FinishFrom(a: seq<Segment>, b: seq<Segment>, n: nat, d: real)
    requires NonNegWidths(a) && NonNegWidths(b) && n <= |a| && Offset(b, |b|) <= Offset(a, n)
    requires Bounded(a, b, n, d)
    ensures Bounded(a, b, |a|, d)
  {
    RowsClear(a, n, b);
  }

  /** A row visited against every segment of b completes the rows up to it. */
  lemma RowComplete(a: seq<Segment>, b: seq<Segment>, i: nat, m: nat, d: real)
    requires i < |a| && m == |b| && Bounded(a, b, i, d) && RowBounded(a, i, b, m, d)
    ensures Bounded(a, b, i + 1, d)
  {
    forall i', k | 0 <= i' < i + 1 && 0 <= k < |b| && Overlaps(a, i', b, k) ensures a[i'].y - b[k].y <= d {
      if i' < i {
        assert a[i'].y - b[k].y <= d;
      }
    }
  }

  /** A row visited against all of b, whose last segment ends before a[i] does. */
  lemma FinishAfterRow(a: seq<Segment>, b: seq<Segment>, i: nat, k: nat, d: real)
    requires NonNegWidths(a) && NonNegWidths(b) && i < |a| && k + 1 == |b|
    requires Offset(b, k) + b[k].w < Offset(a, i) + a[i].w
    requires Bounded(a, b, i, d) && RowBounded(a, i, b, k + 1, d)
    ensures Bounded(a, b, |a|, d)
  {
    var n := i + 1;
    assert Offset(b, |b|) <= Offset(a, n) by {
      assert Offset(b, k + 1) == Offset(b, k) + b[k].w;
      assert Offset(a, i + 1) == Offset(a, i) + a[i].w;
    }
    assert Bounded(a, b, n, d) by {
      RowComplete(a, b, i, k + 1, d);
    }
    FinishFrom(a, b, n, d);
  }

  /** A running maximum that bounds every overlapping pair and is witnessed is the clearance. */
  lemma SweepResult(a: seq<Segment>, b: seq<Segment>, d: real)
    requires d >= MinimumY && Bounded(a, b, |a|, d) && Witnessed(a, b, |a|, d)
    ensures d == Clearance(a, b)
  {
    ClearanceUnique(a, b, d);
  }

  //---------------------------------------------------------------------------
  //   The clearance seen as heights
  //---------------------------------------------------------------------------

  /**
   * For two contiguous lines the clearance is the largest vertical gap HeightAt(a) - HeightAt(b)
   * over the x-range both lines cover, or MinimumY when one of them is empty.
   */
  lemma ClearancePointwise(na: bool, nb: bool, a: seq<Segment>, b: seq<Segment>)
    requires Chain(a, 0.0) && Chain(b, 0.0)
    ensures forall p :: 0.0 <= p < Width(a) && p < Width(b) ==> HeightAt(na, a, p) - HeightAt(nb, b, p) <= Clearance(a, b)
    ensures Clearance(a, b) == MinimumY ||
            exists p :: 0.0 <= p < Width(a) && p < Width(b) && HeightAt(na, a, p) - HeightAt(nb, b, p) == Clearance(a, b)
  {
    ChainOffsets(a);
    ChainOffsets(b);
    forall p | 0.0 <= p < Width(a) && p < Width(b)
      ensures HeightAt(na, a, p) - HeightAt(nb, b, p) <= Clearance(a, b)
    {
      var i := ChainLocate(a, 0.0, p);
      var k := ChainLocate(b, 0.0, p);
      HeightInside(na, a, 0.0, i, p);
      HeightInside(nb, b, 0.0, k, p);
      assert Overlaps(a, i, b, k);
    }
    var c := Clearance(a, b);
    if c != MinimumY {
      var i, k :| 0 <= i < |a| && 0 <= k < |b| && Overlaps(a, i, b, k) && c == a[i].y - b[k].y;
      var p := MaxR(a[i].x, b[k].x);
      ChainBounds(a, 0.0);
      ChainBounds(b, 0.0);
      HeightInside(na, a, 0.0, i, p);
      HeightInside(nb, b, 0.0, k, p);
      assert 0.0 <= p < Width(a) && p < Width(b) && HeightAt(na, a, p) - HeightAt(nb, b, p) == c;
    }
  }

  /**
   * Raising the upper line's heights (growing a) or lowering the lower line's heights (b), while
   * neither line gets shorter, never decreases the clearance.
   */
  lemma ClearanceMonotone(na: bool, nb: bool, a: seq<Segment>, b: seq<Segment>, a2: seq<Segment>, b2: seq<Segment>)
    requires Chain(a, 0.0) && Chain(b, 0.0) && Chain(a2, 0.0) && Chain(b2, 0.0)
    requires Width(a) <= Width(a2) && Width(b) <= Width(b2)
    requires forall p :: 0.0 <= p < Width(a) ==> HeightAt(na, a, p) <= HeightAt(na, a2, p)
    requires forall p :: 0.0 <= p < Width(b) ==> HeightAt(nb, b2, p) <= HeightAt(nb, b, p)
    ensures Clearance(a, b) <= Clearance(a2, b2)
  {
    ClearancePointwise(na, nb, a, b);
    ClearancePointwise(na, nb, a2, b2);
    if Clearance(a, b) != MinimumY {
      var p :| 0.0 <= p < Width(a) && p < Width(b) && HeightAt(na, a, p) - HeightAt(nb, b, p) == Clearance(a, b);
      assert HeightAt(na, a2, p) - HeightAt(nb, b2, p) <= Clearance(a2, b2);
    }
  }

  /** Adding a span to the south line of the upper skyline never brings the skylines closer. */
  lemma ClearanceAfterAddAbove(a: seq<Segment>, b: seq<Segment>, x: real, y: real, w: real)
    requires Chain(a, 0.0) && Chain(b, 0.0) && PositiveSpan(x, w) && InRange(false, y)
    ensures Clearance(a, b) <= Clearance(AddSpec(false, a, x, y, w), b)
  {
    var a2 := AddSpec(false, a, x, y, w);
    AddSpecChain(false, a, x, y, w);
    AddSpecExtremeLaw(false, a, x, y, w);
    ClearanceMonotone(false, true, a, b, a2, b);
  }

  /** Adding a span to the north line of the lower skyline never brings the skylines closer. */
  lemma ClearanceAfterAddBelow(a: seq<Segment>, b: seq<Segment>, x: real, y: real, w: real)
    requires Chain(a, 0.0) && Chain(b, 0.0) && PositiveSpan(x, w) && InRange(true, y)
    ensures Clearance(a, b) <= Clearance(a, AddSpec(true, b, x, y, w))
  {
    var b2 := AddSpec(true, b, x, y, w);
    AddSpecChain(true, b, x, y, w);
    AddSpecExtremeLaw(true, b, x, y, w);
    ClearanceMonotone(false, true, a, b, a, b2);
  }
}
