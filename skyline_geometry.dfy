/*
 * Geometry of one skyline line: the segment record, the sentinel heights, the
 * height function a segment list denotes, and a reference definition of what
 * inserting one span does to a segment list (one old segment at a time).
 * The imperative SkylineLine.Add in skyline.dfy is proved against AddSpec.
 */
module SkylineGeometry {

  /** Height of the uncovered north line (skyline.cpp:34). */
  const MaximumY: real := 1000000.0
  /** Height of the uncovered south line (skyline.cpp:35). */
  const MinimumY: real := -1000000.0
  /** Split remainders at most this wide are dropped by add (skyline.cpp:157, 167, 185). */
  const Eps: real := 0.0000001

  /** SkylineSegment: a run starting at x, of width w, at height y (skyline.h:42-49). */
  datatype Segment = Segment(x: real, y: real, w: real)

  function MinR(a: real, b: real): real { if a <= b then a else b }
  function MaxR(a: real, b: real): real { if a >= b then a else b }

  /** The height a line reports where nothing has been inserted. */
  function Sentinel(north: bool): real
  {
    if north then MaximumY else MinimumY
  }

  /** a is at least as extreme as b: not below it on the north line, not above it on the south line. */
  predicate Dominates(north: bool, a: real, b: real)
  {
    if north then a <= b else a >= b
  }

  /** The more extreme of two heights: the minimum for north, the maximum for south. */
  function Ext(north: bool, a: real, b: real): (r: real)
    ensures Dominates(north, r, a) && Dominates(north, r, b)
    ensures r == a || r == b
  {
    if Dominates(north, a, b) then a else b
  }

  /** A height that an insertion can never beat with the sentinel of its own side. */
  predicate InRange(north: bool, y: real)
  {
    Dominates(north, y, Sentinel(north))
  }

  //---------------------------------------------------------------------------
  //   Segment lists
  //---------------------------------------------------------------------------

  /** Sum of the widths: the cumulative end of the list when it starts at 0. */
  function Width(s: seq<Segment>): real
  {
    if s == [] then 0.0 else s[0].w + Width(s[1..])
  }

  /** s tiles [start, start + Width(s)): positive widths, each segment starting where the previous one ends. */
  predicate Chain(s: seq<Segment>, start: real)
  {
    s == [] || (s[0].x == start && s[0].w > 0.0 && Chain(s[1..], start + s[0].w))
  }

  /** The line's height at p, read through the stored x fields: the first segment containing p, else the sentinel. */
  function HeightAt(north: bool, s: seq<Segment>, p: real): real
  {
    if s == [] then Sentinel(north)
    else if s[0].x <= p < s[0].x + s[0].w then s[0].y
    else HeightAt(north, s[1..], p)
  }

  lemma {:induction false} WidthConcat(a: seq<Segment>, b: seq<Segment>)
    ensures Width(a + b) == Width(a) + Width(b)
  {
    if a == [] {
      assert a + b == b;
    } else {
      assert (a + b)[1..] == a[1..] + b;
      WidthConcat(a[1..], b);
    }
  }

  lemma {:induction false} ChainConcat(a: seq<Segment>, b: seq<Segment>, start: real)
    ensures Chain(a + b, start) <==> Chain(a, start) && Chain(b, start + Width(a))
  {
    if a == [] {
      assert a + b == b;
    } else {
      assert (a + b)[1..] == a[1..] + b;
      ChainConcat(a[1..], b, start + a[0].w);
    }
  }

  /** Every segment of a chain lies inside [start, start + Width(s)), and the width is positive unless the list is empty. */
  lemma {:induction false} ChainBounds(s: seq<Segment>, start: real)
    requires Chain(s, start)
    ensures Width(s) >= 0.0 && (s != [] ==> Width(s) > 0.0)
    ensures forall i :: 0 <= i < |s| ==> start <= s[i].x && s[i].w > 0.0 && s[i].x + s[i].w <= start + Width(s)
  {
    if s != [] {
      ChainBounds(s[1..], start + s[0].w);
      forall i | 1 <= i < |s|
        ensures start <= s[i].x && s[i].w > 0.0 && s[i].x + s[i].w <= start + Width(s)
      {
        assert s[i] == s[1..][i - 1];
      }
    }
  }

  lemma Singleton(g: Segment)
    ensures Width([g]) == g.w
    ensures Chain([g], g.x) <==> g.w > 0.0
  {
    assert [g][1..] == [];
  }

  lemma SingletonHeight(north: bool, g: Segment, p: real)
    ensures HeightAt(north, [g], p) == if g.x <= p < g.x + g.w then g.y else Sentinel(north)
  {
    assert [g][1..] == [];
  }

  /** In a chain, the stored x of segment i is the cumulative width before it. */
  lemma {:induction false} ChainOffset(s: seq<Segment>, start: real, i: nat)
    requires Chain(s, start) && i < |s|
    ensures s[i].x == start + Width(s[..i])
  {
    if i > 0 {
      ChainOffset(s[1..], start + s[0].w, i - 1);
      assert s[..i] == [s[0]] + s[1..][..i - 1];
      WidthConcat([s[0]], s[1..][..i - 1]);
      assert Width([s[0]]) == s[0].w + Width([s[0]][1..]);
    } else {
      assert s[..0] == [];
    }
  }

  /** Stored x fields of a chain increase strictly: every later segment starts after an earlier one ends. */
  lemma {:induction false} ChainOrdered(s: seq<Segment>, start: real)
    requires Chain(s, start)
    ensures forall i, j :: 0 <= i < j < |s| ==> s[i].x + s[i].w <= s[j].x
  {
    if s != [] {
      ChainOrdered(s[1..], start + s[0].w);
      ChainBounds(s[1..], start + s[0].w);
      forall i, j | 0 <= i < j < |s| ensures s[i].x + s[i].w <= s[j].x {
        if i == 0 {
          assert s[j] == s[1..][j - 1];
        } else {
          assert s[i] == s[1..][i - 1] && s[j] == s[1..][j - 1];
        }
      }
    }
  }

  /** Outside the tiled range a chain reports the sentinel. */
  lemma {:induction false} HeightOutside(north: bool, s: seq<Segment>, start: real, p: real)
    requires Chain(s, start)
    requires p < start || start + Width(s) <= p
    ensures HeightAt(north, s, p) == Sentinel(north)
  {
    if s != [] {
      ChainBounds(s[1..], start + s[0].w);
      HeightOutside(north, s[1..], start + s[0].w, p);
    }
  }

  /** Reading a concatenation: the first part answers inside its own range, the second part elsewhere. */
  lemma {:induction false} HeightConcat(north: bool, a: seq<Segment>, b: seq<Segment>, start: real, p: real)
    requires Chain(a, start)
    ensures HeightAt(north, a + b, p)
            == if start <= p < start + Width(a) then HeightAt(north, a, p) else HeightAt(north, b, p)
  {
    if a == [] {
      assert a + b == b;
    } else {
      assert (a + b)[0] == a[0];
      assert (a + b)[1..] == a[1..] + b;
      ChainBounds(a[1..], start + a[0].w);
      HeightConcat(north, a[1..], b, start + a[0].w, p);
    }
  }

  /** Inside segment i of a chain, the height is that segment's y. */
  lemma {:induction false} HeightInside(north: bool, s: seq<Segment>, start: real, i: nat, p: real)
    requires Chain(s, start) && i < |s|
    requires s[i].x <= p < s[i].x + s[i].w
    ensures HeightAt(north, s, p) == s[i].y
  {
    if i > 0 {
      ChainBounds(s[1..], start + s[0].w);
      assert s[i] == s[1..][i - 1];
      HeightInside(north, s[1..], start + s[0].w, i - 1, p);
    }
  }

  /** Every point of the tiled range lies in one segment of a chain. */
  lemma {:induction false} ChainLocate(s: seq<Segment>, start: real, p: real) returns (i: nat)
    requires Chain(s, start) && start <= p < start + Width(s)
    ensures i < |s| && s[i].x <= p < s[i].x + s[i].w
  {
    if p < start + s[0].w {
      i := 0;
    } else {
      var j := ChainLocate(s[1..], start + s[0].w, p);
      i := j + 1;
      assert s[i] == s[1..][j];
    }
  }

  //---------------------------------------------------------------------------
  //   Reference semantics of inserting the span [x, x + w) at height y
  //---------------------------------------------------------------------------

  /** The new height at p: the more extreme of the old height c and y inside the span, c outside. */
  function Target(north: bool, c: real, x: real, y: real, w: real, p: real): real
  {
    if x <= p < x + w then Ext(north, c, y) else c
  }

  /** An old segment the span leaves as it is: no overlap, or its height already dominates y. */
  predicate Untouched(north: bool, g: Segment, x: real, y: real, w: real)
  {
    g.x + g.w <= x || x + w <= g.x || Dominates(north, g.y, y)
  }

  /** What becomes of one old segment: itself, or its left remainder, the overlap at height y and its right remainder. */
  function Pieces(north: bool, g: Segment, x: real, y: real, w: real): seq<Segment>
  {
    if Untouched(north, g, x, y, w) then [g]
    else
      (if g.x < x then [Segment(g.x, g.y, x - g.x)] else [])
      + [Segment(MaxR(g.x, x), y, MinR(g.x + g.w, x + w) - MaxR(g.x, x))]
      + (if x + w < g.x + g.w then [Segment(x + w, g.y, g.x + g.w - (x + w))] else [])
  }

  /** Every old segment replaced by its pieces, in order. */
  function Merge(north: bool, s: seq<Segment>, x: real, y: real, w: real): seq<Segment>
  {
    if s == [] then [] else Pieces(north, s[0], x, y, w) + Merge(north, s[1..], x, y, w)
  }

  /** What is appended past the old end: a sentinel filler up to x and the span, or the overhang of the span. */
  function Tail(north: bool, s: seq<Segment>, x: real, y: real, w: real): seq<Segment>
  {
    var end := Width(s);
    if x >= end then
      (if x > end then [Segment(end, Sentinel(north), x - end)] else []) + [Segment(x, y, w)]
    else if x + w > end then [Segment(end, y, x + w - end)]
    else []
  }

  /** add clips the span at 0 by moving x to 0 and shortening w by the part cut off (skyline.cpp:127-133). */
  function ClipX(x: real): real { if x < 0.0 then 0.0 else x }
  function ClipW(x: real, w: real): real { if x < 0.0 then w + x else w }

  /** A span that clipping leaves without positive width; add returns at once. */
  predicate ClippedAway(x: real, w: real)
  {
    x < 0.0 && x + w <= 0.0
  }

  /** The segment list that SkylineLine::add(x, y, w) is meant to produce from s. */
  function AddSpec(north: bool, s: seq<Segment>, x: real, y: real, w: real): seq<Segment>
  {
    if ClippedAway(x, w) then s
    else Merge(north, s, ClipX(x), y, ClipW(x, w)) + Tail(north, s, ClipX(x), y, ClipW(x, w))
  }

  /** The span [x, x + w) after clipping at 0 contains p. */
  predicate Covers(x: real, w: real, p: real)
  {
    0.0 <= p && x <= p < x + w
  }

  /**
   * The remainders that add compares against Eps: in case E the left part x - cx and the
   * right part cx + w_i - (x + w), in case D the right part cx + w_i - x. A segment is
   * sliver-free for the span when none of them lies in (0, Eps].
   */
  predicate SliverFree(g: Segment, x: real, w: real)
  {
    && (g.x <= x && x + w < g.x + g.w ==> (x == g.x || x - g.x > Eps) && g.x + g.w - (x + w) > Eps)
    && (g.x < x < g.x + g.w <= x + w ==> g.x + g.w - x > Eps)
  }

  predicate NoSliver(s: seq<Segment>, x: real, w: real)
  {
    forall i :: 0 <= i < |s| ==> SliverFree(s[i], x, w)
  }

  /**
   * The conditions under which add produces exactly AddSpec: the line is contiguous from 0
   * with positive widths, and the span is either clipped away or has positive width and
   * leaves no remainder in (0, Eps].
   */
  predicate Exact(s: seq<Segment>, x: real, w: real)
  {
    Chain(s, 0.0) && PositiveSpan(x, w) && (ClippedAway(x, w) || NoSliver(s, ClipX(x), ClipW(x, w)))
  }

  /** The span is either discarded by clipping or keeps a positive width: only x >= 0 with w <= 0 is excluded. */
  predicate PositiveSpan(x: real, w: real)
  {
    ClippedAway(x, w) || ClipW(x, w) > 0.0
  }

  /** All widths non-negative: what the two-cursor sweep of minDistance relies on. */
  predicate NonNegWidths(s: seq<Segment>)
  {
    forall i :: 0 <= i < |s| ==> s[i].w >= 0.0
  }

  /** The stored x fields never decrease: what the binary search of find relies on. */
  predicate XSorted(s: seq<Segment>)
  {
    forall i, j :: 0 <= i < j < |s| ==> s[i].x <= s[j].x
  }

  /** The line after adding every rectangle of a shape, in the shape's iteration order (skyline.cpp:101-106). */
  function AddShapeSpec(north: bool, s: seq<Segment>, shape: seq<Rect>): seq<Segment>
  {
    if shape == [] then s
    else
      var r := shape[|shape| - 1];
      AddSpec(north, AddShapeSpec(north, s, shape[..|shape| - 1]), r.x, RectHeight(north, r), r.width)
  }

  /** A rectangle as the skyline reads it: left edge, top, bottom and width (RectF is not part of this model). */
  datatype Rect = Rect(x: real, top: real, bottom: real, width: real)

  /** SkylineLine::add(RectF) takes the top edge on the north line and the bottom edge on the south line (skyline.cpp:108-115). */
  function RectHeight(north: bool, r: Rect): real
  {
    if north then r.top else r.bottom
  }
}
