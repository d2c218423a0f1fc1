/**
 * The skyline of a layout element (skyline.h, skyline.cpp): a north line tracing the top
 * edges and a south line tracing the bottom edges of everything added so far, each a list
 * of segments (x, y, w) kept in ascending x. Adding a rectangle raises the north line and
 * lowers the south line wherever the rectangle is more extreme; minDistance measures how far
 * one skyline must sit below another so that they do not collide.
 */
module Skylines {
  import opened SkylineGeometry
  import opened SkylineLaws
  import opened SkylineClearance

  /** One side of a skyline: a fixed direction and the segment list it owns (skyline.h:55-86). */
  class SkylineLine {
    const north: bool
    var seg: seq<Segment>

    constructor(n: bool)
      ensures north == n && seg == []
    {
      north := n;
      seg := [];
    }

    method Clear()
      modifies this
      ensures seg == []
    {
      seg := [];
    }

    /** isNorth(): the direction, which decides the sentinel height of an empty stretch. */
    function IsNorth(): (r: bool)
      ensures Sentinel(north) == (if r then MaximumY else MinimumY)
    {
      north
    }

    /** valid(): the line holds a segment (skyline.cpp:304-307); an empty line has no height anywhere. */
    function HasSegments(): (r: bool)
      reads this
      ensures !r ==> forall p :: HeightAt(north, seg, p) == Sentinel(north)
      ensures Chain(seg, 0.0) ==> (r <==> Width(seg) > 0.0)
    {
      if seg == [] then false
      else
        assert Chain(seg, 0.0) ==> Width(seg) > 0.0 by {
          if Chain(seg, 0.0) {
            ChainBounds(seg, 0.0);
          }
        }
        true
    }

    /**
     * find(x): the last segment whose stored x is at most x, or the first segment when there is
     * none, located by the binary search of std::upper_bound (skyline.cpp:83-90). The answer is
     * only meaningful for a list sorted by x, as upper_bound demands.
     */
    method Find(x: real) returns (r: nat)
      ensures seg == [] ==> r == 0
      ensures seg != [] ==> r < |seg|
      ensures XSorted(seg) ==> (0 < r ==> seg[r].x <= x) && (forall k :: r < k < |seg| ==> x < seg[k].x)
    {
      var lo, hi := 0, |seg|;
      while lo < hi
        invariant 0 <= lo <= hi <= |seg|
        invariant XSorted(seg) ==> forall k :: 0 <= k < lo ==> seg[k].x <= x
        invariant XSorted(seg) ==> forall k :: hi <= k < |seg| ==> x < seg[k].x
      {
        var mid := lo + (hi - lo) / 2;
        if x < seg[mid].x {
          hi := mid;
        } else {
          lo := mid + 1;
        }
      }
      r := if lo == 0 then 0 else lo - 1;
    }

    /**
     * insert(i, x, y, w): the segment (x, y, w) placed before position i; the segment that was at
     * i is moved right to start at x + w when it started earlier (skyline.cpp:59-68).
     */
    method Insert(i: nat, x: real, y: real, w: real) returns (r: nat)
      requires i <= |seg|
      modifies this
      ensures r == i
      ensures i == |old(seg)| || x + w <= old(seg)[i].x ==> seg == old(seg)[..i] + [Segment(x, y, w)] + old(seg)[i..]
      ensures i < |old(seg)| && x + w > old(seg)[i].x ==>
                seg == old(seg)[..i] + [Segment(x, y, w), old(seg)[i].(x := x + w)] + old(seg)[i + 1..]
    {
      var xr := x + w;
      if i < |seg| && xr > seg[i].x {
        seg := seg[i := seg[i].(x := xr)];
        assert seg[i..] == [seg[i]] + old(seg)[i + 1..];
      }
      seg := seg[..i] + [Segment(x, y, w)] + seg[i..];
      r := i;
    }

    /** append(x, y, w): the segment (x, y, w) added at the end (skyline.cpp:74-77). */
    method Append(x: real, y: real, w: real)
      modifies this
      ensures seg == old(seg) + [Segment(x, y, w)]
    {
      seg := seg + [Segment(x, y, w)];
    }

    /**
     * Case E of add (skyline.cpp:152-172): the span [x, x + w) lies inside segment i, which starts
     * at cx. The segment is cut into a left remainder (not kept when at most Eps wide, and then
     * the segment itself takes the span's height and width), the span at height y, and a right
     * remainder (not kept when at most Eps wide): InsideCut. Without slivers this is Pieces.
     */
    method SplitInside(i: nat, cx: real, x: real, y: real, w: real)
      requires i < |seg| && x >= cx && x + w < cx + seg[i].w
      modifies this
      ensures AtCursor(old(seg), i, cx) ==> seg == old(seg)[..i] + InsideCut(old(seg)[i], x, y, w) + old(seg)[i + 1..]
      ensures AtCursor(old(seg), i, cx) && w > 0.0 && !Untouched(north, old(seg)[i], x, y, w) && SliverFree(old(seg)[i], x, w) ==>
                seg == old(seg)[..i] + Pieces(north, old(seg)[i], x, y, w) + old(seg)[i + 1..]
    {
      ghost var at := AtCursor(seg, i, cx);
      ghost var exact := at && w > 0.0 && !Untouched(north, seg[i], x, y, w) && SliverFree(seg[i], x, w);
      ghost var m, r := seg[..i], seg[i + 1..];
      var g := seg[i];
      assert seg == m + [g] + r;
      var cy := g.y;
      var w1 := x - cx;
      var w2 := w;
      var w3 := g.w - (w1 + w2);
      var k := i;
      ghost var done: seq<Segment>;  // the pieces of g placed so far: seg is m + done + r
      if w1 > Eps {
        seg := seg[k := g.(w := w1)];
        EditAt(m, g, r, k, g.(w := w1));
        k := k + 1;
        if at {
          InsertAfter(m, [g.(w := w1)], r, k, Segment(x, y, w2), x + w2);
        }
        k := Insert(k, x, y, w2);
        done := [g.(w := w1)] + [Segment(x, y, w2)];
      } else {
        seg := seg[k := g.(w := w2, y := y)];
        EditAt(m, g, r, k, g.(w := w2, y := y));
        done := [g.(w := w2, y := y)];
      }
      assert at ==> seg == m + done + r;
      if w3 > Eps {
        k := k + 1;
        if at {
          InsertAfter(m, done, r, k, Segment(x + w2, cy, w3), x + w2 + w3);
        }
        k := Insert(k, x + w2, cy, w3);
        done := done + [Segment(x + w2, cy, w3)];
      }
      if at {
        assert seg == m + done + r;
        InsideCutParts(g, x, y, w, w1, w3);
        assert done == InsideCut(g, x, y, w);
      }
      if exact {
        PiecesInside(north, g, x, y, w);
      }
    }

    /**
     * Case C of add (skyline.cpp:176-181): the span starts before segment i, which starts at cx,
     * and ends inside it. The covered part becomes a segment at height y; insert moves the rest
     * of segment i to start where the span ends.
     */
    method SplitLeft(i: nat, cx: real, x: real, y: real, w: real)
      requires i < |seg| && x < cx && cx < x + w < cx + seg[i].w
      modifies this
      ensures AtCursor(old(seg), i, cx) && !Untouched(north, old(seg)[i], x, y, w) ==>
                seg == old(seg)[..i] + Pieces(north, old(seg)[i], x, y, w) + old(seg)[i + 1..]
    {
      ghost var exact := AtCursor(seg, i, cx) && !Untouched(north, seg[i], x, y, w);
      ghost var m, r := seg[..i], seg[i + 1..];
      var g := seg[i];
      assert seg == m + [g] + r;
      var w1 := x + w - cx;
      seg := seg[i := g.(w := g.w - w1)];
      EditAt(m, g, r, i, g.(w := g.w - w1));
      if exact {
        InsertNudged(m, g.(w := g.w - w1), r, i, Segment(cx, y, w1), cx + w1);
        PiecesLeftPart(north, g, x, y, w, w1);
      }
      var k := Insert(i, cx, y, w1);
    }

    /**
     * Case D of add (skyline.cpp:183-192): the span starts inside segment i, which starts at cx,
     * and reaches its end. Unless the part from x to the end is at most Eps wide, segment i is
     * cut at x and the part from x on gets height y: RightCut, which without slivers is Pieces.
     * Returns the cursor and offset of the last piece, which add then steps over.
     */
    method SplitRight(i: nat, cx: real, x: real, y: real, w: real) returns (k: nat, cx2: real)
      requires i < |seg| && cx < x <= cx + seg[i].w <= x + w
      modifies this
      ensures k < |seg| && |seg| - k == old(|seg|) - i
      ensures AtCursor(old(seg), i, cx) ==>
                && seg == old(seg)[..i] + RightCut(old(seg)[i], x, y) + old(seg)[i + 1..]
                && k + 1 == i + |RightCut(old(seg)[i], x, y)|
                && cx2 + seg[k].w == cx + old(seg)[i].w
      ensures AtCursor(old(seg), i, cx) && w > 0.0 && SliverFree(old(seg)[i], x, w) && (!Untouched(north, old(seg)[i], x, y, w) || x == cx + old(seg)[i].w) ==>
                && seg == old(seg)[..i] + Pieces(north, old(seg)[i], x, y, w) + old(seg)[i + 1..]
                && k + 1 == i + |Pieces(north, old(seg)[i], x, y, w)|
                && cx2 + seg[k].w == cx + old(seg)[i].w
    {
      ghost var at := AtCursor(seg, i, cx);
      ghost var exact := at && w > 0.0 && SliverFree(seg[i], x, w) && (!Untouched(north, seg[i], x, y, w) || x == cx + seg[i].w);
      ghost var m, r := seg[..i], seg[i + 1..];
      var g := seg[i];
      assert seg == m + [g] + r;
      k, cx2 := i, cx;
      var w1 := x - cx2;
      var w2 := g.w - w1;
      if exact {
        PiecesRightPart(north, g, x, y, w);
      }
      if w2 > Eps {
        seg := seg[k := g.(w := w1)];
        EditAt(m, g, r, k, g.(w := w1));
        cx2 := cx2 + w1;
        k := k + 1;
        if at {
          InsertAfter(m, [g.(w := w1)], r, k, Segment(cx2, y, w2), cx2 + w2);
        }
        k := Insert(k, cx2, y, w2);
      }
    }

    /**
     * One pass of add's loop over segment i, which starts at cx (skyline.cpp:142-193): the
     * segment is left alone when the span ends before it (A, which stops), starts after it (B)
     * or is less extreme there; otherwise it is cut by case E or C (which stop), raised whole
     * (F) or cut at x (D). Returns the next cursor and its offset. At a cursor of a contiguous
     * line, the segment is replaced by its Pieces, and a pass that stops leaves nothing beyond
     * the segment for the span to reach.
     */
    method AddAt(i: nat, cx: real, x: real, y: real, w: real) returns (next: nat, ncx: real, stop: bool)
      requires i < |seg|
      modifies this
      ensures !stop ==> |seg| - next == old(|seg|) - i - 1
      ensures stop ==> x + w < cx + old(seg)[i].w || x + w <= cx
      ensures AtCursor(old(seg), i, cx) && w > 0.0 && SliverFree(old(seg)[i], x, w) ==>
                && seg == old(seg)[..i] + Pieces(north, old(seg)[i], x, y, w) + old(seg)[i + 1..]
                && (!stop ==> next == i + |Pieces(north, old(seg)[i], x, y, w)| && ncx == cx + old(seg)[i].w)
    {
      ghost var exact := AtCursor(seg, i, cx) && w > 0.0 && SliverFree(seg[i], x, w);
      var g := seg[i];
      var cy := g.y;
      next, ncx, stop := i, cx, false;
      if x + w <= cx {                                                    // A
        stop := true;
        if exact {
          assert seg == seg[..i] + [g] + seg[i + 1..];
        }
        return;
      }
      if x > cx + g.w || (north && cy <= y) || (!north && cy >= y) {      // B, or not more extreme
        next, ncx := i + 1, cx + g.w;
        if exact {
          assert seg == seg[..i] + [g] + seg[i + 1..];
        }
        return;
      }
      if x >= cx && x + w < cx + g.w {                                    // E
        SplitInside(i, cx, x, y, w);
        stop := true;
      } else if x <= cx && x + w >= cx + g.w {                            // F
        ghost var m, r := seg[..i], seg[i + 1..];
        seg := seg[i := g.(y := y)];
        if exact {
          assert seg == m + Pieces(north, g, x, y, w) + r by {
            assert old(seg) == m + [g] + r;
            EditAt(m, g, r, i, g.(y := y));
            PiecesCovered(north, g, x, y, w);
          }
        }
        next, ncx := i + 1, cx + g.w;
      } else if x < cx {                                                  // C
        SplitLeft(i, cx, x, y, w);
        stop := true;
      } else {                                                            // D
        var k, cx2 := SplitRight(i, cx, x, y, w);
        next, ncx := k + 1, cx2 + seg[k].w;
      }
    }

    /**
     * The part of add after the loop (skyline.cpp:195-205): cx is where the line ends. A span
     * starting beyond it is preceded by a filler segment at the sentinel height; a span reaching
     * beyond it gets the overhanging part appended.
     */
    method AddTail(ghost s: seq<Segment>, cx: real, x: real, y: real, w: real)
      modifies this
      ensures Width(s) == cx ==> seg == old(seg) + Tail(north, s, x, y, w)
    {
      if x >= cx {
        if x > cx {
          var cy := if north then MaximumY else MinimumY;
          Append(cx, cy, x - cx);
        }
        Append(x, y, w);
      } else if x + w > cx {
        Append(cx, y, x + w - cx);
      }
    }

    /**
     * add(x, y, w) (skyline.cpp:124-206). The span is clipped at 0, and a span clipped away
     * leaves the line as it is. For a line contiguous
     * from 0 and a span whose remainders are not slivers of at most Eps, the result is exactly
     * the reference AddSpec: each old segment split where the span is more extreme, and the
     * part of the span beyond the old end appended.
     */
    method Add(x0: real, y: real, w0: real)
      modifies this
      ensures ClippedAway(x0, w0) ==> seg == old(seg)
      ensures Exact(old(seg), x0, w0) ==> seg == AddSpec(north, old(seg), x0, y, w0)
    {
      ghost var olds := seg;
      ghost var exact := Exact(seg, x0, w0);
      var x, w := x0, w0;
      if x < 0.0 {
        w := w - -x;
        x := 0.0;
        if w <= 0.0 {
          return;
        }
      }
      assert x == ClipX(x0) && w == ClipW(x0, w0) && !ClippedAway(x0, w0);

      var i: nat := Find(x);
      var cx := if seg == [] then 0.0 else seg[i].x;
      ghost var j: nat := i;
      if exact {
        AddBegin(north, olds, j, x, y, w);
      }
      while i < |seg|
        invariant i <= |seg|
        invariant exact ==> j <= |olds| && seg == Merge(north, olds[..j], x, y, w) + olds[j..]
        invariant exact ==> i == |Merge(north, olds[..j], x, y, w)| && cx == Width(olds[..j])
        decreases |seg| - i
      {
        ghost var s, i0, cx0, j0 := seg, i, cx, j;
        var stop;
        i, cx, stop := AddAt(i, cx, x, y, w);
        j := j + 1;
        if exact {
          AddAdvance(north, olds, x0, y, w0, x, w, j0, s, i0, cx0, j, seg, i, cx, stop);
        }
        if stop {
          return;
        }
      }
      if exact {
        AddEndTail(north, olds, x0, y, w0, x, w, j, seg);
        assert cx == Width(olds);
      }
      AddTail(olds, cx, x, y, w);
    }

    /** add(RectF): the rectangle's span at its top edge on the north line, its bottom edge on the south line (skyline.cpp:108-115). */
    method AddRect(r: Rect)
      modifies this
      ensures ClippedAway(r.x, r.width) ==> seg == old(seg)
      ensures Exact(old(seg), r.x, r.width) ==> seg == AddSpec(north, old(seg), r.x, RectHeight(north, r), r.width)
    {
      if north {
        Add(r.x, r.top, r.width);
      } else {
        Add(r.x, r.bottom, r.width);
      }
    }

    /**
     * add(Shape): every rectangle of the shape added in turn (skyline.cpp:101-106). When each
     * rectangle is added exactly, the line is the envelope of the old line and the shape: its
     * height at every point is the most extreme of the old height and the rectangles covering it.
     */
    method AddShape(shape: seq<Rect>)
      modifies this
      ensures Chain(old(seg), 0.0) && ShapeExact(north, old(seg), shape) ==> seg == AddShapeSpec(north, old(seg), shape)
      ensures Chain(old(seg), 0.0) && ShapeExact(north, old(seg), shape) && ShapeInRange(north, shape) ==>
                forall p :: HeightAt(north, seg, p) == ShapeExtreme(north, HeightAt(north, old(seg), p), shape, p)
    {
      ghost var olds := seg;
      ghost var exact := Chain(seg, 0.0) && ShapeExact(north, seg, shape);
      var k := 0;
      while k < |shape|
        invariant k <= |shape|
        invariant exact ==> seg == AddShapeSpec(north, olds, shape[..k])
      {
        if exact {
          AddShapeSpecStep(north, olds, shape, k);
        }
        AddRect(shape[k]);
        k := k + 1;
      }
      if exact {
        assert shape[..k] == shape;
        if ShapeInRange(north, shape) {
          AddShapeLaw(north, olds, shape);
        }
      }
    }

    /**
     * max(): the topmost height of the north line or the bottommost of the south line, starting
     * from the sentinel of the side (skyline.cpp:341-356).
     */
    method Max() returns (val: real)
      ensures val == Extreme(north, seg)
    {
      if north {
        val := MaximumY;
        for i := 0 to |seg|
          invariant val == Extreme(north, seg[..i])
        {
          assert seg[..i + 1][..i] == seg[..i];
          val := MinR(val, seg[i].y);
        }
      } else {
        val := MinimumY;
        for i := 0 to |seg|
          invariant val == Extreme(north, seg[..i])
        {
          assert seg[..i + 1][..i] == seg[..i];
          val := MaxR(val, seg[i].y);
        }
      }
      assert seg[..|seg|] == seg;
    }

    /**
     * minDistance(sl) (skyline.cpp:229-264): both lines are walked together from offset 0, and
     * every pair of segments whose ranges overlap contributes this line's height minus the other
     * line's height. For lines without negative widths the result is the clearance: the largest
     * such difference, or MinimumY when no pair overlaps.
     */
    method MinDistance(sl: SkylineLine) returns (dist: real)
      ensures dist >= MinimumY
      ensures seg == [] || sl.seg == [] ==> dist == MinimumY
      ensures NonNegWidths(seg) && NonNegWidths(sl.seg) ==> dist == Clearance(seg, sl.seg)
    {
      var a, b := seg, sl.seg;
      ghost var nn := NonNegWidths(a) && NonNegWidths(b);
      dist := MinimumY;
      var x1, x2 := 0.0, 0.0;
      var k := 0;
      var i := 0;
      while i < |a|
        invariant i <= |a| && k <= |b|
        invariant x1 == Offset(a, i) && x2 == Offset(b, k)
        invariant dist >= MinimumY && Witnessed(a, b, |a|, dist)
        invariant nn ==> x2 <= x1 && Bounded(a, b, i, dist)
      {
        while k < |b| && x2 + b[k].w < x1
          invariant k <= |b| && x2 == Offset(b, k)
          invariant nn ==> x2 <= x1
        {
          x2 := x2 + b[k].w;
          k := k + 1;
        }
        if k == |b| {
          if nn {
            FinishFrom(a, b, i, dist);
          }
          break;
        }
        if nn {
          RowStart(a, i, b, k, dist);
        }
        k, x2, dist := SweepRow(a, b, i, k, x1, x2, dist, nn);
        if k == |b| {
          break;
        }
        assert Offset(a, i + 1) == x1 + a[i].w;
        x1 := x1 + a[i].w;
        i := i + 1;
      }
      if nn {
        SweepResult(a, b, dist);
      }
    }
  }

  /**
   * The inner loop of minDistance (skyline.cpp:244-257): segment i of a, starting at x1, is
   * compared with the segments of b from k on, starting at x2, until one reaches past its end
   * or b runs out. Every overlapping pair raises dist to its height difference; when b runs
   * out no later segment of a overlaps anything, otherwise row i is complete.
   */
  method SweepRow(a: seq<Segment>, b: seq<Segment>, i: nat, k0: nat, x1: real, x20: real, dist0: real, ghost nn: bool)
    returns (k: nat, x2: real, dist: real)
    requires i < |a| && k0 < |b| && x1 == Offset(a, i) && x20 == Offset(b, k0)
    requires dist0 >= MinimumY && Witnessed(a, b, |a|, dist0)
    requires nn ==> NonNegWidths(a) && NonNegWidths(b)
    requires nn ==> x20 <= x1 + a[i].w && Bounded(a, b, i, dist0) && RowBounded(a, i, b, k0, dist0)
    ensures k0 <= k <= |b| && x2 == Offset(b, k)
    ensures dist >= MinimumY && Witnessed(a, b, |a|, dist)
    ensures nn && k == |b| ==> Bounded(a, b, |a|, dist)
    ensures nn && k < |b| ==> x2 <= x1 + a[i].w && Bounded(a, b, i + 1, dist)
  {
    k, x2, dist := k0, x20, dist0;
    while true
      invariant k0 <= k < |b| && x2 == Offset(b, k)
      invariant dist >= MinimumY && Witnessed(a, b, |a|, dist)
      invariant nn ==> x2 <= x1 + a[i].w && Bounded(a, b, i, dist) && RowBounded(a, i, b, k, dist)
      decreases |b| - k
    {
      ghost var d := dist;
      if x1 + a[i].w > x2 && x1 < x2 + b[k].w {
        dist := MaxR(dist, a[i].y - b[k].y);
      }
      SweepVisit(a, b, i, k, d, dist);
      if x2 + b[k].w < x1 + a[i].w {
        if nn && k + 1 == |b| {
          FinishAfterRow(a, b, i, k, dist);
        }
        x2 := x2 + b[k].w;
        k := k + 1;
        if k == |b| {
          return;
        }
      } else {
        if nn {
          RowDone(a, b, i, k, dist);
        }
        return;
      }
    }
  }

  /** A layout element's skyline: its north and south lines (skyline.h:92-114). */
  class Skyline {
    const north: SkylineLine
    const south: SkylineLine

    /** The two lines are distinct objects facing north and south. */
    predicate Sides()
    {
      north != south && north.north && !south.north
    }

    /** Skyline(): an empty north line and an empty south line (skyline.h:98-99). */
    constructor()
      ensures Sides() && fresh(north) && fresh(south)
      ensures north.seg == [] && south.seg == []
    {
      north := new SkylineLine(true);
      south := new SkylineLine(false);
    }

    /** add(RectF): the top edge goes to the north line, the bottom edge to the south line (skyline.cpp:49-53). */
    method Add(r: Rect)
      requires Sides()
      modifies north, south
      ensures Exact(old(north.seg), r.x, r.width) ==> north.seg == AddSpec(true, old(north.seg), r.x, r.top, r.width)
      ensures Exact(old(south.seg), r.x, r.width) ==> south.seg == AddSpec(false, old(south.seg), r.x, r.bottom, r.width)
      ensures ClippedAway(r.x, r.width) ==> north.seg == old(north.seg) && south.seg == old(south.seg)
    {
      north.Add(r.x, r.top, r.width);
      south.Add(r.x, r.bottom, r.width);
    }

    /** add(Shape): every rectangle of the shape added to both lines (skyline.cpp:117-122). */
    method AddShape(shape: seq<Rect>)
      requires Sides()
      modifies north, south
      ensures Chain(old(north.seg), 0.0) && ShapeExact(true, old(north.seg), shape) ==>
                north.seg == AddShapeSpec(true, old(north.seg), shape)
      ensures Chain(old(south.seg), 0.0) && ShapeExact(false, old(south.seg), shape) ==>
                south.seg == AddShapeSpec(false, old(south.seg), shape)
    {
      ghost var oldn, olds := north.seg, south.seg;
      ghost var exactn := Chain(oldn, 0.0) && ShapeExact(true, oldn, shape);
      ghost var exacts := Chain(olds, 0.0) && ShapeExact(false, olds, shape);
      var k := 0;
      while k < |shape|
        invariant k <= |shape|
        invariant exactn ==> north.seg == AddShapeSpec(true, oldn, shape[..k])
        invariant exacts ==> south.seg == AddShapeSpec(false, olds, shape[..k])
      {
        AddShapeSpecStep(true, oldn, shape, k);
        AddShapeSpecStep(false, olds, shape, k);
        Add(shape[k]);
        k := k + 1;
      }
      assert shape[..k] == shape;
    }

    /** clear(): both lines emptied (skyline.cpp:212-216). */
    method Clear()
      requires Sides()
      modifies north, south
      ensures north.seg == [] && south.seg == []
    {
      north.Clear();
      south.Clear();
    }

    /**
     * minDistance(s) (skyline.cpp:224-227): how far s must sit below this skyline, measured
     * between this skyline's south line and the north line of s.
     */
    method MinDistance(s: Skyline) returns (d: real)
      ensures d >= MinimumY
      ensures south.seg == [] || s.north.seg == [] ==> d == MinimumY
      ensures NonNegWidths(south.seg) && NonNegWidths(s.north.seg) ==> d == Clearance(south.seg, s.north.seg)
    {
      d := south.MinDistance(s.north);
    }
  }
}
