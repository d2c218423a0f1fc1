/*
 * What inserting a span does to a line, stated on the reference semantics AddSpec:
 * contiguity is kept, the new height is the pointwise extreme of the old one and the
 * span's height, a dominated span changes nothing (so adding twice is adding once),
 * integer coordinates never produce a remainder the tolerance would drop, and for a
 * whole shape the result depends only on the set of its rectangles.
 */
module SkylineLaws {
  import opened SkylineGeometry

  //---------------------------------------------------------------------------
  //   One old segment
  //---------------------------------------------------------------------------

  lemma PiecesChain(north: bool, g: Segment, x: real, y: real, w: real)
    requires g.w > 0.0 && w > 0.0
    ensures Chain(Pieces(north, g, x, y, w), g.x) && Width(Pieces(north, g, x, y, w)) == g.w
  {
    if !Untouched(north, g, x, y, w) {
      var e := g.x + g.w;
      var m := MaxR(g.x, x);
      var mEnd := MinR(e, x + w);
      var left := if g.x < x then [Segment(g.x, g.y, x - g.x)] else [];
      var mid := [Segment(m, y, mEnd - m)];
      var right := if x + w < e then [Segment(x + w, g.y, e - (x + w))] else [];
      assert Pieces(north, g, x, y, w) == left + mid + right;
      Singleton(Segment(g.x, g.y, x - g.x));
      Singleton(mid[0]);
      Singleton(Segment(x + w, g.y, e - (x + w)));
      assert Chain(left, g.x) && Width(left) == m - g.x;
      assert Chain(mid, m) && Width(mid) == mEnd - m;
      assert Chain(right, mEnd) && Width(right) == e - mEnd;
      ChainConcat(left, mid, g.x);
      WidthConcat(left, mid);
      ChainConcat(left + mid, right, g.x);
      WidthConcat(left + mid, right);
    }
  }

  lemma PiecesHeight(north: bool, g: Segment, x: real, y: real, w: real, p: real)
    requires g.w > 0.0 && w > 0.0
    requires g.x <= p < g.x + g.w
    ensures HeightAt(north, Pieces(north, g, x, y, w), p) == Target(north, g.y, x, y, w, p)
  {
    if !Untouched(north, g, x, y, w) {
      var e := g.x + g.w;
      var m := MaxR(g.x, x);
      var mEnd := MinR(e, x + w);
      var left := if g.x < x then [Segment(g.x, g.y, x - g.x)] else [];
      var mid := [Segment(m, y, mEnd - m)];
      var right := if x + w < e then [Segment(x + w, g.y, e - (x + w))] else [];
      assert Pieces(north, g, x, y, w) == (left + mid) + right;
      Singleton(Segment(g.x, g.y, x - g.x));
      Singleton(mid[0]);
      assert Chain(left, g.x) && Width(left) == m - g.x;
      assert Chain(mid, m) && Width(mid) == mEnd - m;
      ChainConcat(left, mid, g.x);
      WidthConcat(left, mid);
      HeightConcat(north, left + mid, right, g.x, p);
      HeightConcat(north, left, mid, g.x, p);
    }
  }

  /** After the insertion every piece is left alone by the same span, and no piece creates a new sliver. */
  lemma PiecesSettled(north: bool, g: Segment, x: real, y: real, w: real)
    requires w > 0.0 && SliverFree(g, x, w)
    ensures forall j :: 0 <= j < |Pieces(north, g, x, y, w)| ==>
              Untouched(north, Pieces(north, g, x, y, w)[j], x, y, w) && SliverFree(Pieces(north, g, x, y, w)[j], x, w)
  {
  }

  //---------------------------------------------------------------------------
  //   A whole list
  //---------------------------------------------------------------------------

  lemma {:induction false} MergeConcat(north: bool, a: seq<Segment>, b: seq<Segment>, x: real, y: real, w: real)
    ensures Merge(north, a + b, x, y, w) == Merge(north, a, x, y, w) + Merge(north, b, x, y, w)
  {
    if a == [] {
      assert a + b == b;
    } else {
      assert (a + b)[0] == a[0];
      assert (a + b)[1..] == a[1..] + b;
      MergeConcat(north, a[1..], b, x, y, w);
    }
  }

  lemma {:induction false} MergeUntouched(north: bool, s: seq<Segment>, x: real, y: real, w: real)
    requires forall i :: 0 <= i < |s| ==> Untouched(north, s[i], x, y, w)
    ensures Merge(north, s, x, y, w) == s
  {
    if s != [] {
      MergeUntouched(north, s[1..], x, y, w);
      assert [s[0]] + s[1..] == s;
    }
  }

  lemma {:induction false} MergeChain(north: bool, s: seq<Segment>, start: real, x: real, y: real, w: real)
    requires Chain(s, start) && w > 0.0
    ensures Chain(Merge(north, s, x, y, w), start) && Width(Merge(north, s, x, y, w)) == Width(s)
  {
    if s != [] {
      var P := Pieces(north, s[0], x, y, w);
      PiecesChain(north, s[0], x, y, w);
      MergeChain(north, s[1..], start + s[0].w, x, y, w);
      ChainConcat(P, Merge(north, s[1..], x, y, w), start);
      WidthConcat(P, Merge(north, s[1..], x, y, w));
    }
  }

  lemma {:induction false} MergeHeight(north: bool, s: seq<Segment>, start: real, x: real, y: real, w: real, p: real)
    requires Chain(s, start) && w > 0.0
    requires start <= p < start + Width(s)
    ensures HeightAt(north, Merge(north, s, x, y, w), p) == Target(north, HeightAt(north, s, p), x, y, w, p)
  {
    assert s != [];
    var P := Pieces(north, s[0], x, y, w);
    PiecesChain(north, s[0], x, y, w);
    HeightConcat(north, P, Merge(north, s[1..], x, y, w), start, p);
    if p < start + s[0].w {
      PiecesHeight(north, s[0], x, y, w, p);
    } else {
      MergeHeight(north, s[1..], start + s[0].w, x, y, w, p);
    }
  }

  lemma {:induction false} MergeSettled(north: bool, s: seq<Segment>, x: real, y: real, w: real)
    requires w > 0.0 && NoSliver(s, x, w)
    ensures forall i :: 0 <= i < |Merge(north, s, x, y, w)| ==>
              Untouched(north, Merge(north, s, x, y, w)[i], x, y, w) && SliverFree(Merge(north, s, x, y, w)[i], x, w)
  {
    if s != [] {
      assert SliverFree(s[0], x, w);
      PiecesSettled(north, s[0], x, y, w);
      MergeSettled(north, s[1..], x, y, w);
    }
  }

  lemma TailChain(north: bool, s: seq<Segment>, x: real, y: real, w: real)
    requires w > 0.0
    ensures Chain(Tail(north, s, x, y, w), Width(s))
    ensures Width(Tail(north, s, x, y, w)) == MaxR(Width(s), x + w) - Width(s)
  {
    var end := Width(s);
    Singleton(Segment(x, y, w));
    Singleton(Segment(end, y, x + w - end));
    if x > end {
      var t := [Segment(end, Sentinel(north), x - end)] + [Segment(x, y, w)];
      assert Tail(north, s, x, y, w) == t;
      assert t[1..] == [Segment(x, y, w)];
      Singleton(t[0]);
    }
  }

  lemma TailHeight(north: bool, s: seq<Segment>, x: real, y: real, w: real, p: real)
    requires w > 0.0 && Width(s) <= p
    ensures HeightAt(north, Tail(north, s, x, y, w), p) == if x <= p < x + w then y else Sentinel(north)
  {
    var end := Width(s);
    SingletonHeight(north, Segment(x, y, w), p);
    SingletonHeight(north, Segment(end, y, x + w - end), p);
    if x > end {
      var t := [Segment(end, Sentinel(north), x - end)] + [Segment(x, y, w)];
      assert Tail(north, s, x, y, w) == t;
      assert t[1..] == [Segment(x, y, w)];
    }
  }

  lemma TailSettled(north: bool, s: seq<Segment>, x: real, y: real, w: real)
    requires w > 0.0
    ensures forall i :: 0 <= i < |Tail(north, s, x, y, w)| ==>
              Untouched(north, Tail(north, s, x, y, w)[i], x, y, w) && SliverFree(Tail(north, s, x, y, w)[i], x, w)
  {
  }

  //---------------------------------------------------------------------------
  //   AddSpec
  //---------------------------------------------------------------------------

  /** Inserting a span keeps the line contiguous from 0 and extends it to the span's right edge if that lies further. */
  lemma AddSpecChain(north: bool, s: seq<Segment>, x: real, y: real, w: real)
    requires Chain(s, 0.0) && PositiveSpan(x, w)
    ensures Chain(AddSpec(north, s, x, y, w), 0.0)
    ensures Width(AddSpec(north, s, x, y, w)) == MaxR(Width(s), x + w)
  {
    ChainBounds(s, 0.0);
    if !ClippedAway(x, w) {
      var x', w' := ClipX(x), ClipW(x, w);
      MergeChain(north, s, 0.0, x', y, w');
      TailChain(north, s, x', y, w');
      ChainConcat(Merge(north, s, x', y, w'), Tail(north, s, x', y, w'), 0.0);
      WidthConcat(Merge(north, s, x', y, w'), Tail(north, s, x', y, w'));
    }
  }

  /**
   * The height after inserting the span: inside the clipped span it is the more extreme of
   * the old height and y where the line was already defined and y past its old end;
   * everywhere else it is the old height.
   */
  lemma AddSpecHeight(north: bool, s: seq<Segment>, x: real, y: real, w: real, p: real)
    requires Chain(s, 0.0) && PositiveSpan(x, w)
    ensures HeightAt(north, AddSpec(north, s, x, y, w), p)
            == if Covers(x, w, p) then (if p < Width(s) then Ext(north, HeightAt(north, s, p), y) else y)
               else HeightAt(north, s, p)
  {
    ChainBounds(s, 0.0);
    if !ClippedAway(x, w) {
      var x', w' := ClipX(x), ClipW(x, w);
      var M, T := Merge(north, s, x', y, w'), Tail(north, s, x', y, w');
      MergeChain(north, s, 0.0, x', y, w');
      TailChain(north, s, x', y, w');
      HeightConcat(north, M, T, 0.0, p);
      if 0.0 <= p < Width(s) {
        MergeHeight(north, s, 0.0, x', y, w', p);
      } else if p < 0.0 {
        HeightOutside(north, T, Width(s), p);
        HeightOutside(north, s, 0.0, p);
      } else {
        TailHeight(north, s, x', y, w', p);
        HeightOutside(north, s, 0.0, p);
      }
    }
  }

  /**
   * The pointwise-extreme law: with y no less extreme than the sentinel, the new height is
   * Ext(old height, y) on the clipped span and the old height everywhere else.
   */
  lemma AddSpecExtremeLaw(north: bool, s: seq<Segment>, x: real, y: real, w: real)
    requires Chain(s, 0.0) && PositiveSpan(x, w) && InRange(north, y)
    ensures forall p :: HeightAt(north, AddSpec(north, s, x, y, w), p)
                        == if Covers(x, w, p) then Ext(north, HeightAt(north, s, p), y) else HeightAt(north, s, p)
  {
    forall p
      ensures HeightAt(north, AddSpec(north, s, x, y, w), p)
              == if Covers(x, w, p) then Ext(north, HeightAt(north, s, p), y) else HeightAt(north, s, p)
    {
      AddSpecHeight(north, s, x, y, w, p);
      if Width(s) <= p {
        HeightOutside(north, s, 0.0, p);
      }
    }
  }

  /** A span every segment of which already dominates y, and which ends inside the line, changes nothing. */
  lemma AddSpecDominatedNoOp(north: bool, s: seq<Segment>, x: real, y: real, w: real)
    requires PositiveSpan(x, w) && x + w <= Width(s)
    requires forall i :: 0 <= i < |s| ==> Untouched(north, s[i], ClipX(x), y, ClipW(x, w))
    ensures AddSpec(north, s, x, y, w) == s
  {
    if !ClippedAway(x, w) {
      MergeUntouched(north, s, ClipX(x), y, ClipW(x, w));
      assert Tail(north, s, ClipX(x), y, ClipW(x, w)) == [];
      assert s + [] == s;
    }
  }

  /** Re-adding the same span and height changes nothing, and the second call is again exact. */
  lemma AddSpecIdempotent(north: bool, s: seq<Segment>, x: real, y: real, w: real)
    requires Exact(s, x, w)
    ensures AddSpec(north, AddSpec(north, s, x, y, w), x, y, w) == AddSpec(north, s, x, y, w)
    ensures Exact(AddSpec(north, s, x, y, w), x, w)
  {
    if !ClippedAway(x, w) {
      var x', w' := ClipX(x), ClipW(x, w);
      var M, T := Merge(north, s, x', y, w'), Tail(north, s, x', y, w');
      var t := AddSpec(north, s, x, y, w);
      assert t == M + T;
      AddSpecChain(north, s, x, y, w);
      MergeSettled(north, s, x', y, w');
      TailSettled(north, s, x', y, w');
      assert forall i :: 0 <= i < |t| ==> Untouched(north, t[i], x', y, w') && SliverFree(t[i], x', w') by {
        forall i | 0 <= i < |t| ensures Untouched(north, t[i], x', y, w') && SliverFree(t[i], x', w') {
          if i < |M| {
            assert t[i] == M[i];
          } else {
            assert t[i] == T[i - |M|];
          }
        }
      }
      AddSpecDominatedNoOp(north, t, x, y, w);
    }
  }

  //---------------------------------------------------------------------------
  //   Bookkeeping for the loop of add: old segments before, at and after the cursor
  //---------------------------------------------------------------------------

  /** A chain is sorted by its stored x fields. */
  lemma ChainSorted(s: seq<Segment>)
    requires Chain(s, 0.0)
    ensures XSorted(s)
  {
    ChainOrdered(s, 0.0);
    ChainBounds(s, 0.0);
  }

  /** The segments before the one find returns end at or before x, so the span leaves them alone. */
  lemma AddStart(north: bool, s: seq<Segment>, j: nat, x: real, y: real, w: real)
    requires Chain(s, 0.0) && j <= |s| && (j == 0 || (j < |s| && s[j].x <= x))
    ensures Merge(north, s[..j], x, y, w) == s[..j]
  {
    if j > 0 {
      ChainOffset(s, 0.0, j);
      assert s == s[..j] + s[j..];
      ChainConcat(s[..j], s[j..], 0.0);
      ChainBounds(s[..j], 0.0);
      MergeUntouched(north, s[..j], x, y, w);
    } else {
      assert s[..j] == [];
    }
  }

  /** Moving the cursor from old segment j to j + 1: where j starts and ends, and how the merged prefix grows. */
  lemma AddStep(north: bool, s: seq<Segment>, j: nat, x: real, y: real, w: real)
    requires Chain(s, 0.0) && j < |s|
    ensures s[j].x == Width(s[..j]) && s[j].w > 0.0
    ensures Width(s[..j + 1]) == Width(s[..j]) + s[j].w
    ensures Merge(north, s[..j + 1], x, y, w) == Merge(north, s[..j], x, y, w) + Pieces(north, s[j], x, y, w)
    ensures s[j..] == [s[j]] + s[j + 1..]
    ensures s[j + 1..] == [] || s[j + 1..][0].x == s[j].x + s[j].w
  {
    ChainOffset(s, 0.0, j);
    ChainBounds(s, 0.0);
    assert s[..j + 1] == s[..j] + [s[j]];
    WidthConcat(s[..j], [s[j]]);
    Singleton(s[j]);
    MergeConcat(north, s[..j], [s[j]], x, y, w);
    assert [s[j]][1..] == [];
    if j + 1 < |s| {
      ChainOffset(s, 0.0, j + 1);
      assert s[j + 1..][0] == s[j + 1];
    }
  }

  /** Once the span ends before old segment j starts, the rest of the line is left alone and nothing is appended. */
  lemma AddFinish(north: bool, s: seq<Segment>, j: nat, x: real, y: real, w: real)
    requires Chain(s, 0.0) && j <= |s| && w > 0.0 && x + w <= Width(s[..j])
    ensures Merge(north, s, x, y, w) == Merge(north, s[..j], x, y, w) + s[j..]
    ensures Tail(north, s, x, y, w) == []
  {
    assert s == s[..j] + s[j..];
    MergeConcat(north, s[..j], s[j..], x, y, w);
    ChainConcat(s[..j], s[j..], 0.0);
    ChainBounds(s[j..], Width(s[..j]));
    MergeUntouched(north, s[j..], x, y, w);
    WidthConcat(s[..j], s[j..]);
  }

  /** Where add's loop starts: at the segment find returns, with the segments before it left alone. */
  lemma AddBegin(north: bool, olds: seq<Segment>, j: nat, x: real, y: real, w: real)
    requires Chain(olds, 0.0) && (olds == [] ==> j == 0) && (olds != [] ==> j < |olds|)
    requires XSorted(olds) ==> 0 < j ==> olds[j].x <= x
    ensures olds == Merge(north, olds[..j], x, y, w) + olds[j..]
    ensures j == |Merge(north, olds[..j], x, y, w)|
    ensures (if olds == [] then 0.0 else olds[j].x) == Width(olds[..j])
  {
    ChainSorted(olds);
    AddStart(north, olds, j, x, y, w);
    if j < |olds| {
      ChainOffset(olds, 0.0, j);
    } else {
      assert olds[..j] == [];
    }
    assert olds == olds[..j] + olds[j..];
  }

  /**
   * One pass of add's loop seen from the old segments: if the line is the merged prefix of the
   * old segments before j followed by the old segments from j on, and the pass replaced the
   * segment at the cursor by its Pieces, then either add stops with AddSpec, or the same holds
   * for j + 1.
   */
  lemma AddAdvance(north: bool, olds: seq<Segment>, x0: real, y: real, w0: real, x: real, w: real,
                   j: nat, s: seq<Segment>, i: nat, cx: real, j2: nat, s2: seq<Segment>, i2: nat, cx2: real, stop: bool)
    requires Exact(olds, x0, w0) && !ClippedAway(x0, w0) && x == ClipX(x0) && w == ClipW(x0, w0)
    requires j <= |olds| && s == Merge(north, olds[..j], x, y, w) + olds[j..]
    requires i == |Merge(north, olds[..j], x, y, w)| && i < |s| && cx == Width(olds[..j])
    requires stop ==> x + w < cx + s[i].w || x + w <= cx
    requires j2 == j + 1
    requires AtCursor(s, i, cx) && w > 0.0 && SliverFree(s[i], x, w) ==>
               && s2 == s[..i] + Pieces(north, s[i], x, y, w) + s[i + 1..]
               && (!stop ==> i2 == i + |Pieces(north, s[i], x, y, w)| && cx2 == cx + s[i].w)
    ensures stop ==> s2 == AddSpec(north, olds, x0, y, w0)
    ensures !stop ==> && j2 <= |olds| && s2 == Merge(north, olds[..j2], x, y, w) + olds[j2..]
                      && i2 == |Merge(north, olds[..j2], x, y, w)| && cx2 == Width(olds[..j2])
  {
    AddHead(north, olds, j, x, y, w, s, i, cx);
    if stop {
      AddFinish(north, olds, j + 1, x, y, w);
    }
  }

  /** add leaves its loop having merged every old segment; appending the tail gives AddSpec. */
  lemma AddEndTail(north: bool, olds: seq<Segment>, x0: real, y: real, w0: real, x: real, w: real, j: nat, s: seq<Segment>)
    requires !ClippedAway(x0, w0) && x == ClipX(x0) && w == ClipW(x0, w0) && j <= |olds|
    requires s == Merge(north, olds[..j], x, y, w) + olds[j..]
    requires |s| <= |Merge(north, olds[..j], x, y, w)|
    ensures olds[..j] == olds
    ensures s + Tail(north, olds, x, y, w) == AddSpec(north, olds, x0, y, w0)
  {
    assert olds[..j] == olds;
  }

  /**
   * Segment i of s is where add's cursor stands in a contiguous line: it starts at the running
   * offset cx, has positive width, and the next segment, if any, starts where it ends.
   */
  predicate AtCursor(s: seq<Segment>, i: nat, cx: real)
    requires i < |s|
  {
    s[i].x == cx && s[i].w > 0.0 && (i + 1 == |s| || s[i + 1].x == cx + s[i].w)
  }

  /**
   * At the head of add's loop, while the line is the merged prefix of the old segments before j
   * followed by the old segments from j on, the cursor i stands at old segment j.
   */
  lemma AddHead(north: bool, olds: seq<Segment>, j: nat, x: real, y: real, w: real, s: seq<Segment>, i: nat, cx: real)
    requires Chain(olds, 0.0) && w > 0.0 && NoSliver(olds, x, w) && j <= |olds|
    requires s == Merge(north, olds[..j], x, y, w) + olds[j..]
    requires i == |Merge(north, olds[..j], x, y, w)| && i < |s| && cx == Width(olds[..j])
    ensures j < |olds| && s[i] == olds[j] && AtCursor(s, i, cx) && SliverFree(s[i], x, w)
    ensures s[..i] == Merge(north, olds[..j], x, y, w) && s[i + 1..] == olds[j + 1..]
    ensures Merge(north, olds[..j + 1], x, y, w) == Merge(north, olds[..j], x, y, w) + Pieces(north, olds[j], x, y, w)
    ensures Width(olds[..j + 1]) == cx + olds[j].w
  {
    var m, t := Merge(north, olds[..j], x, y, w), olds[j..];
    AddStep(north, olds, j, x, y, w);
    assert s[..i] == m && s[i..] == t;
    assert s[i] == t[0] == olds[j];
    assert s[i + 1..] == t[1..] == olds[j + 1..];
    if i + 1 < |s| {
      assert s[i + 1] == olds[j + 1];
    }
  }

  /**
   * Case E of add as the code performs it on segment g, slivers included: a left remainder of
   * at most Eps is not kept, and the span's height and width then go to g itself, which keeps
   * its own start; a right remainder of at most Eps is not kept either.
   */
  function InsideCut(g: Segment, x: real, y: real, w: real): seq<Segment>
  {
    (if x - g.x > Eps then [g.(w := x - g.x), Segment(x, y, w)] else [g.(w := w, y := y)])
    + (if g.w - ((x - g.x) + w) > Eps then [Segment(x + w, g.y, g.w - ((x - g.x) + w))] else [])
  }

  /** InsideCut in the terms add computes: w1 the left remainder and w3 the right one. */
  lemma InsideCutParts(g: Segment, x: real, y: real, w: real, w1: real, w3: real)
    requires w1 == x - g.x && w3 == g.w - (w1 + w)
    ensures InsideCut(g, x, y, w)
            == (if w1 > Eps then [g.(w := w1)] + [Segment(x, y, w)] else [g.(w := w, y := y)])
               + (if w3 > Eps then [Segment(x + w, g.y, w3)] else [])
  {
  }

  /** Case E of add: for a span without slivers, the cut is the reference Pieces of g. */
  lemma PiecesInside(north: bool, g: Segment, x: real, y: real, w: real)
    requires w > 0.0 && !Untouched(north, g, x, y, w) && g.x <= x && x + w < g.x + g.w && SliverFree(g, x, w)
    ensures g.w - ((x - g.x) + w) > Eps
    ensures Pieces(north, g, x, y, w) == InsideCut(g, x, y, w)
  {
  }

  /**
   * The slivers of case E: a left remainder in (0, Eps] puts the span's height at g's start
   * rather than at x, so the stored start and the covered range part; a right remainder in
   * (0, Eps] leaves the cut Eps-short of g's end. In both cases the cut is not Pieces.
   */
  lemma InsideCutSlivers(north: bool, g: Segment, x: real, y: real, w: real)
    requires w > 0.0 && !Untouched(north, g, x, y, w) && g.x <= x && x + w < g.x + g.w
    ensures 0.0 < x - g.x <= Eps ==> InsideCut(g, x, y, w)[0] == Segment(g.x, y, w) && g.x != x
    ensures 0.0 < g.w - ((x - g.x) + w) <= Eps ==> Width(InsideCut(g, x, y, w)) < g.w
    ensures !SliverFree(g, x, w) ==> InsideCut(g, x, y, w) != Pieces(north, g, x, y, w)
  {
    var c := InsideCut(g, x, y, w);
    var w3 := g.w - ((x - g.x) + w);
    if 0.0 < w3 <= Eps {
      assert c == (if x - g.x > Eps then [g.(w := x - g.x), Segment(x, y, w)] else [g.(w := w, y := y)]);
      if x - g.x > Eps {
        assert Width(c) == (x - g.x) + Width([Segment(x, y, w)]);
      }
    }
    if !SliverFree(g, x, w) {
      assert |c| < |Pieces(north, g, x, y, w)|;
    }
  }

  /** Case F of add: the span covers segment g. */
  lemma PiecesCovered(north: bool, g: Segment, x: real, y: real, w: real)
    requires !Untouched(north, g, x, y, w) && x <= g.x && g.x + g.w <= x + w
    ensures Pieces(north, g, x, y, w) == [g.(y := y)]
  {
  }

  /** Case C of add: the span starts before g and ends inside it. */
  lemma PiecesLeftPart(north: bool, g: Segment, x: real, y: real, w: real, w1: real)
    requires !Untouched(north, g, x, y, w) && x < g.x && x + w < g.x + g.w && w1 == x + w - g.x
    ensures Pieces(north, g, x, y, w) == [Segment(g.x, y, w1), g.(w := g.w - w1).(x := g.x + w1)]
  {
  }

  /**
   * Case D of add as the code performs it on segment g: unless the part from x to g's end is at
   * most Eps wide, g keeps its part left of x and the part from x on takes height y; otherwise
   * g stays as it is.
   */
  function RightCut(g: Segment, x: real, y: real): seq<Segment>
  {
    if g.w - (x - g.x) > Eps then [g.(w := x - g.x), Segment(x, y, g.w - (x - g.x))] else [g]
  }

  /** Case D of add: for a span without slivers, the cut is the reference Pieces of g. */
  lemma PiecesRightPart(north: bool, g: Segment, x: real, y: real, w: real)
    requires g.x < x && g.x + g.w <= x + w && x <= g.x + g.w && SliverFree(g, x, w)
    requires !Untouched(north, g, x, y, w) || x == g.x + g.w
    ensures Pieces(north, g, x, y, w) == RightCut(g, x, y)
  {
  }

  /**
   * The sliver of case D: an overlap in (0, Eps] that y is more extreme than keeps g's old
   * height there, so the cut is not Pieces and the new height misses that overlap.
   */
  lemma RightCutSliver(north: bool, g: Segment, x: real, y: real, w: real)
    requires g.x < x < g.x + g.w <= x + w && !Untouched(north, g, x, y, w)
    requires g.w - (x - g.x) <= Eps
    ensures RightCut(g, x, y) == [g]
    ensures RightCut(g, x, y) != Pieces(north, g, x, y, w)
  {
  }

  /** Replacing the segment at the cursor. */
  lemma EditAt(m: seq<Segment>, g: Segment, r: seq<Segment>, k: nat, g2: Segment)
    requires k == |m|
    ensures (m + [g] + r)[k := g2] == m + [g2] + r
  {
  }

  /** insert before a segment that starts at or after the new one's end leaves that segment alone. */
  lemma InsertAfter(m: seq<Segment>, L: seq<Segment>, r: seq<Segment>, k: nat, n: Segment, xr: real)
    requires k == |m| + |L| && (r == [] || xr <= r[0].x)
    ensures k == |m + L + r| || xr <= (m + L + r)[k].x
    ensures (m + L + r)[..k] + [n] + (m + L + r)[k..] == m + (L + [n]) + r
  {
    assert (m + L + r)[..k] == m + L && (m + L + r)[k..] == r;
  }

  /** Splicing a new segment n and the moved segment g in at position k, as the nudging insert does. */
  lemma InsertNudged(m: seq<Segment>, g: Segment, r: seq<Segment>, k: nat, n: Segment, xr: real)
    requires k == |m|
    ensures k < |m + [g] + r| && (m + [g] + r)[k] == g
    ensures (m + [g] + r)[..k] + [n, g.(x := xr)] + (m + [g] + r)[k + 1..] == m + [n, g.(x := xr)] + r
  {
    assert (m + [g] + r)[..k] == m && (m + [g] + r)[k + 1..] == r;
  }

  //---------------------------------------------------------------------------
  //   Integer coordinates never meet the tolerance
  //---------------------------------------------------------------------------

  /** r is a whole number. */
  predicate OnGrid(r: real)
  {
    r == r.Floor as real
  }

  predicate SegsOnGrid(s: seq<Segment>)
  {
    forall i :: 0 <= i < |s| ==> OnGrid(s[i].x) && OnGrid(s[i].w)
  }

  lemma GridInt(n: int)
    ensures OnGrid(n as real)
  {
  }

  lemma GridSum(a: real, b: real)
    requires OnGrid(a) && OnGrid(b)
    ensures OnGrid(a + b) && OnGrid(a - b)
  {
    var ia, ib := a.Floor, b.Floor;
    GridInt(ia + ib);
    GridInt(ia - ib);
  }

  /** A positive whole number is at least 1, so never in (0, Eps]. */
  lemma GridNotSliver(d: real)
    requires OnGrid(d) && d > 0.0
    ensures d > Eps
  {
    assert d.Floor >= 1;
  }

  lemma {:induction false} GridWidth(s: seq<Segment>)
    requires SegsOnGrid(s)
    ensures OnGrid(Width(s))
  {
    if s != [] {
      assert SegsOnGrid(s[1..]) by {
        forall i | 0 <= i < |s[1..]| ensures OnGrid(s[1..][i].x) && OnGrid(s[1..][i].w) {
          assert s[1..][i] == s[i + 1];
        }
      }
      GridWidth(s[1..]);
      GridSum(s[0].w, Width(s[1..]));
    }
  }

  lemma GridSliverFree(g: Segment, x: real, w: real)
    requires OnGrid(g.x) && OnGrid(g.w) && OnGrid(x) && OnGrid(w)
    ensures SliverFree(g, x, w)
  {
    GridSum(g.x, g.w);
    GridSum(x, w);
    GridSum(x, g.x);
    GridSum(g.x + g.w, x + w);
    GridSum(g.x + g.w, x);
    if x - g.x > 0.0 { GridNotSliver(x - g.x); }
    if g.x + g.w - (x + w) > 0.0 { GridNotSliver(g.x + g.w - (x + w)); }
    if g.x + g.w - x > 0.0 { GridNotSliver(g.x + g.w - x); }
  }

  lemma GridClip(x: real, w: real)
    requires OnGrid(x) && OnGrid(w)
    ensures OnGrid(ClipX(x)) && OnGrid(ClipW(x, w))
  {
    GridSum(w, x);
    assert OnGrid(0.0);
  }

  /** On a contiguous line with whole-number coordinates, every span with whole-number x and width is exact. */
  lemma GridExact(s: seq<Segment>, x: real, w: real)
    requires Chain(s, 0.0) && SegsOnGrid(s) && OnGrid(x) && OnGrid(w) && PositiveSpan(x, w)
    ensures Exact(s, x, w)
  {
    GridClip(x, w);
    forall i | 0 <= i < |s| ensures SliverFree(s[i], ClipX(x), ClipW(x, w)) {
      GridSliverFree(s[i], ClipX(x), ClipW(x, w));
    }
  }

  lemma PiecesOnGrid(north: bool, g: Segment, x: real, y: real, w: real)
    requires OnGrid(g.x) && OnGrid(g.w) && OnGrid(x) && OnGrid(w)
    ensures SegsOnGrid(Pieces(north, g, x, y, w))
  {
    GridSum(g.x, g.w);
    GridSum(x, w);
    GridSum(x, g.x);
    GridSum(g.x + g.w, x + w);
    GridSum(MinR(g.x + g.w, x + w), MaxR(g.x, x));
  }

  lemma {:induction false} MergeOnGrid(north: bool, s: seq<Segment>, x: real, y: real, w: real)
    requires SegsOnGrid(s) && OnGrid(x) && OnGrid(w)
    ensures SegsOnGrid(Merge(north, s, x, y, w))
  {
    if s != [] {
      assert SegsOnGrid(s[1..]) by {
        forall i | 0 <= i < |s[1..]| ensures OnGrid(s[1..][i].x) && OnGrid(s[1..][i].w) {
          assert s[1..][i] == s[i + 1];
        }
      }
      PiecesOnGrid(north, s[0], x, y, w);
      MergeOnGrid(north, s[1..], x, y, w);
    }
  }

  /** Whole-number coordinates stay whole-number coordinates. */
  lemma AddSpecOnGrid(north: bool, s: seq<Segment>, x: real, y: real, w: real)
    requires SegsOnGrid(s) && OnGrid(x) && OnGrid(w)
    ensures SegsOnGrid(AddSpec(north, s, x, y, w))
  {
    if !ClippedAway(x, w) {
      var x', w' := ClipX(x), ClipW(x, w);
      GridClip(x, w);
      MergeOnGrid(north, s, x', y, w');
      GridWidth(s);
      GridSum(x', Width(s));
      GridSum(x', w');
      GridSum(x' + w', Width(s));
      var M, T := Merge(north, s, x', y, w'), Tail(north, s, x', y, w');
      assert SegsOnGrid(T);
      assert AddSpec(north, s, x, y, w) == M + T;
    }
  }

  //---------------------------------------------------------------------------
  //   Shapes
  //---------------------------------------------------------------------------

  /** The most extreme of c and the heights of the rectangles of the shape whose clipped span covers p. */
  function ShapeExtreme(north: bool, c: real, shape: seq<Rect>, p: real): (r: real)
    ensures Dominates(north, r, c)
    ensures forall i :: 0 <= i < |shape| && Covers(shape[i].x, shape[i].width, p) ==>
              Dominates(north, r, RectHeight(north, shape[i]))
    ensures r == c || exists i :: 0 <= i < |shape| && Covers(shape[i].x, shape[i].width, p) && r == RectHeight(north, shape[i])
  {
    if shape == [] then c
    else
      var last := shape[|shape| - 1];
      var v := ShapeExtreme(north, c, shape[..|shape| - 1], p);
      if Covers(last.x, last.width, p) then Ext(north, v, RectHeight(north, last)) else v
  }

  /** Rectangles that add can take: each one is clipped away or keeps a positive width, and its height is within the sentinels. */
  predicate ShapeInRange(north: bool, shape: seq<Rect>)
  {
    forall i :: 0 <= i < |shape| ==> PositiveSpan(shape[i].x, shape[i].width) && InRange(north, RectHeight(north, shape[i]))
  }

  /**
   * The pointwise-extreme law for a whole shape: after adding its rectangles the line is still
   * contiguous, and its height at p is the extreme of the old height and of every rectangle covering p.
   */
  lemma {:induction false} AddShapeLaw(north: bool, s: seq<Segment>, shape: seq<Rect>)
    requires Chain(s, 0.0) && ShapeInRange(north, shape)
    ensures Chain(AddShapeSpec(north, s, shape), 0.0)
    ensures forall p :: HeightAt(north, AddShapeSpec(north, s, shape), p) == ShapeExtreme(north, HeightAt(north, s, p), shape, p)
  {
    if shape != [] {
      var init, last := shape[..|shape| - 1], shape[|shape| - 1];
      assert ShapeInRange(north, init) by {
        forall i | 0 <= i < |init|
          ensures PositiveSpan(init[i].x, init[i].width) && InRange(north, RectHeight(north, init[i]))
        {
          assert init[i] == shape[i];
        }
      }
      AddShapeLaw(north, s, init);
      AddSpecChain(north, AddShapeSpec(north, s, init), last.x, RectHeight(north, last), last.width);
      AddSpecExtremeLaw(north, AddShapeSpec(north, s, init), last.x, RectHeight(north, last), last.width);
    }
  }

  /** The extreme over a shape depends only on which rectangles it holds: not on their order, nor on repeats. */
  lemma ShapeExtremeOrderFree(north: bool, c: real, shape1: seq<Rect>, shape2: seq<Rect>, p: real)
    requires forall r :: r in shape1 <==> r in shape2
    ensures ShapeExtreme(north, c, shape1, p) == ShapeExtreme(north, c, shape2, p)
  {
    var r1, r2 := ShapeExtreme(north, c, shape1, p), ShapeExtreme(north, c, shape2, p);
    assert Dominates(north, r1, r2) by {
      if r2 != c {
        var i :| 0 <= i < |shape2| && Covers(shape2[i].x, shape2[i].width, p) && r2 == RectHeight(north, shape2[i]);
        assert shape2[i] in shape2;
      }
    }
    assert Dominates(north, r2, r1) by {
      if r1 != c {
        var i :| 0 <= i < |shape1| && Covers(shape1[i].x, shape1[i].width, p) && r1 == RectHeight(north, shape1[i]);
        assert shape1[i] in shape1;
      }
    }
  }

  /**
   * Two shapes with the same rectangles, in any order and with any repeats, leave the same
   * envelope: adding a rectangle twice is adding it once, and insertion order does not matter.
   */
  lemma AddShapeOrderFree(north: bool, s: seq<Segment>, shape1: seq<Rect>, shape2: seq<Rect>)
    requires Chain(s, 0.0) && ShapeInRange(north, shape1) && ShapeInRange(north, shape2)
    requires forall r :: r in shape1 <==> r in shape2
    ensures forall p :: HeightAt(north, AddShapeSpec(north, s, shape1), p) == HeightAt(north, AddShapeSpec(north, s, shape2), p)
  {
    AddShapeLaw(north, s, shape1);
    AddShapeLaw(north, s, shape2);
    forall p ensures HeightAt(north, AddShapeSpec(north, s, shape1), p) == HeightAt(north, AddShapeSpec(north, s, shape2), p) {
      ShapeExtremeOrderFree(north, HeightAt(north, s, p), shape1, shape2, p);
    }
  }

  //---------------------------------------------------------------------------
  //   The extreme height of a line
  //---------------------------------------------------------------------------

  /** The sentinel folded with every segment height by Ext: the topmost (north) or bottommost (south) y. */
  function Extreme(north: bool, s: seq<Segment>): (r: real)
    ensures Dominates(north, r, Sentinel(north))
    ensures forall i :: 0 <= i < |s| ==> Dominates(north, r, s[i].y)
    ensures r == Sentinel(north) || exists i :: 0 <= i < |s| && r == s[i].y
  {
    if s == [] then Sentinel(north) else Ext(north, Extreme(north, s[..|s| - 1]), s[|s| - 1].y)
  }

  /** A segment whose height is not the sentinel of its side, as SkylineLine::valid(segment) tests it. */
  function Valid(north: bool, g: Segment): (r: bool)
    ensures north ==> (r <==> g.y != MaximumY)
    ensures !north ==> (r <==> g.y != MinimumY)
  {
    g.y != Sentinel(north)
  }

  /** Every height lies on the near side of the sentinel. */
  predicate HeightsInRange(north: bool, s: seq<Segment>)
  {
    forall i :: 0 <= i < |s| ==> InRange(north, s[i].y)
  }

  /**
   * For a contiguous line with heights within the sentinels, the extreme is the extreme of the
   * height function: it dominates the height at every point and is the height at some point of a
   * non-empty line; and it differs from the sentinel exactly when some segment is valid.
   */
  lemma ExtremeOfHeights(north: bool, s: seq<Segment>)
    requires Chain(s, 0.0) && HeightsInRange(north, s)
    ensures forall p :: Dominates(north, Extreme(north, s), HeightAt(north, s, p))
    ensures s != [] ==> exists p :: 0.0 <= p < Width(s) && HeightAt(north, s, p) == Extreme(north, s)
    ensures Extreme(north, s) != Sentinel(north) <==> exists i :: 0 <= i < |s| && Valid(north, s[i])
  {
    var e := Extreme(north, s);
    ChainBounds(s, 0.0);
    forall p ensures Dominates(north, e, HeightAt(north, s, p)) {
      if 0.0 <= p < Width(s) {
        var i := ChainLocate(s, 0.0, p);
        HeightInside(north, s, 0.0, i, p);
      } else {
        HeightOutside(north, s, 0.0, p);
      }
    }
    if s != [] {
      var i: nat := 0;
      if e != Sentinel(north) {
        i :| i < |s| && e == s[i].y;
      } else {
        assert InRange(north, s[0].y);
      }
      HeightInside(north, s, 0.0, i, s[i].x);
      assert 0.0 <= s[i].x < Width(s) && HeightAt(north, s, s[i].x) == e;
    }
    if e == Sentinel(north) {
      forall i | 0 <= i < |s| ensures !Valid(north, s[i]) {
        assert InRange(north, s[i].y);
      }
    }
  }

  /** Rectangles with whole-number left edges and widths that add can take. */
  predicate ShapeOnGrid(shape: seq<Rect>)
  {
    forall i :: 0 <= i < |shape| ==> OnGrid(shape[i].x) && OnGrid(shape[i].width) && PositiveSpan(shape[i].x, shape[i].width)
  }

  /** One more rectangle of a whole-number shape: add is exact and the line stays on the grid. */
  lemma ShapeGridStep(north: bool, s: seq<Segment>, shape: seq<Rect>, k: nat)
    requires k < |shape| && ShapeOnGrid(shape)
    requires Chain(s, 0.0) && SegsOnGrid(s)
    ensures Exact(s, shape[k].x, shape[k].width)
    ensures Chain(AddSpec(north, s, shape[k].x, RectHeight(north, shape[k]), shape[k].width), 0.0)
    ensures SegsOnGrid(AddSpec(north, s, shape[k].x, RectHeight(north, shape[k]), shape[k].width))
  {
    var r := shape[k];
    GridExact(s, r.x, r.width);
    AddSpecChain(north, s, r.x, RectHeight(north, r), r.width);
    AddSpecOnGrid(north, s, r.x, RectHeight(north, r), r.width);
  }

  /** The shape fold after one more rectangle. */
  lemma AddShapeSpecStep(north: bool, s: seq<Segment>, shape: seq<Rect>, k: nat)
    requires k < |shape|
    ensures AddShapeSpec(north, s, shape[..k + 1])
            == AddSpec(north, AddShapeSpec(north, s, shape[..k]), shape[k].x, RectHeight(north, shape[k]), shape[k].width)
  {
    assert shape[..k + 1][..k] == shape[..k];
  }

  /** Every rectangle of the shape meets add's exactness condition on the line built from the ones before it. */
  predicate ShapeExact(north: bool, s: seq<Segment>, shape: seq<Rect>)
  {
    forall k :: 0 <= k < |shape| ==> Exact(AddShapeSpec(north, s, shape[..k]), shape[k].x, shape[k].width)
  }

  /** A whole-number line stays contiguous and on the grid under every prefix of a whole-number shape. */
  lemma {:induction false} ShapePrefixOnGrid(north: bool, s: seq<Segment>, shape: seq<Rect>, k: nat)
    requires k <= |shape| && ShapeOnGrid(shape) && Chain(s, 0.0) && SegsOnGrid(s)
    ensures Chain(AddShapeSpec(north, s, shape[..k]), 0.0) && SegsOnGrid(AddShapeSpec(north, s, shape[..k]))
  {
    if k == 0 {
      assert shape[..0] == [];
    } else {
      ShapePrefixOnGrid(north, s, shape, k - 1);
      ShapeGridStep(north, AddShapeSpec(north, s, shape[..k - 1]), shape, k - 1);
      AddShapeSpecStep(north, s, shape, k - 1);
    }
  }

  /** Shapes on the whole-number grid are always added exactly. */
  lemma ShapeGridExact(north: bool, s: seq<Segment>, shape: seq<Rect>)
    requires Chain(s, 0.0) && SegsOnGrid(s) && ShapeOnGrid(shape)
    ensures ShapeExact(north, s, shape)
  {
    forall k | 0 <= k < |shape| ensures Exact(AddShapeSpec(north, s, shape[..k]), shape[k].x, shape[k].width) {
      ShapePrefixOnGrid(north, s, shape, k);
      ShapeGridStep(north, AddShapeSpec(north, s, shape[..k]), shape, k);
    }
  }

  /** A span strictly inside a lower north segment splits it in three: old height, new height, old height. */
  lemma SplitExample()
    ensures Exact([Segment(0.0, 10.0, 10.0)], 3.0, 4.0)
    ensures AddSpec(true, [Segment(0.0, 10.0, 10.0)], 3.0, 5.0, 4.0)
            == [Segment(0.0, 10.0, 3.0), Segment(3.0, 5.0, 4.0), Segment(7.0, 10.0, 3.0)]
  {
    var s := [Segment(0.0, 10.0, 10.0)];
    assert s[..0] == [] && s[..1] == s;
    assert Merge(true, s, 3.0, 5.0, 4.0) == Merge(true, [], 3.0, 5.0, 4.0) + Pieces(true, s[0], 3.0, 5.0, 4.0);
  }

  /** A span beyond the end of a north line is preceded by a sentinel filler over the gap. */
  lemma FillerExample()
    ensures Exact([Segment(0.0, 5.0, 2.0)], 4.0, 1.0)
    ensures AddSpec(true, [Segment(0.0, 5.0, 2.0)], 4.0, 3.0, 1.0)
            == [Segment(0.0, 5.0, 2.0), Segment(2.0, MaximumY, 2.0), Segment(4.0, 3.0, 1.0)]
  {
    var s := [Segment(0.0, 5.0, 2.0)];
    assert s[..0] == [] && s[..1] == s;
    assert Merge(true, s, 4.0, 3.0, 1.0) == Merge(true, [], 4.0, 3.0, 1.0) + Pieces(true, s[0], 4.0, 3.0, 1.0);
  }
}
