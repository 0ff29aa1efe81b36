/**
 * pdftolatex/segment_pdf.py after the image-library calls: the
 * filter/re-baseline/sort tail of `segment`, the post-processing
 * `process_bboxes` (duplicate removal, containment merge, in-place overlap
 * fix) and `find_content_blocks`.
 *
 * The contour extraction itself is OpenCV; here its output, the list of
 * bounding rectangles, is an input.
 */
module Segmentation {
  import opened Sequences
  import opened Geometry
  import opened BBoxFilters

  /** `MIN_TEXT_SIZE`: bands lower than this many pixels are discarded. */
  const MinTextSize := 10

  // ---------------------------------------------------------------------
  // segment: filter, re-baseline, sort

  /** The two filters of the contour loop: tall enough, and not entirely white. */
  predicate KeepRect(img: Image, r: Rect) {
    !(r.h < MinTextSize) && BelowOne(PctWhite(Crop(img, r)))
  }

  /** A surviving rectangle widened to the whole page: `BBox(0, by, img_width, bh)`. */
  function Rebaseline(r: Rect, width: int): BBox {
    NewBBox(0, r.y, width, r.h)
  }

  /** The list the contour loop appends to, before sorting. */
  function SegmentKept(img: Image, rects: seq<Rect>): seq<BBox> {
    if |rects| == 0 then []
    else
      var r := rects[|rects| - 1];
      SegmentKept(img, rects[..|rects| - 1]) + (if KeepRect(img, r) then [Rebaseline(r, Width(img))] else [])
  }

  /** The box a rectangle contributes, when it contributes one. */
  predicate ContributedBy(img: Image, rects: seq<Rect>, b: BBox) {
    exists i :: 0 <= i < |rects| && KeepRect(img, rects[i]) && b == Rebaseline(rects[i], Width(img))
  }

  lemma {:induction false} SegmentKeptOnlyContributed(img: Image, rects: seq<Rect>, b: BBox)
    requires b in SegmentKept(img, rects)
    ensures ContributedBy(img, rects, b)
  {
    var n := |rects| - 1;
    var prefix := rects[..n];
    if b in SegmentKept(img, prefix) {
      SegmentKeptOnlyContributed(img, prefix, b);
      var i :| 0 <= i < n && KeepRect(img, prefix[i]) && b == Rebaseline(prefix[i], Width(img));
      assert prefix[i] == rects[i];
    }
  }

  lemma {:induction false} SegmentKeptAllContributed(img: Image, rects: seq<Rect>, i: nat)
    requires i < |rects| && KeepRect(img, rects[i])
    ensures Rebaseline(rects[i], Width(img)) in SegmentKept(img, rects)
  {
    var n := |rects| - 1;
    if i < n {
      var prefix := rects[..n];
      assert prefix[i] == rects[i];
      SegmentKeptAllContributed(img, prefix, i);
    }
  }

  /**
   * A box is appended exactly for a rectangle that is at least
   * `MinTextSize` high and not entirely white; it spans the whole page
   * width and takes its `y` and height from the rectangle.
   */
  lemma SegmentKeptMembers(img: Image, rects: seq<Rect>)
    ensures forall b :: b in SegmentKept(img, rects) <==>
      exists i :: 0 <= i < |rects| && KeepRect(img, rects[i]) && b == Rebaseline(rects[i], Width(img))
  {
    forall b ensures b in SegmentKept(img, rects) <==> ContributedBy(img, rects, b) {
      if b in SegmentKept(img, rects) {
        SegmentKeptOnlyContributed(img, rects, b);
      }
      if ContributedBy(img, rects, b) {
        var i :| 0 <= i < |rects| && KeepRect(img, rects[i]) && b == Rebaseline(rects[i], Width(img));
        SegmentKeptAllContributed(img, rects, i);
      }
    }
  }

  /** Every kept box is page-wide, at least `MinTextSize` high and consistent. */
  lemma SegmentKeptShape(img: Image, rects: seq<Rect>)
    ensures forall b :: b in SegmentKept(img, rects) ==>
      b.x == 0 && b.width == Width(img) && b.height >= MinTextSize && Consistent(b)
  {
    SegmentKeptMembers(img, rects);
  }

  /** A rectangle whose region is entirely white yields no box. */
  lemma WhiteRegionDropped(img: Image, rects: seq<Rect>, i: nat)
    requires i < |rects|
    requires forall p, q :: 0 <= p < |Crop(img, rects[i])| && 0 <= q < |Crop(img, rects[i])[p]| ==>
      IsWhite(Crop(img, rects[i])[p][q])
    ensures !KeepRect(img, rects[i])
  {
    PctWhiteBounds(Crop(img, rects[i]));
  }

  /** `sorted(..., key=lambda x: x.y)`: step of a stable insertion sort. */
  function InsertByY(t: seq<BBox>, b: BBox): seq<BBox> {
    if t == [] then [b]
    else if t[|t| - 1].y <= b.y then t + [b]
    else InsertByY(t[..|t| - 1], b) + [t[|t| - 1]]
  }

  /** `sorted(s, key=lambda x: x.y)`, stable. */
  function SortByY(s: seq<BBox>): seq<BBox> {
    if s == [] then [] else InsertByY(SortByY(s[..|s| - 1]), s[|s| - 1])
  }

  lemma {:induction false} InsertByYMultiset(t: seq<BBox>, b: BBox)
    ensures multiset(InsertByY(t, b)) == multiset(t) + multiset{b}
  {
    if t != [] && t[|t| - 1].y > b.y {
      var n := |t| - 1;
      SnocLast(t);
      InsertByYMultiset(t[..n], b);
    }
  }

  lemma SortedSnoc(u: seq<BBox>, last: BBox)
    requires SortedByY(u)
    requires forall k :: 0 <= k < |u| ==> u[k].y <= last.y
    ensures SortedByY(u + [last])
  {
    var r := u + [last];
    forall i, j | 0 <= i < j < |r| ensures r[i].y <= r[j].y {
      assert r[i] == u[i];
      if j < |u| {
        assert r[j] == u[j];
      }
    }
  }

  lemma {:induction false} InsertByYSorted(t: seq<BBox>, b: BBox)
    requires SortedByY(t)
    ensures SortedByY(InsertByY(t, b))
  {
    if t == [] {
    } else if t[|t| - 1].y <= b.y {
      SortedSnoc(t, b);
    } else {
      var n := |t| - 1;
      var last := t[n];
      SnocLast(t);
      assert SortedByY(t[..n]);
      InsertByYSorted(t[..n], b);
      InsertByYMultiset(t[..n], b);
      var u := InsertByY(t[..n], b);
      forall k | 0 <= k < |u| ensures u[k].y <= last.y {
        assert u[k] in multiset(u);
        if u[k] != b {
          assert u[k] in multiset(t[..n]);
          var j :| 0 <= j < n && t[..n][j] == u[k];
          assert t[j] == u[k];
        }
      }
      SortedSnoc(u, last);
    }
  }

  /** The sort yields a y-sorted permutation of its input. */
  lemma {:induction false} SortByYCorrect(s: seq<BBox>)
    ensures SortedByY(SortByY(s))
    ensures multiset(SortByY(s)) == multiset(s)
  {
    if s != [] {
      var n := |s| - 1;
      SortByYCorrect(s[..n]);
      InsertByYSorted(SortByY(s[..n]), s[n]);
      InsertByYMultiset(SortByY(s[..n]), s[n]);
      SnocLast(s);
    }
  }

  /** The tail of `segment(img)` over the bounding rectangles the image library found. */
  method Segment(img: Image, rects: seq<Rect>) returns (boxes: seq<BBox>)
    ensures boxes == SortByY(SegmentKept(img, rects))
    ensures SortedByY(boxes)
    ensures multiset(boxes) == multiset(SegmentKept(img, rects))
    ensures forall b :: b in boxes ==>
      b.x == 0 && b.width == Width(img) && b.height >= MinTextSize && Consistent(b)
  {
    var imgWidth := Width(img);
    var bboxes: seq<BBox> := [];
    for i := 0 to |rects|
      invariant bboxes == SegmentKept(img, rects[..i])
    {
      assert rects[..i + 1][..i] == rects[..i];
      var r := rects[i];
      if r.h < MinTextSize {
        continue;
      }
      if !BelowOne(PctWhite(Crop(img, r))) {
        continue;
      }
      bboxes := bboxes + [NewBBox(0, r.y, imgWidth, r.h)];
    }
    assert rects[..|rects|] == rects;
    boxes := SortByY(bboxes);
    SortByYCorrect(bboxes);
    SegmentKeptShape(img, rects);
    forall b | b in boxes
      ensures b.x == 0 && b.width == Width(img) && b.height >= MinTextSize && Consistent(b)
    {
      assert b in multiset(boxes);
    }
  }

  // ---------------------------------------------------------------------
  // process_bboxes: the overlap fix

  /** `int((a + b) / 2)`: Python's true division, then truncation toward zero. */
  function Mid(a: int, b: int): int {
    var s := a + b;
    if s >= 0 then s / 2 else -((-s) / 2)
  }

  /** The midpoint of an overlap lies in `[b, a]`, and in `[b, a)` when the sum is not negative. */
  lemma MidBounds(a: int, b: int)
    requires a > b
    ensures b <= Mid(a, b) <= a
    ensures a + b >= 0 ==> Mid(a, b) < a
  {
  }

  lemma MidMonotone(a: int, b: int, a': int, b': int)
    requires a <= a' && b <= b'
    ensures Mid(a, b) <= Mid(a', b')
  {
  }

  /** The top edge of box `k` after the pass: moved when the box before it overlaps it. */
  function FixedY(s: seq<BBox>, k: nat): int
    requires k < |s|
  {
    if k > 0 && s[k - 1].yBottom > s[k].y then Mid(s[k - 1].yBottom, s[k].y) else s[k].y
  }

  /** The bottom edge of box `k` after the pass: moved when it overlaps the box after it. */
  function FixedBottom(s: seq<BBox>, k: nat): int
    requires k < |s|
  {
    if k + 1 < |s| && s[k].yBottom > s[k + 1].y then Mid(s[k].yBottom, s[k + 1].y) else s[k].yBottom
  }

  /**
   * The list after the single forward pass over adjacent pairs.  Each
   * pair is compared on values no earlier step has touched: step `i` only
   * writes `yBottom` of box `i` and `y` of box `i + 1`.
   */
  function FixedOverlaps(s: seq<BBox>): (r: seq<BBox>)
    ensures |r| == |s|
  {
    seq(|s|, k requires 0 <= k < |s| => s[k].(y := FixedY(s, k), yBottom := FixedBottom(s, k)))
  }

  /** The pass only moves `y` and `yBottom`; `x`, `width` and `height` stay. */
  lemma FixedOverlapsFields(s: seq<BBox>)
    ensures forall k :: 0 <= k < |s| ==>
      FixedOverlaps(s)[k].x == s[k].x && FixedOverlaps(s)[k].width == s[k].width &&
      FixedOverlaps(s)[k].height == s[k].height
  {
  }

  /** After the pass no box reaches below the top of the next one. */
  lemma FixedOverlapsSeparated(s: seq<BBox>)
    ensures forall i :: 0 <= i < |s| - 1 ==> FixedOverlaps(s)[i].yBottom <= FixedOverlaps(s)[i + 1].y
  {
  }

  /** An overlapping pair meets at the truncated midpoint, which lies in `[next.y, curr.yBottom)`. */
  lemma FixedOverlapsMidpoint(s: seq<BBox>, i: nat)
    requires i + 1 < |s| && s[i].yBottom > s[i + 1].y && s[i + 1].y >= 0
    ensures FixedOverlaps(s)[i].yBottom == FixedOverlaps(s)[i + 1].y == Mid(s[i].yBottom, s[i + 1].y)
    ensures s[i + 1].y <= FixedOverlaps(s)[i].yBottom < s[i].yBottom
  {
    MidBounds(s[i].yBottom, s[i + 1].y);
  }

  /** Strictly increasing top edges. */
  predicate StrictlySortedByY(s: seq<BBox>) {
    forall i, j :: 0 <= i < j < |s| ==> s[i].y < s[j].y
  }

  lemma {:induction false} AdjacentSorted(s: seq<BBox>)
    requires forall i :: 0 <= i < |s| - 1 ==> s[i].y <= s[i + 1].y
    ensures SortedByY(s)
  {
    if |s| > 1 {
      var n := |s| - 1;
      AdjacentSorted(s[..n]);
      forall i | 0 <= i < n ensures s[i].y <= s[n].y {
        assert s[..n][i] == s[i];
        if i < n - 1 {
          assert s[..n][n - 1] == s[n - 1];
        }
      }
    }
  }

  /**
   * On boxes with strictly increasing tops of which none is nested in an
   * earlier one, the pass keeps the tops in non-decreasing order.
   */
  lemma FixedOverlapsSorted(s: seq<BBox>)
    requires StrictlySortedByY(s)
    requires forall i, j :: 0 <= i < j < |s| ==> !StrictlyInside(s[j], s[i])
    ensures SortedByY(FixedOverlaps(s))
  {
    var r := FixedOverlaps(s);
    forall i | 0 <= i < |s| - 1 ensures r[i].y <= r[i + 1].y {
      if i > 0 && s[i - 1].yBottom > s[i].y {
        // the bottom edges cannot go down: s[i] is not inside s[i - 1]
        assert s[i - 1].y < s[i].y;
        assert !StrictlyInside(s[i], s[i - 1]);
        MidBounds(s[i - 1].yBottom, s[i].y);
        if s[i].yBottom > s[i + 1].y {
          MidMonotone(s[i - 1].yBottom, s[i].y, s[i].yBottom, s[i + 1].y);
        } else {
          assert r[i + 1].y == s[i + 1].y;
        }
      } else if s[i].yBottom > s[i + 1].y {
        MidBounds(s[i].yBottom, s[i + 1].y);
      }
    }
    AdjacentSorted(r);
  }

  /** The overlap loop of `process_bboxes`, in place on the list. */
  method FixOverlap(a: array<BBox>)
    modifies a
    ensures a[..] == FixedOverlaps(old(a[..]))
  {
    ghost var s := a[..];
    var i := 0;
    while i < a.Length - 1
      invariant 0 <= i <= a.Length
      invariant a.Length > 0 ==> i <= a.Length - 1
      invariant forall k :: 0 <= k < a.Length ==>
        a[k] == s[k].(y := if 0 < k <= i then FixedY(s, k) else s[k].y,
                      yBottom := if k < i then FixedBottom(s, k) else s[k].yBottom)
    {
      var curr, next := a[i], a[i + 1];
      if curr.yBottom > next.y {
        var newY := Mid(curr.yBottom, next.y);
        a[i] := curr.(yBottom := newY);
        a[i + 1] := next.(y := newY);
      }
      i := i + 1;
    }
  }

  /** What `process_bboxes` returns. */
  function Process(s: seq<BBox>): seq<BBox> {
    FixedOverlaps(Merge(Dedup(s)))
  }

  /**
   * The processed list has the boxes of `merge_bboxes(remove_duplicate_bboxes(s))`
   * with only `y`/`yBottom` changed, is no longer than the input, and each box
   * keeps the `x`, `width` and `height` of an input box.
   */
  lemma ProcessShape(s: seq<BBox>)
    ensures |Process(s)| == |Merge(Dedup(s))| <= |s|
    ensures forall k :: 0 <= k < |Process(s)| ==>
      Process(s)[k] == Merge(Dedup(s))[k].(y := Process(s)[k].y, yBottom := Process(s)[k].yBottom)
    ensures forall k :: 0 <= k < |Process(s)| ==>
      (exists b :: b in s && b.x == Process(s)[k].x && b.width == Process(s)[k].width && b.height == Process(s)[k].height)
  {
    DedupProperties(s);
    MergeProperties(Dedup(s));
    MergeFromInput(Dedup(s));
    var m := Merge(Dedup(s));
    forall k | 0 <= k < |Process(s)|
      ensures exists b :: b in s && b.x == Process(s)[k].x && b.width == Process(s)[k].width && b.height == Process(s)[k].height
    {
      assert m[k] in m;
    }
  }

  /** A y-sorted input stays y-sorted through `process_bboxes`. */
  lemma ProcessKeepsSorted(s: seq<BBox>)
    requires SortedByY(s)
    ensures SortedByY(Process(s))
  {
    var d := Dedup(s);
    DedupStrictlySorted(s);
    MergeKeepsUnnested(d);
    SelectKeepsStrictlySorted(d, UnnestedMask(d));
    MergeUnnested(d);
    FixedOverlapsSorted(Merge(d));
  }

  lemma {:induction false} SelectKeepsStrictlySorted(s: seq<BBox>, keep: seq<bool>)
    requires |keep| == |s| && StrictlySortedByY(s)
    ensures StrictlySortedByY(Select(s, keep))
  {
    if |s| > 0 {
      var n := |s| - 1;
      assert StrictlySortedByY(s[..n]);
      SelectKeepsStrictlySorted(s[..n], keep[..n]);
      SelectMembers(s[..n], keep[..n]);
      var p := Select(s[..n], keep[..n]);
      forall k | 0 <= k < |p| ensures p[k].y < s[n].y {
        assert p[k] in p;
        var i :| 0 <= i < n && keep[..n][i] && s[..n][i] == p[k];
      }
    }
  }

  /** `process_bboxes(bboxes)`. */
  method ProcessBBoxes(bboxes: seq<BBox>) returns (r: seq<BBox>)
    ensures r == Process(bboxes)
    ensures |r| <= |bboxes|
    ensures forall i :: 0 <= i < |r| - 1 ==> r[i].yBottom <= r[i + 1].y
    ensures SortedByY(bboxes) ==> SortedByY(r)
  {
    var deduped := RemoveDuplicateBBoxes(bboxes);
    var merged := MergeBBoxes(deduped);
    var a := new BBox[|merged|](k requires 0 <= k < |merged| => merged[k]);
    assert a[..] == merged;
    FixOverlap(a);
    r := a[..];
    ProcessShape(bboxes);
    FixedOverlapsSeparated(merged);
    if SortedByY(bboxes) {
      ProcessKeepsSorted(bboxes);
    }
  }

  /**
   * `find_content_blocks(img)`: page-wide bands, at least `MinTextSize`
   * high, sorted by top edge, with no band reaching into the next.
   */
  method FindContentBlocks(img: Image, rects: seq<Rect>) returns (r: seq<BBox>)
    ensures r == Process(SortByY(SegmentKept(img, rects)))
    ensures SortedByY(r)
    ensures forall i :: 0 <= i < |r| - 1 ==> r[i].yBottom <= r[i + 1].y
    ensures forall b :: b in r ==> b.x == 0 && b.width == Width(img) && b.height >= MinTextSize
  {
    var boxes := Segment(img, rects);
    r := ProcessBBoxes(boxes);
    ProcessShape(boxes);
    forall b | b in r ensures b.x == 0 && b.width == Width(img) && b.height >= MinTextSize {
      var k :| 0 <= k < |r| && r[k] == b;
    }
  }
}
