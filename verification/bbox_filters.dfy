/**
 * The two list filters of pdftolatex/utils.py that the post-processor runs:
 * `remove_duplicate_bboxes` (first box per top edge wins) and
 * `merge_bboxes` (a single forward pass dropping boxes nested in a kept one).
 *
 * Each is a method with the Python loop, proved equal to a scan function
 * (`Dedup`, `Merge`); the lemmas say what the scans compute in terms of the
 * input alone.
 */
module BBoxFilters {
  import opened Sequences
  import opened Geometry

  // ---------------------------------------------------------------------
  // remove_duplicate_bboxes

  /** The scan: append a box when no kept box has its `y`. */
  function Dedup(s: seq<BBox>): seq<BBox> {
    if |s| == 0 then []
    else
      var kept := Dedup(s[..|s| - 1]);
      var box := s[|s| - 1];
      if kept == [] || box.y !in Ys(kept) then kept + [box] else kept
  }

  /** Position `i` holds the first box of `s` with its `y`. */
  function FirstYMask(s: seq<BBox>): (m: seq<bool>)
    ensures |m| == |s|
    ensures forall i :: 0 <= i < |s| ==> (m[i] <==> s[i].y !in Ys(s[..i]))
  {
    seq(|s|, i requires 0 <= i < |s| => s[i].y !in Ys(s[..i]))
  }

  lemma FirstYMaskPrefix(s: seq<BBox>, n: nat)
    requires n <= |s|
    ensures FirstYMask(s)[..n] == FirstYMask(s[..n])
  {
    forall i | 0 <= i < n ensures FirstYMask(s)[i] == FirstYMask(s[..n])[i] {
      assert s[..n][..i] == s[..i];
    }
  }

  /** The duplicate filter keeps exactly the set of `y` values it was given. */
  lemma {:induction false} DedupSameYs(s: seq<BBox>)
    ensures forall y :: y in Ys(Dedup(s)) <==> y in Ys(s)
  {
    if |s| > 0 {
      var n := |s| - 1;
      DedupSameYs(s[..n]);
      assert Ys(s) == Ys(s[..n]) + [s[n].y];
      var kept := Dedup(s[..n]);
      if kept == [] || s[n].y !in Ys(kept) {
        assert Ys(kept + [s[n]]) == Ys(kept) + [s[n].y];
      }
    }
  }

  /**
   * `remove_duplicate_bboxes` returns the order-preserving sub-sequence of
   * its input made of the FIRST box for each `y`.
   */
  lemma {:induction false} DedupKeepsFirst(s: seq<BBox>)
    ensures Dedup(s) == Select(s, FirstYMask(s))
  {
    if |s| > 0 {
      var n := |s| - 1;
      DedupKeepsFirst(s[..n]);
      DedupSameYs(s[..n]);
      FirstYMaskPrefix(s, n);
    }
  }

  /** No two boxes of the result share a `y`. */
  lemma {:induction false} DedupDistinctYs(s: seq<BBox>)
    ensures forall i, j :: 0 <= i < j < |Dedup(s)| ==> Dedup(s)[i].y != Dedup(s)[j].y
  {
    if |s| > 0 {
      var n := |s| - 1;
      DedupDistinctYs(s[..n]);
      var kept := Dedup(s[..n]);
      if kept == [] || s[n].y !in Ys(kept) {
        forall i | 0 <= i < |kept| ensures kept[i].y != s[n].y {
          assert Ys(kept)[i] == kept[i].y;
        }
      }
    }
  }

  /** Every `y` of the input still occurs, no box is invented, and the list does not grow. */
  lemma DedupProperties(s: seq<BBox>)
    ensures |Dedup(s)| <= |s|
    ensures forall b :: b in Dedup(s) ==> b in s
    ensures forall y :: y in Ys(s) ==> y in Ys(Dedup(s))
  {
    DedupKeepsFirst(s);
    SelectMembers(s, FirstYMask(s));
    DedupSameYs(s);
  }

  /** A y-sorted input gives a strictly increasing list of top edges. */
  lemma DedupStrictlySorted(s: seq<BBox>)
    requires SortedByY(s)
    ensures forall i, j :: 0 <= i < j < |Dedup(s)| ==> Dedup(s)[i].y < Dedup(s)[j].y
  {
    DedupKeepsFirst(s);
    SelectKeepsSorted(s, FirstYMask(s));
    DedupDistinctYs(s);
  }

  /** `remove_duplicate_bboxes(boxes)`. */
  method RemoveDuplicateBBoxes(boxes: seq<BBox>) returns (kept: seq<BBox>)
    ensures kept == Dedup(boxes)
    ensures kept == Select(boxes, FirstYMask(boxes))
  {
    kept := [];
    var i := 0;
    while i < |boxes|
      invariant 0 <= i <= |boxes|
      invariant kept == Dedup(boxes[..i])
    {
      var box := boxes[i];
      assert boxes[..i + 1][..i] == boxes[..i];
      if kept == [] || box.y !in Ys(kept) {
        kept := kept + [box];
      }
      i := i + 1;
    }
    assert boxes[..|boxes|] == boxes;
    DedupKeepsFirst(boxes);
  }

  // ---------------------------------------------------------------------
  // merge_bboxes

  /** Some box of `kept` strictly contains `box`. */
  predicate NestedInAny(box: BBox, kept: seq<BBox>) {
    exists j :: 0 <= j < |kept| && StrictlyInside(box, kept[j])
  }

  /** The scan: append a box unless a box kept so far strictly contains it. */
  function Merge(s: seq<BBox>): seq<BBox> {
    if |s| == 0 then []
    else
      var kept := Merge(s[..|s| - 1]);
      var box := s[|s| - 1];
      if kept == [] || !NestedInAny(box, kept) then kept + [box] else kept
  }

  /** Position `i` holds a box that no EARLIER box of `s` strictly contains. */
  function UnnestedMask(s: seq<BBox>): (m: seq<bool>)
    ensures |m| == |s|
    ensures forall i :: 0 <= i < |s| ==> (m[i] <==> !NestedInAny(s[i], s[..i]))
  {
    seq(|s|, i requires 0 <= i < |s| => !NestedInAny(s[i], s[..i]))
  }

  lemma UnnestedMaskPrefix(s: seq<BBox>, n: nat)
    requires n <= |s|
    ensures UnnestedMask(s)[..n] == UnnestedMask(s[..n])
  {
    forall i | 0 <= i < n ensures UnnestedMask(s)[i] == UnnestedMask(s[..n])[i] {
      assert s[..n][..i] == s[..i];
    }
  }

  /** Every box of the input is kept or strictly inside a kept box. */
  lemma {:induction false} MergeCovers(s: seq<BBox>)
    ensures forall j :: 0 <= j < |s| ==> s[j] in Merge(s) || NestedInAny(s[j], Merge(s))
  {
    if |s| > 0 {
      var n := |s| - 1;
      MergeCovers(s[..n]);
      var kept := Merge(s[..n]);
      forall j | 0 <= j < |s| ensures s[j] in Merge(s) || NestedInAny(s[j], Merge(s)) {
        if j < n {
          assert s[..n][j] == s[j];
          if !(s[j] in kept) {
            var k :| 0 <= k < |kept| && StrictlyInside(s[j], kept[k]);
            assert Merge(s)[k] == kept[k];
          }
        }
      }
    }
  }

  /** The scan only ever keeps boxes taken from its input. */
  lemma {:induction false} MergeFromInput(s: seq<BBox>)
    ensures forall b :: b in Merge(s) ==> b in s
  {
    if |s| > 0 {
      var n := |s| - 1;
      MergeFromInput(s[..n]);
      assert forall b :: b in s[..n] ==> b in s;
    }
  }

  /**
   * A box is nested in a box kept so far iff it is nested in SOME earlier
   * input box: a dropped box is inside a kept one, and strict containment
   * is transitive.
   */
  lemma NestedInKeptIffNestedInInput(box: BBox, s: seq<BBox>)
    ensures NestedInAny(box, Merge(s)) <==> NestedInAny(box, s)
  {
    MergeFromInput(s);
    if NestedInAny(box, Merge(s)) {
      var j :| 0 <= j < |Merge(s)| && StrictlyInside(box, Merge(s)[j]);
      assert Merge(s)[j] in s;
      var i :| 0 <= i < |s| && s[i] == Merge(s)[j];
    }
    if NestedInAny(box, s) {
      var i :| 0 <= i < |s| && StrictlyInside(box, s[i]);
      MergeCovers(s);
      if s[i] in Merge(s) {
        var j :| 0 <= j < |Merge(s)| && Merge(s)[j] == s[i];
      } else {
        var j :| 0 <= j < |Merge(s)| && StrictlyInside(s[i], Merge(s)[j]);
        InsideTransitive(box, s[i], Merge(s)[j]);
      }
    }
  }

  /**
   * `merge_bboxes` returns the order-preserving sub-sequence of its input
   * made of the boxes that no earlier input box strictly contains.
   */
  lemma {:induction false} MergeKeepsUnnested(s: seq<BBox>)
    ensures Merge(s) == Select(s, UnnestedMask(s))
  {
    if |s| > 0 {
      var n := |s| - 1;
      MergeKeepsUnnested(s[..n]);
      UnnestedMaskPrefix(s, n);
      NestedInKeptIffNestedInInput(s[n], s[..n]);
      if Merge(s[..n]) == [] {
        assert !NestedInAny(s[n], s[..n]);
      }
    }
  }

  /** The first box always survives. */
  lemma MergeKeepsHead(s: seq<BBox>)
    requires |s| > 0
    ensures |Merge(s)| > 0 && Merge(s)[0] == s[0]
  {
    MergeKeepsUnnested(s);
    assert !NestedInAny(s[0], s[..0]);
    SelectHead(s, UnnestedMask(s));
  }

  /** No kept box is strictly inside an earlier kept box. */
  lemma {:induction false} MergeUnnested(s: seq<BBox>)
    ensures forall i, j :: 0 <= i < j < |Merge(s)| ==> !StrictlyInside(Merge(s)[j], Merge(s)[i])
  {
    if |s| > 0 {
      MergeUnnested(s[..|s| - 1]);
    }
  }

  /** The merge never grows the list and keeps y-order. */
  lemma MergeProperties(s: seq<BBox>)
    ensures |Merge(s)| <= |s|
    ensures SortedByY(s) ==> SortedByY(Merge(s))
  {
    MergeKeepsUnnested(s);
    SelectMembers(s, UnnestedMask(s));
    if SortedByY(s) {
      SelectKeepsSorted(s, UnnestedMask(s));
    }
  }

  /** `merge_bboxes(lst)`. */
  method MergeBBoxes(lst: seq<BBox>) returns (kept: seq<BBox>)
    ensures kept == Merge(lst)
    ensures kept == Select(lst, UnnestedMask(lst))
  {
    kept := [];
    var i := 0;
    while i < |lst|
      invariant 0 <= i <= |lst|
      invariant kept == Merge(lst[..i])
    {
      var box := lst[i];
      assert lst[..i + 1][..i] == lst[..i];
      if kept == [] || !(exists j :: 0 <= j < |kept| && StrictlyInside(box, kept[j])) {
        kept := kept + [box];
      }
      i := i + 1;
    }
    assert lst[..|lst|] == lst;
    MergeKeepsUnnested(lst);
  }
}
