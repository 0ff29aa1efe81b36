/**
 * The rectangle value of the pipeline and the pixel-level helpers of
 * pdftolatex/utils.py: `BBox` and `pct_white`.
 */
module Geometry {
  import opened Sequences

  /**
   * A bounding box as the Python object holds it: the top-left corner,
   * the extent, and `yBottom`, which the constructor sets to `y + height`
   * but which the overlap fix later overwrites on its own.
   */
  datatype BBox = BBox(x: int, y: int, width: int, height: int, yBottom: int)

  /** `yBottom` still agrees with `y + height`. */
  predicate Consistent(b: BBox) {
    b.yBottom == b.y + b.height
  }

  /** The `BBox(x, y, width, height)` constructor. */
  function NewBBox(x: int, y: int, width: int, height: int): (b: BBox)
    ensures b.x == x && b.y == y && b.width == width && b.height == height
    ensures Consistent(b)
  {
    BBox(x, y, width, height, y + height)
  }

  /** `inner` lies strictly inside `outer` on the vertical axis (both edges strictly). */
  predicate StrictlyInside(inner: BBox, outer: BBox) {
    inner.y > outer.y && inner.yBottom < outer.yBottom
  }

  /** Strict vertical containment is transitive. */
  lemma InsideTransitive(a: BBox, b: BBox, c: BBox)
    requires StrictlyInside(a, b) && StrictlyInside(b, c)
    ensures StrictlyInside(a, c)
  {
  }

  /** Boxes ordered by ascending top edge (non-strictly). */
  predicate SortedByY(s: seq<BBox>) {
    forall i, j :: 0 <= i < j < |s| ==> s[i].y <= s[j].y
  }

  /** The top edges of a list of boxes, `[b.y for b in s]`. */
  function Ys(s: seq<BBox>): (ys: seq<int>)
    ensures |ys| == |s|
    ensures forall i :: 0 <= i < |s| ==> ys[i] == s[i].y
  {
    seq(|s|, i requires 0 <= i < |s| => s[i].y)
  }

  /** A sub-sequence of a y-sorted list is y-sorted. */
  lemma {:induction false} SelectKeepsSorted(s: seq<BBox>, keep: seq<bool>)
    requires |keep| == |s| && SortedByY(s)
    ensures SortedByY(Select(s, keep))
  {
    if |s| > 0 {
      var n := |s| - 1;
      assert SortedByY(s[..n]);
      SelectKeepsSorted(s[..n], keep[..n]);
      SelectMembers(s[..n], keep[..n]);
      var p := Select(s[..n], keep[..n]);
      forall k | 0 <= k < |p| ensures p[k].y <= s[n].y {
        assert p[k] in p;
        var i :| 0 <= i < n && keep[..n][i] && s[..n][i] == p[k];
      }
    }
  }

  /** One pixel: a grey level, or a blue/green/red triple as OpenCV stores colour images. */
  datatype Pixel = Gray(v: int) | Bgr(b: int, g: int, r: int)

  /** An image as rows of pixels. */
  type Image = seq<seq<Pixel>>

  /** A pixel is white when its grey level, or each of its three channels, is 255. */
  predicate IsWhite(p: Pixel) {
    match p
    case Gray(v) => v == 255
    case Bgr(b, g, r) => b == 255 && g == 255 && r == 255
  }

  /** `img.shape[1]`: the width of a page image (its rows all have this length). */
  function Width(img: Image): nat {
    if |img| == 0 then 0 else |img[0]|
  }

  function RowWhite(row: seq<Pixel>): nat {
    if row == [] then 0 else (if IsWhite(row[0]) then 1 else 0) + RowWhite(row[1..])
  }

  /** Number of white pixels (`np.sum(white_pixels)`). */
  function WhiteCount(img: Image): nat {
    if img == [] then 0 else RowWhite(img[0]) + WhiteCount(img[1..])
  }

  /** Number of pixels (`img.size`, divided by 3 for a colour image). */
  function PixelCount(img: Image): nat {
    if img == [] then 0 else |img[0]| + PixelCount(img[1..])
  }

  /**
   * The quotient `white_count / imsize` kept as numerator and denominator;
   * a zero denominator stands for the NaN that numpy yields.
   */
  datatype Fraction = Fraction(num: nat, den: nat)

  /** `pct_white(img)`. */
  function PctWhite(img: Image): Fraction {
    Fraction(WhiteCount(img), PixelCount(img))
  }

  /** `f < 1` on the floating-point quotient: false for NaN (zero denominator). */
  predicate BelowOne(f: Fraction) {
    f.den > 0 && f.num < f.den
  }

  /** The rational reading of `BelowOne`: it is `num / den < 1` whenever the quotient is defined. */
  lemma BelowOneIsQuotient(f: Fraction)
    requires f.den > 0
    ensures BelowOne(f) <==> (f.num as real) / (f.den as real) < 1.0
  {
    var q := (f.num as real) / (f.den as real);
    assert q * (f.den as real) == f.num as real;
  }

  lemma {:induction false} RowWhiteBounds(row: seq<Pixel>)
    ensures RowWhite(row) <= |row|
    ensures RowWhite(row) < |row| <==> exists j :: 0 <= j < |row| && !IsWhite(row[j])
  {
    if row != [] {
      RowWhiteBounds(row[1..]);
      if exists j :: 0 <= j < |row| && !IsWhite(row[j]) {
        var j :| 0 <= j < |row| && !IsWhite(row[j]);
        if j > 0 {
          assert !IsWhite(row[1..][j - 1]);
        }
      }
      if exists j :: 0 <= j < |row[1..]| && !IsWhite(row[1..][j]) {
        var j :| 0 <= j < |row[1..]| && !IsWhite(row[1..][j]);
        assert !IsWhite(row[j + 1]);
      }
    }
  }

  /**
   * The white count lies between 0 and the pixel count, and the ratio is
   * below one exactly when some pixel is not pure white.
   */
  lemma {:induction false} PctWhiteBounds(img: Image)
    ensures WhiteCount(img) <= PixelCount(img)
    ensures BelowOne(PctWhite(img)) <==>
      exists i, j :: 0 <= i < |img| && 0 <= j < |img[i]| && !IsWhite(img[i][j])
  {
    if img != [] {
      RowWhiteBounds(img[0]);
      PctWhiteBounds(img[1..]);
      var rest := img[1..];
      if exists i, j :: 0 <= i < |img| && 0 <= j < |img[i]| && !IsWhite(img[i][j]) {
        var i, j :| 0 <= i < |img| && 0 <= j < |img[i]| && !IsWhite(img[i][j]);
        if i > 0 {
          assert !IsWhite(rest[i - 1][j]);
        }
      }
      if exists i, j :: 0 <= i < |rest| && 0 <= j < |rest[i]| && !IsWhite(rest[i][j]) {
        var i, j :| 0 <= i < |rest| && 0 <= j < |rest[i]| && !IsWhite(rest[i][j]);
        assert !IsWhite(img[i + 1][j]);
      }
    }
  }

  /** A bounding rectangle as `cv2.boundingRect` reports it. */
  datatype Rect = Rect(x: int, y: int, w: int, h: int)

  /** `img[r.y:r.y+r.h, r.x:r.x+r.w]`. */
  function Crop(img: Image, r: Rect): (c: Image)
    ensures |c| <= |img|
  {
    var rows := PySlice(img, r.y, r.y + r.h);
    seq(|rows|, i requires 0 <= i < |rows| => PySlice(rows[i], r.x, r.x + r.w))
  }
}
