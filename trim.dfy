/**
 * sharp's `trim`: the image is cut down to the smallest box that holds
 * every pixel that is not background; an image with nothing but
 * background is left as it is. Which pixels count as background
 * (sharp compares against `BACKGROUND_COLOR` with a threshold and a
 * line-art mode) is the set `background`: the colours that trim treats
 * as background.
 */
module Trimmer {
  import opened Wrappers
  import opened Raster

  /** Row i holds at least one pixel that is not background. */
  predicate RowHasContent(img: Image, background: set<Pixel>, i: int)
    requires Valid(img) && 0 <= i < Height(img)
  {
    exists j :: 0 <= j < Width(img) && img[i][j] !in background
  }

  /** Column j holds at least one pixel that is not background. */
  predicate ColHasContent(img: Image, background: set<Pixel>, j: int)
    requires Valid(img) && 0 <= j < Width(img)
  {
    exists i :: 0 <= i < Height(img) && img[i][j] !in background
  }

  predicate AllBackground(img: Image, background: set<Pixel>)
    requires Valid(img)
  {
    forall i, j :: 0 <= i < Height(img) && 0 <= j < Width(img) ==> img[i][j] in background
  }

  /** The first row at or after `from` with content, or the height if none. */
  function FirstContentRow(img: Image, background: set<Pixel>, from: nat): (r: nat)
    requires Valid(img) && from <= Height(img)
    ensures from <= r <= Height(img)
    ensures forall k :: from <= k < r ==> !RowHasContent(img, background, k)
    ensures r < Height(img) ==> RowHasContent(img, background, r)
    decreases Height(img) - from
  {
    if from == Height(img) || RowHasContent(img, background, from) then from
    else FirstContentRow(img, background, from + 1)
  }

  /** One past the last row before `upto` with content, or 0 if none. */
  function ContentRowsEnd(img: Image, background: set<Pixel>, upto: nat): (r: nat)
    requires Valid(img) && upto <= Height(img)
    ensures r <= upto
    ensures forall k :: r <= k < upto ==> !RowHasContent(img, background, k)
    ensures r > 0 ==> RowHasContent(img, background, r - 1)
    decreases upto
  {
    if upto == 0 || RowHasContent(img, background, upto - 1) then upto
    else ContentRowsEnd(img, background, upto - 1)
  }

  /** The first column at or after `from` with content, or the width if none. */
  function FirstContentCol(img: Image, background: set<Pixel>, from: nat): (r: nat)
    requires Valid(img) && from <= Width(img)
    ensures from <= r <= Width(img)
    ensures forall k :: from <= k < r ==> !ColHasContent(img, background, k)
    ensures r < Width(img) ==> ColHasContent(img, background, r)
    decreases Width(img) - from
  {
    if from == Width(img) || ColHasContent(img, background, from) then from
    else FirstContentCol(img, background, from + 1)
  }

  /** One past the last column before `upto` with content, or 0 if none. */
  function ContentColsEnd(img: Image, background: set<Pixel>, upto: nat): (r: nat)
    requires Valid(img) && upto <= Width(img)
    ensures r <= upto
    ensures forall k :: r <= k < upto ==> !ColHasContent(img, background, k)
    ensures r > 0 ==> ColHasContent(img, background, r - 1)
    decreases upto
  {
    if upto == 0 || ColHasContent(img, background, upto - 1) then upto
    else ContentColsEnd(img, background, upto - 1)
  }

  /** A box of pixels: its top-left corner, then its size. */
  datatype Box = Box(left: nat, top: nat, width: nat, height: nat)

  predicate InBox(b: Box, i: int, j: int) {
    b.top <= i < b.top + b.height && b.left <= j < b.left + b.width
  }

  /** `b` is a non-empty box inside `img`. */
  predicate BoxInside(img: Image, b: Box) {
    && 1 <= b.width && b.left + b.width <= Width(img)
    && 1 <= b.height && b.top + b.height <= Height(img)
  }

  /** Every pixel outside `b` is background. */
  predicate Encloses(img: Image, background: set<Pixel>, b: Box)
    requires Valid(img)
  {
    forall i, j :: 0 <= i < Height(img) && 0 <= j < Width(img) && !InBox(b, i, j) ==>
      img[i][j] in background
  }

  /** Each of the four border lines of `b` holds content. */
  predicate Tight(img: Image, background: set<Pixel>, b: Box)
    requires Valid(img) && BoxInside(img, b)
  {
    && RowHasContent(img, background, b.top)
    && RowHasContent(img, background, b.top + b.height - 1)
    && ColHasContent(img, background, b.left)
    && ColHasContent(img, background, b.left + b.width - 1)
  }

  /** The bounding box of the content; none when the image is all background. */
  function ContentBox(img: Image, background: set<Pixel>): (r: Option<Box>)
    requires Valid(img)
    ensures r.None? <==> AllBackground(img, background)
    ensures r.Some? ==>
      && BoxInside(img, r.value)
      && Encloses(img, background, r.value)
      && Tight(img, background, r.value)
  {
    var top := FirstContentRow(img, background, 0);
    if top == Height(img) then
      assert AllBackground(img, background) by {
        forall i, j | 0 <= i < Height(img) && 0 <= j < Width(img)
          ensures img[i][j] in background
        {
          assert !RowHasContent(img, background, i);
        }
      }
      None
    else
      var bottom := ContentRowsEnd(img, background, Height(img));
      var j :| 0 <= j < Width(img) && img[top][j] !in background;
      assert ColHasContent(img, background, j);
      var left := FirstContentCol(img, background, 0);
      var right := ContentColsEnd(img, background, Width(img));
      var b := Box(left, top, right - left, bottom - top);
      assert Encloses(img, background, b) by {
        forall i, j' | 0 <= i < Height(img) && 0 <= j' < Width(img) && !InBox(b, i, j')
          ensures img[i][j'] in background
        {
          if i < top || i >= bottom {
            assert !RowHasContent(img, background, i);
          } else {
            assert !ColHasContent(img, background, j');
          }
        }
      }
      Some(b)
  }

  /** At most one box is both tight and enclosing. */
  lemma TightEnclosingUnique(img: Image, background: set<Pixel>, b: Box, c: Box)
    requires Valid(img) && BoxInside(img, b) && BoxInside(img, c)
    requires Encloses(img, background, b) && Tight(img, background, b)
    requires Encloses(img, background, c) && Tight(img, background, c)
    ensures b == c
  {
    BoxWithin(img, background, b, c);
    BoxWithin(img, background, c, b);
  }

  /** A tight box lies within every enclosing box. */
  lemma BoxWithin(img: Image, background: set<Pixel>, b: Box, c: Box)
    requires Valid(img) && BoxInside(img, b)
    requires Tight(img, background, b) && Encloses(img, background, c)
    ensures c.top <= b.top && b.top + b.height <= c.top + c.height
    ensures c.left <= b.left && b.left + b.width <= c.left + c.width
  {
    var j1 :| 0 <= j1 < Width(img) && img[b.top][j1] !in background;
    assert InBox(c, b.top, j1);
    var j2 :| 0 <= j2 < Width(img) && img[b.top + b.height - 1][j2] !in background;
    assert InBox(c, b.top + b.height - 1, j2);
    var i1 :| 0 <= i1 < Height(img) && img[i1][b.left] !in background;
    assert InBox(c, i1, b.left);
    var i2 :| 0 <= i2 < Height(img) && img[i2][b.left + b.width - 1] !in background;
    assert InBox(c, i2, b.left + b.width - 1);
  }

  /** The content box is the smallest box outside which everything is background. */
  lemma ContentBoxSmallest(img: Image, background: set<Pixel>, c: Box)
    requires Valid(img) && Encloses(img, background, c)
    requires !AllBackground(img, background)
    ensures var b := ContentBox(img, background).value;
      && c.top <= b.top && b.top + b.height <= c.top + c.height
      && c.left <= b.left && b.left + b.width <= c.left + c.width
  {
    BoxWithin(img, background, ContentBox(img, background).value, c);
  }

  /** `c` holds exactly the pixels of `img` inside `b`. */
  predicate IsCut(img: Image, b: Box, c: Image)
    requires Valid(img) && BoxInside(img, b)
  {
    && HasSize(c, b.width, b.height)
    && forall i, j :: 0 <= i < b.height && 0 <= j < b.width ==> c[i][j] == img[b.top + i][b.left + j]
  }

  /** The area `trim` keeps: the content box, or the whole image when it has no content. */
  function TrimBox(img: Image, background: set<Pixel>): (b: Box)
    requires Valid(img)
    ensures BoxInside(img, b)
  {
    match ContentBox(img, background)
    case None => Box(0, 0, Width(img), Height(img))
    case Some(b) => b
  }

  /**
   * sharp's `trim`: the content box cut out of the image; an image that
   * is all background would be trimmed to nothing and is returned as it is.
   */
  function Trim(img: Image, background: set<Pixel>): (r: Image)
    requires Valid(img)
    ensures AllBackground(img, background) ==> r == img
    ensures Valid(r) && IsCut(img, TrimBox(img, background), r)
  {
    match ContentBox(img, background)
    case None => img
    case Some(b) =>
      assert TrimBox(img, background) == b;
      Extract(img, Region(b.left, b.top, b.width, b.height)).value
  }

  /** A pixel with content lies inside every enclosing box. */
  lemma ContentInside(img: Image, background: set<Pixel>, b: Box, i: int, j: int)
    requires Valid(img) && Encloses(img, background, b)
    requires 0 <= i < Height(img) && 0 <= j < Width(img) && img[i][j] !in background
    ensures InBox(b, i, j)
  {
  }

  /** Cutting out a tight, enclosing box leaves content on all four borders of the cut. */
  lemma CutIsTight(img: Image, background: set<Pixel>, b: Box, c: Image)
    requires Valid(img) && BoxInside(img, b)
    requires Encloses(img, background, b) && Tight(img, background, b) && IsCut(img, b, c)
    ensures Valid(c) && Tight(c, background, Box(0, 0, b.width, b.height))
  {
    var j1 :| 0 <= j1 < Width(img) && img[b.top][j1] !in background;
    ContentInside(img, background, b, b.top, j1);
    assert c[0][j1 - b.left] == img[b.top][j1];
    var j2 :| 0 <= j2 < Width(img) && img[b.top + b.height - 1][j2] !in background;
    ContentInside(img, background, b, b.top + b.height - 1, j2);
    assert c[b.height - 1][j2 - b.left] == img[b.top + b.height - 1][j2];
    var i1 :| 0 <= i1 < Height(img) && img[i1][b.left] !in background;
    ContentInside(img, background, b, i1, b.left);
    assert c[i1 - b.top][0] == img[i1][b.left];
    var i2 :| 0 <= i2 < Height(img) && img[i2][b.left + b.width - 1] !in background;
    ContentInside(img, background, b, i2, b.left + b.width - 1);
    assert c[i2 - b.top][b.width - 1] == img[i2][b.left + b.width - 1];
  }

  /** A trimmed image has content on each of its four borders: trimming it again removes nothing. */
  lemma TrimmedIsTight(img: Image, background: set<Pixel>)
    requires Valid(img) && !AllBackground(img, background)
    ensures var c := Trim(img, background);
      && Tight(c, background, Box(0, 0, Width(c), Height(c)))
      && ContentBox(c, background) == Some(Box(0, 0, Width(c), Height(c)))
  {
    var b := ContentBox(img, background).value;
    var c := Trim(img, background);
    CutIsTight(img, background, b, c);
    var whole := Box(0, 0, Width(c), Height(c));
    assert Encloses(c, background, whole);
    assert !AllBackground(c, background) by {
      var j :| 0 <= j < Width(c) && c[0][j] !in background;
    }
    TightEnclosingUnique(c, background, whole, ContentBox(c, background).value);
  }

  /** `e` is `c` extended by the margins `m` with the colour `fill`. */
  predicate IsPadding(c: Image, m: Margins, fill: Pixel, e: Image)
    requires Valid(c)
  {
    && HasSize(e, Width(c) + m.left + m.right, Height(c) + m.top + m.bottom)
    && forall i, j :: 0 <= i < |e| && 0 <= j < |e[i]| ==>
         e[i][j] == if OnOriginal(c, m, i, j) then c[i - m.top][j - m.left] else fill
  }

  /** Padding an image with content on all its borders with background makes it the tight box. */
  lemma PaddingIsTightBox(c: Image, background: set<Pixel>, m: Margins, fill: Pixel, e: Image)
    requires Valid(c) && NonNegative(m) && fill in background
    requires Tight(c, background, Box(0, 0, Width(c), Height(c)))
    requires IsPadding(c, m, fill, e)
    ensures var b := Box(m.left, m.top, Width(c), Height(c));
      Valid(e) && BoxInside(e, b) && Encloses(e, background, b) && Tight(e, background, b)
  {
    var b := Box(m.left, m.top, Width(c), Height(c));
    assert Encloses(e, background, b) by {
      forall i, j | 0 <= i < Height(e) && 0 <= j < Width(e) && !InBox(b, i, j)
        ensures e[i][j] in background
      {
        assert !OnOriginal(c, m, i, j);
      }
    }
    var j1 :| 0 <= j1 < Width(c) && c[0][j1] !in background;
    assert OnOriginal(c, m, m.top, m.left + j1);
    assert e[m.top][m.left + j1] == c[0][j1];
    var j2 :| 0 <= j2 < Width(c) && c[Height(c) - 1][j2] !in background;
    assert OnOriginal(c, m, m.top + Height(c) - 1, m.left + j2);
    assert e[m.top + Height(c) - 1][m.left + j2] == c[Height(c) - 1][j2];
    var i1 :| 0 <= i1 < Height(c) && c[i1][0] !in background;
    assert OnOriginal(c, m, m.top + i1, m.left);
    assert e[m.top + i1][m.left] == c[i1][0];
    var i2 :| 0 <= i2 < Height(c) && c[i2][Width(c) - 1] !in background;
    assert OnOriginal(c, m, m.top + i2, m.left + Width(c) - 1);
    assert e[m.top + i2][m.left + Width(c) - 1] == c[i2][Width(c) - 1];
  }

  /**
   * Trimming a padded image whose content touches all four of its borders
   * removes exactly the padding, provided the padding colour is background.
   */
  lemma TrimRemovesPadding(c: Image, background: set<Pixel>, m: Margins, fill: Pixel)
    requires Valid(c) && NonNegative(m) && fill in background
    requires Tight(c, background, Box(0, 0, Width(c), Height(c)))
    ensures var e := ExtendFill(c, m, fill).value;
      && ContentBox(e, background) == Some(Box(m.left, m.top, Width(c), Height(c)))
      && Trim(e, background) == c
  {
    var e := ExtendFill(c, m, fill).value;
    var b := Box(m.left, m.top, Width(c), Height(c));
    PaddingIsTightBox(c, background, m, fill, e);
    assert !AllBackground(e, background) by {
      var j :| 0 <= j < Width(e) && e[b.top][j] !in background;
    }
    TightEnclosingUnique(e, background, b, ContentBox(e, background).value);
    ExtractAfterExtendFill(c, m, fill);
  }
}
