/**
 * The card compositor (`Artist` in `src/artist.ts`): a screenshot is
 * cleaned, trimmed, padded, grown by the frame's opaque margins and then
 * framed with four corner tiles and four rescaled edge tiles.
 */
module Artist {
  import opened Wrappers
  import opened Raster
  import opened Invariants
  import opened Types
  import opened Trimmer

  /** JavaScript's `Math.ceil(n / 2)` for an integer n: the least r with 2r >= n. */
  function CeilHalf(n: int): (r: int)
    ensures n <= 2 * r <= n + 1
  {
    (n + 1) / 2
  }

  // ---------------------------------------------------------------------------
  // The stages of `draw`
  // ---------------------------------------------------------------------------

  /** Stage 1: the bottom pixel row is cut off; the rest is kept as it is. */
  function EdgeClean(entry: Image): (r: Result<Image, RasterError>)
    requires Valid(entry)
    ensures r.Success? <==> Height(entry) >= 2
    ensures r.Failure? ==> r.error == BadExtractArea
    ensures r.Success? ==> Valid(r.value) && r.value == entry[..Height(entry) - 1]
  {
    var r := Extract(entry, Region(0, 0, Width(entry), Height(entry) - 1));
    assert r.Success? ==> r.value == entry[..Height(entry) - 1] by {
      if r.Success? {
        forall i | 0 <= i < Height(entry) - 1 ensures r.value[i] == entry[i] {
          assert |r.value[i]| == |entry[i]|;
        }
      }
    }
    r
  }

  /** The padding around the trimmed content. */
  const PaddingMargins: Margins := Margins(ImagePadding, ImagePadding, ImagePadding, ImagePadding)

  /** Where the trimmed content of size w x h sits in the padded image. */
  function PaddedContent(w: nat, h: nat): Box {
    Box(ImagePadding, ImagePadding, w, h)
  }

  /** `r` is the area `b` of `img` with `ImagePadding` pixels of `fill` on every side. */
  predicate IsPadded(img: Image, b: Box, fill: Pixel, r: Image)
    requires Valid(img) && BoxInside(img, b)
  {
    && Valid(r)
    && Width(r) == b.width + 2 * ImagePadding
    && Height(r) == b.height + 2 * ImagePadding
    && forall i, j :: 0 <= i < Height(r) && 0 <= j < Width(r) ==>
         r[i][j] ==
           if InBox(PaddedContent(b.width, b.height), i, j)
           then img[b.top + i - ImagePadding][b.left + j - ImagePadding]
           else fill
  }

  /**
   * Stage 2: trim the background border, then pad every side with
   * `ImagePadding` pixels of `BackgroundColor`.
   */
  function TrimAndPad(cropped: Image, background: set<Pixel>): (r: Image)
    requires Valid(cropped)
    ensures IsPadded(cropped, TrimBox(cropped, background), BackgroundColor, r)
  {
    var trimmed := Trim(cropped, background);
    PaddedCut(cropped, TrimBox(cropped, background), trimmed, BackgroundColor);
    ExtendFill(trimmed, PaddingMargins, BackgroundColor).value
  }

  /** Padding the cut of box `b` puts the pixels of `b` at (20, 20) and `fill` around them. */
  lemma PaddedCut(img: Image, b: Box, c: Image, fill: Pixel)
    requires Valid(img) && BoxInside(img, b) && IsCut(img, b, c)
    ensures IsPadded(img, b, fill, ExtendFill(c, PaddingMargins, fill).value)
  {
    var r := ExtendFill(c, PaddingMargins, fill).value;
    forall i, j | 0 <= i < Height(r) && 0 <= j < Width(r)
      ensures r[i][j] ==
        if InBox(PaddedContent(b.width, b.height), i, j)
        then img[b.top + i - ImagePadding][b.left + j - ImagePadding]
        else fill
    {
      assert OnOriginal(c, PaddingMargins, i, j) == InBox(PaddedContent(b.width, b.height), i, j);
    }
  }

  /**
   * When the padding colour is background, trimming the padded card gives
   * what trimming the cropped screenshot gave, if that had content; if it
   * had none, the padded card has none either and trim leaves it as it is.
   */
  lemma TrimAfterTrimAndPad(cropped: Image, background: set<Pixel>)
    requires Valid(cropped) && BackgroundColor in background
    ensures !AllBackground(cropped, background) ==>
      Trim(TrimAndPad(cropped, background), background) == Trim(cropped, background)
    ensures AllBackground(cropped, background) ==>
      Trim(TrimAndPad(cropped, background), background) == TrimAndPad(cropped, background)
  {
    var padded := TrimAndPad(cropped, background);
    if AllBackground(cropped, background) {
      assert AllBackground(padded, background) by {
        forall i, j | 0 <= i < Height(padded) && 0 <= j < Width(padded)
          ensures padded[i][j] in background
        {
        }
      }
    } else {
      TrimmedIsTight(cropped, background);
      TrimRemovesPadding(Trim(cropped, background), background, PaddingMargins, BackgroundColor);
    }
  }

  /** The room the frame art takes beyond the padded card. */
  const OpaqueMargins: Margins :=
    Margins(FrameOpaqueTop, FrameOpaqueRight, FrameOpaqueBottom, FrameOpaqueLeft)

  /**
   * Stage 3: grow the canvas by the opaque margins with transparent pixels;
   * the padded card sits unchanged at (top 14, left 9).
   */
  function OpaqueExtend(padded: Image): (r: Image)
    requires Valid(padded)
    ensures Valid(r)
    ensures Width(r) == Width(padded) + 18 && Height(r) == Height(padded) + 41
    ensures forall i, j :: 0 <= i < Height(r) && 0 <= j < Width(r) ==>
      r[i][j] ==
        if InBox(Box(9, 14, Width(padded), Height(padded)), i, j)
        then padded[i - 14][j - 9]
        else Transparent
  {
    ExtendFill(padded, OpaqueMargins, Transparent).value
  }

  // ---------------------------------------------------------------------------
  // Rescaling the edge tiles
  // ---------------------------------------------------------------------------

  /**
   * `rescaleVerticalFrameBorder`: fit a top or bottom tile to `targetWidth`.
   * A tile that is too wide is cropped from its centre; one that is not is
   * grown on both sides by the same number of copies of its edge columns,
   * which overshoots the target by one column when the difference is odd.
   */
  function RescaleVertical(tile: Image, targetWidth: int): (r: Result<Image, RasterError>)
    requires Valid(tile)
    ensures r.Success? ==> Valid(r.value) && Height(r.value) == Height(tile)
    // shrink: a window of exactly `targetWidth` columns, inside the tile
    ensures Width(tile) > targetWidth ==>
      var o := CeilHalf(Width(tile) - targetWidth);
      && (r.Success? <==> targetWidth >= 1)
      && (r.Failure? ==> r.error == BadExtractArea)
      && (r.Success? ==>
            && 1 <= o && o + targetWidth <= Width(tile)
            && Width(r.value) == targetWidth
            && forall i, j :: 0 <= i < Height(tile) && 0 <= j < targetWidth ==>
                 r.value[i][j] == tile[i][o + j])
    // expand: e copies of the edge column on each side
    ensures Width(tile) <= targetWidth ==>
      var e := CeilHalf(targetWidth - Width(tile));
      && r.Success?
      && Width(r.value) == Width(tile) + 2 * e
      && forall i, j :: 0 <= i < Height(tile) && 0 <= j < Width(r.value) ==>
           r.value[i][j] == tile[i][Clamp(j - e, Width(tile))]
  {
    if Width(tile) > targetWidth then
      Extract(tile, Region(CeilHalf(Width(tile) - targetWidth), 0, targetWidth, Height(tile)))
    else
      var e := CeilHalf(targetWidth - Width(tile));
      ExtendCopy(tile, Margins(0, e, 0, e))
  }

  /**
   * `rescaleHorizontalFrameBorder`: fit a left or right tile to
   * `targetHeight`. The crop branch mirrors the vertical one; the expand
   * branch measures from the whole canvas height instead of the target and
   * takes `FrameWidth` off the top extension and `FrameHeight` off the
   * bottom one, which sharp rejects when that leaves a negative amount.
   */
  function RescaleHorizontal(tile: Image, canvasHeight: int, targetHeight: int): (r: Result<Image, RasterError>)
    requires Valid(tile)
    ensures r.Success? ==> Valid(r.value) && Width(r.value) == Width(tile)
    // shrink: a window of exactly `targetHeight` rows, inside the tile
    ensures Height(tile) > targetHeight ==>
      var o := CeilHalf(Height(tile) - targetHeight);
      && (r.Success? <==> targetHeight >= 1)
      && (r.Failure? ==> r.error == BadExtractArea)
      && (r.Success? ==>
            && 1 <= o && o + targetHeight <= Height(tile)
            && Height(r.value) == targetHeight
            && forall i, j :: 0 <= i < targetHeight && 0 <= j < Width(tile) ==>
                 r.value[i][j] == tile[o + i][j])
    // expand: copies of the edge rows, unequal amounts above and below
    ensures Height(tile) <= targetHeight ==>
      var c := CeilHalf(canvasHeight - Height(tile));
      var above, below := c - FrameWidth, c - FrameHeight;
      && (r.Success? <==> above >= 0 && below >= 0)
      && (r.Failure? ==> r.error == NegativeExtend)
      && (r.Success? ==>
            && Height(r.value) == Height(tile) + above + below
            && forall i, j :: 0 <= i < Height(r.value) && 0 <= j < Width(tile) ==>
                 r.value[i][j] == tile[Clamp(i - above, Height(tile))][j])
  {
    if Height(tile) > targetHeight then
      Extract(tile, Region(0, CeilHalf(Height(tile) - targetHeight), Width(tile), targetHeight))
    else
      var c := CeilHalf(canvasHeight - Height(tile));
      ExtendCopy(tile, Margins(c - FrameWidth, 0, c - FrameHeight, 0))
  }

  /** The crop window is centred: its middle is at most half a pixel off the tile's. */
  lemma CropIsCentred(tileSpan: int, targetSpan: int)
    requires tileSpan > targetSpan
    ensures var o := CeilHalf(tileSpan - targetSpan);
      -1 <= 2 * o + targetSpan - tileSpan <= 1
  {
  }

  /**
   * The vertical expand branch reaches the target exactly when the
   * difference is even and overshoots it by one column when it is odd; a
   * tile that already fits is returned unchanged.
   */
  lemma VerticalExpandSpan(tile: Image, targetWidth: int)
    requires Valid(tile) && Width(tile) <= targetWidth
    ensures var r := RescaleVertical(tile, targetWidth);
      && r.Success?
      && Width(r.value) == targetWidth + (targetWidth - Width(tile)) % 2
      && (Width(tile) == targetWidth ==> r.value == tile)
  {
    var r := RescaleVertical(tile, targetWidth).value;
    if Width(tile) == targetWidth {
      assert |r| == |tile|;
      forall i | 0 <= i < |tile| ensures r[i] == tile[i] {
        assert |r[i]| == |tile[i]|;
        forall j | 0 <= j < |tile[i]| ensures r[i][j] == tile[i][j] {
          assert Clamp(j - 0, Width(tile)) == j;
        }
      }
    }
  }

  /**
   * Inside the compositor the left/right target is `H - FrameWidth -
   * FrameHeight` for a canvas of height H. There the horizontal expand
   * branch yields the target or one row more, depending on the parity of
   * `H - s`, and sharp accepts it only when the tile is at least 11 rows
   * shorter than the target.
   */
  lemma HorizontalExpandSpan(tile: Image, canvasHeight: int)
    requires Valid(tile)
    requires Height(tile) <= canvasHeight - FrameWidth - FrameHeight
    ensures var t := canvasHeight - FrameWidth - FrameHeight;
      var r := RescaleHorizontal(tile, canvasHeight, t);
      && (r.Success? <==> Height(tile) <= t - (FrameHeight - FrameWidth - 1))
      && (r.Success? ==> Height(r.value) == t + (canvasHeight - Height(tile)) % 2)
  {
  }

  // ---------------------------------------------------------------------------
  // Framing
  // ---------------------------------------------------------------------------

  /**
   * The `composite` list of `addFrame`, in its order: the four corners
   * first, then the top, bottom, left and right edges, each rescaled to
   * the room between the corners. The edges are rescaled in that order, so
   * the first failing one decides the error.
   */
  function FrameLayers(canvas: Image, frame: FrameDefinition): (r: Result<seq<Layer>, RasterError>)
    requires Valid(canvas) && ValidFrame(frame)
    ensures var w, h := Width(canvas), Height(canvas);
      r.Success? <==>
        && RescaleVertical(frame.top, w - FrameWidth * 2).Success?
        && RescaleVertical(frame.bottom, w - FrameWidth * 2).Success?
        && RescaleHorizontal(frame.left, h, h - FrameWidth - FrameHeight).Success?
        && RescaleHorizontal(frame.right, h, h - FrameWidth - FrameHeight).Success?
    ensures r.Success? ==> |r.value| == 8 && AllValid(r.value)
  {
    var w, h := Width(canvas), Height(canvas);
    match RescaleVertical(frame.top, w - FrameWidth * 2)
    case Failure(e) => Failure(e)
    case Success(top) =>
      match RescaleVertical(frame.bottom, w - FrameWidth * 2)
      case Failure(e) => Failure(e)
      case Success(bottom) =>
        match RescaleHorizontal(frame.left, h, h - FrameWidth - FrameHeight)
        case Failure(e) => Failure(e)
        case Success(left) =>
          match RescaleHorizontal(frame.right, h, h - FrameWidth - FrameHeight)
          case Failure(e) => Failure(e)
          case Success(right) =>
            Success([
              Layer(frame.topLeft, 0, 0),
              Layer(frame.topRight, 0, w - FrameWidth),
              Layer(frame.bottomRight, h - FrameHeight, w - FrameWidth),
              Layer(frame.bottomLeft, h - FrameHeight, 0),
              Layer(top, 0, FrameWidth),
              Layer(bottom, h - FrameHeight, FrameWidth),
              Layer(left, FrameWidth, 0),
              Layer(right, FrameWidth, w - FrameWidth)
            ])
  }

  /** `addFrame`: the layers composited over the canvas. */
  function AddFrame(canvas: Image, frame: FrameDefinition): (r: Result<Image, RasterError>)
    requires Valid(canvas) && ValidFrame(frame)
    ensures r.Success? <==>
      FrameLayers(canvas, frame).Success? && LayersFit(canvas, FrameLayers(canvas, frame).value)
    ensures r.Success? ==>
      Valid(r.value) && Width(r.value) == Width(canvas) && Height(r.value) == Height(canvas)
  {
    var layers :- FrameLayers(canvas, frame);
    Composite(canvas, layers)
  }

  /**
   * Where the layers go on a W x H canvas: the corners, not rescaled, at
   * the four corners of the canvas; the top and bottom edges from column
   * `FrameWidth`, spanning the `W - 2 * FrameWidth` columns between the
   * corners or one more; the left and right edges from row `FrameWidth`,
   * spanning `H - FrameWidth - FrameHeight` rows or one more.
   */
  lemma FramePlacement(canvas: Image, frame: FrameDefinition)
    requires Valid(canvas) && ValidFrame(frame)
    requires FrameLayers(canvas, frame).Success?
    ensures var w, h, l := Width(canvas), Height(canvas), FrameLayers(canvas, frame).value;
      && l[0] == Layer(frame.topLeft, 0, 0)
      && l[1] == Layer(frame.topRight, 0, w - FrameWidth)
      && l[2] == Layer(frame.bottomRight, h - FrameHeight, w - FrameWidth)
      && l[3] == Layer(frame.bottomLeft, h - FrameHeight, 0)
      && l[4].top == 0 && l[4].left == FrameWidth
      && l[5].top == h - FrameHeight && l[5].left == FrameWidth
      && l[6].top == FrameWidth && l[6].left == 0
      && l[7].top == FrameWidth && l[7].left == w - FrameWidth
      && Height(l[4].input) == Height(frame.top) && Height(l[5].input) == Height(frame.bottom)
      && Width(l[6].input) == Width(frame.left) && Width(l[7].input) == Width(frame.right)
      && (Width(l[4].input) == w - 2 * FrameWidth || Width(l[4].input) == w - 2 * FrameWidth + 1)
      && (Width(l[5].input) == w - 2 * FrameWidth || Width(l[5].input) == w - 2 * FrameWidth + 1)
      && (Height(l[6].input) == h - FrameWidth - FrameHeight || Height(l[6].input) == h - FrameWidth - FrameHeight + 1)
      && (Height(l[7].input) == h - FrameWidth - FrameHeight || Height(l[7].input) == h - FrameWidth - FrameHeight + 1)
  {
    var w, h := Width(canvas), Height(canvas);
    if Width(frame.top) <= w - 2 * FrameWidth { VerticalExpandSpan(frame.top, w - 2 * FrameWidth); }
    if Width(frame.bottom) <= w - 2 * FrameWidth { VerticalExpandSpan(frame.bottom, w - 2 * FrameWidth); }
    if Height(frame.left) <= h - FrameWidth - FrameHeight { HorizontalExpandSpan(frame.left, h); }
    if Height(frame.right) <= h - FrameWidth - FrameHeight { HorizontalExpandSpan(frame.right, h); }
  }

  /**
   * The layer order of `addFrame`: pixel (i, j) of the framed card shows
   * the last edge that covers it, whatever corner lies beneath; a corner
   * only where no edge and no later corner covers it; and the canvas where
   * nothing covers it.
   */
  lemma FramedPixel(canvas: Image, frame: FrameDefinition, i: int, j: int)
    requires Valid(canvas) && ValidFrame(frame)
    requires AddFrame(canvas, frame).Success?
    requires 0 <= i < Height(canvas) && 0 <= j < Width(canvas)
    ensures var l, r := FrameLayers(canvas, frame).value, AddFrame(canvas, frame).value;
      && ((forall k :: 0 <= k < 8 ==> !Covers(l[k], i, j)) ==> r[i][j] == canvas[i][j])
      && (forall e :: 4 <= e < 8 && Topmost(l, e, i, j) ==> r[i][j] == PixelOf(l[e], i, j))
      && (forall c :: 0 <= c < 4 && Topmost(l, c, i, j) ==> r[i][j] == PixelOf(l[c], i, j))
  {
    var l := FrameLayers(canvas, frame).value;
    assert AddFrame(canvas, frame).value == Stack(canvas, l);
    if forall k :: 0 <= k < 8 ==> !Covers(l[k], i, j) {
      StackUncovered(canvas, l, i, j);
    }
    forall k | 0 <= k < 8 && Topmost(l, k, i, j)
      ensures Stack(canvas, l)[i][j] == PixelOf(l[k], i, j)
    {
      StackTopmost(canvas, l, k, i, j);
    }
  }

  /**
   * On a canvas at least `2 * FrameWidth` wide and `FrameWidth +
   * FrameHeight` tall, the top-left `FrameWidth` x `FrameWidth` square
   * shows the top-left corner tile unchanged: no edge reaches it.
   */
  lemma TopLeftCornerShows(canvas: Image, frame: FrameDefinition, i: int, j: int)
    requires Valid(canvas) && ValidFrame(frame)
    requires AddFrame(canvas, frame).Success?
    requires Width(canvas) >= 2 * FrameWidth && Height(canvas) >= FrameWidth + FrameHeight
    requires 0 <= i < FrameWidth && 0 <= j < FrameWidth
    requires i < Height(frame.topLeft) && j < Width(frame.topLeft)
    ensures AddFrame(canvas, frame).value[i][j] == frame.topLeft[i][j]
  {
    var l := FrameLayers(canvas, frame).value;
    FramePlacement(canvas, frame);
    FramedPixel(canvas, frame, i, j);
    OnlyTopLeftReaches(l, Width(canvas), Height(canvas), i, j);
  }

  /** The offsets alone keep every layer but the first out of the top-left square. */
  lemma OnlyTopLeftReaches(l: seq<Layer>, w: int, h: int, i: int, j: int)
    requires |l| == 8 && Valid(l[0].input)
    requires w >= 2 * FrameWidth && h >= FrameWidth + FrameHeight
    requires 0 <= i < FrameWidth && 0 <= j < FrameWidth
    requires i < Height(l[0].input) && j < Width(l[0].input) && l[0].top == 0 && l[0].left == 0
    requires l[1].left == w - FrameWidth && l[2].top == h - FrameHeight
    requires l[3].top == h - FrameHeight && l[4].left == FrameWidth
    requires l[5].top == h - FrameHeight && l[6].top == FrameWidth
    requires l[7].left == w - FrameWidth
    ensures Covers(l[0], i, j)
    ensures forall k :: 0 < k < 8 ==> !Covers(l[k], i, j)
  {
  }

  /**
   * The expand branch's overshoot: when the room for the top edge exceeds
   * the tile by an odd number of columns, the grown edge reaches one column
   * into the top-right corner, and since edges are composited after the
   * corners, the corner's first column shows the tile's last column there.
   */
  lemma TopEdgeOvershoot(canvas: Image, frame: FrameDefinition)
    requires Valid(canvas) && ValidFrame(frame)
    requires AddFrame(canvas, frame).Success?
    requires Height(canvas) > FrameHeight
    requires Width(frame.top) <= Width(canvas) - 2 * FrameWidth
    requires (Width(canvas) - 2 * FrameWidth - Width(frame.top)) % 2 == 1
    ensures AddFrame(canvas, frame).value[0][Width(canvas) - FrameWidth]
         == frame.top[0][Width(frame.top) - 1]
  {
    var w := Width(canvas);
    var l := FrameLayers(canvas, frame).value;
    AddFrameStacks(canvas, frame);
    TopEdgeLayer(canvas, frame);
    LaterEdgeRows(canvas, frame);
    ExpandedPastTarget(frame.top, w - 2 * FrameWidth);
    OnlyTopEdgeReaches(l, w, Height(canvas));
    StackTopmost(canvas, l, 4, 0, w - FrameWidth);
  }

  /** A successful frame is the stack of the frame layers over the canvas. */
  lemma AddFrameStacks(canvas: Image, frame: FrameDefinition)
    requires Valid(canvas) && ValidFrame(frame)
    requires AddFrame(canvas, frame).Success?
    ensures FrameLayers(canvas, frame).Success?
    ensures AddFrame(canvas, frame).value == Stack(canvas, FrameLayers(canvas, frame).value)
  {
  }

  /** The top edge layer is the rescaled top tile at (0, FrameWidth). */
  lemma TopEdgeLayer(canvas: Image, frame: FrameDefinition)
    requires Valid(canvas) && ValidFrame(frame)
    requires FrameLayers(canvas, frame).Success?
    ensures var w, l := Width(canvas), FrameLayers(canvas, frame).value;
      l[4] == Layer(RescaleVertical(frame.top, w - 2 * FrameWidth).value, 0, FrameWidth)
  {
  }

  /** The rows at which the edges composited after the top edge start. */
  lemma LaterEdgeRows(canvas: Image, frame: FrameDefinition)
    requires Valid(canvas) && ValidFrame(frame)
    requires FrameLayers(canvas, frame).Success?
    ensures var h, l := Height(canvas), FrameLayers(canvas, frame).value;
      l[5].top == h - FrameHeight && l[6].top == FrameWidth && l[7].top == FrameWidth
  {
  }

  /** With an odd difference, the column just past the target repeats the tile's last column. */
  lemma ExpandedPastTarget(tile: Image, targetWidth: int)
    requires Valid(tile) && Width(tile) <= targetWidth && (targetWidth - Width(tile)) % 2 == 1
    ensures var r := RescaleVertical(tile, targetWidth).value;
      Width(r) == targetWidth + 1 && r[0][targetWidth] == tile[0][Width(tile) - 1]
  {
    VerticalExpandSpan(tile, targetWidth);
  }

  /** The offsets and spans alone make the top edge the topmost layer at (0, w - FrameWidth). */
  lemma OnlyTopEdgeReaches(l: seq<Layer>, w: int, h: int)
    requires |l| == 8 && h > FrameHeight && w > 2 * FrameWidth
    requires l[4].top == 0 && l[4].left == FrameWidth
    requires Width(l[4].input) == w - 2 * FrameWidth + 1 && Height(l[4].input) >= 1
    requires l[5].top == h - FrameHeight && l[6].top == FrameWidth && l[7].top == FrameWidth
    ensures Topmost(l, 4, 0, w - FrameWidth)
  {
  }

  // ---------------------------------------------------------------------------
  // The whole of `draw`
  // ---------------------------------------------------------------------------

  /**
   * `draw` up to the PNG encoding: clean, trim and pad, extend, frame.
   * `background` is the set of colours trim treats as background.
   */
  function Draw(entry: Image, frame: FrameDefinition, background: set<Pixel>): (r: Result<Image, RasterError>)
    requires Valid(entry) && ValidFrame(frame)
  {
    var cropped :- EdgeClean(entry);
    AddFrame(OpaqueExtend(TrimAndPad(cropped, background)), frame)
  }

  /**
   * The outcome of `draw`: a one-row screenshot fails the crop; a framed
   * card is the trimmed area of the cropped screenshot plus
   * `2 * ImagePadding + 18` columns and `2 * ImagePadding + 41` rows, and
   * when the cropped screenshot is all background that area is all of it.
   */
  lemma DrawGeometry(entry: Image, frame: FrameDefinition, background: set<Pixel>)
    requires Valid(entry) && ValidFrame(frame)
    ensures Height(entry) < 2 ==> Draw(entry, frame, background) == Failure(BadExtractArea)
    ensures Draw(entry, frame, background).Success? ==>
      var r, b := Draw(entry, frame, background).value, TrimBox(entry[..Height(entry) - 1], background);
      && Width(r) == b.width + 2 * ImagePadding + FrameOpaqueLeft + FrameOpaqueRight
      && Height(r) == b.height + 2 * ImagePadding + FrameOpaqueTop + FrameOpaqueBottom
    ensures Draw(entry, frame, background).Success? && AllBackground(entry[..Height(entry) - 1], background) ==>
      var r := Draw(entry, frame, background).value;
      && Width(r) == Width(entry) + 2 * ImagePadding + FrameOpaqueLeft + FrameOpaqueRight
      && Height(r) == Height(entry) - 1 + 2 * ImagePadding + FrameOpaqueTop + FrameOpaqueBottom
  {
  }

  /**
   * A left edge tile 9 to 19 rows taller than the trimmed content makes
   * `draw` fail: the top and bottom edges rescale, and then the left edge's
   * bottom extension is negative.
   */
  lemma DrawRejectsSideTile(entry: Image, frame: FrameDefinition, background: set<Pixel>)
    requires Valid(entry) && ValidFrame(frame) && Height(entry) >= 2
    requires var b := TrimBox(entry[..Height(entry) - 1], background);
      b.height + 8 < Height(frame.left) <= b.height + 19
    ensures Draw(entry, frame, background) == Failure(NegativeExtend)
  {
    var padded := TrimAndPad(entry[..Height(entry) - 1], background);
    var canvas := OpaqueExtend(padded);
    PipelineRescaleOutcomes(padded, frame.top);
    PipelineRescaleOutcomes(padded, frame.bottom);
    PipelineRescaleOutcomes(padded, frame.left);
    assert FrameLayers(canvas, frame) == Failure(NegativeExtend);
  }

  /**
   * The shipped tiles on the card of the end-to-end example: 400 x 200 of
   * content padded to 440 x 240 and extended to 458 x 281. The 411-wide
   * top tile is cropped to 408 columns from column 2; the 253-tall left
   * tile is cropped to 219 rows from row 17.
   */
  lemma WorkedExample(padded: Image, top: Image, left: Image)
    requires Valid(padded) && Width(padded) == 440 && Height(padded) == 240
    requires Valid(top) && Width(top) == FrameCenterWidth
    requires Valid(left) && Height(left) == FrameSideHeight
    ensures var canvas := OpaqueExtend(padded);
      var w, h := Width(canvas), Height(canvas);
      && w == 458 && h == 281
      && (var t := RescaleVertical(top, w - FrameWidth * 2);
          && t.Success? && Width(t.value) == 408
          && forall i, j :: 0 <= i < Height(top) && 0 <= j < 408 ==> t.value[i][j] == top[i][2 + j])
      && (var s := RescaleHorizontal(left, h, h - FrameWidth - FrameHeight);
          && s.Success? && Height(s.value) == 219
          && forall i, j :: 0 <= i < 219 && 0 <= j < Width(left) ==> s.value[i][j] == left[17 + i][j])
  {
  }

  /**
   * Which edge rescales can fail inside `draw`: the top and bottom ones
   * never do, the left and right ones exactly when the tile is between 0
   * and 10 rows shorter than the room between the corners.
   */
  lemma PipelineRescaleOutcomes(padded: Image, tile: Image)
    requires Valid(padded) && Valid(tile)
    requires Width(padded) > 2 * ImagePadding && Height(padded) > 2 * ImagePadding
    ensures var canvas := OpaqueExtend(padded);
      var w, h := Width(canvas), Height(canvas);
      var t := h - FrameWidth - FrameHeight;
      && RescaleVertical(tile, w - FrameWidth * 2).Success?
      && (RescaleHorizontal(tile, h, t).Failure? <==> t - 11 < Height(tile) <= t)
  {
    var h := Height(OpaqueExtend(padded));
    if Height(tile) <= h - FrameWidth - FrameHeight {
      HorizontalExpandSpan(tile, h);
    }
  }
}
