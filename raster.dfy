/**
 * Raster images and the four sharp operations the compositor uses:
 * `extract`, `extend` with a solid background, `extend` with
 * `extendWith: "copy"`, and `composite` with `top`/`left` offsets.
 *
 * An image is a sequence of rows, row 0 at the top; `img[i][j]` is the
 * pixel in row i and column j. A decoded image always has at least one
 * row and one column.
 */
module Raster {
  import opened Wrappers

  newtype Byte = x: int | 0 <= x < 256

  datatype Pixel = Pixel(r: Byte, g: Byte, b: Byte, alpha: Byte)

  type Image = seq<seq<Pixel>>

  /** The ways a sharp call of the pipeline rejects its arguments. */
  datatype RasterError =
    | BadExtractArea   // extract: negative offset, empty size, or area outside the image
    | NegativeExtend   // extend: a negative margin
    | OverlayTooLarge  // composite: an overlay wider or taller than the base image

  function Height(img: Image): nat {
    |img|
  }

  function Width(img: Image): nat {
    if |img| == 0 then 0 else |img[0]|
  }

  /** A well-formed, non-empty, rectangular image. */
  predicate Valid(img: Image) {
    && |img| >= 1
    && |img[0]| >= 1
    && forall i :: 0 <= i < |img| ==> |img[i]| == |img[0]|
  }

  /** `img` is exactly `w` pixels wide and `h` pixels tall. */
  predicate HasSize(img: Image, w: int, h: int) {
    && |img| == h
    && forall i :: 0 <= i < |img| ==> |img[i]| == w
  }

  /** The `extract` area: offset of the top-left corner, then size. */
  datatype Region = Region(left: int, top: int, width: int, height: int)

  /**
   * The areas sharp accepts: non-negative offsets, a positive size,
   * and the whole area inside the image.
   */
  predicate Fits(img: Image, a: Region) {
    && 0 <= a.left && 0 <= a.top
    && 1 <= a.width && 1 <= a.height
    && a.left + a.width <= Width(img)
    && a.top + a.height <= Height(img)
  }

  /** sharp's `extract`: the sub-rectangle `a` of `img`. */
  function Extract(img: Image, a: Region): (r: Result<Image, RasterError>)
    requires Valid(img)
    ensures r.Success? <==> Fits(img, a)
    ensures r.Failure? ==> r.error == BadExtractArea
    ensures r.Success? ==>
      && Valid(r.value) && Width(r.value) == a.width && Height(r.value) == a.height
      && forall i, j :: 0 <= i < a.height && 0 <= j < a.width ==>
           r.value[i][j] == img[a.top + i][a.left + j]
  {
    if Fits(img, a) then
      Success(seq(a.height, i requires 0 <= i < a.height =>
        seq(a.width, j requires 0 <= j < a.width => img[a.top + i][a.left + j])))
    else
      Failure(BadExtractArea)
  }

  /** The four margins of sharp's `extend`, in its own order. */
  datatype Margins = Margins(top: int, right: int, bottom: int, left: int)

  predicate NonNegative(m: Margins) {
    m.top >= 0 && m.right >= 0 && m.bottom >= 0 && m.left >= 0
  }

  /** Pixel (i, j) of the extended canvas lies on the original image. */
  predicate OnOriginal(img: Image, m: Margins, i: int, j: int) {
    m.top <= i < m.top + Height(img) && m.left <= j < m.left + Width(img)
  }

  /** sharp's `extend` with a solid `background`. */
  function ExtendFill(img: Image, m: Margins, fill: Pixel): (r: Result<Image, RasterError>)
    requires Valid(img)
    ensures r.Success? <==> NonNegative(m)
    ensures r.Failure? ==> r.error == NegativeExtend
    ensures r.Success? ==>
      && Valid(r.value)
      && Width(r.value) == Width(img) + m.left + m.right
      && Height(r.value) == Height(img) + m.top + m.bottom
      && forall i, j :: 0 <= i < Height(r.value) && 0 <= j < Width(r.value) ==>
           r.value[i][j] == if OnOriginal(img, m, i, j) then img[i - m.top][j - m.left] else fill
  {
    if NonNegative(m) then
      var w, h := Width(img) + m.left + m.right, Height(img) + m.top + m.bottom;
      Success(seq(h, i requires 0 <= i < h =>
        seq(w, j requires 0 <= j < w =>
          if OnOriginal(img, m, i, j) then img[i - m.top][j - m.left] else fill)))
    else
      Failure(NegativeExtend)
  }

  /** The index in [0, n) nearest to k. */
  function Clamp(k: int, n: nat): (r: int)
    requires n >= 1
    ensures 0 <= r < n
    ensures 0 <= k < n ==> r == k
    ensures k < 0 ==> r == 0
    ensures k >= n ==> r == n - 1
  {
    if k < 0 then 0 else if k >= n then n - 1 else k
  }

  /** sharp's `extend` with `extendWith: "copy"`: the edge pixels are repeated outwards. */
  function ExtendCopy(img: Image, m: Margins): (r: Result<Image, RasterError>)
    requires Valid(img)
    ensures r.Success? <==> NonNegative(m)
    ensures r.Failure? ==> r.error == NegativeExtend
    ensures r.Success? ==>
      && Valid(r.value)
      && Width(r.value) == Width(img) + m.left + m.right
      && Height(r.value) == Height(img) + m.top + m.bottom
      && (forall i, j :: 0 <= i < Height(r.value) && 0 <= j < Width(r.value) ==>
            r.value[i][j] == img[Clamp(i - m.top, Height(img))][Clamp(j - m.left, Width(img))])
  {
    if NonNegative(m) then
      var w, h := Width(img) + m.left + m.right, Height(img) + m.top + m.bottom;
      Success(seq(h, i requires 0 <= i < h =>
        seq(w, j requires 0 <= j < w =>
          img[Clamp(i - m.top, Height(img))][Clamp(j - m.left, Width(img))])))
    else
      Failure(NegativeExtend)
  }

  /** Extending by copy keeps the original unchanged at offset (top, left). */
  lemma ExtendCopyKeepsOriginal(img: Image, m: Margins)
    requires Valid(img) && NonNegative(m)
    ensures var r := ExtendCopy(img, m).value;
      forall i, j :: 0 <= i < Height(img) && 0 <= j < Width(img) ==>
        r[m.top + i][m.left + j] == img[i][j]
  {
    var r := ExtendCopy(img, m).value;
    forall i, j | 0 <= i < Height(img) && 0 <= j < Width(img)
      ensures r[m.top + i][m.left + j] == img[i][j]
    {
      assert Clamp(m.top + i - m.top, Height(img)) == i;
      assert Clamp(m.left + j - m.left, Width(img)) == j;
    }
  }

  /** Extracting the original area of an extended image gives the image back. */
  lemma ExtractAfterExtendFill(img: Image, m: Margins, fill: Pixel)
    requires Valid(img) && NonNegative(m)
    ensures Extract(ExtendFill(img, m, fill).value,
                    Region(m.left, m.top, Width(img), Height(img))) == Success(img)
  {
    var e := ExtendFill(img, m, fill).value;
    var x := Extract(e, Region(m.left, m.top, Width(img), Height(img))).value;
    assert |x| == |img|;
    forall i | 0 <= i < |img| ensures x[i] == img[i] {
      assert |x[i]| == |img[i]|;
      forall j | 0 <= j < |img[i]| ensures x[i][j] == img[i][j] {
        assert OnOriginal(img, m, m.top + i, m.left + j);
        assert x[i][j] == e[m.top + i][m.left + j];
      }
    }
    assert x == img;
  }

  /** One layer of a `composite` call: an overlay and its offset. */
  datatype Layer = Layer(input: Image, top: int, left: int)

  /** Layer `l` covers pixel (i, j) of the base image. */
  predicate Covers(l: Layer, i: int, j: int) {
    l.top <= i < l.top + Height(l.input) && l.left <= j < l.left + Width(l.input)
  }

  /**
   * One overlay at an offset, opaque: the covered pixels are replaced,
   * the parts of the overlay outside the base are clipped.
   */
  function OverlayAt(base: Image, l: Layer): (r: Image)
    requires Valid(base) && Valid(l.input)
    ensures HasSize(r, Width(base), Height(base))
    ensures forall i, j :: 0 <= i < Height(base) && 0 <= j < Width(base) ==>
      r[i][j] == if Covers(l, i, j) then l.input[i - l.top][j - l.left] else base[i][j]
  {
    seq(Height(base), i requires 0 <= i < Height(base) =>
      seq(Width(base), j requires 0 <= j < Width(base) =>
        if Covers(l, i, j) then l.input[i - l.top][j - l.left] else base[i][j]))
  }

  predicate AllValid(layers: seq<Layer>) {
    forall k :: 0 <= k < |layers| ==> Valid(layers[k].input)
  }

  /** The overlays applied in list order: layer k is drawn over layers 0 .. k-1. */
  function Stack(base: Image, layers: seq<Layer>): (r: Image)
    requires Valid(base) && AllValid(layers)
    ensures Valid(r) && Width(r) == Width(base) && Height(r) == Height(base)
    decreases |layers|
  {
    if layers == [] then base
    else
      var below := Stack(base, layers[..|layers| - 1]);
      OverlayAt(below, layers[|layers| - 1])
  }

  /** Whether sharp accepts `layers` over `base`: no overlay may exceed the base. */
  predicate LayersFit(base: Image, layers: seq<Layer>) {
    forall k :: 0 <= k < |layers| ==>
      Width(layers[k].input) <= Width(base) && Height(layers[k].input) <= Height(base)
  }

  /** sharp's `composite`, with opaque overlays. */
  function Composite(base: Image, layers: seq<Layer>): (r: Result<Image, RasterError>)
    requires Valid(base) && AllValid(layers)
    ensures r.Success? <==> LayersFit(base, layers)
    ensures r.Failure? ==> r.error == OverlayTooLarge
    ensures r.Success? ==>
      Valid(r.value) && Width(r.value) == Width(base) && Height(r.value) == Height(base)
  {
    if LayersFit(base, layers) then Success(Stack(base, layers)) else Failure(OverlayTooLarge)
  }

  /** The pixel a layer puts at (i, j) of the base, when it covers it. */
  function PixelOf(l: Layer, i: int, j: int): Pixel
    requires Valid(l.input) && Covers(l, i, j)
  {
    l.input[i - l.top][j - l.left]
  }

  /** Where no layer covers pixel (i, j), the stack shows the base. */
  lemma {:induction false} StackUncovered(base: Image, layers: seq<Layer>, i: int, j: int)
    requires Valid(base) && AllValid(layers)
    requires 0 <= i < Height(base) && 0 <= j < Width(base)
    requires forall k :: 0 <= k < |layers| ==> !Covers(layers[k], i, j)
    ensures Stack(base, layers)[i][j] == base[i][j]
    decreases |layers|
  {
    if layers != [] {
      var n := |layers| - 1;
      assert !Covers(layers[n], i, j);
      StackUncovered(base, layers[..n], i, j);
    }
  }

  /** Layer k covers pixel (i, j) and no later layer does. */
  predicate Topmost(layers: seq<Layer>, k: int, i: int, j: int)
    requires 0 <= k < |layers|
  {
    Covers(layers[k], i, j) && forall k' :: k < k' < |layers| ==> !Covers(layers[k'], i, j)
  }

  /**
   * The layer order: where layer k is the topmost layer at pixel (i, j),
   * the stack shows layer k there, whatever the earlier layers drew.
   */
  lemma {:induction false} StackTopmost(base: Image, layers: seq<Layer>, k: nat, i: int, j: int)
    requires Valid(base) && AllValid(layers)
    requires 0 <= i < Height(base) && 0 <= j < Width(base)
    requires k < |layers| && Topmost(layers, k, i, j)
    ensures Stack(base, layers)[i][j] == PixelOf(layers[k], i, j)
    decreases |layers|
  {
    var n := |layers| - 1;
    if k < n {
      assert !Covers(layers[n], i, j);
      var init := layers[..n];
      assert init[k] == layers[k];
      assert forall k' :: k < k' < |init| ==> init[k'] == layers[k'];
      assert Topmost(init, k, i, j);
      StackTopmost(base, init, k, i, j);
    }
  }
}
