# Framed card compositor, modelled in Dafny

The repository scrapes a game catalogue, screenshots each monster's info
panel and turns every screenshot into a framed card image. This project
models two pieces of it:

- The card compositor `Artist` (`src/artist.ts`). `draw` does four things in turn:
  - cuts the bottom pixel row off the screenshot;
  - trims the background border and pads the content with 20 pixels of the background colour;
  - grows the canvas by the frame's opaque margins with transparent pixels;
  - in `addFrame`, composites four corner tiles and four edge tiles over it.

  The edge tiles are first fitted to the room between the corners. `rescaleVerticalFrameBorder` and `rescaleHorizontalFrameBorder` do this by cropping from the centre or by copying edge pixels outward.
- The derivation of a button's element id in `Parchment.pagesFor` (`src/parchment.ts`). It refuses an empty name, replaces spaces with `_` and escapes dots for the CSS selector.

Images are rectangular `seq<seq<Pixel>>` with RGBA byte pixels. The sharp
operations the compositor uses are modelled as functions in `raster.dfy`
and, for `trim`, in `trim.dfy`. Those that can reject their arguments
return a `Result`:

| sharp operation | model | when it fails |
|---|---|---|
| `extract` | `Extract` | the area leaves the image |
| `extend` with a colour | `ExtendFill` | a margin is negative |
| `extend` with `extendWith: "copy"` | `ExtendCopy` | a margin is negative |
| `trim` | `Trim` | never: an image of nothing but background is returned as it is |
| `composite` | `Composite` | an overlay is larger than the base |

`composite` draws the overlays in list order. Each one replaces the pixels
it covers, and whatever falls outside the base is clipped.

Files:
- `wrappers.dfy`: `Option` and `Result`.
- `raster.dfy`: images and the sharp primitives.
- `trim.dfy`: module `Trimmer`, the content bounding box and trim.
- `invariants.dfy`: the layout constants of `src/invariants.ts`.
- `types.dfy`: `FrameDefinition`.
- `artist.dfy`: the stages of `draw`, the rescalers, `addFrame` and the whole pipeline.
- `parchment.dfy`: the button id.

The model follows the code:
- `addFrame` composites the four corners FIRST and the edges after them, so an edge that reaches a corner shows on top of it (`Artist.FramedPixel`, `Artist.TopEdgeOvershoot`).
- The doc-comments of the two rescalers (`src/artist.ts:140-142`, `src/artist.ts:179-182`) say the edge spans the width or height between the corners. The expand branch of both, however, adds `ceil(d / 2)` on each side, so an odd difference yields one pixel more than that span (`Artist.VerticalExpandSpan`, `Artist.HorizontalExpandSpan`, `Artist.TopEdgeOvershoot`).
- The bottom extension of a left or right edge tile is `ceil((H - s) / 2) - 37`. When that is negative, sharp refuses the call. That happens exactly when the tile is 0 to 10 rows shorter than its room (`Artist.PipelineRescaleOutcomes`), and it makes `draw` fail (`Artist.DrawRejectsSideTile`).
- There is no separate check that the frame fits the image. A card too small for its frame fails in whichever sharp call rejects the geometry first.

## Model

| member | source | states |
|---|---|---|
| Raster.Extract | src/artist.ts:26-33 | sharp's `extract` succeeds iff the area has positive size and lies in the image; the result is exactly that area, pixel for pixel |
| Raster.ExtendFill | src/artist.ts:44-50 | `extend` with a colour fails iff a margin is negative; otherwise the image sits unchanged at (top, left) and every other pixel is the fill colour |
| Raster.ExtendCopy | src/artist.ts:169-175 | `extend` with `copy` fails iff a margin is negative; otherwise each new pixel repeats the nearest original pixel (clamped coordinates) |
| Raster.ExtendCopyKeepsOriginal | src/artist.ts:169-175 | extending by copy keeps the original unchanged at its offset |
| Raster.ExtractAfterExtendFill | src/artist.ts:44-50 | extracting the original area of an extended image returns the image: extend loses nothing |
| Raster.OverlayAt | src/artist.ts:79-137 | one overlay replaces exactly the pixels it covers and clips the rest; the base keeps its size |
| Raster.Composite | src/artist.ts:79-137 | `composite` fails iff some overlay is larger than the base; the result has the base's size |
| Raster.StackUncovered | src/artist.ts:79-137 | where no overlay covers a pixel, the composite shows the base there |
| Raster.StackTopmost | src/artist.ts:79-137 | where overlay k is the last one covering a pixel, the composite shows overlay k there, whatever earlier overlays drew |
| Trimmer.FirstContentRow | src/artist.ts:38-43 | the first row at or after `from` that holds a non-background pixel, with all rows between background |
| Trimmer.ContentRowsEnd | src/artist.ts:38-43 | one past the last row before `upto` with content; all rows after it are background |
| Trimmer.FirstContentCol | src/artist.ts:38-43 | the first column at or after `from` with content |
| Trimmer.ContentColsEnd | src/artist.ts:38-43 | one past the last column before `upto` with content |
| Trimmer.ContentBox | src/artist.ts:38-43 | there is no box iff the image is all background; otherwise the box lies in the image, every pixel outside it is background and each of its four border lines holds content |
| Trimmer.TightEnclosingUnique | src/artist.ts:38-43 | at most one box both encloses all content and is tight |
| Trimmer.BoxWithin | src/artist.ts:38-43 | a tight box lies inside every box that encloses all content |
| Trimmer.ContentBoxSmallest | src/artist.ts:38-43 | the content box lies inside every enclosing box: trim removes the maximal background border |
| Trimmer.Trim | src/artist.ts:38-43 | trim returns exactly the pixels of the content box, and an all-background image unchanged |
| Trimmer.ContentInside | src/artist.ts:38-43 | every content pixel lies inside any enclosing box |
| Trimmer.CutIsTight | src/artist.ts:38-43 | the cut of a tight enclosing box has content on all four of its borders |
| Trimmer.TrimmedIsTight | src/artist.ts:38-43 | the trimmed image's content box is the whole image, so trimming twice trims nothing more |
| Trimmer.PaddingIsTightBox | src/artist.ts:44-50 | in content padded with a background colour, the content's area is an enclosing, tight box |
| Trimmer.TrimRemovesPadding | src/artist.ts:38-50 | trim undoes padding with a background colour: the box is the padded content's area and trim returns the content |
| Artist.CeilHalf | src/artist.ts:158 | `Math.ceil(n / 2)` for integer n: the least r with 2r >= n |
| Artist.EdgeClean | src/artist.ts:19-33 | the crop succeeds iff the screenshot has at least two rows and returns it without its bottom row |
| Artist.TrimAndPad | src/artist.ts:38-51 | the trimmed area of the cropped screenshot (its content box, or all of it when it has no content) with 20 pixels of `BackgroundColor` on each side |
| Artist.PaddedCut | src/artist.ts:44-50 | padding a cut puts its pixels at (20, 20) and the fill colour around them |
| Artist.TrimAfterTrimAndPad | src/artist.ts:38-51 | when the padding colour is background, trimming the padded card gives the trim of the screenshot, and a screenshot without content stays as it is |
| Artist.OpaqueExtend | src/artist.ts:56-64 | the padded card grows by 18 columns and 41 rows of transparent pixels and sits unchanged at (14, 9) |
| Artist.RescaleVertical | src/artist.ts:144-177 | a tile wider than the target: a centred window of exactly the target width, failing iff the target is below 1; otherwise grown by `ceil(d / 2)` copies of its edge columns on each side |
| Artist.RescaleHorizontal | src/artist.ts:183-223 | a tile taller than the target: a centred window of exactly the target height; otherwise grown by edge rows, `ceil((H - s) / 2) - 25` above and `- 37` below, failing iff either is negative |
| Artist.CropIsCentred | src/artist.ts:153-163 | the crop window's middle is at most half a pixel from the tile's |
| Artist.VerticalExpandSpan | src/artist.ts:164-176 | the grown top/bottom tile spans the target, or one more column when the difference is odd; a tile of exactly the target width is unchanged |
| Artist.HorizontalExpandSpan | src/artist.ts:205-221 | inside the compositor the grown left/right tile spans the target or one more row, and sharp accepts it iff the tile is at least 11 rows shorter than the target |
| Artist.FrameLayers | src/artist.ts:79-137 | the layer list exists iff all four edge rescales succeed, and then holds eight valid layers |
| Artist.AddFrame | src/artist.ts:76-138 | framing succeeds iff the layer list exists and every layer fits the canvas, and it keeps the canvas size |
| Artist.FramePlacement | src/artist.ts:79-137 | the corners sit unscaled at the four corners of the canvas; the edges start after the corners, keep their thickness and span the room between the corners, or one more pixel |
| Artist.FramedPixel | src/artist.ts:79-137 | each framed pixel shows the last edge that covers it, else the last corner that covers it, else the canvas |
| Artist.TopLeftCornerShows | src/artist.ts:79-107 | on a canvas big enough for the frame, the top-left 25 x 25 square shows the top-left corner tile unchanged |
| Artist.TopEdgeOvershoot | src/artist.ts:100-107 | with an odd difference, the top edge covers the first column of the top-right corner with its own last column |
| Artist.ExpandedPastTarget | src/artist.ts:164-176 | with an odd difference, the column just past the target repeats the tile's last column |
| Artist.DrawGeometry | src/artist.ts:18-71 | `draw` fails on a one-row screenshot; a framed card measures the trimmed area plus 58 columns and 81 rows, which for an all-background screenshot is the whole cropped screenshot |
| Artist.DrawRejectsSideTile | src/artist.ts:18-71 | `draw` fails with a negative extension when the left edge tile is 9 to 19 rows taller than the trimmed content |
| Artist.WorkedExample | src/artist.ts:56-137 | on a 440 x 240 padded card the canvas is 458 x 281, the 411-wide top tile becomes 408 columns from column 2, and the 253-tall side tile becomes 219 rows from row 17 |
| Artist.PipelineRescaleOutcomes | src/artist.ts:100-137 | within `draw`, the top/bottom rescales always succeed, and the left/right ones fail iff the tile is 0 to 10 rows shorter than the room between the corners |
| Parchment.ReplaceSpaces | src/parchment.ts:37 | every space becomes `_`; every other character stays in place |
| Parchment.EscapeDots | src/parchment.ts:37 | the escaped string never begins with a bare dot |
| Parchment.EscapeDotsLength | src/parchment.ts:37 | escaping makes the string one character longer per dot |
| Parchment.ButtonId | src/parchment.ts:33-37 | an absent or empty name is refused with "Could not find name for button"; any other name yields an id |
| Parchment.UnescapeEscapeDots | src/parchment.ts:37 | undoing the escapes gives back the input, so escaping drops and reorders nothing |
| Parchment.EscapeDotsChars | src/parchment.ts:37 | escaping adds no character other than backslashes |
| Parchment.DotsEscaped | src/parchment.ts:37 | every dot in the escaped string directly follows a backslash |
| Parchment.ReplaceSpacesKeepsDots | src/parchment.ts:37 | replacing spaces keeps the number of dots |
| Parchment.ReplacementsCommute | src/parchment.ts:37 | the two replacements can be applied in either order |
| Parchment.ButtonIdProperties | src/parchment.ts:33-37 | an id has no spaces and every dot escaped; its length is the name's plus one per dot; unescaped, it is the name with spaces replaced |

## Left out

- Trimmer.Trim: sharp decides what is background by colour distance, with `threshold: 1` and `lineArt: true`. The model takes the background as a given set of colours. The similarity test is not modelled.
- Trimmer.Trim: an image that is all background is returned unchanged, as sharp documents for a trim that would leave nothing. The repository's code does not show this case.
- Raster.Composite: overlays are opaque. sharp's alpha blending of the frame art over the canvas is not modelled.
- `gravity: "center"` on the left and right edges is not modelled. sharp uses the explicit `top` and `left` offsets when they are given.
- Image decoding, `metadata`, PNG encoding and `toFile` are not modelled. `Artist.Draw` returns the framed image instead of writing it. Reading the frame assets is also left out.
- Artist.Draw: it has no contract of its own. Its outcomes are stated by `Artist.DrawGeometry`.
- The logger calls in `Artist` and `Parchment` are not modelled: they only produce output.
- The rest of `Parchment` is not modelled. That covers browser navigation, clicking, the locator query and the screenshot itself. The same goes for the director, the scout and the entry point: they are browser and file-system orchestration.
