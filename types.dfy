/** The frame asset set (`src/types.ts`). */
module Types {
  import opened Raster

  /** The eight decoded tiles of one frame: four sides and four corners. */
  datatype FrameDefinition = FrameDefinition(
    top: Image,
    right: Image,
    bottom: Image,
    left: Image,
    topLeft: Image,
    topRight: Image,
    bottomLeft: Image,
    bottomRight: Image)

  /** Every tile decodes to a non-empty rectangular image. */
  predicate ValidFrame(f: FrameDefinition) {
    && Valid(f.top) && Valid(f.right) && Valid(f.bottom) && Valid(f.left)
    && Valid(f.topLeft) && Valid(f.topRight) && Valid(f.bottomLeft) && Valid(f.bottomRight)
  }
}
