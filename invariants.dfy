/** The layout constants of the compositor (`src/invariants.ts`). */
module Invariants {
  import opened Raster

  /** Background added around the trimmed card, on every side. */
  const ImagePadding: int := 20

  /** Width of the frame corners and the left/right sides. */
  const FrameWidth: int := 25

  /** Height of the bottom corners and the bottom side. */
  const FrameHeight: int := 37

  /** Width of the shipped top/bottom tiles. */
  const FrameCenterWidth: int := 411

  /** Height of the shipped left/right tiles. */
  const FrameSideHeight: int := 253

  /** Room the frame art needs beyond the padded card, per side. */
  const FrameOpaqueTop: int := 14
  const FrameOpaqueRight: int := 9
  const FrameOpaqueBottom: int := 27
  const FrameOpaqueLeft: int := 9

  /** `#2a1908`, fully opaque. */
  const BackgroundColor: Pixel := Pixel(0x2a, 0x19, 0x08, 0xff)

  /** `{ r: 0, g: 0, b: 0, alpha: 0 }`. */
  const Transparent: Pixel := Pixel(0, 0, 0, 0)
}
