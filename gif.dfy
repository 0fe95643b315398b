/**
 * The block events a GIF decoder delivers to the compositor, the frames the
 * compositor produces, and the compositor's error outcomes.
 */
module Gif {
  import opened Raster

  datatype Option<+T> = None | Some(value: T)

  /** The compositor's fatal conditions. In the source each is a TypeError
      thrown out of the image callback, which ends the decode. */
  datatype Error =
    | MissingColorTable   // a drawn pixel, but neither lct nor gct exists
    | IndexOutOfRange     // a drawn pixel whose index has no colour table entry
    | NoRestoreAnchor     // restore-to-previous with no frame to restore from

  datatype Result<+T> = Ok(value: T) | Err(error: Error)

  /** One colour table entry, `ct[pixel]` = [r, g, b]. */
  datatype Color = Color(r: byte, g: byte, b: byte)

  type ColorTable = seq<Color>

  /** Logical screen descriptor: canvas size and the global colour table
      (present exactly when its flag is set). */
  datatype Header = Header(width: nat, height: nat, gct: Option<ColorTable>)

  /** Graphic Control Extension (section 23 of the GIF89a specification):
      disposal method (3-bit field), transparency flag and index, delay. */
  datatype Gce = Gce(disposalMethod: nat, transparencyGiven: bool, transparencyIndex: byte, delayTime: nat)

  /** The disposal methods that act (section 23 of the GIF89a specification). */
  const RestoreBackground: nat := 2
  const RestorePrevious: nat := 3

  /** The transparency index a control block puts in force:
      `gce.transparencyGiven ? gce.transparencyIndex : null`. */
  function Transparency(g: Gce): Option<byte>
  {
    if g.transparencyGiven then Some(g.transparencyIndex) else None
  }

  /** Image descriptor with its decoded, de-interlaced colour indices; `lct`
      is present exactly when the local colour table flag is set. */
  datatype Image = Image(rect: Rect, lct: Option<ColorTable>, pixels: seq<byte>)

  /** A composited frame: a full-canvas RGBA copy and the delay then in force
      (None while no Graphic Control Extension has been seen). */
  datatype Frame = Frame(data: seq<byte>, delay: Option<nat>)

  /** An image block the model draws: it carries one index per pixel (the
      decoder's output), and its rectangle lies on the canvas, which the
      model requires in place of the canvas's silent clipping. */
  predicate Fits(img: Image, w: nat, h: nat)
  {
    Within(img.rect, w, h) && |img.pixels| == img.rect.width * img.rect.height
  }

  /** The blocks between the header and the trailer, in stream order. */
  datatype Block = Control(gce: Gce) | Picture(img: Image)

  /** Some image block occurs among the blocks. */
  function HasImage(bs: seq<Block>): (b: bool)
    ensures b <==> exists i :: 0 <= i < |bs| && bs[i].Picture?
  {
    if bs == [] then false
    else
      var init := bs[..|bs| - 1];
      assert forall i :: 0 <= i < |init| ==> init[i] == bs[i];
      HasImage(init) || bs[|bs| - 1].Picture?
  }

  /** Number of control blocks that come after at least one image: each of
      them flushes a frame. */
  function Flushes(bs: seq<Block>): nat
  {
    if bs == [] then 0
    else
      var init := bs[..|bs| - 1];
      Flushes(init) + if bs[|bs| - 1].Control? && HasImage(init) then 1 else 0
  }

  /** Frames a complete stream yields: one per flushing control block, plus
      the final flush at the trailer if any image was drawn. */
  function FrameCount(bs: seq<Block>): nat
  {
    Flushes(bs) + if HasImage(bs) then 1 else 0
  }

  lemma PrefixStep(bs: seq<Block>, i: nat)
    requires i < |bs|
    ensures bs[..i + 1][..i] == bs[..i] && bs[..i + 1][i] == bs[i]
    ensures HasImage(bs[..i + 1]) == (HasImage(bs[..i]) || bs[i].Picture?)
    ensures Flushes(bs[..i + 1])
            == Flushes(bs[..i]) + if bs[i].Control? && HasImage(bs[..i]) then 1 else 0
  {
    assert bs[..i + 1][..i] == bs[..i];
  }
}
