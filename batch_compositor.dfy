/**
 * The batch GIFParser of index.js: it collects every composited frame in
 * `_frames` and hands the whole list over at end of stream. Restore to
 * previous works here, from the frame recorded in `_disposalRestoreFromIdx`.
 */
module BatchCompositor {
  import opened Raster
  import opened Gif
  import opened Compose

  /** The surface after the disposal step of `onImg` (index.js:61-81) for an
      image arriving when `frames` have been pushed. `anchor` is
      `_disposalRestoreFromIdx`: it starts undefined, and is never assigned
      null, so `!== null` holds of the undefined anchor and the lookup
      `_frames[undefined].data` throws; the clearRect fallback of
      index.js:69 cannot be reached. */
  function Dispose(surface: seq<byte>, w: nat, h: nat, frames: seq<Frame>, lastDisposal: Option<nat>,
                   anchor: Option<nat>, lastImg: Option<Rect>): Result<seq<byte>>
    requires |surface| == Bytes(w, h)
    requires |frames| > 0 ==> lastImg.Some?
    requires anchor.Some? ==> anchor.value < |frames|
  {
    if |frames| == 0 then Ok(surface)
    else if lastDisposal == Some(RestorePrevious) then
      if anchor.Some? then Ok(frames[anchor.value].data) else Err(NoRestoreAnchor)
    else if lastDisposal == Some(RestoreBackground) then Ok(Cleared(surface, w, h, lastImg.value))
    else Ok(surface)
  }

  /** `_disposalRestoreFromIdx` after `onImg`: every image after the first
      whose predecessor was not restore-to-previous re-anchors on the last
      pushed frame. */
  function NextAnchor(pushed: nat, lastDisposal: Option<nat>, anchor: Option<nat>): Option<nat>
  {
    if pushed > 0 && lastDisposal != Some(RestorePrevious) then Some(pushed - 1) else anchor
  }

  /** The disposal step, pixel by pixel: nothing happens before the first
      image; restore to background clears exactly the last image's
      rectangle to (0, 0, 0, 0); restore to previous yields the anchor
      frame's data, or fails without an anchor; every other method (0, 1 and
      the reserved 4-7) leaves the surface alone. */
  lemma DisposalEffect(surface: seq<byte>, w: nat, h: nat, frames: seq<Frame>, lastDisposal: Option<nat>,
                       anchor: Option<nat>, lastImg: Option<Rect>, x: nat, y: nat, c: nat)
    requires |surface| == Bytes(w, h)
    requires |frames| > 0 ==> lastImg.Some?
    requires anchor.Some? ==> anchor.value < |frames|
    requires x < w && y < h && c < 4
    ensures var r := Dispose(surface, w, h, frames, lastDisposal, anchor, lastImg);
            var k := Offset(w, x, y, c);
            k < |surface| &&
            (|frames| == 0 ==> r == Ok(surface)) &&
            (|frames| > 0 && lastDisposal == Some(RestorePrevious) ==>
               (r.Ok? <==> anchor.Some?) &&
               (anchor.Some? ==> r.value == frames[anchor.value].data) &&
               (anchor.None? ==> r.error == NoRestoreAnchor)) &&
            (|frames| > 0 && lastDisposal == Some(RestoreBackground) ==>
               r.Ok? && |r.value| == |surface| &&
               r.value[k] == if Contains(lastImg.value, x, y) then 0 else surface[k]) &&
            (|frames| > 0 && lastDisposal != Some(RestoreBackground) && lastDisposal != Some(RestorePrevious) ==>
               r == Ok(surface))
  {
    OffsetInRaster(w, h, x, y, c);
    if |frames| > 0 && lastDisposal == Some(RestoreBackground) {
      ClearedAt(surface, w, h, lastImg.value, x, y, c);
    }
  }

  class GifParser {
    var header: Option<Header>             // _header
    var canvas: array<byte>                // the canvas; empty until the header arrives
    var hasContext: bool                   // _frame: the 2d context, made by the first image
    var frames: seq<Frame>                 // _frames
    var disposalMethod: Option<nat>        // _disposalMethod
    var lastDisposalMethod: Option<nat>    // _lastDisposalMethod
    var transparency: Option<byte>         // _transparency (undefined and null are both None)
    var delay: Option<nat>                 // _delay
    var lastImg: Option<Rect>              // _lastImg (only its rectangle is read)
    var disposalRestoreFromIdx: Option<nat>
    var resolved: Option<seq<Frame>>       // the value handed to the parse promise's resolve

    ghost predicate Valid()
      reads this
    {
      (header.Some? ==> canvas.Length == Bytes(header.value.width, header.value.height)) &&
      (hasContext ==> header.Some? && lastImg.Some? &&
                      Within(lastImg.value, header.value.width, header.value.height)) &&
      (|frames| > 0 ==> hasContext) &&
      (forall i :: 0 <= i < |frames| ==> |frames[i].data| == canvas.Length) &&
      (disposalRestoreFromIdx.Some? ==> disposalRestoreFromIdx.value < |frames|)
    }

    /** `new GIFParser(url)`: no header, no canvas, no frames. */
    constructor ()
      ensures Valid()
      ensures header == None && !hasContext && frames == [] && resolved == None
      ensures disposalMethod == None && lastDisposalMethod == None && transparency == None && delay == None
      ensures lastImg == None && disposalRestoreFromIdx == None
    {
      header := None;
      canvas := new byte[0];
      hasContext := false;
      frames := [];
      disposalMethod, lastDisposalMethod := None, None;
      transparency, delay := None, None;
      lastImg, disposalRestoreFromIdx := None, None;
      resolved := None;
    }

    /** `onHeader`: store the header and create a blank width x height canvas. */
    method OnHeader(h: Header)
      requires Valid() && header.None?
      modifies this`header, this`canvas
      ensures Valid()
      ensures header == Some(h) && fresh(canvas) && canvas[..] == Blank(h.width, h.height)
    {
      header := Some(h);
      canvas := new byte[Bytes(h.width, h.height)](_ => 0);
    }

    /** `pushFrame`: nothing before the first image; otherwise append one
        frame holding a copy of the whole canvas and the current delay. */
    method PushFrame()
      requires Valid()
      modifies this`frames
      ensures Valid()
      ensures hasContext ==> frames == old(frames) + [Frame(canvas[..], delay)]
      ensures !hasContext ==> frames == old(frames)
    {
      if !hasContext {
        return;
      }
      var w, h := header.value.width, header.value.height;
      var data := GetImageData(canvas, w, h, Rect(0, 0, w, h));
      CropWhole(canvas[..], w, h);
      frames := frames + [Frame(data[..], delay)];
    }

    /** `onGCE`: flush the pending frame, then rotate the disposal method and
        take transparency, delay and disposal method from the new block. */
    method OnGce(g: Gce)
      requires Valid()
      modifies this`frames, this`lastDisposalMethod, this`transparency, this`delay, this`disposalMethod
      ensures Valid()
      ensures hasContext ==> frames == old(frames) + [Frame(canvas[..], old(delay))]
      ensures !hasContext ==> frames == old(frames)
      ensures lastDisposalMethod == old(disposalMethod)
      ensures transparency == if g.transparencyGiven then Some(g.transparencyIndex) else None
      ensures delay == Some(g.delayTime) && disposalMethod == Some(g.disposalMethod)
    {
      PushFrame();
      lastDisposalMethod := disposalMethod;
      transparency := if g.transparencyGiven then Some(g.transparencyIndex) else None;
      delay := Some(g.delayTime);
      disposalMethod := Some(g.disposalMethod);
    }

    /** `onImg`: apply the previous frame's disposal, then draw the image with
        its local colour table if it has one, else the global one. On an
        error (a TypeError in the source) the session is abandoned: the
        result says which, and Valid() is not promised. */
    method OnImg(img: Image) returns (res: Result<()>)
      requires Valid() && header.Some? && Fits(img, header.value.width, header.value.height)
      modifies this`hasContext, this`disposalRestoreFromIdx, this`lastImg, canvas
      ensures hasContext
      ensures disposalRestoreFromIdx == NextAnchor(|frames|, lastDisposalMethod, old(disposalRestoreFromIdx))
      ensures var w, h := header.value.width, header.value.height;
              var d := Dispose(old(canvas[..]), w, h, frames, lastDisposalMethod, old(disposalRestoreFromIdx), old(lastImg));
              (d.Err? ==> res == Err(d.error) && canvas[..] == old(canvas[..]) && lastImg == old(lastImg)) &&
              (d.Ok? ==>
                 var b := Blit(d.value, w, h, img, ActiveTable(img, header.value), transparency);
                 (b.Err? ==> res == Err(b.error) && canvas[..] == d.value && lastImg == old(lastImg)) &&
                 (b.Ok? ==> res.Ok? && canvas[..] == b.value && lastImg == Some(img.rect) && Valid()))
    {
      hasContext := true;
      var currIdx := |frames|;
      var ct := ActiveTable(img, header.value);
      var w, h := header.value.width, header.value.height;
      if currIdx > 0 {
        if lastDisposalMethod == Some(RestorePrevious) {
          if disposalRestoreFromIdx.None? {
            return Err(NoRestoreAnchor);
          }
          PutImageData(canvas, w, h, Rect(0, 0, w, h), frames[disposalRestoreFromIdx.value].data);
          PasteWhole(old(canvas[..]), w, h, frames[disposalRestoreFromIdx.value].data);
        } else {
          disposalRestoreFromIdx := Some(currIdx - 1);
        }
        if lastDisposalMethod == Some(RestoreBackground) {
          ClearRect(canvas, w, h, lastImg.value);
        }
      }
      res := DrawImage(canvas, w, h, img, ct, transparency);
      if res.Ok? {
        lastImg := Some(img.rect);
      }
    }

    /** `onEOF`: one final flush, then resolve with the frame list. */
    method OnEof()
      requires Valid()
      modifies this`frames, this`resolved
      ensures Valid()
      ensures hasContext ==> frames == old(frames) + [Frame(canvas[..], delay)]
      ensures !hasContext ==> frames == old(frames)
      ensures resolved == Some(frames)
    {
      PushFrame();
      resolved := Some(frames);
    }

    /** The handler object `parse` gives the decoder: a control block goes
        to onGCE, an image block to onImg, each with that callback's effect. */
    method OnBlock(b: Block) returns (res: Result<()>)
      requires Valid() && header.Some?
      requires b.Picture? ==> Fits(b.img, header.value.width, header.value.height)
      modifies this`frames, this`lastDisposalMethod, this`transparency, this`delay, this`disposalMethod
      modifies this`hasContext, this`disposalRestoreFromIdx, this`lastImg, canvas
      ensures b.Control? ==> res.Ok? && Valid() && hasContext == old(hasContext) && canvas[..] == old(canvas[..])
      ensures b.Control? ==> frames == old(frames) + if old(hasContext) then [Frame(canvas[..], old(delay))] else []
      ensures b.Control? ==> lastDisposalMethod == old(disposalMethod) && transparency == Transparency(b.gce)
      ensures b.Control? ==> delay == Some(b.gce.delayTime) && disposalMethod == Some(b.gce.disposalMethod)
      ensures b.Control? ==> lastImg == old(lastImg) && disposalRestoreFromIdx == old(disposalRestoreFromIdx)
      ensures b.Picture? ==> frames == old(frames) && hasContext && delay == old(delay) && transparency == old(transparency)
      ensures b.Picture? ==> lastDisposalMethod == old(lastDisposalMethod) && disposalMethod == old(disposalMethod)
      ensures b.Picture? ==> disposalRestoreFromIdx == NextAnchor(|frames|, lastDisposalMethod, old(disposalRestoreFromIdx))
      ensures b.Picture? ==>
                var w, h := header.value.width, header.value.height;
                var d := Dispose(old(canvas[..]), w, h, frames, lastDisposalMethod, old(disposalRestoreFromIdx), old(lastImg));
                (d.Err? ==> res == Err(d.error) && canvas[..] == old(canvas[..]) && lastImg == old(lastImg)) &&
                (d.Ok? ==>
                   var bl := Blit(d.value, w, h, b.img, ActiveTable(b.img, header.value), transparency);
                   (bl.Err? ==> res == Err(bl.error) && canvas[..] == d.value && lastImg == old(lastImg)) &&
                   (bl.Ok? ==> res.Ok? && canvas[..] == bl.value && lastImg == Some(b.img.rect) && Valid()))
      ensures b.Picture? && Drawable(b.img, header.value) && lastDisposalMethod != Some(RestorePrevious) ==> res.Ok? && Valid()
    {
      match b {
        case Control(g) =>
          OnGce(g);
          res := Ok(());
        case Picture(img) =>
          if Drawable(img, header.value) {
            InTableResolvable(img.pixels, ActiveTable(img, header.value).value, transparency);
          }
          res := OnImg(img);
      }
    }
  }

  /** No control block asks for restore to previous. */
  predicate NoRestorePrevious(body: seq<Block>)
  {
    forall i :: 0 <= i < |body| && body[i].Control? ==> body[i].gce.disposalMethod != RestorePrevious
  }

  /** `parse`, with the decoder's callbacks made explicit: the header, the
      blocks in stream order, then the trailer. The result is the list the
      promise resolves with, or the error that ended the decode. */
  method Parse(h: Header, body: seq<Block>) returns (r: Result<seq<Frame>>)
    requires forall i :: 0 <= i < |body| && body[i].Picture? ==> Fits(body[i].img, h.width, h.height)
    ensures r.Ok? ==> |r.value| == FrameCount(body)
    ensures r.Ok? ==> forall i :: 0 <= i < |r.value| ==> |r.value[i].data| == Bytes(h.width, h.height)
    ensures AllDrawable(body, h) && NoRestorePrevious(body) ==> r.Ok?
  {
    var p := new GifParser();
    p.OnHeader(h);
    var i := 0;
    while i < |body|
      invariant 0 <= i <= |body|
      invariant fresh(p) && fresh(p.canvas)
      invariant p.Valid() && p.header == Some(h)
      invariant |p.frames| == Flushes(body[..i]) && p.hasContext == HasImage(body[..i])
      invariant AllDrawable(body, h) && NoRestorePrevious(body) ==> p.disposalMethod != Some(RestorePrevious) && p.lastDisposalMethod != Some(RestorePrevious)
    {
      PrefixStep(body, i);
      var res := p.OnBlock(body[i]);
      if res.Err? {
        return Err(res.error);
      }
      i := i + 1;
    }
    assert body[..|body|] == body;
    p.OnEof();
    r := Ok(p.resolved.value);
  }

  /** When the first frame declares restore to previous there is no anchor,
      and the second image ends the decode instead of falling back to
      clearing the first image's rectangle. */
  method NoAnchorScenario(h: Header, g0: Gce, g1: Gce, i0: Image, i1: Image) returns (r: Result<seq<Frame>>)
    requires g0.disposalMethod == RestorePrevious
    requires Fits(i0, h.width, h.height) && Fits(i1, h.width, h.height)
    requires Resolvable(i0.pixels, ActiveTable(i0, h), Transparency(g0))
    ensures r == Err(NoRestoreAnchor)
  {
    var p := new GifParser();
    p.OnHeader(h);
    p.OnGce(g0);
    var res := p.OnImg(i0);
    assert res.Ok?;
    p.OnGce(g1);
    res := p.OnImg(i1);
    assert res == Err(NoRestoreAnchor);
    r := Err(res.error);
  }
}
