/**
 * The event-emitting GIFParser of src/index.js: each composited frame is
 * emitted as a `frame` event tagged with the running counter `_currIdx`,
 * between one `header` event and one `eof` event. Emitted events are
 * modelled as the sequence `events` the emitter has sent so far.
 *
 * Restore to previous never restores here: the guard reads
 * `this._disposalRestore`, which nothing assigns, so it is always
 * undefined and the clearRect fallback runs; the assignment from the
 * likewise unassigned `this._lastFrame` has no effect on what is drawn.
 */
module StreamCompositor {
  import opened Raster
  import opened Gif
  import opened Compose
  import BatchCompositor

  /** What the emitter sends: `emit('header', header)`,
      `emit('frame', {data, delay}, index)` and `emit('eof')`. */
  datatype Event = HeaderEvent(header: Header) | FrameEvent(frame: Frame, index: nat) | EofEvent

  /** What has been emitted once the header is in: the header event, then
      n frame events, the one at position j tagged with index j - 1. */
  predicate Numbered(evs: seq<Event>, h: Header, n: nat)
  {
    |evs| == n + 1 && evs[0] == HeaderEvent(h) &&
    forall j :: 0 < j < |evs| ==> evs[j].FrameEvent? && evs[j].index == j - 1
  }

  /** The surface after the disposal step of `onImg` (src/index.js:73-93):
      nothing before the first frame has been emitted; restore to previous
      and restore to background both clear the last image's rectangle. */
  function Dispose(surface: seq<byte>, w: nat, h: nat, currIdx: nat, lastDisposal: Option<nat>,
                   lastImg: Option<Rect>): seq<byte>
    requires |surface| == Bytes(w, h)
    requires currIdx > 0 ==> lastImg.Some?
  {
    if currIdx == 0 then surface
    else if lastDisposal == Some(RestorePrevious) then Cleared(surface, w, h, lastImg.value)
    else if lastDisposal == Some(RestoreBackground) then Cleared(surface, w, h, lastImg.value)
    else surface
  }

  /** The disposal step, pixel by pixel: nothing happens before the first
      image; after it, methods 2 and 3 set exactly the last image's
      rectangle to (0, 0, 0, 0), and every other method changes nothing. */
  lemma DisposalEffect(surface: seq<byte>, w: nat, h: nat, currIdx: nat, lastDisposal: Option<nat>,
                       lastImg: Option<Rect>, x: nat, y: nat, c: nat)
    requires |surface| == Bytes(w, h)
    requires currIdx > 0 ==> lastImg.Some?
    requires x < w && y < h && c < 4
    ensures var r := Dispose(surface, w, h, currIdx, lastDisposal, lastImg);
            var k := Offset(w, x, y, c);
            k < |surface| && |r| == |surface| &&
            (currIdx == 0 ==> r == surface) &&
            (currIdx > 0 && (lastDisposal == Some(RestorePrevious) || lastDisposal == Some(RestoreBackground)) ==>
               r[k] == if Contains(lastImg.value, x, y) then 0 else surface[k]) &&
            (currIdx > 0 && lastDisposal != Some(RestorePrevious) && lastDisposal != Some(RestoreBackground) ==>
               r == surface)
  {
    OffsetInRaster(w, h, x, y, c);
    if currIdx > 0 && lastImg.Some? {
      ClearedAt(surface, w, h, lastImg.value, x, y, c);
    }
  }

  /** The two variants dispose alike except under restore to previous: for
      every other method the batch disposal step succeeds with this one's
      surface, and under restore to previous with an anchor the batch step
      yields the anchor frame where this one clears the last rectangle. */
  lemma DisposeAgreesWithBatch(surface: seq<byte>, w: nat, h: nat, frames: seq<Frame>, lastDisposal: Option<nat>,
                               anchor: Option<nat>, lastImg: Option<Rect>)
    requires |surface| == Bytes(w, h)
    requires |frames| > 0 ==> lastImg.Some?
    requires anchor.Some? ==> anchor.value < |frames|
    ensures var b := BatchCompositor.Dispose(surface, w, h, frames, lastDisposal, anchor, lastImg);
            var s := Dispose(surface, w, h, |frames|, lastDisposal, lastImg);
            (|frames| == 0 || lastDisposal != Some(RestorePrevious) ==> b == Ok(s)) &&
            (|frames| > 0 && lastDisposal == Some(RestorePrevious) && anchor.Some? ==>
               b == Ok(frames[anchor.value].data) && s == Cleared(surface, w, h, lastImg.value))
  {
  }

  class GifParser {
    var header: Option<Header>             // _header
    var canvas: array<byte>                // the canvas; empty until the header arrives
    var hasContext: bool                   // _frame: the 2d context, made by the first image
    var currIdx: nat                       // _currIdx
    var events: seq<Event>                 // everything emitted so far
    var disposalMethod: Option<nat>        // _disposalMethod
    var lastDisposalMethod: Option<nat>    // _lastDisposalMethod
    var transparency: Option<byte>         // _transparency (undefined and null are both None)
    var delay: Option<nat>                 // _delay
    var lastImg: Option<Rect>              // _lastImg (only its rectangle is read)

    /** Beside the shape of the state, nothing is emitted before the header,
        and after it the frame events carry exactly 0, 1, ..., currIdx - 1. */
    ghost predicate Valid()
      reads this
    {
      (header.Some? ==> canvas.Length == Bytes(header.value.width, header.value.height)) &&
      (hasContext ==> header.Some? && lastImg.Some? &&
                      Within(lastImg.value, header.value.width, header.value.height)) &&
      (currIdx > 0 ==> hasContext) &&
      (header.None? ==> events == [] && currIdx == 0) &&
      (header.Some? ==> Numbered(events, header.value, currIdx))
    }

    /** `new GIFParser(url)`: `_currIdx = 0`, nothing emitted. */
    constructor ()
      ensures Valid()
      ensures header == None && !hasContext && currIdx == 0 && events == []
      ensures disposalMethod == None && lastDisposalMethod == None && transparency == None && delay == None
      ensures lastImg == None
    {
      header := None;
      canvas := new byte[0];
      hasContext := false;
      currIdx := 0;
      events := [];
      disposalMethod, lastDisposalMethod := None, None;
      transparency, delay := None, None;
      lastImg := None;
    }

    /** `onHeader`: store the header, create a blank width x height canvas and
        emit `header`. */
    method OnHeader(h: Header)
      requires Valid() && header.None?
      modifies this`header, this`canvas, this`events
      ensures Valid()
      ensures header == Some(h) && fresh(canvas) && canvas[..] == Blank(h.width, h.height)
      ensures events == old(events) + [HeaderEvent(h)]
    {
      header := Some(h);
      canvas := new byte[Bytes(h.width, h.height)](_ => 0);
      events := events + [HeaderEvent(h)];
    }

    /** `pushFrame`: nothing before the first image; otherwise emit one frame
        holding a copy of the whole canvas and the current delay, tagged with
        `_currIdx`, and count it. */
    method PushFrame()
      requires Valid()
      modifies this`events, this`currIdx
      ensures Valid()
      ensures hasContext ==> events == old(events) + [FrameEvent(Frame(canvas[..], delay), old(currIdx))] && currIdx == old(currIdx) + 1
      ensures !hasContext ==> events == old(events) && currIdx == old(currIdx)
    {
      if !hasContext {
        return;
      }
      var w, h := header.value.width, header.value.height;
      var data := GetImageData(canvas, w, h, Rect(0, 0, w, h));
      CropWhole(canvas[..], w, h);
      var e := FrameEvent(Frame(data[..], delay), currIdx);
      events := events + [e];
      currIdx := currIdx + 1;
    }

    /** `onGCE`: flush the pending frame, then rotate the disposal method and
        take transparency, delay and disposal method from the new block. */
    method OnGce(g: Gce)
      requires Valid()
      modifies this`events, this`currIdx, this`lastDisposalMethod, this`transparency, this`delay, this`disposalMethod
      ensures Valid()
      ensures hasContext ==> events == old(events) + [FrameEvent(Frame(canvas[..], old(delay)), old(currIdx))] && currIdx == old(currIdx) + 1
      ensures !hasContext ==> events == old(events) && currIdx == old(currIdx)
      ensures lastDisposalMethod == old(disposalMethod)
      ensures transparency == if g.transparencyGiven then Some(g.transparencyIndex) else None
      ensures delay == Some(g.delayTime) && disposalMethod == Some(g.disposalMethod)
    {
      PushFrame();
      lastDisposalMethod := disposalMethod;
      transparency := if g.transparencyGiven then Some(g.transparencyIndex) else None;
      delay := Some(g.delayTime);
      disposalMethod := Some(g.disposalMethod);
    }

    /** `onImg`: apply the previous frame's disposal, then draw the image with
        its local colour table if it has one, else the global one. A failed
        colour lookup (a TypeError in the source) abandons the session. */
    method OnImg(img: Image) returns (res: Result<()>)
      requires Valid() && header.Some? && Fits(img, header.value.width, header.value.height)
      modifies this`hasContext, this`lastImg, canvas
      ensures hasContext
      ensures var w, h := header.value.width, header.value.height;
              var d := Dispose(old(canvas[..]), w, h, currIdx, lastDisposalMethod, old(lastImg));
              var b := Blit(d, w, h, img, ActiveTable(img, header.value), transparency);
              (b.Err? ==> res == Err(b.error) && canvas[..] == d && lastImg == old(lastImg)) &&
              (b.Ok? ==> res.Ok? && canvas[..] == b.value && lastImg == Some(img.rect) && Valid())
    {
      hasContext := true;
      var ct := ActiveTable(img, header.value);
      var w, h := header.value.width, header.value.height;
      if currIdx > 0 {
        if lastDisposalMethod == Some(RestorePrevious) {
          ClearRect(canvas, w, h, lastImg.value);
        }
        if lastDisposalMethod == Some(RestoreBackground) {
          ClearRect(canvas, w, h, lastImg.value);
        }
      }
      res := DrawImage(canvas, w, h, img, ct, transparency);
      if res.Ok? {
        lastImg := Some(img.rect);
      }
    }

    /** `onEOF`: one final flush, then emit `eof`. */
    method OnEof()
      requires Valid()
      modifies this`events, this`currIdx
      ensures hasContext ==> events == old(events) + [FrameEvent(Frame(canvas[..], delay), old(currIdx)), EofEvent] && currIdx == old(currIdx) + 1
      ensures !hasContext ==> events == old(events) + [EofEvent] && currIdx == old(currIdx)
    {
      PushFrame();
      events := events + [EofEvent];
    }

    /** The handler object `parse` gives the decoder: a control block goes
        to onGCE, an image block to onImg, each with that callback's effect. */
    method OnBlock(b: Block) returns (res: Result<()>)
      requires Valid() && header.Some?
      requires b.Picture? ==> Fits(b.img, header.value.width, header.value.height)
      modifies this`events, this`currIdx, this`lastDisposalMethod, this`transparency, this`delay, this`disposalMethod
      modifies this`hasContext, this`lastImg, canvas
      ensures b.Control? ==> res.Ok? && Valid() && hasContext == old(hasContext) && canvas[..] == old(canvas[..])
      ensures b.Control? ==> currIdx == old(currIdx) + (if old(hasContext) then 1 else 0) && lastImg == old(lastImg)
      ensures b.Control? ==> events == old(events) + if old(hasContext) then [FrameEvent(Frame(canvas[..], old(delay)), old(currIdx))] else []
      ensures b.Control? ==> lastDisposalMethod == old(disposalMethod) && transparency == Transparency(b.gce)
      ensures b.Control? ==> delay == Some(b.gce.delayTime) && disposalMethod == Some(b.gce.disposalMethod)
      ensures b.Picture? ==> events == old(events) && currIdx == old(currIdx) && hasContext
      ensures b.Picture? ==> delay == old(delay) && transparency == old(transparency)
      ensures b.Picture? ==> lastDisposalMethod == old(lastDisposalMethod) && disposalMethod == old(disposalMethod)
      ensures b.Picture? ==>
                var w, h := header.value.width, header.value.height;
                var d := Dispose(old(canvas[..]), w, h, currIdx, lastDisposalMethod, old(lastImg));
                var bl := Blit(d, w, h, b.img, ActiveTable(b.img, header.value), transparency);
                (bl.Err? ==> res == Err(bl.error) && canvas[..] == d && lastImg == old(lastImg)) &&
                (bl.Ok? ==> res.Ok? && canvas[..] == bl.value && lastImg == Some(b.img.rect) && Valid())
      ensures b.Picture? && Drawable(b.img, header.value) ==> res.Ok? && Valid()
    {
      match b {
        case Control(g) =>
          OnGce(g);
          res := Ok(());
        case Picture(img) =>
          if Drawable(img, header.value) {
            InTableResolvable(img.pixels, ActiveTable(img, header.value).value, transparency);
          }
          res := OnImg(img);
      }
    }
  }

  /** `parse`, with the decoder's callbacks made explicit: the header, the
      blocks in stream order, then the trailer. The result is everything
      emitted, and the error that ended the decode if one did. */
  method Parse(h: Header, body: seq<Block>) returns (events: seq<Event>, failure: Option<Error>)
    requires forall i :: 0 <= i < |body| && body[i].Picture? ==> Fits(body[i].img, h.width, h.height)
    ensures |events| > 0 && events[0] == HeaderEvent(h)
    ensures forall j :: 0 < j < |events| - 1 ==> events[j].FrameEvent? && events[j].index == j - 1
    ensures failure.None? ==> events[|events| - 1] == EofEvent && |events| == FrameCount(body) + 2
    ensures failure.Some? ==> Numbered(events, h, |events| - 1)
    ensures AllDrawable(body, h) ==> failure.None?
  {
    var p := new GifParser();
    p.OnHeader(h);
    var i := 0;
    while i < |body|
      invariant 0 <= i <= |body|
      invariant fresh(p) && fresh(p.canvas)
      invariant p.Valid() && p.header == Some(h)
      invariant p.currIdx == Flushes(body[..i]) && p.hasContext == HasImage(body[..i])
    {
      PrefixStep(body, i);
      var res := p.OnBlock(body[i]);
      if res.Err? {
        return p.events, Some(res.error);
      }
      i := i + 1;
    }
    assert body[..|body|] == body;
    p.OnEof();
    events, failure := p.events, None;
  }
}
