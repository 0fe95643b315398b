/**
 * Drawing one image block onto the canvas: the colour table choice, the
 * per-pixel loop over the image's indices, and the blit that copies the
 * image rectangle out of the canvas, colours it and puts it back. Both
 * parsers share this code unchanged (index.js:86-99, src/index.js:98-111).
 */
module Compose {
  import opened Raster
  import opened Gif

  /** `img.lctFlag ? img.lct : this._header.gct` (index.js:42). */
  function ActiveTable(img: Image, hdr: Header): Option<ColorTable>
  {
    if img.lct.Some? then img.lct else hdr.gct
  }

  /** `pixel !== this._transparency`: a pixel is drawn unless it equals the
      transparency index in force; with no index in force every pixel is. */
  predicate Drawn(p: byte, t: Option<byte>)
  {
    t != Some(p)
  }

  /** The colour lookup `ct[pixel][k]` of a drawn pixel succeeds. */
  predicate Resolves(p: byte, ct: Option<ColorTable>, t: Option<byte>)
  {
    Drawn(p, t) ==> ct.Some? && p < |ct.value|
  }

  predicate Resolvable(pixels: seq<byte>, ct: Option<ColorTable>, t: Option<byte>)
  {
    forall i :: 0 <= i < |pixels| ==> Resolves(pixels[i], ct, t)
  }

  /** Every index has an entry in the table, transparent or not. */
  predicate InTable(pixels: seq<byte>, ct: ColorTable)
  {
    forall i :: 0 <= i < |pixels| ==> pixels[i] < |ct|
  }

  lemma InTableResolvable(pixels: seq<byte>, ct: ColorTable, t: Option<byte>)
    requires InTable(pixels, ct)
    ensures Resolvable(pixels, Some(ct), t)
  {
  }

  /** The image can be drawn whatever the transparency index: a colour
      table is in force and it has an entry for every index. */
  predicate Drawable(img: Image, hdr: Header)
  {
    ActiveTable(img, hdr).Some? && InTable(img.pixels, ActiveTable(img, hdr).value)
  }

  /** Every image block of the stream can be drawn. */
  predicate AllDrawable(body: seq<Block>, hdr: Header)
  {
    forall i :: 0 <= i < |body| && body[i].Picture? ==> Drawable(body[i].img, hdr)
  }

  /** The error a failing lookup raises. */
  function LookupError(ct: Option<ColorTable>): Error
  {
    if ct.None? then MissingColorTable else IndexOutOfRange
  }

  /** Channel c of an opaque pixel of colour col. */
  function Channel(col: Color, c: nat): byte
  {
    if c == 0 then col.r else if c == 1 then col.g else if c == 2 then col.b else 255
  }

  /** Byte j of the image buffer after the loop has visited pixel j / 4. */
  function Paint(buf: seq<byte>, pixels: seq<byte>, ct: Option<ColorTable>, t: Option<byte>, j: nat): byte
    requires |buf| == 4 * |pixels| && j < |buf| && Resolves(pixels[j / 4], ct, t)
  {
    var p := pixels[j / 4];
    if Drawn(p, t) then Channel(ct.value[p], j % 4) else buf[j]
  }

  /** The image buffer after the whole loop. */
  function Colored(buf: seq<byte>, pixels: seq<byte>, ct: Option<ColorTable>, t: Option<byte>): (r: seq<byte>)
    requires |buf| == 4 * |pixels| && Resolvable(pixels, ct, t)
    ensures |r| == |buf|
  {
    seq(|buf|, j requires 0 <= j < |buf| => Paint(buf, pixels, ct, t, j))
  }

  /** The canvas after drawing img with colour table ct and transparency t:
      getImageData of the rectangle, the loop, putImageData back. */
  function Blit(s: seq<byte>, w: nat, h: nat, img: Image, ct: Option<ColorTable>, t: Option<byte>): Result<seq<byte>>
    requires |s| == Bytes(w, h) && Fits(img, w, h)
  {
    if Resolvable(img.pixels, ct, t) then
      Ok(Paste(s, w, h, img.rect, Colored(Crop(s, w, h, img.rect), img.pixels, ct, t)))
    else
      Err(LookupError(ct))
  }

  /** Which table draws the image: with a local table the global one plays
      no part, and without either table a single drawn pixel makes the blit
      fail with MissingColorTable. */
  lemma TableChoice(s: seq<byte>, w: nat, h: nat, img: Image, hdr: Header, other: Option<ColorTable>, t: Option<byte>, i: nat)
    requires |s| == Bytes(w, h) && Fits(img, w, h)
    ensures img.lct.Some? ==>
              Blit(s, w, h, img, ActiveTable(img, hdr), t) == Blit(s, w, h, img, ActiveTable(img, hdr.(gct := other)), t) &&
              Blit(s, w, h, img, ActiveTable(img, hdr), t) == Blit(s, w, h, img, img.lct, t)
    ensures img.lct.None? ==> Blit(s, w, h, img, ActiveTable(img, hdr), t) == Blit(s, w, h, img, hdr.gct, t)
    ensures img.lct.None? && hdr.gct.None? && i < |img.pixels| && Drawn(img.pixels[i], t) ==>
              Blit(s, w, h, img, ActiveTable(img, hdr), t) == Err(MissingColorTable)
  {
    if img.lct.None? && hdr.gct.None? && i < |img.pixels| && Drawn(img.pixels[i], t) {
      assert !Resolves(img.pixels[i], None, t);
    }
  }

  /** The blit rule at the pixels of the image: pixel i of the image lands
      at (left + i mod width, top + i div width); a drawn pixel gets its
      table colour with alpha 255, a transparent one leaves the canvas. */
  lemma BlitPixel(s: seq<byte>, w: nat, h: nat, img: Image, ct: Option<ColorTable>, t: Option<byte>, i: nat, c: nat)
    requires |s| == Bytes(w, h) && Fits(img, w, h) && Resolvable(img.pixels, ct, t)
    requires i < |img.pixels| && c < 4
    ensures img.rect.width > 0
    ensures var x := img.rect.left + i % img.rect.width;
            var y := img.rect.top + i / img.rect.width;
            var k := Offset(w, x, y, c);
            var p := img.pixels[i];
            var b := Blit(s, w, h, img, ct, t);
            x < w && y < h && k < |s| && b.Ok? && |b.value| == |s| &&
            b.value[k] == if Drawn(p, t) then Channel(ct.value[p], c) else s[k]
  {
    var r := img.rect;
    var xx, yy := i % r.width, i / r.width;
    DivModUnique(i, r.width, yy, xx);
    assert yy < r.height by {
      if yy >= r.height {
        MulMonotone(r.height, yy, r.width);
      }
    }
    var x, y := r.left + xx, r.top + yy;
    var crop := Crop(s, w, h, r);
    var col := Colored(crop, img.pixels, ct, t);
    CropAt(s, w, h, r, xx, yy, c);
    assert Offset(r.width, xx, yy, c) == 4 * i + c;
    ColoredAt(crop, img.pixels, ct, t, i, c);
    PasteAt(s, w, h, r, col, x, y, c);
    assert Blit(s, w, h, img, ct, t) == Ok(Paste(s, w, h, r, col));
  }

  /** Pixel i of the image buffer after the loop. */
  lemma ColoredAt(buf: seq<byte>, pixels: seq<byte>, ct: Option<ColorTable>, t: Option<byte>, i: nat, c: nat)
    requires |buf| == 4 * |pixels| && Resolvable(pixels, ct, t) && i < |pixels| && c < 4
    ensures 4 * i + c < |buf|
    ensures Colored(buf, pixels, ct, t)[4 * i + c]
            == if Drawn(pixels[i], t) then Channel(ct.value[pixels[i]], c) else buf[4 * i + c]
  {
    assert (4 * i + c) / 4 == i && (4 * i + c) % 4 == c;
  }

  /** Outside the image rectangle the canvas is unchanged. */
  lemma BlitOutside(s: seq<byte>, w: nat, h: nat, img: Image, ct: Option<ColorTable>, t: Option<byte>, x: nat, y: nat, c: nat)
    requires |s| == Bytes(w, h) && Fits(img, w, h) && Resolvable(img.pixels, ct, t)
    requires x < w && y < h && c < 4 && !Contains(img.rect, x, y)
    ensures Offset(w, x, y, c) < |s| && Blit(s, w, h, img, ct, t).Ok?
    ensures Blit(s, w, h, img, ct, t).value[Offset(w, x, y, c)] == s[Offset(w, x, y, c)]
  {
    var crop := Crop(s, w, h, img.rect);
    PasteAt(s, w, h, img.rect, Colored(crop, img.pixels, ct, t), x, y, c);
  }

  /** The blit fails exactly when some drawn pixel has no table entry. */
  lemma BlitFails(s: seq<byte>, w: nat, h: nat, img: Image, ct: Option<ColorTable>, t: Option<byte>)
    requires |s| == Bytes(w, h) && Fits(img, w, h)
    ensures Blit(s, w, h, img, ct, t).Err? <==>
            exists i :: 0 <= i < |img.pixels| && Drawn(img.pixels[i], t) &&
                        (ct.None? || img.pixels[i] >= |ct.value|)
    ensures Blit(s, w, h, img, ct, t).Err? ==> Blit(s, w, h, img, ct, t).error == LookupError(ct)
  {
  }

  /** An image whose every index is the transparency index changes nothing. */
  lemma BlitAllTransparent(s: seq<byte>, w: nat, h: nat, img: Image, ct: Option<ColorTable>, tIndex: byte)
    requires |s| == Bytes(w, h) && Fits(img, w, h)
    requires forall i :: 0 <= i < |img.pixels| ==> img.pixels[i] == tIndex
    ensures Blit(s, w, h, img, ct, Some(tIndex)) == Ok(s)
  {
    var crop := Crop(s, w, h, img.rect);
    var col := Colored(crop, img.pixels, ct, Some(tIndex));
    assert col == crop;
    PasteCrop(s, w, h, img.rect);
  }

  /** A whole-canvas image with no transparency paints every canvas pixel
      with its table colour, whatever the canvas held: a single opaque frame
      is the direct lookup of its indices through the table. */
  lemma BlitWholeCanvas(s: seq<byte>, w: nat, h: nat, img: Image, ct: ColorTable, x: nat, y: nat, c: nat)
    requires |s| == Bytes(w, h) && img.rect == Rect(0, 0, w, h) && |img.pixels| == w * h
    requires InTable(img.pixels, ct)
    requires x < w && y < h && c < 4
    ensures y * w + x < |img.pixels| && Offset(w, x, y, c) < |s|
    ensures Blit(s, w, h, img, Some(ct), None).Ok?
    ensures Blit(s, w, h, img, Some(ct), None).value[Offset(w, x, y, c)] == Channel(ct[img.pixels[y * w + x]], c)
  {
    var i := y * w + x;
    OffsetInRaster(w, h, x, y, 0);
    DivModUnique(i, w, y, x);
    BlitPixel(s, w, h, img, Some(ct), None, i, c);
  }

  /** The `img.pixels.forEach` loop over the image buffer `imgData.data`:
      drawn pixels get the table colour and alpha 255. A failing lookup
      throws in the source; here it is the error result, and the buffer it
      was writing is discarded by the caller. */
  method ApplyColorTable(data: array<byte>, pixels: seq<byte>, ct: Option<ColorTable>, t: Option<byte>)
    returns (res: Result<()>)
    requires data.Length == 4 * |pixels|
    modifies data
    ensures res.Ok? <==> Resolvable(pixels, ct, t)
    ensures res.Err? ==> res.error == LookupError(ct)
    ensures res.Ok? ==> data[..] == Colored(old(data[..]), pixels, ct, t)
  {
    ghost var before := data[..];
    var i := 0;
    while i < |pixels|
      invariant 0 <= i <= |pixels|
      invariant forall n :: 0 <= n < i ==> Resolves(pixels[n], ct, t)
      invariant forall j :: 0 <= j < 4 * i ==> data[j] == Paint(before, pixels, ct, t, j)
      invariant forall j :: 4 * i <= j < data.Length ==> data[j] == before[j]
    {
      var p := pixels[i];
      if Drawn(p, t) {
        if ct.None? || p >= |ct.value| {
          return Err(LookupError(ct));
        }
        var col := ct.value[p];
        data[4 * i] := col.r;
        data[4 * i + 1] := col.g;
        data[4 * i + 2] := col.b;
        data[4 * i + 3] := 255;
      }
      i := i + 1;
    }
    assert data[..] == Colored(before, pixels, ct, t);
    return Ok(());
  }

  /** Lines getImageData .. putImageData of `onImg`: draw img onto the canvas.
      On a failed lookup the canvas is as before (the buffer is dropped). */
  method DrawImage(canvas: array<byte>, w: nat, h: nat, img: Image, ct: Option<ColorTable>, t: Option<byte>)
    returns (res: Result<()>)
    requires canvas.Length == Bytes(w, h) && Fits(img, w, h)
    modifies canvas
    ensures var b := Blit(old(canvas[..]), w, h, img, ct, t);
            (b.Ok? ==> res.Ok? && canvas[..] == b.value) &&
            (b.Err? ==> res == Err(b.error) && canvas[..] == old(canvas[..]))
  {
    var imgData := GetImageData(canvas, w, h, img.rect);
    res := ApplyColorTable(imgData, img.pixels, ct, t);
    if res.Err? {
      return;
    }
    PutImageData(canvas, w, h, img.rect, imgData[..]);
  }
}
