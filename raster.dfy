/**
 * An RGBA raster as an HTML canvas holds it: a flat, row-major sequence of
 * bytes, four per pixel (red, green, blue, alpha), `w` pixels per row.
 * The canvas operations the compositor uses (clearRect, getImageData,
 * putImageData) are modelled here on such rasters.
 */
module Raster {

  /** One colour or alpha channel value. */
  type byte = x: int | 0 <= x < 256

  /** A pixel rectangle given by its left and top edge, width and height. */
  datatype Rect = Rect(left: nat, top: nat, width: nat, height: nat)

  /** Number of bytes of a w x h RGBA raster. */
  function Bytes(w: nat, h: nat): nat
  {
    4 * (w * h)
  }

  /** The rectangle lies inside a w x h canvas. */
  predicate Within(r: Rect, w: nat, h: nat)
  {
    r.left + r.width <= w && r.top + r.height <= h
  }

  /** Pixel (x, y) lies inside the rectangle. */
  predicate Contains(r: Rect, x: nat, y: nat)
  {
    r.left <= x < r.left + r.width && r.top <= y < r.top + r.height
  }

  /** Byte offset of channel c of pixel (x, y) in a raster w pixels wide. */
  function Offset(w: nat, x: nat, y: nat, c: nat): nat
  {
    4 * (y * w + x) + c
  }

  /** Column, row and channel of byte k of a raster w pixels wide. */
  function Col(w: nat, k: nat): nat
    requires w > 0
  {
    k / 4 % w
  }

  function Row(w: nat, k: nat): nat
    requires w > 0
  {
    k / 4 / w
  }

  function Chan(k: nat): nat
  {
    k % 4
  }

  lemma DivModUnique(n: int, d: int, q: int, r: int)
    requires 0 < d && 0 <= r < d && n == q * d + r
    ensures n / d == q && n % d == r
  {
    var q', r' := n / d, n % d;
    assert n == q' * d + r';
    assert (q' + 1) * d == q' * d + d && (q + 1) * d == q * d + d;
    if q' < q {
      MulMonotone(q' + 1, q, d);
    } else if q' > q {
      MulMonotone(q + 1, q', d);
    }
  }

  lemma MulMonotone(a: int, b: int, c: nat)
    requires a <= b
    ensures a * c <= b * c
  {
    assert b * c - a * c == (b - a) * c;
  }

  /** Pixel (x, y) of a w x h raster has its bytes inside the raster, and
      decomposing their offsets gives back (x, y) and the channel. */
  lemma OffsetInRaster(w: nat, h: nat, x: nat, y: nat, c: nat)
    requires x < w && y < h && c < 4
    ensures Offset(w, x, y, c) < Bytes(w, h)
    ensures Col(w, Offset(w, x, y, c)) == x && Row(w, Offset(w, x, y, c)) == y
    ensures Chan(Offset(w, x, y, c)) == c
  {
    var p := y * w + x;
    DivModUnique(Offset(w, x, y, c), 4, p, c);
    DivModUnique(p, w, y, x);
    MulMonotone(y + 1, h, w);
    assert (y + 1) * w == y * w + w;
    assert w * h == h * w;
  }

  /** Every byte of a w x h raster is channel Chan(k) of pixel (Col, Row). */
  lemma Decompose(w: nat, h: nat, k: nat)
    requires k < Bytes(w, h)
    ensures w > 0 && Col(w, k) < w && Row(w, k) < h && Chan(k) < 4
    ensures Offset(w, Col(w, k), Row(w, k), Chan(k)) == k
  {
    assert w * h > 0;
    var p := k / 4;
    assert p < w * h;
    var y := p / w;
    assert p == y * w + p % w;
    assert h * w == w * h;
    if y >= h {
      MulMonotone(h, y, w);
    }
  }

  /** A freshly created canvas: every pixel transparent black (0, 0, 0, 0). */
  function Blank(w: nat, h: nat): (s: seq<byte>)
    ensures |s| == Bytes(w, h)
  {
    seq(Bytes(w, h), _ => 0)
  }

  /** The raster after clearRect(r): the pixels of r become (0, 0, 0, 0). */
  function Cleared(s: seq<byte>, w: nat, h: nat, r: Rect): (t: seq<byte>)
    requires |s| == Bytes(w, h)
  {
    seq(|s|, k requires 0 <= k < |s| =>
      Decompose(w, h, k);
      if Contains(r, Col(w, k), Row(w, k)) then 0 else s[k])
  }

  /** What getImageData(r) returns: the bytes of rectangle r, row-major,
      r.width pixels per row. */
  function Crop(s: seq<byte>, w: nat, h: nat, r: Rect): (d: seq<byte>)
    requires |s| == Bytes(w, h) && Within(r, w, h)
    ensures |d| == Bytes(r.width, r.height)
  {
    seq(Bytes(r.width, r.height), j requires 0 <= j < Bytes(r.width, r.height) =>
      Decompose(r.width, r.height, j);
      OffsetInRaster(w, h, r.left + Col(r.width, j), r.top + Row(r.width, j), Chan(j));
      s[Offset(w, r.left + Col(r.width, j), r.top + Row(r.width, j), Chan(j))])
  }

  /** The raster after putImageData(d, r.left, r.top) of an image d that is
      r.width x r.height pixels. */
  function Paste(s: seq<byte>, w: nat, h: nat, r: Rect, d: seq<byte>): (t: seq<byte>)
    requires |s| == Bytes(w, h) && Within(r, w, h) && |d| == Bytes(r.width, r.height)
  {
    seq(|s|, k requires 0 <= k < |s| =>
      Decompose(w, h, k);
      if Contains(r, Col(w, k), Row(w, k)) then
        OffsetInRaster(r.width, r.height, Col(w, k) - r.left, Row(w, k) - r.top, Chan(k));
        d[Offset(r.width, Col(w, k) - r.left, Row(w, k) - r.top, Chan(k))]
      else
        s[k])
  }

  /** clearRect sets exactly the pixels of r to (0, 0, 0, 0). */
  lemma ClearedAt(s: seq<byte>, w: nat, h: nat, r: Rect, x: nat, y: nat, c: nat)
    requires |s| == Bytes(w, h) && x < w && y < h && c < 4
    ensures |Cleared(s, w, h, r)| == |s| && Offset(w, x, y, c) < |s|
    ensures Cleared(s, w, h, r)[Offset(w, x, y, c)]
            == if Contains(r, x, y) then 0 else s[Offset(w, x, y, c)]
  {
    OffsetInRaster(w, h, x, y, c);
  }

  /** getImageData(r) holds at (x, y) of the image the canvas pixel
      (r.left + x, r.top + y). */
  lemma CropAt(s: seq<byte>, w: nat, h: nat, r: Rect, x: nat, y: nat, c: nat)
    requires |s| == Bytes(w, h) && Within(r, w, h)
    requires x < r.width && y < r.height && c < 4
    ensures Offset(r.width, x, y, c) < Bytes(r.width, r.height)
    ensures Offset(w, r.left + x, r.top + y, c) < |s|
    ensures Crop(s, w, h, r)[Offset(r.width, x, y, c)] == s[Offset(w, r.left + x, r.top + y, c)]
  {
    OffsetInRaster(r.width, r.height, x, y, c);
    OffsetInRaster(w, h, r.left + x, r.top + y, c);
  }

  /** putImageData writes the image at the pixels of r and nowhere else. */
  lemma PasteAt(s: seq<byte>, w: nat, h: nat, r: Rect, d: seq<byte>, x: nat, y: nat, c: nat)
    requires |s| == Bytes(w, h) && Within(r, w, h) && |d| == Bytes(r.width, r.height)
    requires x < w && y < h && c < 4
    ensures |Paste(s, w, h, r, d)| == |s| && Offset(w, x, y, c) < |s|
    ensures Contains(r, x, y) ==>
              Offset(r.width, x - r.left, y - r.top, c) < |d| &&
              Paste(s, w, h, r, d)[Offset(w, x, y, c)] == d[Offset(r.width, x - r.left, y - r.top, c)]
    ensures !Contains(r, x, y) ==> Paste(s, w, h, r, d)[Offset(w, x, y, c)] == s[Offset(w, x, y, c)]
  {
    OffsetInRaster(w, h, x, y, c);
    if Contains(r, x, y) {
      OffsetInRaster(r.width, r.height, x - r.left, y - r.top, c);
    }
  }

  /** Putting back what getImageData(r) returned leaves the canvas as it was. */
  lemma PasteCrop(s: seq<byte>, w: nat, h: nat, r: Rect)
    requires |s| == Bytes(w, h) && Within(r, w, h)
    ensures Paste(s, w, h, r, Crop(s, w, h, r)) == s
  {
    var t := Paste(s, w, h, r, Crop(s, w, h, r));
    forall k | 0 <= k < |s|
      ensures t[k] == s[k]
    {
      Decompose(w, h, k);
      var x, y, c := Col(w, k), Row(w, k), Chan(k);
      PasteAt(s, w, h, r, Crop(s, w, h, r), x, y, c);
      if Contains(r, x, y) {
        CropAt(s, w, h, r, x - r.left, y - r.top, c);
      }
    }
  }

  /** Reading r back after putImageData(d) at r gives d. */
  lemma CropPaste(s: seq<byte>, w: nat, h: nat, r: Rect, d: seq<byte>)
    requires |s| == Bytes(w, h) && Within(r, w, h) && |d| == Bytes(r.width, r.height)
    ensures Crop(Paste(s, w, h, r, d), w, h, r) == d
  {
    var t := Paste(s, w, h, r, d);
    var e := Crop(t, w, h, r);
    forall j | 0 <= j < |d|
      ensures e[j] == d[j]
    {
      Decompose(r.width, r.height, j);
      var x, y, c := Col(r.width, j), Row(r.width, j), Chan(j);
      CropAt(t, w, h, r, x, y, c);
      PasteAt(s, w, h, r, d, r.left + x, r.top + y, c);
    }
  }

  /** getImageData over the whole canvas is a copy of it. */
  lemma CropWhole(s: seq<byte>, w: nat, h: nat)
    requires |s| == Bytes(w, h)
    ensures Crop(s, w, h, Rect(0, 0, w, h)) == s
  {
    var d := Crop(s, w, h, Rect(0, 0, w, h));
    forall k | 0 <= k < |s|
      ensures d[k] == s[k]
    {
      Decompose(w, h, k);
      CropAt(s, w, h, Rect(0, 0, w, h), Col(w, k), Row(w, k), Chan(k));
    }
  }

  /** putImageData of a whole-canvas image at (0, 0) replaces every byte. */
  lemma PasteWhole(s: seq<byte>, w: nat, h: nat, d: seq<byte>)
    requires |s| == Bytes(w, h) && |d| == Bytes(w, h)
    ensures Paste(s, w, h, Rect(0, 0, w, h), d) == d
  {
    var t := Paste(s, w, h, Rect(0, 0, w, h), d);
    forall k | 0 <= k < |s|
      ensures t[k] == d[k]
    {
      Decompose(w, h, k);
      PasteAt(s, w, h, Rect(0, 0, w, h), d, Col(w, k), Row(w, k), Chan(k));
    }
  }

  /** context.clearRect(r.left, r.top, r.width, r.height). */
  method ClearRect(a: array<byte>, w: nat, h: nat, r: Rect)
    requires a.Length == Bytes(w, h)
    modifies a
    ensures a[..] == Cleared(old(a[..]), w, h, r)
  {
    var t := Cleared(a[..], w, h, r);
    forall k | 0 <= k < a.Length {
      a[k] := t[k];
    }
  }

  /** context.getImageData(r.left, r.top, r.width, r.height): a fresh copy. */
  method GetImageData(a: array<byte>, w: nat, h: nat, r: Rect) returns (d: array<byte>)
    requires a.Length == Bytes(w, h) && Within(r, w, h)
    ensures fresh(d) && d[..] == Crop(a[..], w, h, r)
  {
    var src := Crop(a[..], w, h, r);
    d := new byte[|src|](j requires 0 <= j < |src| => src[j]);
    assert d[..] == src;
  }

  /** context.putImageData(d, r.left, r.top) for an image of r's size. */
  method PutImageData(a: array<byte>, w: nat, h: nat, r: Rect, d: seq<byte>)
    requires a.Length == Bytes(w, h) && Within(r, w, h) && |d| == Bytes(r.width, r.height)
    modifies a
    ensures a[..] == Paste(old(a[..]), w, h, r, d)
  {
    var t := Paste(a[..], w, h, r, d);
    forall k | 0 <= k < a.Length {
      a[k] := t[k];
    }
  }
}
