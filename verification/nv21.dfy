/** `yuv2rgb.cpp`: packing the three planes of an Android YUV_420_888 image
    into one NV21 array, a `width` x `height` luma plane followed by the
    half-resolution chroma interleaved V first, then U.

    The buffers are byte sequences; the JNI layer's direct-buffer lookups,
    which yield NULL for a buffer that is not direct, become `Option`s. */
module Nv21 {
  import opened Wrappers
  import opened Text
  import opened Arith

  /** The strides the camera reports for an image. The luma pixel stride
      is passed along but never read: luma rows are copied whole. */
  datatype Layout = Layout(width: nat, height: nat, yPixelStride: nat, uvPixelStride: nat,
                           yRowStride: nat, uvRowStride: nat)

  /** The size of the planes the packing writes. */
  function PackedSize(l: Layout): nat {
    Mul(l.height, l.width) + 2 * Mul(l.height / 2, l.width / 2)
  }

  /** The packed planes never take more than the `width * height * 3 / 2`
      bytes an NV21 frame is given, and take exactly that when both sides
      are even. */
  lemma PackedSizeIsFrameSize(l: Layout)
    ensures PackedSize(l) <= l.width * l.height * 3 / 2
    ensures l.width % 2 == 0 && l.height % 2 == 0 ==> PackedSize(l) == l.width * l.height * 3 / 2
  {
    var h, w := l.height, l.width;
    MulIsProduct(h, w);
    MulIsProduct(h / 2, w / 2);
    var frame := w * h;
    var quarter := (h / 2) * (w / 2);
    QuarterProduct(h, w);
    assert PackedSize(l) == frame + 2 * quarter;
    assert frame * 3 / 2 >= frame + 2 * quarter;
  }

  /** Halving both sides at least quarters the product, exactly when both
      are even. */
  lemma QuarterProduct(h: nat, w: nat)
    ensures 4 * ((h / 2) * (w / 2)) <= w * h
    ensures h % 2 == 0 && w % 2 == 0 ==> 4 * ((h / 2) * (w / 2)) == w * h
  {
    var a, b := h / 2, w / 2;
    assert 4 * (a * b) == (2 * a) * (2 * b);
    assert (2 * a) * (2 * b) <= h * (2 * b);
    assert h * (2 * b) <= h * w;
    assert h * w == w * h;
  }

  /* ---------- the reference layout ---------- */

  /** The last luma row of `rows` lies inside the luma buffer. */
  predicate LumaFits(yb: seq<byte>, w: nat, rows: nat, yRow: nat) {
    rows == 0 || Mul(rows - 1, yRow) + w <= |yb|
  }

  lemma LumaFitsFewer(yb: seq<byte>, w: nat, rows: nat, fewer: nat, yRow: nat)
    requires LumaFits(yb, w, rows, yRow) && fewer <= rows
    ensures LumaFits(yb, w, fewer, yRow)
  {
    if fewer > 0 {
      MulMono(fewer - 1, rows - 1, yRow);
    }
  }

  /** The first `rows` luma rows, each `w` bytes from its row offset. */
  function LumaPlane(yb: seq<byte>, w: nat, rows: nat, yRow: nat): (r: seq<byte>)
    requires LumaFits(yb, w, rows, yRow)
    ensures |r| == Mul(rows, w)
    decreases rows
  {
    if rows == 0 then []
    else
      LumaFitsFewer(yb, w, rows, rows - 1, yRow);
      LumaPlane(yb, w, rows - 1, yRow) + yb[Mul(rows - 1, yRow) .. Mul(rows - 1, yRow) + w]
  }

  /** Sample `n - 1` of a chroma row starting at `off` lies in both planes. */
  predicate RowFits(u: seq<byte>, v: seq<byte>, off: nat, uvPix: nat, n: nat) {
    n == 0 || (off + Mul(n - 1, uvPix) < |u| && off + Mul(n - 1, uvPix) < |v|)
  }

  lemma RowFitsFewer(u: seq<byte>, v: seq<byte>, off: nat, uvPix: nat, n: nat, fewer: nat)
    requires RowFits(u, v, off, uvPix, n) && fewer <= n
    ensures RowFits(u, v, off, uvPix, fewer)
  {
    if fewer > 0 {
      MulMono(fewer - 1, n - 1, uvPix);
    }
  }

  /** The first `n` V/U pairs of a chroma row starting at `off`. */
  function ChromaRow(u: seq<byte>, v: seq<byte>, off: nat, uvPix: nat, n: nat): (r: seq<byte>)
    requires RowFits(u, v, off, uvPix, n)
    ensures |r| == 2 * n
    decreases n
  {
    if n == 0 then []
    else
      RowFitsFewer(u, v, off, uvPix, n, n - 1);
      ChromaRow(u, v, off, uvPix, n - 1) + [v[off + Mul(n - 1, uvPix)], u[off + Mul(n - 1, uvPix)]]
  }

  /** The last sample of the last chroma row lies in both planes. */
  predicate ChromaFits(u: seq<byte>, v: seq<byte>, uw: nat, rows: nat, uvRow: nat, uvPix: nat) {
    rows == 0 || RowFits(u, v, Mul(rows - 1, uvRow), uvPix, uw)
  }

  lemma ChromaFitsFewer(u: seq<byte>, v: seq<byte>, uw: nat, rows: nat, fewer: nat, uvRow: nat, uvPix: nat)
    requires ChromaFits(u, v, uw, rows, uvRow, uvPix) && fewer <= rows
    ensures ChromaFits(u, v, uw, fewer, uvRow, uvPix)
  {
    if fewer > 0 {
      MulMono(fewer - 1, rows - 1, uvRow);
    }
  }

  /** Every row of a fitting chroma plane fits, and so does each prefix of it. */
  lemma ChromaRowFits(u: seq<byte>, v: seq<byte>, uw: nat, rows: nat, r: nat, uvRow: nat, uvPix: nat, n: nat)
    requires ChromaFits(u, v, uw, rows, uvRow, uvPix) && r < rows && n <= uw
    ensures RowFits(u, v, Mul(r, uvRow), uvPix, n)
  {
    MulMono(r, rows - 1, uvRow);
    if n > 0 {
      MulMono(n - 1, uw - 1, uvPix);
    }
  }

  /** The first `rows` chroma rows, `uw` pairs each. */
  function ChromaPlane(u: seq<byte>, v: seq<byte>, uw: nat, rows: nat, uvRow: nat, uvPix: nat): (r: seq<byte>)
    requires ChromaFits(u, v, uw, rows, uvRow, uvPix)
    ensures |r| == 2 * Mul(rows, uw)
    decreases rows
  {
    if rows == 0 then []
    else
      ChromaFitsFewer(u, v, uw, rows, rows - 1, uvRow, uvPix);
      ChromaRowFits(u, v, uw, rows, rows - 1, uvRow, uvPix, uw);
      ChromaPlane(u, v, uw, rows - 1, uvRow, uvPix) + ChromaRow(u, v, Mul(rows - 1, uvRow), uvPix, uw)
  }

  /** What the C code needs of its buffers to stay in bounds. */
  predicate Fits(l: Layout, yb: seq<byte>, u: seq<byte>, v: seq<byte>, nv21: seq<byte>) {
    && LumaFits(yb, l.width, l.height, l.yRowStride)
    && ChromaFits(u, v, l.width / 2, l.height / 2, l.uvRowStride, l.uvPixelStride)
    && PackedSize(l) <= |nv21|
  }

  /** The reference: the packed planes, then whatever the array held. */
  function Packed(l: Layout, yb: seq<byte>, u: seq<byte>, v: seq<byte>, nv21: seq<byte>): (r: seq<byte>)
    requires Fits(l, yb, u, v, nv21)
    ensures |r| == |nv21|
  {
    var planes := LumaPlane(yb, l.width, l.height, l.yRowStride)
      + ChromaPlane(u, v, l.width / 2, l.height / 2, l.uvRowStride, l.uvPixelStride);
    planes + nv21[|planes|..]
  }

  /* ---------- the loops ---------- */

  /** Overwriting `|row|` bytes at `d` extends the written prefix by `row`
      and leaves the rest as it was. */
  lemma Splice(out: seq<byte>, d: nat, row: seq<byte>, prefix: seq<byte>, orig: seq<byte>)
    requires |out| == |orig| && d + |row| <= |out|
    requires out[..d] == prefix && out[d..] == orig[d..]
    ensures |out[..d] + row + out[d + |row|..]| == |orig|
    ensures (out[..d] + row + out[d + |row|..])[..d + |row|] == prefix + row
    ensures (out[..d] + row + out[d + |row|..])[d + |row|..] == orig[d + |row|..]
  {
  }

  /** The two stores of one V/U pair at `i`. */
  lemma PairStore(out: seq<byte>, base: nat, i: nat, a: byte, b: byte, written: seq<byte>, orig: seq<byte>)
    requires |out| == |orig| && base <= i && i + 2 <= |out|
    requires out[base..i] == written && out[i..] == orig[i..]
    ensures |out[i := a][i + 1 := b]| == |orig|
    ensures out[i := a][i + 1 := b][..base] == out[..base]
    ensures out[i := a][i + 1 := b][base..i + 2] == written + [a, b]
    ensures out[i := a][i + 1 := b][i + 2..] == orig[i + 2..]
  {
    assert out[i := a][i + 1 := b][base..i + 2] == out[base..i] + [a, b];
  }

  /** One more luma row: it fits, the prefix grows by exactly that row,
      and the written size stays within the plane. */
  lemma LumaRowStep(yb: seq<byte>, w: nat, h: nat, y: nat, yRow: nat)
    requires LumaFits(yb, w, h, yRow) && y < h
    ensures LumaFits(yb, w, y, yRow) && LumaFits(yb, w, y + 1, yRow)
    ensures Mul(y, yRow) + w <= |yb|
    ensures LumaPlane(yb, w, y + 1, yRow) == LumaPlane(yb, w, y, yRow) + yb[Mul(y, yRow) .. Mul(y, yRow) + w]
    ensures Mul(y + 1, w) == Mul(y, w) + w <= Mul(h, w)
  {
    LumaFitsFewer(yb, w, h, y + 1, yRow);
    LumaFitsFewer(yb, w, h, y, yRow);
    MulMono(y + 1, h, w);
  }

  /** The first loop: a `memcpy` of `width` bytes for each luma row. */
  method CopyLuma(l: Layout, yb: seq<byte>, nv21: seq<byte>) returns (out: seq<byte>)
    requires LumaFits(yb, l.width, l.height, l.yRowStride) && Mul(l.height, l.width) <= |nv21|
    ensures |out| == |nv21|
    ensures out[..Mul(l.height, l.width)] == LumaPlane(yb, l.width, l.height, l.yRowStride)
    ensures out[Mul(l.height, l.width)..] == nv21[Mul(l.height, l.width)..]
  {
    var w, h := l.width, l.height;
    out := nv21;
    var y, destOffset := 0, 0;
    while y < h
      invariant 0 <= y <= h
      invariant |out| == |nv21|
      invariant destOffset == Mul(y, w) <= Mul(h, w)
      invariant LumaFits(yb, w, y, l.yRowStride)
      invariant out[..destOffset] == LumaPlane(yb, w, y, l.yRowStride)
      invariant out[destOffset..] == nv21[destOffset..]
    {
      LumaRowStep(yb, w, h, y, l.yRowStride);
      var yOffset := Mul(y, l.yRowStride);
      var row := yb[yOffset .. yOffset + w];
      Splice(out, destOffset, row, LumaPlane(yb, w, y, l.yRowStride), nv21);
      out := out[..destOffset] + row + out[destOffset + w..];
      destOffset := destOffset + w;
      y := y + 1;
    }
  }

  /** One more V/U pair: it fits, and the row grows by exactly that pair. */
  lemma PairStep(u: seq<byte>, v: seq<byte>, off: nat, uvPix: nat, n: nat, x: nat)
    requires RowFits(u, v, off, uvPix, n) && x < n
    ensures RowFits(u, v, off, uvPix, x + 1)
    ensures off + Mul(x, uvPix) < |u| && off + Mul(x, uvPix) < |v|
    ensures ChromaRow(u, v, off, uvPix, x + 1)
         == ChromaRow(u, v, off, uvPix, x) + [v[off + Mul(x, uvPix)], u[off + Mul(x, uvPix)]]
  {
    RowFitsFewer(u, v, off, uvPix, n, x + 1);
  }

  /** The inner chroma loop: the `uw` V/U pairs of one row, from `idUV`. */
  method CopyChromaRow(u: seq<byte>, v: seq<byte>, uvOffset: nat, uvPix: nat, uw: nat,
                       out0: seq<byte>, base: nat, id0: nat, written: seq<byte>)
    returns (out: seq<byte>, idUV: nat)
    requires RowFits(u, v, uvOffset, uvPix, uw) && base <= id0 && id0 + 2 * uw <= |out0|
    requires out0[base..id0] == written
    ensures |out| == |out0| && idUV == id0 + 2 * uw
    ensures out[..base] == out0[..base]
    ensures out[base..idUV] == written + ChromaRow(u, v, uvOffset, uvPix, uw)
    ensures out[idUV..] == out0[idUV..]
  {
    out, idUV := out0, id0;
    var x := 0;
    while x < uw
      invariant 0 <= x <= uw
      invariant |out| == |out0|
      invariant idUV == id0 + 2 * x
      invariant RowFits(u, v, uvOffset, uvPix, x)
      invariant out[..base] == out0[..base]
      invariant out[base..idUV] == written + ChromaRow(u, v, uvOffset, uvPix, x)
      invariant out[idUV..] == out0[idUV..]
    {
      PairStep(u, v, uvOffset, uvPix, uw, x);
      var bufferIndex := uvOffset + Mul(x, uvPix);
      PairStore(out, base, idUV, v[bufferIndex], u[bufferIndex], written + ChromaRow(u, v, uvOffset, uvPix, x), out0);
      assert written + ChromaRow(u, v, uvOffset, uvPix, x + 1)
          == (written + ChromaRow(u, v, uvOffset, uvPix, x)) + [v[bufferIndex], u[bufferIndex]];
      out := out[idUV := v[bufferIndex]];
      idUV := idUV + 1;
      out := out[idUV := u[bufferIndex]];
      idUV := idUV + 1;
      x := x + 1;
    }
  }

  /** One more chroma row: it fits, the prefix grows by exactly that row,
      and the written size stays within the planes. */
  lemma ChromaRowStep(u: seq<byte>, v: seq<byte>, uw: nat, uh: nat, y: nat, uvRow: nat, uvPix: nat)
    requires ChromaFits(u, v, uw, uh, uvRow, uvPix) && y < uh
    ensures ChromaFits(u, v, uw, y, uvRow, uvPix) && ChromaFits(u, v, uw, y + 1, uvRow, uvPix)
    ensures RowFits(u, v, Mul(y, uvRow), uvPix, uw)
    ensures ChromaPlane(u, v, uw, y + 1, uvRow, uvPix)
         == ChromaPlane(u, v, uw, y, uvRow, uvPix) + ChromaRow(u, v, Mul(y, uvRow), uvPix, uw)
    ensures Mul(y + 1, uw) == Mul(y, uw) + uw <= Mul(uh, uw)
  {
    ChromaFitsFewer(u, v, uw, uh, y + 1, uvRow, uvPix);
    ChromaFitsFewer(u, v, uw, uh, y, uvRow, uvPix);
    ChromaRowFits(u, v, uw, uh, y, uvRow, uvPix, uw);
    MulMono(y + 1, uh, uw);
  }

  /** `yuv420toNv21`: the luma rows, then one pass over the chroma samples
      writing V and U alternately from offset `width * height`. */
  method Yuv420ToNv21(l: Layout, yb: seq<byte>, u: seq<byte>, v: seq<byte>, nv21: seq<byte>)
    returns (out: seq<byte>)
    requires Fits(l, yb, u, v, nv21)
    ensures out == Packed(l, yb, u, v, nv21)
  {
    out := CopyLuma(l, yb, nv21);
    var idUV := Mul(l.height, l.width);
    var uw, uh := l.width / 2, l.height / 2;
    out, idUV := CopyChroma(u, v, uw, uh, l.uvRowStride, l.uvPixelStride, out, idUV);
    assert out == out[..Mul(l.height, l.width)] + out[Mul(l.height, l.width)..idUV] + out[idUV..];
  }

  /** The outer chroma loop, over the `uh` rows, writing from `base`. */
  method CopyChroma(u: seq<byte>, v: seq<byte>, uw: nat, uh: nat, uvRow: nat, uvPix: nat,
                    out0: seq<byte>, base: nat)
    returns (out: seq<byte>, idUV: nat)
    requires ChromaFits(u, v, uw, uh, uvRow, uvPix) && base + 2 * Mul(uh, uw) <= |out0|
    ensures |out| == |out0| && idUV == base + 2 * Mul(uh, uw)
    ensures out[..base] == out0[..base]
    ensures out[base..idUV] == ChromaPlane(u, v, uw, uh, uvRow, uvPix)
    ensures out[idUV..] == out0[idUV..]
  {
    out, idUV := out0, base;
    var y := 0;
    while y < uh
      invariant 0 <= y <= uh
      invariant |out| == |out0|
      invariant idUV == base + 2 * Mul(y, uw) && Mul(y, uw) <= Mul(uh, uw)
      invariant ChromaFits(u, v, uw, y, uvRow, uvPix)
      invariant out[..base] == out0[..base]
      invariant out[base..idUV] == ChromaPlane(u, v, uw, y, uvRow, uvPix)
      invariant out[idUV..] == out0[idUV..]
    {
      ChromaRowStep(u, v, uw, uh, y, uvRow, uvPix);
      var uvOffset := Mul(y, uvRow);
      out, idUV := CopyChromaRow(u, v, uvOffset, uvPix, uw, out, base, idUV,
                                 ChromaPlane(u, v, uw, y, uvRow, uvPix));
      y := y + 1;
    }
  }

  /* ---------- where each byte lands ---------- */

  /** Luma pixel `(c, r)` is row `r`'s byte `c`. */
  lemma {:induction false} LumaPlaneAt(yb: seq<byte>, w: nat, rows: nat, yRow: nat, r: nat, c: nat)
    requires LumaFits(yb, w, rows, yRow) && r < rows && c < w
    ensures Mul(r, w) + c < |LumaPlane(yb, w, rows, yRow)|
    ensures Mul(r, yRow) + c < |yb|
    ensures LumaPlane(yb, w, rows, yRow)[Mul(r, w) + c] == yb[Mul(r, yRow) + c]
    decreases rows
  {
    RowInside(r, rows, w, c);
    LumaFitsFewer(yb, w, rows, rows - 1, yRow);
    var front := LumaPlane(yb, w, rows - 1, yRow);
    assert LumaPlane(yb, w, rows, yRow) == front + yb[Mul(rows - 1, yRow) .. Mul(rows - 1, yRow) + w];
    if r < rows - 1 {
      LumaPlaneAt(yb, w, rows - 1, yRow, r, c);
    }
  }

  /** Pair `k` of a chroma row is V then U of sample `k`. */
  lemma {:induction false} ChromaRowAt(u: seq<byte>, v: seq<byte>, off: nat, uvPix: nat, n: nat, k: nat)
    requires RowFits(u, v, off, uvPix, n) && k < n
    ensures off + Mul(k, uvPix) < |u| && off + Mul(k, uvPix) < |v|
    ensures ChromaRow(u, v, off, uvPix, n)[2 * k] == v[off + Mul(k, uvPix)]
    ensures ChromaRow(u, v, off, uvPix, n)[2 * k + 1] == u[off + Mul(k, uvPix)]
    decreases n
  {
    RowFitsFewer(u, v, off, uvPix, n, k + 1);
    if k < n - 1 {
      RowFitsFewer(u, v, off, uvPix, n, n - 1);
      ChromaRowAt(u, v, off, uvPix, n - 1, k);
    }
  }

  /** Sample `(c, r)` of the chroma planes is pair `r * uw + c`. */
  lemma {:induction false} ChromaPlaneAt(u: seq<byte>, v: seq<byte>, uw: nat, rows: nat, uvRow: nat, uvPix: nat, r: nat, c: nat,
                      i: nat, j: nat, src: nat)
    requires ChromaFits(u, v, uw, rows, uvRow, uvPix) && r < rows && c < uw
    requires i == 2 * (Mul(r, uw) + c) && j == i + 1 && src == Mul(r, uvRow) + Mul(c, uvPix)
    ensures j < |ChromaPlane(u, v, uw, rows, uvRow, uvPix)|
    ensures src < |u| && src < |v|
    ensures ChromaPlane(u, v, uw, rows, uvRow, uvPix)[i] == v[src]
    ensures ChromaPlane(u, v, uw, rows, uvRow, uvPix)[j] == u[src]
    decreases rows
  {
    if r + 1 == rows {
      ChromaLastRowAt(u, v, uw, r, uvRow, uvPix, c, i, j, src);
    } else {
      ChromaFitsFewer(u, v, uw, rows, rows - 1, uvRow, uvPix);
      ChromaPlaneAt(u, v, uw, rows - 1, uvRow, uvPix, r, c, i, j, src);
      ChromaEarlierRowAt(u, v, uw, rows, uvRow, uvPix, i);
      ChromaEarlierRowAt(u, v, uw, rows, uvRow, uvPix, j);
    }
  }

  /** One row fewer gives a prefix. */
  lemma ChromaEarlierRowAt(u: seq<byte>, v: seq<byte>, uw: nat, rows: nat, uvRow: nat, uvPix: nat, i: nat)
    requires ChromaFits(u, v, uw, rows, uvRow, uvPix) && 0 < rows
    requires ChromaFits(u, v, uw, rows - 1, uvRow, uvPix)
    requires i < |ChromaPlane(u, v, uw, rows - 1, uvRow, uvPix)|
    ensures i < |ChromaPlane(u, v, uw, rows, uvRow, uvPix)|
    ensures ChromaPlane(u, v, uw, rows, uvRow, uvPix)[i] == ChromaPlane(u, v, uw, rows - 1, uvRow, uvPix)[i]
  {
    ChromaRowFits(u, v, uw, rows, rows - 1, uvRow, uvPix, uw);
  }

  /** The pairs of row `r` follow the rows before it: pair `c` of that
      row sits at `i` and `j` and holds the samples at `src`. */
  lemma ChromaLastRowAt(u: seq<byte>, v: seq<byte>, uw: nat, r: nat, uvRow: nat, uvPix: nat, c: nat,
                        i: nat, j: nat, src: nat)
    requires ChromaFits(u, v, uw, r + 1, uvRow, uvPix) && c < uw
    requires i == 2 * (Mul(r, uw) + c) && j == i + 1 && src == Mul(r, uvRow) + Mul(c, uvPix)
    ensures j < |ChromaPlane(u, v, uw, r + 1, uvRow, uvPix)|
    ensures src < |u| && src < |v|
    ensures ChromaPlane(u, v, uw, r + 1, uvRow, uvPix)[i] == v[src]
    ensures ChromaPlane(u, v, uw, r + 1, uvRow, uvPix)[j] == u[src]
  {
    ChromaFitsFewer(u, v, uw, r + 1, r, uvRow, uvPix);
    ChromaRowFits(u, v, uw, r + 1, r, uvRow, uvPix, uw);
    var front := ChromaPlane(u, v, uw, r, uvRow, uvPix);
    var last := ChromaRow(u, v, Mul(r, uvRow), uvPix, uw);
    var whole := ChromaPlane(u, v, uw, r + 1, uvRow, uvPix);
    assert whole == front + last;
    assert i == |front| + 2 * c;
    ChromaRowAt(u, v, Mul(r, uvRow), uvPix, uw, c);
    BehindAt(front, last, 2 * c);
    BehindAt(front, last, 2 * c + 1);
    assert whole[i] == last[2 * c];
    assert whole[j] == last[2 * c + 1];
  }

  /** The NV21 layout, byte by byte: luma pixel `(c, r)` at `r * width + c`;
      chroma sample `(c, r)` as V at `width * height + 2 (r * width/2 + c)`
      with U right after it; every byte past the packed planes unchanged. */
  lemma PackedLuma(l: Layout, yb: seq<byte>, u: seq<byte>, v: seq<byte>, nv21: seq<byte>, r: nat, c: nat)
    requires Fits(l, yb, u, v, nv21) && r < l.height && c < l.width
    ensures Mul(r, l.width) + c < |nv21| && Mul(r, l.yRowStride) + c < |yb|
    ensures Packed(l, yb, u, v, nv21)[Mul(r, l.width) + c] == yb[Mul(r, l.yRowStride) + c]
  {
    var luma, chroma, tail := PackedParts(l, yb, u, v, nv21);
    LumaPlaneAt(yb, l.width, l.height, l.yRowStride, r, c);
    ConcatAt([], luma, chroma + tail, Mul(r, l.width) + c);
  }

  /** The packed array is the luma plane, the chroma plane and the rest of
      the array, in that order. */
  lemma PackedParts(l: Layout, yb: seq<byte>, u: seq<byte>, v: seq<byte>, nv21: seq<byte>)
    returns (luma: seq<byte>, chroma: seq<byte>, tail: seq<byte>)
    requires Fits(l, yb, u, v, nv21)
    ensures luma == LumaPlane(yb, l.width, l.height, l.yRowStride)
    ensures chroma == ChromaPlane(u, v, l.width / 2, l.height / 2, l.uvRowStride, l.uvPixelStride)
    ensures |luma| == Mul(l.height, l.width) && |luma| + |chroma| <= |nv21|
    ensures Packed(l, yb, u, v, nv21) == [] + luma + (chroma + tail)
    ensures Packed(l, yb, u, v, nv21) == luma + chroma + tail
  {
    luma := LumaPlane(yb, l.width, l.height, l.yRowStride);
    chroma := ChromaPlane(u, v, l.width / 2, l.height / 2, l.uvRowStride, l.uvPixelStride);
    tail := nv21[|luma + chroma|..];
    assert [] + luma + (chroma + tail) == luma + chroma + tail;
  }

  lemma BehindAt(a: seq<byte>, b: seq<byte>, i: nat)
    requires i < |b|
    ensures (a + b)[|a| + i] == b[i]
  {
  }

  lemma ConcatAt(a: seq<byte>, b: seq<byte>, tail: seq<byte>, i: nat)
    requires i < |b|
    ensures (a + b + tail)[|a| + i] == b[i]
  {
  }

  lemma PackedChroma(l: Layout, yb: seq<byte>, u: seq<byte>, v: seq<byte>, nv21: seq<byte>, r: nat, c: nat)
    requires Fits(l, yb, u, v, nv21) && r < l.height / 2 && c < l.width / 2
    ensures Mul(l.height, l.width) + 2 * (Mul(r, l.width / 2) + c) + 1 < |nv21|
    ensures Mul(r, l.uvRowStride) + Mul(c, l.uvPixelStride) < |u| && Mul(r, l.uvRowStride) + Mul(c, l.uvPixelStride) < |v|
    ensures Packed(l, yb, u, v, nv21)[Mul(l.height, l.width) + 2 * (Mul(r, l.width / 2) + c)]
         == v[Mul(r, l.uvRowStride) + Mul(c, l.uvPixelStride)]
    ensures Packed(l, yb, u, v, nv21)[Mul(l.height, l.width) + 2 * (Mul(r, l.width / 2) + c) + 1]
         == u[Mul(r, l.uvRowStride) + Mul(c, l.uvPixelStride)]
  {
    var luma, chroma, tail := PackedParts(l, yb, u, v, nv21);
    var k := 2 * (Mul(r, l.width / 2) + c);
    ChromaPlaneAt(u, v, l.width / 2, l.height / 2, l.uvRowStride, l.uvPixelStride, r, c,
                  k, k + 1, Mul(r, l.uvRowStride) + Mul(c, l.uvPixelStride));
    ConcatAt(luma, chroma, tail, k);
    ConcatAt(luma, chroma, tail, k + 1);
  }

  lemma PackedTail(l: Layout, yb: seq<byte>, u: seq<byte>, v: seq<byte>, nv21: seq<byte>, i: nat)
    requires Fits(l, yb, u, v, nv21) && PackedSize(l) <= i < |nv21|
    ensures Packed(l, yb, u, v, nv21)[i] == nv21[i]
  {
  }

  /* ---------- the JNI entry point ---------- */

  /** `Java_com_octo4a_camera_NativeCameraUtils_yuv420toNv21`: `None` for
      each buffer whose address lookup came back NULL. The result is the
      array's new contents, or `None` where the function returns false. */
  method NativeYuv420ToNv21(l: Layout, yb: Option<seq<byte>>, u: Option<seq<byte>>, v: Option<seq<byte>>,
                            nv21: Option<seq<byte>>)
    returns (r: Option<seq<byte>>)
    requires yb.Some? && u.Some? && v.Some? && nv21.Some? ==> Fits(l, yb.value, u.value, v.value, nv21.value)
    ensures r.None? <==> yb.None? || u.None? || v.None? || nv21.None?
    ensures r.Some? ==> r.value == Packed(l, yb.value, u.value, v.value, nv21.value)
  {
    if nv21.None? || yb.None? || u.None? || v.None? {
      return None;
    }
    var out := Yuv420ToNv21(l, yb.value, u.value, v.value, nv21.value);
    return Some(out);
  }
}
