/** `RotateUtils.kt`: rotation of an NV21 frame (a `width` x `height` luma
    plane followed by interleaved V/U chroma at half resolution) by 90,
    180 or 270 degrees.

    Each rotation allocates `width * height * 3 / 2` zero bytes and fills
    them by loops that read the input at computed offsets. Any exception
    inside (a negative array size, a read or write out of bounds) makes the
    rotation return null; here that is `None`. */
module Rotate {
  import opened Wrappers
  import opened Text

  /* ---------- Kotlin arithmetic ---------- */

  /** Kotlin `Int` division by a positive divisor: truncates toward zero. */
  function KtDiv(a: int, b: int): int
    requires b > 0
  {
    if a >= 0 then a / b else -((-a) / b)
  }

  /** The quotient truncates toward zero: the remainder it leaves has the
      sign of the dividend and is smaller than the divisor. */
  lemma KtDivTruncates(a: int, b: int)
    requires b > 0
    ensures a >= 0 ==> 0 <= a - KtDiv(a, b) * b < b
    ensures a < 0 ==> -b < a - KtDiv(a, b) * b <= 0
  {
  }

  /** `y_size` and `buffser_size`. */
  function YSize(w: int, h: int): int { w * h }
  function BufferSize(w: int, h: int): int { KtDiv(YSize(w, h) * 3, 2) }

  lemma MulMono(a: int, b: int, c: int)
    requires a <= b && c >= 0
    ensures a * c <= b * c
  {
  }

  lemma MulPos(a: int, b: int)
    requires a >= 0 && b >= 0
    ensures a * b >= 0
  {
  }

  lemma MulStep(a: int, b: int)
    ensures (a + 1) * b == a * b + b
  {
  }

  /** Cell `x` of row `y` of a `w` x `h` plane lies inside it, and the last
      cell is the plane's last byte. */
  lemma CellBefore(y: int, h: int, w: int, x: int)
    requires 0 <= y < h && 0 <= x < w
    ensures 0 <= y * w && 0 <= y * w + x < w * h
    ensures y == h - 1 && x == w - 1 ==> y * w + x == w * h - 1
  {
    MulMono(y, h - 1, w);
    MulPos(y, w);
    MulStep(h - 1, w);
  }

  /** A non-negative buffer size comes only from a non-negative luma size. */
  lemma BufferSizeSign(w: int, h: int)
    ensures BufferSize(w, h) >= 0 <==> YSize(w, h) >= 0
    ensures YSize(w, h) >= 0 ==> BufferSize(w, h) == YSize(w, h) + YSize(w, h) / 2
  {
  }

  /* ---------- reading and writing by coordinates ---------- */

  /** The byte at `i`, or 0 outside the sequence (a fresh `ByteArray`). */
  function At(s: seq<byte>, i: int): byte {
    if 0 <= i < |s| then s[i] else 0
  }

  /** Luma pixel `(x, y)` of a frame `w` wide: `nv21_data[y * w + x]`. */
  function Pixel(data: seq<byte>, w: int, x: int, y: int): byte {
    At(data, y * w + x)
  }

  /** Where `rotate270` puts luma pixel `(x, y)`: column `x` from the right
      becomes row `w - 1 - x` of an image `h` wide. */
  function At270(out: seq<byte>, w: int, h: int, x: int, y: int): byte {
    At(out, (w - 1 - x) * h + y)
  }

  /** Where `rotate90` puts luma pixel `(x, y)`. */
  function At90(out: seq<byte>, h: int, x: int, y: int): byte {
    At(out, x * h + (h - 1 - y))
  }

  /** Byte `b` (0 for V, 1 for U) of chroma sample `y` of the `k`-th pair
      column visited, in the order the pairs were collected. */
  function PairAt(pairs: seq<byte>, h2: int, k: int, y: int, b: int): byte {
    At(pairs, 2 * (k * h2 + y) + b)
  }

  /** The input byte that pair `(k, y)` reads: row `y` of the chroma plane
      at column `w - 2 - 2k + b`. */
  function PairSource(data: seq<byte>, ySize: int, w: int, k: int, y: int, b: int): byte {
    At(data, ySize + y * w + (w - 1 - 2 * k) - 1 + b)
  }

  /** Position `p` of the pair list is behind every position of an earlier
      column or row. */
  lemma EarlierBefore(a: int, a': int, h: int, y: int, y': int)
    requires 0 <= a' < a && 0 <= y' < h && 0 <= y
    ensures a' * h + y' < a * h + y
  {
    MulMono(a' + 1, a, h);
  }

  /* ---------- the luma loops ---------- */

  /** One column of `rotate270`'s luma appended behind the earlier ones
      keeps them and places the new one. */
  lemma Column270(prev: seq<byte>, col: seq<byte>, data: seq<byte>, w: int, h: int, x: int)
    requires 0 <= x < w && h > 0
    requires |prev| == (w - 1 - x) * h && |col| == h
    requires forall x', y' :: x < x' < w && 0 <= y' < h ==> At270(prev, w, h, x', y') == Pixel(data, w, x', y')
    requires forall y' :: 0 <= y' < h ==> col[y'] == Pixel(data, w, x, y')
    ensures forall x', y' :: x <= x' < w && 0 <= y' < h ==> At270(prev + col, w, h, x', y') == Pixel(data, w, x', y')
  {
    forall x', y' | x <= x' < w && 0 <= y' < h
      ensures At270(prev + col, w, h, x', y') == Pixel(data, w, x', y')
    {
      if x' == x {
        assert (prev + col)[|prev| + y'] == col[y'];
      } else {
        EarlierBefore(w - 1 - x, w - 1 - x', h, 0, y');
        assert At270(prev + col, w, h, x', y') == At270(prev, w, h, x', y');
      }
    }
  }

  /** The luma loop of `rotate270`: for `x` from `w - 1` down to 0, for `y`
      from 0 up, `nv21_rotated[i++] = nv21_data[offset + x]` with
      `offset = y * w`. */
  method Luma270(data: seq<byte>, w: int, h: int) returns (r: Option<seq<byte>>)
    requires w > 0 && h > 0
    ensures r.Some? <==> w * h <= |data|
    ensures r.Some? ==> |r.value| == w * h
    ensures r.Some? ==> forall x, y :: 0 <= x < w && 0 <= y < h ==> At270(r.value, w, h, x, y) == Pixel(data, w, x, y)
  {
    var out: seq<byte> := [];
    var x := w - 1;
    while x >= 0
      invariant -1 <= x <= w - 1
      invariant |out| == (w - 1 - x) * h
      invariant x < w - 1 ==> w * h <= |data|
      invariant forall x', y' :: x < x' < w && 0 <= y' < h ==> At270(out, w, h, x', y') == Pixel(data, w, x', y')
    {
      var col: seq<byte> := [];
      var offset := 0;
      var y := 0;
      while y < h
        invariant 0 <= y <= h
        invariant offset == y * w
        invariant |col| == y
        invariant (x < w - 1 || y == h) ==> w * h <= |data|
        invariant forall y' :: 0 <= y' < y ==> col[y'] == Pixel(data, w, x, y')
      {
        CellBefore(y, h, w, x);
        if offset + x >= |data| {
          return None;
        }
        col := col + [data[offset + x]];
        MulStep(y, w);
        y := y + 1;
        offset := offset + w;
      }
      Column270(out, col, data, w, h, x);
      MulStep(w - 1 - x, h);
      out := out + col;
      x := x - 1;
    }
    return Some(out);
  }

  /** One column of `rotate90`'s luma appended behind the earlier ones. */
  lemma Column90(prev: seq<byte>, col: seq<byte>, data: seq<byte>, w: int, h: int, x: int)
    requires 0 <= x < w && h > 0
    requires |prev| == x * h && |col| == h
    requires forall x', y' :: 0 <= x' < x && 0 <= y' < h ==> At90(prev, h, x', y') == Pixel(data, w, x', y')
    requires forall y' :: 0 <= y' < h ==> col[h - 1 - y'] == Pixel(data, w, x, y')
    ensures forall x', y' :: 0 <= x' <= x && 0 <= y' < h ==> At90(prev + col, h, x', y') == Pixel(data, w, x', y')
  {
    forall x', y' | 0 <= x' <= x && 0 <= y' < h
      ensures At90(prev + col, h, x', y') == Pixel(data, w, x', y')
    {
      if x' == x {
        assert (prev + col)[|prev| + (h - 1 - y')] == col[h - 1 - y'];
      } else {
        EarlierBefore(x, x', h, 0, h - 1 - y');
        assert At90(prev + col, h, x', y') == At90(prev, h, x', y');
      }
    }
  }

  /** The luma loop of `rotate90`: for `x` from 0 up, for `y` from `h - 1`
      down, `nv21_rotated[i++] = nv21_data[offset + x]` with `offset` going
      from `(h - 1) * w` down by `w`. */
  method Luma90(data: seq<byte>, w: int, h: int) returns (r: Option<seq<byte>>)
    requires w > 0 && h > 0
    ensures r.Some? <==> w * h <= |data|
    ensures r.Some? ==> |r.value| == w * h
    ensures r.Some? ==> forall x, y :: 0 <= x < w && 0 <= y < h ==> At90(r.value, h, x, y) == Pixel(data, w, x, y)
  {
    var out: seq<byte> := [];
    var x := 0;
    while x < w
      invariant 0 <= x <= w
      invariant |out| == x * h
      invariant x == w ==> w * h <= |data|
      invariant forall x', y' :: 0 <= x' < x && 0 <= y' < h ==> At90(out, h, x', y') == Pixel(data, w, x', y')
    {
      var col: seq<byte> := [];
      var offset := (h - 1) * w;
      var y := h - 1;
      while y >= 0
        invariant -1 <= y <= h - 1
        invariant offset == y * w
        invariant |col| == h - 1 - y
        invariant x == w - 1 && y < h - 1 ==> w * h <= |data|
        invariant forall y' :: y < y' < h ==> col[h - 1 - y'] == Pixel(data, w, x, y')
      {
        CellBefore(y, h, w, x);
        if offset + x >= |data| {
          return None;
        }
        col := col + [data[offset + x]];
        MulStep(y - 1, w);
        y := y - 1;
        offset := offset - w;
      }
      Column90(out, col, data, w, h, x);
      MulStep(x, h);
      out := out + col;
      x := x + 1;
    }
    return Some(out);
  }

  /* ---------- the chroma loops of rotate90 and rotate270 ---------- */

  /** One pair column appended behind the earlier ones. */
  lemma PairColumn(prev: seq<byte>, col: seq<byte>, data: seq<byte>, ySize: int, w: int, h2: int, k: int)
    requires 0 <= k && h2 > 0
    requires |prev| == 2 * (k * h2) && |col| == 2 * h2
    requires forall k', y', b' :: 0 <= k' < k && 0 <= y' < h2 && 0 <= b' < 2 ==>
      PairAt(prev, h2, k', y', b') == PairSource(data, ySize, w, k', y', b')
    requires forall y', b' :: 0 <= y' < h2 && 0 <= b' < 2 ==> col[2 * y' + b'] == PairSource(data, ySize, w, k, y', b')
    ensures forall k', y', b' :: 0 <= k' <= k && 0 <= y' < h2 && 0 <= b' < 2 ==>
      PairAt(prev + col, h2, k', y', b') == PairSource(data, ySize, w, k', y', b')
  {
    forall k', y', b' | 0 <= k' <= k && 0 <= y' < h2 && 0 <= b' < 2
      ensures PairAt(prev + col, h2, k', y', b') == PairSource(data, ySize, w, k', y', b')
    {
      if k' == k {
        assert 2 * (k * h2 + y') + b' == |prev| + 2 * y' + b';
        assert (prev + col)[|prev| + 2 * y' + b'] == col[2 * y' + b'];
      } else {
        EarlierBefore(k, k', h2, 0, y');
        assert PairAt(prev + col, h2, k', y', b') == PairAt(prev, h2, k', y', b');
      }
    }
  }

  /** The chroma loops of `rotate270` and `rotate90`: for `x` from `w - 1`
      down by 2 while `x > 0`, for `y` below `h2`, the pair at
      `offset + x - 1` and `offset + x`, with `offset = y_size + y * w`.
      The pairs come out in visiting order, each as (byte at `x - 1`,
      byte at `x`); `rotate270` stores them forward from `y_size` and
      `rotate90` backward from the end. */
  method ChromaPairs(data: seq<byte>, ySize: int, w: int, h2: int) returns (r: Option<seq<byte>>)
    requires ySize >= 0 && w > 0 && h2 >= 0
    ensures r.Some? <==> w / 2 == 0 || h2 == 0 || ySize + h2 * w <= |data|
    ensures r.Some? ==> |r.value| == 2 * ((w / 2) * h2)
    ensures r.Some? ==> forall k, y, b :: 0 <= k < w / 2 && 0 <= y < h2 && 0 <= b < 2 ==>
      PairAt(r.value, h2, k, y, b) == PairSource(data, ySize, w, k, y, b)
  {
    if h2 == 0 {
      // the inner loop never runs
      return Some([]);
    }
    var out: seq<byte> := [];
    var x := w - 1;
    ghost var k := 0;
    while x > 0
      invariant x == w - 1 - 2 * k && 0 <= k <= w / 2
      invariant x > 0 <==> k < w / 2
      invariant |out| == 2 * (k * h2)
      invariant k > 0 ==> ySize + h2 * w <= |data|
      invariant forall k', y', b' :: 0 <= k' < k && 0 <= y' < h2 && 0 <= b' < 2 ==>
        PairAt(out, h2, k', y', b') == PairSource(data, ySize, w, k', y', b')
    {
      var col: seq<byte> := [];
      var offset := ySize;
      var y := 0;
      while y < h2
        invariant 0 <= y <= h2
        invariant offset == ySize + y * w
        invariant |col| == 2 * y
        invariant (k > 0 || y == h2) ==> ySize + h2 * w <= |data|
        invariant forall y', b' :: 0 <= y' < y && 0 <= b' < 2 ==> col[2 * y' + b'] == PairSource(data, ySize, w, k, y', b')
      {
        CellBefore(y, h2, w, x);
        if offset + x >= |data| {
          return None;
        }
        col := col + [data[offset + (x - 1)], data[offset + x]];
        MulStep(y, w);
        y := y + 1;
        offset := offset + w;
      }
      PairColumn(out, col, data, ySize, w, h2, k);
      MulStep(k, h2);
      out := out + col;
      x := x - 2;
      k := k + 1;
    }
    return Some(out);
  }

  /* ---------- assembling the output buffer ---------- */

  /** `rotate270`'s buffer: the luma bytes from 0, the chroma pairs from
      `y_size` on, zero elsewhere. */
  function Place270(luma: seq<byte>, pairs: seq<byte>, ySize: nat, size: nat): (out: seq<byte>)
    requires |luma| <= ySize && ySize + |pairs| <= size
    ensures |out| == size
    ensures forall i :: 0 <= i < |luma| ==> out[i] == luma[i]
    ensures forall i :: 0 <= i < |pairs| ==> out[ySize + i] == pairs[i]
    ensures forall i :: |luma| <= i < ySize || ySize + |pairs| <= i < size ==> out[i] == 0
  {
    seq(size, i requires 0 <= i < size =>
      if ySize <= i < ySize + |pairs| then pairs[i - ySize]
      else if i < |luma| then luma[i]
      else 0)
  }

  /** Byte `b` of the `m`-th pair counted from the end of `out`. */
  function FromBack(out: seq<byte>, m: int, b: int): byte {
    At(out, |out| - 2 - 2 * m + b)
  }

  /** `rotate90`'s buffer: the luma bytes from 0, then the chroma written
      backward from the last byte, two at a time with `i--`: the `m`-th pair
      lands at `size - 2 - 2m` (its V) and `size - 1 - 2m` (its U). Chroma
      is written last, so it wins where the two overlap. */
  function Place90(luma: seq<byte>, pairs: seq<byte>, size: nat): (out: seq<byte>)
    requires |pairs| % 2 == 0 && |pairs| <= size && |luma| <= size
    ensures |out| == size
    ensures forall m, b :: 0 <= m < |pairs| / 2 && 0 <= b < 2 ==> FromBack(out, m, b) == At(pairs, 2 * m + b)
    ensures forall i :: 0 <= i < |luma| && i < size - |pairs| ==> out[i] == luma[i]
    ensures forall i :: |luma| <= i < size - |pairs| ==> out[i] == 0
  {
    seq(size, i requires 0 <= i < size =>
      if i >= size - |pairs| then
        var t := size - 1 - i;
        pairs[2 * (t / 2) + (1 - t % 2)]
      else if i < |luma| then luma[i]
      else 0)
  }

  /* ---------- rotate270 and rotate90 ---------- */

  /** When `rotate270` and `rotate90` return a buffer: the size is not
      negative and every read stays inside the input. Their writes always
      stay inside the buffer (`PairsFit`), so only a read can throw. */
  predicate ReadsInRange(data: seq<byte>, w: int, h: int) {
    && BufferSize(w, h) >= 0
    && (w > 0 && h > 0 ==>
          && w * h <= |data|
          && (w / 2 == 0 || h / 2 == 0 || YSize(w, h) + (h / 2) * w <= |data|))
  }

  /** The output of `rotate270`: a buffer of the computed size whose luma
      plane is the input turned a quarter counter-clockwise, and whose
      chroma pairs follow, column by column of the input, from the start of
      the chroma area; every other byte is still zero. */
  ghost predicate Rotated270(data: seq<byte>, w: int, h: int, out: seq<byte>) {
    && |out| == BufferSize(w, h)
    && (!(w > 0 && h > 0) ==> forall i :: 0 <= i < |out| ==> out[i] == 0)
    && (w > 0 && h > 0 ==> forall i :: YSize(w, h) + 2 * ((w / 2) * (h / 2)) <= i < |out| ==> out[i] == 0)
    && (w > 0 && h > 0 ==>
          && (forall x, y :: 0 <= x < w && 0 <= y < h ==> At270(out, w, h, x, y) == Pixel(data, w, x, y))
          && (forall k, y, b :: 0 <= k < w / 2 && 0 <= y < h / 2 && 0 <= b < 2 ==>
                At(out, YSize(w, h) + 2 * (k * (h / 2) + y) + b) == PairSource(data, YSize(w, h), w, k, y, b)))
  }

  /** The output of `rotate90`: the luma plane turned a quarter clockwise,
      and the same chroma pairs written from the end of the buffer
      backwards; the bytes between the two are still zero. */
  ghost predicate Rotated90(data: seq<byte>, w: int, h: int, out: seq<byte>) {
    && |out| == BufferSize(w, h)
    && (!(w > 0 && h > 0) ==> forall i :: 0 <= i < |out| ==> out[i] == 0)
    && (w > 0 && h > 0 ==> forall i :: YSize(w, h) <= i < |out| - 2 * ((w / 2) * (h / 2)) ==> out[i] == 0)
    && (w > 0 && h > 0 ==>
          && (forall x, y :: 0 <= x < w && 0 <= y < h ==> At90(out, h, x, y) == Pixel(data, w, x, y))
          && (forall k, y, b :: 0 <= k < w / 2 && 0 <= y < h / 2 && 0 <= b < 2 ==>
                At(out, BufferSize(w, h) - 2 - 2 * (k * (h / 2) + y) + b) == PairSource(data, YSize(w, h), w, k, y, b)))
  }

  /** The chroma pairs fit behind the luma plane. */
  lemma PairsFit(w: int, h: int)
    requires w > 0 && h > 0
    ensures YSize(w, h) + 2 * ((w / 2) * (h / 2)) <= BufferSize(w, h)
  {
    MulMono(w / 2, w, h / 2);
    MulMono(2 * (h / 2), h, w);
    assert 2 * ((w / 2) * (h / 2)) <= w * (h / 2);
    assert 2 * (w * (h / 2)) <= w * h;
  }

  lemma LumaPlaced270(luma: seq<byte>, pairs: seq<byte>, data: seq<byte>, w: int, h: int, size: nat)
    requires w > 0 && h > 0 && |luma| == w * h && w * h + |pairs| <= size
    requires forall x, y :: 0 <= x < w && 0 <= y < h ==> At270(luma, w, h, x, y) == Pixel(data, w, x, y)
    ensures forall x, y :: 0 <= x < w && 0 <= y < h ==> At270(Place270(luma, pairs, w * h, size), w, h, x, y) == Pixel(data, w, x, y)
  {
    var out := Place270(luma, pairs, w * h, size);
    forall x, y | 0 <= x < w && 0 <= y < h
      ensures At270(out, w, h, x, y) == Pixel(data, w, x, y)
    {
      var i := (w - 1 - x) * h + y;
      EarlierBefore(w, w - 1 - x, h, 0, y);
      MulPos(w - 1 - x, h);
      assert At270(luma, w, h, x, y) == luma[i];
      assert out[i] == luma[i];
    }
  }

  lemma PairsPlaced270(luma: seq<byte>, pairs: seq<byte>, data: seq<byte>, w: int, h: int, size: nat)
    requires w > 0 && h > 0 && |luma| == w * h && w * h + |pairs| <= size
    requires |pairs| == 2 * ((w / 2) * (h / 2))
    requires forall k, y, b :: 0 <= k < w / 2 && 0 <= y < h / 2 && 0 <= b < 2 ==>
      PairAt(pairs, h / 2, k, y, b) == PairSource(data, w * h, w, k, y, b)
    ensures forall k, y, b :: 0 <= k < w / 2 && 0 <= y < h / 2 && 0 <= b < 2 ==>
      At(Place270(luma, pairs, w * h, size), w * h + 2 * (k * (h / 2) + y) + b) == PairSource(data, w * h, w, k, y, b)
  {
    var out := Place270(luma, pairs, w * h, size);
    forall k, y, b | 0 <= k < w / 2 && 0 <= y < h / 2 && 0 <= b < 2
      ensures At(out, w * h + 2 * (k * (h / 2) + y) + b) == PairSource(data, w * h, w, k, y, b)
    {
      var j := 2 * (k * (h / 2) + y) + b;
      EarlierBefore(w / 2, k, h / 2, 0, y);
      MulPos(k, h / 2);
      assert PairAt(pairs, h / 2, k, y, b) == pairs[j];
      assert out[w * h + j] == pairs[j];
    }
  }

  lemma LumaPlaced90(luma: seq<byte>, pairs: seq<byte>, data: seq<byte>, w: int, h: int, size: nat)
    requires w > 0 && h > 0 && |luma| == w * h && w * h + |pairs| <= size && |pairs| % 2 == 0
    requires forall x, y :: 0 <= x < w && 0 <= y < h ==> At90(luma, h, x, y) == Pixel(data, w, x, y)
    ensures forall x, y :: 0 <= x < w && 0 <= y < h ==> At90(Place90(luma, pairs, size), h, x, y) == Pixel(data, w, x, y)
  {
    var out := Place90(luma, pairs, size);
    forall x, y | 0 <= x < w && 0 <= y < h
      ensures At90(out, h, x, y) == Pixel(data, w, x, y)
    {
      var i := x * h + (h - 1 - y);
      EarlierBefore(w, x, h, 0, h - 1 - y);
      MulPos(x, h);
      assert At90(luma, h, x, y) == luma[i];
      assert out[i] == luma[i];
    }
  }

  lemma PairsPlaced90(luma: seq<byte>, pairs: seq<byte>, data: seq<byte>, w: int, h: int, size: nat)
    requires w > 0 && h > 0 && |luma| == w * h && w * h + |pairs| <= size
    requires |pairs| == 2 * ((w / 2) * (h / 2))
    requires forall k, y, b :: 0 <= k < w / 2 && 0 <= y < h / 2 && 0 <= b < 2 ==>
      PairAt(pairs, h / 2, k, y, b) == PairSource(data, w * h, w, k, y, b)
    ensures forall k, y, b :: 0 <= k < w / 2 && 0 <= y < h / 2 && 0 <= b < 2 ==>
      At(Place90(luma, pairs, size), size - 2 - 2 * (k * (h / 2) + y) + b) == PairSource(data, w * h, w, k, y, b)
  {
    var out := Place90(luma, pairs, size);
    forall k, y, b | 0 <= k < w / 2 && 0 <= y < h / 2 && 0 <= b < 2
      ensures At(out, size - 2 - 2 * (k * (h / 2) + y) + b) == PairSource(data, w * h, w, k, y, b)
    {
      var m := k * (h / 2) + y;
      EarlierBefore(w / 2, k, h / 2, 0, y);
      MulPos(k, h / 2);
      assert PairAt(pairs, h / 2, k, y, b) == pairs[2 * m + b];
      assert FromBack(out, m, b) == At(pairs, 2 * m + b);
    }
  }

  /** `rotate270`. */
  method Rotate270(data: seq<byte>, w: int, h: int) returns (r: Option<seq<byte>>)
    ensures r.Some? <==> ReadsInRange(data, w, h)
    ensures r.Some? ==> Rotated270(data, w, h, r.value)
  {
    var ySize := w * h;
    var bufferSize := BufferSize(w, h);
    BufferSizeSign(w, h);
    if bufferSize < 0 {
      return None;
    }
    if !(w > 0 && h > 0) {
      // the loops run no iteration: a buffer of zeros
      return Some(seq(bufferSize, i => 0));
    }
    MulPos(w, h);
    var luma := Luma270(data, w, h);
    if luma.None? {
      return None;
    }
    var pairs := ChromaPairs(data, ySize, w, h / 2);
    if pairs.None? {
      return None;
    }
    PairsFit(w, h);
    var out := Place270(luma.value, pairs.value, ySize, bufferSize);
    LumaPlaced270(luma.value, pairs.value, data, w, h, bufferSize);
    PairsPlaced270(luma.value, pairs.value, data, w, h, bufferSize);
    return Some(out);
  }

  /** `rotate90`. */
  method Rotate90(data: seq<byte>, w: int, h: int) returns (r: Option<seq<byte>>)
    ensures r.Some? <==> ReadsInRange(data, w, h)
    ensures r.Some? ==> Rotated90(data, w, h, r.value)
  {
    var ySize := w * h;
    var bufferSize := BufferSize(w, h);
    BufferSizeSign(w, h);
    if bufferSize < 0 {
      return None;
    }
    if !(w > 0 && h > 0) {
      // the loops run no iteration: a buffer of zeros
      return Some(seq(bufferSize, i => 0));
    }
    MulPos(w, h);
    var luma := Luma90(data, w, h);
    if luma.None? {
      return None;
    }
    var pairs := ChromaPairs(data, ySize, w, h / 2);
    if pairs.None? {
      return None;
    }
    PairsFit(w, h);
    var out := Place90(luma.value, pairs.value, bufferSize);
    LumaPlaced90(luma.value, pairs.value, data, w, h, bufferSize);
    PairsPlaced90(luma.value, pairs.value, data, w, h, bufferSize);
    return Some(out);
  }

  /* ---------- rotate180 ---------- */

  /** When `rotate180` returns a buffer: the size is not negative, the
      luma plane is inside the input, and the chroma part is an even
      number of bytes that is inside the input; an odd chroma part makes
      the pair loop write one byte past the buffer. */
  predicate Ok180(data: seq<byte>, w: int, h: int) {
    && BufferSize(w, h) >= 0
    && YSize(w, h) <= |data|
    && var chroma := BufferSize(w, h) - YSize(w, h);
       chroma == 0 || (chroma % 2 == 0 && BufferSize(w, h) <= |data|)
  }

  /** The reference definition of `rotate180`: the luma plane reversed, and
      the chroma byte pairs in reverse order, each pair keeping its own
      V-then-U order. */
  function Rotated180(data: seq<byte>, w: int, h: int): (out: seq<byte>)
    requires Ok180(data, w, h)
    ensures |out| == BufferSize(w, h)
  {
    var ySize := YSize(w, h);
    var size := BufferSize(w, h);
    seq(size, k requires 0 <= k < size =>
      if k < ySize then data[ySize - 1 - k]
      else data[size - 2 - 2 * ((k - ySize) / 2) + (k - ySize) % 2])
  }

  /** The luma loop of `rotate180`: `i` from `y_size - 1` down to 0,
      `nv21_rotated[count++] = nv21_data[i]`. */
  method Luma180(data: seq<byte>, ySize: int) returns (r: Option<seq<byte>>)
    requires ySize >= 0
    ensures r.Some? <==> ySize <= |data|
    ensures r.Some? ==> |r.value| == ySize && forall k :: 0 <= k < ySize ==> r.value[k] == data[ySize - 1 - k]
  {
    var out: seq<byte> := [];
    var i := ySize - 1;
    while i >= 0
      invariant -1 <= i < ySize
      invariant |out| == ySize - 1 - i
      invariant i < ySize - 1 ==> ySize <= |data|
      invariant forall k :: 0 <= k < |out| ==> out[k] == data[ySize - 1 - k]
    {
      if i >= |data| {
        return None;
      }
      out := out + [data[i]];
      i := i - 1;
    }
    return Some(out);
  }

  /** The chroma loop of `rotate180`: `i` from `size - 1` down by 2 while
      `i >= y_size`, copying `nv21_data[i - 1]` then `nv21_data[i]` to
      positions `count` and `count + 1`, where `count` starts at `y_size`.
      Returns the bytes written; a write at `size` or beyond fails. */
  method Chroma180(data: seq<byte>, ySize: int, size: int) returns (r: Option<seq<byte>>)
    requires 0 <= ySize <= size
    ensures r.Some? <==> ySize == size || ((size - ySize) % 2 == 0 && size <= |data|)
    ensures r.Some? ==> |r.value| == size - ySize
    ensures r.Some? ==> forall t :: 0 <= t < |r.value| ==> r.value[t] == data[size - 2 - 2 * (t / 2) + t % 2]
  {
    var out: seq<byte> := [];
    ghost var j := 0;
    var i := size - 1;
    while i >= ySize
      invariant i == size - 1 - 2 * j && j >= 0
      invariant |out| == 2 * j <= size - ySize
      invariant j > 0 ==> size <= |data|
      invariant forall t :: 0 <= t < |out| ==> out[t] == data[size - 2 - 2 * (t / 2) + t % 2]
    {
      if i - 1 < 0 || i >= |data| {
        return None;
      }
      if ySize + |out| >= size {
        return None;
      }
      out := out + [data[i - 1]];
      if ySize + |out| >= size {
        return None;
      }
      out := out + [data[i]];
      i := i - 2;
      j := j + 1;
    }
    return Some(out);
  }

  /** `rotate180`. */
  method Rotate180(data: seq<byte>, w: int, h: int) returns (r: Option<seq<byte>>)
    ensures r.Some? <==> Ok180(data, w, h)
    ensures r.Some? ==> r.value == Rotated180(data, w, h)
  {
    var ySize := w * h;
    var bufferSize := BufferSize(w, h);
    BufferSizeSign(w, h);
    if bufferSize < 0 {
      return None;
    }
    var luma := Luma180(data, ySize);
    if luma.None? {
      return None;
    }
    var chroma := Chroma180(data, ySize, bufferSize);
    if chroma.None? {
      return None;
    }
    var out := luma.value + chroma.value;
    assert forall k :: 0 <= k < ySize ==> out[k] == luma.value[k];
    assert forall k :: ySize <= k < bufferSize ==> out[k] == chroma.value[k - ySize];
    assert out == Rotated180(data, w, h);
    return Some(out);
  }

  /** Rotating by 180 degrees twice gives the frame back, whenever the
      chroma part has an even length, as it does for even dimensions. */
  lemma Rotate180Twice(data: seq<byte>, w: int, h: int)
    requires Ok180(data, w, h) && |data| == BufferSize(w, h)
    ensures Ok180(Rotated180(data, w, h), w, h)
    ensures Rotated180(Rotated180(data, w, h), w, h) == data
  {
    var ySize := YSize(w, h);
    var size := BufferSize(w, h);
    var once := Rotated180(data, w, h);
    var twice := Rotated180(once, w, h);
    forall k | 0 <= k < size ensures twice[k] == data[k] {
      if k >= ySize {
        var j := (k - ySize) / 2;
        var b := (k - ySize) % 2;
        var k1 := size - 2 - 2 * j + b;
        HalfOf(k - ySize, j, b);
        HalfOf(k1 - ySize, (size - ySize) / 2 - 1 - j, b);
        assert once[k1] == data[size - 2 - 2 * ((k1 - ySize) / 2) + (k1 - ySize) % 2];
      }
    }
  }

  /** `t / 2` and `t % 2` for `t == 2 j + b`. */
  lemma HalfOf(t: int, j: int, b: int)
    requires t == 2 * j + b && 0 <= b < 2
    ensures t / 2 == j && t % 2 == b
  {
  }

  /** Even dimensions give an even chroma part. */
  lemma EvenDimensionsOk(data: seq<byte>, w: int, h: int)
    requires w >= 0 && h >= 0 && w % 2 == 0 && h % 2 == 0
    requires |data| == BufferSize(w, h)
    ensures Ok180(data, w, h)
  {
    var a := w / 2;
    var c := h / 2;
    assert w * h == 4 * (a * c);
    MulPos(a, c);
  }

  /* ---------- rotate ---------- */

  /** What `rotate` produced, by the rotation it chose. */
  datatype Rotation = By270 | By180 | By90

  /** `rotate`: 270 and 180 select their rotation, every other degree
      value, 0 and 90 included, selects `rotate90`. */
  function Dispatch(rotateDegree: int): (r: Rotation)
    ensures r == By270 <==> rotateDegree == 270
    ensures r == By180 <==> rotateDegree == 180
  {
    if rotateDegree == 270 then By270 else if rotateDegree == 180 then By180 else By90
  }

  method RotateBy(bytes: seq<byte>, w: int, h: int, rotateDegree: int) returns (r: Option<seq<byte>>)
    ensures Dispatch(rotateDegree) == By270 ==> (r.Some? <==> ReadsInRange(bytes, w, h)) && (r.Some? ==> Rotated270(bytes, w, h, r.value))
    ensures Dispatch(rotateDegree) == By180 ==> (r.Some? <==> Ok180(bytes, w, h)) && (r.Some? ==> r.value == Rotated180(bytes, w, h))
    ensures Dispatch(rotateDegree) == By90 ==> (r.Some? <==> ReadsInRange(bytes, w, h)) && (r.Some? ==> Rotated90(bytes, w, h, r.value))
  {
    if rotateDegree == 270 {
      r := Rotate270(bytes, w, h);
    } else if rotateDegree == 180 {
      r := Rotate180(bytes, w, h);
    } else {
      r := Rotate90(bytes, w, h);
    }
  }
}
