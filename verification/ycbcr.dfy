/** `yuv2rgb.rs`: the RenderScript kernel that turns a YUV 4:2:0 frame into
    RGBA pixels, with the JPEG (JFIF) YCbCr-to-RGB equations of ITU-T T.871
    clause 7 in 10-bit fixed point, and its three rotated variants.

    The planes are byte sequences with their line strides; `Width` and
    `Height` are the output allocation's dimensions, already swapped for
    the 90 and 270 degree variants. */
module YCbCr {
  import opened Text

  datatype Rgba = Rgba(r: int, g: int, b: int, a: int)

  /** The script's globals: the three planes and their line strides. */
  datatype Planes = Planes(y: seq<byte>, u: seq<byte>, v: seq<byte>, yLine: nat, uvLine: nat)

  /* ---------- arithmetic ---------- */

  /** C `/` by a positive divisor: truncates toward zero. */
  function CDiv(a: int, b: int): int
    requires b > 0
  {
    if a >= 0 then a / b else -((-a) / b)
  }

  /** The quotient truncates toward zero: the remainder it leaves has the
      sign of the dividend and is smaller than the divisor. */
  lemma CDivTruncates(a: int, b: int)
    requires b > 0
    ensures a >= 0 ==> 0 <= a - CDiv(a, b) * b < b
    ensures a < 0 ==> -b < a - CDiv(a, b) * b <= 0
  {
  }

  /** The two `if`s that bound a channel to a byte. */
  function Clamp(c: int): (r: int)
    ensures 0 <= r <= 255
    ensures 0 <= c <= 255 ==> r == c
    ensures c < 0 ==> r == 0
    ensures c > 255 ==> r == 255
  {
    if c < 0 then 0 else if c > 255 then 255 else c
  }

  /** `x & ~1`: the even column of the pair `x` belongs to. */
  function EvenColumn(x: nat): (e: nat)
    ensures e % 2 == 0 && e <= x < e + 2
  {
    x - x % 2
  }

  /* ---------- the colour equations ---------- */

  /** The three channel offsets as the kernel computes them, before
      clamping, from `Y` and the centred chroma `U = Cb - 128`,
      `V = Cr - 128`: `(512 + k * c) / 1024` with C division. */
  function ConvertAsWritten(y: int, u: int, v: int): (p: Rgba)
    ensures p.a == 255
    ensures 0 <= p.r <= 255 && 0 <= p.g <= 255 && 0 <= p.b <= 255
  {
    Rgba(Clamp(y + CDiv(512 + 1436 * v, 1024)),
         Clamp(y + CDiv(512 - 352 * u - 731 * v, 1024)),
         Clamp(y + CDiv(512 + 1815 * u, 1024)),
         255)
  }

  /** The same equations with the `+ 512` doing what it is there for:
      rounding to the nearest integer, which needs floor division. */
  function Convert(y: int, u: int, v: int): (p: Rgba)
    ensures p.a == 255
    ensures 0 <= p.r <= 255 && 0 <= p.g <= 255 && 0 <= p.b <= 255
  {
    Rgba(Clamp(y + RoundedTerm(1436 * v)),
         Clamp(y + RoundedTerm(-352 * u - 731 * v)),
         Clamp(y + RoundedTerm(1815 * u)),
         255)
  }

  /** `t / 1024` rounded to the nearest integer, halves upward. */
  function RoundedTerm(t: int): (q: int)
    ensures 1024 * q - 512 <= t < 1024 * q + 512
  {
    (512 + t) / 1024
  }

  /** The corrected channels are the nearest integers to the T.871
      equations with the fixed-point coefficients 1436/1024, 352/1024,
      731/1024 and 1815/1024, up to clamping. */
  lemma ConvertRounds(y: int, u: int, v: int)
    ensures var p := Convert(y, u, v);
      && (0 <= y + RoundedTerm(1436 * v) <= 255 ==> 1024 * p.r - 512 <= 1024 * y + 1436 * v < 1024 * p.r + 512)
      && (0 <= y + RoundedTerm(-352 * u - 731 * v) <= 255 ==> 1024 * p.g - 512 <= 1024 * y - 352 * u - 731 * v < 1024 * p.g + 512)
      && (0 <= y + RoundedTerm(1815 * u) <= 255 ==> 1024 * p.b - 512 <= 1024 * y + 1815 * u < 1024 * p.b + 512)
  {
  }

  /** The fixed-point red term stays within 0.55 of T.871's `1.402 (Cr - 128)`
      for every chroma byte. */
  lemma RedCloseToStandard(v: int)
    requires -128 <= v <= 127
    ensures -0.55 < RoundedTerm(1436 * v) as real - 1.402 * v as real < 0.55
  {
  }

  /** With C's truncating division the `+ 512` rounds a negative term the
      wrong way: a red term of -1.402 comes out as 0, not -1. */
  lemma TruncationBiasAsWritten()
    ensures ConvertAsWritten(100, 0, -1).r == 100
    ensures Convert(100, 0, -1).r == 99
    ensures !(1024 * ConvertAsWritten(100, 0, -1).r - 512 <= 1024 * 100 + 1436 * -1)
  {
    assert CDiv(512 + 1436 * -1, 1024) == 0;
    assert RoundedTerm(1436 * -1) == -1;
  }

  /** Truncating the rounded term instead of flooring it never lowers it
      and raises it by at most one; they agree whenever `512 + t` is not
      negative. */
  lemma TruncatedTermWithinOne(t: int)
    ensures RoundedTerm(t) <= CDiv(512 + t, 1024) <= RoundedTerm(t) + 1
    ensures 512 + t >= 0 ==> CDiv(512 + t, 1024) == RoundedTerm(t)
  {
    if 512 + t < 0 {
      var n := -(512 + t);
      var q := n / 1024;
      assert n == 1024 * q + n % 1024;
      assert 512 + t == 1024 * (-q) - n % 1024;
    }
  }

  /** Each channel of `w` is that of `c` or one more. */
  predicate WithinOne(c: Rgba, w: Rgba) {
    c.r <= w.r <= c.r + 1 && c.g <= w.g <= c.g + 1 && c.b <= w.b <= c.b + 1
  }

  /** Clamping keeps a difference of at most one. */
  lemma ClampWithinOne(a: int, b: int)
    requires a <= b <= a + 1
    ensures Clamp(a) <= Clamp(b) <= Clamp(a) + 1
  {
  }

  /** Each channel as written is the corrected channel or one more, and
      they agree wherever the chroma term is not below -0.5. */
  lemma AsWrittenWithinOne(y: int, u: int, v: int)
    ensures WithinOne(Convert(y, u, v), ConvertAsWritten(y, u, v))
    ensures var w, c := ConvertAsWritten(y, u, v), Convert(y, u, v);
      && (512 + 1436 * v >= 0 ==> w.r == c.r)
      && (512 - 352 * u - 731 * v >= 0 ==> w.g == c.g)
      && (512 + 1815 * u >= 0 ==> w.b == c.b)
  {
    TruncatedTermWithinOne(1436 * v);
    TruncatedTermWithinOne(-352 * u - 731 * v);
    TruncatedTermWithinOne(1815 * u);
    ClampWithinOne(y + RoundedTerm(1436 * v), y + CDiv(512 + 1436 * v, 1024));
    ClampWithinOne(y + RoundedTerm(-352 * u - 731 * v), y + CDiv(512 - 352 * u - 731 * v, 1024));
    ClampWithinOne(y + RoundedTerm(1815 * u), y + CDiv(512 + 1815 * u, 1024));
  }

  /** Neutral chroma gives grey: R = G = B = Y. */
  lemma NeutralChromaIsGrey(y: int)
    requires 0 <= y <= 255
    ensures Convert(y, 0, 0) == Rgba(y, y, y, 255)
    ensures ConvertAsWritten(y, 0, 0) == Rgba(y, y, y, 255)
  {
  }

  /* ---------- the kernels ---------- */

  predicate InPlanes(p: Planes, x: nat, y: nat) {
    && x + y * p.yLine < |p.y|
    && EvenColumn(x) + (y / 2) * p.uvLine < |p.u|
    && EvenColumn(x) + (y / 2) * p.uvLine < |p.v|
  }

  /** Where pixel `(x, y)` reads its chroma. */
  function ChromaIndex(p: Planes, x: nat, y: nat): nat
  {
    EvenColumn(x) + (y / 2) * p.uvLine
  }

  /** What pixel `(x, y)` reads: its own luma sample and the chroma sample
      of its 2x2 block, centred on zero. */
  datatype Sample = Sample(luma: int, u: int, v: int)

  function SampleAt(p: Planes, x: nat, y: nat): (s: Sample)
    requires InPlanes(p, x, y)
    ensures 0 <= s.luma < 256 && -128 <= s.u < 128 && -128 <= s.v < 128
  {
    var c := ChromaIndex(p, x, y);
    Sample(p.y[x + y * p.yLine], p.u[c] as int - 128, p.v[c] as int - 128)
  }

  /** `YUV420toRGB(x, y)` with the rounding corrected: the pixel's sample
      through `Convert`. The kernel as the script computes it is
      `KernelAsWritten`. */
  function Kernel(p: Planes, x: nat, y: nat): (px: Rgba)
    requires InPlanes(p, x, y)
    ensures px.a == 255
  {
    var s := SampleAt(p, x, y);
    Convert(s.luma, s.u, s.v)
  }

  /** `YUV420toRGB(x, y)` as written, with C division. */
  function KernelAsWritten(p: Planes, x: nat, y: nat): (px: Rgba)
    requires InPlanes(p, x, y)
    ensures px.a == 255
  {
    var s := SampleAt(p, x, y);
    ConvertAsWritten(s.luma, s.u, s.v)
  }

  /** Each channel of the kernel as written is the corrected kernel's or
      one more. */
  lemma KernelAsWrittenWithinOne(p: Planes, x: nat, y: nat)
    requires InPlanes(p, x, y)
    ensures WithinOne(Kernel(p, x, y), KernelAsWritten(p, x, y))
  {
    var s := SampleAt(p, x, y);
    AsWrittenWithinOne(s.luma, s.u, s.v);
  }

  /** Which of the two kernels a rotated kernel calls. */
  datatype Variant = AsWritten | Corrected

  function KernelOf(variant: Variant, p: Planes, x: nat, y: nat): Rgba
    requires InPlanes(p, x, y)
  {
    match variant
    case AsWritten => KernelAsWritten(p, x, y)
    case Corrected => Kernel(p, x, y)
  }

  /** A 2x2 block of pixels shares one chroma sample: the columns `2k`
      and `2k + 1` of the rows `2j` and `2j + 1`. */
  lemma BlockSharesChroma(p: Planes, k: nat, j: nat, dx: nat, dy: nat)
    requires dx < 2 && dy < 2
    ensures ChromaIndex(p, 2 * k + dx, 2 * j + dy) == ChromaIndex(p, 2 * k, 2 * j)
  {
    assert (2 * j + dy) / 2 == j == (2 * j) / 2;
    assert EvenColumn(2 * k + dx) == 2 * k == EvenColumn(2 * k);
  }

  /** An input frame of `sw` x `sh` pixels, all of which are in the planes. */
  predicate Frame(p: Planes, sw: nat, sh: nat) {
    forall x: nat, y: nat :: x < sw && y < sh ==> InPlanes(p, x, y)
  }

  /** The source pixel each rotated kernel reads for output pixel `(x, y)`
      of a `width` x `height` output. */
  function Source180(width: nat, height: nat, x: nat, y: nat): (s: (nat, nat))
    requires x < width && y < height
    ensures s.0 < width && s.1 < height
  {
    (width - 1 - x, height - 1 - y)
  }

  function Source90(width: nat, height: nat, x: nat, y: nat): (s: (nat, nat))
    requires x < width && y < height
    ensures s.0 < height && s.1 < width
  {
    (y, width - x - 1)
  }

  function Source270(width: nat, height: nat, x: nat, y: nat): (s: (nat, nat))
    requires x < width && y < height
    ensures s.0 < height && s.1 < width
  {
    (height - 1 - y, x)
  }

  /** The 180 degree map is its own inverse, and the 90 and 270 degree maps
      undo each other: each output pixel comes from exactly one source
      pixel and every source pixel is used. */
  lemma SourceMapsInvert(width: nat, height: nat, x: nat, y: nat)
    requires x < width && y < height
    ensures Source180(width, height, Source180(width, height, x, y).0, Source180(width, height, x, y).1) == (x, y)
    ensures
      var s := Source90(width, height, x, y);
      Source270(height, width, s.0, s.1) == (x, y)
    ensures
      var s := Source270(width, height, x, y);
      Source90(height, width, s.0, s.1) == (x, y)
  {
  }

  /** `YUV420toRGB_180`, `_90` and `_270` over an output of `width` x
      `height`: the plain kernel, as written or corrected, at the source
      pixel. */
  function Kernel180(variant: Variant, p: Planes, width: nat, height: nat, x: nat, y: nat): (px: Rgba)
    requires x < width && y < height && Frame(p, width, height)
    ensures px == KernelOf(variant, p, width - 1 - x, height - 1 - y)
  {
    var s := Source180(width, height, x, y);
    KernelOf(variant, p, s.0, s.1)
  }

  function Kernel90(variant: Variant, p: Planes, width: nat, height: nat, x: nat, y: nat): (px: Rgba)
    requires x < width && y < height && Frame(p, height, width)
    ensures px == KernelOf(variant, p, y, width - x - 1)
  {
    var s := Source90(width, height, x, y);
    KernelOf(variant, p, s.0, s.1)
  }

  function Kernel270(variant: Variant, p: Planes, width: nat, height: nat, x: nat, y: nat): (px: Rgba)
    requires x < width && y < height && Frame(p, height, width)
    ensures px == KernelOf(variant, p, height - 1 - y, x)
  {
    var s := Source270(width, height, x, y);
    KernelOf(variant, p, s.0, s.1)
  }

  /** Every pixel of an `sw` x `sh` source frame shows up in each rotated
      output, as written and corrected alike: at the mirrored point of the
      180 degree output, and at the quarter-turned point of the `sh` x `sw`
      outputs of the 90 and 270 degree kernels. */
  lemma EverySourcePixelShown(variant: Variant, p: Planes, sw: nat, sh: nat, sx: nat, sy: nat)
    requires Frame(p, sw, sh) && sx < sw && sy < sh
    ensures Kernel180(variant, p, sw, sh, sw - 1 - sx, sh - 1 - sy) == KernelOf(variant, p, sx, sy)
    ensures Kernel90(variant, p, sh, sw, sh - 1 - sy, sx) == KernelOf(variant, p, sx, sy)
    ensures Kernel270(variant, p, sh, sw, sy, sw - 1 - sx) == KernelOf(variant, p, sx, sy)
  {
  }

  /** The rotated kernels as written show the same truncation bias: a frame
      whose only pixel has Y = 100 and Cr = 127 comes out with red 100 from
      every rotation, where the corrected kernels give 99. */
  lemma RotatedTruncationBiasAsWritten()
    ensures var p := Planes([100], [128], [127], 1, 1);
      && Kernel180(AsWritten, p, 1, 1, 0, 0).r == 100 && Kernel180(Corrected, p, 1, 1, 0, 0).r == 99
      && Kernel90(AsWritten, p, 1, 1, 0, 0).r == 100 && Kernel90(Corrected, p, 1, 1, 0, 0).r == 99
      && Kernel270(AsWritten, p, 1, 1, 0, 0).r == 100 && Kernel270(Corrected, p, 1, 1, 0, 0).r == 99
  {
    var p := Planes([100], [128], [127], 1, 1);
    OnePixelFrame();
    EverySourcePixelShown(AsWritten, p, 1, 1, 0, 0);
    EverySourcePixelShown(Corrected, p, 1, 1, 0, 0);
  }

  /** The one-pixel frame of `RotatedTruncationBiasAsWritten`. */
  lemma OnePixelFrame()
    ensures var p := Planes([100], [128], [127], 1, 1);
      && Frame(p, 1, 1)
      && KernelOf(AsWritten, p, 0, 0).r == 100 && KernelOf(Corrected, p, 0, 0).r == 99
  {
    var p := Planes([100], [128], [127], 1, 1);
    forall x: nat, y: nat | x < 1 && y < 1 ensures InPlanes(p, x, y) {
      assert x == 0 && y == 0;
    }
    OnePixel(p);
  }

  lemma OnePixel(p: Planes)
    requires p == Planes([100], [128], [127], 1, 1)
    ensures InPlanes(p, 0, 0)
    ensures KernelAsWritten(p, 0, 0).r == 100
    ensures Kernel(p, 0, 0).r == 99
  {
    assert IsOnePixel(p);
    OnePixelAsWritten(p);
    OnePixelCorrected(p);
  }

  predicate IsOnePixel(p: Planes) {
    && |p.y| == 1 && |p.u| == 1 && |p.v| == 1 && p.yLine == 1 && p.uvLine == 1
    && p.y[0] == 100 && p.u[0] == 128 && p.v[0] == 127
  }

  lemma OnePixelAsWritten(p: Planes)
    requires IsOnePixel(p)
    ensures InPlanes(p, 0, 0) && KernelAsWritten(p, 0, 0).r == 100
  {
    assert ChromaIndex(p, 0, 0) == 0;
    assert SampleAt(p, 0, 0) == Sample(100, 0, -1);
    assert CDiv(512 + 1436 * -1, 1024) == 0;
  }

  lemma OnePixelCorrected(p: Planes)
    requires IsOnePixel(p)
    ensures InPlanes(p, 0, 0) && Kernel(p, 0, 0).r == 99
  {
    assert ChromaIndex(p, 0, 0) == 0;
    assert SampleAt(p, 0, 0) == Sample(100, 0, -1);
    assert RoundedTerm(1436 * -1) == -1;
  }
}
