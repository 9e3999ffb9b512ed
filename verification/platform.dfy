/** Platform helpers of `Extensions.kt`: the bit test on Kotlin `Int`s and
    the decision that names the CPU architecture the bootstrap is chosen
    for. The Android `Build` fields and the `os.arch` property are
    parameters. */
module Platform {
  import opened Wrappers

  /** A Kotlin/JVM `Int`. */
  type int32 = i: int | -0x8000_0000 <= i < 0x8000_0000

  /** The two's-complement bit pattern of an `Int`, read as an unsigned number. */
  function Unsigned(i: int32): (u: nat)
    ensures u < 0x1_0000_0000
    ensures u % 0x1_0000_0000 == i % 0x1_0000_0000
  {
    if i < 0 then i + 0x1_0000_0000 else i
  }

  function Pow2(k: nat): (p: nat)
    ensures p >= 1
  {
    if k == 0 then 1 else 2 * Pow2(k - 1)
  }

  /** `Int.isBitSet(bit)`: `(this and (1 shl bit)) != 0`. The JVM uses only
      the low five bits of a shift distance, so the bit tested is
      `bit mod 32`; a power-of-two mask meets the pattern iff that bit of
      the pattern is 1. */
  predicate IsBitSet(n: int32, bit: int32) {
    (Unsigned(n) / Pow2(bit % 32)) % 2 == 1
  }

  /** Shift distances wrap modulo 32. */
  lemma BitIndexWraps(n: int32, bit: int32)
    requires bit + 32 < 0x8000_0000
    ensures IsBitSet(n, bit + 32) == IsBitSet(n, bit)
  {
    assert (bit + 32) % 32 == bit % 32;
  }

  /** Bit 0 of an `Int` is set exactly when the number is odd, negative
      numbers included (two's complement and Euclidean remainder agree). */
  lemma BitZeroIsOddness(n: int32)
    ensures IsBitSet(n, 0) <==> n % 2 == 1
  {
    assert Pow2(0) == 1;
    assert Unsigned(n) % 2 == n % 2;
  }

  /** `Build.VERSION_CODES.LOLLIPOP`. */
  const Lollipop := 21

  /** What `is64Bit` reads from `android.os.Build`. */
  datatype BuildInfo = BuildInfo(
    sdkInt: int,
    supported64BitAbis: Option<seq<string>>,
    cpuAbi: string,
    cpuAbi2: string)

  /** `is64Bit`: from Lollipop on, a non-null, non-empty list of 64-bit ABIs;
      before it, the legacy ABI fields naming x86. */
  predicate Is64Bit(b: BuildInfo) {
    if b.sdkInt >= Lollipop then b.supported64BitAbis.Some? && |b.supported64BitAbis.value| > 0
    else b.cpuAbi == "x86" || b.cpuAbi2 == "x86"
  }

  /** `getArchString`: `os.arch` when it names an Intel architecture,
      otherwise "aarch64" or "arm" by `is64Bit`. A missing `os.arch`
      property fails the `!!` assertion. */
  function GetArchString(osArch: Option<string>, b: BuildInfo): (r: Result<string, string>)
    ensures osArch.None? <==> r.Err?
    ensures r.Ok? ==> r.value in {"x86_64", "i686", "aarch64", "arm"}
    ensures r.Ok? && osArch.value in {"x86_64", "i686"} ==> r.value == osArch.value
    ensures r.Ok? && osArch.value !in {"x86_64", "i686"} ==> (r.value == "aarch64" <==> Is64Bit(b))
  {
    match osArch
    case None => Err("NullPointerException")
    case Some(arch) =>
      if arch != "x86_64" && arch != "i686" then Ok(if Is64Bit(b) then "aarch64" else "arm")
      else Ok(arch)
  }
}
