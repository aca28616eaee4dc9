/**
 * Colour output (src/vec3.rs, `Color::{linear_to_gamma, to_gamma, to_rgb}`):
 * gamma-2 correction and quantisation of each channel to a byte.
 */
module Colors {
  import opened Reals
  import opened Interval
  import opened Vec3

  /** The largest intensity before scaling to a byte. */
  const IntensityMax: real := 0.999

  /** `linear_to_gamma`: the square root of a positive channel, 0 otherwise. */
  function LinearToGamma(linear: real, sqrt: real -> real): (r: real)
    requires IsSqrt(sqrt)
    ensures 0.0 <= r
    ensures linear <= 0.0 ==> r == 0.0
    ensures 0.0 < linear ==> r * r == linear
  {
    if linear > 0.0 then sqrt(linear) else 0.0
  }

  /** Gamma correction undoes squaring: the corrected square of a positive `x` is `x`. */
  lemma GammaOfSquare(x: real, sqrt: real -> real)
    requires IsSqrt(sqrt)
    requires 0.0 < x
    ensures LinearToGamma(x * x, sqrt) == x
  {
    MulPos(x, x, x * x);
    SqrtOfSquare(sqrt, x);
  }

  /** Gamma correction keeps the order of channels. */
  lemma GammaMonotone(a: real, b: real, sqrt: real -> real)
    requires IsSqrt(sqrt)
    requires a <= b
    ensures LinearToGamma(a, sqrt) <= LinearToGamma(b, sqrt)
  {
    var ga := LinearToGamma(a, sqrt);
    var gb := LinearToGamma(b, sqrt);
    if gb < ga {
      SquareLt(gb, ga);
      if a <= 0.0 {
        assert false;
      }
    }
  }

  /**
   * `to_gamma`: gamma correction applied to every channel; each corrected
   * channel is non-negative and squares back to a positive input channel.
   */
  function ToGamma(c: Color, sqrt: real -> real): (r: Color)
    requires IsSqrt(sqrt)
    ensures 0.0 <= r.x && 0.0 <= r.y && 0.0 <= r.z
    ensures (0.0 < c.x ==> r.x * r.x == c.x) && (c.x <= 0.0 ==> r.x == 0.0)
    ensures (0.0 < c.y ==> r.y * r.y == c.y) && (c.y <= 0.0 ==> r.y == 0.0)
    ensures (0.0 < c.z ==> r.z * r.z == c.z) && (c.z <= 0.0 ==> r.z == 0.0)
  {
    Vec3(LinearToGamma(c.x, sqrt), LinearToGamma(c.y, sqrt), LinearToGamma(c.z, sqrt))
  }

  /**
   * One channel of `to_rgb`: clamped to [0, 0.999], scaled by 256 and
   * truncated by the `as u8` cast (the clamped value is non-negative, so
   * truncation is the floor).
   */
  function ChannelToByte(x: real): (r: int)
    ensures 0 <= r <= 255
    ensures x <= 0.0 ==> r == 0
    ensures IntensityMax <= x ==> r == 255
  {
    var v := Clamp(Interval(Fin(0.0), Fin(IntensityMax)), x);
    ContainsFinite(0.0, IntensityMax, x);
    ContainsFinite(0.0, IntensityMax, v);
    (v * 256.0).Floor
  }

  /** The byte is the floor of 256 times an in-range channel. */
  lemma ChannelToByteFloor(x: real)
    requires 0.0 <= x <= IntensityMax
    ensures ChannelToByte(x) as real <= 256.0 * x < ChannelToByte(x) as real + 1.0
  {
    ContainsFinite(0.0, IntensityMax, x);
  }

  /** Quantisation is monotone: a brighter channel never gets a smaller byte. */
  lemma ChannelToByteMonotone(a: real, b: real)
    requires a <= b
    ensures ChannelToByte(a) <= ChannelToByte(b)
  {
    var i := Interval(Fin(0.0), Fin(IntensityMax));
    ContainsFinite(0.0, IntensityMax, a);
    ContainsFinite(0.0, IntensityMax, b);
    ContainsFinite(0.0, IntensityMax, Clamp(i, a));
    ContainsFinite(0.0, IntensityMax, Clamp(i, b));
    assert Clamp(i, a) <= Clamp(i, b);
  }

  /** The three bytes of a pixel. */
  datatype Rgb = Rgb(r: int, g: int, b: int)

  /** `to_rgb`: every channel quantised on its own. */
  function ToRgb(c: Color): (p: Rgb)
    ensures 0 <= p.r <= 255 && 0 <= p.g <= 255 && 0 <= p.b <= 255
    ensures c == Zero ==> p == Rgb(0, 0, 0)
  {
    Rgb(ChannelToByte(c.x), ChannelToByte(c.y), ChannelToByte(c.z))
  }
}
