/**
 * The colour helper `generate_colors` of draw_charts.py and the muted
 * variant the flow diagram uses for its links.
 *
 * Colours are the strings the script builds, `rgba(R, G, B, 0.6)`. The
 * conversion from a hue/saturation/value triple to the three channels
 * (`colorsys.hsv_to_rgb` followed by `int(x * 255)`) is numeric library
 * code and is a parameter here: any function that yields channels 0..255.
 */
module Colors {
  import opened Text

  type Channel = x: int | 0 <= x < 256

  datatype Rgb = Rgb(red: Channel, green: Channel, blue: Channel)

  /** hsv_to_rgb(hue, saturation, value), scaled to integer channels. */
  type HsvToRgb = (real, real, real) -> Rgb

  /** The alpha every generated colour carries. */
  const BaseAlpha: string := "0.6"

  /** The alpha the links use. */
  const MutedAlpha: string := "0.3"

  /** The text `rgba(R, G, B, alpha)` with the channels in decimal. */
  function Rgba(c: Rgb, alpha: string): (s: string)
  {
    "rgba(" + Decimal(c.red) + ", " + Decimal(c.green) + ", " + Decimal(c.blue) + ", " + alpha + ")"
  }

  /** Every colour text starts with "rgba(" and ends with its alpha and ")". */
  lemma RgbaShape(c: Rgb, alpha: string)
    ensures |Rgba(c, alpha)| > |alpha| + 5
    ensures Rgba(c, alpha)[..5] == "rgba("
    ensures Rgba(c, alpha)[|Rgba(c, alpha)| - |alpha| - 1..] == alpha + ")"
  {
    var s := Rgba(c, alpha);
    var head := "rgba(" + Decimal(c.red) + ", " + Decimal(c.green) + ", " + Decimal(c.blue) + ", ";
    assert s == head + (alpha + ")");
  }

  /** The hue of colour i out of n: i/n of the way round the colour wheel. */
  function Hue(i: nat, n: nat): (h: real)
    requires i < n
  {
    i as real / n as real
  }

  /** Hues lie in [0, 1), and scaled by n they are the indices 0 .. n-1. */
  lemma HueScaled(i: nat, n: nat)
    requires i < n
    ensures 0.0 <= Hue(i, n) < 1.0
    ensures Hue(i, n) * n as real == i as real
  {
  }

  /** Distinct indices get distinct hues. */
  lemma HueInjective(i: nat, j: nat, n: nat)
    requires i < n && j < n && i != j
    ensures Hue(i, n) != Hue(j, n)
  {
    HueScaled(i, n);
    HueScaled(j, n);
  }

  /** Consecutive hues are 1/n apart: the wheel is divided evenly. */
  lemma HueEvenlySpaced(i: nat, n: nat)
    requires i + 1 < n
    ensures Hue(i + 1, n) - Hue(i, n) == 1.0 / n as real
  {
    HueScaled(i, n);
    HueScaled(i + 1, n);
    var d := Hue(i + 1, n) - Hue(i, n);
    assert d * n as real == 1.0;
  }

  /**
   * generate_colors(n, saturation, value): one colour per index below n,
   * colour i having hue i/n and alpha 0.6. For n = 0 the loop body never
   * runs, so i/n is never computed.
   */
  method GenerateColors(n: nat, saturation: real, value: real, toRgb: HsvToRgb)
    returns (colors: seq<string>)
    ensures |colors| == n
    ensures forall i :: 0 <= i < n ==> colors[i] == Rgba(toRgb(Hue(i, n), saturation, value), BaseAlpha)
  {
    colors := [];
    for i := 0 to n
      invariant |colors| == i
      invariant forall k :: 0 <= k < i ==> colors[k] == Rgba(toRgb(Hue(k, n), saturation, value), BaseAlpha)
    {
      var hue := i as real / n as real;
      var rgb := toRgb(hue, saturation, value);
      colors := colors + [Rgba(rgb, BaseAlpha)];
    }
  }

  /** The link colour: the colour's text with every "0.6" replaced by "0.3". */
  function Muted(color: string): (muted: string)
    ensures |muted| == |color|
  {
    Replace(color, BaseAlpha, MutedAlpha)
  }

  /**
   * The textual substitution touches the alpha and nothing else: the
   * channels are plain decimal integers, so no "0.6" occurs before it.
   */
  lemma MutedChangesOnlyAlpha(c: Rgb)
    ensures Muted(Rgba(c, BaseAlpha)) == Rgba(c, MutedAlpha)
  {
    var head := "rgba(" + Decimal(c.red) + ", " + Decimal(c.green) + ", " + Decimal(c.blue) + ", ";
    assert Rgba(c, BaseAlpha) == head + "0.6)";
    assert Rgba(c, MutedAlpha) == head + "0.3)";
    forall i | 0 <= i < |head| ensures head[i] != BaseAlpha[1] {
      HeadHasNoPoint(c, i);
    }
    ReplaceKeepsPrefix(head, "0.6)", BaseAlpha, MutedAlpha);
    assert Replace("0.6)", BaseAlpha, MutedAlpha) == "0.3)" by {
      assert "0.6)"[3..] == ")";
    }
  }

  /** The part of a colour before its alpha holds no '.'. */
  lemma HeadHasNoPoint(c: Rgb, i: nat)
    requires i < |"rgba(" + Decimal(c.red) + ", " + Decimal(c.green) + ", " + Decimal(c.blue) + ", "|
    ensures ("rgba(" + Decimal(c.red) + ", " + Decimal(c.green) + ", " + Decimal(c.blue) + ", ")[i] != '.'
  {
    var r, g, b := Decimal(c.red), Decimal(c.green), Decimal(c.blue);
    var head := "rgba(" + r + ", " + g + ", " + b + ", ";
    if i < 5 {
    } else if i < 5 + |r| {
      assert head[i] == r[i - 5];
    } else if i < 7 + |r| {
    } else if i < 7 + |r| + |g| {
      assert head[i] == g[i - 7 - |r|];
    } else if i < 9 + |r| + |g| {
    } else if i < 9 + |r| + |g| + |b| {
      assert head[i] == b[i - 9 - |r| - |g|];
    }
  }
}
