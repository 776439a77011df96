/** The colour-space conversions of the colour picker (lab 1): RGB to CMYK and
    RGB to HLS. The source computes in Java `float`; this model computes in
    `real`, so every `+ - * /` is exact and float rounding is abstracted away. */
module ColorPicker {

  /** A channel value accepted by the conversions: an integer in 0..255. */
  predicate IsChannel(v: int) { 0 <= v <= 255 }

  predicate IsRgb(r: int, g: int, b: int) { IsChannel(r) && IsChannel(g) && IsChannel(b) }

  /** The four components returned by rgbToCmyk, in the order c, m, y, k. */
  datatype Cmyk = Cmyk(c: real, m: real, y: real, k: real)

  /** The three components returned by rgbToHls: hue in degrees, lightness and
      saturation in percent. */
  datatype Hls = Hls(h: real, l: real, s: real)

  /** An RGB triple over the reals, used by the reference inverses. */
  datatype Rgb = Rgb(r: real, g: real, b: real)

  function Min(a: real, b: real): real { if a <= b then a else b }

  function Max(a: real, b: real): real { if a >= b then a else b }

  /** `v / 255f`: a channel normalised to [0, 1]. */
  function Norm(v: int): (x: real)
    requires IsChannel(v)
    ensures 0.0 <= x <= 1.0
    ensures x == 0.0 <==> v == 0
    ensures x == 1.0 <==> v == 255
  {
    v as real / 255.0
  }

  // ---------------------------------------------------------------------------
  // RGB -> CMYK
  // ---------------------------------------------------------------------------

  /** rgbToCmyk: c, m, y start as the complements of the normalised channels,
      k is their minimum; when k < 1 the three are rescaled by 1 - k, and the
      black case (k == 1) sets c = m = y = 0. */
  function RgbToCmyk(r: int, g: int, b: int): (out: Cmyk)
    requires IsRgb(r, g, b)
    ensures 0.0 <= out.k <= 1.0
    ensures 0.0 <= out.c <= 1.0 && 0.0 <= out.m <= 1.0 && 0.0 <= out.y <= 1.0
  {
    var c := 1.0 - Norm(r);
    var m := 1.0 - Norm(g);
    var y := 1.0 - Norm(b);
    var k := Min(c, Min(m, y));
    if k < 1.0 then
      Cmyk(Rebase(c, k), Rebase(m, k), Rebase(y, k), k)
    else
      Cmyk(0.0, 0.0, 0.0, k)
  }

  /** `(x - k) / (1 - k)` for a complement x that is at least k. */
  function Rebase(x: real, k: real): (z: real)
    requires 0.0 <= k <= x <= 1.0 && k < 1.0
    ensures 0.0 <= z <= 1.0
    ensures z == 0.0 <==> x == k
  {
    DivisionBounds(x - k, 1.0 - k);
    (x - k) / (1.0 - k)
  }

  lemma DivisionBounds(a: real, d: real)
    requires 0.0 <= a <= d && d > 0.0
    ensures 0.0 <= a / d <= 1.0
    ensures a / d == 0.0 <==> a == 0.0
  {
    assert a / d * d == a;
  }

  /** The key is 1 exactly for black, (0, 0, 0). */
  lemma CmykKeyIsOneOnlyForBlack(r: int, g: int, b: int)
    requires IsRgb(r, g, b)
    ensures RgbToCmyk(r, g, b).k == 1.0 <==> r == 0 && g == 0 && b == 0
  {
  }

  /** Black converts to (0, 0, 0, 1). */
  lemma CmykOfBlack()
    ensures RgbToCmyk(0, 0, 0) == Cmyk(0.0, 0.0, 0.0, 1.0)
  {
  }

  /** When k < 1, each of c, m, y is 0 exactly when its channel attains the
      maximum of the three (its complement attains the minimum k). */
  lemma CmykZeroAtMaxChannel(r: int, g: int, b: int)
    requires IsRgb(r, g, b)
    requires !(r == 0 && g == 0 && b == 0)
    ensures RgbToCmyk(r, g, b).k < 1.0
    ensures RgbToCmyk(r, g, b).c == 0.0 <==> r >= g && r >= b
    ensures RgbToCmyk(r, g, b).m == 0.0 <==> g >= r && g >= b
    ensures RgbToCmyk(r, g, b).y == 0.0 <==> b >= r && b >= g
  {
  }

  /** The usual inverse of the CMYK conversion: channel = 255 (1 - c)(1 - k). */
  function CmykToRgb(q: Cmyk): Rgb
  {
    Rgb(255.0 * ((1.0 - q.c) * (1.0 - q.k)),
        255.0 * ((1.0 - q.m) * (1.0 - q.k)),
        255.0 * ((1.0 - q.y) * (1.0 - q.k)))
  }

  /** The CMYK conversion loses nothing: inverting it gives back every input
      colour, black included. */
  lemma CmykRoundTrip(r: int, g: int, b: int)
    requires IsRgb(r, g, b)
    ensures CmykToRgb(RgbToCmyk(r, g, b)) == Rgb(r as real, g as real, b as real)
  {
    var q := RgbToCmyk(r, g, b);
    if r == 0 && g == 0 && b == 0 {
      CmykOfBlack();
    } else {
      CmykRebased(r, g, b);
      InvertRebased(q, r, g, b);
    }
  }

  lemma InvertRebased(q: Cmyk, r: int, g: int, b: int)
    requires IsRgb(r, g, b)
    requires 0.0 <= q.k < 1.0 &&
             q.k <= 1.0 - Norm(r) && q.k <= 1.0 - Norm(g) && q.k <= 1.0 - Norm(b) &&
             q.c == Rebase(1.0 - Norm(r), q.k) &&
             q.m == Rebase(1.0 - Norm(g), q.k) &&
             q.y == Rebase(1.0 - Norm(b), q.k)
    ensures CmykToRgb(q) == Rgb(r as real, g as real, b as real)
  {
    ChannelRoundTrip(r, q.k, q.c);
    ChannelRoundTrip(g, q.k, q.m);
    ChannelRoundTrip(b, q.k, q.y);
  }

  /** Away from black, each of c, m, y is its complement rebased on k. */
  lemma CmykRebased(r: int, g: int, b: int)
    requires IsRgb(r, g, b) && !(r == 0 && g == 0 && b == 0)
    ensures var q := RgbToCmyk(r, g, b);
            0.0 <= q.k < 1.0 &&
            q.k <= 1.0 - Norm(r) && q.k <= 1.0 - Norm(g) && q.k <= 1.0 - Norm(b) &&
            q.c == Rebase(1.0 - Norm(r), q.k) &&
            q.m == Rebase(1.0 - Norm(g), q.k) &&
            q.y == Rebase(1.0 - Norm(b), q.k)
  {
  }

  lemma ChannelRoundTrip(v: int, k: real, z: real)
    requires IsChannel(v) && 0.0 <= k <= 1.0 - Norm(v) && k < 1.0
    requires z == Rebase(1.0 - Norm(v), k)
    ensures 255.0 * ((1.0 - z) * (1.0 - k)) == v as real
  {
    var x := 1.0 - Norm(v);
    assert z * (1.0 - k) == x - k;
    assert (1.0 - z) * (1.0 - k) == 1.0 - x;
  }

  // ---------------------------------------------------------------------------
  // RGB -> HLS
  // ---------------------------------------------------------------------------

  /** The hue as a fraction of a full turn (the value of `h` after `h /= 6`):
      0 for an achromatic colour, otherwise the sector value over 6. */
  function HueFraction(rn: real, gn: real, bn: real): (h: real)
    requires 0.0 <= rn <= 1.0 && 0.0 <= gn <= 1.0 && 0.0 <= bn <= 1.0
    ensures 0.0 <= h < 1.0
    ensures Max(rn, Max(gn, bn)) == Min(rn, Min(gn, bn)) ==> h == 0.0
  {
    if Max(rn, Max(gn, bn)) == Min(rn, Min(gn, bn)) then 0.0
    else Sector(rn, gn, bn) / 6.0
  }

  /** The value of `h` before `h /= 6` for a chromatic colour: the sector offset
      (0 or 6, 2, 4) chosen by which channel is the maximum, red first, then
      green, plus the difference of the other two over the range. It lies in
      [0, 6): [0, 1] or [5, 6) when red is largest, [1, 3] when green is, and
      (3, 5) when blue is. */
  function Sector(rn: real, gn: real, bn: real): (sector: real)
    requires 0.0 <= rn <= 1.0 && 0.0 <= gn <= 1.0 && 0.0 <= bn <= 1.0
    requires Max(rn, Max(gn, bn)) != Min(rn, Min(gn, bn))
    ensures 0.0 <= sector < 6.0
    ensures Max(rn, Max(gn, bn)) == rn ==> sector <= 1.0 || 5.0 <= sector
    ensures Max(rn, Max(gn, bn)) != rn && Max(rn, Max(gn, bn)) == gn ==> 1.0 <= sector <= 3.0
    ensures Max(rn, Max(gn, bn)) != rn && Max(rn, Max(gn, bn)) != gn ==> 3.0 < sector < 5.0
  {
    var mx, mn := Max(rn, Max(gn, bn)), Min(rn, Min(gn, bn));
    var delta := mx - mn;
    if mx == rn then
      if gn < bn then RatioBounds(bn - gn, delta); (gn - bn) / delta + 6.0
      else RatioBounds(gn - bn, delta); (gn - bn) / delta + 0.0
    else if mx == gn then
      if bn < rn then RatioBounds(rn - bn, delta); (bn - rn) / delta + 2.0
      else RatioBounds(bn - rn, delta); (bn - rn) / delta + 2.0
    else
      if rn < gn then RatioBounds(gn - rn, delta); (rn - gn) / delta + 4.0
      else RatioBounds(rn - gn, delta); (rn - gn) / delta + 4.0
  }

  /** For 0 <= a <= d: a / d and -a / d lie in [0, 1] and [-1, 0]; and when
      a < d, a / d < 1. */
  lemma RatioBounds(a: real, d: real)
    requires 0.0 <= a <= d && d > 0.0
    ensures 0.0 <= a / d <= 1.0
    ensures -1.0 <= (-a) / d <= 0.0
    ensures a < d ==> a / d < 1.0
  {
    assert a / d * d == a;
    assert (-a) / d * d == -a;
  }

  /** The lightness before scaling: the mean of the largest and smallest
      normalised channel. */
  function Lightness(rn: real, gn: real, bn: real): (l: real)
    ensures Min(rn, Min(gn, bn)) <= l <= Max(rn, Max(gn, bn))
  {
    (Max(rn, Max(gn, bn)) + Min(rn, Min(gn, bn))) / 2.0
  }

  /** The saturation before scaling, with the guard for l == 0 and l == 1. */
  function Saturation(rn: real, gn: real, bn: real): (s: real)
    requires 0.0 <= rn <= 1.0 && 0.0 <= gn <= 1.0 && 0.0 <= bn <= 1.0
    ensures 0.0 <= s <= 1.0
  {
    var mx := Max(rn, Max(gn, bn));
    var mn := Min(rn, Min(gn, bn));
    var l := (mx + mn) / 2.0;
    if l == 0.0 || l == 1.0 then 0.0
    else
      DivisionBounds(mx - l, Min(l, 1.0 - l));
      (mx - l) / Min(l, 1.0 - l)
  }

  /** rgbToHls: H in degrees, L and S in percent. */
  function RgbToHls(r: int, g: int, b: int): (out: Hls)
    requires IsRgb(r, g, b)
    ensures 0.0 <= out.h < 360.0
    ensures 0.0 <= out.l <= 100.0
    ensures 0.0 <= out.s <= 100.0
  {
    var rn, gn, bn := Norm(r), Norm(g), Norm(b);
    Hls(HueFraction(rn, gn, bn) * 360.0,
        Lightness(rn, gn, bn) * 100.0,
        Saturation(rn, gn, bn) * 100.0)
  }

  /** A grey (r == g == b) has hue 0 and saturation 0; and saturation 0 occurs
      only for a grey. */
  lemma HlsAchromatic(r: int, g: int, b: int)
    requires IsRgb(r, g, b)
    ensures r == g == b ==> RgbToHls(r, g, b).h == 0.0
    ensures RgbToHls(r, g, b).s == 0.0 <==> r == g == b
  {
    var rn, gn, bn := Norm(r), Norm(g), Norm(b);
    if Max(rn, Max(gn, bn)) != Min(rn, Min(gn, bn)) {
      ChromaticSaturation(rn, gn, bn);
    }
  }

  /** A chromatic colour has a positive saturation. */
  lemma ChromaticSaturation(rn: real, gn: real, bn: real)
    requires 0.0 <= rn <= 1.0 && 0.0 <= gn <= 1.0 && 0.0 <= bn <= 1.0
    requires Max(rn, Max(gn, bn)) != Min(rn, Min(gn, bn))
    ensures Saturation(rn, gn, bn) > 0.0
  {
    var mx := Max(rn, Max(gn, bn));
    var mn := Min(rn, Min(gn, bn));
    var l := (mx + mn) / 2.0;
    assert 0.0 < l < 1.0;
    assert mx - l > 0.0;
    var d := Min(l, 1.0 - l);
    assert (mx - l) / d * d == mx - l;
  }

  /** For a chromatic colour the largest channel picks the hue's sector: red
      (checked first) gives [0, 60] or [300, 360), green (checked next)
      [60, 180], blue (180, 300). */
  lemma HueSectorOfMaxChannel(r: int, g: int, b: int)
    requires IsRgb(r, g, b) && !(r == g == b)
    ensures var h := RgbToHls(r, g, b).h;
            (r >= g && r >= b ==> h <= 60.0 || 300.0 <= h) &&
            (r < g && g >= b ==> 60.0 <= h <= 180.0) &&
            (r < b && g < b ==> 180.0 < h < 300.0)
  {
    var rn, gn, bn := Norm(r), Norm(g), Norm(b);
    HlsUnscaled(r, g, b);
    var sector := Sector(rn, gn, bn);
    assert RgbToHls(r, g, b).h == sector * 60.0;
  }

  /** The initial colour of the picker, pure red, is (0, 50, 100) in HLS. */
  lemma HlsOfRed()
    ensures RgbToHls(255, 0, 0) == Hls(0.0, 50.0, 100.0)
  {
  }

  /** The usual inverse of the HLS conversion: lightness and saturation give
      the largest and smallest channel, and the hue's sector (H / 60) says which
      channel is the largest, which the smallest, and where the third lies
      between them. */
  function HlsToRgb(q: Hls): Rgb
  {
    var n := UnitHlsToRgb(q.h / 60.0, q.l / 100.0, q.s / 100.0);
    Rgb(255.0 * n.r, 255.0 * n.g, 255.0 * n.b)
  }

  /** The inverse on unscaled components: sector in [0, 6), l and s in [0, 1]. */
  function UnitHlsToRgb(sector: real, l: real, s: real): Rgb
  {
    HuePlacement(sector, l + Spread(l, s), l - Spread(l, s))
  }

  /** Half the distance between the largest and smallest channel, as
      saturation and lightness give it. */
  function Spread(l: real, s: real): real
  {
    s * Min(l, 1.0 - l)
  }

  /** The normalised channels for a sector value in [0, 6), given the largest
      and smallest channel. */
  function HuePlacement(sector: real, mx: real, mn: real): Rgb
  {
    var range := mx - mn;
    if sector < 1.0 then Rgb(mx, mn + range * sector, mn)
    else if sector < 2.0 then Rgb(mn + range * (2.0 - sector), mx, mn)
    else if sector < 3.0 then Rgb(mn, mx, mn + range * (sector - 2.0))
    else if sector < 4.0 then Rgb(mn, mn + range * (4.0 - sector), mx)
    else if sector < 5.0 then Rgb(mn + range * (sector - 4.0), mn, mx)
    else Rgb(mx, mn, mn + range * (6.0 - sector))
  }

  /** The HLS conversion loses nothing: inverting it gives back every input
      colour, greys included. */
  lemma HlsRoundTrip(r: int, g: int, b: int)
    requires IsRgb(r, g, b)
    ensures HlsToRgb(RgbToHls(r, g, b)) == Rgb(r as real, g as real, b as real)
  {
    var rn, gn, bn := Norm(r), Norm(g), Norm(b);
    var q := RgbToHls(r, g, b);
    HlsUnscaled(r, g, b);
    UnitRoundTrip(rn, gn, bn);
  }

  /** The inverse on unscaled components gives back the normalised channels. */
  lemma UnitRoundTrip(rn: real, gn: real, bn: real)
    requires 0.0 <= rn <= 1.0 && 0.0 <= gn <= 1.0 && 0.0 <= bn <= 1.0
    ensures UnitHlsToRgb(HueFraction(rn, gn, bn) * 6.0, Lightness(rn, gn, bn),
                         Saturation(rn, gn, bn)) == Rgb(rn, gn, bn)
  {
    var mx, mn := Max(rn, Max(gn, bn)), Min(rn, Min(gn, bn));
    var sector := HueFraction(rn, gn, bn) * 6.0;
    var l, s := Lightness(rn, gn, bn), Saturation(rn, gn, bn);
    assert sector == if mx == mn then 0.0 else Sector(rn, gn, bn);
    ExtremesRecovered(rn, gn, bn);
    PlacementBetweenExtremes(sector, l, s, mx, mn);
    if mx == mn {
      GreyPlacement(rn, gn, bn);
    } else {
      PlacementRecoversChannels(rn, gn, bn);
    }
  }

  lemma PlacementBetweenExtremes(sector: real, l: real, s: real, mx: real, mn: real)
    requires l + Spread(l, s) == mx && l - Spread(l, s) == mn
    ensures UnitHlsToRgb(sector, l, s) == HuePlacement(sector, mx, mn)
  {
  }

  lemma GreyPlacement(rn: real, gn: real, bn: real)
    requires Max(rn, Max(gn, bn)) == Min(rn, Min(gn, bn))
    ensures HuePlacement(0.0, Max(rn, Max(gn, bn)), Min(rn, Min(gn, bn))) == Rgb(rn, gn, bn)
  {
  }

  /** Undoing the final scaling of rgbToHls gives the unscaled hue sector,
      lightness and saturation. */
  lemma HlsUnscaled(r: int, g: int, b: int)
    requires IsRgb(r, g, b)
    ensures var rn, gn, bn := Norm(r), Norm(g), Norm(b);
            var q := RgbToHls(r, g, b);
            q.h / 60.0 == (if Max(rn, Max(gn, bn)) == Min(rn, Min(gn, bn)) then 0.0
                           else Sector(rn, gn, bn)) &&
            q.l / 100.0 == Lightness(rn, gn, bn) &&
            q.s / 100.0 == Saturation(rn, gn, bn)
  {
  }

  /** Lightness and saturation determine the largest and smallest channel:
      max = l + s min(l, 1 - l) and min = l - s min(l, 1 - l). */
  lemma ExtremesRecovered(rn: real, gn: real, bn: real)
    requires 0.0 <= rn <= 1.0 && 0.0 <= gn <= 1.0 && 0.0 <= bn <= 1.0
    ensures Lightness(rn, gn, bn) + Spread(Lightness(rn, gn, bn), Saturation(rn, gn, bn))
            == Max(rn, Max(gn, bn))
    ensures Lightness(rn, gn, bn) - Spread(Lightness(rn, gn, bn), Saturation(rn, gn, bn))
            == Min(rn, Min(gn, bn))
  {
    var mx, mn := Max(rn, Max(gn, bn)), Min(rn, Min(gn, bn));
    var l, s := Lightness(rn, gn, bn), Saturation(rn, gn, bn);
    assert 0.0 <= mn <= mx <= 1.0;
    ExtremesFromLightness(mx, mn, l, s);
  }

  /** The arithmetic of ExtremesRecovered, on the extremes themselves. */
  lemma ExtremesFromLightness(mx: real, mn: real, l: real, s: real)
    requires 0.0 <= mn <= mx <= 1.0
    requires l == (mx + mn) / 2.0
    requires s == if l == 0.0 || l == 1.0 then 0.0 else (mx - l) / Min(l, 1.0 - l)
    ensures l + Spread(l, s) == mx
    ensures l - Spread(l, s) == mn
  {
    var m := Min(l, 1.0 - l);
    if mx != mn {
      assert 0.0 < l < 1.0;
      assert s * m == mx - l;
    } else {
      assert s == 0.0 by {
        if l != 0.0 && l != 1.0 {
          assert mx - l == 0.0;
        }
      }
      assert s * m == 0.0;
    }
  }

  /** Placing the hue sector between the extremes gives back the channels;
      one lemma per branch of the sector formula. */
  lemma PlacementRecoversChannels(rn: real, gn: real, bn: real)
    requires 0.0 <= rn <= 1.0 && 0.0 <= gn <= 1.0 && 0.0 <= bn <= 1.0
    requires Max(rn, Max(gn, bn)) != Min(rn, Min(gn, bn))
    ensures HuePlacement(Sector(rn, gn, bn),
                         Max(rn, Max(gn, bn)), Min(rn, Min(gn, bn))) == Rgb(rn, gn, bn)
  {
    var mx := Max(rn, Max(gn, bn));
    if mx == rn {
      if gn < bn { PlacementRedMaxGreenMin(rn, gn, bn); } else { PlacementRedMaxBlueMin(rn, gn, bn); }
    } else if mx == gn {
      if bn < rn { PlacementGreenMaxBlueMin(rn, gn, bn); } else { PlacementGreenMaxRedMin(rn, gn, bn); }
    } else {
      if rn < gn { PlacementBlueMaxRedMin(rn, gn, bn); } else { PlacementBlueMaxGreenMin(rn, gn, bn); }
    }
  }

  lemma PlacementRedMaxGreenMin(rn: real, gn: real, bn: real)
    requires 0.0 <= rn <= 1.0 && 0.0 <= gn <= 1.0 && 0.0 <= bn <= 1.0
    requires Max(rn, Max(gn, bn)) != Min(rn, Min(gn, bn))
    requires Max(rn, Max(gn, bn)) == rn && gn < bn
    ensures HuePlacement(Sector(rn, gn, bn),
                         Max(rn, Max(gn, bn)), Min(rn, Min(gn, bn))) == Rgb(rn, gn, bn)
  {
    var mx, mn := Max(rn, Max(gn, bn)), Min(rn, Min(gn, bn));
    var delta := mx - mn;
    assert mn == gn;
    assert Sector(rn, gn, bn) == (gn - bn) / delta + 6.0;
    assert delta == rn - gn;
    RisingPlacement(gn, bn, rn);
    var t := (gn - bn) / (rn - gn);
    assert HuePlacement(t + 6.0, rn, gn) == Rgb(rn, gn, bn);
  }

  lemma PlacementRedMaxBlueMin(rn: real, gn: real, bn: real)
    requires 0.0 <= rn <= 1.0 && 0.0 <= gn <= 1.0 && 0.0 <= bn <= 1.0
    requires Max(rn, Max(gn, bn)) != Min(rn, Min(gn, bn))
    requires Max(rn, Max(gn, bn)) == rn && gn >= bn
    ensures HuePlacement(Sector(rn, gn, bn),
                         Max(rn, Max(gn, bn)), Min(rn, Min(gn, bn))) == Rgb(rn, gn, bn)
  {
    var mx, mn := Max(rn, Max(gn, bn)), Min(rn, Min(gn, bn));
    var delta := mx - mn;
    assert mn == bn;
    assert Sector(rn, gn, bn) == (gn - bn) / delta + 0.0;
    assert delta == rn - bn;
    FallingPlacement(bn, gn, rn);
    var t := (gn - bn) / (rn - bn);
    assert HuePlacement(t + 0.0, rn, bn) == Rgb(rn, gn, bn);
  }

  lemma PlacementGreenMaxBlueMin(rn: real, gn: real, bn: real)
    requires 0.0 <= rn <= 1.0 && 0.0 <= gn <= 1.0 && 0.0 <= bn <= 1.0
    requires Max(rn, Max(gn, bn)) != Min(rn, Min(gn, bn))
    requires Max(rn, Max(gn, bn)) != rn && Max(rn, Max(gn, bn)) == gn && bn < rn
    ensures HuePlacement(Sector(rn, gn, bn),
                         Max(rn, Max(gn, bn)), Min(rn, Min(gn, bn))) == Rgb(rn, gn, bn)
  {
    var mx, mn := Max(rn, Max(gn, bn)), Min(rn, Min(gn, bn));
    var delta := mx - mn;
    assert mn == bn;
    assert Sector(rn, gn, bn) == (bn - rn) / delta + 2.0;
    assert delta == gn - bn;
    RisingPlacement(bn, rn, gn);
    var t := (bn - rn) / (gn - bn);
    assert HuePlacement(t + 2.0, gn, bn) == Rgb(rn, gn, bn);
  }

  lemma PlacementGreenMaxRedMin(rn: real, gn: real, bn: real)
    requires 0.0 <= rn <= 1.0 && 0.0 <= gn <= 1.0 && 0.0 <= bn <= 1.0
    requires Max(rn, Max(gn, bn)) != Min(rn, Min(gn, bn))
    requires Max(rn, Max(gn, bn)) != rn && Max(rn, Max(gn, bn)) == gn && bn >= rn
    ensures HuePlacement(Sector(rn, gn, bn),
                         Max(rn, Max(gn, bn)), Min(rn, Min(gn, bn))) == Rgb(rn, gn, bn)
  {
    var mx, mn := Max(rn, Max(gn, bn)), Min(rn, Min(gn, bn));
    var delta := mx - mn;
    assert mn == rn;
    assert Sector(rn, gn, bn) == (bn - rn) / delta + 2.0;
    assert delta == gn - rn;
    FallingPlacement(rn, bn, gn);
    var t := (bn - rn) / (gn - rn);
    assert HuePlacement(t + 2.0, gn, rn) == Rgb(rn, gn, bn);
  }

  lemma PlacementBlueMaxRedMin(rn: real, gn: real, bn: real)
    requires 0.0 <= rn <= 1.0 && 0.0 <= gn <= 1.0 && 0.0 <= bn <= 1.0
    requires Max(rn, Max(gn, bn)) != Min(rn, Min(gn, bn))
    requires Max(rn, Max(gn, bn)) != rn && Max(rn, Max(gn, bn)) != gn && rn < gn
    ensures HuePlacement(Sector(rn, gn, bn),
                         Max(rn, Max(gn, bn)), Min(rn, Min(gn, bn))) == Rgb(rn, gn, bn)
  {
    var mx, mn := Max(rn, Max(gn, bn)), Min(rn, Min(gn, bn));
    var delta := mx - mn;
    assert mn == rn;
    assert Sector(rn, gn, bn) == (rn - gn) / delta + 4.0;
    assert delta == bn - rn;
    RisingPlacement(rn, gn, bn);
    var t := (rn - gn) / (bn - rn);
    assert HuePlacement(t + 4.0, bn, rn) == Rgb(rn, gn, bn);
  }

  lemma PlacementBlueMaxGreenMin(rn: real, gn: real, bn: real)
    requires 0.0 <= rn <= 1.0 && 0.0 <= gn <= 1.0 && 0.0 <= bn <= 1.0
    requires Max(rn, Max(gn, bn)) != Min(rn, Min(gn, bn))
    requires Max(rn, Max(gn, bn)) != rn && Max(rn, Max(gn, bn)) != gn && rn >= gn
    ensures HuePlacement(Sector(rn, gn, bn),
                         Max(rn, Max(gn, bn)), Min(rn, Min(gn, bn))) == Rgb(rn, gn, bn)
  {
    var mx, mn := Max(rn, Max(gn, bn)), Min(rn, Min(gn, bn));
    var delta := mx - mn;
    assert mn == gn;
    assert Sector(rn, gn, bn) == (rn - gn) / delta + 4.0;
    assert delta == bn - gn;
    FallingPlacement(gn, rn, bn);
    var t := (rn - gn) / (bn - gn);
    assert HuePlacement(t + 4.0, bn, gn) == Rgb(rn, gn, bn);
  }

  /** A sector offset plus t = (mn - mid) / (mx - mn), with t in [-1, 0]:
      t gives back the middle channel, mid = mn - (mx - mn) t. */
  lemma RisingPlacement(mn: real, mid: real, mx: real)
    requires mn <= mid <= mx && mn < mx
    ensures var t := (mn - mid) / (mx - mn);
            -1.0 <= t <= 0.0 &&
            (mid < mx ==> -1.0 < t) &&
            (mn < mid ==> t < 0.0) &&
            mid == mn - (mx - mn) * t
  {
    RatioBounds(mid - mn, mx - mn);
    var d := mx - mn;
    assert (mn - mid) / d * d == mn - mid;
    assert (mid - mn) / d * d == mid - mn;
  }

  /** The same with t = (mid - mn) / (mx - mn) in [0, 1]:
      mid = mn + (mx - mn) t. */
  lemma FallingPlacement(mn: real, mid: real, mx: real)
    requires mn <= mid <= mx && mn < mx
    ensures var t := (mid - mn) / (mx - mn);
            0.0 <= t <= 1.0 &&
            (mid < mx ==> t < 1.0) &&
            mid == mn + (mx - mn) * t
  {
    RatioBounds(mid - mn, mx - mn);
    var d := mx - mn;
    assert (mid - mn) / d * d == mid - mn;
  }
}
