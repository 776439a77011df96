/** The min-max rescale at the end of lab 2's `linear_contrast` handler: the
    brightened and amplified buffer is converted to floating point, one global
    minimum and one global maximum are taken over every sample of every
    channel, each sample is mapped to 255 (v - min) / (max - min), clipped to
    [0, 255] and cast to an 8-bit integer. The arithmetic is over `real`
    (float32 rounding is abstracted away); the cast truncates, which on the
    clipped, non-negative values is the floor. */
module ContrastStretch {
  import opened Wrappers
  import opened ImageBuffer

  /** Why no rescaled buffer exists: `np.min` of an empty array raises, and a
      constant buffer makes the divisor `max_val - min_val` zero. */
  datatype RescaleError = EmptyBuffer | ZeroRange

  /** `np.min` over the whole buffer. */
  function MinSample(s: seq<int>): (m: int)
    requires |s| > 0
    ensures m <= s[0]
  {
    if |s| == 1 then s[0]
    else
      var rest := MinSample(s[1..]);
      if s[0] <= rest then s[0] else rest
  }

  /** `np.max` over the whole buffer. */
  function MaxSample(s: seq<int>): (m: int)
    requires |s| > 0
    ensures m >= s[0]
  {
    if |s| == 1 then s[0]
    else
      var rest := MaxSample(s[1..]);
      if s[0] >= rest then s[0] else rest
  }

  /** MinSample is the least sample: it occurs in the buffer and no sample is
      below it. */
  lemma {:induction false} MinSampleIsLeast(s: seq<int>)
    requires |s| > 0
    ensures exists k :: 0 <= k < |s| && s[k] == MinSample(s)
    ensures forall i :: 0 <= i < |s| ==> MinSample(s) <= s[i]
  {
    if |s| > 1 {
      MinSampleIsLeast(s[1..]);
      var k :| 0 <= k < |s| - 1 && s[1..][k] == MinSample(s[1..]);
      if s[0] > MinSample(s[1..]) {
        assert s[k + 1] == MinSample(s);
      } else {
        assert s[0] == MinSample(s);
      }
      forall i | 1 <= i < |s| ensures MinSample(s) <= s[i] {
        assert s[i] == s[1..][i - 1];
      }
    } else {
      assert s[0] == MinSample(s);
    }
  }

  /** MaxSample is the greatest sample: it occurs in the buffer and no sample
      is above it. */
  lemma {:induction false} MaxSampleIsGreatest(s: seq<int>)
    requires |s| > 0
    ensures exists k :: 0 <= k < |s| && s[k] == MaxSample(s)
    ensures forall i :: 0 <= i < |s| ==> s[i] <= MaxSample(s)
  {
    if |s| > 1 {
      MaxSampleIsGreatest(s[1..]);
      var k :| 0 <= k < |s| - 1 && s[1..][k] == MaxSample(s[1..]);
      if s[0] < MaxSample(s[1..]) {
        assert s[k + 1] == MaxSample(s);
      } else {
        assert s[0] == MaxSample(s);
      }
      forall i | 1 <= i < |s| ensures s[i] <= MaxSample(s) {
        assert s[i] == s[1..][i - 1];
      }
    } else {
      assert s[0] == MaxSample(s);
    }
  }

  /** `255 * (v - min_val) / (max_val - min_val)`. */
  function Scale(v: int, lo: int, hi: int): (x: real)
    requires lo < hi
    ensures v == lo ==> x == 0.0
    ensures v == hi ==> x == 255.0
    ensures lo <= v <= hi ==> 0.0 <= x <= 255.0
  {
    var d := (hi - lo) as real;
    var n := 255.0 * (v - lo) as real;
    assert n / d * d == n;
    n / d
  }

  /** `np.clip(x, 0, 255)`. */
  function Clip(x: real): (y: real)
    ensures 0.0 <= y <= 255.0
    ensures 0.0 <= x <= 255.0 ==> y == x
  {
    if x < 0.0 then 0.0 else if x > 255.0 then 255.0 else x
  }

  /** `.astype(np.uint8)` on a clipped value: truncation toward zero, which for
      a value in [0, 255] is the floor. */
  function ToByte(x: real): (b: int)
    requires 0.0 <= x <= 255.0
    ensures IsByte(b)
    ensures b as real <= x < b as real + 1.0
  {
    x.Floor
  }

  /** One output sample for the bounds lo < hi. */
  function RescaleSample(v: int, lo: int, hi: int): (o: int)
    requires lo < hi
    ensures IsByte(o)
  {
    ToByte(Clip(Scale(v, lo, hi)))
  }

  /** The rescale of a whole buffer, with the two cases where the source has no
      result. */
  function Rescale(s: seq<int>): (r: Result<seq<int>, RescaleError>)
    ensures r == Err(EmptyBuffer) <==> |s| == 0
    ensures r == Err(ZeroRange) <==> |s| > 0 && MinSample(s) == MaxSample(s)
    ensures r.Ok? ==> |r.value| == |s| && IsByteBuffer(r.value)
  {
    if |s| == 0 then Err(EmptyBuffer)
    else
      var lo, hi := MinSample(s), MaxSample(s);
      if lo == hi then Err(ZeroRange)
      else Ok(seq(|s|, i requires 0 <= i < |s| => RescaleSample(s[i], lo, hi)))
  }

  /** Every output sample is the rescale of the sample at the same position,
      under the one pair of bounds taken over the whole buffer. */
  lemma RescaleAt(s: seq<int>, i: int)
    requires Rescale(s).Ok? && 0 <= i < |s|
    ensures MinSample(s) < MaxSample(s)
    ensures Rescale(s).value[i] == RescaleSample(s[i], MinSample(s), MaxSample(s))
  {
  }

  /** Within the bounds the scaled value already lies in [0, 255], so the clip
      changes nothing there; it only guards the cast. */
  lemma ScaleWithinRange(v: int, lo: int, hi: int)
    requires lo <= v <= hi && lo < hi
    ensures 0.0 <= Scale(v, lo, hi) <= 255.0
    ensures Clip(Scale(v, lo, hi)) == Scale(v, lo, hi)
  {
    var d := (hi - lo) as real;
    var x := 255.0 * (v - lo) as real;
    assert 0.0 <= x <= 255.0 * d;
    assert x / d * d == x;
  }

  /** The lower bound maps to 0 and the upper bound to 255. */
  lemma RescaleSampleAtBounds(lo: int, hi: int)
    requires lo < hi
    ensures RescaleSample(lo, lo, hi) == 0
    ensures RescaleSample(hi, lo, hi) == 255
  {
    var d := (hi - lo) as real;
    assert Scale(lo, lo, hi) == 0.0;
    assert Scale(hi, lo, hi) == 255.0 by {
      assert 255.0 * d / d == 255.0;
    }
  }

  /** The global minimum maps to 0 and the global maximum to 255. */
  lemma RescaleEndpoints(s: seq<int>, i: int)
    requires Rescale(s).Ok? && 0 <= i < |s|
    ensures s[i] == MinSample(s) ==> Rescale(s).value[i] == 0
    ensures s[i] == MaxSample(s) ==> Rescale(s).value[i] == 255
  {
    RescaleAt(s, i);
    RescaleSampleAtBounds(MinSample(s), MaxSample(s));
  }

  /** A rescaled buffer spans the full 8-bit range: its least sample is 0 and
      its greatest is 255. */
  lemma RescaleSpansFullRange(s: seq<int>)
    requires Rescale(s).Ok?
    ensures MinSample(Rescale(s).value) == 0
    ensures MaxSample(Rescale(s).value) == 255
  {
    var r := Rescale(s).value;
    var lo, hi := MinSample(s), MaxSample(s);
    MinSampleIsLeast(s);
    MaxSampleIsGreatest(s);
    MinSampleIsLeast(r);
    MaxSampleIsGreatest(r);
    var iLo :| 0 <= iLo < |s| && s[iLo] == lo;
    var iHi :| 0 <= iHi < |s| && s[iHi] == hi;
    RescaleEndpoints(s, iLo);
    RescaleEndpoints(s, iHi);
    assert r[iLo] == 0 && r[iHi] == 255;
    assert MinSample(r) <= r[iLo] && MaxSample(r) >= r[iHi];
  }

  /** One sample's rescale is monotone in the sample. */
  lemma RescaleSampleMonotone(v1: int, v2: int, lo: int, hi: int)
    requires lo < hi && v1 <= v2
    ensures RescaleSample(v1, lo, hi) <= RescaleSample(v2, lo, hi)
  {
    var d := (hi - lo) as real;
    var x1, x2 := 255.0 * (v1 - lo) as real, 255.0 * (v2 - lo) as real;
    DivideMonotone(x1, x2, d);
    assert Clip(x1 / d) <= Clip(x2 / d);
  }

  lemma DivideMonotone(x1: real, x2: real, d: real)
    requires x1 <= x2 && d > 0.0
    ensures x1 / d <= x2 / d
  {
    assert x2 / d - x1 / d == (x2 - x1) / d;
    assert (x2 - x1) / d * d == x2 - x1;
  }

  /** The rescale keeps the order of samples: v1 <= v2 gives out(v1) <= out(v2). */
  lemma RescaleMonotone(s: seq<int>, i: int, j: int)
    requires Rescale(s).Ok? && 0 <= i < |s| && 0 <= j < |s|
    requires s[i] <= s[j]
    ensures Rescale(s).value[i] <= Rescale(s).value[j]
  {
    RescaleSampleMonotone(s[i], s[j], MinSample(s), MaxSample(s));
  }

  /** Rescaling a rescaled buffer changes nothing. */
  lemma RescaleIdempotent(s: seq<int>)
    requires Rescale(s).Ok?
    ensures Rescale(Rescale(s).value) == Rescale(s)
  {
    var r := Rescale(s).value;
    RescaleSpansFullRange(s);
    assert Rescale(r).Ok?;
    var r2 := Rescale(r).value;
    forall i | 0 <= i < |r| ensures r2[i] == r[i] {
      RescaleAt(r, i);
      ByteRescalesToItself(r[i]);
    }
    assert |r2| == |r|;
    assert r2 == r;
  }

  /** Under the bounds 0 and 255 a byte maps to itself. */
  lemma ByteRescalesToItself(v: int)
    requires IsByte(v)
    ensures RescaleSample(v, 0, 255) == v
  {
    assert Scale(v, 0, 255) == v as real by {
      assert 255.0 * v as real / 255.0 == v as real;
    }
  }

  /** The divisor is zero exactly for a constant buffer. */
  lemma ZeroRangeIffConstant(s: seq<int>)
    requires |s| > 0
    ensures MinSample(s) == MaxSample(s) <==> forall i :: 0 <= i < |s| ==> s[i] == s[0]
  {
    if forall i :: 0 <= i < |s| ==> s[i] == s[0] {
      assert MinSample(s) == s[0] && MaxSample(s) == s[0];
    }
  }

  /** The bounds of an affinely transformed buffer, v -> a v + c with a > 0,
      are the transformed bounds. */
  lemma {:induction false} AffineBounds(s: seq<int>, a: int, c: int)
    requires |s| > 0 && a > 0
    ensures MinSample(Affine(s, a, c)) == a * MinSample(s) + c
    ensures MaxSample(Affine(s, a, c)) == a * MaxSample(s) + c
  {
    var t := Affine(s, a, c);
    if |s| > 1 {
      AffineBounds(s[1..], a, c);
      assert t[1..] == Affine(s[1..], a, c);
      var lo, hi := MinSample(s[1..]), MaxSample(s[1..]);
      assert MinSample(t[1..]) == a * lo + c && MaxSample(t[1..]) == a * hi + c;
      assert t[0] == a * s[0] + c;
      AffineMonotone(a, c, s[0], lo);
      AffineMonotone(a, c, hi, s[0]);
      assert MinSample(t) == if t[0] <= a * lo + c then t[0] else a * lo + c;
      assert MaxSample(t) == if t[0] >= a * hi + c then t[0] else a * hi + c;
    } else {
      assert t[0] == a * s[0] + c;
    }
  }

  lemma AffineMonotone(a: int, c: int, x: int, y: int)
    requires a > 0
    ensures x <= y <==> a * x + c <= a * y + c
  {
    if x <= y {
      assert a * (y - x) >= 0;
    } else {
      assert a * (x - y) > 0;
    }
  }

  /** `v -> a v + c` on every sample. */
  function Affine(s: seq<int>, a: int, c: int): (t: seq<int>)
    ensures |t| == |s|
    ensures forall i :: 0 <= i < |s| ==> t[i] == a * s[i] + c
  {
    seq(|s|, i requires 0 <= i < |s| => a * s[i] + c)
  }

  /** The rescale ignores a uniform offset and a uniform positive integer gain
      applied before it, in exact integer arithmetic. */
  lemma RescaleAffineInvariant(s: seq<int>, a: int, c: int)
    requires a > 0
    ensures Rescale(Affine(s, a, c)) == Rescale(s)
  {
    var t := Affine(s, a, c);
    if |s| > 0 {
      AffineBounds(s, a, c);
      var lo, hi := MinSample(s), MaxSample(s);
      AffineMonotone(a, c, hi, lo);
      if lo < hi {
        forall i | 0 <= i < |s|
          ensures Rescale(t).value[i] == Rescale(s).value[i]
        {
          RescaleAt(t, i);
          RescaleAt(s, i);
          AffineScale(s[i], lo, hi, a, c);
        }
        assert Rescale(t).value == Rescale(s).value;
      }
    }
  }

  lemma AffineScale(v: int, lo: int, hi: int, a: int, c: int)
    requires lo < hi && a > 0
    ensures a * lo + c < a * hi + c
    ensures Scale(a * v + c, a * lo + c, a * hi + c) == Scale(v, lo, hi)
  {
    AffineMonotone(a, c, hi, lo);
    var n, d := (v - lo) as real, (hi - lo) as real;
    assert (a * v + c) - (a * lo + c) == a * (v - lo);
    assert (a * hi + c) - (a * lo + c) == a * (hi - lo);
    var ar := a as real;
    assert (a * (v - lo)) as real == ar * n;
    assert (a * (hi - lo)) as real == ar * d;
    assert 255.0 * (ar * n) / (ar * d) == 255.0 * n / d;
  }

  /** Each plane of the output is its input plane rescaled under the bounds of
      the whole buffer, not under the plane's own bounds. */
  lemma RescalePlanes(s: seq<int>, c: nat)
    requires Rescale(s).Ok? && c < Channels
    ensures |Split(Rescale(s).value, c)| == |Split(s, c)|
    ensures forall i :: 0 <= i < |Split(s, c)| ==>
              Split(Rescale(s).value, c)[i] == RescaleSample(Split(s, c)[i], MinSample(s), MaxSample(s))
  {
    forall i | 0 <= i < |Split(s, c)|
      ensures Split(Rescale(s).value, c)[i] == RescaleSample(Split(s, c)[i], MinSample(s), MaxSample(s))
    {
      RescaleAt(s, Channels * i + c);
    }
  }

  /** The bounds are global: in a two-pixel buffer whose channel 1 holds only 0
      and 100, that channel keeps 0 and 100 because the other channels reach
      255; a per-channel stretch would have made it 0 and 255. */
  lemma RescaleUsesGlobalBounds()
    ensures Rescale([0, 0, 0, 255, 100, 255]) == Ok([0, 0, 0, 255, 100, 255])
    ensures Split([0, 0, 0, 255, 100, 255], 1) == [0, 100]
  {
    var s := [0, 0, 0, 255, 100, 255];
    assert IsByteBuffer(s);
    var lo, hi := MinSample(s), MaxSample(s);
    assert lo <= s[0] && lo in s;
    assert hi >= s[3] && hi in s;
    assert lo == 0 && hi == 255;
    var r := Rescale(s).value;
    forall i | 0 <= i < |s| ensures r[i] == s[i] {
      RescaleAt(s, i);
      ByteRescalesToItself(s[i]);
    }
    assert r == s;
    var p := Split(s, 1);
    assert p[0] == s[1] && p[1] == s[4];
  }

  /** The pixel work of `linear_contrast` before the rescale: split the image
      into its three planes, apply the brightness-and-gain step `pointOp` to
      every sample of each plane, and merge the planes back. `pointOp` stands
      for `cv2.add(plane, 50)` followed by `cv2.multiply(plane, 1.2)`, whose
      saturating arithmetic belongs to OpenCV. */
  function Enhance(img: Image, pointOp: int -> int): (e: seq<int>)
    ensures |img.samples| % Channels == 0 ==> e == MapSamples(img.samples, pointOp)
  {
    var e := Merge(MapSamples(Split(img.samples, 0), pointOp),
                   MapSamples(Split(img.samples, 1), pointOp),
                   MapSamples(Split(img.samples, 2), pointOp));
    assert |img.samples| % Channels == 0 ==> e == MapSamples(img.samples, pointOp) by {
      if |img.samples| % Channels == 0 {
        MapPlanes(img.samples, pointOp);
      }
    }
    e
  }

  /** The image `linear_contrast` displays for a loaded image: the enhanced
      buffer rescaled, with the loaded image's shape. A loaded image is never
      empty, so the only failure is the zero divisor of a constant enhanced
      buffer. */
  function LinearContrastImage(img: Image, pointOp: int -> int): (r: Result<Image, RescaleError>)
    requires img.Valid()
    ensures r.Ok? ==> r.value.Valid() && r.value.height == img.height && r.value.width == img.width
    ensures r == Err(ZeroRange) <==> r.Err?
  {
    var enhanced := Enhance(img, pointOp);
    MapPlanes(img.samples, pointOp);
    match Rescale(enhanced)
    case Ok(out) => Ok(Image(img.height, img.width, out))
    case Err(e) => Err(e)
  }

  /** Splitting, mapping and merging is the same as mapping every sample in
      place, so each displayed sample is the rescale of `pointOp` of the
      loaded sample at the same position, under the global bounds of the
      enhanced buffer; and the result fails exactly when that buffer is
      constant. */
  lemma LinearContrastAt(img: Image, pointOp: int -> int, i: int)
    requires img.Valid() && 0 <= i < |img.samples|
    ensures var e := MapSamples(img.samples, pointOp);
            var r := LinearContrastImage(img, pointOp);
            (r.Err? <==> forall k :: 0 <= k < |e| ==> e[k] == e[0]) &&
            (r.Ok? ==> MinSample(e) < MaxSample(e) &&
                       r.value.samples[i] == RescaleSample(pointOp(img.samples[i]), MinSample(e), MaxSample(e)))
  {
    var e := MapSamples(img.samples, pointOp);
    MapPlanes(img.samples, pointOp);
    assert Enhance(img, pointOp) == e;
    ZeroRangeIffConstant(e);
    if LinearContrastImage(img, pointOp).Ok? {
      RescaleAt(e, i);
    }
  }
}
